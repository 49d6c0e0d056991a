/**
  Sections of a rebuilt shared object: sorted by address, sized from their
  neighbours, and found again by address.
 */
module ElfSections {
  import opened Bytes

  const SHT_NULL: u32 := 0
  const SHT_PROGBITS: u32 := 1
  const SHT_SYMTAB: u32 := 2
  const SHT_STRTAB: u32 := 3
  const SHT_NOBITS: u32 := 8
  const SHT_INIT_ARRAY: u32 := 14
  const SHT_FINI_ARRAY: u32 := 15

  const INIT_ARRAY_NAME: seq<byte> := [0x2e, 0x69, 0x6e, 0x69, 0x74, 0x5f, 0x61, 0x72, 0x72, 0x61, 0x79]
  const FINI_ARRAY_NAME: seq<byte> := [0x2e, 0x66, 0x69, 0x6e, 0x69, 0x5f, 0x61, 0x72, 0x72, 0x61, 0x79]

  /** A section header in the making; link and info may still be names, and an
      appended section carries its bytes. */
  datatype Section = Section(
    name: seq<byte>,
    typ: u32,
    flags: u64,
    addr: u64,
    size: u64,
    hasSize: bool,
    linkName: seq<byte>,
    infoName: seq<byte>,
    info: u32,
    entsize: u64,
    align: u64,
    payload: Option<seq<byte>>)

  const NULL_SECTION := Section([], SHT_NULL, 0, 0, 0, false, [], [], 0, 0, 0, None)

  /** The allocation flag, bit 1. */
  predicate Allocated(s: Section) {
    s.flags / 2 % 2 == 1
  }

  /** The sum a 64-bit register holds. */
  function Wrap64(n: nat): u64 {
    n % 0x1_0000_0000_0000_0000
  }

  // ----- sorting -----

  function InsertByAddr(s: Section, secs: seq<Section>): (r: seq<Section>)
    ensures multiset(r) == multiset([s]) + multiset(secs) && |r| == |secs| + 1
  {
    if secs == [] || s.addr <= secs[0].addr then [s] + secs
    else
      assert secs == [secs[0]] + secs[1..];
      [secs[0]] + InsertByAddr(s, secs[1..])
  }

  /** Stable, by address. */
  function SortByAddr(secs: seq<Section>): (r: seq<Section>)
    ensures multiset(r) == multiset(secs) && |r| == |secs|
  {
    if secs == [] then []
    else
      assert secs == [secs[0]] + secs[1..];
      InsertByAddr(secs[0], SortByAddr(secs[1..]))
  }

  predicate Ascending(secs: seq<Section>) {
    forall i, j :: 0 <= i < j < |secs| ==> secs[i].addr <= secs[j].addr
  }

  predicate StrictlyAscending(secs: seq<Section>) {
    forall i, j :: 0 <= i < j < |secs| ==> secs[i].addr < secs[j].addr
  }

  predicate DistinctAddresses(secs: seq<Section>) {
    forall i, j :: 0 <= i < j < |secs| ==> secs[i].addr != secs[j].addr
  }

  lemma {:induction false} InsertAscends(s: Section, secs: seq<Section>)
    requires Ascending(secs)
    ensures Ascending(InsertByAddr(s, secs))
    decreases |secs|
  {
    if secs == [] || s.addr <= secs[0].addr {
      assert InsertByAddr(s, secs) == [s] + secs;
      AscendingCons(s, secs);
    } else {
      InsertAscends(s, secs[1..]);
      InsertHas(s, secs[1..]);
      assert InsertByAddr(s, secs) == [secs[0]] + InsertByAddr(s, secs[1..]);
      AscendingCons(secs[0], InsertByAddr(s, secs[1..]));
    }
  }

  lemma AscendingCons(s: Section, secs: seq<Section>)
    requires Ascending(secs) && forall t :: t in secs ==> s.addr <= t.addr
    ensures Ascending([s] + secs)
  {
    var r := [s] + secs;
    forall i, j | 0 <= i < j < |r| ensures r[i].addr <= r[j].addr {
      assert r[j] == secs[j - 1] && (i > 0 ==> r[i] == secs[i - 1]);
    }
  }

  lemma {:induction false} InsertHas(s: Section, secs: seq<Section>)
    ensures forall t :: t in InsertByAddr(s, secs) <==> t == s || t in secs
    decreases |secs|
  {
    if secs != [] && s.addr > secs[0].addr {
      InsertHas(s, secs[1..]);
      assert InsertByAddr(s, secs) == [secs[0]] + InsertByAddr(s, secs[1..]);
      assert secs == [secs[0]] + secs[1..];
    }
  }

  lemma {:induction false} SortAscends(secs: seq<Section>)
    ensures Ascending(SortByAddr(secs))
    decreases |secs|
  {
    if secs != [] {
      SortAscends(secs[1..]);
      InsertAscends(secs[0], SortByAddr(secs[1..]));
    }
  }

  lemma DistinctCons(s: Section, secs: seq<Section>)
    requires DistinctAddresses(secs) && forall t :: t in secs ==> s.addr != t.addr
    ensures DistinctAddresses([s] + secs)
  {
    var r := [s] + secs;
    forall i, j | 0 <= i < j < |r| ensures r[i].addr != r[j].addr {
      assert r[j] == secs[j - 1] && (i > 0 ==> r[i] == secs[i - 1]);
    }
  }

  lemma DistinctTail(secs: seq<Section>)
    requires DistinctAddresses(secs) && secs != []
    ensures DistinctAddresses(secs[1..]) && forall t :: t in secs[1..] ==> t.addr != secs[0].addr
  {
    assert forall k :: 0 <= k < |secs[1..]| ==> secs[1..][k] == secs[k + 1];
  }

  lemma {:induction false} InsertDistinct(s: Section, secs: seq<Section>)
    requires DistinctAddresses(secs) && forall t :: t in secs ==> t.addr != s.addr
    ensures DistinctAddresses(InsertByAddr(s, secs))
    decreases |secs|
  {
    hide DistinctAddresses;
    if secs == [] || s.addr <= secs[0].addr {
      assert InsertByAddr(s, secs) == [s] + secs;
      DistinctCons(s, secs);
    } else {
      DistinctTail(secs);
      assert forall t :: t in secs[1..] ==> t in secs;
      InsertDistinct(s, secs[1..]);
      InsertHas(s, secs[1..]);
      assert InsertByAddr(s, secs) == [secs[0]] + InsertByAddr(s, secs[1..]);
      DistinctCons(secs[0], InsertByAddr(s, secs[1..]));
    }
  }

  lemma {:induction false} SortDistinct(secs: seq<Section>)
    requires DistinctAddresses(secs)
    ensures DistinctAddresses(SortByAddr(secs))
    decreases |secs|
  {
    hide DistinctAddresses;
    if secs == [] {
      assert SortByAddr(secs) == secs;
    } else {
      DistinctTail(secs);
      SortDistinct(secs[1..]);
      forall t | t in SortByAddr(secs[1..]) ensures t.addr != secs[0].addr {
        assert t in multiset(SortByAddr(secs[1..]));
        assert t in secs[1..];
      }
      InsertDistinct(secs[0], SortByAddr(secs[1..]));
    }
  }

  /** Sorting rearranges, ascending; distinct addresses end up strictly so. */
  lemma SortIs(secs: seq<Section>)
    ensures Ascending(SortByAddr(secs)) && multiset(SortByAddr(secs)) == multiset(secs)
    ensures DistinctAddresses(secs) ==> StrictlyAscending(SortByAddr(secs))
  {
    SortAscends(secs);
    if DistinctAddresses(secs) {
      SortDistinct(secs);
    }
  }

  // ----- sizes from neighbours -----

  /** Where the neighbour of section `i` starts, or the image ends. */
  function NextStart(secs: seq<Section>, i: nat, loadFileEnd: u64, maxVaddr: u64): u64
    requires i < |secs|
  {
    if i + 1 < |secs| then secs[i + 1].addr else if secs[i].typ == SHT_NOBITS then maxVaddr else loadFileEnd
  }

  /** An unsized section grows to its neighbour, a sized one is cut there. */
  function SizeTo(s: Section, next: u64): Section {
    if next <= s.addr then s
    else if !s.hasSize || s.size > next - s.addr then s.(size := next - s.addr) else s
  }

  function SizeAll(secs: seq<Section>, loadFileEnd: u64, maxVaddr: u64): (r: seq<Section>)
    ensures |r| == |secs|
  {
    seq(|secs|, i requires 0 <= i < |secs| => SizeTo(secs[i], NextStart(secs, i, loadFileEnd, maxVaddr)))
  }

  /** The size pass, in place. */
  method SizePass(body: array<Section>, loadFileEnd: u64, maxVaddr: u64)
    modifies body
    ensures body[..] == SizeAll(old(body[..]), loadFileEnd, maxVaddr)
  {
    ghost var before := body[..];
    for i := 0 to body.Length
      invariant forall k :: 0 <= k < i ==> body[k] == SizeTo(before[k], NextStart(before, k, loadFileEnd, maxVaddr))
      invariant forall k :: i <= k < body.Length ==> body[k] == before[k]
    {
      var next := if i + 1 < body.Length then body[i + 1].addr
                  else if body[i].typ == SHT_NOBITS then maxVaddr else loadFileEnd;
      if next > body[i].addr {
        var gap := next - body[i].addr;
        if !body[i].hasSize || body[i].size > gap {
          body[i] := body[i].(size := gap);
        }
      }
    }
    assert body[..] == SizeAll(before, loadFileEnd, maxVaddr);
  }

  /** `value` lies in the section, whose end is computed in 64 bits. */
  predicate Contains(s: Section, value: u64) {
    Allocated(s) && s.size != 0 && s.addr <= value < Wrap64(s.addr + s.size)
  }

  lemma WrapSmaller(n: nat)
    ensures Wrap64(n) <= n
  {
  }

  ghost predicate DisjointSections(secs: seq<Section>) {
    forall i, j, value: u64 :: 0 <= i < |secs| && 0 <= j < |secs| && Contains(secs[i], value) && Contains(secs[j], value) ==> i == j
  }

  /** The section holds its own start, and so anything at all. */
  predicate Nonempty(s: Section) {
    Contains(s, s.addr)
  }

  lemma ContainsStart(s: Section, value: u64)
    requires Contains(s, value)
    ensures Nonempty(s) && Allocated(s)
  {
  }

  /** The pass leaves a section alone when the next one starts where it does. */
  lemma SharedStartKept(secs: seq<Section>, loadFileEnd: u64, maxVaddr: u64, i: nat)
    requires i + 1 < |secs| && secs[i + 1].addr <= secs[i].addr
    ensures SizeAll(secs, loadFileEnd, maxVaddr)[i] == secs[i]
  {
  }

  /** Section `i` shares its start with the next one, so keeps its size, and
      reaches past the start of a later section that is not empty. */
  predicate Clash(secs: seq<Section>, sized: seq<Section>, i: nat, j: nat)
    requires i < j < |secs| == |sized|
  {
    && secs[i].addr == secs[i + 1].addr && Nonempty(secs[i]) && Nonempty(sized[j])
    && secs[j].addr < Wrap64(secs[i].addr + secs[i].size)
  }

  predicate SharedStartsApart(secs: seq<Section>, loadFileEnd: u64, maxVaddr: u64) {
    forall i, j :: 0 <= i < j < |secs| ==> !Clash(secs, SizeAll(secs, loadFileEnd, maxVaddr), i, j)
  }

  lemma SizedAddr(secs: seq<Section>, loadFileEnd: u64, maxVaddr: u64, i: nat)
    requires i < |secs|
    ensures SizeAll(secs, loadFileEnd, maxVaddr)[i].addr == secs[i].addr
  {
  }

  /** After the pass, a section ends where a later one starts, or before, or the
      next one shares its start. */
  lemma SizedEndsBeforeNext(secs: seq<Section>, loadFileEnd: u64, maxVaddr: u64, i: nat, j: nat)
    requires Ascending(secs) && i < j < |secs| && secs[i].addr != secs[i + 1].addr
    ensures var s := SizeAll(secs, loadFileEnd, maxVaddr)[i]; Wrap64(s.addr + s.size) <= secs[j].addr
  {
    hide Wrap64;
    var s := SizeAll(secs, loadFileEnd, maxVaddr)[i];
    assert secs[i].addr < secs[i + 1].addr && (i + 1 == j || secs[i + 1].addr <= secs[j].addr);
    assert s.addr + s.size <= secs[i + 1].addr;
    WrapSmaller(s.addr + s.size);
  }

  /** Two sections of a sorted list, after the pass. */
  lemma PairApart(secs: seq<Section>, loadFileEnd: u64, maxVaddr: u64, i: nat, j: nat, value: u64)
    requires Ascending(secs) && SharedStartsApart(secs, loadFileEnd, maxVaddr) && i < j < |secs|
    ensures var sized := SizeAll(secs, loadFileEnd, maxVaddr); !(Contains(sized[i], value) && Contains(sized[j], value))
  {
    hide Wrap64, SizeAll, Allocated;
    var sized := SizeAll(secs, loadFileEnd, maxVaddr);
    SizedAddr(secs, loadFileEnd, maxVaddr, i);
    SizedAddr(secs, loadFileEnd, maxVaddr, j);
    assert !Clash(secs, sized, i, j);
    if Contains(sized[i], value) && Contains(sized[j], value) {
      ContainsStart(sized[i], value);
      ContainsStart(sized[j], value);
      if secs[i].addr == secs[i + 1].addr {
        SharedStartKept(secs, loadFileEnd, maxVaddr, i);
      } else {
        SizedEndsBeforeNext(secs, loadFileEnd, maxVaddr, i, j);
      }
      assert false;
    }
  }

  /** Two sections that do overlap, when that condition fails. */
  lemma PairOverlaps(secs: seq<Section>, loadFileEnd: u64, maxVaddr: u64, i: nat, j: nat)
    requires Ascending(secs) && i < j < |secs| && Clash(secs, SizeAll(secs, loadFileEnd, maxVaddr), i, j)
    ensures var sized := SizeAll(secs, loadFileEnd, maxVaddr);
            Contains(sized[i], secs[j].addr) && Contains(sized[j], secs[j].addr)
  {
    hide Wrap64, SizeAll, Allocated;
    SharedStartKept(secs, loadFileEnd, maxVaddr, i);
    SizedAddr(secs, loadFileEnd, maxVaddr, j);
  }

  lemma SizedIsDisjoint(secs: seq<Section>, loadFileEnd: u64, maxVaddr: u64)
    requires Ascending(secs)
    ensures DisjointSections(SizeAll(secs, loadFileEnd, maxVaddr)) <==> SharedStartsApart(secs, loadFileEnd, maxVaddr)
  {
    hide Clash, SizeAll, Contains;
    var sized := SizeAll(secs, loadFileEnd, maxVaddr);
    if SharedStartsApart(secs, loadFileEnd, maxVaddr) {
      forall i, j, value: u64 | 0 <= i < |sized| && 0 <= j < |sized| && Contains(sized[i], value) && Contains(sized[j], value)
        ensures i == j
      {
        if i < j {
          PairApart(secs, loadFileEnd, maxVaddr, i, j, value);
        } else if j < i {
          PairApart(secs, loadFileEnd, maxVaddr, j, i, value);
        }
      }
    } else {
      var i, j :| 0 <= i < j < |secs| && Clash(secs, sized, i, j);
      PairOverlaps(secs, loadFileEnd, maxVaddr, i, j);
    }
  }

  /** Sorting and sizing leaves allocatable ranges pairwise disjoint exactly when
      sections that share a start are apart as they are; in particular when all
      start addresses are distinct. */
  lemma NeighbourSizingIsDisjoint(body: seq<Section>, loadFileEnd: u64, maxVaddr: u64)
    ensures DisjointSections(SizeAll(SortByAddr(body), loadFileEnd, maxVaddr))
            <==> SharedStartsApart(SortByAddr(body), loadFileEnd, maxVaddr)
    ensures DistinctAddresses(body) ==> SharedStartsApart(SortByAddr(body), loadFileEnd, maxVaddr)
  {
    hide SizeAll, SortByAddr, Nonempty, Wrap64, DisjointSections;
    SortIs(body);
    SizedIsDisjoint(SortByAddr(body), loadFileEnd, maxVaddr);
  }

  /** It fails for two arrays the dynamic table puts at one address. */
  lemma SharedStartOverlaps()
    ensures var starts := Section(INIT_ARRAY_NAME, SHT_INIT_ARRAY, 3, 0x100, 0x20, true, [], [], 0, 8, 8, None);
            var stops := Section(FINI_ARRAY_NAME, SHT_FINI_ARRAY, 3, 0x100, 0x10, true, [], [], 0, 8, 8, None);
            var sized := SizeAll(SortByAddr([starts, stops]), 0x200, 0x200);
            && Contains(sized[0], 0x108) && Contains(sized[1], 0x108)
            && !SharedStartsApart(SortByAddr([starts, stops]), 0x200, 0x200)
  {
    var starts := Section(INIT_ARRAY_NAME, SHT_INIT_ARRAY, 3, 0x100, 0x20, true, [], [], 0, 8, 8, None);
    var stops := Section(FINI_ARRAY_NAME, SHT_FINI_ARRAY, 3, 0x100, 0x10, true, [], [], 0, 8, 8, None);
    assert SortByAddr([stops]) == [stops];
    assert SortByAddr([starts, stops]) == [starts, stops] by {
      assert [starts, stops][1..] == [stops];
    }
    assert Clash([starts, stops], SizeAll([starts, stops], 0x200, 0x200), 0, 1);
  }

  /** It can hold although a start is shared: a section that announced no size
      stays empty there. */
  lemma SharedStartMayBeEmpty()
    ensures var bare := Section(INIT_ARRAY_NAME, SHT_INIT_ARRAY, 3, 0x100, 0, false, [], [], 0, 8, 8, None);
            var stops := Section(FINI_ARRAY_NAME, SHT_FINI_ARRAY, 3, 0x100, 0x10, true, [], [], 0, 8, 8, None);
            !DistinctAddresses([bare, stops]) && SharedStartsApart(SortByAddr([bare, stops]), 0x200, 0x200)
  {
    var bare := Section(INIT_ARRAY_NAME, SHT_INIT_ARRAY, 3, 0x100, 0, false, [], [], 0, 8, 8, None);
    var stops := Section(FINI_ARRAY_NAME, SHT_FINI_ARRAY, 3, 0x100, 0x10, true, [], [], 0, 8, 8, None);
    assert [bare, stops][1..] == [stops];
    assert SortByAddr([stops]) == [stops];
    assert SortByAddr([bare, stops]) == [bare, stops];
  }

  // ----- finding a section -----

  /** The first section from `i` on that contains `value`, or the count. */
  function FindFrom(secs: seq<Section>, value: u64, i: nat): (k: nat)
    requires i <= |secs|
    ensures i <= k <= |secs|
    ensures k < |secs| ==> Contains(secs[k], value)
    ensures forall j :: i <= j < k ==> !Contains(secs[j], value)
    decreases |secs| - i
  {
    if i == |secs| || Contains(secs[i], value) then i else FindFrom(secs, value, i + 1)
  }

  /** `section_index_of`: 0 when no section contains `value`; the index is cast
      to 16 bits. */
  function SectionIndexOf(secs: seq<Section>, value: u64): u16 {
    var k := FindFrom(secs, value, 0);
    if k == |secs| then 0 else k % 0x1_0000
  }

  method FindSection(secs: seq<Section>, value: u64) returns (index: u16)
    ensures index == SectionIndexOf(secs, value)
  {
    for i := 0 to |secs|
      invariant forall j :: 0 <= j < i ==> !Contains(secs[j], value)
    {
      if Contains(secs[i], value) {
        assert FindFrom(secs, value, 0) == i;
        return i % 0x1_0000;
      }
    }
    return 0;
  }

  /** The section list of a rebuilt file: a null entry, the sized sections, and
      sections that are not loaded. */
  ghost predicate RebuiltList(secs: seq<Section>, sized: seq<Section>) {
    && |secs| > |sized| && |secs| <= 0xff00
    && !Allocated(secs[0])
    && (forall i :: 0 <= i < |sized| ==> secs[i + 1] == sized[i])
    && (forall i :: |sized| < i < |secs| ==> !Allocated(secs[i]))
  }

  /** Looking any address up gives its section's index, and only that. */
  ghost predicate LooksUpExactly(secs: seq<Section>) {
    forall k, value: u64 :: 0 < k < |secs| ==> (SectionIndexOf(secs, value) == k <==> Contains(secs[k], value))
  }

  /** A section of the list that contains anything is one of the sized ones. */
  lemma SizedHolds(secs: seq<Section>, sized: seq<Section>, k: nat, value: u64)
    requires RebuiltList(secs, sized) && k < |secs| && Contains(secs[k], value)
    ensures 0 < k <= |sized| && secs[k] == sized[k - 1]
  {
    hide Wrap64, Contains;
    ContainsStart(secs[k], value);
    assert k > 0 ==> k <= |sized|;
    assert secs[k - 1 + 1] == sized[k - 1];
  }

  lemma ListIsDisjoint(secs: seq<Section>, sized: seq<Section>)
    requires RebuiltList(secs, sized)
    ensures DisjointSections(secs) <==> DisjointSections(sized)
  {
    hide Contains;
    if DisjointSections(sized) {
      forall i, j, v: u64 | 0 <= i < |secs| && 0 <= j < |secs| && Contains(secs[i], v) && Contains(secs[j], v)
        ensures i == j
      {
        SizedHolds(secs, sized, i, v);
        SizedHolds(secs, sized, j, v);
        assert Contains(sized[i - 1], v) && Contains(sized[j - 1], v);
      }
    } else {
      var i, j, v: u64 :| 0 <= i < |sized| && 0 <= j < |sized| && Contains(sized[i], v) && Contains(sized[j], v) && i != j;
      assert secs[i + 1] == sized[i] && secs[j + 1] == sized[j];
    }
  }

  /** An address in no section, and only that, looks up as 0. */
  lemma MissesAreZero(secs: seq<Section>, sized: seq<Section>, value: u64)
    requires RebuiltList(secs, sized)
    ensures SectionIndexOf(secs, value) == 0 <==> forall k :: 0 <= k < |secs| ==> !Contains(secs[k], value)
  {
    hide Contains;
    var k := FindFrom(secs, value, 0);
    if k < |secs| {
      SizedHolds(secs, sized, k, value);
    }
  }

  /** In a rebuilt list an address has at most one section, and the lookup finds
      exactly it, exactly when sections that share a start are apart. */
  lemma IndexIsExact(secs: seq<Section>, body: seq<Section>, loadFileEnd: u64, maxVaddr: u64)
    requires RebuiltList(secs, SizeAll(SortByAddr(body), loadFileEnd, maxVaddr))
    ensures DisjointSections(secs) <==> SharedStartsApart(SortByAddr(body), loadFileEnd, maxVaddr)
    ensures LooksUpExactly(secs) <==> DisjointSections(secs)
    ensures forall value: u64 :: SectionIndexOf(secs, value) == 0 <==> forall k :: 0 <= k < |secs| ==> !Contains(secs[k], value)
  {
    hide SizeAll, SortByAddr, SharedStartsApart, RebuiltList, DisjointSections, LooksUpExactly, Contains, SectionIndexOf;
    var sized := SizeAll(SortByAddr(body), loadFileEnd, maxVaddr);
    NeighbourSizingIsDisjoint(body, loadFileEnd, maxVaddr);
    ListIsDisjoint(secs, sized);
    LookupIsExact(secs, sized);
    forall value: u64
      ensures SectionIndexOf(secs, value) == 0 <==> forall k :: 0 <= k < |secs| ==> !Contains(secs[k], value)
    {
      MissesAreZero(secs, sized, value);
    }
  }

  lemma LookupIsExact(secs: seq<Section>, sized: seq<Section>)
    requires RebuiltList(secs, sized)
    ensures LooksUpExactly(secs) <==> DisjointSections(secs)
  {
    hide Contains;
    if DisjointSections(secs) {
      forall k, value: u64 | 0 < k < |secs|
        ensures SectionIndexOf(secs, value) == k <==> Contains(secs[k], value)
      {
        var found := FindFrom(secs, value, 0);
      }
    } else {
      var i, j, v: u64 :| 0 <= i < |secs| && 0 <= j < |secs| && Contains(secs[i], v) && Contains(secs[j], v) && i != j;
      SizedHolds(secs, sized, i, v);
      SizedHolds(secs, sized, j, v);
      assert !(SectionIndexOf(secs, v) == i && SectionIndexOf(secs, v) == j);
    }
  }
}
