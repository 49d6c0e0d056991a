/**
  Program headers of a rebuilt shared object, read from the file: file offsets
  are the addresses of the image, and loaded segments are there as a whole.
 */
module ElfSegments {
  import opened Bytes
  import opened ElfSections
  import opened ElfLayout
  import opened ElfRebuild
  import opened ElfProofs
  import opened ElfReadBack
  import opened ElfDiscovery
  import opened RebuiltFile

  /** A program header, whatever the class. */
  datatype Phdr = Phdr(typ: u32, off: u64, vaddr: u64, paddr: u64, filesz: u64, memsz: u64)

  function ReadPhdr(l: Layout, b: seq<byte>, at: nat): Phdr
    requires at + l.PhdrSize() <= |b|
  {
    var w := l.Word();
    Phdr(Le32(b, at), l.ReadAddr(b, at + w), l.ReadAddr(b, at + 2 * w), l.ReadAddr(b, at + 3 * w), l.ReadAddr(b, at + 4 * w),
         l.ReadAddr(b, at + 5 * w))
  }

  /** What becomes of a header: its bytes lie where they are loaded, and a loaded
      segment lies there up to its size in memory. */
  function Imaged(h: Phdr): Phdr {
    h.(off := h.vaddr, filesz := if h.typ == PT_LOAD && h.memsz > h.filesz then h.memsz else h.filesz)
  }

  // ----- one header -----

  /** The bytes of `b` and `c` from `lo` to `hi` are the same. */
  ghost predicate SameSpan(b: seq<byte>, c: seq<byte>, lo: nat, hi: nat) {
    hi <= |b| && hi <= |c| && forall x :: lo <= x < hi ==> b[x] == c[x]
  }

  lemma SameAddr(l: Layout, b: seq<byte>, c: seq<byte>, lo: nat, hi: nat, o: nat)
    requires SameSpan(b, c, lo, hi) && lo <= o && o + l.Word() <= hi
    ensures l.ReadAddr(b, o) == l.ReadAddr(c, o)
  {
  }

  lemma SamePhdr(l: Layout, b: seq<byte>, c: seq<byte>, at: nat)
    requires SameSpan(b, c, at, at + l.PhdrSize())
    ensures ReadPhdr(l, b, at) == ReadPhdr(l, c, at)
  {
    hide Layout.ReadAddr, SameSpan;
    var w, hi := l.Word(), at + l.PhdrSize();
    SameAddr(l, b, c, at, hi, at + w);
    SameAddr(l, b, c, at, hi, at + 2 * w);
    SameAddr(l, b, c, at, hi, at + 3 * w);
    SameAddr(l, b, c, at, hi, at + 4 * w);
    SameAddr(l, b, c, at, hi, at + 5 * w);
    SameType(b, c, at, hi);
  }

  lemma SameType(b: seq<byte>, c: seq<byte>, at: nat, hi: nat)
    requires SameSpan(b, c, at, hi) && at + 4 <= hi
    ensures Le32(b, at) == Le32(c, at)
  {
  }

  lemma PatchedAddr(l: Layout, b: seq<byte>, o: nat, v: u64)
    requires o + l.Word() <= |b|
    ensures l.ReadAddr(Patch(b, o, l.PutAddr(v)), o) == l.Fit(v)
  {
    hide Layout.ReadAddr, Layout.PutAddr;
    var r := Patch(b, o, l.PutAddr(v));
    assert r[o..o + |l.PutAddr(v)|] == l.PutAddr(v);
    HeldAddr(l, r, o, v);
  }

  lemma ReadFits(l: Layout, b: seq<byte>, o: nat)
    requires o + l.Word() <= |b|
    ensures l.Fit(l.ReadAddr(b, o)) == l.ReadAddr(b, o)
  {
    hide Le32, Le64;
  }

  /** Patching one address field of a header changes that field alone. */
  lemma PatchedPhdr(l: Layout, b: seq<byte>, at: nat, k: nat, v: u64)
    requires at + l.PhdrSize() <= |b| && k in {1, 4} && l.Fit(v) == v
    ensures var h, r := ReadPhdr(l, b, at), ReadPhdr(l, Patch(b, at + k * l.Word(), l.PutAddr(v)), at);
            r == if k == 1 then h.(off := v) else h.(filesz := v)
  {
    hide Layout.ReadAddr, Layout.PutAddr, Layout.Fit, Le32;
    var w, o := l.Word(), at + k * l.Word();
    var c := Patch(b, o, l.PutAddr(v));
    PatchedAddr(l, b, o, v);
    var hi := at + l.PhdrSize();
    assert SameSpan(b, c, at, o) && SameSpan(b, c, o + w, hi);
    SameType(b, c, at, o);
    if k == 1 {
      SameAddr(l, b, c, o + w, hi, at + 4 * w);
    } else {
      SameAddr(l, b, c, at, o, at + w);
      SameAddr(l, b, c, at, o, at + 2 * w);
      SameAddr(l, b, c, at, o, at + 3 * w);
    }
    if k == 1 {
      SameAddr(l, b, c, o + w, hi, at + 2 * w);
      SameAddr(l, b, c, o + w, hi, at + 3 * w);
    }
    SameAddr(l, b, c, o + w, hi, at + 5 * w);
  }

  /** Fixing a header makes it that of the image. */
  lemma FixedIsImaged(l: Layout, b: seq<byte>, at: nat)
    requires at + l.PhdrSize() <= |b|
    ensures ReadPhdr(l, FixPhdr(l, b, at), at) == Imaged(ReadPhdr(l, b, at))
  {
    hide Layout.ReadAddr, Layout.PutAddr, Layout.Fit, Le32;
    var h := ReadPhdr(l, b, at);
    var placed := Patch(b, at + 1 * l.Word(), l.PutAddr(h.vaddr));
    ReadFits(l, b, at + 2 * l.Word());
    ReadFits(l, b, at + 5 * l.Word());
    PatchedPhdr(l, b, at, 1, h.vaddr);
    PatchedPhdr(l, placed, at, 4, h.memsz);
  }

  // ----- the whole table -----

  /** No patched field of another program header overlaps header `i`. */
  ghost predicate OwnHeader(l: Layout, phoff: nat, entsize: nat, count: nat, i: nat) {
    forall k, x :: 0 <= k < count && k != i && InHeader(l, PhdrOff(phoff, entsize, i), x) ==>
      !PhdrField(l, PhdrOff(phoff, entsize, k), x)
  }

  ghost predicate InHeader(l: Layout, at: nat, x: int) {
    at <= x < at + l.PhdrSize()
  }

  lemma FixOther(l: Layout, b: seq<byte>, other: nat, at: nat)
    requires other + l.PhdrSize() <= |b| && at + l.PhdrSize() <= |b|
    requires forall x :: InHeader(l, at, x) ==> !PhdrField(l, other, x)
    ensures SameSpan(b, FixPhdr(l, b, other), at, at + l.PhdrSize())
  {
    hide FixPhdr, PhdrField;
    forall x | at <= x < at + l.PhdrSize() ensures b[x] == FixPhdr(l, b, other)[x] {
      assert InHeader(l, at, x);
      FixPhdrFrame(l, b, other, x);
    }
  }

  lemma {:induction false} FixOthers(l: Layout, b: seq<byte>, phoff: nat, entsize: nat, count: nat, j: nat, i: nat)
    requires i < j && OwnHeader(l, phoff, entsize, count, i) && PhdrOff(phoff, entsize, i) + l.PhdrSize() <= |b|
    ensures var at := PhdrOff(phoff, entsize, i);
            ReadPhdr(l, FixPhdrs(l, b, phoff, entsize, count, j), at) == ReadPhdr(l, b, at)
    decreases count - j
  {
    hide FixPhdr, PhdrOff, ReadPhdr, PhdrField;
    var at, other := PhdrOff(phoff, entsize, i), PhdrOff(phoff, entsize, j);
    if j < count && other + l.PhdrSize() <= |b| {
      FixOther(l, b, other, at);
      SamePhdr(l, b, FixPhdr(l, b, other), at);
      FixOthers(l, FixPhdr(l, b, other), phoff, entsize, count, j + 1, i);
    }
  }

  lemma Earlier(phoff: nat, entsize: nat, j: nat, i: nat)
    requires j <= i
    ensures PhdrOff(phoff, entsize, j) <= PhdrOff(phoff, entsize, i)
  {
    assert (i - j) * entsize >= 0;
    assert i * entsize == j * entsize + (i - j) * entsize;
  }

  /** The pass reaches every header inside the file, and fixes it once. */
  lemma {:induction false} FixedFrom(l: Layout, b: seq<byte>, phoff: nat, entsize: nat, count: nat, j: nat, i: nat)
    requires j <= i < count && OwnHeader(l, phoff, entsize, count, i) && PhdrOff(phoff, entsize, i) + l.PhdrSize() <= |b|
    ensures var at := PhdrOff(phoff, entsize, i);
            ReadPhdr(l, FixPhdrs(l, b, phoff, entsize, count, j), at) == Imaged(ReadPhdr(l, b, at))
    decreases i - j
  {
    hide FixPhdr, PhdrOff, ReadPhdr, Imaged, PhdrField;
    var at, other := PhdrOff(phoff, entsize, i), PhdrOff(phoff, entsize, j);
    Earlier(phoff, entsize, j, i);
    if j < i {
      FixOther(l, b, other, at);
      SamePhdr(l, b, FixPhdr(l, b, other), at);
      FixedFrom(l, FixPhdr(l, b, other), phoff, entsize, count, j + 1, i);
    } else {
      FixedIsImaged(l, b, at);
      FixOthers(l, FixPhdr(l, b, at), phoff, entsize, count, i + 1, i);
    }
  }

  /** A program header inside the image that overlaps nothing else the rebuild
      patches: no other header's fields, no field of the file header that
      describes the section table, no dynamic symbol's index. */
  ghost predicate Undisturbed(l: Layout, found: Found, i: nat) {
    var at := PhdrOff(found.phoff, found.phentsize, i);
    && OwnHeader(l, found.phoff, found.phentsize, found.phnum, i)
    && forall x :: InHeader(l, at, x) ==> !InTableFields(l, x) && !InSymIndex(l, found, x)
  }

  lemma RemapKeepsHeader(l: Layout, image: seq<byte>, found: Found, secs: seq<Section>, i: nat)
    requires i < found.phnum && Undisturbed(l, found, i) && PhdrOff(found.phoff, found.phentsize, i) + l.PhdrSize() <= |image|
    ensures var at := PhdrOff(found.phoff, found.phentsize, i);
            ReadPhdr(l, Patched(l, image, found, secs), at)
            == ReadPhdr(l, FixPhdrs(l, image, found.phoff, found.phentsize, found.phnum, 0), at)
  {
    hide FixPhdrs, RemapFrom, ReadPhdr, PhdrOff, InTableFields, OwnHeader;
    var at := PhdrOff(found.phoff, found.phentsize, i);
    var fixed := FixPhdrs(l, image, found.phoff, found.phentsize, found.phnum, 0);
    match found.dynsym
    case None =>
    case Some((addr, count)) =>
      hide SymIndexField;
      var r := RemapFrom(l, fixed, addr, count, secs, 0);
      forall x | at <= x < at + l.PhdrSize() ensures fixed[x] == r[x] {
        assert InHeader(l, at, x);
        RemapFrame(l, fixed, addr, count, secs, 0, x);
      }
      SamePhdr(l, fixed, r, at);
  }

  /** In the rebuilt file, every such header says where its bytes are in the file,
      namely at their address, and a loaded segment is all there; type, addresses
      and memory size are those of the image. */
  lemma SegmentHeadersAre(l: Layout, image: seq<byte>, found: Found, injected: seq<InjectedSym>, i: nat)
    requires l.EhdrSize() <= |image| && i < found.phnum && Undisturbed(l, found, i)
    requires PhdrOff(found.phoff, found.phentsize, i) + l.PhdrSize() <= |image|
    ensures var r, at := Rebuild(l, image, found, injected), PhdrOff(found.phoff, found.phentsize, i);
            at + l.PhdrSize() <= |r| && ReadPhdr(l, r, at) == Imaged(ReadPhdr(l, image, at))
  {
    hide Patched, Appended, SetHeader, FixPhdrs, AllSections, LoadedList, ReadPhdr, PhdrOff, InTableFields, OwnHeader, InSymIndex, Imaged;
    var at := PhdrOff(found.phoff, found.phentsize, i);
    var secs := RebuiltSections(l, found, injected);
    var patched := Patched(l, image, found, secs);
    var (data, shoff) := Appended(l, patched, secs);
    SomeSections(l, found, injected);
    var r := SetHeader(l, data, shoff, |secs|, |secs| - 1);
    assert r == Rebuild(l, image, found, injected);
    forall x | at <= x < at + l.PhdrSize() ensures patched[x] == r[x] {
      assert InHeader(l, at, x);
      PrefixAt(patched, data, x);
      SetHeaderFrame(l, data, shoff, |secs|, |secs| - 1, x);
    }
    SamePhdr(l, patched, r, at);
    RemapKeepsHeader(l, image, found, secs, i);
    FixedFrom(l, image, found.phoff, found.phentsize, found.phnum, 0, i);
  }

  /** A little-endian ELF file of either class that holds its whole header. */
  lemma OpenImageIs(image: seq<byte>, l: Layout)
    ensures OpenImage(image) == Ok(l) <==>
              && |image| >= 16 && image[0] == 0x7f && image[1] == 'E' as int && image[2] == 'L' as int && image[3] == 'F' as int
              && image[4] == (if l.is64 then 2 else 1) && image[5] == 1 && |image| >= (if l.is64 then 64 else 52)
  {
    if |image| >= 16 {
      var magic := image[..4];
      assert magic == [0x7f, 0x45, 0x4c, 0x46] <==> magic[0] == 0x7f && magic[1] == 0x45 && magic[2] == 0x4c && magic[3] == 0x46;
    }
  }

  /** The same from image to file, the table being where the file header of the
      image says: its offset, its entry size, zero standing for the usual one, and
      its count. */
  lemma RebuiltSegments(image: seq<byte>, injected: seq<InjectedSym>, l: Layout, found: Found, r: seq<byte>, i: nat)
    requires l.EhdrSize() <= |image| && i < Le16(image, l.Pick(56, 44)) && Undisturbed(l, found, i)
    requires SegmentAt(l, image, i) + l.PhdrSize() <= |image|
    requires OpenImage(image) == Ok(l) && Discover(l, image) == Ok(found) && RebuildSo(image, injected) == Ok(r)
    ensures ReadsImaged(l, image, r, SegmentAt(l, image, i))
  {
    hide Rebuild, ReadPhdr, Imaged, Undisturbed, SegmentsFrom, FixPhdrs, FindSections, TagsFrom, LoadFileEnd, MaxVaddr, Layout.ReadAddr, Le16,
      OpenImage;
    SegmentHeadersAre(l, image, found, injected, i);
  }

  /** The header at `at` of the file is that of the image, brought to the image. */
  ghost predicate ReadsImaged(l: Layout, image: seq<byte>, r: seq<byte>, at: nat) {
    at + l.PhdrSize() <= |image| && at + l.PhdrSize() <= |r| && ReadPhdr(l, r, at) == Imaged(ReadPhdr(l, image, at))
  }

  /** Where the file header of the image places program header `i`. */
  ghost function SegmentAt(l: Layout, image: seq<byte>, i: nat): nat
    requires l.EhdrSize() <= |image|
  {
    l.ReadAddr(image, l.Pick(32, 28)) + Rows(i, Le16(image, l.Pick(54, 42)), l.Pick(56, 32))
  }

  /** `i` rows of a size that, when zero, is the usual one. */
  ghost function Rows(i: nat, size: nat, usual: nat): nat {
    i * if size == 0 then usual else size
  }

  // ----- what the headers say -----

  /** The program headers of an image up to the first that does not fit. */
  ghost function HeadersFrom(l: Layout, b: seq<byte>, phoff: nat, entsize: nat, count: nat, j: nat): seq<Phdr>
    decreases count - j
  {
    var at := PhdrOff(phoff, entsize, j);
    if j >= count || at + l.PhdrSize() > |b| then []
    else [ReadPhdr(l, b, at)] + HeadersFrom(l, b, phoff, entsize, count, j + 1)
  }

  lemma {:induction false} HeadersSame(l: Layout, b: seq<byte>, c: seq<byte>, phoff: nat, entsize: nat, count: nat, j: nat)
    requires |b| == |c|
    requires forall i :: j <= i < count && PhdrOff(phoff, entsize, i) + l.PhdrSize() <= |b| ==>
               SameSpan(b, c, PhdrOff(phoff, entsize, i), PhdrOff(phoff, entsize, i) + l.PhdrSize())
    ensures HeadersFrom(l, b, phoff, entsize, count, j) == HeadersFrom(l, c, phoff, entsize, count, j)
    decreases count - j
  {
    hide PhdrOff, ReadPhdr, SameSpan;
    var at := PhdrOff(phoff, entsize, j);
    if j < count && at + l.PhdrSize() <= |b| {
      SamePhdr(l, b, c, at);
      HeadersSame(l, b, c, phoff, entsize, count, j + 1);
    }
  }

  /** What is noted of some headers: the loaded segments in order, and the last
      dynamic one. */
  ghost function Noted(hs: seq<Phdr>): (s: Segments)
    ensures forall h :: h in hs && h.typ == 1 ==> LoadSeg(h.vaddr, h.filesz, h.memsz) in s.loads
    ensures forall seg :: seg in s.loads ==> exists h :: h in hs && h.typ == 1 && seg == LoadSeg(h.vaddr, h.filesz, h.memsz)
  {
    if hs == [] then NO_SEGMENTS
    else
      var before, h := Noted(hs[..|hs| - 1]), hs[|hs| - 1];
      assert forall g :: g in hs <==> g == h || g in hs[..|hs| - 1];
      if h.typ == 1 then before.(loads := before.loads + [LoadSeg(h.vaddr, h.filesz, h.memsz)])
      else if h.typ == 2 then before.(dynAddr := h.vaddr, dynSize := h.memsz)
      else before
  }

  ghost function After(segs: Segments, h: Phdr): Segments {
    if h.typ == 1 then segs.(loads := segs.loads + [LoadSeg(h.vaddr, h.filesz, h.memsz)])
    else if h.typ == 2 then segs.(dynAddr := h.vaddr, dynSize := h.memsz)
    else segs
  }

  lemma NoteIs(l: Layout, b: seq<byte>, at: nat, segs: Segments)
    requires at + l.PhdrSize() <= |b|
    ensures NoteSegment(l, b, at, segs) == After(segs, ReadPhdr(l, b, at))
  {
    hide Layout.ReadAddr, Le32;
  }

  /** The header table has no overlaps within itself. */
  ghost predicate OwnHeaders(l: Layout, phoff: nat, entsize: nat, count: nat) {
    forall i :: 0 <= i < count ==> OwnHeader(l, phoff, entsize, count, i)
  }

  lemma {:induction false} SegmentsAreNoted(
    l: Layout, b: seq<byte>, phoff: nat, entsize: nat, count: nat, j: nat, before: seq<Phdr>)
    requires OwnHeaders(l, phoff, entsize, count)
    ensures SegmentsFrom(l, b, phoff, entsize, count, j, Noted(before))
         == Noted(before + HeadersFrom(l, b, phoff, entsize, count, j))
    decreases count - j
  {
    hide PhdrOff, ReadPhdr, FixPhdr, NoteSegment, SameSpan, PhdrField, Noted;
    var at := PhdrOff(phoff, entsize, j);
    if j < count && at + l.PhdrSize() <= |b| {
      var h, fixed := ReadPhdr(l, b, at), FixPhdr(l, b, at);
      NoteIs(l, b, at, Noted(before));
      NotedMore(before, h);
      forall i | j + 1 <= i < count && PhdrOff(phoff, entsize, i) + l.PhdrSize() <= |b|
        ensures SameSpan(b, fixed, PhdrOff(phoff, entsize, i), PhdrOff(phoff, entsize, i) + l.PhdrSize())
      {
        assert OwnHeader(l, phoff, entsize, count, i);
        FixOther(l, b, at, PhdrOff(phoff, entsize, i));
      }
      HeadersSame(l, b, fixed, phoff, entsize, count, j + 1);
      SegmentsAreNoted(l, fixed, phoff, entsize, count, j + 1, before + [h]);
      var rest := HeadersFrom(l, b, phoff, entsize, count, j + 1);
      assert before + [h] + rest == before + ([h] + rest);
    } else {
      assert before + [] == before;
    }
  }

  lemma NotedMore(before: seq<Phdr>, h: Phdr)
    ensures Noted(before + [h]) == After(Noted(before), h)
  {
    assert (before + [h])[..|before|] == before;
  }

  /** Discovery works with the loaded segments of the image, in order, and its
      last dynamic segment. */
  lemma SegmentsAre(l: Layout, b: seq<byte>, phoff: nat, entsize: nat, count: nat)
    requires OwnHeaders(l, phoff, entsize, count)
    ensures SegmentsFrom(l, b, phoff, entsize, count, 0, NO_SEGMENTS) == Noted(HeadersFrom(l, b, phoff, entsize, count, 0))
  {
    hide SegmentsFrom, HeadersFrom, OwnHeaders;
    SegmentsAreNoted(l, b, phoff, entsize, count, 0, []);
    var hs := HeadersFrom(l, b, phoff, entsize, count, 0);
    assert [] + hs == hs;
  }

  /** Where segments end: no segment ends later, in memory or in the file, and one
      ends there. */
  lemma {:induction false} EndsAre(loads: seq<LoadSeg>)
    ensures forall s :: s in loads ==> Wrap64(s.vaddr + s.memsz) <= MaxVaddr(loads) && Wrap64(s.vaddr + s.filesz) <= LoadFileEnd(loads)
    ensures MaxVaddr(loads) == 0 || exists s :: s in loads && Wrap64(s.vaddr + s.memsz) == MaxVaddr(loads)
    ensures LoadFileEnd(loads) == 0 || exists s :: s in loads && Wrap64(s.vaddr + s.filesz) == LoadFileEnd(loads)
    decreases |loads|
  {
    hide Wrap64;
    if loads != [] {
      var init, last := loads[..|loads| - 1], loads[|loads| - 1];
      EndsAre(init);
      assert forall s :: s in loads <==> s == last || s in init;
      assert last in loads;
    }
  }

  // ----- the dynamic table -----

  /** Tag and value of entry `k`, when the table has so many. */
  ghost function EntryAt(l: Layout, b: seq<byte>, at: nat, limit: nat, k: nat): Option<(u64, u64)> {
    var o := at + k * l.Pick(16, 8);
    if o + l.Pick(16, 8) > Min(|b|, limit) then None else Some((l.ReadAddr(b, o), l.ReadAddr(b, o + l.Word())))
  }

  /** Entry `k` is in the table, and no null tag up to it. */
  ghost predicate Listed(l: Layout, b: seq<byte>, at: nat, limit: nat, k: nat) {
    forall j :: 0 <= j <= k ==> Counts(l, b, at, limit, j)
  }

  ghost predicate Counts(l: Layout, b: seq<byte>, at: nat, limit: nat, j: nat) {
    EntryAt(l, b, at, limit, j).Some? && EntryAt(l, b, at, limit, j).value.0 != 0
  }

  /** Entry `k` is the last listed one with this tag, and this is its value. */
  ghost predicate LastOf(l: Layout, b: seq<byte>, at: nat, limit: nat, tag: u64, value: u64, k: nat) {
    && Listed(l, b, at, limit, k) && EntryAt(l, b, at, limit, k) == Some((tag, value))
    && forall j :: j > k && Listed(l, b, at, limit, j) ==> !HasTag(l, b, at, limit, j, tag)
  }

  ghost predicate HasTag(l: Layout, b: seq<byte>, at: nat, limit: nat, j: nat, tag: u64) {
    EntryAt(l, b, at, limit, j).Some? && EntryAt(l, b, at, limit, j).value.0 == tag
  }

  lemma NextEntry(l: Layout, b: seq<byte>, at: nat, limit: nat, k: nat)
    ensures EntryAt(l, b, at + l.Pick(16, 8), limit, k) == EntryAt(l, b, at, limit, k + 1)
  {
    hide Layout.ReadAddr;
    assert at + l.Pick(16, 8) + k * l.Pick(16, 8) == at + (k + 1) * l.Pick(16, 8);
  }

  /** Past a first entry that counts, the table goes on by one. */
  lemma ListedNext(l: Layout, b: seq<byte>, at: nat, limit: nat, k: nat)
    requires Counts(l, b, at, limit, 0)
    ensures Listed(l, b, at, limit, k + 1) <==> Listed(l, b, at + l.Pick(16, 8), limit, k)
  {
    hide EntryAt, Layout.Pick;
    var next := at + l.Pick(16, 8);
    if Listed(l, b, at, limit, k + 1) {
      forall j | 0 <= j <= k ensures Counts(l, b, next, limit, j) {
        NextEntry(l, b, at, limit, j);
        assert Counts(l, b, at, limit, j + 1);
      }
    }
    if Listed(l, b, next, limit, k) {
      forall j | 0 <= j <= k + 1 ensures Counts(l, b, at, limit, j) {
        if j > 0 {
          NextEntry(l, b, at, limit, j - 1);
          assert Counts(l, b, next, limit, j - 1);
        }
      }
    }
  }

  lemma ListedFirst(l: Layout, b: seq<byte>, at: nat, limit: nat, k: nat)
    requires Listed(l, b, at, limit, k)
    ensures Counts(l, b, at, limit, 0) && Counts(l, b, at, limit, k) && Listed(l, b, at, limit, 0)
  {
    hide Counts;
  }

  /** The last entry of a tag, seen from the first entry on. */
  lemma LastNext(l: Layout, b: seq<byte>, at: nat, limit: nat, tag: u64, value: u64, k: nat)
    requires Counts(l, b, at, limit, 0)
    ensures LastOf(l, b, at + l.Pick(16, 8), limit, tag, value, k) <==> LastOf(l, b, at, limit, tag, value, k + 1)
  {
    hide EntryAt, Layout.Pick, Listed, Counts;
    var next := at + l.Pick(16, 8);
    ListedNext(l, b, at, limit, k);
    NextEntry(l, b, at, limit, k);
    forall j: nat
      ensures Listed(l, b, at, limit, j + 1) <==> Listed(l, b, next, limit, j)
      ensures EntryAt(l, b, next, limit, j) == EntryAt(l, b, at, limit, j + 1)
    {
      ListedNext(l, b, at, limit, j);
      NextEntry(l, b, at, limit, j);
    }
    if LastOf(l, b, next, limit, tag, value, k) {
      forall j | j > k + 1 && Listed(l, b, at, limit, j) ensures !HasTag(l, b, at, limit, j, tag) {
        assert Listed(l, b, at, limit, (j - 1) + 1) && EntryAt(l, b, next, limit, j - 1) == EntryAt(l, b, at, limit, (j - 1) + 1);
        assert !HasTag(l, b, next, limit, j - 1, tag);
      }
    }
    if LastOf(l, b, at, limit, tag, value, k + 1) {
      forall j | j > k && Listed(l, b, next, limit, j) ensures !HasTag(l, b, next, limit, j, tag) {
        assert !HasTag(l, b, at, limit, j + 1, tag);
      }
    }
  }

  lemma NotListed(l: Layout, b: seq<byte>, at: nat, limit: nat, tag: u64, value: u64, k: nat)
    requires !Counts(l, b, at, limit, 0)
    ensures !Listed(l, b, at, limit, k) && !LastOf(l, b, at, limit, tag, value, k)
  {
    hide Counts;
  }

  lemma OnlyLast(l: Layout, b: seq<byte>, at: nat, limit: nat, tag: u64, v: u64, w: u64, i: nat, j: nat)
    requires LastOf(l, b, at, limit, tag, v, i) && LastOf(l, b, at, limit, tag, w, j)
    ensures i == j && v == w
  {
    hide EntryAt, Listed;
  }

  ghost predicate Present(l: Layout, b: seq<byte>, at: nat, limit: nat, tag: u64) {
    exists k: nat, v: u64 :: LastOf(l, b, at, limit, tag, v, k)
  }

  /** Reading the dynamic table gives each tag the value of its last entry before
      the null one and the end of the segment, and no tag that has none. */
  lemma {:induction false} TagsAre(l: Layout, b: seq<byte>, at: nat, limit: nat, tags: Tags, tag: u64)
    ensures var r := TagsFrom(l, b, at, limit, tags);
            && (forall k: nat, v: u64 :: LastOf(l, b, at, limit, tag, v, k) ==> Get(r, tag) == Some(v))
            && (!Present(l, b, at, limit, tag) ==> Get(r, tag) == Get(tags, tag))
    decreases |b| - at
  {
    hide LastOf, EntryAt, Counts, Layout.ReadAddr;
    var next := at + l.Pick(16, 8);
    FirstEntry(l, b, at, limit);
    if Counts(l, b, at, limit, 0) {
      var (t, value) := EntryAt(l, b, at, limit, 0).value;
      var more := tags[t := value];
      TagsAre(l, b, next, limit, more, tag);
      FirstIsLast(l, b, at, limit, tag);
      forall k: nat, v: u64 | LastOf(l, b, at, limit, tag, v, k) ensures Get(TagsFrom(l, b, at, limit, tags), tag) == Some(v) {
        if k > 0 {
          LastNext(l, b, at, limit, tag, v, k - 1);
        } else {
          FirstLast(l, b, at, limit, tag, v);
        }
      }
      if Present(l, b, next, limit, tag) {
        var k: nat, v: u64 :| LastOf(l, b, next, limit, tag, v, k);
        LastNext(l, b, at, limit, tag, v, k);
      }
    } else {
      forall k: nat, v: u64 ensures !LastOf(l, b, at, limit, tag, v, k) {
        NotListed(l, b, at, limit, tag, v, k);
      }
    }
  }

  /** A listed tag has a last listed entry. */
  lemma {:induction false} SomeLast(l: Layout, b: seq<byte>, at: nat, limit: nat, tag: u64, j: nat)
    requires Listed(l, b, at, limit, j) && HasTag(l, b, at, limit, j, tag)
    ensures Present(l, b, at, limit, tag)
    decreases |b| - j
  {
    hide Listed, EntryAt;
    if i :| i > j && Listed(l, b, at, limit, i) && HasTag(l, b, at, limit, i, tag) {
      ListedInside(l, b, at, limit, j);
      SomeLast(l, b, at, limit, tag, i);
    } else {
      assert LastOf(l, b, at, limit, tag, EntryAt(l, b, at, limit, j).value.1, j);
    }
  }

  lemma ListedInside(l: Layout, b: seq<byte>, at: nat, limit: nat, j: nat)
    requires Listed(l, b, at, limit, j)
    ensures j < |b|
  {
    hide Layout.ReadAddr;
    assert Counts(l, b, at, limit, j);
  }

  /** The first entry is the last of its tag when no other has it. */
  lemma FirstIsLast(l: Layout, b: seq<byte>, at: nat, limit: nat, tag: u64)
    requires Counts(l, b, at, limit, 0)
    ensures var (t, value) := EntryAt(l, b, at, limit, 0).value;
            t == tag && !Present(l, b, at + l.Pick(16, 8), limit, tag) ==> LastOf(l, b, at, limit, tag, value, 0)
  {
    hide EntryAt, Layout.Pick, Listed;
    var next := at + l.Pick(16, 8);
    OneListed(l, b, at, limit);
    forall j | j > 0 && Listed(l, b, at, limit, j) && HasTag(l, b, at, limit, j, tag)
      ensures Present(l, b, next, limit, tag)
    {
      ListedNext(l, b, at, limit, j - 1);
      NextEntry(l, b, at, limit, j - 1);
      SomeLast(l, b, next, limit, tag, j - 1);
    }
  }

  lemma OneListed(l: Layout, b: seq<byte>, at: nat, limit: nat)
    requires Counts(l, b, at, limit, 0)
    ensures Listed(l, b, at, limit, 0)
  {
    hide Counts;
  }

  lemma FirstLast(l: Layout, b: seq<byte>, at: nat, limit: nat, tag: u64, v: u64)
    requires LastOf(l, b, at, limit, tag, v, 0)
    ensures EntryAt(l, b, at, limit, 0) == Some((tag, v)) && !Present(l, b, at + l.Pick(16, 8), limit, tag)
  {
    hide EntryAt, Layout.Pick, Listed;
    var next := at + l.Pick(16, 8);
    ListedFirst(l, b, at, limit, 0);
    if Present(l, b, next, limit, tag) {
      var k: nat, w: u64 :| LastOf(l, b, next, limit, tag, w, k);
      LastNext(l, b, at, limit, tag, w, k);
    }
  }

  lemma FirstEntry(l: Layout, b: seq<byte>, at: nat, limit: nat)
    ensures Counts(l, b, at, limit, 0) <==>
              at + l.Pick(16, 8) <= |b| && at + l.Pick(16, 8) <= limit && l.ReadAddr(b, at) != 0
    ensures Counts(l, b, at, limit, 0) ==> EntryAt(l, b, at, limit, 0) == Some((l.ReadAddr(b, at), l.ReadAddr(b, at + l.Word())))
  {
    hide Layout.ReadAddr;
  }
}
