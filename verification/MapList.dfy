/**
  The `map_list`: reading it, and rebuilding it as a sorted table at the end of
  the file.
 */
module MapList {
  import opened Bytes
  import opened Dex

  const TYPE_MAP_LIST: u16 := 0x1000
  const TYPE_CLASS_DATA: u16 := 0x2000
  const TYPE_CODE_ITEM: u16 := 0x2001

  datatype MapEntry = MapEntry(typ: u16, size: u32, off: u32)

  // ----- reading -----

  function EntryAt(b: seq<byte>, at: nat): MapEntry
    requires at + 12 <= |b|
  {
    MapEntry(Le16(b, at), Le32(b, at + 4), Le32(b, at + 8))
  }

  function EntriesFrom(b: seq<byte>, at: nat, count: nat): (es: seq<MapEntry>)
    requires at + 12 * count <= |b|
    ensures |es| == count
    decreases count
  {
    if count == 0 then [] else [EntryAt(b, at)] + EntriesFrom(b, at + 12, count - 1)
  }

  predicate DistinctTypes(es: seq<MapEntry>) {
    forall i, j :: 0 <= i < j < |es| ==> es[i].typ != es[j].typ
  }

  predicate DistinctOffsets(es: seq<MapEntry>) {
    forall i, j :: 0 <= i < j < |es| ==> es[i].off != es[j].off
  }

  predicate EntryInFile(e: MapEntry, len: nat) {
    e.size != 0 && e.off < len
  }

  predicate EntriesInFile(es: seq<MapEntry>, len: nat) {
    forall i :: 0 <= i < |es| ==> EntryInFile(es[i], len)
  }

  /** The offset field of a header that has one. */
  function MapOff(b: seq<byte>): u32
    requires HasHeader(b)
  {
    Le32(b, HDR_MAP_OFF)
  }

  /** The readable table `map_off` points at, or nothing. */
  function MapTable(b: seq<byte>): (r: Option<(nat, nat)>)
    ensures r.Some? ==> DEX_HEADER_SIZE <= r.value.0 && r.value.0 % 4 == 0
    ensures r.Some? ==> r.value.1 > 0 && r.value.0 + 4 + 12 * r.value.1 <= |b|
  {
    match ReadU32At(b, HDR_MAP_OFF)
    case None => None
    case Some(off) =>
      if off < DEX_HEADER_SIZE || off % 4 != 0 || off + 4 > |b| then None
      else
        var count := Le32(b, off);
        if count == 0 || off + 4 + 12 * count > |b| then None else Some((off, count))
  }

  /** `read_map_entries`. */
  function ReadMap(b: seq<byte>): (r: Result<seq<MapEntry>>)
    ensures r.Ok? ==> HasHeader(b) && r.value != []
  {
    match MapTable(b)
    case None => Err(InvalidMap)
    case Some((off, count)) =>
      var es := EntriesFrom(b, off + 4, count);
      if DistinctTypes(es) && EntriesInFile(es, |b|) then Ok(es) else Err(InvalidMap)
  }

  function MapEnd(off: nat, count: nat): nat {
    off + 4 + 12 * count
  }

  // ----- writing -----

  function EncodeEntry(e: MapEntry): (s: seq<byte>)
    ensures |s| == 12
  {
    PutLe16(e.typ) + [0, 0] + PutLe32(e.size) + PutLe32(e.off)
  }

  function EncodeEntries(es: seq<MapEntry>): (s: seq<byte>)
    ensures |s| == 12 * |es|
  {
    if es == [] then [] else EncodeEntry(es[0]) + EncodeEntries(es[1..])
  }

  function EncodeMap(es: seq<MapEntry>): (s: seq<byte>)
    ensures |s| == 4 + 12 * |es|
  {
    PutLe32(Wrap32(|es|)) + EncodeEntries(es)
  }

  lemma ReadEncodedEntry(b: seq<byte>, at: nat, e: MapEntry)
    requires Holds(b, at, EncodeEntry(e))
    ensures at + 12 <= |b| && EntryAt(b, at) == e
  {
    hide Le16, Le32, Holds;
    var s := EncodeEntry(e);
    HoldsLength(b, at, s);
    HoldsSplit(b, at, PutLe16(e.typ) + [0, 0] + PutLe32(e.size), PutLe32(e.off));
    HoldsSplit(b, at, PutLe16(e.typ) + [0, 0], PutLe32(e.size));
    HoldsSplit(b, at, PutLe16(e.typ), [0, 0]);
    HeldLe16(b, at, e.typ);
    HeldLe32(b, at + 4, e.size);
    HeldLe32(b, at + 8, e.off);
  }

  lemma {:induction false} ReadEncodedEntries(b: seq<byte>, at: nat, es: seq<MapEntry>)
    requires Holds(b, at, EncodeEntries(es))
    ensures at + 12 * |es| <= |b| && EntriesFrom(b, at, |es|) == es
    decreases |es|
  {
    hide Holds, EntryAt, EncodeEntry;
    HoldsLength(b, at, EncodeEntries(es));
    if es != [] {
      HoldsSplit(b, at, EncodeEntry(es[0]), EncodeEntries(es[1..]));
      ReadEncodedEntry(b, at, es[0]);
      ReadEncodedEntries(b, at + 12, es[1..]);
      assert [es[0]] + es[1..] == es;
    }
  }

  // ----- rebuilding -----

  function WithoutType(es: seq<MapEntry>, typ: u16): (r: seq<MapEntry>)
    ensures forall e :: e in r <==> e in es && e.typ != typ
    ensures |r| <= |es|
  {
    if es == [] then []
    else if es[0].typ == typ then WithoutType(es[1..], typ)
    else
      assert forall e :: e in es <==> e == es[0] || e in es[1..];
      [es[0]] + WithoutType(es[1..], typ)
  }

  /** Substitute each replacement for the entry of its type; an empty run
      leaves no entry. */
  function Substitute(es: seq<MapEntry>, replacements: seq<MapEntry>): seq<MapEntry>
    decreases |replacements|
  {
    if replacements == [] then es
    else
      var r := replacements[0];
      Substitute(WithoutType(es, r.typ) + (if r.size != 0 then [r] else []), replacements[1..])
  }

  /** Stable insertion by offset. */
  function InsertByOff(e: MapEntry, es: seq<MapEntry>): (r: seq<MapEntry>)
    ensures multiset(r) == multiset([e]) + multiset(es) && |r| == |es| + 1
  {
    if es == [] || e.off <= es[0].off then
      [e] + es
    else
      assert es == [es[0]] + es[1..];
      [es[0]] + InsertByOff(e, es[1..])
  }

  function SortByOff(es: seq<MapEntry>): (r: seq<MapEntry>)
    ensures multiset(r) == multiset(es) && |r| == |es|
  {
    if es == [] then []
    else
      assert es == [es[0]] + es[1..];
      InsertByOff(es[0], SortByOff(es[1..]))
  }

  predicate Ascending(es: seq<MapEntry>) {
    forall i, j :: 0 <= i < j < |es| ==> es[i].off <= es[j].off
  }

  predicate StrictlyAscending(es: seq<MapEntry>) {
    forall i, j :: 0 <= i < j < |es| ==> es[i].off < es[j].off
  }

  /** The source compares neighbours only. */
  predicate NeighboursAscend(es: seq<MapEntry>) {
    forall i :: 0 <= i < |es| - 1 ==> es[i].off < es[i + 1].off
  }

  predicate SelfEntryLast(es: seq<MapEntry>, mapOff: u32) {
    es != [] && es[|es| - 1] == MapEntry(TYPE_MAP_LIST, 1, mapOff)
  }

  /** Some other section starts inside the table. */
  predicate OverlapsMap(es: seq<MapEntry>, lo: nat, hi: nat) {
    exists i :: 0 <= i < |es| && es[i].typ != TYPE_MAP_LIST && lo <= es[i].off < hi
  }

  /** The table a rebuild writes at `newOff`. */
  function NewEntries(es: seq<MapEntry>, newOff: u32): seq<MapEntry> {
    SortByOff(WithoutType(es, TYPE_MAP_LIST) + [MapEntry(TYPE_MAP_LIST, 1, newOff)])
  }

  /** Append the table, point the header at it, and zero the old one. */
  function MoveMap(b: seq<byte>, off: nat, count: nat, es: seq<MapEntry>): (r: seq<byte>)
    requires HasHeader(b) && off + 4 + 12 * count <= |b|
    requires Align4(|b|) <= U32_MAX
  {
    var padded := AlignTo4(b);
    var extended := padded + EncodeMap(NewEntries(es, |padded|));
    ZeroRange(Patch(extended, HDR_MAP_OFF, PutLe32(|padded|)), off, MapEnd(off, count))
  }

  /** `rebuild_map`: the new bytes, and whether anything changed. */
  function RebuildMap(b: seq<byte>, relocated: Option<seq<MapEntry>>): Result<(seq<byte>, bool)> {
    var es :- ReadMap(b);
    var (off, count) := MapTable(b).value;
    if OverlapsMap(es, off, MapEnd(off, count)) then Err(InvalidMap)
    else if relocated.None? && NeighboursAscend(es) && SelfEntryLast(es, off) && MapEnd(off, count) == |b| then
      Ok((b, false))
    else if Align4(|b|) > U32_MAX then Err(TooLarge)
    else
      var updated := if relocated.Some? then Substitute(es, relocated.value) else es;
      Ok((MoveMap(b, off, count, updated), true))
  }

  // ----- sorting -----

  lemma {:induction false} InsertKeepsAscending(e: MapEntry, es: seq<MapEntry>)
    requires Ascending(es)
    ensures Ascending(InsertByOff(e, es))
    decreases |es|
  {
    if es == [] || e.off <= es[0].off {
      assert InsertByOff(e, es) == [e] + es;
      AscendingCons(e, es);
    } else {
      InsertKeepsAscending(e, es[1..]);
      InsertHas(e, es[1..]);
      assert InsertByOff(e, es) == [es[0]] + InsertByOff(e, es[1..]);
      AscendingCons(es[0], InsertByOff(e, es[1..]));
    }
  }

  lemma AscendingCons(e: MapEntry, es: seq<MapEntry>)
    requires Ascending(es) && forall f :: f in es ==> e.off <= f.off
    ensures Ascending([e] + es)
  {
    var r := [e] + es;
    forall i, j | 0 <= i < j < |r| ensures r[i].off <= r[j].off {
      assert r[j] == es[j - 1] && (i > 0 ==> r[i] == es[i - 1]);
    }
  }

  lemma {:induction false} InsertHas(e: MapEntry, es: seq<MapEntry>)
    ensures forall f :: f in InsertByOff(e, es) <==> f == e || f in es
    decreases |es|
  {
    if es != [] && e.off > es[0].off {
      InsertHas(e, es[1..]);
      assert InsertByOff(e, es) == [es[0]] + InsertByOff(e, es[1..]);
      assert es == [es[0]] + es[1..];
    }
  }

  lemma {:induction false} SortAscends(es: seq<MapEntry>)
    ensures Ascending(SortByOff(es))
    decreases |es|
  {
    if es != [] {
      SortAscends(es[1..]);
      InsertKeepsAscending(es[0], SortByOff(es[1..]));
    }
  }

  lemma SortHasSame(es: seq<MapEntry>)
    ensures forall e :: e in SortByOff(es) <==> e in es
  {
    forall e
      ensures e in SortByOff(es) <==> e in es
    {
      assert e in SortByOff(es) <==> e in multiset(SortByOff(es));
      assert e in es <==> e in multiset(es);
    }
  }

  lemma {:induction false} OnceAtMost(es: seq<MapEntry>, e: MapEntry)
    requires DistinctTypes(es) || DistinctOffsets(es)
    ensures multiset(es)[e] <= 1
    decreases |es|
  {
    if es != [] {
      var init, last := es[..|es| - 1], es[|es| - 1];
      assert es == init + [last];
      OnceAtMost(init, e);
      assert forall i :: 0 <= i < |init| ==> init[i] == es[i];
    }
  }

  lemma TwiceAtLeast(es: seq<MapEntry>, i: nat, j: nat)
    requires i < j < |es| && es[i] == es[j]
    ensures multiset(es)[es[i]] >= 2
  {
    assert es == es[..j] + es[j..];
    assert es[i] == es[..j][i] && es[j] == es[j..][0];
    assert es[i] in multiset(es[..j]) && es[i] in multiset(es[j..]);
  }

  /** A rearrangement keeps entries apart. */
  lemma PermutationKeepsDistinct(es: seq<MapEntry>, fs: seq<MapEntry>)
    requires multiset(es) == multiset(fs)
    ensures DistinctTypes(es) ==> DistinctTypes(fs)
    ensures DistinctOffsets(es) ==> DistinctOffsets(fs)
  {
    forall i, j | 0 <= i < j < |fs|
      ensures DistinctTypes(es) ==> fs[i].typ != fs[j].typ
      ensures DistinctOffsets(es) ==> fs[i].off != fs[j].off
    {
      if DistinctTypes(es) || DistinctOffsets(es) {
        if fs[i] == fs[j] {
          TwiceAtLeast(fs, i, j);
          OnceAtMost(es, fs[i]);
          assert false;
        }
        assert fs[i] in multiset(fs) && fs[j] in multiset(fs);
        assert fs[i] in es && fs[j] in es;
      }
    }
  }

  lemma AscendingDistinctIsStrict(es: seq<MapEntry>)
    requires Ascending(es) && DistinctOffsets(es)
    ensures StrictlyAscending(es)
  {
  }

  lemma {:induction false} NeighboursAscendIsStrict(es: seq<MapEntry>)
    requires NeighboursAscend(es)
    ensures StrictlyAscending(es)
    decreases |es|
  {
    if |es| > 1 {
      var init := es[..|es| - 1];
      NeighboursAscendIsStrict(init);
      forall i | 0 <= i < |init|
        ensures es[i].off < es[|es| - 1].off
      {
        if i < |init| - 1 {
          assert init[i].off < init[|init| - 1].off;
        }
        assert es[|init| - 1].off < es[|init| - 1 + 1].off;
      }
      assert forall i :: 0 <= i < |init| ==> init[i] == es[i];
    }
  }

  // ----- substitution -----

  lemma PrependKeepsDistinct(e: MapEntry, es: seq<MapEntry>)
    ensures DistinctTypes(es) && (forall f :: f in es ==> f.typ != e.typ) ==> DistinctTypes([e] + es)
    ensures DistinctOffsets(es) && (forall f :: f in es ==> f.off != e.off) ==> DistinctOffsets([e] + es)
  {
  }

  lemma TailIsDistinct(es: seq<MapEntry>)
    requires es != []
    ensures DistinctTypes(es) ==> DistinctTypes(es[1..]) && forall f :: f in es[1..] ==> f.typ != es[0].typ
    ensures DistinctOffsets(es) ==> DistinctOffsets(es[1..]) && forall f :: f in es[1..] ==> f.off != es[0].off
  {
  }

  lemma {:induction false} WithoutTypeKeepsDistinct(es: seq<MapEntry>, typ: u16)
    ensures DistinctTypes(es) ==> DistinctTypes(WithoutType(es, typ))
    ensures DistinctOffsets(es) ==> DistinctOffsets(WithoutType(es, typ))
    decreases |es|
  {
    if es != [] {
      hide DistinctTypes, DistinctOffsets;
      TailIsDistinct(es);
      WithoutTypeKeepsDistinct(es[1..], typ);
      PrependKeepsDistinct(es[0], WithoutType(es[1..], typ));
    } else {
      assert WithoutType(es, typ) == [];
    }
  }

  /** The entries `replacements` leave behind. */
  predicate Replaced(es: seq<MapEntry>, replacements: seq<MapEntry>, e: MapEntry) {
    || (e in es && forall r :: r in replacements ==> r.typ != e.typ)
    || (e in replacements && e.size != 0)
  }

  lemma AppendKeepsDistinctTypes(es: seq<MapEntry>, e: MapEntry)
    requires DistinctTypes(es) && forall f :: f in es ==> f.typ != e.typ
    ensures DistinctTypes(es + [e])
  {
  }

  lemma AppendKeepsDistinctOffsets(es: seq<MapEntry>, e: MapEntry)
    requires DistinctOffsets(es) && forall f :: f in es ==> f.off != e.off
    ensures DistinctOffsets(es + [e])
  {
  }

  lemma {:induction false} SubstituteIs(es: seq<MapEntry>, replacements: seq<MapEntry>)
    requires DistinctTypes(es) && DistinctTypes(replacements)
    ensures DistinctTypes(Substitute(es, replacements))
    ensures forall e :: e in Substitute(es, replacements) <==> Replaced(es, replacements, e)
    decreases |replacements|
  {
    if replacements != [] {
      var r, rest := replacements[0], replacements[1..];
      var kept := WithoutType(es, r.typ);
      var next := kept + (if r.size != 0 then [r] else []);
      WithoutTypeKeepsDistinct(es, r.typ);
      if r.size != 0 {
        AppendKeepsDistinctTypes(kept, r);
      } else {
        assert next == kept;
      }
      assert forall i :: 0 <= i < |rest| ==> rest[i] == replacements[i + 1];
      SubstituteIs(next, rest);
      assert forall e :: e in replacements <==> e == r || e in rest;
      forall e
        ensures Replaced(next, rest, e) <==> Replaced(es, replacements, e)
      {
        assert e in next <==> (e in es && e.typ != r.typ) || (e == r && r.size != 0);
      }
    }
  }

  /** Replacements that leave an entry stand apart from each other. */
  predicate RunsApart(replacements: seq<MapEntry>) {
    forall i, j :: 0 <= i < j < |replacements| && replacements[i].size != 0 && replacements[j].size != 0 ==>
      replacements[i].off != replacements[j].off
  }

  predicate RunsClear(es: seq<MapEntry>, replacements: seq<MapEntry>) {
    forall e, r :: e in es && r in replacements && r.size != 0 ==> e.off != r.off
  }

  lemma {:induction false} SubstituteKeepsDistinctOffsets(es: seq<MapEntry>, replacements: seq<MapEntry>)
    requires DistinctOffsets(es) && RunsApart(replacements) && RunsClear(es, replacements)
    ensures DistinctOffsets(Substitute(es, replacements))
    decreases |replacements|
  {
    if replacements != [] {
      var r, rest := replacements[0], replacements[1..];
      var kept := WithoutType(es, r.typ);
      WithoutTypeKeepsDistinct(es, r.typ);
      assert r in replacements;
      assert forall i :: 0 <= i < |rest| ==> rest[i] == replacements[i + 1];
      var next := kept + (if r.size != 0 then [r] else []);
      if r.size != 0 {
        AppendKeepsDistinctOffsets(kept, r);
      } else {
        assert next == kept;
      }
      assert forall q :: q in rest && q.size != 0 && r.size != 0 ==> q in replacements && q.off != r.off;
      SubstituteKeepsDistinctOffsets(next, rest);
    }
  }

  // ----- a rebuild is exact -----

  lemma MapReadsBack(b: seq<byte>, off: u32, es: seq<MapEntry>)
    requires HasHeader(b) && MapOff(b) == off && DEX_HEADER_SIZE <= off && off % 4 == 0
    requires Holds(b, off, EncodeMap(es))
    requires es != [] && |es| <= U32_MAX && DistinctTypes(es) && EntriesInFile(es, |b|)
    ensures MapTable(b) == Some((off, |es|))
    ensures ReadMap(b) == Ok(es)
  {
    hide Holds, Le32, EncodeEntries, EntriesFrom;
    HoldsLength(b, off, EncodeMap(es));
    HoldsSplit(b, off, PutLe32(Wrap32(|es|)), EncodeEntries(es));
    HeldLe32(b, off, Wrap32(|es|));
    ReadEncodedEntries(b, off + 4, es);
  }

  /** `r` is `b` grown by a table at the next aligned offset: the table that
      stood at `off` is zero, `map_off` may differ, and no other byte of `b`
      changed or moved; the padding in between is zero. */
  ghost predicate OnlyMapMoved(b: seq<byte>, r: seq<byte>, off: nat, count: nat) {
    && Align4(|b|) <= |r|
    && (forall i :: off <= i < MapEnd(off, count) && i < |r| ==> r[i] == 0)
    && (forall i :: 0 <= i < |b| && !(HDR_MAP_OFF <= i < HDR_MAP_OFF + 4) && !(off <= i < MapEnd(off, count))
                    ==> r[i] == b[i])
    && (forall i :: |b| <= i < Align4(|b|) ==> r[i] == 0)
  }

  /** What `MoveMap` leaves where. */
  lemma MoveMapLayout(b: seq<byte>, off: nat, count: nat, es: seq<MapEntry>)
    requires HasHeader(b) && DEX_HEADER_SIZE <= off && off + 4 + 12 * count <= |b|
    requires Align4(|b|) <= U32_MAX
    ensures var r := MoveMap(b, off, count, es);
            var newOff := Align4(|b|);
            && |r| == newOff + 4 + 12 * |NewEntries(es, newOff)|
            && MapOff(r) == newOff
            && Holds(r, newOff, EncodeMap(NewEntries(es, newOff)))
            && OnlyMapMoved(b, r, off, count)
  {
    hide EncodeMap, NewEntries, Le32, Align4;
    var r := MoveMap(b, off, count, es);
    var padded := AlignTo4(b);
    var newOff := |padded|;
    var table := EncodeMap(NewEntries(es, newOff));
    var extended := padded + table;
    var patched := Patch(extended, HDR_MAP_OFF, PutLe32(newOff));
    assert patched[HDR_MAP_OFF..HDR_MAP_OFF + 4] == PutLe32(newOff);
    assert r[HDR_MAP_OFF..HDR_MAP_OFF + 4] == patched[HDR_MAP_OFF..HDR_MAP_OFF + 4];
    assert Holds(r, HDR_MAP_OFF, PutLe32(newOff));
    HeldLe32(r, HDR_MAP_OFF, newOff);
    assert r[newOff..newOff + |table|] == table;
  }

  /** The entries a rebuild writes: distinct, in the file, sorted, and exactly
      the given ones with a single entry for the map itself. */
  lemma NewEntriesAre(es: seq<MapEntry>, newOff: u32, oldLen: nat, newLen: nat)
    requires DistinctTypes(es) && EntriesInFile(es, oldLen) && oldLen <= newOff < newLen
    ensures var table := NewEntries(es, newOff);
            && table != [] && |table| <= |es| + 1 && DistinctTypes(table) && EntriesInFile(table, newLen) && Ascending(table)
            && (forall e :: e in table <==> (e in es && e.typ != TYPE_MAP_LIST) || e == MapEntry(TYPE_MAP_LIST, 1, newOff))
            && (DistinctOffsets(es) ==> StrictlyAscending(table))
  {
    hide SortByOff, WithoutType;
    var others := WithoutType(es, TYPE_MAP_LIST);
    var self := MapEntry(TYPE_MAP_LIST, 1, newOff);
    var table := NewEntries(es, newOff);
    WithoutTypeKeepsDistinct(es, TYPE_MAP_LIST);
    AppendKeepsDistinctTypes(others, self);
    SortAscends(others + [self]);
    SortHasSame(others + [self]);
    PermutationKeepsDistinct(others + [self], table);
    forall i | 0 <= i < |table|
      ensures EntryInFile(table[i], newLen)
    {
      assert table[i] in table;
      if table[i] != self {
        assert table[i] in es;
      }
    }
    if DistinctOffsets(es) {
      forall f | f in others ensures f.off != newOff {
        assert f in es;
      }
      AppendKeepsDistinctOffsets(others, self);
      AscendingDistinctIsStrict(table);
    }
  }

  /** There are only so many types to be distinct in. */
  lemma DistinctTypesAreFew(es: seq<MapEntry>)
    requires DistinctTypes(es)
    ensures |es| <= 0x1_0000
  {
    TypesCardinality(es);
    SubsetSize(set e | e in es :: e.typ as int, Below(0x1_0000));
  }

  function Below(n: nat): (s: set<int>)
    ensures |s| == n
    ensures forall k :: k in s <==> 0 <= k < n
  {
    if n == 0 then {} else Below(n - 1) + {n - 1}
  }

  lemma SubsetSize(a: set<int>, b: set<int>)
    requires a <= b
    ensures |a| <= |b|
  {
    assert b == a + (b - a);
  }

  lemma {:induction false} TypesCardinality(es: seq<MapEntry>)
    requires DistinctTypes(es)
    ensures |set e | e in es :: e.typ as int| == |es|
    decreases |es|
  {
    if es != [] {
      var init, last := es[..|es| - 1], es[|es| - 1];
      assert forall i :: 0 <= i < |init| ==> init[i] == es[i];
      TypesCardinality(init);
      var before := set e | e in init :: e.typ as int;
      assert last.typ as int !in before by {
        forall e | e in init ensures e.typ != last.typ {
          var i :| 0 <= i < |init| && init[i] == e;
          assert es[i].typ != es[|es| - 1].typ;
        }
      }
      assert es == init + [last];
      assert (set e | e in es :: e.typ as int) == before + {last.typ as int};
    }
  }

  /** Exactly what a rebuild does. When it reports a change, the file ends in an
      aligned table holding, in offset order, the old entries with the replaced
      types substituted and one entry for the table itself; the old table is
      zero, and nothing else moved or changed but `map_off`. */
  lemma RebuildMapExact(b: seq<byte>, replacements: seq<MapEntry>, relocated: Option<seq<MapEntry>>)
    requires relocated == Some(replacements) || (relocated == None && replacements == [])
    requires DistinctTypes(replacements)
    requires forall e :: e in replacements ==> e.off < |b|
    requires RebuildMap(b, relocated).Ok? && RebuildMap(b, relocated).value.1
    ensures
      var r := RebuildMap(b, relocated).value.0;
      var (off, count) := MapTable(b).value;
      var at := Align4(|b|);
      && ReadMap(r).Ok?
      && MapTable(r) == Some((at, |ReadMap(r).value|)) && MapOff(r) == at
      && MapEnd(at, |ReadMap(r).value|) == |r|
      && Ascending(ReadMap(r).value)
      && (forall e :: e in ReadMap(r).value <==>
                      || (Replaced(ReadMap(b).value, replacements, e) && e.typ != TYPE_MAP_LIST)
                      || e == MapEntry(TYPE_MAP_LIST, 1, at))
      && OnlyMapMoved(b, r, off, count)
  {
    hide MoveMap, NewEntries, EncodeMap, Holds, Ascending, Replaced, Align4, WithoutType, OnlyMapMoved,
      DistinctTypes, EntriesFrom, Substitute, DistinctOffsets;
    var es := ReadMap(b).value;
    var (off, count) := MapTable(b).value;
    var r := RebuildMap(b, relocated).value.0;
    var updated := UpdatedEntries(es, relocated, replacements);
    var at := Align4(|b|);
    MoveMapLayout(b, off, count, updated);
    ReplacedInFile(es, replacements, updated, |b|);
    NewEntriesAre(updated, at, |b|, |r|);
    DistinctTypesAreFew(NewEntries(updated, at));
    MapReadsBack(r, at, NewEntries(updated, at));
  }

  lemma UpdatedEntries(es: seq<MapEntry>, relocated: Option<seq<MapEntry>>, replacements: seq<MapEntry>)
    returns (updated: seq<MapEntry>)
    requires relocated == Some(replacements) || (relocated == None && replacements == [])
    requires DistinctTypes(es) && DistinctTypes(replacements)
    ensures updated == if relocated.Some? then Substitute(es, relocated.value) else es
    ensures DistinctTypes(updated)
    ensures forall e :: e in updated <==> Replaced(es, replacements, e)
  {
    updated := Substitute(es, replacements);
    SubstituteIs(es, replacements);
  }

  /** With offsets apart, the rebuilt table is strictly ordered and ends in its
      own entry: a second rebuild finds nothing to do. */
  lemma RebuildSettles(b: seq<byte>, replacements: seq<MapEntry>, relocated: Option<seq<MapEntry>>)
    requires relocated == Some(replacements) || (relocated == None && replacements == [])
    requires DistinctTypes(replacements) && RunsApart(replacements)
    requires forall e :: e in replacements ==> e.off < |b|
    requires RebuildMap(b, relocated).Ok? && RebuildMap(b, relocated).value.1
    requires DistinctOffsets(ReadMap(b).value) && RunsClear(ReadMap(b).value, replacements)
    ensures
      var r := RebuildMap(b, relocated).value.0;
      && ReadMap(r).Ok? && StrictlyAscending(ReadMap(r).value) && SelfEntryLast(ReadMap(r).value, MapOff(r))
      && RebuildMap(r, None) == Ok((r, false))
  {
    hide MoveMap, EncodeMap, Holds, Align4, WithoutType, SortByOff, Le32, EntriesFrom, Replaced;
    var es := ReadMap(b).value;
    var (off, count) := MapTable(b).value;
    var r := RebuildMap(b, relocated).value.0;
    var updated := UpdatedEntries(es, relocated, replacements);
    SubstituteKeepsDistinctOffsets(es, replacements);
    assert relocated.None? ==> Substitute(es, replacements) == es;
    var at := Align4(|b|);
    MoveMapLayout(b, off, count, updated);
    SettledEntries(es, replacements, updated, at, |b|, |r|);
    DistinctTypesAreFew(NewEntries(updated, at));
    MapReadsBack(r, at, NewEntries(updated, at));
  }

  lemma ReplacedInFile(es: seq<MapEntry>, replacements: seq<MapEntry>, updated: seq<MapEntry>, len: nat)
    requires EntriesInFile(es, len)
    requires forall e :: e in replacements ==> e.off < len
    requires forall e :: e in updated <==> Replaced(es, replacements, e)
    ensures EntriesInFile(updated, len)
  {
    forall i | 0 <= i < |updated|
      ensures EntryInFile(updated[i], len)
    {
      assert Replaced(es, replacements, updated[i]);
    }
  }

  lemma SettledEntries(
    es: seq<MapEntry>, replacements: seq<MapEntry>, updated: seq<MapEntry>, at: u32, oldLen: nat, newLen: nat)
    requires DistinctTypes(updated) && DistinctOffsets(updated)
    requires EntriesInFile(es, oldLen) && oldLen <= at < newLen
    requires forall e :: e in replacements ==> e.off < oldLen
    requires forall e :: e in updated <==> Replaced(es, replacements, e)
    ensures DistinctTypes(NewEntries(updated, at)) && EntriesInFile(NewEntries(updated, at), newLen)
    ensures NewEntries(updated, at) != []
    ensures StrictlyAscending(NewEntries(updated, at)) && NeighboursAscend(NewEntries(updated, at))
    ensures SelfEntryLast(NewEntries(updated, at), at)
    ensures !OverlapsMap(NewEntries(updated, at), at, newLen)
  {
    hide NewEntries;
    var table := NewEntries(updated, at);
    ReplacedInFile(es, replacements, updated, oldLen);
    NewEntriesAre(updated, at, oldLen, newLen);
    var self := MapEntry(TYPE_MAP_LIST, 1, at);
    assert self in table;
    var k :| 0 <= k < |table| && table[k] == self;
    var last := table[|table| - 1];
    assert last in table;
    assert last.off <= at;
    assert k == |table| - 1;
    forall i | 0 <= i < |table|
      ensures table[i].typ == TYPE_MAP_LIST || table[i].off < at
    {
      assert table[i] in table;
    }
  }

  /** A rebuild leaves the file alone exactly when nothing was relocated and the
      table is already ordered, self-describing and last. */
  lemma RebuildMapUnchanged(b: seq<byte>, relocated: Option<seq<MapEntry>>)
    requires RebuildMap(b, relocated).Ok?
    ensures !RebuildMap(b, relocated).value.1 ==> RebuildMap(b, relocated).value.0 == b
    ensures !RebuildMap(b, relocated).value.1 <==>
            && relocated == None
            && StrictlyAscending(ReadMap(b).value) && SelfEntryLast(ReadMap(b).value, MapOff(b))
            && MapEnd(MapOff(b), |ReadMap(b).value|) == |b|
  {
    hide MoveMap, Le32, EntriesFrom;
    var es := ReadMap(b).value;
    if NeighboursAscend(es) {
      NeighboursAscendIsStrict(es);
    }
  }
}
