/**
  What a file that passes the final check is, said without the check: sound
  tables and bounds, a sorted map, and two runs of live items without gap or
  overlap.
 */
module ValidatorExact {
  import opened Bytes
  import opened Dex
  import opened ClassData
  import opened CodeItem
  import opened MapList
  import opened Relocation
  import opened RelocationProofs
  import opened Live
  import opened FormatProofs
  import opened Relocated
  import opened Runs
  import opened Validator
  import opened FormatFix
  import opened Synthesis
  import opened Repair

  // ----- id tables -----

  /** Bytes of one string, type, prototype, field, method and class entry. */
  const WIDTHS: seq<nat> := [4, 4, 12, 8, 8, 32]

  /** Byte `x` belongs to id table `i`, whose count and offset stand in the
      header from 0x38 on. */
  ghost predicate InTable(b: seq<byte>, i: nat, x: nat)
    requires HasHeader(b) && i < 6
  {
    Le32(b, 0x3c + 8 * i) <= x < Le32(b, 0x3c + 8 * i) + Le32(b, 0x38 + 8 * i) * WIDTHS[i]
  }

  ghost predicate Empty(b: seq<byte>, i: nat)
    requires HasHeader(b) && i < 6
  {
    forall x: nat :: !InTable(b, i, x)
  }

  /** Where table `i` has entries, it starts aligned, past the header, and ends in
      the file. */
  ghost predicate TableSound(b: seq<byte>, i: nat)
    requires HasHeader(b) && i < 6
  {
    Empty(b, i) || (Le32(b, 0x3c + 8 * i) % 4 == 0 && forall x: nat :: InTable(b, i, x) ==> 0x70 <= x < |b|)
  }

  ghost predicate Shared(b: seq<byte>, i: nat, j: nat)
    requires HasHeader(b) && i < 6 && j < 6
  {
    exists x: nat :: InTable(b, i, x) && InTable(b, j, x)
  }

  /** A supported header, sound tables, and no byte in two of them. */
  ghost predicate TablesSound(b: seq<byte>) {
    && HasHeader(b) && Le32(b, 0x24) == 0x70 && Le32(b, 0x28) == 0x1234_5678
    && (forall i :: 0 <= i < 6 ==> TableSound(b, i))
    && forall i, j :: 0 <= i < j < 6 ==> !Shared(b, i, j)
  }

  lemma TableIs(b: seq<byte>, i: nat)
    requires HasHeader(b) && i < 6
    ensures IdTables(b)[i] == Table(Le32(b, 0x38 + 8 * i), Le32(b, 0x3c + 8 * i), WIDTHS[i]) && WIDTHS[i] > 0
  {
    hide Le32;
  }

  lemma Holding(t: Table, x: nat)
    requires t.width > 0
    ensures t.off <= x < t.off + t.count * t.width ==> t.count > 0
    ensures t.count > 0 ==> t.off < t.End()
  {
    if t.count > 0 {
      assert t.count * t.width > 0;
    }
  }

  lemma EmptyIs(b: seq<byte>, i: nat)
    requires HasHeader(b) && i < 6
    ensures Empty(b, i) <==> IdTables(b)[i].count == 0
    ensures !Empty(b, i) ==> InTable(b, i, IdTables(b)[i].off) && InTable(b, i, IdTables(b)[i].End() - 1)
  {
    hide Le32;
    TableIs(b, i);
    var t := IdTables(b)[i];
    Holding(t, t.off);
    if t.count > 0 {
      assert InTable(b, i, t.off);
    }
  }

  lemma SharedIs(b: seq<byte>, i: nat, j: nat)
    requires HasHeader(b) && i < 6 && j < 6
    ensures IdTables(b)[i].Apart(IdTables(b)[j]) <==> !Shared(b, i, j)
  {
    hide Le32, IdTables;
    TableIs(b, i);
    TableIs(b, j);
    EmptyIs(b, i);
    EmptyIs(b, j);
    var s, t := IdTables(b)[i], IdTables(b)[j];
    if !s.Apart(t) {
      var x: nat := Max(s.off, t.off);
      assert InTable(b, i, x) && InTable(b, j, x);
    }
  }

  lemma SoundIs(b: seq<byte>, i: nat)
    requires HasHeader(b) && i < 6
    ensures IdTables(b)[i].InFile(|b|) <==> TableSound(b, i)
  {
    hide Le32, IdTables;
    TableIs(b, i);
    EmptyIs(b, i);
    Holding(IdTables(b)[i], 0);
  }

  /** The table check accepts exactly sound tables. */
  lemma IdBoundsAre(b: seq<byte>)
    ensures ValidateIdBounds(b).Ok? <==> TablesSound(b)
  {
    hide Le32, Table.Apart, Table.InFile, Shared, TableSound, IdTables;
    if HasHeader(b) {
      var ts := IdTables(b);
      forall i | 0 <= i < 6 ensures ts[i].InFile(|b|) <==> TableSound(b, i) {
        SoundIs(b, i);
      }
      forall i, j | 0 <= i < j < 6 ensures ts[i].Apart(ts[j]) <==> !Shared(b, i, j) {
        SharedIs(b, i, j);
      }
    }
  }

  /** Where table `i` ends. */
  ghost function EndOf(b: seq<byte>, i: nat): nat
    requires HasHeader(b) && i < 6
  {
    Le32(b, 0x3c + 8 * i) + Le32(b, 0x38 + 8 * i) * WIDTHS[i]
  }

  lemma {:induction false} LargestEnd(ts: seq<Table>)
    ensures forall i :: 0 <= i < |ts| && ts[i].count != 0 ==> ts[i].End() <= MaxEnd(ts)
    ensures (exists i :: 0 <= i < |ts| && ts[i].count != 0) ==> exists i :: 0 <= i < |ts| && ts[i].count != 0 && ts[i].End() == MaxEnd(ts)
    ensures (forall i :: 0 <= i < |ts| ==> ts[i].count == 0) ==> MaxEnd(ts) == 0
    decreases |ts|
  {
    hide Table.End;
    if ts != [] {
      var rest := ts[1..];
      LargestEnd(rest);
      assert forall i :: 0 < i < |ts| ==> ts[i] == rest[i - 1];
      assert forall i :: 0 <= i < |rest| ==> rest[i] == ts[i + 1];
      if ts[0].count == 0 || ts[0].End() < MaxEnd(rest) {
        if i :| 0 <= i < |rest| && rest[i].count != 0 && rest[i].End() == MaxEnd(rest) {
          assert ts[i + 1].count != 0 && ts[i + 1].End() == MaxEnd(rest);
        }
      } else {
        assert ts[0].End() == MaxEnd(ts);
      }
    }
  }

  /** The tables end where the last of the non-empty ones does, or with the header
      when all are empty. */
  lemma TablesEndIs(b: seq<byte>)
    requires HasHeader(b)
    ensures (forall i :: 0 <= i < 6 ==> Empty(b, i)) ==> TablesEnd(b) == 0x70
    ensures forall i :: 0 <= i < 6 && !Empty(b, i) ==> EndOf(b, i) <= TablesEnd(b)
    ensures (exists i :: 0 <= i < 6 && !Empty(b, i)) ==> exists i :: 0 <= i < 6 && !Empty(b, i) && EndOf(b, i) == TablesEnd(b)
  {
    hide Le32, IdTables, Empty, MaxEnd;
    var ts := IdTables(b);
    forall i | 0 <= i < 6 ensures (Empty(b, i) <==> ts[i].count == 0) && EndOf(b, i) == ts[i].End() && ts[i] in ts {
      EmptyIs(b, i);
      TableIs(b, i);
    }
    LargestEnd(ts);
    if exists i :: 0 <= i < 6 && !Empty(b, i) {
      var i :| 0 <= i < 6 && !Empty(b, i);
      assert ts[i].count != 0;
    }
  }

  /** What the header step writes: the file size, and the data section from the end
      of the tables, at the next multiple of four, to the end of the file; nothing
      when that is past the end or does not fit 32 bits. */
  lemma HeaderBoundsAre(b: seq<byte>)
    ensures var r := FixHeaderBounds(b);
            if HasHeader(b) && (TablesEnd(b) + 3) / 4 * 4 <= |b| <= U32_MAX then
              var start := (TablesEnd(b) + 3) / 4 * 4;
              && Le32(r, 0x20) == |b| && Le32(r, 0x68) == |b| - start && Le32(r, 0x6c) == start
              && forall x :: 0 <= x < |b| && !(0x20 <= x < 0x24) && !(0x68 <= x < 0x70) ==> r[x] == b[x]
            else r == b
  {
    hide Le32, TablesEnd, PutLe32;
    if HasHeader(b) && Align4(TablesEnd(b)) <= |b| <= U32_MAX {
      var r, start := FixHeaderBounds(b), Align4(TablesEnd(b));
      assert r[0x20..0x24] == PutLe32(|b|);
      assert r[0x68..0x6c] == PutLe32(|b| - start);
      assert r[0x6c..0x70] == PutLe32(start);
      HeldLe32(r, 0x20, |b|);
      HeldLe32(r, 0x68, |b| - start);
      HeldLe32(r, 0x6c, start);
    }
  }

  // ----- the map -----

  /** The header points at an aligned table of `es`, each entry non-empty and
      starting in the file, no type listed twice. */
  ghost predicate MapShows(b: seq<byte>, es: seq<MapEntry>) {
    && HasHeader(b) && es != []
    && var off := Le32(b, 0x34);
    && off >= 0x70 && off % 4 == 0 && off + 4 + 12 * |es| <= |b| && Le32(b, off) == |es|
    && (forall i :: 0 <= i < |es| ==> ShowsEntry(b, off + 4 + 12 * i, es[i]))
    && (forall i :: 0 <= i < |es| ==> es[i].size > 0 && es[i].off < |b|)
    && forall i, j :: 0 <= i < j < |es| ==> es[i].typ != es[j].typ
  }

  ghost predicate ShowsEntry(b: seq<byte>, at: nat, e: MapEntry) {
    at + 12 <= |b| && Le16(b, at) == e.typ && Le32(b, at + 4) == e.size && Le32(b, at + 8) == e.off
  }

  lemma {:induction false} EntriesShown(b: seq<byte>, at: nat, count: nat)
    requires at + 12 * count <= |b|
    ensures forall i :: 0 <= i < count ==> ShowsEntry(b, at + 12 * i, EntriesFrom(b, at, count)[i])
    decreases count
  {
    hide Le16, Le32;
    if count > 0 {
      var rest := EntriesFrom(b, at + 12, count - 1);
      EntriesShown(b, at + 12, count - 1);
      forall i | 0 <= i < count ensures ShowsEntry(b, at + 12 * i, EntriesFrom(b, at, count)[i]) {
        if i > 0 {
          assert ShowsEntry(b, at + 12 + 12 * (i - 1), rest[i - 1]);
        }
      }
    }
  }

  /** Bytes show one list of entries. */
  lemma ShownOnce(b: seq<byte>, at: nat, es: seq<MapEntry>, fs: seq<MapEntry>)
    requires |es| == |fs|
    requires forall i :: 0 <= i < |es| ==> ShowsEntry(b, at + 12 * i, es[i]) && ShowsEntry(b, at + 12 * i, fs[i])
    ensures es == fs
  {
    forall i | 0 <= i < |es| ensures es[i] == fs[i] {
      assert ShowsEntry(b, at + 12 * i, es[i]) && ShowsEntry(b, at + 12 * i, fs[i]);
    }
  }

  /** Reading the map gives `es` exactly when the file shows `es`. */
  lemma MapIs(b: seq<byte>, es: seq<MapEntry>)
    ensures ReadMap(b) == Ok(es) <==> MapShows(b, es)
  {
    hide Le16, Le32, ShowsEntry, EntriesFrom;
    if MapTable(b).Some? {
      var (off, count) := MapTable(b).value;
      EntriesShown(b, off + 4, count);
      if MapShows(b, es) {
        ShownOnce(b, off + 4, es, EntriesFrom(b, off + 4, count));
      }
    }
  }

  /** No section but the map itself starts inside the table at `off`. */
  ghost predicate TableClear(es: seq<MapEntry>, off: nat) {
    forall e :: e in es && e.typ != 0x1000 ==> !(off <= e.off < off + 4 + 12 * |es|)
  }

  /** The table is strictly sorted, ends with itself, and ends the file. */
  ghost predicate TableSettled(b: seq<byte>, es: seq<MapEntry>, off: u32) {
    && (forall i, j :: 0 <= i < j < |es| ==> es[i].off < es[j].off)
    && es != [] && es[|es| - 1] == MapEntry(0x1000, 1, off) && off + 4 + 12 * |es| == |b|
  }

  /** A map is rebuilt if and only if it reads, no section starts inside it, and a
      new one has room below 32 bits unless nothing moved and it is settled. */
  lemma RebuildSucceeds(b: seq<byte>, relocated: Option<seq<MapEntry>>)
    ensures RebuildMap(b, relocated).Ok? <==>
              exists es :: MapShows(b, es) && TableClear(es, Le32(b, 0x34))
                           && ((relocated.None? && TableSettled(b, es, Le32(b, 0x34))) || (|b| + 3) / 4 * 4 <= 0xffff_ffff)
  {
    hide Le16, Le32, MapShows, ShowsEntry, EntriesFrom, MoveMap, Substitute;
    if ReadMap(b).Ok? {
      var es := ReadMap(b).value;
      MapIs(b, es);
      var (off, count) := MapTable(b).value;
      TableIsClear(es, off);
      TableIsSettled(b, es, off);
      if RebuildMap(b, relocated).Ok? {
        assert MapShows(b, es) && TableClear(es, Le32(b, 0x34));
      }
    }
    forall es | MapShows(b, es) ensures ReadMap(b) == Ok(es) {
      MapIs(b, es);
    }
  }

  lemma TableIsClear(es: seq<MapEntry>, off: nat)
    ensures OverlapsMap(es, off, MapEnd(off, |es|)) <==> !TableClear(es, off)
  {
    if e :| e in es && e.typ != 0x1000 && off <= e.off < off + 4 + 12 * |es| {
      var i :| 0 <= i < |es| && es[i] == e;
    }
  }

  lemma TableIsSettled(b: seq<byte>, es: seq<MapEntry>, off: u32)
    ensures NeighboursAscend(es) && SelfEntryLast(es, off) && MapEnd(off, |es|) == |b| <==> TableSettled(b, es, off)
  {
    if NeighboursAscend(es) {
      forall i, j | 0 <= i < j < |es| ensures es[i].off < es[j].off {
        AscendAll(es, i, j);
      }
    }
  }

  // ----- what is collected -----

  lemma {:induction false} MethodsChecked(b: seq<byte>, ms: seq<EncodedMethod>)
    requires HasHeader(b) && CheckMethods(b, ms).Ok?
    ensures IndicesBelow(ms, MethodIdsSize(b))
    ensures forall off: u32 :: OffsetOf(ms, off) ==> CodeItemEnd(b, off).Ok?
    decreases |ms|
  {
    hide Le32, CodeItemEnd, OffsetOf;
    if ms == [] {
      forall off: u32 ensures !OffsetOf(ms, off) { NoOffset(off); }
    } else {
      MethodsChecked(b, ms[1..]);
      assert forall k :: 0 < k < |ms| ==> ms[k] == ms[1..][k - 1];
      forall off: u32 | OffsetOf(ms, off) ensures CodeItemEnd(b, off).Ok? {
        OffsetOfHead(ms, off);
      }
    }
  }

  /** Class `i` reads, its method indices name methods, and its items are whole. */
  ghost predicate ClassChecked(b: seq<byte>, i: nat)
    requires DefsInFile(b) && i < ClassDefsSize(b)
  {
    && ReadableClass(b, i) && IndicesBelow(MethodsOf(b, i), MethodIdsSize(b))
    && forall off: u32 :: OffsetOf(MethodsOf(b, i), off) ==> CodeItemEnd(b, off).Ok?
  }

  lemma {:induction false} ClassesChecked(b: seq<byte>, i: nat)
    requires DefsInFile(b) && CollectFrom(b, i).Ok?
    ensures forall k :: i <= k < ClassDefsSize(b) ==> ClassChecked(b, k)
    decreases ClassDefsSize(b) - i
  {
    hide Le32, ParseClassData, OffsetOf, CodeItemEnd, CheckMethods;
    if i < ClassDefsSize(b) {
      if ClassDataOff(b, i) != 0 {
        MethodsChecked(b, MethodsOf(b, i));
      } else {
        forall off: u32 ensures !OffsetOf(MethodsOf(b, i), off) { NoOffset(off); }
      }
      ClassesChecked(b, i + 1);
    }
  }

  /** Collecting succeeds exactly on a healthy file whose methods exist. */
  lemma CollectedIsHealthy(b: seq<byte>)
    requires DefsInFile(b)
    ensures CollectFrom(b, 0).Ok? <==> Healthy(b) && IndicesInRange(b)
  {
    hide Le32, OffsetOf, CodeItemEnd, CollectFrom, MethodsOf, ReadableClass, IndicesBelow;
    if Healthy(b) && IndicesInRange(b) {
      CollectsFrom(b, 0);
    }
    if CollectFrom(b, 0).Ok? {
      ClassesChecked(b, 0);
      assert forall k :: 0 <= k < ClassDefsSize(b) ==> ClassChecked(b, k);
      forall i | 0 <= i < ClassDefsSize(b) ensures ReadableClass(b, i) && IndicesBelow(MethodsOf(b, i), MethodIdsSize(b)) {
        assert ClassChecked(b, i);
      }
      forall off: u32 | CodeOffset(b, off) ensures CodeItemEnd(b, off).Ok? && LiveCode(b, off) {
        var i, k :| 0 <= i < ClassDefsSize(b) && 0 <= k < |MethodsOf(b, i)| && MethodsOf(b, i)[k].codeOff == off;
        assert OffsetOf(MethodsOf(b, i), off) by { IsOffsetOf(MethodsOf(b, i), k); }
        assert ClassChecked(b, i);
        WholeIsUsable(b, off);
      }
    }
  }

  lemma IsOffsetOf(ms: seq<EncodedMethod>, k: nat)
    requires k < |ms| && ms[k].codeOff != 0
    ensures OffsetOf(ms, ms[k].codeOff)
  {
  }

  lemma WholeIsUsable(b: seq<byte>, off: u32)
    requires CodeItemEnd(b, off).Ok?
    ensures InsnsLen(b, off).Some?
  {
  }

  // ----- runs of live items -----

  /** A live class data item, or a live code item. */
  ghost predicate IsLive(b: seq<byte>, isCode: bool, off: u32)
    requires DefsInFile(b)
  {
    if isCode then CodeOffset(b, off) else LiveData(b, off)
  }

  ghost predicate EndsAt(b: seq<byte>, isCode: bool, off: u32, end: nat) {
    if isCode then CodeItemEnd(b, off) == Ok(end)
    else ParseClassData(b, off).Ok? && ParseClassData(b, off).value.1 == end
  }

  /** The item after `off` starts where that ends, a code item at the next
      multiple of four. */
  ghost predicate Follows(b: seq<byte>, isCode: bool, off: u32, next: nat) {
    exists end: nat :: EndsAt(b, isCode, off, end) && next == if isCode then (end + 3) / 4 * 4 else end
  }

  /** Each item is whole and starts where the one before it leaves off; the last
      ends at `end`. */
  ghost predicate Contiguous(b: seq<byte>, isCode: bool, run: seq<u32>, end: nat) {
    && run != [] && EndsAt(b, isCode, run[|run| - 1], end)
    && forall k :: 0 <= k < |run| - 1 ==> Follows(b, isCode, run[k], run[k + 1])
  }

  /** The entry `e` describes the run of all live items of its kind: how many
      there are, where the first stands, and room for the last. */
  ghost predicate DescribesRun(b: seq<byte>, es: seq<MapEntry>, e: MapEntry, isCode: bool, run: seq<u32>, end: nat)
    requires DefsInFile(b)
  {
    && Contiguous(b, isCode, run, end)
    && (forall off: u32 :: off in run <==> IsLive(b, isCode, off))
    && e.size == |run| && e.off == run[0]
    && end <= |b| && forall f :: f in es && f.off > e.off ==> end <= f.off
  }

  ghost function KindType(isCode: bool): u16 {
    if isCode then 0x2001 else 0x2000
  }

  /** A kind is listed exactly when it has live items, and then truly. */
  ghost predicate Listed(b: seq<byte>, es: seq<MapEntry>, isCode: bool)
    requires DefsInFile(b)
  {
    && ((exists e :: e in es && e.typ == KindType(isCode)) <==> exists off: u32 :: IsLive(b, isCode, off))
    && forall e :: e in es && e.typ == KindType(isCode) ==> exists run, end :: DescribesRun(b, es, e, isCode, run, end)
  }

  // ----- walking is reading a run -----

  lemma LiveEndIs(b: seq<byte>, isCode: bool, off: u32, end: nat)
    ensures LiveEnd(b, isCode, off) == Ok(end) <==> EndsAt(b, isCode, off, end)
    ensures EndsAt(b, isCode, off, end) ==> off < end <= |b| && (isCode ==> off % 4 == 0)
  {
  }

  lemma {:induction false} WalkFinds(b: seq<byte>, isCode: bool, pos: nat, todo: set<u32>) returns (run: seq<u32>)
    requires todo != {} && WalkRun(b, isCode, pos, todo).Ok?
    ensures Contiguous(b, isCode, run, WalkRun(b, isCode, pos, todo).value)
    ensures run[0] == Least(todo) == Aligned(isCode, pos)
    ensures |run| == |todo| && forall off: u32 :: off in run <==> off in todo
    decreases |todo|
  {
    hide LiveEnd, EndsAt, Least;
    var off := Least(todo);
    var end := LiveEnd(b, isCode, off).value;
    LiveEndIs(b, isCode, off, end);
    var rest := todo - {off};
    assert |rest| == |todo| - 1 && forall x: u32 :: x in todo <==> x == off || x in rest;
    if rest == {} {
      run := [off];
    } else {
      var run' := WalkFinds(b, isCode, end, rest);
      run := [off] + run';
      assert Follows(b, isCode, off, run'[0]);
      ContiguousCons(b, isCode, off, run', WalkRun(b, isCode, pos, todo).value);
      InCons(off, run');
    }
  }

  lemma InCons(off: u32, run: seq<u32>)
    ensures forall x: u32 :: x in [off] + run <==> x == off || x in run
  {
  }

  lemma ContiguousCons(b: seq<byte>, isCode: bool, off: u32, run: seq<u32>, end: nat)
    requires Contiguous(b, isCode, run, end) && Follows(b, isCode, off, run[0])
    ensures Contiguous(b, isCode, [off] + run, end)
  {
    hide EndsAt, Follows;
    var all := [off] + run;
    forall k | 0 <= k < |all| - 1 ensures Follows(b, isCode, all[k], all[k + 1]) {
      if k > 0 {
        assert Follows(b, isCode, run[k - 1], run[k]);
      }
    }
  }

  lemma ContiguousTail(b: seq<byte>, isCode: bool, run: seq<u32>, end: nat)
    requires Contiguous(b, isCode, run, end) && |run| > 1
    ensures Contiguous(b, isCode, run[1..], end) && Follows(b, isCode, run[0], run[1])
  {
    hide EndsAt, Follows;
    forall k | 0 <= k < |run[1..]| - 1 ensures Follows(b, isCode, run[1..][k], run[1..][k + 1]) {
      assert Follows(b, isCode, run[k + 1], run[k + 2]);
    }
  }

  /** The item at `off` is whole and ends by `limit`. */
  ghost predicate EndsBy(b: seq<byte>, isCode: bool, off: u32, limit: nat) {
    exists end: nat :: EndsAt(b, isCode, off, end) && off < end <= limit
  }

  lemma FollowingEndsBy(b: seq<byte>, isCode: bool, off: u32, next: nat)
    requires Follows(b, isCode, off, next)
    ensures EndsBy(b, isCode, off, next)
  {
    hide EndsAt;
    var end: nat :| EndsAt(b, isCode, off, end) && next == if isCode then (end + 3) / 4 * 4 else end;
    LiveEndIs(b, isCode, off, end);
  }

  lemma EndsByMore(b: seq<byte>, isCode: bool, off: u32, limit: nat, more: nat)
    requires EndsBy(b, isCode, off, limit) && limit <= more
    ensures EndsBy(b, isCode, off, more) && off < limit
  {
    hide EndsAt;
  }

  /** No item of a run reaches into a later one, nor past the end of the run. */
  lemma {:induction false} RunApart(b: seq<byte>, isCode: bool, run: seq<u32>, end: nat)
    requires Contiguous(b, isCode, run, end)
    ensures forall i :: 0 <= i < |run| ==> run[0] <= run[i] && EndsBy(b, isCode, run[i], end)
    ensures forall i, j :: 0 <= i < j < |run| ==> run[i] < run[j] && EndsBy(b, isCode, run[i], run[j])
    decreases |run|
  {
    hide EndsAt, EndsBy;
    if |run| == 1 {
      OnlyEndsBy(b, isCode, run[0], end);
    } else {
      ContiguousTail(b, isCode, run, end);
      FollowingEndsBy(b, isCode, run[0], run[1]);
      var rest := run[1..];
      RunApart(b, isCode, rest, end);
      forall i | 0 <= i < |run| ensures run[0] <= run[i] && EndsBy(b, isCode, run[i], end) {
        if i > 0 {
          assert run[i] == rest[i - 1];
        }
        EndsByMore(b, isCode, rest[0], end, end);
        EndsByMore(b, isCode, run[0], run[1], end);
      }
      forall i, j | 0 <= i < j < |run| ensures run[i] < run[j] && EndsBy(b, isCode, run[i], run[j]) {
        assert run[j] == rest[j - 1];
        if i > 0 {
          assert run[i] == rest[i - 1];
        } else {
          EndsByMore(b, isCode, run[0], run[1], run[j]);
        }
      }
    }
  }

  lemma OnlyEndsBy(b: seq<byte>, isCode: bool, off: u32, end: nat)
    requires EndsAt(b, isCode, off, end)
    ensures EndsBy(b, isCode, off, end)
  {
    hide EndsAt;
    LiveEndIs(b, isCode, off, end);
  }

  ghost function Elements(run: seq<u32>): set<u32> {
    set x | x in run
  }

  lemma ElementsCons(off: u32, rest: seq<u32>)
    requires off !in rest
    ensures Elements([off] + rest) - {off} == Elements(rest)
    ensures |Elements([off] + rest)| == 1 + |Elements(rest)|
  {
    InCons(off, rest);
    assert Elements([off] + rest) == {off} + Elements(rest);
  }

  lemma {:induction false} RunWalks(b: seq<byte>, isCode: bool, pos: nat, run: seq<u32>, end: nat)
    requires Contiguous(b, isCode, run, end) && run[0] == Aligned(isCode, pos)
    ensures WalkRun(b, isCode, pos, Elements(run)) == Ok(end) && |Elements(run)| == |run|
    ensures Least(Elements(run)) == run[0]
    decreases |run|
  {
    hide LiveEnd, EndsAt, Least, WalkRun, EndsBy;
    var off, rest := run[0], run[1..];
    RunApart(b, isCode, run, end);
    assert run == [off] + rest;
    assert off !in rest by {
      assert forall i :: 0 <= i < |rest| ==> run[0] < run[i + 1] == rest[i];
    }
    ElementsCons(off, rest);
    var next: nat := end;
    if rest == [] {
      WalkNothing(b, isCode, end);
      assert Elements(rest) == {};
    } else {
      ContiguousTail(b, isCode, run, end);
      next :| EndsAt(b, isCode, off, next) && rest[0] == Aligned(isCode, next);
      RunWalks(b, isCode, next, rest, end);
    }
    LiveEndIs(b, isCode, off, next);
    LeastIs(Elements(run), off);
    WalkFirst(b, isCode, pos, Elements(run));
  }

  // ----- the check of one kind -----

  lemma SameEntry(es: seq<MapEntry>, e: MapEntry, f: MapEntry)
    requires DistinctTypes(es) && e in es && f in es && e.typ == f.typ
    ensures e == f
  {
    var i :| 0 <= i < |es| && es[i] == e;
    var j :| 0 <= j < |es| && es[j] == f;
  }

  /** Room up to the next section is room before every later one. */
  lemma RoomIs(es: seq<MapEntry>, off: nat, len: nat, end: nat)
    requires off < len
    ensures end <= NextOffset(es, off, len) <==> end <= len && forall f :: f in es && f.off > off ==> end <= f.off
  {
  }

  lemma FirstAligned(b: seq<byte>, isCode: bool, run: seq<u32>, end: nat)
    requires Contiguous(b, isCode, run, end)
    ensures run[0] == Aligned(isCode, run[0]) && end <= |b|
  {
    hide LiveEnd, EndsAt, Follows;
    LiveEndIs(b, isCode, run[|run| - 1], end);
    if |run| > 1 {
      ContiguousTail(b, isCode, run, end);
      var e: nat := FollowedEnd(b, isCode, run[0], run[1]);
      LiveEndIs(b, isCode, run[0], e);
    }
    if isCode {
      Align4Aligned(run[0]);
    }
  }

  lemma FollowedEnd(b: seq<byte>, isCode: bool, off: u32, next: nat) returns (end: nat)
    requires Follows(b, isCode, off, next)
    ensures EndsAt(b, isCode, off, end)
  {
    hide EndsAt;
    end :| EndsAt(b, isCode, off, end) && next == if isCode then (end + 3) / 4 * 4 else end;
  }

  lemma CheckedIsDescribed(b: seq<byte>, es: seq<MapEntry>, e: MapEntry, isCode: bool, offsets: set<u32>)
    requires DefsInFile(b) && forall off: u32 :: off in offsets <==> IsLive(b, isCode, off)
    requires FindType(es, KindType(isCode)) == Some(e) && e.off < |b|
    requires CheckRun(b, es, isCode, offsets).Ok?
    ensures exists run, end :: DescribesRun(b, es, e, isCode, run, end)
  {
    hide WalkRun, Least, NextOffset, IsLive, Contiguous, FindType;
    var run := WalkFinds(b, isCode, e.off, offsets);
    var end := WalkRun(b, isCode, e.off, offsets).value;
    FirstAligned(b, isCode, run, end);
    RoomIs(es, e.off, |b|, end);
    assert DescribesRun(b, es, e, isCode, run, end);
  }

  lemma DescribedIsChecked(
    b: seq<byte>, es: seq<MapEntry>, e: MapEntry, isCode: bool, offsets: set<u32>, run: seq<u32>, end: nat)
    requires DefsInFile(b) && forall off: u32 :: off in offsets <==> IsLive(b, isCode, off)
    requires FindType(es, KindType(isCode)) == Some(e) && e.off < |b|
    requires DescribesRun(b, es, e, isCode, run, end)
    ensures CheckRun(b, es, isCode, offsets).Ok?
  {
    hide WalkRun, Least, NextOffset, IsLive, FindType, EndsAt, Follows;
    assert offsets == Elements(run);
    assert run[0] in offsets;
    FirstAligned(b, isCode, run, end);
    RunWalks(b, isCode, e.off, run, end);
    RoomIs(es, e.off, |b|, end);
  }

  /** The check of a kind accepts exactly a truly listed one. */
  lemma CheckRunIs(b: seq<byte>, es: seq<MapEntry>, isCode: bool, offsets: set<u32>)
    requires DefsInFile(b) && DistinctTypes(es) && EntriesInFile(es, |b|)
    requires forall off: u32 :: off in offsets <==> IsLive(b, isCode, off)
    ensures CheckRun(b, es, isCode, offsets).Ok? <==> Listed(b, es, isCode)
  {
    hide CheckRun, DescribesRun, IsLive, FindType, DistinctTypes;
    match FindType(es, KindType(isCode))
    case None =>
      NoEntryChecks(b, es, isCode, offsets);
      if off: u32 :| IsLive(b, isCode, off) {
        assert off in offsets;
      } else {
        assert offsets == {};
      }
    case Some(e) =>
      assert e.off < |b| by {
        var i :| 0 <= i < |es| && es[i] == e;
        assert EntryInFile(es[i], |b|);
      }
      if CheckRun(b, es, isCode, offsets).Ok? {
        CheckedIsDescribed(b, es, e, isCode, offsets);
        SomeLive(b, es, e, isCode);
        forall f | f in es && f.typ == KindType(isCode)
          ensures exists run, end :: DescribesRun(b, es, f, isCode, run, end)
        {
          SameEntry(es, e, f);
        }
      } else if Listed(b, es, isCode) {
        var run, end :| DescribesRun(b, es, e, isCode, run, end);
        DescribedIsChecked(b, es, e, isCode, offsets, run, end);
      }
  }

  lemma NoEntryChecks(b: seq<byte>, es: seq<MapEntry>, isCode: bool, offsets: set<u32>)
    requires FindType(es, KindType(isCode)).None?
    ensures CheckRun(b, es, isCode, offsets).Ok? <==> offsets == {}
  {
    hide FindType, WalkRun, Least, NextOffset;
  }

  lemma SomeLive(b: seq<byte>, es: seq<MapEntry>, e: MapEntry, isCode: bool)
    requires DefsInFile(b) && exists run, end :: DescribesRun(b, es, e, isCode, run, end)
    ensures exists off: u32 :: IsLive(b, isCode, off)
  {
    hide IsLive, EndsAt, Follows;
    var run, end :| DescribesRun(b, es, e, isCode, run, end);
    assert IsLive(b, isCode, run[0]);
  }

  // ----- the whole check -----

  /** What a checked file is: sound tables; a plain DEX whose size and data bounds
      are those of the file and whose digests match; a strictly sorted map that
      lists itself; whole classes and items throughout; and both kinds of them
      truly listed. */
  ghost predicate Consistent(b: seq<byte>, digests: Digests) {
    && TablesSound(b) && Le32(b, 0) == 0x0a78_6564
    && Le32(b, 0x20) == |b| && 0x70 <= Le32(b, 0x6c) && Le32(b, 0x6c) + Le32(b, 0x68) == |b|
    && b[12..32] == digests.sha1(b[32..]) && Le32(b, 8) == digests.adler32(b[12..])
    && DefsInFile(b) && Healthy(b) && IndicesInRange(b)
    && exists es :: MapShows(b, es) && SortedWithSelf(es, Le32(b, 0x34)) && Listed(b, es, false) && Listed(b, es, true)
  }

  ghost predicate SortedWithSelf(es: seq<MapEntry>, at: u32) {
    MapEntry(0x1000, 1, at) in es && forall i, j :: 0 <= i < j < |es| ==> es[i].off < es[j].off
  }

  lemma {:induction false} AscendAll(es: seq<MapEntry>, i: nat, j: nat)
    requires NeighboursAscend(es) && i < j < |es|
    ensures es[i].off < es[j].off
    decreases j
  {
    if i < j - 1 {
      AscendAll(es, i, j - 1);
    }
  }

  lemma SortedIs(es: seq<MapEntry>, at: u32)
    ensures NeighboursAscend(es) && MapEntry(TYPE_MAP_LIST, 1, at) in es <==> SortedWithSelf(es, at)
  {
    if NeighboursAscend(es) {
      forall i, j | 0 <= i < j < |es| ensures es[i].off < es[j].off {
        AscendAll(es, i, j);
      }
    }
  }

  /** What the check does once it has a sorted map. */
  lemma RunsChecked(b: seq<byte>, es: seq<MapEntry>)
    requires ReadMap(b) == Ok(es) && DefsInFile(b)
    ensures (CollectFrom(b, 0).Ok? && CheckRun(b, es, false, CollectFrom(b, 0).value.0).Ok?
             && CheckRun(b, es, true, CollectFrom(b, 0).value.1).Ok?)
       <==> (Healthy(b) && IndicesInRange(b) && Listed(b, es, false) && Listed(b, es, true))
  {
    hide Le16, Le32, CollectFrom, CheckRun, Healthy, IndicesInRange, Listed, MapTable, CodeOffset, LiveData, EntriesInFile, DistinctTypes;
    CollectedIsHealthy(b);
    if CollectFrom(b, 0).Ok? {
      CollectsFrom(b, 0);
      var (classes, codes) := CollectFrom(b, 0).value;
      forall off: u32
        ensures off in classes <==> LiveData(b, off)
        ensures off in codes <==> CodeOffset(b, off)
      {
        CodeFromStart(b, off);
      }
      CheckRunIs(b, es, false, classes);
      CheckRunIs(b, es, true, codes);
    }
  }

  /** The final check accepts exactly the consistent files. */
  lemma AcceptedIsConsistent(b: seq<byte>, digests: Digests)
    ensures Validate(b, digests).Ok? <==> Consistent(b, digests)
  {
    hide Le16, Le32, CollectFrom, CheckRun, Healthy, IndicesInRange, Listed, MapShows, DefsInFile, ReadMap, NeighboursAscend, SortedWithSelf, ValidateIdBounds;
    IdBoundsAre(b);
    if ValidateIdBounds(b).Ok? {
      ValidatedDefsInFile(b);
      if ReadMap(b).Ok? {
        var es := ReadMap(b).value;
        MapIs(b, es);
        SortedIs(es, Le32(b, 0x34));
        RunsChecked(b, es);
      }
      forall es | MapShows(b, es) ensures ReadMap(b) == Ok(es) {
        MapIs(b, es);
      }
    }
  }

  // ----- nothing overlaps in an accepted file -----

  /** The entry of a live item's kind, and the run the item stands in. */
  lemma RunOf(b: seq<byte>, es: seq<MapEntry>, isCode: bool, off: u32) returns (e: MapEntry, run: seq<u32>, end: nat)
    requires DefsInFile(b) && Listed(b, es, isCode) && IsLive(b, isCode, off)
    ensures e in es && e.typ == KindType(isCode) && DescribesRun(b, es, e, isCode, run, end)
    ensures off in run && run[0] == e.off <= off && EndsBy(b, isCode, off, end)
  {
    hide IsLive, Contiguous, EndsBy;
    e :| e in es && e.typ == KindType(isCode);
    run, end :| DescribesRun(b, es, e, isCode, run, end);
    RunApart(b, isCode, run, end);
    var i :| 0 <= i < |run| && run[i] == off;
  }

  lemma SameRunApart(b: seq<byte>, isCode: bool, run: seq<u32>, end: nat, x: u32, y: u32)
    requires Contiguous(b, isCode, run, end) && x in run && y in run && x < y
    ensures EndsBy(b, isCode, x, y)
  {
    hide EndsBy, Contiguous;
    RunApart(b, isCode, run, end);
    var i :| 0 <= i < |run| && run[i] == x;
    var j :| 0 <= j < |run| && run[j] == y;
  }

  /** Of any two live items of an accepted file, whatever their kinds, one ends
      before the other starts. */
  lemma AcceptedItemsApart(b: seq<byte>, digests: Digests, k1: bool, x: u32, k2: bool, y: u32)
    requires Validate(b, digests).Ok? && DefsInFile(b)
    requires IsLive(b, k1, x) && IsLive(b, k2, y) && (k1, x) != (k2, y)
    ensures EndsBy(b, k1, x, y) || EndsBy(b, k2, y, x)
  {
    AcceptedIsConsistent(b, digests);
    hide Validate, Le32, Healthy, IndicesInRange, Listed, MapShows, IsLive, Contiguous, EndsBy, TablesSound, DefsInFile;
    var es :| MapShows(b, es) && SortedWithSelf(es, Le32(b, 0x34)) && Listed(b, es, false) && Listed(b, es, true);
    var e, run1, end1 := RunOf(b, es, k1, x);
    var f, run2, end2 := RunOf(b, es, k2, y);
    if k1 == k2 {
      assert x in run2;
      if x < y {
        SameRunApart(b, k1, run2, end2, x, y);
      } else {
        SameRunApart(b, k1, run2, end2, y, x);
      }
    } else {
      ApartOffsets(es, e, f);
      if e.off < f.off {
        EndsByMore(b, k1, x, end1, y);
      } else {
        EndsByMore(b, k2, y, end2, x);
      }
    }
  }

  lemma ApartOffsets(es: seq<MapEntry>, e: MapEntry, f: MapEntry)
    requires e in es && f in es && e != f && forall i, j :: 0 <= i < j < |es| ==> es[i].off < es[j].off
    ensures e.off != f.off
  {
    var i :| 0 <= i < |es| && es[i] == e;
    var j :| 0 <= j < |es| && es[j] == f;
  }

  /** Whatever is repaired, relocated or not, is consistent: a repair that succeeds
      never leaves wrong tables, sizes, digests or map, a broken class or item, or
      runs with gaps or overlaps. */
  lemma RepairedIsConsistent(b: seq<byte>, captures: seq<Capture>, force: bool, digests: Digests)
    requires RepairOne(b, captures, force, digests).Ok?
    ensures Consistent(RepairOne(b, captures, force, digests).value.0, digests)
  {
    hide Validate, Consistent, FixFormat, Seal, AppendMissing, ApplyRecords, MethodOffsets, ReadMap, OpenDex, ValidateIdBounds;
    AcceptedIsConsistent(RepairOne(b, captures, force, digests).value.0, digests);
  }
}
