/**
  What a repair guarantees: when relocation was triggered the closing validation
  succeeds, and the program is the one that went in.
 */
module RepairProofs {
  import opened Bytes
  import opened Dex
  import opened ClassData
  import opened CodeItem
  import opened MapList
  import opened Synthesis
  import opened Relocation
  import opened RelocationProofs
  import opened Relocated
  import opened FormatFix
  import opened Live
  import opened FormatProofs
  import opened Runs
  import opened Validator
  import opened Repair
  import opened Sealing

  // ----- sealing keeps the program -----

  /** `f` is `b` grown, with header fields rewritten and `[lo, hi)` given up. */
  ghost predicate SealedFrom(b: seq<byte>, f: seq<byte>, lo: nat, hi: nat) {
    && SameTables(b, f)
    && forall x :: DEX_HEADER_SIZE <= x < |b| && !(lo <= x < hi) ==> f[x] == b[x]
  }

  /** No live item touches `[lo, hi)`, which lies past the id tables. */
  ghost predicate ClearOfLive(b: seq<byte>, lo: nat, hi: nat)
    requires DefsInFile(b)
  {
    && TablesEnd(b) <= lo
    && (forall off: u32 :: LiveCode(b, off) ==> ItemEnd(b, off) <= lo || hi <= off)
    && (forall off: u32 :: LiveData(b, off) ==> DataEnd(b, off) <= lo || hi <= off)
  }

  lemma SealedSpan(b: seq<byte>, f: seq<byte>, lo: nat, hi: nat, x: nat, y: nat)
    requires SealedFrom(b, f, lo, hi) && DEX_HEADER_SIZE <= x <= y <= |b| && (y <= lo || hi <= x)
    ensures Agree(b, f, x, y)
  {
    hide Agree;
    AgreePointwise(b, f, x, y);
  }

  lemma SealedShape(b: seq<byte>, f: seq<byte>, lo: nat, hi: nat, off: u32)
    requires SealedFrom(b, f, lo, hi) && CodeItemEnd(b, off).Ok? && DEX_HEADER_SIZE <= off
    requires ItemEnd(b, off) <= lo || hi <= off
    ensures SameItemShape(b, f, off)
  {
    hide SealedFrom, Agree, CodeItemEnd;
    var end := CodeItemEnd(b, off).value;
    SealedSpan(b, f, lo, hi, off, end);
    AgreeWithin(b, f, off, end, off, end);
    SameBytesSameShape(b, off, end - off, f, off);
  }

  lemma SealedPreserves(b: seq<byte>, f: seq<byte>, lo: nat, hi: nat)
    requires Healthy(b) && Apart(b) && ValidateIdBounds(b).Ok?
    requires SealedFrom(b, f, lo, hi) && ClearOfLive(b, lo, hi)
    ensures Preserves(b, f) && ReadsSame(b, f)
  {
    hide SealedFrom, Agree, CodeItemEnd, Le32, LiveCode, LiveData, TablesEnd, ValidateIdBounds, ParseClassData, ReadableClass,
      Apart, ClassDefAt, ReadsSame, SameShape;
    ValidatedDefsInFile(b);
    SealedTables(b, f, lo, hi);
    forall i | 0 <= i < ClassDefsSize(b) ensures SameLink(b, f, ClassDefAt(b, i)) {
      SealedSpan(b, f, lo, hi, ClassDefAt(b, i) + 24, ClassDefAt(b, i) + 28);
    }
    forall off: u32 | LiveData(b, off) ensures SameData(b, f, off) {
      LiveIsPastTables(b, off);
      LiveDataReads(b, off);
      SealedSpan(b, f, lo, hi, off, DataEnd(b, off));
    }
    forall off: u32 | LiveCode(b, off) ensures ReadsSameItem(b, f, off) {
      LiveIsPastTables(b, off);
      SealedShape(b, f, lo, hi, off);
      SameShapeReads(b, f, off);
    }
    PreservedReadsSame(b, f);
  }

  lemma LiveDataReads(b: seq<byte>, off: u32)
    requires Sound(b) && LiveData(b, off)
    ensures ParseClassData(b, off).Ok? && DataEnd(b, off) == ParseClassData(b, off).value.1 <= |b|
  {
    hide ParseClassData, Le32, LiveCode;
    var i :| 0 <= i < ClassDefsSize(b) && ClassDataOff(b, i) == off;
    assert ReadableClass(b, i);
  }

  lemma SealedTables(b: seq<byte>, f: seq<byte>, lo: nat, hi: nat)
    requires SealedFrom(b, f, lo, hi)
    ensures |b| <= |f| && Agree(b, f, 96, 104) && SameTables(b, f)
  {
    AgreeWithin(b, f, 56, 104, 96, 104);
  }

  // ----- what sealing writes -----

  lemma MapMoved(b: seq<byte>, m: seq<byte>, off: nat, count: nat)
    requires HasHeader(b) && OnlyMapMoved(b, m, off, count) && DEX_HEADER_SIZE <= off
    ensures SealedFrom(b, m, off, MapEnd(off, count))
  {
    AgreePointwise(b, m, 0, 4);
    AgreePointwise(b, m, 36, 44);
    AgreePointwise(b, m, 56, 104);
  }

  lemma SealedTrans(b: seq<byte>, m: seq<byte>, f: seq<byte>, lo: nat, hi: nat)
    requires SealedFrom(b, m, lo, hi) && HeaderOnly(m, f)
    ensures SealedFrom(b, f, lo, hi)
  {
    hide Agree;
    AgreeWithin(m, f, 0, 8, 0, 4);
    AgreeWithin(m, f, 36, 0x68, 36, 44);
    AgreeWithin(m, f, 36, 0x68, 56, 104);
    SameTablesTrans(b, m, f);
    forall x | DEX_HEADER_SIZE <= x < |b|
      ensures f[x] == m[x]
    {
      AgreeAt(m, f, DEX_HEADER_SIZE, |m|, x);
    }
  }

  lemma HeaderOnlyMap(m: seq<byte>, f: seq<byte>)
    requires HeaderOnly(m, f) && ReadMap(m).Ok?
    ensures ReadMap(f) == ReadMap(m) && MapTable(f) == MapTable(m) && MapOff(f) == MapOff(m)
  {
    hide Agree, ReadMap;
    AgreeWithin(m, f, 36, 0x68, HDR_MAP_OFF, HDR_MAP_OFF + 4);
    ReadMapHasTable(m);
    AgreeWithin(m, f, DEX_HEADER_SIZE, |m|, MapTable(m).value.0, MapEnd(MapTable(m).value.0, MapTable(m).value.1));
    MapFrame(m, f);
  }

  lemma ReadMapHasTable(b: seq<byte>)
    requires ReadMap(b).Ok?
    ensures MapTable(b).Some? && HasHeader(b)
    ensures DEX_HEADER_SIZE <= MapTable(b).value.0 == MapOff(b)
    ensures MapEnd(MapTable(b).value.0, MapTable(b).value.1) <= |b|
    ensures DistinctTypes(ReadMap(b).value) && EntriesInFile(ReadMap(b).value, |b|)
  {
    hide Le32, EntriesFrom;
  }

  ghost predicate Replacing(relocated: Option<seq<MapEntry>>, replacements: seq<MapEntry>, len: nat) {
    && (relocated == Some(replacements) || (relocated == None && replacements == []))
    && DistinctTypes(replacements) && forall e :: e in replacements ==> e.off < len
  }

  /** The sealed file, byte by byte and table by table. */
  lemma SealIs(b: seq<byte>, relocated: Option<seq<MapEntry>>, replacements: seq<MapEntry>, digests: Digests)
    requires ValidateIdBounds(b).Ok? && HasHeader(b)
    requires Replacing(relocated, replacements, |b|)
    requires RebuildMap(b, relocated).Ok?
    ensures ReadMap(b).Ok?
    ensures
      var (off, count) := MapTable(b).value;
      var m := RebuildMap(b, relocated).value.0;
      var f := Seal(b, relocated, digests).value;
      && SealedFrom(b, f, off, MapEnd(off, count))
      && ReadMap(m).Ok? && ReadMap(f) == ReadMap(m) && MapOff(f) == MapOff(m)
      && |f| == |m| && DigestsMatch(f, digests) && HeaderOnly(m, f)
      && (BoundsMatch(f) <==> |f| <= U32_MAX)
  {
    hide ReadMap, ValidateIdBounds, OnlyMapMoved, HeaderOnly, SealedFrom, DigestsMatch, BoundsMatch, RecalcHeader, FixHeaderBounds,
      RebuildMap, Le32, DistinctTypes;
    var m := RebuildMap(b, relocated).value.0;
    RebuiltReads(b, relocated);
    ReadMapHasTable(b);
    var (off, count) := MapTable(b).value;
    if RebuildMap(b, relocated).value.1 {
      RebuildMapExact(b, replacements, relocated);
      MapMoved(b, m, off, count);
    } else {
      SealedRefl(b, off, MapEnd(off, count));
    }
    SealedSame(b, m, off, MapEnd(off, count));
    TablesStay(b, m);
    HeaderSealed(m, digests);
    var f := RecalcHeader(FixHeaderBounds(m), digests);
    SealedTrans(b, m, f, off, MapEnd(off, count));
    HeaderOnlyMap(m, f);
    HeaderOnlyLength(m, f);
  }

  lemma SealedRefl(b: seq<byte>, lo: nat, hi: nat)
    requires HasHeader(b)
    ensures SealedFrom(b, b, lo, hi)
  {
  }

  lemma RebuiltReads(b: seq<byte>, relocated: Option<seq<MapEntry>>)
    requires RebuildMap(b, relocated).Ok?
    ensures ReadMap(b).Ok?
    ensures relocated.Some? ==> RebuildMap(b, relocated).value.1
    ensures !RebuildMap(b, relocated).value.1 ==> RebuildMap(b, relocated).value.0 == b
  {
    hide ReadMap, MoveMap, Substitute;
  }

  lemma SealedSame(b: seq<byte>, m: seq<byte>, lo: nat, hi: nat)
    requires SealedFrom(b, m, lo, hi)
    ensures SameTables(b, m)
  {
  }

  lemma HeaderOnlyLength(m: seq<byte>, f: seq<byte>)
    requires HeaderOnly(m, f)
    ensures |f| == |m|
  {
  }

  // ----- the closing validation -----

  /** The map of a file about to be sealed: its table and every section it lists
      lie below `pos`, at distinct offsets, none inside the table. */
  ghost predicate MappedBelow(b: seq<byte>, pos: nat) {
    && ReadMap(b).Ok? && HasHeader(b)
    && var es := ReadMap(b).value;
    && var (off, count) := MapTable(b).value;
    && DistinctOffsets(es) && !OverlapsMap(es, off, MapEnd(off, count))
    && TablesEnd(b) <= off && MapEnd(off, count) <= pos
    && forall e :: e in es ==> e.off < pos
  }

  /** The entries announced for the two runs. */
  function RunEntries(moved: seq<PlannedClass>, mid: u32): (entries: seq<MapEntry>)
    requires |moved| <= U32_MAX
  {
    [CodeMapEntry(AllMethods(moved)), MapEntry(TYPE_CLASS_DATA, |moved|, mid)]
  }

  lemma {:induction false} FirstCodeOffset(c: seq<byte>, ms: seq<EncodedMethod>, pos: nat, end: nat)
    requires CodeRun(c, ms, pos, end) && pos <= |c| && CodeOffsets(ms) != []
    ensures CodeOffsets(ms)[0] == Align4(pos) && CodeOffsets(ms)[0] in CodeSet(ms) && CodeOffsets(ms)[0] < end
    decreases |ms|
  {
    hide CodeItemEnd, Align4;
    if ms[0].codeOff == 0 {
      FirstCodeOffset(c, ms[1..], pos, end);
    } else {
      CodeRunBounds(c, ms[1..], CodeItemEnd(c, ms[0].codeOff).value, end);
    }
  }

  /** The code entry counts the run's items and points at its first. */
  lemma CodeEntryIs(c: seq<byte>, ms: seq<EncodedMethod>, pos: nat, mid: nat)
    requires CodeRun(c, ms, pos, mid) && pos <= |c| && mid <= U32_MAX
    ensures CodeMapEntry(ms).size == |CodeSet(ms)|
    ensures CodeSet(ms) == {} <==> CodeMapEntry(ms).size == 0
    ensures CodeSet(ms) == {} ==> CodeMapEntry(ms).off == 0
    ensures CodeSet(ms) != {} ==> pos <= CodeMapEntry(ms).off < mid
    ensures CodeSet(ms) != {} ==> CodeMapEntry(ms).off == Align4(pos) && Least(CodeSet(ms)) == Align4(pos)
    ensures WalkRun(c, true, pos, CodeSet(ms)) == Ok(mid)
  {
    hide WalkRun, Align4, Least, CodeItemEnd;
    CodeRunWalks(c, ms, pos, mid);
    CodeRunBounds(c, ms, pos, mid);
    WrapSmall(|CodeOffsets(ms)|);
    if CodeOffsets(ms) != [] {
      FirstCodeOffset(c, ms, pos, mid);
      forall x | x in CodeSet(ms) ensures Align4(pos) <= x {
        CodeSetIs(ms, x);
        RunItem(c, ms, pos, mid, x);
        AlignedFrom(pos, x);
      }
      LeastIs(CodeSet(ms), Align4(pos));
    }
  }

  lemma WrapSmall(n: nat)
    requires n <= U32_MAX
    ensures Wrap32(n) == n
  {
  }

  lemma AlignedFrom(pos: nat, x: nat)
    requires pos <= x && x % 4 == 0
    ensures Align4(pos) <= x
  {
  }

  /** What the entries of the final map can be. */
  ghost predicate FinalEntry(e: MapEntry, code: MapEntry, classes: MapEntry, self: MapEntry, pos: nat) {
    || (e.off < pos && e.typ != TYPE_CODE_ITEM && e.typ != TYPE_CLASS_DATA)
    || (e == code && e.size != 0) || e == classes || e == self
  }

  ghost predicate FinalMap(es: seq<MapEntry>, code: MapEntry, classes: MapEntry, self: MapEntry, pos: nat) {
    && DistinctTypes(es) && StrictlyAscending(es)
    && self in es && classes in es && (code.size != 0 ==> code in es)
    && forall e :: e in es ==> FinalEntry(e, code, classes, self, pos)
  }

  lemma RebuiltMapIs(b: seq<byte>, code: MapEntry, classes: MapEntry, pos: nat)
    requires MappedBelow(b, pos)
    requires code.typ == TYPE_CODE_ITEM && classes.typ == TYPE_CLASS_DATA && classes.size != 0
    requires pos <= classes.off < |b|
    requires if code.size == 0 then code.off == 0 else pos <= code.off < classes.off
    requires RebuildMap(b, Some([code, classes])).Ok?
    ensures var m := RebuildMap(b, Some([code, classes])).value.0;
            && ReadMap(m).Ok? && HasHeader(m) && |b| <= MapOff(m)
            && FinalMap(ReadMap(m).value, code, classes, MapEntry(TYPE_MAP_LIST, 1, MapOff(m)), pos)
  {
    hide ReadMap, RebuildMap, OnlyMapMoved, Le32, Align4, OverlapsMap, StrictlyAscending, DistinctTypes, DistinctOffsets, TablesEnd;
    var entries := [code, classes];
    var es := ReadMap(b).value;
    RebuiltReads(b, Some(entries));
    TwoRuns(es, code, classes, pos);
    RebuildMapExact(b, entries, Some(entries));
    RebuildSettles(b, entries, Some(entries));
    var m := RebuildMap(b, Some(entries)).value.0;
    ReadMapHasTable(m);
    var self := MapEntry(TYPE_MAP_LIST, 1, MapOff(m));
    forall e | e in ReadMap(m).value
      ensures FinalEntry(e, code, classes, self, pos)
    {
      ReplacedByRuns(es, code, classes, e);
    }
    ReplacedByRuns(es, code, classes, code);
    ReplacedByRuns(es, code, classes, classes);
  }

  lemma TwoRuns(es: seq<MapEntry>, code: MapEntry, classes: MapEntry, pos: nat)
    requires code.typ != classes.typ && forall e :: e in es ==> e.off < pos
    requires pos <= classes.off && if code.size == 0 then code.off == 0 else pos <= code.off < classes.off
    ensures DistinctTypes([code, classes]) && RunsApart([code, classes]) && RunsClear(es, [code, classes])
    ensures forall e :: e in [code, classes] ==> e.off <= classes.off
  {
  }

  lemma ReplacedByRuns(es: seq<MapEntry>, code: MapEntry, classes: MapEntry, e: MapEntry)
    ensures Replaced(es, [code, classes], e) <==>
            || (e in es && e.typ != code.typ && e.typ != classes.typ)
            || ((e == code || e == classes) && e.size != 0)
  {
    assert code in [code, classes] && classes in [code, classes];
  }

  lemma FoundType(es: seq<MapEntry>, e: MapEntry)
    requires DistinctTypes(es) && e in es
    ensures FindType(es, e.typ) == Some(e)
  {
    hide FindType;
    var found := FindType(es, e.typ).value;
    var i :| 0 <= i < |es| && es[i] == e;
    var j :| 0 <= j < |es| && es[j] == found;
    assert i == j;
  }

  /** In a final map, nothing starts between a run and what follows it. */
  lemma FinalGaps(es: seq<MapEntry>, code: MapEntry, classes: MapEntry, self: MapEntry, pos: nat, len: nat)
    requires FinalMap(es, code, classes, self, pos) && pos <= classes.off < self.off < len
    requires code.size != 0 ==> pos <= code.off < classes.off
    ensures self.off <= NextOffset(es, classes.off, len)
    ensures code.size != 0 ==> classes.off <= NextOffset(es, code.off, len)
  {
    hide NextOffset, DistinctTypes, StrictlyAscending;
    assert forall e :: e in es ==> FinalEntry(e, code, classes, self, pos);
  }

  lemma CollectedCodes(b: seq<byte>, moved: seq<PlannedClass>, pos: nat, mid: nat, codes: set<u32>)
    requires InRuns(b, moved, pos, mid)
    requires forall off: u32 :: off in codes <==> CodeOffset(b, off)
    ensures codes == CodeSet(AllMethods(moved))
  {
    hide InRuns, CodeOffset, OffsetOf, CodeSet, AllMethods;
    forall off: u32
      ensures off in codes <==> off in CodeSet(AllMethods(moved))
    {
      RunOffsets(b, moved, pos, mid, off);
      CodeSetIs(AllMethods(moved), off);
    }
  }

  lemma CollectedClasses(b: seq<byte>, moved: seq<PlannedClass>, pos: nat, mid: nat, classes: set<u32>)
    requires InRuns(b, moved, pos, mid) && forall j :: 0 <= j < |moved| ==> moved[j].defOff + 28 <= |b|
    requires forall off: u32 :: off in classes <==> LiveData(b, off)
    ensures classes == DataSet(b, moved)
  {
    hide LiveData, DataOf, DataSet, ClassRun, CodeRun, Enumerates, AllMethods;
    forall off: u32
      ensures off in classes <==> off in DataSet(b, moved)
    {
      RunOffsets(b, moved, pos, mid, off);
      DataSetIs(b, moved, off);
      if DataOf(b, moved, off) {
        RunData(b, moved, mid, |b|, off);
      }
    }
  }

  lemma SameCodeEnds(b: seq<byte>, f: seq<byte>, codes: set<u32>)
    requires Healthy(b) && ReadsSame(b, f)
    requires forall off: u32 :: off in codes <==> CodeOffset(b, off)
    ensures forall off :: off in codes ==> LiveEnd(f, true, off) == LiveEnd(b, true, off)
  {
    hide CodeOffset, CodeItemEnd, InsnsLen, ReadsSameClass, ReadableClass;
    assert forall off: u32 :: CodeOffset(b, off) ==> LiveCode(b, off);
  }

  lemma SameDataEnds(b: seq<byte>, f: seq<byte>, classes: set<u32>)
    requires Healthy(b) && ReadsSame(b, f)
    requires forall off: u32 :: off in classes <==> LiveData(b, off)
    ensures forall off :: off in classes ==> LiveEnd(f, false, off) == LiveEnd(b, false, off)
  {
    hide LiveCode, ParseClassData, Le32, CodeOffset, ReadableClass;
    forall off | off in classes ensures LiveEnd(f, false, off) == LiveEnd(b, false, off) {
      var i :| 0 <= i < ClassDefsSize(b) && ClassDataOff(b, i) == off;
      assert ReadsSameClass(b, f, i);
    }
  }

  lemma CodeRunChecks(
    b: seq<byte>, f: seq<byte>, moved: seq<PlannedClass>, pos: nat, mid: u32, es: seq<MapEntry>, self: MapEntry, codes: set<u32>)
    requires InRuns(b, moved, pos, mid) && |moved| <= U32_MAX && Healthy(b) && ReadsSame(b, f)
    requires FinalMap(es, CodeMapEntry(AllMethods(moved)), MapEntry(TYPE_CLASS_DATA, |moved|, mid), self, pos)
    requires mid < self.off < |f| && self.typ == TYPE_MAP_LIST
    requires forall off: u32 :: off in codes <==> CodeOffset(b, off)
    ensures CheckRun(f, es, true, codes) == Ok(())
  {
    hide InRuns, CodeOffset, WalkRun, AllMethods, CodeSet, CodeMapEntry, DistinctTypes, StrictlyAscending, ReadsSame, Least,
      FindType, NextOffset, Align4, Healthy;
    var ms := AllMethods(moved);
    var code, classes := CodeMapEntry(ms), MapEntry(TYPE_CLASS_DATA, |moved|, mid);
    InRunsIs(b, moved, pos, mid);
    CollectedCodes(b, moved, pos, mid, codes);
    CodeEntryIs(b, ms, pos, mid);
    CodeEntryType(ms);
    FinalGaps(es, code, classes, self, pos, |f|);
    if code.size != 0 {
      FoundType(es, code);
      WalkFromFirst(b, pos, codes);
      SameCodeEnds(b, f, codes);
      WalkSame(b, f, true, code.off, codes);
    } else {
      NoCodeEntry(es, code, classes, self, pos);
    }
  }

  lemma CodeEntryType(ms: seq<EncodedMethod>)
    ensures CodeMapEntry(ms).typ == TYPE_CODE_ITEM
  {
  }

  lemma NoCodeEntry(es: seq<MapEntry>, code: MapEntry, classes: MapEntry, self: MapEntry, pos: nat)
    requires FinalMap(es, code, classes, self, pos) && code.size == 0
    requires classes.typ == TYPE_CLASS_DATA && self.typ == TYPE_MAP_LIST
    ensures FindType(es, TYPE_CODE_ITEM) == None
  {
    hide DistinctTypes, StrictlyAscending, FindType;
    forall e | e in es ensures e.typ != TYPE_CODE_ITEM {
      assert FinalEntry(e, code, classes, self, pos);
    }
  }

  lemma ClassRunChecks(
    b: seq<byte>, f: seq<byte>, moved: seq<PlannedClass>, pos: nat, mid: u32, es: seq<MapEntry>, self: MapEntry, classes: set<u32>)
    requires InRuns(b, moved, pos, mid) && 0 < |moved| <= U32_MAX && Healthy(b) && ReadsSame(b, f)
    requires FinalMap(es, CodeMapEntry(AllMethods(moved)), MapEntry(TYPE_CLASS_DATA, |moved|, mid), self, pos)
    requires mid < |b| <= self.off < |f| && self.typ == TYPE_MAP_LIST
    requires forall off: u32 :: off in classes <==> LiveData(b, off)
    ensures CheckRun(f, es, false, classes) == Ok(())
  {
    hide InRuns, LiveData, WalkRun, AllMethods, DataSet, CodeMapEntry, DistinctTypes, StrictlyAscending, ReadsSame, Least,
      FindType, NextOffset, Align4, CodeSet, Healthy;
    var entry := MapEntry(TYPE_CLASS_DATA, |moved|, mid);
    InRunsIs(b, moved, pos, mid);
    LaidClassRun(b, moved, pos, mid);
    ClassRunDefs(b, moved, mid, |b|);
    CollectedClasses(b, moved, pos, mid, classes);
    ClassRunWalks(b, moved, mid, |b|);
    CodeEntryIs(b, AllMethods(moved), pos, mid);
    FinalGaps(es, CodeMapEntry(AllMethods(moved)), entry, self, pos, |f|);
    FoundType(es, entry);
    FirstClassOffset(b, moved, mid);
    SameDataEnds(b, f, classes);
    WalkSame(b, f, false, mid, classes);
  }

  lemma FirstClassOffset(b: seq<byte>, moved: seq<PlannedClass>, mid: nat)
    requires ClassRun(b, moved, mid, |b|) && moved != [] && mid <= |b|
    requires forall j :: 0 <= j < |moved| ==> moved[j].defOff + 28 <= |b|
    ensures DataSet(b, moved) != {} && Least(DataSet(b, moved)) == mid
  {
    hide DataOf, Le32, ParseClassData, Least;
    forall x | x in DataSet(b, moved) ensures mid <= x {
      DataSetIs(b, moved, x);
      RunData(b, moved, mid, |b|, x);
    }
    LeastIs(DataSet(b, moved), mid);
  }

  // ----- clearing stale fields leaves map and tables alone -----

  lemma ReadsSameEnds(b: seq<byte>, r: seq<byte>, off: u32)
    requires Healthy(b) && ReadsSame(b, r)
    ensures LiveCode(r, off) <==> LiveCode(b, off)
    ensures LiveData(r, off) <==> LiveData(b, off)
    ensures LiveCode(b, off) ==> ItemEnd(r, off) == ItemEnd(b, off)
    ensures LiveData(b, off) ==> DataEnd(r, off) == DataEnd(b, off)
  {
    hide LiveCode, CodeOffset, ParseClassData, CodeItemEnd, InsnsLen, ReadableClass, Le32;
    ReadsSameIsHealthy(b, r);
    if LiveData(b, off) {
      var i :| 0 <= i < ClassDefsSize(b) && ClassDataOff(b, i) == off;
      assert ReadsSameClass(b, r, i);
    }
  }

  lemma ReadsSameApart(b: seq<byte>, r: seq<byte>)
    requires Healthy(b) && ReadsSame(b, r) && Apart(b) && TablesEnd(r) == TablesEnd(b)
    ensures Healthy(r) && Apart(r)
  {
    hide LiveCode, LiveData, CodeOffset, CodeItemEnd, TablesEnd, ReadableClass, ReadsSame, ItemEnd, DataEnd;
    ReadsSameIsHealthy(b, r);
    forall off: u32
      ensures LiveCode(r, off) <==> LiveCode(b, off)
      ensures LiveData(r, off) <==> LiveData(b, off)
      ensures LiveCode(b, off) ==> ItemEnd(r, off) == ItemEnd(b, off)
      ensures LiveData(b, off) ==> DataEnd(r, off) == DataEnd(b, off)
    {
      ReadsSameEnds(b, r, off);
    }
  }

  lemma ReadsSameClear(b: seq<byte>, r: seq<byte>, lo: nat, hi: nat)
    requires Healthy(b) && ReadsSame(b, r) && ClearOfLive(b, lo, hi) && TablesEnd(r) == TablesEnd(b)
    ensures ClearOfLive(r, lo, hi)
  {
    hide LiveCode, LiveData, CodeOffset, CodeItemEnd, TablesEnd, ReadableClass, ItemEnd, DataEnd, ReadsSameClass, InsnsLen;
    forall off: u32
      ensures LiveCode(r, off) <==> LiveCode(b, off)
      ensures LiveData(r, off) <==> LiveData(b, off)
      ensures LiveCode(b, off) ==> ItemEnd(r, off) == ItemEnd(b, off)
      ensures LiveData(b, off) ==> DataEnd(r, off) == DataEnd(b, off)
    {
      ReadsSameEnds(b, r, off);
    }
  }

  lemma FormatSpan(b: seq<byte>, r: seq<byte>, lo: nat, hi: nat)
    requires Healthy(b) && Apart(b) && ValidateIdBounds(b).Ok? && FormatOnly(b, r)
    requires ClearOfLive(b, lo, hi) && lo <= hi <= |b|
    ensures Agree(b, r, lo, hi)
  {
    hide LiveData, CodeOffset, Agree, TablesEnd, Le32, InDefField, ValidateIdBounds, ReadableClass, InsnsLen, Apart;
    forall x | lo <= x < hi
      ensures r[x] == b[x]
    {
      if InDefField(b, x) {
        DefFieldInTables(b, x);
      }
      forall off: u32 | LiveCode(b, off) ensures !(off + 8 <= x < off + 12) {
        ItemIsLong(b, off);
      }
    }
    AgreePointwise(b, r, lo, hi);
  }

  /** The map and the tables after stale fields are cleared. */
  lemma FormatKeepsTables(b: seq<byte>)
    requires Healthy(b) && Apart(b) && ValidateIdBounds(b).Ok? && ReadMap(b).Ok?
    requires ClearOfLive(b, MapTable(b).value.0, MapEnd(MapTable(b).value.0, MapTable(b).value.1))
    ensures var r := FixFormat(b);
            && SameTables(b, r) && ReadMap(r) == ReadMap(b) && MapTable(r) == MapTable(b)
            && ValidateIdBounds(r).Ok? && TablesEnd(r) == TablesEnd(b) && SameClassDefs(b, r)
            && MethodIdsSize(r) == MethodIdsSize(b)
            && ReadsSame(b, r) && Healthy(r) && Apart(r)
  {
    hide LiveData, LiveCode, CodeOffset, Agree, TablesEnd, Le32, FormatOnly, ValidateIdBounds, ReadableClass, Apart, FixFormat,
      ReadMap, ClearOfLive, ReadsSame, FormatWords, InWords, Cleared;
    var r := FixFormat(b);
    FixFormatExact(b);
    HeaderWordsKept(b, r);
    AgreeWithin(b, r, 0, DEX_HEADER_SIZE, 0, 4);
    AgreeWithin(b, r, 0, DEX_HEADER_SIZE, 36, 44);
    AgreeWithin(b, r, 0, DEX_HEADER_SIZE, 56, 104);
    AgreeWithin(b, r, 0, DEX_HEADER_SIZE, HDR_MAP_OFF, HDR_MAP_OFF + 4);
    ReadMapHasTable(b);
    FormatSpan(b, r, MapTable(b).value.0, MapEnd(MapTable(b).value.0, MapTable(b).value.1));
    MapFrame(b, r);
    TablesStay(b, r);
    ReadsSameApart(b, r);
  }

  /** Items in runs past `pos` leave everything below it clear. */
  lemma RunsAreClear(b: seq<byte>, moved: seq<PlannedClass>, pos: nat, mid: nat, lo: nat, hi: nat)
    requires InRuns(b, moved, pos, mid) && TablesEnd(b) <= lo && hi <= pos
    ensures ClearOfLive(b, lo, hi)
  {
    hide LiveData, CodeOffset, TablesEnd, OffsetOf, DataOf, InRuns, AllMethods, CodeRun, ClassRun, InsnsLen, CodeItemEnd;
    InRunsIs(b, moved, pos, mid);
    forall off: u32 | CodeOffset(b, off) ensures pos <= off {
      RunOffsets(b, moved, pos, mid, off);
      RunItem(b, AllMethods(moved), pos, mid, off);
    }
    forall off: u32 | LiveData(b, off) ensures pos <= off {
      RunOffsets(b, moved, pos, mid, off);
      RunData(b, moved, mid, |b|, off);
    }
  }

  // ----- repair establishes its validator -----

  /** A relocated file, ready to be sealed. */
  ghost predicate ReadyToSeal(b: seq<byte>, moved: seq<PlannedClass>, pos: nat, mid: nat) {
    && OpenDex(b).Ok? && ValidateIdBounds(b).Ok?
    && InRuns(b, moved, pos, mid) && 0 < |moved| <= U32_MAX && mid <= U32_MAX
    && TablesEnd(b) <= pos
    && MappedBelow(b, pos) && IndicesInRange(b)
  }

  lemma ReadsSameIndices(b: seq<byte>, r: seq<byte>)
    requires DefsInFile(b) && ReadsSame(b, r) && IndicesInRange(b) && MethodIdsSize(r) == MethodIdsSize(b)
    ensures IndicesInRange(r)
  {
    hide LiveCode, ParseClassData, Le32, MethodsOf, CodeItemEnd, InsnsLen, ReadsSame, IndicesBelow;
    SameDefsOf(b, r);
    forall i | 0 <= i < ClassDefsSize(r) ensures IndicesBelow(MethodsOf(r, i), MethodIdsSize(r)) {
      ReadsSameMethods(b, r, i);
    }
  }

  lemma SameDefsOf(b: seq<byte>, r: seq<byte>)
    requires DefsInFile(b) && ReadsSame(b, r)
    ensures DefsInFile(r) && SameClassDefs(b, r)
  {
  }

  /** What a whole collection finds. */
  lemma Collects(b: seq<byte>)
    requires Healthy(b) && IndicesInRange(b)
    ensures CollectFrom(b, 0).Ok?
    ensures forall off: u32 :: off in CollectFrom(b, 0).value.0 <==> LiveData(b, off)
    ensures forall off: u32 :: off in CollectFrom(b, 0).value.1 <==> CodeOffset(b, off)
  {
    hide LiveData, CodeOffset, DataFrom, CodeFrom, CollectFrom, IndicesBelow, LiveCode, ReadableClass, CodeItemEnd;
    CollectsFrom(b, 0);
    forall off: u32
      ensures (CodeFrom(b, 0, off) <==> CodeOffset(b, off)) && (DataFrom(b, 0, off) <==> LiveData(b, off))
    {
      CodeFromStart(b, off);
    }
  }

  /** A sealed relocated file passes every structural part of the validation. */
  lemma SealedChecks(
    b: seq<byte>, f: seq<byte>, moved: seq<PlannedClass>, pos: nat, mid: u32, es: seq<MapEntry>, self: MapEntry)
    requires InRuns(b, moved, pos, mid) && 0 < |moved| <= U32_MAX
    requires Healthy(b) && ReadsSame(b, f) && IndicesInRange(b) && MethodIdsSize(b) == MethodIdsSize(f)
    requires FinalMap(es, CodeMapEntry(AllMethods(moved)), MapEntry(TYPE_CLASS_DATA, |moved|, mid), self, pos)
    requires mid < |b| <= self.off < |f| && self.typ == TYPE_MAP_LIST
    ensures DefsInFile(f) && CollectFrom(f, 0).Ok?
    ensures CheckRun(f, es, false, CollectFrom(f, 0).value.0) == Ok(())
    ensures CheckRun(f, es, true, CollectFrom(f, 0).value.1) == Ok(())
  {
    hide InRuns, LiveData, CodeOffset, AllMethods, CodeMapEntry, CollectFrom, CheckRun, ReadsSame, FinalMap, IndicesInRange,
      LiveCode, ReadableClass, CodeItemEnd, MethodIdsSize;
    ReadsSameIsHealthy(b, f);
    ReadsSameIndices(b, f);
    Collects(f);
    var (classes, codes) := CollectFrom(f, 0).value;
    forall off: u32
      ensures (off in codes <==> CodeOffset(b, off)) && (off in classes <==> LiveData(b, off))
    {
      ReadsSameOffsets(b, f, off);
    }
    ClassRunChecks(b, f, moved, pos, mid, es, self, classes);
    CodeRunChecks(b, f, moved, pos, mid, es, self, codes);
  }

  /** Clearing stale fields keeps a relocated file ready. */
  lemma FormattedIsReady(b: seq<byte>, moved: seq<PlannedClass>, pos: nat, mid: nat)
    requires ReadyToSeal(b, moved, pos, mid)
    ensures Healthy(b) && Apart(b) && ValidateIdBounds(b).Ok?
    ensures
      var r := FixFormat(b);
      && SameTables(b, r) && ReadsSame(b, r) && Healthy(r) && Apart(r)
      && ValidateIdBounds(r).Ok? && OpenDex(r).Ok? && MethodIdsSize(r) == MethodIdsSize(b)
      && MappedBelow(r, pos)
      && ClearOfLive(r, MapTable(r).value.0, MapEnd(MapTable(r).value.0, MapTable(r).value.1))
  {
    hide InRuns, LiveData, CodeOffset, LiveCode, ReadableClass, CodeItemEnd, FixFormat, ReadMap, ValidateIdBounds, OpenDex,
      Apart, MapTable, ClearOfLive, TablesEnd, SameTables, ReadsSame, DistinctOffsets, OverlapsMap, Sound, IndicesInRange;
    var r := FixFormat(b);
    RunsAreHealthy(b, moved, pos, mid);
    ReadMapHasTable(b);
    var (off, count) := MapTable(b).value;
    RunsAreClear(b, moved, pos, mid, off, MapEnd(off, count));
    FormatKeepsTables(b);
    TablesStay(b, r);
    ReadsSameClear(b, r, off, MapEnd(off, count));
  }

  lemma MappedReads(b: seq<byte>, pos: nat)
    requires MappedBelow(b, pos)
    ensures ReadMap(b).Ok? && HasHeader(b) && MapTable(b).Some?
  {
    hide ReadMap, MapTable, TablesEnd, OverlapsMap, DistinctOffsets;
    ReadMapHasTable(b);
  }

  lemma MappedRebuilds(b: seq<byte>, pos: nat, entries: seq<MapEntry>)
    requires MappedBelow(b, pos)
    ensures RebuildMap(b, Some(entries)).Ok? <==> Align4(|b|) <= U32_MAX
  {
    hide MoveMap, Substitute, ReadMap, MapTable, Align4, OverlapsMap, DistinctOffsets, TablesEnd;
  }

  lemma SealOk(b: seq<byte>, entries: seq<MapEntry>, digests: Digests)
    ensures Seal(b, Some(entries), digests).Ok? <==> RebuildMap(b, Some(entries)).Ok?
  {
    hide RebuildMap;
  }

  lemma RunEntriesFit(b: seq<byte>, moved: seq<PlannedClass>, pos: nat, mid: u32)
    requires InRuns(b, moved, pos, mid) && 0 < |moved| <= U32_MAX
    ensures var code := CodeMapEntry(AllMethods(moved));
            && pos <= mid < |b|
            && code.typ == TYPE_CODE_ITEM
            && (if code.size == 0 then code.off == 0 else pos <= code.off < mid)
  {
    hide InRuns, AllMethods, CodeMapEntry, CodeSet, WalkRun, Least, Align4;
    InRunsIs(b, moved, pos, mid);
    LaidClassRun(b, moved, pos, mid);
    CodeEntryIs(b, AllMethods(moved), pos, mid);
    CodeEntryType(AllMethods(moved));
    ClassRunGrows(b, moved, mid, |b|);
  }

  lemma ClassRunGrows(c: seq<byte>, plan: seq<PlannedClass>, pos: nat, end: nat)
    requires ClassRun(c, plan, pos, end) && plan != []
    ensures pos < end
  {
    hide ParseClassData, Le32;
    ClassRunBounds(c, plan[1..], ParseClassData(c, pos).value.1, end);
  }

  lemma SealedReads(b: seq<byte>, r: seq<byte>, f: seq<byte>, lo: nat, hi: nat)
    requires Healthy(b) && ReadsSame(b, r) && Healthy(r) && Apart(r) && ValidateIdBounds(r).Ok?
    requires SealedFrom(r, f, lo, hi) && ClearOfLive(r, lo, hi)
    ensures ReadsSame(b, f) && SameTables(r, f)
    ensures ValidateIdBounds(f).Ok? && MethodIdsSize(f) == MethodIdsSize(r) && (OpenDex(r).Ok? ==> OpenDex(f).Ok?)
  {
    hide LiveData, CodeOffset, LiveCode, ReadableClass, CodeItemEnd, ReadsSame, ClearOfLive, SealedFrom, SameTables, ValidateIdBounds,
      Apart, OpenDex, MethodIdsSize, Sound;
    SealedPreserves(r, f, lo, hi);
    ReadsSameTrans(b, r, f);
    SealedSame(r, f, lo, hi);
    TablesStay(r, f);
  }

  /** The sealed file is accepted exactly when its length can be written down. */
  lemma SealedValidates(b: seq<byte>, moved: seq<PlannedClass>, pos: nat, mid: u32, digests: Digests)
    requires ReadyToSeal(b, moved, pos, mid)
    requires RebuildMap(FixFormat(b), Some(RunEntries(moved, mid))).Ok?
    ensures
      var entries := Some(RunEntries(moved, mid));
      var f := Seal(FixFormat(b), entries, digests).value;
      && |f| == |RebuildMap(FixFormat(b), entries).value.0|
      && (Validate(f, digests).Ok? <==> |f| <= U32_MAX)
      && ReadsSame(b, f)
  {
    hide InRuns, LiveData, CodeOffset, LiveCode, ReadableClass, CodeItemEnd, FixFormat, ReadMap, ValidateIdBounds, OpenDex, CodeMapEntry,
      Apart, MapTable, ClearOfLive, TablesEnd, SameTables, ReadsSame, MappedBelow, RebuildMap, Seal, AllMethods, FinalMap, BoundsMatch,
      DigestsMatch, SealedFrom, IndicesInRange, MethodIdsSize, Validate, Sound;
    var code, classes := CodeMapEntry(AllMethods(moved)), MapEntry(TYPE_CLASS_DATA, |moved|, mid);
    var entries := [code, classes];
    var r := FixFormat(b);
    FormattedIsReady(b, moved, pos, mid);
    MappedReads(r, pos);
    RunEntriesFit(b, moved, pos, mid);
    RebuiltMapIs(r, code, classes, pos);
    TwoRuns([], code, classes, pos);
    SealIs(r, Some(entries), entries, digests);
    SealOk(r, entries, digests);
    var f := Seal(r, Some(entries), digests).value;
    SealedReads(b, r, f, MapTable(r).value.0, MapEnd(MapTable(r).value.0, MapTable(r).value.1));
    var self := MapEntry(TYPE_MAP_LIST, 1, MapOff(f));
    FinalSelf(f, code, classes, self, pos);
    SealedChecks(b, f, moved, pos, mid, ReadMap(f).value, self);
    FinalAscends(ReadMap(f).value, code, classes, self, pos);
    ValidateIs(f, digests, self);
  }

  lemma FinalAscends(es: seq<MapEntry>, code: MapEntry, classes: MapEntry, self: MapEntry, pos: nat)
    requires FinalMap(es, code, classes, self, pos)
    ensures NeighboursAscend(es) && self in es
  {
    hide DistinctTypes;
  }

  lemma FinalSelf(f: seq<byte>, code: MapEntry, classes: MapEntry, self: MapEntry, pos: nat)
    requires ReadMap(f).Ok? && FinalMap(ReadMap(f).value, code, classes, self, pos)
    ensures self.off < |f|
  {
    hide DistinctTypes, StrictlyAscending, ReadMap;
    ReadMapHasTable(f);
    var es := ReadMap(f).value;
    var i :| 0 <= i < |es| && es[i] == self;
    assert EntryInFile(es[i], |f|);
  }

  /** With everything else in place, validation comes down to the bounds. */
  lemma ValidateIs(f: seq<byte>, digests: Digests, self: MapEntry)
    requires ValidateIdBounds(f).Ok? && OpenDex(f).Ok? && HasHeader(f) && DigestsMatch(f, digests)
    requires ReadMap(f).Ok? && NeighboursAscend(ReadMap(f).value)
    requires self == MapEntry(TYPE_MAP_LIST, 1, MapOff(f)) && self in ReadMap(f).value
    requires DefsInFile(f) && CollectFrom(f, 0).Ok?
    requires CheckRun(f, ReadMap(f).value, false, CollectFrom(f, 0).value.0) == Ok(())
    requires CheckRun(f, ReadMap(f).value, true, CollectFrom(f, 0).value.1) == Ok(())
    ensures Validate(f, digests).Ok? <==> BoundsMatch(f)
  {
    hide ValidateIdBounds, OpenDex, DigestsMatch, ReadMap, CollectFrom, CheckRun, BoundsMatch, DefsInFile, NeighboursAscend;
  }

  /** After relocation the rest of the repair succeeds, validation included,
      unless the file outgrew the 32-bit length field. */
  lemma FinishValidates(b: seq<byte>, moved: seq<PlannedClass>, pos: nat, mid: u32, digests: Digests)
    requires ReadyToSeal(b, moved, pos, mid)
    ensures
      var entries := Some(RunEntries(moved, mid));
      var rebuilt := RebuildMap(FixFormat(b), entries);
      && (rebuilt.Ok? <==> Align4(|b|) <= U32_MAX)
      && (Finish(b, entries, digests).Ok? <==> rebuilt.Ok? && |rebuilt.value.0| <= U32_MAX)
      && (Finish(b, entries, digests).Ok? ==> |Finish(b, entries, digests).value| == |rebuilt.value.0|)
  {
    hide InRuns, LiveData, CodeOffset, AllMethods, CodeMapEntry, CollectFrom, CheckRun, ReadsSame, FinalMap, IndicesInRange,
      LiveCode, ReadableClass, CodeItemEnd, MethodIdsSize, RebuildMap, FixFormat, ReadMap, Seal, ValidateIdBounds, OpenDex,
      Align4, Healthy, Apart, MapTable, SealedFrom, BoundsMatch, DigestsMatch, ClearOfLive, MappedBelow, TablesEnd, SameTables;
    var entries := RunEntries(moved, mid);
    var b3 := FixFormat(b);
    FormattedIsReady(b, moved, pos, mid);
    MappedRebuilds(b3, pos, entries);
    if RebuildMap(b3, Some(entries)).Ok? {
      SealedValidates(b, moved, pos, mid, digests);
    }
    SealOk(b3, entries, digests);
  }
}
