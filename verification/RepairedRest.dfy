/**
  What a repair does not touch: every byte outside the retired sections, the
  instructions, the map and a few fields keeps its value and its place.
 */
module RepairedRest {
  import opened Bytes
  import opened Dex
  import opened ClassData
  import opened CodeItem
  import opened MapList
  import opened Synthesis
  import opened Relocation
  import opened RelocationProofs
  import opened Relocated
  import opened FormatFix
  import opened Live
  import opened FormatProofs
  import opened InPlace
  import opened Runs
  import opened Validator
  import opened Repair
  import opened Sealing
  import opened RepairProofs
  import opened RepairTheorems
  import opened RepairedProgram

  /** Checksum, signature and file size; the map's offset; the data bounds. */
  predicate InSealedHeader(x: int) {
    8 <= x < 36 || HDR_MAP_OFF <= x < HDR_MAP_OFF + 4 || 0x68 <= x < DEX_HEADER_SIZE
  }

  predicate InMapTable(b: seq<byte>, x: int) {
    match MapTable(b)
    case Some((off, count)) => off <= x < MapEnd(off, count)
    case None => false
  }

  lemma SealFrame(b: seq<byte>, relocated: Option<seq<MapEntry>>, replacements: seq<MapEntry>, digests: Digests, x: nat)
    requires ValidateIdBounds(b).Ok? && HasHeader(b) && Replacing(relocated, replacements, |b|)
    requires RebuildMap(b, relocated).Ok? && x < |b|
    ensures x < |Seal(b, relocated, digests).value|
    ensures !InSealedHeader(x) && !InMapTable(b, x) ==> Seal(b, relocated, digests).value[x] == b[x]
  {
    hide ReadMap, ValidateIdBounds, SealedFrom, DigestsMatch, BoundsMatch, RebuildMap, Le32, DistinctTypes, MapTable, Replaced, Agree,
      RecalcHeader, FixHeaderBounds, InSealedHeader;
    var m := RebuildMap(b, relocated).value.0;
    RebuiltReads(b, relocated);
    ReadMapHasTable(b);
    if RebuildMap(b, relocated).value.1 {
      RebuildMapExact(b, replacements, relocated);
    }
    SealIs(b, relocated, replacements, digests);
    var f := Seal(b, relocated, digests).value;
    SealedByte(m, f, x);
  }

  lemma SealedByte(m: seq<byte>, f: seq<byte>, x: nat)
    requires HeaderOnly(m, f) && x < |m|
    ensures HDR_MAP_OFF <= x < HDR_MAP_OFF + 4 ==> InSealedHeader(x)
    ensures !InSealedHeader(x) ==> f[x] == m[x]
  {
    hide Agree;
    if x < 8 {
      AgreeAt(m, f, 0, 8, x);
    } else if 36 <= x < 0x68 {
      AgreeAt(m, f, 36, 0x68, x);
    } else if DEX_HEADER_SIZE <= x {
      AgreeAt(m, f, DEX_HEADER_SIZE, |m|, x);
    }
  }

  lemma FinishFrame(b: seq<byte>, relocated: Option<seq<MapEntry>>, replacements: seq<MapEntry>, digests: Digests, x: nat)
    requires Finishable(b) && Replacing(relocated, replacements, |b|) && Finish(b, relocated, digests).Ok? && x < |b|
    ensures DefsInFile(b) && x < |Finish(b, relocated, digests).value|
    ensures !InSealedHeader(x) && !InMapTable(b, x) && !InDefField(b, x) && !InDebugWord(b, x) ==>
              Finish(b, relocated, digests).value[x] == b[x]
  {
    hide LiveCode, LiveData, CodeOffset, CodeItemEnd, ReadableClass, ItemEnd, Apart, FixFormat, ValidateIdBounds, Le32, ReadMap, MapTable,
      ReadsSame, Finish, Seal, RebuildMap, ClearOfLive, TablesEnd, Replacing, Validate, InDefField, InDebugWord, FormatWords, InWords, Cleared,
      InSealedHeader;
    FinishIs(b, relocated, digests);
    FormatKeepsTables(b);
    FixFormatExact(b);
    FormatOnlyLength(b, FixFormat(b));
    SealFrame(FixFormat(b), relocated, replacements, digests, x);
  }

  /** In a relocated file no live item is left where items used to be. */
  lemma NoItemsBelow(r: seq<byte>, moved: seq<PlannedClass>, pos: nat, mid: nat, x: int)
    requires ReadyToSeal(r, moved, pos, mid) && x < pos
    ensures DefsInFile(r) && !InDebugWord(r, x)
  {
    hide InRuns, LiveData, CodeOffset, InsnsLen, CodeItemEnd, ValidateIdBounds, OpenDex, MappedBelow, IndicesInRange, TablesEnd, ReadableClass;
    RunsAreHealthy(r, moved, pos, mid);
    RunsAreClear(r, moved, pos, mid, TablesEnd(r), pos);
    HealthyDefs(r);
    forall off: u32 | LiveCode(r, off) ensures !(off + 8 <= x < off + 12) {
      ItemIsLong(r, off);
    }
  }

  /** The bytecode step, on the file it starts from. */
  lemma AppendFrame(b: seq<byte>, captures: seq<Capture>, force: bool, x: nat)
    requires WellFormed(b) && DefsInFile(b) && OffsetsUsable(b, ByMethod(captures), force)
    requires AppendMissing(b, captures, force).Ok? && x < |b|
    ensures ReadMap(b).Ok?
    ensures
      var (r, outcome) := AppendMissing(b, captures, force).value;
      && DefsInFile(r) && x < |r| && SameClassDefs(b, r) && MapTable(r) == MapTable(b)
      && (outcome.relocated.None? ==> r == b)
      && (outcome.relocated.Some? ==>
            && !InDebugWord(r, x)
            && (!InDataOff(b, x) ==> r[x] == if Retires(ReadMap(b).value, |b|, x) then 0 else b[x]))
  {
    hide WellFormed, OpenDex, ValidateIdBounds, ReadMap, TablesEnd, PlanFrom, Relocate, OffsetsUsable, MapWellFormed, Retires, InDataOff,
      Apart, StraysApart, IndicesInRange, MapTable, MapClear, CountFate, CountPending, AllFates, NeedsRelocation, AllMethods,
      ReadyToSeal, RunEntries, ReadableClass, LiveCode, CodeOffset, ClassKept, ProgramKept, InDebugWord, RetiredAbove;
    WellFormedIs(b);
    AppendPreservesProgram(b, captures, force);
    var (r, outcome) := AppendMissing(b, captures, force).value;
    var plan := PlanFrom(b, ByMethod(captures), force, 0).value;
    if NeedsRelocation(plan) {
      AppendedIsReady(b, captures, force);
      NoItemsBelow(r, MovedPlan(b, plan), |b|, CodeEnd(b, plan), x);
    }
  }

  /** Retired bytes lie past the id tables and outside the map. */
  lemma RetiredIsData(b: seq<byte>, x: nat)
    requires WellFormed(b) && HasHeader(b) && ReadMap(b).Ok? && Retires(ReadMap(b).value, |b|, x)
    ensures !InSealedHeader(x) && !InMapTable(b, x) && !InDefField(b, x) && !InDataOff(b, x)
  {
    hide WellFormed, OpenDex, ValidateIdBounds, ReadMap, TablesEnd, MapTable, Apart, StraysApart, IndicesInRange, MapClear, InDefField,
      InDataOff, NextOffset, DistinctOffsets, OverlapsMap, ListsItself, Sound;
    WellFormedIs(b);
    ValidatedDefsInFile(b);
    if InDataOff(b, x) {
      DataOffsInTables(b, x);
    }
    if InDefField(b, x) {
      DefFieldInTables(b, x);
    }
    if InMapTable(b, x) {
      MapNotRetired(b, x);
    }
  }

  lemma SameFields(b: seq<byte>, r: seq<byte>, x: int)
    requires HasHeader(b) && HasHeader(r) && SameClassDefs(b, r)
    ensures (InDefField(r, x) <==> InDefField(b, x)) && (InDataOff(r, x) <==> InDataOff(b, x))
  {
    hide Le32;
    assert forall i: nat :: ClassDefAt(r, i) == ClassDefAt(b, i);
  }

  lemma SameDebugWords(b: seq<byte>, c: seq<byte>, x: int)
    requires DefsInFile(b) && DefsInFile(c) && forall off: u32 :: LiveCode(c, off) <==> LiveCode(b, off)
    ensures InDebugWord(c, x) <==> InDebugWord(b, x)
  {
  }

  /** What a repair does to the bytes that were there. A relocation zeroes the
      retired sections; apart from that only instructions, the header fields it
      seals, the old map, fields of class definitions, and, where items stay in
      place, their debug words can change. */
  lemma RepairKeepsRest(b: seq<byte>, captures: seq<Capture>, force: bool, digests: Digests, x: nat)
    requires WellFormed(b) && DefsInFile(b) && Recoverable(b, captures, force)
    requires RepairOne(b, captures, force, digests).Ok? && x < |b|
    ensures ReadMap(b).Ok?
    ensures
      var (f, outcome) := RepairOne(b, captures, force, digests).value;
      && x < |f|
      && if outcome.relocated.Some? && Retires(ReadMap(b).value, |b|, x) then f[x] == 0
         else
           || InInsns(b, x) || InSealedHeader(x) || InMapTable(b, x) || InDefField(b, x)
           || (if outcome.relocated.Some? then InDataOff(b, x) else InDebugWord(b, x))
           || f[x] == b[x]
  {
    hide WellFormed, OpenDex, ValidateIdBounds, ReadMap, OffsetsUsable, MethodOffsets, Applied, AppendMissing, Finish, RepairOne, MapTable,
      Healthy, Apart, MapClear, FinishedItem, LenOf, Insns, LastFit, LiveCode, CodeOffset, ReadsSame, InDebugWord, InDefField, InDataOff,
      Replacing, MapWellFormed, StraysApart, IndicesInRange, InInsns, Retires, InSealedHeader, ProgramKept, RetiredAbove;
    var c := Applied(b, captures);
    AppliedKeeps(b, captures, x);
    RepairOneIs(b, captures, force, digests);
    AppendedFinishable(c, captures, force);
    AppendFrame(c, captures, force, x);
    var (r, outcome) := AppendMissing(c, captures, force).value;
    FinishFrame(r, outcome.relocated, if outcome.relocated.Some? then outcome.relocated.value else [], digests, x);
    SameFields(c, r, x);
    if Retires(ReadMap(c).value, |c|, x) {
      RetiredIsData(c, x);
    }
  }

  lemma AppliedKeeps(b: seq<byte>, captures: seq<Capture>, x: nat)
    requires WellFormed(b) && DefsInFile(b) && x < |b|
    ensures MethodOffsets(b).Ok? && OpenDex(b).Ok? && ValidateIdBounds(b).Ok? && ReadMap(b).Ok?
    ensures var c := Applied(b, captures);
            && WellFormed(c) && DefsInFile(c) && |c| == |b| && ReadMap(c) == ReadMap(b) && MapTable(c) == MapTable(b)
            && SameClassDefs(b, c) && (InDefField(c, x) <==> InDefField(b, x)) && (InDataOff(c, x) <==> InDataOff(b, x))
            && (InDebugWord(c, x) <==> InDebugWord(b, x))
            && (!InInsns(b, x) ==> c[x] == b[x])
  {
    hide WellFormed, OpenDex, ValidateIdBounds, ReadMap, MethodOffsets, Applied, MapTable, Apart, MapClear, LenOf, Insns, LastFit,
      CodeOffset, InDebugWord, InDefField, InDataOff, MapWellFormed, StraysApart, IndicesInRange, InInsns, ReadableClass,
      CodeItemEnd, RetiredAbove, SameTables;
    AppliedIs(b, captures);
    WellFormedIs(b);
    var c := Applied(b, captures);
    SameDefsOf(b, c);
    SameFields(b, c, x);
    OnlyInsnsReadsSame(b, c);
    SameDebugWords(b, c, x);
    OnlyInsnsWellFormed(b, c);
  }
}
