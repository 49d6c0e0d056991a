/**
  A repaired file is well-formed again, so whatever holds of repairing a
  well-formed file holds of repairing it once more.
 */
module Closure {
  import opened Bytes
  import opened Dex
  import opened ClassData
  import opened CodeItem
  import opened MapList
  import opened Synthesis
  import opened Relocation
  import opened RelocationProofs
  import opened Relocated
  import opened FormatFix
  import opened Live
  import opened FormatProofs
  import opened InPlace
  import opened Runs
  import opened Validator
  import opened Repair
  import opened Sealing
  import opened RepairProofs
  import opened RepairTheorems
  import opened RepairedProgram
  import opened Idempotence

  // ----- the map of a finished file -----

  /** What the map of a finished file lists: what the old one did, or runs. */
  lemma FinishedMap(b: seq<byte>, relocated: Option<seq<MapEntry>>, replacements: seq<MapEntry>, digests: Digests)
    requires Finishable(b) && Replacing(relocated, replacements, |b|) && Finish(b, relocated, digests).Ok?
    ensures
      var f := Finish(b, relocated, digests).value;
      && ReadMap(f).Ok? && HasHeader(f)
      && (forall e :: e in ReadMap(f).value ==> e.typ == TYPE_MAP_LIST || Replaced(ReadMap(b).value, replacements, e))
      && (|b| <= MapOff(f) || MapTable(f) == MapTable(b))
  {
    hide ReadMap, MapTable, RebuildMap, FixFormat, Seal, ValidateIdBounds, Apart, ReadsSame, SealedFrom, SameTables, ClearOfLive, RunsApart,
      DistinctTypes, Validate, HeaderOnly, LiveCode, CodeOffset, ReadableClass, TablesEnd, OnlyMapMoved, Replaced, BoundsMatch, DigestsMatch,
      Ascending, Healthy;
    FinishIs(b, relocated, digests);
    FormatKeepsTables(b);
    FixFormatLength(b);
    var r := FixFormat(b);
    SealIs(r, relocated, replacements, digests);
    ReadMapHasTable(b);
    ReadMapHasTable(r);
    ReadMapHasTable(Finish(b, relocated, digests).value);
    if RebuildMap(r, relocated).value.1 {
      RebuildMapExact(r, replacements, relocated);
    } else {
      RebuildMapUnchanged(r, relocated);
      HeaderOnlyMap(r, Finish(b, relocated, digests).value);
      OwnReplaced(ReadMap(b).value);
    }
  }

  lemma OwnReplaced(es: seq<MapEntry>)
    ensures forall e :: e in es ==> Replaced(es, [], e)
  {
  }

  /** A settled map is distinct, clear of its own table, and lists itself. */
  lemma SettledMap(f: seq<byte>)
    requires RebuildMap(f, None) == Ok((f, false))
    ensures ReadMap(f).Ok? && HasHeader(f) && MapTable(f).Some?
    ensures var es := ReadMap(f).value;
            var (off, count) := MapTable(f).value;
            && DistinctOffsets(es) && !OverlapsMap(es, off, MapEnd(off, count)) && ListsItself(es, off)
            && off == MapOff(f) && MapEnd(off, count) == |f|
  {
    hide ReadMap, MapTable, RebuildMap, OverlapsMap;
    RebuiltReads(f, None);
    ReadMapHasTable(f);
    RebuildMapUnchanged(f, None);
    ReadMapCount(f);
    var es := ReadMap(f).value;
    var (off, count) := MapTable(f).value;
    SelfLastIsClear(es, off, MapEnd(off, count));
    assert es[|es| - 1] in es;
  }

  lemma ReadMapCount(f: seq<byte>)
    requires ReadMap(f).Ok?
    ensures MapTable(f).Some? && |ReadMap(f).value| == MapTable(f).value.1
  {
    hide Le32, MapTable;
  }

  lemma SelfLastIsClear(es: seq<MapEntry>, off: u32, end: nat)
    requires StrictlyAscending(es) && SelfEntryLast(es, off)
    ensures !OverlapsMap(es, off, end)
  {
    forall i | 0 <= i < |es| ensures es[i].typ == TYPE_MAP_LIST || es[i].off < off {
      if i < |es| - 1 {
        assert es[i].off < es[|es| - 1].off;
      }
    }
  }

  // ----- live items stay clear of it -----

  lemma ClearPastEnd(b: seq<byte>, at: nat, end: nat)
    requires Healthy(b) && |b| <= at && TablesEnd(b) <= at
    ensures ClearOfLive(b, at, end)
  {
    hide TablesEnd, LiveCode, LiveData, ItemEnd, DataEnd, Healthy, Le32;
    HealthyDefs(b);
    forall off: u32 | LiveCode(b, off) ensures ItemEnd(b, off) <= at {
      ItemBeforeEnd(b, off);
    }
    forall off: u32 | LiveData(b, off) ensures DataEnd(b, off) <= at {
      DataBeforeEnd(b, off);
    }
  }

  lemma ItemBeforeEnd(b: seq<byte>, off: u32)
    requires Healthy(b) && LiveCode(b, off)
    ensures ItemEnd(b, off) <= |b|
  {
    hide InsnsLen, CodeItemEnd, CodeOffset, ReadableClass;
  }

  lemma DataBeforeEnd(b: seq<byte>, off: u32)
    requires Healthy(b) && LiveData(b, off)
    ensures DataEnd(b, off) <= |b|
  {
    hide ParseClassData, Le32, LiveCode, CodeOffset;
    var i :| 0 <= i < ClassDefsSize(b) && ClassDataOff(b, i) == off;
    assert ReadableClass(b, i);
  }

  // ----- a finished file is well-formed -----

  /** What a file must have for its finish to be well-formed: the entries its map
      will keep, and those of its runs, past the id tables. */
  ghost predicate FinishesWell(b: seq<byte>, replacements: seq<MapEntry>) {
    && Finishable(b) && OpenDex(b).Ok? && IndicesInRange(b)
    && MapCanSettle(b, replacements)
    && RetiredAbove(ReadMap(b).value, TablesEnd(b))
    && forall e :: e in replacements && e.size != 0 ==> TablesEnd(b) <= e.off
  }

  lemma KeptAbove(es: seq<MapEntry>, before: seq<MapEntry>, replacements: seq<MapEntry>, base: nat)
    requires RetiredAbove(before, base) && forall e :: e in replacements && e.size != 0 ==> base <= e.off
    requires forall e :: e in es ==> e.typ == TYPE_MAP_LIST || Replaced(before, replacements, e)
    ensures RetiredAbove(es, base)
  {
  }

  lemma FinishedClear(b: seq<byte>, f: seq<byte>)
    requires Finishable(b) && ReadsSame(b, f) && ReadMap(f).Ok? && TablesEnd(f) == TablesEnd(b) <= |b|
    requires |b| <= MapOff(f) || MapTable(f) == MapTable(b)
    ensures DefsInFile(f) && MapTable(f).Some? && MapClear(f) && TablesEnd(f) <= MapTable(f).value.0
  {
    hide ReadMap, MapTable, TablesEnd, Healthy, ReadsSame, Apart, Le32, LiveCode, LiveData, ItemEnd, DataEnd;
    HealthyDefs(b);
    SameDefsOf(b, f);
    ReadMapHasTable(f);
    var (off, count) := MapTable(f).value;
    if |b| <= MapOff(f) {
      ClearPastEnd(b, off, MapEnd(off, count));
    }
    ReadsSameClear(b, f, off, MapEnd(off, count));
  }

  lemma FinishedWellFormed(b: seq<byte>, relocated: Option<seq<MapEntry>>, replacements: seq<MapEntry>, digests: Digests)
    requires FinishesWell(b, replacements) && Replacing(relocated, replacements, |b|) && Finish(b, relocated, digests).Ok?
    ensures WellFormed(Finish(b, relocated, digests).value)
  {
    hide ReadMap, MapTable, TablesEnd, ReadsSame, Apart, Le32, LiveCode, LiveData, ItemEnd, DataEnd, CodeOffset, ReadableClass, Replaced,
      ValidateIdBounds, OpenDex, Finish, SameTables, Replacing, IndicesInRange, OverlapsMap, DistinctOffsets, RetiredAbove, MapClear, MethodIdsSize,
      ListsItself, RunsApart, RunsClear, RebuildMap;
    var f := Finish(b, relocated, digests).value;
    FinishSettles(b, relocated, replacements, digests);
    FinishedMap(b, relocated, replacements, digests);
    SettledMap(f);
    TablesStay(b, f);
    TablesEndBounds(b);
    HealthyDefs(f);
    ReadsSameIndices(b, f);
    NoStrays(f);
    FinishedClear(b, f);
    KeptAbove(ReadMap(f).value, ReadMap(b).value, replacements, TablesEnd(b));
    IsWellFormed(f);
  }

  // ----- a repaired file is well-formed -----

  lemma AppendedFinishesWell(b: seq<byte>, captures: seq<Capture>, force: bool)
    requires WellFormed(b) && DefsInFile(b) && OffsetsUsable(b, ByMethod(captures), force)
    requires AppendMissing(b, captures, force).Ok?
    ensures var (r, outcome) := AppendMissing(b, captures, force).value;
            FinishesWell(r, ReplacementsOf(outcome))
  {
    hide WellFormed, OpenDex, ValidateIdBounds, ReadMap, TablesEnd, PlanFrom, Relocate, OffsetsUsable,
      Apart, StraysApart, IndicesInRange, MapTable, MapClear, CountFate, CountPending, AllFates, NeedsRelocation, AllMethods, Finishable,
      ReadyToSeal, RunEntries, ReadableClass, LiveCode, CodeOffset, MapCanSettle, ProgramKept, RetiredAbove, OverlapsMap, DistinctOffsets;
    var caps := ByMethod(captures);
    WellFormedIs(b);
    AppendedFinishable(b, captures, force);
    AppendedSettles(b, captures, force);
    var (r, outcome) := AppendMissing(b, captures, force).value;
    var plan := PlanFrom(b, caps, force, 0).value;
    if NeedsRelocation(plan) {
      AppendedIsReady(b, captures, force);
      RunsAbove(r, MovedPlan(b, plan), |b|, CodeEnd(b, plan));
      RetiredStay(b, captures, force);
    }
  }

  lemma RunsAbove(r: seq<byte>, moved: seq<PlannedClass>, pos: nat, mid: nat)
    requires ReadyToSeal(r, moved, pos, mid)
    ensures OpenDex(r).Ok? && DefsInFile(r) && IndicesInRange(r) && mid <= U32_MAX
    ensures forall e :: e in RunEntries(moved, mid) && e.size != 0 ==> TablesEnd(r) <= e.off
  {
    hide InRuns, OpenDex, ValidateIdBounds, TablesEnd, CodeMapEntry, AllMethods, IndicesInRange, MappedBelow;
    HealthyRunDefs(r, moved, pos, mid);
    RunEntriesFit(r, moved, pos, mid);
  }

  /** The sections to be retired still start past the id tables. */
  lemma RetiredStay(b: seq<byte>, captures: seq<Capture>, force: bool)
    requires WellFormed(b) && DefsInFile(b) && OffsetsUsable(b, ByMethod(captures), force)
    requires AppendMissing(b, captures, force).Ok?
    requires PlanFrom(b, ByMethod(captures), force, 0).Ok? && NeedsRelocation(PlanOf(b, captures, force))
    ensures var r := AppendMissing(b, captures, force).value.0;
            ReadMap(r).Ok? && HasHeader(r) && RetiredAbove(ReadMap(r).value, TablesEnd(r))
  {
    hide WellFormed, OpenDex, ReadMap, TablesEnd, PlanFrom, OffsetsUsable, MapWellFormed, Apart, StraysApart, IndicesInRange, MapTable,
      MapClear, CountFate, CountPending, AllFates, NeedsRelocation, AllMethods, ReadyToSeal, RunEntries, ValidateIdBounds, Relocate, Sound,
      RestKept, ProgramKept, Laid, Enumerates, Agree, SameTables, RetiredAbove;
    WellFormedIs(b);
    ValidatedDefsInFile(b);
    RelocationKeepsProgram(b, ByMethod(captures), force);
    var r := AppendMissing(b, captures, force).value.0;
    RelocatedMap(b, r);
    TablesStay(b, r);
  }

  lemma AppendedFinishes(b: seq<byte>, captures: seq<Capture>, force: bool, digests: Digests)
    requires WellFormed(b) && DefsInFile(b) && OffsetsUsable(b, ByMethod(captures), force)
    requires AppendMissing(b, captures, force).Ok?
    ensures var (r, outcome) := AppendMissing(b, captures, force).value;
            Finish(r, outcome.relocated, digests).Ok? ==>
              WellFormed(Finish(r, outcome.relocated, digests).value) && Healthy(Finish(r, outcome.relocated, digests).value)
  {
    hide WellFormed, OpenDex, ValidateIdBounds, ReadMap, OffsetsUsable, AppendMissing, Finish, Finishable, Replacing, MapCanSettle,
      RetiredAbove, TablesEnd, IndicesInRange, ProgramKept, Healthy, Apart;
    AppendedFinishable(b, captures, force);
    AppendedFinishesWell(b, captures, force);
    var (r, outcome) := AppendMissing(b, captures, force).value;
    if Finish(r, outcome.relocated, digests).Ok? {
      FinishedWellFormed(r, outcome.relocated, ReplacementsOf(outcome), digests);
      SettleFinish(r, outcome, digests);
    }
  }

  /** Repair is closed: a well-formed file is repaired into a well-formed one,
      whose code offsets are all usable, relocated or not. */
  lemma RepairedIsWellFormed(b: seq<byte>, captures: seq<Capture>, force: bool, digests: Digests)
    requires WellFormed(b) && DefsInFile(b) && Recoverable(b, captures, force)
    requires RepairOne(b, captures, force, digests).Ok?
    ensures var f := RepairOne(b, captures, force, digests).value.0;
            WellFormed(f) && Healthy(f)
  {
    hide WellFormed, OpenDex, ValidateIdBounds, ReadMap, OffsetsUsable, MethodOffsets, Applied, AppendMissing, Finish, RepairOne,
      IndicesInRange, Healthy, Apart, MapWellFormed, Sound, StraysApart, MapTable, MapClear, OnlyInsns, ReadsSame, SameTables, LiveCode,
      LenOf, Insns, LastFit, RetiredAbove, TablesEnd;
    AppliedIs(b, captures);
    WellFormedIs(b);
    RepairOneIs(b, captures, force, digests);
    AppendedFinishes(Applied(b, captures), captures, force, digests);
  }
}
