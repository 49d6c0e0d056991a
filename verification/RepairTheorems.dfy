/**
  End to end: a well-formed DEX that needs relocation is always repaired into a
  file its validator accepts, and whatever is repaired keeps its program.
 */
module RepairTheorems {
  import opened Bytes
  import opened Dex
  import opened ClassData
  import opened CodeItem
  import opened MapList
  import opened Synthesis
  import opened Relocation
  import opened RelocationProofs
  import opened Relocated
  import opened FormatFix
  import opened Live
  import opened FormatProofs
  import opened InPlace
  import opened Runs
  import opened Validator
  import opened Repair
  import opened Sealing
  import opened RepairProofs
  import opened GrownLength

  // ----- well-formed files -----

  /** The map lists itself and the sections it will retire, past the id tables,
      at distinct offsets, none inside its own table. */
  ghost predicate MapWellFormed(b: seq<byte>) {
    && ReadMap(b).Ok? && HasHeader(b)
    && var es := ReadMap(b).value;
    && var (off, count) := MapTable(b).value;
    && DistinctOffsets(es) && !OverlapsMap(es, off, MapEnd(off, count))
    && TablesEnd(b) <= off && RetiredAbove(es, TablesEnd(b))
    && ListsItself(es, off)
  }

  ghost predicate ListsItself(es: seq<MapEntry>, off: nat) {
    exists e :: e in es && e.typ == TYPE_MAP_LIST && e.off == off
  }

  /** The map's table lies clear of live items. */
  ghost predicate MapClear(b: seq<byte>)
    requires DefsInFile(b) && MapTable(b).Some?
  {
    ClearOfLive(b, MapTable(b).value.0, MapEnd(MapTable(b).value.0, MapTable(b).value.1))
  }

  /** What a repair expects of its input. */
  ghost predicate WellFormed(b: seq<byte>) {
    && OpenDex(b).Ok? && ValidateIdBounds(b).Ok?
    && MapWellFormed(b)
    && Sound(b) && Apart(b) && StraysApart(b) && IndicesInRange(b)
    && MapTable(b).Some? && MapClear(b)
  }

  lemma WellFormedIs(b: seq<byte>)
    requires WellFormed(b)
    ensures OpenDex(b).Ok? && ValidateIdBounds(b).Ok? && MapWellFormed(b) && HasHeader(b) && ReadMap(b).Ok?
    ensures Sound(b) && Apart(b) && StraysApart(b) && IndicesInRange(b) && DefsInFile(b)
    ensures MapTable(b).Some? && MapClear(b)
    ensures RetiredAbove(ReadMap(b).value, TablesEnd(b))
  {
    hide OpenDex, ValidateIdBounds, Apart, StraysApart, IndicesInRange, ReadMap, RetiredAbove, TablesEnd, MapClear, LiveCode, ReadableClass,
      CodeItemEnd, MapTable, OverlapsMap, DistinctOffsets, ListsItself;
  }

  // ----- after the in-place writes -----

  lemma StraysStayApart(b: seq<byte>, c: seq<byte>)
    requires Sound(b) && StraysApart(b) && ReadsSame(b, c) && |c| == |b|
    requires forall off: u32 :: LiveCode(c, off) <==> LiveCode(b, off)
    ensures StraysApart(c)
  {
    hide LiveCode, CodeOffset, CodeItemEnd, InsnsLen, ReadableClass, ReadsSameClass;
    forall off: u32, d: u32 | CodeOffset(c, off) && !LiveCode(c, off) && off + 16 <= |c| && LiveCode(c, d)
      ensures off + 16 <= d || ItemEnd(c, d) <= off + 12
    {
      ReadsSameOffsets(b, c, off);
      assert ReadsSameItem(b, c, d);
    }
  }

  lemma ApartCarries(b: seq<byte>, c: seq<byte>)
    requires Sound(b) && Apart(b) && ReadsSame(b, c) && TablesEnd(c) == TablesEnd(b)
    requires forall off: u32 :: LiveCode(c, off) <==> LiveCode(b, off)
    ensures Apart(c)
    ensures forall lo, hi :: ClearOfLive(b, lo, hi) ==> ClearOfLive(c, lo, hi)
  {
    hide LiveCode, LiveData, CodeOffset, CodeItemEnd, InsnsLen, ReadableClass, TablesEnd;
    forall off: u32
      ensures LiveCode(b, off) ==> ItemEnd(c, off) == ItemEnd(b, off)
      ensures LiveData(c, off) <==> LiveData(b, off)
      ensures LiveData(b, off) ==> DataEnd(c, off) == DataEnd(b, off)
    {
      ReadsSameOffsets(b, c, off);
      if LiveCode(b, off) {
        assert ReadsSameItem(b, c, off);
      }
      if LiveData(b, off) {
        SameDataEnd(b, c, off);
      }
    }
  }

  lemma SameDataEnd(b: seq<byte>, c: seq<byte>, off: u32)
    requires DefsInFile(b) && ReadsSame(b, c) && LiveData(b, off)
    ensures DataEnd(c, off) == DataEnd(b, off)
  {
    hide ParseClassData, Le32, LiveCode;
    var i :| 0 <= i < ClassDefsSize(b) && ClassDataOff(b, i) == off;
    assert ReadsSameClass(b, c, i);
  }

  lemma InsnsClearOf(b: seq<byte>, c: seq<byte>, lo: nat, hi: nat)
    requires Sound(b) && Apart(b) && OnlyInsns(b, c) && ClearOfLive(b, lo, hi) && lo <= hi <= |b|
    ensures Agree(b, c, lo, hi)
  {
    hide LiveCode, LiveData, TablesEnd, CodeItemEnd, InsnsLen, ReadableClass, InInsns, Apart;
    forall x | lo <= x < hi ensures c[x] == b[x] {
      if InInsns(b, x) {
        InsnsInItem(b, x);
      }
    }
    AgreePointwise(b, c, lo, hi);
  }

  /** Rewriting instructions keeps a file well-formed. */
  lemma OnlyInsnsWellFormed(b: seq<byte>, c: seq<byte>)
    requires WellFormed(b) && OnlyInsns(b, c)
    ensures WellFormed(c) && ReadsSame(b, c) && SameTables(b, c) && |c| == |b|
    ensures ReadMap(c) == ReadMap(b) && MapTable(c) == MapTable(b)
  {
    hide WellFormed, OpenDex, ValidateIdBounds, Apart, StraysApart, IndicesInRange, ReadMap, TablesEnd, LiveCode, ReadableClass, ReadsSame,
      CodeItemEnd, MapTable, OverlapsMap, DistinctOffsets, ListsItself, RetiredAbove, SameTables, ClearOfLive, OnlyInsns, Sound;
    WellFormedIs(b);
    OnlyInsnsLength(b, c);
    OnlyInsnsReadsSame(b, c);
    ValidatedDefsInFile(b);
    OnlyInsnsHeader(b, c);
    ReadMapHasTable(b);
    InsnsClearOf(b, c, MapTable(b).value.0, MapEnd(MapTable(b).value.0, MapTable(b).value.1));
    MapFrame(b, c);
    TablesStay(b, c);
    StraysStayApart(b, c);
    ApartCarries(b, c);
    ReadsSameIndices(b, c);
    IsWellFormed(c);
  }

  lemma OnlyInsnsHeader(b: seq<byte>, c: seq<byte>)
    requires Sound(b) && Apart(b) && OnlyInsns(b, c) && DEX_HEADER_SIZE <= TablesEnd(b) <= |b|
    ensures SameTables(b, c) && Agree(b, c, HDR_MAP_OFF, HDR_MAP_OFF + 4)
  {
    hide TablesEnd, Apart, LiveCode, ReadableClass, OnlyInsns;
    OnlyInsnsLength(b, c);
    OnlyInsnsBelow(b, c, 0, 4);
    OnlyInsnsBelow(b, c, 36, 44);
    OnlyInsnsBelow(b, c, 56, 104);
    OnlyInsnsBelow(b, c, HDR_MAP_OFF, HDR_MAP_OFF + 4);
  }

  lemma IsWellFormed(b: seq<byte>)
    requires OpenDex(b).Ok? && ValidateIdBounds(b).Ok? && MapWellFormed(b) && MapTable(b).Some?
    requires Sound(b) && Apart(b) && StraysApart(b) && IndicesInRange(b) && MapClear(b)
    ensures WellFormed(b)
  {
  }

  /** The file the bytecode step starts from. */
  function Applied(b: seq<byte>, captures: seq<Capture>): seq<byte>
    requires HasHeader(b) && MethodOffsets(b).Ok?
  {
    ApplyRecords(b, MethodOffsets(b).value, captures, false)
  }

  lemma {:induction false} SoundHasOffsets(b: seq<byte>, i: nat, m: map<u32, u32>)
    requires Sound(b)
    ensures MethodOffsetsFrom(b, i, m).Ok?
    decreases ClassDefsSize(b) - i
  {
    hide ParseClassData, InsertMethods, Le32, LiveCode;
    if i < ClassDefsSize(b) {
      assert ReadableClass(b, i);
      if ClassDataOff(b, i) == 0 {
        SoundHasOffsets(b, i + 1, m);
      } else {
        SoundHasOffsets(b, i + 1, InsertMethods(m, MethodsOf(b, i)));
      }
    }
  }

  /** The in-place pass is exact and keeps a well-formed file well-formed. */
  lemma AppliedIs(b: seq<byte>, captures: seq<Capture>)
    requires WellFormed(b)
    ensures HasHeader(b) && MethodOffsets(b).Ok? && DefsInFile(b)
    ensures var c := Applied(b, captures);
            && WellFormed(c) && ReadsSame(b, c) && OnlyInsns(b, c) && |c| == |b|
            && ReadMap(c) == ReadMap(b) && SameTables(b, c)
            && (forall off: u32 :: LiveCode(b, off) ==>
                  && off + 16 + LenOf(b, off) <= |b|
                  && Insns(c, off, LenOf(b, off))
                     == match LastFit(MethodOffsets(b).value, captures, off, LenOf(b, off), false)
                        case Some(code) => code
                        case None => Insns(b, off, LenOf(b, off)))
  {
    hide WellFormed, OpenDex, ValidateIdBounds, Apart, StraysApart, IndicesInRange, ReadMap, TablesEnd, LiveCode, ReadableClass, ReadsSame,
      CodeItemEnd, MapTable, OnlyInsns, ApplyRecords, LenOf, Insns, LastFit, OffsetsOf, SameTables, MethodOffsetsFrom, MapWellFormed,
      MapClear, Sound, RetiredAbove, CodeOffset;
    WellFormedIs(b);
    SoundHasOffsets(b, 0, map[]);
    NoOffsets(b);
    MethodOffsetsAre(b, 0, map[]);
    OnlyInsnsRefl(b);
    ApplyRecordsExact(b, b, MethodOffsets(b).value, captures, false);
    OnlyInsnsWellFormed(b, Applied(b, captures));
  }

  lemma NoOffsets(b: seq<byte>)
    requires DefsInFile(b)
    ensures OffsetsOf(b, map[])
  {
  }

  lemma OnlyInsnsRefl(b: seq<byte>)
    requires DefsInFile(b)
    ensures OnlyInsns(b, b)
  {
  }

  // ----- the bytecode step only fails by outgrowing the format -----

  lemma PlanMethodOk(b: seq<byte>, captures: Captures, force: bool, m: EncodedMethod)
    requires HasHeader(b) && (InsnsLen(b, m.codeOff).Some? ==> CodeItemEnd(b, m.codeOff).Ok?)
    ensures PlanMethod(b, captures, force, m).Ok?
  {
    hide InsnsLen, CodeItemEnd, SynthesizeCodeItem;
  }

  lemma {:induction false} PlanMethodsOk(b: seq<byte>, captures: Captures, force: bool, ms: seq<EncodedMethod>)
    requires HasHeader(b)
    requires forall k :: 0 <= k < |ms| && InsnsLen(b, ms[k].codeOff).Some? ==> CodeItemEnd(b, ms[k].codeOff).Ok?
    ensures PlanMethods(b, captures, force, ms).Ok?
    decreases |ms|
  {
    hide InsnsLen, CodeItemEnd, PlanMethod;
    if ms != [] {
      PlanMethodOk(b, captures, force, ms[0]);
      assert forall k :: 0 <= k < |ms[1..]| ==> ms[1..][k] == ms[k + 1];
      PlanMethodsOk(b, captures, force, ms[1..]);
    }
  }

  lemma {:induction false} PlanFromOk(b: seq<byte>, captures: Captures, force: bool, i: nat)
    requires Sound(b)
    ensures PlanFrom(b, captures, force, i).Ok?
    decreases ClassDefsSize(b) - i
  {
    hide ParseClassData, PlanMethods, Le32, InsnsLen, CodeItemEnd, CodeOffset;
    if i < ClassDefsSize(b) {
      PlanFromOk(b, captures, force, i + 1);
      if ClassDataOff(b, i) != 0 {
        assert ReadableClass(b, i);
        var ms := MethodsOf(b, i);
        forall k | 0 <= k < |ms| && InsnsLen(b, ms[k].codeOff).Some?
          ensures CodeItemEnd(b, ms[k].codeOff).Ok?
        {
          NoItemAtZero(b);
          MethodHasOffset(b, i, k);
          assert LiveCode(b, ms[k].codeOff);
        }
        PlanMethodsOk(b, captures, force, ms);
      }
    }
  }

  lemma EmitMethodGrows(b: seq<byte>, c: seq<byte>, m: EncodedMethod)
    requires b <= c && Resolved(b, m)
    ensures EmitMethod(c, m).Ok? || EmitMethod(c, m) == Err(TooLarge)
  {
    hide Resolved, BodyBytes, Align4;
    if !IsBodiless(m) {
      BodyBytesOf(b, c, m);
    }
  }

  lemma {:induction false} EmitMethodsGrow(b: seq<byte>, c: seq<byte>, ms: seq<EncodedMethod>)
    requires b <= c && AllResolved(b, ms)
    ensures EmitMethods(c, ms).Ok? || EmitMethods(c, ms) == Err(TooLarge)
    decreases |ms|
  {
    hide Resolved, EmitMethod;
    if ms != [] {
      EmitMethodGrows(b, c, ms[0]);
      if EmitMethod(c, ms[0]).Ok? {
        assert AllResolved(b, ms[1..]);
        EmitMethodsGrow(b, EmitMethod(c, ms[0]).value.0, ms[1..]);
      }
    }
  }

  lemma {:induction false} EmitBodiesGrow(b: seq<byte>, c: seq<byte>, plan: seq<PlannedClass>)
    requires b <= c && PlanResolved(b, plan)
    ensures EmitBodies(c, plan).Ok? || EmitBodies(c, plan) == Err(TooLarge)
    decreases |plan|
  {
    hide AllResolved, EmitMethods;
    if plan != [] {
      EmitMethodsGrow(b, c, plan[0].item.Methods());
      if EmitMethods(c, plan[0].item.Methods()).Ok? {
        assert PlanResolved(b, plan[1..]);
        EmitBodiesGrow(b, EmitMethods(c, plan[0].item.Methods()).value.0, plan[1..]);
      }
    }
  }

  lemma {:induction false} EmitClassesGrow(c: seq<byte>, plan: seq<PlannedClass>)
    ensures EmitClasses(c, plan).Ok? || EmitClasses(c, plan) == Err(TooLarge)
    decreases |plan|
  {
    hide EncodeClassData;
    if plan != [] && EmitClass(c, plan[0]).Ok? {
      EmitClassesGrow(EmitClass(c, plan[0]).value, plan[1..]);
    }
  }

  lemma {:induction false} RetiredRangesOk(todo: seq<MapEntry>, es: seq<MapEntry>, len: nat)
    requires forall e :: e in todo && IsRetired(e) ==> DEX_HEADER_SIZE <= e.off < len
    ensures RetiredRanges(todo, es, len).Ok?
    decreases |todo|
  {
    hide NextOffset;
    if todo != [] {
      assert todo[0] in todo && forall e :: e in todo[1..] ==> e in todo;
      RetiredRangesOk(todo[1..], es, len);
    }
  }

  lemma RelocateGrows(b: seq<byte>, plan: seq<PlannedClass>)
    requires ReadMap(b).Ok? && RetiredAbove(ReadMap(b).value, DEX_HEADER_SIZE) && PlanResolved(b, plan)
    ensures Relocate(b, plan).Ok? || Relocate(b, plan) == Err(TooLarge)
  {
    hide ReadMap, EmitBodies, EmitClasses, AllResolved, RetiredRanges, ZeroRanges;
    var es := ReadMap(b).value;
    ReadMapHasTable(b);
    forall e | e in es && IsRetired(e) ensures e.off < |b| {
      var i :| 0 <= i < |es| && es[i] == e;
      assert EntryInFile(es[i], |b|);
    }
    RetiredRangesOk(es, es, |b|);
    EmitBodiesGrow(b, b, plan);
    if EmitBodies(b, plan).Ok? {
      EmitClassesGrow(EmitBodies(b, plan).value.0, EmitBodies(b, plan).value.1);
    }
  }

  /** On a well-formed file whose offsets are usable, the bytecode step succeeds
      or reports that the file outgrew 32 bits. */
  lemma AppendGrows(b: seq<byte>, captures: seq<Capture>, force: bool)
    requires WellFormed(b) && DefsInFile(b) && OffsetsUsable(b, ByMethod(captures), force)
    ensures HasHeader(b)
    ensures AppendMissing(b, captures, force).Ok? || AppendMissing(b, captures, force) == Err(TooLarge)
  {
    hide WellFormed, OpenDex, ValidateIdBounds, ReadMap, TablesEnd, PlanFrom, Relocate, Plans, PlanResolved, OffsetsUsable, MapWellFormed,
      Sound, Apart, StraysApart, IndicesInRange, MapTable, MapClear, CountFate, CountPending, AllFates, NeedsRelocation;
    var caps := ByMethod(captures);
    WellFormedIs(b);
    ValidatedDefsInFile(b);
    PlanFromOk(b, caps, force, 0);
    PlanFromIs(b, caps, force, 0);
    var plan := PlanFrom(b, caps, force, 0).value;
    PlansAreApart(b, caps, force, 0, plan);
    RelocateGrows(b, plan);
  }

  // ----- a relocated file is ready to be sealed -----

  /** A section to be retired never covers the map's own table. */
  lemma MapNotRetired(b: seq<byte>, x: int)
    requires MapWellFormed(b)
    requires MapTable(b).value.0 <= x < MapEnd(MapTable(b).value.0, MapTable(b).value.1)
    ensures !Retires(ReadMap(b).value, |b|, x)
  {
    hide ReadMap, MapTable, TablesEnd, NextOffset, DistinctOffsets, RetiredAbove;
    ReadMapHasTable(b);
    var es := ReadMap(b).value;
    var (off, count) := MapTable(b).value;
    var self :| self in es && self.typ == TYPE_MAP_LIST && self.off == off;
    forall e | e in es && IsRetired(e)
      ensures !InSection(es, e, |b|, x)
    {
      var i :| 0 <= i < |es| && es[i] == e;
      assert es[i].typ != TYPE_MAP_LIST && !(off <= es[i].off < MapEnd(off, count));
      if e.off < off {
        assert NextOffset(es, e.off, |b|) <= self.off;
      }
    }
  }

  lemma DataOffsInTables(b: seq<byte>, x: int)
    requires ValidateIdBounds(b).Ok? && InDataOff(b, x)
    ensures DEX_HEADER_SIZE <= x < TablesEnd(b)
  {
    hide Le32, ValidateIdBounds, TablesEnd, ClassDefAt;
    ValidatedDefsInFile(b);
  }

  /** Relocation leaves the map as it was. */
  lemma RelocatedMap(b: seq<byte>, r: seq<byte>)
    requires ValidateIdBounds(b).Ok? && MapWellFormed(b)
    requires RestKept(b, ReadMap(b).value, r) && Agree(b, r, 0, DEX_HEADER_SIZE)
    ensures SameTables(b, r)
    ensures ReadMap(r) == ReadMap(b) && MapTable(r) == MapTable(b)
  {
    hide ReadMap, TablesEnd, DistinctOffsets, RetiredAbove, Retires, InDataOff, ValidateIdBounds, ListsItself, OverlapsMap;
    ReadMapHasTable(b);
    var (off, count) := MapTable(b).value;
    forall x | off <= x < MapEnd(off, count)
      ensures r[x] == b[x]
    {
      MapNotRetired(b, x);
      if InDataOff(b, x) {
        DataOffsInTables(b, x);
      }
    }
    AgreePointwise(b, r, off, MapEnd(off, count));
    AgreeWithin(b, r, 0, DEX_HEADER_SIZE, HDR_MAP_OFF, HDR_MAP_OFF + 4);
    AgreeWithin(b, r, 0, DEX_HEADER_SIZE, 0, 4);
    AgreeWithin(b, r, 0, DEX_HEADER_SIZE, 36, 44);
    AgreeWithin(b, r, 0, DEX_HEADER_SIZE, 56, 104);
    MapFrame(b, r);
  }

  lemma KeptIndices(b: seq<byte>, captures: Captures, force: bool, r: seq<byte>)
    requires DefsInFile(b) && DefsInFile(r) && SameClassDefs(b, r) && ProgramKept(b, captures, force, r)
    requires IndicesInRange(b) && MethodIdsSize(r) == MethodIdsSize(b)
    ensures IndicesInRange(r)
  {
    hide ParseClassData, Le32, SameLists, MethodKept;
    forall i | 0 <= i < ClassDefsSize(r) ensures IndicesBelow(MethodsOf(r, i), MethodIdsSize(r)) {
      assert ClassKept(b, captures, force, r, i);
      if ClassDataOff(r, i) != 0 {
        KeptMethodIndices(b, captures, force, MethodsOf(b, i), r, MethodsOf(r, i), MethodIdsSize(r));
      }
    }
  }

  lemma KeptMethodIndices(
    b: seq<byte>, captures: Captures, force: bool, ms: seq<EncodedMethod>, r: seq<byte>, ns: seq<EncodedMethod>, limit: nat)
    requires HasHeader(b) && MethodsKept(b, captures, force, ms, r, ns) && IndicesBelow(ms, limit)
    ensures IndicesBelow(ns, limit)
  {
    hide Carries, ExpectedBody;
    assert forall k :: 0 <= k < |ms| ==> MethodKept(b, captures, force, ms[k], r, ns[k]);
  }

  lemma MapBelow(b: seq<byte>, r: seq<byte>)
    requires MapWellFormed(b) && ReadMap(r) == ReadMap(b) && MapTable(r) == MapTable(b) && TablesEnd(r) == TablesEnd(b)
    ensures MappedBelow(r, |b|)
  {
    hide ReadMap, TablesEnd, DistinctOffsets, RetiredAbove, ListsItself, OverlapsMap, MapTable;
    ReadMapHasTable(b);
    var es := ReadMap(b).value;
    forall e | e in es ensures e.off < |b| {
      var i :| 0 <= i < |es| && es[i] == e;
      assert EntryInFile(es[i], |b|);
    }
  }

  /** The plan of a file that needs relocation. */
  function PlanOf(b: seq<byte>, captures: seq<Capture>, force: bool): seq<PlannedClass>
    requires HasHeader(b) && PlanFrom(b, ByMethod(captures), force, 0).Ok?
  {
    PlanFrom(b, ByMethod(captures), force, 0).value
  }

  lemma NeedsClasses(plan: seq<PlannedClass>)
    requires NeedsRelocation(plan)
    ensures plan != []
  {
  }

  /** A relocated file is ready to be sealed, its outcome announcing the entries
      of the two runs. */
  lemma AppendedIsReady(b: seq<byte>, captures: seq<Capture>, force: bool)
    requires WellFormed(b) && DefsInFile(b) && OffsetsUsable(b, ByMethod(captures), force)
    requires AppendMissing(b, captures, force).Ok?
    requires PlanFrom(b, ByMethod(captures), force, 0).Ok? && NeedsRelocation(PlanOf(b, captures, force))
    ensures
      var (r, outcome) := AppendMissing(b, captures, force).value;
      var plan := PlanOf(b, captures, force);
      && EmitBodies(b, plan).Ok?
      && ReadyToSeal(r, MovedPlan(b, plan), |b|, CodeEnd(b, plan))
      && outcome.relocated == Some(RunEntries(MovedPlan(b, plan), CodeEnd(b, plan)))
      && ReadMap(r) == ReadMap(b) && MapTable(r) == MapTable(b)
  {
    hide WellFormed, OpenDex, ValidateIdBounds, ReadMap, TablesEnd, PlanFrom, Relocate, OffsetsUsable, MapWellFormed, SameTables,
      Sound, Apart, StraysApart, IndicesInRange, MapTable, MapClear, CountFate, CountPending, AllFates, NeedsRelocation, AllMethods,
      Laid, Enumerates, ProgramKept, RestKept, MappedBelow, CodeMapEntry, MethodIdsSize, Agree, EmitBodies;
    var caps := ByMethod(captures);
    var plan := PlanOf(b, captures, force);
    WellFormedIs(b);
    ValidatedDefsInFile(b);
    NeedsClasses(plan);
    RelocationKeepsProgram(b, caps, force);
    var (r, outcome) := AppendMissing(b, captures, force).value;
    var moved := MovedPlan(b, plan);
    RelocatedMap(b, r);
    TablesStay(b, r);
    MapBelow(b, r);
    KeptIndices(b, caps, force, r);
    MovedLength(b, plan);
    assert InRuns(r, moved, |b|, CodeEnd(b, plan));
  }

  lemma MovedLength(b: seq<byte>, plan: seq<PlannedClass>)
    requires EmitBodies(b, plan).Ok?
    ensures |MovedPlan(b, plan)| == |plan|
  {
    hide EmitBodies;
  }

  // ----- what a repair needs -----

  /** Whatever keeps its own code offset, because it has no body to recover or
      its record is unusable, keeps a usable one or none. */
  ghost predicate Recoverable(b: seq<byte>, captures: seq<Capture>, force: bool) {
    && HasHeader(b) && MethodOffsets(b).Ok?
    && DefsInFile(Applied(b, captures)) && OffsetsUsable(Applied(b, captures), ByMethod(captures), force)
  }

  /** Some method has lost its body, or has a record that does not fit its item. */
  predicate Relocates(b: seq<byte>, captures: seq<Capture>, force: bool) {
    && HasHeader(b) && MethodOffsets(b).Ok?
    && var c := Applied(b, captures);
    && HasHeader(c) && PlanFrom(c, ByMethod(captures), force, 0).Ok?
    && NeedsRelocation(PlanOf(c, captures, force))
  }

  /** How long the repaired file will be, from the plan alone. */
  function RepairedLength(b: seq<byte>, captures: seq<Capture>, force: bool): nat
    requires Relocates(b, captures, force)
  {
    var c := Applied(b, captures);
    match ReadMap(c)
    case Ok(es) => FinalLength(c, es, PlanOf(c, captures, force))
    case Err(_) => 0
  }

  lemma AppendLength(b: seq<byte>, captures: seq<Capture>, force: bool)
    requires WellFormed(b) && DefsInFile(b) && OffsetsUsable(b, ByMethod(captures), force)
    requires PlanFrom(b, ByMethod(captures), force, 0).Ok? && NeedsRelocation(PlanOf(b, captures, force))
    ensures RelocatedLength(b, PlanOf(b, captures, force)) <= U32_MAX ==> AppendMissing(b, captures, force).Ok?
    ensures AppendMissing(b, captures, force).Ok? ==>
              |AppendMissing(b, captures, force).value.0| == RelocatedLength(b, PlanOf(b, captures, force))
    ensures PlanResolved(b, PlanOf(b, captures, force)) && PlanOf(b, captures, force) != []
  {
    hide WellFormed, OpenDex, ValidateIdBounds, ReadMap, TablesEnd, PlanFrom, Relocate, Plans, PlanResolved, OffsetsUsable, MapWellFormed,
      Sound, Apart, StraysApart, IndicesInRange, MapTable, MapClear, CountFate, CountPending, AllFates, NeedsRelocation, RelocatedLength,
      RetiredRanges;
    var caps := ByMethod(captures);
    WellFormedIs(b);
    ValidatedDefsInFile(b);
    PlanFromIs(b, caps, force, 0);
    var plan := PlanOf(b, captures, force);
    PlansAreApart(b, caps, force, 0, plan);
    RetiringOk(b);
    NeedsClasses(plan);
    RelocateLength(b, plan, TablesEnd(b));
  }

  lemma RetiringOk(b: seq<byte>)
    requires ReadMap(b).Ok? && RetiredAbove(ReadMap(b).value, DEX_HEADER_SIZE)
    ensures RetiredRanges(ReadMap(b).value, ReadMap(b).value, |b|).Ok?
  {
    hide ReadMap, RetiredRanges;
    var es := ReadMap(b).value;
    ReadMapHasTable(b);
    forall e | e in es && IsRetired(e) ensures e.off < |b| {
      var i :| 0 <= i < |es| && es[i] == e;
      assert EntryInFile(es[i], |b|);
    }
    RetiredRangesOk(es, es, |b|);
  }

  /** The entry for the code run is empty exactly when nothing was copied. */
  lemma CodeEntrySize(b: seq<byte>, plan: seq<PlannedClass>, r: seq<byte>, mid: u32)
    requires b != [] && PlanResolved(b, plan) && EmitBodies(b, plan).Ok? && mid == CodeEnd(b, plan)
    requires 0 < |plan| <= U32_MAX && InRuns(r, MovedPlan(b, plan), |b|, mid)
    ensures CodeMapEntry(AllMethods(MovedPlan(b, plan))).size == 0 <==> forall m :: m in AllMethods(plan) ==> IsBodiless(m)
  {
    hide InRuns, AllMethods, CodeOffsets, EmitBodies, LaidPlan, AfterBodies, PlanResolved;
    EmitBodiesLength(b, b, plan);
    LaidPlanBodiless(b, plan, |b|);
    MovedLength(b, plan);
    RunEntriesFit(r, MovedPlan(b, plan), |b|, mid);
    OffsetsNonzero(AllMethods(MovedPlan(b, plan)));
  }

  lemma {:induction false} OffsetsNonzero(ms: seq<EncodedMethod>)
    ensures 0 !in CodeOffsets(ms)
    decreases |ms|
  {
    if ms != [] {
      OffsetsNonzero(ms[1..]);
    }
  }

  /** What follows the copies has the worked-out length as well. */
  lemma FinishLength(b: seq<byte>, es: seq<MapEntry>, plan: seq<PlannedClass>, r: seq<byte>)
    requires PlanResolved(b, plan) && EmitBodies(b, plan).Ok? && plan != [] && b != []
    requires ReadyToSeal(r, MovedPlan(b, plan), |b|, CodeEnd(b, plan))
    requires ReadMap(r) == Ok(es) && |r| == RelocatedLength(b, plan)
    ensures var rebuilt := RebuildMap(FixFormat(r), Some(RunEntries(MovedPlan(b, plan), CodeEnd(b, plan))));
            rebuilt.Ok? ==> |rebuilt.value.0| == FinalLength(b, es, plan)
  {
    hide InRuns, AllMethods, CodeMapEntry, EmitBodies, PlanResolved, RebuildMap, FixFormat, ReadMap, ValidateIdBounds, OpenDex, Align4,
      MappedBelow, IndicesInRange, TablesEnd, RelocatedLength, KeptEntries, ClearOfLive, MapTable, IsBodiless, Healthy, Apart;
    var moved, mid := MovedPlan(b, plan), CodeEnd(b, plan);
    FormattedReads(r, moved, |b|, mid);
    CodeEntrySize(b, plan, r, mid);
    CodeEntryType(AllMethods(moved));
    var rebuilt := RebuildMap(FixFormat(r), Some(RunEntries(moved, mid)));
    if rebuilt.Ok? {
      RebuildMapLength(FixFormat(r), CodeMapEntry(AllMethods(moved)), MapEntry(TYPE_CLASS_DATA, |moved|, mid));
    }
  }

  lemma FormattedReads(b: seq<byte>, moved: seq<PlannedClass>, pos: nat, mid: nat)
    requires ReadyToSeal(b, moved, pos, mid)
    ensures |FixFormat(b)| == |b| && ReadMap(FixFormat(b)) == ReadMap(b)
  {
    hide InRuns, LiveData, CodeOffset, LiveCode, ReadableClass, CodeItemEnd, FixFormat, ReadMap, ValidateIdBounds, OpenDex,
      Apart, MapTable, ClearOfLive, TablesEnd, SameTables, ReadsSame, DistinctOffsets, OverlapsMap, Sound, IndicesInRange, FormatWords, InWords;
    RunsAreHealthy(b, moved, pos, mid);
    ReadMapHasTable(b);
    var (off, count) := MapTable(b).value;
    RunsAreClear(b, moved, pos, mid, off, MapEnd(off, count));
    FormatKeepsTables(b);
    FixFormatExact(b);
  }

  /** The rest of the repair, after relocation, is decided by that length. */
  lemma RelocatedFinishes(b: seq<byte>, captures: seq<Capture>, force: bool, digests: Digests)
    requires WellFormed(b) && DefsInFile(b) && OffsetsUsable(b, ByMethod(captures), force)
    requires PlanFrom(b, ByMethod(captures), force, 0).Ok? && NeedsRelocation(PlanOf(b, captures, force))
    requires AppendMissing(b, captures, force).Ok?
    ensures ReadMap(b).Ok?
    ensures
      var (r, outcome) := AppendMissing(b, captures, force).value;
      var length := FinalLength(b, ReadMap(b).value, PlanOf(b, captures, force));
      && (Finish(r, outcome.relocated, digests).Ok? <==> length <= U32_MAX)
      && (Finish(r, outcome.relocated, digests).Ok? ==> |Finish(r, outcome.relocated, digests).value| == length)
  {
    hide WellFormed, OpenDex, ValidateIdBounds, ReadMap, PlanFrom, OffsetsUsable, NeedsRelocation, DefsInFile, KeptEntries,
      Finish, AppendMissing, FixFormat, RebuildMap, ReadyToSeal, RunEntries, RelocatedLength, Align4, AllMethods, IsBodiless, PlanResolved;
    AppendLength(b, captures, force);
    WellFormedIs(b);
    AppendedIsReady(b, captures, force);
    var (r, outcome) := AppendMissing(b, captures, force).value;
    var plan := PlanOf(b, captures, force);
    var moved, mid := MovedPlan(b, plan), CodeEnd(b, plan);
    ReadyFits(r, moved, |b|, mid);
    FinishValidates(r, moved, |b|, mid, digests);
    FinishLength(b, ReadMap(b).value, plan, r);
  }

  /** Repair establishes its validator: a well-formed file that needs relocation
      is repaired, closing validation included, exactly when the result can be
      addressed with 32 bits, which its length, known beforehand, decides; the
      bytecode step fails for no other reason. */
  lemma RepairValidates(b: seq<byte>, captures: seq<Capture>, force: bool, digests: Digests)
    requires WellFormed(b) && Recoverable(b, captures, force) && Relocates(b, captures, force)
    ensures RepairOne(b, captures, force, digests).Ok? <==> RepairedLength(b, captures, force) <= U32_MAX
    ensures RepairOne(b, captures, force, digests).Ok? ==>
              |RepairOne(b, captures, force, digests).value.0| == RepairedLength(b, captures, force)
    ensures var appended := AppendMissing(Applied(b, captures), captures, force);
            appended.Ok? || appended == Err(TooLarge)
  {
    hide WellFormed, OpenDex, ValidateIdBounds, ReadMap, PlanFrom, OffsetsUsable, NeedsRelocation, Applied, MethodOffsets, DefsInFile,
      Finish, AppendMissing, RepairOne, RelocatedLength, KeptEntries, AllMethods, IsBodiless, PlanResolved, PlanOf, OnlyInsns, LenOf, Insns,
      LastFit, LiveCode, ReadsSame, SameTables, MapWellFormed, IndicesInRange, Sound, Apart, StraysApart, MapClear, MapTable, RetiredAbove;
    var c := Applied(b, captures);
    AppliedIs(b, captures);
    AppendGrows(c, captures, force);
    AppendLength(c, captures, force);
    WellFormedIs(b);
    WellFormedIs(c);
    if AppendMissing(c, captures, force).Ok? {
      RelocatedFinishes(c, captures, force, digests);
    }
    RepairOneIs(b, captures, force, digests);
  }

  lemma ReadyFits(b: seq<byte>, moved: seq<PlannedClass>, pos: nat, mid: nat)
    requires ReadyToSeal(b, moved, pos, mid)
    ensures mid <= U32_MAX
  {
  }

  /** On a well-formed file the repair is its bytecode step and its finish. */
  lemma RepairOneIs(b: seq<byte>, captures: seq<Capture>, force: bool, digests: Digests)
    requires OpenDex(b).Ok? && ValidateIdBounds(b).Ok? && ReadMap(b).Ok? && HasHeader(b) && MethodOffsets(b).Ok?
    ensures
      var appended := AppendMissing(Applied(b, captures), captures, force);
      && (RepairOne(b, captures, force, digests).Ok? <==>
            appended.Ok? && Finish(appended.value.0, appended.value.1.relocated, digests).Ok?)
      && (RepairOne(b, captures, force, digests).Ok? ==>
            RepairOne(b, captures, force, digests).value
            == (Finish(appended.value.0, appended.value.1.relocated, digests).value, appended.value.1))
  {
    hide OpenDex, ValidateIdBounds, ReadMap, ApplyRecords, MethodOffsets, Finish, AppendMissing;
  }
}
