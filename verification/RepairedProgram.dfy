/**
  The program of a repaired file, method by method, against the one that went
  in.
 */
module RepairedProgram {
  import opened Bytes
  import opened Dex
  import opened ClassData
  import opened CodeItem
  import opened MapList
  import opened Synthesis
  import opened Relocation
  import opened RelocationProofs
  import opened Relocated
  import opened FormatFix
  import opened Live
  import opened FormatProofs
  import opened InPlace
  import opened Runs
  import opened Validator
  import opened Repair
  import opened Sealing
  import opened RepairProofs
  import opened RepairTheorems

  // ----- finishing keeps every item but its stale debug word -----

  /** An item whose debug offset points past a file of `len` bytes loses it. */
  function Settled(item: seq<byte>, len: nat): (r: seq<byte>)
    ensures |r| == |item|
  {
    if |item| >= 16 && Le32(item, 8) >= len then Patch(item, 8, [0, 0, 0, 0]) else item
  }

  /** What finishing needs of a file. */
  ghost predicate Finishable(b: seq<byte>) {
    && ValidateIdBounds(b).Ok? && Healthy(b) && Apart(b)
    && ReadMap(b).Ok? && MapTable(b).Some? && MapClear(b)
  }

  lemma LiveItem(b: seq<byte>, off: u32)
    requires Healthy(b) && CodeOffset(b, off)
    ensures LiveCode(b, off) && CodeItemEnd(b, off) == Ok(ItemEnd(b, off)) && off + 16 <= ItemEnd(b, off) <= |b|
  {
    hide CodeItemEnd, InsnsLen, ReadableClass, CodeOffset;
  }

  lemma SettledIs(item: seq<byte>, r: seq<byte>, len: nat)
    requires |item| >= 16 && |r| == |item|
    requires forall k :: 0 <= k < |item| && !(8 <= k < 12) ==> r[k] == item[k]
    requires Le32(r, 8) == if Le32(item, 8) >= len then 0 else Le32(item, 8)
    ensures r == Settled(item, len)
  {
    hide Le32;
    if Le32(item, 8) >= len {
      var z := Settled(item, len);
      assert z[8..12] == [0, 0, 0, 0];
      ZeroWord(z, 8);
      Le32Injective(r, 8, z, 8);
      SameWord(r, z);
    } else {
      Le32Injective(r, 8, item, 8);
      SameWord(r, item);
    }
  }

  lemma SameWord(r: seq<byte>, s: seq<byte>)
    requires |r| == |s| >= 16 && r[8..12] == s[8..12]
    requires forall k :: 0 <= k < |s| && !(8 <= k < 12) ==> r[k] == s[k]
    ensures r == s
  {
    forall k | 8 <= k < 12 ensures r[k] == s[k] {
      assert r[k] == r[8..12][k - 8] && s[k] == s[8..12][k - 8];
    }
  }

  lemma SliceLe32(b: seq<byte>, lo: nat, hi: nat, o: nat)
    requires lo <= hi <= |b| && o + 4 <= hi - lo
    ensures Le32(b[lo..hi], o) == Le32(b, lo + o)
  {
    hide Le32;
    HoldsSlice(b, lo, b[lo..hi], o, o + 4);
    Le32Of(b[lo..hi], o, b, lo + o);
  }

  /** Clearing stale fields settles each item. */
  lemma FormattedItem(b: seq<byte>, off: u32)
    requires Healthy(b) && Apart(b) && ValidateIdBounds(b).Ok? && CodeOffset(b, off)
    ensures ItemEnd(b, off) <= |b| && off <= ItemEnd(b, off)
    ensures FixFormat(b)[off..ItemEnd(b, off)] == Settled(b[off..ItemEnd(b, off)], |b|)
  {
    hide LiveCode, CodeOffset, CodeItemEnd, ReadableClass, ItemEnd, Apart, FixFormat, ValidateIdBounds, Le32, FormatWords, InWords, Settled,
      TablesEnd, InDefField, InDebugWord, ReadsSame;
    LiveItem(b, off);
    FixFormatExact(b);
    assert IsItemWord(b, off + 8);
    WordMember(b, off + 8);
    var r := FixFormat(b);
    var end := ItemEnd(b, off);
    LiveIsPastTables(b, off);
    forall k | 0 <= k < end - off && !(8 <= k < 12)
      ensures r[off..end][k] == b[off..end][k]
    {
      DebugWordOutsideShape(b, off, off + k);
      if InDefField(b, off + k) {
        DefFieldInTables(b, off + k);
      }
    }
    SliceLe32(b, off, end, 8);
    SliceLe32(r, off, end, 8);
    SettledIs(b[off..end], r[off..end], |b|);
  }

  lemma FinishIs(b: seq<byte>, relocated: Option<seq<MapEntry>>, digests: Digests)
    requires Finish(b, relocated, digests).Ok?
    ensures Seal(FixFormat(b), relocated, digests).Ok? && RebuildMap(FixFormat(b), relocated).Ok?
    ensures Finish(b, relocated, digests) == Seal(FixFormat(b), relocated, digests)
    ensures Validate(Finish(b, relocated, digests).value, digests).Ok?
  {
    hide FixFormat, RebuildMap, Validate;
  }

  /** A finished file reads the same, and each item is the settled old one. */
  lemma FinishedItems(b: seq<byte>, relocated: Option<seq<MapEntry>>, replacements: seq<MapEntry>, digests: Digests)
    requires Finishable(b) && Replacing(relocated, replacements, |b|) && Finish(b, relocated, digests).Ok?
    ensures var f := Finish(b, relocated, digests).value;
            && ReadsSame(b, f) && SameTables(b, f)
            && forall off: u32 :: CodeOffset(b, off) ==> FinishedItem(b, f, off)
  {
    hide LiveCode, LiveData, CodeOffset, CodeItemEnd, ReadableClass, ItemEnd, Apart, FixFormat, ValidateIdBounds, Le32, ReadMap, MapTable, Settled,
      ReadsSame, SameTables, Finish, Seal, RebuildMap, SealedFrom, ClearOfLive, DigestsMatch, BoundsMatch, HeaderOnly, OpenDex,
      TablesEnd, Replacing, Validate;
    FinishIs(b, relocated, digests);
    FormatKeepsTables(b);
    var r := FixFormat(b);
    ReadsSameClear(b, r, MapTable(b).value.0, MapEnd(MapTable(b).value.0, MapTable(b).value.1));
    SealIs(r, relocated, replacements, digests);
    var f := Finish(b, relocated, digests).value;
    SealedReads(b, r, f, MapTable(r).value.0, MapEnd(MapTable(r).value.0, MapTable(r).value.1));
    SameTablesTrans(b, r, f);
    forall off: u32 | CodeOffset(b, off)
      ensures FinishedItem(b, f, off)
    {
      SealedItem(b, r, f, off);
    }
  }

  ghost predicate FinishedItem(b: seq<byte>, f: seq<byte>, off: u32) {
    && off <= ItemEnd(b, off) <= |b|
    && CodeItemEnd(f, off) == CodeItemEnd(b, off) == Ok(ItemEnd(b, off))
    && Holds(f, off, Settled(b[off..ItemEnd(b, off)], |b|))
  }

  lemma SealedItem(b: seq<byte>, r: seq<byte>, f: seq<byte>, off: u32)
    requires Finishable(b) && CodeOffset(b, off) && r == FixFormat(b) && ReadsSame(b, f)
    requires SealedFrom(r, f, MapTable(b).value.0, MapEnd(MapTable(b).value.0, MapTable(b).value.1))
    ensures FinishedItem(b, f, off)
  {
    hide LiveData, CodeOffset, CodeItemEnd, InsnsLen, ReadableClass, ItemEnd, Apart, FixFormat, ValidateIdBounds, ReadMap, MapTable, Settled,
      TablesEnd, SealedFrom, Agree, ReadsSameClass, LiveCode;
    var end := ItemEnd(b, off);
    LiveItem(b, off);
    FormattedItem(b, off);
    LiveIsPastTables(b, off);
    ValidatedDefsInFile(b);
    assert ReadsSameItem(b, f, off);
    SealedSpan(r, f, MapTable(b).value.0, MapEnd(MapTable(b).value.0, MapTable(b).value.1), off, end);
    AgreeWithin(r, f, off, end, off, end);
  }

  // ----- the item expected of a method, from the original file -----

  function Overwritten(item: seq<byte>, len: nat, code: Option<seq<byte>>): seq<byte>
    requires 16 + len <= |item| && (code.Some? ==> |code.value| == len)
  {
    match code
    case None => item
    case Some(insns) => item[..16] + insns + item[16 + len..]
  }

  function OverwrittenAt(b: seq<byte>, off: u32, code: Option<seq<byte>>): seq<byte>
    requires CodeItemEnd(b, off).Ok? && (code.Some? ==> |code.value| == InsnsLen(b, off).value)
  {
    Overwritten(b[off..CodeItemEnd(b, off).value], InsnsLen(b, off).value, code)
  }

  /** The item at `off` with its instructions overwritten by the last record
      that fits it. */
  function BodyOnDisk(b: seq<byte>, method2off: map<u32, u32>, captures: seq<Capture>, off: u32): Option<seq<byte>> {
    match CodeItemEnd(b, off)
    case Err(_) => None
    case Ok(end) => Some(OverwrittenAt(b, off, LastFit(method2off, captures, off, InsnsLen(b, off).value, false)))
  }

  /** What a repair should leave a method with: the item on disk, overwritten
      where a record fits it, unless the method's record does not fit and an
      item can be built from it. */
  function RepairedBody(b: seq<byte>, captures: seq<Capture>, force: bool, m: EncodedMethod): Option<seq<byte>>
    requires HasHeader(b) && MethodOffsets(b).Ok?
  {
    var caps := ByMethod(captures);
    var onDisk := BodyOnDisk(b, MethodOffsets(b).value, captures, m.codeOff);
    if HasNoBody(m.accessFlags) || m.methodIdx !in caps then onDisk
    else if InsnsLen(b, m.codeOff) == Some(|caps[m.methodIdx].code| / 2) then onDisk
    else
      match SynthesizeCodeItem(Applied(b, captures), m.methodIdx, m.accessFlags, caps[m.methodIdx], force)
      case Ok(item) => Some(item)
      case Err(_) => onDisk
  }

  lemma AppliedItem(b: seq<byte>, c: seq<byte>, off: u32, code: Option<seq<byte>>)
    requires Sound(b) && Apart(b) && LiveCode(b, off) && OnlyInsns(b, c) && ReadsSameItem(b, c, off)
    requires code.Some? ==> |code.value| == LenOf(b, off)
    requires off + 16 + LenOf(b, off) <= |b| == |c|
    requires Insns(c, off, LenOf(b, off)) == match code case Some(s) => s case None => Insns(b, off, LenOf(b, off))
    ensures ItemOnDisk(c, off) == Some(OverwrittenAt(b, off, code))
  {
    hide CodeItemEnd, InsnsLen, InInsns, ItemEnd, CodeOffset, ReadableClass, Apart;
    ItemHoldsInsns(b, off);
    var len, end := LenOf(b, off), ItemEnd(b, off);
    assert CodeItemEnd(b, off) == Ok(end) by { EndOf(b, off); }
    forall x | off <= x < end && !(off + 16 <= x < off + 16 + len)
      ensures c[x] == b[x]
    {
      OutsideInsns(b, off, x);
    }
    SplicedItem(b, c, off, end, len, code);
  }

  lemma EndOf(b: seq<byte>, off: u32)
    requires CodeItemEnd(b, off).Ok?
    ensures CodeItemEnd(b, off) == Ok(ItemEnd(b, off))
  {
    hide CodeItemEnd;
  }

  lemma SplicedItem(b: seq<byte>, c: seq<byte>, off: nat, end: nat, len: nat, code: Option<seq<byte>>)
    requires off + 16 + len <= end <= |b| == |c| && off <= U32_MAX
    requires code.Some? ==> |code.value| == len
    requires forall x :: off <= x < end && !(off + 16 <= x < off + 16 + len) ==> c[x] == b[x]
    requires Insns(c, off, len) == match code case Some(s) => s case None => Insns(b, off, len)
    ensures c[off..end] == Overwritten(b[off..end], len, code)
  {
    var item := b[off..end];
    assert c[off..end] == c[off..off + 16] + c[off + 16..off + 16 + len] + c[off + 16 + len..end];
    assert c[off..off + 16] == item[..16];
    assert c[off + 16 + len..end] == item[16 + len..];
    assert item == item[..16] + b[off + 16..off + 16 + len] + item[16 + len..];
  }

  /** The in-place pass leaves each item overwritten as expected. */
  lemma AppliedBody(b: seq<byte>, captures: seq<Capture>, off: u32)
    requires WellFormed(b) && HasHeader(b) && MethodOffsets(b).Ok? && DefsInFile(b)
    requires off == 0 || CodeOffset(b, off)
    ensures ItemOnDisk(Applied(b, captures), off) == BodyOnDisk(b, MethodOffsets(b).value, captures, off)
  {
    hide WellFormed, MethodOffsets, ApplyRecords, OnlyInsns, ReadsSame, SameTables, LastFit, Insns, CodeItemEnd, InsnsLen, CodeOffset,
      Apart, StraysApart, OpenDex, ValidateIdBounds, MapWellFormed, IndicesInRange, ReadMap, MapTable, MapClear, ReadableClass;
    AppliedIs(b, captures);
    WellFormedIs(b);
    var c := Applied(b, captures);
    if LiveCode(b, off) {
      LiveReads(b, c, off);
      AppliedItem(b, c, off, LastFit(MethodOffsets(b).value, captures, off, LenOf(b, off), false));
    } else {
      NoItemAtZero(b);
      NoItemAtZero(c);
      if off != 0 {
        StrayStaysStray(b, c, off);
      }
    }
  }

  lemma LiveReads(b: seq<byte>, c: seq<byte>, off: u32)
    requires DefsInFile(b) && ReadsSame(b, c) && LiveCode(b, off)
    ensures ReadsSameItem(b, c, off)
  {
    hide CodeItemEnd, InsnsLen, CodeOffset, ReadsSameClass;
  }

  lemma ExpectedIsRepaired(b: seq<byte>, captures: seq<Capture>, force: bool, m: EncodedMethod)
    requires WellFormed(b) && HasHeader(b) && MethodOffsets(b).Ok? && DefsInFile(b)
    requires m.codeOff == 0 || CodeOffset(b, m.codeOff)
    ensures ExpectedBody(Applied(b, captures), ByMethod(captures), force, m) == RepairedBody(b, captures, force, m)
  {
    hide WellFormed, MethodOffsets, OnlyInsns, ReadsSame, SameTables, LastFit, Insns, CodeItemEnd, InsnsLen, CodeOffset,
      SynthesizeCodeItem, ItemOnDisk, BodyOnDisk, HasNoBody, Applied, Apart, StraysApart, OpenDex, ValidateIdBounds, MapWellFormed,
      IndicesInRange, ReadMap, MapTable, MapClear, ReadableClass;
    AppliedBody(b, captures, m.codeOff);
    AppliedIs(b, captures);
    WellFormedIs(b);
    var c := Applied(b, captures);
    assert InsnsLen(c, m.codeOff) == InsnsLen(b, m.codeOff) by {
      if LiveCode(b, m.codeOff) {
        LiveReads(b, c, m.codeOff);
      } else {
        NoItemAtZero(b);
        NoItemAtZero(c);
        if m.codeOff != 0 {
          StrayStaysStray(b, c, m.codeOff);
        }
      }
    }
  }

  // ----- the repaired program -----

  function SettledBody(body: Option<seq<byte>>, len: nat): Option<seq<byte>> {
    match body
    case None => None
    case Some(s) => Some(Settled(s, len))
  }

  ghost predicate MethodRepaired(
    b: seq<byte>, captures: seq<Capture>, force: bool, m: EncodedMethod, f: seq<byte>, n: EncodedMethod, len: nat)
    requires HasHeader(b) && MethodOffsets(b).Ok?
  {
    SameMethod(m, n) && Carries(f, n, SettledBody(RepairedBody(b, captures, force, m), len))
  }

  ghost predicate MethodsRepaired(
    b: seq<byte>, captures: seq<Capture>, force: bool, ms: seq<EncodedMethod>, f: seq<byte>, ns: seq<EncodedMethod>, len: nat)
    requires HasHeader(b) && MethodOffsets(b).Ok?
  {
    && |ms| == |ns|
    && forall k :: 0 <= k < |ms| ==> MethodRepaired(b, captures, force, ms[k], f, ns[k], len)
  }

  /** Class `i` leads to the same lists in both files, and each of its methods in
      `f` to the repaired item. */
  ghost predicate ClassRepaired(b: seq<byte>, captures: seq<Capture>, force: bool, f: seq<byte>, len: nat, i: nat)
    requires DefsInFile(b) && DefsInFile(f) && MethodOffsets(b).Ok? && i < ClassDefsSize(b) && i < ClassDefsSize(f)
  {
    if ClassDataOff(b, i) == 0 then ClassDataOff(f, i) == 0
    else
      && ClassDataOff(f, i) != 0
      && ParseClassData(b, ClassDataOff(b, i)).Ok? && ParseClassData(f, ClassDataOff(f, i)).Ok?
      && var c, d := ParseClassData(b, ClassDataOff(b, i)).value.0, ParseClassData(f, ClassDataOff(f, i)).value.0;
      && SameLists(c, d)
      && MethodsRepaired(b, captures, force, c.Methods(), f, d.Methods(), len)
  }

  lemma KeptIsRepaired(
    b: seq<byte>, captures: seq<Capture>, force: bool, m: EncodedMethod, r: seq<byte>, f: seq<byte>, n: EncodedMethod)
    requires WellFormed(b) && HasHeader(b) && MethodOffsets(b).Ok? && DefsInFile(b) && DefsInFile(r)
    requires HasHeader(Applied(b, captures))
    requires m.codeOff == 0 || CodeOffset(b, m.codeOff)
    requires n.codeOff == 0 || CodeOffset(r, n.codeOff)
    requires MethodKept(Applied(b, captures), ByMethod(captures), force, m, r, n)
    requires forall off: u32 :: CodeOffset(r, off) ==> FinishedItem(r, f, off)
    ensures MethodRepaired(b, captures, force, m, f, n, |r|)
  {
    hide WellFormed, MethodOffsets, ExpectedBody, RepairedBody, CodeItemEnd, CodeOffset, Applied, Settled, ItemEnd;
    ExpectedIsRepaired(b, captures, force, m);
    match RepairedBody(b, captures, force, m)
    case None =>
    case Some(s) =>
      assert FinishedItem(r, f, n.codeOff);
      EndOf(r, n.codeOff);
      assert r[n.codeOff..n.codeOff + |s|] == s;
  }

  lemma KeptAreRepaired(
    b: seq<byte>, captures: seq<Capture>, force: bool, r: seq<byte>, f: seq<byte>, i: nat)
    requires WellFormed(b) && HasHeader(b) && MethodOffsets(b).Ok? && DefsInFile(b) && DefsInFile(r)
    requires DefsInFile(Applied(b, captures)) && ReadsSame(b, Applied(b, captures)) && ReadsSame(r, f)
    requires SameClassDefs(Applied(b, captures), r) && i < ClassDefsSize(b)
    requires ClassKept(Applied(b, captures), ByMethod(captures), force, r, i)
    requires forall off: u32 :: CodeOffset(r, off) ==> FinishedItem(r, f, off)
    ensures ClassRepaired(b, captures, force, f, |r|, i)
  {
    hide WellFormed, MethodOffsets, ExpectedBody, RepairedBody, CodeItemEnd, CodeOffset, Applied, FinishedItem, MethodKept, SameLists, Le32,
      ParseClassData, MethodRepaired, ReadsSameItem, LiveCode;
    var c := Applied(b, captures);
    assert ReadsSameClass(b, c, i) && ReadsSameClass(r, f, i);
    if ClassDataOff(b, i) != 0 {
      var ms, ns := MethodsOf(b, i), MethodsOf(r, i);
      forall k | 0 <= k < |ms|
        ensures MethodRepaired(b, captures, force, ms[k], f, ns[k], |r|)
      {
        OffsetOrZero(b, i, k);
        OffsetOrZero(r, i, k);
        assert MethodKept(c, ByMethod(captures), force, ms[k], r, ns[k]);
        KeptIsRepaired(b, captures, force, ms[k], r, f, ns[k]);
      }
    }
  }

  lemma OffsetOrZero(b: seq<byte>, i: nat, k: nat)
    requires DefsInFile(b) && i < ClassDefsSize(b) && k < |MethodsOf(b, i)|
    ensures MethodsOf(b, i)[k].codeOff == 0 || CodeOffset(b, MethodsOf(b, i)[k].codeOff)
  {
    hide MethodsOf, Le32, CodeOffset;
    if MethodsOf(b, i)[k].codeOff != 0 {
      MethodHasOffset(b, i, k);
    }
  }

  // ----- whatever the bytecode step leaves can be finished -----

  lemma KeptIsHealthy(b: seq<byte>, captures: Captures, force: bool)
    requires Sound(b) && ProgramKept(b, captures, force, b)
    ensures Healthy(b)
  {
    hide ParseClassData, Le32, ExpectedBody, SameLists, CodeItemEnd, InsnsLen, MethodsOf, MethodsKept, ClassKept;
    forall off: u32 | CodeOffset(b, off)
      ensures LiveCode(b, off)
    {
      var i, k :| 0 <= i < ClassDefsSize(b) && 0 <= k < |MethodsOf(b, i)| && MethodsOf(b, i)[k].codeOff == off;
      assert ClassKept(b, captures, force, b, i);
      KeptOffset(b, captures, force, i, k);
    }
  }

  lemma KeptOffset(b: seq<byte>, captures: Captures, force: bool, i: nat, k: nat)
    requires DefsInFile(b) && i < ClassDefsSize(b) && k < |MethodsOf(b, i)| && ClassKept(b, captures, force, b, i)
    ensures MethodsOf(b, i)[k].codeOff != 0 ==> InsnsLen(b, MethodsOf(b, i)[k].codeOff).Some?
  {
    hide ParseClassData, Le32, ExpectedBody, SameLists, CodeItemEnd, InsnsLen;
    var ms := MethodsOf(b, i);
    assert MethodKept(b, captures, force, ms[k], b, ms[k]);
  }

  lemma AppendedFinishable(b: seq<byte>, captures: seq<Capture>, force: bool)
    requires WellFormed(b) && DefsInFile(b) && OffsetsUsable(b, ByMethod(captures), force)
    requires AppendMissing(b, captures, force).Ok?
    ensures var (r, outcome) := AppendMissing(b, captures, force).value;
            && Finishable(r)
            && DefsInFile(r) && SameClassDefs(b, r) && ProgramKept(b, ByMethod(captures), force, r)
            && Replacing(outcome.relocated, if outcome.relocated.Some? then outcome.relocated.value else [], |r|)
  {
    hide WellFormed, OpenDex, ValidateIdBounds, ReadMap, TablesEnd, PlanFrom, Relocate, OffsetsUsable, MapWellFormed,
      Apart, StraysApart, IndicesInRange, MapTable, MapClear, CountFate, CountPending, AllFates, NeedsRelocation, AllMethods,
      RestKept, ReadyToSeal, RunEntries, ReadableClass, LiveCode, CodeOffset, ClassKept;
    var caps := ByMethod(captures);
    WellFormedIs(b);
    AppendPreservesProgram(b, captures, force);
    var (r, outcome) := AppendMissing(b, captures, force).value;
    var plan := PlanFrom(b, caps, force, 0).value;
    if NeedsRelocation(plan) {
      AppendedIsReady(b, captures, force);
      ReadyIsFinishable(r, MovedPlan(b, plan), |b|, CodeEnd(b, plan));
    } else {
      KeptIsHealthy(b, caps, force);
    }
  }

  lemma ReadyIsFinishable(b: seq<byte>, moved: seq<PlannedClass>, pos: nat, mid: nat)
    requires ReadyToSeal(b, moved, pos, mid)
    ensures Finishable(b) && mid <= U32_MAX && Replacing(Some(RunEntries(moved, mid)), RunEntries(moved, mid), |b|)
  {
    hide InRuns, OpenDex, ValidateIdBounds, ReadMap, MapTable, TablesEnd, Healthy, Apart, CodeMapEntry, AllMethods, IndicesInRange,
      ClearOfLive, DistinctOffsets, OverlapsMap;
    FormattedIsReady(b, moved, pos, mid);
    MappedReads(b, pos);
    RunsAreClear(b, moved, pos, mid, MapTable(b).value.0, MapEnd(MapTable(b).value.0, MapTable(b).value.1));
    RunEntriesFit(b, moved, pos, mid);
    TwoRuns([], CodeMapEntry(AllMethods(moved)), MapEntry(TYPE_CLASS_DATA, |moved|, mid), pos);
    HealthyDefs(b);
  }

  lemma HealthyDefs(b: seq<byte>)
    requires Healthy(b)
    ensures DefsInFile(b)
  {
  }

  /** Repair preserves the program: in whatever file a well-formed DEX is
      repaired into, relocated or not, every class keeps its lists and every
      method leads to the item it should be left with. */
  lemma RepairKeepsProgram(b: seq<byte>, captures: seq<Capture>, force: bool, digests: Digests)
    requires WellFormed(b) && DefsInFile(b) && Recoverable(b, captures, force)
    requires RepairOne(b, captures, force, digests).Ok?
    ensures
      var f := RepairOne(b, captures, force, digests).value.0;
      && AppendMissing(Applied(b, captures), captures, force).Ok?
      && DefsInFile(f) && SameClassDefs(b, f)
      && forall i :: 0 <= i < ClassDefsSize(b) ==>
           ClassRepaired(b, captures, force, f, |AppendMissing(Applied(b, captures), captures, force).value.0|, i)
  {
    hide WellFormed, OpenDex, ValidateIdBounds, ReadMap, OffsetsUsable, MethodOffsets, Applied, AppendMissing, Finish, RepairOne, MapTable,
      Healthy, Apart, MapClear, ClassKept, ClassRepaired, FinishedItem, SameTables, OnlyInsns, LenOf, Insns, LastFit, LiveCode, CodeOffset,
      Replacing, MapWellFormed, StraysApart, IndicesInRange;
    var c := Applied(b, captures);
    AppliedIs(b, captures);
    WellFormedIs(b);
    RepairOneIs(b, captures, force, digests);
    AppendedFinishable(c, captures, force);
    var (r, outcome) := AppendMissing(c, captures, force).value;
    FinishedItems(r, outcome.relocated, if outcome.relocated.Some? then outcome.relocated.value else [], digests);
    var f := Finish(r, outcome.relocated, digests).value;
    SameDefsOf(b, c);
    SameDefsOf(r, f);
    forall i | 0 <= i < ClassDefsSize(b)
      ensures ClassRepaired(b, captures, force, f, |r|, i)
    {
      assert ClassKept(c, ByMethod(captures), force, r, i);
      KeptAreRepaired(b, captures, force, r, f, i);
    }
  }
}
