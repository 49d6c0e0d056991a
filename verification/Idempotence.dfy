/**
  Repairing a repaired file again: what everything after the bytecode step leaves
  is settled, and which methods a second plan touches.
 */
module Idempotence {
  import opened Bytes
  import opened Dex
  import opened ClassData
  import opened CodeItem
  import Bytecode
  import opened MapList
  import opened Synthesis
  import opened Relocation
  import opened RelocationProofs
  import opened Relocated
  import opened FormatFix
  import opened Live
  import opened FormatProofs
  import opened InPlace
  import opened Runs
  import opened Validator
  import opened Repair
  import opened Sealing
  import opened RepairProofs
  import opened RepairTheorems
  import opened RepairedProgram
  import opened Unshared

  // ----- header and digests settle -----

  lemma PatchSame(b: seq<byte>, o: nat, v: u32)
    requires o + 4 <= |b| && Le32(b, o) == v
    ensures Patch(b, o, PutLe32(v)) == b
  {
    hide Le32, PutLe32;
    Le32Injective(b, o, PutLe32(v), 0);
    assert PutLe32(v)[0..4] == PutLe32(v);
    assert b[..o] + b[o..o + 4] + b[o + 4..] == b;
  }

  lemma BoundsSettle(m: seq<byte>)
    requires ValidateIdBounds(m).Ok? && |m| <= U32_MAX
    ensures var f := FixHeaderBounds(m);
            && TablesEnd(m) <= |m|
            && Le32(f, HDR_FILE_SIZE) == |m| && Le32(f, HDR_DATA_SIZE) == |m| - TablesEnd(m) && Le32(f, HDR_DATA_OFF) == TablesEnd(m)
  {
    hide Le32, TablesEnd, ValidateIdBounds;
    TablesEndBounds(m);
    Align4Aligned(TablesEnd(m));
    var f := FixHeaderBounds(m);
    assert f[HDR_FILE_SIZE..HDR_FILE_SIZE + 4] == PutLe32(|m|);
    assert f[HDR_DATA_SIZE..HDR_DATA_SIZE + 4] == PutLe32(|m| - TablesEnd(m));
    assert f[HDR_DATA_OFF..HDR_DATA_OFF + 4] == PutLe32(TablesEnd(m));
    HeldLe32(f, HDR_FILE_SIZE, |m|);
    HeldLe32(f, HDR_DATA_SIZE, |m| - TablesEnd(m));
    HeldLe32(f, HDR_DATA_OFF, TablesEnd(m));
  }

  /** Right bounds are left alone. */
  lemma BoundsStay(f: seq<byte>)
    requires ValidateIdBounds(f).Ok? && |f| <= U32_MAX && TablesEnd(f) <= |f|
    requires Le32(f, HDR_FILE_SIZE) == |f| && Le32(f, HDR_DATA_SIZE) == |f| - TablesEnd(f) && Le32(f, HDR_DATA_OFF) == TablesEnd(f)
    ensures FixHeaderBounds(f) == f
  {
    hide Le32, TablesEnd, ValidateIdBounds, Patch;
    TablesEndBounds(f);
    Align4Aligned(TablesEnd(f));
    PatchSame(f, HDR_FILE_SIZE, |f|);
    PatchSame(f, HDR_DATA_SIZE, |f| - TablesEnd(f));
    PatchSame(f, HDR_DATA_OFF, TablesEnd(f));
  }

  /** Right digests are left alone. */
  lemma DigestsStay(f: seq<byte>, digests: Digests)
    requires HasHeader(f) && DigestsMatch(f, digests)
    ensures RecalcHeader(f, digests) == f
  {
    hide Le32;
    assert f[..HDR_SIGNATURE] + f[HDR_SIGNATURE..32] + f[32..] == f;
    PatchSame(f, HDR_CHECKSUM, digests.adler32(f[HDR_SIGNATURE..]));
  }

  /** Header and digests of a sealed file are already what a second pass would
      write. */
  lemma HeaderSettles(m: seq<byte>, digests: Digests)
    requires ValidateIdBounds(m).Ok? && |m| <= U32_MAX
    ensures var f := RecalcHeader(FixHeaderBounds(m), digests);
            FixHeaderBounds(f) == f && RecalcHeader(f, digests) == f
  {
    hide Le32, TablesEnd, ValidateIdBounds, FixHeaderBounds, RecalcHeader, Agree, DigestsMatch, BoundsMatch;
    var g := FixHeaderBounds(m);
    var f := RecalcHeader(g, digests);
    BoundsSettle(m);
    HeaderSealed(m, digests);
    DigestsFixed(g, digests);
    AgreeLe32(g, f, 32, |m|, HDR_FILE_SIZE);
    AgreeLe32(g, f, 32, |m|, HDR_DATA_SIZE);
    AgreeLe32(g, f, 32, |m|, HDR_DATA_OFF);
    HeaderOnlyTables(m, f);
    TablesStay(m, f);
    BoundsStay(f);
    DigestsStay(f, digests);
  }

  lemma HeaderOnlyTables(m: seq<byte>, f: seq<byte>)
    requires HeaderOnly(m, f)
    ensures SameTables(m, f) && |f| == |m| && HasHeader(f)
  {
    AgreeWithin(m, f, 0, 8, 0, 4);
    AgreeWithin(m, f, 36, 0x68, 36, 44);
    AgreeWithin(m, f, 36, 0x68, 56, 104);
  }

  // ----- the map settles -----

  lemma UnchangedReads(m: seq<byte>, f: seq<byte>)
    requires RebuildMap(m, None) == Ok((m, false))
    requires ReadMap(f) == ReadMap(m) && MapTable(f) == MapTable(m) && |f| == |m|
    ensures RebuildMap(f, None) == Ok((f, false))
  {
    hide ReadMap, MapTable, MoveMap, OverlapsMap, NeighboursAscend, SelfEntryLast;
  }

  /** Rebuilding a rebuilt map changes nothing. */
  lemma MapSettles(b: seq<byte>, relocated: Option<seq<MapEntry>>, replacements: seq<MapEntry>)
    requires Replacing(relocated, replacements, |b|) && RebuildMap(b, relocated).Ok?
    requires ReadMap(b).Ok? && DistinctOffsets(ReadMap(b).value)
    requires RunsApart(replacements) && RunsClear(ReadMap(b).value, replacements)
    ensures var m := RebuildMap(b, relocated).value.0; RebuildMap(m, None) == Ok((m, false))
  {
    hide ReadMap, RebuildMap, DistinctTypes, DistinctOffsets, RunsApart, RunsClear;
    if RebuildMap(b, relocated).value.1 {
      RebuildSettles(b, replacements, relocated);
    } else {
      RebuiltReads(b, relocated);
    }
  }

  // ----- stale fields settle -----

  /** With no field past the end, clearing stale fields changes nothing. */
  lemma FormatSettles(f: seq<byte>)
    requires Healthy(f) && Apart(f) && ValidateIdBounds(f).Ok?
    requires WordsFit(f, FormatWords(f)) && forall w :: w in FormatWords(f) ==> Le32(f, w) < |f|
    ensures FixFormat(f) == f
  {
    hide Le32, FixFormat, FormatWords, Apart, ValidateIdBounds, FormatOnly, ReadsSame, LiveCode, CodeOffset, ReadableClass;
    FixFormatExact(f);
    var r := FixFormat(f);
    forall x | 0 <= x < |f|
      ensures r[x] == f[x]
    {
      if InWords(FormatWords(f), x) {
        var w :| w in FormatWords(f) && InWord(w, x);
        assert Le32(r, w) == Le32(f, w);
        Le32Injective(r, w, f, w);
        assert r[x] == r[w..w + 4][x - w] && f[x] == f[w..w + 4][x - w];
      }
    }
  }

  lemma SameWords(b: seq<byte>, f: seq<byte>, w: nat)
    requires DefsInFile(b) && ReadsSame(b, f)
    ensures IsDefWord(f, w) <==> IsDefWord(b, w)
    ensures IsItemWord(f, w) <==> IsItemWord(b, w)
  {
    hide Le32, ReadsSame, CodeOffset;
    SameDefsOf(b, f);
    SameDefAt(b, f);
    forall off: u32
      ensures CodeOffset(f, off) <==> CodeOffset(b, off)
    {
      ReadsSameOffsets(b, f, off);
    }
  }

  /** A word that was cleared or in bounds stays so in the sealed, longer file. */
  lemma SealedWord(b: seq<byte>, r: seq<byte>, f: seq<byte>, w: nat, lo: nat, hi: nat)
    requires Healthy(b) && Apart(b) && ValidateIdBounds(b).Ok? && r == FixFormat(b)
    requires ClearOfLive(b, lo, hi) && SealedFrom(r, f, lo, hi)
    requires IsDefWord(b, w) || IsItemWord(b, w)
    ensures w + 4 <= |f| && Le32(f, w) == Le32(r, w) < |b| <= |f|
  {
    hide Le32, FixFormat, FormatWords, Apart, ValidateIdBounds, ReadsSame, LiveCode, CodeOffset, ReadableClass, ClassDefAt, LiveData,
      FormatOnly, TablesEnd, SealedFrom, Agree, CodeItemEnd;
    FixFormatExact(b);
    WordMember(b, w);
    ValidatedDefsInFile(b);
    WordPlace(b, w);
    WordClear(b, w, lo, hi);
    FixFormatLength(b);
    SealedSpan(r, f, lo, hi, w, w + 4);
    AgreeLe32(r, f, w, w + 4, w);
    SealedSame(r, f, lo, hi);
  }

  lemma FixFormatLength(b: seq<byte>)
    ensures |FixFormat(b)| == |b|
  {
    hide FixFormat;
  }

  lemma WordClear(b: seq<byte>, w: nat, lo: nat, hi: nat)
    requires Healthy(b) && Apart(b) && ValidateIdBounds(b).Ok? && ClearOfLive(b, lo, hi)
    requires IsDefWord(b, w) || IsItemWord(b, w)
    ensures DEX_HEADER_SIZE <= w && (w + 4 <= lo || hi <= w)
  {
    hide Le32, Apart, ValidateIdBounds, CodeOffset, ReadableClass, ClassDefAt, LiveData, TablesEnd, CodeItemEnd, InsnsLen;
    ValidatedDefsInFile(b);
    WordPlace(b, w);
    if IsItemWord(b, w) {
      var off: u32 :| CodeOffset(b, off) && w == off + 8;
      assert LiveCode(b, off);
      ItemIsLong(b, off);
    }
  }

  /** A finished file is a fixed point of everything after the bytecode step. */
  lemma FinishSettles(
    b: seq<byte>, relocated: Option<seq<MapEntry>>, replacements: seq<MapEntry>, digests: Digests)
    requires Finishable(b) && Replacing(relocated, replacements, |b|) && Finish(b, relocated, digests).Ok?
    requires DistinctOffsets(ReadMap(b).value) && RunsApart(replacements) && RunsClear(ReadMap(b).value, replacements)
    ensures var f := Finish(b, relocated, digests).value;
            && Finish(f, None, digests) == Ok(f)
            && Healthy(f) && Apart(f) && ValidateIdBounds(f).Ok? && OpenDex(f).Ok? && ReadMap(f).Ok?
            && ReadsSame(b, f) && SameTables(b, f)
            && RebuildMap(f, None) == Ok((f, false))
  {
    hide ReadMap, MapTable, RebuildMap, FixFormat, Seal, ValidateIdBounds, OpenDex, Replacing, Apart, ReadsSame, SealedFrom, SameTables,
      ClearOfLive, RunsApart, RunsClear, DistinctOffsets, Validate, FixHeaderBounds, RecalcHeader, BoundsMatch, DigestsMatch, HeaderOnly,
      LiveCode, CodeOffset, ReadableClass, TablesEnd;
    FinishIs(b, relocated, digests);
    var r := FixFormat(b);
    var f := Finish(b, relocated, digests).value;
    FinishedItems(b, relocated, replacements, digests);
    FormatKeepsTables(b);
    FixFormatLength(b);
    SealIs(r, relocated, replacements, digests);
    SealedValid(f, digests);
    TablesStay(b, f);
    ReadsSameApart(b, f);
    FinishedFormat(b, r, f);
    MapSettles(r, relocated, replacements);
    FinishedSeal(r, relocated, f, digests);
  }

  lemma SealedValid(f: seq<byte>, digests: Digests)
    requires Validate(f, digests).Ok?
    ensures ValidateIdBounds(f).Ok? && OpenDex(f).Ok? && HasHeader(f) && BoundsMatch(f) && ReadMap(f).Ok?
  {
    hide OpenDex, DigestsMatch, ReadMap, CollectFrom, CheckRun, BoundsMatch, NeighboursAscend, Table.Apart, Table.InFile, AllApart;
  }

  lemma FinishedFormat(b: seq<byte>, r: seq<byte>, f: seq<byte>)
    requires Finishable(b) && r == FixFormat(b) && ReadsSame(b, f) && Healthy(f) && Apart(f) && ValidateIdBounds(f).Ok?
    requires SealedFrom(r, f, MapTable(b).value.0, MapEnd(MapTable(b).value.0, MapTable(b).value.1))
    ensures FixFormat(f) == f
  {
    hide Le32, FixFormat, FormatWords, Apart, ValidateIdBounds, ReadsSame, LiveCode, CodeOffset, ReadableClass, SealedFrom, IsDefWord,
      IsItemWord, ReadMap, MapTable, ClearOfLive;
    FormatWordsSpaced(f);
    forall w | w in FormatWords(f)
      ensures Le32(f, w) < |f|
    {
      WordMember(f, w);
      SameWords(b, f, w);
      SealedWord(b, r, f, w, MapTable(b).value.0, MapEnd(MapTable(b).value.0, MapTable(b).value.1));
    }
    FormatSettles(f);
  }

  lemma FinishedSeal(r: seq<byte>, relocated: Option<seq<MapEntry>>, f: seq<byte>, digests: Digests)
    requires ReadMap(r).Ok? && ValidateIdBounds(r).Ok? && RebuildMap(r, relocated).Ok?
    requires Seal(r, relocated, digests) == Ok(f) && Validate(f, digests).Ok? && FixFormat(f) == f
    requires var m := RebuildMap(r, relocated).value.0; RebuildMap(m, None) == Ok((m, false)) && HeaderOnly(m, f) && ReadMap(m).Ok?
    ensures Finish(f, None, digests) == Ok(f) && RebuildMap(f, None) == Ok((f, false))
  {
    hide ReadMap, RebuildMap, FixFormat, ValidateIdBounds, Validate, FixHeaderBounds, RecalcHeader, HeaderOnly, BoundsMatch, Le32, MapTable,
      DigestsMatch, SameTables;
    var m := RebuildMap(r, relocated).value.0;
    HeaderOnlyMap(m, f);
    HeaderOnlyLength(m, f);
    UnchangedReads(m, f);
    SealedValid(f, digests);
    HeaderOnlyBack(m, f);
    assert |f| <= U32_MAX by { BoundsFit(f); }
    HeaderSettles(m, digests);
  }

  lemma BoundsFit(f: seq<byte>)
    requires HasHeader(f) && BoundsMatch(f)
    ensures |f| <= U32_MAX
  {
    hide Le32;
  }

  lemma AgreeSym(b: seq<byte>, c: seq<byte>, lo: nat, hi: nat)
    requires Agree(b, c, lo, hi)
    ensures Agree(c, b, lo, hi)
  {
  }

  lemma HeaderOnlyBack(m: seq<byte>, f: seq<byte>)
    requires HeaderOnly(m, f) && ValidateIdBounds(f).Ok?
    ensures ValidateIdBounds(m).Ok?
  {
    hide Agree, ValidateIdBounds;
    HeaderOnlyTables(m, f);
    AgreeSym(m, f, 0, 4);
    AgreeSym(m, f, 36, 44);
    AgreeSym(m, f, 56, 104);
    TablesStay(f, m);
  }

  // ----- the records are already in place -----

  /** The length an item announces for its instructions. */
  function InsnsLenOf(item: seq<byte>): nat
    requires |item| >= 16
  {
    2 * Le32(item, 12)
  }

  /** An item carries the last record of method `idx` that has its length. */
  ghost predicate CarriesRecord(captures: seq<Capture>, idx: u32, item: seq<byte>) {
    && |item| >= 16 && 16 + InsnsLenOf(item) <= |item|
    && (LastOf(captures, idx, InsnsLenOf(item)).Some? ==>
          item[16..16 + InsnsLenOf(item)] == LastOf(captures, idx, InsnsLenOf(item)).value)
  }

  lemma SynthesizedCarries(b: seq<byte>, methodIdx: u32, accessFlags: u32, captures: seq<Capture>, force: bool)
    requires HasHeader(b) && methodIdx in ByMethod(captures)
    requires SynthesizeCodeItem(b, methodIdx, accessFlags, ByMethod(captures)[methodIdx], force).Ok?
    ensures var item := SynthesizeCodeItem(b, methodIdx, accessFlags, ByMethod(captures)[methodIdx], force).value;
            && CarriesRecord(captures, methodIdx, item)
            && InsnsLenOf(item) == |ByMethod(captures)[methodIdx].code| / 2
  {
    hide HexDecode, SynthesizeCodeItem, Standalone, Le32, Le16, Bytecode.Scan, IncomingWords, LastOf, ByMethod;
    var capture := ByMethod(captures)[methodIdx];
    var item := SynthesizeCodeItem(b, methodIdx, accessFlags, capture, force).value;
    SynthesizedItem(b, methodIdx, accessFlags, capture, force);
    StandaloneLength(item);
    ByMethodIsLast(captures, methodIdx);
    var c := [0, 0, 0, 0] + item;
    assert c[16..20] == item[12..16];
    Le32Of(c, 16, item, 12);
    assert item[16..16 + InsnsLenOf(item)] == item[16..];
  }

  lemma NoStrays(f: seq<byte>)
    requires Healthy(f)
    ensures StraysApart(f)
  {
    hide LiveCode, CodeOffset, ReadableClass, CodeItemEnd;
  }

  lemma SameInsnsSame(f: seq<byte>, g: seq<byte>)
    requires DefsInFile(f) && OnlyInsns(f, g)
    requires forall off: u32 :: LiveCode(f, off) ==>
               off + 16 + LenOf(f, off) <= |f| && Insns(g, off, LenOf(f, off)) == Insns(f, off, LenOf(f, off))
    ensures g == f
  {
    hide LiveCode, LenOf;
    forall x | 0 <= x < |f|
      ensures g[x] == f[x]
    {
      if InInsns(f, x) {
        var off: u32 :| LiveCode(f, off) && off + 16 <= x < off + 16 + LenOf(f, off);
        var len := LenOf(f, off);
        assert g[x] == Insns(g, off, len)[x - (off as int) - 16] && f[x] == Insns(f, off, len)[x - (off as int) - 16];
      }
    }
  }

  // ----- the first run leaves own items -----

  ghost predicate OwnOffset(r: seq<byte>, i: nat, k: nat, j: nat, l: nat)
    requires DefsInFile(r) && MethodAt(r, i, k) && MethodAt(r, j, l)
  {
    MethodOf(r, i, k).codeOff == MethodOf(r, j, l).codeOff ==> MethodOf(r, i, k).codeOff == 0
  }

  ghost predicate OffsetsOwn(r: seq<byte>)
    requires DefsInFile(r)
  {
    forall i: nat, k: nat, j: nat, l: nat :: MethodAt(r, i, k) && MethodAt(r, j, l) && (i != j || k != l) ==> OwnOffset(r, i, k, j, l)
  }

  lemma ReadsSameMethodAt(b: seq<byte>, r: seq<byte>, i: nat, k: nat)
    requires DefsInFile(b) && ReadsSame(b, r)
    ensures MethodAt(r, i, k) <==> MethodAt(b, i, k)
    ensures MethodAt(b, i, k) ==> MethodOf(r, i, k) == MethodOf(b, i, k)
  {
    hide MethodsOf, Le32, ReadsSame;
    SameDefsOf(b, r);
    if i < ClassDefsSize(b) {
      ReadsSameMethods(b, r, i);
    }
  }

  lemma ReadsSameOwn(b: seq<byte>, r: seq<byte>)
    requires DefsInFile(b) && ReadsSame(b, r)
    ensures OffsetsOwn(b) ==> OffsetsOwn(r)
  {
    hide MethodsOf, Le32, ReadsSame, MethodAt, MethodOf;
    SameDefsOf(b, r);
    forall i: nat, k: nat
      ensures MethodAt(r, i, k) <==> MethodAt(b, i, k)
      ensures MethodAt(b, i, k) ==> MethodOf(r, i, k) == MethodOf(b, i, k)
    {
      ReadsSameMethodAt(b, r, i, k);
    }
  }

  lemma RunsOwn(r: seq<byte>, moved: seq<PlannedClass>, pos: nat, mid: nat)
    requires InRuns(r, moved, pos, mid)
    ensures OffsetsOwn(r)
  {
    hide MethodsOf, Le32, Laid, Enumerates, MethodAt, MethodOf;
    forall i: nat, k: nat, j: nat, l: nat | MethodAt(r, i, k) && MethodAt(r, j, l) && (i != j || k != l)
      ensures OwnOffset(r, i, k, j, l)
    {
      RunsAreOwn(r, moved, pos, mid, i, k, j, l);
    }
  }

  /** A map whose rebuilding settles. */
  ghost predicate MapCanSettle(r: seq<byte>, replacements: seq<MapEntry>) {
    && ReadMap(r).Ok? && DistinctOffsets(ReadMap(r).value)
    && RunsApart(replacements) && RunsClear(ReadMap(r).value, replacements)
  }

  lemma ReadyCanSettle(r: seq<byte>, moved: seq<PlannedClass>, pos: nat, mid: nat)
    requires ReadyToSeal(r, moved, pos, mid)
    ensures mid <= U32_MAX && MapCanSettle(r, RunEntries(moved, mid)) && OffsetsOwn(r)
  {
    hide InRuns, OpenDex, ValidateIdBounds, ReadMap, MapTable, TablesEnd, CodeMapEntry, AllMethods, IndicesInRange,
      DistinctOffsets, OverlapsMap, OffsetsOwn, RunsApart, RunsClear;
    RunsOwn(r, moved, pos, mid);
    RunEntriesFit(r, moved, pos, mid);
    TwoRuns(ReadMap(r).value, CodeMapEntry(AllMethods(moved)), MapEntry(TYPE_CLASS_DATA, |moved|, mid), pos);
    HealthyRunDefs(r, moved, pos, mid);
  }

  lemma HealthyRunDefs(r: seq<byte>, moved: seq<PlannedClass>, pos: nat, mid: nat)
    requires InRuns(r, moved, pos, mid)
    ensures DefsInFile(r)
  {
  }

  function ReplacementsOf(outcome: Outcome): seq<MapEntry> {
    match outcome.relocated
    case Some(entries) => entries
    case None => []
  }

  lemma AppendedSettles(b: seq<byte>, captures: seq<Capture>, force: bool)
    requires WellFormed(b) && DefsInFile(b) && OffsetsUsable(b, ByMethod(captures), force)
    requires AppendMissing(b, captures, force).Ok?
    ensures var (r, outcome) := AppendMissing(b, captures, force).value;
            && MapCanSettle(r, ReplacementsOf(outcome))
            && DefsInFile(r) && (outcome.relocated.Some? ==> OffsetsOwn(r))
  {
    hide WellFormed, OpenDex, ValidateIdBounds, ReadMap, TablesEnd, PlanFrom, Relocate, OffsetsUsable, MapWellFormed,
      Apart, StraysApart, IndicesInRange, MapTable, MapClear, CountFate, CountPending, AllFates, NeedsRelocation, AllMethods,
      ReadyToSeal, RunEntries, ReadableClass, LiveCode, CodeOffset, OffsetsOwn, MapCanSettle, ProgramKept;
    var caps := ByMethod(captures);
    WellFormedIs(b);
    AppendedFinishable(b, captures, force);
    var (r, outcome) := AppendMissing(b, captures, force).value;
    var plan := PlanFrom(b, caps, force, 0).value;
    if NeedsRelocation(plan) {
      AppendedIsReady(b, captures, force);
      ReadyCanSettle(r, MovedPlan(b, plan), |b|, CodeEnd(b, plan));
    } else {
      WellFormedMapSettles(b);
    }
  }

  lemma WellFormedMapSettles(b: seq<byte>)
    requires MapWellFormed(b)
    ensures MapCanSettle(b, [])
  {
    hide ReadMap, MapTable, OverlapsMap, TablesEnd;
  }

  // ----- the second plan -----

  ghost predicate Synthesizable(f: seq<byte>, caps: Captures, force: bool, n: EncodedMethod)
    requires HasHeader(f)
  {
    && !HasNoBody(n.accessFlags) && n.methodIdx in caps
    && InsnsLen(f, n.codeOff) != Some(|caps[n.methodIdx].code| / 2)
    && SynthesizeCodeItem(f, n.methodIdx, n.accessFlags, caps[n.methodIdx], force).Ok?
  }

  /** Some record that does not fit its method's item could be made into one. */
  ghost predicate SomeSynthesizable(f: seq<byte>, captures: seq<Capture>, force: bool)
    requires DefsInFile(f)
  {
    exists i: nat, k: nat :: MethodAt(f, i, k) && Synthesizable(f, ByMethod(captures), force, MethodOf(f, i, k))
  }

  /** The method has an item, or a record, or needs neither. */
  ghost predicate AccountedFor(caps: Captures, n: EncodedMethod) {
    HasNoBody(n.accessFlags) || n.codeOff != 0 || n.methodIdx in caps
  }

  ghost predicate WholeOrNone(f: seq<byte>, n: EncodedMethod) {
    n.codeOff != 0 ==> InsnsLen(f, n.codeOff).Some? && CodeItemEnd(f, n.codeOff).Ok?
  }

  lemma SecondFate(f: seq<byte>, caps: Captures, force: bool, n: EncodedMethod)
    requires HasHeader(f) && WholeOrNone(f, n)
    ensures PlanMethod(f, caps, force, n).Ok?
    ensures PlanMethod(f, caps, force, n).value.1 == Unrecovered <==> !AccountedFor(caps, n)
    ensures PlanMethod(f, caps, force, n).value.1 == Synthesized <==> Synthesizable(f, caps, force, n)
  {
    hide InsnsLen, CodeItemEnd, SynthesizeCodeItem, HasNoBody;
    NoItemAtZero(f);
  }

  ghost predicate SomeOf(f: seq<byte>, caps: Captures, force: bool, ms: seq<EncodedMethod>)
    requires HasHeader(f)
  {
    exists k :: 0 <= k < |ms| && Synthesizable(f, caps, force, ms[k])
  }

  ghost predicate AllWhole(f: seq<byte>, ms: seq<EncodedMethod>) {
    forall k :: 0 <= k < |ms| ==> WholeOrNone(f, ms[k])
  }

  ghost predicate AllAccounted(caps: Captures, ms: seq<EncodedMethod>) {
    forall k :: 0 <= k < |ms| ==> AccountedFor(caps, ms[k])
  }

  /** No method has neither an item nor a record it needs. */
  ghost predicate NoneLost(f: seq<byte>, caps: Captures, i: nat)
    requires DefsInFile(f)
  {
    forall j :: i <= j < ClassDefsSize(f) ==> AllAccounted(caps, MethodsOf(f, j))
  }

  lemma {:induction false} SecondFates(f: seq<byte>, caps: Captures, force: bool, ms: seq<EncodedMethod>)
    requires HasHeader(f) && AllWhole(f, ms)
    ensures PlanMethods(f, caps, force, ms).Ok?
    ensures Unrecovered in PlanMethods(f, caps, force, ms).value.1 <==> !AllAccounted(caps, ms)
    ensures Synthesized in PlanMethods(f, caps, force, ms).value.1 <==> SomeOf(f, caps, force, ms)
    decreases |ms|
  {
    hide PlanMethod, Synthesizable, AccountedFor, WholeOrNone;
    if ms != [] {
      var tail := ms[1..];
      assert forall k :: 0 <= k < |tail| ==> tail[k] == ms[k + 1];
      SecondFate(f, caps, force, ms[0]);
      SecondFates(f, caps, force, tail);
      assert SomeOf(f, caps, force, ms) <==> Synthesizable(f, caps, force, ms[0]) || SomeOf(f, caps, force, tail) by {
        if SomeOf(f, caps, force, ms) {
          var k :| 0 <= k < |ms| && Synthesizable(f, caps, force, ms[k]);
          assert k > 0 ==> tail[k - 1] == ms[k];
        }
      }
      assert AllAccounted(caps, ms) <==> AccountedFor(caps, ms[0]) && AllAccounted(caps, tail) by {
        if AccountedFor(caps, ms[0]) && AllAccounted(caps, tail) {
          forall k | 0 <= k < |ms| ensures AccountedFor(caps, ms[k]) {
            assert k > 0 ==> tail[k - 1] == ms[k];
          }
        }
      }
    }
  }

  ghost predicate SomeFrom(f: seq<byte>, caps: Captures, force: bool, i: nat)
    requires DefsInFile(f)
  {
    exists j :: i <= j < ClassDefsSize(f) && SomeOf(f, caps, force, MethodsOf(f, j))
  }

  lemma {:induction false} SecondPlan(f: seq<byte>, caps: Captures, force: bool, i: nat)
    requires Healthy(f)
    requires forall j :: 0 <= j < ClassDefsSize(f) ==> AllWhole(f, MethodsOf(f, j))
    ensures PlanFrom(f, caps, force, i).Ok?
    ensures Unrecovered in AllFates(PlanFrom(f, caps, force, i).value) <==> !NoneLost(f, caps, i)
    ensures Synthesized in AllFates(PlanFrom(f, caps, force, i).value) <==> SomeFrom(f, caps, force, i)
    decreases ClassDefsSize(f) - i
  {
    hide ParseClassData, PlanMethods, Le32, AllAccounted, AllWhole, SomeOf, LiveCode, CodeOffset;
    if i < ClassDefsSize(f) {
      assert ReadableClass(f, i);
      SecondPlan(f, caps, force, i + 1);
      SecondFates(f, caps, force, MethodsOf(f, i));
      SomeFromNext(f, caps, force, i);
      LostFromNext(f, caps, i);
      if ClassDataOff(f, i) == 0 {
        NoneOfNone(f, caps, force);
      }
    }
  }

  lemma LostFromNext(f: seq<byte>, caps: Captures, i: nat)
    requires DefsInFile(f) && i < ClassDefsSize(f)
    ensures NoneLost(f, caps, i) <==> AllAccounted(caps, MethodsOf(f, i)) && NoneLost(f, caps, i + 1)
  {
    hide MethodsOf, Le32, AllAccounted;
    if AllAccounted(caps, MethodsOf(f, i)) && NoneLost(f, caps, i + 1) {
      forall j | i <= j < ClassDefsSize(f) ensures AllAccounted(caps, MethodsOf(f, j)) {
        assert j == i || i + 1 <= j;
      }
    }
  }

  lemma NoneOfNone(f: seq<byte>, caps: Captures, force: bool)
    requires HasHeader(f)
    ensures !SomeOf(f, caps, force, []) && AllAccounted(caps, [])
  {
  }

  lemma SomeFromNext(f: seq<byte>, caps: Captures, force: bool, i: nat)
    requires DefsInFile(f) && i < ClassDefsSize(f)
    ensures SomeFrom(f, caps, force, i) <==> SomeOf(f, caps, force, MethodsOf(f, i)) || SomeFrom(f, caps, force, i + 1)
  {
    hide MethodsOf, Le32, SomeOf;
    if SomeFrom(f, caps, force, i) {
      var j :| i <= j < ClassDefsSize(f) && SomeOf(f, caps, force, MethodsOf(f, j));
      assert j == i || i + 1 <= j;
    }
  }

  lemma SomeFromStart(f: seq<byte>, captures: seq<Capture>, force: bool)
    requires DefsInFile(f)
    ensures SomeFrom(f, ByMethod(captures), force, 0) <==> SomeSynthesizable(f, captures, force)
  {
    hide MethodsOf, Le32, Synthesizable, ByMethod;
    var caps := ByMethod(captures);
    if SomeFrom(f, caps, force, 0) {
      var j :| 0 <= j < ClassDefsSize(f) && SomeOf(f, caps, force, MethodsOf(f, j));
      var k :| 0 <= k < |MethodsOf(f, j)| && Synthesizable(f, caps, force, MethodsOf(f, j)[k]);
      assert MethodAt(f, j, k) && MethodOf(f, j, k) == MethodsOf(f, j)[k];
    }
    if SomeSynthesizable(f, captures, force) {
      var i: nat, k: nat :| MethodAt(f, i, k) && Synthesizable(f, caps, force, MethodOf(f, i, k));
      assert SomeOf(f, caps, force, MethodsOf(f, i));
    }
  }

  // ----- what the first run decided -----

  lemma {:induction false} FateAt(b: seq<byte>, caps: Captures, force: bool, ms: seq<EncodedMethod>, k: nat)
    requires HasHeader(b) && PlanMethods(b, caps, force, ms).Ok? && k < |ms|
    ensures PlanMethod(b, caps, force, ms[k]).Ok?
    ensures PlanMethod(b, caps, force, ms[k]).value.1 in PlanMethods(b, caps, force, ms).value.1
    decreases k
  {
    hide PlanMethod;
    if k > 0 {
      FateAt(b, caps, force, ms[1..], k - 1);
    }
  }

  lemma {:induction false} FirstFate(b: seq<byte>, caps: Captures, force: bool, i: nat, j: nat, k: nat)
    requires DefsInFile(b) && PlanFrom(b, caps, force, i).Ok? && i <= j && MethodAt(b, j, k)
    ensures PlanMethod(b, caps, force, MethodOf(b, j, k)).Ok?
    ensures PlanMethod(b, caps, force, MethodOf(b, j, k)).value.1 in AllFates(PlanFrom(b, caps, force, i).value)
    decreases j - i
  {
    hide ParseClassData, PlanMethods, PlanMethod, Le32;
    if i < j {
      FirstFate(b, caps, force, i + 1, j, k);
    } else {
      FateAt(b, caps, force, MethodsOf(b, i), k);
    }
  }

  lemma {:induction false} NoneCounted(fates: seq<Fate>, fate: Fate)
    requires CountFate(fates, fate) == 0
    ensures fate !in fates
    decreases |fates|
  {
    if fates != [] {
      NoneCounted(fates[1..], fate);
    }
  }

  /** What the outcome's counters say about one method. */
  lemma CountedFate(b: seq<byte>, captures: seq<Capture>, force: bool, j: nat, k: nat)
    requires DefsInFile(b) && AppendMissing(b, captures, force).Ok? && MethodAt(b, j, k)
    ensures var outcome, plan := AppendMissing(b, captures, force).value.1, PlanMethod(b, ByMethod(captures), force, MethodOf(b, j, k));
            && plan.Ok?
            && (outcome.unrecovered == 0 ==> plan.value.1 != Unrecovered)
            && (outcome.failed == 0 ==> plan.value.1 != Failed)
  {
    hide PlanFrom, PlanMethod, Relocate, CountFate, AllFates, MethodAt, MethodOf, NeedsRelocation, CountPending;
    var plan := PlanFrom(b, ByMethod(captures), force, 0).value;
    FirstFate(b, ByMethod(captures), force, 0, j, k);
    if CountFate(AllFates(plan), Unrecovered) == 0 {
      NoneCounted(AllFates(plan), Unrecovered);
    }
    if CountFate(AllFates(plan), Failed) == 0 {
      NoneCounted(AllFates(plan), Failed);
    }
  }

  /** A method that was not given up on has an item afterwards, unless it needs
      none or its record failed. */
  lemma KeptBodies(b: seq<byte>, captures: seq<Capture>, force: bool, m: EncodedMethod)
    requires WellFormed(b) && HasHeader(b) && MethodOffsets(b).Ok? && DefsInFile(b) && HasHeader(Applied(b, captures))
    requires m.codeOff == 0 || CodeOffset(b, m.codeOff)
    requires PlanMethod(Applied(b, captures), ByMethod(captures), force, m).Ok?
    ensures var fate := PlanMethod(Applied(b, captures), ByMethod(captures), force, m).value.1;
            && (fate != Unrecovered && !HasNoBody(m.accessFlags) && m.methodIdx !in ByMethod(captures) ==>
                  RepairedBody(b, captures, force, m).Some?)
            && (fate == Unrecovered ==>
                  !HasNoBody(m.accessFlags) && m.methodIdx !in ByMethod(captures) && RepairedBody(b, captures, force, m).None?)
  {
    hide WellFormed, MethodOffsets, Applied, RepairedBody, CodeItemEnd, InsnsLen, SynthesizeCodeItem, HasNoBody, CodeOffset, ByMethod;
    ExpectedIsRepaired(b, captures, force, m);
  }

  /** A record that did not fail fits the item its method ends up with. */
  lemma RecordFits(b: seq<byte>, captures: seq<Capture>, force: bool, m: EncodedMethod)
    requires WellFormed(b) && HasHeader(b) && MethodOffsets(b).Ok? && DefsInFile(b) && HasHeader(Applied(b, captures))
    requires m.codeOff == 0 || CodeOffset(b, m.codeOff)
    requires PlanMethod(Applied(b, captures), ByMethod(captures), force, m).Ok?
    requires PlanMethod(Applied(b, captures), ByMethod(captures), force, m).value.1 != Failed
    requires !HasNoBody(m.accessFlags) && m.methodIdx in ByMethod(captures)
    ensures var body := RepairedBody(b, captures, force, m);
            body.Some? && |body.value| >= 16 && InsnsLenOf(body.value) == |ByMethod(captures)[m.methodIdx].code| / 2
  {
    hide WellFormed, MethodOffsets, Applied, RepairedBody, CodeItemEnd, InsnsLen, SynthesizeCodeItem, HasNoBody, CodeOffset, ByMethod,
      CarriesRecord, Le32;
    ExpectedIsRepaired(b, captures, force, m);
    var c := Applied(b, captures);
    var caps := ByMethod(captures);
    if InsnsLen(c, m.codeOff) == Some(|caps[m.methodIdx].code| / 2) {
      ItemLen(c, m.codeOff);
    } else {
      SynthesizedCarries(c, m.methodIdx, m.accessFlags, captures, force);
      CarriesLong(captures, m.methodIdx, RepairedBody(b, captures, force, m).value);
    }
  }

  lemma CarriesLong(captures: seq<Capture>, idx: u32, item: seq<byte>)
    requires CarriesRecord(captures, idx, item)
    ensures |item| >= 16
  {
  }

  lemma ItemLen(b: seq<byte>, off: u32)
    requires CodeItemEnd(b, off).Ok?
    ensures var item := b[off..CodeItemEnd(b, off).value]; |item| >= 16 && InsnsLen(b, off) == Some(InsnsLenOf(item))
  {
    hide CodeItemEnd, Le32;
    SliceLe32(b, off, CodeItemEnd(b, off).value, 12);
  }

  lemma HeldLen(f: seq<byte>, n: EncodedMethod, item: seq<byte>, len: nat)
    requires |item| >= 16 && Carries(f, n, Some(Settled(item, len)))
    ensures n.codeOff != 0 && InsnsLen(f, n.codeOff).Some? ==> InsnsLen(f, n.codeOff).value == InsnsLenOf(item)
    ensures n.codeOff != 0 && InsnsLen(f, n.codeOff).Some?
  {
    hide Le32, CodeItemEnd;
    var s := Settled(item, len);
    HoldsSlice(f, n.codeOff, s, 12, 16);
    Le32Of(f, n.codeOff + 12, s, 12);
    assert s[12..16] == item[12..16];
    Le32Of(s, 12, item, 12);
  }

  // ----- the second run -----

  /** The first run, as the second one finds it. */
  ghost predicate FirstRun(b: seq<byte>, captures: seq<Capture>, force: bool, f: seq<byte>, len: nat)
    requires HasHeader(b) && MethodOffsets(b).Ok?
  {
    && WellFormed(b) && DefsInFile(b)
    && DefsInFile(Applied(b, captures)) && ReadsSame(b, Applied(b, captures))
    && AppendMissing(Applied(b, captures), captures, force).Ok?
    && DefsInFile(f) && SameClassDefs(b, f) && Healthy(f) && Apart(f)
    && ValidateIdBounds(f).Ok? && OpenDex(f).Ok? && ReadMap(f).Ok?
    && forall i :: 0 <= i < ClassDefsSize(b) ==> ClassRepaired(b, captures, force, f, len, i)
  }

  lemma RepairedMethodAt(b: seq<byte>, captures: seq<Capture>, force: bool, f: seq<byte>, len: nat, i: nat, k: nat)
    requires DefsInFile(b) && DefsInFile(f) && SameClassDefs(b, f) && MethodOffsets(b).Ok?
    requires i < ClassDefsSize(b) ==> ClassRepaired(b, captures, force, f, len, i)
    ensures MethodAt(f, i, k) <==> MethodAt(b, i, k)
    ensures MethodAt(b, i, k) ==> MethodRepaired(b, captures, force, MethodOf(b, i, k), f, MethodOf(f, i, k), len)
  {
    hide ParseClassData, Le32, MethodRepaired, SameLists, MethodOffsets;
  }

  lemma FirstRunMethod(b: seq<byte>, captures: seq<Capture>, force: bool, f: seq<byte>, len: nat, i: nat, k: nat)
    requires HasHeader(b) && MethodOffsets(b).Ok? && FirstRun(b, captures, force, f, len) && MethodAt(f, i, k)
    ensures MethodAt(b, i, k)
    ensures var outcome := AppendMissing(Applied(b, captures), captures, force).value.1;
            && (outcome.unrecovered == 0 ==> AccountedFor(ByMethod(captures), MethodOf(f, i, k)))
            && (PlanMethod(Applied(b, captures), ByMethod(captures), force, MethodOf(b, i, k)).Ok?)
            && (PlanMethod(Applied(b, captures), ByMethod(captures), force, MethodOf(b, i, k)).value.1 == Unrecovered ==>
                  !AccountedFor(ByMethod(captures), MethodOf(f, i, k)))
            && (outcome.failed == 0 ==> !Synthesizable(f, ByMethod(captures), force, MethodOf(f, i, k)))
  {
    hide WellFormed, MethodOffsets, ClassRepaired, Healthy, Apart, ValidateIdBounds, OpenDex, ReadMap, ReadsSame, AppendMissing,
      RepairedBody, Le32, Applied, PlanMethod, HasNoBody, ByMethod, InsnsLen, SynthesizeCodeItem, Settled, MethodsOf, CodeOffset, CodeItemEnd;
    var c := Applied(b, captures);
    RepairedMethodAt(b, captures, force, f, len, i, k);
    ReadsSameMethodAt(b, c, i, k);
    var m, n := MethodOf(b, i, k), MethodOf(f, i, k);
    CountedFate(c, captures, force, i, k);
    OffsetOrZero(b, i, k);
    KeptBodies(b, captures, force, m);
    if !HasNoBody(n.accessFlags) && n.methodIdx in ByMethod(captures)
       && PlanMethod(c, ByMethod(captures), force, m).value.1 != Failed {
      RecordFits(b, captures, force, m);
      HeldLen(f, n, RepairedBody(b, captures, force, m).value, len);
    }
  }

  lemma HealthyWhole(f: seq<byte>, i: nat, k: nat)
    requires Healthy(f) && MethodAt(f, i, k)
    ensures WholeOrNone(f, MethodOf(f, i, k))
  {
    hide Le32, CodeItemEnd, InsnsLen, CodeOffset, ReadableClass, MethodsOf;
    if MethodOf(f, i, k).codeOff != 0 {
      MethodHasOffset(f, i, k);
      assert LiveCode(f, MethodOf(f, i, k).codeOff);
    }
  }

  lemma {:induction false} FateBack(b: seq<byte>, caps: Captures, force: bool, ms: seq<EncodedMethod>, fate: Fate) returns (k: nat)
    requires HasHeader(b) && PlanMethods(b, caps, force, ms).Ok? && fate in PlanMethods(b, caps, force, ms).value.1
    ensures k < |ms| && PlanMethod(b, caps, force, ms[k]).Ok? && PlanMethod(b, caps, force, ms[k]).value.1 == fate
    decreases |ms|
  {
    hide PlanMethod;
    if PlanMethod(b, caps, force, ms[0]).value.1 == fate {
      k := 0;
    } else {
      var rest := FateBack(b, caps, force, ms[1..], fate);
      k := rest + 1;
    }
  }

  lemma {:induction false} FirstFateBack(b: seq<byte>, caps: Captures, force: bool, i: nat, fate: Fate) returns (j: nat, k: nat)
    requires Sound(b) && PlanFrom(b, caps, force, i).Ok? && fate in AllFates(PlanFrom(b, caps, force, i).value)
    ensures MethodAt(b, j, k)
    ensures PlanMethod(b, caps, force, MethodOf(b, j, k)).Ok? && PlanMethod(b, caps, force, MethodOf(b, j, k)).value.1 == fate
    decreases ClassDefsSize(b) - i
  {
    hide ParseClassData, PlanMethods, PlanMethod, Le32, LiveCode, CodeItemEnd;
    var plan := PlanFrom(b, caps, force, i).value;
    if ClassDataOff(b, i) == 0 || fate !in PlanMethods(b, caps, force, MethodsOf(b, i)).value.1 {
      j, k := FirstFateBack(b, caps, force, i + 1, fate);
    } else {
      j := i;
      k := FateBack(b, caps, force, MethodsOf(b, i), fate);
    }
  }

  lemma {:induction false} SomeCounted(fates: seq<Fate>, fate: Fate)
    requires CountFate(fates, fate) != 0
    ensures fate in fates
    decreases |fates|
  {
    if fates[0] != fate {
      SomeCounted(fates[1..], fate);
    }
  }

  /** A method counted as unrecovered. */
  lemma CountedLost(b: seq<byte>, captures: seq<Capture>, force: bool) returns (j: nat, k: nat)
    requires Sound(b) && AppendMissing(b, captures, force).Ok? && AppendMissing(b, captures, force).value.1.unrecovered != 0
    ensures MethodAt(b, j, k)
    ensures PlanMethod(b, ByMethod(captures), force, MethodOf(b, j, k)).Ok?
    ensures PlanMethod(b, ByMethod(captures), force, MethodOf(b, j, k)).value.1 == Unrecovered
  {
    hide PlanFrom, PlanMethod, Relocate, CountFate, AllFates, MethodAt, MethodOf, NeedsRelocation, CountPending, ReadableClass, LiveCode,
      CodeItemEnd;
    var plan := PlanFrom(b, ByMethod(captures), force, 0).value;
    SomeCounted(AllFates(plan), Unrecovered);
    j, k := FirstFateBack(b, ByMethod(captures), force, 0, Unrecovered);
  }

  lemma FirstRunAccounted(b: seq<byte>, captures: seq<Capture>, force: bool, f: seq<byte>, len: nat)
    requires HasHeader(b) && MethodOffsets(b).Ok? && FirstRun(b, captures, force, f, len)
    ensures var outcome := AppendMissing(Applied(b, captures), captures, force).value.1;
            && (outcome.unrecovered == 0 ==> NoneLost(f, ByMethod(captures), 0))
            && (outcome.failed == 0 ==> !SomeSynthesizable(f, captures, force))
    ensures forall j :: 0 <= j < ClassDefsSize(f) ==> AllWhole(f, MethodsOf(f, j))
  {
    hide WellFormed, MethodOffsets, ClassRepaired, Apart, ValidateIdBounds, OpenDex, ReadMap, ReadsSame, AppendMissing,
      Le32, Applied, ByMethod, MethodsOf, Synthesizable, AccountedFor, WholeOrNone, OffsetsOwn, LiveCode, ReadableClass, PlanMethod;
    forall j, k | 0 <= j < ClassDefsSize(f) && 0 <= k < |MethodsOf(f, j)|
      ensures WholeOrNone(f, MethodsOf(f, j)[k])
      ensures AppendMissing(Applied(b, captures), captures, force).value.1.unrecovered == 0 ==>
                AccountedFor(ByMethod(captures), MethodsOf(f, j)[k])
      ensures AppendMissing(Applied(b, captures), captures, force).value.1.failed == 0 ==>
                !Synthesizable(f, ByMethod(captures), force, MethodsOf(f, j)[k])
    {
      HealthyWhole(f, j, k);
      FirstRunMethod(b, captures, force, f, len, j, k);
    }
  }

  /** A method the first run gave up on stays lost. */
  lemma FirstRunLost(b: seq<byte>, captures: seq<Capture>, force: bool, f: seq<byte>, len: nat)
    requires HasHeader(b) && MethodOffsets(b).Ok? && FirstRun(b, captures, force, f, len) && Sound(Applied(b, captures))
    requires AppendMissing(Applied(b, captures), captures, force).value.1.unrecovered != 0
    ensures !NoneLost(f, ByMethod(captures), 0)
  {
    hide WellFormed, MethodOffsets, ClassRepaired, Apart, ValidateIdBounds, OpenDex, ReadMap, ReadsSame, AppendMissing,
      Le32, Applied, ByMethod, MethodsOf, AccountedFor, LiveCode, ReadableClass, PlanMethod, Healthy, CodeItemEnd, Synthesizable;
    var j, k := CountedLost(Applied(b, captures), captures, force);
    ReadsSameMethodAt(b, Applied(b, captures), j, k);
    RepairedMethodAt(b, captures, force, f, len, j, k);
    FirstRunMethod(b, captures, force, f, len, j, k);
    assert !AccountedFor(ByMethod(captures), MethodsOf(f, j)[k]);
  }

  /** The first run leaves what the second needs, and its finish is settled. */
  lemma FirstRunIs(b: seq<byte>, captures: seq<Capture>, force: bool, digests: Digests)
    requires WellFormed(b) && DefsInFile(b) && Recoverable(b, captures, force)
    requires RepairOne(b, captures, force, digests).Ok?
    ensures
      var f := RepairOne(b, captures, force, digests).value.0;
      && AppendMissing(Applied(b, captures), captures, force).Ok?
      && RepairOne(b, captures, force, digests).value.1 == AppendMissing(Applied(b, captures), captures, force).value.1
      && FirstRun(b, captures, force, f, |AppendMissing(Applied(b, captures), captures, force).value.0|)
      && Finish(f, None, digests) == Ok(f)
  {
    hide WellFormed, OpenDex, ValidateIdBounds, ReadMap, OffsetsUsable, MethodOffsets, Applied, AppendMissing, Finish, RepairOne,
      Apart, ClassRepaired, SameTables, OnlyInsns, LenOf, Insns, LastFit, LiveCode, CodeOffset,
      Replacing, MapWellFormed, StraysApart, IndicesInRange, ReadsSame, Finishable, MapCanSettle, ReplacementsOf, ReadableClass, ProgramKept;
    var c := Applied(b, captures);
    AppliedIs(b, captures);
    WellFormedIs(b);
    RepairOneIs(b, captures, force, digests);
    RepairKeepsProgram(b, captures, force, digests);
    AppendedFinishable(c, captures, force);
    AppendedSettles(c, captures, force);
    var (r, outcome) := AppendMissing(c, captures, force).value;
    SettleFinish(r, outcome, digests);
    HealthyDefs(Finish(r, outcome.relocated, digests).value);
  }

  lemma SettleFinish(r: seq<byte>, outcome: Outcome, digests: Digests)
    requires Finishable(r) && Finish(r, outcome.relocated, digests).Ok?
    requires Replacing(outcome.relocated, if outcome.relocated.Some? then outcome.relocated.value else [], |r|)
    requires MapCanSettle(r, ReplacementsOf(outcome))
    ensures DefsInFile(r)
    ensures var f := Finish(r, outcome.relocated, digests).value;
            && Finish(f, None, digests) == Ok(f)
            && Healthy(f) && Apart(f) && ValidateIdBounds(f).Ok? && OpenDex(f).Ok? && ReadMap(f).Ok?
            && ReadsSame(r, f)
  {
    hide OpenDex, ValidateIdBounds, ReadMap, Finish, Apart, Replacing, RunsApart, RunsClear, DistinctOffsets, MapClear, ReadsSame,
      LiveCode, CodeOffset, ReadableClass;
    FinishSettles(r, outcome.relocated, ReplacementsOf(outcome), digests);
  }

  lemma {:induction false} EmitClassesLonger(c: seq<byte>, plan: seq<PlannedClass>)
    requires EmitClasses(c, plan).Ok? && plan != []
    ensures |c| < |EmitClasses(c, plan).value|
  {
    hide EmitClass;
    var c1 := EmitClass(c, plan[0]).value;
  }

  /** Relocation makes the file longer. */
  lemma RelocationGrows(f: seq<byte>, captures: seq<Capture>, force: bool)
    requires HasHeader(f) && AppendMissing(f, captures, force).Ok?
    requires PlanFrom(f, ByMethod(captures), force, 0).Ok? && NeedsRelocation(PlanOf(f, captures, force))
    ensures AppendMissing(f, captures, force).value.1.relocated.Some?
    ensures |f| < |AppendMissing(f, captures, force).value.0|
  {
    hide PlanFrom, ReadMap, RetiredRanges, EmitBodies, EmitClasses, ZeroRanges, AllMethods, CodeMapEntry, CountFate, AllFates, CountPending,
      NeedsRelocation;
    var plan := PlanOf(f, captures, force);
    NeedsClasses(plan);
    var (withCode, moved) := EmitBodies(f, plan).value;
    PrefixShorter(f, withCode);
    EmitClassesLonger(withCode, moved);
  }

  lemma PrefixShorter(b: seq<byte>, c: seq<byte>)
    requires b <= c
    ensures |b| <= |c|
  {
  }

  lemma FinishNotShorter(b: seq<byte>, entries: seq<MapEntry>, digests: Digests)
    requires Finish(b, Some(entries), digests).Ok?
    ensures |b| <= |Finish(b, Some(entries), digests).value|
  {
    hide FixFormat, ReadMap, MapTable, Validate, Substitute, OverlapsMap, NewEntries, EncodeMap, TablesEnd, Le32, Align4;
    FixFormatLength(b);
  }

  /** Running the repair on its own result, when its records are in place. */
  lemma SecondRun(f: seq<byte>, captures: seq<Capture>, force: bool, digests: Digests)
    requires Healthy(f) && ValidateIdBounds(f).Ok? && OpenDex(f).Ok? && ReadMap(f).Ok?
    requires MethodOffsets(f).Ok? && Applied(f, captures) == f && Finish(f, None, digests) == Ok(f)
    requires forall j :: 0 <= j < ClassDefsSize(f) ==> AllWhole(f, MethodsOf(f, j))
    ensures (RepairOne(f, captures, force, digests).Ok? && RepairOne(f, captures, force, digests).value.0 == f)
            <==> NoneLost(f, ByMethod(captures), 0) && !SomeSynthesizable(f, captures, force)
  {
    hide OpenDex, ValidateIdBounds, ReadMap, MethodOffsets, Applied, Finish, RepairOne, SomeSynthesizable, AllWhole, MethodsOf, PlanFrom, NoneLost,
      Relocate, AllFates, CountFate, CountPending, SomeFrom, LiveCode, CodeOffset, ReadableClass;
    var caps := ByMethod(captures);
    SecondPlan(f, caps, force, 0);
    SomeFromStart(f, captures, force);
    RepairOneIs(f, captures, force, digests);
    if NeedsRelocation(PlanOf(f, captures, force)) && AppendMissing(f, captures, force).Ok? {
      RelocationGrows(f, captures, force);
      var (r, outcome) := AppendMissing(f, captures, force).value;
      if Finish(r, outcome.relocated, digests).Ok? {
        FinishNotShorter(r, outcome.relocated.value, digests);
      }
    }
  }
}
