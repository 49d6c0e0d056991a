/**
  Methods that keep a code offset leading nowhere: one that is not aligned makes
  a relocating repair fail, and where no other kind is left, repair is decided
  beforehand.
 */
module StaleOffsets {
  import opened Bytes
  import opened Dex
  import opened ClassData
  import opened CodeItem
  import opened MapList
  import opened Synthesis
  import opened Relocation
  import opened RelocationProofs
  import opened Relocated
  import opened Live
  import opened FormatProofs
  import opened InPlace
  import opened Validator
  import opened Repair
  import opened Sealing
  import opened RepairProofs
  import opened GrownLength
  import opened RepairTheorems
  import opened Unshared
  import opened Idempotence

  /** A method to be copied from disk has an aligned offset. */
  predicate Aligned(m: EncodedMethod) {
    m.pending == None ==> m.codeOff % 4 == 0
  }

  lemma {:induction false} EmittedAreAligned(c: seq<byte>, ms: seq<EncodedMethod>)
    requires EmitMethods(c, ms).Ok?
    ensures forall m :: m in ms ==> Aligned(m)
    decreases |ms|
  {
    hide CodeItemEnd;
    if ms != [] {
      EmittedIsAligned(c, ms[0]);
      EmittedAreAligned(EmitMethod(c, ms[0]).value.0, ms[1..]);
      assert forall m :: m in ms <==> m == ms[0] || m in ms[1..];
    }
  }

  lemma EmittedIsAligned(c: seq<byte>, m: EncodedMethod)
    requires EmitMethod(c, m).Ok?
    ensures Aligned(m)
  {
    hide InsnsLen, TriesEnd, Align4;
  }

  lemma {:induction false} PlanIsAligned(c: seq<byte>, plan: seq<PlannedClass>)
    requires EmitBodies(c, plan).Ok?
    ensures forall m :: m in AllMethods(plan) ==> Aligned(m)
    decreases |plan|
  {
    hide EmitMethods, Aligned;
    if plan != [] {
      var ms := plan[0].item.Methods();
      EmittedAreAligned(c, ms);
      PlanIsAligned(EmitMethods(c, ms).value.0, plan[1..]);
      assert forall m :: m in AllMethods(plan) <==> m in ms || m in AllMethods(plan[1..]);
    }
  }

  // ----- planned methods -----

  lemma {:induction false} PlannedIn(b: seq<byte>, caps: Captures, force: bool, ms: seq<EncodedMethod>, k: nat)
    requires HasHeader(b) && PlanMethods(b, caps, force, ms).Ok? && k < |ms|
    ensures PlanMethod(b, caps, force, ms[k]).Ok?
    ensures PlanMethod(b, caps, force, ms[k]).value.0 in PlanMethods(b, caps, force, ms).value.0
    decreases k
  {
    hide PlanMethod;
    if k > 0 {
      PlannedIn(b, caps, force, ms[1..], k - 1);
    }
  }

  lemma {:induction false} PlannedInClass(b: seq<byte>, caps: Captures, force: bool, i: nat, j: nat, k: nat)
    requires DefsInFile(b) && PlanFrom(b, caps, force, i).Ok? && i <= j && MethodAt(b, j, k)
    ensures PlanMethod(b, caps, force, MethodOf(b, j, k)).Ok?
    ensures PlanMethod(b, caps, force, MethodOf(b, j, k)).value.0 in AllMethods(PlanFrom(b, caps, force, i).value)
    decreases j - i
  {
    hide ParseClassData, PlanMethods, PlanMethod, Le32;
    if i < j {
      PlannedInClass(b, caps, force, i + 1, j, k);
    } else {
      PlannedIn(b, caps, force, MethodsOf(b, i), k);
    }
  }

  /** A method that keeps an unusable offset keeps it through planning. */
  lemma KeptThrough(b: seq<byte>, caps: Captures, force: bool, m: EncodedMethod)
    requires HasHeader(b) && m.pending == None && PlanMethod(b, caps, force, m).Ok? && !KeepsUsable(b, caps, force, m)
    ensures PlanMethod(b, caps, force, m).value.0 == m
  {
    hide InsnsLen, CodeItemEnd, SynthesizeCodeItem, HasNoBody;
  }

  // ----- what decides -----

  /** Every offset kept is usable, none, or not aligned. */
  ghost predicate OffsetsDecided(b: seq<byte>, captures: Captures, force: bool)
    requires DefsInFile(b)
  {
    forall i: nat, k: nat :: MethodAt(b, i, k) ==>
      KeepsUsable(b, captures, force, MethodOf(b, i, k)) || MethodOf(b, i, k).codeOff % 4 != 0
  }

  lemma AllUsable(b: seq<byte>, captures: Captures, force: bool)
    requires DefsInFile(b)
    requires forall i: nat, k: nat :: MethodAt(b, i, k) ==> KeepsUsable(b, captures, force, MethodOf(b, i, k))
    ensures OffsetsUsable(b, captures, force)
  {
    hide KeepsUsable, ParseClassData, Le32;
    forall i | 0 <= i < ClassDefsSize(b) ensures ClassUsable(b, captures, force, i) {
      var ms := MethodsOf(b, i);
      forall k | 0 <= k < |ms| ensures KeepsUsable(b, captures, force, ms[k]) {
        assert MethodAt(b, i, k) && MethodOf(b, i, k) == ms[k];
      }
    }
  }

  /** A relocating bytecode step that succeeds copied no unaligned offset. */
  lemma AppendedUsable(b: seq<byte>, captures: seq<Capture>, force: bool)
    requires Sound(b) && OffsetsDecided(b, ByMethod(captures), force)
    requires PlanFrom(b, ByMethod(captures), force, 0).Ok? && NeedsRelocation(PlanOf(b, captures, force))
    requires AppendMissing(b, captures, force).Ok?
    ensures OffsetsUsable(b, ByMethod(captures), force)
  {
    hide PlanFrom, ReadMap, RetiredRanges, EmitBodies, EmitClasses, ZeroRanges, AllMethods, CodeMapEntry, CountFate, AllFates, CountPending,
      NeedsRelocation, KeepsUsable, PlanMethod, MethodOf, MethodAt, LiveCode, CodeItemEnd, ReadableClass, OffsetsUsable;
    var caps, plan := ByMethod(captures), PlanOf(b, captures, force);
    PlanIsAligned(b, plan);
    forall i: nat, k: nat | MethodAt(b, i, k) ensures KeepsUsable(b, caps, force, MethodOf(b, i, k)) {
      var m := MethodOf(b, i, k);
      PlannedInClass(b, caps, force, 0, i, k);
      ParsedNotPending(b, i, k);
      assert Aligned(PlanMethod(b, caps, force, m).value.0);
      if !KeepsUsable(b, caps, force, m) {
        KeptThrough(b, caps, force, m);
      }
    }
    AllUsable(b, caps, force);
  }

  lemma ParsedNotPending(b: seq<byte>, i: nat, k: nat)
    requires Sound(b) && MethodAt(b, i, k)
    ensures MethodOf(b, i, k).pending == None
  {
    hide ParseClassData, Le32, LiveCode, CodeItemEnd, FieldsAscend, MethodsAscend;
    assert ReadableClass(b, i);
    ParsedIsEncodable(b, ClassDataOff(b, i));
    EncodableHasNothingPending(ParseClassData(b, ClassDataOff(b, i)).value.0);
  }

  /** Repair is decided beforehand: a well-formed file that needs relocation, and
      whose kept offsets are usable, none or unaligned, is repaired exactly when
      none of them is unaligned and the result can be addressed with 32 bits. */
  lemma RepairIsDecided(b: seq<byte>, captures: seq<Capture>, force: bool, digests: Digests)
    requires WellFormed(b) && Relocates(b, captures, force)
    requires DefsInFile(Applied(b, captures)) && OffsetsDecided(Applied(b, captures), ByMethod(captures), force)
    ensures RepairOne(b, captures, force, digests).Ok?
            <==> Recoverable(b, captures, force) && RepairedLength(b, captures, force) <= U32_MAX
  {
    hide WellFormed, OpenDex, ValidateIdBounds, ReadMap, PlanFrom, OffsetsUsable, NeedsRelocation, Applied, MethodOffsets,
      Finish, AppendMissing, RepairOne, PlanOf, OnlyInsns, LenOf, Insns, LastFit, LiveCode, ReadsSame, SameTables, MapWellFormed,
      IndicesInRange, Sound, Apart, StraysApart, MapClear, MapTable, RetiredAbove, TablesEnd, OffsetsDecided, FinalLength;
    var c := Applied(b, captures);
    AppliedIs(b, captures);
    WellFormedIs(b);
    WellFormedIs(c);
    RepairOneIs(b, captures, force, digests);
    if RepairOne(b, captures, force, digests).Ok? {
      AppendedUsable(c, captures, force);
    }
    if Recoverable(b, captures, force) {
      RepairValidates(b, captures, force, digests);
    }
  }
}
