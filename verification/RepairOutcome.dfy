/**
  What the bytecode step reports: how many methods it refilled, gave up, and could
  not recover, and whether it moved anything, counted method by method.
 */
module RepairOutcome {
  import opened Bytes
  import opened Dex
  import opened ClassData
  import opened CodeItem
  import opened MapList
  import opened Synthesis
  import opened Relocation
  import opened RelocationProofs
  import opened Live

  // ----- the records that count -----

  /** Record `j` is the last one for its method. */
  ghost predicate LastRecord(captures: seq<Capture>, j: nat) {
    j < |captures| && forall k :: j < k < |captures| ==> captures[k].methodIdx != captures[j].methodIdx
  }

  lemma {:induction false} RecordOf(captures: seq<Capture>, idx: u32) returns (j: nat)
    ensures idx in ByMethod(captures) ==>
              LastRecord(captures, j) && captures[j].methodIdx == idx && ByMethod(captures)[idx] == captures[j]
    ensures idx !in ByMethod(captures) ==> forall k :: 0 <= k < |captures| ==> captures[k].methodIdx != idx
    decreases |captures|
  {
    j := 0;
    if captures != [] {
      var n := |captures| - 1;
      var init := captures[..n];
      assert forall k :: 0 <= k < n ==> init[k] == captures[k];
      j := RecordOf(init, idx);
      if captures[n].methodIdx == idx {
        j := n;
      } else if idx in ByMethod(captures) {
        forall k | j < k < |captures| ensures captures[k].methodIdx != idx {
          assert k < n ==> init[k].methodIdx != idx;
        }
      } else {
        forall k | 0 <= k < |captures| ensures captures[k].methodIdx != idx {
          assert k < n ==> init[k].methodIdx != idx;
        }
      }
    }
  }

  /** A method has a record exactly if some capture names it, and then it is the
      last that does. */
  lemma ByMethodIs(captures: seq<Capture>, idx: u32)
    ensures idx in ByMethod(captures) <==> exists j: nat :: LastRecord(captures, j) && captures[j].methodIdx == idx
    ensures forall j: nat :: LastRecord(captures, j) && captures[j].methodIdx == idx ==> ByMethod(captures)[idx] == captures[j]
  {
    hide ByMethod;
    var i := RecordOf(captures, idx);
    if idx in ByMethod(captures) {
      forall j: nat | LastRecord(captures, j) && captures[j].methodIdx == idx ensures j == i {
      }
    }
  }

  // ----- counting methods -----

  /** A method that should have code can have lost it for good, be refilled from a
      record that does not fit what it has, or be given up because such a record
      makes no item. */
  datatype Lot = Lost | Refilled | GivenUp

  ghost predicate Falls(b: seq<byte>, captures: Captures, force: bool, lot: Lot, m: EncodedMethod)
    requires HasHeader(b)
  {
    && m.accessFlags / 0x100 % 2 == 0 && m.accessFlags / 0x400 % 2 == 0
    && if lot.Lost? then InsnsLen(b, m.codeOff).None? && m.methodIdx !in captures
       else
         && m.methodIdx in captures && InsnsLen(b, m.codeOff) != Some(|captures[m.methodIdx].code| / 2)
         && (SynthesizeCodeItem(b, m.methodIdx, m.accessFlags, captures[m.methodIdx], force).Ok? <==> lot.Refilled?)
  }

  ghost function HowMany(b: seq<byte>, captures: Captures, force: bool, lot: Lot, ms: seq<EncodedMethod>): nat
    requires HasHeader(b)
  {
    if ms == [] then 0
    else (if Falls(b, captures, force, lot, ms[0]) then 1 else 0) + HowMany(b, captures, force, lot, ms[1..])
  }

  /** How many methods, from class `i` on, meet this lot. */
  ghost function Tally(b: seq<byte>, captures: Captures, force: bool, lot: Lot, i: nat): nat
    requires DefsInFile(b)
    decreases ClassDefsSize(b) - i
  {
    if i >= ClassDefsSize(b) then 0
    else HowMany(b, captures, force, lot, MethodsOf(b, i)) + Tally(b, captures, force, lot, i + 1)
  }

  function FateOf(lot: Lot): Fate {
    match lot
    case Lost => Unrecovered
    case Refilled => Synthesized
    case GivenUp => Failed
  }

  lemma FallsIs(b: seq<byte>, captures: Captures, force: bool, m: EncodedMethod, lot: Lot)
    requires HasHeader(b) && PlanMethod(b, captures, force, m).Ok? && m.pending == None
    ensures var (n, fate) := PlanMethod(b, captures, force, m).value;
            (fate == FateOf(lot) <==> Falls(b, captures, force, lot, m)) && (n.pending.Some? <==> fate == Synthesized)
  {
    hide SynthesizeCodeItem, InsnsLen, CodeItemEnd;
  }

  lemma {:induction false} CountJoin(xs: seq<Fate>, ys: seq<Fate>, fate: Fate)
    ensures CountFate(xs + ys, fate) == CountFate(xs, fate) + CountFate(ys, fate)
    decreases |xs|
  {
    if xs == [] {
      assert xs + ys == ys;
    } else {
      assert (xs + ys)[1..] == xs[1..] + ys;
      CountJoin(xs[1..], ys, fate);
    }
  }

  lemma {:induction false} PendingJoin(xs: seq<EncodedMethod>, ys: seq<EncodedMethod>)
    ensures CountPending(xs + ys) == CountPending(xs) + CountPending(ys)
    decreases |xs|
  {
    if xs == [] {
      assert xs + ys == ys;
    } else {
      assert (xs + ys)[1..] == xs[1..] + ys;
      PendingJoin(xs[1..], ys);
    }
  }

  ghost predicate NonePending(ms: seq<EncodedMethod>) {
    forall k :: 0 <= k < |ms| ==> ms[k].pending == None
  }

  lemma {:induction false} MethodsTally(b: seq<byte>, captures: Captures, force: bool, ms: seq<EncodedMethod>, lot: Lot)
    requires HasHeader(b) && NonePending(ms) && PlanMethods(b, captures, force, ms).Ok?
    ensures var (ns, fates) := PlanMethods(b, captures, force, ms).value;
            && CountFate(fates, FateOf(lot)) == HowMany(b, captures, force, lot, ms)
            && CountPending(ns) == CountFate(fates, Synthesized)
    decreases |ms|
  {
    hide PlanMethod, Falls;
    if ms != [] {
      FallsIs(b, captures, force, ms[0], lot);
      assert forall k :: 0 <= k < |ms[1..]| ==> ms[1..][k] == ms[k + 1];
      MethodsTally(b, captures, force, ms[1..], lot);
      var (n, fate) := PlanMethod(b, captures, force, ms[0]).value;
      var (ns, fates) := PlanMethods(b, captures, force, ms[1..]).value;
      CountFirst(fate, fates, FateOf(lot));
      CountFirst(fate, fates, Synthesized);
      PendingFirst(n, ns);
    }
  }

  lemma CountFirst(fate: Fate, fates: seq<Fate>, f: Fate)
    ensures CountFate([fate] + fates, f) == (if fate == f then 1 else 0) + CountFate(fates, f)
  {
    assert ([fate] + fates)[1..] == fates;
  }

  lemma PendingFirst(m: EncodedMethod, ms: seq<EncodedMethod>)
    ensures CountPending([m] + ms) == (if m.pending.Some? then 1 else 0) + CountPending(ms)
  {
    assert ([m] + ms)[1..] == ms;
  }

  /** Parsed class data has nothing pending. */
  lemma ParsedPending(b: seq<byte>, off: nat)
    requires ParseClassData(b, off).Ok?
    ensures NonePending(ParseClassData(b, off).value.0.Methods())
  {
    hide ReadCounts, ReadFields, ReadMethods;
    ParsedIsEncodable(b, off);
    hide ParseClassData;
    EncodablePending(ParseClassData(b, off).value.0);
  }

  lemma EncodablePending(c: ClassItem)
    requires Encodable(c)
    ensures NonePending(c.Methods())
  {
    hide FieldsAscend, MethodsAscend;
  }

  /** The fates of a plan, counted, are the methods that meet each lot. */
  lemma {:induction false} PlanTallies(b: seq<byte>, captures: Captures, force: bool, i: nat, lot: Lot)
    requires DefsInFile(b) && PlanFrom(b, captures, force, i).Ok?
    ensures var plan := PlanFrom(b, captures, force, i).value;
            && CountFate(AllFates(plan), FateOf(lot)) == Tally(b, captures, force, lot, i)
            && CountPending(AllMethods(plan)) == CountFate(AllFates(plan), Synthesized)
    decreases ClassDefsSize(b) - i
  {
    hide ParseClassData, PlanMethods, CountFate, CountPending, HowMany, Le32, FateOf, ClassDefAt;
    if i >= ClassDefsSize(b) {
      NothingCounted(FateOf(lot));
      NothingCounted(Synthesized);
    } else if ClassDataOff(b, i) == 0 {
      NoMethods(b, captures, force, lot);
      PlanTallies(b, captures, force, i + 1, lot);
    } else {
      var (item, end) := ParseClassData(b, ClassDataOff(b, i)).value;
      ParsedPending(b, ClassDataOff(b, i));
      MethodsTally(b, captures, force, item.Methods(), lot);
      PlanTallies(b, captures, force, i + 1, lot);
      var (ms, fates) := PlanMethods(b, captures, force, item.Methods()).value;
      var rest := PlanFrom(b, captures, force, i + 1).value;
      PlanHead(b, item, ms, fates, ClassDefAt(b, i), rest, FateOf(lot));
      PlanHead(b, item, ms, fates, ClassDefAt(b, i), rest, Synthesized);
    }
  }

  lemma NothingCounted(fate: Fate)
    ensures CountFate([], fate) == 0 && CountPending([]) == 0
  {
  }

  lemma NoMethods(b: seq<byte>, captures: Captures, force: bool, lot: Lot)
    requires HasHeader(b)
    ensures HowMany(b, captures, force, lot, []) == 0
  {
  }

  lemma PlanHead(
    b: seq<byte>, item: ClassItem, ms: seq<EncodedMethod>, fates: seq<Fate>, at: nat, rest: seq<PlannedClass>, fate: Fate)
    requires |ms| == |item.Methods()|
    ensures var plan := [PlannedClass(at, item.WithMethods(ms), fates)] + rest;
            && CountFate(AllFates(plan), fate) == CountFate(fates, fate) + CountFate(AllFates(rest), fate)
            && CountPending(AllMethods(plan)) == CountPending(ms) + CountPending(AllMethods(rest))
  {
    hide CountFate, CountPending;
    var plan := [PlannedClass(at, item.WithMethods(ms), fates)] + rest;
    assert plan[1..] == rest && plan[0].item.Methods() == ms;
    CountJoin(fates, AllFates(rest), fate);
    PendingJoin(ms, AllMethods(rest));
  }

  // ----- when the steps give up -----

  /** Every method with a body has a whole item, unless it has none in the file. */
  ghost predicate BodiesWhole(b: seq<byte>, ms: seq<EncodedMethod>) {
    forall k :: 0 <= k < |ms| ==> BodyWhole(b, ms[k])
  }

  ghost predicate BodyWhole(b: seq<byte>, m: EncodedMethod) {
    m.accessFlags / 0x100 % 2 == 0 && m.accessFlags / 0x400 % 2 == 0 && InsnsLen(b, m.codeOff).Some? ==> CodeItemEnd(b, m.codeOff).Ok?
  }

  lemma {:induction false} MethodsPlanned(b: seq<byte>, captures: Captures, force: bool, ms: seq<EncodedMethod>)
    requires HasHeader(b)
    ensures PlanMethods(b, captures, force, ms).Ok? <==> BodiesWhole(b, ms)
    decreases |ms|
  {
    hide PlanMethod, BodyWhole;
    if ms != [] {
      MethodPlanned(b, captures, force, ms[0]);
      MethodsPlanned(b, captures, force, ms[1..]);
      assert forall k :: 0 < k < |ms| ==> ms[k] == ms[1..][k - 1];
      assert forall k :: 0 <= k < |ms[1..]| ==> ms[1..][k] == ms[k + 1];
    }
  }

  lemma MethodPlanned(b: seq<byte>, captures: Captures, force: bool, m: EncodedMethod)
    requires HasHeader(b)
    ensures PlanMethod(b, captures, force, m).Ok? <==> BodyWhole(b, m)
  {
    hide SynthesizeCodeItem, InsnsLen, CodeItemEnd;
  }

  ghost predicate ClassPlannable(b: seq<byte>, i: nat)
    requires DefsInFile(b) && i < ClassDefsSize(b)
  {
    ReadableClass(b, i) && BodiesWhole(b, MethodsOf(b, i))
  }

  /** Planning succeeds exactly if all class data parses and every item that has
      instructions, and a method to run them, is whole. */
  lemma {:induction false} PlanSucceeds(b: seq<byte>, captures: Captures, force: bool, i: nat)
    requires DefsInFile(b)
    ensures PlanFrom(b, captures, force, i).Ok? <==> forall k :: i <= k < ClassDefsSize(b) ==> ClassPlannable(b, k)
    decreases ClassDefsSize(b) - i
  {
    hide ParseClassData, PlanMethods, Le32, ClassDefAt, BodiesWhole;
    if i < ClassDefsSize(b) {
      PlanSucceeds(b, captures, force, i + 1);
      MethodsPlanned(b, captures, force, MethodsOf(b, i));
      if ClassDataOff(b, i) == 0 {
        NoBodies(b);
      }
      assert ClassPlannable(b, i) <==> ReadableClass(b, i) && BodiesWhole(b, MethodsOf(b, i));
    }
  }

  lemma NoBodies(b: seq<byte>)
    ensures BodiesWhole(b, [])
  {
  }

  /** So does looking up where methods have their code, items aside. */
  lemma {:induction false} OffsetsSucceed(b: seq<byte>, i: nat, m: map<u32, u32>)
    requires DefsInFile(b)
    ensures MethodOffsetsFrom(b, i, m).Ok? <==> forall k :: i <= k < ClassDefsSize(b) ==> ReadableClass(b, k)
    decreases ClassDefsSize(b) - i
  {
    hide ParseClassData, Le32, InsertMethods;
    if i < ClassDefsSize(b) {
      var next := if ClassDataOff(b, i) != 0 && ParseClassData(b, ClassDataOff(b, i)).Ok?
                  then InsertMethods(m, ParseClassData(b, ClassDataOff(b, i)).value.0.Methods()) else m;
      OffsetsSucceed(b, i + 1, next);
      assert ReadableClass(b, i) <==> (ClassDataOff(b, i) != 0 ==> ParseClassData(b, ClassDataOff(b, i)).Ok?);
    }
  }

  lemma {:induction false} CountedIs(fates: seq<Fate>, fate: Fate)
    ensures CountFate(fates, fate) > 0 <==> fate in fates
    decreases |fates|
  {
    if fates != [] {
      CountedIs(fates[1..], fate);
    }
  }

  /** The report of a bytecode step that succeeds: as many methods refilled, given
      up and lost as there are in the file, and everything moved exactly if some
      method was refilled or lost. */
  lemma OutcomeIs(b: seq<byte>, captures: seq<Capture>, force: bool)
    requires DefsInFile(b) && AppendMissing(b, captures, force).Ok?
    ensures var outcome, records := AppendMissing(b, captures, force).value.1, ByMethod(captures);
            && outcome.appended == Tally(b, records, force, Refilled, 0)
            && outcome.failed == Tally(b, records, force, GivenUp, 0)
            && outcome.unrecovered == Tally(b, records, force, Lost, 0)
            && (outcome.relocated.Some? <==> outcome.appended > 0 || outcome.unrecovered > 0)
            && (outcome.relocated.None? ==> AppendMissing(b, captures, force).value.0 == b)
  {
    hide PlanFrom, CountFate, CountPending, AllFates, AllMethods, Relocate, Tally, ByMethod;
    var records := ByMethod(captures);
    PlanTallies(b, records, force, 0, Refilled);
    PlanTallies(b, records, force, 0, GivenUp);
    PlanTallies(b, records, force, 0, Lost);
    var fates := AllFates(PlanFrom(b, records, force, 0).value);
    CountedIs(fates, Unrecovered);
    CountedIs(fates, Synthesized);
  }
}
