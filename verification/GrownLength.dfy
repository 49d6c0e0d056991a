/**
  How long a repaired file becomes, worked out from the plan alone, before
  anything is copied.
 */
module GrownLength {
  import opened Bytes
  import opened Dex
  import opened ClassData
  import opened CodeItem
  import opened MapList
  import opened Synthesis
  import opened Relocation
  import opened RelocationProofs

  // ----- where items will lie -----

  /** The length of the item a method is to take along. */
  function BodyLength(b: seq<byte>, m: EncodedMethod): nat {
    match m.pending
    case Some(item) => |item|
    case None =>
      match CodeItemEnd(b, m.codeOff)
      case Ok(end) => end - m.codeOff
      case Err(_) => 0
  }

  function AfterMethod(b: seq<byte>, m: EncodedMethod, pos: nat): nat {
    if IsBodiless(m) then pos else Align4(pos) + BodyLength(b, m)
  }

  /** The method once its item lies at the next aligned offset. */
  function LaidMethod(m: EncodedMethod, pos: nat): EncodedMethod {
    if IsBodiless(m) then m else m.(codeOff := Wrap32(Align4(pos)), pending := None)
  }

  function AfterMethods(b: seq<byte>, ms: seq<EncodedMethod>, pos: nat): nat
    decreases |ms|
  {
    if ms == [] then pos else AfterMethods(b, ms[1..], AfterMethod(b, ms[0], pos))
  }

  function LaidMethods(b: seq<byte>, ms: seq<EncodedMethod>, pos: nat): (r: seq<EncodedMethod>)
    ensures |r| == |ms|
    decreases |ms|
  {
    if ms == [] then [] else [LaidMethod(ms[0], pos)] + LaidMethods(b, ms[1..], AfterMethod(b, ms[0], pos))
  }

  function AfterBodies(b: seq<byte>, plan: seq<PlannedClass>, pos: nat): nat
    decreases |plan|
  {
    if plan == [] then pos else AfterBodies(b, plan[1..], AfterMethods(b, plan[0].item.Methods(), pos))
  }

  function LaidPlan(b: seq<byte>, plan: seq<PlannedClass>, pos: nat): (r: seq<PlannedClass>)
    ensures |r| == |plan|
    ensures forall j :: 0 <= j < |plan| ==> r[j].defOff == plan[j].defOff
    decreases |plan|
  {
    if plan == [] then []
    else
      var p := plan[0];
      var ms := p.item.Methods();
      [p.(item := p.item.WithMethods(LaidMethods(b, ms, pos)))] + LaidPlan(b, plan[1..], AfterMethods(b, ms, pos))
  }

  function DataLength(plan: seq<PlannedClass>): (n: nat)
    ensures |plan| <= n
  {
    if plan == [] then 0 else |EncodeClassData(plan[0].item)| + DataLength(plan[1..])
  }

  /** Past the copied items and their class data. */
  function RelocatedLength(b: seq<byte>, plan: seq<PlannedClass>): nat {
    AfterBodies(b, plan, |b|) + DataLength(LaidPlan(b, plan, |b|))
  }

  /** The entries of the old map that stay. */
  function KeptEntries(es: seq<MapEntry>): seq<MapEntry> {
    WithoutType(WithoutType(WithoutType(es, TYPE_CODE_ITEM), TYPE_CLASS_DATA), TYPE_MAP_LIST)
  }

  /** Past the new map: the kept entries, one per run, and the map's own. */
  function FinalLength(b: seq<byte>, es: seq<MapEntry>, plan: seq<PlannedClass>): nat {
    var runs := if forall m :: m in AllMethods(plan) ==> IsBodiless(m) then 1 else 2;
    Align4(RelocatedLength(b, plan)) + 4 + 12 * (|KeptEntries(es)| + runs + 1)
  }

  // ----- the copies take exactly that much -----

  lemma EmitMethodLength(b: seq<byte>, c: seq<byte>, m: EncodedMethod)
    requires b <= c && Resolved(b, m)
    ensures |c| <= AfterMethod(b, m, |c|)
    ensures AfterMethod(b, m, |c|) <= U32_MAX ==> EmitMethod(c, m).Ok?
    ensures EmitMethod(c, m).Ok? ==>
              |EmitMethod(c, m).value.0| == AfterMethod(b, m, |c|) && EmitMethod(c, m).value.1 == LaidMethod(m, |c|)
  {
    hide Standalone, CodeItemEnd, Align4, BodyBytes;
    if !IsBodiless(m) {
      BodyBytesOf(b, c, m);
    }
  }

  lemma {:induction false} EmitMethodsLength(b: seq<byte>, c: seq<byte>, ms: seq<EncodedMethod>)
    requires b <= c && AllResolved(b, ms)
    ensures |c| <= AfterMethods(b, ms, |c|)
    ensures AfterMethods(b, ms, |c|) <= U32_MAX ==> EmitMethods(c, ms).Ok?
    ensures EmitMethods(c, ms).Ok? ==>
              |EmitMethods(c, ms).value.0| == AfterMethods(b, ms, |c|) && EmitMethods(c, ms).value.1 == LaidMethods(b, ms, |c|)
    decreases |ms|
  {
    hide Resolved, EmitMethod, AfterMethod, LaidMethod;
    if ms != [] {
      EmitMethodLength(b, c, ms[0]);
      assert AllResolved(b, ms[1..]);
      if EmitMethod(c, ms[0]).Ok? {
        EmitMethodsLength(b, EmitMethod(c, ms[0]).value.0, ms[1..]);
      } else {
        AfterMethodsGrow(b, ms[1..], AfterMethod(b, ms[0], |c|));
      }
    }
  }

  lemma {:induction false} AfterMethodsGrow(b: seq<byte>, ms: seq<EncodedMethod>, pos: nat)
    ensures pos <= AfterMethods(b, ms, pos)
    decreases |ms|
  {
    hide BodyLength, Align4;
    if ms != [] {
      AfterMethodsGrow(b, ms[1..], AfterMethod(b, ms[0], pos));
    }
  }

  lemma {:induction false} AfterBodiesGrow(b: seq<byte>, plan: seq<PlannedClass>, pos: nat)
    ensures pos <= AfterBodies(b, plan, pos)
    decreases |plan|
  {
    hide AfterMethods;
    if plan != [] {
      var next := AfterMethods(b, plan[0].item.Methods(), pos);
      AfterMethodsGrow(b, plan[0].item.Methods(), pos);
      AfterBodiesGrow(b, plan[1..], next);
    }
  }

  lemma {:induction false} EmitBodiesLength(b: seq<byte>, c: seq<byte>, plan: seq<PlannedClass>)
    requires b <= c && PlanResolved(b, plan)
    ensures AfterBodies(b, plan, |c|) <= U32_MAX ==> EmitBodies(c, plan).Ok?
    ensures EmitBodies(c, plan).Ok? ==>
              |EmitBodies(c, plan).value.0| == AfterBodies(b, plan, |c|) && EmitBodies(c, plan).value.1 == LaidPlan(b, plan, |c|)
    decreases |plan|
  {
    hide AllResolved, EmitMethods, AfterMethods, LaidMethods;
    if plan != [] {
      var ms := plan[0].item.Methods();
      EmitMethodsLength(b, c, ms);
      assert PlanResolved(b, plan[1..]);
      if EmitMethods(c, ms).Ok? {
        EmitBodiesLength(b, EmitMethods(c, ms).value.0, plan[1..]);
      } else {
        AfterBodiesGrow(b, plan[1..], AfterMethods(b, ms, |c|));
      }
    }
  }

  lemma {:induction false} EmitClassesLength(c: seq<byte>, plan: seq<PlannedClass>)
    requires forall j :: 0 <= j < |plan| ==> plan[j].defOff + 28 <= |c|
    ensures |c| + DataLength(plan) <= U32_MAX ==> EmitClasses(c, plan).Ok?
    ensures EmitClasses(c, plan).Ok? ==> |EmitClasses(c, plan).value| == |c| + DataLength(plan)
    decreases |plan|
  {
    hide EncodeClassData;
    if plan != [] && EmitClass(c, plan[0]).Ok? {
      EmitClassesLength(EmitClass(c, plan[0]).value, plan[1..]);
    }
  }

  /** Relocation succeeds if its result can be addressed, and is then just as
      long as worked out. */
  lemma RelocateLength(b: seq<byte>, plan: seq<PlannedClass>, base: nat)
    requires ReadMap(b).Ok? && RetiredRanges(ReadMap(b).value, ReadMap(b).value, |b|).Ok?
    requires PlanResolved(b, plan) && DefsApart(plan, base) && base <= |b|
    ensures RelocatedLength(b, plan) <= U32_MAX ==> Relocate(b, plan).Ok?
    ensures Relocate(b, plan).Ok? ==> |Relocate(b, plan).value.0| == RelocatedLength(b, plan)
  {
    hide ReadMap, EmitBodies, EmitClasses, AllResolved, RetiredRanges, ZeroRanges, AfterBodies, LaidPlan, DataLength;
    EmitBodiesLength(b, b, plan);
    AfterBodiesGrow(b, plan, |b|);
    if EmitBodies(b, plan).Ok? {
      var (c, moved) := EmitBodies(b, plan).value;
      forall j | 0 <= j < |moved| ensures moved[j].defOff + 28 <= |c| {
        assert moved[j].defOff == plan[j].defOff;
      }
      EmitClassesLength(c, moved);
    }
  }

  // ----- the map -----

  lemma {:induction false} WithoutTypeJoin(es: seq<MapEntry>, fs: seq<MapEntry>, typ: u16)
    ensures WithoutType(es + fs, typ) == WithoutType(es, typ) + WithoutType(fs, typ)
    decreases |es|
  {
    if es == [] {
      assert es + fs == fs;
    } else {
      assert (es + fs)[1..] == es[1..] + fs;
      WithoutTypeJoin(es[1..], fs, typ);
    }
  }

  /** The entries besides the map's own, once both runs are substituted. */
  lemma SubstitutedCount(es: seq<MapEntry>, code: MapEntry, classes: MapEntry)
    requires code.typ == TYPE_CODE_ITEM && classes.typ == TYPE_CLASS_DATA && classes.size != 0
    ensures |WithoutType(Substitute(es, [code, classes]), TYPE_MAP_LIST)|
            == |KeptEntries(es)| + (if code.size == 0 then 1 else 2)
  {
    var codes := if code.size != 0 then [code] else [];
    var first := WithoutType(es, TYPE_CODE_ITEM) + codes;
    assert [code, classes][1..] == [classes];
    WithoutTypeJoin(WithoutType(es, TYPE_CODE_ITEM), codes, TYPE_CLASS_DATA);
    var second := WithoutType(first, TYPE_CLASS_DATA) + [classes];
    assert Substitute(first, [classes]) == second;
    assert Substitute(es, [code, classes]) == second;
    WithoutTypeJoin(WithoutType(first, TYPE_CLASS_DATA), [classes], TYPE_MAP_LIST);
    WithoutTypeJoin(WithoutType(WithoutType(es, TYPE_CODE_ITEM), TYPE_CLASS_DATA), WithoutType(codes, TYPE_CLASS_DATA), TYPE_MAP_LIST);
  }

  /** How far the new map reaches. */
  lemma RebuildMapLength(b: seq<byte>, code: MapEntry, classes: MapEntry)
    requires code.typ == TYPE_CODE_ITEM && classes.typ == TYPE_CLASS_DATA && classes.size != 0
    requires RebuildMap(b, Some([code, classes])).Ok?
    ensures ReadMap(b).Ok?
    ensures |RebuildMap(b, Some([code, classes])).value.0|
            == Align4(|b|) + 4 + 12 * (|KeptEntries(ReadMap(b).value)| + (if code.size == 0 then 1 else 2) + 1)
  {
    hide MapTable, Substitute, Align4, KeptEntries, OverlapsMap, MoveMap;
    var es := ReadMap(b).value;
    var (off, count) := MapTable(b).value;
    var updated := Substitute(es, [code, classes]);
    SubstitutedCount(es, code, classes);
    MoveMapLayout(b, off, count, updated);
  }

  // ----- the code entry is empty exactly when there is nothing to copy -----

  lemma {:induction false} LaidBodiless(b: seq<byte>, ms: seq<EncodedMethod>, pos: nat)
    requires 0 < pos && AfterMethods(b, ms, pos) <= U32_MAX
    ensures CodeOffsets(LaidMethods(b, ms, pos)) == [] <==> forall m :: m in ms ==> IsBodiless(m)
    decreases |ms|
  {
    hide BodyLength;
    if ms != [] {
      AfterMethodsGrow(b, ms[1..], AfterMethod(b, ms[0], pos));
      LaidBodiless(b, ms[1..], AfterMethod(b, ms[0], pos));
      assert forall m :: m in ms <==> m == ms[0] || m in ms[1..];
      var laid := LaidMethods(b, ms, pos);
      assert laid[1..] == LaidMethods(b, ms[1..], AfterMethod(b, ms[0], pos));
    }
  }

  lemma {:induction false} CodeOffsetsJoin(ms: seq<EncodedMethod>, ns: seq<EncodedMethod>)
    ensures CodeOffsets(ms + ns) == CodeOffsets(ms) + CodeOffsets(ns)
    decreases |ms|
  {
    if ms == [] {
      assert ms + ns == ns;
    } else {
      assert (ms + ns)[1..] == ms[1..] + ns;
      CodeOffsetsJoin(ms[1..], ns);
    }
  }

  lemma NoOffsetsOfNone()
    ensures CodeOffsets([]) == []
  {
  }

  lemma {:induction false} LaidPlanBodiless(b: seq<byte>, plan: seq<PlannedClass>, pos: nat)
    requires 0 < pos && AfterBodies(b, plan, pos) <= U32_MAX
    ensures CodeOffsets(AllMethods(LaidPlan(b, plan, pos))) == [] <==> forall m :: m in AllMethods(plan) ==> IsBodiless(m)
    decreases |plan|
  {
    hide AfterMethods, LaidMethods, CodeOffsets;
    if plan == [] {
      NoOffsetsOfNone();
    } else {
      var ms := plan[0].item.Methods();
      var next := AfterMethods(b, ms, pos);
      AfterMethodsGrow(b, ms, pos);
      AfterBodiesGrow(b, plan[1..], next);
      LaidBodiless(b, ms, pos);
      LaidPlanBodiless(b, plan[1..], next);
      var laid := LaidPlan(b, plan, pos);
      assert laid[1..] == LaidPlan(b, plan[1..], next);
      assert laid[0].item.Methods() == LaidMethods(b, ms, pos);
      CodeOffsetsJoin(LaidMethods(b, ms, pos), AllMethods(laid[1..]));
    }
  }
}
