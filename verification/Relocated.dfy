/**
  Relocation preserves the program: every class keeps its lists, every method
  its item, and everything outside the retired sections stays where it was.
 */
module Relocated {
  import opened Bytes
  import opened Dex
  import opened ClassData
  import opened CodeItem
  import opened MapList
  import opened Synthesis
  import opened Relocation
  import opened RelocationProofs

  // ----- retired sections -----

  /** Byte `i` lies in the section of entry `e`, which runs to the next mapped
      offset. */
  predicate InSection(es: seq<MapEntry>, e: MapEntry, len: nat, i: int) {
    e.off <= i < NextOffset(es, e.off, len)
  }

  ghost predicate Retires(es: seq<MapEntry>, len: nat, i: int) {
    exists e :: e in es && IsRetired(e) && InSection(es, e, len, i)
  }

  ghost predicate RangeOf(todo: seq<MapEntry>, es: seq<MapEntry>, len: nat, range: (nat, nat)) {
    exists e :: e in todo && IsRetired(e) && range == (e.off, NextOffset(es, e.off, len))
  }

  lemma {:induction false} RetiredRangesAre(todo: seq<MapEntry>, es: seq<MapEntry>, len: nat)
    requires RetiredRanges(todo, es, len).Ok?
    ensures forall range :: range in RetiredRanges(todo, es, len).value <==> RangeOf(todo, es, len, range)
    decreases |todo|
  {
    hide NextOffset;
    if todo != [] {
      RetiredRangesAre(todo[1..], es, len);
      assert forall e :: e in todo <==> e == todo[0] || e in todo[1..];
      var ranges := RetiredRanges(todo, es, len).value;
      var rest := RetiredRanges(todo[1..], es, len).value;
      forall range
        ensures range in ranges <==> RangeOf(todo, es, len, range)
      {
        if IsRetired(todo[0]) {
          assert range in ranges <==> range == (todo[0].off, NextOffset(es, todo[0].off, len)) || range in rest;
        }
      }
    }
  }

  lemma InRangeIsRetired(es: seq<MapEntry>, len: nat, i: int)
    requires RetiredRanges(es, es, len).Ok?
    ensures InRange(RetiredRanges(es, es, len).value, i) <==> Retires(es, len, i)
  {
    hide NextOffset, RetiredRanges;
    var ranges := RetiredRanges(es, es, len).value;
    RetiredRangesAre(es, es, len);
    if InRange(ranges, i) {
      var k :| 0 <= k < |ranges| && ranges[k].0 <= i < ranges[k].1;
      assert ranges[k] in ranges;
      var e :| e in es && IsRetired(e) && ranges[k] == (e.off, NextOffset(es, e.off, len));
      assert InSection(es, e, len, i);
    }
    if Retires(es, len, i) {
      var e :| e in es && IsRetired(e) && InSection(es, e, len, i);
      assert RangeOf(es, es, len, (e.off, NextOffset(es, e.off, len)));
    }
  }

  /** With distinct offsets, the sections of a map are disjoint. */
  lemma SectionsApart(es: seq<MapEntry>, e: MapEntry, f: MapEntry, len: nat, i: int)
    requires DistinctOffsets(es) && e in es && f in es
    requires InSection(es, e, len, i) && InSection(es, f, len, i)
    ensures e == f
  {
    hide NextOffset;
    if e.off == f.off {
      var j :| 0 <= j < |es| && es[j] == e;
      var k :| 0 <= k < |es| && es[k] == f;
      assert j == k;
    }
  }

  ghost predicate RetiredAbove(es: seq<MapEntry>, base: nat) {
    forall e :: e in es && IsRetired(e) ==> base <= e.off
  }

  // ----- what relocation leaves -----

  /** `r` is `b` grown, with links of planned classes redirected and retired
      sections zeroed. */
  ghost predicate OnlyRetired(b: seq<byte>, es: seq<MapEntry>, plan: seq<PlannedClass>, r: seq<byte>) {
    && |b| <= |r|
    && (forall i :: 0 <= i < |b| && Retires(es, |b|, i) ==> r[i] == 0)
    && (forall i :: 0 <= i < |b| && !Retires(es, |b|, i) && !InLink(plan, i) ==> r[i] == b[i])
  }

  /** The methods of `moved` form one run of code items from `pos`, its classes
      one run of class data that ends the file. */
  ghost predicate Laid(r: seq<byte>, moved: seq<PlannedClass>, pos: nat, mid: nat) {
    && pos <= mid <= |r|
    && CodeRun(r, AllMethods(moved), pos, mid)
    && ClassRun(r, moved, mid, |r|)
  }

  lemma LinksAreLow(plan: seq<PlannedClass>, base: nat, i: int)
    requires DefsApart(plan, base) && base <= i
    ensures !InLink(plan, i)
  {
  }

  lemma PlacedDefsApart(b: seq<byte>, plan: seq<PlannedClass>, c: seq<byte>, moved: seq<PlannedClass>, hi: nat, base: nat)
    requires PlanPlaced(b, plan, c, moved, hi) && DefsApart(plan, base)
    ensures DefsApart(moved, base)
    ensures forall i :: InLink(moved, i) <==> InLink(plan, i)
  {
    hide AllPlaced, AllResolved;
    assert forall j :: 0 <= j < |plan| ==> ClassPlaced(b, plan[j], c, moved[j], hi) && plan[j].defOff == moved[j].defOff;
  }

  ghost predicate AllEncodable(plan: seq<PlannedClass>) {
    forall j :: 0 <= j < |plan| ==> Encodable(plan[j].item)
  }

  /** Each planned item is an edit of an encodable one. */
  ghost predicate EditsEncodable(plan: seq<PlannedClass>) {
    forall j :: 0 <= j < |plan| ==> EditOfEncodable(plan[j].item)
  }

  ghost predicate EditOfEncodable(item: ClassItem) {
    exists c :: Encodable(c) && SameLists(c, item)
  }

  lemma {:induction false} PlansEditEncodable(b: seq<byte>, captures: Captures, force: bool, i: nat, plan: seq<PlannedClass>)
    requires DefsInFile(b) && Plans(b, captures, force, i, plan)
    ensures EditsEncodable(plan)
    decreases ClassDefsSize(b) - i
  {
    hide Le32, ParseClassData, PlanMethods, AllResolved, SameLists, Encodable;
    if i < ClassDefsSize(b) {
      if ClassDataOff(b, i) == 0 {
        PlansEditEncodable(b, captures, force, i + 1, plan);
      } else {
        PlansEditEncodable(b, captures, force, i + 1, plan[1..]);
        assert EditOfEncodable(plan[0].item);
        forall j | 0 <= j < |plan| ensures EditOfEncodable(plan[j].item) {
          if j > 0 {
            assert plan[1..][j - 1] == plan[j];
          }
        }
      }
    }
  }

  lemma PlacedMethodsSame(b: seq<byte>, ms: seq<EncodedMethod>, base: nat, c: seq<byte>, ns: seq<EncodedMethod>, hi: nat)
    requires AllResolved(b, ms) && AllPlaced(b, ms, base, c, ns, hi)
    ensures SameMethods(ms, ns) && NothingPending(ns)
  {
    hide Resolved, Placed, BodyOf, SameMethod;
    assert forall k :: 0 <= k < |ms| ==> MethodPlaced(b, ms[k], base, c, ns[k], hi);
  }

  lemma PlacedClassSame(b: seq<byte>, p: PlannedClass, c: seq<byte>, q: PlannedClass, hi: nat)
    requires ClassPlaced(b, p, c, q, hi)
    ensures SameLists(p.item, q.item)
    ensures NothingPending(q.item.directMethods) && NothingPending(q.item.virtualMethods)
  {
    hide AllResolved, AllPlaced, SameMethod;
    var n := |p.item.directMethods|;
    PlacedMethodsSame(b, p.item.Methods(), |b|, c, q.item.Methods(), hi);
    forall k | 0 <= k < n
      ensures SameMethod(p.item.directMethods[k], q.item.directMethods[k]) && q.item.directMethods[k].pending == None
    {
      assert p.item.Methods()[k] == p.item.directMethods[k] && q.item.Methods()[k] == q.item.directMethods[k];
    }
    forall k | 0 <= k < |p.item.virtualMethods|
      ensures SameMethod(p.item.virtualMethods[k], q.item.virtualMethods[k]) && q.item.virtualMethods[k].pending == None
    {
      assert p.item.Methods()[n + k] == p.item.virtualMethods[k] && q.item.Methods()[n + k] == q.item.virtualMethods[k];
    }
  }

  lemma SameListsCompose(a: ClassItem, c: ClassItem, d: ClassItem)
    requires SameLists(a, c) && SameLists(c, d)
    ensures SameLists(a, d)
  {
    assert forall k :: 0 <= k < |a.directMethods| ==> SameMethod(a.directMethods[k], c.directMethods[k]) && SameMethod(c.directMethods[k], d.directMethods[k]);
    assert forall k :: 0 <= k < |a.virtualMethods| ==> SameMethod(a.virtualMethods[k], c.virtualMethods[k]) && SameMethod(c.virtualMethods[k], d.virtualMethods[k]);
  }

  lemma MovedEncodable(b: seq<byte>, plan: seq<PlannedClass>, c: seq<byte>, moved: seq<PlannedClass>, hi: nat)
    requires PlanPlaced(b, plan, c, moved, hi) && EditsEncodable(plan)
    ensures AllEncodable(moved)
  {
    hide ClassPlaced, SameLists, Encodable;
    forall j | 0 <= j < |moved|
      ensures Encodable(moved[j].item)
    {
      assert EditOfEncodable(plan[j].item);
      var item :| Encodable(item) && SameLists(item, plan[j].item);
      PlacedClassSame(b, plan[j], c, moved[j], hi);
      SameListsCompose(item, plan[j].item, moved[j].item);
      OffsetEditsStayEncodable(item, moved[j].item);
    }
  }

  /** Where relocation puts the items. */
  ghost function MovedPlan(b: seq<byte>, plan: seq<PlannedClass>): seq<PlannedClass>
    requires EmitBodies(b, plan).Ok?
  {
    EmitBodies(b, plan).value.1
  }

  ghost function CodeEnd(b: seq<byte>, plan: seq<PlannedClass>): nat
    requires EmitBodies(b, plan).Ok?
  {
    |EmitBodies(b, plan).value.0|
  }

  lemma GrownIs(b: seq<byte>, plan: seq<PlannedClass>, base: nat)
    requires b != [] && base <= |b|
    requires PlanResolved(b, plan) && DefsApart(plan, base) && EditsEncodable(plan)
    requires EmitBodies(b, plan).Ok? && EmitClasses(EmitBodies(b, plan).value.0, MovedPlan(b, plan)).Ok?
    ensures var moved := MovedPlan(b, plan);
            var d := EmitClasses(EmitBodies(b, plan).value.0, moved).value;
            && Laid(d, moved, |b|, CodeEnd(b, plan))
            && PlanPlaced(b, plan, d, moved, CodeEnd(b, plan))
            && DefsApart(moved, base)
            && (forall i :: InLink(moved, i) <==> InLink(plan, i))
            && OnlyLinksChanged(b, d, plan)
  {
    hide PlanPlaced, DefsApart, Encodable, CodeRun, ClassRun, EmitBodies, EmitClasses, PlanResolved, InLink, Agree;
    var (c, moved) := EmitBodies(b, plan).value;
    var d := EmitClasses(c, moved).value;
    EmitBodiesAre(b, b, plan);
    PlacedDefsApart(b, plan, c, moved, |c|, base);
    MovedEncodable(b, plan, c, moved, |c|);
    EmitClassesAre(c, moved, base);
    forall i | |b| <= i < |c|
      ensures c[i] == d[i]
    {
      LinksAreLow(moved, base, i);
    }
    AgreePointwise(c, d, |b|, |c|);
    CodeRunFrame(c, AllMethods(moved), |b|, |c|, d, |b|);
    PlanPlacedFrame(b, plan, c, moved, |c|, d, |c|);
    assert forall i :: 0 <= i < |b| && !InLink(plan, i) ==> b[i] == d[i] by {
      assert b == c[..|b|];
    }
  }

  lemma ZeroedIs(d: seq<byte>, moved: seq<PlannedClass>, pos: nat, mid: nat, base: nat, ranges: seq<(nat, nat)>)
    requires Laid(d, moved, pos, mid) && DefsApart(moved, base) && base <= pos
    requires forall k :: 0 <= k < |ranges| ==> base <= ranges[k].0 <= ranges[k].1 <= pos
    ensures var r := ZeroRanges(d, ranges);
            Laid(r, moved, pos, mid) && Agree(d, r, pos, |d|) && Agree(d, r, 0, base)
  {
    hide CodeRun, ClassRun, ZeroRanges;
    var r := ZeroRanges(d, ranges);
    ZeroRangesAre(d, ranges);
    Untouched(d, ranges, base, pos);
    AgreePointwise(d, r, pos, |d|);
    AgreeWithin(d, r, pos, |d|, pos, mid);
    AgreeWithin(d, r, pos, |d|, mid, |d|);
    CodeRunFrame(d, AllMethods(moved), pos, mid, r, pos);
    assert SameLinks(d, r, moved) by {
      forall j | 0 <= j < |moved| ensures SameLink(d, r, moved[j].defOff) {
        AgreeWithin(d, r, 0, base, moved[j].defOff + 24, moved[j].defOff + 28);
      }
    }
    ClassRunFrame(d, moved, mid, |d|, r);
  }

  lemma Untouched(d: seq<byte>, ranges: seq<(nat, nat)>, base: nat, pos: nat)
    requires base <= pos <= |d|
    requires forall k :: 0 <= k < |ranges| ==> base <= ranges[k].0 <= ranges[k].1 <= pos
    ensures Agree(d, ZeroRanges(d, ranges), 0, base)
    ensures forall i :: pos <= i < |d| ==> ZeroRanges(d, ranges)[i] == d[i]
  {
    hide ZeroRanges;
    ZeroRangesAre(d, ranges);
    assert forall i :: pos <= i ==> !InRange(ranges, i);
    assert forall i :: i < base ==> !InRange(ranges, i);
    AgreePointwise(d, ZeroRanges(d, ranges), 0, base);
  }

  /** Relocation, byte by byte: the items form two runs at the end of the file,
      and every earlier byte is kept, a redirected link, or retired to zero. */
  lemma RelocateIs(b: seq<byte>, plan: seq<PlannedClass>, base: nat)
    requires HasHeader(b) && DEX_HEADER_SIZE <= base <= |b|
    requires PlanResolved(b, plan) && DefsApart(plan, base) && EditsEncodable(plan)
    requires ReadMap(b).Ok? && RetiredAbove(ReadMap(b).value, base)
    requires Relocate(b, plan).Ok?
    ensures EmitBodies(b, plan).Ok?
    ensures var r := Relocate(b, plan).value.0;
            var moved := MovedPlan(b, plan);
            && Laid(r, moved, |b|, CodeEnd(b, plan))
            && PlanPlaced(b, plan, r, moved, CodeEnd(b, plan))
            && OnlyRetired(b, ReadMap(b).value, plan, r)
            && KeptBelow(b, plan, r, base)
            && |plan| <= U32_MAX && CodeEnd(b, plan) <= U32_MAX
            && Relocate(b, plan).value.1
               == [CodeMapEntry(AllMethods(moved)), MapEntry(TYPE_CLASS_DATA, |plan|, CodeEnd(b, plan))]
  {
    hide PlanPlaced, DefsApart, EditsEncodable, Laid, PlanResolved, Agree, InLink, OnlyLinksChanged,
      EmitBodies, EmitClasses, RetiredRanges, ReadMap, Retires, InRange, RetiredAbove, AllMethods;
    var es := ReadMap(b).value;
    var ranges := RetiredRanges(es, es, |b|).value;
    var (withCode, moved) := EmitBodies(b, plan).value;
    var d := EmitClasses(withCode, moved).value;
    var r := ZeroRanges(d, ranges);
    GrownIs(b, plan, base);
    RangesAbove(es, |b|, base);
    ZeroedIs(d, moved, |b|, CodeEnd(b, plan), base, ranges);
    LaidBounds(d, moved, |b|, CodeEnd(b, plan));
    AgreeWithin(d, r, |b|, |d|, |b|, CodeEnd(b, plan));
    PlanPlacedFrame(b, plan, d, moved, CodeEnd(b, plan), r, CodeEnd(b, plan));
    ZeroedFrame(b, d, plan, base, ranges);
    KeptBytes(b, plan, d, ranges, base);
  }

  lemma LaidBounds(r: seq<byte>, moved: seq<PlannedClass>, pos: nat, mid: nat)
    requires Laid(r, moved, pos, mid)
    ensures pos <= mid <= |r|
  {
  }

  lemma RangesAbove(es: seq<MapEntry>, len: nat, base: nat)
    requires RetiredRanges(es, es, len).Ok? && RetiredAbove(es, base)
    ensures forall k :: 0 <= k < |RetiredRanges(es, es, len).value| ==>
              base <= RetiredRanges(es, es, len).value[k].0 <= RetiredRanges(es, es, len).value[k].1 <= len
  {
    hide RetiredRanges, NextOffset;
    var ranges := RetiredRanges(es, es, len).value;
    RetiredRangesAre(es, es, len);
    forall k | 0 <= k < |ranges|
      ensures base <= ranges[k].0
    {
      assert RangeOf(es, es, len, ranges[k]);
    }
  }

  lemma ZeroedFrame(b: seq<byte>, d: seq<byte>, plan: seq<PlannedClass>, base: nat, ranges: seq<(nat, nat)>)
    requires OnlyLinksChanged(b, d, plan) && base <= |b|
    requires forall k :: 0 <= k < |ranges| ==> base <= ranges[k].0 <= ranges[k].1 <= |b|
    ensures forall i :: 0 <= i < base && !InLink(plan, i) ==> ZeroRanges(d, ranges)[i] == b[i]
  {
    hide InLink, ZeroRanges;
    ZeroRangesAre(d, ranges);
    assert forall i :: i < base ==> !InRange(ranges, i);
  }

  lemma KeptBytes(b: seq<byte>, plan: seq<PlannedClass>, d: seq<byte>, ranges: seq<(nat, nat)>, base: nat)
    requires OnlyLinksChanged(b, d, plan) && ReadMap(b).Ok?
    requires RetiredRanges(ReadMap(b).value, ReadMap(b).value, |b|) == Ok(ranges)
    ensures OnlyRetired(b, ReadMap(b).value, plan, ZeroRanges(d, ranges))
  {
    hide InLink, ZeroRanges, RetiredRanges, ReadMap, Retires, InRange;
    var es := ReadMap(b).value;
    ZeroRangesAre(d, ranges);
    forall i | 0 <= i < |b|
      ensures InRange(ranges, i) <==> Retires(es, |b|, i)
    {
      InRangeIsRetired(es, |b|, i);
    }
  }

  // ----- the program is kept -----

  function ItemOnDisk(b: seq<byte>, off: u32): Option<seq<byte>> {
    match CodeItemEnd(b, off)
    case Ok(end) => Some(b[off..end])
    case Err(_) => None
  }

  /** The item a method should end up with: the one on disk, unless there is a
      capture that does not fit it and that an item can be built from. */
  function ExpectedBody(b: seq<byte>, captures: Captures, force: bool, m: EncodedMethod): Option<seq<byte>>
    requires HasHeader(b)
  {
    var onDisk := ItemOnDisk(b, m.codeOff);
    if HasNoBody(m.accessFlags) || m.methodIdx !in captures then onDisk
    else if InsnsLen(b, m.codeOff) == Some(|captures[m.methodIdx].code| / 2) then onDisk
    else
      match SynthesizeCodeItem(b, m.methodIdx, m.accessFlags, captures[m.methodIdx], force)
      case Ok(item) => Some(item)
      case Err(_) => onDisk
  }

  /** Following the method's offset in `r` leads to exactly `body`. */
  ghost predicate Carries(r: seq<byte>, n: EncodedMethod, body: Option<seq<byte>>) {
    match body
    case None => n.codeOff == 0
    case Some(s) => n.codeOff != 0 && CodeItemEnd(r, n.codeOff) == Ok(n.codeOff + |s|) && Holds(r, n.codeOff, s)
  }

  ghost predicate MethodKept(
    b: seq<byte>, captures: Captures, force: bool, m: EncodedMethod, r: seq<byte>, n: EncodedMethod)
    requires HasHeader(b)
  {
    SameMethod(m, n) && Carries(r, n, ExpectedBody(b, captures, force, m))
  }

  ghost predicate MethodsKept(
    b: seq<byte>, captures: Captures, force: bool, ms: seq<EncodedMethod>, r: seq<byte>, ns: seq<EncodedMethod>)
    requires HasHeader(b)
  {
    && |ms| == |ns|
    && forall k :: 0 <= k < |ms| ==> MethodKept(b, captures, force, ms[k], r, ns[k])
  }

  /** Class definition `i` leads to the same lists as before, and each of its
      methods to the item expected of it. */
  ghost predicate ClassKept(b: seq<byte>, captures: Captures, force: bool, r: seq<byte>, i: nat)
    requires DefsInFile(b) && DefsInFile(r) && i < ClassDefsSize(b) && i < ClassDefsSize(r)
  {
    if ClassDataOff(b, i) == 0 then ClassDataOff(r, i) == 0
    else
      && ClassDataOff(r, i) != 0
      && ParseClassData(b, ClassDataOff(b, i)).Ok? && ParseClassData(r, ClassDataOff(r, i)).Ok?
      && var c, d := ParseClassData(b, ClassDataOff(b, i)).value.0, ParseClassData(r, ClassDataOff(r, i)).value.0;
      && SameLists(c, d)
      && MethodsKept(b, captures, force, c.Methods(), r, d.Methods())
  }

  ghost predicate SameClassDefs(b: seq<byte>, r: seq<byte>)
    requires HasHeader(b) && HasHeader(r)
  {
    ClassDefsSize(b) == ClassDefsSize(r) && ClassDefsOff(b) == ClassDefsOff(r)
  }

  ghost predicate ProgramKept(b: seq<byte>, captures: Captures, force: bool, r: seq<byte>)
    requires DefsInFile(b) && DefsInFile(r) && SameClassDefs(b, r)
  {
    forall i :: 0 <= i < ClassDefsSize(b) ==> ClassKept(b, captures, force, r, i)
  }

  lemma PlannedBody(b: seq<byte>, captures: Captures, force: bool, m: EncodedMethod)
    requires HasHeader(b) && m.pending == None
    requires PlanMethod(b, captures, force, m).Ok? && KeepsUsable(b, captures, force, m)
    requires Resolved(b, PlanMethod(b, captures, force, m).value.0)
    ensures var n := PlanMethod(b, captures, force, m).value.0;
            ExpectedBody(b, captures, force, m) == if IsBodiless(n) then None else Some(BodyOf(b, n))
  {
    hide CodeItemEnd, InsnsLen, SynthesizeCodeItem, Standalone, HasNoBody;
    NoItemAtZero(b);
  }

  lemma PlacedIsKept(
    b: seq<byte>, captures: Captures, force: bool, m: EncodedMethod, p: EncodedMethod, fate: Fate,
    r: seq<byte>, n: EncodedMethod, hi: nat)
    requires HasHeader(b) && m.pending == None
    requires PlanMethod(b, captures, force, m) == Ok((p, fate)) && KeepsUsable(b, captures, force, m)
    requires Resolved(b, p) && MethodPlaced(b, p, |b|, r, n, hi)
    ensures MethodKept(b, captures, force, m, r, n)
  {
    hide PlanMethod, CodeItemEnd, Resolved, BodyOf, ExpectedBody, Holds, KeepsUsable;
    PlanMethodIs(b, captures, force, m);
    PlannedBody(b, captures, force, m);
    if !IsBodiless(p) {
      PlacedEnds(b, p, |b|, r, n);
    }
  }

  lemma PlacedAreKept(
    b: seq<byte>, captures: Captures, force: bool, ms: seq<EncodedMethod>, ps: seq<EncodedMethod>, fates: seq<Fate>,
    r: seq<byte>, ns: seq<EncodedMethod>, hi: nat)
    requires HasHeader(b) && NothingPending(ms) && AllKeepUsable(b, captures, force, ms)
    requires PlanMethods(b, captures, force, ms) == Ok((ps, fates))
    requires AllResolved(b, ps) && AllPlaced(b, ps, |b|, r, ns, hi)
    ensures MethodsKept(b, captures, force, ms, r, ns)
  {
    hide PlanMethods, PlanMethod, Resolved, KeepsUsable, MethodPlaced, MethodKept, SameMethod;
    PlanMethodsAre(b, captures, force, ms);
    forall k | 0 <= k < |ms|
      ensures MethodKept(b, captures, force, ms[k], r, ns[k])
    {
      PlacedIsKept(b, captures, force, ms[k], ps[k], fates[k], r, ns[k], hi);
    }
  }

  lemma PlacedClassIsKept(
    b: seq<byte>, captures: Captures, force: bool, i: nat, p: PlannedClass, r: seq<byte>, q: PlannedClass, hi: nat)
    requires DefsInFile(b) && i < ClassDefsSize(b) && ClassUsable(b, captures, force, i) && ClassDataOff(b, i) != 0
    requires PlansClass(b, captures, force, i, p) && ClassPlaced(b, p, r, q, hi)
    ensures var c := ParseClassData(b, ClassDataOff(b, i)).value.0;
            SameLists(c, q.item) && MethodsKept(b, captures, force, c.Methods(), r, q.item.Methods())
  {
    hide ParseClassData, PlanMethods, AllResolved, AllPlaced, SameLists, Encodable, AllKeepUsable, MethodsKept, Le32;
    var c := ParseClassData(b, ClassDataOff(b, i)).value.0;
    EncodableHasNothingPending(c);
    PlacedClassSame(b, p, r, q, hi);
    SameListsCompose(c, p.item, q.item);
    PlacedAreKept(b, captures, force, c.Methods(), p.item.Methods(), p.fates, r, q.item.Methods(), hi);
  }

  /** Definitions without data stay without, and nothing moved the table. */
  ghost predicate EmptyDefsKept(b: seq<byte>, r: seq<byte>)
    requires DefsInFile(b) && DefsInFile(r) && SameClassDefs(b, r)
  {
    forall i :: 0 <= i < ClassDefsSize(b) && ClassDataOff(b, i) == 0 ==> ClassDataOff(r, i) == 0
  }

  lemma {:induction false} PlacedPlanIsKept(
    b: seq<byte>, captures: Captures, force: bool, i: nat, plan: seq<PlannedClass>,
    r: seq<byte>, moved: seq<PlannedClass>, hi: nat, pos: nat)
    requires DefsInFile(b) && DefsInFile(r) && SameClassDefs(b, r) && EmptyDefsKept(b, r)
    requires OffsetsUsable(b, captures, force) && Plans(b, captures, force, i, plan)
    requires PlanPlaced(b, plan, r, moved, hi) && ClassRun(r, moved, pos, |r|)
    ensures forall k :: i <= k < ClassDefsSize(b) ==> ClassKept(b, captures, force, r, k)
    decreases ClassDefsSize(b) - i
  {
    hide ParseClassData, ClassUsable, SameLists, MethodsKept, Le32, ClassPlaced, PlansClass;
    if i < ClassDefsSize(b) {
      if ClassDataOff(b, i) == 0 {
        PlacedPlanIsKept(b, captures, force, i + 1, plan, r, moved, hi, pos);
      } else {
        PlanTail(b, plan, r, moved, hi);
        PlacedPlanIsKept(b, captures, force, i + 1, plan[1..], r, moved[1..], hi, ParseClassData(r, pos).value.1);
        FirstClassKept(b, captures, force, i, plan[0], r, moved[0], hi, pos);
      }
    }
  }

  lemma PlanTail(b: seq<byte>, plan: seq<PlannedClass>, r: seq<byte>, moved: seq<PlannedClass>, hi: nat)
    requires PlanPlaced(b, plan, r, moved, hi) && plan != []
    ensures PlanPlaced(b, plan[1..], r, moved[1..], hi)
    ensures ClassPlaced(b, plan[0], r, moved[0], hi)
  {
    hide ClassPlaced;
  }

  lemma FirstClassKept(
    b: seq<byte>, captures: Captures, force: bool, i: nat, p: PlannedClass, r: seq<byte>, q: PlannedClass, hi: nat, pos: nat)
    requires DefsInFile(b) && DefsInFile(r) && SameClassDefs(b, r) && OffsetsUsable(b, captures, force)
    requires i < ClassDefsSize(b) && ClassDataOff(b, i) != 0
    requires PlansClass(b, captures, force, i, p) && ClassPlaced(b, p, r, q, hi)
    requires q.defOff + 28 <= |r| && Le32(r, q.defOff + 24) == pos && pos > 0
    requires ParseClassData(r, pos).Ok? && ParseClassData(r, pos).value.0 == q.item
    ensures ClassKept(b, captures, force, r, i)
  {
    hide ParseClassData, SameLists, MethodsKept, Le32, AllPlaced, AllResolved, ClassUsable;
    assert ClassUsable(b, captures, force, i);
    PlacedClassIsKept(b, captures, force, i, p, r, q, hi);
  }

  /** Byte `x` belongs to the data offset of some class definition. */
  ghost predicate InDataOff(b: seq<byte>, x: int)
    requires HasHeader(b)
  {
    exists i :: 0 <= i < ClassDefsSize(b) && ClassDefAt(b, i) + 24 <= x < ClassDefAt(b, i) + 28
  }

  lemma ValidatedDefsInFile(b: seq<byte>)
    requires ValidateIdBounds(b).Ok?
    ensures DefsInFile(b) && DEX_HEADER_SIZE <= TablesEnd(b) <= |b|
    ensures forall i :: 0 <= i < ClassDefsSize(b) ==>
              DEX_HEADER_SIZE <= ClassDefAt(b, i) && ClassDefAt(b, i) + CLASS_DEF_SIZE <= TablesEnd(b)
  {
    hide ValidateIdBounds, TablesEnd, Le32;
    TablesEndBounds(b);
    forall i | 0 <= i < ClassDefsSize(b)
      ensures DEX_HEADER_SIZE <= ClassDefAt(b, i) && ClassDefAt(b, i) + CLASS_DEF_SIZE <= TablesEnd(b)
    {
      ClassDefInside(b, i);
    }
  }

  /** Every planned definition is some definition with data. */
  ghost predicate DefWithData(b: seq<byte>, defOff: nat, i: nat)
    requires DefsInFile(b)
  {
    i < ClassDefsSize(b) && ClassDataOff(b, i) != 0 && defOff == ClassDefAt(b, i)
  }

  ghost predicate SomeDefWithData(b: seq<byte>, defOff: nat)
    requires DefsInFile(b)
  {
    exists k :: DefWithData(b, defOff, k)
  }

  lemma {:induction false} PlannedDefsHaveData(b: seq<byte>, captures: Captures, force: bool, i: nat, plan: seq<PlannedClass>)
    requires DefsInFile(b) && Plans(b, captures, force, i, plan)
    ensures forall j :: 0 <= j < |plan| ==> SomeDefWithData(b, plan[j].defOff)
    decreases ClassDefsSize(b) - i
  {
    hide Le32, ParseClassData, PlanMethods, AllResolved, SameLists, Encodable;
    if i < ClassDefsSize(b) {
      if ClassDataOff(b, i) == 0 {
        PlannedDefsHaveData(b, captures, force, i + 1, plan);
      } else {
        PlannedDefsHaveData(b, captures, force, i + 1, plan[1..]);
        assert DefWithData(b, plan[0].defOff, i);
        forall j | 0 <= j < |plan| ensures SomeDefWithData(b, plan[j].defOff) {
          if j > 0 {
            assert plan[1..][j - 1] == plan[j];
          }
        }
      }
    }
  }

  lemma LinksAreDataOffs(b: seq<byte>, captures: Captures, force: bool, plan: seq<PlannedClass>)
    requires DefsInFile(b) && Plans(b, captures, force, 0, plan)
    ensures forall x :: InLink(plan, x) ==> InDataOff(b, x)
    ensures forall i, x :: (0 <= i < ClassDefsSize(b) && ClassDataOff(b, i) == 0
                            && ClassDefAt(b, i) <= x < ClassDefAt(b, i) + CLASS_DEF_SIZE) ==> !InLink(plan, x)
  {
    hide Le32, Plans;
    PlannedDefsHaveData(b, captures, force, 0, plan);
    forall x | InLink(plan, x)
      ensures InDataOff(b, x)
      ensures forall i :: 0 <= i < ClassDefsSize(b) && ClassDataOff(b, i) == 0 ==>
                !(ClassDefAt(b, i) <= x < ClassDefAt(b, i) + CLASS_DEF_SIZE)
    {
      var j :| 0 <= j < |plan| && plan[j].defOff + 24 <= x < plan[j].defOff + 28;
      var k :| DefWithData(b, plan[j].defOff, k);
      forall i | 0 <= i < ClassDefsSize(b) && ClassDataOff(b, i) == 0
        ensures !(ClassDefAt(b, i) <= x < ClassDefAt(b, i) + CLASS_DEF_SIZE)
      {
        DefsSpaced(b, i, k, x);
      }
    }
  }

  lemma DefsSpaced(b: seq<byte>, i: nat, k: nat, x: int)
    requires HasHeader(b) && i != k && ClassDefAt(b, k) <= x < ClassDefAt(b, k) + CLASS_DEF_SIZE
    ensures !(ClassDefAt(b, i) <= x < ClassDefAt(b, i) + CLASS_DEF_SIZE)
  {
    hide Le32;
  }

  ghost predicate KeptBelow(b: seq<byte>, plan: seq<PlannedClass>, r: seq<byte>, base: nat) {
    base <= |b| <= |r| && forall x :: 0 <= x < base && !InLink(plan, x) ==> r[x] == b[x]
  }

  /** What relocation keeps of the tables. */
  lemma TablesKept(b: seq<byte>, captures: Captures, force: bool, plan: seq<PlannedClass>, r: seq<byte>)
    requires ValidateIdBounds(b).Ok? && DefsInFile(b) && Plans(b, captures, force, 0, plan)
    requires KeptBelow(b, plan, r, TablesEnd(b))
    requires DefsApart(plan, TablesEnd(b))
    ensures Agree(b, r, 0, DEX_HEADER_SIZE)
    ensures DefsInFile(r) && SameClassDefs(b, r) && EmptyDefsKept(b, r)
  {
    hide Le32, ValidateIdBounds, TablesEnd, Plans, Agree, InDataOff, ClassDefAt;
    ValidatedDefsInFile(b);
    LinksAreDataOffs(b, captures, force, plan);
    forall x | 0 <= x < DEX_HEADER_SIZE ensures r[x] == b[x] {
      assert !InLink(plan, x);
    }
    AgreePointwise(b, r, 0, DEX_HEADER_SIZE);
    AgreeLe32(b, r, 0, DEX_HEADER_SIZE, 96);
    AgreeLe32(b, r, 0, DEX_HEADER_SIZE, 100);
    assert forall i :: ClassDefAt(r, i) == ClassDefAt(b, i) by {
      SameDefAt(b, r);
    }
    forall i | 0 <= i < ClassDefsSize(b) && ClassDataOff(b, i) == 0
      ensures ClassDataOff(r, i) == 0
    {
      var at := ClassDefAt(b, i);
      AgreePointwise(b, r, at + 24, at + 28);
      AgreeLe32(b, r, at + 24, at + 28, at + 24);
    }
  }

  lemma SameDefAt(b: seq<byte>, r: seq<byte>)
    requires HasHeader(b) && HasHeader(r) && SameClassDefs(b, r)
    ensures forall i: nat :: ClassDefAt(r, i) == ClassDefAt(b, i)
  {
    hide Le32;
  }

  /** `r` is `b` grown: retired sections are zero, data offsets may differ, and
      every other byte kept its value and its place. */
  ghost predicate RestKept(b: seq<byte>, es: seq<MapEntry>, r: seq<byte>)
    requires HasHeader(b)
  {
    && |b| <= |r|
    && forall x :: 0 <= x < |b| && !InDataOff(b, x) ==> r[x] == if Retires(es, |b|, x) then 0 else b[x]
  }

  lemma RestIsKept(b: seq<byte>, es: seq<MapEntry>, plan: seq<PlannedClass>, r: seq<byte>)
    requires HasHeader(b) && OnlyRetired(b, es, plan, r)
    requires forall x :: InLink(plan, x) ==> InDataOff(b, x)
    ensures RestKept(b, es, r)
  {
    hide InLink, InDataOff, Retires;
  }

  /** The items of `plan` moved past the end of `b`: where they are, and the map
      entries announced for them. */
  ghost predicate MovedOut(b: seq<byte>, plan: seq<PlannedClass>, r: seq<byte>, entries: seq<MapEntry>) {
    && EmitBodies(b, plan).Ok?
    && var moved := MovedPlan(b, plan);
    && Laid(r, moved, |b|, CodeEnd(b, plan))
    && |moved| <= U32_MAX && CodeEnd(b, plan) <= U32_MAX
    && entries == [CodeMapEntry(AllMethods(moved)), MapEntry(TYPE_CLASS_DATA, |moved|, CodeEnd(b, plan))]
  }

  /** `plan` lists, from definition `i` on, the classes of `r` that have data,
      with that data. */
  ghost predicate Enumerates(r: seq<byte>, i: nat, plan: seq<PlannedClass>)
    requires DefsInFile(r)
    decreases ClassDefsSize(r) - i
  {
    if i >= ClassDefsSize(r) then plan == []
    else if ClassDataOff(r, i) == 0 then Enumerates(r, i + 1, plan)
    else
      && plan != [] && EnumeratesClass(r, i, plan[0])
      && Enumerates(r, i + 1, plan[1..])
  }

  ghost predicate EnumeratesClass(r: seq<byte>, i: nat, p: PlannedClass)
    requires DefsInFile(r) && i < ClassDefsSize(r)
  {
    && p.defOff == ClassDefAt(r, i)
    && ParseClassData(r, ClassDataOff(r, i)).Ok?
    && ParseClassData(r, ClassDataOff(r, i)).value.0 == p.item
  }

  lemma {:induction false} PlacedPlanEnumerates(
    b: seq<byte>, captures: Captures, force: bool, i: nat, plan: seq<PlannedClass>,
    r: seq<byte>, moved: seq<PlannedClass>, hi: nat, pos: nat)
    requires DefsInFile(b) && DefsInFile(r) && SameClassDefs(b, r) && EmptyDefsKept(b, r)
    requires Plans(b, captures, force, i, plan)
    requires PlanPlaced(b, plan, r, moved, hi) && ClassRun(r, moved, pos, |r|)
    ensures Enumerates(r, i, moved)
    decreases ClassDefsSize(b) - i
  {
    hide ParseClassData, SameLists, Le32, ClassPlaced, PlanMethods, AllResolved, Encodable;
    if i < ClassDefsSize(b) {
      if ClassDataOff(b, i) == 0 {
        PlacedPlanEnumerates(b, captures, force, i + 1, plan, r, moved, hi, pos);
      } else {
        PlanTail(b, plan, r, moved, hi);
        PlacedPlanEnumerates(b, captures, force, i + 1, plan[1..], r, moved[1..], hi, ParseClassData(r, pos).value.1);
        PlacedDefOff(b, plan[0], r, moved[0], hi);
        SameDefAt(b, r);
      }
    }
  }

  lemma PlacedDefOff(b: seq<byte>, p: PlannedClass, c: seq<byte>, q: PlannedClass, hi: nat)
    requires ClassPlaced(b, p, c, q, hi)
    ensures p.defOff == q.defOff
  {
    hide AllResolved, AllPlaced;
  }

  /** When something has to move, the plan's items are laid out past the end,
      the program is kept, and only retired sections and data offsets change. */
  lemma RelocationKeepsProgram(b: seq<byte>, captures: Captures, force: bool)
    requires ValidateIdBounds(b).Ok? && DefsInFile(b) && OffsetsUsable(b, captures, force)
    requires PlanFrom(b, captures, force, 0).Ok? && Relocate(b, PlanFrom(b, captures, force, 0).value).Ok?
    requires ReadMap(b).Ok? && RetiredAbove(ReadMap(b).value, TablesEnd(b))
    ensures
      var plan := PlanFrom(b, captures, force, 0).value;
      var (r, entries) := Relocate(b, plan).value;
      && MovedOut(b, plan, r, entries)
      && DefsInFile(r) && SameClassDefs(b, r) && Agree(b, r, 0, DEX_HEADER_SIZE)
      && ProgramKept(b, captures, force, r)
      && RestKept(b, ReadMap(b).value, r)
      && Enumerates(r, 0, MovedPlan(b, plan))
  {
    hide PlanFrom, Plans, Relocate, Laid, ReadMap, Retires, InDataOff, PlanPlaced, EmitBodies, DefsApart, ValidateIdBounds,
      Agree, ClassKept, OffsetsUsable, Le32, TablesEnd, EditsEncodable, PlanResolved, InLink, ClassDefAt, OnlyRetired,
      RestKept, KeptBelow, DefsInFile, SameClassDefs, EmptyDefsKept;
    var plan := PlanFrom(b, captures, force, 0).value;
    var r := Relocate(b, plan).value.0;
    ValidatedDefsInFile(b);
    PlanFromIs(b, captures, force, 0);
    PlansAreApart(b, captures, force, 0, plan);
    PlansEditEncodable(b, captures, force, 0, plan);
    RelocateIs(b, plan, TablesEnd(b));
    TablesKept(b, captures, force, plan, r);
    LinksAreDataOffs(b, captures, force, plan);
    RestIsKept(b, ReadMap(b).value, plan, r);
    var moved := MovedPlan(b, plan);
    LaidClassRun(r, moved, |b|, CodeEnd(b, plan));
    PlanPlacedLength(b, plan, r, moved, CodeEnd(b, plan));
    PlacedPlanIsKept(b, captures, force, 0, plan, r, moved, CodeEnd(b, plan), CodeEnd(b, plan));
    PlacedPlanEnumerates(b, captures, force, 0, plan, r, moved, CodeEnd(b, plan), CodeEnd(b, plan));
  }

  lemma PlanPlacedLength(b: seq<byte>, plan: seq<PlannedClass>, c: seq<byte>, moved: seq<PlannedClass>, hi: nat)
    requires PlanPlaced(b, plan, c, moved, hi)
    ensures |moved| == |plan|
  {
  }

  lemma LaidClassRun(r: seq<byte>, moved: seq<PlannedClass>, pos: nat, mid: nat)
    requires Laid(r, moved, pos, mid)
    ensures ClassRun(r, moved, mid, |r|) && CodeRun(r, AllMethods(moved), pos, mid) && pos <= mid <= |r|
  {
  }

  // ----- nothing to move -----

  /** With nothing synthesized and nothing lost, every method already leads to
      the item expected of it. */
  lemma UntouchedMethodKept(b: seq<byte>, captures: Captures, force: bool, m: EncodedMethod)
    requires HasHeader(b) && PlanMethod(b, captures, force, m).Ok? && KeepsUsable(b, captures, force, m)
    requires var fate := PlanMethod(b, captures, force, m).value.1; fate == Kept || fate == Failed
    ensures MethodKept(b, captures, force, m, b, m)
  {
    hide CodeItemEnd, InsnsLen, SynthesizeCodeItem, HasNoBody;
    NoItemAtZero(b);
  }

  lemma {:induction false} UntouchedMethodsKept(b: seq<byte>, captures: Captures, force: bool, ms: seq<EncodedMethod>)
    requires HasHeader(b) && PlanMethods(b, captures, force, ms).Ok? && AllKeepUsable(b, captures, force, ms)
    requires forall fate :: fate in PlanMethods(b, captures, force, ms).value.1 ==> fate == Kept || fate == Failed
    ensures MethodsKept(b, captures, force, ms, b, ms)
    decreases |ms|
  {
    hide PlanMethod, KeepsUsable, MethodKept;
    if ms != [] {
      var fates := PlanMethods(b, captures, force, ms).value.1;
      assert fates[0] in fates;
      UntouchedMethodKept(b, captures, force, ms[0]);
      assert forall k :: 0 <= k < |ms[1..]| ==> ms[1..][k] == ms[k + 1];
      assert forall fate :: fate in PlanMethods(b, captures, force, ms[1..]).value.1 ==> fate in fates;
      UntouchedMethodsKept(b, captures, force, ms[1..]);
      forall k | 0 <= k < |ms| ensures MethodKept(b, captures, force, ms[k], b, ms[k]) {
        if k > 0 {
          assert ms[1..][k - 1] == ms[k];
        }
      }
    }
  }

  lemma {:induction false} UntouchedClassesKept(b: seq<byte>, captures: Captures, force: bool, i: nat)
    requires DefsInFile(b) && OffsetsUsable(b, captures, force)
    requires PlanFrom(b, captures, force, i).Ok? && !NeedsRelocation(PlanFrom(b, captures, force, i).value)
    ensures forall k :: i <= k < ClassDefsSize(b) ==> ClassKept(b, captures, force, b, k)
    decreases ClassDefsSize(b) - i
  {
    hide ParseClassData, PlanMethods, AllKeepUsable, MethodsKept, Le32;
    if i < ClassDefsSize(b) {
      assert ClassUsable(b, captures, force, i);
      UntouchedClassesKept(b, captures, force, i + 1);
      if ClassDataOff(b, i) != 0 {
        var item := ParseClassData(b, ClassDataOff(b, i)).value.0;
        var fates := PlanMethods(b, captures, force, item.Methods()).value.1;
        forall fate | fate in fates ensures fate == Kept || fate == Failed {
          assert fate in AllFates(PlanFrom(b, captures, force, i).value);
        }
        UntouchedMethodsKept(b, captures, force, item.Methods());
        SameListsRefl(item);
      }
    }
  }

  lemma SameListsRefl(item: ClassItem)
    ensures SameLists(item, item)
  {
  }

  // ----- the step as a whole -----

  /** The repair step, whether or not it has to move anything: following
      definition, class data and code offset gives every class its old lists and
      every method the item expected of it. */
  lemma AppendPreservesProgram(b: seq<byte>, captures: seq<Capture>, force: bool)
    requires ValidateIdBounds(b).Ok? && DefsInFile(b) && OffsetsUsable(b, ByMethod(captures), force)
    requires ReadMap(b).Ok? && RetiredAbove(ReadMap(b).value, TablesEnd(b))
    requires AppendMissing(b, captures, force).Ok?
    ensures
      var (r, outcome) := AppendMissing(b, captures, force).value;
      && DefsInFile(r) && SameClassDefs(b, r)
      && ProgramKept(b, ByMethod(captures), force, r)
      && (outcome.relocated.None? ==> r == b)
      && (outcome.relocated.Some? ==> RestKept(b, ReadMap(b).value, r))
  {
    hide PlanFrom, Relocate, ReadMap, ValidateIdBounds, OffsetsUsable, ClassKept, Agree, RestKept, MovedOut, Le32,
      NeedsRelocation, TablesEnd, CountFate, CountPending, AllFates;
    var caps := ByMethod(captures);
    var plan := PlanFrom(b, caps, force, 0).value;
    if NeedsRelocation(plan) {
      RelocationKeepsProgram(b, caps, force);
    } else {
      UntouchedClassesKept(b, caps, force, 0);
    }
  }
}
