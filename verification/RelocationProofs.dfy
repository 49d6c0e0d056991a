/**
  What relocation leaves behind: two contiguous runs of items, linked from the
  class definitions, holding the program that was there before.
 */
module RelocationProofs {
  import opened Bytes
  import opened Dex
  import opened ClassData
  import opened CodeItem
  import opened MapList
  import opened Synthesis
  import opened Relocation

  // ----- agreement -----

  /** `b` and `c` carry the same bytes on `[lo, hi)`. */
  ghost predicate Agree(b: seq<byte>, c: seq<byte>, lo: nat, hi: nat) {
    lo <= hi <= |b| && hi <= |c| && b[lo..hi] == c[lo..hi]
  }

  lemma AgreePointwise(b: seq<byte>, c: seq<byte>, lo: nat, hi: nat)
    requires lo <= hi <= |b| && hi <= |c|
    requires forall i :: lo <= i < hi ==> b[i] == c[i]
    ensures Agree(b, c, lo, hi)
  {
  }

  lemma AgreeAt(b: seq<byte>, c: seq<byte>, lo: nat, hi: nat, i: nat)
    requires Agree(b, c, lo, hi) && lo <= i < hi
    ensures b[i] == c[i]
  {
    assert b[i] == b[lo..hi][i - lo] && c[i] == c[lo..hi][i - lo];
  }

  lemma AgreeWithin(b: seq<byte>, c: seq<byte>, lo: nat, hi: nat, x: nat, y: nat)
    requires Agree(b, c, lo, hi) && lo <= x <= y <= hi
    ensures Agree(b, c, x, y)
    ensures Holds(c, x, b[x..y]) && Holds(b, x, c[x..y])
  {
    HoldsWithin(c, lo, b, lo, hi, x, y);
  }

  lemma AgreeLe32(b: seq<byte>, c: seq<byte>, lo: nat, hi: nat, x: nat)
    requires Agree(b, c, lo, hi) && lo <= x && x + 4 <= hi
    ensures Le32(b, x) == Le32(c, x)
  {
    hide Le32;
    AgreeWithin(b, c, lo, hi, x, x + 4);
    Le32Of(b, x, c, x);
  }

  lemma AgreeHolds(b: seq<byte>, c: seq<byte>, lo: nat, hi: nat, x: nat, s: seq<byte>)
    requires Agree(b, c, lo, hi) && Holds(b, x, s) && lo <= x && x + |s| <= hi
    ensures Holds(c, x, s)
  {
    AgreeWithin(b, c, lo, hi, x, x + |s|);
  }

  lemma AgreeCodeItem(b: seq<byte>, c: seq<byte>, lo: nat, hi: nat, off: u32)
    requires Agree(b, c, lo, hi) && CodeItemEnd(b, off).Ok?
    requires lo <= off && CodeItemEnd(b, off).value <= hi
    ensures CodeItemEnd(c, off) == CodeItemEnd(b, off)
    ensures InsnsLen(c, off) == InsnsLen(b, off)
  {
    hide CodeItemEnd, InsnsLen, Agree, Holds;
    var end := CodeItemEnd(b, off).value;
    AgreeWithin(b, c, lo, hi, off, end);
    SameBytesSameShape(b, off, end - off, c, off);
    CodeItemEndLocal(b, off, c, off);
  }

  lemma AgreeClassData(b: seq<byte>, c: seq<byte>, lo: nat, hi: nat, off: nat)
    requires Agree(b, c, lo, hi) && ParseClassData(b, off).Ok?
    requires lo <= off && ParseClassData(b, off).value.1 <= hi
    ensures ParseClassData(c, off) == ParseClassData(b, off)
  {
    hide ParseClassData, Agree, Holds;
    var end := ParseClassData(b, off).value.1;
    AgreeWithin(b, c, lo, hi, off, end);
    ParseClassDataLocal(b, off, c, off);
  }

  lemma PrefixAgrees(b: seq<byte>, c: seq<byte>)
    requires b <= c
    ensures Agree(b, c, 0, |b|)
  {
    assert b[0..|b|] == c[0..|b|];
  }

  // ----- one method's item -----

  /** A planned method has nothing, a standalone item, or a whole item on disk. */
  ghost predicate Resolved(b: seq<byte>, m: EncodedMethod) {
    match m.pending
    case Some(item) => Standalone(item)
    case None => m.codeOff != 0 ==> CodeItemEnd(b, m.codeOff).Ok?
  }

  ghost function BodyOf(b: seq<byte>, m: EncodedMethod): seq<byte>
    requires Resolved(b, m) && !IsBodiless(m)
  {
    match m.pending
    case Some(item) => item
    case None => b[m.codeOff..CodeItemEnd(b, m.codeOff).value]
  }

  /** The method's item stands in `c`, past `base`, where `n` says. */
  ghost predicate Placed(b: seq<byte>, m: EncodedMethod, base: nat, c: seq<byte>, n: EncodedMethod)
    requires Resolved(b, m)
  {
    if IsBodiless(m) then n.codeOff == 0
    else
      && n.codeOff != 0 && n.codeOff % 4 == 0 && base <= n.codeOff
      && Holds(c, n.codeOff, BodyOf(b, m))
  }

  lemma BodyIsStandalone(b: seq<byte>, m: EncodedMethod)
    requires Resolved(b, m) && !IsBodiless(m)
    ensures Standalone(BodyOf(b, m))
  {
    hide CodeItemEnd, Standalone;
    if m.pending.None? {
      ExtractedIsStandalone(b, m.codeOff);
    }
  }

  /** A placed item ends with its bytes. */
  lemma PlacedEnds(b: seq<byte>, m: EncodedMethod, base: nat, c: seq<byte>, n: EncodedMethod)
    requires Resolved(b, m) && !IsBodiless(m) && Placed(b, m, base, c, n)
    ensures CodeItemEnd(c, n.codeOff) == Ok(n.codeOff + |BodyOf(b, m)|)
  {
    hide CodeItemEnd, Standalone, BodyOf, Holds, InsnsLen;
    BodyIsStandalone(b, m);
    StandaloneAnywhere(BodyOf(b, m), c, n.codeOff);
  }

  lemma PlacedFrame(b: seq<byte>, m: EncodedMethod, base: nat, c: seq<byte>, n: EncodedMethod, d: seq<byte>, hi: nat)
    requires Resolved(b, m) && Placed(b, m, base, c, n) && Agree(c, d, base, hi)
    requires !IsBodiless(m) ==> n.codeOff + |BodyOf(b, m)| <= hi
    ensures Placed(b, m, base, d, n)
  {
    hide BodyOf, Agree, Holds;
    if !IsBodiless(m) {
      AgreeHolds(c, d, base, hi, n.codeOff, BodyOf(b, m));
    }
  }

  /** The bytes read for a resolved method from the grown file are those of the
      original. */
  lemma BodyBytesOf(b: seq<byte>, c: seq<byte>, m: EncodedMethod)
    requires b <= c && Resolved(b, m) && !IsBodiless(m)
    ensures BodyBytes(c, m) == Ok(BodyOf(b, m))
  {
    hide CodeItemEnd, Standalone, InsnsLen;
    if m.pending.None? {
      PrefixAgrees(b, c);
      AgreeCodeItem(b, c, 0, |b|, m.codeOff);
      AgreeWithin(b, c, 0, |b|, m.codeOff, CodeItemEnd(b, m.codeOff).value);
    }
  }

  // ----- runs of items -----

  /** The items of `ms` follow one another in `c`, each at the next aligned
      offset, from `pos` to `end`. */
  ghost predicate CodeRun(c: seq<byte>, ms: seq<EncodedMethod>, pos: nat, end: nat)
    decreases |ms|
  {
    if ms == [] then pos == end
    else if ms[0].codeOff == 0 then CodeRun(c, ms[1..], pos, end)
    else
      && ms[0].codeOff == Align4(pos)
      && CodeItemEnd(c, ms[0].codeOff).Ok?
      && CodeRun(c, ms[1..], CodeItemEnd(c, ms[0].codeOff).value, end)
  }

  lemma {:induction false} CodeRunBounds(c: seq<byte>, ms: seq<EncodedMethod>, pos: nat, end: nat)
    requires CodeRun(c, ms, pos, end) && pos <= |c|
    ensures pos <= end <= |c|
    decreases |ms|
  {
    hide CodeItemEnd;
    if ms != [] {
      if ms[0].codeOff == 0 {
        CodeRunBounds(c, ms[1..], pos, end);
      } else {
        CodeRunBounds(c, ms[1..], CodeItemEnd(c, ms[0].codeOff).value, end);
      }
    }
  }

  lemma {:induction false} CodeRunJoin(c: seq<byte>, ms: seq<EncodedMethod>, ns: seq<EncodedMethod>, pos: nat, mid: nat, end: nat)
    requires CodeRun(c, ms, pos, mid) && CodeRun(c, ns, mid, end)
    ensures CodeRun(c, ms + ns, pos, end)
    decreases |ms|
  {
    hide CodeItemEnd;
    if ms == [] {
      assert ms + ns == ns;
    } else {
      assert (ms + ns)[1..] == ms[1..] + ns;
      if ms[0].codeOff == 0 {
        CodeRunJoin(c, ms[1..], ns, pos, mid, end);
      } else {
        CodeRunJoin(c, ms[1..], ns, CodeItemEnd(c, ms[0].codeOff).value, mid, end);
      }
    }
  }

  lemma {:induction false} CodeRunFrame(c: seq<byte>, ms: seq<EncodedMethod>, pos: nat, end: nat, d: seq<byte>, lo: nat)
    requires CodeRun(c, ms, pos, end) && lo <= pos <= |c|
    requires Agree(c, d, lo, end)
    ensures CodeRun(d, ms, pos, end)
    decreases |ms|
  {
    hide CodeItemEnd, Agree, InsnsLen;
    if ms != [] {
      if ms[0].codeOff == 0 {
        CodeRunFrame(c, ms[1..], pos, end, d, lo);
      } else {
        var next := CodeItemEnd(c, ms[0].codeOff).value;
        CodeRunBounds(c, ms[1..], next, end);
        AgreeCodeItem(c, d, lo, end, ms[0].codeOff);
        CodeRunFrame(c, ms[1..], next, end, d, lo);
      }
    }
  }

  /** The data of the planned classes follow one another in `c` from `pos` to
      `end`, each linked from its definition. */
  ghost predicate ClassRun(c: seq<byte>, plan: seq<PlannedClass>, pos: nat, end: nat)
    decreases |plan|
  {
    if plan == [] then pos == end
    else
      && 0 < pos <= U32_MAX
      && plan[0].defOff + 28 <= |c| && Le32(c, plan[0].defOff + 24) == pos
      && ParseClassData(c, pos).Ok? && ParseClassData(c, pos).value.0 == plan[0].item
      && ClassRun(c, plan[1..], ParseClassData(c, pos).value.1, end)
  }

  lemma {:induction false} ClassRunBounds(c: seq<byte>, plan: seq<PlannedClass>, pos: nat, end: nat)
    requires ClassRun(c, plan, pos, end) && pos <= |c|
    ensures pos <= end <= |c|
    decreases |plan|
  {
    hide ParseClassData, Le32;
    if plan != [] {
      ClassRunBounds(c, plan[1..], ParseClassData(c, pos).value.1, end);
    }
  }

  /** Every definition still points where it did. */
  ghost predicate SameLinks(c: seq<byte>, d: seq<byte>, plan: seq<PlannedClass>) {
    forall j :: 0 <= j < |plan| ==> SameLink(c, d, plan[j].defOff)
  }

  ghost predicate SameLink(c: seq<byte>, d: seq<byte>, defOff: nat) {
    Agree(c, d, defOff + 24, defOff + 28)
  }

  lemma {:induction false} ClassRunFrame(c: seq<byte>, plan: seq<PlannedClass>, pos: nat, end: nat, d: seq<byte>)
    requires ClassRun(c, plan, pos, end) && pos <= |c|
    requires Agree(c, d, pos, end) && SameLinks(c, d, plan)
    ensures ClassRun(d, plan, pos, end)
    decreases |plan|
  {
    hide ParseClassData, Agree, Le32;
    if plan != [] {
      var next := ParseClassData(c, pos).value.1;
      ClassRunBounds(c, plan[1..], next, end);
      AgreeClassData(c, d, pos, end, pos);
      assert SameLink(c, d, plan[0].defOff);
      AgreeLe32(c, d, plan[0].defOff + 24, plan[0].defOff + 28, plan[0].defOff + 24);
      AgreeLength(c, d, plan[0].defOff + 24, plan[0].defOff + 28);
      AgreeWithin(c, d, pos, end, next, end);
      assert SameLinks(c, d, plan[1..]) by {
        assert forall j :: 0 <= j < |plan[1..]| ==> plan[1..][j] == plan[j + 1];
      }
      ClassRunFrame(c, plan[1..], next, end, d);
    }
  }

  lemma AgreeLength(c: seq<byte>, d: seq<byte>, lo: nat, hi: nat)
    requires Agree(c, d, lo, hi)
    ensures lo <= hi <= |c| && hi <= |d|
  {
  }

  // ----- emitting -----

  lemma EmitMethodIs(b: seq<byte>, c: seq<byte>, m: EncodedMethod)
    requires b <= c && b != [] && Resolved(b, m) && EmitMethod(c, m).Ok?
    ensures var (c', n) := EmitMethod(c, m).value;
            && Placed(b, m, |b|, c', n)
            && CodeRun(c', [n], |c|, |c'|)
            && (!IsBodiless(m) ==> n.codeOff + |BodyOf(b, m)| == |c'|)
  {
    hide CodeItemEnd, Standalone, BodyOf, Align4, BodyBytes, Holds, InsnsLen, CodeRun, EmitMethod, Resolved;
    var (c', n) := EmitMethod(c, m).value;
    EmittedShape(c, m);
    if !IsBodiless(m) {
      BodyBytesOf(b, c, m);
      HoldsLast(AlignTo4(c), BodyOf(b, m));
      PlacedEnds(b, m, |b|, c', n);
    }
    CodeRunOne(c', n, |c|);
  }

  /** A copied item ends the file, at the next aligned offset. */
  lemma EmittedShape(c: seq<byte>, m: EncodedMethod)
    requires c != [] && EmitMethod(c, m).Ok?
    ensures var (c', n) := EmitMethod(c, m).value;
            && (IsBodiless(m) ==> c' == c && n.codeOff == 0)
            && (!IsBodiless(m) ==>
                  && BodyBytes(c, m).Ok? && c' == AlignTo4(c) + BodyBytes(c, m).value
                  && n.codeOff == |AlignTo4(c)| == Align4(|c|) && n.codeOff % 4 == 0 && |c| <= n.codeOff)
  {
    hide BodyBytes;
  }

  lemma HoldsLast(front: seq<byte>, s: seq<byte>)
    ensures Holds(front + s, |front|, s)
  {
  }

  /** A run of one method. */
  lemma CodeRunOne(c: seq<byte>, n: EncodedMethod, pos: nat)
    requires if n.codeOff == 0 then pos == |c| else n.codeOff == Align4(pos) && CodeItemEnd(c, n.codeOff) == Ok(|c|)
    ensures CodeRun(c, [n], pos, |c|)
  {
    hide CodeItemEnd, Align4;
    assert [n][1..] == [];
  }

  ghost predicate AllResolved(b: seq<byte>, ms: seq<EncodedMethod>) {
    forall k :: 0 <= k < |ms| ==> Resolved(b, ms[k])
  }

  /** Method by method, the items of `ms` stand in `c` where `ns` says, below
      `hi`; nothing else about the methods changed. */
  ghost predicate AllPlaced(b: seq<byte>, ms: seq<EncodedMethod>, base: nat, c: seq<byte>, ns: seq<EncodedMethod>, hi: nat)
    requires AllResolved(b, ms)
  {
    && |ms| == |ns|
    && forall k :: 0 <= k < |ms| ==> MethodPlaced(b, ms[k], base, c, ns[k], hi)
  }

  ghost predicate MethodPlaced(b: seq<byte>, m: EncodedMethod, base: nat, c: seq<byte>, n: EncodedMethod, hi: nat)
    requires Resolved(b, m)
  {
    && SameMethod(m, n) && n.pending == None
    && Placed(b, m, base, c, n)
    && (!IsBodiless(m) ==> n.codeOff + |BodyOf(b, m)| <= hi)
  }

  lemma MethodPlacedFrame(b: seq<byte>, m: EncodedMethod, base: nat, c: seq<byte>, n: EncodedMethod, hi: nat, d: seq<byte>, hi': nat)
    requires Resolved(b, m) && MethodPlaced(b, m, base, c, n, hi) && hi <= hi' && Agree(c, d, base, hi)
    ensures MethodPlaced(b, m, base, d, n, hi')
  {
    hide Placed, BodyOf, Agree;
    PlacedFrame(b, m, base, c, n, d, hi);
  }

  lemma AllPlacedFrame(b: seq<byte>, ms: seq<EncodedMethod>, base: nat, c: seq<byte>, ns: seq<EncodedMethod>, hi: nat, d: seq<byte>, hi': nat)
    requires AllResolved(b, ms) && AllPlaced(b, ms, base, c, ns, hi) && hi <= hi' && Agree(c, d, base, hi)
    ensures AllPlaced(b, ms, base, d, ns, hi')
  {
    hide MethodPlaced, Agree, Resolved;
    forall k | 0 <= k < |ms|
      ensures MethodPlaced(b, ms[k], base, d, ns[k], hi')
    {
      MethodPlacedFrame(b, ms[k], base, c, ns[k], hi, d, hi');
    }
  }

  lemma PrefixAgreesFrom(c: seq<byte>, d: seq<byte>, lo: nat)
    requires c <= d && lo <= |c|
    ensures Agree(c, d, lo, |c|)
  {
    assert d[lo..|c|] == c[lo..|c|];
  }

  lemma {:induction false} EmitMethodsAre(b: seq<byte>, c: seq<byte>, ms: seq<EncodedMethod>)
    requires b <= c && b != [] && AllResolved(b, ms) && EmitMethods(c, ms).Ok?
    ensures var (c', ns) := EmitMethods(c, ms).value;
            AllPlaced(b, ms, |b|, c', ns, |c'|) && CodeRun(c', ns, |c|, |c'|)
    decreases |ms|
  {
    hide EmitMethod, Resolved, MethodPlaced, Agree, CodeItemEnd;
    var (c', ns) := EmitMethods(c, ms).value;
    if ms != [] {
      var (c1, n) := EmitMethod(c, ms[0]).value;
      var (c2, rest) := EmitMethods(c1, ms[1..]).value;
      EmitMethodIs(b, c, ms[0]);
      assert MethodPlaced(b, ms[0], |b|, c1, n, |c1|) by {
        PlacedMethod(b, c, ms[0]);
      }
      assert AllResolved(b, ms[1..]);
      EmitMethodsAre(b, c1, ms[1..]);
      PrefixAgreesFrom(c1, c2, |b|);
      MethodPlacedFrame(b, ms[0], |b|, c1, n, |c1|, c2, |c2|);
      forall k | 0 <= k < |ms|
        ensures MethodPlaced(b, ms[k], |b|, c2, ns[k], |c2|)
      {
        if k > 0 {
          assert MethodPlaced(b, ms[1..][k - 1], |b|, c2, rest[k - 1], |c2|);
        }
      }
      PrefixAgreesFrom(c1, c2, |c|);
      CodeRunFrame(c1, [n], |c|, |c1|, c2, |c|);
      CodeRunJoin(c2, [n], rest, |c|, |c1|, |c2|);
    }
  }

  lemma PlacedMethod(b: seq<byte>, c: seq<byte>, m: EncodedMethod)
    requires b <= c && b != [] && Resolved(b, m) && EmitMethod(c, m).Ok?
    ensures var (c', n) := EmitMethod(c, m).value; MethodPlaced(b, m, |b|, c', n, |c'|)
  {
    hide Placed, BodyOf, Resolved, CodeRun, EmitMethod;
    EmitMethodIs(b, c, m);
  }

  // ----- emitting classes -----

  /** Class by class, `moved` is `plan` with its methods placed in `c`. */
  ghost predicate PlanPlaced(b: seq<byte>, plan: seq<PlannedClass>, c: seq<byte>, moved: seq<PlannedClass>, hi: nat) {
    && |plan| == |moved|
    && forall j :: 0 <= j < |plan| ==> ClassPlaced(b, plan[j], c, moved[j], hi)
  }

  ghost predicate ClassPlaced(b: seq<byte>, p: PlannedClass, c: seq<byte>, q: PlannedClass, hi: nat) {
    && p.defOff == q.defOff
    && p.item.staticFields == q.item.staticFields && p.item.instanceFields == q.item.instanceFields
    && |p.item.directMethods| == |q.item.directMethods|
    && AllResolved(b, p.item.Methods())
    && AllPlaced(b, p.item.Methods(), |b|, c, q.item.Methods(), hi)
  }

  ghost predicate PlanResolved(b: seq<byte>, plan: seq<PlannedClass>) {
    forall j :: 0 <= j < |plan| ==> AllResolved(b, plan[j].item.Methods())
  }

  lemma ClassPlacedFrame(b: seq<byte>, p: PlannedClass, c: seq<byte>, q: PlannedClass, hi: nat, d: seq<byte>, hi': nat)
    requires ClassPlaced(b, p, c, q, hi) && hi <= hi' && Agree(c, d, |b|, hi)
    ensures ClassPlaced(b, p, d, q, hi')
  {
    hide AllPlaced, AllResolved, Agree;
    AllPlacedFrame(b, p.item.Methods(), |b|, c, q.item.Methods(), hi, d, hi');
  }

  lemma PlanPlacedFrame(
    b: seq<byte>, plan: seq<PlannedClass>, c: seq<byte>, moved: seq<PlannedClass>, hi: nat, d: seq<byte>, hi': nat)
    requires PlanPlaced(b, plan, c, moved, hi) && hi <= hi' && Agree(c, d, |b|, hi)
    ensures PlanPlaced(b, plan, d, moved, hi')
  {
    hide ClassPlaced, Agree;
    forall j | 0 <= j < |plan|
      ensures ClassPlaced(b, plan[j], d, moved[j], hi')
    {
      ClassPlacedFrame(b, plan[j], c, moved[j], hi, d, hi');
    }
  }

  lemma {:induction false} EmitBodiesAre(b: seq<byte>, c: seq<byte>, plan: seq<PlannedClass>)
    requires b <= c && b != [] && PlanResolved(b, plan) && EmitBodies(c, plan).Ok?
    ensures var (c', moved) := EmitBodies(c, plan).value;
            PlanPlaced(b, plan, c', moved, |c'|) && CodeRun(c', AllMethods(moved), |c|, |c'|)
    decreases |plan|
  {
    hide EmitMethods, AllPlaced, AllResolved, ClassPlaced, CodeRun, Agree;
    var (c', moved) := EmitBodies(c, plan).value;
    if plan != [] {
      var ms := plan[0].item.Methods();
      var (c1, ns) := EmitMethods(c, ms).value;
      var (c2, rest) := EmitBodies(c1, plan[1..]).value;
      EmitMethodsAre(b, c, ms);
      EmitBodiesAre(b, c1, plan[1..]);
      PrefixAgreesFrom(c1, c2, |b|);
      FirstClassPlaced(b, c1, plan[0], ns);
      ClassPlacedFrame(b, plan[0], c1, moved[0], |c1|, c2, |c2|);
      forall j | 0 <= j < |plan|
        ensures ClassPlaced(b, plan[j], c2, moved[j], |c2|)
      {
        if j > 0 {
          assert ClassPlaced(b, plan[1..][j - 1], c2, rest[j - 1], |c2|);
        }
      }
      PrefixAgreesFrom(c1, c2, |c|);
      CodeRunFrame(c1, ns, |c|, |c1|, c2, |c|);
      CodeRunJoin(c2, ns, AllMethods(rest), |c|, |c1|, |c2|);
      assert moved[1..] == rest;
    } else {
      EmptyRun(c);
    }
  }

  lemma EmptyRun(c: seq<byte>)
    ensures CodeRun(c, [], |c|, |c|)
  {
  }

  lemma FirstClassPlaced(b: seq<byte>, c: seq<byte>, p: PlannedClass, ns: seq<EncodedMethod>)
    requires AllResolved(b, p.item.Methods()) && AllPlaced(b, p.item.Methods(), |b|, c, ns, |c|)
    ensures |ns| == |p.item.Methods()|
    ensures ClassPlaced(b, p, c, p.(item := p.item.WithMethods(ns)), |c|)
  {
    hide MethodPlaced, Resolved;
  }

  /** Planned definitions stand apart, in order, below `base`. */
  ghost predicate DefsApart(plan: seq<PlannedClass>, base: nat) {
    && (forall j :: 0 <= j < |plan| ==> DEX_HEADER_SIZE <= plan[j].defOff && plan[j].defOff + CLASS_DEF_SIZE <= base)
    && (forall j, k :: 0 <= j < k < |plan| ==> plan[j].defOff + CLASS_DEF_SIZE <= plan[k].defOff)
  }

  /** `d` differs from `c` only in the data offsets of planned definitions. */
  ghost predicate OnlyLinksChanged(c: seq<byte>, d: seq<byte>, plan: seq<PlannedClass>) {
    && |c| <= |d|
    && forall i :: 0 <= i < |c| && !InLink(plan, i) ==> c[i] == d[i]
  }

  ghost predicate InLink(plan: seq<PlannedClass>, i: int) {
    exists j :: 0 <= j < |plan| && plan[j].defOff + 24 <= i < plan[j].defOff + 28
  }

  lemma EmitClassIs(c: seq<byte>, p: PlannedClass, base: nat)
    requires EmitClass(c, p).Ok? && p.defOff + CLASS_DEF_SIZE <= base <= |c| && Encodable(p.item)
    ensures var d := EmitClass(c, p).value;
            && |c| < |d|
            && Le32(d, p.defOff + 24) == |c|
            && ParseClassData(d, |c|) == Ok((p.item, |d|))
            && (forall i :: 0 <= i < |c| && !(p.defOff + 24 <= i < p.defOff + 28) ==> d[i] == c[i])
  {
    hide EncodeClassData, ParseClassData, Encodable, Le32;
    var d := EmitClass(c, p).value;
    var code := EncodeClassData(p.item);
    assert d[|c|..|c| + |code|] == code;
    ClassDataRoundTrip(d, |c|, p.item);
    assert d[p.defOff + 24..p.defOff + 28] == PutLe32(|c|);
    HeldLe32(d, p.defOff + 24, |c|);
  }

  lemma {:induction false} EmitClassesAre(c: seq<byte>, plan: seq<PlannedClass>, base: nat)
    requires EmitClasses(c, plan).Ok? && DefsApart(plan, base) && base <= |c| && |c| > 0
    requires forall j :: 0 <= j < |plan| ==> Encodable(plan[j].item)
    ensures var d := EmitClasses(c, plan).value;
            OnlyLinksChanged(c, d, plan) && ClassRun(d, plan, |c|, |d|)
    decreases |plan|
  {
    hide ParseClassData, Encodable, Le32, EmitClass;
    var d := EmitClasses(c, plan).value;
    if plan != [] {
      var c1 := EmitClass(c, plan[0]).value;
      EmitClassIs(c, plan[0], base);
      var rest := plan[1..];
      assert forall j :: 0 <= j < |rest| ==> rest[j] == plan[j + 1];
      EmitClassesAre(c1, rest, base);
      FirstLinkKept(c, c1, d, plan, base);
      assert plan[0].defOff + 28 <= |c1|;
    }
  }

  lemma FirstLinkKept(c: seq<byte>, c1: seq<byte>, d: seq<byte>, plan: seq<PlannedClass>, base: nat)
    requires plan != [] && DefsApart(plan, base) && base <= |c| < |c1| <= |d|
    requires OnlyLinksChanged(c1, d, plan[1..])
    requires forall i :: 0 <= i < |c| && !(plan[0].defOff + 24 <= i < plan[0].defOff + 28) ==> c1[i] == c[i]
    requires ParseClassData(c1, |c|).Ok? && ParseClassData(c1, |c|).value.1 == |c1|
    ensures OnlyLinksChanged(c, d, plan)
    ensures ParseClassData(d, |c|) == ParseClassData(c1, |c|)
    ensures Le32(d, plan[0].defOff + 24) == Le32(c1, plan[0].defOff + 24)
  {
    hide ParseClassData, Le32;
    var rest := plan[1..];
    assert forall j :: 0 <= j < |rest| ==> rest[j] == plan[j + 1];
    forall i | 0 <= i < |c1| && (base <= i || i < plan[0].defOff + CLASS_DEF_SIZE)
      ensures c1[i] == d[i]
    {
      assert !InLink(rest, i);
    }
    forall i | 0 <= i < |c| && !InLink(plan, i)
      ensures c[i] == d[i]
    {
      assert !InLink(rest, i);
      assert !(plan[0].defOff + 24 <= i < plan[0].defOff + 28);
    }
    AgreePointwise(c1, d, |c|, |c1|);
    AgreeClassData(c1, d, |c|, |c1|, |c|);
    var at := plan[0].defOff + 24;
    AgreePointwise(c1, d, at, at + 4);
    AgreeLe32(c1, d, at, at + 4, at);
  }

  // ----- retiring -----

  ghost predicate InRange(ranges: seq<(nat, nat)>, i: int) {
    exists k :: 0 <= k < |ranges| && ranges[k].0 <= i < ranges[k].1
  }

  lemma {:induction false} ZeroRangesAre(b: seq<byte>, ranges: seq<(nat, nat)>)
    requires forall k :: 0 <= k < |ranges| ==> ranges[k].0 <= ranges[k].1 <= |b|
    ensures forall i :: 0 <= i < |b| ==> ZeroRanges(b, ranges)[i] == if InRange(ranges, i) then 0 else b[i]
    decreases |ranges|
  {
    if ranges != [] {
      var rest := ranges[1..];
      assert forall k :: 0 <= k < |rest| ==> rest[k] == ranges[k + 1];
      var b1 := ZeroRange(b, ranges[0].0, ranges[0].1);
      ZeroRangesAre(b1, rest);
      forall i | 0 <= i < |b|
        ensures ZeroRanges(b, ranges)[i] == if InRange(ranges, i) then 0 else b[i]
      {
        if InRange(rest, i) {
          var k :| 0 <= k < |rest| && rest[k].0 <= i < rest[k].1;
          assert ranges[k + 1].0 <= i < ranges[k + 1].1;
        }
      }
    }
  }

  // ----- plans -----

  /** A method that keeps its own offset keeps a usable one. */
  ghost predicate KeepsUsable(b: seq<byte>, captures: Captures, force: bool, m: EncodedMethod)
    requires HasHeader(b)
  {
    var plan := PlanMethod(b, captures, force, m);
    HasNoBody(m.accessFlags) || (plan.Ok? && plan.value.1 == Failed) ==>
      m.codeOff == 0 || CodeItemEnd(b, m.codeOff).Ok?
  }

  lemma PlanMethodIs(b: seq<byte>, captures: Captures, force: bool, m: EncodedMethod)
    requires HasHeader(b) && m.pending == None
    requires PlanMethod(b, captures, force, m).Ok? && KeepsUsable(b, captures, force, m)
    ensures var n := PlanMethod(b, captures, force, m).value.0;
            SameMethod(m, n) && Resolved(b, n)
  {
    hide CodeItemEnd, InsnsLen, SynthesizeCodeItem, Standalone, HasNoBody, HexDecode, Le16;
    NoItemAtZero(b);
    if m.methodIdx in captures {
      var capture := captures[m.methodIdx];
      if SynthesizeCodeItem(b, m.methodIdx, m.accessFlags, capture, force).Ok? {
        SynthesizedItem(b, m.methodIdx, m.accessFlags, capture, force);
      }
    }
  }

  lemma NoItemAtZero(b: seq<byte>)
    ensures InsnsLen(b, 0).None? && CodeItemEnd(b, 0).Err?
  {
  }

  ghost predicate AllKeepUsable(b: seq<byte>, captures: Captures, force: bool, ms: seq<EncodedMethod>)
    requires HasHeader(b)
  {
    forall k :: 0 <= k < |ms| ==> KeepsUsable(b, captures, force, ms[k])
  }

  lemma {:induction false} PlanMethodsAre(b: seq<byte>, captures: Captures, force: bool, ms: seq<EncodedMethod>)
    requires HasHeader(b) && NothingPending(ms) && AllKeepUsable(b, captures, force, ms)
    requires PlanMethods(b, captures, force, ms).Ok?
    ensures var (ns, fates) := PlanMethods(b, captures, force, ms).value;
            && SameMethods(ms, ns) && AllResolved(b, ns)
            && forall k :: 0 <= k < |ms| ==> PlanMethod(b, captures, force, ms[k]) == Ok((ns[k], fates[k]))
    decreases |ms|
  {
    hide PlanMethod, Resolved, KeepsUsable, SameMethod;
    if ms != [] {
      var (ns, fates) := PlanMethods(b, captures, force, ms).value;
      var tail := ms[1..];
      assert forall k :: 0 <= k < |tail| ==> tail[k] == ms[k + 1];
      PlanMethodIs(b, captures, force, ms[0]);
      PlanMethodsAre(b, captures, force, tail);
      var (rest, restFates) := PlanMethods(b, captures, force, tail).value;
      forall k | 0 <= k < |ms|
        ensures PlanMethod(b, captures, force, ms[k]) == Ok((ns[k], fates[k]))
        ensures SameMethod(ms[k], ns[k]) && Resolved(b, ns[k])
      {
        if k > 0 {
          assert tail[k - 1] == ms[k] && rest[k - 1] == ns[k] && restFates[k - 1] == fates[k];
        }
      }
    }
  }

  function ClassDataOff(b: seq<byte>, i: nat): u32
    requires HasHeader(b) && ClassDefAt(b, i) + CLASS_DEF_SIZE <= |b|
  {
    Le32(b, ClassDefAt(b, i) + 24)
  }

  ghost predicate DefsInFile(b: seq<byte>) {
    HasHeader(b) && forall i :: 0 <= i < ClassDefsSize(b) ==> ClassDefAt(b, i) + CLASS_DEF_SIZE <= |b|
  }

  /** Every method of every class keeps a usable offset or none. */
  ghost predicate OffsetsUsable(b: seq<byte>, captures: Captures, force: bool)
    requires DefsInFile(b)
  {
    forall i :: 0 <= i < ClassDefsSize(b) ==> ClassUsable(b, captures, force, i)
  }

  ghost predicate ClassUsable(b: seq<byte>, captures: Captures, force: bool, i: nat)
    requires DefsInFile(b) && i < ClassDefsSize(b)
  {
    var off := ClassDataOff(b, i);
    off != 0 && ParseClassData(b, off).Ok? ==>
      AllKeepUsable(b, captures, force, ParseClassData(b, off).value.0.Methods())
  }

  /** `plan` lists, from definition `i` on, the classes that have data. */
  ghost predicate Plans(b: seq<byte>, captures: Captures, force: bool, i: nat, plan: seq<PlannedClass>)
    requires DefsInFile(b)
    decreases ClassDefsSize(b) - i
  {
    if i >= ClassDefsSize(b) then plan == []
    else if ClassDataOff(b, i) == 0 then Plans(b, captures, force, i + 1, plan)
    else
      && plan != [] && PlansClass(b, captures, force, i, plan[0])
      && Plans(b, captures, force, i + 1, plan[1..])
  }

  /** `p` is the planned edit of class definition `i`. */
  ghost predicate PlansClass(b: seq<byte>, captures: Captures, force: bool, i: nat, p: PlannedClass)
    requires DefsInFile(b) && i < ClassDefsSize(b)
  {
    && p.defOff == ClassDefAt(b, i)
    && ParseClassData(b, ClassDataOff(b, i)).Ok?
    && var item := ParseClassData(b, ClassDataOff(b, i)).value.0;
    && SameLists(item, p.item) && Encodable(item)
    && AllResolved(b, p.item.Methods())
    && PlanMethods(b, captures, force, item.Methods()) == Ok((p.item.Methods(), p.fates))
  }

  lemma PlannedClassIs(b: seq<byte>, captures: Captures, force: bool, i: nat, p: PlannedClass)
    requires DefsInFile(b) && i < ClassDefsSize(b) && ClassUsable(b, captures, force, i)
    requires ClassDataOff(b, i) != 0 && ParseClassData(b, ClassDataOff(b, i)).Ok?
    requires var item := ParseClassData(b, ClassDataOff(b, i)).value.0;
             PlanMethods(b, captures, force, item.Methods()).Ok?
             && var (ns, fates) := PlanMethods(b, captures, force, item.Methods()).value;
             p == PlannedClass(ClassDefAt(b, i), item.WithMethods(ns), fates)
    ensures PlansClass(b, captures, force, i, p)
  {
    hide ParseClassData, PlanMethods, KeepsUsable, Resolved, Le32, Encodable, PlanMethod, SameMethod;
    ParsedIsEncodable(b, ClassDataOff(b, i));
    var item := ParseClassData(b, ClassDataOff(b, i)).value.0;
    EncodableHasNothingPending(item);
    PlanMethodsAre(b, captures, force, item.Methods());
    var ns := PlanMethods(b, captures, force, item.Methods()).value.0;
    WithMethodsKeepsLists(item, ns);
  }

  lemma EncodableHasNothingPending(item: ClassItem)
    requires Encodable(item)
    ensures NothingPending(item.Methods())
  {
    hide FieldsAscend, MethodsAscend;
  }

  lemma WithMethodsKeepsLists(item: ClassItem, ns: seq<EncodedMethod>)
    requires SameMethods(item.Methods(), ns)
    ensures SameLists(item, item.WithMethods(ns))
  {
    hide SameMethod;
    var n := |item.directMethods|;
    forall k | 0 <= k < n
      ensures SameMethod(item.directMethods[k], ns[..n][k])
    {
      assert SameMethod(item.Methods()[k], ns[k]);
    }
    forall k | 0 <= k < |item.virtualMethods|
      ensures SameMethod(item.virtualMethods[k], ns[n..][k])
    {
      assert SameMethod(item.Methods()[n + k], ns[n + k]);
    }
  }

  lemma {:induction false} PlanFromIs(b: seq<byte>, captures: Captures, force: bool, i: nat)
    requires DefsInFile(b) && OffsetsUsable(b, captures, force)
    requires PlanFrom(b, captures, force, i).Ok?
    ensures Plans(b, captures, force, i, PlanFrom(b, captures, force, i).value)
    decreases ClassDefsSize(b) - i
  {
    hide ParseClassData, PlanMethods, AllKeepUsable, Le32, PlansClass;
    if i < ClassDefsSize(b) {
      assert ClassUsable(b, captures, force, i);
      PlanFromIs(b, captures, force, i + 1);
      if ClassDataOff(b, i) != 0 {
        PlannedClassIs(b, captures, force, i, PlanFrom(b, captures, force, i).value[0]);
      }
    }
  }

  lemma {:induction false} PlansAreApart(b: seq<byte>, captures: Captures, force: bool, i: nat, plan: seq<PlannedClass>)
    requires DefsInFile(b) && ValidateIdBounds(b).Ok? && Plans(b, captures, force, i, plan)
    ensures DefsApart(plan, TablesEnd(b)) && TablesEnd(b) <= |b|
    ensures PlanResolved(b, plan)
    ensures forall j :: 0 <= j < |plan| ==> ClassDefAt(b, i) <= plan[j].defOff
    decreases ClassDefsSize(b) - i
  {
    hide Le32, ParseClassData, PlanMethods, AllResolved, SameLists, TablesEnd, ValidateIdBounds, Encodable;
    TablesEndBounds(b);
    if i < ClassDefsSize(b) {
      if ClassDataOff(b, i) == 0 {
        PlansAreApart(b, captures, force, i + 1, plan);
      } else {
        var rest := plan[1..];
        PlansAreApart(b, captures, force, i + 1, rest);
        ClassDefInside(b, i);
        forall j | 0 <= j < |plan|
          ensures ClassDefAt(b, i) <= plan[j].defOff
          ensures DEX_HEADER_SIZE <= plan[j].defOff && plan[j].defOff + CLASS_DEF_SIZE <= TablesEnd(b)
          ensures AllResolved(b, plan[j].item.Methods())
          ensures j > 0 ==> plan[0].defOff + CLASS_DEF_SIZE <= plan[j].defOff
        {
          if j > 0 {
            assert rest[j - 1] == plan[j];
          }
        }
        forall j, k | 0 <= j < k < |plan|
          ensures plan[j].defOff + CLASS_DEF_SIZE <= plan[k].defOff
        {
          if j > 0 {
            assert rest[j - 1] == plan[j] && rest[k - 1] == plan[k];
          }
        }
      }
    }
  }
}
