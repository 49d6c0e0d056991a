/**
  Interval coverage: the sorted, separated list of byte ranges received so far.
 */
module Intervals {
  import opened Bytes

  type Interval = (u32, u32)

  ghost predicate Covered(ivs: seq<Interval>, x: int) {
    exists i :: 0 <= i < |ivs| && ivs[i].0 <= x < ivs[i].1
  }

  /** Sorted, no entry empty, and a gap of at least one byte between entries. */
  predicate Canonical(ivs: seq<Interval>) {
    && (forall i :: 0 <= i < |ivs| ==> ivs[i].0 < ivs[i].1)
    && (forall i, j :: 0 <= i < j < |ivs| ==> ivs[i].1 < ivs[j].0)
  }

  function Widen(added: Interval, iv: Interval): Interval {
    (if iv.0 < added.0 then iv.0 else added.0, if iv.1 > added.1 then iv.1 else added.1)
  }

  /** Swallow leading entries that overlap or touch the new one. */
  function Coalesce(ivs: seq<Interval>, added: Interval): seq<Interval> {
    if ivs != [] && ivs[0].0 <= added.1 then Coalesce(ivs[1..], Widen(added, ivs[0]))
    else [added] + ivs
  }

  /** Pass over entries that end before the new one, then coalesce. */
  function Insert(ivs: seq<Interval>, added: Interval): seq<Interval> {
    if ivs != [] && ivs[0].1 < added.0 then [ivs[0]] + Insert(ivs[1..], added)
    else Coalesce(ivs, added)
  }

  /** `DexRecvState::record`; an empty range records nothing. */
  function Recorded(ivs: seq<Interval>, start: u32, end: u32): seq<Interval> {
    if start >= end then ivs else Insert(ivs, (start, end))
  }

  /** `DexRecvState::is_complete`. */
  predicate IsComplete(ivs: seq<Interval>, total: u32) {
    |ivs| == 1 && ivs[0].0 == 0 && ivs[0].1 >= total
  }

  // ----- recording is exact -----

  lemma CoveredHead(ivs: seq<Interval>, x: int)
    requires ivs != []
    ensures Covered(ivs, x) <==> ivs[0].0 <= x < ivs[0].1 || Covered(ivs[1..], x)
  {
    if Covered(ivs[1..], x) {
      var i :| 0 <= i < |ivs[1..]| && ivs[1..][i].0 <= x < ivs[1..][i].1;
      assert ivs[i + 1] == ivs[1..][i];
    }
    if Covered(ivs, x) {
      var i :| 0 <= i < |ivs| && ivs[i].0 <= x < ivs[i].1;
      assert i > 0 ==> ivs[1..][i - 1] == ivs[i];
    }
  }

  lemma CanonicalTail(ivs: seq<Interval>)
    requires Canonical(ivs) && ivs != []
    ensures Canonical(ivs[1..])
    ensures forall i :: 0 <= i < |ivs[1..]| ==> ivs[0].1 < ivs[1..][i].0
  {
    assert forall i :: 0 <= i < |ivs[1..]| ==> ivs[1..][i] == ivs[i + 1];
  }

  lemma CanonicalCons(iv: Interval, ivs: seq<Interval>)
    requires Canonical(ivs) && iv.0 < iv.1 && (ivs != [] ==> iv.1 < ivs[0].0)
    ensures Canonical([iv] + ivs)
  {
    forall j | 0 <= j < |ivs| ensures iv.1 < ivs[j].0 {
      assert j > 0 ==> ivs[0].1 < ivs[j].0;
    }
  }

  lemma {:induction false} CoalesceExact(ivs: seq<Interval>, added: Interval)
    requires Canonical(ivs) && added.0 < added.1
    requires ivs != [] ==> added.0 <= ivs[0].1
    ensures Canonical(Coalesce(ivs, added)) && Coalesce(ivs, added) != []
    ensures Coalesce(ivs, added)[0].0 == if ivs != [] && ivs[0].0 <= added.1 && ivs[0].0 < added.0 then ivs[0].0 else added.0
    ensures forall x :: Covered(Coalesce(ivs, added), x) <==> Covered(ivs, x) || added.0 <= x < added.1
    decreases |ivs|
  {
    hide Covered, Canonical;
    if ivs != [] && ivs[0].0 <= added.1 {
      CanonicalTail(ivs);
      assert ivs[0].0 < ivs[0].1 by { CanonicalHead(ivs); }
      var wide := Widen(added, ivs[0]);
      CoalesceExact(ivs[1..], wide);
      forall x
        ensures Covered(Coalesce(ivs, added), x) <==> Covered(ivs, x) || added.0 <= x < added.1
      {
        CoveredHead(ivs, x);
      }
    } else {
      CanonicalCons(added, ivs);
      forall x
        ensures Covered([added] + ivs, x) <==> Covered(ivs, x) || added.0 <= x < added.1
      {
        CoveredHead([added] + ivs, x);
        assert ([added] + ivs)[1..] == ivs;
      }
    }
  }

  lemma CanonicalHead(ivs: seq<Interval>)
    requires Canonical(ivs) && ivs != []
    ensures ivs[0].0 < ivs[0].1
  {
  }

  lemma {:induction false} InsertExact(ivs: seq<Interval>, added: Interval)
    requires Canonical(ivs) && added.0 < added.1
    ensures Canonical(Insert(ivs, added)) && Insert(ivs, added) != []
    ensures ivs == [] || Insert(ivs, added)[0].0 == added.0 || Insert(ivs, added)[0].0 == ivs[0].0
    ensures forall x :: Covered(Insert(ivs, added), x) <==> Covered(ivs, x) || added.0 <= x < added.1
    decreases |ivs|
  {
    hide Covered, Canonical, Coalesce;
    if ivs != [] && ivs[0].1 < added.0 {
      CanonicalTail(ivs);
      CanonicalHead(ivs);
      InsertExact(ivs[1..], added);
      var rest := Insert(ivs[1..], added);
      assert ivs[0].1 < rest[0].0 by {
        if ivs[1..] == [] {
          assert Insert(ivs[1..], added) == Coalesce([], added);
          CoalesceExact([], added);
        } else {
          assert ivs[0].1 < ivs[1..][0].0;
        }
      }
      CanonicalCons(ivs[0], rest);
      forall x
        ensures Covered(Insert(ivs, added), x) <==> Covered(ivs, x) || added.0 <= x < added.1
      {
        CoveredHead(ivs, x);
        CoveredHead([ivs[0]] + rest, x);
        assert ([ivs[0]] + rest)[1..] == rest;
      }
    } else {
      CoalesceExact(ivs, added);
    }
  }

  /** Recording keeps the list canonical and denotes exactly the old bytes and
      the new range. */
  lemma RecordExact(ivs: seq<Interval>, start: u32, end: u32)
    requires Canonical(ivs)
    ensures Canonical(Recorded(ivs, start, end))
    ensures forall x :: Covered(Recorded(ivs, start, end), x) <==> Covered(ivs, x) || start <= x < end
  {
    hide Covered, Canonical, Insert;
    if start < end {
      InsertExact(ivs, (start, end));
    }
  }

  ghost predicate Within(ivs: seq<Interval>, total: u32) {
    forall i :: 0 <= i < |ivs| ==> ivs[i].1 <= total
  }

  lemma CoveredWithin(ivs: seq<Interval>, total: u32)
    requires Canonical(ivs)
    ensures Within(ivs, total) <==> forall x :: Covered(ivs, x) ==> x < total
  {
    if forall x :: Covered(ivs, x) ==> x < total {
      forall i | 0 <= i < |ivs| ensures ivs[i].1 <= total {
        assert Covered(ivs, ivs[i].1 - 1);
      }
    }
  }

  /** A canonical list is complete exactly when it covers everything. */
  lemma CompleteExact(ivs: seq<Interval>, total: u32)
    requires Canonical(ivs) && Within(ivs, total) && total > 0
    ensures IsComplete(ivs, total) <==> forall x :: 0 <= x < total ==> Covered(ivs, x)
  {
    if forall x :: 0 <= x < total ==> Covered(ivs, x) {
      assert Covered(ivs, 0);
      var i :| 0 <= i < |ivs| && ivs[i].0 <= 0 < ivs[i].1;
      assert i == 0;
      UncoveredEnd(ivs, 0);
      OnlyOne(ivs, total);
    }
    if IsComplete(ivs, total) {
      forall x | 0 <= x < total ensures Covered(ivs, x) {
        CoveredAt(ivs, 0, x);
      }
    }
  }

  lemma CoveredAt(ivs: seq<Interval>, i: nat, x: int)
    requires i < |ivs| && ivs[i].0 <= x < ivs[i].1
    ensures Covered(ivs, x)
  {
  }

  /** The byte just past an entry is never covered. */
  lemma UncoveredEnd(ivs: seq<Interval>, i: nat)
    requires Canonical(ivs) && i < |ivs|
    ensures !Covered(ivs, ivs[i].1)
  {
  }

  lemma OnlyOne(ivs: seq<Interval>, total: u32)
    requires Canonical(ivs) && Within(ivs, total) && ivs != [] && ivs[0].1 >= total
    ensures |ivs| == 1
  {
    EndsAscend(ivs, 0, 1);
  }

  lemma EndsAscend(ivs: seq<Interval>, i: nat, j: nat)
    requires Canonical(ivs)
    ensures i < j < |ivs| ==> ivs[i].1 < ivs[j].1
  {
  }

  /** A set of bytes has one canonical list. */
  lemma {:induction false} CanonicalUnique(xs: seq<Interval>, ys: seq<Interval>)
    requires Canonical(xs) && Canonical(ys)
    requires forall x :: Covered(xs, x) <==> Covered(ys, x)
    ensures xs == ys
    decreases |xs|
  {
    if xs == [] {
      if ys != [] {
        CanonicalHead(ys);
        CoveredAt(ys, 0, ys[0].0);
      }
    } else {
      assert Covered(xs, xs[0].0);
      SameFirst(xs, ys);
      CanonicalTail(xs);
      CanonicalTail(ys);
      TailsCoverSame(xs, ys);
      CanonicalUnique(xs[1..], ys[1..]);
      assert xs == [xs[0]] + xs[1..] && ys == [ys[0]] + ys[1..];
    }
  }

  lemma SameFirst(xs: seq<Interval>, ys: seq<Interval>)
    requires Canonical(xs) && Canonical(ys) && xs != []
    requires forall x :: Covered(xs, x) <==> Covered(ys, x)
    ensures ys != [] && xs[0] == ys[0]
  {
    assert Covered(xs, xs[0].0);
    var i :| 0 <= i < |ys| && ys[i].0 <= xs[0].0 < ys[i].1;
    StartsNoLater(xs, ys);
    StartsNoLater(ys, xs);
    EndsNoLater(xs, ys);
    EndsNoLater(ys, xs);
  }

  lemma StartsNoLater(xs: seq<Interval>, ys: seq<Interval>)
    requires Canonical(xs) && Canonical(ys) && xs != [] && ys != []
    requires forall x :: Covered(xs, x) <==> Covered(ys, x)
    ensures xs[0].0 <= ys[0].0
  {
    assert Covered(ys, ys[0].0);
    var i :| 0 <= i < |xs| && xs[i].0 <= ys[0].0 < xs[i].1;
    assert i > 0 ==> xs[0].1 < xs[i].0;
  }

  lemma FirstCovers(ivs: seq<Interval>, x: int)
    requires ivs != []
    ensures ivs[0].0 <= x < ivs[0].1 ==> Covered(ivs, x)
  {
  }

  lemma EndsNoLater(xs: seq<Interval>, ys: seq<Interval>)
    requires Canonical(xs) && Canonical(ys) && xs != [] && ys != [] && xs[0].0 == ys[0].0
    requires forall x :: Covered(xs, x) <==> Covered(ys, x)
    ensures ys[0].1 <= xs[0].1
  {
    UncoveredEnd(xs, 0);
    CanonicalHead(xs);
    FirstCovers(ys, xs[0].1);
  }

  lemma TailsCoverSame(xs: seq<Interval>, ys: seq<Interval>)
    requires Canonical(xs) && Canonical(ys) && xs != [] && ys != [] && xs[0] == ys[0]
    requires forall x :: Covered(xs, x) <==> Covered(ys, x)
    ensures forall x :: Covered(xs[1..], x) <==> Covered(ys[1..], x)
  {
    CanonicalTail(xs);
    CanonicalTail(ys);
    forall x
      ensures Covered(xs[1..], x) <==> Covered(ys[1..], x)
    {
      CoveredHead(xs, x);
      CoveredHead(ys, x);
    }
  }

  // ----- the loop -----

  /** Everything from `from` on, unchanged. */
  method CopyRest(ivs: seq<Interval>, from: nat, head: seq<Interval>) returns (merged: seq<Interval>)
    requires from <= |ivs|
    ensures merged == head + ivs[from..]
  {
    merged := head;
    for i := from to |ivs|
      invariant merged + ivs[i..] == head + ivs[from..]
    {
      assert ivs[i..] == [ivs[i]] + ivs[i + 1..];
      merged := merged + [ivs[i]];
    }
    assert merged + ivs[|ivs|..] == merged;
  }

  lemma InsertNext(ivs: seq<Interval>, i: nat, span: Interval)
    requires i < |ivs| && ivs[i].1 < span.0
    ensures Insert(ivs[i..], span) == [ivs[i]] + Insert(ivs[i + 1..], span)
  {
    assert ivs[i..][1..] == ivs[i + 1..];
  }

  lemma InsertHere(ivs: seq<Interval>, i: nat, span: Interval)
    requires i <= |ivs| && (i < |ivs| ==> ivs[i].1 >= span.0)
    ensures Insert(ivs[i..], span) == Coalesce(ivs[i..], span)
  {
  }

  lemma CoalesceNext(ivs: seq<Interval>, i: nat, span: Interval)
    requires i < |ivs| && ivs[i].0 <= span.1
    ensures Coalesce(ivs[i..], span) == Coalesce(ivs[i + 1..], Widen(span, ivs[i]))
  {
    assert ivs[i..][1..] == ivs[i + 1..];
  }

  lemma CoalesceHere(ivs: seq<Interval>, i: nat, span: Interval)
    requires i <= |ivs| && (i < |ivs| ==> ivs[i].0 > span.1)
    ensures Coalesce(ivs[i..], span) == [span] + ivs[i..]
  {
  }

  /** The index loops of `record`, building the merged list. */
  method RecordLoop(ivs: seq<Interval>, start: u32, end: u32) returns (merged: seq<Interval>)
    ensures merged == Recorded(ivs, start, end)
  {
    if start >= end {
      return ivs;
    }
    hide Insert, Coalesce;
    merged := [];
    var span: Interval := (start, end);
    var i: nat := 0;
    assert ivs[0..] == ivs;
    while i < |ivs| && ivs[i].1 < span.0
      invariant i <= |ivs|
      invariant Insert(ivs, span) == merged + Insert(ivs[i..], span)
    {
      InsertNext(ivs, i, span);
      assert merged + ([ivs[i]] + Insert(ivs[i + 1..], span)) == merged + [ivs[i]] + Insert(ivs[i + 1..], span);
      merged := merged + [ivs[i]];
      i := i + 1;
    }
    InsertHere(ivs, i, span);
    while i < |ivs| && ivs[i].0 <= span.1
      invariant i <= |ivs|
      invariant Insert(ivs, (start, end)) == merged + Coalesce(ivs[i..], span)
    {
      CoalesceNext(ivs, i, span);
      span := Widen(span, ivs[i]);
      i := i + 1;
    }
    CoalesceHere(ivs, i, span);
    assert merged + ([span] + ivs[i..]) == merged + [span] + ivs[i..];
    merged := CopyRest(ivs, i, merged + [span]);
  }
}
