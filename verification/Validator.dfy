/**
  `validate_repaired_dex`: an independent check of a repaired file, and what
  makes it succeed.
 */
module Validator {
  import opened Bytes
  import opened Dex
  import opened ClassData
  import opened CodeItem
  import opened MapList
  import opened Relocation
  import opened RelocationProofs
  import opened Relocated
  import opened Live
  import opened Runs

  // ----- the check -----

  /** The offsets of a class's methods; each method and item must be in bounds. */
  function CheckMethods(b: seq<byte>, ms: seq<EncodedMethod>): Result<set<u32>>
    requires HasHeader(b)
    decreases |ms|
  {
    if ms == [] then Ok({})
    else if ms[0].methodIdx >= MethodIdsSize(b) then Err(ValidationFailed)
    else if ms[0].codeOff == 0 then CheckMethods(b, ms[1..])
    else
      var end :- CodeItemEnd(b, ms[0].codeOff);
      var rest :- CheckMethods(b, ms[1..]);
      Ok({ms[0].codeOff} + rest)
  }

  /** The offsets of live class data and live code items, from definition `i`. */
  function CollectFrom(b: seq<byte>, i: nat): Result<(set<u32>, set<u32>)>
    requires DefsInFile(b)
    decreases ClassDefsSize(b) - i
  {
    if i >= ClassDefsSize(b) then Ok(({}, {}))
    else if ClassDataOff(b, i) == 0 then CollectFrom(b, i + 1)
    else
      var (item, end) :- ParseClassData(b, ClassDataOff(b, i));
      var offs :- CheckMethods(b, item.Methods());
      var (classes, codes) :- CollectFrom(b, i + 1);
      Ok(({ClassDataOff(b, i)} + classes, offs + codes))
  }

  lemma {:induction false} FindLeast(s: set<u32>) returns (m: u32)
    requires s != {}
    ensures m in s && forall x :: x in s ==> m <= x
    decreases |s|
  {
    m :| m in s;
    var rest := s - {m};
    if rest != {} {
      var n := FindLeast(rest);
      assert forall x :: x in s ==> x == m || x in rest;
      m := if n < m then n else m;
    } else {
      assert forall x :: x in s ==> x == m || x in rest;
    }
  }

  lemma LeastExists(s: set<u32>)
    requires s != {}
    ensures exists m: u32 :: m in s && forall x :: x in s ==> m <= x
  {
    var m := FindLeast(s);
  }

  function Least(s: set<u32>): (m: u32)
    requires s != {}
    ensures m in s && forall x :: x in s ==> m <= x
  {
    LeastExists(s);
    var m: u32 :| m in s && forall x :: x in s ==> m <= x;
    m
  }

  /** The end of a class data item or of a code item. */
  function LiveEnd(b: seq<byte>, isCode: bool, off: u32): Result<nat> {
    if isCode then CodeItemEnd(b, off)
    else
      var (item, end) :- ParseClassData(b, off);
      Ok(end)
  }

  function Aligned(isCode: bool, pos: nat): nat {
    if isCode then Align4(pos) else pos
  }

  /** Walk the offsets in order: each must start where the last one ended, code
      items at the next multiple of four. */
  function WalkRun(b: seq<byte>, isCode: bool, pos: nat, todo: set<u32>): Result<nat>
    decreases |todo|
  {
    if todo == {} then Ok(pos)
    else
      var off := Least(todo);
      if off != Aligned(isCode, pos) then Err(ValidationFailed)
      else
        var end :- LiveEnd(b, isCode, off);
        WalkRun(b, isCode, end, todo - {off})
  }

  function FindType(es: seq<MapEntry>, typ: u16): (r: Option<MapEntry>)
    ensures r.Some? ==> r.value in es && r.value.typ == typ
    ensures r.None? ==> forall e :: e in es ==> e.typ != typ
  {
    if es == [] then None else if es[0].typ == typ then Some(es[0]) else FindType(es[1..], typ)
  }

  /** The map entry of a kind describes exactly one run of its live items. */
  function CheckRun(b: seq<byte>, es: seq<MapEntry>, isCode: bool, offsets: set<u32>): Result<()> {
    match FindType(es, if isCode then TYPE_CODE_ITEM else TYPE_CLASS_DATA)
    case None => if offsets == {} then Ok(()) else Err(ValidationFailed)
    case Some(e) =>
      if e.size != |offsets| || offsets == {} || Least(offsets) != e.off then Err(ValidationFailed)
      else
        var end :- WalkRun(b, isCode, e.off, offsets);
        if end <= NextOffset(es, e.off, |b|) then Ok(()) else Err(ValidationFailed)
  }

  predicate BoundsMatch(b: seq<byte>)
    requires HasHeader(b)
  {
    && Le32(b, HDR_FILE_SIZE) == |b|
    && Le32(b, HDR_DATA_OFF) >= DEX_HEADER_SIZE
    && Le32(b, HDR_DATA_OFF) + Le32(b, HDR_DATA_SIZE) == |b|
  }

  function Validate(b: seq<byte>, digests: Digests): Result<()> {
    var _ :- ValidateIdBounds(b);
    var _ :- OpenDex(b);
    if !BoundsMatch(b) || !DigestsMatch(b, digests) then Err(ValidationFailed)
    else
      var es :- ReadMap(b);
      if !NeighboursAscend(es) || MapEntry(TYPE_MAP_LIST, 1, MapOff(b)) !in es then Err(ValidationFailed)
      else
        ValidatedDefsInFile(b);
        var (classes, codes) :- CollectFrom(b, 0);
        var _ :- CheckRun(b, es, false, classes);
        CheckRun(b, es, true, codes)
  }

  // ----- what is collected -----

  ghost predicate IndicesInRange(b: seq<byte>)
    requires DefsInFile(b)
  {
    forall i :: 0 <= i < ClassDefsSize(b) ==> IndicesBelow(MethodsOf(b, i), MethodIdsSize(b))
  }

  ghost predicate IndicesBelow(ms: seq<EncodedMethod>, limit: nat) {
    forall k :: 0 <= k < |ms| ==> ms[k].methodIdx < limit
  }

  lemma {:induction false} CheckMethodsIs(b: seq<byte>, ms: seq<EncodedMethod>)
    requires HasHeader(b) && IndicesBelow(ms, MethodIdsSize(b))
    requires forall off: u32 :: OffsetOf(ms, off) ==> CodeItemEnd(b, off).Ok?
    ensures CheckMethods(b, ms).Ok?
    ensures forall off: u32 :: off in CheckMethods(b, ms).value <==> OffsetOf(ms, off)
    decreases |ms|
  {
    hide Le32, CodeItemEnd, OffsetOf;
    if ms != [] {
      var tail := ms[1..];
      assert forall k :: 0 <= k < |tail| ==> tail[k] == ms[k + 1];
      forall off: u32
        ensures OffsetOf(ms, off) <==> (off != 0 && ms[0].codeOff == off) || OffsetOf(tail, off)
      {
        OffsetOfHead(ms, off);
      }
      CheckMethodsIs(b, tail);
    } else {
      forall off: u32 ensures !OffsetOf(ms, off) { NoOffset(off); }
    }
  }

  ghost predicate DataFrom(b: seq<byte>, i: nat, off: u32)
    requires DefsInFile(b)
  {
    off != 0 && exists k :: i <= k < ClassDefsSize(b) && ClassDataOff(b, k) == off
  }

  ghost predicate CodeFrom(b: seq<byte>, i: nat, off: u32)
    requires DefsInFile(b)
  {
    exists k :: i <= k < ClassDefsSize(b) && OffsetOf(MethodsOf(b, k), off)
  }

  lemma DataFromNext(b: seq<byte>, i: nat, off: u32)
    requires DefsInFile(b) && i < ClassDefsSize(b)
    ensures DataFrom(b, i, off) <==> (off != 0 && ClassDataOff(b, i) == off) || DataFrom(b, i + 1, off)
  {
    hide Le32;
    if DataFrom(b, i, off) {
      var k :| i <= k < ClassDefsSize(b) && ClassDataOff(b, k) == off;
      assert k == i || i + 1 <= k;
    }
  }

  lemma CodeFromNext(b: seq<byte>, i: nat, off: u32)
    requires DefsInFile(b) && i < ClassDefsSize(b)
    ensures CodeFrom(b, i, off) <==> OffsetOf(MethodsOf(b, i), off) || CodeFrom(b, i + 1, off)
  {
    hide Le32, MethodsOf, OffsetOf;
    if CodeFrom(b, i, off) {
      var k :| i <= k < ClassDefsSize(b) && OffsetOf(MethodsOf(b, k), off);
      assert k == i || i + 1 <= k;
    }
  }

  lemma CodeFromStart(b: seq<byte>, off: u32)
    requires DefsInFile(b)
    ensures CodeFrom(b, 0, off) <==> CodeOffset(b, off)
    ensures DataFrom(b, 0, off) <==> LiveData(b, off)
  {
    hide Le32, MethodsOf;
  }

  /** Collecting over a healthy file finds its live class data and code items,
      all of them and nothing else. */
  lemma {:induction false} CollectsFrom(b: seq<byte>, i: nat)
    requires Healthy(b) && IndicesInRange(b)
    ensures CollectFrom(b, i).Ok?
    ensures forall off: u32 :: off in CollectFrom(b, i).value.0 <==> DataFrom(b, i, off)
    ensures forall off: u32 :: off in CollectFrom(b, i).value.1 <==> CodeFrom(b, i, off)
    decreases ClassDefsSize(b) - i
  {
    hide Le32, ParseClassData, DataFrom, CodeFrom, OffsetOf, CheckMethods, LiveCode, CodeItemEnd;
    if i < ClassDefsSize(b) {
      CollectsFrom(b, i + 1);
      forall off: u32
        ensures DataFrom(b, i, off) <==> (off != 0 && ClassDataOff(b, i) == off) || DataFrom(b, i + 1, off)
        ensures CodeFrom(b, i, off) <==> OffsetOf(MethodsOf(b, i), off) || CodeFrom(b, i + 1, off)
      {
        DataFromNext(b, i, off);
        CodeFromNext(b, i, off);
      }
      assert ReadableClass(b, i) && IndicesBelow(MethodsOf(b, i), MethodIdsSize(b));
      if ClassDataOff(b, i) == 0 {
        forall off: u32 ensures !OffsetOf(MethodsOf(b, i), off) { NoOffset(off); }
      } else {
        MethodItemsWhole(b, i);
        CheckMethodsIs(b, MethodsOf(b, i));
      }
    } else {
      forall off: u32 ensures !DataFrom(b, i, off) && !CodeFrom(b, i, off) { NothingFrom(b, i, off); }
    }
  }

  lemma NothingFrom(b: seq<byte>, i: nat, off: u32)
    requires DefsInFile(b) && i >= ClassDefsSize(b)
    ensures !DataFrom(b, i, off) && !CodeFrom(b, i, off)
  {
    hide Le32, MethodsOf;
  }

  lemma MethodItemsWhole(b: seq<byte>, i: nat)
    requires Healthy(b) && i < ClassDefsSize(b)
    ensures forall off: u32 :: OffsetOf(MethodsOf(b, i), off) ==> CodeItemEnd(b, off).Ok?
  {
    hide Le32, MethodsOf, OffsetOf, CodeOffset, CodeItemEnd, InsnsLen, ReadableClass;
    forall off: u32 | OffsetOf(MethodsOf(b, i), off) ensures CodeItemEnd(b, off).Ok? {
      MethodsHaveOffset(b, i, off);
      assert LiveCode(b, off);
    }
  }

  // ----- walking a run -----

  function CodeSet(ms: seq<EncodedMethod>): set<u32> {
    if ms == [] then {}
    else (if ms[0].codeOff == 0 then {} else {ms[0].codeOff}) + CodeSet(ms[1..])
  }

  lemma {:induction false} CodeSetIs(ms: seq<EncodedMethod>, off: u32)
    ensures off in CodeSet(ms) <==> OffsetOf(ms, off)
    decreases |ms|
  {
    hide OffsetOf;
    if ms == [] {
      NoOffset(off);
    } else {
      OffsetOfHead(ms, off);
      CodeSetIs(ms[1..], off);
    }
  }

  lemma LeastIs(s: set<u32>, m: u32)
    requires m in s && forall x :: x in s ==> m <= x
    ensures Least(s) == m
  {
  }

  /** Walking the items of a run in offset order covers it, once each. */
  lemma {:induction false} CodeRunWalks(c: seq<byte>, ms: seq<EncodedMethod>, pos: nat, end: nat)
    requires CodeRun(c, ms, pos, end) && pos <= |c|
    ensures WalkRun(c, true, pos, CodeSet(ms)) == Ok(end)
    ensures |CodeSet(ms)| == |CodeOffsets(ms)| && |CodeSet(ms)| <= end - pos
    decreases |ms|
  {
    hide CodeItemEnd, WalkRun, OffsetOf, Align4, Least;
    if ms == [] {
      WalkNothing(c, true, pos);
    } else if ms[0].codeOff == 0 {
      CodeRunWalks(c, ms[1..], pos, end);
      assert {} + CodeSet(ms[1..]) == CodeSet(ms[1..]);
    } else {
      var off := ms[0].codeOff;
      var next := CodeItemEnd(c, off).value;
      var rest := CodeSet(ms[1..]);
      CodeRunWalks(c, ms[1..], next, end);
      forall x | x in rest ensures off < x {
        CodeSetIs(ms[1..], x);
        RunItem(c, ms[1..], next, end, x);
      }
      LeastIs({off} + rest, off);
      assert ({off} + rest) - {off} == rest;
      WalkFirst(c, true, pos, {off} + rest);
    }
  }

  lemma WalkNothing(b: seq<byte>, isCode: bool, pos: nat)
    ensures WalkRun(b, isCode, pos, {}) == Ok(pos)
  {
  }

  lemma WalkFirst(b: seq<byte>, isCode: bool, pos: nat, todo: set<u32>)
    requires todo != {} && Least(todo) == Aligned(isCode, pos) && LiveEnd(b, isCode, Least(todo)).Ok?
    ensures WalkRun(b, isCode, pos, todo) == WalkRun(b, isCode, LiveEnd(b, isCode, Least(todo)).value, todo - {Least(todo)})
  {
    hide LiveEnd, Least, Align4;
  }

  function DataSet(c: seq<byte>, plan: seq<PlannedClass>): set<u32>
    requires forall j :: 0 <= j < |plan| ==> plan[j].defOff + 28 <= |c|
  {
    if plan == [] then {} else {Le32(c, plan[0].defOff + 24)} + DataSet(c, plan[1..])
  }

  lemma {:induction false} DataSetIs(c: seq<byte>, plan: seq<PlannedClass>, off: u32)
    requires forall j :: 0 <= j < |plan| ==> plan[j].defOff + 28 <= |c|
    ensures off in DataSet(c, plan) <==> DataOf(c, plan, off)
    decreases |plan|
  {
    hide DataOf, Le32;
    if plan == [] {
      NoData(c, off);
    } else {
      DataOfHead(c, plan, off);
      assert forall j :: 0 <= j < |plan[1..]| ==> plan[1..][j] == plan[j + 1];
      DataSetIs(c, plan[1..], off);
    }
  }

  lemma {:induction false} ClassRunDefs(c: seq<byte>, plan: seq<PlannedClass>, pos: nat, end: nat)
    requires ClassRun(c, plan, pos, end)
    ensures forall j :: 0 <= j < |plan| ==> plan[j].defOff + 28 <= |c|
    decreases |plan|
  {
    hide ParseClassData, Le32;
    if plan != [] {
      ClassRunDefs(c, plan[1..], ParseClassData(c, pos).value.1, end);
      assert forall j :: 0 < j < |plan| ==> plan[1..][j - 1] == plan[j];
    }
  }

  lemma {:induction false} ClassRunWalks(c: seq<byte>, plan: seq<PlannedClass>, pos: nat, end: nat)
    requires ClassRun(c, plan, pos, end) && pos <= |c|
    requires forall j :: 0 <= j < |plan| ==> plan[j].defOff + 28 <= |c|
    ensures WalkRun(c, false, pos, DataSet(c, plan)) == Ok(end)
    ensures |DataSet(c, plan)| == |plan|
    decreases |plan|
  {
    hide ParseClassData, WalkRun, DataOf, Align4, Least, Le32;
    if plan == [] {
      WalkNothing(c, false, pos);
    } else {
      var next := ParseClassData(c, pos).value.1;
      assert forall j :: 0 <= j < |plan[1..]| ==> plan[1..][j] == plan[j + 1];
      var rest := DataSet(c, plan[1..]);
      ClassRunWalks(c, plan[1..], next, end);
      var off: u32 := pos;
      forall x | x in rest ensures off < x {
        DataSetIs(c, plan[1..], x);
        RunData(c, plan[1..], next, end, x);
      }
      LeastIs({off} + rest, off);
      assert ({off} + rest) - {off} == rest;
      WalkFirst(c, false, pos, {off} + rest);
    }
  }

  /** A walk depends only on where the walked items end. */
  lemma {:induction false} WalkSame(b: seq<byte>, c: seq<byte>, isCode: bool, pos: nat, todo: set<u32>)
    requires forall off :: off in todo ==> LiveEnd(c, isCode, off) == LiveEnd(b, isCode, off)
    ensures WalkRun(c, isCode, pos, todo) == WalkRun(b, isCode, pos, todo)
    decreases |todo|
  {
    hide LiveEnd, Least, Align4;
    if todo != {} {
      var off := Least(todo);
      if off == Aligned(isCode, pos) && LiveEnd(b, isCode, off).Ok? {
        WalkSame(b, c, isCode, LiveEnd(b, isCode, off).value, todo - {off});
      }
    }
  }

  /** A walk over aligned items may start at the first one. */
  lemma WalkFromFirst(b: seq<byte>, pos: nat, todo: set<u32>)
    requires todo != {}
    ensures WalkRun(b, true, Align4(pos), todo) == WalkRun(b, true, pos, todo)
  {
    hide LiveEnd, Least;
    Align4Aligned(Align4(pos));
  }
}
