/**
  A file whose live items form two runs: it is healthy, nothing in it overlaps,
  and the runs are exactly its live items.
 */
module Runs {
  import opened Bytes
  import opened Dex
  import opened ClassData
  import opened CodeItem
  import opened Relocation
  import opened RelocationProofs
  import opened Relocated
  import opened Live
  import opened FormatProofs

  /** The classes of `b` with data are `moved`, laid out in two runs. */
  ghost predicate InRuns(b: seq<byte>, moved: seq<PlannedClass>, pos: nat, mid: nat) {
    DefsInFile(b) && Enumerates(b, 0, moved) && Laid(b, moved, pos, mid)
  }

  // ----- offsets in runs -----

  ghost predicate OffsetOf(ms: seq<EncodedMethod>, off: u32) {
    off != 0 && exists k :: 0 <= k < |ms| && ms[k].codeOff == off
  }

  lemma OffsetOfHead(ms: seq<EncodedMethod>, off: u32)
    requires ms != []
    ensures OffsetOf(ms, off) <==> (off != 0 && ms[0].codeOff == off) || OffsetOf(ms[1..], off)
  {
    if OffsetOf(ms[1..], off) {
      var k :| 0 <= k < |ms[1..]| && ms[1..][k].codeOff == off;
      assert ms[k + 1] == ms[1..][k];
    }
    if OffsetOf(ms, off) {
      var k :| 0 <= k < |ms| && ms[k].codeOff == off;
      assert k > 0 ==> ms[1..][k - 1] == ms[k];
    }
  }

  lemma OffsetOfJoin(ms: seq<EncodedMethod>, ns: seq<EncodedMethod>, off: u32)
    ensures OffsetOf(ms + ns, off) <==> OffsetOf(ms, off) || OffsetOf(ns, off)
  {
    if OffsetOf(ms, off) {
      var k :| 0 <= k < |ms| && ms[k].codeOff == off;
      assert (ms + ns)[k] == ms[k];
    }
    if OffsetOf(ns, off) {
      var k :| 0 <= k < |ns| && ns[k].codeOff == off;
      assert (ms + ns)[|ms| + k] == ns[k];
    }
  }

  lemma {:induction false} RunItem(c: seq<byte>, ms: seq<EncodedMethod>, pos: nat, end: nat, off: u32)
    requires CodeRun(c, ms, pos, end) && pos <= |c| && OffsetOf(ms, off)
    ensures pos <= off && CodeItemEnd(c, off).Ok? && CodeItemEnd(c, off).value <= end
    decreases |ms|
  {
    hide CodeItemEnd, OffsetOf;
    NoOffset(off);
    assert ms != [];
    OffsetOfHead(ms, off);
    if ms[0].codeOff == 0 {
      RunItem(c, ms[1..], pos, end, off);
    } else {
      var next := CodeItemEnd(c, ms[0].codeOff).value;
      CodeRunBounds(c, ms[1..], next, end);
      if ms[0].codeOff != off {
        RunItem(c, ms[1..], next, end, off);
      }
    }
  }

  /** Two items of a run do not overlap. */
  lemma {:induction false} RunItemsApart(c: seq<byte>, ms: seq<EncodedMethod>, pos: nat, end: nat, x: u32, y: u32)
    requires CodeRun(c, ms, pos, end) && pos <= |c| && OffsetOf(ms, x) && OffsetOf(ms, y) && x < y
    ensures ItemEnd(c, x) <= y
    decreases |ms|
  {
    hide CodeItemEnd, OffsetOf;
    NoOffset(x);
    assert ms != [];
    OffsetOfHead(ms, x);
    OffsetOfHead(ms, y);
    if ms[0].codeOff == 0 {
      RunItemsApart(c, ms[1..], pos, end, x, y);
    } else {
      var next := CodeItemEnd(c, ms[0].codeOff).value;
      if ms[0].codeOff == x {
        RunItem(c, ms[1..], next, end, y);
      } else {
        RunItem(c, ms[1..], next, end, x);
        if ms[0].codeOff != y {
          RunItemsApart(c, ms[1..], next, end, x, y);
        }
      }
    }
  }

  /** Where the class data of a run starts. */
  ghost predicate DataOf(c: seq<byte>, plan: seq<PlannedClass>, off: u32) {
    exists j :: 0 <= j < |plan| && plan[j].defOff + 28 <= |c| && Le32(c, plan[j].defOff + 24) == off
  }

  lemma DataOfHead(c: seq<byte>, plan: seq<PlannedClass>, off: u32)
    requires plan != [] && plan[0].defOff + 28 <= |c|
    ensures DataOf(c, plan, off) <==> Le32(c, plan[0].defOff + 24) == off || DataOf(c, plan[1..], off)
  {
    hide Le32;
    if DataOf(c, plan[1..], off) {
      var j :| 0 <= j < |plan[1..]| && plan[1..][j].defOff + 28 <= |c| && Le32(c, plan[1..][j].defOff + 24) == off;
      assert plan[j + 1] == plan[1..][j];
    }
    if DataOf(c, plan, off) {
      var j :| 0 <= j < |plan| && plan[j].defOff + 28 <= |c| && Le32(c, plan[j].defOff + 24) == off;
      assert j > 0 ==> plan[1..][j - 1] == plan[j];
    }
  }

  lemma {:induction false} RunData(c: seq<byte>, plan: seq<PlannedClass>, pos: nat, end: nat, off: u32)
    requires ClassRun(c, plan, pos, end) && pos <= |c| && DataOf(c, plan, off)
    ensures pos <= off && off != 0 && ParseClassData(c, off).Ok?
    decreases |plan|
  {
    hide ParseClassData, DataOf, Le32;
    assert plan != [] by { if plan == [] { NoData(c, off); } }
    DataOfHead(c, plan, off);
    if Le32(c, plan[0].defOff + 24) != off {
      RunData(c, plan[1..], ParseClassData(c, pos).value.1, end, off);
    }
  }

  lemma NoData(c: seq<byte>, off: u32)
    ensures !DataOf(c, [], off)
  {
  }

  // ----- runs are the live items -----

  lemma {:induction false} EnumeratedData(b: seq<byte>, i: nat, plan: seq<PlannedClass>, k: nat)
    requires DefsInFile(b) && Enumerates(b, i, plan) && i <= k < ClassDefsSize(b) && ClassDataOff(b, k) != 0
    ensures ParseClassData(b, ClassDataOff(b, k)).Ok?
    ensures DataOf(b, plan, ClassDataOff(b, k))
    ensures forall off :: OffsetOf(MethodsOf(b, k), off) ==> OffsetOf(AllMethods(plan), off)
    decreases ClassDefsSize(b) - i
  {
    hide ParseClassData, DataOf, Le32, OffsetOf;
    if ClassDataOff(b, i) == 0 {
      EnumeratedData(b, i + 1, plan, k);
    } else {
      var p, rest := plan[0], plan[1..];
      DataOfHead(b, plan, ClassDataOff(b, k));
      forall off
        ensures OffsetOf(AllMethods(plan), off) <==> OffsetOf(p.item.Methods(), off) || OffsetOf(AllMethods(rest), off)
      {
        OffsetOfJoin(p.item.Methods(), AllMethods(rest), off);
      }
      if i < k {
        EnumeratedData(b, i + 1, rest, k);
      }
    }
  }

  /** An enumerated offset is some class's or method's. */
  lemma {:induction false} EnumeratedBack(b: seq<byte>, i: nat, plan: seq<PlannedClass>, off: u32)
    requires DefsInFile(b) && Enumerates(b, i, plan)
    ensures OffsetOf(AllMethods(plan), off) ==> CodeOffset(b, off)
    ensures off != 0 && DataOf(b, plan, off) ==> LiveData(b, off)
    decreases ClassDefsSize(b) - i
  {
    hide ParseClassData, DataOf, Le32, OffsetOf, CodeOffset;
    if i < ClassDefsSize(b) {
      if ClassDataOff(b, i) == 0 {
        EnumeratedBack(b, i + 1, plan, off);
      } else {
        var p, rest := plan[0], plan[1..];
        EnumeratedBack(b, i + 1, rest, off);
        DataOfHead(b, plan, off);
        OffsetOfJoin(p.item.Methods(), AllMethods(rest), off);
        if OffsetOf(p.item.Methods(), off) {
          MethodsHaveOffset(b, i, off);
        }
      }
    } else {
      NoData(b, off);
      NoOffset(off);
    }
  }

  lemma NoOffset(off: u32)
    ensures !OffsetOf([], off)
  {
  }

  lemma MethodsHaveOffset(b: seq<byte>, i: nat, off: u32)
    requires DefsInFile(b) && i < ClassDefsSize(b) && OffsetOf(MethodsOf(b, i), off)
    ensures CodeOffset(b, off)
  {
    hide MethodsOf, Le32;
  }

  lemma RunOffsets(b: seq<byte>, moved: seq<PlannedClass>, pos: nat, mid: nat, off: u32)
    requires InRuns(b, moved, pos, mid)
    ensures CodeOffset(b, off) <==> OffsetOf(AllMethods(moved), off)
    ensures LiveData(b, off) <==> off != 0 && DataOf(b, moved, off)
  {
    hide ParseClassData, DataOf, Le32, OffsetOf, MethodsOf, Laid, AllMethods;
    EnumeratedBack(b, 0, moved, off);
    if CodeOffset(b, off) {
      var i, k :| 0 <= i < ClassDefsSize(b) && 0 <= k < |MethodsOf(b, i)| && MethodsOf(b, i)[k].codeOff == off;
      OffsetOfAt(MethodsOf(b, i), k);
      NoMethods(b, i);
      EnumeratedData(b, 0, moved, i);
    }
    if LiveData(b, off) {
      var i :| 0 <= i < ClassDefsSize(b) && ClassDataOff(b, i) == off;
      EnumeratedData(b, 0, moved, i);
    }
  }

  lemma OffsetOfAt(ms: seq<EncodedMethod>, k: nat)
    requires k < |ms| && ms[k].codeOff != 0
    ensures OffsetOf(ms, ms[k].codeOff)
  {
  }

  lemma NoMethods(b: seq<byte>, i: nat)
    requires DefsInFile(b) && i < ClassDefsSize(b)
    ensures ClassDataOff(b, i) == 0 ==> MethodsOf(b, i) == []
  {
    hide ParseClassData, Le32;
  }

  /** A file in runs past its id tables is healthy and nothing overlaps. */
  lemma RunsAreHealthy(b: seq<byte>, moved: seq<PlannedClass>, pos: nat, mid: nat)
    requires InRuns(b, moved, pos, mid)
    ensures Healthy(b)
    ensures TablesEnd(b) <= pos ==> Apart(b)
  {
    hide ParseClassData, DataOf, Le32, OffsetOf, CodeOffset, LiveData, CodeItemEnd, InsnsLen, Enumerates, CodeRun, ClassRun,
      TablesEnd, AllMethods, InRuns;
    assert DefsInFile(b) && Laid(b, moved, pos, mid) by { InRunsIs(b, moved, pos, mid); }
    forall i | 0 <= i < ClassDefsSize(b) ensures ReadableClass(b, i) {
      RunClassReadable(b, moved, pos, mid, i);
    }
    forall off: u32 | CodeOffset(b, off)
      ensures CodeItemEnd(b, off).Ok? && LiveCode(b, off) && pos <= off && ItemEnd(b, off) <= mid
    {
      RunOffsets(b, moved, pos, mid, off);
      RunItem(b, AllMethods(moved), pos, mid, off);
    }
    forall off: u32 | LiveData(b, off)
      ensures mid <= off
    {
      RunOffsets(b, moved, pos, mid, off);
      RunData(b, moved, mid, |b|, off);
    }
    forall c: u32, d: u32 | LiveCode(b, c) && LiveCode(b, d) && c < d
      ensures ItemEnd(b, c) <= d
    {
      RunOffsets(b, moved, pos, mid, c);
      RunOffsets(b, moved, pos, mid, d);
      RunItemsApart(b, AllMethods(moved), pos, mid, c, d);
    }
  }

  lemma InRunsIs(b: seq<byte>, moved: seq<PlannedClass>, pos: nat, mid: nat)
    requires InRuns(b, moved, pos, mid)
    ensures DefsInFile(b) && Laid(b, moved, pos, mid)
  {
  }

  lemma RunClassReadable(b: seq<byte>, moved: seq<PlannedClass>, pos: nat, mid: nat, i: nat)
    requires InRuns(b, moved, pos, mid) && i < ClassDefsSize(b)
    ensures ReadableClass(b, i)
  {
    hide ParseClassData, Le32, Laid, DataOf, OffsetOf;
    if ClassDataOff(b, i) != 0 {
      EnumeratedData(b, 0, moved, i);
    }
  }
}
