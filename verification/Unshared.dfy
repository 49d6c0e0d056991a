/**
  Files in which every method has its own index and its own item, so that a
  record is for exactly one of them.
 */
module Unshared {
  import opened Bytes
  import opened Dex
  import opened ClassData
  import opened CodeItem
  import opened Synthesis
  import opened Relocation
  import opened RelocationProofs
  import opened Relocated
  import opened Live
  import opened FormatProofs
  import opened InPlace
  import opened Runs

  ghost predicate MethodAt(b: seq<byte>, i: nat, k: nat)
    requires DefsInFile(b)
  {
    i < ClassDefsSize(b) && k < |MethodsOf(b, i)|
  }

  ghost function MethodOf(b: seq<byte>, i: nat, k: nat): EncodedMethod
    requires DefsInFile(b) && MethodAt(b, i, k)
  {
    MethodsOf(b, i)[k]
  }

  ghost predicate Different(m: EncodedMethod, n: EncodedMethod) {
    m.methodIdx != n.methodIdx && (m.codeOff == n.codeOff ==> m.codeOff == 0)
  }

  /** No two methods share an index or an item. */
  ghost predicate OwnItems(b: seq<byte>)
    requires DefsInFile(b)
  {
    forall i: nat, k: nat, j: nat, l: nat :: MethodAt(b, i, k) && MethodAt(b, j, l) && (i != j || k != l) ==>
      Different(MethodOf(b, i, k), MethodOf(b, j, l))
  }

  // ----- the table of code offsets -----

  /** Entry `idx` of the table comes from some method. */
  ghost predicate FromMethod(b: seq<byte>, method2off: map<u32, u32>, idx: u32)
    requires DefsInFile(b) && idx in method2off
  {
    exists i: nat, k: nat :: MethodAt(b, i, k) && MethodOf(b, i, k).methodIdx == idx && MethodOf(b, i, k).codeOff == method2off[idx]
  }

  ghost predicate AllFromMethods(b: seq<byte>, method2off: map<u32, u32>)
    requires DefsInFile(b)
  {
    forall idx :: idx in method2off ==> FromMethod(b, method2off, idx)
  }

  lemma {:induction false} InsertedFromMethods(b: seq<byte>, m: map<u32, u32>, i: nat, at: nat)
    requires DefsInFile(b) && i < ClassDefsSize(b) && at <= |MethodsOf(b, i)|
    requires AllFromMethods(b, m)
    ensures AllFromMethods(b, InsertMethods(m, MethodsOf(b, i)[at..]))
    decreases |MethodsOf(b, i)| - at
  {
    hide MethodsOf, Le32;
    var ms := MethodsOf(b, i);
    if at < |ms| {
      var next := m[ms[at].methodIdx := ms[at].codeOff];
      assert ms[at..][1..] == ms[at + 1..];
      forall idx | idx in next
        ensures FromMethod(b, next, idx)
      {
        if idx == ms[at].methodIdx {
          assert MethodAt(b, i, at) && MethodOf(b, i, at) == ms[at];
        } else {
          assert FromMethod(b, m, idx);
        }
      }
      InsertedFromMethods(b, next, i, at + 1);
    } else {
      assert ms[at..] == [];
    }
  }

  lemma {:induction false} OffsetsFromMethods(b: seq<byte>, i: nat, m: map<u32, u32>)
    requires DefsInFile(b) && MethodOffsetsFrom(b, i, m).Ok?
    requires AllFromMethods(b, m)
    ensures AllFromMethods(b, MethodOffsetsFrom(b, i, m).value)
    decreases ClassDefsSize(b) - i
  {
    hide InsertMethods, ParseClassData, Le32, AllFromMethods;
    if i < ClassDefsSize(b) {
      if ClassDataOff(b, i) == 0 {
        OffsetsFromMethods(b, i + 1, m);
      } else {
        var ms := MethodsOf(b, i);
        assert ms[0..] == ms;
        InsertedFromMethods(b, m, i, 0);
        OffsetsFromMethods(b, i + 1, InsertMethods(m, ms));
      }
    }
  }

  lemma {:induction false} InsertedKeys(m: map<u32, u32>, ms: seq<EncodedMethod>)
    ensures m.Keys <= InsertMethods(m, ms).Keys
    ensures forall k :: 0 <= k < |ms| ==> ms[k].methodIdx in InsertMethods(m, ms)
    decreases |ms|
  {
    if ms != [] {
      InsertedKeys(m[ms[0].methodIdx := ms[0].codeOff], ms[1..]);
      forall k | 0 <= k < |ms|
        ensures ms[k].methodIdx in InsertMethods(m, ms)
      {
        if k > 0 {
          assert ms[1..][k - 1] == ms[k];
        }
      }
    }
  }

  lemma {:induction false} OffsetsHaveMethod(b: seq<byte>, i: nat, m: map<u32, u32>, j: nat, k: nat)
    requires DefsInFile(b) && MethodOffsetsFrom(b, i, m).Ok? && i <= j && MethodAt(b, j, k)
    ensures MethodsOf(b, j)[k].methodIdx in MethodOffsetsFrom(b, i, m).value
    decreases ClassDefsSize(b) - i
  {
    hide InsertMethods, ParseClassData, Le32;
    if ClassDataOff(b, i) == 0 {
      OffsetsHaveMethod(b, i + 1, m, j, k);
    } else {
      InsertedKeys(m, MethodsOf(b, i));
      var next := InsertMethods(m, MethodsOf(b, i));
      if i == j {
        OffsetsKeepKeys(b, i + 1, next);
      } else {
        OffsetsHaveMethod(b, i + 1, next, j, k);
      }
    }
  }

  lemma {:induction false} OffsetsKeepKeys(b: seq<byte>, i: nat, m: map<u32, u32>)
    requires DefsInFile(b) && MethodOffsetsFrom(b, i, m).Ok?
    ensures m.Keys <= MethodOffsetsFrom(b, i, m).value.Keys
    decreases ClassDefsSize(b) - i
  {
    hide InsertMethods, ParseClassData, Le32;
    if i < ClassDefsSize(b) {
      if ClassDataOff(b, i) == 0 {
        OffsetsKeepKeys(b, i + 1, m);
      } else {
        InsertedKeys(m, MethodsOf(b, i));
        OffsetsKeepKeys(b, i + 1, InsertMethods(m, MethodsOf(b, i)));
      }
    }
  }

  /** With own items, the table maps each method to its own offset, and each
      offset comes from one index. */
  lemma OwnOffsets(b: seq<byte>, i: nat, k: nat)
    requires DefsInFile(b) && OwnItems(b) && MethodOffsets(b).Ok? && MethodAt(b, i, k)
    ensures var m, table := MethodOf(b, i, k), MethodOffsets(b).value;
            && m.methodIdx in table && table[m.methodIdx] == m.codeOff
            && forall idx :: idx in table && table[idx] == m.codeOff != 0 ==> idx == m.methodIdx
  {
    hide MethodOffsetsFrom, MethodOf, MethodAt, Le32;
    var m, table := MethodOf(b, i, k), MethodOffsets(b).value;
    assert AllFromMethods(b, map[]);
    OffsetsFromMethods(b, 0, map[]);
    TableHas(b, i, k);
    assert FromMethod(b, table, m.methodIdx);
    forall idx | idx in table && table[idx] == m.codeOff && m.codeOff != 0
      ensures idx == m.methodIdx
    {
      assert FromMethod(b, table, idx);
    }
  }

  lemma TableHas(b: seq<byte>, i: nat, k: nat)
    requires DefsInFile(b) && MethodOffsets(b).Ok? && MethodAt(b, i, k)
    ensures MethodOf(b, i, k).methodIdx in MethodOffsets(b).value
  {
    hide MethodOffsetsFrom, MethodsOf, Le32;
    OffsetsHaveMethod(b, 0, map[], i, k);
  }

  // ----- the last record of a method -----

  /** The last capture of method `idx` that decodes to `len` bytes. */
  function LastOf(captures: seq<Capture>, idx: u32, len: nat): Option<seq<byte>>
    decreases |captures|
  {
    if captures == [] then None
    else
      var later := LastOf(captures[1..], idx, len);
      if later.Some? then later
      else if captures[0].methodIdx != idx then None
      else
        match HexDecode(captures[0].code)
        case Some(code) => if |code| == len then Some(code) else None
        case None => None
  }

  lemma {:induction false} LastFitIsLastOf(table: map<u32, u32>, captures: seq<Capture>, idx: u32, off: u32, len: nat)
    requires idx in table && table[idx] == off
    requires forall x :: x in table && table[x] == off ==> x == idx
    ensures LastFit(table, captures, off, len, false) == LastOf(captures, idx, len)
    decreases |captures|
  {
    hide HexDecode;
    if captures != [] {
      LastFitIsLastOf(table, captures[1..], idx, off, len);
    }
  }

  /** The record that counts for a method is its last; if it decodes, it is the
      last of its length. */
  lemma {:induction false} ByMethodIsLast(captures: seq<Capture>, idx: u32)
    requires idx in ByMethod(captures) && HexDecode(ByMethod(captures)[idx].code).Some?
    ensures var code := HexDecode(ByMethod(captures)[idx].code).value;
            LastOf(captures, idx, |code|) == Some(code)
    decreases |captures|
  {
    hide HexDecode;
    var init, last := captures[..|captures| - 1], captures[|captures| - 1];
    var code := HexDecode(ByMethod(captures)[idx].code).value;
    assert captures == init + [last];
    LastOfJoin(init, [last], idx, |code|);
    LastOfOne(last, idx, |code|);
    if last.methodIdx != idx {
      ByMethodIsLast(init, idx);
    }
  }

  lemma LastOfOne(capture: Capture, idx: u32, len: nat)
    ensures LastOf([capture], idx, len)
            == if capture.methodIdx == idx && HexDecode(capture.code).Some? && |HexDecode(capture.code).value| == len
               then HexDecode(capture.code) else None
  {
    hide HexDecode;
    assert LastOf([], idx, len) == None;
  }

  lemma {:induction false} LastOfJoin(xs: seq<Capture>, ys: seq<Capture>, idx: u32, len: nat)
    ensures LastOf(xs + ys, idx, len)
            == if LastOf(ys, idx, len).Some? then LastOf(ys, idx, len) else LastOf(xs, idx, len)
    decreases |xs|
  {
    hide HexDecode;
    if xs == [] {
      assert xs + ys == ys;
    } else {
      assert (xs + ys)[1..] == xs[1..] + ys;
      LastOfJoin(xs[1..], ys, idx, len);
    }
  }

  // ----- runs give every method its own item -----

  ghost predicate NoRepeats(ms: seq<EncodedMethod>) {
    forall p, q :: 0 <= p < q < |ms| && ms[p].codeOff != 0 ==> ms[p].codeOff != ms[q].codeOff
  }

  lemma {:induction false} RunHasNoRepeats(c: seq<byte>, ms: seq<EncodedMethod>, pos: nat, end: nat)
    requires CodeRun(c, ms, pos, end) && pos <= |c|
    ensures NoRepeats(ms)
    decreases |ms|
  {
    hide CodeItemEnd;
    if ms != [] {
      var tail := ms[1..];
      var next := if ms[0].codeOff == 0 then pos else CodeItemEnd(c, ms[0].codeOff).value;
      RunHasNoRepeats(c, tail, next, end);
      forall p, q | 0 <= p < q < |ms| && ms[p].codeOff != 0
        ensures ms[p].codeOff != ms[q].codeOff
      {
        assert tail[q - 1] == ms[q];
        if p > 0 {
          assert tail[p - 1] == ms[p];
        } else if ms[q].codeOff != 0 {
          assert OffsetOf(tail, ms[q].codeOff);
          RunItem(c, tail, next, end, ms[q].codeOff);
        }
      }
    }
  }

  /** How many methods the classes from `i` up to `j` have. */
  ghost function MethodsBefore(b: seq<byte>, i: nat, j: nat): nat
    requires DefsInFile(b) && i <= j <= ClassDefsSize(b)
    decreases j - i
  {
    if i == j then 0 else |MethodsOf(b, i)| + MethodsBefore(b, i + 1, j)
  }

  lemma {:induction false} EnumeratedMethod(b: seq<byte>, i: nat, plan: seq<PlannedClass>, j: nat, k: nat)
    requires DefsInFile(b) && Enumerates(b, i, plan) && i <= j && MethodAt(b, j, k)
    ensures MethodsBefore(b, i, j) + k < |AllMethods(plan)|
    ensures AllMethods(plan)[MethodsBefore(b, i, j) + k] == MethodsOf(b, j)[k]
    decreases ClassDefsSize(b) - i
  {
    hide ParseClassData, Le32;
    if ClassDataOff(b, i) == 0 {
      EnumeratedMethod(b, i + 1, plan, j, k);
    } else if i < j {
      EnumeratedMethod(b, i + 1, plan[1..], j, k);
    }
  }

  lemma {:induction false} MethodsBeforeGrows(b: seq<byte>, i: nat, j: nat, l: nat)
    requires DefsInFile(b) && i <= j < l <= ClassDefsSize(b)
    ensures MethodsBefore(b, i, j) + |MethodsOf(b, j)| <= MethodsBefore(b, i, l)
    decreases j - i
  {
    hide MethodsOf, Le32;
    if i < j {
      MethodsBeforeGrows(b, i + 1, j, l);
    }
  }

  lemma RunsAreOwn(b: seq<byte>, moved: seq<PlannedClass>, pos: nat, mid: nat, i: nat, k: nat, j: nat, l: nat)
    requires InRuns(b, moved, pos, mid) && MethodAt(b, i, k) && MethodAt(b, j, l) && (i != j || k != l)
    ensures MethodOf(b, i, k).codeOff == MethodOf(b, j, l).codeOff ==> MethodOf(b, i, k).codeOff == 0
  {
    hide MethodsOf, Le32, Enumerates, CodeRun, ClassRun, AllMethods, MethodsBefore;
    RunHasNoRepeats(b, AllMethods(moved), pos, mid);
    EnumeratedMethod(b, 0, moved, i, k);
    EnumeratedMethod(b, 0, moved, j, l);
    if i < j {
      MethodsBeforeGrows(b, 0, i, j);
    } else if j < i {
      MethodsBeforeGrows(b, 0, j, i);
    }
  }
}
