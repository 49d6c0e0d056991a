/**
  When a second repair changes nothing, exactly: also for files whose methods
  share indices or items.
 */
module Sharing {
  import opened Bytes
  import opened Dex
  import opened ClassData
  import opened CodeItem
  import opened MapList
  import opened Synthesis
  import opened Relocation
  import opened RelocationProofs
  import opened Relocated
  import opened FormatFix
  import opened Live
  import opened FormatProofs
  import opened InPlace
  import opened Runs
  import opened Validator
  import opened Repair
  import opened Sealing
  import opened RepairProofs
  import opened RepairTheorems
  import opened RepairedProgram
  import opened Unshared
  import opened Idempotence
  import opened Closure

  // ----- writing the records again -----

  /** The item at `off` already holds the record that would be written to it. */
  ghost predicate Holding(f: seq<byte>, captures: seq<Capture>, off: u32)
    requires HasHeader(f) && MethodOffsets(f).Ok?
  {
    var code := LastFit(MethodOffsets(f).value, captures, off, LenOf(f, off), false);
    code.Some? ==> off + 16 + LenOf(f, off) <= |f| && Insns(f, off, LenOf(f, off)) == code.value
  }

  ghost predicate AllHolding(f: seq<byte>, captures: seq<Capture>)
    requires DefsInFile(f) && MethodOffsets(f).Ok?
  {
    forall off: u32 :: LiveCode(f, off) ==> Holding(f, captures, off)
  }

  /** Writing the records changes nothing exactly when they are in place. */
  lemma ReapplyIsNothing(f: seq<byte>, captures: seq<Capture>)
    requires WellFormed(f)
    ensures HasHeader(f) && MethodOffsets(f).Ok? && DefsInFile(f)
    ensures Applied(f, captures) == f <==> AllHolding(f, captures)
  {
    hide WellFormed, MethodOffsets, Applied, LastFit, LiveCode, LenOf, OnlyInsns, ReadsSame, SameTables, ReadMap;
    AppliedIs(f, captures);
    var g := Applied(f, captures);
    if AllHolding(f, captures) {
      forall off: u32 | LiveCode(f, off)
        ensures off + 16 + LenOf(f, off) <= |f| && Insns(g, off, LenOf(f, off)) == Insns(f, off, LenOf(f, off))
      {
        assert Holding(f, captures, off);
      }
      SameInsnsSame(f, g);
    }
  }

  // ----- a second run with records to write -----

  /** Finishing keeps instructions. */
  lemma FinishKeepsInsns(g: seq<byte>, digests: Digests, off: u32)
    requires Finishable(g) && Finish(g, None, digests).Ok? && LiveCode(g, off)
    ensures var h := Finish(g, None, digests).value;
            && off + 16 + LenOf(g, off) <= |g| && off + 16 + LenOf(g, off) <= |h|
            && Insns(h, off, LenOf(g, off)) == Insns(g, off, LenOf(g, off))
  {
    hide Finish, ReadsSame, SameTables, MapClear, ReadMap, MapTable, ValidateIdBounds, CodeItemEnd, CodeOffset, ReadableClass, Le32, Settled,
      Apart, InsnsLen;
    FinishedItems(g, None, [], digests);
    var h := Finish(g, None, digests).value;
    assert CodeOffset(g, off) && FinishedItem(g, h, off);
    ItemHoldsInsns(g, off);
    SettledInsns(g[off..ItemEnd(g, off)], |g|, LenOf(g, off));
    var item := g[off..ItemEnd(g, off)];
    HoldsSlice(h, off, Settled(item, |g|), 16, 16 + LenOf(g, off));
    SliceOfSlice(g, off, ItemEnd(g, off), off + 16, off + 16 + LenOf(g, off));
  }

  lemma SettledInsns(item: seq<byte>, len: nat, n: nat)
    requires 16 + n <= |item|
    ensures Settled(item, len)[16..16 + n] == item[16..16 + n]
  {
    hide Le32;
  }

  /** If the records are not in place, the second run changes the file. */
  lemma RecordsMove(f: seq<byte>, captures: seq<Capture>, force: bool, digests: Digests)
    requires WellFormed(f) && Healthy(f) && DefsInFile(f) && Recoverable(f, captures, force)
    requires RepairOne(f, captures, force, digests).Ok? && Applied(f, captures) != f
    ensures RepairOne(f, captures, force, digests).value.0 != f
  {
    hide WellFormed, Healthy, MethodOffsets, Applied, OnlyInsns, ReadsSame, SameTables, ReadMap, OffsetsUsable, AppendMissing, Finish, RepairOne,
      OpenDex, ValidateIdBounds, Finishable, ProgramKept, Replacing, LastFit, LiveCode, LenOf, MapWellFormed, Sound, Apart, StraysApart,
      IndicesInRange, MapTable, MapClear, RetiredAbove, TablesEnd;
    AppliedIs(f, captures);
    WellFormedIs(f);
    RepairOneIs(f, captures, force, digests);
    var g := Applied(f, captures);
    AppendedFinishable(g, captures, force);
    var (r, outcome) := AppendMissing(g, captures, force).value;
    AppendedLength(g, captures, force);
    if outcome.relocated.Some? {
      FinishNotShorter(r, outcome.relocated.value, digests);
    } else {
      var off := ChangedItem(f, captures);
      LiveSame(f, g, off);
      FinishKeepsInsns(g, digests, off);
    }
  }

  lemma AppendedLength(g: seq<byte>, captures: seq<Capture>, force: bool)
    requires HasHeader(g) && AppendMissing(g, captures, force).Ok?
    ensures var (r, outcome) := AppendMissing(g, captures, force).value;
            if outcome.relocated.Some? then |g| < |r| else r == g
  {
    hide PlanFrom, Relocate, CountFate, AllFates, NeedsRelocation, CountPending, AllMethods;
    var plan := PlanFrom(g, ByMethod(captures), force, 0).value;
    if NeedsRelocation(plan) {
      RelocationGrows(g, captures, force);
    }
  }

  lemma ChangedItem(f: seq<byte>, captures: seq<Capture>) returns (off: u32)
    requires WellFormed(f) && HasHeader(f) && MethodOffsets(f).Ok? && DefsInFile(f) && Applied(f, captures) != f
    ensures LiveCode(f, off) && off + 16 + LenOf(f, off) <= |f| == |Applied(f, captures)|
    ensures Insns(Applied(f, captures), off, LenOf(f, off)) != Insns(f, off, LenOf(f, off))
  {
    hide WellFormed, MethodOffsets, Applied, LastFit, LiveCode, LenOf, OnlyInsns, ReadsSame, SameTables, ReadMap;
    AppliedIs(f, captures);
    ReapplyIsNothing(f, captures);
    off :| LiveCode(f, off) && !Holding(f, captures, off);
  }

  lemma LiveSame(f: seq<byte>, g: seq<byte>, off: u32)
    requires Healthy(f) && ReadsSame(f, g) && LiveCode(f, off)
    ensures DefsInFile(g) && LiveCode(g, off) && LenOf(g, off) == LenOf(f, off)
  {
    hide CodeItemEnd, CodeOffset, ReadableClass, Le32, InsnsLen, ReadsSameClass;
    ReadsSameIsHealthy(f, g);
    assert ReadsSameItem(f, g, off);
  }

  // ----- the last method of an index -----

  /** Method `k` of class `i` comes after method `l` of class `j`. */
  predicate After(i: nat, k: nat, j: nat, l: nat) {
    j < i || (j == i && l < k)
  }

  /** No later method has the same index: its offset is the one in the table. */
  ghost predicate IsLast(b: seq<byte>, i: nat, k: nat)
    requires DefsInFile(b)
  {
    && MethodAt(b, i, k)
    && forall j: nat, l: nat :: MethodAt(b, j, l) && After(j, l, i, k) ==> MethodOf(b, j, l).methodIdx != MethodOf(b, i, k).methodIdx
  }

  lemma {:induction false} LastOfIndex(b: seq<byte>, i: nat, k: nat) returns (j: nat, l: nat)
    requires DefsInFile(b) && MethodAt(b, i, k)
    ensures IsLast(b, j, l) && MethodOf(b, j, l).methodIdx == MethodOf(b, i, k).methodIdx
    ensures (j == i && l == k) || After(j, l, i, k)
    decreases ClassDefsSize(b) - i, |MethodsOf(b, i)| - k
  {
    hide MethodsOf, Le32;
    if IsLast(b, i, k) {
      j, l := i, k;
    } else {
      var p: nat, q: nat :| MethodAt(b, p, q) && After(p, q, i, k) && MethodOf(b, p, q).methodIdx == MethodOf(b, i, k).methodIdx;
      j, l := LastOfIndex(b, p, q);
    }
  }

  lemma {:induction false} InsertedOther(m: map<u32, u32>, ms: seq<EncodedMethod>, idx: u32)
    requires forall k :: 0 <= k < |ms| ==> ms[k].methodIdx != idx
    ensures idx in InsertMethods(m, ms) <==> idx in m
    ensures idx in m ==> InsertMethods(m, ms)[idx] == m[idx]
    decreases |ms|
  {
    if ms != [] {
      assert forall k :: 0 <= k < |ms[1..]| ==> ms[1..][k] == ms[k + 1];
      InsertedOther(m[ms[0].methodIdx := ms[0].codeOff], ms[1..], idx);
    }
  }

  lemma {:induction false} InsertedLast(m: map<u32, u32>, ms: seq<EncodedMethod>, k: nat)
    requires k < |ms| && forall l :: k < l < |ms| ==> ms[l].methodIdx != ms[k].methodIdx
    ensures ms[k].methodIdx in InsertMethods(m, ms) && InsertMethods(m, ms)[ms[k].methodIdx] == ms[k].codeOff
    decreases k
  {
    var next := m[ms[0].methodIdx := ms[0].codeOff];
    assert forall l :: 0 <= l < |ms[1..]| ==> ms[1..][l] == ms[l + 1];
    if k == 0 {
      InsertedOther(next, ms[1..], ms[0].methodIdx);
    } else {
      InsertedLast(next, ms[1..], k - 1);
    }
  }

  lemma {:induction false} OffsetsOther(b: seq<byte>, i: nat, m: map<u32, u32>, idx: u32)
    requires DefsInFile(b) && MethodOffsetsFrom(b, i, m).Ok? && idx in m
    requires forall j: nat, l: nat :: MethodAt(b, j, l) && i <= j ==> MethodOf(b, j, l).methodIdx != idx
    ensures idx in MethodOffsetsFrom(b, i, m).value && MethodOffsetsFrom(b, i, m).value[idx] == m[idx]
    decreases ClassDefsSize(b) - i
  {
    hide InsertMethods, ParseClassData, Le32;
    if i < ClassDefsSize(b) {
      if ClassDataOff(b, i) == 0 {
        OffsetsOther(b, i + 1, m, idx);
      } else {
        forall k | 0 <= k < |MethodsOf(b, i)| ensures MethodsOf(b, i)[k].methodIdx != idx {
          assert MethodAt(b, i, k) && MethodOf(b, i, k) == MethodsOf(b, i)[k];
        }
        InsertedOther(m, MethodsOf(b, i), idx);
        OffsetsOther(b, i + 1, InsertMethods(m, MethodsOf(b, i)), idx);
      }
    }
  }

  lemma {:induction false} OffsetsLast(b: seq<byte>, from: nat, m: map<u32, u32>, i: nat, k: nat)
    requires DefsInFile(b) && MethodOffsetsFrom(b, from, m).Ok? && from <= i && IsLast(b, i, k)
    ensures var table := MethodOffsetsFrom(b, from, m).value;
            MethodOf(b, i, k).methodIdx in table && table[MethodOf(b, i, k).methodIdx] == MethodOf(b, i, k).codeOff
    decreases ClassDefsSize(b) - from
  {
    hide InsertMethods, ParseClassData, Le32;
    if ClassDataOff(b, from) == 0 {
      OffsetsLast(b, from + 1, m, i, k);
    } else {
      var ms := MethodsOf(b, from);
      var next := InsertMethods(m, ms);
      if from < i {
        OffsetsLast(b, from + 1, next, i, k);
      } else {
        forall l | k < l < |ms| ensures ms[l].methodIdx != ms[k].methodIdx {
          assert MethodAt(b, i, l) && MethodOf(b, i, l) == ms[l] && After(i, l, i, k);
        }
        InsertedLast(m, ms, k);
        assert MethodOf(b, i, k) == ms[k];
        OffsetsOther(b, from + 1, next, ms[k].methodIdx);
      }
    }
  }

  /** The table gives the offset of the last method of each index. */
  lemma LastIsInTable(b: seq<byte>, i: nat, k: nat)
    requires DefsInFile(b) && MethodOffsets(b).Ok? && IsLast(b, i, k)
    ensures var m, table := MethodOf(b, i, k), MethodOffsets(b).value;
            m.methodIdx in table && table[m.methodIdx] == m.codeOff
  {
    hide MethodOffsetsFrom, MethodOf, MethodAt, Le32;
    OffsetsLast(b, 0, map[], i, k);
  }

  lemma TableIsLast(b: seq<byte>, idx: u32) returns (i: nat, k: nat)
    requires DefsInFile(b) && MethodOffsets(b).Ok? && idx in MethodOffsets(b).value
    ensures IsLast(b, i, k) && MethodOf(b, i, k).methodIdx == idx && MethodOf(b, i, k).codeOff == MethodOffsets(b).value[idx]
  {
    hide MethodOffsetsFrom, MethodsOf, Le32;
    assert AllFromMethods(b, map[]);
    OffsetsFromMethods(b, 0, map[]);
    assert FromMethod(b, MethodOffsets(b).value, idx);
    var j: nat, l: nat :| MethodAt(b, j, l) && MethodOf(b, j, l).methodIdx == idx;
    i, k := LastOfIndex(b, j, l);
    LastIsInTable(b, i, k);
  }

  // ----- records for one item -----

  lemma {:induction false} NoFit(table: map<u32, u32>, captures: seq<Capture>, off: u32, len: nat)
    requires forall x :: x in table ==> table[x] != off
    ensures LastFit(table, captures, off, len, false) == None
    decreases |captures|
  {
    hide HexDecode;
    if captures != [] {
      NoFit(table, captures[1..], off, len);
    }
  }

  /** A method's own record is among those written to its item. */
  lemma {:induction false} SomeFit(table: map<u32, u32>, captures: seq<Capture>, idx: u32, off: u32, len: nat)
    requires idx in table && table[idx] == off && LastOf(captures, idx, len).Some?
    ensures LastFit(table, captures, off, len, false).Some?
    decreases |captures|
  {
    hide HexDecode;
    if captures != [] && LastOf(captures[1..], idx, len).Some? {
      SomeFit(table, captures[1..], idx, off, len);
    }
  }

  lemma OneMethod(f: seq<byte>, i: nat, k: nat, j: nat, l: nat)
    requires DefsInFile(f) && OffsetsOwn(f) && MethodAt(f, i, k) && MethodAt(f, j, l)
    requires MethodOf(f, i, k).codeOff == MethodOf(f, j, l).codeOff != 0
    ensures i == j && k == l
  {
    hide MethodOf, MethodAt, Le32;
    assert i != j || k != l ==> OwnOffset(f, i, k, j, l);
  }

  /** Where every method has its own item, an item is written the record of its
      method if that method is the last of its index, and else none. */
  lemma OwnFit(f: seq<byte>, captures: seq<Capture>, i: nat, k: nat, len: nat)
    requires DefsInFile(f) && MethodOffsets(f).Ok? && OffsetsOwn(f) && MethodAt(f, i, k) && MethodOf(f, i, k).codeOff != 0
    ensures var n := MethodOf(f, i, k);
            LastFit(MethodOffsets(f).value, captures, n.codeOff, len, false)
            == if IsLast(f, i, k) then LastOf(captures, n.methodIdx, len) else None
  {
    hide MethodOffsets, MethodOf, MethodAt, Le32, LastFit, LastOf;
    var n, table := MethodOf(f, i, k), MethodOffsets(f).value;
    forall x | x in table && table[x] == n.codeOff
      ensures x == n.methodIdx && IsLast(f, i, k)
    {
      var j, l := TableIsLast(f, x);
      OneMethod(f, i, k, j, l);
    }
    if IsLast(f, i, k) {
      LastIsInTable(f, i, k);
      LastFitIsLastOf(table, captures, n.methodIdx, n.codeOff, len);
    } else {
      NoFit(table, captures, n.codeOff, len);
    }
  }

  // ----- what the first run leaves of one method -----

  /** The method's record does not fit its item and is made into one. */
  ghost predicate Replaces(b: seq<byte>, captures: seq<Capture>, force: bool, m: EncodedMethod)
    requires HasHeader(b) && MethodOffsets(b).Ok? && HasHeader(Applied(b, captures))
  {
    var caps := ByMethod(captures);
    && !HasNoBody(m.accessFlags) && m.methodIdx in caps
    && InsnsLen(b, m.codeOff) != Some(|caps[m.methodIdx].code| / 2)
    && SynthesizeCodeItem(Applied(b, captures), m.methodIdx, m.accessFlags, caps[m.methodIdx], force).Ok?
  }

  /** The last record of the method that fits its item, if there is one, is also
      the last of all methods that share the item; or the item is replaced. */
  ghost predicate Agrees(b: seq<byte>, captures: seq<Capture>, force: bool, m: EncodedMethod)
    requires HasHeader(b) && MethodOffsets(b).Ok? && HasHeader(Applied(b, captures))
  {
    m.codeOff != 0 && InsnsLen(b, m.codeOff).Some? && !Replaces(b, captures, force, m) ==>
      var len := LenOf(b, m.codeOff);
      || LastOf(captures, m.methodIdx, len) == None
      || LastOf(captures, m.methodIdx, len) == LastFit(MethodOffsets(b).value, captures, m.codeOff, len, false)
  }

  /** Methods that share an item do not disagree about it. */
  ghost predicate SharersAgree(b: seq<byte>, captures: seq<Capture>, force: bool)
    requires DefsInFile(b) && MethodOffsets(b).Ok? && HasHeader(Applied(b, captures))
  {
    forall i: nat, k: nat :: IsLast(b, i, k) ==> Agrees(b, captures, force, MethodOf(b, i, k))
  }

  /** Unshared items are never disagreed about. */
  lemma OwnItemsAgree(b: seq<byte>, captures: seq<Capture>, force: bool)
    requires DefsInFile(b) && MethodOffsets(b).Ok? && HasHeader(Applied(b, captures)) && OwnItems(b)
    ensures SharersAgree(b, captures, force)
  {
    hide MethodOffsets, Applied, OwnItems, LastFit, LastOf, MethodOf, MethodAt, Replaces, Le32, ByMethod, InsnsLen;
    forall i: nat, k: nat | IsLast(b, i, k) ensures Agrees(b, captures, force, MethodOf(b, i, k)) {
      var m := MethodOf(b, i, k);
      if m.codeOff != 0 {
        OwnOffsets(b, i, k);
        LastFitIsLastOf(MethodOffsets(b).value, captures, m.methodIdx, m.codeOff, LenOf(b, m.codeOff));
      }
    }
  }

  /** The instructions of an item, from the item itself. */
  function InsnsOf(item: seq<byte>): seq<byte>
    requires |item| >= 16 && 16 + InsnsLenOf(item) <= |item|
  {
    item[16..16 + InsnsLenOf(item)]
  }

  ghost predicate HasInsns(item: seq<byte>) {
    |item| >= 16 && 16 + InsnsLenOf(item) <= |item|
  }

  lemma SettledHasInsns(item: seq<byte>, len: nat)
    requires HasInsns(item)
    ensures var s := Settled(item, len); HasInsns(s) && InsnsLenOf(s) == InsnsLenOf(item) && InsnsOf(s) == InsnsOf(item)
  {
    hide Le32;
    var s := Settled(item, len);
    assert s[12..16] == item[12..16];
    Le32Of(s, 12, item, 12);
    SettledInsns(item, len, InsnsLenOf(item));
  }

  lemma HeldInsns(f: seq<byte>, off: u32, item: seq<byte>)
    requires off != 0 && HasInsns(item) && Holds(f, off, item)
    ensures InsnsLen(f, off) == Some(InsnsLenOf(item)) && LenOf(f, off) == InsnsLenOf(item)
    ensures off + 16 + InsnsLenOf(item) <= |f| && Insns(f, off, InsnsLenOf(item)) == InsnsOf(item)
  {
    hide Le32;
    HoldsSlice(f, off, item, 12, 16);
    Le32Of(f, off + 12, item, 12);
    HoldsSlice(f, off, item, 16, 16 + InsnsLenOf(item));
  }

  lemma OverwrittenHasInsns(b: seq<byte>, off: u32, code: Option<seq<byte>>)
    requires CodeItemEnd(b, off).Ok? && (code.Some? ==> |code.value| == InsnsLen(b, off).value)
    ensures var item := OverwrittenAt(b, off, code);
            && HasInsns(item) && InsnsLenOf(item) == InsnsLen(b, off).value
            && (code.Some? ==> InsnsOf(item) == code.value)
  {
    hide CodeItemEnd, Le32;
    var len := InsnsLen(b, off).value;
    var item := OverwrittenAt(b, off, code);
    var before := b[off..CodeItemEnd(b, off).value];
    assert item[12..16] == before[12..16];
    Le32Of(item, 12, before, 12);
    SliceLe32(b, off, CodeItemEnd(b, off).value, 12);
    if code.Some? {
      assert item[16..16 + len] == code.value;
    }
  }

  /** The body a repair leaves, when it is the one on disk. */
  lemma KeptBody(b: seq<byte>, captures: seq<Capture>, force: bool, m: EncodedMethod)
    requires HasHeader(b) && MethodOffsets(b).Ok? && HasHeader(Applied(b, captures)) && !Replaces(b, captures, force, m)
    ensures RepairedBody(b, captures, force, m) == BodyOnDisk(b, MethodOffsets(b).value, captures, m.codeOff)
  {
    hide MethodOffsets, Applied, SynthesizeCodeItem, InsnsLen, ByMethod, BodyOnDisk, HasNoBody;
  }

  lemma ReplacedBody(b: seq<byte>, captures: seq<Capture>, force: bool, m: EncodedMethod)
    requires HasHeader(b) && MethodOffsets(b).Ok? && HasHeader(Applied(b, captures)) && Replaces(b, captures, force, m)
    ensures RepairedBody(b, captures, force, m).Some?
    ensures CarriesRecord(captures, m.methodIdx, RepairedBody(b, captures, force, m).value)
  {
    hide MethodOffsets, Applied, SynthesizeCodeItem, InsnsLen, ByMethod, BodyOnDisk, HasNoBody, CarriesRecord;
    SynthesizedCarries(Applied(b, captures), m.methodIdx, m.accessFlags, captures, force);
  }

  /** The repaired item of a method holds the method's own record, if there is
      one of its length, exactly when the sharers agree. */
  lemma BodyHolds(b: seq<byte>, captures: seq<Capture>, force: bool, i: nat, k: nat)
    requires DefsInFile(b) && Sound(b) && MethodOffsets(b).Ok? && HasHeader(Applied(b, captures)) && IsLast(b, i, k)
    requires RepairedBody(b, captures, force, MethodOf(b, i, k)).Some?
    ensures var m, item := MethodOf(b, i, k), RepairedBody(b, captures, force, MethodOf(b, i, k)).value;
            && HasInsns(item)
            && ((LastOf(captures, m.methodIdx, InsnsLenOf(item)).Some? ==>
                   InsnsOf(item) == LastOf(captures, m.methodIdx, InsnsLenOf(item)).value)
                <==> Agrees(b, captures, force, m))
  {
    hide MethodOffsets, Applied, SynthesizeCodeItem, InsnsLen, ByMethod, HasNoBody, LastFit, LastOf, MethodOf, MethodAt, RepairedBody,
      OverwrittenAt, Replaces, CodeItemEnd, Le32, LiveCode, ReadableClass;
    var m, table := MethodOf(b, i, k), MethodOffsets(b).value;
    if Replaces(b, captures, force, m) {
      ReplacedBody(b, captures, force, m);
    } else {
      KeptBody(b, captures, force, m);
      NoItemAtZero(b);
      var len := InsnsLen(b, m.codeOff).value;
      assert LenOf(b, m.codeOff) == len;
      OverwrittenHasInsns(b, m.codeOff, LastFit(table, captures, m.codeOff, len, false));
      LastIsInTable(b, i, k);
      if LastOf(captures, m.methodIdx, len).Some? {
        SomeFit(table, captures, m.methodIdx, m.codeOff, len);
      }
    }
  }

  // ----- after a relocation -----

  lemma SameLast(b: seq<byte>, captures: seq<Capture>, force: bool, f: seq<byte>, len: nat, i: nat, k: nat)
    requires HasHeader(b) && MethodOffsets(b).Ok? && FirstRun(b, captures, force, f, len)
    ensures IsLast(f, i, k) <==> IsLast(b, i, k)
  {
    hide WellFormed, MethodOffsets, ClassRepaired, Healthy, Apart, ValidateIdBounds, OpenDex, ReadMap, ReadsSame, MethodAt, MethodOf,
      AppendMissing, Le32, Applied, Carries, RepairedBody;
    forall j: nat, l: nat
      ensures MethodAt(f, j, l) <==> MethodAt(b, j, l)
      ensures MethodAt(b, j, l) ==> MethodOf(f, j, l).methodIdx == MethodOf(b, j, l).methodIdx
    {
      RepairedMethodAt(b, captures, force, f, len, j, l);
    }
  }

  /** An item of a relocated file is in place exactly when its method, if it
      counts, agrees with those it shared its old item with. */
  lemma MethodHolding(b: seq<byte>, captures: seq<Capture>, force: bool, f: seq<byte>, len: nat, i: nat, k: nat)
    requires HasHeader(b) && MethodOffsets(b).Ok? && FirstRun(b, captures, force, f, len) && Sound(b)
    requires MethodOffsets(f).Ok? && OffsetsOwn(f) && MethodAt(f, i, k) && MethodOf(f, i, k).codeOff != 0
    ensures MethodAt(b, i, k)
    ensures Holding(f, captures, MethodOf(f, i, k).codeOff)
            <==> (IsLast(b, i, k) ==> Agrees(b, captures, force, MethodOf(b, i, k)))
  {
    hide WellFormed, MethodOffsets, ClassRepaired, Healthy, Apart, ValidateIdBounds, OpenDex, ReadMap, ReadsSame, MethodAt, MethodOf,
      AppendMissing, Le32, Applied, RepairedBody, Agrees, LastOf, LastFit, Settled, CodeItemEnd, Sound, OffsetsOwn, Holds, InsnsLen, IsLast,
      HasInsns, InsnsOf, InsnsLenOf;
    RepairedMethodAt(b, captures, force, f, len, i, k);
    SameLast(b, captures, force, f, len, i, k);
    var m, n := MethodOf(b, i, k), MethodOf(f, i, k);
    OwnFit(f, captures, i, k, LenOf(f, n.codeOff));
    if IsLast(b, i, k) {
      var item := RepairedBody(b, captures, force, m).value;
      BodyHolds(b, captures, force, i, k);
      SettledHasInsns(item, len);
      HeldInsns(f, n.codeOff, Settled(item, len));
    }
  }

  /** A method left without an item had none to disagree about. */
  lemma NoBodyAgrees(b: seq<byte>, captures: seq<Capture>, force: bool, i: nat, k: nat)
    requires DefsInFile(b) && Sound(b) && MethodOffsets(b).Ok? && HasHeader(Applied(b, captures)) && MethodAt(b, i, k)
    requires RepairedBody(b, captures, force, MethodOf(b, i, k)) == None
    ensures Agrees(b, captures, force, MethodOf(b, i, k))
  {
    hide MethodOffsets, Applied, RepairedBody, Replaces, LastOf, LastFit, CodeItemEnd, Le32, MethodsOf, ReadableClass, OverwrittenAt, InsnsLen;
    var m := MethodOf(b, i, k);
    if m.codeOff != 0 && InsnsLen(b, m.codeOff).Some? && !Replaces(b, captures, force, m) {
      MethodHasOffset(b, i, k);
      assert LiveCode(b, m.codeOff);
      KeptBody(b, captures, force, m);
    }
  }

  lemma RelocatedHolding(b: seq<byte>, captures: seq<Capture>, force: bool, f: seq<byte>, len: nat)
    requires HasHeader(b) && MethodOffsets(b).Ok? && FirstRun(b, captures, force, f, len) && Sound(b)
    requires MethodOffsets(f).Ok? && OffsetsOwn(f)
    ensures AllHolding(f, captures) <==> SharersAgree(b, captures, force)
  {
    hide WellFormed, MethodOffsets, ClassRepaired, Apart, ValidateIdBounds, OpenDex, ReadMap, ReadsSame, MethodsOf, AppendMissing, Le32,
      Applied, RepairedBody, Agrees, Holding, CodeItemEnd, OffsetsOwn, CodeOffset, ReadableClass, SettledBody;
    if SharersAgree(b, captures, force) {
      forall off: u32 | LiveCode(f, off) ensures Holding(f, captures, off) {
        assert CodeOffset(f, off);
        var i, k := MethodAtOffset(f, off);
        MethodHolding(b, captures, force, f, len, i, k);
      }
    }
    if AllHolding(f, captures) {
      forall i: nat, k: nat | IsLast(b, i, k) ensures Agrees(b, captures, force, MethodOf(b, i, k)) {
        RepairedMethodAt(b, captures, force, f, len, i, k);
        if MethodOf(f, i, k).codeOff == 0 {
          NoBody(b, captures, force, f, len, i, k);
          NoBodyAgrees(b, captures, force, i, k);
        } else {
          HealthyWhole(f, i, k);
          MethodHasOffset(f, i, k);
          assert LiveCode(f, MethodOf(f, i, k).codeOff);
          MethodHolding(b, captures, force, f, len, i, k);
        }
      }
    }
  }

  lemma NoBody(b: seq<byte>, captures: seq<Capture>, force: bool, f: seq<byte>, len: nat, i: nat, k: nat)
    requires DefsInFile(b) && DefsInFile(f) && MethodOffsets(b).Ok? && MethodAt(b, i, k) && MethodAt(f, i, k)
    requires MethodRepaired(b, captures, force, MethodOf(b, i, k), f, MethodOf(f, i, k), len) && MethodOf(f, i, k).codeOff == 0
    ensures RepairedBody(b, captures, force, MethodOf(b, i, k)) == None
  {
    hide MethodOffsets, RepairedBody, MethodOf, MethodAt, CodeItemEnd, Settled;
  }

  lemma MethodAtOffset(f: seq<byte>, off: u32) returns (i: nat, k: nat)
    requires DefsInFile(f) && CodeOffset(f, off)
    ensures MethodAt(f, i, k) && MethodOf(f, i, k).codeOff == off
  {
    hide MethodsOf, Le32;
    i, k :| 0 <= i < ClassDefsSize(f) && 0 <= k < |MethodsOf(f, i)| && MethodsOf(f, i)[k].codeOff == off;
  }

  // ----- where nothing moved -----

  /** Files that read the same have the same table of code offsets. */
  lemma {:induction false} SameTable(b: seq<byte>, r: seq<byte>, i: nat, m: map<u32, u32>)
    requires Sound(b) && ReadsSame(b, r)
    ensures DefsInFile(r) && MethodOffsetsFrom(r, i, m) == MethodOffsetsFrom(b, i, m)
    decreases ClassDefsSize(b) - i
  {
    hide ParseClassData, InsertMethods, Le32, LiveCode, CodeItemEnd, ReadsSameItem;
    SameDefsOf(b, r);
    if i < ClassDefsSize(b) {
      assert ReadsSameClass(b, r, i) && ReadableClass(b, i);
      if ClassDataOff(b, i) == 0 {
        SameTable(b, r, i + 1, m);
      } else {
        SameTable(b, r, i + 1, InsertMethods(m, MethodsOf(b, i)));
      }
    }
  }

  lemma UnmovedHolding(b: seq<byte>, captures: seq<Capture>, digests: Digests)
    requires WellFormed(b) && HasHeader(b) && MethodOffsets(b).Ok? && DefsInFile(b)
    requires Finishable(Applied(b, captures)) && Finish(Applied(b, captures), None, digests).Ok?
    ensures var f := Finish(Applied(b, captures), None, digests).value;
            DefsInFile(f) && MethodOffsets(f).Ok? && AllHolding(f, captures)
  {
    hide WellFormed, MethodOffsetsFrom, Applied, LastFit, LiveCode, LenOf, OnlyInsns, ReadsSame, SameTables, ReadMap, Finish, Finishable,
      OpenDex, ValidateIdBounds, MapWellFormed, Sound, Apart, StraysApart, IndicesInRange, MapTable, MapClear, RetiredAbove, TablesEnd;
    var c := Applied(b, captures);
    AppliedIs(b, captures);
    WellFormedIs(b);
    FinishableIs(c);
    FinishedItems(c, None, [], digests);
    var f := Finish(c, None, digests).value;
    SameTable(b, c, 0, map[]);
    SameTable(c, f, 0, map[]);
    forall off: u32 | LiveCode(f, off) ensures Holding(f, captures, off) {
      SameLive(c, f, off);
      SoundLive(b, c, off);
      FinishKeepsInsns(c, digests, off);
    }
  }

  lemma FinishableIs(c: seq<byte>)
    requires Finishable(c)
    ensures Healthy(c) && Sound(c) && DefsInFile(c) && Replacing(None, [], |c|)
  {
    hide LiveCode, CodeOffset, CodeItemEnd, ReadableClass, ValidateIdBounds, Apart, ReadMap, MapTable, MapClear;
  }

  lemma SameLive(c: seq<byte>, f: seq<byte>, off: u32)
    requires Healthy(c) && ReadsSame(c, f) && DefsInFile(f) && LiveCode(f, off)
    ensures LiveCode(c, off) && LenOf(f, off) == LenOf(c, off)
  {
    hide CodeItemEnd, CodeOffset, ReadableClass, Le32, InsnsLen, ReadsSameClass;
    ReadsSameIsHealthy(c, f);
    assert ReadsSameItem(c, f, off);
  }

  lemma SoundLive(b: seq<byte>, c: seq<byte>, off: u32)
    requires WellFormed(b) && DefsInFile(b) && DefsInFile(c) && OnlyInsns(b, c) && LiveCode(c, off)
    ensures LiveCode(b, off) && LenOf(c, off) == LenOf(b, off)
  {
    hide CodeItemEnd, CodeOffset, ReadableClass, Le32, InsnsLen, ReadsSameClass, OnlyInsns, OpenDex, ValidateIdBounds, MapWellFormed, Apart,
      StraysApart, IndicesInRange, MapTable, MapClear, LiveCode;
    WellFormedIs(b);
    OnlyInsnsReadsSame(b, c);
    SameItemLen(b, c, off);
  }

  lemma SameItemLen(b: seq<byte>, c: seq<byte>, off: u32)
    requires Sound(b) && ReadsSame(b, c) && LiveCode(b, off)
    ensures LenOf(c, off) == LenOf(b, off)
  {
    hide CodeItemEnd, ReadableClass, Le32, InsnsLen, ReadsSameClass, CodeOffset;
    assert ReadsSameItem(b, c, off);
  }

  // ----- exactly when a second run changes nothing -----

  lemma HealthyUsable(f: seq<byte>, captures: Captures, force: bool)
    requires Healthy(f)
    ensures DefsInFile(f) && OffsetsUsable(f, captures, force)
  {
    hide CodeItemEnd, InsnsLen, Le32, PlanMethod, ReadableClass, CodeOffset, HasNoBody;
    forall i | 0 <= i < ClassDefsSize(f) ensures ClassUsable(f, captures, force, i) {
      var ms := MethodsOf(f, i);
      forall k | 0 <= k < |ms| ensures KeepsUsable(f, captures, force, ms[k]) {
        if ms[k].codeOff != 0 {
          MethodHasOffset(f, i, k);
          assert LiveCode(f, ms[k].codeOff);
        }
      }
    }
  }

  /** A repaired file can be repaired again, whatever is recorded by then. */
  lemma RepairedIsRecoverable(f: seq<byte>, captures: seq<Capture>, force: bool)
    requires WellFormed(f) && Healthy(f)
    ensures DefsInFile(f) && Recoverable(f, captures, force)
  {
    hide WellFormed, Healthy, MethodOffsets, Applied, LastFit, LiveCode, LenOf, OnlyInsns, ReadsSame, SameTables, ReadMap, OffsetsUsable;
    AppliedIs(f, captures);
    StillHealthy(f, Applied(f, captures));
    HealthyUsable(Applied(f, captures), ByMethod(captures), force);
  }

  lemma StillHealthy(f: seq<byte>, g: seq<byte>)
    requires Healthy(f) && DefsInFile(f) && ReadsSame(f, g)
    ensures Healthy(g)
  {
    hide LiveCode, CodeOffset, CodeItemEnd, ReadableClass, ReadsSame;
    ReadsSameIsHealthy(f, g);
  }

  /** Whether the first run left every record in place. */
  lemma FirstRunHolding(b: seq<byte>, captures: seq<Capture>, force: bool, digests: Digests)
    requires WellFormed(b) && DefsInFile(b) && Recoverable(b, captures, force)
    requires RepairOne(b, captures, force, digests).Ok?
    ensures var (f, outcome) := RepairOne(b, captures, force, digests).value;
            && WellFormed(f) && Healthy(f) && DefsInFile(f) && MethodOffsets(f).Ok?
            && (AllHolding(f, captures) <==> (outcome.relocated.Some? ==> SharersAgree(b, captures, force)))
  {
    hide WellFormed, Healthy, MethodOffsets, Applied, OnlyInsns, ReadsSame, SameTables, ReadMap, OffsetsUsable, AppendMissing, Finish, RepairOne,
      OpenDex, ValidateIdBounds, Finishable, ProgramKept, Replacing, LastFit, LiveCode, LenOf, MapWellFormed, Sound, Apart, StraysApart,
      IndicesInRange, MapTable, MapClear, RetiredAbove, TablesEnd, AllHolding, SharersAgree, OffsetsOwn, FirstRun, Insns;
    AppliedIs(b, captures);
    WellFormedIs(b);
    RepairOneIs(b, captures, force, digests);
    RepairedIsWellFormed(b, captures, force, digests);
    FirstRunIs(b, captures, force, digests);
    var c := Applied(b, captures);
    var (f, outcome) := RepairOne(b, captures, force, digests).value;
    AppliedIs(f, captures);
    AppendedLength(c, captures, force);
    AppendedFinishable(c, captures, force);
    if outcome.relocated.Some? {
      FinishedOffsets(c, captures, force, digests);
      RelocatedHolding(b, captures, force, f, |AppendMissing(c, captures, force).value.0|);
    } else {
      UnmovedHolding(b, captures, digests);
    }
  }

  /** After a relocation no two methods share an offset. */
  lemma FinishedOffsets(c: seq<byte>, captures: seq<Capture>, force: bool, digests: Digests)
    requires WellFormed(c) && DefsInFile(c) && OffsetsUsable(c, ByMethod(captures), force)
    requires AppendMissing(c, captures, force).Ok? && AppendMissing(c, captures, force).value.1.relocated.Some?
    requires var (r, outcome) := AppendMissing(c, captures, force).value; Finish(r, outcome.relocated, digests).Ok?
    ensures var (r, outcome) := AppendMissing(c, captures, force).value;
            DefsInFile(Finish(r, outcome.relocated, digests).value) && OffsetsOwn(Finish(r, outcome.relocated, digests).value)
  {
    hide WellFormed, OffsetsUsable, AppendMissing, Finish, Finishable, ProgramKept, Replacing, MapCanSettle, ReadsSame, OffsetsOwn, OpenDex,
      ValidateIdBounds, ReadMap, Apart, Healthy, ReplacementsOf;
    AppendedFinishable(c, captures, force);
    AppendedSettles(c, captures, force);
    var (r, outcome) := AppendMissing(c, captures, force).value;
    SettleFinish(r, outcome, digests);
    ReadsSameOwn(r, Finish(r, outcome.relocated, digests).value);
    SameDefsOf(r, Finish(r, outcome.relocated, digests).value);
  }

  lemma SecondRunChanges(f: seq<byte>, captures: seq<Capture>, force: bool, digests: Digests)
    requires WellFormed(f) && Healthy(f) && DefsInFile(f) && MethodOffsets(f).Ok? && Finish(f, None, digests) == Ok(f)
    requires forall j :: 0 <= j < ClassDefsSize(f) ==> AllWhole(f, MethodsOf(f, j))
    ensures (RepairOne(f, captures, force, digests).Ok? && RepairOne(f, captures, force, digests).value.0 == f)
            <==> AllHolding(f, captures) && NoneLost(f, ByMethod(captures), 0) && !SomeSynthesizable(f, captures, force)
  {
    hide WellFormed, Healthy, MethodOffsets, Applied, ReadMap, Finish, RepairOne, OpenDex, ValidateIdBounds, AllHolding, AllWhole, NoneLost,
      SomeSynthesizable, Recoverable, MapWellFormed, Sound, Apart, StraysApart, IndicesInRange, MapTable, MapClear, RetiredAbove, TablesEnd;
    WellFormedIs(f);
    ReapplyIsNothing(f, captures);
    if Applied(f, captures) == f {
      SecondRun(f, captures, force, digests);
    } else if RepairOne(f, captures, force, digests).Ok? {
      RepairedIsRecoverable(f, captures, force);
      RecordsMove(f, captures, force, digests);
    }
  }

  /** When repair is idempotent: a second run with the same records leaves every
      byte unchanged exactly when the first lost no method, methods that shared an
      item do not disagree about it, if it was taken apart, and no record that
      still does not fit its item can be made into one. The last holds when no
      record failed, the second when no two methods share an index or an item. */
  lemma RepairIdempotent(b: seq<byte>, captures: seq<Capture>, force: bool, digests: Digests)
    requires WellFormed(b) && DefsInFile(b) && Recoverable(b, captures, force)
    requires RepairOne(b, captures, force, digests).Ok?
    ensures
      var (f, outcome) := RepairOne(b, captures, force, digests).value;
      && DefsInFile(f)
      && ((RepairOne(f, captures, force, digests).Ok? && RepairOne(f, captures, force, digests).value.0 == f)
          <==> && outcome.unrecovered == 0
               && (outcome.relocated.Some? ==> SharersAgree(b, captures, force))
               && !SomeSynthesizable(f, captures, force))
      && (outcome.failed == 0 ==> !SomeSynthesizable(f, captures, force))
    ensures OwnItems(b) ==> SharersAgree(b, captures, force)
  {
    hide WellFormed, Healthy, MethodOffsets, Applied, OnlyInsns, ReadsSame, SameTables, ReadMap, OffsetsUsable, AppendMissing, Finish, RepairOne,
      OpenDex, ValidateIdBounds, LastFit, LiveCode, LenOf, MapWellFormed, Sound, Apart, StraysApart, IndicesInRange, MapTable, MapClear,
      RetiredAbove, TablesEnd, AllHolding, SharersAgree, FirstRun, Insns, AllWhole, NoneLost, SomeSynthesizable, OwnItems;
    AppliedIs(b, captures);
    FirstRunIs(b, captures, force, digests);
    FirstRunHolding(b, captures, force, digests);
    var (f, outcome) := RepairOne(b, captures, force, digests).value;
    var len := |AppendMissing(Applied(b, captures), captures, force).value.0|;
    FirstRunAccounted(b, captures, force, f, len);
    WellFormedIs(Applied(b, captures));
    if outcome.unrecovered != 0 {
      FirstRunLost(b, captures, force, f, len);
    }
    SecondRunChanges(f, captures, force, digests);
    if OwnItems(b) {
      OwnItemsAgree(b, captures, force);
    }
  }
}
