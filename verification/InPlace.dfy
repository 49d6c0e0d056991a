/**
  Writing captures over the items they fit: the last fitting record of an item
  decides its instructions, and nothing else in the file changes.
 */
module InPlace {
  import opened Bytes
  import opened Dex
  import opened ClassData
  import opened CodeItem
  import opened Synthesis
  import opened Relocation
  import opened RelocationProofs
  import opened Relocated
  import opened Live
  import opened FormatProofs

  ghost function LenOf(b: seq<byte>, off: u32): nat {
    match InsnsLen(b, off)
    case Some(len) => len
    case None => 0
  }

  ghost predicate InInsns(b: seq<byte>, x: int)
    requires DefsInFile(b)
  {
    exists off: u32 :: LiveCode(b, off) && off + 16 <= x < off + 16 + LenOf(b, off)
  }

  /** `c` differs from `b` only in the instructions of live items. */
  ghost predicate OnlyInsns(b: seq<byte>, c: seq<byte>)
    requires DefsInFile(b)
  {
    && |c| == |b|
    && forall x :: 0 <= x < |b| && !InInsns(b, x) ==> c[x] == b[x]
  }

  /** An unusable offset that points into the file does not point into an item. */
  ghost predicate StraysApart(b: seq<byte>)
    requires DefsInFile(b)
  {
    forall off: u32, d: u32 :: CodeOffset(b, off) && !LiveCode(b, off) && off + 16 <= |b| && LiveCode(b, d) ==>
      off + 16 <= d || ItemEnd(b, d) <= off + 12
  }

  // ----- instructions do not decide where an item ends -----

  /** The end of an item does not depend on its instructions. */
  lemma EndIgnoresInsns(b: seq<byte>, c: seq<byte>, off: u32)
    requires CodeItemEnd(b, off).Ok?
    requires Agree(b, c, off, off + 16)
    requires Agree(b, c, off + 16 + LenOf(b, off), CodeItemEnd(b, off).value)
    requires |c| == |b|
    ensures ReadsSameItem(b, c, off)
  {
    hide TriesEnd, Agree, Holds, Le32, Le16, Align4;
    AgreeLe32(b, c, off, off + 16, off + 12);
    AgreeLe16(b, c, off, off + 16, off + 6);
    var body := off + 16 + LenOf(b, off);
    var end := CodeItemEnd(b, off).value;
    if Le16(b, off + 6) != 0 {
      AgreeWithin(b, c, body, end, Align4(body), end);
      TriesEndLocal(b, Align4(body), Le16(b, off + 6), LenOf(b, off) / 2, c, Align4(body));
    }
  }

  lemma AgreeLe16(b: seq<byte>, c: seq<byte>, lo: nat, hi: nat, x: nat)
    requires Agree(b, c, lo, hi) && lo <= x && x + 2 <= hi
    ensures Le16(b, x) == Le16(c, x)
  {
    hide Le16;
    AgreeWithin(b, c, lo, hi, x, x + 2);
    Le16Of(b, x, c, x);
  }

  lemma ItemHoldsInsns(b: seq<byte>, off: u32)
    requires CodeItemEnd(b, off).Ok?
    ensures off + 16 + LenOf(b, off) <= ItemEnd(b, off) <= |b|
  {
    hide Le32, Align4;
  }

  lemma InsnsInItem(b: seq<byte>, x: int)
    requires Sound(b) && Apart(b) && InInsns(b, x)
    ensures TablesEnd(b) <= x
    ensures exists off: u32 :: LiveCode(b, off) && off + 16 <= x < ItemEnd(b, off)
  {
    hide LiveCode, LiveData, TablesEnd, CodeItemEnd, InsnsLen, ReadableClass, ItemEnd, LenOf;
    var off: u32 :| LiveCode(b, off) && off + 16 <= x < off + 16 + LenOf(b, off);
    ItemHoldsInsns(b, off);
  }

  lemma OutsideInsns(b: seq<byte>, d: u32, x: int)
    requires Sound(b) && Apart(b) && LiveCode(b, d) && d <= x < ItemEnd(b, d)
    requires !(d + 16 <= x < d + 16 + LenOf(b, d))
    ensures !InInsns(b, x)
  {
    hide LiveCode, LiveData, TablesEnd, CodeItemEnd, InsnsLen, ReadableClass, ItemEnd, LenOf;
    forall off: u32 | LiveCode(b, off)
      ensures !(off + 16 <= x < off + 16 + LenOf(b, off))
    {
      ItemHoldsInsns(b, off);
      assert off < d ==> ItemEnd(b, off) <= d;
      assert d < off ==> ItemEnd(b, d) <= off;
    }
  }

  lemma DataOutsideInsns(b: seq<byte>, d: u32, x: int)
    requires Sound(b) && Apart(b) && LiveData(b, d) && d <= x < DataEnd(b, d)
    ensures !InInsns(b, x)
  {
    hide LiveCode, LiveData, TablesEnd, CodeItemEnd, InsnsLen, ReadableClass, ItemEnd, LenOf, DataEnd;
    forall off: u32 | LiveCode(b, off)
      ensures !(off + 16 <= x < off + 16 + LenOf(b, off))
    {
      ItemHoldsInsns(b, off);
      assert ItemEnd(b, off) <= d || DataEnd(b, d) <= off;
    }
  }

  lemma OnlyInsnsKeepsItem(b: seq<byte>, c: seq<byte>, off: u32)
    requires Sound(b) && Apart(b) && OnlyInsns(b, c) && LiveCode(b, off)
    ensures ReadsSameItem(b, c, off)
  {
    hide LiveCode, LiveData, TablesEnd, CodeItemEnd, InsnsLen, ReadableClass, LenOf, InInsns, Apart, ReadsSameItem;
    ItemHoldsInsns(b, off);
    forall x | off <= x < ItemEnd(b, off) && !(off + 16 <= x < off + 16 + LenOf(b, off))
      ensures c[x] == b[x]
    {
      OutsideInsns(b, off, x);
    }
    AgreePointwise(b, c, off, off + 16);
    AgreePointwise(b, c, off + 16 + LenOf(b, off), ItemEnd(b, off));
    EndIgnoresInsns(b, c, off);
  }

  lemma OnlyInsnsBelow(b: seq<byte>, c: seq<byte>, lo: nat, hi: nat)
    requires Sound(b) && Apart(b) && OnlyInsns(b, c) && lo <= hi <= TablesEnd(b) <= |b|
    ensures Agree(b, c, lo, hi)
  {
    hide LiveCode, LiveData, TablesEnd, CodeItemEnd, InsnsLen, ReadableClass, InInsns, Apart;
    forall x | lo <= x < hi ensures c[x] == b[x] {
      if InInsns(b, x) {
        InsnsInItem(b, x);
      }
    }
    AgreePointwise(b, c, lo, hi);
  }

  lemma OnlyInsnsKeepsData(b: seq<byte>, c: seq<byte>, off: u32)
    requires Sound(b) && Apart(b) && OnlyInsns(b, c) && LiveData(b, off)
    ensures SameData(b, c, off)
  {
    hide LiveCode, TablesEnd, CodeItemEnd, InsnsLen, InInsns, Apart, ParseClassData, Le32;
    var i :| 0 <= i < ClassDefsSize(b) && ClassDataOff(b, i) == off;
    assert ReadableClass(b, i);
    forall x | off <= x < DataEnd(b, off) ensures c[x] == b[x] {
      DataOutsideInsns(b, off, x);
    }
    AgreePointwise(b, c, off, DataEnd(b, off));
  }

  lemma StrayStaysStray(b: seq<byte>, c: seq<byte>, off: u32)
    requires Sound(b) && Apart(b) && StraysApart(b) && OnlyInsns(b, c) && CodeOffset(b, off) && !LiveCode(b, off)
    ensures InsnsLen(c, off).None?
  {
    hide TablesEnd, CodeItemEnd, InInsns, LiveData, Le32, ReadableClass, CodeOffset;
    if off + 16 <= |b| {
      forall x | off + 12 <= x < off + 16 ensures c[x] == b[x] {
        StrayOutsideInsns(b, off, x);
      }
      AgreePointwise(b, c, off + 12, off + 16);
      AgreeLe32(b, c, off + 12, off + 16, off + 12);
    }
  }

  lemma StrayOutsideInsns(b: seq<byte>, off: u32, x: int)
    requires Sound(b) && StraysApart(b) && CodeOffset(b, off) && !LiveCode(b, off) && off + 16 <= |b|
    requires off + 12 <= x < off + 16
    ensures !InInsns(b, x)
  {
    hide LiveCode, CodeOffset, CodeItemEnd, InsnsLen, ReadableClass, ItemEnd, LenOf;
    forall d: u32 | LiveCode(b, d)
      ensures !(d + 16 <= x < d + 16 + LenOf(b, d))
    {
      ItemHoldsInsns(b, d);
      assert off + 16 <= d || ItemEnd(b, d) <= off + 12;
    }
  }

  /** Rewriting instructions keeps every class and item readable, and strays
      astray. */
  lemma OnlyInsnsReadsSame(b: seq<byte>, c: seq<byte>)
    requires Sound(b) && Apart(b) && StraysApart(b) && ValidateIdBounds(b).Ok? && OnlyInsns(b, c)
    ensures ReadsSame(b, c) && Sound(c)
    ensures forall off: u32 :: LiveCode(c, off) <==> LiveCode(b, off)
  {
    hide CodeOffset, LiveData, TablesEnd, ValidateIdBounds, CodeItemEnd, InsnsLen, InInsns, Apart, StraysApart, Le32, Agree, ReadableClass,
      ClassDefAt, ParseClassData, OnlyInsns;
    ValidatedDefsInFile(b);
    OnlyInsnsBelow(b, c, 96, 104);
    forall i | 0 <= i < ClassDefsSize(b) ensures SameLink(b, c, ClassDefAt(b, i)) {
      OnlyInsnsBelow(b, c, ClassDefAt(b, i) + 24, ClassDefAt(b, i) + 28);
    }
    forall off: u32 | LiveData(b, off) ensures SameData(b, c, off) {
      OnlyInsnsKeepsData(b, c, off);
    }
    forall off: u32 | LiveCode(b, off) ensures ReadsSameItem(b, c, off) {
      OnlyInsnsKeepsItem(b, c, off);
    }
    OnlyInsnsLength(b, c);
    PreservedReadsSame(b, c);
    forall off: u32
      ensures LiveCode(c, off) <==> LiveCode(b, off)
    {
      ReadsSameOffsets(b, c, off);
      if CodeOffset(b, off) && !LiveCode(b, off) {
        StrayStaysStray(b, c, off);
      }
    }
    SoundCarries(b, c);
  }

  lemma OnlyInsnsLength(b: seq<byte>, c: seq<byte>)
    requires DefsInFile(b) && OnlyInsns(b, c)
    ensures |c| == |b|
  {
  }

  lemma SoundCarries(b: seq<byte>, c: seq<byte>)
    requires Sound(b) && ReadsSame(b, c) && forall off: u32 :: LiveCode(c, off) <==> LiveCode(b, off)
    ensures Sound(c)
  {
    hide LiveCode, CodeItemEnd, InsnsLen, Le32, ParseClassData;
    forall i | 0 <= i < ClassDefsSize(c) ensures ReadableClass(c, i) {
      assert ReadableClass(b, i) && ReadsSameClass(b, c, i);
    }
  }

  // ----- exactly the last fitting record -----

  /** `code` cut or zero-padded to `len` bytes. */
  function Resized(code: seq<byte>, len: nat): (r: seq<byte>)
    ensures |r| == len
    ensures |code| == len ==> r == code
  {
    if len <= |code| then code[..len] else code + Zeros(len - |code|)
  }

  /** What a record writes into the item at `off`, when it is addressed to it
      and fits, or is made to. */
  function Fits(method2off: map<u32, u32>, capture: Capture, off: u32, len: nat, force: bool): (r: Option<seq<byte>>)
    ensures r.Some? ==> |r.value| == len
  {
    if capture.methodIdx !in method2off || method2off[capture.methodIdx] != off then None
    else
      match HexDecode(capture.code)
      case Some(code) => if |code| == len || force then Some(Resized(code, len)) else None
      case None => None
  }

  /** The last of the records that fit. */
  function LastFit(method2off: map<u32, u32>, captures: seq<Capture>, off: u32, len: nat, force: bool): (r: Option<seq<byte>>)
    ensures r.Some? ==> |r.value| == len
    decreases |captures|
  {
    if captures == [] then None
    else
      var later := LastFit(method2off, captures[1..], off, len, force);
      if later.Some? then later else Fits(method2off, captures[0], off, len, force)
  }

  /** Every offset in the table is zero or some method's. */
  ghost predicate OffsetsOf(b: seq<byte>, method2off: map<u32, u32>)
    requires DefsInFile(b)
  {
    forall idx :: idx in method2off ==> method2off[idx] == 0 || CodeOffset(b, method2off[idx])
  }

  ghost function Insns(b: seq<byte>, off: u32, len: nat): seq<byte>
    requires off + 16 + len <= |b|
  {
    b[off + 16..off + 16 + len]
  }

  /** A record is written over the whole length of its item's instructions, or
      not at all. */
  lemma RecordIs(cur: seq<byte>, method2off: map<u32, u32>, capture: Capture, force: bool)
    ensures var next := ApplyRecord(cur, method2off, capture, force);
            if capture.methodIdx in method2off && InsnsLen(cur, method2off[capture.methodIdx]).Some?
               && Fits(method2off, capture, method2off[capture.methodIdx], LenOf(cur, method2off[capture.methodIdx]), force).Some?
            then
              var off: nat := method2off[capture.methodIdx];
              next == Patch(cur, off + 16, Fits(method2off, capture, off, LenOf(cur, off), force).value)
            else next == cur
  {
    hide HexDecode, Le32, Resized;
    if capture.methodIdx in method2off && InsnsLen(cur, method2off[capture.methodIdx]).Some? && HexDecode(capture.code).Some? {
      var off: nat := method2off[capture.methodIdx];
      WriteIs(cur, off + 16, HexDecode(capture.code).value, LenOf(cur, off));
    }
  }

  /** Writing what there is and zeroing the rest writes the resized code. */
  lemma WriteIs(cur: seq<byte>, start: nat, code: seq<byte>, len: nat)
    requires start + len <= |cur|
    ensures var n := Min(len, |code|);
            ZeroRange(Patch(cur, start, code[..n]), start + n, start + len) == Patch(cur, start, Resized(code, len))
  {
  }

  lemma RecordKeepsRest(b: seq<byte>, cur: seq<byte>, method2off: map<u32, u32>, capture: Capture, force: bool)
    requires Sound(b) && Apart(b) && StraysApart(b) && ValidateIdBounds(b).Ok?
    requires OffsetsOf(b, method2off) && OnlyInsns(b, cur)
    ensures OnlyInsns(b, ApplyRecord(cur, method2off, capture, force))
  {
    hide CodeItemEnd, Le32, ReadableClass, Apart, StraysApart, HexDecode, ValidateIdBounds, TablesEnd, CodeOffset, ApplyRecord;
    OnlyInsnsReadsSame(b, cur);
    RecordIs(cur, method2off, capture, force);
    if capture.methodIdx in method2off {
      var off := method2off[capture.methodIdx];
      if InsnsLen(cur, off).Some? {
        ReadsSameOffsets(b, cur, off);
        assert LiveCode(b, off) by { assert off != 0; assert LiveCode(cur, off); }
        assert LenOf(cur, off) == LenOf(b, off);
      }
    }
  }

  lemma RecordAt(b: seq<byte>, cur: seq<byte>, method2off: map<u32, u32>, capture: Capture, off: u32, force: bool)
    requires Sound(b) && Apart(b) && ReadsSame(b, cur) && OffsetsOf(b, method2off) && |cur| == |b|
    requires forall o: u32 :: LiveCode(cur, o) <==> LiveCode(b, o)
    requires LiveCode(b, off)
    ensures off + 16 + LenOf(b, off) <= |cur|
    ensures Insns(ApplyRecord(cur, method2off, capture, force), off, LenOf(b, off))
            == match Fits(method2off, capture, off, LenOf(b, off), force)
               case Some(code) => code
               case None => Insns(cur, off, LenOf(b, off))
  {
    hide CodeItemEnd, Le32, ReadableClass, HexDecode, TablesEnd, CodeOffset, ApplyRecord, LiveData, ReadsSameClass;
    var len := LenOf(b, off);
    assert ReadsSameItem(b, cur, off);
    RecordIs(cur, method2off, capture, force);
    var next := ApplyRecord(cur, method2off, capture, force);
    if capture.methodIdx in method2off && InsnsLen(cur, method2off[capture.methodIdx]).Some? {
      var target := method2off[capture.methodIdx];
      ReadsSameOffsets(b, cur, target);
      assert LiveCode(cur, target);
      if target == off {
        SameInsns(next, cur, off, len);
      } else {
        assert ReadsSameItem(b, cur, target);
        ItemHoldsInsns(b, off);
        ItemHoldsInsns(b, target);
        assert off < target ==> ItemEnd(b, off) <= target;
        assert target < off ==> ItemEnd(b, target) <= off;
        SameInsns(next, cur, off, len);
      }
    }
  }

  lemma SameInsns(c: seq<byte>, d: seq<byte>, off: u32, len: nat)
    requires off + 16 + len <= |c| && |c| == |d|
    ensures (forall x :: off + 16 <= x < off + 16 + len ==> c[x] == d[x]) ==> Insns(c, off, len) == Insns(d, off, len)
    ensures forall code: seq<byte> :: |code| == len && c == Patch(d, off + 16, code) ==> Insns(c, off, len) == code
  {
  }

  /** One record touches at most the instructions of the item it is for. */
  lemma ApplyRecordIs(b: seq<byte>, cur: seq<byte>, method2off: map<u32, u32>, capture: Capture, force: bool)
    requires Sound(b) && Apart(b) && StraysApart(b) && ValidateIdBounds(b).Ok?
    requires OffsetsOf(b, method2off) && OnlyInsns(b, cur)
    ensures OnlyInsns(b, ApplyRecord(cur, method2off, capture, force))
    ensures forall off: u32 :: LiveCode(b, off) ==>
              && off + 16 + LenOf(b, off) <= |cur|
              && Insns(ApplyRecord(cur, method2off, capture, force), off, LenOf(b, off))
                 == match Fits(method2off, capture, off, LenOf(b, off), force)
                    case Some(code) => code
                    case None => Insns(cur, off, LenOf(b, off))
  {
    hide CodeItemEnd, InsnsLen, InInsns, Le32, ReadableClass, Apart, StraysApart, HexDecode, ValidateIdBounds, TablesEnd, LenOf,
      CodeOffset, LiveCode, Insns, OnlyInsns, ReadsSame, ApplyRecord, Fits, OffsetsOf;
    OnlyInsnsReadsSame(b, cur);
    OnlyInsnsLength(b, cur);
    RecordKeepsRest(b, cur, method2off, capture, force);
    forall off: u32 | LiveCode(b, off)
      ensures off + 16 + LenOf(b, off) <= |cur|
      ensures Insns(ApplyRecord(cur, method2off, capture, force), off, LenOf(b, off))
              == match Fits(method2off, capture, off, LenOf(b, off), force)
                 case Some(code) => code
                 case None => Insns(cur, off, LenOf(b, off))
    {
      RecordAt(b, cur, method2off, capture, off, force);
    }
  }

  /** All records: every live item ends up with the last record that is for it
      and fits it, or under `force` with the last one for it, cut or padded; else
      with its own instructions; no other byte changes. */
  lemma {:induction false} ApplyRecordsExact(
    b: seq<byte>, cur: seq<byte>, method2off: map<u32, u32>, captures: seq<Capture>, force: bool)
    requires Sound(b) && Apart(b) && StraysApart(b) && ValidateIdBounds(b).Ok?
    requires OffsetsOf(b, method2off) && OnlyInsns(b, cur)
    ensures OnlyInsns(b, ApplyRecords(cur, method2off, captures, force))
    ensures forall off: u32 :: LiveCode(b, off) ==>
              && off + 16 + LenOf(b, off) <= |cur|
              && Insns(ApplyRecords(cur, method2off, captures, force), off, LenOf(b, off))
                 == match LastFit(method2off, captures, off, LenOf(b, off), force)
                    case Some(code) => code
                    case None => Insns(cur, off, LenOf(b, off))
    decreases |captures|
  {
    hide CodeItemEnd, InsnsLen, InInsns, Le32, ReadableClass, Apart, StraysApart, HexDecode, ValidateIdBounds, TablesEnd, LenOf,
      CodeOffset, LiveCode, Insns, OnlyInsns, ReadsSame, ApplyRecord, Fits, OffsetsOf;
    if captures == [] {
      forall off: u32 | LiveCode(b, off) ensures off + 16 + LenOf(b, off) <= |cur| {
        ItemHoldsInsns(b, off);
        OnlyInsnsLength(b, cur);
      }
    } else {
      ApplyRecordIs(b, cur, method2off, captures[0], force);
      ApplyRecordsExact(b, ApplyRecord(cur, method2off, captures[0], force), method2off, captures[1..], force);
    }
  }

  // ----- the table of code offsets -----

  lemma {:induction false} InsertedOffsets(b: seq<byte>, m: map<u32, u32>, ms: seq<EncodedMethod>)
    requires DefsInFile(b) && OffsetsOf(b, m)
    requires forall k :: 0 <= k < |ms| && ms[k].codeOff != 0 ==> CodeOffset(b, ms[k].codeOff)
    ensures OffsetsOf(b, InsertMethods(m, ms))
    decreases |ms|
  {
    hide CodeOffset;
    if ms != [] {
      assert forall k :: 0 <= k < |ms[1..]| ==> ms[1..][k] == ms[k + 1];
      InsertedOffsets(b, m[ms[0].methodIdx := ms[0].codeOff], ms[1..]);
    }
  }

  lemma {:induction false} MethodOffsetsAre(b: seq<byte>, i: nat, m: map<u32, u32>)
    requires DefsInFile(b) && OffsetsOf(b, m) && MethodOffsetsFrom(b, i, m).Ok?
    ensures OffsetsOf(b, MethodOffsetsFrom(b, i, m).value)
    decreases ClassDefsSize(b) - i
  {
    hide CodeOffset, ParseClassData, InsertMethods, OffsetsOf, Le32;
    if i < ClassDefsSize(b) {
      if ClassDataOff(b, i) == 0 {
        MethodOffsetsAre(b, i + 1, m);
      } else {
        var ms := MethodsOf(b, i);
        forall k | 0 <= k < |ms| && ms[k].codeOff != 0 ensures CodeOffset(b, ms[k].codeOff) {
          MethodHasOffset(b, i, k);
        }
        InsertedOffsets(b, m, ms);
        MethodOffsetsAre(b, i + 1, InsertMethods(m, ms));
      }
    }
  }
}
