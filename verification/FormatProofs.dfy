/**
  Clearing stale fields is exact: each word that points past the end becomes
  zero, and nothing else changes, so every class and item still reads the same.
 */
module FormatProofs {
  import opened Bytes
  import opened Dex
  import opened ClassData
  import opened CodeItem
  import opened FormatFix
  import opened Relocation
  import opened RelocationProofs
  import opened Relocated
  import opened Live

  // ----- clearing a list of words -----

  predicate WordsFit(b: seq<byte>, ws: seq<nat>) {
    forall w :: w in ws ==> w + 4 <= |b|
  }

  function ClearAll(b: seq<byte>, ws: seq<nat>): (r: seq<byte>)
    requires WordsFit(b, ws)
    ensures |r| == |b|
    decreases |ws|
  {
    if ws == [] then b
    else
      assert ws[0] in ws && forall w :: w in ws[1..] ==> w in ws;
      ClearAll(ClearIfPast(b, ws[0]), ws[1..])
  }

  ghost predicate WordsApart(v: nat, w: nat) {
    v == w || v + 4 <= w || w + 4 <= v
  }

  ghost predicate Spaced(ws: seq<nat>) {
    forall v, w :: v in ws && w in ws ==> WordsApart(v, w)
  }

  ghost predicate InWord(w: nat, x: int) {
    w <= x < w + 4
  }

  ghost predicate InWords(ws: seq<nat>, x: int) {
    exists w :: w in ws && InWord(w, x)
  }

  /** What a word becomes. */
  function Cleared(b: seq<byte>, w: nat): u32
    requires w + 4 <= |b|
  {
    if Le32(b, w) >= |b| then 0 else Le32(b, w)
  }

  lemma ZeroWord(b: seq<byte>, w: nat)
    requires w + 4 <= |b| && b[w..w + 4] == [0, 0, 0, 0]
    ensures Le32(b, w) == 0
  {
    assert b[w] == b[w..w + 4][0] && b[w + 1] == b[w..w + 4][1] && b[w + 2] == b[w..w + 4][2] && b[w + 3] == b[w..w + 4][3];
  }

  lemma ClearOne(b: seq<byte>, v: nat, w: nat)
    requires v + 4 <= |b| && w + 4 <= |b| && WordsApart(v, w)
    ensures Le32(ClearIfPast(b, v), w) == if v == w then Cleared(b, v) else Le32(b, w)
  {
    hide Le32;
    var r := ClearIfPast(b, v);
    if v == w {
      if Le32(b, v) >= |b| {
        assert r[v..v + 4] == [0, 0, 0, 0];
        ZeroWord(r, v);
      }
    } else {
      AgreePointwise(b, r, w, w + 4);
      AgreeLe32(b, r, w, w + 4, w);
    }
  }

  /** Clearing spaced words: each gets its cleared value, once and for all, and
      no byte outside them changes. */
  lemma {:induction false} ClearAllExact(b: seq<byte>, ws: seq<nat>)
    requires Spaced(ws) && WordsFit(b, ws)
    ensures forall w :: w in ws ==> Le32(ClearAll(b, ws), w) == Cleared(b, w)
    ensures forall x :: 0 <= x < |b| && !InWords(ws, x) ==> ClearAll(b, ws)[x] == b[x]
    decreases |ws|
  {
    hide Le32, WordsApart, InWord, ClearIfPast;
    if ws != [] {
      var v, rest := ws[0], ws[1..];
      assert v in ws;
      var b1 := ClearIfPast(b, v);
      var r := ClearAll(b, ws);
      assert forall w :: w in ws <==> w == v || w in rest;
      ClearAllExact(b1, rest);
      forall w | w in ws
        ensures Le32(r, w) == Cleared(b, w)
      {
        assert WordsApart(v, w);
        ClearOne(b, v, w);
        if w !in rest {
          HeadWordKept(b1, v, rest, r);
        }
      }
      forall x | 0 <= x < |b| && !InWords(ws, x)
        ensures r[x] == b[x]
      {
        assert !InWord(v, x) && !InWords(rest, x);
        ClearFrame(b, v, x);
      }
    }
  }

  lemma ClearFrame(b: seq<byte>, v: nat, x: nat)
    requires v + 4 <= |b| && x < |b| && !InWord(v, x)
    ensures ClearIfPast(b, v)[x] == b[x]
  {
    hide Le32;
  }

  lemma HeadWordKept(b1: seq<byte>, v: nat, rest: seq<nat>, r: seq<byte>)
    requires |r| == |b1| && v + 4 <= |b1| && v !in rest && forall w :: w in rest ==> WordsApart(v, w)
    requires forall x :: 0 <= x < |b1| && !InWords(rest, x) ==> r[x] == b1[x]
    ensures Le32(r, v) == Le32(b1, v)
  {
    hide Le32;
    forall x | v <= x < v + 4
      ensures r[x] == b1[x]
    {
      assert forall w :: w in rest ==> !InWord(w, x);
    }
    AgreePointwise(r, b1, v, v + 4);
    AgreeLe32(r, b1, v, v + 4, v);
  }

  lemma {:induction false} ClearJoin(b: seq<byte>, vs: seq<nat>, ws: seq<nat>)
    requires WordsFit(b, vs)
    requires WordsFit(b, ws)
    ensures ClearAll(b, vs + ws) == ClearAll(ClearAll(b, vs), ws)
    decreases |vs|
  {
    hide ClearIfPast;
    if vs == [] {
      assert vs + ws == ws;
    } else {
      assert (vs + ws)[1..] == vs[1..] + ws && vs[0] in vs && forall w :: w in vs[1..] ==> w in vs;
      ClearJoin(ClearIfPast(b, vs[0]), vs[1..], ws);
    }
  }

  // ----- items apart -----

  ghost function DataEnd(b: seq<byte>, off: nat): nat {
    match ParseClassData(b, off)
    case Ok((item, end)) => end
    case Err(_) => off
  }

  ghost function ItemEnd(b: seq<byte>, off: u32): nat {
    match CodeItemEnd(b, off)
    case Ok(end) => end
    case Err(_) => off
  }

  /** Live items lie past the id tables and do not overlap each other. */
  ghost predicate Apart(b: seq<byte>)
    requires DefsInFile(b)
  {
    && (forall off: u32 :: LiveCode(b, off) ==> TablesEnd(b) <= off)
    && (forall off: u32 :: LiveData(b, off) ==> TablesEnd(b) <= off)
    && (forall c: u32, d: u32 :: LiveCode(b, c) && LiveCode(b, d) && c < d ==> ItemEnd(b, c) <= d)
    && (forall c: u32, d: u32 :: LiveCode(b, c) && LiveData(b, d) ==> ItemEnd(b, c) <= d || DataEnd(b, d) <= c)
  }

  ghost predicate InDefField(b: seq<byte>, x: int)
    requires HasHeader(b)
  {
    exists i :: 0 <= i < ClassDefsSize(b) && FieldOfDef(ClassDefAt(b, i), x)
  }

  ghost predicate FieldOfDef(at: nat, x: int) {
    at + 0x0c <= x < at + 0x10 || at + 0x14 <= x < at + 0x18 || at + 0x1c <= x < at + 0x20
  }

  ghost predicate InDebugWord(b: seq<byte>, x: int)
    requires DefsInFile(b)
  {
    exists off: u32 :: LiveCode(b, off) && off + 8 <= x < off + 12
  }

  /** `r` differs from `b` only in fields the pass may clear. */
  ghost predicate FormatOnly(b: seq<byte>, r: seq<byte>)
    requires DefsInFile(b)
  {
    && |r| == |b|
    && forall x :: 0 <= x < |b| && !InDefField(b, x) && !InDebugWord(b, x) ==> r[x] == b[x]
  }

  lemma DefFieldInTables(b: seq<byte>, x: int)
    requires ValidateIdBounds(b).Ok? && InDefField(b, x)
    ensures DEX_HEADER_SIZE <= x < TablesEnd(b)
  {
    hide Le32, ValidateIdBounds, TablesEnd, ClassDefAt;
    ValidatedDefsInFile(b);
  }

  lemma LinkIsNoField(b: seq<byte>, i: nat, x: int)
    requires HasHeader(b) && ClassDefAt(b, i) + 24 <= x < ClassDefAt(b, i) + 28
    ensures !InDefField(b, x)
  {
    hide Le32, ClassDefAt;
    forall k | 0 <= k < ClassDefsSize(b)
      ensures !FieldOfDef(ClassDefAt(b, k), x)
    {
      if k != i {
        DefsSpaced(b, k, i, x);
      }
    }
  }

  lemma DebugWordOutsideData(b: seq<byte>, d: u32, x: int)
    requires Sound(b) && Apart(b) && LiveData(b, d) && d <= x < DataEnd(b, d)
    ensures !InDebugWord(b, x)
  {
    hide Le32, LiveCode, LiveData, TablesEnd, CodeItemEnd, ParseClassData, ReadableClass;
    forall off: u32 | LiveCode(b, off)
      ensures !(off + 8 <= x < off + 12)
    {
      assert ItemEnd(b, off) <= d || DataEnd(b, d) <= off;
    }
  }

  lemma DebugWordOutsideShape(b: seq<byte>, c: u32, x: int)
    requires Sound(b) && Apart(b) && LiveCode(b, c) && c <= x < ItemEnd(b, c) && !(c + 8 <= x < c + 12)
    ensures !InDebugWord(b, x)
  {
    hide Le32, LiveCode, LiveData, TablesEnd, CodeItemEnd, ParseClassData, ReadableClass;
    forall off: u32 | LiveCode(b, off)
      ensures !(off + 8 <= x < off + 12)
    {
      assert off < c ==> ItemEnd(b, off) <= c;
      assert c < off ==> ItemEnd(b, c) <= off;
    }
  }

  lemma FormatOnlyKeepsShape(b: seq<byte>, r: seq<byte>, off: u32)
    requires Sound(b) && Apart(b) && ValidateIdBounds(b).Ok? && FormatOnly(b, r) && LiveCode(b, off)
    ensures SameItemShape(b, r, off)
  {
    hide Le32, LiveCode, LiveData, TablesEnd, ValidateIdBounds, CodeItemEnd, ParseClassData, InDefField, InDebugWord, ReadableClass, Apart;
    var end := CodeItemEnd(b, off).value;
    forall x | off <= x < end && !(off + 8 <= x < off + 12)
      ensures r[x] == b[x]
    {
      LiveIsPastTables(b, off);
      if InDefField(b, x) {
        DefFieldInTables(b, x);
      }
      DebugWordOutsideShape(b, off, x);
    }
    AgreePointwise(b, r, off + 6, off + 8);
    AgreePointwise(b, r, off + 12, end);
    AgreeWithin(b, r, off + 6, off + 8, off + 6, off + 8);
    AgreeWithin(b, r, off + 12, end, off + 12, end);
  }

  lemma LiveIsPastTables(b: seq<byte>, off: u32)
    requires DefsInFile(b) && Apart(b)
    ensures LiveCode(b, off) ==> TablesEnd(b) <= off
    ensures LiveData(b, off) ==> TablesEnd(b) <= off
  {
    hide LiveCode, LiveData, TablesEnd;
  }

  lemma FormatOnlyKeepsData(b: seq<byte>, r: seq<byte>, off: u32)
    requires Sound(b) && Apart(b) && ValidateIdBounds(b).Ok? && FormatOnly(b, r) && LiveData(b, off)
    ensures SameData(b, r, off)
  {
    hide Le32, LiveCode, TablesEnd, ValidateIdBounds, CodeItemEnd, ParseClassData, InDefField, InDebugWord, Apart;
    var i :| 0 <= i < ClassDefsSize(b) && ClassDataOff(b, i) == off;
    assert ReadableClass(b, i);
    var end := ParseClassData(b, off).value.1;
    forall x | off <= x < end
      ensures r[x] == b[x]
    {
      LiveIsPastTables(b, off);
      if InDefField(b, x) {
        DefFieldInTables(b, x);
      }
      DebugWordOutsideData(b, off, x);
    }
    AgreePointwise(b, r, off, end);
  }

  lemma DebugWordsPastTables(b: seq<byte>, x: int)
    requires DefsInFile(b) && Apart(b) && InDebugWord(b, x)
    ensures TablesEnd(b) <= x
  {
    hide LiveCode, LiveData, TablesEnd;
  }

  lemma FormatOnlyPreserves(b: seq<byte>, r: seq<byte>)
    requires Sound(b) && Apart(b) && ValidateIdBounds(b).Ok? && FormatOnly(b, r)
    ensures Preserves(b, r) && ReadsSame(b, r)
  {
    hide Le32, LiveCode, LiveData, TablesEnd, ValidateIdBounds, CodeItemEnd, ParseClassData, InDefField, InDebugWord, Apart,
      ReadableClass, ClassDefAt, ReadsSame, FormatOnly;
    ValidatedDefsInFile(b);
    HeaderWordsKept(b, r);
    forall i | 0 <= i < ClassDefsSize(b)
      ensures SameLink(b, r, ClassDefAt(b, i))
    {
      LinkKept(b, r, i);
    }
    forall off: u32 | LiveData(b, off) ensures SameData(b, r, off) {
      FormatOnlyKeepsData(b, r, off);
    }
    forall off: u32 | LiveCode(b, off) ensures ReadsSameItem(b, r, off) {
      FormatOnlyKeepsShape(b, r, off);
      SameShapeReads(b, r, off);
    }
    assert |b| <= |r| by { FormatOnlyLength(b, r); }
    PreservedReadsSame(b, r);
  }

  lemma FormatOnlyLength(b: seq<byte>, r: seq<byte>)
    requires DefsInFile(b) && FormatOnly(b, r)
    ensures |r| == |b|
  {
  }

  lemma HeaderWordsKept(b: seq<byte>, r: seq<byte>)
    requires Sound(b) && Apart(b) && ValidateIdBounds(b).Ok? && FormatOnly(b, r)
    ensures Agree(b, r, 0, DEX_HEADER_SIZE) && Agree(b, r, 96, 104)
  {
    hide Le32, LiveCode, LiveData, TablesEnd, ValidateIdBounds, InDefField, InDebugWord, Apart, ReadableClass, ClassDefAt;
    ValidatedDefsInFile(b);
    forall x | 0 <= x < DEX_HEADER_SIZE
      ensures r[x] == b[x]
    {
      if InDefField(b, x) {
        DefFieldInTables(b, x);
      }
      if InDebugWord(b, x) {
        DebugWordsPastTables(b, x);
      }
    }
    AgreePointwise(b, r, 0, DEX_HEADER_SIZE);
    AgreeWithin(b, r, 0, DEX_HEADER_SIZE, 96, 104);
  }

  lemma LinkKept(b: seq<byte>, r: seq<byte>, i: nat)
    requires Sound(b) && Apart(b) && ValidateIdBounds(b).Ok? && FormatOnly(b, r) && i < ClassDefsSize(b)
    ensures SameLink(b, r, ClassDefAt(b, i))
  {
    hide Le32, LiveCode, LiveData, TablesEnd, ValidateIdBounds, InDefField, InDebugWord, Apart, ReadableClass, ClassDefAt;
    ValidatedDefsInFile(b);
    var at := ClassDefAt(b, i);
    forall x | at + 24 <= x < at + 28
      ensures r[x] == b[x]
    {
      LinkIsNoField(b, i, x);
      if InDebugWord(b, x) {
        DebugWordsPastTables(b, x);
      }
    }
    AgreePointwise(b, r, at + 24, at + 28);
  }

  // ----- the pass clears exactly its words -----

  function DefWords(b: seq<byte>, i: nat): seq<nat>
    requires HasHeader(b)
    decreases ClassDefsSize(b) - i
  {
    if i >= ClassDefsSize(b) then []
    else
      var at := ClassDefAt(b, i);
      [at + 0x0c, at + 0x14, at + 0x1c] + DefWords(b, i + 1)
  }

  function MethodWords(ms: seq<EncodedMethod>): seq<nat>
    decreases |ms|
  {
    if ms == [] then []
    else (if ms[0].codeOff == 0 then [] else [ms[0].codeOff + 8]) + MethodWords(ms[1..])
  }

  function ItemWords(b: seq<byte>, i: nat): seq<nat>
    requires DefsInFile(b)
    decreases ClassDefsSize(b) - i
  {
    if i >= ClassDefsSize(b) then [] else MethodWords(MethodsOf(b, i)) + ItemWords(b, i + 1)
  }

  /** Every word the pass looks at: three per definition, one per live item. */
  function FormatWords(b: seq<byte>): seq<nat>
    requires DefsInFile(b)
  {
    DefWords(b, 0) + ItemWords(b, 0)
  }

  ghost predicate IsDefWord(b: seq<byte>, w: nat)
    requires HasHeader(b)
  {
    exists i :: 0 <= i < ClassDefsSize(b) && WordOfDef(ClassDefAt(b, i), w)
  }

  ghost predicate WordOfDef(at: nat, w: nat) {
    w == at + 0x0c || w == at + 0x14 || w == at + 0x1c
  }

  ghost predicate IsItemWord(b: seq<byte>, w: nat)
    requires DefsInFile(b)
  {
    exists off: u32 :: CodeOffset(b, off) && w == off + 8
  }

  lemma {:induction false} DefWordsAre(b: seq<byte>, i: nat, w: nat)
    requires HasHeader(b) && w in DefWords(b, i)
    ensures IsDefWord(b, w)
    decreases ClassDefsSize(b) - i
  {
    hide ClassDefAt, Le32;
    var at := ClassDefAt(b, i);
    if WordOfDef(at, w) {
    } else {
      assert w in DefWords(b, i + 1);
      DefWordsAre(b, i + 1, w);
    }
  }

  lemma {:induction false} DefWordsHave(b: seq<byte>, i: nat, k: nat, w: nat)
    requires HasHeader(b) && i <= k < ClassDefsSize(b) && WordOfDef(ClassDefAt(b, k), w)
    ensures w in DefWords(b, i)
    decreases ClassDefsSize(b) - i
  {
    hide ClassDefAt, Le32;
    if i < k {
      DefWordsHave(b, i + 1, k, w);
    } else {
      var mine := [ClassDefAt(b, k) + 0x0c, ClassDefAt(b, k) + 0x14, ClassDefAt(b, k) + 0x1c];
      assert mine[0] in mine && mine[1] in mine && mine[2] in mine;
    }
  }

  ghost predicate WordOfMethod(ms: seq<EncodedMethod>, w: nat) {
    exists k :: 0 <= k < |ms| && ms[k].codeOff != 0 && w == ms[k].codeOff + 8
  }

  lemma {:induction false} MethodWordsAre(ms: seq<EncodedMethod>, w: nat)
    ensures w in MethodWords(ms) <==> WordOfMethod(ms, w)
    decreases |ms|
  {
    if ms != [] {
      var tail := ms[1..];
      MethodWordsAre(tail, w);
      if WordOfMethod(tail, w) {
        var k :| 0 <= k < |tail| && tail[k].codeOff != 0 && w == tail[k].codeOff + 8;
        assert ms[k + 1] == tail[k];
      }
      if WordOfMethod(ms, w) {
        var k :| 0 <= k < |ms| && ms[k].codeOff != 0 && w == ms[k].codeOff + 8;
        assert k > 0 ==> ms[k] == tail[k - 1];
      }
    }
  }

  lemma MethodsHaveOffsets(b: seq<byte>, i: nat, w: nat)
    requires DefsInFile(b) && i < ClassDefsSize(b) && WordOfMethod(MethodsOf(b, i), w)
    ensures IsItemWord(b, w)
  {
    hide MethodsOf, Le32;
    var ms := MethodsOf(b, i);
    var k :| 0 <= k < |ms| && ms[k].codeOff != 0 && w == ms[k].codeOff + 8;
    assert CodeOffset(b, ms[k].codeOff);
  }

  lemma {:induction false} ItemWordsAre(b: seq<byte>, i: nat, w: nat)
    requires DefsInFile(b) && w in ItemWords(b, i)
    ensures IsItemWord(b, w)
    decreases ClassDefsSize(b) - i
  {
    hide MethodsOf, CodeOffset, MethodWords, Le32, WordOfMethod, IsItemWord;
    if w in MethodWords(MethodsOf(b, i)) {
      MethodWordsAre(MethodsOf(b, i), w);
      MethodsHaveOffsets(b, i, w);
    } else {
      ItemWordsAre(b, i + 1, w);
    }
  }

  lemma {:induction false} ItemWordsHave(b: seq<byte>, i: nat, k: nat, w: nat)
    requires DefsInFile(b) && i <= k < ClassDefsSize(b) && WordOfMethod(MethodsOf(b, k), w)
    ensures w in ItemWords(b, i)
    decreases ClassDefsSize(b) - i
  {
    hide MethodsOf, CodeOffset, MethodWords, Le32, WordOfMethod;
    if i < k {
      ItemWordsHave(b, i + 1, k, w);
    } else {
      MethodWordsAre(MethodsOf(b, k), w);
    }
  }

  lemma ItemWordsHaveAll(b: seq<byte>, w: nat)
    requires DefsInFile(b) && IsItemWord(b, w)
    ensures w in ItemWords(b, 0)
  {
    hide MethodsOf, ItemWords, Le32;
    var off: u32 :| CodeOffset(b, off) && w == off + 8;
    var i, k :| 0 <= i < ClassDefsSize(b) && 0 <= k < |MethodsOf(b, i)| && MethodsOf(b, i)[k].codeOff == off;
    ItemWordsHave(b, 0, i, w);
  }

  lemma WordMember(b: seq<byte>, w: nat)
    requires DefsInFile(b)
    ensures w in FormatWords(b) <==> IsDefWord(b, w) || IsItemWord(b, w)
  {
    hide MethodsOf, ItemWords, DefWords, ClassDefAt, Le32, IsItemWord;
    assert w in FormatWords(b) <==> w in DefWords(b, 0) || w in ItemWords(b, 0);
    if w in DefWords(b, 0) {
      DefWordsAre(b, 0, w);
    } else if w in ItemWords(b, 0) {
      ItemWordsAre(b, 0, w);
    } else if IsItemWord(b, w) {
      ItemWordsHaveAll(b, w);
    } else if IsDefWord(b, w) {
      var k :| 0 <= k < ClassDefsSize(b) && WordOfDef(ClassDefAt(b, k), w);
      DefWordsHave(b, 0, k, w);
    }
  }

  /** Definition words lie in the id tables, item words in items past them. */
  lemma WordPlace(b: seq<byte>, w: nat)
    requires Healthy(b) && Apart(b) && ValidateIdBounds(b).Ok?
    ensures TablesEnd(b) <= |b|
    ensures IsDefWord(b, w) ==> w + 4 <= TablesEnd(b)
    ensures IsItemWord(b, w) ==> TablesEnd(b) <= w && w + 4 <= |b|
  {
    hide ClassDefAt, Le32, LiveData, TablesEnd, ValidateIdBounds, CodeItemEnd, InsnsLen, ReadableClass, CodeOffset;
    ValidatedDefsInFile(b);
    if IsItemWord(b, w) {
      var off: u32 :| CodeOffset(b, off) && w == off + 8;
      assert LiveCode(b, off);
    }
  }

  lemma DefWordsApart(b: seq<byte>, v: nat, w: nat)
    requires HasHeader(b) && IsDefWord(b, v) && IsDefWord(b, w)
    ensures WordsApart(v, w)
  {
    hide Le32;
    var i :| 0 <= i < ClassDefsSize(b) && WordOfDef(ClassDefAt(b, i), v);
    var k :| 0 <= k < ClassDefsSize(b) && WordOfDef(ClassDefAt(b, k), w);
    if i != k {
      DefsSpaced(b, i, k, w);
      DefsSpaced(b, k, i, v);
    }
  }

  lemma ItemWordsApart(b: seq<byte>, v: nat, w: nat)
    requires Healthy(b) && Apart(b) && IsItemWord(b, v) && IsItemWord(b, w)
    ensures WordsApart(v, w)
  {
    hide ClassDefAt, Le32, LiveData, TablesEnd, CodeItemEnd, InsnsLen, ReadableClass, CodeOffset;
    var c: u32 :| CodeOffset(b, c) && v == c + 8;
    var d: u32 :| CodeOffset(b, d) && w == d + 8;
    assert LiveCode(b, c) && LiveCode(b, d);
    ItemIsLong(b, c);
    ItemIsLong(b, d);
  }

  lemma ItemIsLong(b: seq<byte>, off: u32)
    requires CodeItemEnd(b, off).Ok?
    ensures off + 16 <= ItemEnd(b, off)
  {
    hide CodeItemEnd;
  }

  /** The words of a healthy file are spaced and inside it. */
  lemma FormatWordsSpaced(b: seq<byte>)
    requires Healthy(b) && Apart(b) && ValidateIdBounds(b).Ok?
    ensures Spaced(FormatWords(b))
    ensures WordsFit(b, FormatWords(b))
  {
    hide FormatWords, WordsApart, IsDefWord, IsItemWord, Le32, Apart, ReadableClass, LiveCode, CodeOffset, ValidateIdBounds, TablesEnd;
    var ws := FormatWords(b);
    forall w | w in ws ensures w + 4 <= |b| {
      WordMember(b, w);
      WordPlace(b, w);
    }
    forall v, w | v in ws && w in ws ensures WordsApart(v, w) {
      WordMember(b, v);
      WordMember(b, w);
      TwoWords(b, v, w);
    }
  }

  lemma TwoWords(b: seq<byte>, v: nat, w: nat)
    requires Healthy(b) && Apart(b) && ValidateIdBounds(b).Ok?
    requires IsDefWord(b, v) || IsItemWord(b, v)
    requires IsDefWord(b, w) || IsItemWord(b, w)
    ensures WordsApart(v, w)
  {
    hide IsDefWord, IsItemWord, Le32, Apart, ReadableClass, LiveCode, CodeOffset, ValidateIdBounds, TablesEnd;
    WordPlace(b, v);
    WordPlace(b, w);
    if IsDefWord(b, v) && IsDefWord(b, w) {
      DefWordsApart(b, v, w);
    } else if IsItemWord(b, v) && IsItemWord(b, w) {
      ItemWordsApart(b, v, w);
    }
  }

  /** Clearing some of the words is within what the pass may change. */
  lemma ClearedIsFormatOnly(b: seq<byte>, cur: seq<byte>, ws: seq<nat>)
    requires Healthy(b) && FormatOnly(b, cur)
    requires WordsFit(b, ws)
    requires forall w :: w in ws ==> IsDefWord(b, w) || IsItemWord(b, w)
    ensures FormatOnly(b, ClearAll(cur, ws))
    decreases |ws|
  {
    hide IsDefWord, IsItemWord, InDefField, InDebugWord, Le32, ReadableClass, LiveCode, CodeOffset, ClearIfPast, InWord;
    if ws != [] {
      var v := ws[0];
      assert v in ws && forall w :: w in ws[1..] ==> w in ws;
      var next := ClearIfPast(cur, v);
      forall x | 0 <= x < |b| && !InDefField(b, x) && !InDebugWord(b, x)
        ensures next[x] == b[x]
      {
        WordIsField(b, v, x);
        ClearFrame(cur, v, x);
      }
      ClearedIsFormatOnly(b, next, ws[1..]);
    }
  }

  lemma WordIsField(b: seq<byte>, w: nat, x: int)
    requires Healthy(b) && (IsDefWord(b, w) || IsItemWord(b, w))
    ensures InWord(w, x) ==> InDefField(b, x) || InDebugWord(b, x)
  {
    hide Le32, CodeOffset, CodeItemEnd, InsnsLen, ReadableClass, ClassDefAt;
    if IsDefWord(b, w) {
      var i :| 0 <= i < ClassDefsSize(b) && WordOfDef(ClassDefAt(b, i), w);
      assert InWord(w, x) ==> FieldOfDef(ClassDefAt(b, i), x);
    } else {
      var off: u32 :| CodeOffset(b, off) && w == off + 8;
      assert LiveCode(b, off);
    }
  }

  lemma DefWordsInFile(b: seq<byte>, i: nat)
    requires DefsInFile(b)
    ensures WordsFit(b, DefWords(b, i))
  {
    hide ClassDefAt, Le32, DefWords;
    forall w | w in DefWords(b, i) ensures w + 4 <= |b| {
      DefWordsAre(b, i, w);
    }
  }

  lemma {:induction false} FixDefsClears(b: seq<byte>, cur: seq<byte>, i: nat)
    requires DefsInFile(b) && |cur| == |b|
    requires WordsFit(b, DefWords(b, i))
    ensures FixDefs(cur, ClassDefsOff(b), ClassDefsSize(b), i) == ClearAll(cur, DefWords(b, i))
    decreases ClassDefsSize(b) - i
  {
    hide Le32, ClearIfPast, ClearAll;
    if i < ClassDefsSize(b) {
      var at := ClassDefAt(b, i);
      DefWordsInFile(b, i + 1);
      FixDefsClears(b, FixDef(cur, at), i + 1);
      ClearThree(cur, at, DefWords(b, i + 1));
    } else {
      assert ClearAll(cur, []) == cur by { ClearNone(cur); }
    }
  }

  lemma ClearNone(b: seq<byte>)
    ensures ClearAll(b, []) == b
  {
  }

  lemma ClearThree(b: seq<byte>, at: nat, ws: seq<nat>)
    requires at + CLASS_DEF_SIZE <= |b| && WordsFit(b, ws)
    requires WordsFit(b, [at + 0x0c, at + 0x14, at + 0x1c] + ws)
    ensures ClearAll(b, [at + 0x0c, at + 0x14, at + 0x1c] + ws) == ClearAll(FixDef(b, at), ws)
  {
    hide ClearIfPast, ClearAll;
    assert [at + 0x0c, at + 0x14, at + 0x1c] + ws == [at + 0x0c] + ([at + 0x14] + ([at + 0x1c] + ws));
    var c1 := ClearIfPast(b, at + 0x0c);
    var c2 := ClearIfPast(c1, at + 0x14);
    PrependWord(c2, at + 0x1c, ws);
    PrependWord(c1, at + 0x14, [at + 0x1c] + ws);
    PrependWord(b, at + 0x0c, [at + 0x14] + ([at + 0x1c] + ws));
  }

  lemma PrependWord(b: seq<byte>, w: nat, ws: seq<nat>)
    requires w + 4 <= |b| && WordsFit(b, ws)
    ensures WordsFit(b, [w] + ws)
    ensures ClearAll(b, [w] + ws) == ClearAll(ClearIfPast(b, w), ws)
  {
    hide ClearIfPast;
    assert ([w] + ws)[1..] == ws;
  }

  lemma FixItemClears(b: seq<byte>, cur: seq<byte>, co: u32)
    requires Healthy(b) && Apart(b) && ValidateIdBounds(b).Ok? && FormatOnly(b, cur) && CodeOffset(b, co)
    ensures co + 12 <= |cur| && FixItem(cur, co) == ClearIfPast(cur, co + 8)
    ensures FormatOnly(b, ClearIfPast(cur, co + 8))
  {
    hide InDefField, InDebugWord, Le32, ReadableClass, LiveCode, CodeOffset, ClearIfPast, IsDefWord, ValidateIdBounds, Apart,
      ReadsSame, ReadsSameClass, ClearTries, CodeItemEnd, InsnsLen;
    assert LiveCode(b, co) && IsItemWord(b, co + 8);
    CodeItemIsLong(b, co);
    var next := ClearIfPast(cur, co + 8);
    ClearedIsFormatOnly(b, cur, [co + 8]);
    assert next == ClearAll(cur, [co + 8]) by { PrependWord(cur, co + 8, []); ClearNone(next); assert [co + 8] + [] == [co + 8]; }
    FormatOnlyPreserves(b, next);
    TriesStay(b, next, co);
  }

  lemma CodeItemIsLong(b: seq<byte>, co: u32)
    requires Healthy(b) && LiveCode(b, co)
    ensures CodeItemEnd(b, co).Ok? && co != 0 && co + 16 <= |b|
  {
    hide CodeItemEnd, InsnsLen, ReadableClass, CodeOffset;
  }

  lemma TriesStay(b: seq<byte>, cur: seq<byte>, co: u32)
    requires DefsInFile(b) && ReadsSame(b, cur) && LiveCode(b, co) && CodeItemEnd(b, co).Ok?
    ensures co + 16 <= |cur| && ClearTries(cur, co) == cur
  {
    hide ReadsSameClass, CodeOffset;
    WholeItemKeepsTries(cur, co);
  }

  /** An item that can be read whole has its try table inside the file. */
  lemma WholeItemKeepsTries(b: seq<byte>, co: u32)
    requires CodeItemEnd(b, co).Ok?
    ensures co + 16 <= |b| && ClearTries(b, co) == b
  {
    hide Le32, Le16, Align4;
  }

  lemma {:induction false} FixMethodsClears(b: seq<byte>, cur: seq<byte>, ms: seq<EncodedMethod>)
    requires Healthy(b) && Apart(b) && ValidateIdBounds(b).Ok? && FormatOnly(b, cur)
    requires forall k :: 0 <= k < |ms| && ms[k].codeOff != 0 ==> CodeOffset(b, ms[k].codeOff)
    requires WordsFit(b, MethodWords(ms))
    ensures FixMethods(cur, ms) == ClearAll(cur, MethodWords(ms))
    ensures FormatOnly(b, FixMethods(cur, ms))
    decreases |ms|
  {
    hide InDefField, InDebugWord, Le32, ReadableClass, LiveCode, CodeOffset, ClearIfPast, ValidateIdBounds, Apart, ClearAll, FixItem,
      FormatOnly;
    FormatOnlyLength(b, cur);
    if ms != [] {
      var co: nat, rest := ms[0].codeOff, MethodWords(ms[1..]);
      assert forall k :: 0 <= k < |ms[1..]| ==> ms[1..][k] == ms[k + 1];
      assert WordsFit(b, rest) by { assert forall w :: w in rest ==> w in MethodWords(ms); }
      if co == 0 {
        assert FixItem(cur, co) == cur by { ZeroItem(cur); }
        assert MethodWords(ms) == rest;
        FixMethodsClears(b, cur, ms[1..]);
      } else {
        FixItemClears(b, cur, co);
        FixMethodsClears(b, ClearIfPast(cur, co + 8), ms[1..]);
        PrependWord(cur, co + 8, rest);
      }
    } else {
      ClearNone(cur);
    }
  }

  lemma ZeroItem(b: seq<byte>)
    ensures FixItem(b, 0) == b
  {
  }

  lemma FixClassClears(b: seq<byte>, cur: seq<byte>, i: nat)
    requires Healthy(b) && Apart(b) && ValidateIdBounds(b).Ok? && FormatOnly(b, cur) && i < ClassDefsSize(b)
    requires WordsFit(b, MethodWords(MethodsOf(b, i)))
    ensures |cur| == |b| && FixClass(cur, ClassDefAt(b, i)) == ClearAll(cur, MethodWords(MethodsOf(b, i)))
    ensures FormatOnly(b, FixClass(cur, ClassDefAt(b, i)))
  {
    hide InDefField, InDebugWord, Le32, LiveCode, CodeOffset, ValidateIdBounds, Apart, ClearAll, FixMethods, FormatOnly,
      ParseClassData, ClassDefAt, MethodWords;
    FormatOnlyLength(b, cur);
    FormatOnlyPreserves(b, cur);
    SameDefAt(b, cur);
    assert ReadableClass(b, i) && ReadsSameClass(b, cur, i);
    var ms := MethodsOf(b, i);
    if ClassDataOff(b, i) == 0 {
      ClearNone(cur);
      NoMethodWords();
    } else {
      forall k | 0 <= k < |ms| && ms[k].codeOff != 0
        ensures CodeOffset(b, ms[k].codeOff)
      {
        MethodHasOffset(b, i, k);
      }
      FixMethodsClears(b, cur, ms);
    }
  }

  lemma NoMethodWords()
    ensures MethodWords([]) == []
  {
  }

  lemma MethodHasOffset(b: seq<byte>, i: nat, k: nat)
    requires DefsInFile(b) && i < ClassDefsSize(b) && k < |MethodsOf(b, i)| && MethodsOf(b, i)[k].codeOff != 0
    ensures CodeOffset(b, MethodsOf(b, i)[k].codeOff)
  {
    hide MethodsOf, Le32;
  }

  lemma {:induction false} FixItemsClears(b: seq<byte>, cur: seq<byte>, i: nat)
    requires Healthy(b) && Apart(b) && ValidateIdBounds(b).Ok? && FormatOnly(b, cur)
    requires WordsFit(b, ItemWords(b, i))
    ensures FixItems(cur, ClassDefsOff(b), ClassDefsSize(b), i) == ClearAll(cur, ItemWords(b, i))
    decreases ClassDefsSize(b) - i
  {
    hide InDefField, InDebugWord, Le32, LiveCode, CodeOffset, ValidateIdBounds, Apart, ClearAll, FormatOnly, FixClass, MethodsOf,
      MethodWords, ReadableClass;
    FormatOnlyLength(b, cur);
    if i < ClassDefsSize(b) {
      var mine, rest := MethodWords(MethodsOf(b, i)), ItemWords(b, i + 1);
      assert WordsFit(b, mine) && WordsFit(b, rest) by {
        assert forall w :: w in mine || w in rest ==> w in ItemWords(b, i);
      }
      FixClassClears(b, cur, i);
      FixItemsClears(b, FixClass(cur, ClassDefAt(b, i)), i + 1);
      ClearJoin(cur, mine, rest);
    } else {
      ClearNone(cur);
    }
  }

  /** `fix_format_fields` on a healthy file whose items do not overlap: exactly
      the words it looks at that point past the end become zero, no other byte
      changes, and every class and item reads as before. */
  lemma FixFormatExact(b: seq<byte>)
    requires Healthy(b) && Apart(b) && ValidateIdBounds(b).Ok?
    ensures WordsFit(b, FormatWords(b))
    ensures forall w :: w in FormatWords(b) ==> Le32(FixFormat(b), w) == Cleared(b, w)
    ensures forall x :: 0 <= x < |b| && !InWords(FormatWords(b), x) ==> FixFormat(b)[x] == b[x]
    ensures FormatOnly(b, FixFormat(b)) && ReadsSame(b, FixFormat(b))
  {
    hide InDefField, InDebugWord, Le32, LiveCode, CodeOffset, ValidateIdBounds, Apart, ClearAll, FormatOnly, FixItems, FixDefs,
      ReadableClass, ReadsSame, DefWords, ItemWords, Cleared, InWords, Spaced;
    var defs, items := DefWords(b, 0), ItemWords(b, 0);
    FormatWordsSpaced(b);
    assert WordsFit(b, defs) && WordsFit(b, items) by {
      assert forall w :: w in defs || w in items ==> w in FormatWords(b);
    }
    FixDefsClears(b, b, 0);
    assert FormatOnly(b, b) by { FormatOnlyRefl(b); }
    forall w | w in defs ensures IsDefWord(b, w) { DefWordsAre(b, 0, w); }
    ClearedIsFormatOnly(b, b, defs);
    var b1 := ClearAll(b, defs);
    FixItemsClears(b, b1, 0);
    ClearJoin(b, defs, items);
    ClearAllExact(b, FormatWords(b));
    forall w | w in items ensures IsItemWord(b, w) { ItemWordsAre(b, 0, w); }
    ClearedIsFormatOnly(b, b1, items);
    FormatOnlyPreserves(b, FixFormat(b));
  }

  lemma FormatOnlyRefl(b: seq<byte>)
    requires DefsInFile(b)
    ensures FormatOnly(b, b)
  {
  }

  // ----- the items of one class, whatever the file around them holds -----

  predicate HasItem(b: seq<byte>, co: nat) {
    co != 0 && co + 16 <= |b|
  }

  /** The try table announced by the item at `co` ends inside the file. */
  predicate TriesFit(b: seq<byte>, co: nat)
    requires co + 16 <= |b|
  {
    Align4(co + 16 + 2 * Le32(b, co + 12)) + 8 * Le16(b, co + 6) <= |b|
  }

  /** In `r` the item has lost its debug offset when that points past the end,
      its tries when their table does not fit, and nothing else. */
  ghost predicate ItemIsFixed(b: seq<byte>, r: seq<byte>, co: nat)
    requires co + 16 <= |b| == |r|
  {
    && Le32(r, co + 8) == (if Le32(b, co + 8) < |b| then Le32(b, co + 8) else 0)
    && Le16(r, co + 6) == (if Le16(b, co + 6) == 0 || TriesFit(b, co) then Le16(b, co + 6) else 0)
  }

  ghost predicate InFixable(co: nat, x: int) {
    co + 6 <= x < co + 12
  }

  ghost predicate HeadersApart(c: nat, d: nat) {
    c == d || c + 16 <= d || d + 16 <= c
  }

  lemma ItemFixed(b: seq<byte>, co: nat)
    ensures !HasItem(b, co) ==> FixItem(b, co) == b
    ensures HasItem(b, co) ==> ItemIsFixed(b, FixItem(b, co), co)
    ensures forall x :: 0 <= x < |b| && !(HasItem(b, co) && InFixable(co, x)) ==> FixItem(b, co)[x] == b[x]
  {
  }

  lemma FixedAgain(b: seq<byte>, b1: seq<byte>, r: seq<byte>, co: nat)
    requires co + 16 <= |b| == |b1| == |r|
    requires ItemIsFixed(b1, r, co)
    requires ItemIsFixed(b, b1, co) || forall x :: co <= x < co + 16 ==> b1[x] == b[x]
    requires forall x :: co + 12 <= x < co + 16 ==> b1[x] == b[x]
    ensures ItemIsFixed(b, r, co)
  {
  }

  /** Fixing the methods of a class, in any file: each of their items is fixed
      as if it were alone, and no byte outside these fields changes. */
  lemma {:induction false} MethodsFixed(b: seq<byte>, ms: seq<EncodedMethod>)
    requires forall m, n :: m in ms && n in ms ==> HeadersApart(m.codeOff, n.codeOff)
    ensures forall m :: m in ms && HasItem(b, m.codeOff) ==> ItemIsFixed(b, FixMethods(b, ms), m.codeOff)
    ensures forall x :: 0 <= x < |b| && (forall m :: m in ms && HasItem(b, m.codeOff) ==> !InFixable(m.codeOff, x)) ==>
              FixMethods(b, ms)[x] == b[x]
    decreases |ms|
  {
    hide FixItem, ItemIsFixed;
    if ms != [] {
      var co, rest := ms[0].codeOff, ms[1..];
      var b1 := FixItem(b, co);
      var r := FixMethods(b, ms);
      assert ms[0] in ms && forall m :: m in rest ==> m in ms;
      ItemFixed(b, co);
      MethodsFixed(b1, rest);
      forall m | m in ms && HasItem(b, m.codeOff)
        ensures ItemIsFixed(b, r, m.codeOff)
      {
        var d := m.codeOff;
        assert HeadersApart(co, d);
        if k :| k in rest && k.codeOff == d {
          FixedAgain(b, b1, r, d);
        } else {
          assert m == ms[0];
          forall x | d <= x < d + 16
            ensures r[x] == b1[x]
          {
            assert forall n :: n in rest ==> HeadersApart(co, n.codeOff) && !InFixable(n.codeOff, x);
          }
          SameHeaderFixed(b, b1, r, d);
        }
      }
    }
  }

  lemma SameHeaderFixed(b: seq<byte>, b1: seq<byte>, r: seq<byte>, co: nat)
    requires co + 16 <= |b| == |b1| == |r|
    requires ItemIsFixed(b, b1, co) && forall x :: co <= x < co + 16 ==> r[x] == b1[x]
    ensures ItemIsFixed(b, r, co)
  {
  }
}
