/**
  Captured method bodies: writing them over the instructions of an item they
  fit, and wrapping them in a fresh `code_item` when they do not.
 */
module Synthesis {
  import opened Bytes
  import opened Dex
  import opened ClassData
  import opened CodeItem
  import opened Bytecode

  /** A recorded method body, as a string of hexadecimal digits. */
  datatype Capture = Capture(methodIdx: u32, code: string)

  function HexValue(c: char): (r: Option<nat>)
    ensures r.Some? ==> r.value < 0x10
  {
    if '0' <= c <= '9' then Some(c as int - '0' as int)
    else if 'a' <= c <= 'f' then Some(c as int - 'a' as int + 10)
    else if 'A' <= c <= 'F' then Some(c as int - 'A' as int + 10)
    else None
  }

  /** Nothing for an odd number of digits or a character that is not one. */
  function HexDecode(s: string): (r: Option<seq<byte>>)
    ensures r.Some? ==> |s| == 2 * |r.value|
  {
    if s == [] then Some([])
    else if |s| == 1 || HexValue(s[0]).None? || HexValue(s[1]).None? then None
    else
      match HexDecode(s[2..])
      case None => None
      case Some(rest) =>
        Some([0x10 * HexValue(s[0]).value + HexValue(s[1]).value] + rest)
  }

  // ----- a fresh code item -----

  function CodeItemHeader(registers: u16, ins: u16, outs: u16, units: u32): (s: seq<byte>)
    ensures |s| == CODE_ITEM_HEADER_SIZE
  {
    PutLe16(registers) + PutLe16(ins) + PutLe16(outs) + [0, 0] + [0, 0, 0, 0] + PutLe32(units)
  }

  /** The scan a header is built from: a clean one, or under `force` the marks
      of the prefix that did decode. */
  function UsableScan(insns: seq<byte>, force: bool): Result<InsnScan> {
    match Scan(insns)
    case Scanned(scan) => Ok(scan)
    case Stopped(scan, _) => if force then Ok(scan) else Err(InvalidCapture)
  }

  /** `synthesize_code_item`: header plus captured instructions; tries and debug
      information are never recovered. */
  function SynthesizeCodeItem(b: seq<byte>, methodIdx: u32, accessFlags: u32, capture: Capture, force: bool): Result<seq<byte>>
    requires HasHeader(b)
  {
    match HexDecode(capture.code)
    case None => Err(InvalidCapture)
    case Some(insns) =>
      if insns == [] || |insns| % 2 != 0 then Err(InvalidCapture)
      else
        var scan :- UsableScan(insns, force);
        var ins :- IncomingWords(b, methodIdx, accessFlags);
        if |insns| / 2 > U32_MAX then Err(TooLarge)
        else Ok(CodeItemHeader(Max(scan.registersUsed, ins), ins, scan.outsSize, |insns| / 2) + insns)
  }

  /** `s` is a whole code item by itself: placed at an aligned offset it ends
      where its bytes do. */
  ghost predicate Standalone(s: seq<byte>) {
    CodeItemEnd([0, 0, 0, 0] + s, 4) == Ok(4 + |s|)
  }

  lemma StandaloneLength(s: seq<byte>)
    requires Standalone(s)
    ensures |s| >= CODE_ITEM_HEADER_SIZE
  {
    hide CodeItemEnd;
  }

  /** A standalone item ends with its bytes wherever it is placed. */
  lemma StandaloneAnywhere(s: seq<byte>, c: seq<byte>, at: u32)
    requires Standalone(s) && at != 0 && at % 4 == 0
    requires Holds(c, at, s)
    ensures CodeItemEnd(c, at) == Ok(at + |s|)
    ensures InsnsLen(c, at) == InsnsLen([0, 0, 0, 0] + s, 4)
  {
    hide CodeItemEnd, Holds, InsnsLen, SameShape;
    var b := [0, 0, 0, 0] + s;
    StandaloneLength(s);
    assert b[4..4 + |s|] == s;
    SameBytesSameShape(b, 4, |s|, c, at);
    CodeItemEndAt(c, at, |s|, b);
  }

  lemma CodeItemEndAt(c: seq<byte>, at: u32, len: nat, b: seq<byte>)
    requires at != 0 && at % 4 == 0
    requires CodeItemEnd(b, 4) == Ok(4 + len)
    requires SameShape(b, 4, len, c, at)
    ensures CodeItemEnd(c, at) == Ok(at + len)
    ensures InsnsLen(c, at) == InsnsLen(b, 4)
  {
    hide CodeItemEnd, InsnsLen, SameShape;
    CodeItemEndLocal(b, 4, c, at);
  }

  /** The bytes of any item found in a file are standalone. */
  lemma ExtractedIsStandalone(b: seq<byte>, off: u32)
    requires CodeItemEnd(b, off).Ok?
    ensures Standalone(b[off..CodeItemEnd(b, off).value])
  {
    hide CodeItemEnd, SameShape;
    var end := CodeItemEnd(b, off).value;
    var s := b[off..end];
    var c := [0, 0, 0, 0] + s;
    assert c[4..4 + |s|] == s;
    assert Holds(c, 4, s);
    SameBytesSameShape(b, off, end - off, c, 4);
    CodeItemEndLocal(b, off, c, 4);
  }

  lemma HeaderFields(registers: u16, ins: u16, outs: u16, units: u32, pre: seq<byte>, post: seq<byte>)
    ensures var c := pre + CodeItemHeader(registers, ins, outs, units) + post;
            && Le16(c, |pre|) == registers && Le16(c, |pre| + 2) == ins && Le16(c, |pre| + 4) == outs
            && Le16(c, |pre| + 6) == 0 && Le32(c, |pre| + 12) == units
  {
    hide PutLe16, PutLe32, Le16, Le32;
    var c := pre + CodeItemHeader(registers, ins, outs, units) + post;
    var p := |pre|;
    assert c[p..p + 2] == PutLe16(registers);
    assert c[p + 2..p + 4] == PutLe16(ins);
    assert c[p + 4..p + 6] == PutLe16(outs);
    assert c[p + 6..p + 8] == [0, 0];
    assert c[p + 12..p + 16] == PutLe32(units);
    HeldLe16(c, p, registers);
    HeldLe16(c, p + 2, ins);
    HeldLe16(c, p + 4, outs);
    ZeroLe16(c, p + 6);
    HeldLe32(c, p + 12, units);
  }

  lemma ZeroLe16(c: seq<byte>, o: nat)
    requires o + 2 <= |c| && c[o..o + 2] == [0, 0]
    ensures Le16(c, o) == 0
  {
    assert c[o] == c[o..o + 2][0] && c[o + 1] == c[o..o + 2][1];
  }

  /** A synthesized item is standalone and holds the captured instructions, as
      many as the capture has digits for; its window covers its parameters and
      every register the instructions name. */
  lemma SynthesizedItem(b: seq<byte>, methodIdx: u32, accessFlags: u32, capture: Capture, force: bool)
    requires HasHeader(b)
    requires SynthesizeCodeItem(b, methodIdx, accessFlags, capture, force).Ok?
    ensures var item := SynthesizeCodeItem(b, methodIdx, accessFlags, capture, force).value;
            && Standalone(item)
            && HexDecode(capture.code) == Some(item[CODE_ITEM_HEADER_SIZE..])
            && InsnsLen([0, 0, 0, 0] + item, 4) == Some(|capture.code| / 2)
            && Le16(item, 6) == 0 && Le16(item, 2) <= Le16(item, 0)
            && IncomingWords(b, methodIdx, accessFlags) == Ok(Le16(item, 2))
            && (!force ==> Scan(item[CODE_ITEM_HEADER_SIZE..]).Scanned?
                           && Scan(item[CODE_ITEM_HEADER_SIZE..]).scan.registersUsed <= Le16(item, 0)
                           && Scan(item[CODE_ITEM_HEADER_SIZE..]).scan.outsSize == Le16(item, 4))
  {
    hide HexDecode, Scan, IncomingWords, CodeItemHeader, Le16, Le32;
    var insns := HexDecode(capture.code).value;
    var scan := UsableScan(insns, force).value;
    var ins := IncomingWords(b, methodIdx, accessFlags).value;
    var registers := Max(scan.registersUsed, ins);
    var header := CodeItemHeader(registers, ins, scan.outsSize, |insns| / 2);
    var item := header + insns;
    var c := [0, 0, 0, 0] + item;
    assert c == [0, 0, 0, 0] + header + insns;
    HeaderFields(registers, ins, scan.outsSize, |insns| / 2, [0, 0, 0, 0], insns);
    HeaderFields(registers, ins, scan.outsSize, |insns| / 2, [], insns);
    assert [] + header + insns == item;
    assert item[CODE_ITEM_HEADER_SIZE..] == insns;
  }

  // ----- writing over an item that fits -----

  /** One record written over the instructions of its method, when the DEX has
      a usable item for it. A capture of another length is skipped, or under
      `force` cut or zero-padded to the item's length. */
  function ApplyRecord(b: seq<byte>, method2off: map<u32, u32>, capture: Capture, force: bool): (r: seq<byte>)
    ensures |r| == |b|
  {
    if capture.methodIdx !in method2off then b
    else
      var codeOff := method2off[capture.methodIdx];
      match InsnsLen(b, codeOff)
      case None => b
      case Some(len) =>
        match HexDecode(capture.code)
        case None => b
        case Some(code) =>
          if |code| != len && !force then b
          else
            var n := Min(len, |code|);
            var start := codeOff + CODE_ITEM_HEADER_SIZE;
            ZeroRange(Patch(b, start, code[..n]), start + n, start + len)
  }

  /** `apply_records_to_dex`: records in order, later ones over earlier ones. */
  function ApplyRecords(b: seq<byte>, method2off: map<u32, u32>, captures: seq<Capture>, force: bool): (r: seq<byte>)
    ensures |r| == |b|
    decreases |captures|
  {
    if captures == [] then b
    else ApplyRecords(ApplyRecord(b, method2off, captures[0], force), method2off, captures[1..], force)
  }

  /** Later duplicates of a method index win. */
  function InsertMethods(m: map<u32, u32>, methods: seq<EncodedMethod>): map<u32, u32>
    decreases |methods|
  {
    if methods == [] then m else InsertMethods(m[methods[0].methodIdx := methods[0].codeOff], methods[1..])
  }

  /** Code offsets of all methods from class definition `i` on. */
  function MethodOffsetsFrom(b: seq<byte>, i: nat, m: map<u32, u32>): Result<map<u32, u32>>
    requires HasHeader(b)
    decreases ClassDefsSize(b) - i
  {
    if i >= ClassDefsSize(b) then Ok(m)
    else
      var at := ClassDefAt(b, i);
      if at + CLASS_DEF_SIZE > |b| then Err(OutOfBounds)
      else if Le32(b, at + 24) == 0 then MethodOffsetsFrom(b, i + 1, m)
      else
        var (item, end) :- ParseClassData(b, Le32(b, at + 24));
        MethodOffsetsFrom(b, i + 1, InsertMethods(m, item.Methods()))
  }

  /** `build_method_code_off_map`. */
  function MethodOffsets(b: seq<byte>): Result<map<u32, u32>>
    requires HasHeader(b)
  {
    MethodOffsetsFrom(b, 0, map[])
  }
}
