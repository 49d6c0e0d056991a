/**
  A synthesized item told from the outside: the digits of its capture, the
  descriptors of its method, and what its instructions need.
 */
module SynthesisExact {
  import opened Bytes
  import opened Leb128
  import opened Mutf8
  import opened Dex
  import opened CodeItem
  import opened Bytecode
  import opened Synthesis

  // ----- hexadecimal -----

  const DIGITS := "0123456789abcdef"
  const CAPITALS := "0123456789ABCDEF"

  /** The two characters are the digits of the byte, in either case. */
  ghost predicate Spells(high: char, low: char, v: byte) {
    && (DIGITS[v / 0x10] == high || CAPITALS[v / 0x10] == high)
    && (DIGITS[v % 0x10] == low || CAPITALS[v % 0x10] == low)
  }

  lemma DigitIs(c: char, v: nat)
    requires v < 0x10
    ensures HexValue(c) == Some(v) <==> DIGITS[v] == c || CAPITALS[v] == c
  {
  }

  lemma ByteIs(high: char, low: char, v: byte)
    ensures Spells(high, low, v) <==>
              HexValue(high).Some? && HexValue(low).Some? && v == 0x10 * HexValue(high).value + HexValue(low).value
  {
    hide HexValue;
    DigitIs(high, v / 0x10);
    DigitIs(low, v % 0x10);
  }

  /** A string decodes to some bytes exactly when it spells them, two digits each. */
  lemma {:induction false} HexIs(s: string, bytes: seq<byte>)
    ensures HexDecode(s) == Some(bytes) <==>
              |s| == 2 * |bytes| && forall i :: 0 <= i < |bytes| ==> Spells(s[2 * i], s[2 * i + 1], bytes[i])
    decreases |s|
  {
    hide HexValue, Spells;
    if |s| >= 2 && |bytes| >= 1 {
      HexIs(s[2..], bytes[1..]);
      ByteIs(s[0], s[1], bytes[0]);
      assert bytes == [bytes[0]] + bytes[1..];
      if |s| == 2 * |bytes| && forall i :: 0 <= i < |bytes| ==> Spells(s[2 * i], s[2 * i + 1], bytes[i]) {
        forall i | 0 <= i < |bytes[1..]| ensures Spells(s[2..][2 * i], s[2..][2 * i + 1], bytes[1..][i]) {
          assert Spells(s[2 * (i + 1)], s[2 * (i + 1) + 1], bytes[i + 1]);
        }
        assert Spells(s[2 * 0], s[2 * 0 + 1], bytes[0]);
      }
      if HexDecode(s) == Some(bytes) {
        forall i | 0 <= i < |bytes| ensures Spells(s[2 * i], s[2 * i + 1], bytes[i]) {
          if i > 0 {
            assert Spells(s[2..][2 * (i - 1)], s[2..][2 * (i - 1) + 1], bytes[1..][i - 1]);
          }
        }
      }
    }
  }

  // ----- descriptors -----

  /** Where entry `idx` of a table stands, the product saturating at 32 bits. */
  ghost function EntryAt(tableOff: u32, idx: nat, width: nat): nat
    requires width > 0
  {
    tableOff + Min(idx * width, 0xffff_ffff)
  }

  /** The entry is in the table, and in the file below 32 bits. */
  ghost predicate HasEntry(b: seq<byte>, count: u32, tableOff: u32, idx: nat, width: nat, size: nat)
    requires width > 0
  {
    idx < count && EntryAt(tableOff, idx, width) <= 0xffff_ffff && EntryAt(tableOff, idx, width) + size <= |b|
  }

  /** String `idx` of the file reads as `s`. */
  ghost predicate StringIs(b: seq<byte>, idx: nat, s: seq<Scalar>)
    requires HasHeader(b)
  {
    && HasEntry(b, Le32(b, 0x38), Le32(b, 0x3c), idx, 4, 4)
    && ReadStringData(b, Le32(b, EntryAt(Le32(b, 0x3c), idx, 4))) == Ok(s)
  }

  /** Type `idx` has this descriptor. */
  ghost predicate TypeIs(b: seq<byte>, idx: nat, descriptor: seq<Scalar>)
    requires HasHeader(b)
  {
    && HasEntry(b, Le32(b, 0x40), Le32(b, 0x44), idx, 4, 4)
    && StringIs(b, Le32(b, EntryAt(Le32(b, 0x44), idx, 4)), descriptor)
  }

  /** The type list at `off` is `ps`; none stands for an empty one. */
  ghost predicate ParametersAre(b: seq<byte>, off: u32, ps: seq<seq<Scalar>>)
    requires HasHeader(b)
  {
    if off == 0 then ps == []
    else off + 4 <= |b| && Le32(b, off) == |ps| && TypesAre(b, off + 4, ps)
  }

  ghost predicate TypesAre(b: seq<byte>, at: nat, ps: seq<seq<Scalar>>)
    requires HasHeader(b)
  {
    forall i :: 0 <= i < |ps| ==> NthTypeIs(b, at, i, ps[i])
  }

  ghost predicate NthTypeIs(b: seq<byte>, at: nat, i: nat, descriptor: seq<Scalar>)
    requires HasHeader(b)
  {
    at + 2 * i + 2 <= |b| && TypeIs(b, Le16(b, at + 2 * i), descriptor)
  }

  ghost predicate PrototypeIs(b: seq<byte>, idx: nat, result: seq<Scalar>, ps: seq<seq<Scalar>>)
    requires HasHeader(b)
  {
    && HasEntry(b, Le32(b, 0x48), Le32(b, 0x4c), idx, 12, 12)
    && var at := EntryAt(Le32(b, 0x4c), idx, 12);
    && TypeIs(b, Le32(b, at + 4), result) && ParametersAre(b, Le32(b, at + 8), ps)
  }

  /** Method `idx` is `result owner.name(ps)`. */
  ghost predicate MethodIs(b: seq<byte>, idx: nat, owner: seq<Scalar>, name: seq<Scalar>, result: seq<Scalar>, ps: seq<seq<Scalar>>)
    requires HasHeader(b)
  {
    && HasEntry(b, Le32(b, 0x58), Le32(b, 0x5c), idx, 8, 8)
    && var at := EntryAt(Le32(b, 0x5c), idx, 8);
    && TypeIs(b, Le16(b, at), owner) && PrototypeIs(b, Le16(b, at + 2), result, ps) && StringIs(b, Le32(b, at + 4), name)
  }

  lemma EntryOffsetIs(tableOff: u32, idx: u32, width: nat)
    requires width > 0
    ensures EntryOffset(tableOff, idx, width)
         == if EntryAt(tableOff, idx, width) <= 0xffff_ffff then Ok(EntryAt(tableOff, idx, width)) else Err(OutOfBounds)
  {
  }

  /** A string written the way the format writes strings reads as itself. */
  lemma WrittenString(b: seq<byte>, idx: nat, claimed: u32, s: seq<Scalar>)
    requires HasHeader(b) && HasEntry(b, Le32(b, 0x38), Le32(b, 0x3c), idx, 4, 4)
    requires Holds(b, Le32(b, EntryAt(Le32(b, 0x3c), idx, 4)), EncodeUleb(claimed) + Encode(s) + [0])
    ensures StringIs(b, idx, s)
  {
    hide Le32, EncodeUleb, Encode, Holds, ReadStringData;
    StringDataRoundTrip(b, Le32(b, EntryAt(Le32(b, 0x3c), idx, 4)), claimed, s);
  }

  lemma StringReads(b: seq<byte>, idx: u32, s: seq<Scalar>)
    requires HasHeader(b)
    ensures GetString(b, idx) == Ok(s) <==> StringIs(b, idx, s)
  {
    hide Le32, ReadStringData, EntryOffset;
    EntryOffsetIs(Le32(b, 0x3c), idx, 4);
  }

  lemma TypeReads(b: seq<byte>, idx: u32, descriptor: seq<Scalar>)
    requires HasHeader(b)
    ensures GetTypeDescriptor(b, idx) == Ok(descriptor) <==> TypeIs(b, idx, descriptor)
  {
    hide Le32, GetString, StringIs, EntryOffset;
    EntryOffsetIs(Le32(b, 0x44), idx, 4);
    var at := EntryAt(Le32(b, 0x44), idx, 4);
    if at + 4 <= |b| {
      StringReads(b, Le32(b, at), descriptor);
    }
  }

  lemma {:induction false} TypesRead(b: seq<byte>, at: nat, ps: seq<seq<Scalar>>)
    requires HasHeader(b) && TypesAre(b, at, ps)
    ensures GetTypeList(b, at, |ps|) == Ok(ps)
    decreases |ps|
  {
    hide Le16, GetTypeDescriptor, TypeIs;
    if ps != [] {
      assert NthTypeIs(b, at, 0, ps[0]);
      TypeReads(b, Le16(b, at), ps[0]);
      forall i | 0 <= i < |ps[1..]| ensures NthTypeIs(b, at + 2, i, ps[1..][i]) {
        assert NthTypeIs(b, at, i + 1, ps[i + 1]);
        assert at + 2 * (i + 1) == at + 2 + 2 * i;
      }
      TypesRead(b, at + 2, ps[1..]);
      assert [ps[0]] + ps[1..] == ps;
    }
  }

  lemma {:induction false} ListedTypes(b: seq<byte>, at: nat, count: nat)
    requires HasHeader(b) && GetTypeList(b, at, count).Ok?
    ensures |GetTypeList(b, at, count).value| == count && TypesAre(b, at, GetTypeList(b, at, count).value)
    decreases count
  {
    hide Le16, GetTypeDescriptor, TypeIs;
    if count > 0 {
      var ps, rest := GetTypeList(b, at, count).value, GetTypeList(b, at + 2, count - 1).value;
      ListedTypes(b, at + 2, count - 1);
      TypeReads(b, Le16(b, at), ps[0]);
      forall i | 0 <= i < |ps| ensures NthTypeIs(b, at, i, ps[i]) {
        if i > 0 {
          assert NthTypeIs(b, at + 2, i - 1, rest[i - 1]);
          assert at + 2 * i == at + 2 + 2 * (i - 1);
        }
      }
    }
  }

  lemma ParametersRead(b: seq<byte>, off: u32, ps: seq<seq<Scalar>>)
    requires HasHeader(b)
    ensures (if off == 0 then Ok([]) else GetParameterTypes(b, off)) == Ok(ps) <==> ParametersAre(b, off, ps)
  {
    hide Le32, TypesAre, GetTypeList;
    if off != 0 && off + 4 <= |b| {
      var start: nat := off + 4;
      if TypesAre(b, start, ps) && Le32(b, off) == |ps| {
        TypesRead(b, start, ps);
      }
      if GetTypeList(b, start, Le32(b, off)).Ok? {
        ListedTypes(b, start, Le32(b, off));
      }
    }
  }

  lemma PrototypeReads(b: seq<byte>, idx: u32, ps: seq<seq<Scalar>>)
    requires HasHeader(b)
    ensures GetProtoParameters(b, idx) == Ok(ps) <==> exists result :: PrototypeIs(b, idx, result, ps)
  {
    hide Le32, GetTypeDescriptor, TypeIs, ParametersAre, GetParameterTypes, EntryOffset;
    EntryOffsetIs(Le32(b, 0x4c), idx, 12);
    var at := EntryAt(Le32(b, 0x4c), idx, 12);
    if at + 12 <= |b| {
      ParametersRead(b, Le32(b, at + 8), ps);
      if GetTypeDescriptor(b, Le32(b, at + 4)).Ok? {
        TypeReads(b, Le32(b, at + 4), GetTypeDescriptor(b, Le32(b, at + 4)).value);
        if GetProtoParameters(b, idx) == Ok(ps) {
          assert PrototypeIs(b, idx, GetTypeDescriptor(b, Le32(b, at + 4)).value, ps);
        }
      }
      if result :| PrototypeIs(b, idx, result, ps) {
        TypeReads(b, Le32(b, at + 4), result);
      }
    }
  }

  /** A method's parameters are found exactly if its entries resolve: class and
      name, prototype and return type, and each parameter. */
  lemma MethodReads(b: seq<byte>, idx: u32, ps: seq<seq<Scalar>>)
    requires HasHeader(b)
    ensures GetMethodParameters(b, idx) == Ok(ps) <==> exists owner, name, result :: MethodIs(b, idx, owner, name, result, ps)
  {
    hide Le32, Le16, GetTypeDescriptor, TypeIs, GetProtoParameters, PrototypeIs, GetString, StringIs, EntryOffset;
    EntryOffsetIs(Le32(b, 0x5c), idx, 8);
    var at := EntryAt(Le32(b, 0x5c), idx, 8);
    if at + 8 <= |b| {
      PrototypeReads(b, Le16(b, at + 2), ps);
      if GetMethodParameters(b, idx) == Ok(ps) {
        var owner, name := GetTypeDescriptor(b, Le16(b, at)).value, GetString(b, Le32(b, at + 4)).value;
        TypeReads(b, Le16(b, at), owner);
        StringReads(b, Le32(b, at + 4), name);
        var result :| PrototypeIs(b, Le16(b, at + 2), result, ps);
        assert MethodIs(b, idx, owner, name, result, ps);
      }
      if owner, name, result :| MethodIs(b, idx, owner, name, result, ps) {
        TypeReads(b, Le16(b, at), owner);
        StringReads(b, Le32(b, at + 4), name);
        assert PrototypeIs(b, Le16(b, at + 2), result, ps);
      }
    }
  }

  // ----- incoming words -----

  /** Which parameters are longs or doubles. */
  ghost function Pairs(ps: seq<seq<Scalar>>): set<int> {
    set i | 0 <= i < |ps| && (ps[i] == ['J' as int] || ps[i] == ['D' as int])
  }

  lemma {:induction false} WordsAre(ps: seq<seq<Scalar>>)
    ensures Words(ps) == |ps| + |Pairs(ps)|
    decreases |ps|
  {
    if ps == [] {
      assert Pairs(ps) == {};
    } else {
      var n := |ps| - 1;
      var init := ps[..n];
      WordsAre(init);
      if WordsOf(ps[n]) == 2 {
        assert Pairs(ps) == Pairs(init) + {n};
      } else {
        assert Pairs(ps) == Pairs(init);
      }
    }
  }

  /** Registers for `this` unless the method is static, for each parameter, and one
      more for each long or double. */
  ghost function WordsFor(flags: u32, ps: seq<seq<Scalar>>): nat {
    (if flags / 8 % 2 == 1 then 0 else 1) + |ps| + |Pairs(ps)|
  }

  /** The incoming words of a method can be counted exactly if its entries resolve
      and 16 bits can count them, and they are those its descriptors say. */
  lemma IncomingIs(b: seq<byte>, idx: u32, flags: u32, n: u16)
    requires HasHeader(b)
    ensures IncomingWords(b, idx, flags) == Ok(n) <==>
              exists owner, name, result, ps :: MethodIs(b, idx, owner, name, result, ps) && n == WordsFor(flags, ps)
  {
    hide MethodIs, GetMethodParameters, Words, Pairs;
    if IncomingWords(b, idx, flags) == Ok(n) {
      var ps := GetMethodParameters(b, idx).value;
      MethodReads(b, idx, ps);
      WordsAre(ps);
      var owner, name, result :| MethodIs(b, idx, owner, name, result, ps);
      assert MethodIs(b, idx, owner, name, result, ps) && n == WordsFor(flags, ps);
    }
    if owner, name, result, ps :| MethodIs(b, idx, owner, name, result, ps) && n == WordsFor(flags, ps) {
      MethodReads(b, idx, ps);
      WordsAre(ps);
    }
  }

  // ----- the item -----

  /** What can be synthesized. */
  ghost predicate Synthesizable(b: seq<byte>, idx: u32, flags: u32, code: string, force: bool, insns: seq<byte>)
    requires HasHeader(b)
  {
    && HexDecode(code) == Some(insns) && insns != [] && |insns| % 2 == 0 && |insns| / 2 <= U32_MAX
    && (force || Scan(insns).Scanned?) && IncomingWords(b, idx, flags).Ok?
  }

  /** The item for these instructions, byte by byte: window, incoming and outgoing
      words, neither tries nor debug information, the number of instructions and
      they themselves. The window is the larger of the incoming words and the
      registers the scan found, if need be before it stopped. */
  ghost predicate IsItemFor(item: seq<byte>, insns: seq<byte>, ins: u16) {
    && |item| == 16 + |insns| && item[16..] == insns
    && Le16(item, 0) == Max(ins, Scan(insns).scan.registersUsed) && Le16(item, 2) == ins && Le16(item, 4) == Scan(insns).scan.outsSize
    && Le16(item, 6) == 0 && Le32(item, 8) == 0 && Le32(item, 12) == |insns| / 2
  }

  /** Synthesis succeeds exactly on a scannable capture of a method whose words
      can be counted, and then gives its item. */
  lemma SynthesisIs(b: seq<byte>, idx: u32, flags: u32, capture: Capture, force: bool)
    requires HasHeader(b)
    ensures SynthesizeCodeItem(b, idx, flags, capture, force).Ok? <==>
              exists insns :: Synthesizable(b, idx, flags, capture.code, force, insns)
    ensures forall insns :: Synthesizable(b, idx, flags, capture.code, force, insns) ==>
              IsItemFor(SynthesizeCodeItem(b, idx, flags, capture, force).value, insns, IncomingWords(b, idx, flags).value)
  {
    hide HexDecode, Scan, IncomingWords, CodeItemHeader, Le16, Le32;
    if HexDecode(capture.code).Some? {
      var insns := HexDecode(capture.code).value;
      if Synthesizable(b, idx, flags, capture.code, force, insns) {
        var ins, scan := IncomingWords(b, idx, flags).value, UsableScan(insns, force).value;
        ItemIs(Max(scan.registersUsed, ins), ins, scan.outsSize, insns);
      } else {
        assert SynthesizeCodeItem(b, idx, flags, capture, force).Err?;
      }
    }
  }

  lemma ItemIs(registers: u16, ins: u16, outs: u16, insns: seq<byte>)
    requires |insns| / 2 <= U32_MAX
    ensures var item := CodeItemHeader(registers, ins, outs, |insns| / 2) + insns;
            && |item| == 16 + |insns| && item[16..] == insns
            && Le16(item, 0) == registers && Le16(item, 2) == ins && Le16(item, 4) == outs
            && Le16(item, 6) == 0 && Le32(item, 8) == 0 && Le32(item, 12) == |insns| / 2
  {
    hide Le16, Le32, CodeItemHeader;
    var header := CodeItemHeader(registers, ins, outs, |insns| / 2);
    HeaderFields(registers, ins, outs, |insns| / 2, [], insns);
    assert [] + header + insns == header + insns;
    NoDebug(registers, ins, outs, |insns| / 2, insns);
  }

  lemma NoDebug(registers: u16, ins: u16, outs: u16, units: u32, insns: seq<byte>)
    ensures Le32(CodeItemHeader(registers, ins, outs, units) + insns, 8) == 0
  {
    hide PutLe16, PutLe32;
    var item := CodeItemHeader(registers, ins, outs, units) + insns;
    assert item[8] == 0 && item[9] == 0 && item[10] == 0 && item[11] == 0;
  }
}
