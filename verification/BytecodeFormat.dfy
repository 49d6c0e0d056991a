/**
  Dalvik instructions and payloads as the format writes them: what each opcode
  takes, how an instruction and its registers become code units, and that the
  walker reads back just that.
 */
module BytecodeFormat {
  import opened Bytes
  import opened Bytecode

  // ----- what opcodes take -----

  datatype Type = Nothing | Int | Long | Float | Double | Ref

  /** Longs and doubles live in register pairs. */
  predicate IsPair(t: Type) {
    t == Long || t == Double
  }

  /** A format as the Dalvik documentation names it, say 22c: code units, number
      of registers, a letter for the rest; and what the registers hold. The
      letter `r` is for register ranges. */
  datatype Shape = Shape(units: nat, regs: nat, kind: char, a: Type, b: Type, c: Type)

  function None0(units: nat, kind: char): Shape {
    Shape(units, 0, kind, Nothing, Nothing, Nothing)
  }

  function One(units: nat, kind: char, a: Type): Shape {
    Shape(units, 1, kind, a, Nothing, Nothing)
  }

  function Two(units: nat, kind: char, a: Type, b: Type): Shape {
    Shape(units, 2, kind, a, b, Nothing)
  }

  function Three(a: Type, b: Type, c: Type): Shape {
    Shape(2, 3, 'x', a, b, c)
  }

  /** Up to five listed registers, or a range of them. */
  function List(units: nat): Shape {
    Shape(units, 5, 'c', Nothing, Nothing, Nothing)
  }

  function Run(units: nat): Shape {
    Shape(units, 5, 'r', Nothing, Nothing, Nothing)
  }

  /** The four arithmetic types in the order conversions list them. */
  function Arithmetic(i: nat): Type {
    if i == 0 then Int else if i == 1 then Long else if i == 2 then Float else Double
  }

  /** Two negations and complements a type, then conversions between every two
      arithmetic types, then narrowings of an int: result and source. */
  function Unary(k: nat): (Type, Type) {
    if k < 2 then (Int, Int)
    else if k < 4 then (Long, Long)
    else if k == 4 then (Float, Float)
    else if k == 5 then (Double, Double)
    else if k < 18 then
      var from, to := (k - 6) / 3, (k - 6) % 3;
      (Arithmetic(if to < from then to else to + 1), Arithmetic(from))
    else (Int, Int)
  }

  /** Eleven operations on ints, eleven on longs of which the last three are
      shifts by an int, five on floats, five on doubles: result and sources. */
  function Binary(k: nat): (Type, Type, Type) {
    if k < 11 then (Int, Int, Int)
    else if k < 19 then (Long, Long, Long)
    else if k < 22 then (Long, Long, Int)
    else if k < 27 then (Float, Float, Float)
    else (Double, Double, Double)
  }

  /** Memory is accessed as a word, a pair, a reference, then four small types. */
  function ElementType(k: nat): Type {
    if k % 7 == 1 then Long else if k % 7 == 2 then Ref else Int
  }

  /** A plain, a wide and a reference variant. */
  function Variant(i: nat): Type {
    if i == 0 then Int else if i == 1 then Long else Ref
  }

  /** What the format says of an opcode; nothing for unused ones. */
  function ShapeOf(op: byte): Option<Shape> {
    if op == 0x00 || op == 0x0e then Some(None0(1, 'x'))
    else if op <= 0x09 then
      var form, typ := (op - 1) % 3, Variant((op - 1) / 3);
      Some(Two(form + 1, 'x', typ, typ))
    else if op <= 0x0c then Some(One(1, 'x', Variant(op - 0x0a)))
    else if op == 0x0d then Some(One(1, 'x', Ref))
    else if op <= 0x11 then Some(One(1, 'x', Variant(op - 0x0f)))
    else if op <= 0x1c then Some(ConstShape(op))
    else if op <= 0x2c then Some(ObjectShape(op))
    else if op <= 0x31 then
      var typ := if op <= 0x2e then Float else if op <= 0x30 then Double else Long;
      Some(Three(Int, typ, typ))
    else if op <= 0x37 then Some(Two(2, 't', Int, Int))
    else if op <= 0x3d then Some(One(2, 't', Int))
    else if op <= 0x43 then None
    else if op <= 0x51 then Some(Three(ElementType(op - 0x44), Ref, Int))
    else if op <= 0x5f then Some(Two(2, 'c', ElementType(op - 0x52), Ref))
    else if op <= 0x6d then Some(One(2, 'c', ElementType(op - 0x60)))
    else if op <= 0x72 then Some(List(3))
    else if op == 0x73 then None
    else if op <= 0x78 then Some(Run(3))
    else if op <= 0x7a then None
    else if op <= 0x8f then Some(Two(1, 'x', Unary(op - 0x7b).0, Unary(op - 0x7b).1))
    else if op <= 0xaf then Some(Three(Binary(op - 0x90).0, Binary(op - 0x90).1, Binary(op - 0x90).2))
    else if op <= 0xcf then Some(Two(1, 'x', Binary(op - 0xb0).0, Binary(op - 0xb0).2))
    else if op <= 0xd7 then Some(Two(2, 's', Int, Int))
    else if op <= 0xe2 then Some(Two(2, 'b', Int, Int))
    else if op <= 0xf9 then None
    else if op == 0xfa then Some(List(4))
    else if op == 0xfb then Some(Run(4))
    else if op == 0xfc then Some(List(3))
    else if op == 0xfd then Some(Run(3))
    else Some(One(2, 'c', Ref))
  }

  /** Constants: five, sixteen, thirty-two bits and the high sixteen; the same for
      longs, with sixty-four; then strings and classes. */
  function ConstShape(op: byte): Shape {
    match op
    case 0x12 => One(1, 'n', Int)
    case 0x13 => One(2, 's', Int)
    case 0x14 => One(3, 'i', Int)
    case 0x15 => One(2, 'h', Int)
    case 0x16 => One(2, 's', Long)
    case 0x17 => One(3, 'i', Long)
    case 0x18 => One(5, 'l', Long)
    case 0x19 => One(2, 'h', Long)
    case 0x1b => One(3, 'c', Ref)
    case _ => One(2, 'c', Ref)
  }

  /** Monitors, types, arrays, throwing, jumps and switches. */
  function ObjectShape(op: byte): Shape {
    match op
    case 0x1f => One(2, 'c', Ref)
    case 0x20 => Two(2, 'c', Int, Ref)
    case 0x21 => Two(1, 'x', Int, Ref)
    case 0x22 => One(2, 'c', Ref)
    case 0x23 => Two(2, 'c', Ref, Int)
    case 0x24 => List(3)
    case 0x25 => Run(3)
    case 0x26 => One(3, 't', Ref)
    case 0x28 => None0(1, 't')
    case 0x29 => None0(2, 't')
    case 0x2a => None0(3, 't')
    case 0x2b => One(3, 't', Int)
    case 0x2c => One(3, 't', Int)
    case _ => One(1, 'x', Ref)
  }

  /** Where a shape keeps its registers. */
  function LayoutOf(s: Shape): Operands {
    if s.regs == 0 then NoRegs
    else if s.regs == 1 then (if s.kind == 'n' then NibbleA else ByteA)
    else if s.regs == 2 then
      if s.units == 1 then NibbleAb
      else if s.kind == 'x' then (if s.units == 2 then ByteAUnitB else UnitAUnitB)
      else if s.kind == 'b' then ByteAByteB
      else NibbleAb
    else if s.regs == 3 then ByteABytesBc
    else if s.kind == 'r' then Args3rc
    else Args35c
  }

  function PairsOf(s: Shape): Wide {
    Wide(IsPair(s.a), IsPair(s.b), IsPair(s.c))
  }

  ghost predicate TableRight(op: byte) {
    && FormatOf(op) == (match ShapeOf(op)
                        case None => None
                        case Some(s) => Some(Format(s.units, LayoutOf(s))))
    && (ShapeOf(op).Some? ==> WideSlots(op) == PairsOf(ShapeOf(op).value))
  }

  lemma MoveTable(op: byte)
    requires op < 0x12
    ensures TableRight(op)
  {
  }

  lemma ConstTable(op: byte)
    requires 0x12 <= op < 0x1d
    ensures TableRight(op)
  {
  }

  lemma ObjectTable(op: byte)
    requires 0x1d <= op < 0x25
    ensures TableRight(op)
  {
  }

  lemma JumpTable(op: byte)
    requires 0x25 <= op < 0x2d
    ensures TableRight(op)
  {
  }

  lemma CompareTable(op: byte)
    requires 0x2d <= op < 0x44
    ensures TableRight(op)
  {
  }

  lemma MemoryTable(op: byte)
    requires 0x44 <= op < 0x7b
    ensures TableRight(op)
  {
  }

  lemma UnaryTable(op: byte)
    requires 0x7b <= op < 0x90
    ensures TableRight(op)
  {
  }

  lemma BinaryTable(op: byte)
    requires 0x90 <= op < 0xd0
    ensures TableRight(op)
  {
  }

  lemma LastTable(op: byte)
    requires 0xd0 <= op
    ensures TableRight(op)
  {
  }

  /** The walker's two tables say of each opcode what the format does. */
  lemma OpcodesAre(op: byte)
    ensures FormatOf(op) == (match ShapeOf(op)
                             case None => None
                             case Some(s) => Some(Format(s.units, LayoutOf(s))))
    ensures ShapeOf(op).Some? ==> WideSlots(op) == PairsOf(ShapeOf(op).value)
  {
    hide ShapeOf, FormatOf, WideSlots;
    if op < 0x12 {
      MoveTable(op);
    } else if op < 0x1d {
      ConstTable(op);
    } else if op < 0x25 {
      ObjectTable(op);
    } else if op < 0x2d {
      JumpTable(op);
    } else if op < 0x44 {
      CompareTable(op);
    } else if op < 0x7b {
      MemoryTable(op);
    } else if op < 0x90 {
      UnaryTable(op);
    } else if op < 0xd0 {
      BinaryTable(op);
    } else {
      LastTable(op);
    }
  }

  // ----- assembling instructions -----

  /** An instruction with up to three registers and literal bits; one with a list
      of argument registers; one with a range of them. */
  datatype Insn =
    | Plain(op: byte, a: nat, b: nat, c: nat, small: byte, lits: seq<u16>)
    | Listed(op: byte, args: seq<nat>, refs: seq<u16>)
    | Ranged(op: byte, first: nat, count: byte, refs: seq<u16>)

  /** How many units hold nothing but literal bits. */
  function LiteralUnits(s: Shape): int {
    match LayoutOf(s)
    case ByteAUnitB => s.units - 2
    case ByteABytesBc => s.units - 2
    case ByteAByteB => s.units - 2
    case UnitAUnitB => s.units - 3
    case _ => s.units - 1
  }

  /** The registers fit the fields the format has for them. */
  predicate Fits(i: Insn) {
    match ShapeOf(i.op)
    case None => false
    case Some(s) =>
      match i
      case Plain(op, a, b, c, small, lits) =>
        s.regs <= 3 && PlainFits(LayoutOf(s), a, b, c) && |lits| == LiteralUnits(s) && (op == 0 ==> small == 0)
      case Listed(_, args, refs) =>
        s.regs == 5 && s.kind == 'c' && |refs| == s.units - 2 && |args| <= 5 && forall k :: 0 <= k < |args| ==> args[k] < 0x10
      case Ranged(_, first, count, refs) =>
        s.regs == 5 && s.kind == 'r' && |refs| == s.units - 2 && first <= U16_MAX && first + count <= 0x1_0000
  }

  predicate PlainFits(layout: Operands, a: nat, b: nat, c: nat) {
    match layout
    case NibbleAb => a < 0x10 && b < 0x10
    case NibbleA => a < 0x10
    case ByteA => a < 0x100
    case ByteAUnitB => a < 0x100 && b <= U16_MAX
    case ByteABytesBc => a < 0x100 && b < 0x100 && c < 0x100
    case ByteAByteB => a < 0x100 && b < 0x100
    case UnitAUnitB => a <= U16_MAX && b <= U16_MAX
    case _ => true
  }

  /** A unit of two bytes. */
  function Head(op: byte, high: byte): u16 {
    (op as int) + 0x100 * (high as int)
  }

  function EncodePlain(layout: Operands, op: byte, a: nat, b: nat, c: nat, small: byte, lits: seq<u16>): (us: seq<u16>)
    requires PlainFits(layout, a, b, c)
    ensures us != []
  {
    match layout
    case NibbleAb => [Head(op, a + 0x10 * b)] + lits
    case NibbleA => [Head(op, a + 0x10 * (small % 0x10))] + lits
    case ByteA => [Head(op, a)] + lits
    case ByteAUnitB => [Head(op, a), b] + lits
    case ByteABytesBc => [Head(op, a), Head(b, c)] + lits
    case ByteAByteB => [Head(op, a), Head(b, small)] + lits
    case UnitAUnitB => [Head(op, small), a, b] + lits
    case _ => [Head(op, small)] + lits
  }

  function Arg(args: seq<nat>, k: nat): nat {
    if k < |args| then args[k] else 0
  }

  /** The count and a fifth register share a byte; the others share a unit. */
  function EncodeListed(op: byte, args: seq<nat>, refs: seq<u16>): seq<u16>
    requires |args| <= 5 && refs != [] && forall k :: 0 <= k < |args| ==> args[k] < 0x10
  {
    [Head(op, 0x10 * |args| + Arg(args, 4)), refs[0],
     Arg(args, 0) + 0x10 * Arg(args, 1) + 0x100 * Arg(args, 2) + 0x1000 * Arg(args, 3)] + refs[1..]
  }

  function Encode(i: Insn): seq<u16>
    requires Fits(i)
  {
    match i
    case Plain(op, a, b, c, small, lits) => EncodePlain(LayoutOf(ShapeOf(op).value), op, a, b, c, small, lits)
    case Listed(op, args, refs) =>
      OpcodesAre(op);
      EncodeListed(op, args, refs)
    case Ranged(op, first, count, refs) =>
      OpcodesAre(op);
      [Head(op, count), refs[0], first] + refs[1..]
  }

  /** The registers an instruction names, pairs marked as such. */
  function NamedRegs(i: Insn): seq<Operand>
    requires Fits(i)
  {
    match i
    case Plain(op, a, b, c, _, _) =>
      var s := ShapeOf(op).value;
      [Operand(a, IsPair(s.a)), Operand(b, IsPair(s.b)), Operand(c, IsPair(s.c))][..s.regs]
    case Listed(_, args, _) => seq(|args|, k requires 0 <= k < |args| => Operand(args[k], false))
    case Ranged(_, first, count, _) => seq(count as int, k requires 0 <= k < count => Operand(first + k, false))
  }

  /** How many words it passes on. */
  function Passed(i: Insn): nat {
    match i
    case Plain(_, _, _, _, _, _) => 0
    case Listed(_, args, _) => |args|
    case Ranged(_, _, count, _) => count
  }

  // ----- instructions read back -----

  ghost predicate UnitsAt(code: seq<byte>, pos: nat, us: seq<u16>) {
    pos + |us| <= Units(code) && forall k :: 0 <= k < |us| ==> Unit(code, pos + k) == us[k]
  }

  lemma HeadIs(op: byte, high: byte)
    ensures LowByte(Head(op, high)) == op && HighByte(Head(op, high)) == high
    ensures Head(op, high) == 0 <==> op == 0 && high == 0
  {
    HeadHalves(op, high);
    HeadZero(op, high);
    hide Head, LowByte, HighByte;
  }

  lemma HeadHalves(op: byte, high: byte)
    ensures LowByte(Head(op, high)) == op && HighByte(Head(op, high)) == high
  {
    Halves(op as int + 0x100 * (high as int), op, high);
  }

  lemma HeadZero(op: byte, high: byte)
    ensures Head(op, high) == 0 <==> op == 0 && high == 0
  {
  }

  lemma Halves(u: int, low: int, high: int)
    requires u == low + 0x100 * high && 0 <= low < 0x100
    ensures u % 0x100 == low && u / 0x100 == high
  {
  }

  lemma ShapeUnits(op: byte)
    requires ShapeOf(op).Some?
    ensures ShapeOf(op).value.regs == 5 ==> ShapeOf(op).value.units >= 3 && op != 0
    ensures op == 0 ==> LayoutOf(ShapeOf(op).value) == NoRegs
    ensures ShapeOf(op).value.regs <= 3 <==> LayoutOf(ShapeOf(op).value) !in {Args35c, Args3rc}
    ensures LiteralUnits(ShapeOf(op).value) >= 0
  {
    hide WideSlots;
  }

  ghost function PlainOperands(regs: nat, a: nat, b: nat, c: nat, wide: Wide): seq<Operand>
    requires regs <= 3
  {
    [Operand(a, wide.a), Operand(b, wide.b), Operand(c, wide.c)][..regs]
  }

  predicate RegsOf(layout: Operands, regs: nat) {
    match layout
    case NoRegs => regs == 0
    case NibbleA => regs == 1
    case ByteA => regs == 1
    case ByteABytesBc => regs == 3
    case Args35c => false
    case Args3rc => false
    case _ => regs == 2
  }

  /** Registers come back from where the layout put them. */
  lemma PlainReads(
    code: seq<byte>, pos: nat, layout: Operands, regs: nat, wide: Wide,
    op: byte, a: nat, b: nat, c: nat, small: byte, lits: seq<u16>)
    requires PlainFits(layout, a, b, c) && RegsOf(layout, regs)
    requires UnitsAt(code, pos, EncodePlain(layout, op, a, b, c, small, lits))
    ensures OperandsAt(code, pos, layout, wide) == PlainOperands(regs, a, b, c, wide)
    ensures LowByte(Unit(code, pos)) == op
    ensures Unit(code, pos) == 0 ==> op == 0
    ensures layout == NoRegs && op == 0 && small == 0 ==> Unit(code, pos) == 0
  {
    hide Unit, Head, LowByte, HighByte;
    var us := EncodePlain(layout, op, a, b, c, small, lits);
    assert Unit(code, pos + 0) == us[0];
    match layout
    case NibbleAb => HeadIs(op, a + 0x10 * b);
    case NibbleA => HeadIs(op, a + 0x10 * (small % 0x10));
    case ByteA => HeadIs(op, a);
    case ByteAUnitB => HeadIs(op, a); assert Unit(code, pos + 1) == us[1];
    case ByteABytesBc => HeadIs(op, a); assert Unit(code, pos + 1) == us[1]; HeadIs(b, c);
    case ByteAByteB => HeadIs(op, a); assert Unit(code, pos + 1) == us[1]; HeadIs(b, small);
    case UnitAUnitB => HeadIs(op, small); assert Unit(code, pos + 1) == us[1] && Unit(code, pos + 2) == us[2];
    case NoRegs => HeadIs(op, small);
  }

  lemma PlainLayout(op: byte)
    requires ShapeOf(op).Some? && ShapeOf(op).value.regs <= 3
    ensures RegsOf(LayoutOf(ShapeOf(op).value), ShapeOf(op).value.regs)
  {
    hide WideSlots;
  }

  lemma PlainLength(i: Insn)
    requires i.Plain? && Fits(i)
    ensures |Encode(i)| == ShapeOf(i.op).value.units
  {
    hide ShapeOf;
    PlainLayout(i.op);
  }

  lemma PlainDecodes(code: seq<byte>, pos: nat, i: Insn)
    requires i.Plain? && Fits(i) && UnitsAt(code, pos, Encode(i))
    ensures DecodeAt(code, pos) == Item(|Encode(i)|, NamedRegs(i), Passed(i))
  {
    hide ShapeOf, FormatOf, WideSlots, Unit, Units, LowByte, OperandsAt;
    OpcodesAre(i.op);
    PlainLength(i);
    ShapeUnits(i.op);
    PlainLayout(i.op);
    var s := ShapeOf(i.op).value;
    PlainReads(code, pos, LayoutOf(s), s.regs, PairsOf(s), i.op, i.a, i.b, i.c, i.small, i.lits);
    assert LayoutOf(s) !in {Args35c, Args3rc};
  }

  lemma Nibbles(c: nat, d: nat, e: nat, f: nat)
    requires c < 0x10 && d < 0x10 && e < 0x10 && f < 0x10
    ensures var u := c + 0x10 * d + 0x100 * e + 0x1000 * f;
            u % 0x10 == c && u / 0x10 % 0x10 == d && u / 0x100 % 0x10 == e && u / 0x1000 == f
  {
    var u := c + 0x10 * d + 0x100 * e + 0x1000 * f;
    assert u / 0x10 == d + 0x10 * e + 0x100 * f;
    assert u / 0x100 == e + 0x10 * f;
  }

  lemma ListedDecodes(code: seq<byte>, pos: nat, i: Insn)
    requires i.Listed? && Fits(i) && UnitsAt(code, pos, Encode(i))
    ensures DecodeAt(code, pos) == Item(|Encode(i)|, NamedRegs(i), Passed(i))
  {
    hide ShapeOf, FormatOf, WideSlots, Unit, Units, LowByte, HighByte, Head, ArgRegs;
    OpcodesAre(i.op);
    ShapeUnits(i.op);
    var args, us := i.args, Encode(i);
    assert Unit(code, pos + 0) == us[0] && Unit(code, pos + 2) == us[2];
    var high := 0x10 * |args| + Arg(args, 4);
    HeadIs(i.op, high);
    ArgsRead(args, high, us[2]);
    assert high / 0x10 == |args|;
    assert ArgRegs(high, us[2])[..|args|] == NamedRegs(i);
  }

  lemma ArgsRead(args: seq<nat>, high: byte, fedc: u16)
    requires |args| <= 5 && forall k :: 0 <= k < |args| ==> args[k] < 0x10
    requires high == 0x10 * |args| + Arg(args, 4)
    requires fedc == Arg(args, 0) + 0x10 * Arg(args, 1) + 0x100 * Arg(args, 2) + 0x1000 * Arg(args, 3)
    ensures high as int / 0x10 == |args|
    ensures forall k :: 0 <= k < |args| ==> ArgRegs(high, fedc)[k] == Operand(args[k], false)
  {
    assert high as int / 0x10 == |args| && high as int % 0x10 == Arg(args, 4);
    Nibbles(Arg(args, 0), Arg(args, 1), Arg(args, 2), Arg(args, 3));
  }

  lemma RangedDecodes(code: seq<byte>, pos: nat, i: Insn)
    requires i.Ranged? && Fits(i) && UnitsAt(code, pos, Encode(i))
    ensures DecodeAt(code, pos) == Item(|Encode(i)|, NamedRegs(i), Passed(i))
  {
    hide ShapeOf, FormatOf, WideSlots, Unit, Units, LowByte, HighByte, Head;
    OpcodesAre(i.op);
    ShapeUnits(i.op);
    var us := Encode(i);
    assert Unit(code, pos + 0) == us[0] && Unit(code, pos + 2) == us[2];
    HeadIs(i.op, i.count);
    assert Range(i.first, i.count) == NamedRegs(i);
  }

  /** Every instruction, anywhere in a stream, is read as itself: its own length,
      its registers with the pairs among them, and its argument words. */
  lemma InstructionDecodes(code: seq<byte>, pos: nat, i: Insn)
    requires Fits(i) && UnitsAt(code, pos, Encode(i))
    ensures DecodeAt(code, pos) == Item(|Encode(i)|, NamedRegs(i), Passed(i))
  {
    hide Fits, Encode, NamedRegs, Passed, DecodeAt, UnitsAt;
    match i
    case Plain(_, _, _, _, _, _) => PlainDecodes(code, pos, i);
    case Listed(_, _, _) => ListedDecodes(code, pos, i);
    case Ranged(_, _, _, _) => RangedDecodes(code, pos, i);
  }

  /** Why no instruction can be read at `pos`. */
  ghost function Refusal(code: seq<byte>, pos: nat): Option<Fault>
    requires pos < Units(code)
  {
    var op, high: int := LowByte(Unit(code, pos)), HighByte(Unit(code, pos));
    match ShapeOf(op)
    case None => Some(UnknownOpcode(op, pos))
    case Some(s) =>
      ShapeUnits(op);
      if pos + s.units > Units(code) then Some(Truncated(pos))
      else if s.regs == 5 && s.kind == 'c' && high / 0x10 > 5 then Some(BadArgCount(pos, high / 0x10))
      else if s.regs == 5 && s.kind == 'r' && high > 0 && Unit(code, pos + 2) + high > 0x1_0000 then Some(RegisterOverflow(pos))
      else None
  }

  /** Nothing else is read as an instruction: unused opcodes, instructions the
      stream cuts short, too many listed arguments, and ranges past the last
      register are each reported as such, and only they are. */
  lemma RefusedInstructions(code: seq<byte>, pos: nat)
    requires pos < Units(code) && !(LowByte(Unit(code, pos)) == 0 && Unit(code, pos) != 0)
    ensures Refusal(code, pos).Some? ==> DecodeAt(code, pos) == Bad(Refusal(code, pos).value)
    ensures Refusal(code, pos).None? ==> DecodeAt(code, pos).Item?
  {
    hide ShapeOf, FormatOf, WideSlots, Unit, OperandsAt;
    var op := LowByte(Unit(code, pos));
    OpcodesAre(op);
    if ShapeOf(op).Some? {
      ShapeUnits(op);
      CallShapes(op);
    }
  }

  /** Only argument lists and ranges have five registers. */
  lemma CallShapes(op: byte)
    requires ShapeOf(op).Some?
    ensures ShapeOf(op).value.regs <= 3 || (ShapeOf(op).value.regs == 5 && ShapeOf(op).value.kind in {'c', 'r'})
  {
    hide WideSlots, FormatOf;
  }

  // ----- payloads -----

  /** The tables a switch or an array literal carries inside the stream. */
  datatype Payload =
    | PackedSwitch(first: u32, targets: seq<u32>)
    | SparseSwitch(keys: seq<u32>, targets: seq<u32>)
    | ArrayData(width: u16, elements: seq<seq<byte>>)

  predicate PayloadFits(p: Payload) {
    match p
    case PackedSwitch(_, targets) => |targets| <= U16_MAX
    case SparseSwitch(keys, targets) => |keys| == |targets| <= U16_MAX
    case ArrayData(width, elements) =>
      && |elements| <= U32_MAX && (forall e :: e in elements ==> |e| == width)
      && DivCeil2(|elements| * width) + 4 <= U32_MAX
  }

  function Words(ws: seq<u32>): (s: seq<byte>)
    ensures |s| == 4 * |ws|
  {
    if ws == [] then [] else PutLe32(ws[0]) + Words(ws[1..])
  }

  function Flatten(es: seq<seq<byte>>): seq<byte> {
    if es == [] then [] else es[0] + Flatten(es[1..])
  }

  lemma {:induction false} FlattenLength(es: seq<seq<byte>>, width: nat)
    requires forall e :: e in es ==> |e| == width
    ensures |Flatten(es)| == |es| * width
    decreases |es|
  {
    if es != [] {
      FlattenLength(es[1..], width);
      assert |es| * width == width + (|es| - 1) * width;
    }
  }

  /** A byte that makes the length even. */
  function Padding(n: nat): seq<byte> {
    if n % 2 == 0 then [] else [0]
  }

  /** Identity, size, then the table; array data is padded to whole units. */
  function EncodePayload(p: Payload): (s: seq<byte>)
    requires PayloadFits(p)
  {
    match p
    case PackedSwitch(first, targets) => PutLe16(0x0100) + PutLe16(|targets|) + PutLe32(first) + Words(targets)
    case SparseSwitch(keys, targets) => PutLe16(0x0200) + PutLe16(|targets|) + Words(keys) + Words(targets)
    case ArrayData(width, elements) =>
      var data := Flatten(elements);
      PutLe16(0x0300) + PutLe16(width) + PutLe32(|elements|) + data + Padding(|data|)
  }

  lemma HeldUnit(code: seq<byte>, pos: nat, v: u16)
    requires Holds(code, 2 * pos, PutLe16(v))
    ensures pos < Units(code) && Unit(code, pos) == v
  {
    hide Le16;
    HeldLe16(code, 2 * pos, v);
  }

  /** The first two units of a payload, and the rest of it. */
  lemma PayloadFront(code: seq<byte>, pos: nat, ident: u16, size: u16, rest: seq<byte>)
    requires Holds(code, 2 * pos, PutLe16(ident) + PutLe16(size) + rest)
    ensures pos + 2 <= Units(code) && Unit(code, pos) == ident && Unit(code, pos + 1) == size
    ensures Holds(code, 2 * (pos + 2), rest) && 2 * pos + 4 + |rest| <= |code|
  {
    hide Holds, PutLe16, Unit;
    HoldsSplit(code, 2 * pos, PutLe16(ident) + PutLe16(size), rest);
    HoldsSplit(code, 2 * pos, PutLe16(ident), PutLe16(size));
    HeldUnit(code, pos, ident);
    HeldUnit(code, pos + 1, size);
    HoldsLength(code, 2 * (pos + 2), rest);
  }

  lemma SwitchDecodes(code: seq<byte>, pos: nat, p: Payload)
    requires !p.ArrayData? && PayloadFits(p) && Holds(code, 2 * pos, EncodePayload(p))
    ensures pos < Units(code) && DecodeAt(code, pos) == Item(|EncodePayload(p)| / 2, [], 0) && |EncodePayload(p)| % 2 == 0
  {
    hide Holds, PutLe16, PutLe32, Unit, Words;
    match p
    case PackedSwitch(first, targets) =>
      var rest := PutLe32(first) + Words(targets);
      assert EncodePayload(p) == PutLe16(0x0100) + PutLe16(|targets|) + rest;
      PayloadFront(code, pos, 0x0100, |targets|, rest);
    case SparseSwitch(keys, targets) =>
      var rest := Words(keys) + Words(targets);
      assert EncodePayload(p) == PutLe16(0x0200) + PutLe16(|targets|) + rest;
      PayloadFront(code, pos, 0x0200, |targets|, rest);
  }

  lemma WordUnits(code: seq<byte>, pos: nat, v: u32)
    requires Holds(code, 2 * pos, PutLe32(v))
    ensures pos + 2 <= Units(code) && Unit(code, pos) + 0x1_0000 * Unit(code, pos + 1) == v
  {
    HeldLe32(code, 2 * pos, v);
    assert Le32(code, 2 * pos) == Le16(code, 2 * pos) + 0x1_0000 * Le16(code, 2 * pos + 2);
  }

  lemma ArrayLength(p: Payload)
    requires p.ArrayData? && PayloadFits(p)
    ensures |Flatten(p.elements)| == |p.elements| * p.width
    ensures |EncodePayload(p)| == 8 + 2 * DivCeil2(|p.elements| * p.width)
  {
    hide PutLe16, PutLe32, Flatten, DivCeil2, Padding;
    FlattenLength(p.elements, p.width);
    Padded(|p.elements| * p.width);
  }

  lemma Padded(n: nat)
    ensures n + |Padding(n)| == 2 * DivCeil2(n)
  {
  }

  lemma ArrayFront(code: seq<byte>, pos: nat, p: Payload)
    requires p.ArrayData? && PayloadFits(p) && Holds(code, 2 * pos, EncodePayload(p))
    ensures pos + 4 <= Units(code) && 2 * pos + |EncodePayload(p)| <= |code|
    ensures Unit(code, pos) == 0x0300 && Unit(code, pos + 1) == p.width
    ensures Unit(code, pos + 2) + 0x1_0000 * Unit(code, pos + 3) == |p.elements|
  {
    hide Holds, PutLe16, PutLe32, Unit, Flatten;
    var data := Flatten(p.elements);
    var tail := data + Padding(|data|);
    var rest := PutLe32(|p.elements|) + tail;
    assert EncodePayload(p) == PutLe16(0x0300) + PutLe16(p.width) + rest;
    PayloadFront(code, pos, 0x0300, p.width, rest);
    HoldsSplit(code, 2 * (pos + 2), PutLe32(|p.elements|), tail);
    WordUnits(code, pos + 2, |p.elements|);
    HoldsLength(code, 2 * pos, EncodePayload(p));
  }

  lemma ArrayDecodes(code: seq<byte>, pos: nat, p: Payload)
    requires p.ArrayData? && PayloadFits(p) && Holds(code, 2 * pos, EncodePayload(p))
    ensures pos < Units(code) && DecodeAt(code, pos) == Item(|EncodePayload(p)| / 2, [], 0) && |EncodePayload(p)| % 2 == 0
  {
    hide Holds, Unit, EncodePayload, DivCeil2;
    ArrayLength(p);
    ArrayFront(code, pos, p);
    assert PayloadWidth(code, pos, 0x0300) == DivCeil2(|p.elements| * p.width) + 4;
  }

  /** Every payload, anywhere in a stream, is stepped over whole and names
      nothing. */
  lemma PayloadDecodes(code: seq<byte>, pos: nat, p: Payload)
    requires PayloadFits(p) && Holds(code, 2 * pos, EncodePayload(p))
    ensures pos < Units(code) && DecodeAt(code, pos) == Item(|EncodePayload(p)| / 2, [], 0) && |EncodePayload(p)| % 2 == 0
  {
    hide EncodePayload, PayloadFits, DecodeAt, Holds;
    if p.ArrayData? {
      ArrayDecodes(code, pos, p);
    } else {
      SwitchDecodes(code, pos, p);
    }
  }

  lemma SameUnit(code: seq<byte>, full: seq<byte>, k: nat)
    requires code <= full && k < Units(code)
    ensures k < Units(full) && Unit(code, k) == Unit(full, k)
  {
  }

  /** A payload the stream cuts short after any of its units is reported as
      truncated; any other head of a payload as unknown. */
  lemma RefusedPayloads(code: seq<byte>, pos: nat, p: Payload, n: nat)
    requires PayloadFits(p) && 0 < n < |EncodePayload(p)| / 2
    requires Holds(code, 2 * pos, EncodePayload(p)[..2 * n]) && |code| == 2 * pos + 2 * n
    ensures DecodeAt(code, pos) == Bad(Truncated(pos))
  {
    hide EncodePayload, Holds, Unit, PayloadFits, DecodeAt, LowByte;
    var full := code + EncodePayload(p)[2 * n..];
    JoinedPayload(code, pos, EncodePayload(p), n);
    PayloadDecodes(full, pos, p);
    PayloadHead(full, pos, p);
    CutDecodes(code, full, pos);
  }

  lemma PayloadHead(code: seq<byte>, pos: nat, p: Payload)
    requires PayloadFits(p) && Holds(code, 2 * pos, EncodePayload(p))
    ensures pos < Units(code) && LowByte(Unit(code, pos)) == 0 && Unit(code, pos) != 0
  {
    hide PutLe16, PutLe32, Holds, Unit, Flatten, Words;
    var ident := match p case PackedSwitch(_, _) => 0x0100 case SparseSwitch(_, _) => 0x0200 case ArrayData(_, _) => 0x0300;
    var rest := EncodePayload(p)[2..];
    assert EncodePayload(p) == PutLe16(ident) + rest;
    HoldsSplit(code, 2 * pos, PutLe16(ident), rest);
    HeldUnit(code, pos, ident);
  }

  lemma JoinedPayload(code: seq<byte>, pos: nat, s: seq<byte>, n: nat)
    requires 2 * n <= |s| && Holds(code, 2 * pos, s[..2 * n]) && |code| == 2 * pos + 2 * n
    ensures Holds(code + s[2 * n..], 2 * pos, s)
  {
    assert s == s[..2 * n] + s[2 * n..];
    assert (code + s[2 * n..])[2 * pos..2 * pos + |s|] == code[2 * pos..2 * pos + 2 * n] + s[2 * n..];
  }

  lemma CutDecodes(code: seq<byte>, full: seq<byte>, pos: nat)
    requires code <= full && pos < Units(code)
    requires DecodeAt(full, pos).Item? && DecodeAt(full, pos).operands == [] && pos + DecodeAt(full, pos).width > Units(code)
    requires LowByte(Unit(full, pos)) == 0 && Unit(full, pos) != 0
    ensures DecodeAt(code, pos) == Bad(Truncated(pos))
  {
    hide Unit, InstructionAt, DivCeil2;
    SameUnit(code, full, pos);
    if pos + 2 <= Units(code) {
      SameUnit(code, full, pos + 1);
    }
    if pos + 4 <= Units(code) {
      SameUnit(code, full, pos + 2);
      SameUnit(code, full, pos + 3);
    }
  }

  lemma UnknownPayloads(code: seq<byte>, pos: nat)
    requires pos < Units(code) && LowByte(Unit(code, pos)) == 0 && Unit(code, pos) !in {0, 0x0100, 0x0200, 0x0300}
    ensures DecodeAt(code, pos) == Bad(UnknownPayload(Unit(code, pos), pos))
  {
  }

  /** Half a unit is refused before anything is read. */
  lemma OddStream(code: seq<byte>)
    requires |code| % 2 == 1
    ensures Scan(code) == Stopped(InsnScan(0, 0, 0), OddLength(|code|))
  {
  }

  // ----- whole streams -----

  datatype Element = Code(insn: Insn) | Table(payload: Payload)

  predicate ElementFits(e: Element) {
    match e
    case Code(insn) => Fits(insn)
    case Table(payload) => PayloadFits(payload)
  }

  function UnitBytes(us: seq<u16>): (s: seq<byte>)
    ensures |s| == 2 * |us|
  {
    if us == [] then [] else PutLe16(us[0]) + UnitBytes(us[1..])
  }

  function ElementBytes(e: Element): seq<byte>
    requires ElementFits(e)
  {
    match e
    case Code(insn) => UnitBytes(Encode(insn))
    case Table(payload) => EncodePayload(payload)
  }

  function Assemble(es: seq<Element>): seq<byte>
    requires forall e :: e in es ==> ElementFits(e)
  {
    if es == [] then [] else ElementBytes(es[0]) + Assemble(es[1..])
  }

  function RegsIn(e: Element): seq<Operand>
    requires ElementFits(e)
  {
    match e
    case Code(insn) => NamedRegs(insn)
    case Table(_) => []
  }

  function PassedBy(e: Element): nat {
    match e
    case Code(insn) => Passed(insn)
    case Table(_) => 0
  }

  /** One past the highest register any element names, high halves included. */
  function Window(es: seq<Element>): (w: nat)
    requires forall e :: e in es ==> ElementFits(e)
    ensures forall e, reg: nat :: e in es && OperandsName(RegsIn(e), reg) ==> reg < w
    ensures w > 0 ==> exists e :: e in es && OperandsName(RegsIn(e), w - 1)
  {
    if es == [] then 0
    else
      TopIsLeastBound(RegsIn(es[0]));
      var rest := Window(es[1..]);
      assert forall e :: e in es <==> e == es[0] || e in es[1..];
      Max(Top(RegsIn(es[0])), rest)
  }

  /** The most words any element passes on. */
  function Outs(es: seq<Element>): (n: nat)
    ensures forall e :: e in es ==> PassedBy(e) <= n
    ensures n > 0 ==> exists e :: e in es && PassedBy(e) == n
  {
    if es == [] then 0
    else
      assert forall e :: e in es <==> e == es[0] || e in es[1..];
      Max(PassedBy(es[0]), Outs(es[1..]))
  }

  lemma {:induction false} HeldUnits(code: seq<byte>, pos: nat, us: seq<u16>)
    requires 2 * pos <= |code| && Holds(code, 2 * pos, UnitBytes(us))
    ensures UnitsAt(code, pos, us)
    decreases |us|
  {
    hide Holds, PutLe16, Unit;
    if us != [] {
      HoldsSplit(code, 2 * pos, PutLe16(us[0]), UnitBytes(us[1..]));
      HeldUnit(code, pos, us[0]);
      HeldUnits(code, pos + 1, us[1..]);
      forall k | 0 <= k < |us| ensures Unit(code, pos + k) == us[k] {
        if k > 0 {
          assert Unit(code, pos + 1 + (k - 1)) == us[1..][k - 1];
        }
      }
    }
  }

  lemma ElementDecodes(code: seq<byte>, pos: nat, e: Element)
    requires ElementFits(e) && 2 * pos <= |code| && Holds(code, 2 * pos, ElementBytes(e))
    ensures |ElementBytes(e)| % 2 == 0 && pos < Units(code)
    ensures DecodeAt(code, pos) == Item(|ElementBytes(e)| / 2, RegsIn(e), PassedBy(e))
  {
    hide Holds, Encode, Fits, DecodeAt, NamedRegs, EncodePayload, PayloadFits;
    match e
    case Code(insn) =>
      HeldUnits(code, pos, Encode(insn));
      EncodesSomething(insn);
      InstructionDecodes(code, pos, insn);
    case Table(payload) => PayloadDecodes(code, pos, payload);
  }

  lemma EncodesSomething(i: Insn)
    requires Fits(i)
    ensures |Encode(i)| > 0
  {
    hide ShapeOf;
  }

  /** Where the first element of a stream ends, the others start. */
  lemma AssembledHead(code: seq<byte>, pos: nat, es: seq<Element>)
    requires es != [] && forall e :: e in es ==> ElementFits(e)
    requires 2 * pos <= |code| && Holds(code, 2 * pos, Assemble(es)) && |code| == 2 * pos + |Assemble(es)|
    ensures ElementFits(es[0]) && forall e :: e in es[1..] ==> ElementFits(e)
    ensures pos < Units(code) && DecodeAt(code, pos).Item?
    ensures DecodeAt(code, pos).operands == RegsIn(es[0]) && DecodeAt(code, pos).outs == PassedBy(es[0])
    ensures var next := pos + DecodeAt(code, pos).width;
            2 * next <= |code| && Holds(code, 2 * next, Assemble(es[1..])) && |code| == 2 * next + |Assemble(es[1..])|
  {
    hide Holds, DecodeAt, ElementBytes, ElementFits, RegsIn, PassedBy;
    assert es[0] in es && forall e :: e in es[1..] ==> e in es;
    HoldsSplit(code, 2 * pos, ElementBytes(es[0]), Assemble(es[1..]));
    ElementDecodes(code, pos, es[0]);
  }

  lemma {:induction false} AssembledFrom(code: seq<byte>, pos: nat, es: seq<Element>, maxReg: nat, outs: nat)
    requires forall e :: e in es ==> ElementFits(e)
    requires 2 * pos <= |code| && Holds(code, 2 * pos, Assemble(es)) && |code| == 2 * pos + |Assemble(es)|
    ensures |code| % 2 == 0
    ensures var top, most := Max(maxReg, Window(es)), Max(outs, Outs(es));
            ScanFrom(code, pos, maxReg, outs)
            == if top > U16_MAX then Stopped(Marks(top, most, Units(code)), RegisterOverflow(Units(code)))
               else Scanned(Marks(top, most, Units(code)))
    decreases |es|
  {
    hide Holds, DecodeAt, ElementBytes, ElementFits, RegsIn, PassedBy, OperandsName, Assemble, Marks, Top;
    if es == [] {
      assert |Assemble(es)| == 0 by { NothingAssembled(); }
    } else {
      AssembledHead(code, pos, es);
      var next, most := Max(maxReg, Top(RegsIn(es[0]))), Max(outs, PassedBy(es[0]));
      AssembledFrom(code, pos + DecodeAt(code, pos).width, es[1..], next, most);
    }
  }

  lemma NothingAssembled()
    ensures Assemble([]) == []
  {
  }

  /** Any program assembled from the format's instructions and payloads is walked
      to its end, and its window is one past the highest register it names and its
      outgoing words the most it passes, unless that window does not fit 16 bits. */
  lemma AssembledScans(es: seq<Element>)
    requires forall e :: e in es ==> ElementFits(e)
    ensures var code := Assemble(es);
            && |code| % 2 == 0
            && Scan(code) == if Window(es) > U16_MAX then
                               Stopped(Marks(Window(es), Outs(es), Units(code)), RegisterOverflow(Units(code)))
                             else Scanned(InsnScan(Window(es), Min(Outs(es), U16_MAX), Units(code)))
  {
    hide Window, Outs, ScanFrom, ElementFits;
    var code := Assemble(es);
    assert code[0..0 + |code|] == code;
    AssembledFrom(code, 0, es, 0, 0);
  }
}
