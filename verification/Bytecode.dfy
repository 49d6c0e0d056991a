/**
  The bytecode walker: decodes an `insns` stream unit by unit and reports the
  register window a synthesized code item must declare.
 */
module Bytecode {
  import opened Bytes

  /** Where an instruction format keeps its register operands. */
  datatype Operands =
    | NoRegs | NibbleAb | NibbleA | ByteA | ByteAUnitB | ByteABytesBc | ByteAByteB | UnitAUnitB | Args35c | Args3rc

  datatype Format = Format(width: nat, operands: Operands)

  /** Width in code units and register layout of `op`; nothing for the opcodes
      the DEX format leaves unused. */
  function FormatOf(op: byte): (f: Option<Format>)
    ensures f.Some? ==> 0 < f.value.width <= 5
    ensures f.Some? && f.value.operands in {ByteAUnitB, ByteABytesBc, ByteAByteB} ==> 2 <= f.value.width
    ensures f.Some? && f.value.operands in {UnitAUnitB, Args35c, Args3rc} ==> 3 <= f.value.width
  {
    if op == 0x00 then Some(Format(1, NoRegs))
    else if op in {0x01, 0x04, 0x07} then Some(Format(1, NibbleAb))
    else if op in {0x02, 0x05, 0x08} then Some(Format(2, ByteAUnitB))
    else if op in {0x03, 0x06, 0x09} then Some(Format(3, UnitAUnitB))
    else if op <= 0x0d then Some(Format(1, ByteA))
    else if op == 0x0e then Some(Format(1, NoRegs))
    else if op <= 0x11 then Some(Format(1, ByteA))
    else if op == 0x12 then Some(Format(1, NibbleA))
    else if op in {0x14, 0x17, 0x1b, 0x26, 0x2b, 0x2c} then Some(Format(3, ByteA))
    else if op == 0x18 then Some(Format(5, ByteA))
    else if op <= 0x1c then Some(Format(2, ByteA))
    else if op <= 0x1e || op == 0x27 then Some(Format(1, ByteA))
    else if op == 0x1f || op == 0x22 then Some(Format(2, ByteA))
    else if op == 0x20 || op == 0x23 then Some(Format(2, NibbleAb))
    else if op == 0x21 then Some(Format(1, NibbleAb))
    else if op == 0x24 then Some(Format(3, Args35c))
    else if op == 0x25 then Some(Format(3, Args3rc))
    else if op <= 0x2a then Some(Format(op - 0x27, NoRegs))
    else if op <= 0x31 then Some(Format(2, ByteABytesBc))
    else if op <= 0x37 then Some(Format(2, NibbleAb))
    else if op <= 0x3d then Some(Format(2, ByteA))
    else FormatOfHigh(op)
  }

  /** `FormatOf` from 0x3e on. */
  function FormatOfHigh(op: byte): (f: Option<Format>)
    ensures f.Some? ==> 0 < f.value.width <= 5
    ensures f.Some? && f.value.operands in {ByteAUnitB, ByteABytesBc, ByteAByteB} ==> 2 <= f.value.width
    ensures f.Some? && f.value.operands in {UnitAUnitB, Args35c, Args3rc} ==> 3 <= f.value.width
  {
    if 0x44 <= op <= 0x51 then Some(Format(2, ByteABytesBc))
    else if 0x52 <= op <= 0x5f then Some(Format(2, NibbleAb))
    else if 0x60 <= op <= 0x6d then Some(Format(2, ByteA))
    else if 0x6e <= op <= 0x72 then Some(Format(3, Args35c))
    else if 0x74 <= op <= 0x78 then Some(Format(3, Args3rc))
    else if 0x7b <= op <= 0x8f then Some(Format(1, NibbleAb))
    else if 0x90 <= op <= 0xaf then Some(Format(2, ByteABytesBc))
    else if 0xb0 <= op <= 0xcf then Some(Format(1, NibbleAb))
    else if 0xd0 <= op <= 0xd7 then Some(Format(2, NibbleAb))
    else if 0xd8 <= op <= 0xe2 then Some(Format(2, ByteAByteB))
    else if op == 0xfa then Some(Format(4, Args35c))
    else if op == 0xfb then Some(Format(4, Args3rc))
    else if op == 0xfc then Some(Format(3, Args35c))
    else if op == 0xfd then Some(Format(3, Args3rc))
    else if op == 0xfe || op == 0xff then Some(Format(2, ByteA))
    else None
  }

  /** Which operand slots name a register pair. */
  datatype Wide = Wide(a: bool, b: bool, c: bool)

  function WideSlots(op: byte): Wide {
    if 0x04 <= op <= 0x06 then Wide(true, true, false)
    else if op in {0x0b, 0x10} || 0x16 <= op <= 0x19 then Wide(true, false, false)
    else if 0x2f <= op <= 0x31 then Wide(false, true, true)
    else if op in {0x45, 0x4c, 0x53, 0x5a, 0x61, 0x68} then Wide(true, false, false)
    else if op in {0x7d, 0x7e, 0x80, 0x86, 0x8b} then Wide(true, true, false)
    else if op in {0x81, 0x83, 0x88, 0x89} then Wide(true, false, false)
    else if op in {0x84, 0x85, 0x8a, 0x8c} then Wide(false, true, false)
    else if 0x9b <= op <= 0xa2 || 0xab <= op <= 0xaf then Wide(true, true, true)
    else if 0xa3 <= op <= 0xa5 || 0xbb <= op <= 0xc2 || 0xcb <= op <= 0xcf then Wide(true, true, false)
    else if 0xc3 <= op <= 0xc5 then Wide(true, false, false)
    else Wide(false, false, false)
  }

  // ----- what one position of the stream says -----

  datatype Fault =
    | OddLength(len: nat)
    | UnknownOpcode(op: byte, pos: nat)
    | Truncated(pos: nat)
    | UnknownPayload(ident: u16, pos: nat)
    | BadArgCount(pos: nat, count: nat)
    | RegisterOverflow(pos: nat)

  /** A register operand; a wide one names `reg` and `reg + 1`. */
  datatype Operand = Operand(reg: nat, wide: bool)

  datatype Decoded =
    | Item(width: nat, operands: seq<Operand>, outs: nat)
    | Bad(fault: Fault)

  function Units(code: seq<byte>): nat {
    |code| / 2
  }

  function Unit(code: seq<byte>, i: nat): u16
    requires i < Units(code)
  {
    Le16(code, 2 * i)
  }

  function LowByte(u: u16): byte {
    u % 0x100
  }

  function HighByte(u: u16): byte {
    u / 0x100
  }

  function DivCeil2(n: nat): nat {
    (n + 1) / 2
  }

  /** Width of the switch or array payload at `pos`, the unit there being `ident`. */
  function PayloadAt(code: seq<byte>, pos: nat): (d: Decoded)
    requires pos < Units(code)
    ensures d.Item? ==> 0 < d.width <= Units(code) - pos && d.operands == [] && d.outs == 0
  {
    var ident := Unit(code, pos);
    var need := if ident == 0x0100 || ident == 0x0200 then 2 else 4;
    if ident !in {0x0100, 0x0200, 0x0300} then Bad(UnknownPayload(ident, pos))
    else if pos + need > Units(code) then Bad(Truncated(pos))
    else
      var width := PayloadWidth(code, pos, ident);
      if width > U32_MAX || Units(code) - pos < width then Bad(Truncated(pos)) else Item(width, [], 0)
  }

  function PayloadWidth(code: seq<byte>, pos: nat, ident: u16): (w: nat)
    requires ident in {0x0100, 0x0200, 0x0300}
    requires pos + (if ident == 0x0300 then 4 else 2) <= Units(code)
    ensures w > 0
  {
    if ident == 0x0100 then 2 * Unit(code, pos + 1) + 4
    else if ident == 0x0200 then 4 * Unit(code, pos + 1) + 2
    else
      var size: nat := Unit(code, pos + 2) + 0x1_0000 * Unit(code, pos + 3);
      var elementWidth: nat := Unit(code, pos + 1);
      DivCeil2(size * elementWidth) + 4
  }

  /** The register operands of an instruction wholly inside the stream. */
  function OperandsAt(code: seq<byte>, pos: nat, layout: Operands, wide: Wide): seq<Operand>
    requires pos < Units(code)
    requires layout in {ByteAUnitB, ByteABytesBc, ByteAByteB} ==> pos + 2 <= Units(code)
    requires layout in {UnitAUnitB, Args35c, Args3rc} ==> pos + 3 <= Units(code)
    requires layout == Args35c ==> HighByte(Unit(code, pos)) / 0x10 <= 5
  {
    var byte1: int := HighByte(Unit(code, pos));
    match layout
    case NoRegs => []
    case NibbleAb => [Operand(byte1 % 0x10, wide.a), Operand(byte1 / 0x10, wide.b)]
    case NibbleA => [Operand(byte1 % 0x10, wide.a)]
    case ByteA => [Operand(byte1, wide.a)]
    case ByteAUnitB => [Operand(byte1, wide.a), Operand(Unit(code, pos + 1), wide.b)]
    case ByteABytesBc =>
      [Operand(byte1, wide.a),
       Operand(LowByte(Unit(code, pos + 1)), wide.b),
       Operand(HighByte(Unit(code, pos + 1)), wide.c)]
    case ByteAByteB => [Operand(byte1, wide.a), Operand(LowByte(Unit(code, pos + 1)), wide.b)]
    case UnitAUnitB => [Operand(Unit(code, pos + 1), wide.a), Operand(Unit(code, pos + 2), wide.b)]
    case Args35c => ArgRegs(byte1, Unit(code, pos + 2))[..byte1 / 0x10]
    case Args3rc => Range(Unit(code, pos + 2), byte1)
  }

  /** Registers C, D, E, F, G of a format with individually listed arguments. */
  function ArgRegs(byte1: byte, fedc: u16): (s: seq<Operand>)
    ensures |s| == 5
  {
    [Operand(fedc % 0x10, false),
     Operand(fedc / 0x10 % 0x10, false),
     Operand(fedc / 0x100 % 0x10, false),
     Operand(fedc / 0x1000, false),
     Operand(byte1 % 0x10, false)]
  }

  /** `count` consecutive registers from `first`. */
  function Range(first: nat, count: nat): (s: seq<Operand>)
    ensures |s| == count
  {
    seq(count, i requires 0 <= i < count => Operand(first + i, false))
  }

  function InstructionAt(code: seq<byte>, pos: nat): (d: Decoded)
    requires pos < Units(code)
    ensures d.Item? ==> 0 < d.width <= Units(code) - pos
  {
    var op := LowByte(Unit(code, pos));
    var byte1: int := HighByte(Unit(code, pos));
    match FormatOf(op)
    case None => Bad(UnknownOpcode(op, pos))
    case Some(Format(width, layout)) =>
      if Units(code) - pos < width then Bad(Truncated(pos))
      else if layout == Args35c && byte1 / 0x10 > 5 then Bad(BadArgCount(pos, byte1 / 0x10))
      else if layout == Args3rc && byte1 > 0 && Unit(code, pos + 2) + byte1 - 1 > U16_MAX then
        Bad(RegisterOverflow(pos))
      else
        var outs := if layout == Args35c then byte1 / 0x10 else if layout == Args3rc then byte1 else 0;
        Item(width, OperandsAt(code, pos, layout, WideSlots(op)), outs)
  }

  /** A zero opcode under a nonzero high byte is a payload, not an instruction. */
  function DecodeAt(code: seq<byte>, pos: nat): (d: Decoded)
    requires pos < Units(code)
    ensures d.Item? ==> 0 < d.width <= Units(code) - pos
  {
    if LowByte(Unit(code, pos)) == 0 && Unit(code, pos) != 0 then PayloadAt(code, pos)
    else InstructionAt(code, pos)
  }

  // ----- walking -----

  datatype InsnScan = InsnScan(registersUsed: u16, outsSize: u16, unitsWalked: nat)

  datatype ScanResult = Scanned(scan: InsnScan) | Stopped(scan: InsnScan, fault: Fault)

  /** One past the highest register an operand names. */
  function TopOf(o: Operand): nat {
    o.reg + (if o.wide then 2 else 1)
  }

  function Top(operands: seq<Operand>): nat {
    if operands == [] then 0 else Max(Top(operands[..|operands| - 1]), TopOf(operands[|operands| - 1]))
  }

  /** The marks reported on the way out, clipped to 16 bits. */
  function Marks(maxReg: nat, outs: nat, pos: nat): InsnScan {
    InsnScan(Min(maxReg, U16_MAX), Min(outs, U16_MAX), pos)
  }

  /** The rest of the walk from `pos` with the high-water marks so far. */
  function ScanFrom(code: seq<byte>, pos: nat, maxReg: nat, outs: nat): ScanResult
    requires pos <= Units(code)
    decreases Units(code) - pos
  {
    if pos == Units(code) then
      if maxReg > U16_MAX then Stopped(Marks(maxReg, outs, pos), RegisterOverflow(pos))
      else Scanned(Marks(maxReg, outs, pos))
    else
      match DecodeAt(code, pos)
      case Bad(fault) => Stopped(Marks(maxReg, outs, pos), fault)
      case Item(width, operands, o) => ScanFrom(code, pos + width, Max(maxReg, Top(operands)), Max(outs, o))
  }

  function Scan(code: seq<byte>): ScanResult {
    if |code| % 2 != 0 then Stopped(InsnScan(0, 0, 0), OddLength(|code|)) else ScanFrom(code, 0, 0, 0)
  }

  // ----- the walk is exact -----

  /** `starts` cuts the units from `starts[0]` to the end of the stream into
      consecutive defined instructions and payloads. */
  ghost predicate Tiles(code: seq<byte>, starts: seq<nat>) {
    && |starts| > 0
    && starts[|starts| - 1] == Units(code)
    && forall k :: 0 <= k < |starts| - 1 ==> TileAt(code, starts, k)
  }

  /** `Tiles`, from the first unit on. */
  ghost predicate TilesWhole(code: seq<byte>, starts: seq<nat>) {
    Tiles(code, starts) && starts[0] == 0
  }

  ghost predicate TileAt(code: seq<byte>, starts: seq<nat>, k: nat)
    requires k + 1 < |starts|
  {
    && starts[k] < Units(code)
    && DecodeAt(code, starts[k]).Item?
    && starts[k + 1] == starts[k] + DecodeAt(code, starts[k]).width
  }

  ghost predicate Names(o: Operand, reg: nat) {
    reg == o.reg || (o.wide && reg == o.reg + 1)
  }

  ghost predicate OperandsName(operands: seq<Operand>, reg: nat) {
    exists j :: 0 <= j < |operands| && Names(operands[j], reg)
  }

  /** Some tile of the cut names `reg`, as itself or as the high half of a pair. */
  ghost predicate CutNames(code: seq<byte>, starts: seq<nat>, reg: nat) {
    exists k :: 0 <= k < |starts| - 1 && starts[k] < Units(code) && DecodeAt(code, starts[k]).Item?
                && OperandsName(DecodeAt(code, starts[k]).operands, reg)
  }

  /** Some tile of the cut passes `n` outgoing words. */
  ghost predicate CutPasses(code: seq<byte>, starts: seq<nat>, n: nat) {
    exists k :: 0 <= k < |starts| - 1 && starts[k] < Units(code) && DecodeAt(code, starts[k]).Item?
                && DecodeAt(code, starts[k]).outs == n
  }

  lemma {:induction false} TopIsLeastBound(operands: seq<Operand>)
    ensures forall reg: nat :: OperandsName(operands, reg) ==> reg < Top(operands)
    ensures Top(operands) > 0 ==> OperandsName(operands, Top(operands) - 1)
    decreases |operands|
  {
    if operands != [] {
      var init := operands[..|operands| - 1];
      var last := operands[|operands| - 1];
      TopIsLeastBound(init);
      forall reg: nat | OperandsName(operands, reg)
        ensures reg < Top(operands)
      {
        var j :| 0 <= j < |operands| && Names(operands[j], reg);
        if j < |init| {
          assert Names(init[j], reg);
          assert OperandsName(init, reg);
        }
      }
      var top := Top(operands) - 1;
      if TopOf(last) - 1 == top {
        assert Names(last, top);
      } else {
        var j :| 0 <= j < |init| && Names(init[j], top);
        assert Names(operands[j], top);
      }
    }
  }

  /** The cut the walk follows. */
  ghost function Cut(code: seq<byte>, pos: nat): (starts: seq<nat>)
    requires pos <= Units(code)
    ensures |starts| > 0 && starts[0] == pos
    decreases Units(code) - pos
  {
    if pos < Units(code) && DecodeAt(code, pos).Item?
    then [pos] + Cut(code, pos + DecodeAt(code, pos).width)
    else [pos]
  }

  lemma {:induction false} CutIsOnlyTiling(code: seq<byte>, starts: seq<nat>)
    requires Tiles(code, starts) && starts[0] <= Units(code)
    ensures starts == Cut(code, starts[0])
    decreases |starts|
  {
    hide DecodeAt;
    if |starts| > 1 {
      assert TileAt(code, starts, 0);
      var rest := starts[1..];
      forall k | 0 <= k < |rest| - 1 ensures TileAt(code, rest, k) {
        assert TileAt(code, starts, k + 1);
      }
      CutIsOnlyTiling(code, rest);
    }
  }

  /** High-water marks over a cut, starting from given ones. */
  ghost function RegMark(code: seq<byte>, pos: nat, maxReg: nat): (m: nat)
    requires pos <= Units(code)
    ensures m >= maxReg
    decreases Units(code) - pos
  {
    if pos < Units(code) && DecodeAt(code, pos).Item?
    then RegMark(code, pos + DecodeAt(code, pos).width, Max(maxReg, Top(DecodeAt(code, pos).operands)))
    else maxReg
  }

  ghost function OutsMark(code: seq<byte>, pos: nat, outs: nat): (m: nat)
    requires pos <= Units(code)
    ensures m >= outs
    decreases Units(code) - pos
  {
    if pos < Units(code) && DecodeAt(code, pos).Item?
    then OutsMark(code, pos + DecodeAt(code, pos).width, Max(outs, DecodeAt(code, pos).outs))
    else outs
  }

  /** Where the walk from `pos` comes to rest: the end, or a bad position. */
  ghost function Stop(code: seq<byte>, pos: nat): (p: nat)
    requires pos <= Units(code)
    ensures pos <= p <= Units(code)
    ensures p < Units(code) ==> DecodeAt(code, p).Bad?
    decreases Units(code) - pos
  {
    if pos < Units(code) && DecodeAt(code, pos).Item?
    then Stop(code, pos + DecodeAt(code, pos).width)
    else pos
  }

  /** The walk in closed form: it reports the marks of the clean prefix and
      stops at the first bad position, or at the end. */
  lemma {:induction false} ScanFromClosed(code: seq<byte>, pos: nat, maxReg: nat, outs: nat)
    requires pos <= Units(code)
    ensures
      var p := Stop(code, pos);
      var marks := Marks(RegMark(code, pos, maxReg), OutsMark(code, pos, outs), p);
      ScanFrom(code, pos, maxReg, outs) ==
        if p < Units(code) then Stopped(marks, DecodeAt(code, p).fault)
        else if RegMark(code, pos, maxReg) > U16_MAX then Stopped(marks, RegisterOverflow(p))
        else Scanned(marks)
    decreases Units(code) - pos
  {
    hide DecodeAt, Marks, Top;
    if pos < Units(code) {
      match DecodeAt(code, pos)
      case Bad(_) =>
      case Item(width, operands, o) =>
        ScanFromClosed(code, pos + width, Max(maxReg, Top(operands)), Max(outs, o));
    }
  }

  lemma {:induction false} CutTilesToStop(code: seq<byte>, pos: nat)
    requires pos <= Units(code)
    ensures var cut := Cut(code, pos); cut[|cut| - 1] == Stop(code, pos)
    ensures var cut := Cut(code, pos); forall k :: 0 <= k < |cut| - 1 ==> TileAt(code, cut, k)
    decreases Units(code) - pos
  {
    hide DecodeAt;
    if pos < Units(code) && DecodeAt(code, pos).Item? {
      var next := pos + DecodeAt(code, pos).width;
      CutTilesToStop(code, next);
      var cut := Cut(code, pos);
      var rest := Cut(code, next);
      forall k | 0 <= k < |cut| - 1 ensures TileAt(code, cut, k) {
        if k > 0 {
          assert TileAt(code, rest, k - 1);
        }
      }
    }
  }

  /** The register mark is the least bound above every register of the cut and
      the mark it started from. */
  lemma {:induction false} RegMarkIsLeastBound(code: seq<byte>, pos: nat, maxReg: nat)
    requires pos <= Units(code)
    ensures forall reg: nat :: CutNames(code, Cut(code, pos), reg) ==> reg < RegMark(code, pos, maxReg)
    ensures RegMark(code, pos, maxReg) == maxReg || CutNames(code, Cut(code, pos), RegMark(code, pos, maxReg) - 1)
    decreases Units(code) - pos
  {
    hide DecodeAt, Top, OperandsName;
    if pos < Units(code) && DecodeAt(code, pos).Item? {
      var item := DecodeAt(code, pos);
      var next := pos + item.width;
      var m := Max(maxReg, Top(item.operands));
      TopIsLeastBound(item.operands);
      RegMarkIsLeastBound(code, next, m);
      var cut := Cut(code, pos);
      var rest := Cut(code, next);
      assert cut[0] == pos && cut[1..] == rest;
      forall reg: nat | CutNames(code, cut, reg)
        ensures reg < RegMark(code, pos, maxReg)
      {
        var k :| 0 <= k < |cut| - 1 && cut[k] < Units(code) && DecodeAt(code, cut[k]).Item?
                 && OperandsName(DecodeAt(code, cut[k]).operands, reg);
        if k > 0 {
          assert rest[k - 1] == cut[k];
          assert CutNames(code, rest, reg);
        }
      }
      var top := RegMark(code, pos, maxReg);
      if top != m {
        var k :| 0 <= k < |rest| - 1 && rest[k] < Units(code) && DecodeAt(code, rest[k]).Item?
                 && OperandsName(DecodeAt(code, rest[k]).operands, top - 1);
        assert cut[k + 1] == rest[k];
      } else if m != maxReg {
        assert OperandsName(DecodeAt(code, cut[0]).operands, top - 1);
      }
    }
  }

  lemma {:induction false} OutsMarkIsMaximum(code: seq<byte>, pos: nat, outs: nat)
    requires pos <= Units(code)
    ensures forall n: nat :: CutPasses(code, Cut(code, pos), n) ==> n <= OutsMark(code, pos, outs)
    ensures OutsMark(code, pos, outs) == outs || CutPasses(code, Cut(code, pos), OutsMark(code, pos, outs))
    decreases Units(code) - pos
  {
    hide DecodeAt;
    if pos < Units(code) && DecodeAt(code, pos).Item? {
      var item := DecodeAt(code, pos);
      var next := pos + item.width;
      OutsMarkIsMaximum(code, next, Max(outs, item.outs));
      var cut := Cut(code, pos);
      var rest := Cut(code, next);
      assert cut[0] == pos && cut[1..] == rest;
      forall n: nat | CutPasses(code, cut, n)
        ensures n <= OutsMark(code, pos, outs)
      {
        var k :| 0 <= k < |cut| - 1 && cut[k] < Units(code) && DecodeAt(code, cut[k]).Item?
                 && DecodeAt(code, cut[k]).outs == n;
        if k > 0 {
          assert rest[k - 1] == cut[k];
          assert CutPasses(code, rest, n);
        }
      }
      var top := OutsMark(code, pos, outs);
      if top != Max(outs, item.outs) {
        var k :| 0 <= k < |rest| - 1 && rest[k] < Units(code) && DecodeAt(code, rest[k]).Item?
                 && DecodeAt(code, rest[k]).outs == top;
        assert cut[k + 1] == rest[k];
      } else if top != outs {
        assert DecodeAt(code, cut[0]).outs == top;
      }
    }
  }

  lemma OutsFitAByte(code: seq<byte>, pos: nat)
    requires pos < Units(code) && DecodeAt(code, pos).Item?
    ensures DecodeAt(code, pos).outs <= 0xff
  {
    hide FormatOf, OperandsAt, PayloadAt;
  }

  lemma {:induction false} OutsMarkFits(code: seq<byte>, pos: nat, outs: nat)
    requires pos <= Units(code) && outs <= 0xff
    ensures OutsMark(code, pos, outs) <= 0xff
    decreases Units(code) - pos
  {
    hide DecodeAt;
    if pos < Units(code) && DecodeAt(code, pos).Item? {
      OutsFitAByte(code, pos);
      OutsMarkFits(code, pos + DecodeAt(code, pos).width, Max(outs, DecodeAt(code, pos).outs));
    }
  }

  /** Exactly which streams scan, and exactly what is reported for them. A
      stream is accepted if and only if it is whole code units that tile into
      defined items whose registers leave room for a 16-bit window. */
  lemma ScanExact(code: seq<byte>)
    ensures Scan(code).Scanned? <==>
            && |code| % 2 == 0
            && exists starts :: TilesWhole(code, starts)
                             && forall reg: nat :: CutNames(code, starts, reg) ==> reg < U16_MAX
    ensures Scan(code).Scanned? ==>
              var scan := Scan(code).scan;
              forall starts :: TilesWhole(code, starts) ==>
                && scan.unitsWalked == Units(code)
                && (forall reg: nat :: CutNames(code, starts, reg) ==> reg < scan.registersUsed)
                && (scan.registersUsed > 0 ==> CutNames(code, starts, scan.registersUsed - 1))
                && (forall n: nat :: CutPasses(code, starts, n) ==> n <= scan.outsSize)
                && (scan.outsSize > 0 ==> CutPasses(code, starts, scan.outsSize))
  {
    hide DecodeAt, Tiles, CutNames, CutPasses, Cut, Stop, RegMark, OutsMark, ScanFrom;
    ScanFromClosed(code, 0, 0, 0);
    RegMarkIsLeastBound(code, 0, 0);
    OutsMarkIsMaximum(code, 0, 0);
    OutsMarkFits(code, 0, 0);
    CutReachesEndIffTiles(code);
    forall starts | TilesWhole(code, starts)
      ensures starts == Cut(code, 0)
    {
      CutIsOnlyTiling(code, starts);
    }
    assert Tiles(code, Cut(code, 0)) ==> TilesWhole(code, Cut(code, 0));
  }

  lemma CutReachesEndIffTiles(code: seq<byte>)
    ensures Tiles(code, Cut(code, 0)) <==> Stop(code, 0) == Units(code)
  {
    hide DecodeAt, Cut, Stop, TileAt;
    CutTilesToStop(code, 0);
  }

  // ----- the walk composes -----

  function ShiftFault(fault: Fault, shift: nat): Fault {
    match fault
    case OddLength(len) => OddLength(len)
    case UnknownOpcode(op, pos) => UnknownOpcode(op, pos + shift)
    case Truncated(pos) => Truncated(pos + shift)
    case UnknownPayload(ident, pos) => UnknownPayload(ident, pos + shift)
    case BadArgCount(pos, count) => BadArgCount(pos + shift, count)
    case RegisterOverflow(pos) => RegisterOverflow(pos + shift)
  }

  function ShiftDecoded(d: Decoded, shift: nat): Decoded {
    match d
    case Item(_, _, _) => d
    case Bad(fault) => Bad(ShiftFault(fault, shift))
  }

  function ShiftScan(scan: InsnScan, shift: nat): InsnScan {
    InsnScan(scan.registersUsed, scan.outsSize, scan.unitsWalked + shift)
  }

  function ShiftResult(r: ScanResult, shift: nat): ScanResult {
    match r
    case Scanned(scan) => Scanned(ShiftScan(scan, shift))
    case Stopped(scan, fault) => Stopped(ShiftScan(scan, shift), ShiftFault(fault, shift))
  }

  lemma UnitOfJoin(a: seq<byte>, b: seq<byte>, i: nat)
    requires |a| % 2 == 0 && i < Units(a + b)
    ensures Units(a + b) == Units(a) + Units(b)
    ensures i < Units(a) ==> Unit(a + b, i) == Unit(a, i)
    ensures i >= Units(a) ==> Unit(a + b, i) == Unit(b, i - Units(a))
  {
  }

  /** `x` shows the units of `y` from `shift` on, as far as `upto`. */
  ghost predicate ShowsUnits(x: seq<byte>, y: seq<byte>, shift: nat, upto: nat) {
    && upto <= Units(y) && shift + upto <= Units(x)
    && forall i :: 0 <= i < upto ==> Unit(x, shift + i) == Unit(y, i)
  }

  lemma OperandsShow(x: seq<byte>, y: seq<byte>, shift: nat, pos: nat, layout: Operands, wide: Wide, width: nat)
    requires ShowsUnits(x, y, shift, pos + width) && width > 0
    requires layout in {ByteAUnitB, ByteABytesBc, ByteAByteB} ==> 2 <= width
    requires layout in {UnitAUnitB, Args35c, Args3rc} ==> 3 <= width
    requires layout == Args35c ==> HighByte(Unit(y, pos)) / 0x10 <= 5
    ensures Unit(x, shift + pos) == Unit(y, pos)
    ensures OperandsAt(x, shift + pos, layout, wide) == OperandsAt(y, pos, layout, wide)
  {
    hide Unit, Units;
    assert Unit(x, shift + pos) == Unit(y, pos);
    if width > 1 {
      assert Unit(x, shift + (pos + 1)) == Unit(y, pos + 1);
    }
    if width > 2 {
      assert Unit(x, shift + (pos + 2)) == Unit(y, pos + 2);
    }
  }

  /** An item decodes alike in a stream that shows its units and has room for
      more, wherever they stand there. */
  lemma ItemShows(x: seq<byte>, y: seq<byte>, shift: nat, pos: nat)
    requires pos < Units(y) && DecodeAt(y, pos).Item?
    requires ShowsUnits(x, y, shift, Units(y))
    ensures shift + pos < Units(x)
    ensures DecodeAt(x, shift + pos) == DecodeAt(y, pos)
  {
    hide FormatOf, WideSlots, OperandsAt, Unit, Units, PayloadWidth;
    assert Unit(x, shift + pos) == Unit(y, pos);
    if LowByte(Unit(y, pos)) == 0 && Unit(y, pos) != 0 {
      PayloadShows(x, y, shift, pos);
    } else {
      InstructionShows(x, y, shift, pos);
    }
  }

  lemma PayloadWidthShows(x: seq<byte>, y: seq<byte>, shift: nat, pos: nat, ident: u16)
    requires ident in {0x0100, 0x0200, 0x0300}
    requires pos + (if ident == 0x0300 then 4 else 2) <= Units(y)
    requires ShowsUnits(x, y, shift, Units(y))
    ensures PayloadWidth(x, shift + pos, ident) == PayloadWidth(y, pos, ident)
  {
    hide Unit, Units, DivCeil2;
    assert Unit(x, shift + (pos + 1)) == Unit(y, pos + 1);
    if ident == 0x0300 {
      assert Unit(x, shift + (pos + 2)) == Unit(y, pos + 2);
      assert Unit(x, shift + (pos + 3)) == Unit(y, pos + 3);
    }
  }

  lemma PayloadShows(x: seq<byte>, y: seq<byte>, shift: nat, pos: nat)
    requires pos < Units(y)
    requires ShowsUnits(x, y, shift, Units(y))
    ensures shift + pos < Units(x)
    ensures PayloadAt(y, pos).Item? ==> PayloadAt(x, shift + pos) == PayloadAt(y, pos)
    ensures Units(x) == shift + Units(y) ==> PayloadAt(x, shift + pos) == ShiftDecoded(PayloadAt(y, pos), shift)
  {
    hide Unit, Units, PayloadWidth;
    assert Unit(x, shift + pos) == Unit(y, pos);
    var ident := Unit(y, pos);
    if ident in {0x0100, 0x0200, 0x0300} && pos + (if ident == 0x0300 then 4 else 2) <= Units(y) {
      PayloadWidthShows(x, y, shift, pos, ident);
    }
  }

  lemma InstructionShows(x: seq<byte>, y: seq<byte>, shift: nat, pos: nat)
    requires pos < Units(y)
    requires ShowsUnits(x, y, shift, Units(y))
    ensures shift + pos < Units(x)
    ensures InstructionAt(y, pos).Item? ==> InstructionAt(x, shift + pos) == InstructionAt(y, pos)
    ensures Units(x) == shift + Units(y) ==>
              InstructionAt(x, shift + pos) == ShiftDecoded(InstructionAt(y, pos), shift)
  {
    hide FormatOf, WideSlots, OperandsAt, Unit, Units;
    assert Unit(x, shift + pos) == Unit(y, pos);
    match FormatOf(LowByte(Unit(y, pos)))
    case None =>
    case Some(Format(width, layout)) =>
      if width <= Units(y) - pos {
        if width > 2 {
          assert Unit(x, shift + (pos + 2)) == Unit(y, pos + 2);
        }
        if layout != Args35c || HighByte(Unit(y, pos)) / 0x10 <= 5 {
          OperandsShow(x, y, shift, pos, layout, WideSlots(LowByte(Unit(y, pos))), width);
        }
      }
  }

  lemma JoinShows(a: seq<byte>, b: seq<byte>)
    requires |a| % 2 == 0 && |b| % 2 == 0
    ensures Units(a + b) == Units(a) + Units(b)
    ensures ShowsUnits(a + b, a, 0, Units(a))
    ensures ShowsUnits(a + b, b, Units(a), Units(b))
  {
    forall i | 0 <= i < Units(a) ensures Unit(a + b, 0 + i) == Unit(a, i) {
      UnitOfJoin(a, b, i);
    }
    forall i | 0 <= i < Units(b) ensures Unit(a + b, Units(a) + i) == Unit(b, i) {
      UnitOfJoin(a, b, Units(a) + i);
    }
  }

  /** A clean prefix is walked as if nothing followed it. */
  lemma {:induction false} ScanPrefix(a: seq<byte>, x: seq<byte>, pos: nat, maxReg: nat, outs: nat)
    requires ShowsUnits(x, a, 0, Units(a)) && pos <= Units(a)
    requires Stop(a, pos) == Units(a)
    ensures ScanFrom(x, pos, maxReg, outs)
            == ScanFrom(x, Units(a), RegMark(a, pos, maxReg), OutsMark(a, pos, outs))
    decreases Units(a) - pos
  {
    hide DecodeAt, Top, Unit, Units;
    if pos < Units(a) {
      ItemShows(x, a, 0, pos);
      var item := DecodeAt(a, pos);
      ScanPrefix(a, x, pos + item.width, Max(maxReg, Top(item.operands)), Max(outs, item.outs));
    }
  }

  lemma DecodeShows(x: seq<byte>, y: seq<byte>, shift: nat, pos: nat)
    requires pos < Units(y) && Units(x) == shift + Units(y)
    requires ShowsUnits(x, y, shift, Units(y))
    ensures DecodeAt(x, shift + pos) == ShiftDecoded(DecodeAt(y, pos), shift)
  {
    hide InstructionAt, PayloadAt, Units, Unit;
    PayloadShows(x, y, shift, pos);
    InstructionShows(x, y, shift, pos);
    assert Unit(x, shift + pos) == Unit(y, pos);
  }

  lemma {:induction false} ScanSuffix(x: seq<byte>, b: seq<byte>, shift: nat, pos: nat, maxReg: nat, outs: nat)
    requires ShowsUnits(x, b, shift, Units(b)) && Units(x) == shift + Units(b)
    requires pos <= Units(b)
    ensures ScanFrom(x, shift + pos, maxReg, outs) == ShiftResult(ScanFrom(b, pos, maxReg, outs), shift)
    decreases Units(b) - pos
  {
    hide DecodeAt, Top, Unit, Units;
    if pos < Units(b) {
      DecodeShows(x, b, shift, pos);
      match DecodeAt(b, pos)
      case Bad(_) =>
      case Item(width, operands, o) =>
        ScanSuffix(x, b, shift, pos + width, Max(maxReg, Top(operands)), Max(outs, o));
    }
  }

  /** Marks brought in from before a walk only ever raise what it reports. */
  lemma {:induction false} MarksCarry(b: seq<byte>, pos: nat, m: nat, o: nat, m': nat, o': nat)
    requires pos <= Units(b)
    ensures RegMark(b, pos, Max(m, m')) == Max(m, RegMark(b, pos, m'))
    ensures OutsMark(b, pos, Max(o, o')) == Max(o, OutsMark(b, pos, o'))
    decreases Units(b) - pos
  {
    hide DecodeAt, Top;
    if pos < Units(b) && DecodeAt(b, pos).Item? {
      var item := DecodeAt(b, pos);
      MarksCarry(b, pos + item.width, m, o, Max(m', Top(item.operands)), Max(o', item.outs));
      assert Max(Max(m, m'), Top(item.operands)) == Max(m, Max(m', Top(item.operands)));
      assert Max(Max(o, o'), item.outs) == Max(o, Max(o', item.outs));
    }
  }

  /** The marks of two scans side by side. */
  function JoinScans(s: InsnScan, t: InsnScan): InsnScan {
    InsnScan(Max(s.registersUsed, t.registersUsed), Max(s.outsSize, t.outsSize), s.unitsWalked + t.unitsWalked)
  }

  /** After a stream that scans, any further code units scan or fail as they
      would alone: marks join, positions shift by the length of the first. */
  lemma ScanComposes(a: seq<byte>, b: seq<byte>)
    requires |b| % 2 == 0 && Scan(a).Scanned?
    ensures Scan(a + b) ==
            match Scan(b)
            case Scanned(t) => Scanned(JoinScans(Scan(a).scan, t))
            case Stopped(t, fault) => Stopped(JoinScans(Scan(a).scan, t), ShiftFault(fault, Units(a)))
  {
    hide ScanFrom, Stop, RegMark, OutsMark, ShowsUnits, DecodeAt, Units;
    JoinShows(a, b);
    ScanFromClosed(a, 0, 0, 0);
    var m, o := RegMark(a, 0, 0), OutsMark(a, 0, 0);
    OutsMarkFits(a, 0, 0);
    OutsMarkFits(b, 0, 0);
    ScanPrefix(a, a + b, 0, 0, 0);
    ScanSuffix(a + b, b, Units(a), 0, m, o);
    ScanFromClosed(b, 0, m, o);
    ScanFromClosed(b, 0, 0, 0);
    MarksCarry(b, 0, m, o, 0, 0);
    assert Max(m, 0) == m && Max(o, 0) == o;
  }

  // ----- the loop -----

  lemma TopOfTwo(o: Operand, p: Operand)
    ensures Top([o]) == TopOf(o)
    ensures Top([o, p]) == Max(TopOf(o), TopOf(p))
  {
    assert [o][..0] == [];
    assert [o, p][..1] == [o];
  }

  lemma TopOfThree(o: Operand, p: Operand, q: Operand)
    ensures Top([o, p, q]) == Max(Max(TopOf(o), TopOf(p)), TopOf(q))
  {
    assert [o, p, q][..2] == [o, p];
    TopOfTwo(o, p);
  }

  lemma {:induction false} TopOfRange(first: nat, count: nat)
    ensures Top(Range(first, count)) == if count == 0 then 0 else first + count
    decreases count
  {
    if count > 0 {
      assert Range(first, count)[..count - 1] == Range(first, count - 1);
      TopOfRange(first, count - 1);
    }
  }

  /** Raises `maxReg` over every register an instruction names; of a range only
      its last register is looked at. */
  method NoteOperands(code: seq<byte>, pos: nat, layout: Operands, wide: Wide, maxReg: nat) returns (top: nat)
    requires pos < Units(code)
    requires layout in {ByteAUnitB, ByteABytesBc, ByteAByteB} ==> pos + 2 <= Units(code)
    requires layout in {UnitAUnitB, Args35c, Args3rc} ==> pos + 3 <= Units(code)
    requires layout == Args35c ==> HighByte(Unit(code, pos)) / 0x10 <= 5
    ensures top == Max(maxReg, Top(OperandsAt(code, pos, layout, wide)))
  {
    hide Top, Unit, Range, ArgRegs;
    var byte1: int := HighByte(Unit(code, pos));
    ghost var operands := OperandsAt(code, pos, layout, wide);
    top := maxReg;
    match layout
    case NoRegs =>
      TopOfNone();
    case NibbleAb =>
      top := NoteTwo(top, Operand(byte1 % 0x10, wide.a), Operand(byte1 / 0x10, wide.b));
    case NibbleA =>
      top := NoteOne(top, Operand(byte1 % 0x10, wide.a));
    case ByteA =>
      top := NoteOne(top, Operand(byte1, wide.a));
    case ByteAUnitB =>
      top := NoteTwo(top, Operand(byte1, wide.a), Operand(Unit(code, pos + 1), wide.b));
    case ByteABytesBc =>
      TopOfThree(operands[0], operands[1], operands[2]);
      top := NoteOne(top, Operand(byte1, wide.a));
      top := NoteOne(top, Operand(LowByte(Unit(code, pos + 1)), wide.b));
      top := NoteOne(top, Operand(HighByte(Unit(code, pos + 1)), wide.c));
    case ByteAByteB =>
      top := NoteTwo(top, Operand(byte1, wide.a), Operand(LowByte(Unit(code, pos + 1)), wide.b));
    case UnitAUnitB =>
      top := NoteTwo(top, Operand(Unit(code, pos + 1), wide.a), Operand(Unit(code, pos + 2), wide.b));
    case Args35c =>
      top := NoteArgs(top, ArgRegs(byte1, Unit(code, pos + 2)), byte1 / 0x10);
    case Args3rc =>
      TopOfRange(Unit(code, pos + 2), byte1);
      if byte1 > 0 {
        top := Max(top, Unit(code, pos + 2) + byte1);
      }
  }

  lemma TopOfNone()
    ensures Top([]) == 0
  {
  }

  method NoteOne(maxReg: nat, o: Operand) returns (top: nat)
    ensures top == Max(maxReg, TopOf(o)) == Max(maxReg, Top([o]))
  {
    TopOfTwo(o, o);
    top := maxReg;
    if TopOf(o) > top {
      top := TopOf(o);
    }
  }

  method NoteTwo(maxReg: nat, o: Operand, p: Operand) returns (top: nat)
    ensures top == Max(maxReg, Top([o, p]))
  {
    TopOfTwo(o, p);
    top := NoteOne(maxReg, o);
    top := NoteOne(top, p);
  }

  method NoteArgs(maxReg: nat, args: seq<Operand>, count: nat) returns (top: nat)
    requires count <= |args|
    ensures top == Max(maxReg, Top(args[..count]))
  {
    top := maxReg;
    for i := 0 to count
      invariant top == Max(maxReg, Top(args[..i]))
    {
      assert args[..i + 1][..i] == args[..i];
      top := NoteOne(top, args[i]);
    }
  }

  /** One turn of the walk. */
  lemma ScanStep(code: seq<byte>, pos: nat, maxReg: nat, outs: nat)
    requires pos < Units(code)
    ensures ScanFrom(code, pos, maxReg, outs) ==
            match DecodeAt(code, pos)
            case Bad(fault) => Stopped(Marks(maxReg, outs, pos), fault)
            case Item(width, operands, o) => ScanFrom(code, pos + width, Max(maxReg, Top(operands)), Max(outs, o))
  {
    hide DecodeAt, Marks, Top;
  }

  lemma ScanEnd(code: seq<byte>, maxReg: nat, outs: nat)
    ensures ScanFrom(code, Units(code), maxReg, outs) ==
            var marks := Marks(maxReg, outs, Units(code));
            if maxReg > U16_MAX then Stopped(marks, RegisterOverflow(Units(code))) else Scanned(marks)
  {
  }

  /** `scan_insns`. */
  method ScanInsns(code: seq<byte>) returns (r: ScanResult)
    ensures r == Scan(code)
  {
    hide FormatOf, WideSlots, OperandsAt, Top, Unit, Marks, ScanFrom, PayloadAt;
    var units := Units(code);
    if units * 2 != |code| {
      return Stopped(InsnScan(0, 0, 0), OddLength(|code|));
    }
    var maxReg: nat, outs: nat, pos: nat := 0, 0, 0;
    while pos < units
      invariant pos <= units
      invariant ScanFrom(code, pos, maxReg, outs) == Scan(code)
      decreases units - pos
    {
      ScanStep(code, pos, maxReg, outs);
      var unit0 := Unit(code, pos);
      var op := LowByte(unit0);
      if op == 0 && unit0 != 0 {
        match PayloadAt(code, pos) {
          case Bad(fault) =>
            return Stopped(Marks(maxReg, outs, pos), fault);
          case Item(width, operands, _) =>
            TopOfNone();
            pos := pos + width;
        }
      } else {
        var format := FormatOf(op);
        if format.None? {
          return Stopped(Marks(maxReg, outs, pos), UnknownOpcode(op, pos));
        }
        var Format(width, layout) := format.value;
        if units - pos < width {
          return Stopped(Marks(maxReg, outs, pos), Truncated(pos));
        }
        var byte1: int := HighByte(unit0);
        if layout == Args35c && byte1 / 0x10 > 5 {
          return Stopped(Marks(maxReg, outs, pos), BadArgCount(pos, byte1 / 0x10));
        }
        if layout == Args3rc && byte1 > 0 && Unit(code, pos + 2) + byte1 - 1 > U16_MAX {
          return Stopped(Marks(maxReg, outs, pos), RegisterOverflow(pos));
        }
        maxReg := NoteOperands(code, pos, layout, WideSlots(op), maxReg);
        if layout == Args35c {
          outs := Max(outs, byte1 / 0x10);
        } else if layout == Args3rc {
          outs := Max(outs, byte1);
        }
        pos := pos + width;
      }
    }
    ScanEnd(code, maxReg, outs);
    if maxReg > U16_MAX {
      return Stopped(Marks(maxReg, outs, pos), RegisterOverflow(pos));
    }
    return Scanned(Marks(maxReg, outs, pos));
  }
}
