/**
  LEB128 integers as the DEX format stores them: little-endian groups of seven
  bits, at most five bytes, the high bit marking continuation.
 */
module Leb128 {
  import opened Bytes

  // ----- what an encoding denotes -----

  /** The number denoted by the groups at `pos` and the position after them;
      nothing when the data ends or `budget` bytes pass without a last group. */
  function Groups(data: seq<byte>, pos: nat, budget: nat): (r: Option<(nat, nat)>)
    ensures r.Some? ==> pos < r.value.1 <= |data| && r.value.1 <= pos + budget
    decreases budget
  {
    if pos >= |data| || budget == 0 then None
    else
      var b: int := data[pos];
      if b < 0x80 then Some((b, pos + 1))
      else
        match Groups(data, pos + 1, budget - 1)
        case None => None
        case Some((high, next)) => Some((b - 0x80 + 0x80 * high, next))
  }

  /** A five-group number keeps only its low 32 bits. */
  function ReadUleb128(data: seq<byte>, pos: nat): (r: Result<(u32, nat)>)
    ensures r.Ok? ==> pos < r.value.1 <= |data|
  {
    match Groups(data, pos, 5)
    case None => Err(InvalidUleb128)
    case Some((value, next)) => Ok((Wrap32(value), next))
  }

  /** The signed number denoted by the groups at `pos`: bit six of the last
      group carries the sign. */
  function SignedGroups(data: seq<byte>, pos: nat, budget: nat): (r: Option<(int, nat)>)
    ensures r.Some? ==> pos < r.value.1 <= |data| && r.value.1 <= pos + budget
    decreases budget
  {
    if pos >= |data| || budget == 0 then None
    else
      var b: int := data[pos];
      if b < 0x40 then Some((b, pos + 1))
      else if b < 0x80 then Some((b - 0x80, pos + 1))
      else
        match SignedGroups(data, pos + 1, budget - 1)
        case None => None
        case Some((high, next)) => Some((b - 0x80 + 0x80 * high, next))
  }

  /** Five groups carry 35 bits; a value outside `i32` is refused. */
  function ReadSleb128(data: seq<byte>, pos: nat): (r: Result<(int, nat)>)
    ensures r.Ok? ==> pos < r.value.1 <= |data|
  {
    match SignedGroups(data, pos, 5)
    case None => Err(InvalidSleb128)
    case Some((value, next)) =>
      if -0x8000_0000 <= value < 0x8000_0000 then Ok((value, next)) else Err(InvalidSleb128)
  }

  /** The shortest encoding of `value`. */
  function EncodeUleb(value: nat): (s: seq<byte>)
    ensures |s| > 0
  {
    if value < 0x80 then [value] else [value % 0x80 + 0x80] + EncodeUleb(value / 0x80)
  }

  // ----- readers are local -----

  lemma {:induction false} GroupsLocal(b: seq<byte>, pos: nat, budget: nat, c: seq<byte>, at: nat)
    requires Groups(b, pos, budget).Some?
    requires Holds(c, at, b[pos..Groups(b, pos, budget).value.1])
    ensures Groups(c, at, budget)
            == Some((Groups(b, pos, budget).value.0, at + Groups(b, pos, budget).value.1 - pos))
    decreases budget
  {
    var next := Groups(b, pos, budget).value.1;
    assert c[at] == c[at..at + (next - pos)][0] == b[pos];
    if b[pos] >= 0x80 {
      HoldsSlice(c, at, b[pos..next], 1, next - pos);
      assert b[pos..next][1..next - pos] == b[pos + 1..next];
      GroupsLocal(b, pos + 1, budget - 1, c, at + 1);
    }
  }

  lemma {:induction false} SignedGroupsLocal(b: seq<byte>, pos: nat, budget: nat, c: seq<byte>, at: nat)
    requires SignedGroups(b, pos, budget).Some?
    requires Holds(c, at, b[pos..SignedGroups(b, pos, budget).value.1])
    ensures SignedGroups(c, at, budget)
            == Some((SignedGroups(b, pos, budget).value.0, at + SignedGroups(b, pos, budget).value.1 - pos))
    decreases budget
  {
    var next := SignedGroups(b, pos, budget).value.1;
    assert c[at] == c[at..at + (next - pos)][0] == b[pos];
    if b[pos] >= 0x80 {
      HoldsSlice(c, at, b[pos..next], 1, next - pos);
      assert b[pos..next][1..next - pos] == b[pos + 1..next];
      SignedGroupsLocal(b, pos + 1, budget - 1, c, at + 1);
    }
  }

  /** Whatever surrounds a ULEB128, and wherever it stands, it reads the same. */
  lemma ReadUlebLocal(b: seq<byte>, pos: nat, c: seq<byte>, at: nat)
    requires ReadUleb128(b, pos).Ok?
    requires Holds(c, at, b[pos..ReadUleb128(b, pos).value.1])
    ensures ReadUleb128(c, at)
            == Ok((ReadUleb128(b, pos).value.0, at + ReadUleb128(b, pos).value.1 - pos))
  {
    GroupsLocal(b, pos, 5, c, at);
  }

  lemma ReadSlebLocal(b: seq<byte>, pos: nat, c: seq<byte>, at: nat)
    requires ReadSleb128(b, pos).Ok?
    requires Holds(c, at, b[pos..ReadSleb128(b, pos).value.1])
    ensures ReadSleb128(c, at)
            == Ok((ReadSleb128(b, pos).value.0, at + ReadSleb128(b, pos).value.1 - pos))
  {
    SignedGroupsLocal(b, pos, 5, c, at);
  }

  // ----- reading inverts encoding -----

  function Pow128(n: nat): nat {
    if n == 0 then 1 else 0x80 * Pow128(n - 1)
  }

  lemma {:induction false} GroupsOfEncoding(b: seq<byte>, pos: nat, value: nat, budget: nat)
    requires 0 < budget && value < Pow128(budget)
    requires Holds(b, pos, EncodeUleb(value))
    ensures Groups(b, pos, budget) == Some((value, pos + |EncodeUleb(value)|))
    decreases budget
  {
    var code := EncodeUleb(value);
    assert b[pos] == b[pos..pos + |code|][0] == code[0];
    if value >= 0x80 {
      HoldsSplit(b, pos, [value % 0x80 + 0x80], EncodeUleb(value / 0x80));
      GroupsOfEncoding(b, pos + 1, value / 0x80, budget - 1);
    }
  }

  /** Every `u32` reads back from its encoding, which ends exactly where the
      reader stops, anywhere in any buffer. */
  lemma UlebRoundTrip(b: seq<byte>, pos: nat, value: u32)
    requires Holds(b, pos, EncodeUleb(value))
    ensures ReadUleb128(b, pos) == Ok((value, pos + |EncodeUleb(value)|))
  {
    FiveGroups();
    GroupsOfEncoding(b, pos, value, 5);
  }

  /** No encoding of a `u32` is longer than the reader will follow. */
  lemma {:induction false} EncodingLength(value: nat, budget: nat)
    requires value < Pow128(budget)
    ensures |EncodeUleb(value)| <= Max(1, budget)
    decreases budget
  {
    if value >= 0x80 {
      EncodingLength(value / 0x80, budget - 1);
    }
  }

  /** A number of up to 35 bits loses what a `u32` cannot hold. */
  lemma UlebTruncates(b: seq<byte>, pos: nat, value: nat)
    requires value < 0x8_0000_0000 && Holds(b, pos, EncodeUleb(value))
    ensures ReadUleb128(b, pos) == Ok((Wrap32(value), pos + |EncodeUleb(value)|))
  {
    FiveGroups();
    GroupsOfEncoding(b, pos, value, 5);
  }

  /** Nothing reads a number whose fifth group is not its last. */
  lemma UlebStops(b: seq<byte>, pos: nat)
    requires pos + 5 <= |b| && forall i :: pos <= i < pos + 5 ==> b[i] >= 0x80
    ensures ReadUleb128(b, pos).Err? && ReadSleb128(b, pos).Err?
  {
    assert Groups(b, pos + 5, 0) == None && SignedGroups(b, pos + 5, 0) == None;
    assert Groups(b, pos + 4, 1) == None && SignedGroups(b, pos + 4, 1) == None;
    assert Groups(b, pos + 3, 2) == None && SignedGroups(b, pos + 3, 2) == None;
    assert Groups(b, pos + 2, 3) == None && SignedGroups(b, pos + 2, 3) == None;
    assert Groups(b, pos + 1, 4) == None && SignedGroups(b, pos + 1, 4) == None;
  }

  lemma FiveGroups()
    ensures Pow128(5) == 0x8_0000_0000
  {
    assert Pow128(1) == 0x80;
    assert Pow128(2) == 0x80 * 0x80;
    assert Pow128(3) == 0x80 * 0x80 * 0x80;
  }

  // ----- signed numbers -----

  /** The shortest signed encoding: groups of seven bits, least first, until the
      rest is the sign of the last. */
  function EncodeSleb(value: int): (s: seq<byte>)
    ensures |s| > 0
    decreases if value < 0 then -value else value
  {
    if -0x40 <= value < 0x40 then [value % 0x80] else [value % 0x80 + 0x80] + EncodeSleb(value / 0x80)
  }

  /** Half of what `n` groups can denote. */
  function Half(n: nat): nat
    requires n > 0
  {
    if n == 1 then 0x40 else 0x80 * Half(n - 1)
  }

  lemma {:induction false} SignedGroupsOfEncoding(b: seq<byte>, pos: nat, value: int, budget: nat)
    requires budget > 0 && 0 <= value + Half(budget) < 2 * Half(budget)
    requires Holds(b, pos, EncodeSleb(value))
    ensures SignedGroups(b, pos, budget) == Some((value, pos + |EncodeSleb(value)|))
    decreases budget
  {
    var s := EncodeSleb(value);
    assert b[pos] == b[pos..pos + |s|][0] == s[0];
    if !(-0x40 <= value < 0x40) {
      HoldsSplit(b, pos, [value % 0x80 + 0x80], EncodeSleb(value / 0x80));
      SignedGroupsOfEncoding(b, pos + 1, value / 0x80, budget - 1);
    }
  }

  /** Every `i32` reads back from its signed encoding, anywhere in any buffer; a
      number of up to 35 bits outside that range is refused. */
  lemma SlebRoundTrip(b: seq<byte>, pos: nat, value: int)
    requires -0x4_0000_0000 <= value < 0x4_0000_0000 && Holds(b, pos, EncodeSleb(value))
    ensures ReadSleb128(b, pos)
            == if -0x8000_0000 <= value < 0x8000_0000 then Ok((value, pos + |EncodeSleb(value)|)) else Err(InvalidSleb128)
  {
    assert Half(1) == 0x40 && Half(2) == 0x2000;
    assert Half(3) == 0x10_0000;
    assert Half(4) == 0x800_0000;
    SignedGroupsOfEncoding(b, pos, value, 5);
  }

  // ----- any number of groups -----

  type group = x: int | 0 <= x < 0x80

  /** The bytes of a number written in as many groups as `ds` has. */
  function Written(ds: seq<group>): (s: seq<byte>)
    requires ds != []
    ensures |s| == |ds|
  {
    if |ds| == 1 then [ds[0]] else [(ds[0] as int) + 0x80] + Written(ds[1..])
  }

  /** The number the groups stand for, least significant first. */
  function Worth(ds: seq<group>): (n: nat) {
    if ds == [] then 0 else (ds[0] as int) + 0x80 * Worth(ds[1..])
  }

  /** The same with the highest bit of the last group counting negatively. */
  function SignedWorth(ds: seq<group>): int
    requires ds != []
  {
    if ds[|ds| - 1] < 0x40 then Worth(ds) else Worth(ds) - Pow128(|ds|)
  }

  lemma {:induction false} GroupsWritten(b: seq<byte>, pos: nat, ds: seq<group>, budget: nat)
    requires 0 < |ds| <= budget && Holds(b, pos, Written(ds))
    ensures Groups(b, pos, budget) == Some((Worth(ds), pos + |ds|))
    ensures SignedGroups(b, pos, budget) == Some((SignedWorth(ds), pos + |ds|))
    decreases budget
  {
    assert b[pos] == b[pos..pos + |ds|][0];
    if |ds| > 1 {
      HoldsSplit(b, pos, [(ds[0] as int) + 0x80], Written(ds[1..]));
      GroupsWritten(b, pos + 1, ds[1..], budget - 1);
    }
  }

  /** Up to five groups are read, needed or not, for the low 32 bits of what they
      stand for; signed, they must stand for an `i32`. */
  lemma AnyGroupsRead(b: seq<byte>, pos: nat, ds: seq<group>)
    requires 0 < |ds| <= 5 && Holds(b, pos, Written(ds))
    ensures ReadUleb128(b, pos) == Ok((Wrap32(Worth(ds)), pos + |ds|))
    ensures ReadSleb128(b, pos)
            == if -0x8000_0000 <= SignedWorth(ds) < 0x8000_0000 then Ok((SignedWorth(ds), pos + |ds|))
               else Err(InvalidSleb128)
  {
    GroupsWritten(b, pos, ds, 5);
  }

  /** Nothing is read when the bytes end before a last group does. */
  lemma {:induction false} GroupsCut(b: seq<byte>, pos: nat, budget: nat)
    requires forall i :: pos <= i < |b| ==> b[i] >= 0x80
    ensures Groups(b, pos, budget) == None && SignedGroups(b, pos, budget) == None
    decreases budget
  {
    if pos < |b| && budget > 0 {
      GroupsCut(b, pos + 1, budget - 1);
    }
  }

  // ----- the loops -----

  /** What remains to be read, placed above the `value` already read. */
  ghost function Above(value: int, k: nat, rest: Option<(int, nat)>): Option<(int, nat)> {
    match rest
    case None => None
    case Some((high, next)) => Some((value + Scaled(k, high), next))
  }

  function Scaled(k: nat, group: int): (r: int)
    ensures group >= 0 ==> r >= 0
  {
    Pow128(k) * group
  }

  lemma ScaledStep(k: nat, group: int, high: int)
    ensures Scaled(k, group + 0x80 * high) == Scaled(k, group) + Scaled(k + 1, high)
  {
    assert Pow128(k) * (group + 0x80 * high) == Pow128(k) * group + 0x80 * Pow128(k) * high;
  }

  lemma AboveZero(rest: Option<(int, nat)>)
    ensures Above(0, 0, rest) == rest
  {
  }

  /** After five groups nothing more is read. */
  lemma AboveNone(data: seq<byte>, pos: nat, value: int)
    ensures Above(value, 5, Groups(data, pos, 0)) == None
    ensures Above(value, 5, SignedGroups(data, pos, 0)) == None
  {
  }

  lemma GroupsStep(data: seq<byte>, pos: nat, k: nat, value: int)
    requires k < 5
    ensures pos >= |data| ==> Above(value, k, Groups(data, pos, 5 - k)) == None
    ensures pos < |data| && data[pos] < 0x80 ==>
              Above(value, k, Groups(data, pos, 5 - k)) == Some((value + Scaled(k, data[pos]), pos + 1))
    ensures pos < |data| && data[pos] >= 0x80 ==>
              Above(value, k, Groups(data, pos, 5 - k))
              == Above(value + Scaled(k, data[pos] - 0x80), k + 1, Groups(data, pos + 1, 4 - k))
  {
    if pos < |data| && data[pos] >= 0x80 && Groups(data, pos + 1, 4 - k).Some? {
      ScaledStep(k, data[pos] - 0x80, Groups(data, pos + 1, 4 - k).value.0);
    }
  }

  lemma SignedGroupsStep(data: seq<byte>, pos: nat, k: nat, value: int)
    requires k < 5
    ensures pos >= |data| ==> Above(value, k, SignedGroups(data, pos, 5 - k)) == None
    ensures pos < |data| && data[pos] < 0x40 ==>
              Above(value, k, SignedGroups(data, pos, 5 - k)) == Some((value + Scaled(k, data[pos]), pos + 1))
    ensures pos < |data| && 0x40 <= data[pos] < 0x80 ==>
              Above(value, k, SignedGroups(data, pos, 5 - k))
              == Some((value + Scaled(k, data[pos]) - Pow128(k + 1), pos + 1))
    ensures pos < |data| && data[pos] >= 0x80 ==>
              Above(value, k, SignedGroups(data, pos, 5 - k))
              == Above(value + Scaled(k, data[pos] - 0x80), k + 1, SignedGroups(data, pos + 1, 4 - k))
  {
    if pos >= |data| {
      return;
    }
    var b: int := data[pos];
    if b >= 0x80 {
      if SignedGroups(data, pos + 1, 4 - k).Some? {
        ScaledStep(k, b - 0x80, SignedGroups(data, pos + 1, 4 - k).value.0);
      }
    } else if b >= 0x40 {
      ScaledStep(k, b, -1);
    }
  }

  /** `result | (group << 7 * k)` in 32 bits, the bits below being the only ones
      set in `result`. */
  function AddBits(result: u32, group: nat, k: nat): u32 {
    Wrap32(result + Scaled(k, group))
  }

  /** The seven payload bits of a byte. */
  function Payload(b: byte): (g: nat)
    ensures b < 0x80 ==> g == b
    ensures b >= 0x80 ==> g == b - 0x80
  {
    b % 0x80
  }

  lemma ReadUlebOf(data: seq<byte>, start: nat, r: Option<(nat, nat)>)
    requires Groups(data, start, 5) == r
    ensures ReadUleb128(data, start)
            == if r.None? then Err(InvalidUleb128) else Ok((Wrap32(r.value.0), r.value.1))
  {
  }

  lemma ReadSlebOf(data: seq<byte>, start: nat, r: Option<(int, nat)>)
    requires SignedGroups(data, start, 5) == r
    ensures ReadSleb128(data, start)
            == if r.Some? && -0x8000_0000 <= r.value.0 < 0x8000_0000 then Ok(r.value) else Err(InvalidSleb128)
  {
  }

  lemma WrapZero()
    ensures Wrap32(0) == 0
  {
  }

  lemma AddBitsExact(exact: nat, group: nat, k: nat)
    ensures AddBits(Wrap32(exact), group, k) == Wrap32(exact + Scaled(k, group))
  {
    hide Scaled;
    var more := Scaled(k, group);
    assert (exact % 0x1_0000_0000 + more) % 0x1_0000_0000 == (exact + more) % 0x1_0000_0000;
  }

  /** Reads one ULEB128, accumulating seven bits a turn into a 32-bit
      result; `7 * k` is the shift. */
  method TakeUleb(data: seq<byte>, start: nat) returns (r: Result<(u32, nat)>)
    ensures r == ReadUleb128(data, start)
  {
    var pos: nat := start;
    var result: u32 := 0;
    var k := 0;
    ghost var exact: nat := 0;
    hide *;
    WrapZero();
    AboveZero(Groups(data, start, 5));
    while true
      invariant 0 <= k <= 4
      invariant result == Wrap32(exact)
      invariant Groups(data, start, 5) == Above(exact, k, Groups(data, pos, 5 - k))
      decreases 5 - k
    {
      GroupsStep(data, pos, k, exact);
      if pos >= |data| {
        ReadUlebOf(data, start, None);
        return Err(InvalidUleb128);
      }
      var b: int := data[pos];
      var group := Payload(data[pos]);
      pos := pos + 1;
      AddBitsExact(exact, group, k);
      result := AddBits(result, group, k);
      exact := exact + Scaled(k, group);
      if b < 0x80 {
        ReadUlebOf(data, start, Some((exact, pos)));
        return Ok((result, pos));
      }
      k := k + 1;
      if k > 4 {
        AboveNone(data, pos, exact);
        ReadUlebOf(data, start, None);
        return Err(InvalidUleb128);
      }
    }
  }

  /** Reads one SLEB128 into a 64-bit value, then narrows it to `i32`. */
  method TakeSleb(data: seq<byte>, start: nat) returns (r: Result<(int, nat)>)
    ensures r == ReadSleb128(data, start)
  {
    var pos: nat := start;
    var value := 0;
    hide *;
    AboveZero(SignedGroups(data, start, 5));
    for i := 0 to 5
      invariant SignedGroups(data, start, 5) == Above(value, i, SignedGroups(data, pos, 5 - i))
    {
      SignedGroupsStep(data, pos, i, value);
      if pos >= |data| {
        ReadSlebOf(data, start, None);
        return Err(InvalidSleb128);
      }
      var b: int := data[pos];
      var group := Payload(data[pos]);
      pos := pos + 1;
      value := value + Scaled(i, group);
      if b < 0x80 {
        if group >= 0x40 {
          value := value - Pow128(i + 1);
        }
        ReadSlebOf(data, start, Some((value, pos)));
        if -0x8000_0000 <= value < 0x8000_0000 {
          return Ok((value, pos));
        }
        return Err(InvalidSleb128);
      }
    }
    AboveNone(data, pos, value);
    ReadSlebOf(data, start, None);
    return Err(InvalidSleb128);
  }

  /** Appends the encoding of `value`, seven bits a turn. */
  method PushUleb(buf: seq<byte>, value: u32) returns (r: seq<byte>)
    ensures r == buf + EncodeUleb(value)
  {
    r := buf;
    var left: nat := value;
    while true
      invariant r + EncodeUleb(left) == buf + EncodeUleb(value)
      decreases left
    {
      var b := left % 0x80;
      var more := left / 0x80;
      if more == 0 {
        r := r + [b];
        return;
      }
      assert r + EncodeUleb(left) == r + [b + 0x80] + EncodeUleb(more);
      r := r + [b + 0x80];
      left := more;
    }
  }
}
