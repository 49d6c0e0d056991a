/**
  Fixed-width integers, failures, and reading or patching little-endian
  fields of a byte buffer: the vocabulary every other module shares.
 */
module Bytes {

  type byte = x: int | 0 <= x < 0x100
  type u16 = x: int | 0 <= x < 0x1_0000
  type u32 = x: int | 0 <= x < 0x1_0000_0000
  type u64 = x: int | 0 <= x < 0x1_0000_0000_0000_0000

  const U16_MAX: u16 := 0xFFFF
  const U32_MAX: u32 := 0xFFFF_FFFF
  const U64_MAX: u64 := 0xFFFF_FFFF_FFFF_FFFF

  datatype Option<+T> = None | Some(value: T)

  /** Why a reader or a repair step gave up. */
  datatype Error =
    | TooSmall
    | CompactDex
    | InvalidMagic
    | InvalidUleb128
    | InvalidSleb128
    | OutOfBounds
    | InvalidCodeItem
    | InvalidMap
    | InvalidIdTables
    | InvalidCapture
    | TooLarge
    | ValidationFailed
    | NoProgramHeaders
    | NoSegments

  datatype Result<+T> = Ok(value: T) | Err(error: Error) {
    predicate IsFailure() {
      Err?
    }

    function PropagateFailure<U>(): Result<U>
      requires Err?
    {
      Err(error)
    }

    function Extract(): T
      requires Ok?
    {
      value
    }
  }

  function Min(a: int, b: int): int {
    if a <= b then a else b
  }

  function Max(a: int, b: int): int {
    if a >= b then a else b
  }

  /** The low 32 bits of `n`. */
  function Wrap32(n: nat): u32 {
    n % 0x1_0000_0000
  }

  // ----- placement -----

  /** The bytes `s` stand in `b` at offset `pos`. */
  ghost predicate Holds(b: seq<byte>, pos: nat, s: seq<byte>) {
    pos + |s| <= |b| && b[pos..pos + |s|] == s
  }

  lemma HoldsSplit(b: seq<byte>, pos: nat, s: seq<byte>, t: seq<byte>)
    requires Holds(b, pos, s + t)
    ensures Holds(b, pos, s)
    ensures Holds(b, pos + |s|, t)
  {
    var w := b[pos..pos + |s + t|];
    assert w[..|s|] == s && w[|s|..] == t;
    assert b[pos..pos + |s|] == w[..|s|];
    assert b[pos + |s|..pos + |s| + |t|] == w[|s|..];
  }

  /** A slice of what stands at `pos` stands there too, at the matching offset. */
  lemma HoldsSlice(b: seq<byte>, pos: nat, s: seq<byte>, lo: nat, hi: nat)
    requires Holds(b, pos, s)
    requires lo <= hi <= |s|
    ensures Holds(b, pos + lo, s[lo..hi])
  {
    forall k | 0 <= k < hi - lo
      ensures b[pos + lo..pos + hi][k] == s[lo..hi][k]
    {
      assert s[lo + k] == b[pos..pos + |s|][lo + k];
    }
    assert b[pos + lo..pos + hi] == s[lo..hi];
  }

  lemma HoldsLength(b: seq<byte>, pos: nat, s: seq<byte>)
    requires Holds(b, pos, s)
    ensures pos + |s| <= |b|
  {
  }

  /** As `HoldsSlice`, for a slice of another buffer. */
  lemma HoldsWithin(c: seq<byte>, at: nat, b: seq<byte>, lo: nat, hi: nat, x: nat, y: nat)
    requires lo <= x <= y <= hi <= |b|
    requires Holds(c, at, b[lo..hi])
    ensures Holds(c, at + x - lo, b[x..y])
  {
    HoldsSlice(c, at, b[lo..hi], x - lo, y - lo);
    SliceOfSlice(b, lo, hi, x, y);
  }

  lemma SliceOfSlice(b: seq<byte>, lo: nat, hi: nat, x: nat, y: nat)
    requires lo <= x <= y <= hi <= |b|
    ensures b[lo..hi][x - lo..y - lo] == b[x..y]
  {
    var w := b[lo..hi];
    assert |w[x - lo..y - lo]| == |b[x..y]|;
    forall k | 0 <= k < y - x ensures w[x - lo..y - lo][k] == b[x..y][k] {
      assert w[x - lo + k] == b[x + k];
    }
  }

  lemma HoldsByte(c: seq<byte>, at: nat, b: seq<byte>, lo: nat, hi: nat, x: nat)
    requires lo <= x < hi <= |b|
    requires Holds(c, at, b[lo..hi])
    ensures at + x - lo < |c| && c[at + x - lo] == b[x]
  {
    assert c[at..at + (hi - lo)][x - lo] == b[lo..hi][x - lo];
  }

  // ----- little-endian fields -----

  function Le16(b: seq<byte>, o: nat): u16
    requires o + 2 <= |b|
  {
    (b[o] as int) + 0x100 * (b[o + 1] as int)
  }

  function Le32(b: seq<byte>, o: nat): u32
    requires o + 4 <= |b|
  {
    (b[o] as int) + 0x100 * (b[o + 1] as int)
    + 0x1_0000 * (b[o + 2] as int) + 0x100_0000 * (b[o + 3] as int)
  }

  function PutLe16(v: u16): (s: seq<byte>)
    ensures |s| == 2 && Le16(s, 0) == v
  {
    [v % 0x100, v / 0x100]
  }

  function PutLe32(v: u32): (s: seq<byte>)
    ensures |s| == 4 && Le32(s, 0) == v
  {
    var v1 := v / 0x100;
    var v2 := v1 / 0x100;
    assert v == v % 0x100 + 0x100 * v1;
    assert v1 == v1 % 0x100 + 0x100 * v2;
    assert v2 == v2 % 0x100 + 0x100 * (v2 / 0x100);
    [v % 0x100, v1 % 0x100, v2 % 0x100, v2 / 0x100]
  }

  /** Little-endian `u32` at `o`, or nothing when it would read past the end. */
  function ReadU32At(b: seq<byte>, o: nat): (r: Option<u32>) {
    if o + 4 <= |b| then Some(Le32(b, o)) else None
  }

  lemma SameByte(b: seq<byte>, o: nat, c: seq<byte>, p: nat, n: nat, k: nat)
    requires o + n <= |b| && p + n <= |c| && k < n
    requires b[o..o + n] == c[p..p + n]
    ensures b[o + k] == c[p + k]
  {
    assert b[o + k] == b[o..o + n][k];
    assert c[p + k] == c[p..p + n][k];
  }

  lemma Le16Of(b: seq<byte>, o: nat, c: seq<byte>, p: nat)
    requires o + 2 <= |b| && p + 2 <= |c|
    requires b[o..o + 2] == c[p..p + 2]
    ensures Le16(b, o) == Le16(c, p)
  {
    SameByte(b, o, c, p, 2, 0);
    SameByte(b, o, c, p, 2, 1);
  }

  lemma Le32Of(b: seq<byte>, o: nat, c: seq<byte>, p: nat)
    requires o + 4 <= |b| && p + 4 <= |c|
    requires b[o..o + 4] == c[p..p + 4]
    ensures Le32(b, o) == Le32(c, p)
  {
    SameByte(b, o, c, p, 4, 0);
    SameByte(b, o, c, p, 4, 1);
    SameByte(b, o, c, p, 4, 2);
    SameByte(b, o, c, p, 4, 3);
  }

  lemma HoldsLe16(c: seq<byte>, at: nat, b: seq<byte>, lo: nat, hi: nat, x: nat)
    requires lo <= x && x + 2 <= hi <= |b|
    requires Holds(c, at, b[lo..hi])
    ensures at + x - lo + 2 <= |c| && Le16(c, at + x - lo) == Le16(b, x)
  {
    HoldsWithin(c, at, b, lo, hi, x, x + 2);
    Le16Of(c, at + x - lo, b, x);
  }

  lemma HoldsLe32(c: seq<byte>, at: nat, b: seq<byte>, lo: nat, hi: nat, x: nat)
    requires lo <= x && x + 4 <= hi <= |b|
    requires Holds(c, at, b[lo..hi])
    ensures at + x - lo + 4 <= |c| && Le32(c, at + x - lo) == Le32(b, x)
  {
    HoldsWithin(c, at, b, lo, hi, x, x + 4);
    Le32Of(c, at + x - lo, b, x);
  }

  /** A four-byte field is determined by its value: equal reads, equal bytes. */
  lemma Le32Injective(b: seq<byte>, o: nat, c: seq<byte>, p: nat)
    requires o + 4 <= |b| && p + 4 <= |c|
    requires Le32(b, o) == Le32(c, p)
    ensures b[o..o + 4] == c[p..p + 4]
  {
    var b1: int, b2: int, b3: int := b[o + 1], b[o + 2], b[o + 3];
    var c1: int, c2: int, c3: int := c[p + 1], c[p + 2], c[p + 3];
    FirstDigit(b[o], b1 + 0x100 * b2 + 0x1_0000 * b3, c[p], c1 + 0x100 * c2 + 0x1_0000 * c3);
    FirstDigit(b[o + 1], b2 + 0x100 * b3, c[p + 1], c2 + 0x100 * c3);
    FirstDigit(b[o + 2], b3, c[p + 2], c3);
  }

  lemma FirstDigit(x: byte, high: int, y: byte, top: int)
    requires x + 0x100 * high == y + 0x100 * top
    ensures x == y && high == top
  {
  }

  lemma HeldLe16(b: seq<byte>, o: nat, v: u16)
    requires Holds(b, o, PutLe16(v))
    ensures o + 2 <= |b| && Le16(b, o) == v
  {
    var s := PutLe16(v);
    assert s[0..2] == s;
    Le16Of(b, o, s, 0);
  }

  lemma HeldLe32(b: seq<byte>, o: nat, v: u32)
    requires Holds(b, o, PutLe32(v))
    ensures o + 4 <= |b| && Le32(b, o) == v
  {
    var s := PutLe32(v);
    assert s[0..4] == s;
    Le32Of(b, o, s, 0);
  }

  // ----- patching -----

  function Zeros(n: nat): (z: seq<byte>)
    ensures |z| == n
    ensures forall i :: 0 <= i < n ==> z[i] == 0
  {
    seq(n, i => 0)
  }

  /** `b` with the bytes from `o` on overwritten by `s`. */
  function Patch(b: seq<byte>, o: nat, s: seq<byte>): (r: seq<byte>)
    requires o + |s| <= |b|
    ensures |r| == |b|
    ensures forall i :: 0 <= i < |b| ==> r[i] == if o <= i < o + |s| then s[i - o] else b[i]
  {
    b[..o] + s + b[o + |s|..]
  }

  /** `b` with `[lo, hi)` zeroed. */
  function ZeroRange(b: seq<byte>, lo: nat, hi: nat): (r: seq<byte>)
    requires lo <= hi <= |b|
    ensures |r| == |b|
    ensures forall i :: 0 <= i < |b| ==> r[i] == if lo <= i < hi then 0 else b[i]
  {
    Patch(b, lo, Zeros(hi - lo))
  }

  // ----- alignment -----

  function Align4(n: nat): (r: nat)
    ensures n <= r < n + 4 && r % 4 == 0
  {
    (n + 3) / 4 * 4
  }

  /** Pad with zeros up to a multiple of four. */
  function AlignTo4(b: seq<byte>): (r: seq<byte>)
    ensures |r| == Align4(|b|)
    ensures b <= r
    ensures forall i :: |b| <= i < |r| ==> r[i] == 0
  {
    b + Zeros(Align4(|b|) - |b|)
  }

  lemma Align4Shift(a: nat, n: nat)
    requires a % 4 == 0
    ensures Align4(a + n) == a + Align4(n)
  {
  }

  lemma Align4Aligned(n: nat)
    requires n % 4 == 0
    ensures Align4(n) == n
  {
  }
}
