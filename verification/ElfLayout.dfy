/**
  The byte layouts of ELF32 and ELF64 structures the rebuild writes, and reading
  them back.
 */
module ElfLayout {
  import opened Bytes
  import opened ElfSections

  function Le64(b: seq<byte>, o: nat): u64
    requires o + 8 <= |b|
  {
    Le32(b, o) + 0x1_0000_0000 * Le32(b, o + 4)
  }

  function PutLe64(v: u64): (s: seq<byte>)
    ensures |s| == 8
  {
    PutLe32(v % 0x1_0000_0000) + PutLe32(v / 0x1_0000_0000)
  }

  lemma HeldLe64(b: seq<byte>, o: nat, v: u64)
    requires Holds(b, o, PutLe64(v))
    ensures o + 8 <= |b| && Le64(b, o) == v
  {
    hide Holds, Le32, PutLe32;
    var lo, hi := v % 0x1_0000_0000, v / 0x1_0000_0000;
    HoldsSplit(b, o, PutLe32(lo), PutLe32(hi));
    HeldLe32(b, o, lo);
    HeldLe32(b, o + 4, hi);
  }

  datatype Layout = Layout(is64: bool) {
    function Pick(a: nat, b: nat): nat {
      if is64 then a else b
    }

    function EhdrSize(): nat { Pick(64, 52) }

    function PhdrSize(): nat { Pick(56, 32) }

    function ShdrSize(): nat { Pick(64, 40) }

    function SymSize(): nat { Pick(24, 16) }

    function Word(): nat { Pick(8, 4) }

    /** An address field; 32-bit files keep the low half. */
    function PutAddr(v: u64): (s: seq<byte>)
      ensures |s| == Word()
    {
      if is64 then PutLe64(v) else PutLe32(Wrap32(v))
    }

    function ReadAddr(b: seq<byte>, o: nat): u64
      requires o + Word() <= |b|
    {
      if is64 then Le64(b, o) else Le32(b, o)
    }

    /** The value an address field can hold. */
    function Fit(v: u64): u64 {
      if is64 then v else Wrap32(v)
    }
  }

  lemma HeldAddr(l: Layout, b: seq<byte>, o: nat, v: u64)
    requires Holds(b, o, l.PutAddr(v))
    ensures o + l.Word() <= |b| && l.ReadAddr(b, o) == l.Fit(v)
  {
    hide Holds, Le32, PutLe32, PutLe64, Le64, Wrap32;
    HoldsLength(b, o, l.PutAddr(v));
    if l.is64 {
      HeldLe64(b, o, v);
    } else {
      HeldLe32(b, o, Wrap32(v));
    }
  }

  // ----- section headers -----

  datatype Shdr = Shdr(name: u32, typ: u32, flags: u64, addr: u64, off: u64, size: u64, link: u32, info: u32, align: u64, entsize: u64)

  function EncodeShdr(l: Layout, h: Shdr): (s: seq<byte>)
    ensures |s| == l.ShdrSize()
  {
    PutLe32(h.name) + PutLe32(h.typ) + l.PutAddr(h.flags) + l.PutAddr(h.addr) + l.PutAddr(h.off) + l.PutAddr(h.size)
    + PutLe32(h.link) + PutLe32(h.info) + l.PutAddr(h.align) + l.PutAddr(h.entsize)
  }

  function ReadShdr(l: Layout, b: seq<byte>, at: nat): Shdr
    requires at + l.ShdrSize() <= |b|
  {
    var w := l.Word();
    Shdr(Le32(b, at), Le32(b, at + 4), l.ReadAddr(b, at + 8), l.ReadAddr(b, at + 8 + w), l.ReadAddr(b, at + 8 + 2 * w),
         l.ReadAddr(b, at + 8 + 3 * w), Le32(b, at + 8 + 4 * w), Le32(b, at + 12 + 4 * w), l.ReadAddr(b, at + 16 + 4 * w),
         l.ReadAddr(b, at + 16 + 5 * w))
  }

  /** The header as its file class can hold it. */
  function Fitted(l: Layout, h: Shdr): Shdr {
    Shdr(h.name, h.typ, l.Fit(h.flags), l.Fit(h.addr), l.Fit(h.off), l.Fit(h.size), h.link, h.info, l.Fit(h.align), l.Fit(h.entsize))
  }

  /** A written section header reads back, in either class. */
  lemma ShdrRoundTrip(l: Layout, b: seq<byte>, at: nat, h: Shdr)
    requires Holds(b, at, EncodeShdr(l, h))
    ensures at + l.ShdrSize() <= |b| && ReadShdr(l, b, at) == Fitted(l, h)
  {
    hide Holds, Le32, PutLe32, Layout.PutAddr, Layout.ReadAddr, Layout.Fit;
    var w := l.Word();
    HoldsLength(b, at, EncodeShdr(l, h));
    var front := PutLe32(h.name) + PutLe32(h.typ) + l.PutAddr(h.flags) + l.PutAddr(h.addr) + l.PutAddr(h.off) + l.PutAddr(h.size);
    var back := PutLe32(h.link) + PutLe32(h.info) + l.PutAddr(h.align) + l.PutAddr(h.entsize);
    assert EncodeShdr(l, h) == front + back;
    HoldsSplit(b, at, front, back);
    ShdrFront(l, b, at, h);
    ShdrBack(l, b, at + 8 + 4 * w, h);
  }

  lemma ShdrFront(l: Layout, b: seq<byte>, at: nat, h: Shdr)
    requires Holds(b, at, PutLe32(h.name) + PutLe32(h.typ) + l.PutAddr(h.flags) + l.PutAddr(h.addr) + l.PutAddr(h.off) + l.PutAddr(h.size))
    ensures at + 8 + 4 * l.Word() <= |b|
    ensures var w := l.Word();
            && Le32(b, at) == h.name && Le32(b, at + 4) == h.typ && l.ReadAddr(b, at + 8) == l.Fit(h.flags)
            && l.ReadAddr(b, at + 8 + w) == l.Fit(h.addr) && l.ReadAddr(b, at + 8 + 2 * w) == l.Fit(h.off)
            && l.ReadAddr(b, at + 8 + 3 * w) == l.Fit(h.size)
  {
    hide Holds, Le32, PutLe32, Layout.PutAddr, Layout.ReadAddr, Layout.Fit;
    var w := l.Word();
    var s1 := PutLe32(h.name);
    var s2 := s1 + PutLe32(h.typ);
    var s3 := s2 + l.PutAddr(h.flags);
    var s4 := s3 + l.PutAddr(h.addr);
    var s5 := s4 + l.PutAddr(h.off);
    HoldsSplit(b, at, s5, l.PutAddr(h.size));
    HoldsSplit(b, at, s4, l.PutAddr(h.off));
    HoldsSplit(b, at, s3, l.PutAddr(h.addr));
    HoldsSplit(b, at, s2, l.PutAddr(h.flags));
    HoldsSplit(b, at, s1, PutLe32(h.typ));
    HeldLe32(b, at, h.name);
    HeldLe32(b, at + 4, h.typ);
    HeldAddr(l, b, at + 8, h.flags);
    HeldAddr(l, b, at + 8 + w, h.addr);
    HeldAddr(l, b, at + 8 + 2 * w, h.off);
    HeldAddr(l, b, at + 8 + 3 * w, h.size);
  }

  lemma ShdrBack(l: Layout, b: seq<byte>, at: nat, h: Shdr)
    requires Holds(b, at, PutLe32(h.link) + PutLe32(h.info) + l.PutAddr(h.align) + l.PutAddr(h.entsize))
    ensures at + 8 + 2 * l.Word() <= |b|
    ensures Le32(b, at) == h.link && Le32(b, at + 4) == h.info && l.ReadAddr(b, at + 8) == l.Fit(h.align)
            && l.ReadAddr(b, at + 8 + l.Word()) == l.Fit(h.entsize)
  {
    hide Holds, Le32, PutLe32, Layout.PutAddr, Layout.ReadAddr, Layout.Fit;
    var s1 := PutLe32(h.link);
    var s2 := s1 + PutLe32(h.info);
    var s3 := s2 + l.PutAddr(h.align);
    HoldsSplit(b, at, s3, l.PutAddr(h.entsize));
    HoldsSplit(b, at, s2, l.PutAddr(h.align));
    HoldsSplit(b, at, s1, PutLe32(h.info));
    HeldLe32(b, at, h.link);
    HeldLe32(b, at + 4, h.info);
    HeldAddr(l, b, at + 8, h.align);
    HeldAddr(l, b, at + 8 + l.Word(), h.entsize);
  }

  // ----- symbols -----

  const GLOBAL_FUNC: byte := 0x12

  /** A symbol of size 0; the two classes order their fields differently. */
  function EncodeSym(l: Layout, name: u32, value: u64, shndx: u16): (s: seq<byte>)
    ensures |s| == l.SymSize()
  {
    if l.is64 then PutLe32(name) + [GLOBAL_FUNC, 0] + PutLe16(shndx) + PutLe64(value) + Zeros(8)
    else PutLe32(name) + PutLe32(Wrap32(value)) + Zeros(4) + [GLOBAL_FUNC, 0] + PutLe16(shndx)
  }

  function ShndxOff(l: Layout): nat {
    l.Pick(6, 14)
  }

  function ValueOff(l: Layout): nat {
    l.Pick(8, 4)
  }

  function SymName(b: seq<byte>, at: nat): u32
    requires at + 4 <= |b|
  {
    Le32(b, at)
  }

  function SymShndx(l: Layout, b: seq<byte>, at: nat): u16
    requires at + l.SymSize() <= |b|
  {
    Le16(b, at + ShndxOff(l))
  }

  function SymValue(l: Layout, b: seq<byte>, at: nat): u64
    requires at + l.SymSize() <= |b|
  {
    l.ReadAddr(b, at + ValueOff(l))
  }

  /** A written symbol reads back. */
  lemma SymRoundTrip(l: Layout, b: seq<byte>, at: nat, name: u32, value: u64, shndx: u16)
    requires Holds(b, at, EncodeSym(l, name, value, shndx))
    ensures at + l.SymSize() <= |b|
    ensures SymName(b, at) == name && SymShndx(l, b, at) == shndx && SymValue(l, b, at) == l.Fit(value)
  {
    hide Holds, Le32, Le16, PutLe32, PutLe16, PutLe64, Le64, Wrap32;
    HoldsLength(b, at, EncodeSym(l, name, value, shndx));
    if l.is64 {
      var s1 := PutLe32(name) + [GLOBAL_FUNC, 0];
      HoldsSplit(b, at, s1 + PutLe16(shndx) + PutLe64(value), Zeros(8));
      HoldsSplit(b, at, s1 + PutLe16(shndx), PutLe64(value));
      HoldsSplit(b, at, s1, PutLe16(shndx));
      HoldsSplit(b, at, PutLe32(name), [GLOBAL_FUNC, 0]);
      HeldLe64(b, at + 8, value);
      HeldLe16(b, at + 6, shndx);
    } else {
      var s1 := PutLe32(name) + PutLe32(Wrap32(value));
      var s2 := s1 + Zeros(4);
      HoldsSplit(b, at, s2 + [GLOBAL_FUNC, 0], PutLe16(shndx));
      HoldsSplit(b, at, s2, [GLOBAL_FUNC, 0]);
      HoldsSplit(b, at, s1, Zeros(4));
      HoldsSplit(b, at, PutLe32(name), PutLe32(Wrap32(value)));
      HeldLe32(b, at + 4, Wrap32(value));
      HeldLe16(b, at + 14, shndx);
    }
    HeldLe32(b, at, name);
  }

  /** A written symbol is a global function of default visibility and no size. */
  lemma SymKind(l: Layout, b: seq<byte>, at: nat, name: u32, value: u64, shndx: u16)
    requires Holds(b, at, EncodeSym(l, name, value, shndx))
    ensures at + l.SymSize() <= |b| && b[at + l.Pick(4, 12)] == 0x12 && b[at + l.Pick(5, 13)] == 0
    ensures forall x :: at + l.Pick(16, 8) <= x < at + l.Pick(24, 12) ==> b[x] == 0
  {
    hide PutLe32, PutLe16, PutLe64, Wrap32;
    var s := EncodeSym(l, name, value, shndx);
    var w := b[at..at + |s|];
    assert forall x :: at <= x < at + |s| ==> b[x] == w[x - at];
    forall i | l.Pick(16, 8) <= i < l.Pick(24, 12) ensures s[i] == 0 {
    }
  }

  // ----- NUL-terminated strings -----

  /** The bytes from `at` up to the first NUL, or nothing without one. */
  function ReadName(b: seq<byte>, at: nat): Option<seq<byte>>
    decreases |b| - at
  {
    if at >= |b| then None
    else if b[at] == 0 then Some([])
    else
      match ReadName(b, at + 1)
      case None => None
      case Some(rest) => Some([b[at]] + rest)
  }

  lemma {:induction false} NameReadsBack(b: seq<byte>, at: nat, name: seq<byte>)
    requires Holds(b, at, name + [0]) && 0 !in name
    ensures ReadName(b, at) == Some(name)
    decreases |name|
  {
    var w := b[at..at + |name + [0]|];
    if name == [] {
      assert b[at] == w[0];
    } else {
      assert b[at] == w[0] == name[0] && name[0] in name;
      HoldsSlice(b, at, name + [0], 1, |name| + 1);
      assert (name + [0])[1..|name| + 1] == name[1..] + [0];
      assert forall c :: c in name[1..] ==> c in name;
      NameReadsBack(b, at + 1, name[1..]);
      assert [name[0]] + name[1..] == name;
    }
  }
}
