/**
  Rebuilding the section table of a dumped shared object: the image is patched
  in a few fields, and everything new is appended.
 */
module ElfRebuild {
  import opened Bytes
  import opened ElfSections
  import opened ElfLayout

  const PT_LOAD: u32 := 1
  const SHN_UNDEF: u16 := 0
  const SHN_LORESERVE: u16 := 0xff00

  const SYMTAB_NAME: seq<byte> := [0x2e, 0x73, 0x79, 0x6d, 0x74, 0x61, 0x62]
  const STRTAB_NAME: seq<byte> := [0x2e, 0x73, 0x74, 0x72, 0x74, 0x61, 0x62]
  const SHSTRTAB_NAME: seq<byte> := [0x2e, 0x73, 0x68, 0x73, 0x74, 0x72, 0x74, 0x61, 0x62]

  datatype InjectedSym = InjectedSym(name: seq<byte>, value: u64)

  // ----- program headers -----

  /** In a memory image file offsets are addresses, and a loaded segment is
      present as a whole. */
  function FixPhdr(l: Layout, data: seq<byte>, off: nat): (r: seq<byte>)
    requires off + l.PhdrSize() <= |data|
    ensures |r| == |data|
  {
    var typ := Le32(data, off);
    var vaddr, filesz, memsz := l.ReadAddr(data, off + l.Pick(16, 8)), l.ReadAddr(data, off + l.Pick(32, 16)), l.ReadAddr(data, off + l.Pick(40, 20));
    var placed := Patch(data, off + l.Pick(8, 4), l.PutAddr(vaddr));
    if typ == PT_LOAD && memsz > filesz then Patch(placed, off + l.Pick(32, 16), l.PutAddr(memsz)) else placed
  }

  /** Where program header `i` stands. */
  function PhdrOff(phoff: nat, entsize: nat, i: nat): nat {
    phoff + i * entsize
  }

  /** Headers from number `i` on; the first one outside the file ends the pass. */
  function FixPhdrs(l: Layout, data: seq<byte>, phoff: nat, entsize: nat, count: nat, i: nat): (r: seq<byte>)
    ensures |r| == |data|
    decreases count - i
  {
    var off := PhdrOff(phoff, entsize, i);
    if i >= count || off + l.PhdrSize() > |data| then data
    else FixPhdrs(l, FixPhdr(l, data, off), phoff, entsize, count, i + 1)
  }

  // ----- dynamic symbols -----

  /** One symbol: a defined, unreserved one is pointed at the section its value
      lies in, when there is one. */
  function RemapSym(l: Layout, data: seq<byte>, o: nat, secs: seq<Section>): (r: seq<byte>)
    requires o + l.SymSize() <= |data|
    ensures |r| == |data|
  {
    var shndx := SymShndx(l, data, o);
    if shndx == SHN_UNDEF || shndx >= SHN_LORESERVE then data
    else
      var k := FindFrom(secs, SymValue(l, data, o), 0);
      if k == |secs| then data else Patch(data, o + ShndxOff(l), PutLe16(k % 0x1_0000))
  }

  /** `remap_sym_shndx`, from symbol `i` on. */
  function RemapFrom(l: Layout, data: seq<byte>, off: nat, count: nat, secs: seq<Section>, i: nat): (r: seq<byte>)
    ensures |r| == |data|
    decreases count - i
  {
    var o := off + i * l.SymSize();
    if i >= count || o + l.SymSize() > |data| then data
    else RemapFrom(l, RemapSym(l, data, o, secs), off, count, secs, i + 1)
  }

  // ----- string tables -----

  /** A table under construction: its bytes, and where each name went. */
  datatype Names = Names(tab: seq<byte>, at: map<seq<byte>, nat>)

  function AddName(n: Names, name: seq<byte>): Names {
    if name in n.at then n else Names(n.tab + name + [0], n.at[name := |n.tab|])
  }

  /** The section header string table; a repeated name is stored once. */
  function NameTable(names: seq<seq<byte>>): Names {
    if names == [] then Names([0], map[[] := 0])
    else AddName(NameTable(names[..|names| - 1]), names[|names| - 1])
  }

  /** The string table of injected symbols: every name in turn. */
  function SymNames(injected: seq<InjectedSym>): seq<byte> {
    if injected == [] then [0]
    else SymNames(injected[..|injected| - 1]) + injected[|injected| - 1].name + [0]
  }

  /** The injected symbol table: a null symbol and one entry each. */
  function SymTable(l: Layout, injected: seq<InjectedSym>, secs: seq<Section>): seq<byte> {
    if injected == [] then Zeros(l.SymSize())
    else
      var init, last := injected[..|injected| - 1], injected[|injected| - 1];
      SymTable(l, init, secs) + EncodeSym(l, Wrap32(|SymNames(init)|), last.value, SectionIndexOf(secs, last.value))
  }

  // ----- the section list -----

  /** Null entry and sized sections. */
  function LoadedList(body: seq<Section>, loadFileEnd: u64, maxVaddr: u64): seq<Section> {
    [NULL_SECTION] + SizeAll(SortByAddr(body), loadFileEnd, maxVaddr)
  }

  function SymtabSection(l: Layout, payload: seq<byte>): Section {
    Section(SYMTAB_NAME, SHT_SYMTAB, 0, 0, 0, false, STRTAB_NAME, [], 1, l.SymSize(), l.Word(), Some(payload))
  }

  function StrtabSection(payload: seq<byte>): Section {
    Section(STRTAB_NAME, SHT_STRTAB, 0, 0, 0, false, [], [], 0, 0, 1, Some(payload))
  }

  const SHSTRTAB_SECTION := Section(SHSTRTAB_NAME, SHT_STRTAB, 0, 0, 0, false, [], [], 0, 0, 1, None)

  function InjectedList(l: Layout, loaded: seq<Section>, injected: seq<InjectedSym>): seq<Section> {
    if injected == [] then []
    else [SymtabSection(l, SymTable(l, injected, loaded)), StrtabSection(SymNames(injected))]
  }

  function AllSections(l: Layout, loaded: seq<Section>, injected: seq<InjectedSym>): seq<Section> {
    loaded + InjectedList(l, loaded, injected) + [SHSTRTAB_SECTION]
  }

  // ----- appending -----

  lemma MulAtLeast(a: nat, k: nat)
    requires k >= 1
    ensures a * k >= a
  {
    assert a * k == a * (k - 1) + a;
  }

  lemma MulSmall(a: int, k: int)
    requires a > 0 && -a < a * k < a
    ensures k == 0
  {
    assert a * (-k) == -(a * k);
    if k >= 1 {
      MulAtLeast(a, k);
    }
    if k <= -1 {
      MulAtLeast(a, -k);
    }
  }

  lemma DivUnique(n: nat, a: nat, q: nat, r: nat)
    requires a > 0 && n == a * q + r && r < a
    ensures n % a == r
  {
    var k := n / a - q;
    assert a * k == a * (n / a) - a * q;
    MulSmall(a, k);
  }

  lemma ModNext(n: nat, a: nat)
    requires a > 1
    ensures (n + 1) % a == if n % a + 1 == a then 0 else n % a + 1
  {
    var q, r := n / a, n % a;
    assert n == a * q + r;
    if r + 1 == a {
      assert n + 1 == a * (q + 1) + 0 by { assert a * (q + 1) == a * q + a; }
      DivUnique(n + 1, a, q + 1, 0);
    } else {
      DivUnique(n + 1, a, q, r + 1);
    }
  }

  /** Zeros up to a multiple of `align`; none for an alignment of 0 or 1. */
  function PadTo(data: seq<byte>, align: nat): (r: seq<byte>)
    ensures data <= r
    ensures align > 1 ==> |r| % align == 0
    ensures align <= 1 ==> r == data
    decreases if align <= 1 || |data| % align == 0 then 0 else align - |data| % align
  {
    if align <= 1 || |data| % align == 0 then data
    else
      ModNext(|data|, align);
      PadTo(data + [0], align)
  }

  /** Append each payload at its alignment, noting where it went; other sections
      get offset 0. */
  function AppendPayloads(data: seq<byte>, secs: seq<Section>): (r: (seq<byte>, seq<nat>))
    ensures data <= r.0 && |r.1| == |secs|
    decreases |secs|
  {
    if secs == [] then (data, [])
    else
      match secs[0].payload
      case None =>
        var (end, offs) := AppendPayloads(data, secs[1..]);
        (end, [0] + offs)
      case Some(payload) =>
        var padded := PadTo(data, secs[0].align);
        var (end, offs) := AppendPayloads(padded + payload, secs[1..]);
        (end, [|padded|] + offs)
  }

  /** The last section of a name, 0 for no name or an unknown one. */
  function IndexOfName(secs: seq<Section>, name: seq<byte>): nat {
    if secs == [] || name == [] then 0
    else
      var last := |secs| - 1;
      if secs[last].name == name then last else IndexOfName(secs[..last], name)
  }

  /** The header of section `k`. */
  function HeaderOf(secs: seq<Section>, k: nat, offs: seq<nat>, names: Names, shstrtabOff: nat): Shdr
    requires k < |secs| && |offs| == |secs|
  {
    var s := secs[k];
    var name := if s.name in names.at then Wrap32(names.at[s.name]) else 0;
    var place :=
      if s.name == [] then (0, 0, s.size)
      else if s.name == SHSTRTAB_NAME then (0, Wrap64(shstrtabOff), Wrap64(|names.tab|))
      else
        match s.payload
        case Some(payload) => (0, Wrap64(offs[k]), Wrap64(|payload|))
        case None => (s.addr, s.addr, s.size);
    Shdr(name, s.typ, s.flags, place.0, place.1, place.2,
         Wrap32(IndexOfName(secs, s.linkName)),
         if s.infoName == [] then s.info else Wrap32(IndexOfName(secs, s.infoName)),
         s.align, s.entsize)
  }

  lemma NextRow(n: nat, width: nat)
    requires n > 0
    ensures n * width == width + (n - 1) * width
  {
  }

  function HeaderTable(l: Layout, secs: seq<Section>, offs: seq<nat>, names: Names, shstrtabOff: nat, k: nat): (t: seq<byte>)
    requires k <= |secs| && |offs| == |secs|
    ensures |t| == (|secs| - k) * l.ShdrSize()
    decreases |secs| - k
  {
    if k == |secs| then []
    else
      NextRow(|secs| - k, l.ShdrSize());
      EncodeShdr(l, HeaderOf(secs, k, offs, names, shstrtabOff)) + HeaderTable(l, secs, offs, names, shstrtabOff, k + 1)
  }

  /** The four header fields that describe the section table. */
  function SetHeader(l: Layout, data: seq<byte>, shoff: nat, count: nat, shstrndx: nat): (r: seq<byte>)
    requires l.EhdrSize() <= |data|
    ensures |r| == |data|
  {
    var d1 := Patch(data, l.Pick(40, 32), l.PutAddr(Wrap64(shoff)));
    var d2 := Patch(d1, l.Pick(58, 46), PutLe16(l.ShdrSize()));
    var d3 := Patch(d2, l.Pick(60, 48), PutLe16(count % 0x1_0000));
    Patch(d3, l.Pick(62, 50), PutLe16(shstrndx % 0x1_0000))
  }

  /** What the program headers and the dynamic segment said: the program header
      table, the sections before sorting, where file bytes and addresses end, and
      the dynamic symbol table when its count is known. */
  datatype Found = Found(phoff: nat, phentsize: nat, phnum: nat, body: seq<Section>, loadFileEnd: u64, maxVaddr: u64,
                         dynsym: Option<(nat, nat)>)

  function NamesOf(secs: seq<Section>): seq<seq<byte>> {
    seq(|secs|, i requires 0 <= i < |secs| => secs[i].name)
  }

  /** The image with its fields patched, before anything is appended. */
  function Patched(l: Layout, image: seq<byte>, found: Found, secs: seq<Section>): (r: seq<byte>)
    ensures |r| == |image|
  {
    var fixed := FixPhdrs(l, image, found.phoff, found.phentsize, found.phnum, 0);
    match found.dynsym
    case None => fixed
    case Some((addr, count)) => RemapFrom(l, fixed, addr, count, secs, 0)
  }

  /** Everything appended to the patched image: payloads, names, padding, and the
      header table. */
  function Appended(l: Layout, data: seq<byte>, secs: seq<Section>): (r: (seq<byte>, nat))
    ensures data <= r.0
    ensures r.1 <= |r.0|
  {
    var names := NameTable(NamesOf(secs));
    var (withPayloads, offs) := AppendPayloads(data, secs);
    var padded := PadTo(withPayloads + names.tab, l.Word());
    (padded + HeaderTable(l, secs, offs, names, |withPayloads|, 0), |padded|)
  }

  /** `rebuild_so_sections`, once the image has been understood. */
  function Rebuild(l: Layout, image: seq<byte>, found: Found, injected: seq<InjectedSym>): seq<byte>
    requires l.EhdrSize() <= |image|
  {
    var secs := AllSections(l, LoadedList(found.body, found.loadFileEnd, found.maxVaddr), injected);
    var (data, shoff) := Appended(l, Patched(l, image, found, secs), secs);
    SetHeader(l, data, shoff, |secs|, |secs| - 1)
  }
}
