/**
  Finding the sections of a memory image: segments from the program headers,
  everything else from the dynamic table.
 */
module ElfDiscovery {
  import opened Bytes
  import opened ElfSections
  import opened ElfLayout
  import opened ElfRebuild
  import opened GnuHash

  const PT_DYNAMIC: u32 := 2

  const SHT_RELA: u32 := 4
  const SHT_HASH: u32 := 5
  const SHT_DYNAMIC: u32 := 6
  const SHT_REL: u32 := 9
  const SHT_DYNSYM: u32 := 11
  const SHT_RELR: u32 := 19
  const SHT_ANDROID_REL: u32 := 0x6000_0001
  const SHT_ANDROID_RELA: u32 := 0x6000_0002
  const SHT_ANDROID_RELR: u32 := 0x6fff_ff00
  const SHT_GNU_HASH: u32 := 0x6fff_fff6
  const SHT_GNU_VERDEF: u32 := 0x6fff_fffd
  const SHT_GNU_VERNEED: u32 := 0x6fff_fffe
  const SHT_GNU_VERSYM: u32 := 0x6fff_ffff

  const SHF_WRITE: u64 := 1
  const SHF_ALLOC: u64 := 2
  const SHF_EXEC: u64 := 4
  const SHF_INFO_LINK: u64 := 0x40

  const DT_NULL: u64 := 0
  const DT_PLTRELSZ: u64 := 2
  const DT_PLTGOT: u64 := 3
  const DT_HASH: u64 := 4
  const DT_STRTAB: u64 := 5
  const DT_SYMTAB: u64 := 6
  const DT_RELA: u64 := 7
  const DT_RELASZ: u64 := 8
  const DT_STRSZ: u64 := 10
  const DT_SYMENT: u64 := 11
  const DT_INIT: u64 := 12
  const DT_REL: u64 := 17
  const DT_RELSZ: u64 := 18
  const DT_PLTREL: u64 := 20
  const DT_JMPREL: u64 := 23
  const DT_INIT_ARRAY: u64 := 25
  const DT_FINI_ARRAY: u64 := 26
  const DT_INIT_ARRAYSZ: u64 := 27
  const DT_FINI_ARRAYSZ: u64 := 28
  const DT_RELRSZ: u64 := 35
  const DT_RELR: u64 := 36
  const DT_ANDROID_REL: u64 := 0x6000_000f
  const DT_ANDROID_RELSZ: u64 := 0x6000_0010
  const DT_ANDROID_RELA: u64 := 0x6000_0011
  const DT_ANDROID_RELASZ: u64 := 0x6000_0012
  const DT_ANDROID_RELR: u64 := 0x6fff_e000
  const DT_ANDROID_RELRSZ: u64 := 0x6fff_e001
  const DT_GNU_HASH: u64 := 0x6fff_fef5
  const DT_VERSYM: u64 := 0x6fff_fff0
  const DT_VERDEF: u64 := 0x6fff_fffc
  const DT_VERDEFNUM: u64 := 0x6fff_fffd
  const DT_VERNEED: u64 := 0x6fff_fffe
  const DT_VERNEEDNUM: u64 := 0x6fff_ffff

  // ----- segments -----

  datatype LoadSeg = LoadSeg(vaddr: u64, filesz: u64, memsz: u64)

  /** What the program headers say; the last dynamic segment counts. */
  datatype Segments = Segments(loads: seq<LoadSeg>, dynAddr: u64, dynSize: u64)

  const NO_SEGMENTS := Segments([], 0, 0)

  function NoteSegment(l: Layout, data: seq<byte>, off: nat, segs: Segments): Segments
    requires off + l.PhdrSize() <= |data|
  {
    var vaddr, memsz := l.ReadAddr(data, off + l.Pick(16, 8)), l.ReadAddr(data, off + l.Pick(40, 20));
    if Le32(data, off) == PT_LOAD then
      segs.(loads := segs.loads + [LoadSeg(vaddr, l.ReadAddr(data, off + l.Pick(32, 16)), memsz)])
    else if Le32(data, off) == PT_DYNAMIC then segs.(dynAddr := vaddr, dynSize := memsz)
    else segs
  }

  /** Headers from number `i` on, each read before it is fixed. */
  function SegmentsFrom(l: Layout, data: seq<byte>, phoff: nat, entsize: nat, count: nat, i: nat, segs: Segments): Segments
    decreases count - i
  {
    var off := PhdrOff(phoff, entsize, i);
    if i >= count || off + l.PhdrSize() > |data| then segs
    else SegmentsFrom(l, FixPhdr(l, data, off), phoff, entsize, count, i + 1, NoteSegment(l, data, off, segs))
  }

  /** Where the highest segment ends in memory. */
  function MaxVaddr(loads: seq<LoadSeg>): u64 {
    if loads == [] then 0
    else
      var last := loads[|loads| - 1];
      var end, before := Wrap64(last.vaddr + last.memsz), MaxVaddr(loads[..|loads| - 1]);
      if end > before then end else before
  }

  /** Where the bytes backed by the file end. */
  function LoadFileEnd(loads: seq<LoadSeg>): u64 {
    if loads == [] then 0
    else
      var last := loads[|loads| - 1];
      var end, before := Wrap64(last.vaddr + last.filesz), LoadFileEnd(loads[..|loads| - 1]);
      if end > before then end else before
  }

  // ----- the dynamic table -----

  type Tags = map<u64, u64>

  /** Entries from `off` on, up to the null tag or `limit`; a later entry of the
      same tag counts. */
  function TagsFrom(l: Layout, data: seq<byte>, off: nat, limit: nat, tags: Tags): Tags
    decreases |data| - off
  {
    var size := l.Pick(16, 8);
    if off + size > |data| || off + size > limit then tags
    else
      var tag := l.ReadAddr(data, off);
      if tag == DT_NULL then tags
      else TagsFrom(l, data, off + size, limit, tags[tag := l.ReadAddr(data, off + l.Word())])
  }

  function Get(tags: Tags, tag: u64): Option<u64> {
    if tag in tags then Some(tags[tag]) else None
  }

  function GetOrZero(tags: Tags, tag: u64): u64 {
    if tag in tags then tags[tag] else 0
  }

  /** How many dynamic symbols there are: a SysV hash table says so, a GNU one
      implies it. */
  function DynSymCount(l: Layout, data: seq<byte>, tags: Tags): nat {
    match Get(tags, DT_HASH)
    case Some(h) => if h + 8 <= |data| then Le32(data, h + 4) else 0
    case None =>
      match Get(tags, DT_GNU_HASH)
      case Some(gh) => SymCount(data, gh, l.Word())
      case None => 0
  }

  function SymInfo(l: Layout, data: seq<byte>, o: nat): byte
    requires o + l.SymSize() <= |data|
  {
    data[o + l.Pick(4, 12)]
  }

  /** Leading local symbols from number `i` on. */
  function LeadingLocals(l: Layout, data: seq<byte>, off: nat, count: nat, i: nat): (n: nat)
    decreases count - i
  {
    var o := off + i * l.SymSize();
    if i >= count || o + l.SymSize() > |data| || SymInfo(l, data, o) / 0x10 != 0 then 0
    else 1 + LeadingLocals(l, data, off, count, i + 1)
  }

  /** `count_local_syms`. */
  function LocalSyms(l: Layout, data: seq<byte>, off: nat, count: nat): nat {
    Max(LeadingLocals(l, data, off, count, 0), 1)
  }

  // ----- sections -----

  function Ascii(s: string): (b: seq<byte>)
    ensures |b| == |s|
  {
    seq(|s|, i requires 0 <= i < |s| => s[i] as int % 0x100)
  }

  function Bare(name: string, typ: u32, flags: u64, addr: u64, link: string, entsize: u64, align: u64): Section {
    Section(Ascii(name), typ, flags, addr, 0, false, Ascii(link), [], 0, entsize, align, None)
  }

  /** With a size that is known precisely. */
  function Exactly(s: Section, size: u64): Section {
    s.(size := size, hasSize := true)
  }

  /** With the size a tag gives, when it gives one. */
  function Sized(s: Section, size: u64): Section {
    if size > 0 then Exactly(s, size) else s
  }

  function HashSections(l: Layout, tags: Tags): seq<Section> {
    (match Get(tags, DT_GNU_HASH)
     case Some(a) => [Bare(".gnu.hash", SHT_GNU_HASH, SHF_ALLOC, a, ".dynsym", 0, l.Word())]
     case None => [])
    + (match Get(tags, DT_HASH)
       case Some(a) => [Bare(".hash", SHT_HASH, SHF_ALLOC, a, ".dynsym", 4, l.Word())]
       case None => [])
  }

  function SymEnt(l: Layout, tags: Tags): u64 {
    if GetOrZero(tags, DT_SYMENT) == 0 then l.SymSize() else GetOrZero(tags, DT_SYMENT)
  }

  function SymbolSections(l: Layout, data: seq<byte>, tags: Tags, count: nat): seq<Section> {
    (match Get(tags, DT_SYMTAB)
     case Some(a) =>
       var s := Bare(".dynsym", SHT_DYNSYM, SHF_ALLOC, a, ".dynstr", SymEnt(l, tags), l.Word())
                .(info := Wrap32(LocalSyms(l, data, a, count)));
       [if count > 0 then Exactly(s, Wrap64(count * SymEnt(l, tags))) else s]
     case None => [])
    + (match Get(tags, DT_STRTAB)
       case Some(a) => [Sized(Bare(".dynstr", SHT_STRTAB, SHF_ALLOC, a, "", 0, 1), GetOrZero(tags, DT_STRSZ))]
       case None => [])
  }

  function VersionSections(l: Layout, tags: Tags, count: nat): seq<Section> {
    (match Get(tags, DT_VERSYM)
     case Some(a) =>
       var s := Bare(".gnu.version", SHT_GNU_VERSYM, SHF_ALLOC, a, ".dynsym", 2, 2);
       [if count > 0 then Exactly(s, Wrap64(count * 2)) else s]
     case None => [])
    + (match Get(tags, DT_VERDEF)
       case Some(a) =>
         [Bare(".gnu.version_d", SHT_GNU_VERDEF, SHF_ALLOC, a, ".dynstr", 0, l.Word()).(info := Wrap32(GetOrZero(tags, DT_VERDEFNUM)))]
       case None => [])
    + (match Get(tags, DT_VERNEED)
       case Some(a) =>
         [Bare(".gnu.version_r", SHT_GNU_VERNEED, SHF_ALLOC, a, ".dynstr", 0, l.Word()).(info := Wrap32(GetOrZero(tags, DT_VERNEEDNUM)))]
       case None => [])
  }

  function RelaEnt(l: Layout): u64 { l.Pick(24, 12) }

  function RelEnt(l: Layout): u64 { l.Pick(16, 8) }

  function RelocSections(l: Layout, tags: Tags): seq<Section> {
    (match Get(tags, DT_RELA)
     case Some(a) => [Sized(Bare(".rela.dyn", SHT_RELA, SHF_ALLOC, a, ".dynsym", RelaEnt(l), l.Word()), GetOrZero(tags, DT_RELASZ))]
     case None => [])
    + (match Get(tags, DT_REL)
       case Some(a) => [Sized(Bare(".rel.dyn", SHT_REL, SHF_ALLOC, a, ".dynsym", RelEnt(l), l.Word()), GetOrZero(tags, DT_RELSZ))]
       case None => [])
    + (match Get(tags, DT_RELR)
       case Some(a) => [Sized(Bare(".relr.dyn", SHT_RELR, SHF_ALLOC, a, "", l.Word(), l.Word()), GetOrZero(tags, DT_RELRSZ))]
       case None => [])
  }

  function AndroidRelocSections(l: Layout, tags: Tags): seq<Section> {
    (match Get(tags, DT_ANDROID_RELA)
     case Some(a) => [Sized(Bare(".rela.dyn", SHT_ANDROID_RELA, SHF_ALLOC, a, ".dynsym", 0, l.Word()), GetOrZero(tags, DT_ANDROID_RELASZ))]
     case None => [])
    + (match Get(tags, DT_ANDROID_REL)
       case Some(a) => [Sized(Bare(".rel.dyn", SHT_ANDROID_REL, SHF_ALLOC, a, ".dynsym", 0, l.Word()), GetOrZero(tags, DT_ANDROID_RELSZ))]
       case None => [])
    + (match Get(tags, DT_ANDROID_RELR)
       case Some(a) => [Sized(Bare(".relr.dyn", SHT_ANDROID_RELR, SHF_ALLOC, a, "", l.Word(), l.Word()), GetOrZero(tags, DT_ANDROID_RELRSZ))]
       case None => [])
  }

  /** The form of the jump relocations; by default the one usual for the class. */
  predicate PltIsRela(l: Layout, tags: Tags) {
    match Get(tags, DT_PLTREL)
    case Some(form) => form == DT_RELA
    case None => l.is64
  }

  function PltRelEnt(l: Layout, tags: Tags): u64 {
    if PltIsRela(l, tags) then RelaEnt(l) else RelEnt(l)
  }

  /** The address past the jump relocations, aligned to sixteen. */
  function PltAddr(tags: Tags, jmp: u64): u64 {
    Wrap64(jmp + GetOrZero(tags, DT_PLTRELSZ) + 15) / 16 * 16
  }

  /** Where code is taken to start, 0 when nothing says. */
  function TextStart(tags: Tags): u64 {
    match Get(tags, DT_JMPREL)
    case Some(jmp) => PltAddr(tags, jmp)
    case None => GetOrZero(tags, DT_INIT)
  }

  function JumpSections(l: Layout, tags: Tags): seq<Section> {
    match Get(tags, DT_JMPREL)
    case Some(jmp) =>
      var s := if PltIsRela(l, tags)
               then Bare(".rela.plt", SHT_RELA, SHF_ALLOC + SHF_INFO_LINK, jmp, ".dynsym", PltRelEnt(l, tags), l.Word())
               else Bare(".rel.plt", SHT_REL, SHF_ALLOC + SHF_INFO_LINK, jmp, ".dynsym", PltRelEnt(l, tags), l.Word());
      [Sized(s.(infoName := Ascii(".got.plt")), GetOrZero(tags, DT_PLTRELSZ))]
    case None => []
  }

  function CodeSections(l: Layout, tags: Tags): seq<Section> {
    (match Get(tags, DT_INIT)
     case Some(a) => [Bare(".init", SHT_PROGBITS, SHF_ALLOC + SHF_EXEC, a, "", 0, 4)]
     case None => [])
    + (match Get(tags, DT_JMPREL)
       case Some(jmp) => [Bare(".plt", SHT_PROGBITS, SHF_ALLOC + SHF_EXEC, PltAddr(tags, jmp), "", 16, 16)]
       case None => [])
    + (if TextStart(tags) == 0 then []
       else [Bare(".text", SHT_PROGBITS, SHF_ALLOC + SHF_EXEC, Wrap64(TextStart(tags) + 0x40), "", 0, l.Word())])
  }

  function ArraySections(l: Layout, tags: Tags): seq<Section> {
    (match Get(tags, DT_INIT_ARRAY)
     case Some(a) =>
       [Sized(Bare(".init_array", SHT_INIT_ARRAY, SHF_WRITE + SHF_ALLOC, a, "", l.Word(), l.Word()), GetOrZero(tags, DT_INIT_ARRAYSZ))]
     case None => [])
    + (match Get(tags, DT_FINI_ARRAY)
       case Some(a) =>
         [Sized(Bare(".fini_array", SHT_FINI_ARRAY, SHF_WRITE + SHF_ALLOC, a, "", l.Word(), l.Word()), GetOrZero(tags, DT_FINI_ARRAYSZ))]
       case None => [])
  }

  /** Three reserved slots and one for each jump relocation. */
  function GotPltSize(l: Layout, tags: Tags): u64 {
    Wrap64((3 + GetOrZero(tags, DT_PLTRELSZ) / PltRelEnt(l, tags)) * l.Word())
  }

  /** Where `.got.plt` ends, 0 when that is not known. */
  function GotPltEnd(l: Layout, tags: Tags): u64 {
    match Get(tags, DT_PLTGOT)
    case Some(got) => if GetOrZero(tags, DT_PLTRELSZ) > 0 then Wrap64(got + GotPltSize(l, tags)) else 0
    case None => 0
  }

  function DataSections(l: Layout, tags: Tags, segs: Segments): seq<Section> {
    var fileEnd, memEnd := LoadFileEnd(segs.loads), MaxVaddr(segs.loads);
    [Exactly(Bare(".dynamic", SHT_DYNAMIC, SHF_WRITE + SHF_ALLOC, segs.dynAddr, ".dynstr", l.Pick(16, 8), l.Word()), segs.dynSize)]
    + (match Get(tags, DT_PLTGOT)
       case Some(got) =>
         var s := Bare(".got.plt", SHT_PROGBITS, SHF_WRITE + SHF_ALLOC, got, "", l.Word(), l.Word());
         [if GetOrZero(tags, DT_PLTRELSZ) > 0 then Exactly(s, GotPltSize(l, tags)) else s]
       case None => [])
    + (if 0 < GotPltEnd(l, tags) < fileEnd then
         [Bare(".data", SHT_PROGBITS, SHF_WRITE + SHF_ALLOC, GotPltEnd(l, tags), "", 0, l.Word())]
       else [])
    + (if memEnd > fileEnd then
         [Exactly(Bare(".bss", SHT_NOBITS, SHF_WRITE + SHF_ALLOC, fileEnd, "", 0, l.Word()), memEnd - fileEnd)]
       else [])
  }

  /** Every section the dynamic table and the segments give away, unsorted. */
  function FindSections(l: Layout, data: seq<byte>, tags: Tags, segs: Segments): seq<Section> {
    var count := DynSymCount(l, data, tags);
    HashSections(l, tags) + SymbolSections(l, data, tags, count) + VersionSections(l, tags, count)
    + RelocSections(l, tags) + AndroidRelocSections(l, tags)
    + JumpSections(l, tags) + CodeSections(l, tags) + ArraySections(l, tags) + DataSections(l, tags, segs)
  }

  // ----- the whole discovery -----

  function HeaderPhoff(l: Layout, image: seq<byte>): u64
    requires l.EhdrSize() <= |image|
  {
    l.ReadAddr(image, l.Pick(32, 28))
  }

  /** A size of zero stands for the usual one. */
  function HeaderPhentsize(l: Layout, image: seq<byte>): nat
    requires l.EhdrSize() <= |image|
  {
    var size: nat := Le16(image, l.Pick(54, 42));
    if size == 0 then l.PhdrSize() else size
  }

  function HeaderPhnum(l: Layout, image: seq<byte>): nat
    requires l.EhdrSize() <= |image|
  {
    Le16(image, l.Pick(56, 44))
  }

  function SymbolsAt(tags: Tags, count: nat): Option<(nat, nat)> {
    match Get(tags, DT_SYMTAB)
    case Some(a) => if count > 0 then Some((a, count)) else None
    case None => None
  }

  /** The dynamic table is read from the image with its program headers fixed. */
  function Discover(l: Layout, image: seq<byte>): Result<Found>
    requires l.EhdrSize() <= |image|
  {
    var phoff, entsize, count := HeaderPhoff(l, image), HeaderPhentsize(l, image), HeaderPhnum(l, image);
    if phoff == 0 || count == 0 then Err(NoProgramHeaders)
    else
      var segs := SegmentsFrom(l, image, phoff, entsize, count, 0, NO_SEGMENTS);
      if segs.dynAddr == 0 || segs.loads == [] then Err(NoSegments)
      else
        var data := FixPhdrs(l, image, phoff, entsize, count, 0);
        var tags := TagsFrom(l, data, segs.dynAddr, Wrap64(segs.dynAddr + segs.dynSize), map[]);
        Ok(Found(phoff, entsize, count, FindSections(l, data, tags, segs), LoadFileEnd(segs.loads), MaxVaddr(segs.loads),
                 SymbolsAt(tags, DynSymCount(l, data, tags))))
  }

  /** The class of a little-endian ELF image that holds a whole header. */
  function OpenImage(image: seq<byte>): (r: Result<Layout>)
    ensures r.Ok? ==> r.value.EhdrSize() <= |image|
  {
    if |image| < 16 then Err(TooSmall)
    else if image[..4] != [0x7f, 0x45, 0x4c, 0x46] then Err(InvalidMagic)
    else if (image[4] != 1 && image[4] != 2) || image[5] != 1 then Err(InvalidMagic)
    else if |image| < Layout(image[4] == 2).EhdrSize() then Err(TooSmall)
    else Ok(Layout(image[4] == 2))
  }

  /** `rebuild_so_sections`. */
  function RebuildSo(image: seq<byte>, injected: seq<InjectedSym>): Result<seq<byte>> {
    var l :- OpenImage(image);
    var found :- Discover(l, image);
    Ok(Rebuild(l, image, found, injected))
  }
}
