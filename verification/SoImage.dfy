/**
  The rebuild as it runs: one image, patched in place and extended, each pass
  proved against the function that specifies it.
 */
module SoImages {
  import opened Bytes
  import opened ElfSections
  import opened ElfLayout
  import opened ElfRebuild
  import opened GnuHash
  import opened ElfDiscovery

  /** Size the sorted sections in place. */
  method SizeSections(body: seq<Section>, loadFileEnd: u64, maxVaddr: u64) returns (sized: seq<Section>)
    ensures sized == SizeAll(SortByAddr(body), loadFileEnd, maxVaddr)
  {
    var sorted := SortByAddr(body);
    var work := new Section[|sorted|](i requires 0 <= i < |sorted| => sorted[i]);
    assert work[..] == sorted;
    SizePass(work, loadFileEnd, maxVaddr);
    return work[..];
  }

  /** The section header string table, each new name appended once. */
  method BuildNames(names: seq<seq<byte>>) returns (r: Names)
    ensures r == NameTable(names)
  {
    r := Names([0], map[[] := 0]);
    for i := 0 to |names|
      invariant r == NameTable(names[..i])
    {
      assert names[..i + 1][..i] == names[..i];
      if names[i] !in r.at {
        r := Names(r.tab + names[i] + [0], r.at[names[i] := |r.tab|]);
      }
    }
    assert names[..|names|] == names;
  }

  /** Symbols to inject and their names, built together. */
  method BuildSymbols(l: Layout, injected: seq<InjectedSym>, secs: seq<Section>) returns (symtab: seq<byte>, strtab: seq<byte>)
    ensures symtab == SymTable(l, injected, secs) && strtab == SymNames(injected)
  {
    hide EncodeSym, SectionIndexOf, Wrap32;
    symtab, strtab := Zeros(l.SymSize()), [0];
    for i := 0 to |injected|
      invariant symtab == SymTable(l, injected[..i], secs) && strtab == SymNames(injected[..i])
    {
      assert injected[..i + 1][..i] == injected[..i];
      var shndx := FindSection(secs, injected[i].value);
      symtab := symtab + EncodeSym(l, Wrap32(|strtab|), injected[i].value, shndx);
      strtab := strtab + injected[i].name + [0];
    }
    assert injected[..|injected|] == injected;
  }

  class SoImage {
    const l: Layout
    var data: seq<byte>

    constructor (layout: Layout, image: seq<byte>)
      ensures l == layout && data == image
    {
      l, data := layout, image;
    }

    /** Program headers: offsets become addresses, segments are whole; what they
        said before is noted. */
    method FixProgramHeaders(phoff: nat, entsize: nat, count: nat) returns (segs: Segments)
      modifies this
      ensures data == FixPhdrs(l, old(data), phoff, entsize, count, 0)
      ensures segs == SegmentsFrom(l, old(data), phoff, entsize, count, 0, NO_SEGMENTS)
    {
      hide FixPhdr, PhdrOff, NoteSegment;
      segs := NO_SEGMENTS;
      var i: nat := 0;
      while i < count && PhdrOff(phoff, entsize, i) + l.PhdrSize() <= |data|
        invariant |data| == |old(data)|
        invariant FixPhdrs(l, old(data), phoff, entsize, count, 0) == FixPhdrs(l, data, phoff, entsize, count, i)
        invariant SegmentsFrom(l, old(data), phoff, entsize, count, 0, NO_SEGMENTS) == SegmentsFrom(l, data, phoff, entsize, count, i, segs)
        decreases count - i
      {
        segs := NoteSegment(l, data, PhdrOff(phoff, entsize, i), segs);
        data := FixPhdr(l, data, PhdrOff(phoff, entsize, i));
        i := i + 1;
      }
    }

    /** The dynamic table, up to its null entry. */
    method ReadTags(at: nat, limit: nat) returns (tags: Tags)
      ensures tags == TagsFrom(l, data, at, limit, map[])
    {
      hide Layout.ReadAddr;
      tags := map[];
      var off := at;
      while off + l.Pick(16, 8) <= |data| && off + l.Pick(16, 8) <= limit
        invariant TagsFrom(l, data, at, limit, map[]) == TagsFrom(l, data, off, limit, tags)
        decreases |data| - off
      {
        var tag := l.ReadAddr(data, off);
        if tag == DT_NULL {
          break;
        }
        tags := tags[tag := l.ReadAddr(data, off + l.Word())];
        off := off + l.Pick(16, 8);
      }
    }

    /** `count_local_syms`. */
    method CountLocalSyms(off: nat, count: nat) returns (locals: nat)
      ensures locals == LocalSyms(l, data, off, count)
    {
      locals := 0;
      while locals < count && off + locals * l.SymSize() + l.SymSize() <= |data|
        invariant LeadingLocals(l, data, off, count, 0) == locals + LeadingLocals(l, data, off, count, locals)
        decreases count - locals
      {
        if SymInfo(l, data, off + locals * l.SymSize()) / 0x10 != 0 {
          break;
        }
        locals := locals + 1;
      }
      if locals == 0 {
        locals := 1;
      }
    }

    /** The number of dynamic symbols, from whichever hash table there is. */
    method CountDynSyms(tags: Tags) returns (count: nat)
      ensures count == DynSymCount(l, data, tags)
    {
      hide SymCount;
      if DT_HASH in tags {
        var h := tags[DT_HASH];
        return if h + 8 <= |data| then Le32(data, h + 4) else 0;
      }
      if DT_GNU_HASH in tags {
        count := GnuHashSymCount(data, tags[DT_GNU_HASH], l.Word());
        return;
      }
      return 0;
    }

    /** `remap_sym_shndx`. */
    method RemapSymShndx(off: nat, count: nat, secs: seq<Section>)
      modifies this
      ensures data == RemapFrom(l, old(data), off, count, secs, 0)
    {
      hide RemapSym;
      var i: nat := 0;
      while i < count && off + i * l.SymSize() + l.SymSize() <= |data|
        invariant |data| == |old(data)|
        invariant RemapFrom(l, old(data), off, count, secs, 0) == RemapFrom(l, data, off, count, secs, i)
        decreases count - i
      {
        RemapOne(off + i * l.SymSize(), secs);
        i := i + 1;
      }
    }

    method RemapOne(o: nat, secs: seq<Section>)
      requires o + l.SymSize() <= |data|
      modifies this
      ensures data == RemapSym(l, old(data), o, secs)
    {
      hide SymValue, PutLe16, Contains;
      var shndx := SymShndx(l, data, o);
      if shndx == SHN_UNDEF || shndx >= SHN_LORESERVE {
        return;
      }
      var value := SymValue(l, data, o);
      ghost var k := FindFrom(secs, value, 0);
      for i := 0 to |secs|
        invariant i <= k && data == old(data)
      {
        if Contains(secs[i], value) {
          assert i == k;
          data := Patch(data, o + ShndxOff(l), PutLe16(i % 0x1_0000));
          return;
        }
      }
    }

    method Pad(align: nat)
      modifies this
      ensures data == PadTo(old(data), align)
    {
      while align > 1 && |data| % align != 0
        invariant PadTo(old(data), align) == PadTo(data, align)
        decreases if align <= 1 || |data| % align == 0 then 0 else align - |data| % align
      {
        ModNext(|data|, align);
        data := data + [0];
      }
    }

    /** Payloads go to the end, each at its alignment. */
    method AppendAll(secs: seq<Section>) returns (offs: seq<nat>)
      modifies this
      ensures data == AppendPayloads(old(data), secs).0 && offs == AppendPayloads(old(data), secs).1
    {
      hide PadTo;
      offs := [];
      for i := 0 to |secs|
        invariant AppendPayloads(old(data), secs).0 == AppendPayloads(data, secs[i..]).0
        invariant AppendPayloads(old(data), secs).1 == offs + AppendPayloads(data, secs[i..]).1
      {
        assert secs[i..][1..] == secs[i + 1..];
        ghost var rest := AppendPayloads(data, secs[i..]).1;
        if secs[i].payload.Some? {
          Pad(secs[i].align);
          assert offs + rest == offs + [|data|] + rest[1..];
          offs := offs + [|data|];
          data := data + secs[i].payload.value;
        } else {
          assert offs + rest == offs + [0] + rest[1..];
          offs := offs + [0];
        }
      }
    }

    /** The header table goes last. */
    method AppendHeaders(secs: seq<Section>, offs: seq<nat>, names: Names, shstrtabOff: nat)
      requires |offs| == |secs|
      modifies this
      ensures data == old(data) + HeaderTable(l, secs, offs, names, shstrtabOff, 0)
    {
      hide EncodeShdr, HeaderOf;
      for i := 0 to |secs|
        invariant data + HeaderTable(l, secs, offs, names, shstrtabOff, i) == old(data) + HeaderTable(l, secs, offs, names, shstrtabOff, 0)
      {
        var entry := EncodeShdr(l, HeaderOf(secs, i, offs, names, shstrtabOff));
        assert data + (entry + HeaderTable(l, secs, offs, names, shstrtabOff, i + 1))
            == data + entry + HeaderTable(l, secs, offs, names, shstrtabOff, i + 1);
        data := data + entry;
      }
    }

    /** The second half of `rebuild_so_sections`: sort, size, remap, append. The
        program headers have been fixed. */
    method EmitSections(found: Found, injected: seq<InjectedSym>, ghost image: seq<byte>)
      requires l.EhdrSize() <= |data| == |image|
      requires data == FixPhdrs(l, image, found.phoff, found.phentsize, found.phnum, 0)
      modifies this
      ensures data == Rebuild(l, image, found, injected)
    {
      hide FixPhdrs, RemapFrom, AppendPayloads, NameTable, HeaderTable, PadTo, SetHeader, SizeAll, SortByAddr, SymTable, SymNames;
      var sized := SizeSections(found.body, found.loadFileEnd, found.maxVaddr);
      var loaded := [NULL_SECTION] + sized;
      var extra: seq<Section> := [];
      if injected != [] {
        var symtab, strtab := BuildSymbols(l, injected, loaded);
        extra := [SymtabSection(l, symtab), StrtabSection(strtab)];
      }
      var secs := loaded + extra + [SHSTRTAB_SECTION];
      var names := BuildNames(NamesOf(secs));
      if found.dynsym.Some? {
        RemapSymShndx(found.dynsym.value.0, found.dynsym.value.1, secs);
      }
      var offs := AppendAll(secs);
      var shstrtabOff := |data|;
      data := data + names.tab;
      Pad(l.Word());
      var shoff := |data|;
      AppendHeaders(secs, offs, names, shstrtabOff);
      data := SetHeader(l, data, shoff, |secs|, |secs| - 1);
    }

    /** `rebuild_so_sections` on an image whose header is readable: on success
        the image becomes the rebuilt file. */
    method RebuildSections(injected: seq<InjectedSym>) returns (r: Result<()>)
      requires l.EhdrSize() <= |data|
      modifies this
      ensures match Discover(l, old(data))
              case Ok(found) => r == Ok(()) && data == Rebuild(l, old(data), found, injected)
              case Err(e) => r == Err(e)
    {
      hide FixPhdrs, SegmentsFrom, TagsFrom, FindSections, Rebuild, LoadFileEnd, MaxVaddr, DynSymCount, Wrap64;
      var phoff, entsize, count := HeaderPhoff(l, data), HeaderPhentsize(l, data), HeaderPhnum(l, data);
      if phoff == 0 || count == 0 {
        return Err(NoProgramHeaders);
      }
      var segs := FixProgramHeaders(phoff, entsize, count);
      if segs.dynAddr == 0 || segs.loads == [] {
        return Err(NoSegments);
      }
      var fileEnd, memEnd := SegmentEnds(segs.loads);
      var tags := ReadTags(segs.dynAddr, Wrap64(segs.dynAddr + segs.dynSize));
      var symbols := CountDynSyms(tags);
      var found := Found(phoff, entsize, count, FindSections(l, data, tags, segs), fileEnd, memEnd, SymbolsAt(tags, symbols));
      EmitSections(found, injected, old(data));
      return Ok(());
    }
  }

  /** Where file-backed bytes and addresses end, in one loop. */
  method SegmentEnds(loads: seq<LoadSeg>) returns (fileEnd: u64, memEnd: u64)
    ensures fileEnd == LoadFileEnd(loads) && memEnd == MaxVaddr(loads)
  {
    hide Wrap64;
    fileEnd, memEnd := 0, 0;
    for i := 0 to |loads|
      invariant fileEnd == LoadFileEnd(loads[..i]) && memEnd == MaxVaddr(loads[..i])
    {
      assert loads[..i + 1][..i] == loads[..i];
      if Wrap64(loads[i].vaddr + loads[i].memsz) > memEnd {
        memEnd := Wrap64(loads[i].vaddr + loads[i].memsz);
      }
      if Wrap64(loads[i].vaddr + loads[i].filesz) > fileEnd {
        fileEnd := Wrap64(loads[i].vaddr + loads[i].filesz);
      }
    }
    assert loads[..|loads|] == loads;
  }

  /** `rebuild_so_sections`, from the bytes of an image. */
  method RebuildSoSections(image: seq<byte>, injected: seq<InjectedSym>) returns (r: Result<seq<byte>>)
    ensures r == RebuildSo(image, injected)
  {
    hide Discover, Rebuild;
    var layout := OpenImage(image);
    if layout.Err? {
      return Err(layout.error);
    }
    var so := new SoImage(layout.value, image);
    var done := so.RebuildSections(injected);
    return if done.Ok? then Ok(so.data) else Err(done.error);
  }
}
