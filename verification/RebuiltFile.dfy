/**
  A rebuilt shared object as a reader of section tables sees it: every symbol
  points at the emitted header that holds its value.
 */
module RebuiltFile {
  import opened Bytes
  import opened ElfSections
  import opened ElfLayout
  import opened ElfRebuild
  import opened ElfProofs
  import opened ElfReadBack
  import opened ElfDiscovery

  // ----- what discovery finds -----

  /** A loaded section with a name of its own and no bytes to append. */
  predicate Loadable(s: Section) {
    && Allocated(s) && s.flags <= U32_MAX && s.payload == None
    && 1 < |s.name| <= 16 && 0 !in s.name && s.name != SHSTRTAB_NAME
  }

  predicate AllLoadable(secs: seq<Section>) {
    forall s :: s in secs ==> Loadable(s)
  }

  /** No NUL in it, and not the name of one of the tables that are appended. */
  predicate SectionName(s: string) {
    1 < |s| <= 16 && s[1] != 's' && forall i :: 0 <= i < |s| ==> '\0' < s[i] < 128 as char
  }

  lemma NamedLoadable(s: Section, name: string)
    requires SectionName(name) && s.name == Ascii(name) && Allocated(s) && s.flags <= U32_MAX && s.payload == None
    ensures Loadable(s)
  {
    assert s.name[1] == name[1] as int && SHSTRTAB_NAME[1] == 's' as int;
  }

  lemma TableNames()
    ensures SectionName(".gnu.hash")
    ensures SectionName(".hash")
    ensures SectionName(".dynsym")
    ensures SectionName(".dynstr")
    ensures SectionName(".gnu.version")
    ensures SectionName(".gnu.version_d")
    ensures SectionName(".gnu.version_r")
  {
  }

  lemma RelocNames()
    ensures SectionName(".rela.dyn")
    ensures SectionName(".rel.dyn")
    ensures SectionName(".relr.dyn")
    ensures SectionName(".rela.plt")
    ensures SectionName(".rel.plt")
  {
  }

  lemma ContentNames()
    ensures SectionName(".init")
    ensures SectionName(".plt")
    ensures SectionName(".text")
    ensures SectionName(".init_array")
    ensures SectionName(".fini_array")
    ensures SectionName(".dynamic")
    ensures SectionName(".got.plt")
    ensures SectionName(".data")
    ensures SectionName(".bss")
  {
  }

  lemma JoinLoadable(a: seq<Section>, b: seq<Section>)
    requires AllLoadable(a) && AllLoadable(b)
    ensures AllLoadable(a + b)
  {
    hide Loadable;
  }

  lemma HashLoadable(l: Layout, tags: Tags)
    ensures AllLoadable(HashSections(l, tags)) && |HashSections(l, tags)| <= 2
  {
    hide Loadable, SectionName, Ascii;
    TableNames();
    forall s | s in HashSections(l, tags) ensures Loadable(s) {
      NamedLoadable(s, if s.name == Ascii(".hash") then ".hash" else ".gnu.hash");
    }
  }

  lemma SymbolLoadable(l: Layout, data: seq<byte>, tags: Tags, count: nat)
    ensures AllLoadable(SymbolSections(l, data, tags, count)) && |SymbolSections(l, data, tags, count)| <= 2
  {
    hide Loadable, SectionName, Ascii, LocalSyms;
    TableNames();
    forall s | s in SymbolSections(l, data, tags, count) ensures Loadable(s) {
      NamedLoadable(s, if s.name == Ascii(".dynsym") then ".dynsym" else ".dynstr");
    }
  }

  lemma VersionLoadable(l: Layout, tags: Tags, count: nat)
    ensures AllLoadable(VersionSections(l, tags, count)) && |VersionSections(l, tags, count)| <= 3
  {
    hide Loadable, SectionName, Ascii;
    TableNames();
    forall s | s in VersionSections(l, tags, count) ensures Loadable(s) {
      NamedLoadable(s, if s.name == Ascii(".gnu.version") then ".gnu.version" else if s.name == Ascii(".gnu.version_d") then ".gnu.version_d" else ".gnu.version_r");
    }
  }

  lemma RelocLoadable(l: Layout, tags: Tags)
    ensures AllLoadable(RelocSections(l, tags)) && |RelocSections(l, tags)| <= 3
  {
    hide Loadable, SectionName, Ascii;
    RelocNames();
    forall s | s in RelocSections(l, tags) ensures Loadable(s) {
      NamedLoadable(s, if s.name == Ascii(".rela.dyn") then ".rela.dyn" else if s.name == Ascii(".rel.dyn") then ".rel.dyn" else ".relr.dyn");
    }
  }

  lemma AndroidRelocLoadable(l: Layout, tags: Tags)
    ensures AllLoadable(AndroidRelocSections(l, tags)) && |AndroidRelocSections(l, tags)| <= 3
  {
    hide Loadable, SectionName, Ascii;
    RelocNames();
    forall s | s in AndroidRelocSections(l, tags) ensures Loadable(s) {
      NamedLoadable(s, if s.name == Ascii(".rela.dyn") then ".rela.dyn" else if s.name == Ascii(".rel.dyn") then ".rel.dyn" else ".relr.dyn");
    }
  }

  lemma JumpLoadable(l: Layout, tags: Tags)
    ensures AllLoadable(JumpSections(l, tags)) && |JumpSections(l, tags)| <= 1
  {
    hide Loadable, SectionName, Ascii, PltRelEnt, PltIsRela;
    RelocNames();
    forall s | s in JumpSections(l, tags) ensures Loadable(s) {
      NamedLoadable(s, if s.name == Ascii(".rela.plt") then ".rela.plt" else ".rel.plt");
    }
  }

  lemma CodeLoadable(l: Layout, tags: Tags)
    ensures AllLoadable(CodeSections(l, tags)) && |CodeSections(l, tags)| <= 3
  {
    hide Loadable, SectionName, Ascii, PltAddr, TextStart;
    ContentNames();
    forall s | s in CodeSections(l, tags) ensures Loadable(s) {
      NamedLoadable(s, if s.name == Ascii(".init") then ".init" else if s.name == Ascii(".plt") then ".plt" else ".text");
    }
  }

  lemma ArrayLoadable(l: Layout, tags: Tags)
    ensures AllLoadable(ArraySections(l, tags)) && |ArraySections(l, tags)| <= 2
  {
    hide Loadable, SectionName, Ascii;
    ContentNames();
    forall s | s in ArraySections(l, tags) ensures Loadable(s) {
      NamedLoadable(s, if s.name == Ascii(".init_array") then ".init_array" else ".fini_array");
    }
  }

  lemma DataLoadable(l: Layout, tags: Tags, segs: Segments)
    ensures AllLoadable(DataSections(l, tags, segs)) && |DataSections(l, tags, segs)| <= 4
  {
    hide Loadable, SectionName, Ascii, GotPltEnd, GotPltSize, LoadFileEnd, MaxVaddr;
    ContentNames();
    forall s | s in DataSections(l, tags, segs) ensures Loadable(s) {
      NamedLoadable(s, if s.name == Ascii(".dynamic") then ".dynamic" else if s.name == Ascii(".got.plt") then ".got.plt" else if s.name == Ascii(".data") then ".data" else ".bss");
    }
  }

  /** Whatever the image, the sections found are few, loaded, and properly
      named. */
  lemma FoundLoadable(l: Layout, data: seq<byte>, tags: Tags, segs: Segments)
    ensures AllLoadable(FindSections(l, data, tags, segs)) && |FindSections(l, data, tags, segs)| <= 23
  {
    hide AllLoadable, HashSections, SymbolSections, VersionSections, RelocSections, AndroidRelocSections, JumpSections, CodeSections, ArraySections,
      DataSections, DynSymCount;
    var count := DynSymCount(l, data, tags);
    HashLoadable(l, tags);
    SymbolLoadable(l, data, tags, count);
    VersionLoadable(l, tags, count);
    RelocLoadable(l, tags);
    AndroidRelocLoadable(l, tags);
    JumpLoadable(l, tags);
    CodeLoadable(l, tags);
    ArrayLoadable(l, tags);
    DataLoadable(l, tags, segs);
    var a := HashSections(l, tags) + SymbolSections(l, data, tags, count);
    JoinLoadable(HashSections(l, tags), SymbolSections(l, data, tags, count));
    var b := a + VersionSections(l, tags, count);
    JoinLoadable(a, VersionSections(l, tags, count));
    var c := b + RelocSections(l, tags);
    JoinLoadable(b, RelocSections(l, tags));
    var d := c + AndroidRelocSections(l, tags);
    JoinLoadable(c, AndroidRelocSections(l, tags));
    var j := d + JumpSections(l, tags);
    JoinLoadable(d, JumpSections(l, tags));
    var e := j + CodeSections(l, tags);
    JoinLoadable(j, CodeSections(l, tags));
    JoinLoadable(e, ArraySections(l, tags));
    JoinLoadable(e + ArraySections(l, tags), DataSections(l, tags, segs));
  }

  lemma DiscoveredLoadable(l: Layout, image: seq<byte>)
    requires l.EhdrSize() <= |image| && Discover(l, image).Ok?
    ensures AllLoadable(Discover(l, image).value.body) && |Discover(l, image).value.body| <= 23
  {
    hide AllLoadable, FindSections, SegmentsFrom, TagsFrom, FixPhdrs, LoadFileEnd, MaxVaddr, DynSymCount, Wrap64, HeaderPhoff,
      HeaderPhentsize, HeaderPhnum;
    var phoff, entsize, count := HeaderPhoff(l, image), HeaderPhentsize(l, image), HeaderPhnum(l, image);
    var segs := SegmentsFrom(l, image, phoff, entsize, count, 0, NO_SEGMENTS);
    var data := FixPhdrs(l, image, phoff, entsize, count, 0);
    FoundLoadable(l, data, TagsFrom(l, data, segs.dynAddr, Wrap64(segs.dynAddr + segs.dynSize), map[]), segs);
  }

  // ----- sorting and sizing -----

  lemma SizeToLoadable(s: Section, next: u64)
    requires Loadable(s)
    ensures Loadable(SizeTo(s, next))
  {
  }

  lemma SizedLoadable(body: seq<Section>, loadFileEnd: u64, maxVaddr: u64)
    requires AllLoadable(body)
    ensures AllLoadable(SizeAll(SortByAddr(body), loadFileEnd, maxVaddr))
  {
    hide Loadable, SortByAddr, NextStart, SizeTo;
    var sorted := SortByAddr(body);
    SortIs(body);
    forall i | 0 <= i < |sorted| ensures Loadable(SizeAll(sorted, loadFileEnd, maxVaddr)[i]) {
      assert sorted[i] in multiset(sorted);
      assert sorted[i] in body;
      SizeToLoadable(sorted[i], NextStart(sorted, i, loadFileEnd, maxVaddr));
    }
  }

  /** Section `k` of a rebuilt file: null, loaded, or appended. */
  lemma SectionKinds(l: Layout, found: Found, injected: seq<InjectedSym>, k: nat)
    requires AllLoadable(found.body) && k < |RebuiltSections(l, found, injected)|
    ensures |LoadedOf(found)| == |found.body| + 1 && |RebuiltSections(l, found, injected)| <= |found.body| + 4
    ensures var s := RebuiltSections(l, found, injected)[k];
            if 0 < k < |LoadedOf(found)| then Loadable(s) && s == LoadedOf(found)[k] else s.flags == 0
  {
    hide Loadable, SortByAddr, SizeAll, SymTable, SymNames;
    SizedLoadable(found.body, found.loadFileEnd, found.maxVaddr);
    var sized := SizeAll(SortByAddr(found.body), found.loadFileEnd, found.maxVaddr);
    assert LoadedOf(found) == [NULL_SECTION] + sized;
    if 0 < k < |LoadedOf(found)| {
      assert RebuiltSections(l, found, injected)[k] == sized[k - 1];
      assert sized[k - 1] in sized;
    }
  }

  // ----- headers, as the file gives them -----

  /** An address as large as the file can be written in its class. */
  predicate Addressable(l: Layout, n: nat) {
    n <= if l.is64 then U64_MAX else U32_MAX
  }

  /** Header `k` of the table the file header points at. */
  function HeaderIn(l: Layout, r: seq<byte>, k: nat): Option<Shdr> {
    if l.EhdrSize() > |r| then None
    else
      var at := l.ReadAddr(r, l.Pick(40, 32)) + k * l.ShdrSize();
      if k < Le16(r, l.Pick(60, 48)) && at + l.ShdrSize() <= |r| then Some(ReadShdr(l, r, at)) else None
  }

  /** The header's range holds `value`. */
  predicate HeaderHolds(h: Shdr, value: u64) {
    h.flags / 2 % 2 == 1 && h.size != 0 && h.addr <= value < Wrap64(h.addr + h.size)
  }

  lemma HeadersAreFound(l: Layout, image: seq<byte>, found: Found, injected: seq<InjectedSym>, k: nat)
    requires l.EhdrSize() <= |image| && Addressable(l, |Rebuild(l, image, found, injected)|)
    requires |RebuiltSections(l, found, injected)| <= 0xff00
    ensures HeaderIn(l, Rebuild(l, image, found, injected), k)
            == if k < |RebuiltSections(l, found, injected)| then Some(Fitted(l, HeaderFor(l, image, found, injected, k))) else None
  {
    hide Rebuild, RebuiltSections, HeaderFor, ReadShdr, Fitted, RebuiltPlacement, Layout.ReadAddr;
    HeaderLeadsToTable(l, image, found, injected);
    var shoff := RebuiltPlacement(l, image, found, injected).shoff;
    if k < |RebuiltSections(l, found, injected)| {
      HeadersReadBack(l, image, found, injected, k);
      assert shoff <= HeaderAt(l, shoff, k) <= |Rebuild(l, image, found, injected)|;
      FitsAddress(l, shoff, |Rebuild(l, image, found, injected)|);
    }
  }

  lemma FitsAddress(l: Layout, n: nat, limit: nat)
    requires n <= limit && Addressable(l, limit)
    ensures l.Fit(Wrap64(n)) == n
  {
  }

  /** Addresses and sizes can be written down in the class of the file. */
  predicate FitsClass(l: Layout, secs: seq<Section>) {
    forall s :: s in secs ==> Addressable(l, s.addr) && Addressable(l, s.size)
  }

  lemma LoadedHeader(l: Layout, secs: seq<Section>, k: nat, offs: seq<nat>, names: Names, shstrtabOff: nat, value: u64)
    requires k < |secs| && |offs| == |secs|
    requires secs[k].flags == 0 || (Loadable(secs[k]) && Addressable(l, secs[k].addr) && Addressable(l, secs[k].size))
    ensures HeaderHolds(Fitted(l, HeaderOf(secs, k, offs, names, shstrtabOff)), value) <==> Contains(secs[k], value)
  {
    hide Wrap64, IndexOfName;
    var s := secs[k];
    var h := HeaderOf(secs, k, offs, names, shstrtabOff);
    assert h.flags == s.flags;
    if Loadable(s) {
      assert h.addr == s.addr && h.size == s.size;
    }
  }

  /** The emitted headers say what the sections are. */
  lemma HeaderSays(l: Layout, image: seq<byte>, found: Found, injected: seq<InjectedSym>, k: nat, value: u64)
    requires l.EhdrSize() <= |image| && Addressable(l, |Rebuild(l, image, found, injected)|)
    requires |RebuiltSections(l, found, injected)| <= 0xff00 && k < |RebuiltSections(l, found, injected)|
    requires AllLoadable(found.body) && FitsClass(l, LoadedOf(found))
    ensures var h := HeaderIn(l, Rebuild(l, image, found, injected), k);
            h.Some? && (HeaderHolds(h.value, value) <==> Contains(RebuiltSections(l, found, injected)[k], value))
  {
    hide Rebuild, RebuiltSections, HeaderOf, Fitted, HeaderIn, HeaderHolds, Contains, Loadable, AllLoadable, LoadedList, PlacementOf, Patched;
    HeadersAreFound(l, image, found, injected, k);
    SectionKinds(l, found, injected, k);
    assert 0 < k < |LoadedOf(found)| ==> LoadedOf(found)[k] in LoadedOf(found);
    var p := RebuiltPlacement(l, image, found, injected);
    LoadedHeader(l, RebuiltSections(l, found, injected), k, p.offs, p.names, p.shstrtabOff, value);
  }

  // ----- the rebuilt file -----

  /** What reading an image found, when it can be rebuilt. */
  function FoundIn(image: seq<byte>): Found
    requires OpenImage(image).Ok? && Discover(OpenImage(image).value, image).Ok?
  {
    Discover(OpenImage(image).value, image).value
  }

  /** What the theorems ask of an image: it can be rebuilt into a file its class
      can address, with sections it can describe, and sections that share a
      start stay apart. */
  ghost predicate Describable(image: seq<byte>, injected: seq<InjectedSym>) {
    && OpenImage(image).Ok? && Discover(OpenImage(image).value, image).Ok?
    && var l, found := OpenImage(image).value, FoundIn(image);
    && Addressable(l, |Rebuild(l, image, found, injected)|)
    && FitsClass(l, LoadedOf(found))
    && SharedStartsApart(SortByAddr(found.body), found.loadFileEnd, found.maxVaddr)
  }

  /** The header with index `ndx` holds `value`, and no other header does; index 0
      says that none does. */
  ghost predicate Locates(l: Layout, r: seq<byte>, ndx: nat, value: u64) {
    forall k: nat :: HeaderIn(l, r, k).Some? ==> (HeaderHolds(HeaderIn(l, r, k).value, value) <==> k == ndx != 0)
  }

  ghost predicate NoHeaderHolds(l: Layout, r: seq<byte>, value: u64) {
    forall k: nat :: HeaderIn(l, r, k).Some? ==> !HeaderHolds(HeaderIn(l, r, k).value, value)
  }

  lemma RebuildSoIs(image: seq<byte>, injected: seq<InjectedSym>)
    requires Describable(image, injected)
    ensures RebuildSo(image, injected) == Ok(Rebuild(OpenImage(image).value, image, FoundIn(image), injected))
    ensures var l, found := OpenImage(image).value, FoundIn(image);
            l.EhdrSize() <= |image| && AllLoadable(found.body) && |RebuiltSections(l, found, injected)| <= 30
  {
    hide OpenImage, Discover, Rebuild, AllLoadable, RebuiltSections, LoadedList, FitsClass, SharedStartsApart;
    var l, found := OpenImage(image).value, FoundIn(image);
    DiscoveredLoadable(l, image);
    SomeSections(l, found, injected);
    SectionKinds(l, found, injected, 0);
  }

  /** Headers and sections agree, whatever the value. */
  lemma HeadersAgree(image: seq<byte>, injected: seq<InjectedSym>, value: u64)
    requires Describable(image, injected)
    ensures var l, found := OpenImage(image).value, FoundIn(image);
            var r, secs := Rebuild(l, image, found, injected), RebuiltSections(l, found, injected);
            forall k: nat :: if k < |secs| then HeaderIn(l, r, k).Some? && (HeaderHolds(HeaderIn(l, r, k).value, value) <==> Contains(secs[k], value))
                             else HeaderIn(l, r, k) == None
  {
    hide OpenImage, Discover, Rebuild, AllLoadable, RebuiltSections, LoadedOf, FitsClass, SharedStartsApart, HeaderIn, HeaderHolds, Contains,
      HeaderFor, Fitted;
    RebuildSoIs(image, injected);
    var l, found := OpenImage(image).value, FoundIn(image);
    var r, secs := Rebuild(l, image, found, injected), RebuiltSections(l, found, injected);
    forall k: nat
      ensures if k < |secs| then HeaderIn(l, r, k).Some? && (HeaderHolds(HeaderIn(l, r, k).value, value) <==> Contains(secs[k], value))
              else HeaderIn(l, r, k) == None
    {
      HeadersAreFound(l, image, found, injected, k);
      if k < |secs| {
        HeaderSays(l, image, found, injected, k, value);
      }
    }
  }

  /** The lookup, told by headers: it gives the one that holds the value, or 0
      when none does. */
  lemma LookupLocates(image: seq<byte>, injected: seq<InjectedSym>, value: u64)
    requires Describable(image, injected)
    ensures var l, found := OpenImage(image).value, FoundIn(image);
            var r, secs := Rebuild(l, image, found, injected), RebuiltSections(l, found, injected);
            && Locates(l, r, SectionIndexOf(secs, value), value)
            && (SectionIndexOf(secs, value) == 0 <==> NoHeaderHolds(l, r, value))
            && (SectionIndexOf(secs, value) == 0 <==> FindFrom(secs, value, 0) == |secs|)
  {
    hide OpenImage, Discover, Rebuild, AllLoadable, RebuiltSections, LoadedOf, FitsClass, SharedStartsApart, HeaderIn, HeaderHolds, Contains,
      SizeAll, SortByAddr, RebuiltList;
    RebuildSoIs(image, injected);
    var l, found := OpenImage(image).value, FoundIn(image);
    var secs := RebuiltSections(l, found, injected);
    HeadersAgree(image, injected, value);
    RebuiltIsList(l, found, injected);
    IndexIsExact(secs, found.body, found.loadFileEnd, found.maxVaddr);
    SomeSections(l, found, injected);
    NullHoldsNothing(l, found, injected, value);
  }

  lemma NullHoldsNothing(l: Layout, found: Found, injected: seq<InjectedSym>, value: u64)
    requires AllLoadable(found.body) && |RebuiltSections(l, found, injected)| > 0
    ensures !Contains(RebuiltSections(l, found, injected)[0], value)
  {
    hide AllLoadable, RebuiltSections, LoadedOf;
    SectionKinds(l, found, injected, 0);
  }

  /** Every dynamic symbol of a rebuilt file keeps its value. A defined one whose
      value some emitted header holds names that header, the only one that does;
      any other keeps its index. */
  lemma DynamicSymbolsNameTheirHeaders(image: seq<byte>, injected: seq<InjectedSym>, addr: nat, count: nat, j: nat)
    requires Describable(image, injected) && FoundIn(image).dynsym == Some((addr, count)) && j < count
    requires var l := OpenImage(image).value; l.EhdrSize() <= SymAt(l, addr, j) && SymAt(l, addr, j) + l.SymSize() <= |image|
    ensures RebuildSo(image, injected).Ok?
    ensures
      var l, r := OpenImage(image).value, RebuildSo(image, injected).value;
      var fixed, o := FixedImage(l, image, FoundIn(image)), SymAt(l, addr, j);
      && o + l.SymSize() <= |r| && SymValue(l, r, o) == SymValue(l, fixed, o)
      && (0 < SymShndx(l, fixed, o) < SHN_LORESERVE && !NoHeaderHolds(l, r, SymValue(l, r, o)) ==>
            Locates(l, r, SymShndx(l, r, o), SymValue(l, r, o)))
      && (!(0 < SymShndx(l, fixed, o) < SHN_LORESERVE) || NoHeaderHolds(l, r, SymValue(l, r, o)) ==>
            SymShndx(l, r, o) == SymShndx(l, fixed, o))
  {
    hide OpenImage, Discover, Rebuild, AllLoadable, RebuiltSections, LoadedOf, FitsClass, SharedStartsApart, HeaderIn, HeaderHolds,
      Locates, NoHeaderHolds, SymShndx, SymValue, FixPhdrs, SymAt, RebuildSo;
    RebuildSoIs(image, injected);
    var l, found := OpenImage(image).value, FoundIn(image);
    RebuiltSymbol(l, image, found, injected, addr, count, j);
    LookupLocates(image, injected, SymValue(l, FixedImage(l, image, found), SymAt(l, addr, j)));
  }

  /** Every injected symbol reads back from the rebuilt file with its name and
      value, naming the only header that holds the value, or none. */
  lemma InjectedSymbolsNameTheirHeaders(image: seq<byte>, injected: seq<InjectedSym>, i: nat)
    requires Describable(image, injected) && i < |injected|
    requires 0 !in injected[i].name && |SymNames(injected)| <= U32_MAX && Addressable(OpenImage(image).value, injected[i].value)
    ensures RebuildSo(image, injected).Ok?
    ensures
      var l, found, r := OpenImage(image).value, FoundIn(image), RebuildSo(image, injected).value;
      var at := InjectedAt(l, image, found, injected, i);
      && at + l.SymSize() <= |r|
      && ReadName(r, InjectedNames(l, image, found, injected) + SymName(r, at)) == Some(injected[i].name)
      && SymValue(l, r, at) == injected[i].value
      && Locates(l, r, SymShndx(l, r, at), injected[i].value)
      && (SymShndx(l, r, at) == SHN_UNDEF <==> NoHeaderHolds(l, r, injected[i].value))
  {
    hide OpenImage, Discover, Rebuild, AllLoadable, RebuiltSections, LoadedOf, FitsClass, SharedStartsApart, HeaderIn, HeaderHolds,
      Locates, NoHeaderHolds, SymShndx, SymValue, SymName, ReadName, RebuildSo, InjectedAt, InjectedNames, SymNames, SectionIndexOf;
    RebuildSoIs(image, injected);
    var l, found := OpenImage(image).value, FoundIn(image);
    InjectedReadsBack(l, image, found, injected, i);
    LookupLocates(image, injected, injected[i].value);
    SameLookup(l, found, injected, injected[i].value);
    FitsAddress(l, injected[i].value, injected[i].value);
  }

  /** Looking a value up among the loaded sections or among all is the same. */
  lemma SameLookup(l: Layout, found: Found, injected: seq<InjectedSym>, value: u64)
    requires AllLoadable(found.body) && |RebuiltSections(l, found, injected)| <= 30
    ensures SectionIndexOf(LoadedOf(found), value) == SectionIndexOf(RebuiltSections(l, found, injected), value)
  {
    hide AllLoadable, RebuiltSections, LoadedOf, Contains;
    var secs, loaded := RebuiltSections(l, found, injected), LoadedOf(found);
    SomeSections(l, found, injected);
    RebuiltIsList(l, found, injected);
    SectionKinds(l, found, injected, 0);
    var k := FindFrom(secs, value, 0);
    if k < |secs| {
      SectionKinds(l, found, injected, k);
      FlaglessHoldsNothing(secs[k], value);
    }
    assert forall n :: 0 <= n < |loaded| ==> secs[n] == loaded[n];
  }

  lemma FlaglessHoldsNothing(s: Section, value: u64)
    ensures s.flags == 0 ==> !Contains(s, value)
  {
  }

  // ----- section names -----

  lemma {:induction false} NameTableShort(names: seq<seq<byte>>)
    requires forall name :: name in names ==> |name| <= 16
    ensures |NameTable(names).tab| <= 1 + 17 * |names|
    decreases |names|
  {
    if names != [] {
      NameTableShort(names[..|names| - 1]);
    }
  }

  /** Appended sections have names of their own, the null section none. */
  lemma NamesAreShort(l: Layout, found: Found, injected: seq<InjectedSym>, k: nat)
    requires AllLoadable(found.body) && k < |RebuiltSections(l, found, injected)|
    ensures var name := RebuiltSections(l, found, injected)[k].name; |name| <= 16 && 0 !in name
  {
    hide AllLoadable, SizeAll, SortByAddr, SymTable, SymNames;
    SectionKinds(l, found, injected, k);
    var sized := SizeAll(SortByAddr(found.body), found.loadFileEnd, found.maxVaddr);
    assert LoadedOf(found) == [NULL_SECTION] + sized;
  }

  lemma NameTableFits(image: seq<byte>, injected: seq<InjectedSym>)
    requires Describable(image, injected)
    ensures var l, found := OpenImage(image).value, FoundIn(image);
            |RebuiltPlacement(l, image, found, injected).names.tab| <= U32_MAX
  {
    hide OpenImage, Discover, Rebuild, AllLoadable, RebuiltSections, LoadedOf, FitsClass, SharedStartsApart, Patched, NameTable, AppendPayloads,
      Appended;
    RebuildSoIs(image, injected);
    var l, found := OpenImage(image).value, FoundIn(image);
    var secs := RebuiltSections(l, found, injected);
    forall name | name in NamesOf(secs) ensures |name| <= 16 {
      var k :| 0 <= k < |secs| && NamesOf(secs)[k] == name;
      NamesAreShort(l, found, injected, k);
    }
    NameTableShort(NamesOf(secs));
  }

  /** The name of every section reads back from the string table the file header
      points at. */
  lemma SectionNamesReadBack(image: seq<byte>, injected: seq<InjectedSym>, k: nat)
    requires Describable(image, injected)
    requires k < |RebuiltSections(OpenImage(image).value, FoundIn(image), injected)|
    ensures RebuildSo(image, injected).Ok?
    ensures
      var l, found, r := OpenImage(image).value, FoundIn(image), RebuildSo(image, injected).value;
      && l.EhdrSize() <= |r|
      && var strings := HeaderIn(l, r, Le16(r, l.Pick(62, 50)));
      && HeaderIn(l, r, k).Some? && strings.Some?
      && ReadName(r, strings.value.off + HeaderIn(l, r, k).value.name) == Some(RebuiltSections(l, found, injected)[k].name)
  {
    hide OpenImage, Discover, Rebuild, AllLoadable, RebuiltSections, LoadedOf, FitsClass, SharedStartsApart, HeaderIn, RebuildSo, ReadName,
      HeaderFor, Fitted, RebuiltPlacement;
    RebuildSoIs(image, injected);
    var l, found := OpenImage(image).value, FoundIn(image);
    var r, secs := Rebuild(l, image, found, injected), RebuiltSections(l, found, injected);
    HeaderLeadsToTable(l, image, found, injected);
    NamesAreShort(l, found, injected, k);
    NameTableFits(image, injected);
    SectionNameReadsBack(l, image, found, injected, k);
    HeadersAreFound(l, image, found, injected, k);
    HeadersAreFound(l, image, found, injected, |secs| - 1);
    StringsHeader(image, injected);
    SameName(l, HeaderFor(l, image, found, injected, k));
  }

  lemma SameName(l: Layout, h: Shdr)
    ensures Fitted(l, h).name == h.name
  {
  }

  /** The last header is that of the names. */
  lemma StringsHeader(image: seq<byte>, injected: seq<InjectedSym>)
    requires Describable(image, injected)
    ensures var l, found := OpenImage(image).value, FoundIn(image);
            var n := |RebuiltSections(l, found, injected)|;
            && n > 0
            && Fitted(l, HeaderFor(l, image, found, injected, n - 1)).off == RebuiltPlacement(l, image, found, injected).shstrtabOff
  {
    hide OpenImage, Discover, Rebuild, AllLoadable, RebuiltSections, FitsClass, SharedStartsApart, RebuiltPlacement, Patched;
    RebuildSoIs(image, injected);
    var l, found := OpenImage(image).value, FoundIn(image);
    HeaderLeadsToTable(l, image, found, injected);
    NamesPlace(l, image, found, injected);
    var p := RebuiltPlacement(l, image, found, injected);
    FitsAddress(l, p.shstrtabOff, |Rebuild(l, image, found, injected)|);
  }

  lemma NamesPlace(l: Layout, image: seq<byte>, found: Found, injected: seq<InjectedSym>)
    requires l.EhdrSize() <= |image|
    ensures RebuiltPlacement(l, image, found, injected).shstrtabOff <= |Rebuild(l, image, found, injected)|
  {
    hide Rebuild, RebuiltSections, PlacementOf, Patched, HeaderTable, PayloadAt, PayloadsApart, Holds;
    RebuildLayout(l, image, found, injected);
  }
}
