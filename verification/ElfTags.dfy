/**
  From dynamic tags to emitted section headers: what each tag of a shared object
  becomes in the rebuilt file, read from the file.
 */
module ElfTags {
  import opened Bytes
  import opened ElfSections
  import opened ElfLayout
  import opened ElfRebuild
  import opened ElfProofs
  import opened ElfReadBack
  import opened ElfDiscovery
  import opened GnuHash
  import opened RebuiltFile

  // ----- headers of found sections -----

  /** The name of a header, from the string table the file header names. */
  ghost function NameIn(l: Layout, r: seq<byte>, h: Shdr): Option<seq<byte>> {
    if |r| < l.EhdrSize() then None
    else
      match HeaderIn(l, r, Le16(r, l.Pick(62, 50)))
      case None => None
      case Some(strings) => ReadName(r, strings.off + h.name)
  }

  ghost predicate Named(l: Layout, r: seq<byte>, k: nat, name: seq<byte>) {
    HeaderIn(l, r, k).Some? && NameIn(l, r, HeaderIn(l, r, k).value) == Some(name)
  }

  /** The index of the last header with this name; 0 for none, or no name. */
  ghost predicate LinksTo(l: Layout, r: seq<byte>, n: nat, name: seq<byte>) {
    if name == [] then n == 0
    else
      || (Named(l, r, n, name) && forall k: nat :: k > n ==> !Named(l, r, k, name))
      || (n == 0 && forall k: nat :: !Named(l, r, k, name))
  }

  /** The header says of a loaded section everything but its size. */
  ghost predicate Describes(l: Layout, r: seq<byte>, h: Shdr, s: Section) {
    && NameIn(l, r, h) == Some(s.name) && h.typ == s.typ && h.flags == s.flags
    && h.addr == s.addr && h.off == s.addr && h.align == l.Fit(s.align) && h.entsize == l.Fit(s.entsize)
    && LinksTo(l, r, h.link, s.linkName)
    && if s.infoName == [] then h.info == s.info else LinksTo(l, r, h.info, s.infoName)
  }

  lemma {:induction false} IndexIs(secs: seq<Section>, name: seq<byte>)
    ensures name == [] ==> IndexOfName(secs, name) == 0
    ensures name != [] ==>
              var n := IndexOfName(secs, name);
              || (n < |secs| && secs[n].name == name && forall k :: n < k < |secs| ==> secs[k].name != name)
              || (n == 0 && forall k :: 0 <= k < |secs| ==> secs[k].name != name)
    decreases |secs|
  {
    if secs != [] && name != [] && secs[|secs| - 1].name != name {
      IndexIs(secs[..|secs| - 1], name);
    }
  }

  /** `r` is what an image with describable sections is rebuilt into. */
  ghost predicate IsRebuilt(image: seq<byte>, injected: seq<InjectedSym>, l: Layout, found: Found, r: seq<byte>) {
    Describable(image, injected) && l == OpenImage(image).value && found == FoundIn(image) && RebuildSo(image, injected) == Ok(r)
  }

  lemma NamedOwn(image: seq<byte>, injected: seq<InjectedSym>, l: Layout, found: Found, r: seq<byte>, k: nat)
    requires IsRebuilt(image, injected, l, found, r) && k < |RebuiltSections(l, found, injected)|
    ensures HeaderIn(l, r, k).Some? && NameIn(l, r, HeaderIn(l, r, k).value) == Some(RebuiltSections(l, found, injected)[k].name)
  {
    hide Describable, OpenImage, Discover, RebuiltSections, RebuildSo, HeaderIn, ReadName, Le16;
    SectionNamesReadBack(image, injected, k);
  }

  lemma NamedIs(image: seq<byte>, injected: seq<InjectedSym>, l: Layout, found: Found, r: seq<byte>, k: nat)
    requires IsRebuilt(image, injected, l, found, r)
    ensures forall name :: Named(l, r, k, name) <==>
                             k < |RebuiltSections(l, found, injected)| && RebuiltSections(l, found, injected)[k].name == name
  {
    hide IsRebuilt, RebuiltSections, HeaderIn, NameIn, HeaderFor, Fitted;
    HeaderExists(image, injected, l, found, r, k);
    if k < |RebuiltSections(l, found, injected)| {
      NamedOwn(image, injected, l, found, r, k);
    }
  }

  /** Every header of a rebuilt file has the name of its section. */
  lemma AllNamed(image: seq<byte>, injected: seq<InjectedSym>, l: Layout, found: Found, r: seq<byte>)
    requires IsRebuilt(image, injected, l, found, r)
    ensures var secs := RebuiltSections(l, found, injected);
            forall k: nat, name :: Named(l, r, k, name) <==> k < |secs| && secs[k].name == name
  {
    hide IsRebuilt, RebuiltSections, Named;
    forall k: nat, name
      ensures Named(l, r, k, name) <==>
                k < |RebuiltSections(l, found, injected)| && RebuiltSections(l, found, injected)[k].name == name
    {
      NamedIs(image, injected, l, found, r, k);
    }
  }

  /** Header `k` is there exactly when section `k` is. */
  lemma HeaderExists(image: seq<byte>, injected: seq<InjectedSym>, l: Layout, found: Found, r: seq<byte>, k: nat)
    requires IsRebuilt(image, injected, l, found, r)
    ensures l.EhdrSize() <= |r| && l.EhdrSize() <= |image| && 0 < |RebuiltSections(l, found, injected)| <= 30
    ensures HeaderIn(l, r, k)
            == if k < |RebuiltSections(l, found, injected)| then Some(Fitted(l, HeaderFor(l, image, found, injected, k))) else None
  {
    hide OpenImage, Discover, Rebuild, AllLoadable, RebuiltSections, LoadedOf, FitsClass, SharedStartsApart, HeaderIn, RebuildSo, HeaderFor,
      Fitted;
    RebuildSoIs(image, injected);
    SomeSections(l, found, injected);
    HeadersAreFound(l, image, found, injected, k);
    HeaderLeadsToTable(l, image, found, injected);
  }

  lemma LinkIs(l: Layout, r: seq<byte>, secs: seq<Section>, name: seq<byte>)
    requires forall k: nat, n :: Named(l, r, k, n) <==> k < |secs| && secs[k].name == n
    requires |secs| <= 30
    ensures IndexOfName(secs, name) <= U32_MAX && LinksTo(l, r, Wrap32(IndexOfName(secs, name)), name)
  {
    hide Named, IndexOfName;
    IndexIs(secs, name);
    WrapFits(IndexOfName(secs, name));
  }

  /** The size of a section that stands before `next`: unknown sizes reach to it,
      known ones at most. */
  ghost predicate SizeRight(s: Section, size: u64, next: u64) {
    if next <= s.addr then size == s.size
    else if s.hasSize then size == Min(s.size, next - s.addr)
    else size == next - s.addr
  }

  /** Where the section after number `k` starts, or the image ends. */
  ghost function StartAfter(found: Found, secs: seq<Section>, k: nat): u64
    requires k < |secs|
  {
    if k < |found.body| && k + 1 < |secs| then secs[k + 1].addr
    else if secs[k].typ == SHT_NOBITS then found.maxVaddr else found.loadFileEnd
  }

  ghost function SizedOf(found: Found): (r: seq<Section>)
    ensures |r| == |found.body|
  {
    SizeAll(SortByAddr(found.body), found.loadFileEnd, found.maxVaddr)
  }

  /** Loaded sections follow the null one. */
  lemma LoadedPlace(l: Layout, found: Found, injected: seq<InjectedSym>, i: nat)
    requires i < |found.body|
    ensures var secs := RebuiltSections(l, found, injected);
            |found.body| + 1 < |secs| && secs[i + 1] == SizedOf(found)[i] && secs[i + 1] in LoadedOf(found)
  {
    hide SizeAll, SortByAddr, InjectedList;
    assert LoadedOf(found) == [NULL_SECTION] + SizedOf(found);
    assert LoadedOf(found)[i + 1] == SizedOf(found)[i];
  }

  lemma SizedIs(found: Found, i: nat)
    requires i < |found.body|
    ensures var sorted := SortByAddr(found.body);
            var next := if i + 1 < |sorted| then SizedOf(found)[i + 1].addr
                        else if SizedOf(found)[i].typ == SHT_NOBITS then found.maxVaddr else found.loadFileEnd;
            && SizedOf(found)[i] == sorted[i].(size := SizedOf(found)[i].size)
            && SizeRight(sorted[i], SizedOf(found)[i].size, next)
  {
    hide SortByAddr, SizeTo, SizeRight;
    var sorted := SortByAddr(found.body);
    SizeToOnly(sorted[i], NextStart(sorted, i, found.loadFileEnd, found.maxVaddr));
    if i + 1 < |sorted| {
      SizeToOnly(sorted[i + 1], NextStart(sorted, i + 1, found.loadFileEnd, found.maxVaddr));
    }
  }

  /** Sorting and sizing move a found section to some place, and change nothing of
      it but its size. */
  lemma PlacedAt(l: Layout, found: Found, injected: seq<InjectedSym>, k: nat)
    requires 0 < k <= |found.body| && AllLoadable(found.body)
    ensures var s, secs := SortByAddr(found.body)[k - 1], RebuiltSections(l, found, injected);
            && |found.body| < |secs| && secs[k] == s.(size := secs[k].size) && Loadable(secs[k]) && secs[k] in LoadedOf(found)
            && SizeRight(s, secs[k].size, StartAfter(found, secs, k))
  {
    hide SortByAddr, Loadable, SizeAll, SizeRight, RebuiltSections, LoadedOf;
    SizedLoadable(found.body, found.loadFileEnd, found.maxVaddr);
    assert SizedOf(found)[k - 1] in SizedOf(found);
    LoadedPlace(l, found, injected, k - 1);
    SizedIs(found, k - 1);
    if k < |found.body| {
      LoadedPlace(l, found, injected, k);
    }
  }

  lemma SizeToOnly(s: Section, next: u64)
    ensures SizeTo(s, next) == s.(size := SizeTo(s, next).size) && SizeRight(s, SizeTo(s, next).size, next)
  {
  }

  lemma HeaderFields(l: Layout, secs: seq<Section>, k: nat, offs: seq<nat>, names: Names, shstrtabOff: nat)
    requires k < |secs| && |offs| == |secs| && Loadable(secs[k]) && Addressable(l, secs[k].addr)
    ensures var h, s := Fitted(l, HeaderOf(secs, k, offs, names, shstrtabOff)), secs[k];
            && h.typ == s.typ && h.flags == s.flags && h.addr == s.addr && h.off == s.addr && h.size == l.Fit(s.size)
            && h.align == l.Fit(s.align) && h.entsize == l.Fit(s.entsize) && h.link == Wrap32(IndexOfName(secs, s.linkName))
            && h.info == if s.infoName == [] then s.info else Wrap32(IndexOfName(secs, s.infoName))
  {
    hide Wrap64, IndexOfName, Wrap32;
    FitsAddress(l, secs[k].addr, secs[k].addr);
    FitsSmall(l, secs[k].flags);
    WrapSame(secs[k].addr);
  }

  lemma FitsSmall(l: Layout, n: u64)
    ensures n <= U32_MAX ==> l.Fit(n) == n
    ensures Addressable(l, n) ==> l.Fit(n) == n
  {
  }

  lemma WrapSame(n: u64)
    ensures Wrap64(n) == n
  {
  }

  /** What header `k` stands before: the address of the next header of a loaded
      section, or the end of the image. */
  ghost function NextIn(l: Layout, r: seq<byte>, found: Found, k: nat): u64 {
    match HeaderIn(l, r, k + 1)
    case Some(h) => if k < |found.body| then h.addr else EndFor(l, r, found, k)
    case None => EndFor(l, r, found, k)
  }

  ghost function EndFor(l: Layout, r: seq<byte>, found: Found, k: nat): u64 {
    match HeaderIn(l, r, k)
    case Some(h) => if h.typ == 8 then found.maxVaddr else found.loadFileEnd
    case None => 0
  }

  /** Header `k` describes `s`, size and all. */
  ghost predicate HeaderOfFound(l: Layout, r: seq<byte>, found: Found, k: nat, s: Section) {
    && HeaderIn(l, r, k).Some? && Describes(l, r, HeaderIn(l, r, k).value, s)
    && SizeRight(s, HeaderIn(l, r, k).value.size, NextIn(l, r, found, k))
  }

  lemma NextIs(image: seq<byte>, injected: seq<InjectedSym>, l: Layout, found: Found, r: seq<byte>, k: nat)
    requires IsRebuilt(image, injected, l, found, r) && 0 < k <= |found.body| < |RebuiltSections(l, found, injected)|
    ensures NextIn(l, r, found, k) == StartAfter(found, RebuiltSections(l, found, injected), k)
  {
    hide IsRebuilt, RebuiltSections, Fitted, HeaderOf, LoadedOf, AllLoadable, RebuiltPlacement, Loadable, HeaderIn;
    HeaderExists(image, injected, l, found, r, k);
    HeaderExists(image, injected, l, found, r, k + 1);
    LoadableHere(image, injected, l, found, r);
    var secs := RebuiltSections(l, found, injected);
    var p := RebuiltPlacement(l, image, found, injected);
    PlainHeader(l, found, injected, k);
    HeaderFields(l, secs, k, p.offs, p.names, p.shstrtabOff);
    if k < |found.body| {
      PlainHeader(l, found, injected, k + 1);
      HeaderFields(l, secs, k + 1, p.offs, p.names, p.shstrtabOff);
    }
  }

  lemma PlainHeader(l: Layout, found: Found, injected: seq<InjectedSym>, k: nat)
    requires AllLoadable(found.body) && 0 < k <= |found.body|
    requires forall s :: s in LoadedOf(found) ==> Addressable(l, s.addr) && Addressable(l, s.size)
    ensures k < |RebuiltSections(l, found, injected)| && Loadable(RebuiltSections(l, found, injected)[k])
    ensures Addressable(l, RebuiltSections(l, found, injected)[k].addr)
  {
    hide AllLoadable, Loadable, SizeAll, SortByAddr, InjectedList;
    assert k < |RebuiltSections(l, found, injected)|;
    SectionKinds(l, found, injected, k);
    assert LoadedOf(found)[k] in LoadedOf(found);
  }

  lemma NamedHas(l: Layout, r: seq<byte>, k: nat, name: seq<byte>)
    requires Named(l, r, k, name)
    ensures HeaderIn(l, r, k).Some? && NameIn(l, r, HeaderIn(l, r, k).value) == Some(name)
  {
  }

  lemma LoadableHere(image: seq<byte>, injected: seq<InjectedSym>, l: Layout, found: Found, r: seq<byte>)
    requires IsRebuilt(image, injected, l, found, r)
    ensures AllLoadable(found.body) && forall s :: s in LoadedOf(found) ==> Addressable(l, s.addr) && Addressable(l, s.size)
  {
    hide Discover, OpenImage, RebuildSo, AllLoadable, LoadedOf, SharedStartsApart, Rebuild;
    RebuildSoIs(image, injected);
  }

  // ----- what tags stand for -----

  /** The section a tag gives away: its address is the tag's value; its size and
      its info field are those of other tags, 0 meaning none does. */
  datatype Rule = Rule(tag: u64, name: string, typ: u32, flags: u64, link: string, entsize: u64, align: u64, sizeTag: u64, infoTag: u64)

  /** The tags of the generic ABI, of GNU versioning and hashing, and of Android's
      packed relocations. */
  function RuleAt(l: Layout, j: nat): Option<Rule> {
    match j
    case 0 => Some(Rule(0x6fff_fef5, ".gnu.hash", 0x6fff_fff6, 2, ".dynsym", 0, l.Word(), 0, 0))
    case 1 => Some(Rule(4, ".hash", 5, 2, ".dynsym", 4, l.Word(), 0, 0))
    case 2 => Some(Rule(5, ".dynstr", 3, 2, "", 0, 1, 10, 0))
    case 3 => Some(Rule(0x6fff_fffc, ".gnu.version_d", 0x6fff_fffd, 2, ".dynstr", 0, l.Word(), 0, 0x6fff_fffd))
    case 4 => Some(Rule(0x6fff_fffe, ".gnu.version_r", 0x6fff_fffe, 2, ".dynstr", 0, l.Word(), 0, 0x6fff_ffff))
    case 5 => Some(Rule(7, ".rela.dyn", 4, 2, ".dynsym", l.Pick(24, 12), l.Word(), 8, 0))
    case 6 => Some(Rule(17, ".rel.dyn", 9, 2, ".dynsym", l.Pick(16, 8), l.Word(), 18, 0))
    case 7 => Some(Rule(36, ".relr.dyn", 19, 2, "", l.Word(), l.Word(), 35, 0))
    case 8 => Some(Rule(0x6000_0011, ".rela.dyn", 0x6000_0002, 2, ".dynsym", 0, l.Word(), 0x6000_0012, 0))
    case 9 => Some(Rule(0x6000_000f, ".rel.dyn", 0x6000_0001, 2, ".dynsym", 0, l.Word(), 0x6000_0010, 0))
    case 10 => Some(Rule(0x6fff_e000, ".relr.dyn", 0x6fff_ff00, 2, "", l.Word(), l.Word(), 0x6fff_e001, 0))
    case 11 => Some(Rule(12, ".init", 1, 6, "", 0, 4, 0, 0))
    case 12 => Some(Rule(25, ".init_array", 14, 3, "", l.Word(), l.Word(), 27, 0))
    case 13 => Some(Rule(26, ".fini_array", 15, 3, "", l.Word(), l.Word(), 28, 0))
    case _ => None
  }

  /** The value of a tag, 0 without one. */
  ghost function ValueOf(tags: Tags, tag: u64): u64 {
    if tag != 0 && tag in tags then tags[tag] else 0
  }

  ghost function ByRule(tags: Tags, rule: Rule): Section {
    var size := ValueOf(tags, rule.sizeTag);
    Section(Ascii(rule.name), rule.typ, rule.flags, ValueOf(tags, rule.tag), size, size > 0, Ascii(rule.link), [],
            Wrap32(ValueOf(tags, rule.infoTag)), rule.entsize, rule.align, None)
  }

  /** The rule's section is `s`, and its tag is there. */
  ghost predicate Applies(l: Layout, tags: Tags, j: nat, s: Section) {
    RuleAt(l, j).Some? && RuleAt(l, j).value.tag in tags && s == ByRule(tags, RuleAt(l, j).value)
  }

  lemma SizedAre(name: string, typ: u32, flags: u64, addr: u64, link: string, entsize: u64, align: u64, size: u64)
    ensures Sized(Bare(name, typ, flags, addr, link, entsize, align), size)
         == Section(Ascii(name), typ, flags, addr, size, size > 0, Ascii(link), [], 0, entsize, align, None)
  {
    hide Ascii;
  }

  lemma HashesAre(l: Layout, tags: Tags, s: Section)
    ensures s in HashSections(l, tags) <==> Applies(l, tags, 0, s) || Applies(l, tags, 1, s)
  {
    hide Ascii;
  }

  lemma VersionsAre(l: Layout, tags: Tags, count: nat, s: Section)
    ensures s in VersionSections(l, tags, count) <==>
              || (0x6fff_fff0 in tags && s == VersymSection(tags, count))
              || Applies(l, tags, 3, s) || Applies(l, tags, 4, s)
  {
    hide Ascii;
  }

  /** One half-word for each symbol. */
  ghost function VersymSection(tags: Tags, count: nat): Section {
    Section(Ascii(".gnu.version"), 0x6fff_ffff, 2, ValueOf(tags, 0x6fff_fff0), Wrap64(2 * count), count > 0, Ascii(".dynsym"), [], 0, 2, 2, None)
  }

  lemma Rule5(l: Layout, tags: Tags)
    ensures RuleAt(l, 5).Some? && RuleAt(l, 5).value.tag == 7
    ensures 7 in tags ==> ByRule(tags, RuleAt(l, 5).value) == Sized(Bare(".rela.dyn", SHT_RELA, SHF_ALLOC, tags[7], ".dynsym", RelaEnt(l), l.Word()), GetOrZero(tags, DT_RELASZ))
  {
    hide Ascii, Sized, Bare;
    SizedAre(".rela.dyn", SHT_RELA, SHF_ALLOC, GetOrZero(tags, 7), ".dynsym", RelaEnt(l), l.Word(), GetOrZero(tags, DT_RELASZ));
  }

  lemma Rule6(l: Layout, tags: Tags)
    ensures RuleAt(l, 6).Some? && RuleAt(l, 6).value.tag == 17
    ensures 17 in tags ==> ByRule(tags, RuleAt(l, 6).value) == Sized(Bare(".rel.dyn", SHT_REL, SHF_ALLOC, tags[17], ".dynsym", RelEnt(l), l.Word()), GetOrZero(tags, DT_RELSZ))
  {
    hide Ascii, Sized, Bare;
    SizedAre(".rel.dyn", SHT_REL, SHF_ALLOC, GetOrZero(tags, 17), ".dynsym", RelEnt(l), l.Word(), GetOrZero(tags, DT_RELSZ));
  }

  lemma Rule7(l: Layout, tags: Tags)
    ensures RuleAt(l, 7).Some? && RuleAt(l, 7).value.tag == 36
    ensures 36 in tags ==> ByRule(tags, RuleAt(l, 7).value) == Sized(Bare(".relr.dyn", SHT_RELR, SHF_ALLOC, tags[36], "", l.Word(), l.Word()), GetOrZero(tags, DT_RELRSZ))
  {
    hide Ascii, Sized, Bare;
    SizedAre(".relr.dyn", SHT_RELR, SHF_ALLOC, GetOrZero(tags, 36), "", l.Word(), l.Word(), GetOrZero(tags, DT_RELRSZ));
  }

  lemma RelocsAre(l: Layout, tags: Tags, s: Section)
    ensures s in RelocSections(l, tags) <==> Applies(l, tags, 5, s) || Applies(l, tags, 6, s) || Applies(l, tags, 7, s)
  {
    hide Ascii, Sized, Bare, RuleAt, ByRule;
    Rule5(l, tags);
    Rule6(l, tags);
    Rule7(l, tags);
  }

  lemma Rule8(l: Layout, tags: Tags)
    ensures RuleAt(l, 8).Some? && RuleAt(l, 8).value.tag == 0x6000_0011
    ensures 0x6000_0011 in tags ==> ByRule(tags, RuleAt(l, 8).value) == Sized(Bare(".rela.dyn", SHT_ANDROID_RELA, SHF_ALLOC, tags[0x6000_0011], ".dynsym", 0, l.Word()), GetOrZero(tags, DT_ANDROID_RELASZ))
  {
    hide Ascii, Sized, Bare;
    SizedAre(".rela.dyn", SHT_ANDROID_RELA, SHF_ALLOC, GetOrZero(tags, 0x6000_0011), ".dynsym", 0, l.Word(), GetOrZero(tags, DT_ANDROID_RELASZ));
  }

  lemma Rule9(l: Layout, tags: Tags)
    ensures RuleAt(l, 9).Some? && RuleAt(l, 9).value.tag == 0x6000_000f
    ensures 0x6000_000f in tags ==> ByRule(tags, RuleAt(l, 9).value) == Sized(Bare(".rel.dyn", SHT_ANDROID_REL, SHF_ALLOC, tags[0x6000_000f], ".dynsym", 0, l.Word()), GetOrZero(tags, DT_ANDROID_RELSZ))
  {
    hide Ascii, Sized, Bare;
    SizedAre(".rel.dyn", SHT_ANDROID_REL, SHF_ALLOC, GetOrZero(tags, 0x6000_000f), ".dynsym", 0, l.Word(), GetOrZero(tags, DT_ANDROID_RELSZ));
  }

  lemma Rule10(l: Layout, tags: Tags)
    ensures RuleAt(l, 10).Some? && RuleAt(l, 10).value.tag == 0x6fff_e000
    ensures 0x6fff_e000 in tags ==> ByRule(tags, RuleAt(l, 10).value) == Sized(Bare(".relr.dyn", SHT_ANDROID_RELR, SHF_ALLOC, tags[0x6fff_e000], "", l.Word(), l.Word()), GetOrZero(tags, DT_ANDROID_RELRSZ))
  {
    hide Ascii, Sized, Bare;
    SizedAre(".relr.dyn", SHT_ANDROID_RELR, SHF_ALLOC, GetOrZero(tags, 0x6fff_e000), "", l.Word(), l.Word(), GetOrZero(tags, DT_ANDROID_RELRSZ));
  }

  lemma AndroidRelocsAre(l: Layout, tags: Tags, s: Section)
    ensures s in AndroidRelocSections(l, tags) <==> Applies(l, tags, 8, s) || Applies(l, tags, 9, s) || Applies(l, tags, 10, s)
  {
    hide Ascii, Sized, Bare, RuleAt, ByRule;
    Rule8(l, tags);
    Rule9(l, tags);
    Rule10(l, tags);
  }

  lemma Rule12(l: Layout, tags: Tags)
    ensures RuleAt(l, 12).Some? && RuleAt(l, 12).value.tag == 25
    ensures 25 in tags ==> ByRule(tags, RuleAt(l, 12).value) == Sized(Bare(".init_array", SHT_INIT_ARRAY, SHF_WRITE + SHF_ALLOC, tags[25], "", l.Word(), l.Word()), GetOrZero(tags, DT_INIT_ARRAYSZ))
  {
    hide Ascii, Sized, Bare;
    SizedAre(".init_array", SHT_INIT_ARRAY, SHF_WRITE + SHF_ALLOC, GetOrZero(tags, 25), "", l.Word(), l.Word(), GetOrZero(tags, DT_INIT_ARRAYSZ));
  }

  lemma Rule13(l: Layout, tags: Tags)
    ensures RuleAt(l, 13).Some? && RuleAt(l, 13).value.tag == 26
    ensures 26 in tags ==> ByRule(tags, RuleAt(l, 13).value) == Sized(Bare(".fini_array", SHT_FINI_ARRAY, SHF_WRITE + SHF_ALLOC, tags[26], "", l.Word(), l.Word()), GetOrZero(tags, DT_FINI_ARRAYSZ))
  {
    hide Ascii, Sized, Bare;
    SizedAre(".fini_array", SHT_FINI_ARRAY, SHF_WRITE + SHF_ALLOC, GetOrZero(tags, 26), "", l.Word(), l.Word(), GetOrZero(tags, DT_FINI_ARRAYSZ));
  }

  lemma ArraysAre(l: Layout, tags: Tags, s: Section)
    ensures s in ArraySections(l, tags) <==> Applies(l, tags, 12, s) || Applies(l, tags, 13, s)
  {
    hide Ascii, Sized, Bare, RuleAt, ByRule;
    Rule12(l, tags);
    Rule13(l, tags);
  }

  // ----- the special ones -----

  /** As many entries as there are symbols, of the size the table gives. */
  ghost function DynsymSection(l: Layout, data: seq<byte>, tags: Tags, count: nat): Section {
    var entry := if ValueOf(tags, 11) == 0 then l.Pick(24, 16) else ValueOf(tags, 11);
    Section(Ascii(".dynsym"), 11, 2, ValueOf(tags, 6), Wrap64(count * entry), count > 0, Ascii(".dynstr"), [],
            Wrap32(LocalSyms(l, data, ValueOf(tags, 6), count)), entry, l.Word(), None)
  }

  lemma SymbolsAre(l: Layout, data: seq<byte>, tags: Tags, count: nat, s: Section)
    ensures s in SymbolSections(l, data, tags, count) <==>
              (6 in tags && s == DynsymSection(l, data, tags, count)) || Applies(l, tags, 2, s)
  {
    hide Ascii, Sized, Wrap64, Wrap32, LocalSyms;
    SizedAre(".dynstr", SHT_STRTAB, SHF_ALLOC, GetOrZero(tags, 5), "", 0, 1, GetOrZero(tags, DT_STRSZ));
    WrapSame(0);
    WrapFits(0);
  }

  /** A SysV hash table, which starts with its numbers of buckets and chains, has a
      chain for each symbol, whatever other table there is; one cut short tells
      nothing. Without one a GNU table is counted, and without either nothing. */
  lemma SymbolCountIs(l: Layout, data: seq<byte>, tags: Tags, buckets: u32, chains: u32)
    ensures 4 in tags && Holds(data, tags[4], PutLe32(buckets) + PutLe32(chains)) ==> DynSymCount(l, data, tags) == chains
    ensures 4 in tags && tags[4] + 8 > |data| ==> DynSymCount(l, data, tags) == 0
    ensures 4 !in tags && 0x6fff_fef5 in tags ==> DynSymCount(l, data, tags) == SymCount(data, tags[0x6fff_fef5], l.Word())
    ensures 4 !in tags && 0x6fff_fef5 !in tags ==> DynSymCount(l, data, tags) == 0
  {
    hide Holds, PutLe32, Le32, SymCount;
    if 4 in tags && Holds(data, tags[4], PutLe32(buckets) + PutLe32(chains)) {
      HoldsSplit(data, tags[4], PutLe32(buckets), PutLe32(chains));
      var at: nat := tags[4];
      HeldLe32(data, at + 4, chains);
      HoldsLength(data, tags[4], PutLe32(buckets) + PutLe32(chains));
    }
  }

  /** Symbol `i` stands whole in the data and is local: the high half of its info
      byte is 0. */
  ghost predicate LocalAt(l: Layout, data: seq<byte>, off: nat, i: nat) {
    var o := off + i * l.Pick(24, 16);
    o + l.Pick(24, 16) <= |data| && data[o + l.Pick(4, 12)] < 0x10
  }

  lemma {:induction false} LeadingAre(l: Layout, data: seq<byte>, off: nat, count: nat, i: nat)
    requires i <= count
    ensures var n := i + LeadingLocals(l, data, off, count, i);
            && n <= count && (forall k :: i <= k < n ==> LocalAt(l, data, off, k)) && (n < count ==> !LocalAt(l, data, off, n))
    decreases count - i
  {
    if i < count && LocalAt(l, data, off, i) {
      LeadingAre(l, data, off, count, i + 1);
    }
  }

  /** The info field counts the symbols before the first that is not local, the
      null one at least. */
  lemma LocalsAre(l: Layout, data: seq<byte>, off: nat, count: nat)
    ensures var n := LocalSyms(l, data, off, count);
            && 1 <= n <= Max(count, 1)
            && (n > 1 ==> forall k :: 0 <= k < n ==> LocalAt(l, data, off, k))
            && (n < count && (n > 1 || LocalAt(l, data, off, 0)) ==> !LocalAt(l, data, off, n))
  {
    hide LocalAt;
    LeadingAre(l, data, off, count, 0);
  }

  /** Whether jump relocations carry addends: as a tag says, and else as is usual
      for the class. */
  ghost predicate JumpAddends(l: Layout, tags: Tags) {
    if 20 in tags then tags[20] == 7 else l.is64
  }

  ghost function JumpEntry(l: Layout, tags: Tags): u64 {
    if JumpAddends(l, tags) then l.Pick(24, 12) else l.Pick(16, 8)
  }

  ghost function JumpSection(l: Layout, tags: Tags): Section {
    Section(Ascii(if JumpAddends(l, tags) then ".rela.plt" else ".rel.plt"), if JumpAddends(l, tags) then 4 else 9, 0x42,
            ValueOf(tags, 23), ValueOf(tags, 2), ValueOf(tags, 2) > 0, Ascii(".dynsym"), Ascii(".got.plt"), 0,
            JumpEntry(l, tags), l.Word(), None)
  }

  lemma JumpsAre(l: Layout, tags: Tags, s: Section)
    ensures s in JumpSections(l, tags) <==> 23 in tags && s == JumpSection(l, tags)
  {
    hide Ascii;
  }

  /** Code after the jump relocations, to a boundary of sixteen. */
  ghost function JumpsEnd(tags: Tags): u64 {
    Wrap64(ValueOf(tags, 23) + ValueOf(tags, 2) + 15) / 16 * 16
  }

  ghost function PltSection(tags: Tags): Section {
    Section(Ascii(".plt"), 1, 6, JumpsEnd(tags), 0, false, [], [], 0, 16, 16, None)
  }

  /** Where the stubs or the initializer start; 0 when neither is known. */
  ghost function CodeStart(tags: Tags): u64 {
    if 23 in tags then JumpsEnd(tags) else ValueOf(tags, 12)
  }

  ghost function TextSection(l: Layout, tags: Tags): Section {
    Section(Ascii(".text"), 1, 6, Wrap64(CodeStart(tags) + 0x40), 0, false, [], [], 0, 0, l.Word(), None)
  }

  lemma CodeAre(l: Layout, tags: Tags, s: Section)
    ensures s in CodeSections(l, tags) <==>
              || Applies(l, tags, 11, s) || (23 in tags && s == PltSection(tags)) || (CodeStart(tags) != 0 && s == TextSection(l, tags))
  {
    hide Wrap64;
    WrapFits(0);
  }

  ghost function DynamicSection(l: Layout, segs: Segments): Section {
    Section(Ascii(".dynamic"), 6, 3, segs.dynAddr, segs.dynSize, true, Ascii(".dynstr"), [], 0, l.Pick(16, 8), l.Word(), None)
  }

  /** Three slots, and one for each jump relocation; 0 when there is no count. */
  ghost function GotSize(l: Layout, tags: Tags): u64 {
    if ValueOf(tags, 2) == 0 then 0 else Wrap64((3 + ValueOf(tags, 2) / JumpEntry(l, tags)) * l.Word())
  }

  ghost function GotSection(l: Layout, tags: Tags): Section {
    Section(Ascii(".got.plt"), 1, 3, ValueOf(tags, 3), GotSize(l, tags), ValueOf(tags, 2) > 0, [], [], 0, l.Word(), l.Word(), None)
  }

  /** Data from the end of the offset table up to the end of the file bytes. */
  ghost function DataStart(l: Layout, tags: Tags): u64 {
    if 3 in tags && ValueOf(tags, 2) > 0 then Wrap64(tags[3] + GotSize(l, tags)) else 0
  }

  ghost function DataSection(l: Layout, tags: Tags): Section {
    Section(Ascii(".data"), 1, 3, DataStart(l, tags), 0, false, [], [], 0, 0, l.Word(), None)
  }

  /** What is in memory beyond the file bytes. */
  ghost function BssSection(l: Layout, fileEnd: u64, memEnd: u64): Section
    requires fileEnd <= memEnd
  {
    Section(Ascii(".bss"), 8, 3, fileEnd, memEnd - fileEnd, true, [], [], 0, 0, l.Word(), None)
  }

  lemma DataAre(l: Layout, tags: Tags, segs: Segments, s: Section)
    ensures var fileEnd, memEnd := LoadFileEnd(segs.loads), MaxVaddr(segs.loads);
            s in DataSections(l, tags, segs) <==>
              || s == DynamicSection(l, segs)
              || (3 in tags && s == GotSection(l, tags))
              || (0 < DataStart(l, tags) < fileEnd && s == DataSection(l, tags))
              || (memEnd > fileEnd && s == BssSection(l, fileEnd, memEnd))
  {
    hide Wrap64, LoadFileEnd, MaxVaddr;
  }

  // ----- every section, and no other -----

  /** The tags and segments of an image give the section away: by a rule, as the
      symbols, the symbol versions or the jump relocations, as code, as the
      dynamic table itself, or as one of the data sections. */
  ghost predicate GivenAway(l: Layout, tags: Tags, segs: Segments, data: seq<byte>, s: Section) {
    var count, fileEnd, memEnd := DynSymCount(l, data, tags), LoadFileEnd(segs.loads), MaxVaddr(segs.loads);
    || (exists j: nat :: Applies(l, tags, j, s))
    || (6 in tags && s == DynsymSection(l, data, tags, count))
    || (0x6fff_fff0 in tags && s == VersymSection(tags, count))
    || (23 in tags && (s == JumpSection(l, tags) || s == PltSection(tags)))
    || (CodeStart(tags) != 0 && s == TextSection(l, tags))
    || s == DynamicSection(l, segs)
    || (3 in tags && s == GotSection(l, tags))
    || (0 < DataStart(l, tags) < fileEnd && s == DataSection(l, tags))
    || (memEnd > fileEnd && s == BssSection(l, fileEnd, memEnd))
  }

  lemma RulesEnd(l: Layout, tags: Tags, s: Section)
    ensures (exists j: nat :: Applies(l, tags, j, s)) <==>
              || Applies(l, tags, 0, s) || Applies(l, tags, 1, s) || Applies(l, tags, 2, s) || Applies(l, tags, 3, s)
              || Applies(l, tags, 4, s) || Applies(l, tags, 5, s) || Applies(l, tags, 6, s) || Applies(l, tags, 7, s)
              || Applies(l, tags, 8, s) || Applies(l, tags, 9, s) || Applies(l, tags, 10, s) || Applies(l, tags, 11, s)
              || Applies(l, tags, 12, s) || Applies(l, tags, 13, s)
  {
    hide ByRule;
    if j: nat :| Applies(l, tags, j, s) {
      assert j <= 13;
    }
  }

  /** The sections found are exactly those given away. */
  lemma FoundAre(l: Layout, data: seq<byte>, tags: Tags, segs: Segments, s: Section)
    ensures s in FindSections(l, data, tags, segs) <==> GivenAway(l, tags, segs, data, s)
  {
    hide HashSections, SymbolSections, VersionSections, RelocSections, AndroidRelocSections, JumpSections, CodeSections, ArraySections,
      DataSections, DynSymCount, Applies, DynsymSection, VersymSection, JumpSection, PltSection, TextSection, DynamicSection, GotSection,
      DataSection, BssSection, CodeStart, DataStart, LoadFileEnd, MaxVaddr;
    var count := DynSymCount(l, data, tags);
    RulesEnd(l, tags, s);
    HashesAre(l, tags, s);
    SymbolsAre(l, data, tags, count, s);
    VersionsAre(l, tags, count, s);
    RelocsAre(l, tags, s);
    AndroidRelocsAre(l, tags, s);
    JumpsAre(l, tags, s);
    CodeAre(l, tags, s);
    ArraysAre(l, tags, s);
    DataAre(l, tags, segs, s);
  }

  /** What discovery reads its tags from, and what it makes of them. */
  ghost predicate Reads(l: Layout, image: seq<byte>, found: Found, tags: Tags, segs: Segments, data: seq<byte>)
    requires l.EhdrSize() <= |image|
  {
    && data == FixPhdrs(l, image, found.phoff, found.phentsize, found.phnum, 0)
    && segs == SegmentsFrom(l, image, found.phoff, found.phentsize, found.phnum, 0, NO_SEGMENTS)
    && tags == TagsFrom(l, data, segs.dynAddr, Wrap64(segs.dynAddr + segs.dynSize), map[])
  }

  lemma BodyIs(l: Layout, image: seq<byte>, found: Found, tags: Tags, segs: Segments, data: seq<byte>)
    requires l.EhdrSize() <= |image| && Discover(l, image) == Ok(found) && Reads(l, image, found, tags, segs, data)
    ensures found.body == FindSections(l, data, tags, segs)
    ensures found.loadFileEnd == LoadFileEnd(segs.loads) && found.maxVaddr == MaxVaddr(segs.loads)
  {
    hide FindSections, FixPhdrs, SegmentsFrom, TagsFrom, LoadFileEnd, MaxVaddr, DynSymCount, HeaderPhoff, HeaderPhentsize, HeaderPhnum, Wrap64;
  }

  /** Header `k` describes some section that is given away. */
  lemma HeaderIsFound(image: seq<byte>, injected: seq<InjectedSym>, l: Layout, found: Found, r: seq<byte>, k: nat) returns (s: Section)
    requires IsRebuilt(image, injected, l, found, r) && 0 < k <= |found.body|
    ensures s in found.body && s == SortByAddr(found.body)[k - 1] && HeaderOfFound(l, r, found, k, s)
  {
    hide IsRebuilt, RebuiltSections, Fitted, HeaderOf, Named, LinksTo, LoadedOf, Loadable, AllLoadable, RebuiltPlacement, SizeRight, NextIn,
      StartAfter, SortByAddr, SizeAll;
    HeaderExists(image, injected, l, found, r, k);
    LoadableHere(image, injected, l, found, r);
    var secs := RebuiltSections(l, found, injected);
    var sorted := SortByAddr(found.body);
    s := sorted[k - 1];
    assert s in multiset(sorted);
    assert s in found.body;
    PlacedAt(l, found, injected, k);
    AllNamed(image, injected, l, found, r);
    assert Named(l, r, k, s.name);
    var p := RebuiltPlacement(l, image, found, injected);
    HeaderFields(l, secs, k, p.offs, p.names, p.shstrtabOff);
    LinkIs(l, r, secs, s.linkName);
    LinkIs(l, r, secs, s.infoName);
    NamedHas(l, r, k, s.name);
    NextIs(image, injected, l, found, r, k);
    FitsSmall(l, secs[k].size);
  }

  /** Every section that was found has a header in the rebuilt file that describes
      it, reaching as far as the next one lets it. */
  lemma SectionHasHeader(image: seq<byte>, injected: seq<InjectedSym>, l: Layout, found: Found, r: seq<byte>, s: Section)
    requires IsRebuilt(image, injected, l, found, r) && s in found.body
    ensures exists k: nat :: 0 < k <= |found.body| && HeaderOfFound(l, r, found, k, s)
  {
    hide IsRebuilt, HeaderOfFound, SortByAddr;
    var sorted := SortByAddr(found.body);
    assert s in multiset(found.body);
    assert s in multiset(sorted);
    var i :| 0 <= i < |sorted| && sorted[i] == s;
    var t := HeaderIsFound(image, injected, l, found, r, i + 1);
  }

  lemma Discovered(image: seq<byte>, injected: seq<InjectedSym>, l: Layout, found: Found, r: seq<byte>)
    requires IsRebuilt(image, injected, l, found, r)
    ensures l.EhdrSize() <= |image| && Discover(l, image) == Ok(found)
  {
    hide RebuildSo, Discover, OpenImage, FitsClass, SharedStartsApart, Rebuild;
  }

  /** Each section the image gives away has a header in the rebuilt file: name,
      type, flags, address, links, info, entry size and alignment as the tags call
      for, and the size they announce unless the next section cuts it. */
  lemma GivenAwayHasHeader(
    image: seq<byte>, injected: seq<InjectedSym>, l: Layout, found: Found, r: seq<byte>, tags: Tags, segs: Segments, data: seq<byte>,
    s: Section)
    requires l.EhdrSize() <= |image| && Reads(l, image, found, tags, segs, data) && GivenAway(l, tags, segs, data, s)
    requires IsRebuilt(image, injected, l, found, r)
    ensures exists k: nat :: 0 < k <= |found.body| && HeaderOfFound(l, r, found, k, s)
  {
    hide GivenAway, HeaderOfFound, Reads, Discover, FindSections, IsRebuilt;
    Discovered(image, injected, l, found, r);
    BodyIs(l, image, found, tags, segs, data);
    FoundAre(l, data, tags, segs, s);
    SectionHasHeader(image, injected, l, found, r, s);
  }

  /** And the headers after the null one and before the appended ones are those of
      such sections only. */
  lemma HeaderIsGivenAway(
    image: seq<byte>, injected: seq<InjectedSym>, l: Layout, found: Found, r: seq<byte>, tags: Tags, segs: Segments, data: seq<byte>,
    k: nat)
    requires l.EhdrSize() <= |image| && Reads(l, image, found, tags, segs, data) && 0 < k <= |found.body|
    requires IsRebuilt(image, injected, l, found, r)
    ensures exists s :: GivenAway(l, tags, segs, data, s) && HeaderOfFound(l, r, found, k, s)
  {
    hide GivenAway, HeaderOfFound, Reads, Discover, FindSections, IsRebuilt;
    Discovered(image, injected, l, found, r);
    BodyIs(l, image, found, tags, segs, data);
    var s := HeaderIsFound(image, injected, l, found, r, k);
    FoundAre(l, data, tags, segs, s);
  }

  // ----- appended headers -----

  /** The header says of an appended section all but where it is: nothing is loaded
      from it. */
  ghost predicate DescribesAppended(
    l: Layout, r: seq<byte>, h: Shdr, name: string, typ: u32, link: string, info: u32, entsize: u64, align: u64)
  {
    && NameIn(l, r, h) == Some(Ascii(name)) && h.typ == typ && h.flags == 0 && h.addr == 0
    && LinksTo(l, r, h.link, Ascii(link)) && h.info == info && h.entsize == entsize && h.align == align
  }

  lemma AppendedFields(l: Layout, secs: seq<Section>, k: nat, offs: seq<nat>, names: Names, shstrtabOff: nat)
    requires k < |secs| && |offs| == |secs| && secs[k].infoName == [] && secs[k].flags == 0 && secs[k].name != []
    requires secs[k].align <= 8 && secs[k].entsize <= 24
    requires secs[k].name == SHSTRTAB_NAME || secs[k].payload.Some?
    ensures var h, s := Fitted(l, HeaderOf(secs, k, offs, names, shstrtabOff)), secs[k];
            && h.typ == s.typ && h.flags == 0 && h.addr == 0 && h.align == s.align && h.entsize == s.entsize
            && h.link == Wrap32(IndexOfName(secs, s.linkName)) && h.info == s.info
  {
    hide Wrap64, IndexOfName, Wrap32;
    FitsSmall(l, secs[k].align);
    FitsSmall(l, secs[k].entsize);
    FitsSmall(l, 0);
  }

  lemma AppendedSpelled()
    ensures Ascii(".symtab") == SYMTAB_NAME && Ascii(".strtab") == STRTAB_NAME && Ascii(".shstrtab") == SHSTRTAB_NAME
  {
    assert Ascii(".symtab")[..] == SYMTAB_NAME;
    assert Ascii(".strtab")[..] == STRTAB_NAME;
    assert Ascii(".shstrtab")[..] == SHSTRTAB_NAME;
  }

  lemma AppendedHeader(image: seq<byte>, injected: seq<InjectedSym>, l: Layout, found: Found, r: seq<byte>, k: nat)
    requires IsRebuilt(image, injected, l, found, r) && |found.body| < k < |RebuiltSections(l, found, injected)|
    requires var s := RebuiltSections(l, found, injected)[k];
             && s.infoName == [] && s.flags == 0 && s.name != [] && s.align <= 8 && s.entsize <= 24
             && (s.name == SHSTRTAB_NAME || s.payload.Some?)
    ensures var h, s := HeaderIn(l, r, k), RebuiltSections(l, found, injected)[k];
            && h.Some? && NameIn(l, r, h.value) == Some(s.name) && h.value.typ == s.typ && h.value.flags == 0 && h.value.addr == 0
            && LinksTo(l, r, h.value.link, s.linkName) && h.value.info == s.info
            && h.value.entsize == s.entsize && h.value.align == s.align
  {
    hide IsRebuilt, RebuiltSections, Fitted, HeaderOf, Named, LinksTo, LoadedOf, RebuiltPlacement, HeaderIn, NameIn;
    HeaderExists(image, injected, l, found, r, k);
    AllNamed(image, injected, l, found, r);
    var secs, p := RebuiltSections(l, found, injected), RebuiltPlacement(l, image, found, injected);
    assert Named(l, r, k, secs[k].name);
    NamedHas(l, r, k, secs[k].name);
    AppendedFields(l, secs, k, p.offs, p.names, p.shstrtabOff);
    LinkIs(l, r, secs, secs[k].linkName);
  }

  /** After the loaded sections come, when symbols are injected, the symbol table
      and its strings, and last the section names; the symbol table links to its
      strings, and has one local symbol. */
  lemma AppendedAre(l: Layout, found: Found, injected: seq<InjectedSym>)
    ensures var secs, n := RebuiltSections(l, found, injected), |found.body| + 1;
            && |secs| == n + (if injected == [] then 1 else 3)
            && secs[|secs| - 1] == SHSTRTAB_SECTION
            && (injected != [] ==> secs[n] == SymtabSection(l, SymTable(l, injected, LoadedOf(found)))
                                   && secs[n + 1] == StrtabSection(SymNames(injected)))
  {
    hide SizeAll, SortByAddr, SymTable, SymNames;
  }

  lemma AppendedHeadersAre(image: seq<byte>, injected: seq<InjectedSym>, l: Layout, found: Found, r: seq<byte>)
    requires IsRebuilt(image, injected, l, found, r)
    ensures var n := |found.body| + 1;
            && (injected != [] ==>
                  && HeaderIn(l, r, n).Some?
                  && DescribesAppended(l, r, HeaderIn(l, r, n).value, ".symtab", 2, ".strtab", 1, l.Pick(24, 16), l.Pick(8, 4))
                  && HeaderIn(l, r, n + 1).Some?
                  && DescribesAppended(l, r, HeaderIn(l, r, n + 1).value, ".strtab", 3, "", 0, 0, 1))
            && var last := if injected == [] then n else n + 2;
            && HeaderIn(l, r, last).Some? && HeaderIn(l, r, last + 1) == None
            && DescribesAppended(l, r, HeaderIn(l, r, last).value, ".shstrtab", 3, "", 0, 0, 1)
  {
    hide IsRebuilt, RebuiltSections, Fitted, HeaderFor, LinksTo, LoadedOf, SymTable, SymNames, HeaderIn, NameIn, Ascii;
    AppendedSpelled();
    AppendedAre(l, found, injected);
    var n := |found.body| + 1;
    var last := if injected == [] then n else n + 2;
    assert Ascii("") == [] by { NoLetters(); }
    if injected != [] {
      AppendedHeader(image, injected, l, found, r, n);
      AppendedHeader(image, injected, l, found, r, n + 1);
    }
    AppendedHeader(image, injected, l, found, r, last);
    HeaderExists(image, injected, l, found, r, last + 1);
  }

  lemma NoLetters()
    ensures Ascii("") == []
  {
  }
}
