/**
  Reading a rebuilt shared object: headers, names and symbol indices say what
  they should.
 */
module ElfReadBack {
  import opened Bytes
  import opened ElfSections
  import opened ElfLayout
  import opened ElfRebuild
  import opened ElfProofs

  /** Where the pieces of a rebuilt file are. */
  function RebuiltPlacement(l: Layout, image: seq<byte>, found: Found, injected: seq<InjectedSym>): (p: Placement)
    ensures |p.offs| == |RebuiltSections(l, found, injected)|
  {
    var secs := RebuiltSections(l, found, injected);
    PlacementOf(l, Patched(l, image, found, secs), secs)
  }

  function HeaderFor(l: Layout, image: seq<byte>, found: Found, injected: seq<InjectedSym>, k: nat): Shdr
    requires k < |RebuiltSections(l, found, injected)|
  {
    var p := RebuiltPlacement(l, image, found, injected);
    HeaderOf(RebuiltSections(l, found, injected), k, p.offs, p.names, p.shstrtabOff)
  }

  /** Entry `k` of the emitted table is the header of section `k`. */
  lemma HeadersReadBack(l: Layout, image: seq<byte>, found: Found, injected: seq<InjectedSym>, k: nat)
    requires l.EhdrSize() <= |image| && k < |RebuiltSections(l, found, injected)|
    ensures var r := Rebuild(l, image, found, injected);
            var at := HeaderAt(l, RebuiltPlacement(l, image, found, injected).shoff, k);
            at + l.ShdrSize() <= |r| && ReadShdr(l, r, at) == Fitted(l, HeaderFor(l, image, found, injected, k))
  {
    hide Rebuild, RebuiltSections, PlacementOf, HeaderOf, HeaderTable, EncodeShdr, ReadShdr, Fitted, PayloadAt, PayloadsApart, HeaderAt, Patched,
      Holds;
    var secs := RebuiltSections(l, found, injected);
    var p := RebuiltPlacement(l, image, found, injected);
    RebuildLayout(l, image, found, injected);
    var r := Rebuild(l, image, found, injected);
    HeadersAre(l, r, p.shoff, secs, p.offs, p.names, p.shstrtabOff, 0, k);
    ShdrRoundTrip(l, r, HeaderAt(l, p.shoff, k), HeaderFor(l, image, found, injected, k));
  }

  lemma SetHeaderReads(l: Layout, data: seq<byte>, shoff: nat, count: nat, shstrndx: nat)
    requires l.EhdrSize() <= |data|
    ensures var r := SetHeader(l, data, shoff, count, shstrndx);
            && l.ReadAddr(r, l.Pick(40, 32)) == l.Fit(Wrap64(shoff)) && Le16(r, l.Pick(58, 46)) == l.ShdrSize()
            && Le16(r, l.Pick(60, 48)) == count % 0x1_0000 && Le16(r, l.Pick(62, 50)) == shstrndx % 0x1_0000
  {
    hide Le16, PutLe16, Wrap64, Layout.PutAddr, Layout.ReadAddr, Layout.Fit;
    var r := SetHeader(l, data, shoff, count, shstrndx);
    var at, ents, num, ndx := l.Pick(40, 32), l.Pick(58, 46), l.Pick(60, 48), l.Pick(62, 50);
    assert r[at..at + l.Word()] == l.PutAddr(Wrap64(shoff));
    assert r[ents..ents + 2] == PutLe16(l.ShdrSize());
    assert r[num..num + 2] == PutLe16(count % 0x1_0000);
    assert r[ndx..ndx + 2] == PutLe16(shstrndx % 0x1_0000);
    HeldAddr(l, r, at, Wrap64(shoff));
    HeldLe16(r, ents, l.ShdrSize());
    HeldLe16(r, num, count % 0x1_0000);
    HeldLe16(r, ndx, shstrndx % 0x1_0000);
  }

  /** The file header leads to the emitted table, and to its string table. */
  lemma HeaderLeadsToTable(l: Layout, image: seq<byte>, found: Found, injected: seq<InjectedSym>)
    requires l.EhdrSize() <= |image|
    ensures var r, secs := Rebuild(l, image, found, injected), RebuiltSections(l, found, injected);
            && |image| <= |r| && |secs| > 0
            && l.ReadAddr(r, l.Pick(40, 32)) == l.Fit(Wrap64(RebuiltPlacement(l, image, found, injected).shoff))
            && Le16(r, l.Pick(58, 46)) == l.ShdrSize() && Le16(r, l.Pick(60, 48)) == |secs| % 0x1_0000
            && Le16(r, l.Pick(62, 50)) == (|secs| - 1) % 0x1_0000 && secs[|secs| - 1].name == SHSTRTAB_NAME
  {
    hide Appended, Patched, SetHeader, Le16, LoadedList, InjectedList, Wrap64, Layout.Fit, Layout.ReadAddr, AppendPayloads, NameTable;
    RebuildIs(l, image, found, injected);
    var secs := RebuiltSections(l, found, injected);
    var patched := Patched(l, image, found, secs);
    var (data, shoff) := Appended(l, patched, secs);
    PrefixLength(patched, data);
    SetHeaderReads(l, data, shoff, |secs|, |secs| - 1);
  }

  lemma HoldsIn(b: seq<byte>, at: nat, tab: seq<byte>, pos: nat, s: seq<byte>)
    requires Holds(b, at, tab) && Holds(tab, pos, s)
    ensures Holds(b, at + pos, s)
  {
    HoldsSlice(b, at, tab, pos, pos + |s|);
  }

  lemma NamesHold(secs: seq<Section>, k: nat)
    requires k < |secs|
    ensures var names := NameTable(NamesOf(secs));
            secs[k].name in names.at && Holds(names.tab, names.at[secs[k].name], secs[k].name + [0])
  {
    hide Holds, NameTable;
    NameTableOk(NamesOf(secs));
    assert NamesOf(secs)[k] == secs[k].name;
  }

  /** Every section name reads back from the header string table. */
  lemma SectionNameReadsBack(l: Layout, image: seq<byte>, found: Found, injected: seq<InjectedSym>, k: nat)
    requires l.EhdrSize() <= |image| && k < |RebuiltSections(l, found, injected)|
    requires 0 !in RebuiltSections(l, found, injected)[k].name
    requires |RebuiltPlacement(l, image, found, injected).names.tab| <= U32_MAX
    ensures var r := Rebuild(l, image, found, injected);
            var p := RebuiltPlacement(l, image, found, injected);
            ReadName(r, p.shstrtabOff + HeaderFor(l, image, found, injected, k).name)
            == Some(RebuiltSections(l, found, injected)[k].name)
  {
    hide Rebuild, RebuiltSections, NameTable, HeaderTable, PayloadAt, PayloadsApart, Patched, Holds, Appended, AppendPayloads, ReadName, Wrap32;
    var secs := RebuiltSections(l, found, injected);
    var p := RebuiltPlacement(l, image, found, injected);
    var r := Rebuild(l, image, found, injected);
    RebuildLayout(l, image, found, injected);
    NamesHold(secs, k);
    var at := p.names.at[secs[k].name];
    HoldsLength(p.names.tab, at, secs[k].name + [0]);
    WrapFits(at);
    HoldsIn(r, p.shstrtabOff, p.names.tab, at, secs[k].name + [0]);
    NameReadsBack(r, p.shstrtabOff + at, secs[k].name);
  }

  lemma WrapFits(n: nat)
    requires n <= U32_MAX
    ensures Wrap32(n) == n
  {
  }

  // ----- injected symbols -----

  function LoadedOf(found: Found): seq<Section> {
    LoadedList(found.body, found.loadFileEnd, found.maxVaddr)
  }

  lemma InjectedFollow(l: Layout, found: Found, injected: seq<InjectedSym>)
    requires injected != []
    ensures |RebuiltSections(l, found, injected)| == |LoadedOf(found)| + 3
  {
    hide LoadedList, SymTable, SymNames;
  }

  /** Where injected symbol `i` stands, and where the names of injected symbols
      start. */
  function InjectedAt(l: Layout, image: seq<byte>, found: Found, injected: seq<InjectedSym>, i: nat): nat
    requires injected != []
  {
    hide RebuiltSections, PlacementOf, Patched, LoadedList;
    InjectedFollow(l, found, injected);
    RebuiltPlacement(l, image, found, injected).offs[|LoadedOf(found)|] + (i + 1) * l.SymSize()
  }

  function InjectedNames(l: Layout, image: seq<byte>, found: Found, injected: seq<InjectedSym>): nat
    requires injected != []
  {
    hide RebuiltSections, PlacementOf, Patched, LoadedList;
    InjectedFollow(l, found, injected);
    RebuiltPlacement(l, image, found, injected).offs[|LoadedOf(found)| + 1]
  }

  lemma InjectedSections(l: Layout, found: Found, injected: seq<InjectedSym>)
    requires injected != []
    ensures var secs, n := RebuiltSections(l, found, injected), |LoadedOf(found)|;
            && |secs| == n + 3
            && secs[n].payload == Some(SymTable(l, injected, LoadedOf(found)))
            && secs[n + 1].payload == Some(SymNames(injected))
  {
    hide LoadedList, SymTable, SymNames;
  }

  lemma PayloadHolds(r: seq<byte>, s: Section, off: nat, lo: nat, hi: nat)
    requires PayloadAt(r, s, off, lo, hi) && s.payload.Some?
    ensures Holds(r, off, s.payload.value)
  {
  }

  lemma {:induction false} NamesPrefix(injected: seq<InjectedSym>, i: nat)
    requires i <= |injected|
    ensures |SymNames(injected[..i])| <= |SymNames(injected)|
    decreases |injected|
  {
    if i == |injected| {
      assert injected[..i] == injected;
    } else {
      var init := injected[..|injected| - 1];
      assert init[..i] == injected[..i];
      NamesPrefix(init, i);
    }
  }

  /** An injected symbol reads back with its name, its value, and the index of
      the section its value lies in. */
  lemma InjectedReadsBack(l: Layout, image: seq<byte>, found: Found, injected: seq<InjectedSym>, i: nat)
    requires l.EhdrSize() <= |image| && i < |injected| && 0 !in injected[i].name && |SymNames(injected)| <= U32_MAX
    ensures var r := Rebuild(l, image, found, injected);
            var at := InjectedAt(l, image, found, injected, i);
            && at + l.SymSize() <= |r|
            && ReadName(r, InjectedNames(l, image, found, injected) + SymName(r, at)) == Some(injected[i].name)
            && SymValue(l, r, at) == l.Fit(injected[i].value)
            && SymShndx(l, r, at) == SectionIndexOf(LoadedOf(found), injected[i].value)
  {
    hide Rebuild, RebuiltSections, PlacementOf, HeaderTable, PayloadAt, PayloadsApart, Patched, Holds, ReadName, SymTable, SymNames, EncodeSym,
      SectionIndexOf, LoadedList, Wrap32, SymName, SymValue, SymShndx, Layout.Fit;
    var secs, n := RebuiltSections(l, found, injected), |LoadedOf(found)|;
    var p := RebuiltPlacement(l, image, found, injected);
    var r := Rebuild(l, image, found, injected);
    RebuildLayout(l, image, found, injected);
    InjectedSections(l, found, injected);
    PayloadHolds(r, secs[n], p.offs[n], |image|, p.shstrtabOff);
    PayloadHolds(r, secs[n + 1], p.offs[n + 1], |image|, p.shstrtabOff);
    SymTableOk(l, injected, LoadedOf(found), i);
    SymNamesOk(injected, i);
    NamesPrefix(injected, i);
    var name := |SymNames(injected[..i])|;
    WrapFits(name);
    var entry := EncodeSym(l, name, injected[i].value, SectionIndexOf(LoadedOf(found), injected[i].value));
    HoldsIn(r, p.offs[n], SymTable(l, injected, LoadedOf(found)), (i + 1) * l.SymSize(), entry);
    SymRoundTrip(l, r, InjectedAt(l, image, found, injected, i), name, injected[i].value, SectionIndexOf(LoadedOf(found), injected[i].value));
    HoldsIn(r, p.offs[n + 1], SymNames(injected), name, injected[i].name + [0]);
    NameReadsBack(r, p.offs[n + 1] + name, injected[i].name);
  }

  // ----- dynamic symbols -----

  /** The index a symbol at `o` ends up with. */
  function RemappedIndex(l: Layout, data: seq<byte>, o: nat, secs: seq<Section>): u16
    requires o + l.SymSize() <= |data|
  {
    var shndx := SymShndx(l, data, o);
    var k := FindFrom(secs, SymValue(l, data, o), 0);
    if shndx == SHN_UNDEF || shndx >= SHN_LORESERVE || k == |secs| then shndx else k % 0x1_0000
  }

  lemma RemapSymIs(l: Layout, data: seq<byte>, o: nat, secs: seq<Section>)
    requires o + l.SymSize() <= |data|
    ensures SymShndx(l, RemapSym(l, data, o, secs), o) == RemappedIndex(l, data, o, secs)
  {
    hide Le16, PutLe16, SymValue, FindFrom;
    var r := RemapSym(l, data, o, secs);
    var shndx := SymShndx(l, data, o);
    if 0 < shndx < SHN_LORESERVE && FindFrom(secs, SymValue(l, data, o), 0) != |secs| {
      var k := RemappedIndex(l, data, o, secs);
      assert r[o + ShndxOff(l)..o + ShndxOff(l) + 2] == PutLe16(k);
      HeldLe16(r, o + ShndxOff(l), k);
    }
  }

  lemma RemapKeepsValue(l: Layout, data: seq<byte>, o: nat, secs: seq<Section>)
    requires o + l.SymSize() <= |data|
    ensures SymValue(l, RemapSym(l, data, o, secs), o) == SymValue(l, data, o)
  {
    hide Le16, Le32, PutLe16, FindFrom, SymShndx;
    var r := RemapSym(l, data, o, secs);
    var v := o + ValueOff(l);
    assert r[v..v + 4] == data[v..v + 4];
    Le32Of(r, v, data, v);
    if l.is64 {
      assert r[v + 4..v + 8] == data[v + 4..v + 8];
      Le32Of(r, v + 4, data, v + 4);
    }
  }

  /** A symbol's fields depend on its own bytes. */
  lemma SymFrame(l: Layout, b: seq<byte>, c: seq<byte>, o: nat, secs: seq<Section>)
    requires o + l.SymSize() <= |b| <= |c| && forall x :: o <= x < o + l.SymSize() ==> b[x] == c[x]
    ensures SymShndx(l, b, o) == SymShndx(l, c, o) && SymValue(l, b, o) == SymValue(l, c, o)
    ensures RemappedIndex(l, b, o, secs) == RemappedIndex(l, c, o, secs)
  {
    hide Le32, Le16, FindFrom;
    var x := o + ShndxOff(l);
    assert b[x..x + 2] == c[x..x + 2];
    Le16Of(b, x, c, x);
    var v := o + ValueOff(l);
    assert b[v..v + 4] == c[v..v + 4];
    Le32Of(b, v, c, v);
    if l.is64 {
      assert b[v + 4..v + 8] == c[v + 4..v + 8];
      Le32Of(b, v + 4, c, v + 4);
    }
  }

  function SymAt(l: Layout, off: nat, i: nat): nat {
    off + i * l.SymSize()
  }

  lemma SymsApart(l: Layout, off: nat, i: nat, j: nat)
    requires i < j
    ensures SymAt(l, off, i) + l.SymSize() <= SymAt(l, off, j)
  {
    assert (j - i) * l.SymSize() >= l.SymSize();
    assert j * l.SymSize() == i * l.SymSize() + (j - i) * l.SymSize();
  }

  lemma RemapSymElsewhere(l: Layout, data: seq<byte>, o: nat, secs: seq<Section>, x: nat)
    requires o + l.SymSize() <= |data| && x < |data| && !(o <= x < o + l.SymSize())
    ensures RemapSym(l, data, o, secs)[x] == data[x]
  {
    hide SymShndx, SymValue, FindFrom, PutLe16;
  }

  lemma RemapLater(l: Layout, data: seq<byte>, off: nat, count: nat, secs: seq<Section>, i: nat, j: nat, x: nat)
    requires j < i && SymAt(l, off, j) <= x < SymAt(l, off, j) + l.SymSize() <= |data|
    ensures RemapFrom(l, data, off, count, secs, i)[x] == data[x]
  {
    hide RemapFrom;
    forall k | i <= k < count ensures !SymIndexField(l, off + k * l.SymSize(), x) {
      SymsApart(l, off, j, k);
    }
    RemapFrame(l, data, off, count, secs, i, x);
  }

  /** Each symbol in the file keeps its value and gets the index its own fields
      call for. */
  lemma {:induction false} RemapIs(l: Layout, data: seq<byte>, off: nat, count: nat, secs: seq<Section>, i: nat, j: nat)
    requires i <= j < count && SymAt(l, off, j) + l.SymSize() <= |data|
    ensures SymShndx(l, RemapFrom(l, data, off, count, secs, i), SymAt(l, off, j)) == RemappedIndex(l, data, SymAt(l, off, j), secs)
    ensures SymValue(l, RemapFrom(l, data, off, count, secs, i), SymAt(l, off, j)) == SymValue(l, data, SymAt(l, off, j))
    decreases j - i
  {
    hide RemapSym, RemappedIndex, SymShndx, SymValue;
    var o := SymAt(l, off, j);
    if i < j {
      SymsApart(l, off, i, j);
      var next := RemapSym(l, data, SymAt(l, off, i), secs);
      forall x | o <= x < o + l.SymSize() ensures next[x] == data[x] {
        RemapSymElsewhere(l, data, SymAt(l, off, i), secs, x);
      }
      SymFrame(l, next, data, o, secs);
      RemapIs(l, next, off, count, secs, i + 1, j);
    } else {
      var next := RemapSym(l, data, o, secs);
      RemapSymIs(l, data, o, secs);
      RemapKeepsValue(l, data, o, secs);
      forall x | o <= x < o + l.SymSize() ensures RemapFrom(l, next, off, count, secs, i + 1)[x] == next[x] {
        RemapLater(l, next, off, count, secs, i + 1, j, x);
      }
      SymFrame(l, next, RemapFrom(l, next, off, count, secs, i + 1), o, secs);
    }
  }

  /** The image with its program headers fixed: what the symbols are read from. */
  function FixedImage(l: Layout, image: seq<byte>, found: Found): (r: seq<byte>)
    ensures |r| == |image|
  {
    FixPhdrs(l, image, found.phoff, found.phentsize, found.phnum, 0)
  }

  lemma RebuiltSymbol(l: Layout, image: seq<byte>, found: Found, injected: seq<InjectedSym>, addr: nat, count: nat, j: nat)
    requires l.EhdrSize() <= |image| && found.dynsym == Some((addr, count)) && j < count
    requires l.EhdrSize() <= SymAt(l, addr, j) && SymAt(l, addr, j) + l.SymSize() <= |image|
    ensures var r := Rebuild(l, image, found, injected);
            && SymAt(l, addr, j) + l.SymSize() <= |r|
            && SymShndx(l, r, SymAt(l, addr, j))
               == RemappedIndex(l, FixedImage(l, image, found), SymAt(l, addr, j), RebuiltSections(l, found, injected))
            && SymValue(l, r, SymAt(l, addr, j)) == SymValue(l, FixedImage(l, image, found), SymAt(l, addr, j))
  {
    hide FixPhdrs, RemapFrom, RemappedIndex, SymShndx, SymValue, Appended, SetHeader, RebuiltSections, InTableFields, SymAt;
    var secs := RebuiltSections(l, found, injected);
    var patched := Patched(l, image, found, secs);
    var o := SymAt(l, addr, j);
    RemapIs(l, FixedImage(l, image, found), addr, count, secs, 0, j);
    var (data, shoff) := Appended(l, patched, secs);
    SomeSections(l, found, injected);
    var r := SetHeader(l, data, shoff, |secs|, |secs| - 1);
    assert r == Rebuild(l, image, found, injected) by { RebuildIs(l, image, found, injected); }
    PrefixLength(patched, data);
    forall x | o <= x < o + l.SymSize() ensures patched[x] == r[x] {
      PrefixAt(patched, data, x);
      TableFieldsInHeader(l, x);
      SetHeaderFrame(l, data, shoff, |secs|, |secs| - 1, x);
    }
    SymFrame(l, patched, r, o, secs);
  }

  lemma PrefixLength(b: seq<byte>, c: seq<byte>)
    requires b <= c
    ensures |b| <= |c|
  {
  }

  lemma RebuildIs(l: Layout, image: seq<byte>, found: Found, injected: seq<InjectedSym>)
    requires l.EhdrSize() <= |image|
    ensures var secs := RebuiltSections(l, found, injected);
            var (data, shoff) := Appended(l, Patched(l, image, found, secs), secs);
            |secs| > 0 && Rebuild(l, image, found, injected) == SetHeader(l, data, shoff, |secs|, |secs| - 1)
  {
    hide Patched, Appended, SetHeader, LoadedList, InjectedList;
  }

  lemma RebuiltIsList(l: Layout, found: Found, injected: seq<InjectedSym>)
    requires |RebuiltSections(l, found, injected)| <= 0xff00
    ensures RebuiltList(RebuiltSections(l, found, injected), SizeAll(SortByAddr(found.body), found.loadFileEnd, found.maxVaddr))
    ensures forall k :: 0 <= k < |LoadedOf(found)| ==> RebuiltSections(l, found, injected)[k] == LoadedOf(found)[k]
  {
    hide SizeAll, SortByAddr, SymTable, SymNames;
  }

  /** Every defined dynamic symbol whose value lies in a section names exactly
      that section's header, and the rest keep their index. */
  lemma DynamicSymbolsAreExact(
    l: Layout, image: seq<byte>, found: Found, injected: seq<InjectedSym>, addr: nat, count: nat, j: nat, k: nat)
    requires l.EhdrSize() <= |image| && found.dynsym == Some((addr, count)) && j < count
    requires l.EhdrSize() <= SymAt(l, addr, j) && SymAt(l, addr, j) + l.SymSize() <= |image|
    requires SharedStartsApart(SortByAddr(found.body), found.loadFileEnd, found.maxVaddr) && |RebuiltSections(l, found, injected)| <= 0xff00
    requires 0 < k < |RebuiltSections(l, found, injected)|
    ensures
      var secs := RebuiltSections(l, found, injected);
      var r, fixed, o := Rebuild(l, image, found, injected), FixedImage(l, image, found), SymAt(l, addr, j);
      var shndx, value := SymShndx(l, fixed, o), SymValue(l, fixed, o);
      && o + l.SymSize() <= |r| && SymValue(l, r, o) == value
      && (0 < shndx < SHN_LORESERVE && Contains(secs[k], value) ==> SymShndx(l, r, o) == k)
      && (0 < shndx < SHN_LORESERVE && SymShndx(l, r, o) == k && k != shndx ==> Contains(secs[k], value))
      && ((shndx == SHN_UNDEF || shndx >= SHN_LORESERVE) ==> SymShndx(l, r, o) == shndx)
  {
    hide FixPhdrs, SymShndx, SymValue, RebuiltSections, SymAt, Rebuild, Contains, SizeAll, SortByAddr, SharedStartsApart, RebuiltList;
    RebuiltSymbol(l, image, found, injected, addr, count, j);
    RebuiltIsList(l, found, injected);
    IndexIsExact(RebuiltSections(l, found, injected), found.body, found.loadFileEnd, found.maxVaddr);
  }

  /** An injected symbol inside a section names exactly that section's header;
      outside all of them it is undefined. */
  lemma InjectedIsExact(l: Layout, image: seq<byte>, found: Found, injected: seq<InjectedSym>, i: nat, k: nat)
    requires l.EhdrSize() <= |image| && i < |injected| && 0 !in injected[i].name && |SymNames(injected)| <= U32_MAX
    requires SharedStartsApart(SortByAddr(found.body), found.loadFileEnd, found.maxVaddr) && |RebuiltSections(l, found, injected)| <= 0xff00
    requires 0 < k < |LoadedOf(found)|
    ensures var r, at := Rebuild(l, image, found, injected), InjectedAt(l, image, found, injected, i);
            && |LoadedOf(found)| <= |RebuiltSections(l, found, injected)|
            && at + l.SymSize() <= |r|
            && (SymShndx(l, r, at) == k <==> Contains(RebuiltSections(l, found, injected)[k], injected[i].value))
            && (SymShndx(l, r, at) == SHN_UNDEF <==>
                  forall n :: 0 <= n < |LoadedOf(found)| ==> !Contains(LoadedOf(found)[n], injected[i].value))
  {
    hide SymShndx, RebuiltSections, Rebuild, Contains, SizeAll, SortByAddr, InjectedAt, SymNames, ReadName, SharedStartsApart, RebuiltList,
      SectionIndexOf;
    InjectedReadsBack(l, image, found, injected, i);
    InjectedSections(l, found, injected);
    RebuiltIsList(l, found, injected);
    LoadedIsList(found);
    IndexIsExact(LoadedOf(found), found.body, found.loadFileEnd, found.maxVaddr);
  }

  lemma LoadedIsList(found: Found)
    requires |LoadedOf(found)| <= 0xff00
    ensures RebuiltList(LoadedOf(found), SizeAll(SortByAddr(found.body), found.loadFileEnd, found.maxVaddr))
  {
    hide SizeAll, SortByAddr;
  }
}
