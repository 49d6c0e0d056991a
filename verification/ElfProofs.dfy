/**
  What a rebuilt shared object keeps of the image, where everything appended
  lies, and that its headers, names and symbols read back as intended.
 */
module ElfProofs {
  import opened Bytes
  import opened ElfSections
  import opened ElfLayout
  import opened ElfRebuild

  // ----- frame -----

  ghost predicate PhdrField(l: Layout, off: nat, x: int) {
    || off + l.Pick(8, 4) <= x < off + l.Pick(8, 4) + l.Word()
    || off + l.Pick(32, 16) <= x < off + l.Pick(32, 16) + l.Word()
  }

  /** Byte `x` is part of some program header's file offset or size. */
  ghost predicate InPhdrField(l: Layout, phoff: nat, entsize: nat, count: nat, x: int) {
    exists i :: 0 <= i < count && PhdrField(l, PhdrOff(phoff, entsize, i), x)
  }

  ghost predicate SymIndexField(l: Layout, o: nat, x: int) {
    o + ShndxOff(l) <= x < o + ShndxOff(l) + 2
  }

  /** Byte `x` is part of some dynamic symbol's section index. */
  ghost predicate InSymIndex(l: Layout, found: Found, x: int) {
    match found.dynsym
    case None => false
    case Some((addr, count)) => exists i :: 0 <= i < count && SymIndexField(l, addr + i * l.SymSize(), x)
  }

  /** Byte `x` is part of the four section-table fields of the file header. */
  ghost predicate InTableFields(l: Layout, x: int) {
    || l.Pick(40, 32) <= x < l.Pick(40, 32) + l.Word()
    || l.Pick(58, 46) <= x < l.Pick(58, 46) + 6
  }

  lemma {:induction false} FixPhdrsFrame(l: Layout, data: seq<byte>, phoff: nat, entsize: nat, count: nat, i: nat, x: nat)
    requires x < |data| && forall k :: i <= k < count ==> !PhdrField(l, PhdrOff(phoff, entsize, k), x)
    ensures FixPhdrs(l, data, phoff, entsize, count, i)[x] == data[x]
    decreases count - i
  {
    hide PhdrOff, FixPhdr, PhdrField;
    var off := PhdrOff(phoff, entsize, i);
    if i < count && off + l.PhdrSize() <= |data| {
      FixPhdrFrame(l, data, off, x);
      FixPhdrsFrame(l, FixPhdr(l, data, off), phoff, entsize, count, i + 1, x);
    }
  }

  lemma FixPhdrFrame(l: Layout, data: seq<byte>, off: nat, x: nat)
    requires off + l.PhdrSize() <= |data| && x < |data| && !PhdrField(l, off, x)
    ensures FixPhdr(l, data, off)[x] == data[x]
  {
    hide Le32, Layout.ReadAddr, Layout.PutAddr;
  }

  lemma {:induction false} RemapFrame(l: Layout, data: seq<byte>, off: nat, count: nat, secs: seq<Section>, i: nat, x: nat)
    requires x < |data| && forall k :: i <= k < count ==> !SymIndexField(l, off + k * l.SymSize(), x)
    ensures RemapFrom(l, data, off, count, secs, i)[x] == data[x]
    decreases count - i
  {
    hide SymShndx, SymValue, FindFrom, PutLe16;
    var o := off + i * l.SymSize();
    if i < count && o + l.SymSize() <= |data| {
      assert !SymIndexField(l, o, x);
      RemapFrame(l, RemapSym(l, data, o, secs), off, count, secs, i + 1, x);
    }
  }

  lemma PatchedFrame(l: Layout, image: seq<byte>, found: Found, secs: seq<Section>, x: nat)
    requires x < |image| && !InPhdrField(l, found.phoff, found.phentsize, found.phnum, x) && !InSymIndex(l, found, x)
    ensures Patched(l, image, found, secs)[x] == image[x]
  {
    hide FixPhdrs, RemapFrom, PhdrField, SymIndexField;
    FixPhdrsFrame(l, image, found.phoff, found.phentsize, found.phnum, 0, x);
    match found.dynsym
    case None =>
    case Some((addr, count)) =>
      RemapFrame(l, FixPhdrs(l, image, found.phoff, found.phentsize, found.phnum, 0), addr, count, secs, 0, x);
  }

  lemma SetHeaderFrame(l: Layout, data: seq<byte>, shoff: nat, count: nat, shstrndx: nat, x: nat)
    requires l.EhdrSize() <= |data| && x < |data| && !InTableFields(l, x)
    ensures SetHeader(l, data, shoff, count, shstrndx)[x] == data[x]
  {
    hide Layout.PutAddr, PutLe16, Wrap64;
  }

  lemma TableFieldsInHeader(l: Layout, x: int)
    ensures InTableFields(l, x) ==> x < l.EhdrSize()
  {
  }

  function RebuiltSections(l: Layout, found: Found, injected: seq<InjectedSym>): seq<Section> {
    AllSections(l, LoadedList(found.body, found.loadFileEnd, found.maxVaddr), injected)
  }

  lemma SomeSections(l: Layout, found: Found, injected: seq<InjectedSym>)
    ensures |RebuiltSections(l, found, injected)| > 0
  {
    hide LoadedList, InjectedList;
  }

  /** The image changes only in the section-table fields of the header, in file
      offsets and sizes of program headers, and in section indices of dynamic
      symbols. */
  lemma RebuildFrame(l: Layout, image: seq<byte>, found: Found, injected: seq<InjectedSym>, x: nat)
    requires l.EhdrSize() <= |image| && x < |image|
    requires !InTableFields(l, x) && !InPhdrField(l, found.phoff, found.phentsize, found.phnum, x) && !InSymIndex(l, found, x)
    ensures x < |Rebuild(l, image, found, injected)| && Rebuild(l, image, found, injected)[x] == image[x]
  {
    hide Patched, Appended, SetHeader, InTableFields, InPhdrField, InSymIndex, AllSections, LoadedList;
    var secs := RebuiltSections(l, found, injected);
    var patched := Patched(l, image, found, secs);
    var (data, shoff) := Appended(l, patched, secs);
    SomeSections(l, found, injected);
    PatchedFrame(l, image, found, secs, x);
    PrefixAt(patched, data, x);
    SetHeaderFrame(l, data, shoff, |secs|, |secs| - 1, x);
  }

  lemma PrefixAt(b: seq<byte>, c: seq<byte>, x: nat)
    requires b <= c && x < |b|
    ensures x < |c| && c[x] == b[x]
  {
  }

  // ----- names -----

  ghost predicate NamesOk(n: Names) {
    && (forall name :: name in n.at ==> Holds(n.tab, n.at[name], name + [0]))
  }

  lemma HoldsMore(b: seq<byte>, c: seq<byte>, pos: nat, s: seq<byte>)
    requires Holds(b, pos, s) && b <= c
    ensures Holds(c, pos, s)
  {
    assert c[pos..pos + |s|] == b[pos..pos + |s|];
  }

  lemma AddKeepsNames(n: Names, name: seq<byte>)
    requires NamesOk(n)
    ensures NamesOk(AddName(n, name)) && name in AddName(n, name).at && n.at.Keys <= AddName(n, name).at.Keys
  {
    if name !in n.at {
      var m := AddName(n, name);
      forall k | k in m.at ensures Holds(m.tab, m.at[k], k + [0]) {
        if k != name {
          HoldsMore(n.tab, m.tab, n.at[k], k + [0]);
        } else {
          assert m.tab[|n.tab|..|n.tab| + |name + [0]|] == name + [0];
        }
      }
    }
  }

  /** Every name of the list stands, NUL-terminated, where the table says. */
  lemma {:induction false} NameTableOk(names: seq<seq<byte>>)
    ensures NamesOk(NameTable(names))
    ensures forall name :: name in names ==> name in NameTable(names).at
    ensures [] in NameTable(names).at
    decreases |names|
  {
    hide Holds;
    if names == [] {
      FirstName();
    } else {
      var init, last := names[..|names| - 1], names[|names| - 1];
      assert names == init + [last];
      NameTableOk(init);
      AddKeepsNames(NameTable(init), last);
    }
  }

  lemma FirstName()
    ensures Holds([0], 0, [] + [0])
  {
  }

  lemma {:induction false} SymNamesOk(injected: seq<InjectedSym>, i: nat)
    requires i < |injected|
    ensures Holds(SymNames(injected), |SymNames(injected[..i])|, injected[i].name + [0])
    decreases |injected|
  {
    hide Holds;
    var init, last := injected[..|injected| - 1], injected[|injected| - 1];
    var before := SymNames(init);
    if i == |injected| - 1 {
      LastName(before, last.name);
    } else {
      assert init[..i] == injected[..i];
      SymNamesOk(init, i);
      HoldsMore(before, SymNames(injected), |SymNames(injected[..i])|, injected[i].name + [0]);
    }
  }

  lemma LastName(before: seq<byte>, name: seq<byte>)
    ensures Holds(before + name + [0], |before|, name + [0])
  {
    var t := before + name + [0];
    assert t[|before|..|before| + |name + [0]|] == name + [0];
  }

  lemma {:induction false} SymTableOk(l: Layout, injected: seq<InjectedSym>, secs: seq<Section>, i: nat)
    requires i < |injected|
    ensures |SymTable(l, injected, secs)| == (|injected| + 1) * l.SymSize()
    ensures Holds(SymTable(l, injected, secs), (i + 1) * l.SymSize(),
                  EncodeSym(l, Wrap32(|SymNames(injected[..i])|), injected[i].value, SectionIndexOf(secs, injected[i].value)))
    decreases |injected|
  {
    hide Holds, EncodeSym, SymNames, SectionIndexOf, Wrap32;
    var init, last := injected[..|injected| - 1], injected[|injected| - 1];
    var before := SymTable(l, init, secs);
    SymTableLength(l, init, secs);
    var entry := EncodeSym(l, Wrap32(|SymNames(init)|), last.value, SectionIndexOf(secs, last.value));
    if i == |injected| - 1 {
      LastEntry(before, entry);
    } else {
      assert init[..i] == injected[..i];
      SymTableOk(l, init, secs, i);
      HoldsMore(before, SymTable(l, injected, secs), (i + 1) * l.SymSize(),
                EncodeSym(l, Wrap32(|SymNames(injected[..i])|), injected[i].value, SectionIndexOf(secs, injected[i].value)));
    }
  }

  lemma LastEntry(before: seq<byte>, entry: seq<byte>)
    ensures Holds(before + entry, |before|, entry)
  {
  }

  lemma {:induction false} SymTableLength(l: Layout, injected: seq<InjectedSym>, secs: seq<Section>)
    ensures |SymTable(l, injected, secs)| == (|injected| + 1) * l.SymSize()
    decreases |injected|
  {
    hide EncodeSym, SymNames, SectionIndexOf, Wrap32;
    if injected != [] {
      SymTableLength(l, injected[..|injected| - 1], secs);
    }
  }

  // ----- what is appended -----

  /** Payload `k` stands, aligned, at its offset between `lo` and `hi`. */
  ghost predicate PayloadAt(end: seq<byte>, s: Section, off: nat, lo: nat, hi: nat) {
    s.payload.Some? ==>
      && lo <= off && off + |s.payload.value| <= hi && Holds(end, off, s.payload.value)
      && (s.align > 1 ==> off % s.align == 0)
  }

  ghost predicate PayloadsApart(secs: seq<Section>, offs: seq<nat>, j: nat, k: nat)
    requires j < |secs| == |offs| && k < |secs|
  {
    secs[j].payload.Some? && secs[k].payload.Some? ==> offs[j] + |secs[j].payload.value| <= offs[k]
  }

  /** The data after the first payload, or where there is none, as it was. */
  function AfterFirst(data: seq<byte>, s: Section): (next: seq<byte>)
    ensures data <= next
  {
    match s.payload
    case None => data
    case Some(payload) => PadTo(data, s.align) + payload
  }

  lemma AppendStep(data: seq<byte>, secs: seq<Section>)
    requires secs != []
    ensures var (end, offs) := AppendPayloads(data, secs);
            && AppendPayloads(AfterFirst(data, secs[0]), secs[1..]) == (end, offs[1..])
            && (secs[0].payload.Some? ==> AfterFirst(data, secs[0]) <= end && offs[0] == |PadTo(data, secs[0].align)|)
  {
    hide PadTo;
  }

  lemma PayloadsCons(secs: seq<Section>, offs: seq<nat>, end: seq<byte>, lo: nat, next: nat)
    requires secs != [] && |offs| == |secs| && lo <= next
    requires PayloadAt(end, secs[0], offs[0], lo, next)
    requires forall k :: 0 <= k < |secs[1..]| ==> PayloadAt(end, secs[1..][k], offs[1..][k], next, |end|)
    ensures forall k :: 0 < k < |secs| ==> PayloadAt(end, secs[k], offs[k], lo, |end|) && PayloadsApart(secs, offs, 0, k)
  {
    forall k | 0 < k < |secs|
      ensures PayloadAt(end, secs[k], offs[k], lo, |end|) && PayloadsApart(secs, offs, 0, k)
    {
      assert secs[k] == secs[1..][k - 1] && offs[k] == offs[1..][k - 1];
    }
  }

  lemma ApartCons(secs: seq<Section>, offs: seq<nat>)
    requires secs != [] && |offs| == |secs|
    requires forall k :: 0 < k < |secs| ==> PayloadsApart(secs, offs, 0, k)
    requires forall j, k :: 0 <= j < k < |secs[1..]| ==> PayloadsApart(secs[1..], offs[1..], j, k)
    ensures forall j, k :: 0 <= j < k < |secs| ==> PayloadsApart(secs, offs, j, k)
  {
    forall j, k | 0 < j < k < |secs| ensures PayloadsApart(secs, offs, j, k) {
      assert PayloadsApart(secs[1..], offs[1..], j - 1, k - 1);
    }
  }

  /** Payloads follow one another past the image, each aligned, none overlapping. */
  lemma {:induction false} PayloadsAre(data: seq<byte>, secs: seq<Section>)
    ensures var (end, offs) := AppendPayloads(data, secs);
            && |data| <= |end|
            && (forall k :: 0 <= k < |secs| ==> PayloadAt(end, secs[k], offs[k], |data|, |end|))
            && (forall j, k :: 0 <= j < k < |secs| ==> PayloadsApart(secs, offs, j, k))
    decreases |secs|
  {
    hide PayloadAt, AppendPayloads, AfterFirst, PayloadsApart;
    if secs != [] {
      var (end, offs) := AppendPayloads(data, secs);
      var next := AfterFirst(data, secs[0]);
      AppendStep(data, secs);
      PayloadsAre(next, secs[1..]);
      FirstPayload(data, secs[0], end, offs[0]);
      PayloadsCons(secs, offs, end, |data|, |next|);
      ApartCons(secs, offs);
    }
  }

  lemma FirstPayload(data: seq<byte>, s: Section, end: seq<byte>, off: nat)
    requires s.payload.Some? ==> AfterFirst(data, s) <= end && off == |PadTo(data, s.align)|
    requires |AfterFirst(data, s)| <= |end|
    ensures PayloadAt(end, s, off, |data|, |AfterFirst(data, s)|) && PayloadAt(end, s, off, |data|, |end|)
  {
    if s.payload.Some? {
      var padded := PadTo(data, s.align);
      assert end[off..off + |s.payload.value|] == (padded + s.payload.value)[off..off + |s.payload.value|];
    }
  }

  /** Where header `i` of a table at `at` starts. */
  function HeaderAt(l: Layout, at: nat, i: nat): nat {
    at + i * l.ShdrSize()
  }

  ghost predicate HeaderStands(l: Layout, b: seq<byte>, at: nat, h: Shdr) {
    Holds(b, at, EncodeShdr(l, h))
  }

  lemma NextHeader(l: Layout, at: nat, i: nat)
    ensures HeaderAt(l, HeaderAt(l, at, 1), i) == HeaderAt(l, at, i + 1)
    ensures HeaderAt(l, at, 0) == at && HeaderAt(l, at, 1) == at + l.ShdrSize()
  {
  }

  lemma {:induction false} HeadersAre(
    l: Layout, b: seq<byte>, at: nat, secs: seq<Section>, offs: seq<nat>, names: Names, shstrtabOff: nat, from: nat, k: nat)
    requires |offs| == |secs| && from <= k < |secs|
    requires Holds(b, at, HeaderTable(l, secs, offs, names, shstrtabOff, from))
    ensures HeaderStands(l, b, HeaderAt(l, at, k - from), HeaderOf(secs, k, offs, names, shstrtabOff))
    decreases k - from
  {
    hide Holds, EncodeShdr, HeaderOf, HeaderAt;
    var first := EncodeShdr(l, HeaderOf(secs, from, offs, names, shstrtabOff));
    HoldsSplit(b, at, first, HeaderTable(l, secs, offs, names, shstrtabOff, from + 1));
    NextHeader(l, at, if from < k then k - from - 1 else 0);
    if from < k {
      HeadersAre(l, b, HeaderAt(l, at, 1), secs, offs, names, shstrtabOff, from + 1, k);
    }
  }

  /** What stands where in the appended part. */
  datatype Placement = Placement(offs: seq<nat>, names: Names, shstrtabOff: nat, shoff: nat)

  function PlacementOf(l: Layout, data: seq<byte>, secs: seq<Section>): (p: Placement)
    ensures |p.offs| == |secs|
  {
    var names := NameTable(NamesOf(secs));
    var (withPayloads, offs) := AppendPayloads(data, secs);
    Placement(offs, names, |withPayloads|, Appended(l, data, secs).1)
  }

  /** The appended part, in order: payloads, names, and at a word boundary the
      header table, which ends the file. */
  ghost predicate LaidOut(l: Layout, r: seq<byte>, start: nat, secs: seq<Section>, p: Placement)
    requires |p.offs| == |secs|
  {
    && (forall k :: 0 <= k < |secs| ==> PayloadAt(r, secs[k], p.offs[k], start, p.shstrtabOff))
    && (forall j, k :: 0 <= j < k < |secs| ==> PayloadsApart(secs, p.offs, j, k))
    && start <= p.shstrtabOff
    && Holds(r, p.shstrtabOff, p.names.tab)
    && p.shstrtabOff + |p.names.tab| <= p.shoff && p.shoff % l.Word() == 0
    && Holds(r, p.shoff, HeaderTable(l, secs, p.offs, p.names, p.shstrtabOff, 0))
    && p.shoff + |secs| * l.ShdrSize() == |r|
  }

  lemma AppendedIsLaidOut(l: Layout, data: seq<byte>, secs: seq<Section>)
    ensures LaidOut(l, Appended(l, data, secs).0, |data|, secs, PlacementOf(l, data, secs))
  {
    hide AppendPayloads, NameTable, HeaderTable, PadTo, NamesOf, PayloadAt, PayloadsApart, Holds;
    var p := PlacementOf(l, data, secs);
    var (withPayloads, offs) := AppendPayloads(data, secs);
    var r := Appended(l, data, secs).0;
    PayloadsAre(data, secs);
    var padded := PadTo(withPayloads + p.names.tab, l.Word());
    var table := HeaderTable(l, secs, offs, p.names, |withPayloads|, 0);
    LastEntry(withPayloads, p.names.tab);
    PrefixTrans(withPayloads + p.names.tab, padded, padded + table);
    HoldsMore(withPayloads + p.names.tab, r, |withPayloads|, p.names.tab);
    LastEntry(padded, table);
    assert withPayloads <= r;
    forall k | 0 <= k < |secs| ensures PayloadAt(r, secs[k], offs[k], |data|, |withPayloads|) {
      PayloadLonger(withPayloads, r, secs[k], offs[k], |data|);
    }
  }

  lemma PrefixTrans(a: seq<byte>, b: seq<byte>, c: seq<byte>)
    requires a <= b <= c
    ensures a <= c && |a| <= |b|
  {
  }

  lemma PayloadLonger(b: seq<byte>, c: seq<byte>, s: Section, off: nat, lo: nat)
    requires PayloadAt(b, s, off, lo, |b|) && b <= c
    ensures PayloadAt(c, s, off, lo, |b|)
  {
    hide Holds;
    if s.payload.Some? {
      HoldsMore(b, c, off, s.payload.value);
    }
  }

  lemma HoldsAgain(b: seq<byte>, c: seq<byte>, lo: nat, pos: nat, s: seq<byte>)
    requires Holds(b, pos, s) && lo <= pos && |c| == |b| && forall x :: lo <= x < |b| ==> c[x] == b[x]
    ensures Holds(c, pos, s)
  {
    assert c[pos..pos + |s|] == b[pos..pos + |s|];
  }

  /** The appended layout of a rebuilt file: disjoint, in order, ending the file. */
  lemma RebuildLayout(l: Layout, image: seq<byte>, found: Found, injected: seq<InjectedSym>)
    requires l.EhdrSize() <= |image|
    ensures var secs := RebuiltSections(l, found, injected);
            LaidOut(l, Rebuild(l, image, found, injected), |image|, secs,
                    PlacementOf(l, Patched(l, image, found, secs), secs))
  {
    hide Patched, Appended, SetHeader, AllSections, LoadedList, PlacementOf, HeaderTable, PayloadAt, PayloadsApart, Holds, InTableFields;
    var secs := RebuiltSections(l, found, injected);
    var patched := Patched(l, image, found, secs);
    var (data, shoff) := Appended(l, patched, secs);
    var r := Rebuild(l, image, found, injected);
    var p := PlacementOf(l, patched, secs);
    AppendedIsLaidOut(l, patched, secs);
    SomeSections(l, found, injected);
    forall x | |image| <= x < |data| ensures r[x] == data[x] {
      TableFieldsInHeader(l, x);
      SetHeaderFrame(l, data, shoff, |secs|, |secs| - 1, x);
    }
    HoldsAgain(data, r, |image|, p.shstrtabOff, p.names.tab);
    HoldsAgain(data, r, |image|, p.shoff, HeaderTable(l, secs, p.offs, p.names, p.shstrtabOff, 0));
    forall k | 0 <= k < |secs| ensures PayloadAt(r, secs[k], p.offs[k], |image|, p.shstrtabOff) {
      PayloadAgain(data, r, |image|, secs[k], p.offs[k], p.shstrtabOff);
    }
  }

  lemma PayloadAgain(b: seq<byte>, c: seq<byte>, lo: nat, s: Section, off: nat, hi: nat)
    requires PayloadAt(b, s, off, lo, hi) && |c| == |b| && forall x :: lo <= x < |b| ==> c[x] == b[x]
    ensures PayloadAt(c, s, off, lo, hi)
  {
    hide Holds;
    if s.payload.Some? {
      HoldsAgain(b, c, lo, off, s.payload.value);
    }
  }
}
