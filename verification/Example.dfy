/**
  A small DEX whose last string has lost its terminator. It is well-formed,
  needs relocation and is repaired; repairing it again moves everything once
  more, because zeroing the retired section has terminated the string and so
  made a record usable that was not.
 */
module Example {
  import opened Bytes
  import opened Leb128
  import opened Mutf8
  import opened Dex
  import opened ClassData
  import opened CodeItem
  import opened Bytecode
  import opened MapList
  import opened Synthesis
  import opened Relocation
  import opened RelocationProofs
  import opened Relocated
  import opened Live
  import opened FormatProofs
  import opened InPlace
  import opened Validator
  import opened Repair
  import opened Sealing
  import opened RepairProofs
  import opened GrownLength
  import opened RepairTheorems
  import opened RepairedProgram
  import opened RepairedRest
  import opened Unshared
  import opened Idempotence
  import opened Sharing

  // ----- the file -----

  const WORDS: nat := 57
  const MAP_AT: nat := 0xb8
  const NAME_AT: nat := 0xd4
  const DATA_AT: nat := 0xd8
  const LOST_AT: nat := 0xe2

  /** The file, word by word. */
  function Word(i: nat): u32 {
    match i
    // header
    case 0 => DEX_FILE_MAGIC
    case 1 => 0x0035_3330
    case 8 => 228
    case 9 => 0x70
    case 10 => ENDIAN_TAG
    case 13 => MAP_AT
    case 14 => 2
    case 15 => 0x70
    case 16 => 1
    case 17 => 0x78
    case 18 => 1
    case 19 => 0x7c
    case 22 => 2
    case 23 => 0x88
    case 24 => 1
    case 25 => 0x98
    // string ids; the type and the prototype refer to string 0
    case 28 => NAME_AT
    case 29 => LOST_AT
    // two method ids: the second is named by string 1
    case 37 => 1
    // one class
    case 40 => U32_MAX
    case 42 => U32_MAX
    case 44 => DATA_AT
    // map: class data, then the map itself
    case 46 => 2
    case 47 => TYPE_CLASS_DATA
    case 48 => 1
    case 49 => DATA_AT
    case 50 => TYPE_MAP_LIST
    case 51 => 1
    case 52 => MAP_AT
    // string 0: "V"
    case 53 => 0x5601
    // class data of two static methods without code, and string 1: "A", cut off
    case 54 => 0x0002_0000
    case 55 => 0x0100_0800
    case 56 => 0x4101_0008
    case _ => 0
  }

  function ByteOf(w: u32, j: nat): byte {
    if j == 0 then w % 0x100
    else if j == 1 then w / 0x100 % 0x100
    else if j == 2 then w / 0x1_0000 % 0x100
    else w / 0x100_0000
  }

  function Sample(): (b: seq<byte>)
    ensures |b| == 4 * WORDS
    ensures forall i :: 0 <= i < |b| ==> b[i] == ByteOf(Word(i / 4), i % 4)
  {
    seq(4 * WORDS, i requires 0 <= i < 4 * WORDS => ByteOf(Word(i / 4), i % 4))
  }

  lemma SampleByte(i: nat, j: nat)
    requires i < WORDS && j < 4
    ensures Sample()[4 * i + j] == ByteOf(Word(i), j)
  {
    hide Word, ByteOf;
    assert (4 * i + j) / 4 == i && (4 * i + j) % 4 == j;
  }

  lemma BytesOfWord(w: u32)
    ensures ByteOf(w, 0) + 0x100 * ByteOf(w, 1) == w % 0x1_0000
    ensures ByteOf(w, 2) + 0x100 * ByteOf(w, 3) == w / 0x1_0000
  {
    var low, high := w % 0x1_0000, w / 0x1_0000;
    assert low % 0x100 == w % 0x100 && low / 0x100 == w / 0x100 % 0x100;
    assert high / 0x100 == w / 0x100_0000 && high % 0x100 == w / 0x1_0000 % 0x100;
  }

  lemma SampleWord(i: nat)
    requires i < WORDS
    ensures Le32(Sample(), 4 * i) == Word(i)
    ensures Le16(Sample(), 4 * i) == Word(i) % 0x1_0000
    ensures Le16(Sample(), 4 * i + 2) == Word(i) / 0x1_0000
  {
    hide Word, Sample, ByteOf;
    BytesOfWord(Word(i));
    SampleByte(i, 0);
    SampleByte(i, 1);
    SampleByte(i, 2);
    SampleByte(i, 3);
  }

  /** The words that matter, in any file that has them. */
  ghost predicate HasTables(b: seq<byte>) {
    && 4 * WORDS <= |b|
    && Le32(b, 56) == 2 && Le32(b, 60) == 0x70 && Le32(b, 64) == 1 && Le32(b, 68) == 0x78
    && Le32(b, 72) == 1 && Le32(b, 76) == 0x7c && Le32(b, 88) == 2 && Le32(b, 92) == 0x88
    && Le32(b, 0x70) == NAME_AT && Le32(b, 0x74) == LOST_AT && Le32(b, 0x78) == 0
    && Le32(b, 0x80) == 0 && Le32(b, 0x84) == 0
    && Le16(b, 0x88) == 0 && Le16(b, 0x8a) == 0 && Le32(b, 0x8c) == 0
    && Le16(b, 0x90) == 0 && Le16(b, 0x92) == 0 && Le32(b, 0x94) == 1
    && b[NAME_AT] == 1 && b[NAME_AT + 1] == 0x56 && b[NAME_AT + 2] == 0
  }

  lemma SampleTables()
    ensures HasTables(Sample())
  {
    hide Sample, Le32, Le16;
    SampleWord(14);
    SampleWord(15);
    SampleWord(16);
    SampleWord(17);
    SampleWord(18);
    SampleWord(19);
    SampleWord(22);
    SampleWord(23);
    SampleWord(28);
    SampleWord(29);
    SampleWord(30);
    SampleWord(32);
    SampleWord(33);
    SampleWord(34);
    SampleWord(35);
    SampleWord(36);
    SampleWord(37);
    SampleByte(53, 0);
    SampleByte(53, 1);
    SampleByte(53, 2);
  }

  // ----- signatures -----

  lemma TypeZero(b: seq<byte>)
    requires HasTables(b)
    ensures GetString(b, 0).Ok? && GetTypeDescriptor(b, 0).Ok? && GetProtoParameters(b, 0) == Ok([])
  {
    hide Le32, Le16, Decode;
    assert ReadUleb128(b, NAME_AT) == Ok((1, NAME_AT + 1));
    assert FirstNul(b, NAME_AT + 1) == Some(NAME_AT + 2);
    assert ReadStringData(b, NAME_AT).Ok?;
    assert EntryOffset(0x70, 0, 4) == Ok(0x70);
    assert GetString(b, 0).Ok?;
    assert EntryOffset(0x78, 0, 4) == Ok(0x78);
    assert EntryOffset(0x7c, 0, 12) == Ok(0x7c);
  }

  /** The first method's lookups succeed; the second's depend on its name. */
  lemma Lookups(b: seq<byte>)
    requires HasTables(b)
    ensures IncomingWords(b, 0, 8) == Ok(0)
    ensures IncomingWords(b, 1, 8) == if ReadStringData(b, LOST_AT).Ok? then Ok(0) else Err(ReadStringData(b, LOST_AT).error)
  {
    hide Le32, Le16, GetTypeDescriptor, GetProtoParameters, ReadStringData;
    TypeZero(b);
    assert EntryOffset(0x88, 0, 8) == Ok(0x88) && EntryOffset(0x88, 1, 8) == Ok(0x90) && EntryOffset(0x70, 1, 4) == Ok(0x74);
    assert GetString(b, 1) == ReadStringData(b, LOST_AT);
    assert IsStatic(8);
  }

  lemma NameIsCutOff()
    ensures ReadStringData(Sample(), LOST_AT).Err?
  {
    hide Sample, Decode;
    SampleByte(56, 2);
    SampleByte(56, 3);
    assert ReadUleb128(Sample(), LOST_AT) == Ok((1, LOST_AT + 1));
    assert FirstNul(Sample(), LOST_AT + 2) == None;
  }

  lemma ZeroedName(b: seq<byte>)
    requires LOST_AT + 2 <= |b| && b[LOST_AT] == 0 && b[LOST_AT + 1] == 0
    ensures ReadStringData(b, LOST_AT).Ok?
  {
    hide Decode;
    assert ReadUleb128(b, LOST_AT) == Ok((0, LOST_AT + 1));
  }

  // ----- records -----

  function Records(): seq<Capture> {
    [Capture(0, "0e00"), Capture(1, "0e00")]
  }

  lemma RecordsBy()
    ensures ByMethod(Records()) == map[0 := Capture(0, "0e00"), 1 := Capture(1, "0e00")]
  {
    assert Records()[..1] == [Capture(0, "0e00")];
    assert Records()[..1][..0] == [];
    assert ByMethod(Records()[..1]) == map[0 := Capture(0, "0e00")];
  }

  lemma HexDigits(high: char, low: char, first: byte, rest: string, bytes: seq<byte>)
    requires HexDecode(rest) == Some(bytes) && HexValue(high).Some? && HexValue(low).Some?
    requires first == 0x10 * HexValue(high).value + HexValue(low).value
    ensures HexDecode([high, low] + rest) == Some([first] + bytes)
  {
    assert ([high, low] + rest)[2..] == rest;
  }

  /** `return-void` decodes. */
  lemma ReturnVoid()
    ensures HexDecode("0e00") == Some([0x0e, 0x00])
    ensures Scan([0x0e, 0x00]) == Scanned(InsnScan(0, 0, 1))
  {
    HexDigits('0', '0', 0x00, "", []);
    var last: seq<byte> := [0x00];
    assert ['0', '0'] + "" == "00" && last + [] == last;
    HexDigits('0', 'e', 0x0e, "00", last);
    assert ['0', 'e'] + "00" == "0e00" && [0x0e] + last == [0x0e, 0x00];
    var code: seq<byte> := [0x0e, 0x00];
    assert Units(code) == 1 && Unit(code, 0) == 0x0e;
    assert ScanFrom(code, 1, 0, 0) == Scanned(Marks(0, 0, 1));
  }

  lemma Synthesizes(b: seq<byte>, idx: u32)
    requires HasTables(b) && idx < 2
    ensures SynthesizeCodeItem(b, idx, 8, Capture(idx, "0e00"), false).Ok? <==> idx == 0 || ReadStringData(b, LOST_AT).Ok?
    ensures SynthesizeCodeItem(b, idx, 8, Capture(idx, "0e00"), false).Ok? ==>
              |SynthesizeCodeItem(b, idx, 8, Capture(idx, "0e00"), false).value| == 18
  {
    hide HexDecode, Scan, IncomingWords, ReadStringData, Le32, Le16;
    ReturnVoid();
    Lookups(b);
  }

  // ----- classes and map -----

  function Stripped(idx: u32): EncodedMethod {
    EncodedMethod(idx, 8, 0, None)
  }

  function Item(): ClassItem {
    ClassItem([], [], [Stripped(0), Stripped(1)], [])
  }

  lemma EncodedItem()
    ensures EncodeClassData(Item()) == [0, 0, 2, 0, 0, 8, 0, 1, 8, 0]
    ensures Encodable(Item())
  {
    assert EncodeFields([], 0) == [];
    assert EncodeMethods([Stripped(1)], 0) == EncodeMethod(Stripped(1), 0) + EncodeMethods([], 1);
    assert Item().directMethods[1..] == [Stripped(1)];
  }

  function BytesOf(w: u32): (s: seq<byte>)
    ensures |s| == 4
  {
    [ByteOf(w, 0), ByteOf(w, 1), ByteOf(w, 2), ByteOf(w, 3)]
  }

  lemma WordBytes(i: nat)
    requires i < WORDS
    ensures Sample()[4 * i..4 * i + 4] == BytesOf(Word(i))
  {
    hide Sample, Word, ByteOf;
    SampleByte(i, 0);
    SampleByte(i, 1);
    SampleByte(i, 2);
    SampleByte(i, 3);
  }

  lemma DataWords()
    ensures BytesOf(Word(54)) == [0, 0, 2, 0] && BytesOf(Word(55)) == [0, 8, 0, 1] && BytesOf(Word(56)) == [8, 0, 1, 0x41]
  {
  }

  lemma SampleDataBytes()
    ensures Sample()[DATA_AT..LOST_AT] == [0, 0, 2, 0, 0, 8, 0, 1, 8, 0]
  {
    hide Sample, Word, BytesOf;
    DataWords();
    WordBytes(54);
    WordBytes(55);
    WordBytes(56);
    var b := Sample();
    assert b[224..226] == b[224..228][..2];
    assert b[216..226] == b[216..220] + b[220..224] + b[224..226];
  }

  lemma SampleData()
    ensures ParseClassData(Sample(), DATA_AT) == Ok((Item(), LOST_AT))
  {
    hide Sample, ParseClassData, EncodeClassData, Encodable, Item;
    EncodedItem();
    SampleDataBytes();
    ClassDataRoundTrip(Sample(), DATA_AT, Item());
  }

  function Ids(): seq<Table> {
    [Table(2, 0x70, 4), Table(1, 0x78, 4), Table(1, 0x7c, 12), Table(0, 0, 8), Table(2, 0x88, 8), Table(1, 0x98, 32)]
  }

  lemma SampleIds()
    ensures IdTables(Sample()) == Ids()
  {
    hide Sample, Le32;
    SampleTables();
    SampleWord(20);
    SampleWord(21);
    SampleWord(24);
    SampleWord(25);
  }

  lemma IdsEnd()
    ensures MaxEnd(Ids()) == MAP_AT
  {
    var ts := Ids();
    assert MaxEnd(ts[5..]) == MAP_AT by {
      assert ts[5..][1..] == [];
    }
    assert MaxEnd(ts[4..]) == MAP_AT by {
      assert ts[4..][1..] == ts[5..];
    }
    assert ts[3..][1..] == ts[4..] && ts[2..][1..] == ts[3..] && ts[1..][1..] == ts[2..];
  }

  lemma SampleHeader()
    ensures OpenDex(Sample()).Ok? && ValidateIdBounds(Sample()).Ok? && TablesEnd(Sample()) == MAP_AT
  {
    hide Sample, Le32, IdTables, MaxEnd, Word, AllApart, Ids;
    SampleMagic();
    SampleIds();
    IdsEnd();
    IdsAreFine();
  }

  lemma SampleMagic()
    ensures Le32(Sample(), 0) == DEX_FILE_MAGIC && Le32(Sample(), 36) == DEX_HEADER_SIZE && Le32(Sample(), 40) == ENDIAN_TAG
  {
    hide Sample, Le32;
    SampleWord(0);
    SampleWord(9);
    SampleWord(10);
  }

  lemma IdsAreFine()
    ensures AllApart(Ids()) && |Ids()| == 6 && forall i :: 0 <= i < 6 ==> Ids()[i].InFile(4 * WORDS)
    ensures exists t :: t in Ids() && t.count != 0
  {
    assert Ids()[0] in Ids();
  }

  lemma SampleDefs()
    ensures ClassDefsSize(Sample()) == 1 && MethodIdsSize(Sample()) == 2 && ClassDefAt(Sample(), 0) == 0x98
    ensures DefsInFile(Sample()) && ClassDataOff(Sample(), 0) == DATA_AT
  {
    hide Sample, Le32;
    SampleWord(22);
    SampleWord(24);
    SampleWord(25);
    SampleWord(44);
  }

  function Entries(): seq<MapEntry> {
    [MapEntry(TYPE_CLASS_DATA, 1, DATA_AT), MapEntry(TYPE_MAP_LIST, 1, MAP_AT)]
  }

  lemma SampleMap()
    ensures MapTable(Sample()) == Some((MAP_AT, 2)) && ReadMap(Sample()) == Ok(Entries())
  {
    hide Sample, Le32, Le16;
    SampleWord(13);
    SampleWord(46);
    SampleEntry(47);
    SampleEntry(50);
    assert EntriesFrom(Sample(), 200, 1) == [EntryAt(Sample(), 200)] + EntriesFrom(Sample(), 212, 0);
    assert EntriesFrom(Sample(), 188, 2) == Entries();
  }

  lemma SampleEntry(i: nat)
    requires i + 3 <= WORDS
    ensures EntryAt(Sample(), 4 * i) == MapEntry(Word(i) % 0x1_0000, Word(i + 1), Word(i + 2))
  {
    hide Sample, Le32, Le16, Word;
    SampleWord(i);
    SampleWord(i + 1);
    SampleWord(i + 2);
  }

  // ----- the file is well-formed and needs relocation -----

  lemma SampleLive()
    ensures DefsInFile(Sample()) && ClassDefsSize(Sample()) == 1 && MethodsOf(Sample(), 0) == [Stripped(0), Stripped(1)]
    ensures forall off: u32 :: !CodeOffset(Sample(), off)
    ensures forall off: u32 :: LiveData(Sample(), off) <==> off == DATA_AT
  {
    hide Sample, Le32, ParseClassData;
    SampleDefs();
    SampleData();
    assert Item().Methods() == [Stripped(0), Stripped(1)];
  }

  lemma SampleSound()
    ensures Sound(Sample()) && Apart(Sample()) && StraysApart(Sample()) && IndicesInRange(Sample()) && OwnItems(Sample())
  {
    hide Sample, Le32, ParseClassData, ValidateIdBounds, OpenDex, TablesEnd, MethodsOf, CodeOffset, LiveData;
    SampleLive();
    SampleDefs();
    SampleData();
    SampleHeader();
  }

  lemma SampleWellFormed()
    ensures WellFormed(Sample())
  {
    hide Sample, Le32, ParseClassData, ValidateIdBounds, OpenDex, TablesEnd, MethodsOf, CodeOffset, LiveData, ReadMap, MapTable,
      Sound, Apart, StraysApart, IndicesInRange;
    SampleLive();
    SampleSound();
    SampleData();
    SampleHeader();
    SampleMap();
    var es := Entries();
    assert es[1] in es;
    assert ListsItself(es, MAP_AT);
    assert MapClear(Sample());
    assert MapWellFormed(Sample());
  }

  lemma SampleApplied()
    ensures MethodOffsets(Sample()).Ok? && Applied(Sample(), Records()) == Sample()
  {
    hide WellFormed, Sample, Le32, ReadMap, Applied, MethodOffsets, SameTables, ReadsSame, LenOf, Insns, LastFit, CodeOffset;
    SampleWellFormed();
    SampleLive();
    AppliedIs(Sample(), Records());
    var c := Applied(Sample(), Records());
    forall x | 0 <= x < |c| ensures c[x] == Sample()[x] {
      assert !InInsns(Sample(), x);
    }
  }

  // ----- the first run -----

  function Rebuilt(): seq<byte> {
    CodeItemHeader(0, 0, 0, 1) + [0x0e, 0x00]
  }

  function Recovered(): EncodedMethod {
    Stripped(0).(pending := Some(Rebuilt()))
  }

  function Planned(): PlannedClass {
    PlannedClass(0x98, Item().WithMethods([Recovered(), Stripped(1)]), [Synthesized, Failed])
  }

  lemma SampleFates()
    ensures PlanMethod(Sample(), ByMethod(Records()), false, Stripped(0)) == Ok((Recovered(), Synthesized))
    ensures PlanMethod(Sample(), ByMethod(Records()), false, Stripped(1)) == Ok((Stripped(1), Failed))
  {
    hide Sample, Le32, ParseClassData, SynthesizeCodeItem, Rebuilt;
    SampleTables();
    RecordsBy();
    SynthesizedFirst();
    Synthesizes(Sample(), 1);
    NameIsCutOff();
    NoItemAtZero(Sample());
  }

  lemma TwoPlanned(b: seq<byte>, caps: Captures)
    requires HasHeader(b)
    requires PlanMethod(b, caps, false, Stripped(0)) == Ok((Recovered(), Synthesized))
    requires PlanMethod(b, caps, false, Stripped(1)) == Ok((Stripped(1), Failed))
    ensures PlanMethods(b, caps, false, [Stripped(0), Stripped(1)]) == Ok(([Recovered(), Stripped(1)], [Synthesized, Failed]))
  {
    hide PlanMethod, Recovered;
    var ms := [Stripped(0), Stripped(1)];
    assert ms[1..] == [Stripped(1)] && ms[1..][1..] == [];
    assert PlanMethods(b, caps, false, ms[1..]) == Ok(([Stripped(1)] + [], [Failed] + []));
    assert [Stripped(1)] + [] == [Stripped(1)] && [Failed] + [] == [Failed];
    assert [Recovered()] + [Stripped(1)] == [Recovered(), Stripped(1)] && [Synthesized] + [Failed] == [Synthesized, Failed];
  }

  /** One method gets a new item; the record of the other is unusable. */
  lemma SamplePlan()
    ensures PlanFrom(Sample(), ByMethod(Records()), false, 0) == Ok([Planned()])
  {
    hide Sample, Le32, ParseClassData, PlanMethods, PlanMethod, Recovered, ByMethod;
    SampleDefs();
    SampleData();
    SampleFates();
    TwoPlanned(Sample(), ByMethod(Records()));
    assert Item().Methods() == [Stripped(0), Stripped(1)];
    assert PlanFrom(Sample(), ByMethod(Records()), false, 1) == Ok([]);
    assert [Planned()] + [] == [Planned()];
  }

  lemma SynthesizedFirst()
    ensures SynthesizeCodeItem(Sample(), 0, 8, Capture(0, "0e00"), false) == Ok(Rebuilt())
  {
    hide Sample, Le32, HexDecode, Scan, IncomingWords, CodeItemHeader;
    SampleTables();
    Lookups(Sample());
    ReturnVoid();
  }

  lemma SampleNeeds()
    ensures Recoverable(Sample(), Records(), false) && Relocates(Sample(), Records(), false)
  {
    hide Sample, Le32, ParseClassData, PlanMethod, ByMethod, Applied, MethodOffsets, PlanFrom, CodeItemEnd, Rebuilt;
    SampleApplied();
    SampleDefs();
    SampleData();
    SamplePlan();
    assert Item().Methods() == [Stripped(0), Stripped(1)];
    assert AllFates([Planned()]) == [Synthesized, Failed] + AllFates([]);
  }

  lemma LaidItem()
    ensures LaidPlan(Sample(), [Planned()], 228) == [Planned().(item := Item().WithMethods([EncodedMethod(0, 8, 228, None), Stripped(1)]))]
    ensures AfterBodies(Sample(), [Planned()], 228) == 246
  {
    hide Sample, CodeItemEnd;
    var ms := [Recovered(), Stripped(1)];
    assert Planned().item.Methods() == ms && ms[1..] == [Stripped(1)] && ms[1..][1..] == [];
    assert AfterMethods(Sample(), ms[1..], 246) == 246 && LaidMethods(Sample(), ms[1..], 246) == [Stripped(1)] + [];
    assert LaidMethods(Sample(), ms, 228) == [EncodedMethod(0, 8, 228, None), Stripped(1)];
  }

  lemma LaidLength()
    ensures |EncodeClassData(Item().WithMethods([EncodedMethod(0, 8, 228, None), Stripped(1)]))| == 11
  {
    var first := EncodedMethod(0, 8, 228, None);
    var ms := [first, Stripped(1)];
    assert ms[1..] == [Stripped(1)] && ms[1..][1..] == [];
    assert Item().WithMethods(ms).directMethods == ms;
    assert EncodeMethods(ms[1..], 0) == EncodeMethod(Stripped(1), 0) + [];
    assert |EncodeUleb(228)| == 2;
  }

  lemma NoKeptEntries()
    ensures KeptEntries(Entries()) == []
  {
    assert Entries()[1..] == [MapEntry(TYPE_MAP_LIST, 1, MAP_AT)];
  }

  lemma SampleLength()
    requires Relocates(Sample(), Records(), false)
    ensures RepairedLength(Sample(), Records(), false) == 300
  {
    hide Sample, Le32, Applied, PlanFrom, ReadMap, KeptEntries, AfterBodies, LaidPlan, EncodeClassData, NeedsRelocation, MethodOffsets,
      Rebuilt, Entries, Align4;
    SampleApplied();
    SamplePlan();
    SampleMap();
    LaidItem();
    LaidLength();
    NoKeptEntries();
    assert AllMethods([Planned()]) == [Recovered(), Stripped(1)] + AllMethods([]);
    assert Recovered() in AllMethods([Planned()]) && !IsBodiless(Recovered());
    var laid := Planned().(item := Item().WithMethods([EncodedMethod(0, 8, 228, None), Stripped(1)]));
    assert DataLength([laid]) == 11 + DataLength([]);
    assert RelocatedLength(Sample(), [Planned()]) == 257;
    Align4Is(257, 260);
  }

  lemma Align4Is(n: nat, r: nat)
    requires n <= r < n + 4 && r % 4 == 0
    ensures Align4(n) == r
  {
  }

  /** The file is repaired, with no method unaccounted for. */
  lemma SampleIsRepaired(digests: Digests)
    ensures WellFormed(Sample()) && DefsInFile(Sample()) && OwnItems(Sample()) && Recoverable(Sample(), Records(), false)
    ensures RepairOne(Sample(), Records(), false, digests).Ok?
    ensures var (f, outcome) := RepairOne(Sample(), Records(), false, digests).value;
            |f| == 300 && outcome.unrecovered == 0 && outcome.failed == 1 && outcome.relocated.Some?
  {
    hide Sample, Le32, Applied, PlanFrom, ReadMap, WellFormed, OwnItems, Recoverable, RepairedLength, Relocate, RepairOne, Finish,
      ValidateIdBounds, OpenDex, MethodOffsets;
    SampleWellFormed();
    SampleSound();
    SampleDefs();
    SampleHeader();
    SampleMap();
    SampleNeeds();
    SampleApplied();
    SampleLength();
    RepairValidates(Sample(), Records(), false, digests);
    RepairOneIs(Sample(), Records(), false, digests);
    SampleCounts();
  }

  lemma SampleCounts()
    requires AppendMissing(Sample(), Records(), false).Ok?
    ensures var outcome := AppendMissing(Sample(), Records(), false).value.1;
            outcome.unrecovered == 0 && outcome.failed == 1 && outcome.relocated.Some?
  {
    hide Sample, PlanFrom, Relocate, Item, AllMethods;
    SamplePlan();
    var fates := [Synthesized, Failed];
    assert AllFates([Planned()]) == fates + AllFates([]) && AllFates([Planned()]) == fates;
    assert fates[1..] == [Failed] && fates[1..][1..] == [];
    assert CountFate(fates[1..], Failed) == 1 && CountFate(fates[1..], Unrecovered) == 0;
    assert fates[0] == Synthesized;
  }

  // ----- the second run -----

  /** The section of class data reaches to the end of the file. */
  lemma SampleRetires(x: nat)
    ensures Retires(Entries(), 4 * WORDS, x) <==> DATA_AT <= x < 4 * WORDS
  {
    var es := Entries();
    assert es[0] in es && es[1] in es;
    assert NextOffset(es, DATA_AT, 4 * WORDS) == 4 * WORDS;
    assert forall e :: e in es && IsRetired(e) ==> e == es[0];
    assert InSection(es, es[0], 4 * WORDS, x) <==> DATA_AT <= x < 4 * WORDS;
  }

  /** What the first run leaves of the bytes that lookups read. */
  lemma RepairedByte(digests: Digests, x: nat)
    requires RepairOne(Sample(), Records(), false, digests).Ok? && x < 4 * WORDS
    ensures var f := RepairOne(Sample(), Records(), false, digests).value.0;
            && x < |f|
            && (DATA_AT <= x ==> f[x] == 0)
            && (56 <= x < 0x68 || 0x70 <= x < 0x98 || NAME_AT <= x < DATA_AT ==> f[x] == Sample()[x])
  {
    hide Sample, RepairOne, WellFormed, Recoverable, OwnItems, ReadMap, MapTable, LenOf, CodeOffset, Entries, Retires, Le32;
    SampleIsRepaired(digests);
    SampleMap();
    SampleDefs();
    SampleLive();
    SampleRetires(x);
    RepairKeepsRest(Sample(), Records(), false, digests, x);
    assert !InInsns(Sample(), x);
    assert InDefField(Sample(), x) || InDataOff(Sample(), x) ==> 0x98 <= x < 0xb8;
  }

  lemma AgreeLe16(b: seq<byte>, c: seq<byte>, lo: nat, hi: nat, x: nat)
    requires Agree(b, c, lo, hi) && lo <= x && x + 2 <= hi
    ensures Le16(b, x) == Le16(c, x)
  {
    hide Le16;
    AgreeWithin(b, c, lo, hi, x, x + 2);
    Le16Of(b, x, c, x);
  }

  lemma TablesCarry(b: seq<byte>, f: seq<byte>)
    requires HasTables(b) && Agree(b, f, 56, 0x68) && Agree(b, f, 0x70, 0x98) && Agree(b, f, NAME_AT, DATA_AT) && 4 * WORDS <= |f|
    ensures HasTables(f)
  {
    hide Le32, Le16, Agree;
    forall x | 56 <= x && x + 4 <= 0x68 ensures Le32(b, x) == Le32(f, x) {
      AgreeLe32(b, f, 56, 0x68, x);
    }
    forall x | 0x70 <= x && x + 4 <= 0x98 ensures Le32(b, x) == Le32(f, x) {
      AgreeLe32(b, f, 0x70, 0x98, x);
    }
    forall x | 0x70 <= x && x + 2 <= 0x98 ensures Le16(b, x) == Le16(f, x) {
      AgreeLe16(b, f, 0x70, 0x98, x);
    }
    AgreeAt(b, f, NAME_AT, DATA_AT, NAME_AT);
    AgreeAt(b, f, NAME_AT, DATA_AT, NAME_AT + 1);
    AgreeAt(b, f, NAME_AT, DATA_AT, NAME_AT + 2);
  }

  /** After the first run the second method's name can be read. */
  lemma NameIsReadable(digests: Digests)
    requires RepairOne(Sample(), Records(), false, digests).Ok?
    ensures var f := RepairOne(Sample(), Records(), false, digests).value.0;
            HasTables(f) && ReadStringData(f, LOST_AT).Ok?
  {
    hide Sample, RepairOne, HasTables, Agree, ReadStringData;
    var f := RepairOne(Sample(), Records(), false, digests).value.0;
    forall x | 0 <= x < 4 * WORDS
      ensures x < |f| && (DATA_AT <= x ==> f[x] == 0)
      ensures 56 <= x < 0x68 || 0x70 <= x < 0x98 || NAME_AT <= x < DATA_AT ==> f[x] == Sample()[x]
    {
      RepairedByte(digests, x);
    }
    RepairedByte(digests, 4 * WORDS - 1);
    AgreePointwise(Sample(), f, 56, 0x68);
    AgreePointwise(Sample(), f, 0x70, 0x98);
    AgreePointwise(Sample(), f, NAME_AT, DATA_AT);
    SampleTables();
    TablesCarry(Sample(), f);
    ZeroedName(f);
  }

  /** The second method is still without an item. */
  lemma StillStripped(digests: Digests)
    requires RepairOne(Sample(), Records(), false, digests).Ok?
    ensures var f := RepairOne(Sample(), Records(), false, digests).value.0;
            && DefsInFile(f) && MethodAt(f, 0, 1)
            && MethodOf(f, 0, 1).methodIdx == 1 && MethodOf(f, 0, 1).accessFlags == 8 && MethodOf(f, 0, 1).codeOff == 0
  {
    hide Sample, RepairOne, WellFormed, Recoverable, OwnItems, AppendMissing, ClassRepaired, MethodsOf, Le32, ByMethod, MethodOffsets, Applied,
      SynthesizeCodeItem, ReadStringData, HasTables, CodeItemEnd, InsnsLen;
    var f := RepairOne(Sample(), Records(), false, digests).value.0;
    SampleIsRepaired(digests);
    SampleLive();
    SampleApplied();
    RepairKeepsProgram(Sample(), Records(), false, digests);
    var len := |AppendMissing(Applied(Sample(), Records()), Records(), false).value.0|;
    assert ClassRepaired(Sample(), Records(), false, f, len, 0);
    RepairedMethodAt(Sample(), Records(), false, f, len, 0, 1);
    RecordsBy();
    SampleTables();
    Synthesizes(Sample(), 1);
    NameIsCutOff();
    NoItemAtZero(Sample());
  }

  /** Not losing a method is not enough for a second run to change nothing. */
  lemma SecondRunMovesAgain(digests: Digests)
    ensures RepairOne(Sample(), Records(), false, digests).Ok?
    ensures RepairOne(Sample(), Records(), false, digests).value.1.unrecovered == 0
    ensures var f := RepairOne(Sample(), Records(), false, digests).value.0;
            RepairOne(f, Records(), false, digests).Ok? ==> RepairOne(f, Records(), false, digests).value.0 != f
  {
    hide Sample, RepairOne, WellFormed, Recoverable, OwnItems, MethodAt, MethodOf, Le32, ByMethod, SynthesizeCodeItem, ReadStringData, HasTables,
      InsnsLen;
    SampleIsRepaired(digests);
    var f := RepairOne(Sample(), Records(), false, digests).value.0;
    NameIsReadable(digests);
    StillStripped(digests);
    Synthesizes(f, 1);
    RecordsBy();
    NoItemAtZero(f);
    assert Synthesizable(f, ByMethod(Records()), false, MethodOf(f, 0, 1));
    RepairIdempotent(Sample(), Records(), false, digests);
  }
}
