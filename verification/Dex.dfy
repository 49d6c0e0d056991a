/**
  The DEX header, its id tables, and the lookups that turn a method index into
  the number of registers its caller passes in.
 */
module Dex {
  import opened Bytes
  import opened Mutf8

  const DEX_HEADER_SIZE: nat := 0x70
  const CLASS_DEF_SIZE: nat := 32
  const DEX_FILE_MAGIC: u32 := 0x0a78_6564
  const COMPACT_DEX_FILE_MAGIC: u32 := 0x7865_6463
  const ENDIAN_TAG: u32 := 0x1234_5678

  const HDR_CHECKSUM: nat := 8
  const HDR_SIGNATURE: nat := 12
  const HDR_FILE_SIZE: nat := 0x20
  const HDR_MAP_OFF: nat := 0x34
  const HDR_DATA_SIZE: nat := 0x68
  const HDR_DATA_OFF: nat := 0x6c

  predicate HasHeader(b: seq<byte>) {
    |b| >= DEX_HEADER_SIZE
  }

  function ClassDefsSize(b: seq<byte>): u32
    requires HasHeader(b)
  {
    Le32(b, 96)
  }

  function ClassDefsOff(b: seq<byte>): u32
    requires HasHeader(b)
  {
    Le32(b, 100)
  }

  function MethodIdsSize(b: seq<byte>): u32
    requires HasHeader(b)
  {
    Le32(b, 88)
  }

  /** Where class definition `i` stands. */
  function ClassDefAt(b: seq<byte>, i: nat): nat
    requires HasHeader(b)
  {
    ClassDefsOff(b) + i * CLASS_DEF_SIZE
  }

  /** `DexParser::new`. */
  function OpenDex(b: seq<byte>): Result<()> {
    if !HasHeader(b) then Err(TooSmall)
    else if Le32(b, 0) == COMPACT_DEX_FILE_MAGIC then Err(CompactDex)
    else if Le32(b, 0) != DEX_FILE_MAGIC then Err(InvalidMagic)
    else Ok(())
  }

  // ----- id tables -----

  datatype Table = Table(count: u32, off: u32, width: nat) {
    function End(): nat {
      off + count * width
    }

    predicate InFile(len: nat) {
      count == 0 || (off >= DEX_HEADER_SIZE && off % 4 == 0 && End() <= len)
    }

    predicate Apart(t: Table) {
      count == 0 || t.count == 0 || End() <= t.off || t.End() <= off
    }
  }

  /** The six id tables, class definitions last. */
  function IdTables(b: seq<byte>): (ts: seq<Table>)
    requires HasHeader(b)
    ensures |ts| == 6
  {
    [Table(Le32(b, 56), Le32(b, 60), 4),
     Table(Le32(b, 64), Le32(b, 68), 4),
     Table(Le32(b, 72), Le32(b, 76), 12),
     Table(Le32(b, 80), Le32(b, 84), 8),
     Table(Le32(b, 88), Le32(b, 92), 8),
     Table(Le32(b, 96), Le32(b, 100), CLASS_DEF_SIZE)]
  }

  predicate AllApart(ts: seq<Table>) {
    forall i, j :: 0 <= i < j < |ts| ==> ts[i].Apart(ts[j])
  }

  /** `validate_id_bounds`: a supported header whose non-empty tables are
      aligned, in the file and pairwise disjoint. */
  function ValidateIdBounds(b: seq<byte>): Result<()> {
    if !HasHeader(b) then Err(TooSmall)
    else if Le32(b, 36) != DEX_HEADER_SIZE || Le32(b, 40) != ENDIAN_TAG then Err(InvalidIdTables)
    else if (forall i :: 0 <= i < 6 ==> IdTables(b)[i].InFile(|b|)) && AllApart(IdTables(b)) then Ok(())
    else Err(InvalidIdTables)
  }

  function MaxEnd(ts: seq<Table>): nat {
    if ts == [] then 0
    else if ts[0].count == 0 then MaxEnd(ts[1..])
    else Max(ts[0].End(), MaxEnd(ts[1..]))
  }

  /** Where the non-empty id tables end; the header when there are none. */
  function TablesEnd(b: seq<byte>): nat
    requires HasHeader(b)
  {
    if forall t :: t in IdTables(b) ==> t.count == 0 then DEX_HEADER_SIZE else MaxEnd(IdTables(b))
  }

  lemma {:induction false} MaxEndBounds(ts: seq<Table>, limit: nat)
    requires forall i :: 0 <= i < |ts| ==> ts[i].count == 0 || (ts[i].End() <= limit && ts[i].End() % 4 == 0)
    ensures MaxEnd(ts) <= limit && MaxEnd(ts) % 4 == 0
    ensures forall i :: 0 <= i < |ts| && ts[i].count != 0 ==> ts[i].End() <= MaxEnd(ts)
    decreases |ts|
  {
    if ts != [] {
      forall i | 0 <= i < |ts[1..]|
        ensures ts[1..][i].count == 0 || (ts[1..][i].End() <= limit && ts[1..][i].End() % 4 == 0)
      {
        assert ts[1..][i] == ts[i + 1];
      }
      MaxEndBounds(ts[1..], limit);
      forall i | 0 <= i < |ts| && ts[i].count != 0
        ensures ts[i].End() <= MaxEnd(ts)
      {
        if i > 0 {
          assert ts[1..][i - 1] == ts[i];
        }
      }
    }
  }

  lemma TableEndBounds(t: Table, len: nat)
    requires t.InFile(len) && t.width % 4 == 0 && t.count != 0
    ensures DEX_HEADER_SIZE <= t.End() <= len && t.End() % 4 == 0
  {
    assert t.count * t.width == 4 * (t.count * (t.width / 4));
  }

  lemma IdTableWidths(b: seq<byte>)
    requires HasHeader(b)
    ensures forall i :: 0 <= i < 6 ==> IdTables(b)[i].width % 4 == 0
  {
    hide Le32;
  }

  /** The id tables of a validated file end, four-aligned, inside it. */
  lemma TablesEndBounds(b: seq<byte>)
    requires ValidateIdBounds(b).Ok?
    ensures DEX_HEADER_SIZE <= TablesEnd(b) <= |b| && TablesEnd(b) % 4 == 0
    ensures forall i :: 0 <= i < 6 && IdTables(b)[i].count != 0 ==> IdTables(b)[i].End() <= TablesEnd(b)
  {
    hide Le32, IdTables, Table.End, Table.InFile, AllApart;
    var ts := IdTables(b);
    IdTableWidths(b);
    forall i | 0 <= i < 6 && ts[i].count != 0
      ensures DEX_HEADER_SIZE <= ts[i].End() <= |b| && ts[i].End() % 4 == 0
    {
      TableEndBounds(ts[i], |b|);
    }
    MaxEndBounds(ts, |b|);
    if t :| t in ts && t.count != 0 {
      var i :| 0 <= i < 6 && ts[i] == t;
      assert ts[i].End() <= MaxEnd(ts);
    }
  }

  lemma ClassDefInside(b: seq<byte>, i: nat)
    requires ValidateIdBounds(b).Ok? && i < ClassDefsSize(b)
    ensures DEX_HEADER_SIZE <= ClassDefAt(b, i)
    ensures ClassDefAt(b, i) + CLASS_DEF_SIZE <= TablesEnd(b) <= |b|
  {
    hide Le32, TablesEnd;
    TablesEndBounds(b);
    var t := IdTables(b)[5];
    assert t.InFile(|b|) && t.End() <= TablesEnd(b);
    assert (i + 1) * CLASS_DEF_SIZE <= t.count * CLASS_DEF_SIZE;
  }

  // ----- header bounds and digests -----

  /** Bring file size and data bounds in line with the layout. */
  function FixHeaderBounds(b: seq<byte>): (r: seq<byte>)
    ensures |r| == |b|
  {
    if !HasHeader(b) then b
    else
      var dataOff := Align4(TablesEnd(b));
      if dataOff > |b| || |b| > U32_MAX then b
      else
        var b1 := Patch(b, HDR_FILE_SIZE, PutLe32(|b|));
        var b2 := Patch(b1, HDR_DATA_SIZE, PutLe32(|b| - dataOff));
        Patch(b2, HDR_DATA_OFF, PutLe32(dataOff))
  }

  type Signature = s: seq<byte> | |s| == 20 witness seq(20, i => 0)

  /** SHA-1 and Adler-32, of which nothing but their result sizes is used. */
  datatype Digests = Digests(sha1: seq<byte> -> Signature, adler32: seq<byte> -> u32)

  /** `recalc_dex_header`. */
  function RecalcHeader(b: seq<byte>, digests: Digests): (r: seq<byte>)
    ensures |r| == |b|
  {
    if |b| < 32 then b
    else
      var signed := Patch(b, HDR_SIGNATURE, digests.sha1(b[32..]));
      Patch(signed, HDR_CHECKSUM, PutLe32(digests.adler32(signed[HDR_SIGNATURE..])))
  }

  predicate DigestsMatch(b: seq<byte>, digests: Digests)
    requires HasHeader(b)
  {
    && b[HDR_SIGNATURE..32] == digests.sha1(b[32..])
    && Le32(b, HDR_CHECKSUM) == digests.adler32(b[HDR_SIGNATURE..])
  }

  // ----- names and signatures -----

  function ReadU32(b: seq<byte>, offset: nat): Result<u32> {
    if offset + 4 <= |b| then Ok(Le32(b, offset)) else Err(OutOfBounds)
  }

  function ReadU16(b: seq<byte>, offset: nat): Result<u16> {
    if offset + 2 <= |b| then Ok(Le16(b, offset)) else Err(OutOfBounds)
  }

  /** Offset of entry `idx` of a table: a saturating product, a checked sum. */
  function EntryOffset(tableOff: u32, idx: u32, width: nat): Result<u32> {
    var offset := tableOff + Min(idx * width, U32_MAX);
    if offset <= U32_MAX then Ok(offset) else Err(OutOfBounds)
  }

  function GetString(b: seq<byte>, idx: u32): Result<seq<Scalar>>
    requires HasHeader(b)
  {
    if idx >= Le32(b, 56) then Err(OutOfBounds)
    else
      var offset :- EntryOffset(Le32(b, 60), idx, 4);
      var dataOff :- ReadU32(b, offset);
      ReadStringData(b, dataOff)
  }

  function GetTypeDescriptor(b: seq<byte>, idx: u32): Result<seq<Scalar>>
    requires HasHeader(b)
  {
    if idx >= Le32(b, 64) then Err(OutOfBounds)
    else
      var offset :- EntryOffset(Le32(b, 68), idx, 4);
      var stringIdx :- ReadU32(b, offset);
      GetString(b, stringIdx)
  }

  function GetTypeList(b: seq<byte>, at: nat, count: nat): Result<seq<seq<Scalar>>>
    requires HasHeader(b)
    decreases count
  {
    if count == 0 then Ok([])
    else
      var typeIdx :- ReadU16(b, at);
      var first :- GetTypeDescriptor(b, typeIdx);
      var rest :- GetTypeList(b, at + 2, count - 1);
      Ok([first] + rest)
  }

  function GetParameterTypes(b: seq<byte>, offset: u32): Result<seq<seq<Scalar>>>
    requires HasHeader(b)
  {
    var size :- ReadU32(b, offset);
    GetTypeList(b, offset + 4, size)
  }

  /** Parameter descriptors of a prototype whose return type resolves too. */
  function GetProtoParameters(b: seq<byte>, idx: u32): Result<seq<seq<Scalar>>>
    requires HasHeader(b)
  {
    if idx >= Le32(b, 72) then Err(OutOfBounds)
    else
      var offset :- EntryOffset(Le32(b, 76), idx, 12);
      if offset + 12 > |b| then Err(OutOfBounds)
      else
        var returnType :- GetTypeDescriptor(b, Le32(b, offset + 4));
        if Le32(b, offset + 8) == 0 then Ok([]) else GetParameterTypes(b, Le32(b, offset + 8))
  }

  /** Parameter descriptors of a method whose class and name resolve too. */
  function GetMethodParameters(b: seq<byte>, idx: u32): Result<seq<seq<Scalar>>>
    requires HasHeader(b)
  {
    if idx >= MethodIdsSize(b) then Err(OutOfBounds)
    else
      var offset :- EntryOffset(Le32(b, 92), idx, 8);
      if offset + 8 > |b| then Err(OutOfBounds)
      else
        var className :- GetTypeDescriptor(b, Le16(b, offset));
        var methodName :- GetString(b, Le32(b, offset + 4));
        GetProtoParameters(b, Le16(b, offset + 2))
  }

  /** `long` and `double` take two registers, everything else one. */
  function Words(parameters: seq<seq<Scalar>>): nat {
    if parameters == [] then 0
    else Words(parameters[..|parameters| - 1]) + WordsOf(parameters[|parameters| - 1])
  }

  function WordsOf(descriptor: seq<Scalar>): nat {
    if descriptor == [0x4a] || descriptor == [0x44] then 2 else 1
  }

  predicate IsStatic(accessFlags: u32) {
    accessFlags / 0x8 % 2 == 1
  }

  /** Native and abstract methods carry no bytecode. */
  predicate HasNoBody(accessFlags: u32) {
    accessFlags / 0x100 % 2 == 1 || accessFlags / 0x400 % 2 == 1
  }

  /** Registers the caller passes in, `this` included. */
  function IncomingWords(b: seq<byte>, methodIdx: u32, accessFlags: u32): Result<u16>
    requires HasHeader(b)
  {
    var parameters :- GetMethodParameters(b, methodIdx);
    var words := (if IsStatic(accessFlags) then 0 else 1) + Words(parameters);
    if words <= U16_MAX then Ok(words) else Err(InvalidCapture)
  }

  // ----- the loops -----

  method CountWords(parameters: seq<seq<Scalar>>, accessFlags: u32) returns (words: nat)
    ensures words == (if IsStatic(accessFlags) then 0 else 1) + Words(parameters)
  {
    words := if IsStatic(accessFlags) then 0 else 1;
    for i := 0 to |parameters|
      invariant words == (if IsStatic(accessFlags) then 0 else 1) + Words(parameters[..i])
    {
      assert parameters[..i + 1][..i] == parameters[..i];
      words := words + WordsOf(parameters[i]);
    }
    assert parameters[..|parameters|] == parameters;
  }
}
