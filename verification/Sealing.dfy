/**
  Writing the map, the header bounds and the digests changes nothing a reader of
  classes and items depends on.
 */
module Sealing {
  import opened Bytes
  import opened Dex
  import opened MapList
  import opened Relocation
  import opened RelocationProofs
  import opened Relocated
  import opened Validator
  import opened Repair

  /** `f` is `m` with sizes, data bounds, signature and checksum rewritten. */
  ghost predicate HeaderOnly(m: seq<byte>, f: seq<byte>) {
    && |f| == |m| && HasHeader(m)
    && Agree(m, f, 0, 8) && Agree(m, f, 36, 0x68) && Agree(m, f, DEX_HEADER_SIZE, |m|)
  }

  lemma BoundsFixed(m: seq<byte>)
    requires ValidateIdBounds(m).Ok?
    ensures HeaderOnly(m, FixHeaderBounds(m))
    ensures BoundsMatch(FixHeaderBounds(m)) <==> |m| <= U32_MAX
  {
    hide Le32, TablesEnd, ValidateIdBounds;
    TablesEndBounds(m);
    Align4Aligned(TablesEnd(m));
    var f := FixHeaderBounds(m);
    AgreePointwise(m, f, 0, 8);
    AgreePointwise(m, f, 36, 0x68);
    AgreePointwise(m, f, DEX_HEADER_SIZE, |m|);
    if |m| <= U32_MAX {
      var dataOff := TablesEnd(m);
      assert f[HDR_FILE_SIZE..HDR_FILE_SIZE + 4] == PutLe32(|m|);
      assert f[HDR_DATA_SIZE..HDR_DATA_SIZE + 4] == PutLe32(|m| - dataOff);
      assert f[HDR_DATA_OFF..HDR_DATA_OFF + 4] == PutLe32(dataOff);
      HeldLe32(f, HDR_FILE_SIZE, |m|);
      HeldLe32(f, HDR_DATA_SIZE, |m| - dataOff);
      HeldLe32(f, HDR_DATA_OFF, dataOff);
    }
  }

  lemma DigestsFixed(m: seq<byte>, digests: Digests)
    requires HasHeader(m)
    ensures var f := RecalcHeader(m, digests);
            && |f| == |m| && Agree(m, f, 0, 8) && Agree(m, f, 32, |m|)
            && DigestsMatch(f, digests)
  {
    hide Le32;
    var f := RecalcHeader(m, digests);
    var signed := Patch(m, HDR_SIGNATURE, digests.sha1(m[32..]));
    AgreePointwise(m, f, 0, 8);
    AgreePointwise(m, f, 32, |m|);
    assert m[32..|m|] == m[32..] && f[32..|f|] == f[32..];
    assert f[32..] == m[32..];
    assert f[HDR_SIGNATURE..] == signed[HDR_SIGNATURE..];
    assert f[HDR_SIGNATURE..32] == digests.sha1(m[32..]);
    assert f[HDR_CHECKSUM..HDR_CHECKSUM + 4] == PutLe32(digests.adler32(signed[HDR_SIGNATURE..]));
    HeldLe32(f, HDR_CHECKSUM, digests.adler32(signed[HDR_SIGNATURE..]));
  }

  lemma BoundsFrame(m: seq<byte>, f: seq<byte>)
    requires HasHeader(m) && |m| == |f| && Agree(m, f, 32, |m|)
    ensures BoundsMatch(f) <==> BoundsMatch(m)
  {
    hide Le32, Agree;
    AgreeLe32(m, f, 32, |m|, HDR_FILE_SIZE);
    AgreeLe32(m, f, 32, |m|, HDR_DATA_SIZE);
    AgreeLe32(m, f, 32, |m|, HDR_DATA_OFF);
  }

  lemma AgreeTrans(a: seq<byte>, b: seq<byte>, c: seq<byte>, lo: nat, hi: nat)
    requires Agree(a, b, lo, hi) && Agree(b, c, lo, hi)
    ensures Agree(a, c, lo, hi)
  {
  }

  /** Header bounds and digests: right afterwards, whatever they were, as long
      as the length can be written down. */
  lemma HeaderSealed(m: seq<byte>, digests: Digests)
    requires ValidateIdBounds(m).Ok?
    ensures var f := RecalcHeader(FixHeaderBounds(m), digests);
            && HeaderOnly(m, f) && DigestsMatch(f, digests)
            && (BoundsMatch(f) <==> |m| <= U32_MAX)
  {
    hide Le32, ValidateIdBounds, FixHeaderBounds, RecalcHeader, Agree, BoundsMatch, DigestsMatch;
    BoundsFixed(m);
    var g := FixHeaderBounds(m);
    var f := RecalcHeader(g, digests);
    DigestsFixed(g, digests);
    BoundsFrame(g, f);
    AgreeWithin(g, f, 32, |m|, 36, 0x68);
    AgreeWithin(g, f, 32, |m|, DEX_HEADER_SIZE, |m|);
    AgreeTrans(m, g, f, 0, 8);
    AgreeTrans(m, g, f, 36, 0x68);
    AgreeTrans(m, g, f, DEX_HEADER_SIZE, |m|);
  }

  // ----- frames -----

  /** The id tables stay where and what they are. */
  ghost predicate SameTables(b: seq<byte>, c: seq<byte>) {
    && HasHeader(b) && |b| <= |c|
    && Agree(b, c, 0, 4) && Agree(b, c, 36, 44) && Agree(b, c, 56, 104)
  }

  lemma SameTablesTrans(a: seq<byte>, b: seq<byte>, c: seq<byte>)
    requires SameTables(a, b) && SameTables(b, c)
    ensures SameTables(a, c)
  {
    hide Agree;
    AgreeTrans(a, b, c, 0, 4);
    AgreeTrans(a, b, c, 36, 44);
    AgreeTrans(a, b, c, 56, 104);
  }

  lemma SameIdTables(b: seq<byte>, c: seq<byte>)
    requires SameTables(b, c)
    ensures IdTables(c) == IdTables(b) && Le32(c, 0) == Le32(b, 0) && Le32(c, 36) == Le32(b, 36) && Le32(c, 40) == Le32(b, 40)
  {
    hide Agree, Le32;
    AgreeLe32(b, c, 0, 4, 0);
    AgreeLe32(b, c, 36, 44, 36);
    AgreeLe32(b, c, 36, 44, 40);
    SameTableHeads(b, c);
    SameTableTails(b, c);
  }

  lemma SameTableHeads(b: seq<byte>, c: seq<byte>)
    requires HasHeader(b) && HasHeader(c) && Agree(b, c, 56, 104)
    ensures Le32(c, 56) == Le32(b, 56) && Le32(c, 60) == Le32(b, 60) && Le32(c, 64) == Le32(b, 64)
            && Le32(c, 68) == Le32(b, 68) && Le32(c, 72) == Le32(b, 72) && Le32(c, 76) == Le32(b, 76)
  {
    hide Agree, Le32;
    AgreeLe32(b, c, 56, 104, 56);
    AgreeLe32(b, c, 56, 104, 60);
    AgreeLe32(b, c, 56, 104, 64);
    AgreeLe32(b, c, 56, 104, 68);
    AgreeLe32(b, c, 56, 104, 72);
    AgreeLe32(b, c, 56, 104, 76);
  }

  lemma SameTableTails(b: seq<byte>, c: seq<byte>)
    requires HasHeader(b) && HasHeader(c) && Agree(b, c, 56, 104)
    ensures Le32(c, 80) == Le32(b, 80) && Le32(c, 84) == Le32(b, 84) && Le32(c, 88) == Le32(b, 88)
            && Le32(c, 92) == Le32(b, 92) && Le32(c, 96) == Le32(b, 96) && Le32(c, 100) == Le32(b, 100)
  {
    hide Agree, Le32;
    AgreeLe32(b, c, 56, 104, 80);
    AgreeLe32(b, c, 56, 104, 84);
    AgreeLe32(b, c, 56, 104, 88);
    AgreeLe32(b, c, 56, 104, 92);
    AgreeLe32(b, c, 56, 104, 96);
    AgreeLe32(b, c, 56, 104, 100);
  }

  lemma TablesStay(b: seq<byte>, c: seq<byte>)
    requires SameTables(b, c) && ValidateIdBounds(b).Ok?
    ensures ValidateIdBounds(c).Ok? && TablesEnd(c) == TablesEnd(b)
    ensures SameClassDefs(b, c) && MethodIdsSize(c) == MethodIdsSize(b)
    ensures OpenDex(b).Ok? ==> OpenDex(c).Ok?
  {
    hide Agree, Le32, IdTables, MaxEnd, AllApart, Table.Apart;
    SameIdTables(b, c);
    var ts := IdTables(b);
    assert forall i :: 0 <= i < 6 ==> ts[i].InFile(|b|) ==> ts[i].InFile(|c|);
    SameTableTails(b, c);
  }

  /** A map reads the same wherever its pointer and its table are the same. */
  lemma MapFrame(b: seq<byte>, c: seq<byte>)
    requires ReadMap(b).Ok? && |b| <= |c|
    requires Agree(b, c, HDR_MAP_OFF, HDR_MAP_OFF + 4)
    requires Agree(b, c, MapTable(b).value.0, MapEnd(MapTable(b).value.0, MapTable(b).value.1))
    ensures ReadMap(c) == ReadMap(b) && MapTable(c) == MapTable(b) && MapOff(c) == MapOff(b)
  {
    hide Agree, Le32, EntriesFrom, DistinctTypes;
    var (off, count) := MapTable(b).value;
    AgreeLe32(b, c, HDR_MAP_OFF, HDR_MAP_OFF + 4, HDR_MAP_OFF);
    AgreeLe32(b, c, off, MapEnd(off, count), off);
    EntriesFrame(b, c, off, MapEnd(off, count), off + 4, count);
  }

  lemma {:induction false} EntriesFrame(b: seq<byte>, c: seq<byte>, lo: nat, hi: nat, at: nat, count: nat)
    requires Agree(b, c, lo, hi) && lo <= at && at + 12 * count <= hi <= |b| <= |c|
    ensures EntriesFrom(c, at, count) == EntriesFrom(b, at, count)
    decreases count
  {
    hide Agree, Le32, Le16;
    if count > 0 {
      AgreeWithin(b, c, lo, hi, at, at + 2);
      Le16Of(b, at, c, at) by { SameSlice(b, c, lo, hi, at); }
      AgreeLe32(b, c, lo, hi, at + 4);
      AgreeLe32(b, c, lo, hi, at + 8);
      EntriesFrame(b, c, lo, hi, at + 12, count - 1);
    }
  }

  lemma SameSlice(b: seq<byte>, c: seq<byte>, lo: nat, hi: nat, at: nat)
    requires Agree(b, c, lo, hi) && lo <= at && at + 2 <= hi
    ensures b[at..at + 2] == c[at..at + 2]
  {
    AgreeWithin(b, c, lo, hi, at, at + 2);
  }
}
