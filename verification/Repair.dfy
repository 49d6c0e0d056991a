/**
  The whole repair of one DEX: bytecode, stale fields, map, header, digests, and
  the closing validation.
 */
module Repair {
  import opened Bytes
  import opened Dex
  import opened MapList
  import opened Synthesis
  import opened Relocation
  import opened FormatFix
  import opened Validator

  /** Map, header bounds and digests, in the order the repair writes them. */
  function Seal(b: seq<byte>, relocated: Option<seq<MapEntry>>, digests: Digests): Result<seq<byte>> {
    var (mapped, rebuilt) :- RebuildMap(b, relocated);
    Ok(RecalcHeader(FixHeaderBounds(mapped), digests))
  }

  /** Everything after the bytecode. */
  function Finish(b: seq<byte>, relocated: Option<seq<MapEntry>>, digests: Digests): Result<seq<byte>> {
    var sealed :- Seal(FixFormat(b), relocated, digests);
    var _ :- Validate(sealed, digests);
    Ok(sealed)
  }

  /** `repair_one_dex`: the repaired bytes and the outcome of the bytecode step. */
  function RepairOne(b: seq<byte>, captures: seq<Capture>, force: bool, digests: Digests): Result<(seq<byte>, Outcome)> {
    var _ :- OpenDex(b);
    var _ :- ValidateIdBounds(b);
    var _ :- ReadMap(b);
    var method2off :- MethodOffsets(b);
    var applied := ApplyRecords(b, method2off, captures, false);
    var (appended, outcome) :- AppendMissing(applied, captures, force);
    var finished :- Finish(appended, outcome.relocated, digests);
    Ok((finished, outcome))
  }
}
