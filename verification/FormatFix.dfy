/**
  Clearing fields that point past the end of the file: data offsets of class
  definitions, and the debug and try words of code items.
 */
module FormatFix {
  import opened Bytes
  import opened Dex
  import opened ClassData

  /** Zero the word at `o` when it is an offset past the end. */
  function ClearIfPast(b: seq<byte>, o: nat): (r: seq<byte>)
    requires o + 4 <= |b|
    ensures |r| == |b|
  {
    if Le32(b, o) >= |b| then Patch(b, o, [0, 0, 0, 0]) else b
  }

  /** Interfaces, annotations and static values of the definition at `at`. */
  function FixDef(b: seq<byte>, at: nat): (r: seq<byte>)
    requires at + CLASS_DEF_SIZE <= |b|
    ensures |r| == |b|
  {
    ClearIfPast(ClearIfPast(ClearIfPast(b, at + 0x0c), at + 0x14), at + 0x1c)
  }

  /** The `count` definitions of a table at `off`, from number `i` on; the first
      one outside the file ends the pass. */
  function FixDefs(b: seq<byte>, off: nat, count: nat, i: nat): (r: seq<byte>)
    ensures |r| == |b|
    decreases count - i
  {
    var at := off + i * CLASS_DEF_SIZE;
    if i >= count || at + CLASS_DEF_SIZE > |b| then b
    else FixDefs(FixDef(b, at), off, count, i + 1)
  }

  /** A try table that would run past the end is dropped. */
  function ClearTries(b: seq<byte>, co: nat): (r: seq<byte>)
    requires co + 16 <= |b|
    ensures |r| == |b|
  {
    var tries := Le16(b, co + 6);
    if tries > 0 && Align4(co + 16 + 2 * Le32(b, co + 12)) + 8 * tries > |b| then Patch(b, co + 6, [0, 0]) else b
  }

  function FixItem(b: seq<byte>, co: nat): (r: seq<byte>)
    ensures |r| == |b|
  {
    if co == 0 || co + 16 > |b| then b else ClearTries(ClearIfPast(b, co + 8), co)
  }

  function FixMethods(b: seq<byte>, ms: seq<EncodedMethod>): (r: seq<byte>)
    ensures |r| == |b|
    decreases |ms|
  {
    if ms == [] then b else FixMethods(FixItem(b, ms[0].codeOff), ms[1..])
  }

  /** The methods of one class; unreadable class data is passed over. */
  function FixClass(b: seq<byte>, at: nat): (r: seq<byte>)
    requires at + CLASS_DEF_SIZE <= |b|
    ensures |r| == |b|
  {
    var off := Le32(b, at + 24);
    if off == 0 || off >= |b| then b
    else
      match ParseClassData(b, off)
      case Err(_) => b
      case Ok((item, end)) => FixMethods(b, item.Methods())
  }

  function FixItems(b: seq<byte>, off: nat, count: nat, i: nat): (r: seq<byte>)
    ensures |r| == |b|
    decreases count - i
  {
    var at := off + i * CLASS_DEF_SIZE;
    if i >= count || at + CLASS_DEF_SIZE > |b| then b
    else FixItems(FixClass(b, at), off, count, i + 1)
  }

  /** `fix_format_fields`; its flag says whether the bytes changed. */
  function FixFormat(b: seq<byte>): (r: seq<byte>)
    ensures |r| == |b|
  {
    if !HasHeader(b) then b
    else
      var off, count := ClassDefsOff(b), ClassDefsSize(b);
      FixItems(FixDefs(b, off, count, 0), off, count, 0)
  }
}
