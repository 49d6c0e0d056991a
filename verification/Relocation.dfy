/**
  Rebuilding code items and class data: every live item is copied into two
  fresh contiguous runs at the end of the file, class definitions are pointed
  at the copies, and the sections they came from are zeroed.
 */
module Relocation {
  import opened Bytes
  import opened Dex
  import opened ClassData
  import opened CodeItem
  import opened MapList
  import opened Synthesis

  // ----- planning -----

  /** What planning decided about one method. */
  datatype Fate = Kept | Unrecovered | Synthesized | Failed

  type Captures = map<u32, Capture>

  /** Later records of the same method win. */
  function ByMethod(captures: seq<Capture>): Captures {
    if captures == [] then map[]
    else
      var last := captures[|captures| - 1];
      ByMethod(captures[..|captures| - 1])[last.methodIdx := last]
  }

  /** An intact item whose length agrees with the capture was already handled
      in place; anything else with a record gets a synthesized item. */
  function PlanMethod(b: seq<byte>, captures: Captures, force: bool, m: EncodedMethod): Result<(EncodedMethod, Fate)>
    requires HasHeader(b)
  {
    if HasNoBody(m.accessFlags) then Ok((m, Kept))
    else
      var onDisk := InsnsLen(b, m.codeOff);
      if onDisk.Some? && CodeItemEnd(b, m.codeOff).Err? then Err(InvalidCodeItem)
      else if m.methodIdx !in captures then
        if onDisk.None? then Ok((m.(codeOff := 0), Unrecovered)) else Ok((m, Kept))
      else
        var capture := captures[m.methodIdx];
        if onDisk == Some(|capture.code| / 2) then Ok((m, Kept))
        else
          match SynthesizeCodeItem(b, m.methodIdx, m.accessFlags, capture, force)
          case Ok(item) => Ok((m.(pending := Some(item)), Synthesized))
          case Err(_) => Ok((m, Failed))
  }

  function PlanMethods(b: seq<byte>, captures: Captures, force: bool, ms: seq<EncodedMethod>)
    : (r: Result<(seq<EncodedMethod>, seq<Fate>)>)
    requires HasHeader(b)
    ensures r.Ok? ==> |r.value.0| == |ms| == |r.value.1|
    decreases |ms|
  {
    if ms == [] then Ok(([], []))
    else
      var (m, fate) :- PlanMethod(b, captures, force, ms[0]);
      var (rest, fates) :- PlanMethods(b, captures, force, ms[1..]);
      Ok(([m] + rest, [fate] + fates))
  }

  /** A class definition at `defOff` with its edited class data. */
  datatype PlannedClass = PlannedClass(defOff: nat, item: ClassItem, fates: seq<Fate>)

  /** Plans for all classes with data from definition `i` on; a table that runs
      off the file ends the plan. */
  function PlanFrom(b: seq<byte>, captures: Captures, force: bool, i: nat): Result<seq<PlannedClass>>
    requires HasHeader(b)
    decreases ClassDefsSize(b) - i
  {
    if i >= ClassDefsSize(b) || ClassDefAt(b, i) + CLASS_DEF_SIZE > |b| then Ok([])
    else
      var at := ClassDefAt(b, i);
      var classDataOff := Le32(b, at + 24);
      if classDataOff == 0 then PlanFrom(b, captures, force, i + 1)
      else
        var (item, end) :- ParseClassData(b, classDataOff);
        var (methods, fates) :- PlanMethods(b, captures, force, item.Methods());
        var rest :- PlanFrom(b, captures, force, i + 1);
        Ok([PlannedClass(at, item.WithMethods(methods), fates)] + rest)
  }

  function AllFates(plan: seq<PlannedClass>): seq<Fate> {
    if plan == [] then [] else plan[0].fates + AllFates(plan[1..])
  }

  function AllMethods(plan: seq<PlannedClass>): seq<EncodedMethod> {
    if plan == [] then [] else plan[0].item.Methods() + AllMethods(plan[1..])
  }

  predicate NeedsRelocation(plan: seq<PlannedClass>) {
    Unrecovered in AllFates(plan) || Synthesized in AllFates(plan)
  }

  function CountFate(fates: seq<Fate>, fate: Fate): nat {
    if fates == [] then 0 else (if fates[0] == fate then 1 else 0) + CountFate(fates[1..], fate)
  }

  // ----- copying code items -----

  /** The bytes of a method's item: the pending one, or the one on disk. */
  function BodyBytes(b: seq<byte>, m: EncodedMethod): Result<seq<byte>> {
    if m.pending.Some? then Ok(m.pending.value)
    else
      var end :- CodeItemEnd(b, m.codeOff);
      Ok(b[m.codeOff..end])
  }

  predicate IsBodiless(m: EncodedMethod) {
    m.pending == None && m.codeOff == 0
  }

  /** Append one method's item at the next aligned offset. */
  function EmitMethod(b: seq<byte>, m: EncodedMethod): (r: Result<(seq<byte>, EncodedMethod)>)
    ensures r.Ok? ==> b <= r.value.0 && SameMethod(m, r.value.1) && r.value.1.pending == None
  {
    if IsBodiless(m) then Ok((b, m))
    else
      var body :- BodyBytes(b, m);
      var aligned := AlignTo4(b);
      if |aligned| > U32_MAX then Err(TooLarge)
      else Ok((aligned + body, m.(codeOff := |aligned|, pending := None)))
  }

  function EmitMethods(b: seq<byte>, ms: seq<EncodedMethod>): (r: Result<(seq<byte>, seq<EncodedMethod>)>)
    ensures r.Ok? ==> b <= r.value.0 && |r.value.1| == |ms|
    decreases |ms|
  {
    if ms == [] then Ok((b, []))
    else
      var (b1, m) :- EmitMethod(b, ms[0]);
      var (b2, rest) :- EmitMethods(b1, ms[1..]);
      Ok((b2, [m] + rest))
  }

  function EmitBodies(b: seq<byte>, plan: seq<PlannedClass>): (r: Result<(seq<byte>, seq<PlannedClass>)>)
    ensures r.Ok? ==> b <= r.value.0 && |r.value.1| == |plan|
    decreases |plan|
  {
    if plan == [] then Ok((b, []))
    else
      var (b1, methods) :- EmitMethods(b, plan[0].item.Methods());
      var (b2, rest) :- EmitBodies(b1, plan[1..]);
      Ok((b2, [plan[0].(item := plan[0].item.WithMethods(methods))] + rest))
  }

  /** Offsets of the copied items, in the order they were appended. */
  function CodeOffsets(ms: seq<EncodedMethod>): seq<u32> {
    if ms == [] then []
    else (if ms[0].codeOff != 0 then [ms[0].codeOff] else []) + CodeOffsets(ms[1..])
  }

  function CodeMapEntry(ms: seq<EncodedMethod>): MapEntry {
    var offs := CodeOffsets(ms);
    MapEntry(TYPE_CODE_ITEM, Wrap32(|offs|), if offs == [] then 0 else offs[0])
  }

  // ----- copying class data -----

  /** Append one class's data and point its definition at it. */
  function EmitClass(b: seq<byte>, p: PlannedClass): (r: Result<seq<byte>>)
    ensures r.Ok? ==> |b| < |r.value|
  {
    if |b| > U32_MAX || p.defOff + 28 > |b| then Err(TooLarge)
    else Ok(Patch(b + EncodeClassData(p.item), p.defOff + 24, PutLe32(|b|)))
  }

  function EmitClasses(b: seq<byte>, plan: seq<PlannedClass>): (r: Result<seq<byte>>)
    ensures r.Ok? ==> |b| <= |r.value|
    decreases |plan|
  {
    if plan == [] then Ok(b)
    else
      var b1 :- EmitClass(b, plan[0]);
      EmitClasses(b1, plan[1..])
  }

  // ----- retiring the old sections -----

  /** The least offset above `off`, or the end of the file. */
  function NextOffset(es: seq<MapEntry>, off: nat, len: nat): (n: nat)
    ensures off < len ==> off < n <= len
    ensures forall e :: e in es && e.off > off ==> n <= e.off
    ensures n == len || exists e :: e in es && e.off == n
  {
    if es == [] then len
    else
      var n := NextOffset(es[1..], off, len);
      assert forall e :: e in es <==> e == es[0] || e in es[1..];
      if es[0].off > off && es[0].off < n then es[0].off else n
  }

  predicate IsRetired(e: MapEntry) {
    e.typ == TYPE_CLASS_DATA || e.typ == TYPE_CODE_ITEM
  }

  /** The extents of the retired sections among `todo`, each running to the next
      mapped offset. */
  function RetiredRanges(todo: seq<MapEntry>, es: seq<MapEntry>, len: nat): (r: Result<seq<(nat, nat)>>)
    ensures r.Ok? ==> forall i :: 0 <= i < |r.value| ==> DEX_HEADER_SIZE <= r.value[i].0 < r.value[i].1 <= len
    decreases |todo|
  {
    if todo == [] then Ok([])
    else if !IsRetired(todo[0]) then RetiredRanges(todo[1..], es, len)
    else
      var start: nat, end := todo[0].off, NextOffset(es, todo[0].off, len);
      if start < DEX_HEADER_SIZE || start >= end || end > len then Err(InvalidMap)
      else
        var rest :- RetiredRanges(todo[1..], es, len);
        Ok([(start, end)] + rest)
  }

  function ZeroRanges(b: seq<byte>, ranges: seq<(nat, nat)>): (r: seq<byte>)
    requires forall i :: 0 <= i < |ranges| ==> ranges[i].0 <= ranges[i].1 <= |b|
    ensures |r| == |b|
    decreases |ranges|
  {
    if ranges == [] then b
    else ZeroRanges(ZeroRange(b, ranges[0].0, ranges[0].1), ranges[1..])
  }

  // ----- the whole step -----

  datatype Outcome = Outcome(appended: nat, failed: nat, unrecovered: nat, relocated: Option<seq<MapEntry>>)

  function CountPending(ms: seq<EncodedMethod>): nat {
    if ms == [] then 0 else (if ms[0].pending.Some? then 1 else 0) + CountPending(ms[1..])
  }

  function Relocate(b: seq<byte>, plan: seq<PlannedClass>): Result<(seq<byte>, seq<MapEntry>)> {
    var es :- ReadMap(b);
    var retired :- RetiredRanges(es, es, |b|);
    var (withCode, moved) :- EmitBodies(b, plan);
    if |plan| > U32_MAX || |withCode| > U32_MAX then Err(TooLarge)
    else
      var classMap := MapEntry(TYPE_CLASS_DATA, |plan|, |withCode|);
      var withClasses :- EmitClasses(withCode, moved);
      Ok((ZeroRanges(withClasses, retired), [CodeMapEntry(AllMethods(moved)), classMap]))
  }

  /** `append_missing_code_items`. */
  function AppendMissing(b: seq<byte>, captures: seq<Capture>, force: bool): Result<(seq<byte>, Outcome)>
    requires HasHeader(b)
  {
    var plan :- PlanFrom(b, ByMethod(captures), force, 0);
    var failed := CountFate(AllFates(plan), Failed);
    var unrecovered := CountFate(AllFates(plan), Unrecovered);
    if !NeedsRelocation(plan) then Ok((b, Outcome(0, failed, unrecovered, None)))
    else
      var (moved, entries) :- Relocate(b, plan);
      Ok((moved, Outcome(CountPending(AllMethods(plan)), failed, unrecovered, Some(entries))))
  }
}
