/**
  The repair as it runs: one buffer, patched, extended and zero-filled in place,
  every step proved against the function that specifies it. When a step fails
  the buffer may be left half-edited, as the program leaves it.
 */
module DexImages {
  import opened Bytes
  import opened Dex
  import opened ClassData
  import opened CodeItem
  import opened MapList
  import opened Synthesis
  import opened Relocation
  import opened RelocationProofs
  import opened Relocated
  import opened FormatFix
  import opened Validator
  import opened Repair

  /** `done` in front of what is still to come. */
  ghost function Before<T>(done: seq<T>, rest: Result<seq<T>>): Result<seq<T>> {
    match rest
    case Err(e) => Err(e)
    case Ok(more) => Ok(done + more)
  }

  lemma BeforeNothing<T>(rest: Result<seq<T>>)
    ensures Before([], rest) == rest
  {
    if rest.Ok? {
      assert [] + rest.value == rest.value;
    }
  }

  lemma BeforeOne<T>(done: seq<T>, item: T, rest: Result<seq<T>>)
    ensures Before(done, Before([item], rest)) == Before(done + [item], rest)
  {
    if rest.Ok? {
      assert done + ([item] + rest.value) == done + [item] + rest.value;
    }
  }

  ghost function BeforeBoth<S, T>(ss: seq<S>, ts: seq<T>, rest: Result<(seq<S>, seq<T>)>): Result<(seq<S>, seq<T>)> {
    match rest
    case Err(e) => Err(e)
    case Ok((s, t)) => Ok((ss + s, ts + t))
  }

  lemma BeforeBothNothing<S, T>(rest: Result<(seq<S>, seq<T>)>)
    ensures BeforeBoth([], [], rest) == rest
  {
    if rest.Ok? {
      assert [] + rest.value.0 == rest.value.0 && [] + rest.value.1 == rest.value.1;
    }
  }

  lemma BeforeBothOne<S, T>(ss: seq<S>, ts: seq<T>, s: S, t: T, rest: Result<(seq<S>, seq<T>)>)
    ensures BeforeBoth(ss, ts, BeforeBoth([s], [t], rest)) == BeforeBoth(ss + [s], ts + [t], rest)
  {
    if rest.Ok? {
      assert ss + ([s] + rest.value.0) == ss + [s] + rest.value.0;
      assert ts + ([t] + rest.value.1) == ts + [t] + rest.value.1;
    }
  }

  /** The second component grows behind a first that is already final. */
  ghost function BeforeSecond<S, T>(done: seq<T>, rest: Result<(S, seq<T>)>): Result<(S, seq<T>)> {
    match rest
    case Err(e) => Err(e)
    case Ok((s, t)) => Ok((s, done + t))
  }

  lemma BeforeSecondNothing<S, T>(rest: Result<(S, seq<T>)>)
    ensures BeforeSecond([], rest) == rest
  {
    if rest.Ok? {
      assert [] + rest.value.1 == rest.value.1;
    }
  }

  lemma BeforeSecondOne<S, T>(done: seq<T>, item: T, rest: Result<(S, seq<T>)>)
    ensures BeforeSecond(done, BeforeSecond([item], rest)) == BeforeSecond(done + [item], rest)
  {
    if rest.Ok? {
      assert done + ([item] + rest.value.1) == done + [item] + rest.value.1;
    }
  }

  ghost function JoinedSet(done: set<u32>, rest: Result<set<u32>>): Result<set<u32>> {
    match rest
    case Err(e) => Err(e)
    case Ok(more) => Ok(done + more)
  }

  lemma JoinedNothing(rest: Result<set<u32>>)
    ensures JoinedSet({}, rest) == rest
  {
    if rest.Ok? {
      assert {} + rest.value == rest.value;
    }
  }

  lemma JoinedOneSet(done: set<u32>, one: set<u32>, rest: Result<set<u32>>)
    ensures JoinedSet(done, JoinedSet(one, rest)) == JoinedSet(done + one, rest)
  {
    if rest.Ok? {
      assert done + (one + rest.value) == done + one + rest.value;
    }
  }

  ghost function JoinedSets(classes: set<u32>, codes: set<u32>, rest: Result<(set<u32>, set<u32>)>): Result<(set<u32>, set<u32>)> {
    match rest
    case Err(e) => Err(e)
    case Ok((cs, ms)) => Ok((classes + cs, codes + ms))
  }

  lemma JoinedNothings(rest: Result<(set<u32>, set<u32>)>)
    ensures JoinedSets({}, {}, rest) == rest
  {
    if rest.Ok? {
      assert {} + rest.value.0 == rest.value.0 && {} + rest.value.1 == rest.value.1;
    }
  }

  lemma JoinedOneSets(classes: set<u32>, codes: set<u32>, cs: set<u32>, ms: set<u32>, rest: Result<(set<u32>, set<u32>)>)
    ensures JoinedSets(classes, codes, JoinedSets(cs, ms, rest)) == JoinedSets(classes + cs, codes + ms, rest)
  {
    if rest.Ok? {
      assert classes + (cs + rest.value.0) == classes + cs + rest.value.0;
      assert codes + (ms + rest.value.1) == codes + ms + rest.value.1;
    }
  }

  /** Records by method index, later ones over earlier ones. */
  method IndexCaptures(captures: seq<Capture>) returns (byMethod: map<u32, Capture>)
    ensures byMethod == ByMethod(captures)
  {
    byMethod := map[];
    for i := 0 to |captures|
      invariant byMethod == ByMethod(captures[..i])
    {
      assert captures[..i + 1][..i] == captures[..i];
      byMethod := byMethod[captures[i].methodIdx := captures[i]];
    }
    assert captures[..|captures|] == captures;
  }

  class DexImage {
    var bytes: seq<byte>

    constructor (b: seq<byte>)
      ensures bytes == b
    {
      bytes := b;
    }

    /** `build_method_code_off_map`. */
    method BuildMethodCodeOffMap() returns (r: Result<map<u32, u32>>)
      requires HasHeader(bytes)
      ensures r == MethodOffsets(bytes)
    {
      hide Le32, ParseClassData;
      var table: map<u32, u32> := map[];
      for i := 0 to ClassDefsSize(bytes)
        invariant MethodOffsets(bytes) == MethodOffsetsFrom(bytes, i, table)
      {
        var at := ClassDefAt(bytes, i);
        if at + CLASS_DEF_SIZE > |bytes| {
          return Err(OutOfBounds);
        }
        if Le32(bytes, at + 24) != 0 {
          var parsed :- ParseClassDataEnd(bytes, Le32(bytes, at + 24));
          table := InsertAll(table, parsed.0.Methods());
        }
      }
      return Ok(table);
    }

    static method InsertAll(table: map<u32, u32>, methods: seq<EncodedMethod>) returns (r: map<u32, u32>)
      ensures r == InsertMethods(table, methods)
    {
      r := table;
      for i := 0 to |methods|
        invariant InsertMethods(table, methods) == InsertMethods(r, methods[i..])
      {
        assert methods[i..][1..] == methods[i + 1..];
        r := r[methods[i].methodIdx := methods[i].codeOff];
      }
    }

    /** `apply_records_to_dex`. */
    method ApplyRecordsToDex(method2off: map<u32, u32>, captures: seq<Capture>, force: bool)
      modifies this
      ensures bytes == ApplyRecords(old(bytes), method2off, captures, force)
    {
      hide ApplyRecord;
      for i := 0 to |captures|
        invariant ApplyRecords(old(bytes), method2off, captures, force) == ApplyRecords(bytes, method2off, captures[i..], force)
      {
        assert captures[i..][1..] == captures[i + 1..];
        bytes := ApplyRecord(bytes, method2off, captures[i], force);
      }
    }

    // ----- planning -----

    method PlanClass(byMethod: map<u32, Capture>, force: bool, methods: seq<EncodedMethod>)
      returns (r: Result<(seq<EncodedMethod>, seq<Fate>)>)
      requires HasHeader(bytes)
      ensures r == PlanMethods(bytes, byMethod, force, methods)
    {
      hide PlanMethod;
      var planned, fates := [], [];
      BeforeBothNothing(PlanMethods(bytes, byMethod, force, methods));
      for i := 0 to |methods|
        invariant PlanMethods(bytes, byMethod, force, methods)
               == BeforeBoth(planned, fates, PlanMethods(bytes, byMethod, force, methods[i..]))
      {
        assert methods[i..][1..] == methods[i + 1..];
        var step :- PlanMethod(bytes, byMethod, force, methods[i]);
        BeforeBothOne(planned, fates, step.0, step.1, PlanMethods(bytes, byMethod, force, methods[i + 1..]));
        planned, fates := planned + [step.0], fates + [step.1];
      }
      assert planned + [] == planned && fates + [] == fates;
      return Ok((planned, fates));
    }

    method PlanEdits(byMethod: map<u32, Capture>, force: bool) returns (r: Result<seq<PlannedClass>>)
      requires HasHeader(bytes)
      ensures r == PlanFrom(bytes, byMethod, force, 0)
    {
      hide Le32, ParseClassData, PlanMethods;
      var plan: seq<PlannedClass> := [];
      var i: nat := 0;
      BeforeNothing(PlanFrom(bytes, byMethod, force, 0));
      while i < ClassDefsSize(bytes) && ClassDefAt(bytes, i) + CLASS_DEF_SIZE <= |bytes|
        invariant PlanFrom(bytes, byMethod, force, 0) == Before(plan, PlanFrom(bytes, byMethod, force, i))
        decreases ClassDefsSize(bytes) - i
      {
        var at := ClassDefAt(bytes, i);
        if Le32(bytes, at + 24) != 0 {
          var parsed :- ParseClassDataEnd(bytes, Le32(bytes, at + 24));
          var methods :- PlanClass(byMethod, force, parsed.0.Methods());
          var edited := PlannedClass(at, parsed.0.WithMethods(methods.0), methods.1);
          BeforeOne(plan, edited, PlanFrom(bytes, byMethod, force, i + 1));
          plan := plan + [edited];
        }
        i := i + 1;
      }
      assert plan + [] == plan;
      return Ok(plan);
    }

    // ----- copying live items -----

    /** One method's item goes to the next aligned offset. */
    method AppendCodeItem(m: EncodedMethod) returns (r: Result<EncodedMethod>)
      modifies this
      ensures match EmitMethod(old(bytes), m)
              case Ok((b, n)) => r == Ok(n) && bytes == b
              case Err(e) => r == Err(e)
    {
      hide CodeItemEnd;
      if m.pending.None? && m.codeOff == 0 {
        return Ok(m);
      }
      var item: seq<byte>;
      if m.pending.Some? {
        item := m.pending.value;
      } else {
        var end :- LocateCodeItemEnd(bytes, m.codeOff);
        item := bytes[m.codeOff..end];
      }
      bytes := AlignTo4(bytes);
      if |bytes| > U32_MAX {
        return Err(TooLarge);
      }
      var newOff: u32 := |bytes|;
      bytes := bytes + item;
      return Ok(m.(codeOff := newOff, pending := None));
    }

    method AppendCodeItemsOf(methods: seq<EncodedMethod>) returns (r: Result<seq<EncodedMethod>>)
      modifies this
      ensures match EmitMethods(old(bytes), methods)
              case Ok((b, moved)) => r == Ok(moved) && bytes == b
              case Err(e) => r == Err(e)
    {
      hide EmitMethod;
      var moved := [];
      BeforeSecondNothing(EmitMethods(bytes, methods));
      for i := 0 to |methods|
        invariant EmitMethods(old(bytes), methods) == BeforeSecond(moved, EmitMethods(bytes, methods[i..]))
      {
        assert methods[i..][1..] == methods[i + 1..];
        var m :- AppendCodeItem(methods[i]);
        BeforeSecondOne(moved, m, EmitMethods(bytes, methods[i + 1..]));
        moved := moved + [m];
      }
      assert moved + [] == moved;
      return Ok(moved);
    }

    method AppendCodeItems(plan: seq<PlannedClass>) returns (r: Result<seq<PlannedClass>>)
      modifies this
      ensures match EmitBodies(old(bytes), plan)
              case Ok((b, moved)) => r == Ok(moved) && bytes == b
              case Err(e) => r == Err(e)
    {
      hide EmitMethods;
      var moved := [];
      BeforeSecondNothing(EmitBodies(bytes, plan));
      for i := 0 to |plan|
        invariant EmitBodies(old(bytes), plan) == BeforeSecond(moved, EmitBodies(bytes, plan[i..]))
      {
        assert plan[i..][1..] == plan[i + 1..];
        var methods :- AppendCodeItemsOf(plan[i].item.Methods());
        var p := plan[i].(item := plan[i].item.WithMethods(methods));
        BeforeSecondOne(moved, p, EmitBodies(bytes, plan[i + 1..]));
        moved := moved + [p];
      }
      assert moved + [] == moved;
      return Ok(moved);
    }

    /** Each class's data goes to the end, and its definition points there. */
    method AppendClassData(plan: seq<PlannedClass>) returns (r: Result<()>)
      modifies this
      ensures match EmitClasses(old(bytes), plan)
              case Ok(b) => r == Ok(()) && bytes == b
              case Err(e) => r == Err(e)
    {
      hide EncodeClassData;
      for i := 0 to |plan|
        invariant EmitClasses(old(bytes), plan) == EmitClasses(bytes, plan[i..])
      {
        assert plan[i..][1..] == plan[i + 1..];
        var encoded := EncodeClassItem(plan[i].item);
        if |bytes| > U32_MAX || plan[i].defOff + 28 > |bytes| {
          return Err(TooLarge);
        }
        var classDataOff: u32 := |bytes|;
        bytes := bytes + encoded;
        bytes := Patch(bytes, plan[i].defOff + 24, PutLe32(classDataOff));
      }
      return Ok(());
    }

    static method CollectRetired(entries: seq<MapEntry>, len: nat) returns (r: Result<seq<(nat, nat)>>)
      ensures r == RetiredRanges(entries, entries, len)
    {
      hide NextOffset;
      var ranges: seq<(nat, nat)> := [];
      BeforeNothing(RetiredRanges(entries, entries, len));
      for i := 0 to |entries|
        invariant RetiredRanges(entries, entries, len) == Before(ranges, RetiredRanges(entries[i..], entries, len))
      {
        assert entries[i..][1..] == entries[i + 1..];
        if IsRetired(entries[i]) {
          var start: nat := entries[i].off;
          var end := NextOffset(entries, entries[i].off, len);
          if start < DEX_HEADER_SIZE || start >= end || end > len {
            return Err(InvalidMap);
          }
          BeforeOne(ranges, (start, end), RetiredRanges(entries[i + 1..], entries, len));
          ranges := ranges + [(start, end)];
        }
      }
      assert ranges + [] == ranges;
      return Ok(ranges);
    }

    method Retire(ranges: seq<(nat, nat)>)
      requires forall k :: 0 <= k < |ranges| ==> ranges[k].0 <= ranges[k].1 <= |bytes|
      modifies this
      ensures |bytes| == |old(bytes)| && bytes == ZeroRanges(old(bytes), ranges)
    {
      for i := 0 to |ranges|
        invariant |bytes| == |old(bytes)|
        invariant ZeroRanges(old(bytes), ranges) == ZeroRanges(bytes, ranges[i..])
      {
        assert ranges[i..][1..] == ranges[i + 1..];
        bytes := ZeroRange(bytes, ranges[i].0, ranges[i].1);
      }
    }

    /** `append_missing_code_items`. */
    method AppendMissingCodeItems(captures: seq<Capture>, force: bool) returns (r: Result<Outcome>)
      requires HasHeader(bytes)
      modifies this
      ensures match AppendMissing(old(bytes), captures, force)
              case Ok((b, outcome)) => r == Ok(outcome) && bytes == b
              case Err(e) => r == Err(e)
    {
      hide PlanFrom, EmitBodies, EmitClasses, ReadMap, RetiredRanges, ZeroRanges, AllMethods, AllFates, CountFate, CountPending, CodeMapEntry,
        ByMethod, NeedsRelocation;
      var byMethod := IndexCaptures(captures);
      var plan :- PlanEdits(byMethod, force);
      var fates := AllFates(plan);
      var failed, unrecovered := CountFate(fates, Failed), CountFate(fates, Unrecovered);
      if !NeedsRelocation(plan) {
        return Ok(Outcome(0, failed, unrecovered, None));
      }
      var entries :- ReadMap(bytes);
      var retired :- CollectRetired(entries, |bytes|);
      var moved :- AppendCodeItems(plan);
      if |plan| > U32_MAX || |bytes| > U32_MAX {
        return Err(TooLarge);
      }
      var classMap := MapEntry(TYPE_CLASS_DATA, |plan|, |bytes|);
      var _ :- AppendClassData(moved);
      Retire(retired);
      return Ok(Outcome(CountPending(AllMethods(plan)), failed, unrecovered, Some([CodeMapEntry(AllMethods(moved)), classMap])));
    }

    // ----- stale fields, map, header -----

    method ClearWordIfPast(o: nat)
      requires o + 4 <= |bytes|
      modifies this
      ensures bytes == ClearIfPast(old(bytes), o)
    {
      if Le32(bytes, o) != 0 && Le32(bytes, o) >= |bytes| {
        bytes := Patch(bytes, o, [0, 0, 0, 0]);
      }
    }

    method FixCodeItem(co: u32)
      modifies this
      ensures bytes == FixItem(old(bytes), co)
    {
      hide Le32, Le16, Align4;
      if co == 0 || co + 16 > |bytes| {
        return;
      }
      ClearWordIfPast(co + 8);
      var tries: nat := Le16(bytes, co + 6);
      if tries > 0 {
        var tryData := Align4(co + 16 + 2 * Le32(bytes, co + 12));
        if tryData + 8 * tries > |bytes| {
          bytes := Patch(bytes, co + 6, [0, 0]);
        }
      }
    }

    method FixClassItems(at: nat)
      requires at + CLASS_DEF_SIZE <= |bytes|
      modifies this
      ensures bytes == FixClass(old(bytes), at)
    {
      hide Le32, ParseClassData, FixItem;
      var off := Le32(bytes, at + 24);
      if off == 0 || off >= |bytes| {
        return;
      }
      var parsed := ParseClassDataEnd(bytes, off);
      if parsed.Err? {
        return;
      }
      var methods := parsed.value.0.Methods();
      for i := 0 to |methods|
        invariant FixMethods(old(bytes), methods) == FixMethods(bytes, methods[i..])
      {
        assert methods[i..][1..] == methods[i + 1..];
        FixCodeItem(methods[i].codeOff);
      }
    }

    /** `fix_format_fields`; says whether anything changed. */
    method FixFormatFields() returns (changed: bool)
      modifies this
      ensures bytes == FixFormat(old(bytes)) && (changed <==> bytes != old(bytes))
    {
      hide Le32, FixClass, FixDef;
      var before := bytes;
      if |bytes| < DEX_HEADER_SIZE {
        return false;
      }
      var off, count := ClassDefsOff(bytes), ClassDefsSize(bytes);
      var i: nat := 0;
      while i < count && off + i * CLASS_DEF_SIZE + CLASS_DEF_SIZE <= |bytes|
        invariant |bytes| == |before| && FixDefs(before, off, count, 0) == FixDefs(bytes, off, count, i)
        decreases count - i
      {
        var at := off + i * CLASS_DEF_SIZE;
        FixDefinition(at);
        i := i + 1;
      }
      i := 0;
      ghost var defs := bytes;
      while i < count && off + i * CLASS_DEF_SIZE + CLASS_DEF_SIZE <= |bytes|
        invariant |bytes| == |before| && FixItems(defs, off, count, 0) == FixItems(bytes, off, count, i)
        decreases count - i
      {
        FixClassItems(off + i * CLASS_DEF_SIZE);
        i := i + 1;
      }
      return bytes != before;
    }

    method FixDefinition(at: nat)
      requires at + CLASS_DEF_SIZE <= |bytes|
      modifies this
      ensures bytes == FixDef(old(bytes), at)
    {
      hide ClearIfPast;
      ClearWordIfPast(at + 0x0c);
      ClearWordIfPast(at + 0x14);
      ClearWordIfPast(at + 0x1c);
    }

    /** `rebuild_map`. */
    method RebuildMapList(relocated: Option<seq<MapEntry>>) returns (r: Result<bool>)
      modifies this
      ensures match RebuildMap(old(bytes), relocated)
              case Ok((b, changed)) => r == Ok(changed) && bytes == b
              case Err(e) => r == Err(e)
    {
      hide ReadMap, MapTable, OverlapsMap, NeighboursAscend, SelfEntryLast, Substitute, EncodeMap, NewEntries, Align4, Le32, PutLe32;
      var entries :- ReadMap(bytes);
      ReadMapIsTable(bytes);
      var (off, count) := MapTable(bytes).value;
      if OverlapsMap(entries, off, MapEnd(off, count)) {
        return Err(InvalidMap);
      }
      if relocated.None? && NeighboursAscend(entries) && SelfEntryLast(entries, MapOff(bytes)) && MapEnd(off, count) == |bytes| {
        return Ok(false);
      }
      if Align4(|bytes|) > U32_MAX {
        return Err(TooLarge);
      }
      var updated := entries;
      if relocated.Some? {
        updated := ReplaceTypes(entries, relocated.value);
      }
      bytes := AlignTo4(bytes);
      var newOff: u32 := |bytes|;
      bytes := bytes + EncodeMap(NewEntries(updated, newOff));
      bytes := Patch(bytes, HDR_MAP_OFF, PutLe32(newOff));
      bytes := ZeroRange(bytes, off, MapEnd(off, count));
      return Ok(true);
    }

    static lemma ReadMapIsTable(b: seq<byte>)
      requires ReadMap(b).Ok?
      ensures MapTable(b).Some? && HasHeader(b) && MapTable(b).value.0 == MapOff(b)
    {
      hide Le32, EntriesFrom;
    }

    static method ReplaceTypes(entries: seq<MapEntry>, replacements: seq<MapEntry>) returns (r: seq<MapEntry>)
      ensures r == Substitute(entries, replacements)
    {
      hide WithoutType;
      r := entries;
      for i := 0 to |replacements|
        invariant Substitute(entries, replacements) == Substitute(r, replacements[i..])
      {
        assert replacements[i..][1..] == replacements[i + 1..];
        r := WithoutType(r, replacements[i].typ);
        if replacements[i].size != 0 {
          r := r + [replacements[i]];
        } else {
          assert r + [] == r;
        }
      }
    }

    /** `fix_header_bounds`: each field is written only when it differs. */
    method FixHeader()
      modifies this
      ensures bytes == FixHeaderBounds(old(bytes))
    {
      hide TablesEnd, Align4;
      if |bytes| < DEX_HEADER_SIZE {
        return;
      }
      var dataOff := Align4(TablesEnd(bytes));
      if dataOff > |bytes| || |bytes| > U32_MAX {
        return;
      }
      PutWord(HDR_FILE_SIZE, |bytes|);
      PutWord(HDR_DATA_SIZE, |bytes| - dataOff);
      PutWord(HDR_DATA_OFF, dataOff);
    }

    method PutWord(o: nat, v: u32)
      requires o + 4 <= |bytes|
      modifies this
      ensures bytes == Patch(old(bytes), o, PutLe32(v))
    {
      if bytes[o..o + 4] != PutLe32(v) {
        bytes := Patch(bytes, o, PutLe32(v));
      } else {
        assert bytes[..o] + bytes[o..o + 4] + bytes[o + 4..] == bytes;
      }
    }

    /** `recalc_dex_header`. */
    method RecalcDexHeader(digests: Digests)
      modifies this
      ensures bytes == RecalcHeader(old(bytes), digests)
    {
      if |bytes| < 32 {
        return;
      }
      bytes := Patch(bytes, HDR_SIGNATURE, digests.sha1(bytes[32..]));
      bytes := Patch(bytes, HDR_CHECKSUM, PutLe32(digests.adler32(bytes[HDR_SIGNATURE..])));
    }

    // ----- the closing validation -----

    method CheckMethodsOf(methods: seq<EncodedMethod>) returns (r: Result<set<u32>>)
      requires HasHeader(bytes)
      ensures r == CheckMethods(bytes, methods)
    {
      hide CodeItemEnd, Le32;
      var codes: set<u32> := {};
      JoinedNothing(CheckMethods(bytes, methods));
      for i := 0 to |methods|
        invariant CheckMethods(bytes, methods) == JoinedSet(codes, CheckMethods(bytes, methods[i..]))
      {
        assert methods[i..][1..] == methods[i + 1..];
        if methods[i].methodIdx >= MethodIdsSize(bytes) {
          return Err(ValidationFailed);
        }
        if methods[i].codeOff != 0 {
          var end :- LocateCodeItemEnd(bytes, methods[i].codeOff);
          JoinedOneSet(codes, {methods[i].codeOff}, CheckMethods(bytes, methods[i + 1..]));
          codes := codes + {methods[i].codeOff};
        }
      }
      return Ok(codes);
    }

    method CollectLive() returns (r: Result<(set<u32>, set<u32>)>)
      requires DefsInFile(bytes)
      ensures r == CollectFrom(bytes, 0)
    {
      hide ParseClassData, CheckMethods, Le32;
      var classes: set<u32>, codes: set<u32> := {}, {};
      JoinedNothings(CollectFrom(bytes, 0));
      for i := 0 to ClassDefsSize(bytes)
        invariant CollectFrom(bytes, 0) == JoinedSets(classes, codes, CollectFrom(bytes, i))
      {
        var off := Le32(bytes, ClassDefAt(bytes, i) + 24);
        if off != 0 {
          var parsed :- ParseClassDataEnd(bytes, off);
          var offs :- CheckMethodsOf(parsed.0.Methods());
          JoinedOneSets(classes, codes, {off}, offs, CollectFrom(bytes, i + 1));
          classes, codes := classes + {off}, codes + offs;
        }
      }
      return Ok((classes, codes));
    }

    /** Walk a run in offset order. */
    method WalkOffsets(isCode: bool, start: nat, offsets: set<u32>) returns (r: Result<nat>)
      ensures r == WalkRun(bytes, isCode, start, offsets)
    {
      hide CodeItemEnd, ParseClassData, Least, Align4;
      var pos: nat, todo := start, offsets;
      while todo != {}
        invariant WalkRun(bytes, isCode, start, offsets) == WalkRun(bytes, isCode, pos, todo)
        decreases |todo|
      {
        var off := Least(todo);
        if off != Aligned(isCode, pos) {
          return Err(ValidationFailed);
        }
        if isCode {
          pos :- LocateCodeItemEnd(bytes, off);
        } else {
          var parsed :- ParseClassDataEnd(bytes, off);
          pos := parsed.1;
        }
        todo := todo - {off};
      }
      return Ok(pos);
    }

    method CheckLiveRun(entries: seq<MapEntry>, isCode: bool, offsets: set<u32>) returns (r: Result<()>)
      ensures r == CheckRun(bytes, entries, isCode, offsets)
    {
      hide WalkRun, FindType, NextOffset, Least;
      var entry := FindType(entries, if isCode then TYPE_CODE_ITEM else TYPE_CLASS_DATA);
      if entry.None? {
        return if offsets == {} then Ok(()) else Err(ValidationFailed);
      }
      var e := entry.value;
      if e.size != |offsets| || offsets == {} || Least(offsets) != e.off {
        return Err(ValidationFailed);
      }
      var end :- WalkOffsets(isCode, e.off, offsets);
      return if end <= NextOffset(entries, e.off, |bytes|) then Ok(()) else Err(ValidationFailed);
    }

    /** `validate_repaired_dex`. */
    method ValidateRepaired(digests: Digests) returns (r: Result<()>)
      ensures r == Validate(bytes, digests)
    {
      hide OpenDex, ValidateIdBounds, ReadMap, BoundsMatch, DigestsMatch, CollectFrom, CheckRun, NeighboursAscend, Le32;
      var _ :- ValidateIdBounds(bytes);
      var _ :- OpenDex(bytes);
      assert HasHeader(bytes) by { HasIdBounds(bytes); }
      if !BoundsMatch(bytes) || !DigestsMatch(bytes, digests) {
        return Err(ValidationFailed);
      }
      var entries :- ReadMap(bytes);
      if !NeighboursAscend(entries) || MapEntry(TYPE_MAP_LIST, 1, MapOff(bytes)) !in entries {
        return Err(ValidationFailed);
      }
      ValidatedDefsInFile(bytes);
      var live :- CollectLive();
      var _ :- CheckLiveRun(entries, false, live.0);
      r := CheckLiveRun(entries, true, live.1);
    }

    static lemma HasIdBounds(b: seq<byte>)
      requires ValidateIdBounds(b).Ok?
      ensures HasHeader(b)
    {
      hide Le32;
    }

    // ----- the repair -----

    /** `repair_one_dex`. */
    method RepairOneDex(captures: seq<Capture>, force: bool, digests: Digests) returns (r: Result<Outcome>)
      modifies this
      ensures match RepairOne(old(bytes), captures, force, digests)
              case Ok((b, outcome)) => r == Ok(outcome) && bytes == b
              case Err(e) => r == Err(e)
    {
      hide OpenDex, ValidateIdBounds, ReadMap, MethodOffsets, ApplyRecords, AppendMissing, FixFormat, RebuildMap, FixHeaderBounds,
        RecalcHeader, Validate;
      var _ :- OpenDex(bytes);
      var _ :- ValidateIdBounds(bytes);
      var _ :- ReadMap(bytes);
      var method2off :- BuildMethodCodeOffMap();
      ApplyRecordsToDex(method2off, captures, false);
      var outcome :- AppendMissingCodeItems(captures, force);
      var formatFixed := FixFormatFields();
      var mapRebuilt :- RebuildMapList(outcome.relocated);
      FixHeader();
      RecalcDexHeader(digests);
      var _ :- ValidateRepaired(digests);
      return Ok(outcome);
    }
  }
}
