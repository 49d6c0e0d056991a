/**
  `class_data_item`: four delta-coded lists of fields and methods, parsed into
  a structure that can be edited and re-encoded.
 */
module ClassData {
  import opened Bytes
  import opened Leb128

  datatype EncodedField = EncodedField(fieldIdx: u32, accessFlags: u32)

  /** `pending` is a code item to append for this method when the DEX has no
      usable one; parsing never produces one. */
  datatype EncodedMethod = EncodedMethod(methodIdx: u32, accessFlags: u32, codeOff: u32, pending: Option<seq<byte>>)

  datatype ClassItem = ClassItem(
    staticFields: seq<EncodedField>,
    instanceFields: seq<EncodedField>,
    directMethods: seq<EncodedMethod>,
    virtualMethods: seq<EncodedMethod>)
  {
    /** Direct methods first, then virtual ones. */
    function Methods(): seq<EncodedMethod> {
      directMethods + virtualMethods
    }

    /** The same item with its methods replaced, in the order of `Methods`. */
    function WithMethods(methods: seq<EncodedMethod>): (c: ClassItem)
      requires |methods| == |Methods()|
      ensures c.Methods() == methods
    {
      ClassItem(staticFields, instanceFields, methods[..|directMethods|], methods[|directMethods|..])
    }
  }

  // ----- parsing -----

  function SaturatingAdd(a: u32, b: u32): u32 {
    Min(a + b, U32_MAX)
  }

  function SaturatingSub(a: u32, b: u32): u32 {
    Max(a - b, 0)
  }

  function ReadField(data: seq<byte>, pos: nat, last: u32): (r: Result<(EncodedField, nat)>)
    ensures r.Ok? ==> pos < r.value.1 <= |data|
    ensures r.Ok? ==> last <= r.value.0.fieldIdx
  {
    var (diff, p1) :- ReadUleb128(data, pos);
    var (flags, p2) :- ReadUleb128(data, p1);
    Ok((EncodedField(SaturatingAdd(last, diff), flags), p2))
  }

  function ReadMethod(data: seq<byte>, pos: nat, last: u32): (r: Result<(EncodedMethod, nat)>)
    ensures r.Ok? ==> pos < r.value.1 <= |data|
    ensures r.Ok? ==> last <= r.value.0.methodIdx && r.value.0.pending == None
  {
    var (diff, p1) :- ReadUleb128(data, pos);
    var (flags, p2) :- ReadUleb128(data, p1);
    var (codeOff, p3) :- ReadUleb128(data, p2);
    Ok((EncodedMethod(SaturatingAdd(last, diff), flags, codeOff, None), p3))
  }

  function ReadFields(data: seq<byte>, pos: nat, count: nat, last: u32): (r: Result<(seq<EncodedField>, nat)>)
    requires pos <= |data|
    ensures r.Ok? ==> pos <= r.value.1 <= |data| && |r.value.0| == count
    decreases count
  {
    if count == 0 then Ok(([], pos))
    else
      var (field, p1) :- ReadField(data, pos, last);
      var (rest, p2) :- ReadFields(data, p1, count - 1, field.fieldIdx);
      Ok(([field] + rest, p2))
  }

  function ReadMethods(data: seq<byte>, pos: nat, count: nat, last: u32): (r: Result<(seq<EncodedMethod>, nat)>)
    requires pos <= |data|
    ensures r.Ok? ==> pos <= r.value.1 <= |data| && |r.value.0| == count
    decreases count
  {
    if count == 0 then Ok(([], pos))
    else
      var (m, p1) :- ReadMethod(data, pos, last);
      var (rest, p2) :- ReadMethods(data, p1, count - 1, m.methodIdx);
      Ok(([m] + rest, p2))
  }

  datatype Counts = Counts(statics: u32, instances: u32, directs: u32, virtuals: u32)

  function ReadCounts(data: seq<byte>, pos: nat): (r: Result<(Counts, nat)>)
    ensures r.Ok? ==> pos < r.value.1 <= |data|
  {
    var (statics, p1) :- ReadUleb128(data, pos);
    var (instances, p2) :- ReadUleb128(data, p1);
    var (directs, p3) :- ReadUleb128(data, p2);
    var (virtuals, p4) :- ReadUleb128(data, p3);
    Ok((Counts(statics, instances, directs, virtuals), p4))
  }

  /** The item at `off` and the position just past it. */
  function ParseClassData(data: seq<byte>, off: nat): (r: Result<(ClassItem, nat)>)
    ensures r.Ok? ==> off < r.value.1 <= |data|
  {
    var (n, p0) :- ReadCounts(data, off);
    var (statics, p1) :- ReadFields(data, p0, n.statics, 0);
    var (instances, p2) :- ReadFields(data, p1, n.instances, 0);
    var (directs, p3) :- ReadMethods(data, p2, n.directs, 0);
    var (virtuals, p4) :- ReadMethods(data, p3, n.virtuals, 0);
    Ok((ClassItem(statics, instances, directs, virtuals), p4))
  }

  // ----- encoding -----

  function EncodeField(field: EncodedField, last: u32): seq<byte> {
    EncodeUleb(SaturatingSub(field.fieldIdx, last)) + EncodeUleb(field.accessFlags)
  }

  function EncodeMethod(m: EncodedMethod, last: u32): seq<byte> {
    EncodeUleb(SaturatingSub(m.methodIdx, last)) + EncodeUleb(m.accessFlags) + EncodeUleb(m.codeOff)
  }

  function EncodeFields(fields: seq<EncodedField>, last: u32): seq<byte> {
    if fields == [] then []
    else EncodeField(fields[0], last) + EncodeFields(fields[1..], fields[0].fieldIdx)
  }

  function EncodeMethods(methods: seq<EncodedMethod>, last: u32): seq<byte> {
    if methods == [] then []
    else EncodeMethod(methods[0], last) + EncodeMethods(methods[1..], methods[0].methodIdx)
  }

  /** List lengths are cast to 32 bits. */
  function EncodeCounts(c: ClassItem): seq<byte> {
    EncodeUleb(|c.staticFields| % 0x1_0000_0000)
    + EncodeUleb(|c.instanceFields| % 0x1_0000_0000)
    + EncodeUleb(|c.directMethods| % 0x1_0000_0000)
    + EncodeUleb(|c.virtualMethods| % 0x1_0000_0000)
  }

  function EncodeClassData(c: ClassItem): (s: seq<byte>)
    ensures |s| >= 4
  {
    EncodeCounts(c)
    + EncodeFields(c.staticFields, 0) + EncodeFields(c.instanceFields, 0)
    + EncodeMethods(c.directMethods, 0) + EncodeMethods(c.virtualMethods, 0)
  }

  // ----- well-formed items -----

  predicate FieldsAscend(fields: seq<EncodedField>, last: u32) {
    fields == [] || (last <= fields[0].fieldIdx && FieldsAscend(fields[1..], fields[0].fieldIdx))
  }

  predicate MethodsAscend(methods: seq<EncodedMethod>, last: u32) {
    methods == [] || (last <= methods[0].methodIdx && MethodsAscend(methods[1..], methods[0].methodIdx))
  }

  predicate NothingPending(methods: seq<EncodedMethod>) {
    forall i :: 0 <= i < |methods| ==> methods[i].pending == None
  }

  /** What a `class_data_item` can express: indices never descend within a
      list, and every list length fits 32 bits. */
  predicate Encodable(c: ClassItem) {
    && FieldsAscend(c.staticFields, 0) && FieldsAscend(c.instanceFields, 0)
    && MethodsAscend(c.directMethods, 0) && MethodsAscend(c.virtualMethods, 0)
    && |c.staticFields| <= U32_MAX && |c.instanceFields| <= U32_MAX
    && |c.directMethods| <= U32_MAX && |c.virtualMethods| <= U32_MAX
    && NothingPending(c.directMethods) && NothingPending(c.virtualMethods)
  }

  lemma {:induction false} ReadFieldsAscend(data: seq<byte>, pos: nat, count: nat, last: u32)
    requires pos <= |data| && ReadFields(data, pos, count, last).Ok?
    ensures FieldsAscend(ReadFields(data, pos, count, last).value.0, last)
    decreases count
  {
    if count > 0 {
      var (field, p1) := ReadField(data, pos, last).value;
      var (rest, p2) := ReadFields(data, p1, count - 1, field.fieldIdx).value;
      ReadFieldsAscend(data, p1, count - 1, field.fieldIdx);
      assert ([field] + rest)[1..] == rest;
    }
  }

  lemma {:induction false} ReadMethodsAscend(data: seq<byte>, pos: nat, count: nat, last: u32)
    requires pos <= |data| && ReadMethods(data, pos, count, last).Ok?
    ensures MethodsAscend(ReadMethods(data, pos, count, last).value.0, last)
    ensures NothingPending(ReadMethods(data, pos, count, last).value.0)
    decreases count
  {
    if count > 0 {
      var (m, p1) := ReadMethod(data, pos, last).value;
      var (rest, p2) := ReadMethods(data, p1, count - 1, m.methodIdx).value;
      ReadMethodsAscend(data, p1, count - 1, m.methodIdx);
      assert ([m] + rest)[1..] == rest;
    }
  }

  /** Whatever bytes it is given, the parser yields an encodable item. */
  lemma ParsedIsEncodable(data: seq<byte>, off: nat)
    requires ParseClassData(data, off).Ok?
    ensures Encodable(ParseClassData(data, off).value.0)
  {
    var (n, p0) := ReadCounts(data, off).value;
    ReadFieldsAscend(data, p0, n.statics, 0);
    var p1 := ReadFields(data, p0, n.statics, 0).value.1;
    ReadFieldsAscend(data, p1, n.instances, 0);
    var p2 := ReadFields(data, p1, n.instances, 0).value.1;
    ReadMethodsAscend(data, p2, n.directs, 0);
    var p3 := ReadMethods(data, p2, n.directs, 0).value.1;
    ReadMethodsAscend(data, p3, n.virtuals, 0);
  }

  // ----- round trip -----

  lemma ReadEncodedField(b: seq<byte>, pos: nat, field: EncodedField, last: u32)
    requires last <= field.fieldIdx
    requires Holds(b, pos, EncodeField(field, last))
    ensures ReadField(b, pos, last) == Ok((field, pos + |EncodeField(field, last)|))
  {
    hide Holds, EncodeUleb, ReadUleb128;
    var diff := EncodeUleb(SaturatingSub(field.fieldIdx, last));
    HoldsSplit(b, pos, diff, EncodeUleb(field.accessFlags));
    UlebRoundTrip(b, pos, SaturatingSub(field.fieldIdx, last));
    UlebRoundTrip(b, pos + |diff|, field.accessFlags);
  }

  lemma ReadEncodedMethod(b: seq<byte>, pos: nat, m: EncodedMethod, last: u32)
    requires last <= m.methodIdx && m.pending == None
    requires Holds(b, pos, EncodeMethod(m, last))
    ensures ReadMethod(b, pos, last) == Ok((m, pos + |EncodeMethod(m, last)|))
  {
    hide Holds, EncodeUleb, ReadUleb128;
    var diff := EncodeUleb(SaturatingSub(m.methodIdx, last));
    var flags := EncodeUleb(m.accessFlags);
    HoldsSplit(b, pos, diff + flags, EncodeUleb(m.codeOff));
    HoldsSplit(b, pos, diff, flags);
    UlebRoundTrip(b, pos, SaturatingSub(m.methodIdx, last));
    UlebRoundTrip(b, pos + |diff|, m.accessFlags);
    UlebRoundTrip(b, pos + |diff| + |flags|, m.codeOff);
  }

  lemma {:induction false} ReadEncodedFields(b: seq<byte>, pos: nat, fields: seq<EncodedField>, last: u32)
    requires FieldsAscend(fields, last)
    requires Holds(b, pos, EncodeFields(fields, last))
    ensures ReadFields(b, pos, |fields|, last) == Ok((fields, pos + |EncodeFields(fields, last)|))
    decreases |fields|
  {
    hide Holds, EncodeUleb, ReadUleb128;
    if fields != [] {
      var first := EncodeField(fields[0], last);
      HoldsSplit(b, pos, first, EncodeFields(fields[1..], fields[0].fieldIdx));
      ReadEncodedField(b, pos, fields[0], last);
      ReadEncodedFields(b, pos + |first|, fields[1..], fields[0].fieldIdx);
      assert [fields[0]] + fields[1..] == fields;
    }
  }

  lemma {:induction false} ReadEncodedMethods(b: seq<byte>, pos: nat, methods: seq<EncodedMethod>, last: u32)
    requires MethodsAscend(methods, last) && NothingPending(methods)
    requires Holds(b, pos, EncodeMethods(methods, last))
    ensures ReadMethods(b, pos, |methods|, last) == Ok((methods, pos + |EncodeMethods(methods, last)|))
    decreases |methods|
  {
    hide Holds, EncodeUleb, ReadUleb128;
    if methods != [] {
      var first := EncodeMethod(methods[0], last);
      HoldsSplit(b, pos, first, EncodeMethods(methods[1..], methods[0].methodIdx));
      ReadEncodedMethod(b, pos, methods[0], last);
      ReadEncodedMethods(b, pos + |first|, methods[1..], methods[0].methodIdx);
      assert [methods[0]] + methods[1..] == methods;
    }
  }

  lemma ReadEncodedCounts(b: seq<byte>, pos: nat, c: ClassItem)
    requires Encodable(c)
    requires Holds(b, pos, EncodeCounts(c))
    ensures ReadCounts(b, pos)
            == Ok((Counts(|c.staticFields|, |c.instanceFields|, |c.directMethods|, |c.virtualMethods|),
                   pos + |EncodeCounts(c)|))
  {
    hide Holds, EncodeUleb, ReadUleb128;
    var s := EncodeUleb(|c.staticFields|);
    var i := EncodeUleb(|c.instanceFields|);
    var d := EncodeUleb(|c.directMethods|);
    var v := EncodeUleb(|c.virtualMethods|);
    HoldsSplit(b, pos, s + i + d, v);
    HoldsSplit(b, pos, s + i, d);
    HoldsSplit(b, pos, s, i);
    UlebRoundTrip(b, pos, |c.staticFields|);
    UlebRoundTrip(b, pos + |s|, |c.instanceFields|);
    UlebRoundTrip(b, pos + |s| + |i|, |c.directMethods|);
    UlebRoundTrip(b, pos + |s| + |i| + |d|, |c.virtualMethods|);
  }

  /** Encoding an encodable item and parsing it, at any position inside any
      buffer, returns the item and stops exactly at the end of the encoding. */
  lemma ClassDataRoundTrip(b: seq<byte>, pos: nat, c: ClassItem)
    requires Encodable(c)
    requires Holds(b, pos, EncodeClassData(c))
    ensures ParseClassData(b, pos) == Ok((c, pos + |EncodeClassData(c)|))
  {
    hide Holds, EncodeFields, EncodeMethods, EncodeCounts, ReadFields, ReadMethods, ReadCounts;
    var n := EncodeCounts(c);
    var sf := EncodeFields(c.staticFields, 0);
    var inf := EncodeFields(c.instanceFields, 0);
    var dm := EncodeMethods(c.directMethods, 0);
    var vm := EncodeMethods(c.virtualMethods, 0);
    HoldsSplit(b, pos, n + sf + inf + dm, vm);
    HoldsSplit(b, pos, n + sf + inf, dm);
    HoldsSplit(b, pos, n + sf, inf);
    HoldsSplit(b, pos, n, sf);
    ReadEncodedCounts(b, pos, c);
    ReadEncodedFields(b, pos + |n|, c.staticFields, 0);
    ReadEncodedFields(b, pos + |n| + |sf|, c.instanceFields, 0);
    ReadEncodedMethods(b, pos + |n| + |sf| + |inf|, c.directMethods, 0);
    ReadEncodedMethods(b, pos + |n| + |sf| + |inf| + |dm|, c.virtualMethods, 0);
  }

  /** Encodability is exactly what the round trip needs. */
  lemma RoundTripExactlyWhenEncodable(c: ClassItem)
    ensures ParseClassData(EncodeClassData(c), 0) == Ok((c, |EncodeClassData(c)|)) <==> Encodable(c)
  {
    hide EncodeClassData, ParseClassData, Encodable;
    var code := EncodeClassData(c);
    if Encodable(c) {
      assert code[0..0 + |code|] == code;
      ClassDataRoundTrip(code, 0, c);
    }
    if ParseClassData(code, 0) == Ok((c, |code|)) {
      ParsedIsEncodable(code, 0);
    }
  }

  // ----- the parser is local -----

  lemma ReadFieldLocal(b: seq<byte>, pos: nat, last: u32, c: seq<byte>, at: nat)
    requires ReadField(b, pos, last).Ok?
    requires Holds(c, at, b[pos..ReadField(b, pos, last).value.1])
    ensures ReadField(c, at, last)
            == Ok((ReadField(b, pos, last).value.0, at + ReadField(b, pos, last).value.1 - pos))
  {
    hide Holds, ReadUleb128;
    var end := ReadField(b, pos, last).value.1;
    var p1 := ReadUleb128(b, pos).value.1;
    HoldsWithin(c, at, b, pos, end, pos, p1);
    ReadUlebLocal(b, pos, c, at);
    HoldsWithin(c, at, b, pos, end, p1, end);
    ReadUlebLocal(b, p1, c, at + p1 - pos);
  }

  lemma ReadMethodLocal(b: seq<byte>, pos: nat, last: u32, c: seq<byte>, at: nat)
    requires ReadMethod(b, pos, last).Ok?
    requires Holds(c, at, b[pos..ReadMethod(b, pos, last).value.1])
    ensures ReadMethod(c, at, last)
            == Ok((ReadMethod(b, pos, last).value.0, at + ReadMethod(b, pos, last).value.1 - pos))
  {
    hide Holds, ReadUleb128;
    var end := ReadMethod(b, pos, last).value.1;
    var p1 := ReadUleb128(b, pos).value.1;
    var p2 := ReadUleb128(b, p1).value.1;
    HoldsWithin(c, at, b, pos, end, pos, p1);
    ReadUlebLocal(b, pos, c, at);
    HoldsWithin(c, at, b, pos, end, p1, p2);
    ReadUlebLocal(b, p1, c, at + p1 - pos);
    HoldsWithin(c, at, b, pos, end, p2, end);
    ReadUlebLocal(b, p2, c, at + p2 - pos);
  }

  lemma {:induction false} ReadFieldsLocal(b: seq<byte>, pos: nat, count: nat, last: u32, c: seq<byte>, at: nat)
    requires pos <= |b| && ReadFields(b, pos, count, last).Ok?
    requires Holds(c, at, b[pos..ReadFields(b, pos, count, last).value.1])
    ensures at <= |c|
    ensures ReadFields(c, at, count, last)
            == Ok((ReadFields(b, pos, count, last).value.0, at + ReadFields(b, pos, count, last).value.1 - pos))
    decreases count
  {
    hide Holds, ReadField;
    var end := ReadFields(b, pos, count, last).value.1;
    HoldsLength(c, at, b[pos..end]);
    if count > 0 {
      var (field, p1) := ReadField(b, pos, last).value;
      HoldsWithin(c, at, b, pos, end, pos, p1);
      ReadFieldLocal(b, pos, last, c, at);
      HoldsWithin(c, at, b, pos, end, p1, end);
      ReadFieldsLocal(b, p1, count - 1, field.fieldIdx, c, at + p1 - pos);
    }
  }

  lemma {:induction false} ReadMethodsLocal(b: seq<byte>, pos: nat, count: nat, last: u32, c: seq<byte>, at: nat)
    requires pos <= |b| && ReadMethods(b, pos, count, last).Ok?
    requires Holds(c, at, b[pos..ReadMethods(b, pos, count, last).value.1])
    ensures at <= |c|
    ensures ReadMethods(c, at, count, last)
            == Ok((ReadMethods(b, pos, count, last).value.0, at + ReadMethods(b, pos, count, last).value.1 - pos))
    decreases count
  {
    hide Holds, ReadMethod;
    var end := ReadMethods(b, pos, count, last).value.1;
    HoldsLength(c, at, b[pos..end]);
    if count > 0 {
      var (m, p1) := ReadMethod(b, pos, last).value;
      HoldsWithin(c, at, b, pos, end, pos, p1);
      ReadMethodLocal(b, pos, last, c, at);
      HoldsWithin(c, at, b, pos, end, p1, end);
      ReadMethodsLocal(b, p1, count - 1, m.methodIdx, c, at + p1 - pos);
    }
  }

  lemma ReadCountsLocal(b: seq<byte>, pos: nat, c: seq<byte>, at: nat)
    requires ReadCounts(b, pos).Ok?
    requires Holds(c, at, b[pos..ReadCounts(b, pos).value.1])
    ensures ReadCounts(c, at) == Ok((ReadCounts(b, pos).value.0, at + ReadCounts(b, pos).value.1 - pos))
  {
    hide Holds, ReadUleb128;
    var end := ReadCounts(b, pos).value.1;
    var p1 := ReadUleb128(b, pos).value.1;
    var p2 := ReadUleb128(b, p1).value.1;
    var p3 := ReadUleb128(b, p2).value.1;
    HoldsWithin(c, at, b, pos, end, pos, p1);
    ReadUlebLocal(b, pos, c, at);
    HoldsWithin(c, at, b, pos, end, p1, p2);
    ReadUlebLocal(b, p1, c, at + p1 - pos);
    HoldsWithin(c, at, b, pos, end, p2, p3);
    ReadUlebLocal(b, p2, c, at + p2 - pos);
    HoldsWithin(c, at, b, pos, end, p3, end);
    ReadUlebLocal(b, p3, c, at + p3 - pos);
  }

  /** Any buffer with the same bytes, at any offset, parses to the same item. */
  lemma ParseClassDataLocal(b: seq<byte>, off: nat, c: seq<byte>, at: nat)
    requires ParseClassData(b, off).Ok?
    requires Holds(c, at, b[off..ParseClassData(b, off).value.1])
    ensures ParseClassData(c, at) == Ok((ParseClassData(b, off).value.0, at + ParseClassData(b, off).value.1 - off))
  {
    hide Holds, ReadCounts, ReadFields, ReadMethods;
    var end := ParseClassData(b, off).value.1;
    var (n, p0) := ReadCounts(b, off).value;
    var p1 := ReadFields(b, p0, n.statics, 0).value.1;
    var p2 := ReadFields(b, p1, n.instances, 0).value.1;
    var p3 := ReadMethods(b, p2, n.directs, 0).value.1;
    HoldsWithin(c, at, b, off, end, off, p0);
    ReadCountsLocal(b, off, c, at);
    HoldsWithin(c, at, b, off, end, p0, p1);
    ReadFieldsLocal(b, p0, n.statics, 0, c, at + p0 - off);
    HoldsWithin(c, at, b, off, end, p1, p2);
    ReadFieldsLocal(b, p1, n.instances, 0, c, at + p1 - off);
    HoldsWithin(c, at, b, off, end, p2, p3);
    ReadMethodsLocal(b, p2, n.directs, 0, c, at + p2 - off);
    HoldsWithin(c, at, b, off, end, p3, end);
    ReadMethodsLocal(b, p3, n.virtuals, 0, c, at + p3 - off);
  }

  // ----- edits to code offsets -----

  /** The same method up to its code offset and pending item. */
  predicate SameMethod(m: EncodedMethod, n: EncodedMethod) {
    m.methodIdx == n.methodIdx && m.accessFlags == n.accessFlags
  }

  predicate SameMethods(ms: seq<EncodedMethod>, ns: seq<EncodedMethod>) {
    |ms| == |ns| && forall i :: 0 <= i < |ms| ==> SameMethod(ms[i], ns[i])
  }

  /** The same four lists: indices, flags and order. */
  predicate SameLists(c: ClassItem, d: ClassItem) {
    && c.staticFields == d.staticFields && c.instanceFields == d.instanceFields
    && SameMethods(c.directMethods, d.directMethods)
    && SameMethods(c.virtualMethods, d.virtualMethods)
  }

  lemma {:induction false} SameMethodsAscend(ms: seq<EncodedMethod>, ns: seq<EncodedMethod>, last: u32)
    requires SameMethods(ms, ns) && MethodsAscend(ms, last)
    ensures MethodsAscend(ns, last)
    decreases |ms|
  {
    if ms != [] {
      assert SameMethod(ms[0], ns[0]);
      forall i | 0 <= i < |ms[1..]| ensures SameMethod(ms[1..][i], ns[1..][i]) {
        assert SameMethod(ms[i + 1], ns[i + 1]);
      }
      SameMethodsAscend(ms[1..], ns[1..], ms[0].methodIdx);
    }
  }

  /** Rewriting code offsets leaves an item encodable, so a parsed item still
      round-trips after arbitrary offset edits. */
  lemma OffsetEditsStayEncodable(c: ClassItem, d: ClassItem)
    requires Encodable(c) && SameLists(c, d)
    requires NothingPending(d.directMethods) && NothingPending(d.virtualMethods)
    ensures Encodable(d)
  {
    SameMethodsAscend(c.directMethods, d.directMethods, 0);
    SameMethodsAscend(c.virtualMethods, d.virtualMethods, 0);
  }

  // ----- the loops -----

  /** `done` in front of what is still to be read. */
  ghost function After<T>(done: seq<T>, rest: Result<(seq<T>, nat)>): Result<(seq<T>, nat)> {
    match rest
    case Err(e) => Err(e)
    case Ok((items, next)) => Ok((done + items, next))
  }

  lemma AfterNothing<T>(rest: Result<(seq<T>, nat)>)
    ensures After([], rest) == rest
  {
    if rest.Ok? {
      assert [] + rest.value.0 == rest.value.0;
    }
  }

  lemma AfterOne<T>(done: seq<T>, item: T, rest: Result<(seq<T>, nat)>)
    ensures After(done, After([item], rest)) == After(done + [item], rest)
  {
    if rest.Ok? {
      assert done + ([item] + rest.value.0) == done + [item] + rest.value.0;
    }
  }

  method TakeField(data: seq<byte>, start: nat, last: u32) returns (r: Result<(EncodedField, nat)>)
    ensures r == ReadField(data, start, last)
  {
    var diff :- TakeUleb(data, start);
    var flags :- TakeUleb(data, diff.1);
    return Ok((EncodedField(SaturatingAdd(last, diff.0), flags.0), flags.1));
  }

  method TakeMethod(data: seq<byte>, start: nat, last: u32) returns (r: Result<(EncodedMethod, nat)>)
    ensures r == ReadMethod(data, start, last)
  {
    var diff :- TakeUleb(data, start);
    var flags :- TakeUleb(data, diff.1);
    var codeOff :- TakeUleb(data, flags.1);
    return Ok((EncodedMethod(SaturatingAdd(last, diff.0), flags.0, codeOff.0, None), codeOff.1));
  }

  method ReadEncodedFieldList(data: seq<byte>, start: nat, count: u32)
    returns (r: Result<(seq<EncodedField>, nat)>)
    requires start <= |data|
    ensures r == ReadFields(data, start, count, 0)
  {
    var fields := [];
    var pos: nat := start;
    var last: u32 := 0;
    AfterNothing(ReadFields(data, start, count, 0));
    for i := 0 to count
      invariant pos <= |data|
      invariant ReadFields(data, start, count, 0) == After(fields, ReadFields(data, pos, count - i, last))
    {
      var one :- TakeField(data, pos, last);
      AfterOne(fields, one.0, ReadFields(data, one.1, count - i - 1, one.0.fieldIdx));
      fields := fields + [one.0];
      last, pos := one.0.fieldIdx, one.1;
    }
    assert fields + [] == fields;
    return Ok((fields, pos));
  }

  method ReadEncodedMethodList(data: seq<byte>, start: nat, count: u32)
    returns (r: Result<(seq<EncodedMethod>, nat)>)
    requires start <= |data|
    ensures r == ReadMethods(data, start, count, 0)
  {
    var methods := [];
    var pos: nat := start;
    var last: u32 := 0;
    AfterNothing(ReadMethods(data, start, count, 0));
    for i := 0 to count
      invariant pos <= |data|
      invariant ReadMethods(data, start, count, 0) == After(methods, ReadMethods(data, pos, count - i, last))
    {
      var one :- TakeMethod(data, pos, last);
      AfterOne(methods, one.0, ReadMethods(data, one.1, count - i - 1, one.0.methodIdx));
      methods := methods + [one.0];
      last, pos := one.0.methodIdx, one.1;
    }
    assert methods + [] == methods;
    return Ok((methods, pos));
  }

  method TakeCounts(data: seq<byte>, start: nat) returns (r: Result<(Counts, nat)>)
    ensures r == ReadCounts(data, start)
  {
    var statics :- TakeUleb(data, start);
    var instances :- TakeUleb(data, statics.1);
    var directs :- TakeUleb(data, instances.1);
    var virtuals :- TakeUleb(data, directs.1);
    return Ok((Counts(statics.0, instances.0, directs.0, virtuals.0), virtuals.1));
  }

  /** `parse_class_data_end`. */
  method ParseClassDataEnd(data: seq<byte>, off: u32) returns (r: Result<(ClassItem, nat)>)
    ensures r == ParseClassData(data, off)
  {
    var n :- TakeCounts(data, off);
    var statics :- ReadEncodedFieldList(data, n.1, n.0.statics);
    var instances :- ReadEncodedFieldList(data, statics.1, n.0.instances);
    var directs :- ReadEncodedMethodList(data, instances.1, n.0.directs);
    var virtuals :- ReadEncodedMethodList(data, directs.1, n.0.virtuals);
    return Ok((ClassItem(statics.0, instances.0, directs.0, virtuals.0), virtuals.1));
  }

  method PushFields(buf: seq<byte>, fields: seq<EncodedField>) returns (r: seq<byte>)
    ensures r == buf + EncodeFields(fields, 0)
  {
    r := buf;
    var previous: u32 := 0;
    for i := 0 to |fields|
      invariant r + EncodeFields(fields[i..], previous) == buf + EncodeFields(fields, 0)
    {
      assert fields[i..][1..] == fields[i + 1..];
      assert r + EncodeFields(fields[i..], previous)
          == r + EncodeUleb(SaturatingSub(fields[i].fieldIdx, previous)) + EncodeUleb(fields[i].accessFlags)
             + EncodeFields(fields[i + 1..], fields[i].fieldIdx);
      r := PushUleb(r, SaturatingSub(fields[i].fieldIdx, previous));
      r := PushUleb(r, fields[i].accessFlags);
      previous := fields[i].fieldIdx;
    }
  }

  method PushMethods(buf: seq<byte>, methods: seq<EncodedMethod>) returns (r: seq<byte>)
    ensures r == buf + EncodeMethods(methods, 0)
  {
    r := buf;
    var previous: u32 := 0;
    for i := 0 to |methods|
      invariant r + EncodeMethods(methods[i..], previous) == buf + EncodeMethods(methods, 0)
    {
      assert methods[i..][1..] == methods[i + 1..];
      assert r + EncodeMethods(methods[i..], previous)
          == r + EncodeUleb(SaturatingSub(methods[i].methodIdx, previous)) + EncodeUleb(methods[i].accessFlags)
             + EncodeUleb(methods[i].codeOff) + EncodeMethods(methods[i + 1..], methods[i].methodIdx);
      r := PushUleb(r, SaturatingSub(methods[i].methodIdx, previous));
      r := PushUleb(r, methods[i].accessFlags);
      r := PushUleb(r, methods[i].codeOff);
      previous := methods[i].methodIdx;
    }
  }

  /** `encode_class_data`. */
  method EncodeClassItem(c: ClassItem) returns (buf: seq<byte>)
    ensures buf == EncodeClassData(c)
  {
    buf := [];
    buf := PushUleb(buf, |c.staticFields| % 0x1_0000_0000);
    buf := PushUleb(buf, |c.instanceFields| % 0x1_0000_0000);
    buf := PushUleb(buf, |c.directMethods| % 0x1_0000_0000);
    buf := PushUleb(buf, |c.virtualMethods| % 0x1_0000_0000);
    assert buf == EncodeCounts(c);
    buf := PushFields(buf, c.staticFields);
    buf := PushFields(buf, c.instanceFields);
    buf := PushMethods(buf, c.directMethods);
    buf := PushMethods(buf, c.virtualMethods);
  }
}
