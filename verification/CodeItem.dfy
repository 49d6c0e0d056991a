/**
  `code_item`: finding where one ends, through its padding, try table and
  handler list, and the fact that the answer does not depend on where it lies.
 */
module CodeItem {
  import opened Bytes
  import opened Leb128

  const CODE_ITEM_HEADER_SIZE: nat := 16

  /** Bytes of the `insns` array of the item at `off`, when header and array
      lie wholly inside the file. */
  function InsnsLen(b: seq<byte>, off: u32): (r: Option<nat>)
    ensures r.Some? ==> off != 0 && off + CODE_ITEM_HEADER_SIZE + r.value <= |b| && r.value % 2 == 0
  {
    if off == 0 || off + CODE_ITEM_HEADER_SIZE > |b| then None
    else
      var len := 2 * Le32(b, off + 12);
      if off + CODE_ITEM_HEADER_SIZE + len <= |b| then Some(len) else None
  }

  /** `count` pairs of a type index and a handler address below `units`. */
  function SkipPairs(b: seq<byte>, pos: nat, count: nat, units: nat): (r: Result<nat>)
    requires pos <= |b|
    ensures r.Ok? ==> pos <= r.value <= |b|
    decreases count
  {
    if count == 0 then Ok(pos)
    else
      var (typ, p1) :- ReadUleb128(b, pos);
      var (addr, p2) :- ReadUleb128(b, p1);
      if addr < units then SkipPairs(b, p2, count - 1, units) else Err(InvalidCodeItem)
  }

  function Magnitude(n: int): nat {
    if n < 0 then -n else n
  }

  /** One `encoded_catch_handler`; a non-positive size announces a catch-all. */
  function SkipHandler(b: seq<byte>, pos: nat, units: nat): (r: Result<nat>)
    ensures r.Ok? ==> pos < r.value <= |b|
  {
    var (size, p1) :- ReadSleb128(b, pos);
    var p2 :- SkipPairs(b, p1, Magnitude(size), units);
    if size > 0 then Ok(p2)
    else
      var (addr, p3) :- ReadUleb128(b, p2);
      if addr < units then Ok(p3) else Err(InvalidCodeItem)
  }

  /** `count` handlers, collecting where each starts relative to `base`. */
  function SkipHandlers(b: seq<byte>, base: nat, pos: nat, count: nat, units: nat): (r: Result<(set<nat>, nat)>)
    requires base <= pos <= |b|
    ensures r.Ok? ==> pos <= r.value.1 <= |b|
    decreases count
  {
    if count == 0 then Ok(({}, pos))
    else
      var p1 :- SkipHandler(b, pos, units);
      var (rest, end) :- SkipHandlers(b, base, p1, count - 1, units);
      Ok(({pos - base} + rest, end))
  }

  /** The try item at `at` covers instructions and names a known handler. */
  predicate ValidTry(b: seq<byte>, at: nat, units: nat, handlers: set<nat>)
    requires at + 8 <= |b|
  {
    Le32(b, at) + Le16(b, at + 4) <= units && Le16(b, at + 6) in handlers
  }

  predicate NthTryValid(b: seq<byte>, start: nat, i: nat, units: nat, handlers: set<nat>)
    requires start + 8 * i + 8 <= |b|
  {
    ValidTry(b, start + 8 * i, units, handlers)
  }

  predicate ValidTries(b: seq<byte>, start: nat, count: nat, units: nat, handlers: set<nat>)
    requires start + 8 * count <= |b|
  {
    forall i :: 0 <= i < count ==> NthTryValid(b, start, i, units, handlers)
  }

  /** Where the try table and handler list that follow the padded body end. */
  function TriesEnd(b: seq<byte>, start: nat, tries: nat, units: nat): (r: Result<nat>)
    ensures r.Ok? ==> start + 8 * tries < r.value <= |b|
  {
    var base := start + 8 * tries;
    if base >= |b| then Err(InvalidCodeItem)
    else
      var (count, p1) :- ReadUleb128(b, base);
      var (handlers, end) :- SkipHandlers(b, base, p1, count, units);
      if ValidTries(b, start, tries, units, handlers) then Ok(end) else Err(InvalidCodeItem)
  }

  /** The end of the whole item, padding, tries and handlers included. */
  function CodeItemEnd(b: seq<byte>, off: u32): (r: Result<nat>)
    ensures r.Ok? ==> off != 0 && off % 4 == 0 && off + CODE_ITEM_HEADER_SIZE <= r.value <= |b|
    ensures r.Ok? ==> InsnsLen(b, off).Some? && off + CODE_ITEM_HEADER_SIZE + InsnsLen(b, off).value <= r.value
  {
    if off == 0 || off % 4 != 0 then Err(InvalidCodeItem)
    else
      match InsnsLen(b, off)
      case None => Err(InvalidCodeItem)
      case Some(len) =>
        var body := off + CODE_ITEM_HEADER_SIZE + len;
        if Le16(b, off + 6) == 0 then Ok(body)
        else TriesEnd(b, Align4(body), Le16(b, off + 6), len / 2)
  }

  // ----- the answer is local -----

  lemma {:induction false} SkipPairsLocal(b: seq<byte>, pos: nat, count: nat, units: nat, c: seq<byte>, at: nat)
    requires pos <= |b| && SkipPairs(b, pos, count, units).Ok?
    requires Holds(c, at, b[pos..SkipPairs(b, pos, count, units).value])
    ensures at <= |c|
    ensures SkipPairs(c, at, count, units) == Ok(at + SkipPairs(b, pos, count, units).value - pos)
    decreases count
  {
    hide ReadUleb128;
    var end := SkipPairs(b, pos, count, units).value;
    if count > 0 {
      hide Holds;
      var p1 := ReadUleb128(b, pos).value.1;
      var p2 := ReadUleb128(b, p1).value.1;
      assert p2 <= end;
      HoldsWithin(c, at, b, pos, end, pos, p1);
      ReadUlebLocal(b, pos, c, at);
      HoldsWithin(c, at, b, pos, end, p1, p2);
      ReadUlebLocal(b, p1, c, at + p1 - pos);
      HoldsWithin(c, at, b, pos, end, p2, end);
      SkipPairsLocal(b, p2, count - 1, units, c, at + p2 - pos);
    }
  }

  lemma SkipHandlerLocal(b: seq<byte>, pos: nat, units: nat, c: seq<byte>, at: nat)
    requires SkipHandler(b, pos, units).Ok?
    requires Holds(c, at, b[pos..SkipHandler(b, pos, units).value])
    ensures SkipHandler(c, at, units) == Ok(at + SkipHandler(b, pos, units).value - pos)
  {
    hide ReadUleb128, ReadSleb128, SkipPairs, Holds;
    var end := SkipHandler(b, pos, units).value;
    var (size, p1) := ReadSleb128(b, pos).value;
    var p2 := SkipPairs(b, p1, Magnitude(size), units).value;
    HoldsWithin(c, at, b, pos, end, pos, p1);
    ReadSlebLocal(b, pos, c, at);
    HoldsWithin(c, at, b, pos, end, p1, p2);
    SkipPairsLocal(b, p1, Magnitude(size), units, c, at + p1 - pos);
    if size <= 0 {
      HoldsWithin(c, at, b, pos, end, p2, end);
      ReadUlebLocal(b, p2, c, at + p2 - pos);
    }
  }

  lemma {:induction false} SkipHandlersLocal(
    b: seq<byte>, base: nat, pos: nat, count: nat, units: nat, c: seq<byte>, base': nat, at: nat)
    requires base <= pos <= |b| && SkipHandlers(b, base, pos, count, units).Ok?
    requires base' <= at && at - base' == pos - base
    requires Holds(c, at, b[pos..SkipHandlers(b, base, pos, count, units).value.1])
    ensures at <= |c|
    ensures SkipHandlers(c, base', at, count, units)
            == Ok((SkipHandlers(b, base, pos, count, units).value.0,
                   at + SkipHandlers(b, base, pos, count, units).value.1 - pos))
    decreases count
  {
    hide SkipHandler;
    var end := SkipHandlers(b, base, pos, count, units).value.1;
    if count > 0 {
      hide Holds;
      var p1 := SkipHandler(b, pos, units).value;
      HoldsWithin(c, at, b, pos, end, pos, p1);
      SkipHandlerLocal(b, pos, units, c, at);
      HoldsWithin(c, at, b, pos, end, p1, end);
      SkipHandlersLocal(b, base, p1, count - 1, units, c, base', at + p1 - pos);
    }
  }

  lemma ValidTriesLocal(
    b: seq<byte>, start: nat, count: nat, units: nat, handlers: set<nat>, c: seq<byte>, start': nat, end: nat)
    requires start + 8 * count <= end <= |b|
    requires Holds(c, start', b[start..end])
    ensures start' + 8 * count <= |c|
    ensures ValidTries(c, start', count, units, handlers) == ValidTries(b, start, count, units, handlers)
  {
    forall i | 0 <= i < count
      ensures start' + 8 * i + 8 <= |c|
      ensures NthTryValid(c, start', i, units, handlers) == NthTryValid(b, start, i, units, handlers)
    {
      HoldsLe32(c, start', b, start, end, start + 8 * i);
      HoldsLe16(c, start', b, start, end, start + 8 * i + 4);
      HoldsLe16(c, start', b, start, end, start + 8 * i + 6);
    }
  }

  lemma TriesEndLocal(b: seq<byte>, start: nat, tries: nat, units: nat, c: seq<byte>, at: nat)
    requires TriesEnd(b, start, tries, units).Ok?
    requires Holds(c, at, b[start..TriesEnd(b, start, tries, units).value])
    ensures TriesEnd(c, at, tries, units) == Ok(at + TriesEnd(b, start, tries, units).value - start)
  {
    hide ReadUleb128, SkipHandlers, ValidTries;
    var end := TriesEnd(b, start, tries, units).value;
    var base := start + 8 * tries;
    var base' := at + 8 * tries;
    var (count, p1) := ReadUleb128(b, base).value;
    var handlers := SkipHandlers(b, base, p1, count, units).value.0;
    ValidTriesLocal(b, start, tries, units, handlers, c, at, end);
    hide Holds;
    HoldsWithin(c, at, b, start, end, base, p1);
    ReadUlebLocal(b, base, c, base');
    HoldsWithin(c, at, b, start, end, p1, end);
    SkipHandlersLocal(b, base, p1, count, units, c, base', base' + p1 - base);
    HoldsByte(c, at, b, start, end, base);
  }

  /** `c` carries, from `at`, what `CodeItemEnd` looks at in the `len` bytes of
      the item at `off`: the try count, and everything from the instruction
      count on. The other header fields may differ. */
  ghost predicate SameShape(b: seq<byte>, off: nat, len: nat, c: seq<byte>, at: nat) {
    && CODE_ITEM_HEADER_SIZE <= len && off + len <= |b| && at + len <= |c|
    && Holds(c, at + 6, b[off + 6..off + 8])
    && Holds(c, at + 12, b[off + 12..off + len])
  }

  /** The end of an item depends on nothing outside it, nor on where it lies:
      any buffer with the same item at any nonzero aligned offset gives the
      same length, address checks included. */
  lemma CodeItemEndLocal(b: seq<byte>, off: u32, c: seq<byte>, at: u32)
    requires CodeItemEnd(b, off).Ok?
    requires at != 0 && at % 4 == 0
    requires SameShape(b, off, CodeItemEnd(b, off).value - off, c, at)
    ensures CodeItemEnd(c, at) == Ok(at + CodeItemEnd(b, off).value - off)
    ensures InsnsLen(c, at) == InsnsLen(b, off)
  {
    hide TriesEnd, Holds, Align4, Le16, Le32;
    var end := CodeItemEnd(b, off).value;
    HoldsLe16(c, at + 6, b, off + 6, off + 8, off + 6);
    HoldsLe32(c, at + 12, b, off + 12, end, off + 12);
    var len := InsnsLen(b, off).value;
    var body := off + CODE_ITEM_HEADER_SIZE + len;
    if Le16(b, off + 6) != 0 {
      var start := Align4(body);
      Align4Shift(at, CODE_ITEM_HEADER_SIZE + len);
      Align4Shift(off, CODE_ITEM_HEADER_SIZE + len);
      HoldsWithin(c, at + 12, b, off + 12, end, start, end);
      TriesEndLocal(b, start, Le16(b, off + 6), len / 2, c, at + start - off);
    }
  }

  lemma SameBytesSameShape(b: seq<byte>, off: nat, len: nat, c: seq<byte>, at: nat)
    requires CODE_ITEM_HEADER_SIZE <= len && off + len <= |b|
    requires Holds(c, at, b[off..off + len])
    ensures SameShape(b, off, len, c, at)
  {
    HoldsWithin(c, at, b, off, off + len, off + 6, off + 8);
    HoldsWithin(c, at, b, off, off + len, off + 12, off + len);
  }

  // ----- the loops -----

  /** `take_uleb` calls over one handler list entry. */
  method WalkPairs(b: seq<byte>, start: nat, count: nat, units: nat) returns (r: Result<nat>)
    requires start <= |b|
    ensures r == SkipPairs(b, start, count, units)
  {
    hide ReadUleb128;
    var pos: nat := start;
    for i := 0 to count
      invariant pos <= |b|
      invariant SkipPairs(b, start, count, units) == SkipPairs(b, pos, count - i, units)
    {
      var typ :- TakeUleb(b, pos);
      var addr :- TakeUleb(b, typ.1);
      if addr.0 >= units {
        return Err(InvalidCodeItem);
      }
      pos := addr.1;
    }
    return Ok(pos);
  }

  method WalkHandler(b: seq<byte>, start: nat, units: nat) returns (r: Result<nat>)
    ensures r == SkipHandler(b, start, units)
  {
    hide ReadUleb128, ReadSleb128, SkipPairs;
    var size :- TakeSleb(b, start);
    var pos :- WalkPairs(b, size.1, Magnitude(size.0), units);
    if size.0 <= 0 {
      var addr :- TakeUleb(b, pos);
      if addr.0 >= units {
        return Err(InvalidCodeItem);
      }
      pos := addr.1;
    }
    return Ok(pos);
  }

  /** The offsets already seen joined to those still to come. */
  ghost function Joined(seen: set<nat>, rest: Result<(set<nat>, nat)>): Result<(set<nat>, nat)> {
    match rest
    case Err(e) => Err(e)
    case Ok((more, end)) => Ok((seen + more, end))
  }

  lemma JoinedOne(seen: set<nat>, one: nat, rest: Result<(set<nat>, nat)>)
    ensures Joined(seen, Joined({one}, rest)) == Joined(seen + {one}, rest)
  {
    if rest.Ok? {
      assert seen + ({one} + rest.value.0) == seen + {one} + rest.value.0;
    }
  }

  lemma JoinedNone(rest: Result<(set<nat>, nat)>)
    ensures Joined({}, rest) == rest
  {
    if rest.Ok? {
      assert {} + rest.value.0 == rest.value.0;
    }
  }

  method WalkHandlers(b: seq<byte>, base: nat, start: nat, count: nat, units: nat) returns (r: Result<(set<nat>, nat)>)
    requires base <= start <= |b|
    ensures r == SkipHandlers(b, base, start, count, units)
  {
    hide SkipHandler;
    var seen: set<nat> := {};
    var pos: nat := start;
    JoinedNone(SkipHandlers(b, base, start, count, units));
    for i := 0 to count
      invariant base <= pos <= |b|
      invariant SkipHandlers(b, base, start, count, units)
             == Joined(seen, SkipHandlers(b, base, pos, count - i, units))
    {
      var next :- WalkHandler(b, pos, units);
      JoinedOne(seen, pos - base, SkipHandlers(b, base, next, count - i - 1, units));
      seen := seen + {pos - base};
      pos := next;
    }
    assert seen + {} == seen;
    return Ok((seen, pos));
  }

  method CheckTries(b: seq<byte>, start: nat, tries: nat, units: nat, handlers: set<nat>) returns (valid: bool)
    requires start + 8 * tries <= |b|
    ensures valid == ValidTries(b, start, tries, units, handlers)
  {
    for i := 0 to tries
      invariant forall j :: 0 <= j < i ==> NthTryValid(b, start, j, units, handlers)
    {
      if !NthTryValid(b, start, i, units, handlers) {
        return false;
      }
    }
    return true;
  }

  /** `code_item_end`. */
  method LocateCodeItemEnd(b: seq<byte>, off: u32) returns (r: Result<nat>)
    ensures r == CodeItemEnd(b, off)
  {
    hide ReadUleb128, SkipHandlers, ValidTries, Align4, Le16;
    if off == 0 || off % 4 != 0 {
      return Err(InvalidCodeItem);
    }
    var insns := InsnsLen(b, off);
    if insns.None? {
      return Err(InvalidCodeItem);
    }
    var units := insns.value / 2;
    var pos := off + CODE_ITEM_HEADER_SIZE + insns.value;
    var tries: nat := Le16(b, off + 6);
    if tries == 0 {
      return Ok(pos);
    }
    var triesStart := Align4(pos);
    pos := triesStart + tries * 8;
    if pos >= |b| {
      return Err(InvalidCodeItem);
    }
    var count :- TakeUleb(b, pos);
    var handlers :- WalkHandlers(b, pos, count.1, count.0, units);
    var valid := CheckTries(b, triesStart, tries, units, handlers.0);
    if !valid {
      return Err(InvalidCodeItem);
    }
    return Ok(handlers.1);
  }
}
