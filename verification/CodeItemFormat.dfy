/**
  What a `code_item` is, told by an encoder: registers, instructions, try items
  and the handlers they name. Finding the end of an item accepts exactly the
  bytes that show such a structure.
 */
module CodeItemFormat {
  import opened Bytes
  import opened Leb128
  import opened CodeItem

  /** An `encoded_catch_handler`: the types it catches, each with the address of
      its code, and where everything else goes. */
  datatype Handler = Handler(catches: seq<(u32, u32)>, catchAll: Option<u32>)

  /** Instructions `[start, start + count)` are covered by handler number
      `handler` of the list. */
  datatype TryItem = TryItem(start: u32, count: u16, handler: nat)

  datatype Item = Item(
    registers: u16,
    ins: u16,
    outs: u16,
    debugInfo: u32,
    insns: seq<byte>,
    tries: seq<TryItem>,
    handlers: seq<Handler>)

  // ----- the encoder -----

  /** The size of a handler: negative or zero announces a catch-all. */
  function SizeOf(h: Handler): int {
    if h.catchAll.Some? then -(|h.catches| as int) else |h.catches|
  }

  function EncodePairs(pairs: seq<(u32, u32)>): seq<byte> {
    if pairs == [] then [] else EncodeUleb(pairs[0].0) + EncodeUleb(pairs[0].1) + EncodePairs(pairs[1..])
  }

  function EncodeHandler(h: Handler): (s: seq<byte>)
    ensures |s| > 0
  {
    EncodeSleb(SizeOf(h)) + EncodePairs(h.catches)
    + match h.catchAll
      case Some(addr) => EncodeUleb(addr)
      case None => []
  }

  function EncodeHandlers(hs: seq<Handler>): seq<byte> {
    if hs == [] then [] else EncodeHandler(hs[0]) + EncodeHandlers(hs[1..])
  }

  /** Where handler `k` starts in the encoded list, its count included. */
  function HandlerAt(hs: seq<Handler>, k: nat): nat
    requires k < |hs|
  {
    |EncodeUleb(|hs|)| + |EncodeHandlers(hs[..k])|
  }

  function EncodeTry(t: TryItem, hs: seq<Handler>): (s: seq<byte>)
    requires t.handler < |hs|
    ensures |s| == 8
  {
    PutLe32(t.start) + PutLe16(t.count) + PutLe16(HandlerAt(hs, t.handler) % 0x1_0000)
  }

  function EncodeTries(ts: seq<TryItem>, hs: seq<Handler>): (s: seq<byte>)
    requires forall t :: t in ts ==> t.handler < |hs|
    ensures |s| == 8 * |ts|
  {
    if ts == [] then [] else EncodeTry(ts[0], hs) + EncodeTries(ts[1..], hs)
  }

  function EncodeHeader(it: Item): (s: seq<byte>)
    ensures |s| == CODE_ITEM_HEADER_SIZE
  {
    PutLe16(it.registers) + PutLe16(it.ins) + PutLe16(it.outs) + PutLe16(|it.tries| % 0x1_0000)
    + PutLe32(it.debugInfo) + PutLe32(Wrap32(|it.insns| / 2))
  }

  /** Tries and handlers, after two bytes of padding if the instructions are odd
      in number. */
  function EncodeTail(it: Item): seq<byte>
    requires Valid(it)
  {
    if it.tries == [] then []
    else
      Zeros(Align4(|it.insns|) - |it.insns|) + EncodeTries(it.tries, it.handlers)
      + EncodeUleb(|it.handlers|) + EncodeHandlers(it.handlers)
  }

  function EncodeItem(it: Item): seq<byte>
    requires Valid(it)
  {
    EncodeHeader(it) + it.insns + EncodeTail(it)
  }

  // ----- valid items -----

  predicate Below(h: Handler, units: nat) {
    && (forall i :: 0 <= i < |h.catches| ==> h.catches[i].1 < units)
    && (h.catchAll.Some? ==> h.catchAll.value < units)
  }

  predicate AllBelow(hs: seq<Handler>, units: nat) {
    forall i :: 0 <= i < |hs| ==> Below(hs[i], units)
  }

  /** A handler catches something; its size fits an `i32`. */
  predicate Sized(h: Handler) {
    (h.catches != [] || h.catchAll.Some?) && |h.catches| < 0x8000_0000
  }

  predicate ValidHandlers(hs: seq<Handler>, units: nat) {
    |hs| <= U32_MAX && AllBelow(hs, units) && forall i :: 0 <= i < |hs| ==> Sized(hs[i])
  }

  predicate TryCovers(t: TryItem, hs: seq<Handler>, units: nat) {
    t.start + t.count <= units && t.handler < |hs| && HandlerAt(hs, t.handler) <= U16_MAX
  }

  predicate Valid(it: Item) {
    && |it.insns| % 2 == 0 && |it.insns| / 2 <= U32_MAX && |it.tries| <= U16_MAX
    && ValidHandlers(it.handlers, |it.insns| / 2)
    && forall t :: t in it.tries ==> TryCovers(t, it.handlers, |it.insns| / 2)
  }

  // ----- every valid item is found whole -----

  lemma {:induction false} PairsFound(b: seq<byte>, pos: nat, pairs: seq<(u32, u32)>, units: nat)
    requires pos <= |b| && Holds(b, pos, EncodePairs(pairs))
    requires forall i :: 0 <= i < |pairs| ==> pairs[i].1 < units
    ensures SkipPairs(b, pos, |pairs|, units) == Ok(pos + |EncodePairs(pairs)|)
    decreases |pairs|
  {
    hide ReadUleb128, EncodeUleb, Holds;
    if pairs != [] {
      var typ, addr, rest := EncodeUleb(pairs[0].0), EncodeUleb(pairs[0].1), EncodePairs(pairs[1..]);
      HoldsSplit(b, pos, typ + addr, rest);
      HoldsSplit(b, pos, typ, addr);
      UlebRoundTrip(b, pos, pairs[0].0);
      UlebRoundTrip(b, pos + |typ|, pairs[0].1);
      HoldsLength(b, pos + |typ + addr|, rest);
      assert forall i :: 0 <= i < |pairs[1..]| ==> pairs[1..][i] == pairs[i + 1];
      PairsFound(b, pos + |typ + addr|, pairs[1..], units);
    }
  }

  lemma HandlerFound(b: seq<byte>, pos: nat, h: Handler, units: nat)
    requires Sized(h) && Below(h, units) && Holds(b, pos, EncodeHandler(h))
    ensures SkipHandler(b, pos, units) == Ok(pos + |EncodeHandler(h)|)
  {
    hide ReadUleb128, ReadSleb128, EncodeUleb, EncodeSleb, Holds, EncodePairs, SkipPairs;
    var size, pairs := EncodeSleb(SizeOf(h)), EncodePairs(h.catches);
    var last := if h.catchAll.Some? then EncodeUleb(h.catchAll.value) else [];
    assert EncodeHandler(h) == size + pairs + last;
    HoldsSplit(b, pos, size + pairs, last);
    HoldsSplit(b, pos, size, pairs);
    SlebRoundTrip(b, pos, SizeOf(h));
    HoldsLength(b, pos + |size|, pairs);
    PairsFound(b, pos + |size|, h.catches, units);
    if h.catchAll.Some? {
      UlebRoundTrip(b, pos + |size + pairs|, h.catchAll.value);
    }
  }

  /** Where the handlers from `at` on start, the list lying `base` bytes in. */
  function Starts(hs: seq<Handler>, base: nat): (s: set<nat>)
  {
    if hs == [] then {} else {base} + Starts(hs[1..], base + |EncodeHandler(hs[0])|)
  }

  lemma {:induction false} HandlersFound(b: seq<byte>, base: nat, pos: nat, hs: seq<Handler>, units: nat)
    requires base <= pos <= |b| && ValidHandlers(hs, units) && Holds(b, pos, EncodeHandlers(hs))
    ensures SkipHandlers(b, base, pos, |hs|, units) == Ok((Starts(hs, pos - base), pos + |EncodeHandlers(hs)|))
    decreases |hs|
  {
    hide SkipHandler, EncodeHandler, Holds, Sized, Below;
    if hs != [] {
      HoldsSplit(b, pos, EncodeHandler(hs[0]), EncodeHandlers(hs[1..]));
      HandlerFound(b, pos, hs[0], units);
      HoldsLength(b, pos + |EncodeHandler(hs[0])|, EncodeHandlers(hs[1..]));
      assert forall i :: 0 <= i < |hs[1..]| ==> hs[1..][i] == hs[i + 1];
      HandlersFound(b, base, pos + |EncodeHandler(hs[0])|, hs[1..], units);
    }
  }

  lemma {:induction false} StartOf(hs: seq<Handler>, base: nat, k: nat)
    requires k < |hs|
    ensures base + |EncodeHandlers(hs[..k])| in Starts(hs, base)
    decreases k
  {
    hide EncodeHandler;
    if k > 0 {
      assert hs[1..][..k - 1] == hs[..k][1..];
      StartOf(hs[1..], base + |EncodeHandler(hs[0])|, k - 1);
    }
  }

  lemma {:induction false} TriesFound(b: seq<byte>, start: nat, ts: seq<TryItem>, hs: seq<Handler>, units: nat, known: set<nat>)
    requires forall t :: t in ts ==> t.handler < |hs| && TryCovers(t, hs, units) && HandlerAt(hs, t.handler) in known
    requires Holds(b, start, EncodeTries(ts, hs))
    ensures start + 8 * |ts| <= |b| && ValidTries(b, start, |ts|, units, known)
    decreases |ts|
  {
    hide Holds, TryCovers, HandlerAt, EncodeTry, ValidTry;
    HoldsLength(b, start, EncodeTries(ts, hs));
    if ts != [] {
      assert ts[0] in ts && forall t :: t in ts[1..] ==> t in ts;
      HoldsSplit(b, start, EncodeTry(ts[0], hs), EncodeTries(ts[1..], hs));
      TryFound(b, start, ts[0], hs, units, known);
      TriesFound(b, start + 8, ts[1..], hs, units, known);
      forall i | 0 <= i < |ts| ensures NthTryValid(b, start, i, units, known) {
        if i > 0 {
          assert NthTryValid(b, start + 8, i - 1, units, known);
        }
      }
    }
  }

  lemma TryIndices(ts: seq<TryItem>, hs: seq<Handler>, units: nat)
    requires forall t :: t in ts ==> TryCovers(t, hs, units)
    ensures forall t :: t in ts ==> t.handler < |hs|
  {
    hide HandlerAt;
  }

  lemma TryFound(b: seq<byte>, at: nat, t: TryItem, hs: seq<Handler>, units: nat, known: set<nat>)
    requires TryCovers(t, hs, units) && HandlerAt(hs, t.handler) in known && Holds(b, at, EncodeTry(t, hs))
    ensures at + 8 <= |b| && ValidTry(b, at, units, known)
  {
    hide Holds, HandlerAt, PutLe16, PutLe32, Le16, Le32;
    HoldsLength(b, at, EncodeTry(t, hs));
    HoldsSplit(b, at, PutLe32(t.start) + PutLe16(t.count), PutLe16(HandlerAt(hs, t.handler) % 0x1_0000));
    HoldsSplit(b, at, PutLe32(t.start), PutLe16(t.count));
    HeldLe32(b, at, t.start);
    HeldLe16(b, at + 4, t.count);
    HeldLe16(b, at + 6, HandlerAt(hs, t.handler));
  }

  lemma HeaderFound(b: seq<byte>, off: nat, it: Item)
    requires Valid(it) && Holds(b, off, EncodeHeader(it))
    ensures off + 16 <= |b| && Le16(b, off + 6) == |it.tries| && Le32(b, off + 12) == |it.insns| / 2
  {
    hide Holds, PutLe16, PutLe32, Le16, Le32, ValidHandlers, TryCovers;
    HoldsLength(b, off, EncodeHeader(it));
    var front := PutLe16(it.registers) + PutLe16(it.ins) + PutLe16(it.outs);
    var tries, debug, units := PutLe16(|it.tries| % 0x1_0000), PutLe32(it.debugInfo), PutLe32(Wrap32(|it.insns| / 2));
    assert EncodeHeader(it) == front + tries + debug + units;
    HoldsSplit(b, off, front + tries + debug, units);
    HoldsSplit(b, off, front + tries, debug);
    HoldsSplit(b, off, front, tries);
    HeldLe16(b, off + 6, |it.tries| % 0x1_0000);
    HeldLe32(b, off + 12, Wrap32(|it.insns| / 2));
  }

  lemma TailFound(b: seq<byte>, start: nat, it: Item)
    requires Valid(it) && it.tries != [] && forall t :: t in it.tries ==> t.handler < |it.handlers|
    requires Holds(b, start, EncodeTries(it.tries, it.handlers) + EncodeUleb(|it.handlers|) + EncodeHandlers(it.handlers))
    ensures TriesEnd(b, start, |it.tries|, |it.insns| / 2)
            == Ok(start + |EncodeTries(it.tries, it.handlers) + EncodeUleb(|it.handlers|) + EncodeHandlers(it.handlers)|)
  {
    hide Holds, ReadUleb128, EncodeUleb, EncodeHandlers, EncodeTries, SkipHandlers, ValidTries, Starts, TryCovers, ValidHandlers;
    var ts, hs, units := it.tries, it.handlers, |it.insns| / 2;
    var table, count, list := EncodeTries(ts, hs), EncodeUleb(|hs|), EncodeHandlers(hs);
    HoldsSplit(b, start, table + count, list);
    HoldsSplit(b, start, table, count);
    var base := start + |table|;
    assert |hs| <= U32_MAX by { HandlersFit(hs, units); }
    UlebRoundTrip(b, base, |hs|);
    HoldsLength(b, base + |count|, list);
    HandlersFound(b, base, base + |count|, hs, units);
    forall t | t in ts ensures TryCovers(t, hs, units) && HandlerAt(hs, t.handler) in Starts(hs, |count|) {
      assert t.handler < |hs|;
      StartOf(hs, |count|, t.handler);
    }
    TriesFound(b, start, ts, hs, units, Starts(hs, |count|));
  }

  lemma HandlersFit(hs: seq<Handler>, units: nat)
    requires ValidHandlers(hs, units)
    ensures |hs| <= U32_MAX
  {
  }

  /** The front of an encoded item, and where the rest of it lies. */
  lemma FrontFound(b: seq<byte>, off: nat, it: Item)
    requires Valid(it) && Holds(b, off, EncodeItem(it))
    ensures off + 16 + |it.insns| <= |b| && b[off + 16..off + 16 + |it.insns|] == it.insns
    ensures Le16(b, off + 6) == |it.tries| && Le32(b, off + 12) == |it.insns| / 2
    ensures Holds(b, off + 16 + |it.insns|, EncodeTail(it))
  {
    hide Le16, Le32, EncodeHeader, EncodeTail, Valid;
    HoldsSplit(b, off, EncodeHeader(it) + it.insns, EncodeTail(it));
    HoldsSplit(b, off, EncodeHeader(it), it.insns);
    HeaderFound(b, off, it);
  }

  /** Every valid item, at any nonzero aligned offset of any buffer, ends exactly
      where its encoding does, and its instructions are those encoded. */
  lemma ItemFound(b: seq<byte>, off: u32, it: Item)
    requires Valid(it) && off != 0 && off % 4 == 0 && Holds(b, off, EncodeItem(it))
    ensures CodeItemEnd(b, off) == Ok(off + |EncodeItem(it)|)
    ensures InsnsLen(b, off) == Some(|it.insns|) && off + 16 + |it.insns| <= |b| && b[off + 16..off + 16 + |it.insns|] == it.insns
  {
    hide Le16, Le32, EncodeHeader, EncodeTries, EncodeUleb, EncodeHandlers, TriesEnd, Align4, ValidHandlers, TryCovers, Holds;
    FrontFound(b, off, it);
    TryIndices(it.tries, it.handlers, |it.insns| / 2);
    if it.tries != [] {
      var pad := Zeros(Align4(|it.insns|) - |it.insns|);
      var rest := EncodeTries(it.tries, it.handlers) + EncodeUleb(|it.handlers|) + EncodeHandlers(it.handlers);
      assert EncodeTail(it) == pad + rest;
      HoldsSplit(b, off + 16 + |it.insns|, pad, rest);
      Align4Shift(off + 16, |it.insns|);
      TailFound(b, Align4(off + 16 + |it.insns|), it);
    }
  }

  // ----- whatever is accepted shows an item -----

  /** The pairs `pairs` are written at `pos`, in whatever encoding, up to `next`. */
  ghost predicate ShowsPairs(b: seq<byte>, pos: nat, pairs: seq<(u32, u32)>, next: nat)
    decreases |pairs|
  {
    if pairs == [] then next == pos
    else
      && ReadUleb128(b, pos).Ok? && ReadUleb128(b, pos).value.0 == pairs[0].0
      && var p := ReadUleb128(b, pos).value.1;
      && ReadUleb128(b, p).Ok? && ReadUleb128(b, p).value.0 == pairs[0].1
      && ShowsPairs(b, ReadUleb128(b, p).value.1, pairs[1..], next)
  }

  ghost predicate ShowsHandler(b: seq<byte>, pos: nat, h: Handler, next: nat) {
    && Sizable(h) && ReadSleb128(b, pos).Ok? && ReadSleb128(b, pos).value.0 == SizeOf(h)
    && exists p ::
         && ShowsPairs(b, ReadSleb128(b, pos).value.1, h.catches, p)
         && match h.catchAll
            case Some(addr) => ReadUleb128(b, p) == Ok((addr, next))
            case None => next == p
  }

  /** A handler's size tells whether it has a catch-all. */
  predicate Sizable(h: Handler) {
    h.catches != [] || h.catchAll.Some?
  }

  ghost predicate ShowsHandlers(b: seq<byte>, at: seq<nat>, hs: seq<Handler>) {
    |at| == |hs| + 1 && forall k :: 0 <= k < |hs| ==> ShowsHandler(b, at[k], hs[k], at[k + 1])
  }

  /** The try item at `pos` is `t`: it names its handler by where that starts
      after `base`. */
  ghost predicate ShowsTry(b: seq<byte>, pos: nat, t: TryItem, base: nat, at: seq<nat>) {
    && pos + 8 <= |b| && t.handler < |at| && base <= at[t.handler]
    && Le32(b, pos) == t.start && Le16(b, pos + 4) == t.count && Le16(b, pos + 6) == at[t.handler] - base
  }

  ghost predicate ShowsTries(b: seq<byte>, start: nat, ts: seq<TryItem>, base: nat, at: seq<nat>) {
    forall i :: 0 <= i < |ts| ==> ShowsTry(b, start + 8 * i, ts[i], base, at)
  }

  /** Tries at `start`, then the count of the handlers and the handlers, the last
      of them ending at `end`. */
  ghost predicate ShowsTail(b: seq<byte>, start: nat, ts: seq<TryItem>, hs: seq<Handler>, at: seq<nat>, end: nat) {
    var base := start + 8 * |ts|;
    && ShowsHandlers(b, at, hs) && at[|hs|] == end
    && ReadUleb128(b, base) == Ok((|hs|, at[0]))
    && ShowsTries(b, start, ts, base, at[..|hs|])
  }

  /** The bytes from `off` to `end` are those of `it`, numbers being allowed
      longer encodings than they need. */
  ghost predicate ShowsItem(b: seq<byte>, off: nat, it: Item, at: seq<nat>, end: nat) {
    && off + 16 + |it.insns| <= |b| && |it.insns| % 2 == 0
    && Le16(b, off) == it.registers && Le16(b, off + 2) == it.ins && Le16(b, off + 4) == it.outs
    && Le16(b, off + 6) == |it.tries| && Le32(b, off + 8) == it.debugInfo && Le32(b, off + 12) == |it.insns| / 2
    && b[off + 16..off + 16 + |it.insns|] == it.insns
    && if it.tries == [] then end == off + 16 + |it.insns|
       else ShowsTail(b, Align4(off + 16 + |it.insns|), it.tries, it.handlers, at, end)
  }

  /** Every try covers instructions, and every handler leads to one. */
  predicate Inside(it: Item) {
    it.tries != [] ==>
      && AllBelow(it.handlers, |it.insns| / 2)
      && forall i :: 0 <= i < |it.tries| ==> it.tries[i].start + it.tries[i].count <= |it.insns| / 2
  }

  lemma {:induction false} PairsShown(b: seq<byte>, pos: nat, pairs: seq<(u32, u32)>, next: nat, units: nat)
    requires pos <= |b| && ShowsPairs(b, pos, pairs, next)
    requires forall i :: 0 <= i < |pairs| ==> pairs[i].1 < units
    ensures SkipPairs(b, pos, |pairs|, units) == Ok(next)
    decreases |pairs|
  {
    hide ReadUleb128;
    if pairs != [] {
      assert forall i :: 0 <= i < |pairs[1..]| ==> pairs[1..][i] == pairs[i + 1];
      PairsShown(b, ReadUleb128(b, ReadUleb128(b, pos).value.1).value.1, pairs[1..], next, units);
    }
  }

  lemma {:induction false} ReadPairs(b: seq<byte>, pos: nat, count: nat, units: nat) returns (pairs: seq<(u32, u32)>)
    requires pos <= |b| && SkipPairs(b, pos, count, units).Ok?
    ensures |pairs| == count && ShowsPairs(b, pos, pairs, SkipPairs(b, pos, count, units).value)
    ensures forall i :: 0 <= i < |pairs| ==> pairs[i].1 < units
    decreases count
  {
    hide ReadUleb128;
    pairs := [];
    if count > 0 {
      var (typ, p1) := ReadUleb128(b, pos).value;
      var (addr, p2) := ReadUleb128(b, p1).value;
      var more := ReadPairs(b, p2, count - 1, units);
      pairs := [(typ, addr)] + more;
      assert pairs[1..] == more;
    }
  }

  lemma HandlerShown(b: seq<byte>, pos: nat, h: Handler, next: nat, units: nat)
    requires ShowsHandler(b, pos, h, next) && Below(h, units)
    ensures SkipHandler(b, pos, units) == Ok(next)
  {
    hide ReadUleb128, ReadSleb128, ShowsPairs, SkipPairs;
    var p1 := ReadSleb128(b, pos).value.1;
    var p :| ShowsPairs(b, p1, h.catches, p)
             && match h.catchAll
                case Some(addr) => ReadUleb128(b, p) == Ok((addr, next))
                case None => next == p;
    PairsShown(b, p1, h.catches, p, units);
  }

  lemma ReadHandler(b: seq<byte>, pos: nat, units: nat) returns (h: Handler)
    requires SkipHandler(b, pos, units).Ok?
    ensures Below(h, units) && ShowsHandler(b, pos, h, SkipHandler(b, pos, units).value)
  {
    hide ReadUleb128, ReadSleb128, ShowsPairs, SkipPairs;
    var (size, p1) := ReadSleb128(b, pos).value;
    var pairs := ReadPairs(b, p1, Magnitude(size), units);
    var p2 := SkipPairs(b, p1, Magnitude(size), units).value;
    h := Handler(pairs, if size > 0 then None else Some(ReadUleb128(b, p2).value.0));
    assert ShowsPairs(b, p1, h.catches, p2);
  }

  lemma {:induction false} HandlersShown(b: seq<byte>, base: nat, at: seq<nat>, hs: seq<Handler>, units: nat)
    requires ShowsHandlers(b, at, hs) && AllBelow(hs, units) && base <= at[0] <= |b|
    ensures SkipHandlers(b, base, at[0], |hs|, units).Ok?
    ensures SkipHandlers(b, base, at[0], |hs|, units).value.1 == at[|hs|]
    ensures forall k :: 0 <= k < |hs| ==>
              base <= at[k] && at[k] - base in SkipHandlers(b, base, at[0], |hs|, units).value.0
    decreases |hs|
  {
    hide SkipHandler, ShowsHandler, Below;
    if hs != [] {
      HandlerShown(b, at[0], hs[0], at[1], units);
      HandlersShown(b, base, at[1..], hs[1..], units);
      forall k | 0 <= k < |hs|
        ensures base <= at[k] && at[k] - base in SkipHandlers(b, base, at[0], |hs|, units).value.0
      {
        if k > 0 {
          assert at[1..][k - 1] == at[k];
        }
      }
    }
  }

  lemma {:induction false} ReadHandlers(b: seq<byte>, base: nat, pos: nat, count: nat, units: nat)
    returns (hs: seq<Handler>, at: seq<nat>)
    requires base <= pos <= |b| && SkipHandlers(b, base, pos, count, units).Ok?
    ensures |hs| == count && ShowsHandlers(b, at, hs) && AllBelow(hs, units) && at[0] == pos
    ensures at[count] == SkipHandlers(b, base, pos, count, units).value.1
    ensures forall x :: x in SkipHandlers(b, base, pos, count, units).value.0 ==>
              exists k :: 0 <= k < count && at[k] == base + x
    decreases count
  {
    hide SkipHandler, ShowsHandler, Below;
    hs, at := [], [pos];
    if count > 0 {
      var h := ReadHandler(b, pos, units);
      var p1 := SkipHandler(b, pos, units).value;
      var hs', at' := ReadHandlers(b, base, p1, count - 1, units);
      hs, at := [h] + hs', [pos] + at';
      forall x | x in SkipHandlers(b, base, pos, count, units).value.0
        ensures exists k :: 0 <= k < count && at[k] == base + x
      {
        if x != pos - base {
          var k :| 0 <= k < count - 1 && at'[k] == base + x;
          assert at[k + 1] == base + x;
        } else {
          assert at[0] == base + x;
        }
      }
    }
  }

  lemma TailShown(b: seq<byte>, start: nat, ts: seq<TryItem>, hs: seq<Handler>, at: seq<nat>, end: nat, units: nat)
    requires ShowsTail(b, start, ts, hs, at, end) && AllBelow(hs, units)
    requires forall i :: 0 <= i < |ts| ==> ts[i].start + ts[i].count <= units
    ensures TriesEnd(b, start, |ts|, units) == Ok(end)
  {
    hide ReadUleb128, SkipHandlers, ShowsHandlers, AllBelow;
    var base := start + 8 * |ts|;
    ShownCount(b, at, hs);
    HandlersShown(b, base, at, hs, units);
    var known := SkipHandlers(b, base, at[0], |hs|, units).value.0;
    forall i | 0 <= i < |ts| ensures start + 8 * i + 8 <= |b| && NthTryValid(b, start, i, units, known) {
      assert ShowsTry(b, start + 8 * i, ts[i], base, at[..|hs|]);
    }
  }

  /** One try item, read. */
  lemma ReadTry(b: seq<byte>, pos: nat, units: nat, known: set<nat>, base: nat, at: seq<nat>) returns (t: TryItem)
    requires pos + 8 <= |b| && ValidTry(b, pos, units, known)
    requires forall x :: x in known ==> exists k :: 0 <= k < |at| && at[k] == base + x
    ensures ShowsTry(b, pos, t, base, at) && t.start + t.count <= units
  {
    hide Le16, Le32;
    var k :| 0 <= k < |at| && at[k] == base + Le16(b, pos + 6);
    t := TryItem(Le32(b, pos), Le16(b, pos + 4), k);
  }

  lemma ReadTries(b: seq<byte>, start: nat, count: nat, units: nat, known: set<nat>, base: nat, at: seq<nat>)
    returns (ts: seq<TryItem>)
    requires start + 8 * count <= |b| && ValidTries(b, start, count, units, known)
    requires forall x :: x in known ==> exists k :: 0 <= k < |at| && at[k] == base + x
    ensures |ts| == count && ShowsTries(b, start, ts, base, at)
    ensures forall i :: 0 <= i < count ==> ts[i].start + ts[i].count <= units
  {
    hide ValidTry, ShowsTry;
    ts := [];
    while |ts| < count
      invariant |ts| <= count && ShowsTries(b, start, ts, base, at)
      invariant forall i :: 0 <= i < |ts| ==> ts[i].start + ts[i].count <= units
    {
      assert NthTryValid(b, start, |ts|, units, known);
      var t := ReadTry(b, start + 8 * |ts|, units, known, base, at);
      ts := ts + [t];
    }
  }

  lemma ReadTail(b: seq<byte>, start: nat, count: nat, units: nat)
    returns (ts: seq<TryItem>, hs: seq<Handler>, at: seq<nat>)
    requires TriesEnd(b, start, count, units).Ok?
    ensures |ts| == count && ShowsTail(b, start, ts, hs, at, TriesEnd(b, start, count, units).value)
    ensures AllBelow(hs, units) && forall i :: 0 <= i < |ts| ==> ts[i].start + ts[i].count <= units
  {
    hide ReadUleb128, SkipHandlers, ShowsHandlers, AllBelow, ShowsTries, ValidTries;
    var base := start + 8 * count;
    var (n, p1) := ReadUleb128(b, base).value;
    hs, at := ReadHandlers(b, base, p1, n, units);
    assert |at| == n + 1 by { ShownCount(b, at, hs); }
    var known := SkipHandlers(b, base, p1, n, units).value.0;
    forall x | x in known ensures exists k :: 0 <= k < |at[..n]| && at[..n][k] == base + x {
      var k :| 0 <= k < n && at[k] == base + x;
      assert at[..n][k] == base + x;
    }
    ts := ReadTries(b, start, count, units, known, base, at[..n]);
  }

  lemma ShownCount(b: seq<byte>, at: seq<nat>, hs: seq<Handler>)
    requires ShowsHandlers(b, at, hs)
    ensures |at| == |hs| + 1
  {
  }

  /** Where an item that is written out ends. */
  lemma ShownItemEnds(b: seq<byte>, off: u32, it: Item, at: seq<nat>, end: nat)
    requires off != 0 && off % 4 == 0 && ShowsItem(b, off, it, at, end) && Inside(it)
    ensures CodeItemEnd(b, off) == Ok(end)
  {
    hide Le16, Le32, ShowsTail, TriesEnd, AllBelow, Align4;
    if it.tries != [] {
      TailShown(b, Align4(off + 16 + |it.insns|), it.tries, it.handlers, at, end, |it.insns| / 2);
    }
  }

  lemma ReadItem(b: seq<byte>, off: u32) returns (it: Item, at: seq<nat>)
    requires CodeItemEnd(b, off).Ok?
    ensures ShowsItem(b, off, it, at, CodeItemEnd(b, off).value) && Inside(it)
  {
    hide Le16, Le32, ShowsTail, TriesEnd, AllBelow, Align4;
    var len := InsnsLen(b, off).value;
    var ts, hs := [], [];
    at := [];
    if Le16(b, off + 6) != 0 {
      ts, hs, at := ReadTail(b, Align4(off + 16 + len), Le16(b, off + 6), len / 2);
    }
    it := Item(Le16(b, off), Le16(b, off + 2), Le16(b, off + 4), Le32(b, off + 8), b[off + 16..off + 16 + len], ts, hs);
  }

  /** An offset is accepted, with this end, exactly when a whole item is written
      between the two, its tries covering its own instructions and naming its
      own handlers, every handler address inside. */
  lemma AcceptedIsItem(b: seq<byte>, off: u32, end: nat)
    ensures CodeItemEnd(b, off) == Ok(end)
       <==> off != 0 && off % 4 == 0 && exists it, at :: ShowsItem(b, off, it, at, end) && Inside(it)
  {
    hide ShowsItem, Inside, CodeItemEnd;
    if CodeItemEnd(b, off) == Ok(end) {
      var it, at := ReadItem(b, off);
      AcceptedAligned(b, off);
      assert ShowsItem(b, off, it, at, end) && Inside(it);
    }
    if off != 0 && off % 4 == 0 && exists it, at :: ShowsItem(b, off, it, at, end) && Inside(it) {
      var it, at :| ShowsItem(b, off, it, at, end) && Inside(it);
      ShownItemEnds(b, off, it, at, end);
    }
  }

  lemma AcceptedAligned(b: seq<byte>, off: u32)
    requires CodeItemEnd(b, off).Ok?
    ensures off != 0 && off % 4 == 0
  {
  }
}
