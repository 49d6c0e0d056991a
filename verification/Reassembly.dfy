/**
  Reassembling one DEX from chunks: what has been received, when chunks
  contradict each other, and when the file is whole.
 */
module Reassembly {
  import opened Bytes
  import opened Intervals

  datatype Chunk = Chunk(offset: u32, payload: seq<byte>) {
    function End(): nat {
      offset + |payload|
    }

    /** Not empty, and inside a file of `total` bytes. */
    predicate Fits(total: u32) {
      payload != [] && End() <= total
    }

    predicate Has(x: int) {
      offset <= x < End()
    }
  }

  datatype Pending = Pending(total: u32, intervals: seq<Interval>, buf: seq<byte>)

  function NewPending(total: u32): Pending {
    Pending(total, [], Zeros(total))
  }

  /** Coverage is canonical and inside a buffer of the announced size. */
  ghost predicate PendingValid(p: Pending) {
    |p.buf| == p.total && Canonical(p.intervals) && Within(p.intervals, p.total)
  }

  /** The chunk differs from bytes already received in `iv`. */
  predicate Differs(p: Pending, iv: Interval, c: Chunk) {
    var left, right := Max(iv.0, c.offset), Min(iv.1, c.End());
    left < right <= |p.buf| && p.buf[left..right] != c.payload[left - c.offset..right - c.offset]
  }

  predicate Conflicts(p: Pending, c: Chunk) {
    exists i :: 0 <= i < |p.intervals| && Differs(p, p.intervals[i], c)
  }

  /** Copy a chunk in and record it; one that does not fit the buffer is left
      out. */
  function Place(p: Pending, c: Chunk): Pending {
    if c.End() <= |p.buf| && c.End() <= U32_MAX then
      p.(intervals := Recorded(p.intervals, c.offset, c.End()), buf := Patch(p.buf, c.offset, c.payload))
    else p
  }

  predicate Whole(p: Pending) {
    IsComplete(p.intervals, p.total)
  }

  // ----- the buffer agrees with history -----

  ghost predicate InChunks(chunks: seq<Chunk>, x: int) {
    exists c :: c in chunks && c.Has(x)
  }

  ghost predicate HoldsChunk(p: Pending, c: Chunk) {
    Holds(p.buf, c.offset, c.payload)
  }

  /** Coverage is exactly the union of the accepted chunks, and the buffer holds
      every one of them. */
  ghost predicate History(p: Pending, chunks: seq<Chunk>) {
    && (forall c :: c in chunks ==> HoldsChunk(p, c))
    && (forall x :: Covered(p.intervals, x) <==> InChunks(chunks, x))
  }

  /** Contradiction, byte by byte. */
  lemma ConflictIs(p: Pending, c: Chunk)
    requires PendingValid(p) && c.Fits(p.total)
    ensures Conflicts(p, c) <==> exists x :: Covered(p.intervals, x) && c.Has(x) && p.buf[x] != c.payload[x - c.offset]
  {
    if Conflicts(p, c) {
      var i :| 0 <= i < |p.intervals| && Differs(p, p.intervals[i], c);
      DiffersSomewhere(p, i, c);
    }
    if x :| Covered(p.intervals, x) && c.Has(x) && p.buf[x] != c.payload[x - c.offset] {
      var i :| 0 <= i < |p.intervals| && p.intervals[i].0 <= x < p.intervals[i].1;
      DiffersAt(p, i, c, x);
    }
  }

  lemma DiffersSomewhere(p: Pending, i: nat, c: Chunk)
    requires PendingValid(p) && c.Fits(p.total) && i < |p.intervals| && Differs(p, p.intervals[i], c)
    ensures exists x :: Covered(p.intervals, x) && c.Has(x) && p.buf[x] != c.payload[x - c.offset]
  {
    var iv := p.intervals[i];
    var left, right := Max(iv.0, c.offset), Min(iv.1, c.End());
    var mine, theirs := p.buf[left..right], c.payload[left - c.offset..right - c.offset];
    var k :| 0 <= k < |mine| && mine[k] != theirs[k];
    var x := left + k;
    CoveredAt(p.intervals, i, x);
    assert mine[k] == p.buf[x] && theirs[k] == c.payload[x - c.offset];
    assert c.Has(x);
  }

  lemma DiffersAt(p: Pending, i: nat, c: Chunk, x: int)
    requires PendingValid(p) && c.Fits(p.total) && i < |p.intervals|
    requires p.intervals[i].0 <= x < p.intervals[i].1 && c.Has(x) && p.buf[x] != c.payload[x - c.offset]
    ensures Differs(p, p.intervals[i], c)
  {
    var iv := p.intervals[i];
    var left, right := Max(iv.0, c.offset), Min(iv.1, c.End());
    var mine, theirs := p.buf[left..right], c.payload[left - c.offset..right - c.offset];
    assert mine[x - left] == p.buf[x] && theirs[x - left] == c.payload[x - c.offset];
  }

  lemma HeldByte(p: Pending, c: Chunk, x: int)
    requires HoldsChunk(p, c) && c.Has(x)
    ensures x < |p.buf| && p.buf[x] == c.payload[x - c.offset]
  {
    assert p.buf[c.offset..c.offset + |c.payload|][x - c.offset] == p.buf[x];
  }

  lemma HeldBytes(buf: seq<byte>, c: Chunk)
    requires c.End() <= |buf| && forall x :: c.Has(x) ==> buf[x] == c.payload[x - c.offset]
    ensures Holds(buf, c.offset, c.payload)
  {
    var w := buf[c.offset..c.offset + |c.payload|];
    forall k | 0 <= k < |w| ensures w[k] == c.payload[k] {
      assert c.Has(c.offset + k);
    }
  }

  /** Accepting a chunk that contradicts nothing extends the history by it. */
  lemma PlaceKeepsHistory(p: Pending, chunks: seq<Chunk>, c: Chunk)
    requires PendingValid(p) && c.Fits(p.total) && History(p, chunks) && !Conflicts(p, c)
    ensures PendingValid(Place(p, c)) && History(Place(p, c), chunks + [c])
  {
    hide Conflicts, Covered, Canonical, Recorded, Holds;
    var q := Place(p, c);
    RecordExact(p.intervals, c.offset, c.End());
    CoveredWithin(p.intervals, p.total);
    CoveredWithin(q.intervals, p.total);
    assert forall d :: d in chunks + [c] <==> d in chunks || d == c;
    forall d | d in chunks + [c]
      ensures HoldsChunk(q, d)
    {
      PlacedHolds(p, chunks, c, d);
    }
    forall x
      ensures Covered(q.intervals, x) <==> InChunks(chunks + [c], x)
    {
      InChunksJoin(chunks, c, x);
    }
  }

  lemma InChunksJoin(chunks: seq<Chunk>, c: Chunk, x: int)
    ensures InChunks(chunks + [c], x) <==> InChunks(chunks, x) || c.Has(x)
  {
    assert forall d :: d in chunks + [c] <==> d in chunks || d == c;
  }

  lemma PlacedHolds(p: Pending, chunks: seq<Chunk>, c: Chunk, d: Chunk)
    requires PendingValid(p) && c.Fits(p.total) && History(p, chunks) && !Conflicts(p, c)
    requires d in chunks || d == c
    ensures HoldsChunk(Place(p, c), d)
  {
    hide Conflicts, Covered, Canonical, Recorded;
    var q := Place(p, c);
    ConflictIs(p, c);
    if d in chunks {
      assert HoldsChunk(p, d);
      HoldsLength(p.buf, d.offset, d.payload);
      forall x | d.Has(x)
        ensures q.buf[x] == d.payload[x - d.offset]
      {
        HeldByte(p, d, x);
        assert InChunks(chunks, x);
      }
    }
    HeldBytes(q.buf, d);
  }

  lemma NewHistory(total: u32)
    ensures PendingValid(NewPending(total)) && History(NewPending(total), [])
  {
  }

  // ----- assembling a stream -----

  datatype Assembly = Contradiction | Growing(pending: Pending) | Complete(bytes: seq<byte>)

  /** Feed chunks to a pending entry until it is whole or contradicted. */
  function Assemble(p: Pending, chunks: seq<Chunk>): Assembly
    decreases |chunks|
  {
    if chunks == [] then Growing(p)
    else if Conflicts(p, chunks[0]) then Contradiction
    else
      var q := Place(p, chunks[0]);
      if Whole(q) then Complete(q.buf) else Assemble(q, chunks[1..])
  }

  /** No two chunks disagree on a byte they share. */
  ghost predicate ConflictFree(chunks: seq<Chunk>) {
    forall c, d :: c in chunks && d in chunks ==> Compatible(c, d)
  }

  ghost predicate Compatible(c: Chunk, d: Chunk) {
    forall x :: c.Has(x) && d.Has(x) ==> c.payload[x - c.offset] == d.payload[x - d.offset]
  }

  ghost predicate AllFit(chunks: seq<Chunk>, total: u32) {
    forall c :: c in chunks ==> c.Fits(total)
  }

  ghost predicate Covering(chunks: seq<Chunk>, total: u32) {
    forall x :: 0 <= x < total ==> InChunks(chunks, x)
  }

  ghost predicate Agrees(file: seq<byte>, c: Chunk) {
    Holds(file, c.offset, c.payload)
  }

  /** The file all chunks are pieces of. */
  ghost function ByteOf(chunks: seq<Chunk>, x: int): byte {
    if InChunks(chunks, x) then
      var c :| c in chunks && c.Has(x);
      c.payload[x - c.offset]
    else 0
  }

  ghost function FileOf(chunks: seq<Chunk>, total: nat): (file: seq<byte>)
    ensures |file| == total
  {
    seq(total, x => ByteOf(chunks, x))
  }

  lemma FileAgrees(chunks: seq<Chunk>, total: u32, c: Chunk)
    requires ConflictFree(chunks) && AllFit(chunks, total) && c in chunks
    ensures Agrees(FileOf(chunks, total), c)
  {
    var file := FileOf(chunks, total);
    forall x | c.Has(x)
      ensures file[x] == c.payload[x - c.offset]
    {
      assert InChunks(chunks, x);
      assert file[x] == ByteOf(chunks, x);
      var d :| d in chunks && d.Has(x) && ByteOf(chunks, x) == d.payload[x - d.offset];
      assert Compatible(c, d);
    }
    HeldBytes(file, c);
  }

  /** A buffer that holds pieces of `file` has its bytes wherever it is covered. */
  lemma HistoryOfFile(p: Pending, chunks: seq<Chunk>, file: seq<byte>, x: int)
    requires PendingValid(p) && History(p, chunks) && forall c :: c in chunks ==> Agrees(file, c)
    requires Covered(p.intervals, x)
    ensures 0 <= x < |p.buf| && x < |file| && p.buf[x] == file[x]
  {
    hide Covered, Canonical;
    var c :| c in chunks && c.Has(x);
    HeldByte(p, c, x);
    assert file[c.offset..c.offset + |c.payload|][x - c.offset] == file[x];
  }

  lemma PieceNeverConflicts(p: Pending, chunks: seq<Chunk>, file: seq<byte>, c: Chunk)
    requires PendingValid(p) && History(p, chunks) && forall d :: d in chunks ==> Agrees(file, d)
    requires c.Fits(p.total) && Agrees(file, c)
    ensures !Conflicts(p, c)
  {
    hide Covered, Canonical, Conflicts;
    ConflictIs(p, c);
    forall x | Covered(p.intervals, x) && c.Has(x)
      ensures p.buf[x] == c.payload[x - c.offset]
    {
      HistoryOfFile(p, chunks, file, x);
      assert file[c.offset..c.offset + |c.payload|][x - c.offset] == file[x];
    }
  }

  lemma WholeIsFile(p: Pending, chunks: seq<Chunk>, file: seq<byte>)
    requires PendingValid(p) && p.total > 0 && History(p, chunks) && |file| == p.total
    requires forall c :: c in chunks ==> Agrees(file, c)
    ensures Whole(p) <==> Covering(chunks, p.total)
    ensures Whole(p) ==> p.buf == file
  {
    hide Covered, Canonical, IsComplete;
    CompleteExact(p.intervals, p.total);
    if Whole(p) {
      forall x | 0 <= x < p.total ensures p.buf[x] == file[x] {
        HistoryOfFile(p, chunks, file, x);
      }
    }
  }

  /** Pieces of one file never contradict, and once they cover it, in whatever
      order, the entry completes with that file. */
  lemma {:induction false} PiecesAssemble(p: Pending, seen: seq<Chunk>, chunks: seq<Chunk>, file: seq<byte>)
    requires PendingValid(p) && p.total > 0 && |file| == p.total && History(p, seen)
    requires forall c :: c in seen ==> Agrees(file, c)
    requires forall c :: c in chunks ==> Agrees(file, c) && c.Fits(p.total)
    ensures Assemble(p, chunks) != Contradiction
    ensures Assemble(p, chunks).Complete? ==> Assemble(p, chunks).bytes == file
    ensures Covering(seen + chunks, p.total) && !Whole(p) ==> Assemble(p, chunks).Complete?
    decreases |chunks|
  {
    hide Covered, Canonical, Conflicts, Place, Whole, Covering, History, Agrees;
    if chunks == [] {
      assert seen + chunks == seen;
      WholeIsFile(p, seen, file);
    } else {
      var c := chunks[0];
      assert c in chunks;
      PieceNeverConflicts(p, seen, file, c);
      PlaceKeepsHistory(p, seen, c);
      var q := Place(p, c);
      PlaceTotal(p, c);
      assert forall d :: d in seen + [c] <==> d in seen || d == c;
      WholeIsFile(q, seen + [c], file);
      assert forall d :: d in chunks[1..] ==> d in chunks;
      PiecesAssemble(q, seen + [c], chunks[1..], file);
      assert seen + [c] + chunks[1..] == seen + chunks;
    }
  }

  lemma PlaceTotal(p: Pending, c: Chunk)
    ensures Place(p, c).total == p.total
  {
  }

  /** Reassembly is order-independent: any permutation of a conflict-free
      covering set of chunks completes, with the same bytes. */
  lemma OrderIndependent(total: u32, xs: seq<Chunk>, ys: seq<Chunk>)
    requires total > 0 && AllFit(xs, total) && ConflictFree(xs) && Covering(xs, total)
    requires multiset(xs) == multiset(ys)
    ensures Assemble(NewPending(total), xs).Complete?
    ensures Assemble(NewPending(total), ys) == Assemble(NewPending(total), xs)
    ensures forall c :: c in xs ==> Holds(Assemble(NewPending(total), xs).bytes, c.offset, c.payload)
  {
    hide Covering, History, PendingValid, Assemble, Agrees, ConflictFree, FileOf;
    var file := FileOf(xs, total);
    NewHistory(total);
    forall c | c in xs ensures Agrees(file, c) {
      FileAgrees(xs, total, c);
    }
    assert forall c :: c in ys <==> c in xs by {
      assert forall c :: (c in ys <==> c in multiset(ys)) && (c in xs <==> c in multiset(xs));
    }
    SameCover(xs, ys, total);
    NewIsNotWhole(total);
    assert [] + xs == xs && [] + ys == ys;
    PiecesAssemble(NewPending(total), [], xs, file);
    PiecesAssemble(NewPending(total), [], ys, file);
    AgreesHolds(file, xs);
  }

  lemma AgreesHolds(file: seq<byte>, xs: seq<Chunk>)
    requires forall c :: c in xs ==> Agrees(file, c)
    ensures forall c :: c in xs ==> Holds(file, c.offset, c.payload)
  {
    assert forall c :: Agrees(file, c) ==> Holds(file, c.offset, c.payload);
  }

  lemma SameCover(xs: seq<Chunk>, ys: seq<Chunk>, total: u32)
    requires Covering(xs, total) && forall c :: c in ys <==> c in xs
    ensures Covering(ys, total)
  {
    forall x | 0 <= x < total ensures InChunks(ys, x) {
      assert InChunks(xs, x);
    }
  }

  lemma NewIsNotWhole(total: u32)
    ensures !Whole(NewPending(total))
  {
  }

  // ----- the object -----

  /** `DexRecvState`. */
  class DexRecvState {
    const total: u32
    var intervals: seq<Interval>
    var buf: seq<byte>

    /** The state as a value. */
    ghost function Value(): Pending
      reads this
    {
      Pending(total, intervals, buf)
    }

    constructor (p: Pending)
      ensures Value() == p
    {
      total, intervals, buf := p.total, p.intervals, p.buf;
    }

    method Record(start: u32, end: u32)
      modifies this`intervals
      ensures intervals == Recorded(old(intervals), start, end)
    {
      intervals := RecordLoop(intervals, start, end);
    }

    method IsWhole() returns (whole: bool)
      ensures whole == Whole(Value())
    {
      return |intervals| == 1 && intervals[0].0 == 0 && intervals[0].1 >= total;
    }

    method ConflictsWith(c: Chunk) returns (conflict: bool)
      ensures conflict == Conflicts(Value(), c)
    {
      hide Differs;
      for i := 0 to |intervals|
        invariant forall j :: 0 <= j < i ==> !Differs(Value(), intervals[j], c)
      {
        if Differs(Pending(total, intervals, buf), intervals[i], c) {
          return true;
        }
      }
      return false;
    }

    /** Copy a chunk in and record what it covers. */
    method Accept(c: Chunk)
      modifies this
      ensures Value() == Place(old(Value()), c)
    {
      if c.End() <= |buf| && c.End() <= U32_MAX {
        buf := Patch(buf, c.offset, c.payload);
        Record(c.offset, c.End());
      }
    }
  }
}
