/**
  Reassembly inside the running dumper: whatever order the chunks of a file
  arrive in, and whatever happens to other addresses in between, the same bytes
  end up cached.
 */
module AnyOrder {
  import opened Bytes
  import opened Dex
  import opened Intervals
  import opened Reassembly
  import opened Capture
  import opened CaptureProofs

  // ----- events that leave an address alone -----

  /** The chunks a run delivers for an address, in order. */
  function PiecesFor(events: seq<Event>, key: Key): seq<Chunk> {
    if events == [] then []
    else
      (match events[0]
       case SawChunk(e, _, _) => if e.key == key && e.dataLen <= |e.body| then [PieceOf(e)] else []
       case _ => []) + PiecesFor(events[1..], key)
  }

  /** A chunk of a file of `total` bytes, which may be saved. */
  predicate ChunkFor(e: Event, key: Key, total: u32) {
    e.SawChunk? && e.chunk.key == key && e.chunk.size == total && ChunkInBounds(e.chunk) && e.chunk.dataLen <= |e.chunk.body|
    && !e.skip && e.writeOk
  }

  /** Nothing that takes the address's entry away or reports another size. */
  predicate Elsewhere(e: Event, key: Key, total: u32) {
    match e
    case SawDex(k, size) => k == key ==> size == total
    case SawChunk(chunk, _, _) => chunk.key != key
    case SawMethod(k, size, _, _) => k == key ==> size == total
    case Scanned(pid, begin, _, _, _, _) => pid.Some? ==> Key(pid.value, begin) != key
    case Swept(stale) => key !in stale
    case Sealed => false
    case Flushed(_) => true
  }

  /** The address is as it was, but for its size becoming known. */
  ghost predicate Untouched(s: State, t: State, key: Key, total: u32) {
    && t.sealed == s.sealed
    && (key in t.ambiguous <==> key in s.ambiguous)
    && (key in t.pending <==> key in s.pending) && (key in s.pending ==> t.pending[key] == s.pending[key])
    && (key in t.dexCache <==> key in s.dexCache) && (key in s.dexCache ==> t.dexCache[key] == s.dexCache[key])
    && (key in t.dexSizes ==> t.dexSizes[key] == total || (key in s.dexSizes && t.dexSizes[key] == s.dexSizes[key]))
  }

  lemma UntouchedTrans(s: State, t: State, u: State, key: Key, total: u32)
    requires Untouched(s, t, key, total) && Untouched(t, u, key, total)
    ensures Untouched(s, u, key, total)
  {
  }

  lemma QuarantineElsewhere(s: State, k: Key, key: Key, total: u32)
    requires k != key
    ensures Untouched(s, Quarantine(s, k), key, total)
  {
  }

  lemma SizedUntouched(s: State, k: Key, size: u32, key: Key, total: u32)
    requires k == key ==> size == total
    ensures Untouched(s, Sized(s, k, size), key, total)
  {
  }

  lemma ObserveElsewhere(s: State, k: Key, size: u32, key: Key, total: u32)
    requires k != key
    ensures Untouched(s, Observe(s, k, size), key, total)
  {
    hide Quarantine;
    var next := Sized(s, k, size);
    SizedUntouched(s, k, size, key, total);
    QuarantineElsewhere(s, k, key, total);
    QuarantineElsewhere(next, k, key, total);
    UntouchedTrans(s, next, Quarantine(next, k), key, total);
  }

  lemma ObserveSameSize(s: State, key: Key, total: u32)
    requires ReasonableSize(total) && (key in s.dexSizes ==> s.dexSizes[key] == total)
    ensures Observe(s, key, total) == Sized(s, key, total)
    ensures Untouched(s, Observe(s, key, total), key, total)
  {
    hide Quarantine;
  }

  lemma WriteElsewhere(s: State, k: Key, size: u32, bytes: seq<byte>, env: Env, writeOk: bool, key: Key, total: u32)
    requires k != key
    ensures Untouched(s, WriteDex(s, k, size, bytes, env, writeOk), key, total)
  {
    hide NameOf, WithoutSignatures;
  }

  lemma SaveElsewhere(s: State, pid: Option<u32>, begin: u64, size: u32, bytes: seq<byte>, env: Env, skip: bool, writeOk: bool,
                      key: Key, total: u32)
    requires pid.Some? ==> Key(pid.value, begin) != key
    ensures Untouched(s, SaveDex(s, pid, begin, size, bytes, env, skip, writeOk), key, total)
  {
    hide Observe, Quarantine, WriteDex, OpenDex, Untouched;
    UntouchedRefl(s, key, total);
    if pid.Some? {
      var k := Key(pid.value, begin);
      var seen := Observe(s, k, size);
      var checked := Quarantine(seen, k);
      ObserveElsewhere(s, k, size, key, total);
      QuarantineElsewhere(seen, k, key, total);
      WriteElsewhere(seen, k, size, bytes, env, writeOk, key, total);
      WriteElsewhere(checked, k, size, bytes, env, writeOk, key, total);
      UntouchedTrans(s, seen, checked, key, total);
      UntouchedTrans(s, seen, WriteDex(seen, k, size, bytes, env, writeOk), key, total);
      UntouchedTrans(s, checked, WriteDex(checked, k, size, bytes, env, writeOk), key, total);
    }
  }

  lemma UntouchedRefl(s: State, key: Key, total: u32)
    ensures Untouched(s, s, key, total)
  {
  }

  lemma PendingElsewhere(s: State, pending: map<Key, Pending>, key: Key, total: u32)
    requires (key in pending <==> key in s.pending) && (key in s.pending ==> pending[key] == s.pending[key])
    ensures Untouched(s, s.(pending := pending), key, total)
  {
  }

  lemma AcceptElsewhere(s: State, e: ChunkEvent, c: Chunk, env: Env, skip: bool, writeOk: bool, key: Key, total: u32)
    requires e.key != key
    ensures Untouched(s, AcceptChunk(s, e, c, env, skip, writeOk), key, total)
  {
    hide Quarantine, Conflicts, Place, Whole, SaveDex, PendingFor, Untouched, Repeats;
    UntouchedRefl(s, key, total);
    QuarantineElsewhere(s, e.key, key, total);
    var q := Place(PendingFor(s, e.key, e.size), c);
    var dropped := s.(pending := s.pending - {e.key});
    PendingElsewhere(s, s.pending[e.key := q], key, total);
    PendingElsewhere(s, dropped.pending, key, total);
    SaveElsewhere(dropped, Some(e.key.pid), e.key.begin, e.size, q.buf, env, skip, writeOk, key, total);
    UntouchedTrans(s, dropped, SaveDex(dropped, Some(e.key.pid), e.key.begin, e.size, q.buf, env, skip, writeOk), key, total);
  }

  lemma ChunkElsewhere(s: State, e: ChunkEvent, env: Env, skip: bool, writeOk: bool, key: Key, total: u32)
    requires e.key != key
    ensures Untouched(s, HandleChunk(s, e, env, skip, writeOk), key, total)
  {
    hide Observe, AcceptChunk, Untouched;
    UntouchedRefl(s, key, total);
    var seen := Observe(s, e.key, e.size);
    ObserveElsewhere(s, e.key, e.size, key, total);
    if e.dataLen <= |e.body| {
      AcceptElsewhere(seen, e, PieceOf(e), env, skip, writeOk, key, total);
      UntouchedTrans(s, seen, AcceptChunk(seen, e, PieceOf(e), env, skip, writeOk), key, total);
    }
  }

  lemma RecordUntouched(s: State, k: Key, idx: u32, code: seq<byte>, env: Env, key: Key, total: u32)
    ensures Untouched(s, RecordMethod(s, k, idx, code, env), key, total)
  {
    hide MethodName;
  }

  lemma ObserveUntouched(s: State, k: Key, size: u32, key: Key, total: u32)
    requires k == key ==> size == total && ReasonableSize(total) && (key in s.dexSizes ==> s.dexSizes[key] == total)
    ensures Untouched(s, Observe(s, k, size), key, total)
  {
    hide Observe, Untouched;
    if k == key {
      ObserveSameSize(s, key, total);
    } else {
      ObserveElsewhere(s, k, size, key, total);
    }
  }

  lemma StepElsewhere(s: State, e: Event, env: Env, key: Key, total: u32)
    requires Elsewhere(e, key, total) && ReasonableSize(total) && (key in s.dexSizes ==> s.dexSizes[key] == total)
    ensures Untouched(s, Step(s, e, env), key, total)
  {
    hide Observe, HandleChunk, SaveDex, Untouched, RecordMethod;
    match e
    case SawDex(k, size) => ObserveUntouched(s, k, size, key, total);
    case SawChunk(chunk, skip, writeOk) => ChunkElsewhere(s, chunk, env, skip, writeOk, key, total);
    case SawMethod(k, size, idx, code) =>
      var seen := Observe(s, k, size);
      ObserveUntouched(s, k, size, key, total);
      RecordUntouched(seen, k, idx, code, env, key, total);
      UntouchedTrans(s, seen, RecordMethod(seen, k, idx, code, env), key, total);
    case Scanned(pid, begin, size, bytes, skip, writeOk) => SaveElsewhere(s, pid, begin, size, bytes, env, skip, writeOk, key, total);
    case Swept(stale) => PendingElsewhere(s, s.pending - stale, key, total);
    case Flushed(written) => FlushUntouched(s, written, key, total);
  }

  lemma FlushUntouched(s: State, written: set<Key>, key: Key, total: u32)
    ensures Untouched(s, Flush(s, written), key, total)
  {
  }

  // ----- one address, from its first chunk to its file -----

  ghost predicate Known(s: State, key: Key, total: u32) {
    !s.sealed && key !in s.ambiguous && (key in s.dexSizes ==> s.dexSizes[key] == total)
  }

  /** Not yet whole, with the history `seen`. */
  ghost predicate Growing(s: State, key: Key, total: u32, seen: seq<Chunk>) {
    && Known(s, key, total) && key !in s.dexCache
    && var p := PendingFor(s, key, total);
    p.total == total && PendingValid(p) && History(p, seen) && !Whole(p)
  }

  ghost predicate Cached(s: State, key: Key, total: u32, file: seq<byte>) {
    Known(s, key, total) && key in s.dexCache && s.dexCache[key] == file
  }

  lemma UntouchedGrowing(s: State, t: State, key: Key, total: u32, seen: seq<Chunk>)
    requires Growing(s, key, total, seen) && Untouched(s, t, key, total)
    ensures Growing(t, key, total, seen)
  {
    hide PendingValid, History, Whole;
  }

  lemma UntouchedCached(s: State, t: State, key: Key, total: u32, file: seq<byte>)
    requires Cached(s, key, total, file) && Untouched(s, t, key, total)
    ensures Cached(t, key, total, file)
  {
  }

  lemma PieceRepeats(file: seq<byte>, c: Chunk)
    requires Agrees(file, c)
    ensures Repeats(file, c)
  {
  }

  lemma CachedChunk(s: State, e: ChunkEvent, env: Env, skip: bool, writeOk: bool, file: seq<byte>)
    requires Cached(s, e.key, e.size, file) && ChunkInBounds(e) && e.dataLen <= |e.body| && Agrees(file, PieceOf(e))
    ensures Cached(HandleChunk(s, e, env, skip, writeOk), e.key, e.size, file)
  {
    hide Observe, Quarantine, Conflicts, Place, Whole, SaveDex, PendingFor, Agrees;
    ObserveSameSize(s, e.key, e.size);
    PieceRepeats(file, PieceOf(e));
  }

  lemma SaveCaches(s: State, pid: u32, begin: u64, size: u32, bytes: seq<byte>, env: Env)
    requires Known(s, Key(pid, begin), size) && Key(pid, begin) !in s.dexCache && ReasonableSize(size) && OpenDex(bytes).Ok?
    ensures Cached(SaveDex(s, Some(pid), begin, size, bytes, env, false, true), Key(pid, begin), size, bytes)
  {
    hide Observe, OpenDex, Quarantine;
    ObserveSameSize(s, Key(pid, begin), size);
  }

  /** One more piece of the file: the entry grows, or its file is cached. */
  lemma GrowingChunk(s: State, e: ChunkEvent, env: Env, seen: seq<Chunk>, file: seq<byte>)
    requires Growing(s, e.key, e.size, seen) && ChunkInBounds(e) && e.dataLen <= |e.body| && Agrees(file, PieceOf(e))
    requires (forall c :: c in seen ==> Agrees(file, c)) && |file| == e.size && OpenDex(file).Ok?
    ensures var t := HandleChunk(s, e, env, false, true);
            Growing(t, e.key, e.size, seen + [PieceOf(e)]) || Cached(t, e.key, e.size, file)
  {
    hide Observe, Quarantine, Conflicts, Place, Whole, SaveDex, Agrees, OpenDex, PendingValid, History, Covered;
    var c := PieceOf(e);
    ObserveSameSize(s, e.key, e.size);
    var seenState := Observe(s, e.key, e.size);
    var p := PendingFor(s, e.key, e.size);
    assert PendingFor(seenState, e.key, e.size) == p;
    assert c.Fits(p.total);
    PieceNeverConflicts(p, seen, file, c);
    PlaceKeepsHistory(p, seen, c);
    PlaceTotal(p, c);
    var q := Place(p, c);
    assert forall d :: d in seen + [c] <==> d in seen || d == c;
    WholeIsFile(q, seen + [c], file);
    var dropped := seenState.(pending := seenState.pending - {e.key});
    if Whole(q) {
      SaveCaches(dropped, e.key.pid, e.key.begin, e.size, file, env);
    }
  }

  // ----- over a run -----

  ghost predicate Feeds(events: seq<Event>, key: Key, total: u32) {
    forall e :: e in events ==> ChunkFor(e, key, total) || Elsewhere(e, key, total)
  }

  lemma PieceFirst(events: seq<Event>, key: Key, total: u32)
    requires events != [] && (ChunkFor(events[0], key, total) || Elsewhere(events[0], key, total))
    ensures PiecesFor(events, key)
            == (if ChunkFor(events[0], key, total) then [PieceOf(events[0].chunk)] else []) + PiecesFor(events[1..], key)
  {
  }

  lemma {:induction false} StaysCached(s: State, events: seq<Event>, env: Env, key: Key, total: u32, file: seq<byte>)
    requires Cached(s, key, total, file) && Feeds(events, key, total) && ReasonableSize(total)
    requires forall c :: c in PiecesFor(events, key) ==> Agrees(file, c)
    ensures Cached(Run(s, events, env), key, total, file)
    decreases |events|
  {
    hide Step, Cached, Agrees, PiecesFor;
    if events != [] {
      var e := events[0];
      assert e in events && forall d :: d in events[1..] ==> d in events;
      PieceFirst(events, key, total);
      NextCached(s, e, env, key, total, file);
      StaysCached(Step(s, e, env), events[1..], env, key, total, file);
    }
  }

  lemma NextCached(s: State, e: Event, env: Env, key: Key, total: u32, file: seq<byte>)
    requires Cached(s, key, total, file) && ReasonableSize(total)
    requires Elsewhere(e, key, total) || (ChunkFor(e, key, total) && Agrees(file, PieceOf(e.chunk)))
    ensures Cached(Step(s, e, env), key, total, file)
  {
    hide HandleChunk, Agrees, Untouched, Observe, SaveDex, RecordMethod, Flush;
    if Elsewhere(e, key, total) {
      StepElsewhere(s, e, env, key, total);
      UntouchedCached(s, Step(s, e, env), key, total, file);
    } else {
      CachedChunk(s, e.chunk, env, e.skip, e.writeOk, file);
    }
  }

  lemma NextGrowing(s: State, e: Event, env: Env, key: Key, total: u32, seen: seq<Chunk>, file: seq<byte>)
    requires Growing(s, key, total, seen) && ReasonableSize(total) && |file| == total && OpenDex(file).Ok?
    requires forall c :: c in seen ==> Agrees(file, c)
    requires Elsewhere(e, key, total) || (ChunkFor(e, key, total) && Agrees(file, PieceOf(e.chunk)))
    ensures var t := Step(s, e, env);
            || Cached(t, key, total, file)
            || Growing(t, key, total, if ChunkFor(e, key, total) then seen + [PieceOf(e.chunk)] else seen)
  {
    hide HandleChunk, Agrees, Untouched, Observe, SaveDex, RecordMethod, Flush, Growing, Cached, OpenDex;
    if ChunkFor(e, key, total) {
      GrowingChunk(s, e.chunk, env, seen, file);
    } else {
      assert Known(s, key, total) by { GrowingKnown(s, key, total, seen); }
      StepElsewhere(s, e, env, key, total);
      UntouchedGrowing(s, Step(s, e, env), key, total, seen);
    }
  }

  lemma GrowingKnown(s: State, key: Key, total: u32, seen: seq<Chunk>)
    requires Growing(s, key, total, seen)
    ensures Known(s, key, total)
  {
  }

  lemma NotCoveredYet(s: State, key: Key, total: u32, seen: seq<Chunk>, file: seq<byte>)
    requires Growing(s, key, total, seen) && |file| == total > 0 && forall c :: c in seen ==> Agrees(file, c)
    ensures !Covering(seen, total)
  {
    hide Whole, History, PendingValid, Covering, Agrees;
    WholeIsFile(PendingFor(s, key, total), seen, file);
  }

  /** Once the pieces cover the file it is cached. */
  lemma {:induction false} GrowsToFile(s: State, events: seq<Event>, env: Env, key: Key, total: u32, seen: seq<Chunk>, file: seq<byte>)
    requires Growing(s, key, total, seen) && Feeds(events, key, total) && ReasonableSize(total) && |file| == total && OpenDex(file).Ok?
    requires forall c :: c in seen ==> Agrees(file, c)
    requires forall c :: c in PiecesFor(events, key) ==> Agrees(file, c)
    requires Covering(seen + PiecesFor(events, key), total)
    ensures Cached(Run(s, events, env), key, total, file)
    decreases |events|
  {
    hide Step, Cached, Growing, Agrees, OpenDex, Covering;
    if events == [] {
      assert seen + PiecesFor(events, key) == seen;
      NotCoveredYet(s, key, total, seen, file);
    } else {
      hide PiecesFor;
      var e := events[0];
      assert e in events && forall d :: d in events[1..] ==> d in events;
      PieceFirst(events, key, total);
      NextGrowing(s, e, env, key, total, seen, file);
      var t := Step(s, e, env);
      if Cached(t, key, total, file) {
        StaysCached(t, events[1..], env, key, total, file);
      } else {
        var more := if ChunkFor(e, key, total) then [PieceOf(e.chunk)] else [];
        assert seen + more + PiecesFor(events[1..], key) == seen + PiecesFor(events, key);
        assert seen + [] == seen;
        assert forall c :: c in seen + more <==> c in seen || c in more;
        GrowsToFile(t, events[1..], env, key, total, seen + more, file);
      }
    }
  }

  /** Chunks that cover a file without contradiction, in any order and among any
      events of other addresses, leave exactly that file cached. */
  lemma ChunksAreCached(s: State, events: seq<Event>, env: Env, key: Key, total: u32)
    requires Known(s, key, total) && key !in s.dexCache && key !in s.pending && ReasonableSize(total)
    requires Feeds(events, key, total)
    requires var xs := PiecesFor(events, key); ConflictFree(xs) && AllFit(xs, total) && Covering(xs, total)
    requires OpenDex(FileOf(PiecesFor(events, key), total)).Ok?
    ensures Cached(Run(s, events, env), key, total, FileOf(PiecesFor(events, key), total))
  {
    hide Run, PiecesFor, ConflictFree, Covering, FileOf, OpenDex, Agrees, Elsewhere, ChunkFor, PendingValid, History, Whole;
    var xs := PiecesFor(events, key);
    var file := FileOf(xs, total);
    NewHistory(total);
    NewIsNotWhole(total);
    forall c | c in xs ensures Agrees(file, c) {
      FileAgrees(xs, total, c);
    }
    assert [] + xs == xs;
    GrowsToFile(s, events, env, key, total, [], file);
  }

  lemma {:induction false} PermutedFile(xs: seq<Chunk>, ys: seq<Chunk>, total: u32)
    requires ConflictFree(xs) && AllFit(xs, total) && Covering(xs, total) && multiset(xs) == multiset(ys)
    ensures ConflictFree(ys) && AllFit(ys, total) && Covering(ys, total) && FileOf(ys, total) == FileOf(xs, total)
  {
    hide FileOf, Covering, Compatible;
    assert forall c :: c in ys <==> c in xs by {
      assert forall c :: (c in ys <==> c in multiset(ys)) && (c in xs <==> c in multiset(xs));
    }
    SameCover(xs, ys, total);
    assert ConflictFree(ys) && AllFit(ys, total);
    var f, g := FileOf(xs, total), FileOf(ys, total);
    forall x | 0 <= x < total ensures f[x] == g[x] {
      SameByte(xs, ys, total, x);
    }
  }

  lemma SameByte(xs: seq<Chunk>, ys: seq<Chunk>, total: u32, x: nat)
    requires ConflictFree(xs) && AllFit(xs, total) && ConflictFree(ys) && AllFit(ys, total) && Covering(xs, total) && x < total
    requires forall c :: c in ys <==> c in xs
    ensures FileOf(xs, total)[x] == FileOf(ys, total)[x]
  {
    hide FileOf, Compatible, ConflictFree;
    assert InChunks(xs, x);
    var c :| c in xs && c.Has(x);
    FileAgrees(xs, total, c);
    FileAgrees(ys, total, c);
    HeldIn(FileOf(xs, total), c, x);
    HeldIn(FileOf(ys, total), c, x);
  }

  lemma HeldIn(file: seq<byte>, c: Chunk, x: nat)
    requires Agrees(file, c) && c.Has(x)
    ensures x < |file| && file[x] == c.payload[x - c.offset]
  {
    assert file[c.offset..c.offset + |c.payload|][x - c.offset] == file[x];
  }

  /** Two runs that deliver the same chunks of a file, each in its own order and
      with its own other events, cache the same bytes. */
  lemma OrderDoesNotMatter(s: State, xs: seq<Event>, ys: seq<Event>, env: Env, key: Key, total: u32)
    requires Known(s, key, total) && key !in s.dexCache && key !in s.pending && ReasonableSize(total)
    requires Feeds(xs, key, total) && Feeds(ys, key, total)
    requires multiset(PiecesFor(xs, key)) == multiset(PiecesFor(ys, key))
    requires var cs := PiecesFor(xs, key); ConflictFree(cs) && AllFit(cs, total) && Covering(cs, total)
    requires OpenDex(FileOf(PiecesFor(xs, key), total)).Ok?
    ensures var t, u := Run(s, xs, env), Run(s, ys, env);
            && key in t.dexCache && key in u.dexCache && t.dexCache[key] == u.dexCache[key]
            && key !in t.ambiguous && key !in u.ambiguous
  {
    hide Run, PiecesFor, ConflictFree, Covering, FileOf, OpenDex, Feeds;
    PermutedFile(PiecesFor(xs, key), PiecesFor(ys, key), total);
    ChunksAreCached(s, xs, env, key, total);
    ChunksAreCached(s, ys, env, key, total);
  }
}
