/**
  What one event does, told by bytes rather than by handlers: when it makes an
  address ambiguous, when it saves a file and under which name, and the same over
  whole runs.
 */
module Outcomes {
  import opened Bytes
  import opened Dex
  import opened Intervals
  import opened Reassembly
  import opened Capture
  import opened CaptureProofs
  import opened CodeFiles
  import opened CapturedRecords

  // ----- disputes -----

  /** An absurd size, or another than the address has. */
  ghost predicate WrongSize(s: State, key: Key, size: u32) {
    size < 0x70 || size > 0x4000_0000 || (key in s.dexSizes && s.dexSizes[key] != size)
  }

  /** A whole header, and the four bytes of `dex\n`. */
  ghost predicate PlainDex(bytes: seq<byte>) {
    |bytes| >= 0x70 && bytes[0] == 0x64 && bytes[1] == 0x65 && bytes[2] == 0x78 && bytes[3] == 0x0a
  }

  /** A whole file that is looked at: captures are open, the process is known,
      the mapping is not the system's, and it is a DEX. */
  ghost predicate Taken(s: State, pid: Option<u32>, bytes: seq<byte>, skip: bool) {
    !s.sealed && pid.Some? && !skip && PlainDex(bytes)
  }

  ghost predicate Heard(c: ChunkEvent) {
    0x70 <= c.size <= 0x4000_0000 && c.dataLen > 0 && c.offset + c.dataLen <= c.size
  }

  /** Byte `x` of the file at `key` is known to be something else than `v`, or
      known not to exist. */
  ghost predicate Contradicts(s: State, key: Key, x: nat, v: byte) {
    if key in s.dexCache then x >= |s.dexCache[key]| || s.dexCache[key][x] != v
    else key in s.pending && Covered(s.pending[key].intervals, x) && x < |s.pending[key].buf| && s.pending[key].buf[x] != v
  }

  ghost predicate ChunkContradicts(s: State, c: ChunkEvent) {
    c.dataLen <= |c.body| && exists i :: 0 <= i < c.dataLen && Contradicts(s, c.key, c.offset + i, c.body[i])
  }

  /** What makes the address ambiguous: a size that cannot be right, or bytes
      that disagree with the file or with what has arrived of it. */
  ghost predicate Disputes(s: State, e: Event, key: Key) {
    match e
    case SawDex(k, size) => k == key && WrongSize(s, key, size)
    case SawMethod(k, size, _, _) => k == key && WrongSize(s, key, size)
    case SawChunk(c, _, _) => c.key == key && Heard(c) && (WrongSize(s, key, c.size) || ChunkContradicts(s, c))
    case Scanned(pid, begin, size, bytes, skip, _) =>
      && Taken(s, pid, bytes, skip) && Key(pid.value, begin) == key
      && (WrongSize(s, key, size) || (key in s.dexCache && s.dexCache[key] != bytes))
    case _ => false
  }

  // ----- saves -----

  /** Byte `x` of the file is `v`, from this chunk or an earlier one. */
  ghost predicate Supplied(s: State, c: ChunkEvent, x: nat, v: byte)
    requires c.dataLen <= |c.body|
  {
    if c.offset <= x < c.offset + c.dataLen then v == c.body[x - c.offset]
    else c.key in s.pending && Covered(s.pending[c.key].intervals, x) && x < |s.pending[c.key].buf| && v == s.pending[c.key].buf[x]
  }

  ghost predicate Completes(s: State, c: ChunkEvent, bytes: seq<byte>) {
    && Heard(c) && c.dataLen <= |c.body| && |bytes| == c.size
    && forall x :: 0 <= x < c.size ==> Supplied(s, c, x, bytes[x])
  }

  /** The event leaves `bytes` in a file of `key`. */
  ghost predicate Saves(s: State, e: Event, key: Key, size: u32, bytes: seq<byte>) {
    match e
    case SawChunk(c, skip, writeOk) =>
      && c.key == key && c.size == size && key !in s.ambiguous && key !in s.dexCache && !Disputes(s, e, key)
      && Completes(s, c, bytes) && Taken(s, Some(key.pid), bytes, skip) && writeOk
    case Scanned(pid, begin, size', bytes', skip, writeOk) =>
      && Taken(s, pid, bytes, skip) && writeOk && Key(pid.value, begin) == key && size' == size && bytes' == bytes
      && !(key in s.dexCache && s.dexCache[key] == bytes)
    case _ => false
  }

  /** The file and the cache entry of a save; a name without a hash is for
      addresses that nothing has disputed. */
  ghost predicate Saved(s: State, t: State, env: Env, key: Key, size: u32, bytes: seq<byte>) {
    && t.files == s.files[(if key in t.ambiguous then Hashed(key, env.hash(bytes), size) else Plain(key, size)) := bytes]
    && t.dexCache == s.dexCache[key := bytes]
  }

  ghost predicate NothingSaved(s: State, t: State) {
    t.files == s.files && t.dexCache == s.dexCache
  }

  // ----- one event -----

  lemma PlainDexIs(bytes: seq<byte>)
    ensures OpenDex(bytes).Ok? <==> PlainDex(bytes)
  {
    if |bytes| >= 0x70 {
      var b0: int, b1: int, b2: int, b3: int := bytes[0], bytes[1], bytes[2], bytes[3];
      assert Le32(bytes, 0) == b0 + 0x100 * b1 + 0x1_0000 * b2 + 0x100_0000 * b3;
    }
  }

  lemma ObserveIs(s: State, key: Key, size: u32)
    ensures WrongSize(s, key, size) ==>
              Observe(s, key, size).ambiguous == s.ambiguous + {key} && NothingSaved(s, Observe(s, key, size))
    ensures !WrongSize(s, key, size) ==> Observe(s, key, size) == Sized(s, key, size)
  {
    hide Quarantine;
    QuarantineIs(s, key);
    QuarantineIs(Sized(s, key, size), key);
  }

  lemma QuarantineIs(s: State, key: Key)
    ensures Quarantine(s, key).ambiguous == s.ambiguous + {key} && NothingSaved(s, Quarantine(s, key))
  {
  }

  lemma SaveIs(s: State, pid: Option<u32>, begin: u64, size: u32, bytes: seq<byte>, env: Env, skip: bool, writeOk: bool)
    ensures var t := SaveDex(s, pid, begin, size, bytes, env, skip, writeOk);
            if !Taken(s, pid, bytes, skip) then t == s
            else
              var key := Key(pid.value, begin);
              var disputed := WrongSize(s, key, size) || (key in s.dexCache && s.dexCache[key] != bytes);
              && t.ambiguous == s.ambiguous + (if disputed then {key} else {})
              && if writeOk && !(key in s.dexCache && s.dexCache[key] == bytes) then Saved(s, t, env, key, size, bytes)
                 else NothingSaved(s, t)
  {
    hide Observe, Quarantine, WrongSize, PlainDex, OpenDex, Sized, WithoutSignatures;
    PlainDexIs(bytes);
    if Taken(s, pid, bytes, skip) {
      var key := Key(pid.value, begin);
      var seen := Observe(s, key, size);
      ObserveIs(s, key, size);
      SizedIs(s, key, size);
      QuarantineIs(seen, key);
      if key in seen.dexCache && seen.dexCache[key] == bytes {
      } else if key in seen.dexCache {
        WriteIs(Quarantine(seen, key), key, size, bytes, env, writeOk);
      } else {
        WriteIs(seen, key, size, bytes, env, writeOk);
      }
    }
  }

  lemma SizedIs(s: State, key: Key, size: u32)
    ensures var t := Sized(s, key, size);
            NothingSaved(s, t) && t.ambiguous == s.ambiguous && t.pending == s.pending && t.sealed == s.sealed
  {
  }

  lemma WriteIs(s: State, key: Key, size: u32, bytes: seq<byte>, env: Env, writeOk: bool)
    ensures var t := WriteDex(s, key, size, bytes, env, writeOk);
            && t.ambiguous == s.ambiguous
            && if writeOk then Saved(s, t, env, key, size, bytes) else NothingSaved(s, t)
  {
  }

  /** An uncontradicted chunk completes exactly the bytes that are all supplied. */
  lemma PlacedIs(s: State, c: ChunkEvent, env: Env)
    requires Inv(s, env) && Heard(c) && c.dataLen <= |c.body| && c.key in s.dexSizes && s.dexSizes[c.key] == c.size
    requires c.key !in s.dexCache
    ensures Conflicts(PendingFor(s, c.key, c.size), PieceOf(c)) <==> ChunkContradicts(s, c)
    ensures var q := Place(PendingFor(s, c.key, c.size), PieceOf(c));
            && (Whole(q) ==> Completes(s, c, q.buf))
            && forall bytes :: Completes(s, c, bytes) ==> Whole(q) && q.buf == bytes
  {
    hide Inv, Canonical, Recorded, Conflicts, Whole, Place, Supplied;
    var p, piece := PendingFor(s, c.key, c.size), PieceOf(c);
    PendingForIs(s, c.key, c.size, env);
    ContradictsIs(s, c, p);
    PlaceValid(p, piece);
    var q := Place(p, piece);
    PlacedBytes(s, c, p);
    CompleteIs(q);
    if Whole(q) {
      forall x | 0 <= x < c.size ensures Supplied(s, c, x, q.buf[x]) {
        assert Covered(q.intervals, x);
      }
    }
    forall bytes | Completes(s, c, bytes) ensures Whole(q) && q.buf == bytes {
      forall x | 0 <= x < c.size ensures Covered(q.intervals, x) && q.buf[x] == bytes[x] {
        assert Supplied(s, c, x, bytes[x]);
      }
    }
  }

  lemma CompleteIs(q: Pending)
    requires PendingValid(q) && q.total > 0
    ensures Whole(q) <==> forall x :: 0 <= x < q.total ==> Covered(q.intervals, x)
  {
    hide Covered, Canonical, IsComplete;
    CompleteExact(q.intervals, q.total);
  }

  lemma PlacedBytes(s: State, c: ChunkEvent, p: Pending)
    requires Heard(c) && c.dataLen <= |c.body| && PendingValid(p) && p.total == c.size
    requires p == PendingFor(s, c.key, c.size)
    ensures var q := Place(p, PieceOf(c));
            forall x, v :: 0 <= x < c.size && |q.buf| == c.size ==>
              (Covered(q.intervals, x) && q.buf[x] == v <==> Supplied(s, c, x, v))
  {
    hide Covered, Canonical, Recorded;
    var piece := PieceOf(c);
    RecordExact(p.intervals, piece.offset, piece.End());
    forall x ensures !Covered([], x) { NothingCovered(x); }
  }

  lemma NothingCovered(x: int)
    ensures !Covered([], x)
  {
  }

  lemma ContradictsIs(s: State, c: ChunkEvent, p: Pending)
    requires Heard(c) && c.dataLen <= |c.body| && PendingValid(p) && p.total == c.size
    requires p == PendingFor(s, c.key, c.size) && c.key !in s.dexCache
    ensures Conflicts(p, PieceOf(c)) <==> ChunkContradicts(s, c)
  {
    hide Covered, Canonical, Conflicts;
    var piece := PieceOf(c);
    ConflictIs(p, piece);
    if Conflicts(p, piece) {
      var x :| Covered(p.intervals, x) && piece.Has(x) && p.buf[x] != piece.payload[x - piece.offset];
      NothingCovered(x);
      assert Contradicts(s, c.key, c.offset + (x - c.offset), c.body[x - c.offset]);
    }
    if ChunkContradicts(s, c) {
      var i :| 0 <= i < c.dataLen && Contradicts(s, c.key, c.offset + i, c.body[i]);
      var x := c.offset + i;
      assert Covered(p.intervals, x) && piece.Has(x) && p.buf[x] != piece.payload[x - piece.offset];
    }
  }

  /** A late chunk repeats the file exactly when no byte of it contradicts it. */
  lemma RepeatsIs(s: State, c: ChunkEvent)
    requires Heard(c) && c.dataLen <= |c.body| && c.key in s.dexCache
    ensures Repeats(s.dexCache[c.key], PieceOf(c)) <==> !ChunkContradicts(s, c)
  {
    var bytes, piece := s.dexCache[c.key], PieceOf(c);
    if piece.End() <= |bytes| {
      var window := bytes[c.offset..piece.End()];
      assert forall i :: 0 <= i < c.dataLen ==> window[i] == bytes[c.offset + i] && piece.payload[i] == c.body[i];
    } else {
      assert Contradicts(s, c.key, c.offset + (c.dataLen - 1), c.body[c.dataLen - 1]);
    }
  }

  ghost predicate ChunkGoesOn(s: State, c: ChunkEvent) {
    Heard(c) && c.key !in s.ambiguous && !WrongSize(s, c.key, c.size) && c.dataLen <= |c.body|
  }

  /** What a chunk leaves behind, `t` being the state it leaves. */
  ghost predicate ChunkEffect(s: State, t: State, c: ChunkEvent, env: Env, skip: bool, writeOk: bool) {
    && (forall bytes :: Saves(s, SawChunk(c, skip, writeOk), c.key, c.size, bytes) ==> Saved(s, t, env, c.key, c.size, bytes))
    && (NothingSaved(s, t) || exists bytes :: Saves(s, SawChunk(c, skip, writeOk), c.key, c.size, bytes))
  }

  lemma NoEffect(s: State, t: State, c: ChunkEvent, env: Env, skip: bool, writeOk: bool)
    requires NothingSaved(s, t)
    requires c.key in s.dexCache || ChunkContradicts(s, c) || WrongSize(s, c.key, c.size) || c.key in s.ambiguous
          || forall bytes :: Completes(s, c, bytes) ==> !Taken(s, Some(c.key.pid), bytes, skip) || !writeOk
    ensures ChunkEffect(s, t, c, env, skip, writeOk)
  {
    hide ChunkContradicts, WrongSize, Completes, Taken;
    forall bytes ensures !Saves(s, SawChunk(c, skip, writeOk), c.key, c.size, bytes) {
      CompletesHeard(s, c, bytes);
    }
  }

  lemma CompletesHeard(s: State, c: ChunkEvent, bytes: seq<byte>)
    ensures Completes(s, c, bytes) ==> Heard(c) && c.dataLen <= |c.body|
  {
  }

  /** The file is complete: it is saved if it can be. */
  lemma CompletedIs(s: State, c: ChunkEvent, bytes: seq<byte>, env: Env, skip: bool, writeOk: bool)
    requires ChunkGoesOn(s, c) && c.key !in s.dexCache && !ChunkContradicts(s, c)
    requires forall other :: Completes(s, c, other) <==> other == bytes
    ensures var t := SaveDex(s.(pending := s.pending - {c.key}), Some(c.key.pid), c.key.begin, c.size, bytes, env, skip, writeOk);
            t.ambiguous == s.ambiguous && ChunkEffect(s, t, c, env, skip, writeOk)
  {
    hide SaveDex, PlainDex, ChunkContradicts, Completes, Heard;
    var u := s.(pending := s.pending - {c.key});
    SaveIs(u, Some(c.key.pid), c.key.begin, c.size, bytes, env, skip, writeOk);
    if Taken(s, Some(c.key.pid), bytes, skip) && writeOk {
      assert Saves(s, SawChunk(c, skip, writeOk), c.key, c.size, bytes);
    }
  }

  /** A chunk of an undisputed size, its bytes all there. */
  lemma AcceptIs(s: State, c: ChunkEvent, env: Env, skip: bool, writeOk: bool)
    requires Inv(s, env) && ChunkGoesOn(s, c) && c.key in s.dexSizes && s.dexSizes[c.key] == c.size
    ensures var t := AcceptChunk(s, c, PieceOf(c), env, skip, writeOk);
            && t.ambiguous == s.ambiguous + (if ChunkContradicts(s, c) then {c.key} else {})
            && ChunkEffect(s, t, c, env, skip, writeOk)
  {
    hide Inv, Quarantine, Conflicts, Place, Whole, SaveDex, PendingFor, Repeats, Completes, PlainDex, ChunkContradicts, Heard, ChunkEffect, WrongSize;
    QuarantineIs(s, c.key);
    var t := AcceptChunk(s, c, PieceOf(c), env, skip, writeOk);
    if c.key in s.dexCache {
      RepeatsIs(s, c);
      NoEffect(s, t, c, env, skip, writeOk);
    } else {
      PlacedIs(s, c, env);
      var q := Place(PendingFor(s, c.key, c.size), PieceOf(c));
      if !ChunkContradicts(s, c) && Whole(q) {
        CompletedIs(s, c, q.buf, env, skip, writeOk);
      } else {
        NoEffect(s, t, c, env, skip, writeOk);
      }
    }
  }

  lemma SameKnowledge(s: State, t: State, c: ChunkEvent, e: Event)
    requires e.SawChunk? && e.chunk == c && t == Sized(s, c.key, c.size) && !WrongSize(s, c.key, c.size)
    ensures ChunkContradicts(s, c) <==> ChunkContradicts(t, c)
    ensures !WrongSize(t, c.key, c.size)
    ensures forall bytes :: Saves(s, e, c.key, c.size, bytes) <==> Saves(t, e, c.key, c.size, bytes)
  {
    hide PlainDex, Covered;
    forall i: int | 0 <= i < c.dataLen <= |c.body|
      ensures Contradicts(s, c.key, c.offset + i, c.body[i]) <==> Contradicts(t, c.key, c.offset + i, c.body[i])
    {
    }
    if c.dataLen <= |c.body| {
      forall x, v ensures Supplied(s, c, x, v) <==> Supplied(t, c, x, v) {
      }
      forall bytes ensures Completes(s, c, bytes) <==> Completes(t, c, bytes) {
      }
    }
  }

  lemma ChunkIs(s: State, c: ChunkEvent, env: Env, skip: bool, writeOk: bool)
    requires Inv(s, env)
    ensures var t := HandleChunk(s, c, env, skip, writeOk);
            && (forall key :: key !in s.ambiguous ==> (key in t.ambiguous <==> Disputes(s, SawChunk(c, skip, writeOk), key)))
            && ChunkEffect(s, t, c, env, skip, writeOk)
  {
    hide Inv, Observe, AcceptChunk, ChunkContradicts, Completes, PlainDex, WrongSize, ChunkEffect, Taken;
    var t := HandleChunk(s, c, env, skip, writeOk);
    forall bytes ensures Completes(s, c, bytes) ==> Heard(c) && c.dataLen <= |c.body| {
      CompletesHeard(s, c, bytes);
    }
    NoBytes(s, c);
    if ChunkInBounds(c) && !WrongSize(s, c.key, c.size) && c.key !in s.ambiguous && c.dataLen <= |c.body| {
      ChunkGoesOnIs(s, c, env, skip, writeOk);
    } else {
      if ChunkInBounds(c) {
        ObserveIs(s, c.key, c.size);
        ObserveFiles(s, c.key, c.size);
        SizedIs(s, c.key, c.size);
      }
      NoEffect(s, t, c, env, skip, writeOk);
    }
  }

  lemma ChunkGoesOnIs(s: State, c: ChunkEvent, env: Env, skip: bool, writeOk: bool)
    requires Inv(s, env) && ChunkGoesOn(s, c)
    ensures var t := HandleChunk(s, c, env, skip, writeOk);
            && t.ambiguous == s.ambiguous + (if ChunkContradicts(s, c) then {c.key} else {})
            && ChunkEffect(s, t, c, env, skip, writeOk)
  {
    hide Inv, Observe, AcceptChunk, ChunkContradicts, Completes, PlainDex, WrongSize, Saves;
    var seen := Sized(s, c.key, c.size);
    ObserveIs(s, c.key, c.size);
    ObserveKeeps(s, c.key, c.size, env);
    SameKnowledge(s, seen, c, SawChunk(c, skip, writeOk));
    AcceptIs(seen, c, env, skip, writeOk);
  }

  lemma NoBytes(s: State, c: ChunkEvent)
    ensures c.dataLen > |c.body| ==> !ChunkContradicts(s, c) && forall bytes :: !Completes(s, c, bytes)
  {
  }

  /** What an event does to the set of ambiguous addresses. */
  lemma StepDisputes(s: State, e: Event, env: Env, key: Key)
    requires Inv(s, env) && key !in s.ambiguous
    ensures key in Step(s, e, env).ambiguous <==> Disputes(s, e, key)
  {
    hide Inv, Observe, HandleChunk, SaveDex, ChunkContradicts, PlainDex, WrongSize, MethodName;
    match e
    case SawDex(k, size) => ObserveIs(s, k, size);
    case SawChunk(c, skip, writeOk) => ChunkIs(s, c, env, skip, writeOk);
    case SawMethod(k, size, idx, code) => ObserveIs(s, k, size);
    case Scanned(pid, begin, size, bytes, skip, writeOk) => SaveIs(s, pid, begin, size, bytes, env, skip, writeOk);
    case Swept(stale) =>
    case Sealed =>
    case Flushed(written) =>
  }

  /** What an event saves: one file, whole, under the name its address deserves;
      otherwise no file and no cached bytes change. */
  lemma StepSaves(s: State, e: Event, env: Env)
    requires Inv(s, env)
    ensures forall key, size, bytes :: Saves(s, e, key, size, bytes) ==> Saved(s, Step(s, e, env), env, key, size, bytes)
    ensures NothingSaved(s, Step(s, e, env)) || exists key, size, bytes :: Saves(s, e, key, size, bytes)
  {
    hide Inv, Observe, HandleChunk, SaveDex, ChunkContradicts, PlainDex, WrongSize, MethodName;
    match e
    case SawDex(k, size) => ObserveSame(s, k, size); ObserveFiles(s, k, size);
    case SawChunk(c, skip, writeOk) =>
      ChunkIs(s, c, env, skip, writeOk);
    case SawMethod(k, size, idx, code) => ObserveSame(s, k, size); ObserveFiles(s, k, size);
    case Scanned(pid, begin, size, bytes, skip, writeOk) =>
      SaveIs(s, pid, begin, size, bytes, env, skip, writeOk);
      if pid.Some? && Saves(s, e, Key(pid.value, begin), size, bytes) {
        assert Saves(s, e, Key(pid.value, begin), size, bytes);
      }
    case Swept(stale) =>
    case Sealed =>
    case Flushed(written) =>
  }

  lemma ObserveFiles(s: State, key: Key, size: u32)
    ensures NothingSaved(s, Observe(s, key, size))
  {
    hide WrongSize, Observe;
    ObserveIs(s, key, size);
    SizedIs(s, key, size);
  }

  // ----- whole runs -----

  /** Event `i` disputed the address when it came. */
  ghost predicate DisputedAt(events: seq<Event>, env: Env, key: Key, i: nat) {
    i < |events| && Disputes(Run(Initial(), events[..i], env), events[i], key)
  }

  lemma DisputedBefore(events: seq<Event>, env: Env, key: Key, i: nat)
    requires i < |events| - 1
    ensures DisputedAt(events[..|events| - 1], env, key, i) <==> DisputedAt(events, env, key, i)
  {
    hide Disputes, Run;
    assert events[..|events| - 1][..i] == events[..i];
  }

  /** Over any run an address ends up ambiguous exactly when some event disputed
      it. */
  lemma {:induction false} AmbiguousIsDisputed(events: seq<Event>, env: Env, key: Key)
    ensures key in Run(Initial(), events, env).ambiguous <==> exists i: nat :: DisputedAt(events, env, key, i)
    decreases |events|
  {
    hide Step, Disputes, Inv, AddressStays;
    if events != [] {
      var n := |events| - 1;
      var s := Run(Initial(), events[..n], env);
      AmbiguousIsDisputed(events[..n], env, key);
      RunLast(Initial(), events, env);
      InitialInv(env);
      RunKeepsInv(Initial(), events[..n], env);
      forall i: nat | i < n ensures DisputedAt(events[..n], env, key, i) <==> DisputedAt(events, env, key, i) {
        DisputedBefore(events, env, key, i);
      }
      if key in s.ambiguous {
        StepEvolves(s, events[n], env);
        StaysAmbiguous(s, Step(s, events[n], env), key);
      } else {
        StepDisputes(s, events[n], env, key);
        assert DisputedAt(events, env, key, n) <==> Disputes(s, events[n], key);
        forall i: nat ensures DisputedAt(events, env, key, i) ==> i == n {
          assert i < n ==> !DisputedAt(events[..n], env, key, i);
        }
      }
    }
  }

  lemma StaysAmbiguous(s: State, t: State, key: Key)
    requires Evolves(s, t) && key in s.ambiguous
    ensures key in t.ambiguous
  {
    assert AddressStays(s, t, key);
  }

  /** Once captures are sealed, no run changes a file or a cached byte. */
  lemma {:induction false} SealedForGood(s: State, events: seq<Event>, env: Env)
    requires Inv(s, env) && s.sealed
    ensures NothingSaved(s, Run(s, events, env)) && Run(s, events, env).sealed
    decreases |events|
  {
    hide Step, Inv, Saves, Disputes;
    if events != [] {
      var t := Step(s, events[0], env);
      StepSaves(s, events[0], env);
      SealedSavesNothing(s, events[0]);
      StepKeeps(s, events[0], env);
      StaysSealed(s, events[0], env);
      SealedForGood(t, events[1..], env);
    }
  }

  lemma SealedSavesNothing(s: State, e: Event)
    requires s.sealed
    ensures forall key, size, bytes :: !Saves(s, e, key, size, bytes)
  {
    hide Completes, PlainDex, Disputes;
  }

  ghost predicate SameSeal(s: State, t: State) {
    s.sealed == t.sealed
  }

  lemma ObserveSeal(s: State, key: Key, size: u32)
    ensures SameSeal(s, Observe(s, key, size)) && SameSeal(s, Quarantine(s, key))
  {
  }

  lemma SaveSeal(s: State, pid: Option<u32>, begin: u64, size: u32, bytes: seq<byte>, env: Env, skip: bool, writeOk: bool)
    ensures SameSeal(s, SaveDex(s, pid, begin, size, bytes, env, skip, writeOk))
  {
    hide Observe, Quarantine, OpenDex, NameOf;
    if pid.Some? {
      var key := Key(pid.value, begin);
      ObserveSeal(s, key, size);
      ObserveSeal(Observe(s, key, size), key, size);
    }
  }

  lemma AcceptSeal(s: State, e: ChunkEvent, c: Chunk, env: Env, skip: bool, writeOk: bool)
    ensures SameSeal(s, AcceptChunk(s, e, c, env, skip, writeOk))
  {
    hide Quarantine, Conflicts, Place, Whole, SaveDex, PendingFor, Repeats;
    ObserveSeal(s, e.key, e.size);
    var q := Place(PendingFor(s, e.key, e.size), c);
    SaveSeal(s.(pending := s.pending - {e.key}), Some(e.key.pid), e.key.begin, e.size, q.buf, env, skip, writeOk);
  }

  lemma StaysSealed(s: State, e: Event, env: Env)
    requires s.sealed
    ensures Step(s, e, env).sealed
  {
    hide Observe, AcceptChunk, SaveDex, MethodName;
    match e
    case SawDex(key, size) => ObserveSeal(s, key, size);
    case SawChunk(c, skip, writeOk) =>
      ObserveSeal(s, c.key, c.size);
      if c.dataLen <= |c.body| {
        AcceptSeal(Observe(s, c.key, c.size), c, PieceOf(c), env, skip, writeOk);
      }
    case SawMethod(key, size, idx, code) => ObserveSeal(s, key, size);
    case Scanned(pid, begin, size, bytes, skip, writeOk) => SaveSeal(s, pid, begin, size, bytes, env, skip, writeOk);
    case Swept(stale) =>
    case Sealed =>
    case Flushed(written) =>
  }

  // ----- entries under reassembly -----

  ghost function EntryOf(s: State, key: Key): Option<Pending> {
    if key in s.pending then Some(s.pending[key]) else None
  }

  lemma QuarantineEntry(s: State, key: Key, k: Key)
    ensures EntryOf(Quarantine(s, key), k) == if k == key then None else EntryOf(s, k)
  {
  }

  lemma ObserveEntry(s: State, key: Key, size: u32, k: Key)
    ensures EntryOf(Observe(s, key, size), k) == if k == key && WrongSize(s, key, size) then None else EntryOf(s, k)
  {
    hide Quarantine;
    QuarantineEntry(s, key, k);
    QuarantineEntry(Sized(s, key, size), key, k);
  }

  lemma WriteEntry(s: State, key: Key, size: u32, bytes: seq<byte>, env: Env, writeOk: bool, k: Key)
    ensures EntryOf(WriteDex(s, key, size, bytes, env, writeOk), k) == if k == key && writeOk then None else EntryOf(s, k)
  {
    hide NameOf;
  }

  lemma SaveEntry(s: State, pid: Option<u32>, begin: u64, size: u32, bytes: seq<byte>, env: Env, skip: bool, writeOk: bool, k: Key)
    ensures var e := Scanned(pid, begin, size, bytes, skip, writeOk);
            var t := SaveDex(s, pid, begin, size, bytes, env, skip, writeOk);
            EntryOf(t, k) == if Disputes(s, e, k) || Saves(s, e, k, size, bytes) then None else EntryOf(s, k)
  {
    hide Observe, Quarantine, WrongSize, PlainDex, OpenDex, WriteDex, EntryOf;
    PlainDexIs(bytes);
    if Taken(s, pid, bytes, skip) {
      var key := Key(pid.value, begin);
      var seen := Observe(s, key, size);
      ObserveEntry(s, key, size, k);
      ObserveFiles(s, key, size);
      QuarantineEntry(seen, key, k);
      WriteEntry(seen, key, size, bytes, env, writeOk, k);
      WriteEntry(Quarantine(seen, key), key, size, bytes, env, writeOk, k);
    }
  }

  /** A chunk that is looked at byte by byte: heard, whole, of an undisputed size,
      for an address neither ambiguous nor cached. */
  ghost predicate Placed(s: State, e: Event, key: Key) {
    && e.SawChunk? && e.chunk.key == key && Heard(e.chunk) && e.chunk.dataLen <= |e.chunk.body|
    && key !in s.ambiguous && key !in s.dexCache && !Disputes(s, e, key)
  }

  /** The entry holds what has arrived, this chunk included, and nothing else. */
  ghost predicate HoldsSupplied(s: State, c: ChunkEvent, p: Pending)
    requires c.dataLen <= |c.body|
  {
    p.total == c.size && |p.buf| == c.size
    && forall x, v :: 0 <= x < c.size ==> (Covered(p.intervals, x) && p.buf[x] == v <==> Supplied(s, c, x, v))
  }

  lemma PlacedEntry(s: State, c: ChunkEvent, env: Env, skip: bool, writeOk: bool, k: Key)
    requires Inv(s, env) && ChunkGoesOn(s, c) && c.key in s.dexSizes && s.dexSizes[c.key] == c.size
    requires c.key !in s.dexCache && !ChunkContradicts(s, c)
    ensures var t := AcceptChunk(s, c, PieceOf(c), env, skip, writeOk);
            && (k != c.key ==> EntryOf(t, k) == EntryOf(s, k))
            && (c.key in t.pending <==> forall bytes :: !Completes(s, c, bytes))
            && (c.key in t.pending ==> HoldsSupplied(s, c, t.pending[c.key]))
  {
    hide Inv, Conflicts, Place, Whole, SaveDex, PendingFor, Completes, PlainDex, ChunkContradicts, WrongSize, Supplied, Covered, Canonical;
    PlacedIs(s, c, env);
    var p := PendingFor(s, c.key, c.size);
    PendingForIs(s, c.key, c.size, env);
    PlaceValid(p, PieceOf(c));
    PlacedBytes(s, c, p);
    var q := Place(p, PieceOf(c));
    if Whole(q) {
      HandedOn(s, c, q.buf, env, skip, writeOk, k);
      HandedOn(s, c, q.buf, env, skip, writeOk, c.key);
    }
  }

  /** The entry of a completed file is gone, whatever becomes of the file. */
  lemma HandedOn(s: State, c: ChunkEvent, bytes: seq<byte>, env: Env, skip: bool, writeOk: bool, k: Key)
    ensures var u := s.(pending := s.pending - {c.key});
            EntryOf(SaveDex(u, Some(c.key.pid), c.key.begin, c.size, bytes, env, skip, writeOk), k)
            == if k == c.key then None else EntryOf(s, k)
  {
    hide SaveDex, Disputes, Saves;
    var u := s.(pending := s.pending - {c.key});
    SaveEntry(u, Some(c.key.pid), c.key.begin, c.size, bytes, env, skip, writeOk, k);
    SavesOwn(u, Some(c.key.pid), c.key.begin, c.size, bytes, skip, writeOk, k);
  }

  /** A save concerns its own address only. */
  lemma SavesOwn(s: State, pid: Option<u32>, begin: u64, size: u32, bytes: seq<byte>, skip: bool, writeOk: bool, k: Key)
    ensures var e := Scanned(pid, begin, size, bytes, skip, writeOk);
            Disputes(s, e, k) || Saves(s, e, k, size, bytes) ==> pid.Some? && k == Key(pid.value, begin)
  {
    hide PlainDex, WrongSize;
  }

  lemma SameSupply(s: State, c: ChunkEvent, p: Pending)
    requires c.dataLen <= |c.body|
    ensures var t := Sized(s, c.key, c.size);
            && (forall bytes :: Completes(s, c, bytes) <==> Completes(t, c, bytes))
            && (HoldsSupplied(s, c, p) <==> HoldsSupplied(t, c, p))
  {
    hide Covered;
    var t := Sized(s, c.key, c.size);
    forall x, v ensures Supplied(s, c, x, v) <==> Supplied(t, c, x, v) {
    }
    forall bytes ensures Completes(s, c, bytes) <==> Completes(t, c, bytes) {
    }
  }

  /** The event drops what has arrived for the address: it timed out, or the whole
      file came another way. */
  ghost predicate Ends(s: State, e: Event, key: Key) {
    (e.Swept? && key in e.stale) || (e.Scanned? && Saves(s, e, key, e.size, e.bytes))
  }

  ghost predicate EntryAfter(s: State, e: Event, t: State, key: Key) {
    if Placed(s, e, key) then
      && (key in t.pending <==> forall bytes :: !Completes(s, e.chunk, bytes))
      && (key in t.pending ==> HoldsSupplied(s, e.chunk, t.pending[key]))
    else EntryOf(t, key) == if Disputes(s, e, key) || Ends(s, e, key) then None else EntryOf(s, key)
  }

  lemma NoEntry(s: State, env: Env, key: Key)
    requires Inv(s, env)
    ensures key in s.ambiguous || key in s.dexCache ==> EntryOf(s, key) == None
  {
    if key in s.pending {
      assert PendingOk(s, key);
    }
  }

  /** A chunk that goes no further than its size. */
  lemma StoppedEntry(s: State, c: ChunkEvent, env: Env, skip: bool, writeOk: bool, key: Key)
    requires Inv(s, env) && !ChunkGoesOn(s, c)
    ensures EntryAfter(s, SawChunk(c, skip, writeOk), HandleChunk(s, c, env, skip, writeOk), key)
  {
    hide Inv, Observe, AcceptChunk, ChunkContradicts, WrongSize, EntryOf;
    NoEntry(s, env, key);
    NoBytes(s, c);
    if ChunkInBounds(c) {
      ObserveIs(s, c.key, c.size);
      ObserveEntry(s, c.key, c.size, key);
    }
  }

  lemma ChunkEntry(s: State, c: ChunkEvent, env: Env, skip: bool, writeOk: bool, key: Key)
    requires Inv(s, env)
    ensures EntryAfter(s, SawChunk(c, skip, writeOk), HandleChunk(s, c, env, skip, writeOk), key)
  {
    hide Inv, HandleChunk, ChunkGoesOn, EntryAfter;
    if ChunkGoesOn(s, c) {
      GoesOnEntry(s, c, env, skip, writeOk, key);
    } else {
      StoppedEntry(s, c, env, skip, writeOk, key);
    }
  }

  lemma GoesOnEntry(s: State, c: ChunkEvent, env: Env, skip: bool, writeOk: bool, key: Key)
    requires Inv(s, env) && ChunkGoesOn(s, c)
    ensures EntryAfter(s, SawChunk(c, skip, writeOk), HandleChunk(s, c, env, skip, writeOk), key)
  {
    hide Inv, Observe, ChunkContradicts, Completes, WrongSize, HoldsSupplied, Conflicts, Place, Whole, SaveDex, PendingFor, Repeats, Quarantine, Saves;
    var seen := Sized(s, c.key, c.size);
    ObserveIs(s, c.key, c.size);
    ObserveKeeps(s, c.key, c.size, env);
    SameKnowledge(s, seen, c, SawChunk(c, skip, writeOk));
    NoEntry(s, env, key);
    QuarantineEntry(seen, c.key, key);
    var t := AcceptChunk(seen, c, PieceOf(c), env, skip, writeOk);
    if c.key in s.dexCache {
      RepeatsIs(seen, c);
    } else {
      PlacedIs(seen, c, env);
      if !ChunkContradicts(s, c) {
        PlacedEntry(seen, c, env, skip, writeOk, key);
        SameSupply(s, c, if c.key in t.pending then t.pending[c.key] else NewPending(0));
      }
    }
  }

  lemma MethodEntry(s: State, key: Key, size: u32, idx: u32, code: seq<byte>, env: Env, k: Key)
    ensures EntryOf(HandleMethod(s, key, size, idx, code, env), k) == EntryOf(Observe(s, key, size), k)
  {
    hide Observe, MethodName;
  }

  /** What an event does to what has arrived for an address: a placed chunk adds
      itself, or completes the file and leaves nothing; a dispute, a time-out or
      the whole file from elsewhere drops it; anything else leaves it alone. */
  lemma StepEntries(s: State, e: Event, env: Env, key: Key)
    requires Inv(s, env)
    ensures EntryAfter(s, e, Step(s, e, env), key)
  {
    hide Inv, Observe, HandleChunk, HandleMethod, SaveDex, ChunkContradicts, PlainDex, WrongSize;
    match e
    case SawDex(k, size) => ObserveEntry(s, k, size, key);
    case SawChunk(c, skip, writeOk) => ChunkEntry(s, c, env, skip, writeOk, key);
    case SawMethod(k, size, idx, code) =>
      ObserveEntry(s, k, size, key);
      MethodEntry(s, k, size, idx, code, env, key);
    case Scanned(pid, begin, size, bytes, skip, writeOk) => SaveEntry(s, pid, begin, size, bytes, env, skip, writeOk, key);
    case Swept(stale) =>
    case Sealed =>
    case Flushed(written) =>
  }
}
