/**
  What every handler keeps, and what holds over every run of them.
 */
module CaptureProofs {
  import opened Bytes
  import opened Dex
  import opened Intervals
  import opened Reassembly
  import opened Capture

  // ----- the invariant -----

  /** A pending entry is consistent, unfinished, and of the observed size. */
  ghost predicate PendingOk(s: State, key: Key)
    requires key in s.pending
  {
    && key !in s.ambiguous && key !in s.dexCache
    && PendingValid(s.pending[key]) && !Whole(s.pending[key])
    && key in s.dexSizes && s.pending[key].total == s.dexSizes[key]
  }

  /** The cached bytes of an unambiguous address are those of its plain file. */
  ghost predicate CacheOk(s: State, key: Key)
    requires key in s.dexCache
  {
    key !in s.ambiguous ==>
      && key in s.dexSizes
      && Plain(key, s.dexSizes[key]) in s.files && s.files[Plain(key, s.dexSizes[key])] == s.dexCache[key]
  }

  ghost predicate FileOk(s: State, name: DexName, env: Env)
    requires name in s.files
  {
    match name
    case Plain(key, size) => key !in s.ambiguous ==> key in s.dexCache && key in s.dexSizes && s.dexSizes[key] == size
    case Hashed(_, hash, _) => env.hash(s.files[name]) == hash
  }

  ghost predicate PendingsOk(s: State) {
    forall key :: key in s.pending ==> PendingOk(s, key)
  }

  ghost predicate CachesOk(s: State) {
    forall key :: key in s.dexCache ==> CacheOk(s, key)
  }

  ghost predicate FilesOk(s: State, env: Env) {
    forall name :: name in s.files ==> FileOk(s, name, env)
  }

  ghost predicate SizesOk(s: State) {
    forall key :: key in s.dexSizes ==> ReasonableSize(s.dexSizes[key])
  }

  /** Nothing is associated with an ambiguous address. */
  ghost predicate NothingAmbiguous(s: State) {
    && (forall key :: key in s.methodRecords ==> key !in s.ambiguous)
    && (forall k :: k in s.sigCache ==> k.0 !in s.ambiguous)
  }

  ghost predicate Inv(s: State, env: Env) {
    PendingsOk(s) && CachesOk(s) && FilesOk(s, env) && SizesOk(s) && NothingAmbiguous(s)
  }

  lemma InitialInv(env: Env)
    ensures Inv(Initial(), env)
  {
  }

  lemma QuarantineKeeps(s: State, key: Key, env: Env)
    requires Inv(s, env)
    ensures Inv(Quarantine(s, key), env)
  {
    var t := Quarantine(s, key);
    forall k | k in t.pending ensures PendingOk(t, k) { assert PendingOk(s, k); }
    forall k | k in t.dexCache ensures CacheOk(t, k) { assert CacheOk(s, k); }
    forall name | name in t.files ensures FileOk(t, name, env) { assert FileOk(s, name, env); }
  }

  /** Observing a size, when it is reasonable and no different from before. */
  function Sized(s: State, key: Key, size: u32): State {
    s.(dexSizes := s.dexSizes[key := size])
  }

  lemma SizedKeeps(s: State, key: Key, size: u32, env: Env)
    requires Inv(s, env) && ReasonableSize(size) && (key in s.dexSizes ==> s.dexSizes[key] == size)
    ensures Inv(Sized(s, key, size), env)
  {
    var t := Sized(s, key, size);
    forall k | k in t.pending ensures PendingOk(t, k) { assert PendingOk(s, k); }
    forall k | k in t.dexCache ensures CacheOk(t, k) { assert CacheOk(s, k); }
    forall name | name in t.files ensures FileOk(t, name, env) { assert FileOk(s, name, env); }
  }

  lemma ResizedKeeps(s: State, key: Key, size: u32, env: Env)
    requires Inv(s, env) && ReasonableSize(size)
    ensures Inv(Quarantine(Sized(s, key, size), key), env)
  {
    var t := Quarantine(Sized(s, key, size), key);
    forall k | k in t.pending ensures PendingOk(t, k) { assert PendingOk(s, k); }
    forall k | k in t.dexCache ensures CacheOk(t, k) { assert CacheOk(s, k); }
    forall name | name in t.files ensures FileOk(t, name, env) { assert FileOk(s, name, env); }
  }

  lemma ObserveKeeps(s: State, key: Key, size: u32, env: Env)
    requires Inv(s, env)
    ensures Inv(Observe(s, key, size), env)
  {
    hide Inv, Quarantine;
    if !ReasonableSize(size) {
      QuarantineKeeps(s, key, env);
    } else if key in s.dexSizes && s.dexSizes[key] != size {
      ResizedKeeps(s, key, size, env);
    } else {
      SizedKeeps(s, key, size, env);
    }
  }

  /** An address still unambiguous after an observation has that size. */
  lemma ObservedSize(s: State, key: Key, size: u32)
    ensures key !in Observe(s, key, size).ambiguous ==>
              ReasonableSize(size) && key in Observe(s, key, size).dexSizes && Observe(s, key, size).dexSizes[key] == size
  {
    hide Quarantine;
    QuarantinedIsAmbiguous(s, key);
    QuarantinedIsAmbiguous(Sized(s, key, size), key);
  }

  lemma WriteKeeps(s: State, key: Key, size: u32, bytes: seq<byte>, env: Env, writeOk: bool)
    requires Inv(s, env)
    requires key !in s.ambiguous ==> key !in s.dexCache && key in s.dexSizes && s.dexSizes[key] == size
    ensures Inv(WriteDex(s, key, size, bytes, env, writeOk), env)
  {
    if writeOk {
      var t := WriteDex(s, key, size, bytes, env, true);
      forall k | k in t.pending ensures PendingOk(t, k) { assert PendingOk(s, k); }
      forall k | k in t.dexCache ensures CacheOk(t, k) {
        if k != key {
          assert CacheOk(s, k);
        }
      }
      forall name | name in t.files ensures FileOk(t, name, env) {
        if name in s.files {
          assert FileOk(s, name, env);
        }
      }
    }
  }

  lemma SaveKeeps(s: State, pid: Option<u32>, begin: u64, size: u32, bytes: seq<byte>, env: Env, skip: bool, writeOk: bool)
    requires Inv(s, env)
    ensures Inv(SaveDex(s, pid, begin, size, bytes, env, skip, writeOk), env)
  {
    hide Inv, Observe, Quarantine, WriteDex, OpenDex;
    if !(s.sealed || (pid.Some? && skip) || OpenDex(bytes).Err? || pid.None?) {
      var key := Key(pid.value, begin);
      var seen := Observe(s, key, size);
      ObserveKeeps(s, key, size, env);
      ObservedSize(s, key, size);
      if !(key in seen.dexCache && seen.dexCache[key] == bytes) {
        if key in seen.dexCache {
          QuarantineKeeps(seen, key, env);
          QuarantinedIsAmbiguous(seen, key);
          WriteKeeps(Quarantine(seen, key), key, size, bytes, env, writeOk);
        } else {
          WriteKeeps(seen, key, size, bytes, env, writeOk);
        }
      }
    }
  }

  lemma QuarantinedIsAmbiguous(s: State, key: Key)
    ensures key in Quarantine(s, key).ambiguous
  {
  }

  lemma SweepKeeps(s: State, stale: set<Key>, env: Env)
    requires Inv(s, env)
    ensures Inv(Sweep(s, stale), env)
  {
    var t := Sweep(s, stale);
    forall k | k in t.pending ensures PendingOk(t, k) { assert PendingOk(s, k); }
    forall k | k in t.dexCache ensures CacheOk(t, k) { assert CacheOk(s, k); }
    forall name | name in t.files ensures FileOk(t, name, env) { assert FileOk(s, name, env); }
  }

  lemma GrowKeeps(s: State, key: Key, p: Pending, env: Env)
    requires Inv(s, env) && key !in s.ambiguous && key !in s.dexCache
    requires PendingValid(p) && !Whole(p) && key in s.dexSizes && p.total == s.dexSizes[key]
    ensures Inv(s.(pending := s.pending[key := p]), env)
  {
    var t := s.(pending := s.pending[key := p]);
    forall k | k in t.pending ensures PendingOk(t, k) {
      if k != key {
        assert PendingOk(s, k);
      }
    }
    forall k | k in t.dexCache ensures CacheOk(t, k) { assert CacheOk(s, k); }
    forall name | name in t.files ensures FileOk(t, name, env) { assert FileOk(s, name, env); }
  }

  lemma PlaceValid(p: Pending, c: Chunk)
    requires PendingValid(p) && c.Fits(p.total)
    ensures PendingValid(Place(p, c)) && Place(p, c).total == p.total
  {
    hide Covered, Canonical, Recorded;
    RecordExact(p.intervals, c.offset, c.End());
    CoveredWithin(p.intervals, p.total);
    CoveredWithin(Place(p, c).intervals, p.total);
  }

  /** The entry a chunk is fed to. */
  lemma PendingForIs(s: State, key: Key, size: u32, env: Env)
    requires Inv(s, env) && key in s.dexSizes && s.dexSizes[key] == size
    ensures PendingValid(PendingFor(s, key, size)) && PendingFor(s, key, size).total == size
    ensures size > 0 ==> !Whole(PendingFor(s, key, size))
  {
    if key in s.pending {
      assert PendingOk(s, key);
    }
  }

  lemma AcceptKeeps(s: State, e: ChunkEvent, c: Chunk, env: Env, skip: bool, writeOk: bool)
    requires Inv(s, env) && e.key !in s.ambiguous && e.key in s.dexSizes && s.dexSizes[e.key] == e.size
    requires c.Fits(e.size)
    ensures Inv(AcceptChunk(s, e, c, env, skip, writeOk), env)
  {
    hide Inv, Quarantine, Conflicts, Place, Whole, SaveDex, PendingFor, PendingValid;
    if e.key in s.dexCache {
      QuarantineKeeps(s, e.key, env);
    } else {
      var p := PendingFor(s, e.key, e.size);
      PendingForIs(s, e.key, e.size, env);
      if Conflicts(p, c) {
        QuarantineKeeps(s, e.key, env);
      } else {
        PlaceValid(p, c);
        var q := Place(p, c);
        if Whole(q) {
          SweepKeeps(s, {e.key}, env);
          SaveKeeps(Sweep(s, {e.key}), Some(e.key.pid), e.key.begin, e.size, q.buf, env, skip, writeOk);
        } else {
          GrowKeeps(s, e.key, q, env);
        }
      }
    }
  }

  lemma ChunkKeeps(s: State, e: ChunkEvent, env: Env, skip: bool, writeOk: bool)
    requires Inv(s, env)
    ensures Inv(HandleChunk(s, e, env, skip, writeOk), env)
  {
    hide Inv, Observe, AcceptChunk;
    if ChunkInBounds(e) {
      ObserveKeeps(s, e.key, e.size, env);
      ObservedSize(s, e.key, e.size);
      var seen := Observe(s, e.key, e.size);
      if e.key !in seen.ambiguous && e.dataLen <= |e.body| {
        AcceptKeeps(seen, e, PieceOf(e), env, skip, writeOk);
      }
    }
  }

  lemma RecordKeeps(s: State, key: Key, idx: u32, code: seq<byte>, env: Env)
    requires Inv(s, env) && key !in s.ambiguous
    ensures Inv(RecordMethod(s, key, idx, code, env), env)
  {
    hide MethodName;
    var t := RecordMethod(s, key, idx, code, env);
    forall k | k in t.pending ensures PendingOk(t, k) { assert PendingOk(s, k); }
    forall k | k in t.dexCache ensures CacheOk(t, k) { assert CacheOk(s, k); }
    forall n | n in t.files ensures FileOk(t, n, env) { assert FileOk(s, n, env); }
  }

  lemma MethodKeeps(s: State, key: Key, size: u32, idx: u32, code: seq<byte>, env: Env)
    requires Inv(s, env)
    ensures Inv(HandleMethod(s, key, size, idx, code, env), env)
  {
    hide Inv, Observe, RecordMethod;
    ObserveKeeps(s, key, size, env);
    if key !in Observe(s, key, size).ambiguous {
      RecordKeeps(Observe(s, key, size), key, idx, code, env);
    }
  }

  lemma FlushKeeps(s: State, written: set<Key>, env: Env)
    requires Inv(s, env)
    ensures Inv(Flush(s, written), env)
  {
    var t := Flush(s, written);
    forall k | k in t.pending ensures PendingOk(t, k) { assert PendingOk(s, k); }
    forall k | k in t.dexCache ensures CacheOk(t, k) { assert CacheOk(s, k); }
    forall n | n in t.files ensures FileOk(t, n, env) { assert FileOk(s, n, env); }
  }

  lemma SealKeeps(s: State, env: Env)
    requires Inv(s, env)
    ensures Inv(s.(sealed := true), env)
  {
    var t := s.(sealed := true);
    forall k | k in t.pending ensures PendingOk(t, k) { assert PendingOk(s, k); }
    forall k | k in t.dexCache ensures CacheOk(t, k) { assert CacheOk(s, k); }
    forall n | n in t.files ensures FileOk(t, n, env) { assert FileOk(s, n, env); }
  }

  lemma StepKeeps(s: State, e: Event, env: Env)
    requires Inv(s, env)
    ensures Inv(Step(s, e, env), env)
  {
    hide Inv, Observe, HandleChunk, HandleMethod, SaveDex, Sweep, Flush;
    match e
    case SawDex(key, size) => ObserveKeeps(s, key, size, env);
    case SawChunk(chunk, skip, writeOk) => ChunkKeeps(s, chunk, env, skip, writeOk);
    case SawMethod(key, size, idx, code) => MethodKeeps(s, key, size, idx, code, env);
    case Scanned(pid, begin, size, bytes, skip, writeOk) => SaveKeeps(s, pid, begin, size, bytes, env, skip, writeOk);
    case Swept(stale) => SweepKeeps(s, stale, env);
    case Sealed => SealKeeps(s, env);
    case Flushed(written) => FlushKeeps(s, written, env);
  }

  /** The invariant holds in every state of every run. */
  lemma {:induction false} RunKeepsInv(s: State, events: seq<Event>, env: Env)
    requires Inv(s, env)
    ensures Inv(Run(s, events, env), env)
    decreases |events|
  {
    hide Inv, Step;
    if events != [] {
      StepKeeps(s, events[0], env);
      RunKeepsInv(Step(s, events[0], env), events[1..], env);
    }
  }

  // ----- what no run undoes -----

  ghost predicate Injective(env: Env) {
    forall a, b :: env.hash(a) == env.hash(b) ==> a == b
  }

  /** A file stays, and under a plain name it keeps its bytes. */
  ghost predicate FileStays(s: State, t: State, name: DexName) {
    name in s.files ==> name in t.files && (name.Plain? ==> t.files[name] == s.files[name])
  }

  /** While an address stays unambiguous its size and its cached bytes stay. */
  ghost predicate AddressStays(s: State, t: State, key: Key) {
    && (key in s.ambiguous ==> key in t.ambiguous)
    && (key !in t.ambiguous && key in s.dexSizes ==> key in t.dexSizes && t.dexSizes[key] == s.dexSizes[key])
    && (key !in t.ambiguous && key in s.dexCache ==> key in t.dexCache && t.dexCache[key] == s.dexCache[key])
  }

  ghost predicate Evolves(s: State, t: State) {
    && (forall name :: FileStays(s, t, name))
    && (forall key :: AddressStays(s, t, key))
  }

  lemma EvolvesTrans(s: State, t: State, u: State)
    requires Evolves(s, t) && Evolves(t, u)
    ensures Evolves(s, u)
  {
    forall name ensures FileStays(s, u, name) {
      assert FileStays(s, t, name) && FileStays(t, u, name);
    }
    forall key ensures AddressStays(s, u, key) {
      assert AddressStays(s, t, key) && AddressStays(t, u, key);
    }
  }

  lemma QuarantineEvolves(s: State, key: Key)
    ensures Evolves(s, Quarantine(s, key))
  {
  }

  lemma ObserveEvolves(s: State, key: Key, size: u32)
    ensures Evolves(s, Observe(s, key, size))
  {
    hide Quarantine, Evolves;
    QuarantineEvolves(s, key);
    if !(key in s.dexSizes && s.dexSizes[key] != size) {
      SizedEvolves(s, key, size);
    } else {
      ResizedEvolves(s, key, size);
    }
  }

  lemma SizedEvolves(s: State, key: Key, size: u32)
    requires key in s.dexSizes ==> s.dexSizes[key] == size
    ensures Evolves(s, Sized(s, key, size))
  {
  }

  lemma ResizedEvolves(s: State, key: Key, size: u32)
    ensures Evolves(s, Quarantine(Sized(s, key, size), key))
  {
  }

  lemma WriteEvolves(s: State, key: Key, size: u32, bytes: seq<byte>, env: Env, writeOk: bool)
    requires Inv(s, env)
    requires key !in s.ambiguous ==> key !in s.dexCache
    ensures Evolves(s, WriteDex(s, key, size, bytes, env, writeOk))
  {
    var t := WriteDex(s, key, size, bytes, env, writeOk);
    var written := NameOf(s, key, size, bytes, env);
    if written in s.files {
      assert FileOk(s, written, env);
    }
    forall name ensures FileStays(s, t, name) {
    }
    forall k ensures AddressStays(s, t, k) {
    }
  }

  lemma SaveEvolves(s: State, pid: Option<u32>, begin: u64, size: u32, bytes: seq<byte>, env: Env, skip: bool, writeOk: bool)
    requires Inv(s, env)
    ensures Evolves(s, SaveDex(s, pid, begin, size, bytes, env, skip, writeOk))
  {
    hide Inv, Observe, Quarantine, WriteDex, OpenDex, Evolves;
    EvolvesRefl(s);
    if !(s.sealed || (pid.Some? && skip) || OpenDex(bytes).Err? || pid.None?) {
      var key := Key(pid.value, begin);
      var seen := Observe(s, key, size);
      ObserveKeeps(s, key, size, env);
      ObserveEvolves(s, key, size);
      if !(key in seen.dexCache && seen.dexCache[key] == bytes) {
        if key in seen.dexCache {
          var checked := Quarantine(seen, key);
          QuarantineKeeps(seen, key, env);
          QuarantinedIsAmbiguous(seen, key);
          QuarantineEvolves(seen, key);
          WriteEvolves(checked, key, size, bytes, env, writeOk);
          EvolvesTrans(s, seen, checked);
          EvolvesTrans(s, checked, WriteDex(checked, key, size, bytes, env, writeOk));
        } else {
          WriteEvolves(seen, key, size, bytes, env, writeOk);
          EvolvesTrans(s, seen, WriteDex(seen, key, size, bytes, env, writeOk));
        }
      }
    }
  }

  lemma EvolvesRefl(s: State)
    ensures Evolves(s, s)
  {
  }

  /** Only pending entries, records, names or JSON files differ. */
  ghost predicate SameAddresses(s: State, t: State) {
    s.ambiguous == t.ambiguous && s.dexSizes == t.dexSizes && s.dexCache == t.dexCache && s.files == t.files
  }

  lemma SameEvolves(s: State, t: State)
    requires SameAddresses(s, t)
    ensures Evolves(s, t)
  {
  }

  lemma AcceptEvolves(s: State, e: ChunkEvent, c: Chunk, env: Env, skip: bool, writeOk: bool)
    requires Inv(s, env)
    ensures Evolves(s, AcceptChunk(s, e, c, env, skip, writeOk))
  {
    hide Inv, Quarantine, Conflicts, Place, Whole, SaveDex, PendingFor, Evolves;
    EvolvesRefl(s);
    QuarantineEvolves(s, e.key);
    if e.key !in s.dexCache {
      var q := Place(PendingFor(s, e.key, e.size), c);
      if Whole(q) {
        var t := Sweep(s, {e.key});
        SweepKeeps(s, {e.key}, env);
        SameEvolves(s, t);
        SaveEvolves(t, Some(e.key.pid), e.key.begin, e.size, q.buf, env, skip, writeOk);
        EvolvesTrans(s, t, SaveDex(t, Some(e.key.pid), e.key.begin, e.size, q.buf, env, skip, writeOk));
      } else {
        SameEvolves(s, s.(pending := s.pending[e.key := q]));
      }
    }
  }

  lemma ChunkEvolves(s: State, e: ChunkEvent, env: Env, skip: bool, writeOk: bool)
    requires Inv(s, env)
    ensures Evolves(s, HandleChunk(s, e, env, skip, writeOk))
  {
    hide Inv, Observe, AcceptChunk, Evolves;
    EvolvesRefl(s);
    if ChunkInBounds(e) {
      var seen := Observe(s, e.key, e.size);
      ObserveKeeps(s, e.key, e.size, env);
      ObserveEvolves(s, e.key, e.size);
      if e.key !in seen.ambiguous && e.dataLen <= |e.body| {
        AcceptEvolves(seen, e, PieceOf(e), env, skip, writeOk);
        EvolvesTrans(s, seen, AcceptChunk(seen, e, PieceOf(e), env, skip, writeOk));
      }
    }
  }

  lemma MethodEvolves(s: State, key: Key, size: u32, idx: u32, code: seq<byte>, env: Env)
    ensures Evolves(s, HandleMethod(s, key, size, idx, code, env))
  {
    hide Observe, RecordMethod, Evolves;
    var seen := Observe(s, key, size);
    ObserveEvolves(s, key, size);
    if key !in seen.ambiguous {
      RecordSame(seen, key, idx, code, env);
      SameEvolves(seen, RecordMethod(seen, key, idx, code, env));
      EvolvesTrans(s, seen, RecordMethod(seen, key, idx, code, env));
    }
  }

  lemma RecordSame(s: State, key: Key, idx: u32, code: seq<byte>, env: Env)
    ensures SameAddresses(s, RecordMethod(s, key, idx, code, env))
  {
    hide MethodName;
  }

  lemma StepEvolves(s: State, e: Event, env: Env)
    requires Inv(s, env)
    ensures Evolves(s, Step(s, e, env))
  {
    hide Inv, Observe, HandleChunk, HandleMethod, SaveDex, Evolves;
    match e
    case SawDex(key, size) => ObserveEvolves(s, key, size);
    case SawChunk(chunk, skip, writeOk) => ChunkEvolves(s, chunk, env, skip, writeOk);
    case SawMethod(key, size, idx, code) => MethodEvolves(s, key, size, idx, code, env);
    case Scanned(pid, begin, size, bytes, skip, writeOk) => SaveEvolves(s, pid, begin, size, bytes, env, skip, writeOk);
    case Swept(stale) => SameEvolves(s, Sweep(s, stale));
    case Sealed => SameEvolves(s, s.(sealed := true));
    case Flushed(written) => SameEvolves(s, Flush(s, written));
  }

  /** Over any run: ambiguous addresses stay ambiguous, unambiguous ones keep
      their size and their cached bytes, files stay, and those under plain names
      keep their bytes. */
  lemma {:induction false} RunEvolves(s: State, events: seq<Event>, env: Env)
    requires Inv(s, env)
    ensures Evolves(s, Run(s, events, env))
    decreases |events|
  {
    hide Inv, Step, Evolves;
    if events == [] {
      EvolvesRefl(s);
    } else {
      var t := Step(s, events[0], env);
      StepKeeps(s, events[0], env);
      StepEvolves(s, events[0], env);
      RunEvolves(t, events[1..], env);
      EvolvesTrans(s, t, Run(t, events[1..], env));
    }
  }

  /** Output files are write-once by content: over any run a file name once
      written only ever holds other bytes if the two have the same hash, which
      its name carries. */
  lemma FilesKeepBytes(s: State, events: seq<Event>, env: Env, name: DexName)
    requires Inv(s, env) && name in s.files
    ensures var t := Run(s, events, env);
            && name in t.files
            && (t.files[name] == s.files[name]
                || (name.Hashed? && env.hash(t.files[name]) == env.hash(s.files[name]) == name.hash))
    ensures Injective(env) ==> Run(s, events, env).files[name] == s.files[name]
  {
    hide Run, PendingsOk, CachesOk, SizesOk, NothingAmbiguous, AddressStays;
    var t := Run(s, events, env);
    RunKeepsInv(s, events, env);
    RunEvolves(s, events, env);
    assert FileStays(s, t, name) && FileOk(s, name, env) && FileOk(t, name, env);
  }

  // ----- every size an address was ever given -----

  /** The size an event reports for an address, when its handler gets that far. */
  function Reported(s: State, e: Event): Option<(Key, u32)> {
    match e
    case SawDex(key, size) => Some((key, size))
    case SawChunk(chunk, _, _) => if ChunkInBounds(chunk) then Some((chunk.key, chunk.size)) else None
    case SawMethod(key, size, _, _) => Some((key, size))
    case Scanned(pid, begin, size, bytes, skip, _) =>
      if s.sealed || skip || OpenDex(bytes).Err? || pid.None? then None else Some((Key(pid.value, begin), size))
    case _ => None
  }

  /** The address is ambiguous, or has this size. */
  ghost predicate HasSize(s: State, key: Key, size: u32) {
    key in s.ambiguous || (key in s.dexSizes && s.dexSizes[key] == size)
  }

  lemma HasSizeStays(s: State, t: State, key: Key, size: u32)
    requires Evolves(s, t) && HasSize(s, key, size)
    ensures HasSize(t, key, size)
  {
    assert AddressStays(s, t, key);
  }

  lemma ObservedHasSize(s: State, key: Key, size: u32)
    ensures HasSize(Observe(s, key, size), key, size)
  {
    hide Observe;
    ObservedSize(s, key, size);
  }

  lemma ReportedHasSize(s: State, e: Event, env: Env)
    requires Inv(s, env) && Reported(s, e).Some?
    ensures HasSize(Step(s, e, env), Reported(s, e).value.0, Reported(s, e).value.1)
  {
    hide Inv, Observe, HasSize, Evolves, OpenDex, WriteDex, Quarantine, AcceptChunk, RecordMethod, SameAddresses, SaveDex;
    var (key, size) := Reported(s, e).value;
    var seen := Observe(s, key, size);
    var t := Step(s, e, env);
    ObserveKeeps(s, key, size, env);
    ObservedHasSize(s, key, size);
    assert Evolves(seen, t) by {
      match e
      case SawDex(_, _) => EvolvesRefl(seen);
      case SawChunk(chunk, skip, writeOk) =>
        EvolvesRefl(seen);
        if chunk.key !in seen.ambiguous && chunk.dataLen <= |chunk.body| {
          AcceptEvolves(seen, chunk, PieceOf(chunk), env, skip, writeOk);
        }
      case SawMethod(_, _, idx, code) =>
        EvolvesRefl(seen);
        RecordSame(seen, key, idx, code, env);
        SameEvolves(seen, RecordMethod(seen, key, idx, code, env));
      case Scanned(pid, begin, _, bytes, skip, writeOk) => SaveTailEvolves(s, pid.value, begin, size, bytes, env, skip, writeOk);
    }
    HasSizeStays(seen, t, key, size);
  }

  lemma SaveTailEvolves(s: State, pid: u32, begin: u64, size: u32, bytes: seq<byte>, env: Env, skip: bool, writeOk: bool)
    requires Inv(s, env) && !s.sealed && !skip && OpenDex(bytes).Ok?
    ensures Evolves(Observe(s, Key(pid, begin), size), SaveDex(s, Some(pid), begin, size, bytes, env, skip, writeOk))
  {
    hide Inv, Observe, Quarantine, WriteDex, OpenDex, Evolves;
    var key := Key(pid, begin);
    var seen := Observe(s, key, size);
    EvolvesRefl(seen);
    ObserveKeeps(s, key, size, env);
    if key in seen.dexCache {
      var checked := Quarantine(seen, key);
      QuarantineKeeps(seen, key, env);
      QuarantinedIsAmbiguous(seen, key);
      QuarantineEvolves(seen, key);
      WriteEvolves(checked, key, size, bytes, env, writeOk);
      EvolvesTrans(seen, checked, WriteDex(checked, key, size, bytes, env, writeOk));
    } else {
      WriteEvolves(seen, key, size, bytes, env, writeOk);
    }
  }

  /** Every size any event of the run reports for an address still unambiguous
      at the end is the size it then has: all of them were equal. */
  lemma {:induction false} AllSizesEqual(s: State, events: seq<Event>, env: Env, i: nat)
    requires Inv(s, env) && i < |events|
    requires Reported(Run(s, events[..i], env), events[i]).Some?
    ensures var (key, size) := Reported(Run(s, events[..i], env), events[i]).value;
            HasSize(Run(s, events, env), key, size)
    decreases |events|
  {
    hide Inv, Step, Evolves, HasSize, Reported;
    var t := Step(s, events[0], env);
    StepKeeps(s, events[0], env);
    if i == 0 {
      assert events[..0] == [];
      var (key, size) := Reported(s, events[0]).value;
      ReportedHasSize(s, events[0], env);
      RunEvolves(t, events[1..], env);
      HasSizeStays(t, Run(t, events[1..], env), key, size);
    } else {
      assert events[1..][..i - 1] == events[..i][1..];
      AllSizesEqual(t, events[1..], env, i - 1);
    }
  }
}
