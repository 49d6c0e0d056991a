/**
  The code JSONs a run leaves behind belong to the .dex files beside them.
 */
module CodeFiles {
  import opened Bytes
  import opened Dex
  import opened Intervals
  import opened Reassembly
  import opened Capture
  import opened CaptureProofs

  /** The caller passes a scanned file's own length as its size. */
  ghost predicate SavesWhole(e: Event) {
    e.Scanned? ==> e.size == |e.bytes|
  }

  /** A cached file is as long as the size its address was given. */
  ghost predicate LengthsOk(s: State) {
    forall key :: key in s.dexCache && key !in s.ambiguous ==> LengthOk(s, key)
  }

  ghost predicate LengthOk(s: State, key: Key)
    requires key in s.dexCache
  {
    key in s.dexSizes && |s.dexCache[key]| == s.dexSizes[key]
  }

  /** Every code JSON has the stem of a plain .dex file of the size it names,
      which holds the cached bytes of an unambiguous address. */
  ghost predicate StemsOk(s: State) {
    forall name :: name in s.codeFiles ==> StemOk(s, name)
  }

  ghost predicate StemOk(s: State, name: CodeName) {
    var dex := Plain(name.key, name.size);
    && dex in s.files && |s.files[dex]| == name.size
    && (name.key !in s.ambiguous ==> name.key in s.dexCache && s.dexCache[name.key] == s.files[dex])
  }

  ghost predicate SameCodeFiles(s: State, t: State) {
    s.codeFiles == t.codeFiles
  }

  lemma StemsStay(s: State, t: State)
    requires StemsOk(s) && Evolves(s, t) && SameCodeFiles(s, t)
    ensures StemsOk(t)
  {
    forall name | name in t.codeFiles ensures StemOk(t, name) {
      assert StemOk(s, name) && FileStays(s, t, Plain(name.key, name.size)) && AddressStays(s, t, name.key);
    }
  }

  /** The cache is kept, or gains one file of the observed size. */
  lemma LengthsStay(s: State, t: State)
    requires LengthsOk(s) && Evolves(s, t) && CachesOk(t)
    requires forall key :: key in t.dexCache && key !in t.ambiguous && key !in s.dexCache ==> LengthOk(t, key)
    requires forall key :: key in s.dexCache && key !in t.ambiguous ==> key in t.dexCache && t.dexCache[key] == s.dexCache[key]
    ensures LengthsOk(t)
  {
    forall key | key in t.dexCache && key !in t.ambiguous ensures LengthOk(t, key) {
      assert AddressStays(s, t, key);
      if key in s.dexCache {
        assert LengthOk(s, key);
      }
    }
  }

  lemma SaveLengths(s: State, pid: Option<u32>, begin: u64, size: u32, bytes: seq<byte>, env: Env, skip: bool, writeOk: bool)
    requires Inv(s, env) && LengthsOk(s) && size == |bytes|
    ensures LengthsOk(SaveDex(s, pid, begin, size, bytes, env, skip, writeOk))
    ensures SameCodeFiles(s, SaveDex(s, pid, begin, size, bytes, env, skip, writeOk))
  {
    hide FilesOk, PendingsOk, NothingAmbiguous, OpenDex, Evolves, CacheOk, LengthOk;
    var t := SaveDex(s, pid, begin, size, bytes, env, skip, writeOk);
    SaveKeeps(s, pid, begin, size, bytes, env, skip, writeOk);
    SaveEvolves(s, pid, begin, size, bytes, env, skip, writeOk);
    SavedCache(s, pid, begin, size, bytes, env, skip, writeOk);
    forall key | key in t.dexCache && key !in t.ambiguous && key !in s.dexCache ensures LengthOk(t, key) {
      assert CacheOk(t, key);
      SavedLength(t, key, s, size, bytes);
    }
    forall key | key in s.dexCache && key !in t.ambiguous ensures key in t.dexCache && t.dexCache[key] == s.dexCache[key] {
      EvolvesAt(s, t, key);
    }
    LengthsStay(s, t);
  }

  lemma EvolvesAt(s: State, t: State, key: Key)
    requires Evolves(s, t)
    ensures AddressStays(s, t, key)
  {
  }

  lemma SavedCache(s: State, pid: Option<u32>, begin: u64, size: u32, bytes: seq<byte>, env: Env, skip: bool, writeOk: bool)
    ensures var t := SaveDex(s, pid, begin, size, bytes, env, skip, writeOk);
            && SameCodeFiles(s, t)
            && forall key :: key in t.dexCache && key !in s.dexCache ==> t.dexCache[key] == bytes && HasSize(t, key, size)
  {
    hide OpenDex, Observe, Quarantine, HasSize;
    if !(s.sealed || (pid.Some? && skip) || OpenDex(bytes).Err? || pid.None?) {
      var key := Key(pid.value, begin);
      var seen := Observe(s, key, size);
      ObservedHasSize(s, key, size);
      ObserveSame(s, key, size);
      QuarantineSame(seen, key);
      QuarantineHasSize(seen, key, size);
      WriteHasSize(seen, key, size, bytes, env, writeOk);
      WriteHasSize(Quarantine(seen, key), key, size, bytes, env, writeOk);
    }
  }

  lemma QuarantineSame(s: State, key: Key)
    ensures Quarantine(s, key).dexCache == s.dexCache && SameCodeFiles(s, Quarantine(s, key))
  {
  }

  lemma ObserveSame(s: State, key: Key, size: u32)
    ensures Observe(s, key, size).dexCache == s.dexCache && SameCodeFiles(s, Observe(s, key, size))
  {
    hide Quarantine;
    QuarantineSame(s, key);
    QuarantineSame(Sized(s, key, size), key);
  }

  lemma QuarantineHasSize(s: State, key: Key, size: u32)
    ensures HasSize(Quarantine(s, key), key, size)
  {
  }

  lemma WriteHasSize(s: State, key: Key, size: u32, bytes: seq<byte>, env: Env, writeOk: bool)
    requires HasSize(s, key, size)
    ensures HasSize(WriteDex(s, key, size, bytes, env, writeOk), key, size)
  {
  }

  lemma SavedLength(t: State, key: Key, s: State, size: u32, bytes: seq<byte>)
    requires key in t.dexCache && key !in t.ambiguous && t.dexCache[key] == bytes && HasSize(t, key, size) && size == |bytes|
    ensures LengthOk(t, key)
  {
  }

  lemma AcceptLengths(s: State, e: ChunkEvent, c: Chunk, env: Env, skip: bool, writeOk: bool)
    requires Inv(s, env) && LengthsOk(s) && e.key in s.dexSizes && s.dexSizes[e.key] == e.size
    requires c.Fits(e.size)
    ensures LengthsOk(AcceptChunk(s, e, c, env, skip, writeOk)) && SameCodeFiles(s, AcceptChunk(s, e, c, env, skip, writeOk))
  {
    hide Inv, Quarantine, Conflicts, Place, Whole, SaveDex, PendingFor, PendingValid, LengthsOk;
    QuarantineLengths(s, e.key);
    QuarantineSame(s, e.key);
    if e.key !in s.dexCache {
      PendingForIs(s, e.key, e.size, env);
      var p := PendingFor(s, e.key, e.size);
      PlaceValid(p, c);
      var q := Place(p, c);
      PendingLengths(s, s.pending[e.key := q]);
      PendingLengths(s, s.pending - {e.key});
      if Whole(q) {
        ValidLength(q);
        SweepKeeps(s, {e.key}, env);
        SaveLengths(Sweep(s, {e.key}), Some(e.key.pid), e.key.begin, e.size, q.buf, env, skip, writeOk);
      }
    }
  }

  lemma ValidLength(p: Pending)
    requires PendingValid(p)
    ensures |p.buf| == p.total
  {
  }

  lemma QuarantineLengths(s: State, key: Key)
    requires LengthsOk(s)
    ensures LengthsOk(Quarantine(s, key))
  {
    var t := Quarantine(s, key);
    forall k | k in t.dexCache && k !in t.ambiguous ensures LengthOk(t, k) { assert LengthOk(s, k); }
  }

  lemma PendingLengths(s: State, pending: map<Key, Pending>)
    requires LengthsOk(s)
    ensures LengthsOk(s.(pending := pending))
  {
    forall k | k in s.dexCache && k !in s.ambiguous ensures LengthOk(s.(pending := pending), k) { assert LengthOk(s, k); }
  }

  lemma ObserveLengths(s: State, key: Key, size: u32, env: Env)
    requires Inv(s, env) && LengthsOk(s)
    ensures LengthsOk(Observe(s, key, size))
  {
    hide FilesOk, PendingsOk, NothingAmbiguous, Evolves, CacheOk, Observe, AddressStays;
    var t := Observe(s, key, size);
    ObserveEvolves(s, key, size);
    ObserveSame(s, key, size);
    ObserveKeeps(s, key, size, env);
    forall k | k in s.dexCache && k !in t.ambiguous ensures k in t.dexCache && t.dexCache[k] == s.dexCache[k] {
    }
    LengthsStay(s, t);
  }

  lemma FlushStems(s: State, written: set<Key>, env: Env)
    requires Inv(s, env) && LengthsOk(s) && StemsOk(s)
    ensures StemsOk(Flush(s, written)) && LengthsOk(Flush(s, written))
  {
    var t := Flush(s, written);
    forall k | k in t.dexCache && k !in t.ambiguous ensures LengthOk(t, k) { assert LengthOk(s, k); }
    forall name | name in t.codeFiles
      ensures StemOk(t, name)
    {
      if name in FlushedFiles(s, s.methodRecords.Keys * written) {
        FlushedStem(s, name.key, env);
      } else {
        assert StemOk(s, name);
      }
    }
  }

  /** The JSON flushed for an address carries the stem of the .dex file that
      holds exactly its cached bytes. */
  lemma FlushedStem(s: State, key: Key, env: Env)
    requires Inv(s, env) && LengthsOk(s) && Flushable(s, key)
    ensures key !in s.ambiguous
    ensures var name := CodeNameOf(s, key);
            && name.key == key && name.size == |s.dexCache[key]|
            && Plain(key, name.size) in s.files && s.files[Plain(key, name.size)] == s.dexCache[key]
  {
    hide PendingOk, FileOk;
    assert CacheOk(s, key) && LengthOk(s, key);
    assert s.dexCache[key] == s.files[Plain(key, s.dexSizes[key])];
  }

  lemma StepStems(s: State, e: Event, env: Env)
    requires Inv(s, env) && LengthsOk(s) && StemsOk(s) && SavesWhole(e)
    ensures LengthsOk(Step(s, e, env)) && StemsOk(Step(s, e, env))
  {
    hide Inv, Observe, HandleChunk, HandleMethod, SaveDex, Evolves, Flush, LengthsOk, StemsOk, SameCodeFiles;
    StepEvolves(s, e, env);
    match e
    case SawDex(key, size) =>
      ObserveLengths(s, key, size, env);
      ObserveSame(s, key, size);
      StemsStay(s, Observe(s, key, size));
    case SawChunk(chunk, skip, writeOk) =>
      ChunkLengths(s, chunk, env, skip, writeOk);
      StemsStay(s, HandleChunk(s, chunk, env, skip, writeOk));
    case SawMethod(key, size, idx, code) =>
      MethodLengths(s, key, size, idx, code, env);
      StemsStay(s, HandleMethod(s, key, size, idx, code, env));
    case Scanned(pid, begin, size, bytes, skip, writeOk) =>
      SaveLengths(s, pid, begin, size, bytes, env, skip, writeOk);
      StemsStay(s, SaveDex(s, pid, begin, size, bytes, env, skip, writeOk));
    case Swept(stale) =>
      PendingLengths(s, s.pending - stale);
      SameFiles(s, Sweep(s, stale));
      StemsStay(s, Sweep(s, stale));
    case Sealed =>
      SealLengths(s);
      SameFiles(s, s.(sealed := true));
      StemsStay(s, s.(sealed := true));
    case Flushed(written) => FlushStems(s, written, env);
  }

  lemma SameFiles(s: State, t: State)
    requires s.codeFiles == t.codeFiles
    ensures SameCodeFiles(s, t)
  {
  }

  lemma SealLengths(s: State)
    requires LengthsOk(s)
    ensures LengthsOk(s.(sealed := true))
  {
    forall k | k in s.dexCache && k !in s.ambiguous ensures LengthOk(s.(sealed := true), k) { assert LengthOk(s, k); }
  }

  lemma ChunkLengths(s: State, e: ChunkEvent, env: Env, skip: bool, writeOk: bool)
    requires Inv(s, env) && LengthsOk(s)
    ensures LengthsOk(HandleChunk(s, e, env, skip, writeOk)) && SameCodeFiles(s, HandleChunk(s, e, env, skip, writeOk))
  {
    hide Inv, Observe, AcceptChunk, LengthsOk;
    if ChunkInBounds(e) {
      var seen := Observe(s, e.key, e.size);
      ObserveKeeps(s, e.key, e.size, env);
      ObserveLengths(s, e.key, e.size, env);
      ObserveSame(s, e.key, e.size);
      ObservedSize(s, e.key, e.size);
      if e.key !in seen.ambiguous && e.dataLen <= |e.body| {
        AcceptLengths(seen, e, PieceOf(e), env, skip, writeOk);
      }
    }
  }

  lemma MethodLengths(s: State, key: Key, size: u32, idx: u32, code: seq<byte>, env: Env)
    requires Inv(s, env) && LengthsOk(s)
    ensures LengthsOk(HandleMethod(s, key, size, idx, code, env))
    ensures SameCodeFiles(s, HandleMethod(s, key, size, idx, code, env))
  {
    hide Inv, Observe, MethodName;
    var seen := Observe(s, key, size);
    ObserveLengths(s, key, size, env);
    ObserveSame(s, key, size);
    var t := HandleMethod(s, key, size, idx, code, env);
    forall k | k in t.dexCache && k !in t.ambiguous ensures LengthOk(t, k) { assert LengthOk(seen, k); }
  }

  /** Over any run whose scans pass whole files, every code JSON ever written has
      the stem of a .dex file of that size, holding the cached bytes of its
      address while that stays unambiguous. */
  lemma {:induction false} RunStems(s: State, events: seq<Event>, env: Env)
    requires Inv(s, env) && LengthsOk(s) && StemsOk(s)
    requires forall e :: e in events ==> SavesWhole(e)
    ensures LengthsOk(Run(s, events, env)) && StemsOk(Run(s, events, env))
    decreases |events|
  {
    hide Inv, Step, LengthsOk, StemsOk, SavesWhole;
    if events != [] {
      assert events[0] in events && forall e :: e in events[1..] ==> e in events;
      StepKeeps(s, events[0], env);
      StepStems(s, events[0], env);
      RunStems(Step(s, events[0], env), events[1..], env);
    }
  }

  /** What an address had cached when its JSON was flushed is what the .dex file
      of that stem holds ever after, ambiguous or not. */
  lemma FlushedForGood(s: State, events: seq<Event>, env: Env, i: nat, key: Key)
    requires Inv(s, env) && LengthsOk(s) && StemsOk(s) && i <= |events|
    requires forall e :: e in events ==> SavesWhole(e)
    requires Flushable(Run(s, events[..i], env), key)
    ensures var before, t := Run(s, events[..i], env), Run(s, events, env);
            var name := CodeNameOf(before, key);
            && Plain(key, name.size) in t.files && t.files[Plain(key, name.size)] == before.dexCache[key]
            && |before.dexCache[key]| == name.size
  {
    hide Run, Inv, LengthsOk, StemsOk, AddressStays, SavesWhole;
    var u := Run(s, events[..i], env);
    RunKeepsInv(s, events[..i], env);
    assert forall e :: e in events[..i] ==> e in events;
    RunStems(s, events[..i], env);
    FlushedStem(u, key, env);
    RunJoin(s, events, env, i);
    RunEvolves(u, events[i..], env);
    assert FileStays(u, Run(s, events, env), Plain(key, CodeNameOf(u, key).size));
  }

  lemma {:induction false} RunJoin(s: State, events: seq<Event>, env: Env, i: nat)
    requires i <= |events|
    ensures Run(Run(s, events[..i], env), events[i..], env) == Run(s, events, env)
    decreases |events|
  {
    hide Step;
    if i == 0 {
      assert events[..0] == [] && events[0..] == events;
    } else {
      assert events[..i][1..] == events[1..][..i - 1] && events[i..] == events[1..][i - 1..];
      RunJoin(Step(s, events[0], env), events[1..], env, i - 1);
    }
  }
}
