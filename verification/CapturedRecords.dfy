/**
  Which records a code JSON holds: the captured methods of its address since the
  last flush, each once and in order, under the names its file gives them.
 */
module CapturedRecords {
  import opened Bytes
  import opened Dex
  import opened Intervals
  import opened Reassembly
  import opened Capture
  import opened CaptureProofs
  import opened CodeFiles

  ghost function Cached(s: State, key: Key): Option<seq<byte>> {
    if key in s.dexCache then Some(s.dexCache[key]) else None
  }

  ghost function RecordsOf(s: State, key: Key): seq<Record> {
    if key in s.methodRecords then s.methodRecords[key] else []
  }

  // ----- names are those of the cached file -----

  /** A remembered name is the one the file cached now gives. */
  ghost predicate NamesFresh(s: State, env: Env) {
    forall k :: k in s.sigCache ==> s.sigCache[k] == env.describe(Cached(s, k.0), k.1)
  }

  /** The records of `key` stay, and names stay right. */
  ghost predicate Undisturbed(s: State, t: State, key: Key, env: Env) {
    && (key !in t.ambiguous ==> key !in s.ambiguous && RecordsOf(t, key) == RecordsOf(s, key))
    && (NamesFresh(s, env) ==> NamesFresh(t, env))
  }

  lemma Undisturbing(s: State, t: State, u: State, key: Key, env: Env)
    requires Undisturbed(s, t, key, env) && Undisturbed(t, u, key, env)
    ensures Undisturbed(s, u, key, env)
  {
    hide NamesFresh, RecordsOf;
  }

  lemma QuarantineLeaves(s: State, other: Key, key: Key, env: Env)
    ensures Undisturbed(s, Quarantine(s, other), key, env)
  {
  }

  lemma ObserveLeaves(s: State, other: Key, size: u32, key: Key, env: Env)
    ensures Undisturbed(s, Observe(s, other, size), key, env)
  {
    hide Quarantine;
    QuarantineLeaves(s, other, key, env);
    QuarantineLeaves(Sized(s, other, size), other, key, env);
  }

  lemma WriteLeaves(s: State, other: Key, size: u32, bytes: seq<byte>, env: Env, writeOk: bool, key: Key)
    ensures Undisturbed(s, WriteDex(s, other, size, bytes, env, writeOk), key, env)
  {
    hide NameOf;
  }

  lemma SaveLeaves(s: State, pid: Option<u32>, begin: u64, size: u32, bytes: seq<byte>, env: Env, skip: bool, writeOk: bool, key: Key)
    ensures Undisturbed(s, SaveDex(s, pid, begin, size, bytes, env, skip, writeOk), key, env)
  {
    hide Observe, Quarantine, WriteDex, OpenDex, NamesFresh, RecordsOf;
    if pid.Some? {
      var other := Key(pid.value, begin);
      var seen := Observe(s, other, size);
      ObserveLeaves(s, other, size, key, env);
      QuarantineLeaves(seen, other, key, env);
      WriteLeaves(seen, other, size, bytes, env, writeOk, key);
      WriteLeaves(Quarantine(seen, other), other, size, bytes, env, writeOk, key);
    }
  }

  lemma PendingLeaves(s: State, pending: map<Key, Pending>, key: Key, env: Env)
    ensures Undisturbed(s, s.(pending := pending), key, env)
  {
  }

  lemma AcceptLeaves(s: State, e: ChunkEvent, c: Chunk, env: Env, skip: bool, writeOk: bool, key: Key)
    ensures Undisturbed(s, AcceptChunk(s, e, c, env, skip, writeOk), key, env)
  {
    hide Quarantine, Conflicts, Place, Whole, SaveDex, PendingFor, Undisturbed, Repeats;
    QuarantineLeaves(s, e.key, key, env);
    PendingLeaves(s, s.pending, key, env);
    if e.key !in s.dexCache {
      var q := Place(PendingFor(s, e.key, e.size), c);
      var cleared := s.(pending := s.pending - {e.key});
      PendingLeaves(s, cleared.pending, key, env);
      PendingLeaves(s, s.pending[e.key := q], key, env);
      SaveLeaves(cleared, Some(e.key.pid), e.key.begin, e.size, q.buf, env, skip, writeOk, key);
      Undisturbing(s, cleared, SaveDex(cleared, Some(e.key.pid), e.key.begin, e.size, q.buf, env, skip, writeOk), key, env);
    }
  }

  lemma ChunkLeaves(s: State, e: ChunkEvent, env: Env, skip: bool, writeOk: bool, key: Key)
    ensures Undisturbed(s, HandleChunk(s, e, env, skip, writeOk), key, env)
  {
    hide Observe, AcceptChunk, NamesFresh, RecordsOf;
    if ChunkInBounds(e) {
      var seen := Observe(s, e.key, e.size);
      ObserveLeaves(s, e.key, e.size, key, env);
      if e.dataLen <= |e.body| {
        AcceptLeaves(seen, e, PieceOf(e), env, skip, writeOk, key);
      }
    }
  }

  // ----- one event -----

  /** The record an event adds for `key`, `file` being its cached file. */
  ghost function Captures(e: Event, key: Key, file: Option<seq<byte>>, env: Env): seq<Record> {
    if e.SawMethod? && e.key == key && e.code != [] then [Record(env.describe(file, e.idx), e.idx, e.code)] else []
  }

  lemma MethodCaptures(s: State, e: Event, env: Env, key: Key)
    requires e.SawMethod? && NamesFresh(s, env) && key !in Step(s, e, env).ambiguous
    ensures RecordsOf(Step(s, e, env), key) == RecordsOf(s, key) + Captures(e, key, Cached(s, key), env)
    ensures key !in s.ambiguous && NamesFresh(Step(s, e, env), env)
  {
    hide Observe;
    var seen := Observe(s, e.key, e.size);
    ObserveLeaves(s, e.key, e.size, key, env);
    ObserveSame(s, e.key, e.size);
    QuarantinedNothing(s, e.key, e.size);
  }

  lemma QuarantinedNothing(s: State, key: Key, size: u32)
    ensures key in Observe(s, key, size).ambiguous || Observe(s, key, size) == Sized(s, key, size)
  {
  }

  lemma MethodKeepsNames(s: State, e: Event, env: Env)
    requires e.SawMethod? && NamesFresh(s, env)
    ensures NamesFresh(Step(s, e, env), env)
  {
    hide Observe;
    ObserveLeaves(s, e.key, e.size, e.key, env);
  }

  /** What one event does to the records of an address still unambiguous after it. */
  lemma StepCaptures(s: State, e: Event, env: Env, key: Key)
    requires NamesFresh(s, env)
    ensures NamesFresh(Step(s, e, env), env)
    ensures key !in Step(s, e, env).ambiguous ==>
              key !in s.ambiguous
              && RecordsOf(Step(s, e, env), key)
              == if e.Flushed? then [] else RecordsOf(s, key) + Captures(e, key, Cached(s, key), env)
  {
    hide Observe, HandleChunk, HandleMethod, SaveDex;
    match e
    case SawDex(other, size) => ObserveLeaves(s, other, size, key, env);
    case SawChunk(chunk, skip, writeOk) => ChunkLeaves(s, chunk, env, skip, writeOk, key);
    case SawMethod(other, size, idx, code) =>
      MethodKeepsNames(s, e, env);
      if key !in Step(s, e, env).ambiguous {
        MethodCaptures(s, e, env, key);
      }
    case Scanned(pid, begin, size, bytes, skip, writeOk) => SaveLeaves(s, pid, begin, size, bytes, env, skip, writeOk, key);
    case Swept(stale) =>
    case Sealed =>
    case Flushed(written) =>
  }

  // ----- whole runs -----

  /** The methods of `key` captured by `events` since the last flush, named from
      the file cached when each was seen. */
  ghost function Captured(events: seq<Event>, key: Key, env: Env): seq<Record>
    decreases |events|
  {
    if events == [] then []
    else
      var n := |events| - 1;
      if events[n].Flushed? then []
      else
        Captured(events[..n], key, env)
        + Captures(events[n], key, Cached(Run(Initial(), events[..n], env), key), env)
  }

  lemma RunLast(s: State, events: seq<Event>, env: Env)
    requires events != []
    ensures Run(s, events, env) == Step(Run(s, events[..|events| - 1], env), events[|events| - 1], env)
  {
    hide Step;
    var n := |events| - 1;
    RunJoin(s, events, env, n);
    assert events[n..] == [events[n]];
    RunOne(Run(s, events[..n], env), events[n], env);
  }

  lemma RunOne(s: State, e: Event, env: Env)
    ensures Run(s, [e], env) == Step(s, e, env)
  {
    hide Step;
    assert [e][1..] == [];
  }

  /** Over any run, an address that is unambiguous at the end has exactly the
      records captured for it since the last flush. */
  lemma {:induction false} RecordsAreCaptured(events: seq<Event>, env: Env, key: Key)
    ensures NamesFresh(Run(Initial(), events, env), env)
    ensures key !in Run(Initial(), events, env).ambiguous ==>
              RecordsOf(Run(Initial(), events, env), key) == Captured(events, key, env)
    decreases |events|
  {
    hide Step, NamesFresh, RecordsOf, Captures;
    if events == [] {
      NothingYet(env, key);
    } else {
      var n := |events| - 1;
      RecordsAreCaptured(events[..n], env, key);
      RunLast(Initial(), events, env);
      StepCaptures(Run(Initial(), events[..n], env), events[n], env, key);
    }
  }

  lemma NothingYet(env: Env, key: Key)
    ensures NamesFresh(Initial(), env) && RecordsOf(Initial(), key) == []
  {
  }

  /** An address has records exactly when it is unambiguous and some were captured;
      nothing is recorded under an ambiguous one. */
  lemma RecordedIs(events: seq<Event>, env: Env, key: Key)
    ensures var s := Run(Initial(), events, env);
            && (key in s.methodRecords ==> key !in s.ambiguous)
            && (key !in s.ambiguous ==> RecordsOf(s, key) == Captured(events, key, env))
  {
    hide Run, RecordsOf, NamesFresh;
    InitialInv(env);
    RunKeepsInv(Initial(), events, env);
    RecordsAreCaptured(events, env, key);
  }

  /** What a flush writes: for each address whose write goes through, if it is
      unambiguous, has a saved file and captured something, the JSON beside that
      file becomes exactly what was captured; every other JSON stays. */
  lemma FlushWritesCaptured(events: seq<Event>, env: Env, written: set<Key>)
    ensures var s := Run(Initial(), events, env);
            var t := Run(Initial(), events + [Flushed(written)], env);
            t.methodRecords == map[] && forall name :: JsonAfter(s, t, events, env, written, name)
  {
    hide Run, RecordsOf, Captured;
    var s := Run(Initial(), events, env);
    var all := events + [Flushed(written)];
    assert all[..|all| - 1] == events;
    RunLast(Initial(), all, env);
    forall name ensures JsonAfter(s, Flush(s, written), events, env, written, name) {
      RecordedIs(events, env, name.key);
      FlushOne(s, written, name);
    }
  }

  /** `name` holds what was captured if it was written, and else what it held. */
  ghost predicate JsonAfter(s: State, t: State, events: seq<Event>, env: Env, written: set<Key>, name: CodeName) {
    if WroteTo(s, events, env, written, name) then
      name in t.codeFiles && t.codeFiles[name] == Captured(events, name.key, env)
    else
      && (name in t.codeFiles <==> name in s.codeFiles)
      && (name in s.codeFiles ==> t.codeFiles[name] == s.codeFiles[name])
  }

  /** A flush writes the JSON `name`. */
  ghost predicate WroteTo(s: State, events: seq<Event>, env: Env, written: set<Key>, name: CodeName) {
    && name.key in written && name.key !in s.ambiguous && Captured(events, name.key, env) != []
    && name.key in s.dexCache && name.size == Wrap32(|s.dexCache[name.key]|)
  }

  lemma FlushOne(s: State, written: set<Key>, name: CodeName)
    ensures var t := Flush(s, written);
            var writes := name.key in written && name.key !in s.ambiguous && RecordsOf(s, name.key) != []
                          && name.key in s.dexCache && name.size == Wrap32(|s.dexCache[name.key]|);
            && (writes ==> name in t.codeFiles && t.codeFiles[name] == RecordsOf(s, name.key))
            && (!writes ==> (name in t.codeFiles <==> name in s.codeFiles))
            && (!writes && name in s.codeFiles ==> t.codeFiles[name] == s.codeFiles[name])
  {
  }

  /** No event but a flush touches a JSON. */
  lemma OnlyFlushesWrite(s: State, e: Event, env: Env)
    requires !e.Flushed?
    ensures Step(s, e, env).codeFiles == s.codeFiles
  {
    hide Observe, HandleChunk, HandleMethod, SaveDex;
    match e
    case SawDex(key, size) => ObserveSame(s, key, size);
    case SawChunk(chunk, skip, writeOk) => ChunkSame(s, chunk, env, skip, writeOk);
    case SawMethod(key, size, idx, code) => MethodSame(s, key, size, idx, code, env);
    case Scanned(pid, begin, size, bytes, skip, writeOk) => SavedCache(s, pid, begin, size, bytes, env, skip, writeOk);
    case Swept(stale) =>
    case Sealed =>
    case Flushed(written) =>
  }

  lemma ChunkSame(s: State, e: ChunkEvent, env: Env, skip: bool, writeOk: bool)
    ensures HandleChunk(s, e, env, skip, writeOk).codeFiles == s.codeFiles
  {
    hide Observe, SaveDex, Quarantine, Place, Conflicts, Whole, PendingFor;
    ObserveSame(s, e.key, e.size);
    var seen := Observe(s, e.key, e.size);
    QuarantineSame(seen, e.key);
    if e.dataLen <= |e.body| {
      var q := Place(PendingFor(seen, e.key, e.size), PieceOf(e));
      SavedCache(seen.(pending := seen.pending - {e.key}), Some(e.key.pid), e.key.begin, e.size, q.buf, env, skip, writeOk);
    }
  }

  lemma MethodSame(s: State, key: Key, size: u32, idx: u32, code: seq<byte>, env: Env)
    ensures HandleMethod(s, key, size, idx, code, env).codeFiles == s.codeFiles
  {
    hide Observe, MethodName;
    ObserveSame(s, key, size);
  }

  /** Every JSON a run leaves is what one of its flushes captured for that
      address. */
  lemma {:induction false} JsonsAreCaptured(events: seq<Event>, env: Env, name: CodeName)
    requires name in Run(Initial(), events, env).codeFiles
    ensures exists i: nat :: FlushedAt(events, env, name, i)
                        && Run(Initial(), events, env).codeFiles[name] == Captured(events[..i], name.key, env)
    decreases |events|
  {
    hide Step, Captured, WroteTo;
    if events == [] {
      assert false;
    } else {
      var n := |events| - 1;
      var e, before := events[n], events[..n];
      RunLast(Initial(), events, env);
      assert events == before + [e];
      var s, t := Run(Initial(), before, env), Run(Initial(), events, env);
      if e.Flushed? {
        FlushWritesCaptured(before, env, e.written);
        assert JsonAfter(s, t, before, env, e.written, name);
      } else {
        OnlyFlushesWrite(s, e, env);
      }
      if e.Flushed? && WroteTo(s, before, env, e.written, name) {
        assert FlushedAt(events, env, name, n) && t.codeFiles[name] == Captured(events[..n], name.key, env);
      } else {
        JsonsAreCaptured(before, env, name);
        var i: nat :| FlushedAt(before, env, name, i) && s.codeFiles[name] == Captured(before[..i], name.key, env);
        assert i < |before| && before[..i] == events[..i];
        assert FlushedAt(events, env, name, i) && t.codeFiles[name] == Captured(events[..i], name.key, env);
      }
    }
  }

  /** Event `i` is a flush that writes the JSON `name`. */
  ghost predicate FlushedAt(events: seq<Event>, env: Env, name: CodeName, i: nat) {
    && i < |events| && events[i].Flushed?
    && WroteTo(Run(Initial(), events[..i], env), events[..i], env, events[i].written, name)
  }
}
