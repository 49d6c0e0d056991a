/**
  Reassembly agrees with history: within one pending entry's life the buffer
  holds every accepted chunk, and coverage is exactly their union.
 */
module History {
  import opened Bytes
  import opened Dex
  import opened Intervals
  import opened Reassembly
  import opened Capture
  import opened CaptureProofs

  /** The chunks accepted so far for each pending address. */
  type Log = map<Key, seq<Chunk>>

  /** The chunk in `e` reaches the pending entry of its address. */
  predicate Accepts(s: State, e: ChunkEvent) {
    && ChunkInBounds(e) && e.dataLen <= |e.body|
    && var seen := Observe(s, e.key, e.size);
    && e.key !in seen.ambiguous && e.key !in seen.dexCache
    && !Conflicts(PendingFor(seen, e.key, e.size), PieceOf(e))
  }

  /** The log after an event: a new entry starts with the chunk that made it. */
  function LogStep(s: State, log: Log, e: Event): Log {
    if e.SawChunk? && Accepts(s, e.chunk) then
      var key := e.chunk.key;
      log[key := (if key in s.pending && key in log then log[key] else []) + [PieceOf(e.chunk)]]
    else log
  }

  ghost predicate EntryAgrees(s: State, log: Log, key: Key)
    requires key in s.pending
  {
    key in log && Reassembly.History(s.pending[key], log[key])
  }

  ghost predicate HistoryOk(s: State, log: Log) {
    forall key :: key in s.pending ==> EntryAgrees(s, log, key)
  }

  /** Entries may go, none changes. */
  ghost predicate SubPending(s: State, t: State) {
    forall key :: key in t.pending ==> key in s.pending && t.pending[key] == s.pending[key]
  }

  lemma SubHistory(s: State, t: State, log: Log)
    requires HistoryOk(s, log) && SubPending(s, t)
    ensures HistoryOk(t, log)
  {
    forall key | key in t.pending ensures EntryAgrees(t, log, key) { assert EntryAgrees(s, log, key); }
  }

  lemma QuarantineSub(s: State, key: Key)
    ensures SubPending(s, Quarantine(s, key))
  {
  }

  lemma ObserveSub(s: State, key: Key, size: u32)
    ensures SubPending(s, Observe(s, key, size))
    ensures key !in Observe(s, key, size).ambiguous ==> Observe(s, key, size).pending == s.pending
  {
    hide Quarantine;
    QuarantineSub(s, key);
    QuarantineSub(Sized(s, key, size), key);
    QuarantinedIsAmbiguous(s, key);
    QuarantinedIsAmbiguous(Sized(s, key, size), key);
  }

  lemma WriteSub(s: State, key: Key, size: u32, bytes: seq<byte>, env: Env, writeOk: bool)
    ensures SubPending(s, WriteDex(s, key, size, bytes, env, writeOk))
  {
  }

  lemma SubTrans(s: State, t: State, u: State)
    requires SubPending(s, t) && SubPending(t, u)
    ensures SubPending(s, u)
  {
  }

  lemma SubRefl(s: State)
    ensures SubPending(s, s)
  {
  }

  lemma SaveSub(s: State, pid: Option<u32>, begin: u64, size: u32, bytes: seq<byte>, env: Env, skip: bool, writeOk: bool)
    ensures SubPending(s, SaveDex(s, pid, begin, size, bytes, env, skip, writeOk))
  {
    hide Observe, Quarantine, WriteDex, OpenDex, SubPending;
    SubRefl(s);
    if !(s.sealed || (pid.Some? && skip) || OpenDex(bytes).Err? || pid.None?) {
      var key := Key(pid.value, begin);
      var seen := Observe(s, key, size);
      var checked := if key in seen.dexCache then Quarantine(seen, key) else seen;
      ObserveSub(s, key, size);
      QuarantineSub(seen, key);
      SubRefl(seen);
      SubTrans(s, seen, checked);
      WriteSub(checked, key, size, bytes, env, writeOk);
      SubTrans(s, checked, WriteDex(checked, key, size, bytes, env, writeOk));
    }
  }

  /** The entry a chunk is placed in agrees with the log so far. */
  lemma EntrySoFar(s: State, log: Log, key: Key, size: u32)
    requires HistoryOk(s, log)
    ensures Reassembly.History(PendingFor(s, key, size), if key in s.pending && key in log then log[key] else [])
  {
    if key in s.pending {
      assert EntryAgrees(s, log, key);
    } else {
      NewHistory(size);
    }
  }

  /** An accepted chunk: the entry afterwards, finished or not, holds every
      chunk of its log and covers exactly their union. */
  lemma AcceptedHistory(s: State, log: Log, e: ChunkEvent, env: Env)
    requires Inv(s, env) && HistoryOk(s, log) && Accepts(s, e)
    ensures var seen := Observe(s, e.key, e.size);
            var chunks := (if e.key in s.pending && e.key in log then log[e.key] else []) + [PieceOf(e)];
            Reassembly.History(Place(PendingFor(seen, e.key, e.size), PieceOf(e)), chunks)
  {
    hide Inv, Observe, Place, Conflicts, PendingFor, PendingValid, Reassembly.History;
    var seen := Observe(s, e.key, e.size);
    ObserveKeeps(s, e.key, e.size, env);
    ObservedSize(s, e.key, e.size);
    ObserveSub(s, e.key, e.size);
    SubHistory(s, seen, log);
    EntrySoFar(seen, log, e.key, e.size);
    PendingForIs(seen, e.key, e.size, env);
    var chunks := if e.key in s.pending && e.key in log then log[e.key] else [];
    PlaceKeepsHistory(PendingFor(seen, e.key, e.size), chunks, PieceOf(e));
  }

  lemma ChunkHistory(s: State, log: Log, e: ChunkEvent, env: Env, skip: bool, writeOk: bool)
    requires Inv(s, env) && HistoryOk(s, log)
    ensures HistoryOk(HandleChunk(s, e, env, skip, writeOk), LogStep(s, log, SawChunk(e, skip, writeOk)))
  {
    hide Inv, Observe, Place, Conflicts, PendingFor, Quarantine, SaveDex, Whole, HistoryOk, SubPending;
    var t := HandleChunk(s, e, env, skip, writeOk);
    SubRefl(s);
    SubHistory(s, s, log);
    if ChunkInBounds(e) {
      var seen := Observe(s, e.key, e.size);
      ObserveSub(s, e.key, e.size);
      SubHistory(s, seen, log);
      QuarantineSub(seen, e.key);
      SubHistory(seen, Quarantine(seen, e.key), log);
      if Accepts(s, e) {
        var q := Place(PendingFor(seen, e.key, e.size), PieceOf(e));
        var next := LogStep(s, log, SawChunk(e, skip, writeOk));
        AcceptedHistory(s, log, e, env);
        if Whole(q) {
          var swept := Sweep(seen, {e.key});
          OthersAgree(seen, log, next, e.key, swept);
          SaveSub(swept, Some(e.key.pid), e.key.begin, e.size, q.buf, env, skip, writeOk);
          SubHistory(swept, t, next);
        } else {
          GrownAgrees(seen, log, next, e.key, q);
        }
      }
    }
  }

  lemma OthersAgree(s: State, log: Log, next: Log, key: Key, t: State)
    requires HistoryOk(s, log) && next.Keys == log.Keys + {key} && forall k :: k in log && k != key ==> next[k] == log[k]
    requires t == Sweep(s, {key})
    ensures HistoryOk(t, next)
  {
    forall k | k in t.pending ensures EntryAgrees(t, next, k) { assert EntryAgrees(s, log, k); }
  }

  lemma GrownAgrees(s: State, log: Log, next: Log, key: Key, q: Pending)
    requires HistoryOk(s, log) && next.Keys == log.Keys + {key} && forall k :: k in log && k != key ==> next[k] == log[k]
    requires Reassembly.History(q, next[key])
    ensures HistoryOk(s.(pending := s.pending[key := q]), next)
  {
    var t := s.(pending := s.pending[key := q]);
    forall k | k in t.pending ensures EntryAgrees(t, next, k) {
      if k != key {
        assert EntryAgrees(s, log, k);
      }
    }
  }

  /** Every step keeps every pending entry in agreement with its log. */
  lemma StepHistory(s: State, log: Log, e: Event, env: Env)
    requires Inv(s, env) && HistoryOk(s, log)
    ensures HistoryOk(Step(s, e, env), LogStep(s, log, e))
  {
    hide Inv, Observe, HandleChunk, SaveDex, HistoryOk, SubPending, RecordMethod, Accepts;
    SubRefl(s);
    match e
    case SawDex(key, size) =>
      ObserveSub(s, key, size);
      SubHistory(s, Observe(s, key, size), log);
    case SawChunk(chunk, skip, writeOk) => ChunkHistory(s, log, chunk, env, skip, writeOk);
    case SawMethod(key, size, idx, code) =>
      var seen := Observe(s, key, size);
      ObserveSub(s, key, size);
      SubHistory(s, seen, log);
      RecordSub(seen, key, idx, code, env);
      SubHistory(seen, RecordMethod(seen, key, idx, code, env), log);
    case Scanned(pid, begin, size, bytes, skip, writeOk) =>
      SaveSub(s, pid, begin, size, bytes, env, skip, writeOk);
      SubHistory(s, SaveDex(s, pid, begin, size, bytes, env, skip, writeOk), log);
    case Swept(stale) =>
      SweepSub(s, stale);
      SubHistory(s, Sweep(s, stale), log);
    case Sealed =>
      SamePendingSub(s, s.(sealed := true));
      SubHistory(s, s.(sealed := true), log);
    case Flushed(written) =>
      SamePendingSub(s, Flush(s, written));
      SubHistory(s, Flush(s, written), log);
  }

  lemma SamePendingSub(s: State, t: State)
    requires t.pending == s.pending
    ensures SubPending(s, t)
  {
  }

  lemma SweepSub(s: State, stale: set<Key>)
    ensures SubPending(s, Sweep(s, stale))
  {
  }

  lemma RecordSub(s: State, key: Key, idx: u32, code: seq<byte>, env: Env)
    ensures SubPending(s, RecordMethod(s, key, idx, code, env))
  {
    hide MethodName;
  }

  ghost function RunLog(s: State, log: Log, events: seq<Event>, env: Env): Log
    decreases |events|
  {
    if events == [] then log else RunLog(Step(s, events[0], env), LogStep(s, log, events[0]), events[1..], env)
  }

  /** Over every run, every pending buffer equals the payload of each accepted
      chunk on the bytes it covers, and records exactly their union. */
  lemma {:induction false} RunHistory(s: State, log: Log, events: seq<Event>, env: Env)
    requires Inv(s, env) && HistoryOk(s, log)
    ensures HistoryOk(Run(s, events, env), RunLog(s, log, events, env))
    decreases |events|
  {
    hide Inv, Step, HistoryOk, LogStep;
    if events != [] {
      StepKeeps(s, events[0], env);
      StepHistory(s, log, events[0], env);
      RunHistory(Step(s, events[0], env), LogStep(s, log, events[0]), events[1..], env);
    }
  }
}
