/**
  What is saved is what was in memory: over every run of the whole system each
  file ever written is the memory of its process, and only sizes quarantine.
 */
module SavedMemory {
  import opened Bytes
  import opened Dex
  import opened Intervals
  import opened Reassembly
  import opened Capture
  import opened CaptureProofs
  import opened CodeFiles
  import opened History
  import opened ChunkProtocol

  ghost predicate IsMemory(bytes: seq<byte>, mem: Memory, key: Key) {
    forall x :: 0 <= x < |bytes| ==> bytes[x] == mem(key, x)
  }

  /** A scan reads whole files from the memory of its process. */
  ghost predicate ScansMemory(e: Event, mem: Memory) {
    e.Scanned? && e.pid.Some? ==> e.size == |e.bytes| && IsMemory(e.bytes, mem, Key(e.pid.value, e.begin))
  }

  ghost predicate ActsOnMemory(a: Action, mem: Memory) {
    a.Other? ==> ScansMemory(a.event, mem) && SavesWhole(a.event)
  }

  ghost predicate FileIsMemory(s: State, name: DexName, mem: Memory)
    requires name in s.files
  {
    |s.files[name]| == name.size && IsMemory(s.files[name], mem, name.key)
  }

  ghost predicate SavedOk(s: State, mem: Memory) {
    && (forall key :: key in s.dexCache ==> IsMemory(s.dexCache[key], mem, key))
    && (forall name :: name in s.files ==> FileIsMemory(s, name, mem))
  }

  ghost predicate SameSaved(s: State, t: State) {
    s.dexCache == t.dexCache && s.files == t.files
  }

  lemma SameSavedOk(s: State, t: State, mem: Memory)
    requires SavedOk(s, mem) && SameSaved(s, t)
    ensures SavedOk(t, mem)
  {
    forall name | name in t.files ensures FileIsMemory(t, name, mem) {
      assert FileIsMemory(s, name, mem);
    }
  }

  lemma QuarantineSaved(s: State, key: Key)
    ensures SameSaved(s, Quarantine(s, key))
  {
  }

  lemma ObserveSaved(s: State, key: Key, size: u32)
    ensures SameSaved(s, Observe(s, key, size))
  {
    hide Quarantine;
    QuarantineSaved(s, key);
    QuarantineSaved(Sized(s, key, size), key);
  }

  lemma WriteSaved(s: State, key: Key, size: u32, bytes: seq<byte>, env: Env, writeOk: bool, mem: Memory)
    requires SavedOk(s, mem) && IsMemory(bytes, mem, key) && |bytes| == size
    ensures SavedOk(WriteDex(s, key, size, bytes, env, writeOk), mem)
  {
    hide IsMemory;
    var t := WriteDex(s, key, size, bytes, env, writeOk);
    forall name | name in t.files ensures FileIsMemory(t, name, mem) {
      assert name in s.files ==> FileIsMemory(s, name, mem);
    }
  }

  lemma SaveSaved(s: State, pid: u32, begin: u64, size: u32, bytes: seq<byte>, env: Env, skip: bool, writeOk: bool, mem: Memory)
    requires SavedOk(s, mem) && IsMemory(bytes, mem, Key(pid, begin)) && |bytes| == size
    ensures SavedOk(SaveDex(s, Some(pid), begin, size, bytes, env, skip, writeOk), mem)
  {
    hide Observe, Quarantine, WriteDex, OpenDex, SavedOk, IsMemory;
    var key := Key(pid, begin);
    var seen := Observe(s, key, size);
    ObserveSaved(s, key, size);
    SameSavedOk(s, seen, mem);
    QuarantineSaved(seen, key);
    SameSavedOk(seen, Quarantine(seen, key), mem);
    WriteSaved(seen, key, size, bytes, env, writeOk, mem);
    WriteSaved(Quarantine(seen, key), key, size, bytes, env, writeOk, mem);
  }

  /** The entry a delivered record completes holds memory. */
  lemma CompletedBytes(s: State, e: ChunkEvent, mem: Memory, env: Env)
    requires Inv(s, env) && PendingFromMemory(s, mem) && FromMemory(e, mem) && ReasonableSize(e.size)
    requires e.key !in s.ambiguous && e.key in s.dexSizes && s.dexSizes[e.key] == e.size && e.key !in s.dexCache
    ensures var p := PendingFor(s, e.key, e.size);
            && PendingValid(p) && p.total == e.size && !Conflicts(p, PieceOf(e))
            && var q := Place(p, PieceOf(e));
            Whole(q) ==> |q.buf| == e.size && IsMemory(q.buf, mem, e.key)
  {
    hide Inv, PendingFromMemory, Conflicts, Place, PendingFor, Whole, FromMemory, Covered;
    MemoryFits(e, mem);
    PendingForIs(s, e.key, e.size, env);
    PendingForFromMemory(s, e.key, e.size, mem);
    var p := PendingFor(s, e.key, e.size);
    MemoryNeverConflicts(p, e, mem);
    if Whole(Place(p, PieceOf(e))) {
      WholeIsMemory(s, e, mem);
    }
  }

  lemma AcceptSaved(s: State, e: ChunkEvent, env: Env, skip: bool, writeOk: bool, mem: Memory)
    requires Inv(s, env) && PendingFromMemory(s, mem) && FromMemory(e, mem) && ReasonableSize(e.size) && SavedOk(s, mem)
    requires e.key !in s.ambiguous && e.key in s.dexSizes && s.dexSizes[e.key] == e.size
    ensures SavedOk(AcceptChunk(s, e, PieceOf(e), env, skip, writeOk), mem)
  {
    hide Inv, PendingFromMemory, Conflicts, Place, PendingFor, Whole, FromMemory, SavedOk, SaveDex, Quarantine, Repeats, IsMemory;
    QuarantineSaved(s, e.key);
    SameSavedOk(s, Quarantine(s, e.key), mem);
    MemoryFits(e, mem);
    if e.key !in s.dexCache {
      CompletedBytes(s, e, mem, env);
      var q := Place(PendingFor(s, e.key, e.size), PieceOf(e));
      var dropped := s.(pending := s.pending - {e.key});
      SameSavedOk(s, dropped, mem);
      SameSavedOk(s, s.(pending := s.pending[e.key := q]), mem);
      if Whole(q) {
        SaveSaved(dropped, e.key.pid, e.key.begin, e.size, q.buf, env, skip, writeOk, mem);
      }
    }
  }

  lemma ChunkSaved(s: State, e: ChunkEvent, env: Env, skip: bool, writeOk: bool, mem: Memory)
    requires Inv(s, env) && PendingFromMemory(s, mem) && FromMemory(e, mem) && SavedOk(s, mem)
    ensures SavedOk(HandleChunk(s, e, env, skip, writeOk), mem)
  {
    hide Inv, PendingFromMemory, FromMemory, SavedOk, AcceptChunk, Observe, SubPending;
    if ChunkInBounds(e) {
      var seen := Observe(s, e.key, e.size);
      ObserveKeeps(s, e.key, e.size, env);
      ObserveSub(s, e.key, e.size);
      SubFromMemory(s, seen, mem);
      ObservedSize(s, e.key, e.size);
      ObserveSaved(s, e.key, e.size);
      SameSavedOk(s, seen, mem);
      if e.key !in seen.ambiguous && e.dataLen <= |e.body| {
        AcceptSaved(seen, e, env, skip, writeOk, mem);
      }
    }
  }

  lemma OtherSaved(s: State, event: Event, env: Env, mem: Memory)
    requires SavedOk(s, mem) && !event.SawChunk? && ScansMemory(event, mem)
    ensures SavedOk(Step(s, event, env), mem)
  {
    hide SavedOk, SaveDex, Observe, IsMemory;
    match event
    case SawDex(key, size) =>
      ObserveSaved(s, key, size);
      SameSavedOk(s, Observe(s, key, size), mem);
    case SawMethod(key, size, idx, code) =>
      ObserveSaved(s, key, size);
      RecordSaved(Observe(s, key, size), key, idx, code, env);
      SameSavedOk(s, HandleMethod(s, key, size, idx, code, env), mem);
    case Scanned(pid, begin, size, bytes, skip, writeOk) =>
      if pid.Some? {
        SaveSaved(s, pid.value, begin, size, bytes, env, skip, writeOk, mem);
      } else {
        SameSavedOk(s, Step(s, event, env), mem) by { ScanOfNobody(s, begin, size, bytes, env, skip, writeOk); }
      }
    case Swept(stale) => SameSavedOk(s, Sweep(s, stale), mem);
    case Sealed => SameSavedOk(s, s.(sealed := true), mem);
    case Flushed(written) => SameSavedOk(s, Flush(s, written), mem);
  }

  lemma ScanOfNobody(s: State, begin: u64, size: u32, bytes: seq<byte>, env: Env, skip: bool, writeOk: bool)
    ensures SaveDex(s, None, begin, size, bytes, env, skip, writeOk) == s
  {
  }

  lemma RecordSaved(s: State, key: Key, idx: u32, code: seq<byte>, env: Env)
    ensures SameSaved(s, RecordMethod(s, key, idx, code, env))
  {
    hide MethodName;
  }

  // ----- only sizes quarantine -----

  /** A report of this size quarantines the address. */
  predicate SizeQuarantines(s: State, key: Key, size: u32) {
    !ReasonableSize(size) || (key in s.dexSizes && s.dexSizes[key] != size)
  }

  lemma ObserveCause(s: State, key: Key, size: u32, k: Key)
    requires k !in s.ambiguous && k in Observe(s, key, size).ambiguous
    ensures k == key && SizeQuarantines(s, key, size)
  {
    hide Quarantine;
    QuarantineAmbiguous(s, key);
    QuarantineAmbiguous(Sized(s, key, size), key);
  }

  lemma QuarantineAmbiguous(s: State, key: Key)
    ensures Quarantine(s, key).ambiguous == s.ambiguous + {key}
  {
  }

  lemma MemoryIsOne(a: seq<byte>, b: seq<byte>, mem: Memory, key: Key)
    requires IsMemory(a, mem, key) && IsMemory(b, mem, key) && |a| == |b|
    ensures a == b
  {
  }

  lemma WriteAmbiguous(s: State, key: Key, size: u32, bytes: seq<byte>, env: Env, writeOk: bool)
    ensures WriteDex(s, key, size, bytes, env, writeOk).ambiguous == s.ambiguous
  {
  }

  lemma SaveCause(s: State, pid: u32, begin: u64, size: u32, bytes: seq<byte>, env: Env, skip: bool, writeOk: bool, mem: Memory, k: Key)
    requires Inv(s, env) && SavedOk(s, mem) && LengthsOk(s) && IsMemory(bytes, mem, Key(pid, begin)) && |bytes| == size
    requires k !in s.ambiguous && k in SaveDex(s, Some(pid), begin, size, bytes, env, skip, writeOk).ambiguous
    ensures k == Key(pid, begin) && SizeQuarantines(s, k, size)
  {
    hide Inv, Observe, WriteDex, OpenDex, IsMemory, SizeQuarantines, FileIsMemory;
    var key := Key(pid, begin);
    var seen := Observe(s, key, size);
    if k in seen.ambiguous {
      ObserveCause(s, key, size, k);
    } else {
      ObserveSaved(s, key, size);
      ObservedSize(s, key, size);
      ObserveLengths(s, key, size, env);
      WriteAmbiguous(seen, key, size, bytes, env, writeOk);
      WriteAmbiguous(Quarantine(seen, key), key, size, bytes, env, writeOk);
      if key in seen.dexCache && key !in seen.ambiguous {
        assert LengthOk(seen, key);
        MemoryIsOne(seen.dexCache[key], bytes, mem, key);
      }
    }
  }

  lemma PieceRepeats(bytes: seq<byte>, e: ChunkEvent, mem: Memory)
    requires FromMemory(e, mem) && IsMemory(bytes, mem, e.key) && |bytes| == e.size
    ensures Repeats(bytes, PieceOf(e))
  {
    PieceIsMemory(e, mem);
    var c := PieceOf(e);
    forall x | 0 <= x < |c.payload| ensures bytes[c.offset..c.End()][x] == c.payload[x] {
      assert c.Has(c.offset + x);
    }
  }

  lemma AcceptCause(s: State, e: ChunkEvent, env: Env, skip: bool, writeOk: bool, mem: Memory, k: Key)
    requires Inv(s, env) && PendingFromMemory(s, mem) && FromMemory(e, mem) && ReasonableSize(e.size) && SavedOk(s, mem) && LengthsOk(s)
    requires e.key !in s.ambiguous && e.key in s.dexSizes && s.dexSizes[e.key] == e.size
    ensures k !in s.ambiguous ==> k !in AcceptChunk(s, e, PieceOf(e), env, skip, writeOk).ambiguous
  {
    hide Inv, PendingFromMemory, Conflicts, Place, PendingFor, Whole, FromMemory, SaveDex, Repeats, IsMemory, FileIsMemory;
    MemoryFits(e, mem);
    if e.key in s.dexCache {
      assert LengthOk(s, e.key);
      PieceRepeats(s.dexCache[e.key], e, mem);
    } else {
      CompletedBytes(s, e, mem, env);
      var q := Place(PendingFor(s, e.key, e.size), PieceOf(e));
      var dropped := s.(pending := s.pending - {e.key});
      if Whole(q) && k !in s.ambiguous && k in AcceptChunk(s, e, PieceOf(e), env, skip, writeOk).ambiguous {
        assert dropped == Sweep(s, {e.key});
        SweepKeeps(s, {e.key}, env);
        PendingLengths(s, s.pending - {e.key});
        SameSavedOk(s, dropped, mem);
        SaveCause(dropped, e.key.pid, e.key.begin, e.size, q.buf, env, skip, writeOk, mem, k);
      }
    }
  }

  lemma ChunkCause(s: State, e: ChunkEvent, env: Env, skip: bool, writeOk: bool, mem: Memory, k: Key)
    requires Inv(s, env) && PendingFromMemory(s, mem) && FromMemory(e, mem) && SavedOk(s, mem) && LengthsOk(s)
    requires k !in s.ambiguous && k in HandleChunk(s, e, env, skip, writeOk).ambiguous
    ensures k == e.key && SizeQuarantines(s, k, e.size)
  {
    hide Inv, PendingFromMemory, FromMemory, SavedOk, AcceptChunk, Observe, SubPending, LengthsOk, SizeQuarantines;
    var seen := Observe(s, e.key, e.size);
    if k in seen.ambiguous {
      ObserveCause(s, e.key, e.size, k);
    } else if e.key !in seen.ambiguous {
      ObserveKeeps(s, e.key, e.size, env);
      ObserveSub(s, e.key, e.size);
      SubFromMemory(s, seen, mem);
      ObservedSize(s, e.key, e.size);
      ObserveSaved(s, e.key, e.size);
      SameSavedOk(s, seen, mem);
      ObserveLengths(s, e.key, e.size, env);
      AcceptCause(seen, e, env, skip, writeOk, mem, k);
    }
  }

  /** The size an action reports for an address. */
  function ReportedBy(sys: System, a: Action): Option<(Key, u32)> {
    match a
    case Deliver(_, _) => if sys.ring == [] then None else Some((sys.ring[0].key, sys.ring[0].size))
    case Other(event) =>
      (match event
       case SawDex(key, size) => Some((key, size))
       case SawMethod(key, size, _, _) => Some((key, size))
       case Scanned(pid, begin, size, _, _, _) => if pid.None? then None else Some((Key(pid.value, begin), size))
       case _ => None)
    case _ => None
  }

  lemma OtherCause(s: State, event: Event, env: Env, mem: Memory, k: Key, sys: System)
    requires sys.user == s && Inv(s, env) && SavedOk(s, mem) && LengthsOk(s) && !event.SawChunk? && ScansMemory(event, mem)
    requires k !in s.ambiguous && k in Step(s, event, env).ambiguous
    ensures ReportedBy(sys, Other(event)).Some?
    ensures ReportedBy(sys, Other(event)).value.0 == k && SizeQuarantines(s, k, ReportedBy(sys, Other(event)).value.1)
  {
    hide Inv, SavedOk, LengthsOk, SaveDex, Observe, IsMemory, SizeQuarantines;
    match event
    case SawDex(key, size) => ObserveCause(s, key, size, k);
    case SawMethod(key, size, idx, code) => ObserveCause(s, key, size, k);
    case Scanned(pid, begin, size, bytes, skip, writeOk) =>
      if pid.None? {
        ScanOfNobody(s, begin, size, bytes, env, skip, writeOk);
        assert false;
      }
      SaveCause(s, pid.value, begin, size, bytes, env, skip, writeOk, mem, k);
    case _ => assert false;
  }

  // ----- over every run -----

  ghost predicate MemoryInv(sys: System, mem: Memory, env: Env) {
    SystemInv(sys, mem, env) && LengthsOk(sys.user) && StemsOk(sys.user) && SavedOk(sys.user, mem)
  }

  lemma NextKeepsMemory(sys: System, a: Action, mem: Memory, env: Env)
    requires MemoryInv(sys, mem, env) && ActsOnMemory(a, mem)
    ensures MemoryInv(Next(sys, a, mem, env), mem, env)
  {
    hide Inv, PendingFromMemory, LengthsOk, StemsOk, SavedOk, HandleChunk, Accounted, SentUpTo, FromMemory, ScansMemory, SavesWhole,
      Completes, ChunkAt, Step;
    NextKeepsInv(sys, a, mem, env);
    if a.Deliver? && sys.ring != [] {
      var e := sys.ring[0];
      assert e in sys.ring && FromMemory(e, mem);
      ChunkSaved(sys.user, e, env, a.skip, a.writeOk, mem);
      DeliveredStep(sys.user, e, env, a.skip, a.writeOk);
    } else if a.Other? && !a.event.SawChunk? {
      OtherSaved(sys.user, a.event, env, mem);
      StepStems(sys.user, a.event, env);
    }
  }

  lemma DeliveredStep(s: State, e: ChunkEvent, env: Env, skip: bool, writeOk: bool)
    requires Inv(s, env) && LengthsOk(s) && StemsOk(s)
    ensures LengthsOk(HandleChunk(s, e, env, skip, writeOk)) && StemsOk(HandleChunk(s, e, env, skip, writeOk))
  {
    hide Inv, LengthsOk, StemsOk, HandleChunk;
    StepStems(s, SawChunk(e, skip, writeOk), env);
  }

  lemma {:induction false} RunKeepsMemory(sys: System, actions: seq<Action>, mem: Memory, env: Env)
    requires MemoryInv(sys, mem, env) && forall a :: a in actions ==> ActsOnMemory(a, mem)
    ensures MemoryInv(RunSystem(sys, actions, mem, env), mem, env)
    decreases |actions|
  {
    hide MemoryInv, Next, ActsOnMemory;
    if actions != [] {
      assert actions[0] in actions && forall a :: a in actions[1..] ==> a in actions;
      NextKeepsMemory(sys, actions[0], mem, env);
      RunKeepsMemory(Next(sys, actions[0], mem, env), actions[1..], mem, env);
    }
  }

  lemma StartMemory(mem: Memory, env: Env)
    ensures MemoryInv(Start(), mem, env)
  {
    StartOk(mem, env);
  }

  /** Whatever the system saves is process memory: with scans that read memory,
      in every state of every run each cached file, and each .dex file whatever
      its name, is the memory at its address, as long as its name says. */
  lemma SavedIsMemory(actions: seq<Action>, mem: Memory, env: Env)
    requires forall a :: a in actions ==> ActsOnMemory(a, mem)
    ensures var s := RunSystem(Start(), actions, mem, env).user;
            && (forall key :: key in s.dexCache ==> s.dexCache[key] == MemoryBytes(mem, key, 0, |s.dexCache[key]|))
            && (forall key :: key in s.dexCache && key !in s.ambiguous ==> key in s.dexSizes && |s.dexCache[key]| == s.dexSizes[key])
            && (forall name :: name in s.files ==> s.files[name] == MemoryBytes(mem, name.key, 0, name.size))
  {
    hide RunSystem, ActsOnMemory, SystemInv, StemsOk;
    StartMemory(mem, env);
    RunKeepsMemory(Start(), actions, mem, env);
    var s := RunSystem(Start(), actions, mem, env).user;
    forall key | key in s.dexCache && key !in s.ambiguous ensures LengthOk(s, key) {
    }
    forall name | name in s.files ensures FileIsMemory(s, name, mem) {
    }
  }

  /** With unchanging memory only sizes quarantine: an action that makes an
      address ambiguous reports for it an absurd size, or one that differs from
      the size it had. */
  lemma OnlySizesQuarantine(actions: seq<Action>, a: Action, mem: Memory, env: Env, key: Key)
    requires (forall b :: b in actions ==> ActsOnMemory(b, mem)) && ActsOnMemory(a, mem)
    requires var sys := RunSystem(Start(), actions, mem, env);
             key !in sys.user.ambiguous && key in Next(sys, a, mem, env).user.ambiguous
    ensures var sys := RunSystem(Start(), actions, mem, env);
            && ReportedBy(sys, a).Some? && ReportedBy(sys, a).value.0 == key
            && SizeQuarantines(sys.user, key, ReportedBy(sys, a).value.1)
  {
    hide RunSystem, Inv, PendingFromMemory, LengthsOk, StemsOk, SavedOk, HandleChunk, Accounted, SentUpTo, FromMemory, ScansMemory,
      SavesWhole, Completes, ChunkAt, Step, SizeQuarantines;
    StartMemory(mem, env);
    RunKeepsMemory(Start(), actions, mem, env);
    var sys := RunSystem(Start(), actions, mem, env);
    if a.Deliver? {
      assert sys.ring[0] in sys.ring && FromMemory(sys.ring[0], mem);
      ChunkCause(sys.user, sys.ring[0], env, a.skip, a.writeOk, mem, key);
    } else {
      OtherCause(sys.user, a.event, env, mem, key, sys);
    }
  }
}
