/**
  The chunked capture protocol: probes in the kernel push pieces of a file
  through a lossy ring while sharing an evictable progress map, and user space
  puts the pieces together. Everything the environment may do is a step: probes
  interleave, reservations and reads fail, progress is evicted or not stored,
  entries time out.
 */
module ChunkProtocol {
  import opened Bytes
  import opened Dex
  import opened Intervals
  import opened Reassembly
  import opened Capture
  import opened CaptureProofs
  import opened History

  const RINGBUF_SIZE: u32 := 0x2_0000
  const CHUNK_HEADER_SIZE: u32 := 24
  const MAX_PAYLOAD: u32 := RINGBUF_SIZE - CHUNK_HEADER_SIZE
  const MAX_CHUNKS_PER_CALL: nat := 128

  /** The bytes of each process, which do not change while they are captured. */
  type Memory = (Key, nat) -> byte

  function MemoryBytes(mem: Memory, key: Key, off: nat, len: nat): (s: seq<byte>)
    ensures |s| == len && forall i :: 0 <= i < len ==> s[i] == mem(key, off + i)
  {
    seq(len, i requires 0 <= i < len => mem(key, off + i))
  }

  /** Progress is kept per address, size and identity; the identity is whatever
      could be read of the file's checksum and signature. */
  datatype CaptureKey = CaptureKey(key: Key, size: u32, identity: seq<byte>)

  /** A call in flight: its next offset, and how many chunks it may still send. */
  datatype Probe = Probe(capture: CaptureKey, nextOff: u32, left: nat)

  /** `submitted` and `released` record history: every chunk ever pushed, and
      every address whose entry was handed on or timed out. */
  datatype System = System(
    progress: map<CaptureKey, u32>,
    probes: map<nat, Probe>,
    ring: seq<ChunkEvent>,
    user: State,
    submitted: seq<ChunkEvent>,
    released: set<Key>)

  function Start(): System {
    System(map[], map[], [], Initial(), [], {})
  }

  function ProgressOf(progress: map<CaptureKey, u32>, capture: CaptureKey): u32 {
    if capture in progress then progress[capture] else 0
  }

  /** The record for the piece at `off`; what follows the piece in the
      fixed-size record is left over from earlier use. */
  function ChunkAt(mem: Memory, capture: CaptureKey, off: u32, leftover: seq<byte>): ChunkEvent
    requires off < capture.size
  {
    var len := Min(capture.size - off, MAX_PAYLOAD);
    ChunkEvent(capture.key, capture.size, off, len, MemoryBytes(mem, capture.key, off, len) + leftover)
  }

  datatype Action =
    | Enter(id: nat, capture: CaptureKey)
    | Send(id: nat, leftover: seq<byte>)
    | GiveUp(id: nat)
    | Leave(id: nat, stored: bool)
    | Evict(capture: CaptureKey)
    | Deliver(skip: bool, writeOk: bool)
    | Other(event: Event)

  predicate CanSend(p: Probe) {
    p.left > 0 && p.nextOff < p.capture.size
  }

  /** The chunk's entry is whole once it is placed. */
  predicate Completes(s: State, e: ChunkEvent) {
    Accepts(s, e) && Whole(Place(PendingFor(Observe(s, e.key, e.size), e.key, e.size), PieceOf(e)))
  }

  /** One step; a step that is not enabled changes nothing. */
  function Next(sys: System, a: Action, mem: Memory, env: Env): System {
    match a
    case Enter(id, capture) =>
      if id in sys.probes || capture.size == 0 || ProgressOf(sys.progress, capture) >= capture.size then sys
      else sys.(probes := sys.probes[id := Probe(capture, ProgressOf(sys.progress, capture), MAX_CHUNKS_PER_CALL)])
    case Send(id, leftover) =>
      if id !in sys.probes || !CanSend(sys.probes[id]) then sys
      else
        var p := sys.probes[id];
        var e := ChunkAt(mem, p.capture, p.nextOff, leftover);
        sys.(ring := sys.ring + [e], submitted := sys.submitted + [e],
             probes := sys.probes[id := p.(nextOff := p.nextOff + e.dataLen, left := p.left - 1)])
    case GiveUp(id) =>
      if id !in sys.probes then sys else sys.(probes := sys.probes[id := sys.probes[id].(left := 0)])
    case Leave(id, stored) =>
      if id !in sys.probes || CanSend(sys.probes[id]) then sys
      else
        var p := sys.probes[id];
        sys.(probes := sys.probes - {id},
             progress := if stored then sys.progress[p.capture := p.nextOff] else sys.progress)
    case Evict(capture) => sys.(progress := sys.progress - {capture})
    case Deliver(skip, writeOk) =>
      if sys.ring == [] then sys
      else
        var e := sys.ring[0];
        sys.(ring := sys.ring[1..], user := HandleChunk(sys.user, e, env, skip, writeOk),
             released := if Completes(sys.user, e) then sys.released + {e.key} else sys.released)
    case Other(event) =>
      if event.SawChunk? then sys
      else
        sys.(user := Step(sys.user, event, env),
             released := if event.Swept? then sys.released + event.stale else sys.released)
  }

  function RunSystem(sys: System, actions: seq<Action>, mem: Memory, env: Env): System
    decreases |actions|
  {
    if actions == [] then sys else RunSystem(Next(sys, actions[0], mem, env), actions[1..], mem, env)
  }

  // ----- the invariant -----

  ghost predicate ChunkHas(e: ChunkEvent, x: int) {
    e.offset <= x < e.offset + e.dataLen
  }

  /** A well-formed record of memory as it is. */
  ghost predicate FromMemory(e: ChunkEvent, mem: Memory) {
    && 0 < e.dataLen <= |e.body| && e.offset + e.dataLen <= e.size
    && forall x :: ChunkHas(e, x) ==> e.body[x - e.offset] == mem(e.key, x)
  }

  /** Byte `x` of the file went into some record. */
  ghost predicate WasSent(submitted: seq<ChunkEvent>, key: Key, size: u32, x: int) {
    exists e :: e in submitted && e.key == key && e.size == size && ChunkHas(e, x)
  }

  ghost predicate SentUpTo(submitted: seq<ChunkEvent>, capture: CaptureKey, p: u32) {
    p <= capture.size && forall x :: 0 <= x < p ==> WasSent(submitted, capture.key, capture.size, x)
  }

  ghost predicate ProducerOk(sys: System, mem: Memory) {
    && (forall e :: e in sys.submitted ==> FromMemory(e, mem))
    && (forall e :: e in sys.ring ==> e in sys.submitted)
    && (forall c :: c in sys.progress ==> SentUpTo(sys.submitted, c, sys.progress[c]))
    && (forall id :: id in sys.probes ==> SentUpTo(sys.submitted, sys.probes[id].capture, sys.probes[id].nextOff))
  }

  /** What was received for an address is its memory. */
  ghost predicate EntryFromMemory(s: State, key: Key, mem: Memory)
    requires key in s.pending
  {
    forall x :: Covered(s.pending[key].intervals, x) ==> 0 <= x < |s.pending[key].buf| && s.pending[key].buf[x] == mem(key, x)
  }

  ghost predicate PendingFromMemory(s: State, mem: Memory) {
    forall key :: key in s.pending ==> EntryFromMemory(s, key, mem)
  }

  /** All of the record has been received. */
  ghost predicate Taken(s: State, e: ChunkEvent) {
    e.key in s.pending && forall x :: ChunkHas(e, x) ==> Covered(s.pending[e.key].intervals, x)
  }

  /** Neither quarantined, nor saved, nor handed on or timed out. */
  ghost predicate Clean(sys: System, key: Key) {
    key !in sys.user.ambiguous && key !in sys.user.dexCache && key !in sys.released
  }

  ghost predicate Accounted(sys: System, e: ChunkEvent) {
    ReasonableSize(e.size) && Clean(sys, e.key) ==> e in sys.ring || Taken(sys.user, e)
  }

  ghost predicate ConsumerOk(sys: System, mem: Memory, env: Env) {
    && Inv(sys.user, env)
    && PendingFromMemory(sys.user, mem)
    && forall e :: e in sys.submitted ==> Accounted(sys, e)
  }

  ghost predicate SystemInv(sys: System, mem: Memory, env: Env) {
    ProducerOk(sys, mem) && ConsumerOk(sys, mem, env)
  }

  lemma StartOk(mem: Memory, env: Env)
    ensures SystemInv(Start(), mem, env)
  {
    InitialInv(env);
  }

  // ----- the producer -----

  lemma SentMore(submitted: seq<ChunkEvent>, e: ChunkEvent, c: CaptureKey, p: u32)
    requires SentUpTo(submitted, c, p)
    ensures SentUpTo(submitted + [e], c, p)
  {
    forall x | 0 <= x < p ensures WasSent(submitted + [e], c.key, c.size, x) {
      assert WasSent(submitted, c.key, c.size, x);
      var d :| d in submitted && d.key == c.key && d.size == c.size && ChunkHas(d, x);
      assert d in submitted + [e];
    }
  }

  /** A probe's record extends what was sent by exactly its piece. */
  lemma SentNext(submitted: seq<ChunkEvent>, c: CaptureKey, p: u32, mem: Memory, leftover: seq<byte>)
    requires SentUpTo(submitted, c, p) && p < c.size
    ensures var e := ChunkAt(mem, c, p, leftover);
            FromMemory(e, mem) && p + e.dataLen <= c.size && SentUpTo(submitted + [e], c, p + e.dataLen)
  {
    var e := ChunkAt(mem, c, p, leftover);
    SentMore(submitted, e, c, p);
    assert e in submitted + [e];
  }

  lemma SendKeepsProducer(sys: System, id: nat, leftover: seq<byte>, mem: Memory, env: Env)
    requires ProducerOk(sys, mem)
    ensures ProducerOk(Next(sys, Send(id, leftover), mem, env), mem)
  {
    hide SentUpTo, FromMemory, ChunkAt;
    if id in sys.probes && CanSend(sys.probes[id]) {
      var p := sys.probes[id];
      var e := ChunkAt(mem, p.capture, p.nextOff, leftover);
      var t := Next(sys, Send(id, leftover), mem, env);
      SentNext(sys.submitted, p.capture, p.nextOff, mem, leftover);
      assert forall d :: d in t.submitted <==> d in sys.submitted || d == e;
      assert forall d :: d in t.ring <==> d in sys.ring || d == e;
      forall c | c in t.progress ensures SentUpTo(t.submitted, c, t.progress[c]) {
        SentMore(sys.submitted, e, c, sys.progress[c]);
      }
      forall i | i in t.probes ensures SentUpTo(t.submitted, t.probes[i].capture, t.probes[i].nextOff) {
        if i != id {
          SentMore(sys.submitted, e, sys.probes[i].capture, sys.probes[i].nextOff);
        }
      }
    }
  }

  lemma NothingSent(submitted: seq<ChunkEvent>, c: CaptureKey)
    ensures SentUpTo(submitted, c, 0)
  {
  }

  lemma NextKeepsProducer(sys: System, a: Action, mem: Memory, env: Env)
    requires ProducerOk(sys, mem)
    ensures ProducerOk(Next(sys, a, mem, env), mem)
  {
    hide SentUpTo, FromMemory, ChunkAt, HandleChunk, Step, Completes;
    match a
    case Enter(id, capture) => NothingSent(sys.submitted, capture);
    case Send(id, leftover) => SendKeepsProducer(sys, id, leftover, mem, env);
    case GiveUp(id) =>
    case Leave(id, stored) =>
    case Evict(capture) =>
    case Deliver(skip, writeOk) =>
      if sys.ring != [] {
        assert forall e :: e in sys.ring[1..] ==> e in sys.ring;
      }
    case Other(event) =>
  }

  // ----- the consumer -----

  /** Nothing received for the address is forgotten. */
  ghost predicate EntryKept(s: State, t: State, key: Key) {
    key in s.pending ==>
      key in t.pending && forall x :: Covered(s.pending[key].intervals, x) ==> Covered(t.pending[key].intervals, x)
  }

  /** Every entry of an address that is still clean is kept. */
  ghost predicate EntriesKept(s: State, t: State, released: set<Key>) {
    forall key :: key !in t.ambiguous && key !in t.dexCache && key !in released ==> EntryKept(s, t, key)
  }

  lemma KeptRefl(s: State)
    ensures EntriesKept(s, s, {})
  {
  }

  lemma KeptTrans(s: State, t: State, u: State, released: set<Key>)
    requires EntriesKept(s, t, {}) && EntriesKept(t, u, released)
    requires t.ambiguous <= u.ambiguous && t.dexCache.Keys <= u.dexCache.Keys
    ensures EntriesKept(s, u, released)
  {
    hide Covered;
    forall key | key !in u.ambiguous && key !in u.dexCache && key !in released
      ensures EntryKept(s, u, key)
    {
      assert EntryKept(s, t, key) && EntryKept(t, u, key);
    }
  }

  lemma QuarantineEntries(s: State, key: Key)
    ensures EntriesKept(s, Quarantine(s, key), {})
    ensures s.ambiguous <= Quarantine(s, key).ambiguous && s.dexCache.Keys <= Quarantine(s, key).dexCache.Keys
  {
  }

  lemma ObserveEntries(s: State, key: Key, size: u32)
    ensures EntriesKept(s, Observe(s, key, size), {})
    ensures s.ambiguous <= Observe(s, key, size).ambiguous && s.dexCache.Keys <= Observe(s, key, size).dexCache.Keys
  {
    hide Quarantine, EntriesKept;
    QuarantineEntries(s, key);
    KeptRefl(s);
    SizedEntries(s, key, size);
    QuarantineEntries(Sized(s, key, size), key);
    KeptTrans(s, Sized(s, key, size), Quarantine(Sized(s, key, size), key), {});
  }

  lemma SizedEntries(s: State, key: Key, size: u32)
    ensures EntriesKept(s, Sized(s, key, size), {})
  {
  }

  lemma WriteEntries(s: State, key: Key, size: u32, bytes: seq<byte>, env: Env, writeOk: bool)
    ensures EntriesKept(s, WriteDex(s, key, size, bytes, env, writeOk), {})
    ensures s.ambiguous == WriteDex(s, key, size, bytes, env, writeOk).ambiguous
    ensures s.dexCache.Keys <= WriteDex(s, key, size, bytes, env, writeOk).dexCache.Keys
  {
  }

  lemma SaveEntries(s: State, pid: Option<u32>, begin: u64, size: u32, bytes: seq<byte>, env: Env, skip: bool, writeOk: bool)
    ensures var t := SaveDex(s, pid, begin, size, bytes, env, skip, writeOk);
            EntriesKept(s, t, {}) && s.ambiguous <= t.ambiguous && s.dexCache.Keys <= t.dexCache.Keys
  {
    hide Observe, Quarantine, WriteDex, OpenDex, EntriesKept;
    KeptRefl(s);
    if !(s.sealed || (pid.Some? && skip) || OpenDex(bytes).Err? || pid.None?) {
      var key := Key(pid.value, begin);
      var seen := Observe(s, key, size);
      var checked := if key in seen.dexCache then Quarantine(seen, key) else seen;
      ObserveEntries(s, key, size);
      QuarantineEntries(seen, key);
      KeptRefl(seen);
      KeptTrans(s, seen, checked, {});
      WriteEntries(checked, key, size, bytes, env, writeOk);
      KeptTrans(s, checked, WriteDex(checked, key, size, bytes, env, writeOk), {});
    }
  }

  lemma PlaceCovers(p: Pending, c: Chunk)
    requires PendingValid(p) && c.Fits(p.total)
    ensures forall x :: Covered(Place(p, c).intervals, x) <==> Covered(p.intervals, x) || c.Has(x)
  {
    hide Covered, Canonical, Recorded;
    RecordExact(p.intervals, c.offset, c.End());
  }

  /** What delivering a record does to the entry it is for. */
  ghost predicate Placed(s: State, t: State, e: ChunkEvent) {
    && Accepts(s, e) && e.key in t.pending
    && t.pending[e.key] == Place(PendingFor(s, e.key, e.size), PieceOf(e))
    && t.pending.Keys == s.pending.Keys + {e.key}
    && (forall key :: key in s.pending && key != e.key ==> t.pending[key] == s.pending[key])
    && PendingValid(PendingFor(s, e.key, e.size)) && PendingFor(s, e.key, e.size).total == e.size
  }

  /** A delivered record is placed, or completes its file, or leaves at most
      fewer entries and an address that is no longer clean. */
  lemma ChunkOutcome(s: State, e: ChunkEvent, env: Env, skip: bool, writeOk: bool)
    requires Inv(s, env)
    ensures var t := HandleChunk(s, e, env, skip, writeOk);
            && (Placed(s, t, e) || SubPending(s, t))
            && (ChunkInBounds(e) && e.dataLen <= |e.body| && e.key !in t.ambiguous && e.key !in t.dexCache && !Completes(s, e) ==>
                  Placed(s, t, e))
            && EntriesKept(s, t, if Completes(s, e) then {e.key} else {})
  {
    hide Inv, Observe, Place, Conflicts, PendingFor, Quarantine, SaveDex, Whole, SubPending, EntriesKept, PendingValid;
    SubRefl(s);
    KeptRefl(s);
    if ChunkInBounds(e) {
      var seen := Observe(s, e.key, e.size);
      ObserveSub(s, e.key, e.size);
      ObserveEntries(s, e.key, e.size);
      if e.key !in seen.ambiguous && e.dataLen <= |e.body| {
        ObserveKeeps(s, e.key, e.size, env);
        ObservedSize(s, e.key, e.size);
        AcceptOutcome(s, seen, e, env, skip, writeOk);
      }
    }
  }

  lemma AcceptOutcome(s: State, seen: State, e: ChunkEvent, env: Env, skip: bool, writeOk: bool)
    requires ChunkInBounds(e) && e.dataLen <= |e.body| && seen == Observe(s, e.key, e.size) && e.key !in seen.ambiguous
    requires Inv(seen, env) && e.key in seen.dexSizes && seen.dexSizes[e.key] == e.size
    requires seen.pending == s.pending && SubPending(s, seen) && EntriesKept(s, seen, {})
    ensures var t := AcceptChunk(seen, e, PieceOf(e), env, skip, writeOk);
            && (Placed(s, t, e) || SubPending(s, t))
            && (e.key !in t.ambiguous && e.key !in t.dexCache && !Completes(s, e) ==> Placed(s, t, e))
            && EntriesKept(s, t, if Completes(s, e) then {e.key} else {})
  {
    hide Inv, Observe, Place, Conflicts, Quarantine, SaveDex, Whole, SubPending, EntriesKept, PendingValid;
    var c := PieceOf(e);
    QuarantineSub(seen, e.key);
    QuarantineEntries(seen, e.key);
    QuarantinedIsAmbiguous(seen, e.key);
    SubTrans(s, seen, Quarantine(seen, e.key));
    KeptTrans(s, seen, Quarantine(seen, e.key), {});
    PendingForIs(seen, e.key, e.size, env);
    if Accepts(s, e) {
      var q := Place(PendingFor(seen, e.key, e.size), c);
      if Whole(q) {
        CompletedOutcome(s, seen, e, q.buf, env, skip, writeOk);
      } else {
        GrowKept(s, seen, e.key, q, PendingFor(seen, e.key, e.size), c);
      }
    }
  }

  lemma CompletedOutcome(s: State, seen: State, e: ChunkEvent, bytes: seq<byte>, env: Env, skip: bool, writeOk: bool)
    requires SubPending(s, seen) && EntriesKept(s, seen, {})
    ensures var t := SaveDex(Sweep(seen, {e.key}), Some(e.key.pid), e.key.begin, e.size, bytes, env, skip, writeOk);
            SubPending(s, t) && EntriesKept(s, t, {e.key})
  {
    hide SaveDex, SubPending, EntriesKept;
    var swept := Sweep(seen, {e.key});
    var t := SaveDex(swept, Some(e.key.pid), e.key.begin, e.size, bytes, env, skip, writeOk);
    SweepEntries(seen, {e.key});
    SweepSub(seen, {e.key});
    SaveSub(swept, Some(e.key.pid), e.key.begin, e.size, bytes, env, skip, writeOk);
    SaveEntries(swept, Some(e.key.pid), e.key.begin, e.size, bytes, env, skip, writeOk);
    SubTrans(s, seen, swept);
    SubTrans(s, swept, t);
    KeptSweep(s, seen, swept, t, e.key);
  }

  lemma SweepEntries(s: State, stale: set<Key>)
    ensures EntriesKept(s, Sweep(s, stale), stale)
  {
  }

  lemma KeptSweep(s: State, seen: State, swept: State, t: State, key: Key)
    requires EntriesKept(s, seen, {}) && EntriesKept(seen, swept, {key}) && EntriesKept(swept, t, {})
    requires seen.ambiguous == swept.ambiguous <= t.ambiguous && seen.dexCache == swept.dexCache && swept.dexCache.Keys <= t.dexCache.Keys
    ensures EntriesKept(s, t, {key})
  {
    hide Covered;
    forall k | k !in t.ambiguous && k !in t.dexCache && k != key
      ensures EntryKept(s, t, k)
    {
      assert EntryKept(s, seen, k) && EntryKept(seen, swept, k) && EntryKept(swept, t, k);
    }
  }

  lemma GrowKept(s: State, seen: State, key: Key, q: Pending, p: Pending, c: Chunk)
    requires EntriesKept(s, seen, {}) && p == PendingFor(seen, key, p.total) && q == Place(p, c)
    requires PendingValid(p) && c.Fits(p.total)
    ensures EntriesKept(s, seen.(pending := seen.pending[key := q]), {})
  {
    hide Covered, Place;
    var t := seen.(pending := seen.pending[key := q]);
    PlaceCovers(p, c);
    forall k | k !in t.ambiguous && k !in t.dexCache
      ensures EntryKept(s, t, k)
    {
      assert EntryKept(s, seen, k);
    }
  }

  // ----- the consumer keeps its side -----

  lemma PieceIsMemory(e: ChunkEvent, mem: Memory)
    requires FromMemory(e, mem)
    ensures var c := PieceOf(e);
            && c.offset == e.offset && c.End() == e.offset + e.dataLen && c.Fits(e.size)
            && (forall x :: c.Has(x) <==> ChunkHas(e, x))
            && (forall x :: c.Has(x) ==> c.payload[x - c.offset] == mem(e.key, x))
  {
  }

  /** A record of memory never contradicts an entry that holds memory. */
  lemma MemoryNeverConflicts(p: Pending, e: ChunkEvent, mem: Memory)
    requires PendingValid(p) && FromMemory(e, mem) && e.size == p.total
    requires forall x :: Covered(p.intervals, x) ==> 0 <= x < |p.buf| && p.buf[x] == mem(e.key, x)
    ensures !Conflicts(p, PieceOf(e))
  {
    hide Conflicts, Covered, Canonical;
    PieceIsMemory(e, mem);
    ConflictIs(p, PieceOf(e));
  }

  lemma PlacedFromMemory(p: Pending, e: ChunkEvent, mem: Memory)
    requires PendingValid(p) && FromMemory(e, mem) && e.size == p.total
    requires forall x :: Covered(p.intervals, x) ==> 0 <= x < |p.buf| && p.buf[x] == mem(e.key, x)
    ensures var q := Place(p, PieceOf(e));
            && (forall x :: Covered(q.intervals, x) <==> Covered(p.intervals, x) || ChunkHas(e, x))
            && (forall x :: Covered(q.intervals, x) ==> 0 <= x < |q.buf| && q.buf[x] == mem(e.key, x))
  {
    hide Covered, Canonical, Recorded;
    PieceIsMemory(e, mem);
    PlaceCovers(p, PieceOf(e));
  }

  lemma PendingForFromMemory(s: State, key: Key, size: u32, mem: Memory)
    requires PendingFromMemory(s, mem)
    ensures var p := PendingFor(s, key, size);
            forall x :: Covered(p.intervals, x) ==> 0 <= x < |p.buf| && p.buf[x] == mem(key, x)
  {
    if key in s.pending {
      assert EntryFromMemory(s, key, mem);
    }
  }

  lemma SubFromMemory(s: State, t: State, mem: Memory)
    requires PendingFromMemory(s, mem) && SubPending(s, t)
    ensures PendingFromMemory(t, mem)
  {
    forall key | key in t.pending ensures EntryFromMemory(t, key, mem) { assert EntryFromMemory(s, key, mem); }
  }

  lemma PlacedKeepsMemory(s: State, t: State, e: ChunkEvent, mem: Memory)
    requires PendingFromMemory(s, mem) && FromMemory(e, mem) && Placed(s, t, e)
    ensures PendingFromMemory(t, mem) && Taken(t, e)
  {
    hide Covered, Canonical, PendingFor, Place, Accepts, Recorded;
    PendingForFromMemory(s, e.key, e.size, mem);
    PlacedFromMemory(PendingFor(s, e.key, e.size), e, mem);
    forall key | key in t.pending ensures EntryFromMemory(t, key, mem) {
      if key != e.key {
        assert EntryFromMemory(s, key, mem);
      }
    }
  }

  /** Addresses do not become clean again. */
  ghost predicate StillClean(sys: System, t: System) {
    forall key :: Clean(t, key) ==> Clean(sys, key)
  }

  lemma EvolvesStillClean(sys: System, t: System)
    requires Evolves(sys.user, t.user) && sys.released <= t.released
    ensures StillClean(sys, t)
  {
    forall key | Clean(t, key) ensures Clean(sys, key) {
      assert AddressStays(sys.user, t.user, key);
    }
  }

  /** A record stays accounted for while its address stays clean. */
  lemma StaysAccounted(sys: System, t: System, e: ChunkEvent, released: set<Key>)
    requires Accounted(sys, e) && EntriesKept(sys.user, t.user, released)
    requires StillClean(sys, t) && released <= t.released
    requires e in sys.ring && e !in t.ring ==> (ReasonableSize(e.size) && Clean(t, e.key) ==> Taken(t.user, e))
    ensures Accounted(t, e)
  {
    hide Covered;
    if ReasonableSize(e.size) && Clean(t, e.key) && e !in t.ring {
      assert Clean(sys, e.key);
      assert EntryKept(sys.user, t.user, e.key);
    }
  }

  lemma DeliverKeepsConsumer(sys: System, skip: bool, writeOk: bool, mem: Memory, env: Env)
    requires SystemInv(sys, mem, env)
    ensures ConsumerOk(Next(sys, Deliver(skip, writeOk), mem, env), mem, env)
  {
    hide Inv, HandleChunk, Completes, PendingFromMemory, SubPending, EntriesKept, Placed, Evolves, FromMemory, SentUpTo,
      Accounted, StillClean;
    if sys.ring != [] {
      var e := sys.ring[0];
      var s := sys.user;
      var t := Next(sys, Deliver(skip, writeOk), mem, env);
      assert e in sys.ring && FromMemory(e, mem);
      ChunkKeeps(s, e, env, skip, writeOk);
      ChunkEvolves(s, e, env, skip, writeOk);
      ChunkOutcome(s, e, env, skip, writeOk);
      EvolvesStillClean(sys, t);
      if Placed(s, t.user, e) {
        PlacedKeepsMemory(s, t.user, e, mem);
      } else {
        SubFromMemory(s, t.user, mem);
      }
      forall d | d in t.submitted ensures Accounted(t, d) {
        assert d in sys.ring ==> d == e || d in sys.ring[1..];
        DeliveredTaken(s, t, e, mem);
        StaysAccounted(sys, t, d, if Completes(s, e) then {e.key} else {});
      }
    }
  }

  /** The delivered record is received, unless its address is no longer clean. */
  lemma DeliveredTaken(s: State, t: System, e: ChunkEvent, mem: Memory)
    requires FromMemory(e, mem) && PendingFromMemory(s, mem)
    requires ChunkInBounds(e) && e.dataLen <= |e.body| && e.key !in t.user.ambiguous && e.key !in t.user.dexCache && !Completes(s, e) ==>
               Placed(s, t.user, e)
    requires Completes(s, e) ==> e.key in t.released
    ensures ReasonableSize(e.size) && Clean(t, e.key) ==> Taken(t.user, e)
  {
    hide Completes, Placed, Taken, PendingFromMemory;
    if ReasonableSize(e.size) && Clean(t, e.key) {
      PlacedKeepsMemory(s, t.user, e, mem);
    }
  }

  lemma OtherEntries(s: State, e: Event, env: Env)
    requires !e.SawChunk?
    ensures SubPending(s, Step(s, e, env))
    ensures EntriesKept(s, Step(s, e, env), if e.Swept? then e.stale else {})
  {
    hide Observe, SaveDex, EntriesKept, SubPending, RecordMethod, Flush;
    SubRefl(s);
    KeptRefl(s);
    match e
    case SawDex(key, size) =>
      ObserveSub(s, key, size);
      ObserveEntries(s, key, size);
    case SawMethod(key, size, idx, code) =>
      var seen := Observe(s, key, size);
      ObserveSub(s, key, size);
      ObserveEntries(s, key, size);
      RecordSub(seen, key, idx, code, env);
      RecordEntries(seen, key, idx, code, env);
      SubTrans(s, seen, RecordMethod(seen, key, idx, code, env));
      KeptTrans(s, seen, RecordMethod(seen, key, idx, code, env), {});
    case Scanned(pid, begin, size, bytes, skip, writeOk) =>
      SaveSub(s, pid, begin, size, bytes, env, skip, writeOk);
      SaveEntries(s, pid, begin, size, bytes, env, skip, writeOk);
    case Swept(stale) =>
      SweepSub(s, stale);
      SweepEntries(s, stale);
    case Sealed => SameEntries(s, s.(sealed := true));
    case Flushed(written) =>
      FlushSame(s, written);
      SameEntries(s, Flush(s, written));
  }

  lemma RecordEntries(s: State, key: Key, idx: u32, code: seq<byte>, env: Env)
    ensures EntriesKept(s, RecordMethod(s, key, idx, code, env), {})
    ensures s.ambiguous == RecordMethod(s, key, idx, code, env).ambiguous
    ensures s.dexCache == RecordMethod(s, key, idx, code, env).dexCache
  {
    hide MethodName;
  }

  lemma SameEntries(s: State, t: State)
    requires t.pending == s.pending
    ensures EntriesKept(s, t, {}) && SubPending(s, t)
  {
  }

  lemma FlushSame(s: State, written: set<Key>)
    ensures Flush(s, written).pending == s.pending
  {
  }

  lemma OtherKeepsConsumer(sys: System, event: Event, mem: Memory, env: Env)
    requires SystemInv(sys, mem, env) && !event.SawChunk?
    ensures ConsumerOk(Next(sys, Other(event), mem, env), mem, env)
  {
    hide Inv, Step, PendingFromMemory, SubPending, EntriesKept, Evolves, FromMemory, SentUpTo, Accounted, StillClean;
    var t := Next(sys, Other(event), mem, env);
    StepKeeps(sys.user, event, env);
    StepEvolves(sys.user, event, env);
    OtherEntries(sys.user, event, env);
    SubFromMemory(sys.user, t.user, mem);
    EvolvesStillClean(sys, t);
    forall e | e in t.submitted ensures Accounted(t, e) {
      StaysAccounted(sys, t, e, if event.Swept? then event.stale else {});
    }
  }

  /** A step of the kernel side loses no record. */
  lemma KernelKeepsConsumer(sys: System, t: System, mem: Memory, env: Env)
    requires ConsumerOk(sys, mem, env) && t.user == sys.user && t.released == sys.released
    requires forall e :: e in sys.ring ==> e in t.ring
    requires forall e :: e in t.submitted ==> e in sys.submitted || e in t.ring
    ensures ConsumerOk(t, mem, env)
  {
    hide Inv, PendingFromMemory, Taken;
    forall e | e in t.submitted ensures Accounted(t, e) {
      assert e in sys.submitted ==> Accounted(sys, e);
    }
  }

  lemma NextKeepsInv(sys: System, a: Action, mem: Memory, env: Env)
    requires SystemInv(sys, mem, env)
    ensures SystemInv(Next(sys, a, mem, env), mem, env)
  {
    hide ProducerOk, ConsumerOk, HandleChunk, Step, Completes, ChunkAt;
    NextKeepsProducer(sys, a, mem, env);
    var t := Next(sys, a, mem, env);
    if a.Deliver? {
      DeliverKeepsConsumer(sys, a.skip, a.writeOk, mem, env);
    } else if a.Other? {
      if !a.event.SawChunk? {
        OtherKeepsConsumer(sys, a.event, mem, env);
      }
    } else {
      assert forall e :: e in sys.ring ==> e in t.ring;
      KernelKeepsConsumer(sys, t, mem, env);
    }
  }

  /** Over any interleaving of any number of probes, with any losses. */
  lemma {:induction false} RunKeepsSystemInv(sys: System, actions: seq<Action>, mem: Memory, env: Env)
    requires SystemInv(sys, mem, env)
    ensures SystemInv(RunSystem(sys, actions, mem, env), mem, env)
    decreases |actions|
  {
    hide SystemInv, Next;
    if actions != [] {
      NextKeepsInv(sys, actions[0], mem, env);
      RunKeepsSystemInv(Next(sys, actions[0], mem, env), actions[1..], mem, env);
    }
  }

  // ----- what follows -----

  /** Byte `x` is in a record still in the ring. */
  ghost predicate InRing(ring: seq<ChunkEvent>, key: Key, size: u32, x: int) {
    exists e :: e in ring && e.key == key && e.size == size && ChunkHas(e, x)
  }

  /** Byte `x` has been received. */
  ghost predicate Received(s: State, key: Key, x: int) {
    key in s.pending && Covered(s.pending[key].intervals, x)
  }

  ghost predicate StoredOrLocal(sys: System, capture: CaptureKey, p: u32) {
    || (capture in sys.progress && sys.progress[capture] == p)
    || exists id :: id in sys.probes && sys.probes[id].capture == capture && sys.probes[id].nextOff == p
  }

  lemma SentIsAccounted(sys: System, capture: CaptureKey, x: int, mem: Memory, env: Env)
    requires ConsumerOk(sys, mem, env) && WasSent(sys.submitted, capture.key, capture.size, x)
    requires ReasonableSize(capture.size) && Clean(sys, capture.key)
    ensures InRing(sys.ring, capture.key, capture.size, x) || Received(sys.user, capture.key, x)
  {
    hide Inv, PendingFromMemory, Covered;
    var e :| e in sys.submitted && e.key == capture.key && e.size == capture.size && ChunkHas(e, x);
    assert Accounted(sys, e);
  }

  /** Chunk protocol safety: however probes interleave, lose reservations, fail
      to read and have their progress evicted, everything below any stored or
      local offset has been sent; and for an address that is neither
      quarantined, saved nor timed out, it lies in the ring or has been received. */
  lemma ProgressIsSafe(actions: seq<Action>, mem: Memory, env: Env, capture: CaptureKey, p: u32)
    requires StoredOrLocal(RunSystem(Start(), actions, mem, env), capture, p)
    ensures var sys := RunSystem(Start(), actions, mem, env);
            && p <= capture.size
            && (forall x :: 0 <= x < p ==> WasSent(sys.submitted, capture.key, capture.size, x))
            && (ReasonableSize(capture.size) && Clean(sys, capture.key) ==>
                  forall x :: 0 <= x < p ==> InRing(sys.ring, capture.key, capture.size, x) || Received(sys.user, capture.key, x))
  {
    hide ConsumerOk, RunSystem, FromMemory, Clean, InRing, Received;
    var sys := RunSystem(Start(), actions, mem, env);
    StartOk(mem, env);
    RunKeepsSystemInv(Start(), actions, mem, env);
    assert SentUpTo(sys.submitted, capture, p);
    if ReasonableSize(capture.size) && Clean(sys, capture.key) {
      forall x | 0 <= x < p
        ensures InRing(sys.ring, capture.key, capture.size, x) || Received(sys.user, capture.key, x)
      {
        SentIsAccounted(sys, capture, x, mem, env);
      }
    }
  }

  /** A delivered record that completes its file completes it with the memory it
      was read from, byte for byte. */
  lemma CompletedIsMemory(actions: seq<Action>, mem: Memory, env: Env)
    requires var sys := RunSystem(Start(), actions, mem, env); sys.ring != [] && Completes(sys.user, sys.ring[0])
    ensures var sys := RunSystem(Start(), actions, mem, env);
            var e := sys.ring[0];
            var seen := Observe(sys.user, e.key, e.size);
            Place(PendingFor(seen, e.key, e.size), PieceOf(e)).buf == MemoryBytes(mem, e.key, 0, e.size)
  {
    hide RunSystem, Inv, SentUpTo, Accounted, Observe, Conflicts, Place, PendingFor, Whole;
    var sys := RunSystem(Start(), actions, mem, env);
    StartOk(mem, env);
    RunKeepsSystemInv(Start(), actions, mem, env);
    var e := sys.ring[0];
    var seen := Observe(sys.user, e.key, e.size);
    assert e in sys.ring && FromMemory(e, mem);
    ObserveKeeps(sys.user, e.key, e.size, env);
    ObservedSize(sys.user, e.key, e.size);
    ObserveSub(sys.user, e.key, e.size);
    SubFromMemory(sys.user, seen, mem);
    PendingForIs(seen, e.key, e.size, env);
    WholeIsMemory(seen, e, mem);
  }

  lemma WholeIsMemory(s: State, e: ChunkEvent, mem: Memory)
    requires PendingFromMemory(s, mem) && FromMemory(e, mem) && ReasonableSize(e.size)
    requires PendingValid(PendingFor(s, e.key, e.size)) && PendingFor(s, e.key, e.size).total == e.size
    requires Whole(Place(PendingFor(s, e.key, e.size), PieceOf(e)))
    ensures Place(PendingFor(s, e.key, e.size), PieceOf(e)).buf == MemoryBytes(mem, e.key, 0, e.size)
  {
    hide PendingFor, Place, Covered, Canonical, PendingFromMemory, IsComplete;
    var p := PendingFor(s, e.key, e.size);
    var q := Place(p, PieceOf(e));
    PendingForFromMemory(s, e.key, e.size, mem);
    PieceIsMemory(e, mem);
    PlaceValid(p, PieceOf(e));
    PlacedFromMemory(p, e, mem);
    CompleteExact(q.intervals, q.total);
    assert forall x :: 0 <= x < e.size ==> q.buf[x] == mem(e.key, x);
  }

  /** No false quarantine: a delivered record only contradicts what is known when
      its address was given another size, or already saved with other bytes. */
  lemma NoFalseQuarantine(actions: seq<Action>, mem: Memory, env: Env)
    requires var sys := RunSystem(Start(), actions, mem, env); sys.ring != [] && Clean(sys, sys.ring[0].key)
    ensures var sys := RunSystem(Start(), actions, mem, env);
            var e := sys.ring[0];
            ReasonableSize(e.size) && (e.key in sys.user.dexSizes ==> sys.user.dexSizes[e.key] == e.size) ==> Accepts(sys.user, e)
  {
    hide RunSystem, Inv, SentUpTo, Accounted, Conflicts, Place, PendingFor, PendingFromMemory, FromMemory;
    var sys := RunSystem(Start(), actions, mem, env);
    StartOk(mem, env);
    RunKeepsSystemInv(Start(), actions, mem, env);
    var e := sys.ring[0];
    assert e in sys.ring && FromMemory(e, mem);
    if ReasonableSize(e.size) && (e.key in sys.user.dexSizes ==> sys.user.dexSizes[e.key] == e.size) {
      var seen := Observe(sys.user, e.key, e.size);
      ObserveKeeps(sys.user, e.key, e.size, env);
      ObserveSub(sys.user, e.key, e.size);
      SubFromMemory(sys.user, seen, mem);
      PendingForIs(seen, e.key, e.size, env);
      PendingForFromMemory(seen, e.key, e.size, mem);
      MemoryNeverConflicts(PendingFor(seen, e.key, e.size), e, mem);
      MemoryFits(e, mem);
    }
  }

  lemma MemoryFits(e: ChunkEvent, mem: Memory)
    requires FromMemory(e, mem)
    ensures ReasonableSize(e.size) ==> ChunkInBounds(e) && e.dataLen <= |e.body|
  {
  }
}
