/**
  The producer's loop: one call that sends pieces until the file ends, its quota
  is used up, or a reservation or read fails, and then stores its progress.
 */
module ChunkProducer {
  import opened Bytes
  import opened Capture
  import opened ChunkProtocol

  /** The records of at most `n` pieces from `off` on. */
  function Pieces(mem: Memory, capture: CaptureKey, off: u32, n: nat, leftover: seq<byte>): seq<ChunkEvent>
    decreases n
  {
    if n == 0 || off >= capture.size then []
    else
      var e := ChunkAt(mem, capture, off, leftover);
      [e] + Pieces(mem, capture, off + e.dataLen, n - 1, leftover)
  }

  /** The offset after them. */
  function OffsetAfter(capture: CaptureKey, off: u32, n: nat): u32
    decreases n
  {
    if n == 0 || off >= capture.size then off
    else OffsetAfter(capture, off + Min(capture.size - off, MAX_PAYLOAD), n - 1)
  }

  /** Consecutive pieces: together exactly the bytes between the two offsets. */
  lemma {:induction false} PiecesCover(mem: Memory, capture: CaptureKey, off: u32, n: nat, leftover: seq<byte>)
    requires off <= capture.size
    ensures off <= OffsetAfter(capture, off, n) <= capture.size
    ensures OffsetAfter(capture, off, n) == Min(capture.size, off + n * MAX_PAYLOAD)
    ensures forall e :: e in Pieces(mem, capture, off, n, leftover) ==> FromMemory(e, mem)
    ensures forall x :: off <= x < OffsetAfter(capture, off, n) <==>
              WasSent(Pieces(mem, capture, off, n, leftover), capture.key, capture.size, x)
    decreases n
  {
    hide FromMemory;
    if n > 0 && off < capture.size {
      var e := ChunkAt(mem, capture, off, leftover);
      var rest := Pieces(mem, capture, off + e.dataLen, n - 1, leftover);
      PiecesCover(mem, capture, off + e.dataLen, n - 1, leftover);
      assert FromMemory(e, mem) by { PieceFromMemory(mem, capture, off, leftover); }
      assert forall d :: d in [e] + rest <==> d == e || d in rest;
      assert n * MAX_PAYLOAD == MAX_PAYLOAD + (n - 1) * MAX_PAYLOAD;
      assert n - 1 > 0 ==> (n - 1) * MAX_PAYLOAD >= MAX_PAYLOAD;
      forall x
        ensures off <= x < OffsetAfter(capture, off, n) <==> WasSent([e] + rest, capture.key, capture.size, x)
      {
        SentJoin(e, rest, capture.key, capture.size, x);
      }
    }
  }

  lemma SentJoin(e: ChunkEvent, rest: seq<ChunkEvent>, key: Key, size: u32, x: int)
    ensures WasSent([e] + rest, key, size, x) <==>
              (e.key == key && e.size == size && ChunkHas(e, x)) || WasSent(rest, key, size, x)
  {
    assert forall d :: d in [e] + rest <==> d == e || d in rest;
  }

  lemma PieceFromMemory(mem: Memory, capture: CaptureKey, off: u32, leftover: seq<byte>)
    requires off < capture.size
    ensures FromMemory(ChunkAt(mem, capture, off, leftover), mem)
  {
  }

  /** One turn of the loop. */
  lemma OnePiece(mem: Memory, capture: CaptureKey, off: u32, n: nat, leftover: seq<byte>, ring: seq<ChunkEvent>)
    requires n > 0 && off < capture.size
    ensures var e := ChunkAt(mem, capture, off, leftover);
            && off + e.dataLen <= capture.size
            && ring + Pieces(mem, capture, off, n, leftover) == ring + [e] + Pieces(mem, capture, off + e.dataLen, n - 1, leftover)
            && OffsetAfter(capture, off, n) == OffsetAfter(capture, off + e.dataLen, n - 1)
  {
    hide MemoryBytes;
    var e := ChunkAt(mem, capture, off, leftover);
    assert Pieces(mem, capture, off, n, leftover) == [e] + Pieces(mem, capture, off + e.dataLen, n - 1, leftover);
  }

  lemma NoPieces(mem: Memory, capture: CaptureKey, off: u32, n: nat, leftover: seq<byte>)
    requires n == 0 || off >= capture.size
    ensures Pieces(mem, capture, off, n, leftover) == [] && OffsetAfter(capture, off, n) == off
  {
  }

  /** The maps a probe shares with the others. */
  class KernelMaps {
    var progress: map<CaptureKey, u32>
    var ring: seq<ChunkEvent>

    constructor ()
      ensures progress == map[] && ring == []
    {
      progress, ring := map[], [];
    }

    /** `submit_dex_chunks_partial`: the reservation or read number `fails` is
        the first to fail, and `stored` says whether progress could be stored. */
    method SubmitDexChunksPartial(mem: Memory, capture: CaptureKey, fails: nat, leftover: seq<byte>, stored: bool)
      modifies this
      ensures var start := ProgressOf(old(progress), capture);
              if capture.size == 0 || start >= capture.size then progress == old(progress) && ring == old(ring)
              else
                && ring == old(ring) + Pieces(mem, capture, start, Min(fails, MAX_CHUNKS_PER_CALL), leftover)
                && progress == if stored
                               then old(progress)[capture := OffsetAfter(capture, start, Min(fails, MAX_CHUNKS_PER_CALL))]
                               else old(progress)
    {
      hide MemoryBytes, Pieces, OffsetAfter, ChunkAt;
      if capture.size == 0 {
        return;
      }
      var nextOff: u32 := ProgressOf(progress, capture);
      if nextOff >= capture.size {
        return;
      }
      ghost var start := nextOff;
      ghost var most := Min(fails, MAX_CHUNKS_PER_CALL);
      var i: nat := 0;
      while i < MAX_CHUNKS_PER_CALL && nextOff < capture.size && i != fails
        invariant i <= most && nextOff <= capture.size && progress == old(progress)
        invariant ring + Pieces(mem, capture, nextOff, most - i, leftover) == old(ring) + Pieces(mem, capture, start, most, leftover)
        invariant OffsetAfter(capture, nextOff, most - i) == OffsetAfter(capture, start, most)
        decreases MAX_CHUNKS_PER_CALL - i
      {
        var e := ChunkAt(mem, capture, nextOff, leftover);
        OnePiece(mem, capture, nextOff, most - i, leftover, ring);
        ring := ring + [e];
        nextOff := nextOff + e.dataLen;
        i := i + 1;
      }
      NoPieces(mem, capture, nextOff, most - i, leftover);
      assert ring + [] == ring;
      if stored {
        progress := progress[capture := nextOff];
      }
    }
  }

  // ----- a call is a run of the protocol -----

  function Sends(id: nat, n: nat, leftover: seq<byte>): seq<Action> {
    if n == 0 then [] else [Send(id, leftover)] + Sends(id, n - 1, leftover)
  }

  /** The steps of one uninterrupted call. */
  function Call(id: nat, capture: CaptureKey, fails: nat, leftover: seq<byte>, stored: bool): seq<Action> {
    [Enter(id, capture)] + Sends(id, Min(fails, MAX_CHUNKS_PER_CALL), leftover) + [GiveUp(id), Leave(id, stored)]
  }

  lemma {:induction false} RunJoin(sys: System, xs: seq<Action>, ys: seq<Action>, mem: Memory, env: Env)
    ensures RunSystem(sys, xs + ys, mem, env) == RunSystem(RunSystem(sys, xs, mem, env), ys, mem, env)
    decreases |xs|
  {
    hide Next;
    if xs == [] {
      assert xs + ys == ys;
    } else {
      assert (xs + ys)[1..] == xs[1..] + ys;
      RunJoin(Next(sys, xs[0], mem, env), xs[1..], ys, mem, env);
    }
  }

  ghost predicate AfterSends(sys: System, t: System, id: nat, n: nat, mem: Memory, leftover: seq<byte>)
    requires id in sys.probes
  {
    var p := sys.probes[id];
    && t.progress == sys.progress && t.user == sys.user
    && t.ring == sys.ring + Pieces(mem, p.capture, p.nextOff, n, leftover)
    && id in t.probes && t.probes - {id} == sys.probes - {id}
    && t.probes[id].capture == p.capture && t.probes[id].nextOff == OffsetAfter(p.capture, p.nextOff, n)
  }

  /** However often a probe would send, it sends what its quota allows. */
  lemma {:induction false} SendsAre(sys: System, id: nat, n: nat, mem: Memory, env: Env, leftover: seq<byte>)
    requires id in sys.probes
    ensures AfterSends(sys, RunSystem(sys, Sends(id, n, leftover), mem, env), id, Min(n, sys.probes[id].left), mem, leftover)
    decreases n
  {
    hide MemoryBytes, HandleChunk, Step, ChunkAt, AfterSends, Pieces, OffsetAfter;
    if n == 0 || sys.probes[id].left == 0 {
      AfterNone(sys, id, mem, leftover);
      IdleSends(sys, id, n, mem, env, leftover);
    } else {
      var t := Next(sys, Send(id, leftover), mem, env);
      assert Sends(id, n, leftover)[1..] == Sends(id, n - 1, leftover);
      if CanSend(sys.probes[id]) {
        SendsAre(t, id, n - 1, mem, env, leftover);
        AfterOne(sys, RunSystem(t, Sends(id, n - 1, leftover), mem, env), id, Min(n, sys.probes[id].left), mem, env, leftover);
      } else {
        AfterDone(sys, id, Min(n, sys.probes[id].left), mem, leftover);
        IdleSends(sys, id, n, mem, env, leftover);
      }
    }
  }

  /** A call sends at most 128 pieces, however long it goes on. */
  lemma QuotaIs(sys: System, id: nat, capture: CaptureKey, n: nat, leftover: seq<byte>, mem: Memory, env: Env)
    requires id !in sys.probes && capture.size != 0 && ProgressOf(sys.progress, capture) < capture.size
    ensures RunSystem(sys, [Enter(id, capture)] + Sends(id, n, leftover), mem, env).ring
         == sys.ring + Pieces(mem, capture, ProgressOf(sys.progress, capture), Min(n, 128), leftover)
  {
    hide HandleChunk, Step, ChunkAt, Pieces, OffsetAfter, Sends, MemoryBytes;
    RunJoin(sys, [Enter(id, capture)], Sends(id, n, leftover), mem, env);
    RunOne(sys, Enter(id, capture), mem, env);
    SendsAre(Next(sys, Enter(id, capture), mem, env), id, n, mem, env, leftover);
  }

  lemma AfterNone(sys: System, id: nat, mem: Memory, leftover: seq<byte>)
    requires id in sys.probes
    ensures AfterSends(sys, sys, id, 0, mem, leftover)
  {
    assert sys.ring + [] == sys.ring;
  }

  lemma AfterDone(sys: System, id: nat, n: nat, mem: Memory, leftover: seq<byte>)
    requires id in sys.probes && sys.probes[id].nextOff >= sys.probes[id].capture.size
    ensures AfterSends(sys, sys, id, n, mem, leftover)
  {
    assert sys.ring + [] == sys.ring;
  }

  lemma AfterOne(sys: System, u: System, id: nat, n: nat, mem: Memory, env: Env, leftover: seq<byte>)
    requires id in sys.probes && CanSend(sys.probes[id]) && n > 0
    requires var t := Next(sys, Send(id, leftover), mem, env);
             id in t.probes && AfterSends(t, u, id, n - 1, mem, leftover)
    ensures AfterSends(sys, u, id, n, mem, leftover)
  {
    hide MemoryBytes, HandleChunk, Step;
    var p := sys.probes[id];
    var e := ChunkAt(mem, p.capture, p.nextOff, leftover);
    var rest := Pieces(mem, p.capture, p.nextOff + e.dataLen, n - 1, leftover);
    assert sys.ring + [e] + rest == sys.ring + ([e] + rest);
    var t := Next(sys, Send(id, leftover), mem, env);
    assert t.probes - {id} == sys.probes - {id};
  }

  lemma {:induction false} IdleSends(sys: System, id: nat, n: nat, mem: Memory, env: Env, leftover: seq<byte>)
    requires id in sys.probes && (n == 0 || !CanSend(sys.probes[id]))
    ensures RunSystem(sys, Sends(id, n, leftover), mem, env) == sys
    decreases n
  {
    hide HandleChunk, Step, ChunkAt;
    if n > 0 {
      assert Sends(id, n, leftover)[1..] == Sends(id, n - 1, leftover);
      IdleSends(sys, id, n - 1, mem, env, leftover);
    }
  }

  /** The steps of a call have exactly the loop's effect on ring and progress,
      and leave no probe behind. */
  lemma CallIsRun(sys: System, id: nat, capture: CaptureKey, fails: nat, leftover: seq<byte>, stored: bool, mem: Memory, env: Env)
    requires id !in sys.probes && capture.size != 0 && ProgressOf(sys.progress, capture) < capture.size
    ensures var t := RunSystem(sys, Call(id, capture, fails, leftover, stored), mem, env);
            var start, most := ProgressOf(sys.progress, capture), Min(fails, MAX_CHUNKS_PER_CALL);
            && t.ring == sys.ring + Pieces(mem, capture, start, most, leftover)
            && t.progress == (if stored then sys.progress[capture := OffsetAfter(capture, start, most)] else sys.progress)
            && t.probes == sys.probes && t.user == sys.user
  {
    hide HandleChunk, Step, ChunkAt, Pieces, OffsetAfter, Sends;
    var most := Min(fails, MAX_CHUNKS_PER_CALL);
    var entered := Next(sys, Enter(id, capture), mem, env);
    var sends := Sends(id, most, leftover);
    var sent := RunSystem(entered, sends, mem, env);
    SendsAre(entered, id, most, mem, env, leftover);
    RunJoin(sys, [Enter(id, capture)] + sends, [GiveUp(id), Leave(id, stored)], mem, env);
    RunJoin(sys, [Enter(id, capture)], sends, mem, env);
    RunOne(sys, Enter(id, capture), mem, env);
    RunTwo(sent, GiveUp(id), Leave(id, stored), mem, env);
    assert (sys.probes[id := entered.probes[id]]) - {id} == sys.probes;
    LeaveIs(sent, id, stored, mem, env);
  }

  lemma RunOne(sys: System, a: Action, mem: Memory, env: Env)
    ensures RunSystem(sys, [a], mem, env) == Next(sys, a, mem, env)
  {
    hide Next;
    assert [a][1..] == [];
  }

  lemma RunTwo(sys: System, a: Action, b: Action, mem: Memory, env: Env)
    ensures RunSystem(sys, [a, b], mem, env) == Next(Next(sys, a, mem, env), b, mem, env)
  {
    hide Next;
    assert [a, b][1..] == [b];
    RunOne(Next(sys, a, mem, env), b, mem, env);
  }

  lemma LeaveIs(sys: System, id: nat, stored: bool, mem: Memory, env: Env)
    requires id in sys.probes
    ensures var t := Next(Next(sys, GiveUp(id), mem, env), Leave(id, stored), mem, env);
            && t.ring == sys.ring && t.user == sys.user && t.probes == sys.probes - {id}
            && t.progress == if stored then sys.progress[sys.probes[id].capture := sys.probes[id].nextOff] else sys.progress
  {
    hide HandleChunk, Step, ChunkAt;
    var g := Next(sys, GiveUp(id), mem, env);
    assert g.probes - {id} == sys.probes - {id};
  }

  // ----- calls get there -----

  /** Uninterrupted calls that store their progress, call `i` failing at its
      reservation or read number `fails[i]` if it gets that far. */
  function Calls(id: nat, capture: CaptureKey, fails: seq<nat>, leftover: seq<byte>): seq<Action> {
    if fails == [] then [] else Call(id, capture, fails[0], leftover, true) + Calls(id, capture, fails[1..], leftover)
  }

  /** How many pieces the calls may send: at most 128 each. */
  function Sendable(fails: seq<nat>): nat {
    if fails == [] then 0 else Min(fails[0], 128) + Sendable(fails[1..])
  }

  /** A call for a finished file does nothing. */
  lemma IdleCall(sys: System, id: nat, capture: CaptureKey, fails: nat, leftover: seq<byte>, mem: Memory, env: Env)
    requires id !in sys.probes && ProgressOf(sys.progress, capture) >= capture.size
    ensures RunSystem(sys, Call(id, capture, fails, leftover, true), mem, env) == sys
  {
    hide Next, Sends;
    var sends := Sends(id, Min(fails, MAX_CHUNKS_PER_CALL), leftover);
    RunJoin(sys, [Enter(id, capture)] + sends, [GiveUp(id), Leave(id, true)], mem, env);
    RunJoin(sys, [Enter(id, capture)], sends, mem, env);
    RunOne(sys, Enter(id, capture), mem, env);
    NothingToDo(sys, id, capture, leftover, mem, env);
    NothingToSend(sys, id, Min(fails, MAX_CHUNKS_PER_CALL), leftover, mem, env);
    RunTwo(sys, GiveUp(id), Leave(id, true), mem, env);
  }

  lemma NothingToDo(sys: System, id: nat, capture: CaptureKey, leftover: seq<byte>, mem: Memory, env: Env)
    requires id !in sys.probes
    ensures ProgressOf(sys.progress, capture) >= capture.size ==> Next(sys, Enter(id, capture), mem, env) == sys
    ensures Next(sys, Send(id, leftover), mem, env) == sys
    ensures Next(sys, GiveUp(id), mem, env) == sys && Next(sys, Leave(id, true), mem, env) == sys
  {
    hide HandleChunk, Step, ChunkAt;
  }

  lemma {:induction false} NothingToSend(sys: System, id: nat, n: nat, leftover: seq<byte>, mem: Memory, env: Env)
    requires id !in sys.probes
    ensures RunSystem(sys, Sends(id, n, leftover), mem, env) == sys
    decreases n
  {
    hide Next;
    if n > 0 {
      assert Sends(id, n, leftover)[1..] == Sends(id, n - 1, leftover);
      NothingToDo(sys, id, CaptureKey(Key(0, 0), 0, []), leftover, mem, env);
      NothingToSend(sys, id, n - 1, leftover, mem, env);
    }
  }

  /** Progress is the number of pieces sent, a full piece being 128 KiB less the
      record header, until the file ends. */
  lemma {:induction false} CallsProgress(
    sys: System, id: nat, capture: CaptureKey, fails: seq<nat>, leftover: seq<byte>, mem: Memory, env: Env)
    requires id !in sys.probes && ProgressOf(sys.progress, capture) <= capture.size
    ensures var t := RunSystem(sys, Calls(id, capture, fails, leftover), mem, env);
            && t.probes == sys.probes
            && ProgressOf(t.progress, capture)
               == Min(capture.size, ProgressOf(sys.progress, capture) + Sendable(fails) * (0x2_0000 - 24))
    decreases |fails|
  {
    hide Next, Call, ProgressOf, Pieces, OffsetAfter;
    if fails != [] {
      var call, rest := Call(id, capture, fails[0], leftover, true), Calls(id, capture, fails[1..], leftover);
      var start := ProgressOf(sys.progress, capture);
      RunJoin(sys, call, rest, mem, env);
      var u := RunSystem(sys, call, mem, env);
      if start < capture.size {
        CallIsRun(sys, id, capture, fails[0], leftover, true, mem, env);
        PiecesCover(mem, capture, start, Min(fails[0], MAX_CHUNKS_PER_CALL), leftover);
        ProgressSet(sys.progress, capture, OffsetAfter(capture, start, Min(fails[0], MAX_CHUNKS_PER_CALL)));
      } else {
        IdleCall(sys, id, capture, fails[0], leftover, mem, env);
      }
      CallsProgress(u, id, capture, fails[1..], leftover, mem, env);
      Distribute(Min(fails[0], 128), Sendable(fails[1..]));
    }
  }

  lemma ProgressSet(progress: map<CaptureKey, u32>, capture: CaptureKey, n: u32)
    ensures ProgressOf(progress[capture := n], capture) == n
  {
  }

  lemma Distribute(a: nat, b: nat)
    ensures (a + b) * (0x2_0000 - 24) == a * (0x2_0000 - 24) + b * (0x2_0000 - 24)
  {
  }

  /** So enough calls send the whole file, and its memory as it is: from any state
      of a run, after calls that may send that many pieces, progress is at the end
      and every byte has gone into a record. */
  lemma CallsFinish(
    actions: seq<Action>, id: nat, capture: CaptureKey, fails: seq<nat>, leftover: seq<byte>, mem: Memory, env: Env)
    requires id !in RunSystem(Start(), actions, mem, env).probes
    requires Sendable(fails) * (0x2_0000 - 24) >= capture.size > 0
    ensures var t := RunSystem(Start(), actions + Calls(id, capture, fails, leftover), mem, env);
            && ProgressOf(t.progress, capture) == capture.size
            && forall x :: 0 <= x < capture.size ==> WasSent(t.submitted, capture.key, capture.size, x)
  {
    hide RunSystem, SystemInv, Calls, Sendable, WasSent;
    var sys := RunSystem(Start(), actions, mem, env);
    RunJoin(Start(), actions, Calls(id, capture, fails, leftover), mem, env);
    StartOk(mem, env);
    RunKeepsSystemInv(Start(), actions, mem, env);
    RunKeepsSystemInv(Start(), actions + Calls(id, capture, fails, leftover), mem, env);
    ProgressSent(sys, capture, mem, env);
    CallsProgress(sys, id, capture, fails, leftover, mem, env);
    ProgressSent(RunSystem(Start(), actions + Calls(id, capture, fails, leftover), mem, env), capture, mem, env);
  }

  lemma ProgressSent(sys: System, capture: CaptureKey, mem: Memory, env: Env)
    requires SystemInv(sys, mem, env)
    ensures ProgressOf(sys.progress, capture) <= capture.size
    ensures forall x :: 0 <= x < ProgressOf(sys.progress, capture) ==> WasSent(sys.submitted, capture.key, capture.size, x)
  {
    hide ConsumerOk, WasSent, FromMemory;
  }
}
