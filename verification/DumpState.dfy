/**
  The dumper's shared state as an object: each handler updates its maps and sets
  in place and is proved against the function that specifies it. Entries being
  reassembled are taken out, worked on, and put back.
 */
module DumpStates {
  import opened Bytes
  import opened Dex
  import opened Intervals
  import opened Reassembly
  import opened Capture

  class DumpState {
    const env: Env
    var dexCache: map<Key, seq<byte>>
    var ambiguous: set<Key>
    var dexSizes: map<Key, u32>
    var pending: map<Key, Pending>
    var methodRecords: map<Key, seq<Record>>
    var sigCache: map<(Key, u32), string>
    var capturesSealed: bool
    var files: map<DexName, seq<byte>>
    var codeFiles: map<CodeName, seq<Record>>

    ghost function Value(): State
      reads this
    {
      State(dexCache, ambiguous, dexSizes, pending, methodRecords, sigCache, capturesSealed, files, codeFiles)
    }

    constructor (e: Env)
      ensures Value() == Initial() && env == e
    {
      env := e;
      dexCache, ambiguous, dexSizes, pending, methodRecords := map[], {}, map[], map[], map[];
      sigCache, capturesSealed, files, codeFiles := map[], false, map[], map[];
    }

    /** `quarantine_dex`. */
    method QuarantineDex(key: Key)
      modifies this
      ensures Value() == Quarantine(old(Value()), key)
    {
      ambiguous := ambiguous + {key};
      pending := pending - {key};
      methodRecords := methodRecords - {key};
      sigCache := WithoutSignatures(sigCache, key);
    }

    /** `observe_dex`. */
    method ObserveDex(key: Key, size: u32)
      modifies this
      ensures Value() == Observe(old(Value()), key, size)
    {
      hide Quarantine;
      if !(DEX_HEADER_SIZE <= size <= MAX_DEX_FILE_SIZE) {
        QuarantineDex(key);
        return;
      }
      var changed := key in dexSizes && dexSizes[key] != size;
      dexSizes := dexSizes[key := size];
      if changed {
        QuarantineDex(key);
      }
    }

    /** `save_dex`. */
    method SaveDexFile(pid: Option<u32>, begin: u64, size: u32, bytes: seq<byte>, skip: bool, writeOk: bool)
      modifies this
      ensures Value() == SaveDex(old(Value()), pid, begin, size, bytes, env, skip, writeOk)
    {
      hide Quarantine, Observe, OpenDex;
      if capturesSealed || (pid.Some? && skip) || OpenDex(bytes).Err? || pid.None? {
        return;
      }
      var key := Key(pid.value, begin);
      ObserveDex(key, size);
      if key in dexCache {
        if dexCache[key] == bytes {
          return;
        }
        QuarantineDex(key);
      }
      var name := if key in ambiguous then Hashed(key, env.hash(bytes), size) else Plain(key, size);
      if writeOk {
        files := files[name := bytes];
        pending := pending - {key};
        sigCache := WithoutSignatures(sigCache, key);
        dexCache := dexCache[key := bytes];
      }
    }

    /** `handle_dex_event`. */
    method HandleDexEvent(key: Key, size: u32)
      modifies this
      ensures Value() == Observe(old(Value()), key, size)
    {
      ObserveDex(key, size);
    }

    /** `handle_dex_chunk`. */
    method HandleDexChunk(e: ChunkEvent, skip: bool, writeOk: bool)
      modifies this
      ensures Value() == HandleChunk(old(Value()), e, env, skip, writeOk)
    {
      hide Quarantine, Observe, SaveDex, Conflicts, Place, Whole;
      if !ChunkInBounds(e) {
        return;
      }
      ObserveDex(e.key, e.size);
      if e.key in ambiguous || e.dataLen > |e.body| {
        return;
      }
      AcceptPiece(e, PieceOf(e), skip, writeOk);
    }

    method AcceptPiece(e: ChunkEvent, c: Chunk, skip: bool, writeOk: bool)
      modifies this
      ensures Value() == AcceptChunk(old(Value()), e, c, env, skip, writeOk)
    {
      hide Quarantine, SaveDex, Conflicts, Place, Whole;
      if e.key in dexCache {
        if !Repeats(dexCache[e.key], c) {
          QuarantineDex(e.key);
        }
        return;
      }
      var entry := new DexRecvState(if e.key in pending then pending[e.key] else NewPending(e.size));
      var conflicts := entry.ConflictsWith(c);
      if conflicts {
        QuarantineDex(e.key);
        return;
      }
      entry.Accept(c);
      var whole := entry.IsWhole();
      if whole {
        pending := pending - {e.key};
        SaveDexFile(Some(e.key.pid), e.key.begin, e.size, entry.buf, skip, writeOk);
      } else {
        pending := pending[e.key := Pending(entry.total, entry.intervals, entry.buf)];
      }
    }

    /** `method_name`. */
    method NameMethod(key: Key, idx: u32) returns (name: string)
      modifies this`sigCache
      ensures name == MethodName(old(Value()), key, idx, env)
      ensures sigCache == old(sigCache)[(key, idx) := name]
    {
      if (key, idx) in sigCache {
        name := sigCache[(key, idx)];
        return;
      }
      name := env.describe(if key in dexCache then Some(dexCache[key]) else None, idx);
      sigCache := sigCache[(key, idx) := name];
    }

    /** `handle_method_event`. */
    method HandleMethodEvent(key: Key, size: u32, idx: u32, code: seq<byte>)
      modifies this
      ensures Value() == HandleMethod(old(Value()), key, size, idx, code, env)
    {
      hide Observe, MethodName;
      ObserveDex(key, size);
      if key in ambiguous {
        return;
      }
      var name := NameMethod(key, idx);
      if code != [] {
        var before := if key in methodRecords then methodRecords[key] else [];
        methodRecords := methodRecords[key := before + [Record(name, idx, code)]];
      }
    }

    /** Drop pending entries nothing has arrived for. */
    method SweepStale(stale: set<Key>)
      modifies this`pending
      ensures Value() == Sweep(old(Value()), stale)
    {
      pending := pending - stale;
    }

    method Seal()
      modifies this`capturesSealed
      ensures Value() == old(Value()).(sealed := true)
    {
      capturesSealed := true;
    }

    /** `flush_json`: the addresses in `written` are those whose file could be
        written before the flush gave up. */
    method FlushJson(written: set<Key>)
      modifies this
      ensures Value() == Flush(old(Value()), written)
    {
      hide FlushedFiles;
      ghost var before := Value();
      var records := methodRecords;
      methodRecords := map[];
      WriteRecords(records, records.Keys * written, before);
    }

    method WriteRecords(records: map<Key, seq<Record>>, keys: set<Key>, ghost before: State)
      requires records == before.methodRecords && keys <= records.Keys
      requires ambiguous == before.ambiguous && dexCache == before.dexCache
      modifies this`codeFiles
      ensures codeFiles == old(codeFiles) + FlushedFiles(before, keys)
    {
      hide FlushedFiles;
      ghost var done: set<Key> := {};
      var todo := keys;
      FlushedNone(codeFiles, before);
      while todo != {}
        invariant todo <= keys && done == keys - todo
        invariant codeFiles == old(codeFiles) + FlushedFiles(before, done)
        decreases |todo|
      {
        var key :| key in todo;
        FlushedOne(old(codeFiles), before, done, key);
        if key !in ambiguous && records[key] != [] && key in dexCache {
          codeFiles := codeFiles[CodeName(key, Wrap32(|dexCache[key]|)) := records[key]];
        }
        todo, done := todo - {key}, done + {key};
      }
      assert done == keys;
    }

    static lemma FlushedNone(codes: map<CodeName, seq<Record>>, s: State)
      ensures codes + FlushedFiles(s, {}) == codes
    {
    }

    static lemma FlushedOne(codes: map<CodeName, seq<Record>>, s: State, done: set<Key>, key: Key)
      ensures codes + FlushedFiles(s, done + {key})
              == if Flushable(s, key) then (codes + FlushedFiles(s, done))[CodeNameOf(s, key) := s.methodRecords[key]]
                 else codes + FlushedFiles(s, done)
    {
      assert FlushedFiles(s, done + {key})
          == if Flushable(s, key) then FlushedFiles(s, done)[CodeNameOf(s, key) := s.methodRecords[key]]
             else FlushedFiles(s, done);
    }
  }
}
