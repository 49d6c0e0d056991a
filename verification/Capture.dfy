/**
  What the dumper knows and does: one value per moment, one function per
  handler.
 */
module Capture {
  import opened Bytes
  import opened Dex
  import opened Intervals
  import opened Reassembly

  const MAX_DEX_FILE_SIZE: u32 := 0x4000_0000

  /** A DEX is known by process and address. */
  datatype Key = Key(pid: u32, begin: u64)

  datatype Record = Record(name: string, methodIdx: u32, code: seq<byte>)

  /** Names of the .dex files written: the plain form, and the one that carries
      the content hash. */
  datatype DexName = Plain(key: Key, size: u32) | Hashed(key: Key, hash: seq<byte>, size: u32)

  /** The stem of a code JSON: that of a plain name. */
  datatype CodeName = CodeName(key: Key, size: u32)

  /** SHA-1 of a file and the printed name of a method, both taken as given. */
  datatype Env = Env(hash: seq<byte> -> seq<byte>, describe: (Option<seq<byte>>, u32) -> string)

  datatype State = State(
    dexCache: map<Key, seq<byte>>,
    ambiguous: set<Key>,
    dexSizes: map<Key, u32>,
    pending: map<Key, Pending>,
    methodRecords: map<Key, seq<Record>>,
    sigCache: map<(Key, u32), string>,
    sealed: bool,
    files: map<DexName, seq<byte>>,
    codeFiles: map<CodeName, seq<Record>>)

  function Initial(): State {
    State(map[], {}, map[], map[], map[], map[], false, map[], map[])
  }

  predicate ReasonableSize(size: u32) {
    DEX_HEADER_SIZE <= size <= MAX_DEX_FILE_SIZE
  }

  // ----- the handlers -----

  function WithoutSignatures(sigCache: map<(Key, u32), string>, key: Key): map<(Key, u32), string> {
    map k | k in sigCache && k.0 != key :: sigCache[k]
  }

  /** `quarantine_dex`: nothing is associated with this address any more. */
  function Quarantine(s: State, key: Key): State {
    s.(ambiguous := s.ambiguous + {key},
       pending := s.pending - {key},
       methodRecords := s.methodRecords - {key},
       sigCache := WithoutSignatures(s.sigCache, key))
  }

  /** `observe_dex`: an absurd size, or one that differs from the last,
      quarantines. */
  function Observe(s: State, key: Key, size: u32): State {
    if !ReasonableSize(size) then Quarantine(s, key)
    else
      var next := s.(dexSizes := s.dexSizes[key := size]);
      if key in s.dexSizes && s.dexSizes[key] != size then Quarantine(next, key) else next
  }

  function NameOf(s: State, key: Key, size: u32, bytes: seq<byte>, env: Env): DexName {
    if key in s.ambiguous then Hashed(key, env.hash(bytes), size) else Plain(key, size)
  }

  /** Writing the file, and what follows when that succeeds. */
  function WriteDex(s: State, key: Key, size: u32, bytes: seq<byte>, env: Env, writeOk: bool): State {
    if !writeOk then s
    else
      s.(files := s.files[NameOf(s, key, size, bytes, env) := bytes],
         pending := s.pending - {key},
         sigCache := WithoutSignatures(s.sigCache, key),
         dexCache := s.dexCache[key := bytes])
  }

  /** `save_dex`. `skip` says the mapping belongs to the system, `writeOk` that
      the file could be written. */
  function SaveDex(s: State, pid: Option<u32>, begin: u64, size: u32, bytes: seq<byte>, env: Env, skip: bool, writeOk: bool): State {
    if s.sealed || (pid.Some? && skip) || OpenDex(bytes).Err? || pid.None? then s
    else
      var key := Key(pid.value, begin);
      var seen := Observe(s, key, size);
      if key in seen.dexCache && seen.dexCache[key] == bytes then seen
      else
        var checked := if key in seen.dexCache then Quarantine(seen, key) else seen;
        WriteDex(checked, key, size, bytes, env, writeOk)
  }

  /** A chunk record: header fields, and the bytes after the header. */
  datatype ChunkEvent = ChunkEvent(key: Key, size: u32, offset: u32, dataLen: u32, body: seq<byte>)

  predicate ChunkInBounds(e: ChunkEvent) {
    ReasonableSize(e.size) && e.dataLen != 0 && e.offset + e.dataLen <= e.size
  }

  function PieceOf(e: ChunkEvent): Chunk
    requires e.dataLen <= |e.body|
  {
    Chunk(e.offset, e.body[..e.dataLen])
  }

  /** A late chunk of a file already saved must repeat its bytes. */
  predicate Repeats(bytes: seq<byte>, c: Chunk) {
    c.End() <= |bytes| && bytes[c.offset..c.End()] == c.payload
  }

  function PendingFor(s: State, key: Key, size: u32): Pending {
    if key in s.pending then s.pending[key] else NewPending(size)
  }

  /** `handle_dex_chunk`. */
  function HandleChunk(s: State, e: ChunkEvent, env: Env, skip: bool, writeOk: bool): State {
    if !ChunkInBounds(e) then s
    else
      var seen := Observe(s, e.key, e.size);
      if e.key in seen.ambiguous || e.dataLen > |e.body| then seen
      else AcceptChunk(seen, e, PieceOf(e), env, skip, writeOk)
  }

  function AcceptChunk(s: State, e: ChunkEvent, c: Chunk, env: Env, skip: bool, writeOk: bool): State {
    if e.key in s.dexCache then
      if Repeats(s.dexCache[e.key], c) then s else Quarantine(s, e.key)
    else
      var p := PendingFor(s, e.key, e.size);
      if Conflicts(p, c) then Quarantine(s, e.key)
      else
        var q := Place(p, c);
        if Whole(q) then
          SaveDex(s.(pending := s.pending - {e.key}), Some(e.key.pid), e.key.begin, e.size, q.buf, env, skip, writeOk)
        else s.(pending := s.pending[e.key := q])
  }

  /** `method_name`: cached, or described from the saved file. */
  function MethodName(s: State, key: Key, idx: u32, env: Env): string {
    if (key, idx) in s.sigCache then s.sigCache[(key, idx)]
    else env.describe(if key in s.dexCache then Some(s.dexCache[key]) else None, idx)
  }

  /** Name a method and, when its bytecode came along, keep a record of it. */
  function RecordMethod(s: State, key: Key, idx: u32, code: seq<byte>, env: Env): State {
    var name := MethodName(s, key, idx, env);
    var before := if key in s.methodRecords then s.methodRecords[key] else [];
    s.(sigCache := s.sigCache[(key, idx) := name],
       methodRecords := if code == [] then s.methodRecords else s.methodRecords[key := before + [Record(name, idx, code)]])
  }

  /** `handle_method_event`. */
  function HandleMethod(s: State, key: Key, size: u32, idx: u32, code: seq<byte>, env: Env): State {
    var seen := Observe(s, key, size);
    if key in seen.ambiguous then seen else RecordMethod(seen, key, idx, code, env)
  }

  /** Stale pending entries are dropped. */
  function Sweep(s: State, stale: set<Key>): State {
    s.(pending := s.pending - stale)
  }

  /** The code JSON of one DEX, when its address is not ambiguous and its file
      was saved. */
  predicate Flushable(s: State, key: Key) {
    key in s.methodRecords && key !in s.ambiguous && s.methodRecords[key] != [] && key in s.dexCache
  }

  function CodeNameOf(s: State, key: Key): CodeName
    requires key in s.dexCache
  {
    CodeName(key, Wrap32(|s.dexCache[key]|))
  }

  function FlushedFiles(s: State, keys: set<Key>): map<CodeName, seq<Record>> {
    map key | key in keys && Flushable(s, key) :: CodeNameOf(s, key) := s.methodRecords[key]
  }

  /** `flush_json`: one file per flushable DEX; `written` says for which the
      write went through before the flush gave up. */
  function Flush(s: State, written: set<Key>): State {
    s.(methodRecords := map[], codeFiles := s.codeFiles + FlushedFiles(s, s.methodRecords.Keys * written))
  }

  // ----- runs -----

  datatype Event =
    | SawDex(key: Key, size: u32)
    | SawChunk(chunk: ChunkEvent, skip: bool, writeOk: bool)
    | SawMethod(key: Key, size: u32, idx: u32, code: seq<byte>)
    | Scanned(pid: Option<u32>, begin: u64, size: u32, bytes: seq<byte>, skip: bool, writeOk: bool)
    | Swept(stale: set<Key>)
    | Sealed
    | Flushed(written: set<Key>)

  function Step(s: State, e: Event, env: Env): State {
    match e
    case SawDex(key, size) => Observe(s, key, size)
    case SawChunk(chunk, skip, writeOk) => HandleChunk(s, chunk, env, skip, writeOk)
    case SawMethod(key, size, idx, code) => HandleMethod(s, key, size, idx, code, env)
    case Scanned(pid, begin, size, bytes, skip, writeOk) => SaveDex(s, pid, begin, size, bytes, env, skip, writeOk)
    case Swept(stale) => Sweep(s, stale)
    case Sealed => s.(sealed := true)
    case Flushed(written) => Flush(s, written)
  }

  function Run(s: State, events: seq<Event>, env: Env): State
    decreases |events|
  {
    if events == [] then s else Run(Step(s, events[0], env), events[1..], env)
  }
}
