/**
  The number of dynamic symbols, which a GNU hash table does not store: the last
  symbol is the one that ends the chain of the highest bucket.
 */
module GnuHash {
  import opened Bytes

  /** The fields of a table in `data`. */
  datatype Table = Table(nbuckets: u32, symoffset: u32, bucketsOff: nat) {
    function ChainBase(): nat {
      bucketsOff + nbuckets * 4
    }

    /** Where the hash word of symbol `sym` is. */
    function ChainAt(sym: nat): nat
      requires symoffset <= sym
    {
      ChainBase() + (sym - symoffset) * 4
    }
  }

  function TableAt(data: seq<byte>, off: nat, word: nat): Table
    requires off + 16 <= |data|
  {
    Table(Le32(data, off), Le32(data, off + 4), off + 16 + Le32(data, off + 8) * word)
  }

  function Bucket(data: seq<byte>, t: Table, k: nat): u32
    requires k < t.nbuckets && t.ChainBase() <= |data|
  {
    Le32(data, t.bucketsOff + k * 4)
  }

  /** The greatest of the first `k` buckets. */
  function MaxBucket(data: seq<byte>, t: Table, k: nat): (m: nat)
    requires k <= t.nbuckets && t.ChainBase() <= |data|
    ensures forall i :: 0 <= i < k ==> Bucket(data, t, i) <= m
    ensures m == 0 || exists i :: 0 <= i < k && Bucket(data, t, i) == m
  {
    if k == 0 then 0
    else
      var m := MaxBucket(data, t, k - 1);
      if Bucket(data, t, k - 1) > m then Bucket(data, t, k - 1) else m
  }

  /** The first symbol from `sym` on that ends a chain, or whose word lies past
      the data. */
  function ChainEnd(data: seq<byte>, t: Table, sym: nat): nat
    requires t.symoffset <= sym
    decreases |data| - t.ChainAt(sym)
  {
    var o := t.ChainAt(sym);
    if o + 4 > |data| || Le32(data, o) % 2 != 0 then sym else ChainEnd(data, t, sym + 1)
  }

  /** `word` is the size of a bloom filter word. */
  function SymCount(data: seq<byte>, off: nat, word: nat): nat {
    if off + 16 > |data| then 0
    else
      var t := TableAt(data, off, word);
      if t.nbuckets == 0 then t.symoffset
      else if t.ChainBase() > |data| then 0
      else if MaxBucket(data, t, t.nbuckets) < t.symoffset then t.symoffset
      else ChainEnd(data, t, MaxBucket(data, t, t.nbuckets)) + 1
  }

  // ----- well-formed tables -----

  ghost predicate SomeBucket(data: seq<byte>, t: Table, value: nat)
    requires t.ChainBase() <= |data|
  {
    exists k :: 0 <= k < t.nbuckets && Bucket(data, t, k) == value
  }

  /** A table of `n` symbols: those from `symoffset` on are grouped by bucket,
      each bucket naming the first of its group, and exactly the last of each
      group ends its chain. */
  ghost predicate Describes(data: seq<byte>, t: Table, n: nat) {
    && t.nbuckets > 0 && 0 < t.symoffset <= n && t.ChainBase() <= |data| && t.ChainAt(n) <= |data|
    && (forall k :: 0 <= k < t.nbuckets ==> Bucket(data, t, k) == 0 || t.symoffset <= Bucket(data, t, k) < n)
    && (t.symoffset < n ==> SomeBucket(data, t, t.symoffset))
    && forall sym :: t.symoffset <= sym < n ==>
         (Le32(data, t.ChainAt(sym)) % 2 != 0 <==> sym + 1 == n || SomeBucket(data, t, sym + 1))
  }

  lemma {:induction false} ChainReachesEnd(data: seq<byte>, t: Table, n: nat, sym: nat)
    requires Describes(data, t, n) && t.symoffset <= sym < n
    requires forall k :: 0 <= k < t.nbuckets ==> Bucket(data, t, k) <= sym
    ensures ChainEnd(data, t, sym) == n - 1
    decreases n - sym
  {
    hide Le32;
    assert !SomeBucket(data, t, sym + 1);
    if sym + 1 < n {
      ChainReachesEnd(data, t, n, sym + 1);
    }
  }

  /** Of a well-formed table the count is exact. */
  lemma CountIsExact(data: seq<byte>, off: nat, word: nat, n: nat)
    requires off + 16 <= |data| && Describes(data, TableAt(data, off, word), n)
    ensures SymCount(data, off, word) == n
  {
    hide Le32, ChainEnd;
    var t := TableAt(data, off, word);
    var m := MaxBucket(data, t, t.nbuckets);
    if m >= t.symoffset {
      ChainReachesEnd(data, t, n, m);
    }
  }

  // ----- the loops -----

  /** `gnu_hash_sym_count`. */
  method GnuHashSymCount(data: seq<byte>, off: nat, word: nat) returns (count: nat)
    ensures count == SymCount(data, off, word)
  {
    if off + 16 > |data| {
      return 0;
    }
    var t := TableAt(data, off, word);
    if t.nbuckets == 0 {
      return t.symoffset;
    }
    if t.ChainBase() > |data| {
      return 0;
    }
    var maxSym := 0;
    for i := 0 to t.nbuckets
      invariant maxSym == MaxBucket(data, t, i)
    {
      var b := Le32(data, t.bucketsOff + i * 4);
      if b > maxSym {
        maxSym := b;
      }
    }
    if maxSym < t.symoffset {
      return t.symoffset;
    }
    var sym := maxSym;
    while t.ChainAt(sym) + 4 <= |data| && Le32(data, t.ChainAt(sym)) % 2 == 0
      invariant t.symoffset <= sym && ChainEnd(data, t, sym) == ChainEnd(data, t, maxSym)
      decreases |data| - t.ChainAt(sym)
    {
      sym := sym + 1;
    }
    return sym + 1;
  }
}
