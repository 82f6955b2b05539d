/**
 Mining and the block chain of consensus_pow.c.  The block hash and the difficulty that a
 compact target stands for are parameters.
 */
module ProofOfWork {
  import opened Modular
  import opened MachineArithmetic

  const HASH_LEN := 32
  const GENESIS_BITS: nat := 0x1d00ffff

  type Hash = h: seq<int> | |h| == HASH_LEN && forall i :: 0 <= i < |h| ==> 0 <= h[i] < 256
    witness seq(HASH_LEN, _ => 0)

  datatype Header = Header(version: int, prevBlockHash: Hash, merkleRoot: Hash,
                           timestamp: nat, bits: nat, nonce: nat)

  class Block {
    var header: Header
    var blockHash: Hash
    var height: nat
    var chainWork: nat
    var prev: Block?
    var next: Block?

    constructor (header: Header)
      ensures this.header == header && prev == null && next == null
    {
      this.header := header;
      blockHash := seq(HASH_LEN, _ => 0);
      height, chainWork, prev, next := 0, 0, null, null;
    }
  }

  // ---- Comparing hashes ----

  /** A hash read as a big-endian number. */
  function BigEndian(s: seq<int>): int {
    if s == [] then 0 else BigEndian(s[..|s| - 1]) * 256 + s[|s| - 1]
  }

  /** The first byte has the highest weight. */
  lemma {:induction false} BigEndianByWeight(x: int, s: seq<int>)
    ensures BigEndian([]) == 0
    ensures BigEndian([x] + s) == x * Pow(0x100, |s|) + BigEndian(s)
  {
    var n := |s| - 1;
    if n >= 0 {
      BigEndianByWeight(x, s[..n]);
      assert ([x] + s)[..n + 1] == [x] + s[..n];
      assert x * Pow(0x100, n) * 0x100 == x * Pow(0x100, n + 1);
    } else {
      assert [x] + s == [x] && [x][..0] == [];
    }
  }

  /** The first differing byte decides. */
  lemma {:induction false} FirstDifferenceDecides(a: Hash, b: Hash, i: nat, n: nat)
    requires i < n <= HASH_LEN && a[..i] == b[..i] && a[i] < b[i]
    ensures BigEndian(a[..n]) < BigEndian(b[..n])
  {
    assert a[..n][..n - 1] == a[..n - 1] && b[..n][..n - 1] == b[..n - 1];
    if n - 1 > i {
      FirstDifferenceDecides(a, b, i, n - 1);
    }
  }

  /** `hash_less_than` is the order of the numbers. */
  method HashLessThan(a: Hash, b: Hash) returns (less: bool)
    ensures less <==> BigEndian(a) < BigEndian(b)
  {
    assert a[..HASH_LEN] == a && b[..HASH_LEN] == b;
    for i := 0 to HASH_LEN
      invariant a[..i] == b[..i]
    {
      if a[i] < b[i] {
        FirstDifferenceDecides(a, b, i, HASH_LEN);
        return true;
      }
      if a[i] > b[i] {
        FirstDifferenceDecides(b, a, i, HASH_LEN);
        return false;
      }
    }
    return false;
  }

  // ---- Mining ----

  type Hasher = Header -> Hash

  /** The header with this nonce, cut to 32 bits, hashes below the target. */
  predicate Beats(hashOf: Hasher, h: Header, target: Hash, nonce: nat) {
    BigEndian(hashOf(h.(nonce := nonce % UINT32))) < BigEndian(target)
  }

  /** The first nonce in [lo, hi) that beats the target. */
  function FirstHit(hashOf: Hasher, h: Header, target: Hash, lo: nat, hi: nat): Option<nat>
    decreases hi - lo
  {
    if lo >= hi then None
    else if Beats(hashOf, h, target, lo) then Some(lo)
    else FirstHit(hashOf, h, target, lo + 1, hi)
  }

  lemma {:induction false} FirstHitIsLeast(hashOf: Hasher, h: Header, target: Hash, lo: nat, hi: nat)
    ensures var r := FirstHit(hashOf, h, target, lo, hi);
            && (r.None? <==> forall n :: lo <= n < hi ==> !Beats(hashOf, h, target, n))
            && (r.Some? ==>
                  && lo <= r.value < hi && Beats(hashOf, h, target, r.value)
                  && forall n :: lo <= n < r.value ==> !Beats(hashOf, h, target, n))
    decreases hi - lo
  {
    hide Beats;
    if lo < hi && !Beats(hashOf, h, target, lo) {
      FirstHitIsLeast(hashOf, h, target, lo + 1, hi);
    }
  }

  /** In terms of the hashes, for nonces that the 32-bit field holds. */
  lemma NothingEarlier(hashOf: Hasher, h: Header, target: Hash, hi: nat)
    requires hi <= 0x1_0000_0000
    ensures var hit := FirstHit(hashOf, h, target, 0, hi);
            forall n: nat :: n < (if hit.Some? then hit.value else hi) ==>
                               BigEndian(hashOf(h.(nonce := n))) >= BigEndian(target)
  {
    hide BigEndian, FirstHit;
    FirstHitIsLeast(hashOf, h, target, 0, hi);
    var hit := FirstHit(hashOf, h, target, 0, hi);
    forall n: nat | n < if hit.Some? then hit.value else hi
      ensures BigEndian(hashOf(h.(nonce := n))) >= BigEndian(target)
    {
      assert !Beats(hashOf, h, target, n);
    }
  }

  lemma FirstHitStep(hashOf: Hasher, h: Header, target: Hash, lo: nat, hi: nat)
    requires lo < hi && lo < UINT32
    ensures FirstHit(hashOf, h, target, lo, hi)
         == if BigEndian(hashOf(h.(nonce := lo))) < BigEndian(target) then Some(lo)
            else FirstHit(hashOf, h, target, lo + 1, hi)
  {
    hide BigEndian;
  }

  lemma FirstHitNone(hashOf: Hasher, h: Header, target: Hash, hi: nat)
    ensures FirstHit(hashOf, h, target, hi, hi) == None
  {
  }

  /** `pow_validate_block`: all three tests, and nothing else. */
  method ValidateBlock(hashOf: Hasher, block: Block, target: Hash, expectedMerkle: Hash) returns (valid: bool)
    ensures valid <==>
              && block.header.merkleRoot == expectedMerkle
              && block.blockHash == hashOf(block.header)
              && BigEndian(block.blockHash) < BigEndian(target)
  {
    if block.header.merkleRoot != expectedMerkle {
      return false;
    }
    var hash := hashOf(block.header);
    if hash != block.blockHash {
      return false;
    }
    valid := HashLessThan(hash, target);
  }

  function Min(a: nat, b: nat): nat {
    if a < b then a else b
  }

  /**
   `pow_mine`: the nonce field is a uint32_t, the bound a uint64_t.  Success is exactly the
   existence of a hit below both, the least hit is left in the header, and the block validates.
   */
  method Mine(hashOf: Hasher, block: Block, target: Hash, maxNonce: nat) returns (status: int)
    modifies block`header, block`blockHash
    ensures var hit := FirstHit(hashOf, old(block.header), target, 0, Min(maxNonce, UINT32));
            && (status == if hit.Some? then 0 else -1)
            && (hit.Some? ==> && block.header == old(block.header).(nonce := hit.value)
                              && block.blockHash == hashOf(block.header))
            && (hit.None? ==> && block.header == old(block.header).(nonce := if maxNonce < UINT32 then maxNonce else 0)
                              && block.blockHash == old(block.blockHash))
    ensures status == 0 ==> BigEndian(block.blockHash) < BigEndian(target)
    ensures forall n: nat ::
              n < (if status == 0 then block.header.nonce else Min(maxNonce, 0x1_0000_0000)) ==>
                BigEndian(hashOf(old(block.header).(nonce := n))) >= BigEndian(target)
  {
    hide Beats, FirstHit;
    NothingEarlier(hashOf, block.header, target, Min(maxNonce, UINT32));
    ghost var h, limit := block.header, Min(maxNonce, UINT32);
    block.header := block.header.(nonce := 0);
    while block.header.nonce < maxNonce
      invariant block.header.nonce < UINT32 && block.header == h.(nonce := block.header.nonce)
      invariant block.header.nonce <= limit && block.blockHash == old(block.blockHash)
      invariant FirstHit(hashOf, h, target, 0, limit) == FirstHit(hashOf, h, target, block.header.nonce, limit)
      decreases limit - block.header.nonce
    {
      FirstHitStep(hashOf, h, target, block.header.nonce, limit);
      var hash := hashOf(block.header);
      var less := HashLessThan(hash, target);
      if less {
        block.blockHash := hash;
        return 0;
      }
      block.header := block.header.(nonce := (block.header.nonce + 1) % UINT32);
      if block.header.nonce == 0 {
        break;
      }
    }
    FirstHitNone(hashOf, h, target, limit);
    return -1;
  }

  /**
   A mined block is valid for its own Merkle root and for no other one, and after a change of the
   header it is valid exactly if the header still hashes to the stored hash.
   */
  method MineAndValidate(hashOf: Hasher, block: Block, target: Hash, maxNonce: nat, root: Hash, changed: Header)
      returns (status: int, own: bool, other: bool, after: bool)
    modifies block`header, block`blockHash
    ensures status == 0 ==> own && (other <==> root == old(block.header).merkleRoot)
    ensures status == 0 ==> block.header == changed && (after <==> hashOf(changed) == block.blockHash)
  {
    hide FirstHit, BigEndian;
    own, other, after := false, false, false;
    status := Mine(hashOf, block, target, maxNonce);
    if status == 0 {
      own := ValidateBlock(hashOf, block, target, block.header.merkleRoot);
      other := ValidateBlock(hashOf, block, target, root);
      block.header := changed;
      after := ValidateBlock(hashOf, block, target, changed.merkleRoot);
    }
  }

  /** The end of an incremental range; an overflowing sum is clamped. */
  function RangeEnd(start: nat, count: nat): nat
    requires Uint64(start) && Uint64(count)
  {
    if (start + count) % UINT64 < start then UINT64 - 1 else start + count
  }

  /** The clamp acts exactly on sums of 2^64 or more. */
  lemma RangeEndIs(start: nat, count: nat)
    requires Uint64(start) && Uint64(count)
    ensures start + count < 0x1_0000_0000_0000_0000 ==> RangeEnd(start, count) == start + count
    ensures start + count >= 0x1_0000_0000_0000_0000 ==> RangeEnd(start, count) == 0xFFFF_FFFF_FFFF_FFFF
  {
  }

  /** `pow_mine_incremental` searches [start, RangeEnd(start, count)). */
  method MineIncremental(hashOf: Hasher, block: Block, target: Hash, start: nat, count: nat)
      returns (status: int, foundNonce: nat)
    requires Uint64(start) && Uint64(count)
    modifies block`header, block`blockHash
    ensures var end := RangeEnd(start, count);
            var hit := FirstHit(hashOf, old(block.header), target, start, end);
            && (status == if hit.Some? then 0 else -1)
            && (hit.Some? ==> && foundNonce == hit.value
                              && block.header == old(block.header).(nonce := foundNonce % UINT32)
                              && block.blockHash == hashOf(block.header))
            && (hit.None? ==> && foundNonce == 0 && block.blockHash == old(block.blockHash)
                              && block.header == if start >= end then old(block.header)
                                                 else old(block.header).(nonce := (end - 1) % UINT32))
  {
    ghost var h := block.header;
    var end := RangeEnd(start, count);
    var nonce := start;
    while nonce < end
      invariant start <= nonce && (start <= end ==> nonce <= end)
      invariant block.blockHash == old(block.blockHash)
      invariant block.header == if nonce == start then h else h.(nonce := (nonce - 1) % UINT32)
      invariant FirstHit(hashOf, h, target, start, end) == FirstHit(hashOf, h, target, nonce, end)
    {
      block.header := block.header.(nonce := nonce % UINT32);
      var hash := hashOf(block.header);
      var less := HashLessThan(hash, target);
      if less {
        block.blockHash := hash;
        return 0, nonce;
      }
      nonce := nonce + 1;
    }
    return -1, 0;
  }

  lemma {:induction false} FirstHitSplit(hashOf: Hasher, h: Header, target: Hash, lo: nat, mid: nat, hi: nat)
    requires lo <= mid <= hi
    ensures FirstHit(hashOf, h, target, lo, hi)
         == var first := FirstHit(hashOf, h, target, lo, mid);
            if first.Some? then first else FirstHit(hashOf, h, target, mid, hi)
    decreases mid - lo
  {
    hide Beats;
    if lo < mid && !Beats(hashOf, h, target, lo) {
      FirstHitSplit(hashOf, h, target, lo + 1, mid, hi);
    }
  }

  function Sum(counts: seq<nat>): nat {
    if counts == [] then 0 else counts[0] + Sum(counts[1..])
  }

  /** Incremental calls on consecutive chunks, until one succeeds. */
  function ChunkedSearch(hashOf: Hasher, h: Header, target: Hash, start: nat, counts: seq<nat>): Option<nat>
    decreases |counts|
  {
    if counts == [] then None
    else
      var first := FirstHit(hashOf, h, target, start, start + counts[0]);
      if first.Some? then first else ChunkedSearch(hashOf, h, target, start + counts[0], counts[1..])
  }

  lemma {:induction false} ChunksCoverRange(hashOf: Hasher, h: Header, target: Hash, start: nat, counts: seq<nat>)
    ensures ChunkedSearch(hashOf, h, target, start, counts)
         == FirstHit(hashOf, h, target, start, start + Sum(counts))
    decreases |counts|
  {
    hide Beats;
    if counts != [] {
      ChunksCoverRange(hashOf, h, target, start + counts[0], counts[1..]);
      FirstHitSplit(hashOf, h, target, start, start + counts[0], start + Sum(counts));
    }
  }

  /** A search overwrites the nonce, so the one that an earlier search left behind is immaterial. */
  lemma {:induction false} StoredNonceIrrelevant(hashOf: Hasher, h: Header, n: nat, target: Hash, lo: nat, hi: nat)
    ensures FirstHit(hashOf, h.(nonce := n), target, lo, hi) == FirstHit(hashOf, h, target, lo, hi)
    decreases hi - lo
  {
    if lo < hi {
      assert h.(nonce := n).(nonce := lo % UINT32) == h.(nonce := lo % UINT32);
      StoredNonceIrrelevant(hashOf, h, n, target, lo + 1, hi);
    }
  }

  /** Nonces from 2^32 on repeat earlier headers, so a longer search finds nothing new. */
  lemma SearchSaturates(hashOf: Hasher, h: Header, target: Hash, total: nat)
    ensures FirstHit(hashOf, h, target, 0, total) == FirstHit(hashOf, h, target, 0, Min(total, UINT32))
  {
    if total > UINT32 {
      FirstHitSplit(hashOf, h, target, 0, UINT32, total);
      FirstHitIsLeast(hashOf, h, target, 0, UINT32);
      FirstHitIsLeast(hashOf, h, target, UINT32, total);
      var late := FirstHit(hashOf, h, target, UINT32, total);
      if late.Some? {
        SameResidue(hashOf, h, target, late.value);
      }
    }
  }

  lemma SameResidue(hashOf: Hasher, h: Header, target: Hash, n: nat)
    ensures Beats(hashOf, h, target, n) <==> Beats(hashOf, h, target, n % UINT32)
  {
  }

  /** Searching in chunks from nonce 0 finds what `pow_mine` finds with the chunks' total as bound. */
  lemma ChunksEqualMine(hashOf: Hasher, h: Header, target: Hash, counts: seq<nat>)
    ensures ChunkedSearch(hashOf, h, target, 0, counts)
         == FirstHit(hashOf, h, target, 0, Min(Sum(counts), UINT32))
  {
    ChunksCoverRange(hashOf, h, target, 0, counts);
    SearchSaturates(hashOf, h, target, Sum(counts));
  }

  lemma SumSplit(counts: seq<nat>, i: nat)
    requires i < |counts|
    ensures Sum(counts[..i + 1]) == Sum(counts[..i]) + counts[i] <= Sum(counts)
  {
    hide Sum;
    var before, rest := counts[..i], counts[i + 1..];
    assert counts[..i + 1] == before + [counts[i]];
    SumConcat(before, [counts[i]]);
    SumOfOne(counts[i]);
    TakeAndDrop(counts, i + 1);
    SumConcat(counts[..i + 1], rest);
  }

  lemma TakeAndDrop(s: seq<nat>, k: nat)
    requires k <= |s|
    ensures s[..k] + s[k..] == s
  {
  }

  lemma SumOfOne(n: nat)
    ensures Sum([]) == 0 && Sum([n]) == n
  {
    assert [n][1..] == [];
  }

  lemma {:induction false} SumConcat(a: seq<nat>, b: seq<nat>)
    ensures Sum(a + b) == Sum(a) + Sum(b)
  {
    if a == [] {
      assert a + b == b;
    } else {
      assert (a + b)[1..] == a[1..] + b;
      SumConcat(a[1..], b);
    }
  }

  /**
   Consecutive incremental calls from nonce 0, until one succeeds.  Status, and on success header
   and block hash, are those of `Mine` with the chunks' total as bound; after a failure only the
   nonce left in the header differs: the last one tried instead of the first one not tried.
   */
  method MineInChunks(hashOf: Hasher, block: Block, target: Hash, counts: seq<nat>) returns (status: int)
    requires Sum(counts) < UINT64
    modifies block`header, block`blockHash
    ensures var hit := FirstHit(hashOf, old(block.header), target, 0, Min(Sum(counts), UINT32));
            && (status == if hit.Some? then 0 else -1)
            && (hit.Some? ==> && block.header == old(block.header).(nonce := hit.value)
                              && block.blockHash == hashOf(block.header))
            && (hit.None? ==> && block.blockHash == old(block.blockHash)
                              && block.header == if Sum(counts) == 0 then old(block.header)
                                                 else old(block.header).(nonce := (Sum(counts) - 1) % UINT32))
  {
    hide Beats, FirstHit, ChunkedSearch, Sum;
    ghost var h := block.header;
    ChunksEqualMine(hashOf, h, target, counts);
    SumOfOne(0);
    var start := 0;
    assert counts[..0] == [] && counts[0..] == counts;
    for i := 0 to |counts|
      invariant start == Sum(counts[..i]) <= Sum(counts)
      invariant block.header == if start == 0 then h else h.(nonce := (start - 1) % UINT32)
      invariant block.blockHash == old(block.blockHash)
      invariant ChunkedSearch(hashOf, h, target, 0, counts) == ChunkedSearch(hashOf, h, target, start, counts[i..])
    {
      SumSplit(counts, i);
      StoredNonceIrrelevant(hashOf, h, block.header.nonce, target, start, start + counts[i]);
      ChunkedStep(hashOf, h, target, start, counts[i..]);
      var s, found := MineIncremental(hashOf, block, target, start, counts[i]);
      if s == 0 {
        HitBelow(hashOf, h, target, Min(Sum(counts), UINT32));
        return 0;
      }
      start := start + counts[i];
    }
    assert counts[..|counts|] == counts && counts[|counts|..] == [];
    ChunkedEnd(hashOf, h, target, start);
    return -1;
  }

  lemma ChunkedStep(hashOf: Hasher, h: Header, target: Hash, start: nat, counts: seq<nat>)
    requires counts != []
    ensures var first := FirstHit(hashOf, h, target, start, start + counts[0]);
            ChunkedSearch(hashOf, h, target, start, counts)
            == if first.Some? then first else ChunkedSearch(hashOf, h, target, start + counts[0], counts[1..])
  {
  }

  lemma ChunkedEnd(hashOf: Hasher, h: Header, target: Hash, start: nat)
    ensures ChunkedSearch(hashOf, h, target, start, []) == None
  {
  }

  lemma HitBelow(hashOf: Hasher, h: Header, target: Hash, hi: nat)
    ensures var r := FirstHit(hashOf, h, target, 0, hi); r.Some? ==> r.value < hi
  {
    FirstHitIsLeast(hashOf, h, target, 0, hi);
  }

  // ---- The chain ----

  /** Accumulated work: the first block counts at the genesis bits, whatever its header says. */
  function WorkOf(difficulty: nat -> nat, bits: seq<nat>): nat {
    if bits == [] then 0
    else if |bits| == 1 then difficulty(GENESIS_BITS)
    else WorkOf(difficulty, bits[..|bits| - 1]) + difficulty(bits[|bits| - 1])
  }

  /** The same as a plain sum. */
  lemma {:induction false} WorkIsSum(difficulty: nat -> nat, bits: seq<nat>)
    requires bits != []
    ensures WorkOf(difficulty, []) == 0
    ensures WorkOf(difficulty, bits)
         == difficulty(0x1d00ffff) + Sum(seq(|bits| - 1, i requires 0 <= i < |bits| - 1 => difficulty(bits[i + 1])))
    decreases |bits|
  {
    var n := |bits| - 1;
    var later := seq(n, i requires 0 <= i < n => difficulty(bits[i + 1]));
    if n > 0 {
      var earlier := seq(n - 1, i requires 0 <= i < n - 1 => difficulty(bits[i + 1]));
      WorkIsSum(difficulty, bits[..n]);
      assert seq(n - 1, i requires 0 <= i < n - 1 => difficulty(bits[..n][i + 1])) == earlier;
      assert later == earlier + [difficulty(bits[n])];
      SumConcat(earlier, [difficulty(bits[n])]);
      SumOfOne(difficulty(bits[n]));
    } else {
      assert later == [];
    }
  }

  /** work lists the accumulated work, block by block. */
  ghost predicate Accumulates(difficulty: nat -> nat, bits: seq<nat>, work: seq<nat>) {
    && |work| == |bits|
    && (|work| > 0 ==> work[0] == difficulty(GENESIS_BITS))
    && forall k :: 1 <= k < |work| ==> work[k] == work[k - 1] + difficulty(bits[k])
  }

  /** The accumulated work of block k is the sum up to it. */
  lemma {:induction false} AccumulatesSums(difficulty: nat -> nat, bits: seq<nat>, work: seq<nat>, k: nat)
    requires Accumulates(difficulty, bits, work) && k < |work|
    ensures work[k] == WorkOf(difficulty, bits[..k + 1])
  {
    assert bits[..k + 1][..k] == bits[..k];
    if k > 0 {
      AccumulatesSums(difficulty, bits, work, k - 1);
    }
  }

  lemma AccumulatesExtends(difficulty: nat -> nat, bits: seq<nat>, work: seq<nat>, b: nat)
    requires Accumulates(difficulty, bits, work) && work != []
    ensures Accumulates(difficulty, bits + [b], work + [work[|work| - 1] + difficulty(b)])
  {
  }

  /** A value in a uint32_t, respectively uint64_t, field. */
  function Cut32(a: nat): nat {
    a % UINT32
  }

  function Cut64(a: nat): nat {
    a % UINT64
  }

  /** Heights and accumulated work, in the widths of the fields. */
  ghost predicate Counted(blocks: seq<Block>, bits: seq<nat>, work: seq<nat>)
    reads blocks`height, blocks`chainWork, blocks`header
  {
    && |work| == |bits| == |blocks|
    && (forall k {:trigger blocks[k].header} :: 0 <= k < |blocks| ==> blocks[k].header.bits == bits[k])
    && (forall k {:trigger blocks[k].height} :: 0 <= k < |blocks| ==> blocks[k].height == Cut32(k))
    && (forall k {:trigger blocks[k].chainWork} :: 0 <= k < |blocks| ==> blocks[k].chainWork == Cut64(work[k]))
  }

  class Chain {
    const difficulty: nat -> nat
    var head: Block?
    var tail: Block?
    var length: nat
    var totalWork: nat
    /** The blocks from head to tail; their bits; the work accumulated at each, not cut to 64 bits. */
    ghost var blocks: seq<Block>
    ghost var bits: seq<nat>
    ghost var work: seq<nat>

    constructor (difficulty: nat -> nat)
      ensures this.difficulty == difficulty && Valid() && blocks == []
    {
      this.difficulty := difficulty;
      head, tail, length, totalWork := null, null, 0, 0;
      blocks, bits, work := [], [], [];
    }

    /** From head to tail the chain consists of these distinct blocks, doubly linked. */
    ghost predicate Lists(s: seq<Block>)
      reads `head, `tail, `length, s`prev, s`next
    {
      && length == |s|
      && (forall i, j :: 0 <= i < j < |s| ==> s[i] != s[j])
      && head == (if s == [] then null else s[0])
      && tail == (if s == [] then null else s[|s| - 1])
      && (forall k {:trigger s[k].prev} :: 0 <= k < |s| ==> s[k].prev == if k == 0 then null else s[k - 1])
      && (forall k {:trigger s[k].next} :: 0 <= k < |s| ==> s[k].next == if k == |s| - 1 then null else s[k + 1])
    }

    ghost predicate Linked()
      reads `blocks, `head, `tail, `length, blocks`prev, blocks`next
    {
      Lists(blocks)
    }

    ghost predicate Valid()
      reads this, blocks
    {
      && Linked()
      && Counted(blocks, bits, work)
      && Accumulates(difficulty, bits, work)
      && totalWork == if blocks == [] then 0 else Cut64(work[|work| - 1])
    }

    /** Heights, and the recorded work of block k: the sum over the blocks up to it, in 64 bits. */
    lemma ChainWorkIsPrefixSum(k: nat)
      requires Valid() && k < length
      ensures bits[k] == blocks[k].header.bits && |bits| == length
      ensures blocks[k].height == k % 0x1_0000_0000
      ensures blocks[k].chainWork == WorkOf(difficulty, bits[..k + 1]) % 0x1_0000_0000_0000_0000
      ensures totalWork == WorkOf(difficulty, bits) % 0x1_0000_0000_0000_0000
      ensures WorkOf(difficulty, bits[..k + 1]) < 0x1_0000_0000_0000_0000 ==>
                blocks[k].chainWork == WorkOf(difficulty, bits[..k + 1])
    {
      hide WorkOf;
      assert blocks[k].height == Cut32(k);
      assert blocks[k].header.bits == bits[k] && blocks[k].chainWork == Cut64(work[k]);
      AccumulatesSums(difficulty, bits, work, k);
      AccumulatesSums(difficulty, bits, work, length - 1);
      assert bits[..length] == bits;
    }

    /**
     Appends a block.  The result is a chain again exactly if the block was not in it: otherwise
     there is no sequence of distinct, doubly linked blocks of the recorded length.
     */
    method AddBlock(block: Block)
      requires Valid()
      modifies this, block, blocks
      ensures old(block !in blocks) ==>
                && Valid() && blocks == old(blocks) + [block] && length == old(length) + 1
                && tail == block && block.prev == old(tail) && block.next == null
                && (old(tail) != null ==> old(tail).next == block)
                && head == (if old(head) == null then block else old(head))
                && forall b :: b in blocks ==> b.header == old(b.header) && b.blockHash == old(b.blockHash)
      ensures old(block in blocks) ==>
                && tail == block && head == old(head) && length == old(length) + 1
                && block.prev == old(tail) && old(tail).next == block
                && (block != old(tail) ==> block.next == null)
                && forall s: seq<Block> :: !Lists(s)
      ensures old(head) == null ==>
                block.height == 0 && totalWork == block.chainWork == difficulty(0x1d00ffff) % 0x1_0000_0000_0000_0000
      ensures old(head) != null ==>
                && block.height == (old(tail.height) + 1) % 0x1_0000_0000
                && totalWork == block.chainWork
                && block.chainWork == (old(tail.chainWork) + difficulty(block.header.bits)) % 0x1_0000_0000_0000_0000
      ensures forall b: Block :: b in old(blocks) && b != block ==>
                && b.prev == old(b.prev) && (b != old(tail) ==> b.next == old(b.next))
                && b.height == old(b.height) && b.chainWork == old(b.chainWork)
      ensures block.header == old(block.header) && block.blockHash == old(block.blockHash)
    {
      hide Counted, Accumulates;
      ghost var before := blocks;
      block.prev := null;
      block.next := null;
      if head == null {
        Begin(block);
      } else {
        Link(block);
        assert blocks[..|blocks| - 1] == before;
        Count(block);
        if block in before {
          RepeatBreaks(before, block);
        }
      }
    }

    /** A block appended for the second time closes a cycle of `prev` pointers. */
    lemma RepeatBreaks(before: seq<Block>, block: Block)
      requires block in before && tail == block && length == |before| + 1
      requires block.prev == before[|before| - 1]
      requires forall k :: 1 <= k < |before| && before[k] != block ==> before[k].prev == before[k - 1]
      requires forall i, j :: 0 <= i < j < |before| ==> before[i] != before[j]
      ensures forall s: seq<Block> :: !Lists(s)
    {
      var i :| 0 <= i < |before| && before[i] == block;
      forall s: seq<Block> ensures !Lists(s) {
        if Lists(s) {
          WalkBack(before, i, s, i);
          assert false;
        }
      }
    }

    lemma WalkBack(before: seq<Block>, i: nat, s: seq<Block>, k: nat)
      requires i <= k < |before| && tail == before[i] && length == |before| + 1
      requires before[i].prev == before[|before| - 1]
      requires forall k :: i < k < |before| ==> before[k].prev == before[k - 1]
      requires Lists(s)
      ensures s[k] == before[k]
      decreases |before| - k
    {
      if k == |before| - 1 {
        assert s[k + 1].prev == s[k];
      } else {
        WalkBack(before, i, s, k + 1);
        assert s[k + 1].prev == s[k];
      }
    }

    /** The first block. */
    method Begin(block: Block)
      requires blocks == [] && block.prev == null && block.next == null
      modifies this, block`height, block`chainWork
      ensures Valid() && blocks == [block]
      ensures block.height == 0 && totalWork == block.chainWork == Cut64(difficulty(GENESIS_BITS))
    {
      head := block;
      tail := block;
      length := 1;
      totalWork := 0;
      var diff := difficulty(GENESIS_BITS);
      totalWork := Cut64(totalWork + diff);
      block.chainWork := Cut64(diff);
      block.height := 0;
      blocks, bits, work := [block], [block.header.bits], [diff];
    }

    /** The first half of appending to a chain that is not empty: the pointers. */
    method Link(block: Block)
      requires tail != null && block.next == null
      modifies `tail, `length, `blocks, block`prev, tail`next
      ensures tail == block && length == old(length) + 1 && blocks == old(blocks) + [block]
      ensures block.prev == old(tail) && old(tail).next == block
      ensures old(Linked() && blocks != [] && block !in blocks) ==> Linked()
    {
      block.prev := tail;
      block.prev.next := block;
      tail := block;
      length := length + 1;
      blocks := blocks + [block];
    }

    /** The recorded values of all blocks but the new tail are right. */
    ghost predicate CountedBefore(block: Block)
      reads this, blocks, block
    {
      && |blocks| >= 2 && block == blocks[|blocks| - 1] && block !in blocks[..|blocks| - 1]
      && block.prev == blocks[|blocks| - 2]
      && Counted(blocks[..|blocks| - 1], bits, work) && Accumulates(difficulty, bits, work)
    }

    /** The second half: height and work of the new tail. */
    method Count(block: Block)
      requires block.prev != null
      modifies `totalWork, `bits, `work, block`height, block`chainWork
      ensures totalWork == block.chainWork == Cut64(old(block.prev.chainWork) + difficulty(block.header.bits))
      ensures block.height == Cut32(old(block.prev.height) + 1)
      ensures old(CountedBefore(block)) ==>
                && Counted(blocks, bits, work) && Accumulates(difficulty, bits, work)
                && totalWork == Cut64(work[|work| - 1])
    {
      hide Accumulates, WorkOf, Cut32, Cut64;
      var diff := difficulty(block.header.bits);
      block.height := Cut32(block.prev.height + 1);
      block.chainWork := Cut64(block.prev.chainWork + diff);
      totalWork := block.chainWork;
      if old(CountedBefore(block)) {
        ghost var last := |blocks| - 2;
        CutStep(last, work[last], diff);
        ghost var earlier := blocks[..last + 1];
        assert block.prev == earlier[last];
        AccumulatesExtends(difficulty, bits, work, block.header.bits);
        assert Counted(earlier, bits, work);
        bits, work := bits + [block.header.bits], work + [work[last] + diff];
        assert forall k :: 0 <= k <= last ==> blocks[k] == earlier[k];
      }
    }

    /** Walks back from the tail; heights are exact while the chain has at most 2^32 blocks. */
    method GetByHeight(height: nat) returns (block: Block?)
      requires Valid() && height < UINT32
      ensures length <= UINT32 ==> block == if height < length then blocks[height] else null
      ensures block != null ==> block in blocks && block.height == height
    {
      var cur := tail;
      ghost var k := |blocks|;
      while cur != null
        invariant 0 <= k <= |blocks| && cur == (if k == 0 then null else blocks[k - 1])
        invariant length <= UINT32 ==> height < k || height >= length
        decreases k
      {
        assert blocks[k - 1].height == (k - 1) % UINT32;
        if cur.height == height {
          return cur;
        }
        if cur.height < height {
          break;
        }
        cur := cur.prev;
        k := k - 1;
      }
      return null;
    }
  }

  /** At an input: after appending one block twice there is no chain left. */
  method AppendTwice(difficulty: nat -> nat, header: Header) returns (chain: Chain)
    ensures forall s: seq<Block> :: !chain.Lists(s)
  {
    chain := new Chain(difficulty);
    var block := new Block(header);
    chain.AddBlock(block);
    chain.AddBlock(block);
  }

  lemma CutStep(k: nat, a: nat, b: nat)
    ensures Cut32(Cut32(k) + 1) == Cut32(k + 1)
    ensures Cut64(Cut64(a) + b) == Cut64(a + b)
  {
  }
}
