/** The tree hash of a message as the THEX draft (section 2) defines it. */
module Thex {
  import opened Bytes
  import opened Powers
  import opened Merkle

  const TIGERSIZE: nat := 24
  const BLOCKSIZE: nat := 1024

  type Digest = d: seq<byte> | |d| == TIGERSIZE witness seq(TIGERSIZE, _ => 0)

  /** The Tiger hash stays uninterpreted: every result holds for any such function. */
  type Hasher = seq<byte> -> Digest

  function Leaf(tiger: Hasher, block: seq<byte>): Digest {
    tiger([0] + block)
  }

  function Inner(tiger: Hasher): Combine<Digest> {
    (left: Digest, right: Digest) => tiger([1] + left + right)
  }

  /** Leaf hashes of the consecutive blocks of a message; the last block may be short. */
  function BlockHashes(tiger: Hasher, m: seq<byte>): (hs: seq<Digest>)
    ensures |m| <= BLOCKSIZE * |hs| < |m| + BLOCKSIZE
    decreases |m|
  {
    if |m| == 0 then []
    else if |m| <= BLOCKSIZE then [Leaf(tiger, m)]
    else [Leaf(tiger, m[..BLOCKSIZE])] + BlockHashes(tiger, m[BLOCKSIZE..])
  }

  /** The leaves of the tree; the empty message has one empty leaf. */
  function Leaves(tiger: Hasher, m: seq<byte>): (hs: seq<Digest>)
    ensures hs != []
  {
    if m == [] then [Leaf(tiger, [])] else BlockHashes(tiger, m)
  }

  function ThexRoot(tiger: Hasher, m: seq<byte>): Digest {
    Root(Inner(tiger), Leaves(tiger, m))
  }

  /** Whole blocks in front of a message only prepend their leaf hashes. */
  lemma {:induction false} BlockHashesConcat(tiger: Hasher, a: seq<byte>, b: seq<byte>)
    requires |a| % BLOCKSIZE == 0
    ensures BlockHashes(tiger, a + b) == BlockHashes(tiger, a) + BlockHashes(tiger, b)
    decreases |a|
  {
    if a == [] {
      assert a + b == b;
    } else if |a| == BLOCKSIZE {
      assert (a + b)[..BLOCKSIZE] == a && (a + b)[BLOCKSIZE..] == b;
      if b == [] { assert a + b == a; }
    } else {
      assert |a| > BLOCKSIZE;
      var head, tail := a[..BLOCKSIZE], a[BLOCKSIZE..];
      assert (a + b)[..BLOCKSIZE] == head && (a + b)[BLOCKSIZE..] == tail + b;
      BlockHashesConcat(tiger, tail, b);
    }
  }

  /** Blocks a .. a + w of a message have the leaf hashes a .. a + w. */
  lemma BlockHashesCut(tiger: Hasher, m: seq<byte>, a: nat, w: nat)
    requires BLOCKSIZE * a <= |m|
    ensures a <= |BlockHashes(tiger, m)|
    ensures BlockHashes(tiger, Cut(m, BLOCKSIZE * a, BLOCKSIZE * w)) == Cut(BlockHashes(tiger, m), a, w)
  {
    var skipped := BLOCKSIZE * a;
    var before, after := m[..skipped], m[skipped..];
    assert m == before + after;
    BlockHashesConcat(tiger, before, after);
    BlockHashesPrefix(tiger, after, w);
    CutShift(m, skipped, BLOCKSIZE * w);
    assert BlockHashes(tiger, m)[a..] == BlockHashes(tiger, after);
    CutShift(BlockHashes(tiger, m), a, w);
  }

  lemma BlockHashesPrefix(tiger: Hasher, m: seq<byte>, w: nat)
    ensures BlockHashes(tiger, Cut(m, 0, BLOCKSIZE * w)) == Cut(BlockHashes(tiger, m), 0, w)
  {
    var length := BLOCKSIZE * w;
    if length <= |m| {
      var mine, others := m[..length], m[length..];
      assert m == mine + others;
      BlockHashesConcat(tiger, mine, others);
    } else {
      assert |BlockHashes(tiger, m)| <= w && Cut(m, 0, length) == m;
    }
  }

  /** The digest of a slice of whole blocks is the root of their leaf hashes. */
  lemma SliceDigest(tiger: Hasher, file: seq<byte>, first: nat, w: nat)
    requires BLOCKSIZE * first < |file| && w > 0
    ensures first < |BlockHashes(tiger, file)|
    ensures Cut(BlockHashes(tiger, file), first, w) != []
    ensures Root(Inner(tiger), Cut(BlockHashes(tiger, file), first, w))
         == ThexRoot(tiger, Cut(file, BLOCKSIZE * first, BLOCKSIZE * w))
  {
    BlockHashesCut(tiger, file, first, w);
  }

  /** Rows of the tree over a file, seen as digests: k rows above the blocks, node i is the
      digest of the i-th slice of 1024 * 2^k bytes. */
  lemma LevelIsDigest(tiger: Hasher, file: seq<byte>, k: nat, i: nat, size: nat)
    requires size == BLOCKSIZE * Pow2(k) && i * size < |file|
    ensures i < |Levels(Inner(tiger), BlockHashes(tiger, file), k)|
    ensures Levels(Inner(tiger), BlockHashes(tiger, file), k)[i] == ThexRoot(tiger, Cut(file, i * size, size))
  {
    var first := i * Pow2(k);
    assert i * size == BLOCKSIZE * first;
    SliceDigest(tiger, file, first, Pow2(k));
    LevelsAreRunRoots(Inner(tiger), BlockHashes(tiger, file), k, i);
  }

  // ----- the recursion of the draft -----

  /** The definition of section 2 of the draft, without a level-by-level tree: a message of one
      block is a leaf, any other is cut in front of its last blocks, behind the largest power of two of
      blocks that leaves some over. */
  ghost predicate IsTreeHash(tiger: Hasher, hash: seq<byte> -> Digest) {
    && (forall m: seq<byte> :: |m| <= 1024 ==> hash(m) == tiger([0] + m))
    && (forall m: seq<byte>, k: nat :: 1024 * Pow2(k) < |m| <= 2048 * Pow2(k) ==>
      hash(m) == tiger([1] + hash(m[..1024 * Pow2(k)]) + hash(m[1024 * Pow2(k)..])))
  }

  /** A message of at most one block is hashed behind a zero byte. */
  lemma OneBlockRoot(tiger: Hasher, m: seq<byte>)
    requires |m| <= 1024
    ensures ThexRoot(tiger, m) == tiger([0] + m)
  {
  }

  /** A longer one has the digests of its two parts, left before right, hashed behind a one. */
  lemma HalvedRoot(tiger: Hasher, m: seq<byte>, k: nat)
    requires 1024 * Pow2(k) < |m| <= 2048 * Pow2(k)
    ensures ThexRoot(tiger, m) ==
      tiger([1] + ThexRoot(tiger, m[..1024 * Pow2(k)]) + ThexRoot(tiger, m[1024 * Pow2(k)..]))
  {
    hide Root, PairUp, Levels, BlockHashes, Leaf;
    var hs, size := BlockHashes(tiger, m), 1024 * Pow2(k);
    var pair := Levels(Inner(tiger), hs, k);
    LevelsKeepRoot(Inner(tiger), hs, k);
    LevelsLength(Inner(tiger), hs, k);
    TwoNodes(|pair|, Pow2(k), |hs|, |m|);
    LevelIsDigest(tiger, m, k, 0, size);
    LevelIsDigest(tiger, m, k, 1, size);
    assert Cut(m, 0, size) == m[..size] && Cut(m, size, size) == m[size..];
    RootOfTwo(Inner(tiger), pair);
  }

  lemma TwoNodes(nodes: nat, p: nat, blocks: nat, length: nat)
    requires p > 0 && 1024 * p < length <= 2048 * p && length <= 1024 * blocks < length + 1024
    requires blocks <= nodes * p < blocks + p
    ensures nodes == 2
  {
    if nodes <= 1 { MulMonotone(nodes, 1, p); }
    if nodes >= 3 { MulMonotone(3, nodes, p); }
  }

  /** The largest power of two of blocks that leaves some of the message over. */
  lemma {:induction false} CutPoint(n: nat, k: nat) returns (j: nat)
    requires n > 1024 * Pow2(k)
    ensures 1024 * Pow2(j) < n <= 2048 * Pow2(j)
    decreases n - 1024 * Pow2(k)
  {
    if n <= 2048 * Pow2(k) { j := k; } else { j := CutPoint(n, k + 1); }
  }

  /** The root satisfies the definition of the draft, ... */
  lemma RootIsTreeHash(tiger: Hasher)
    ensures IsTreeHash(tiger, m => ThexRoot(tiger, m))
  {
    forall m: seq<byte> | |m| <= 1024 ensures ThexRoot(tiger, m) == tiger([0] + m) { OneBlockRoot(tiger, m); }
    forall m: seq<byte>, k: nat | 1024 * Pow2(k) < |m| <= 2048 * Pow2(k)
      ensures ThexRoot(tiger, m) == tiger([1] + ThexRoot(tiger, m[..1024 * Pow2(k)]) + ThexRoot(tiger, m[1024 * Pow2(k)..]))
    {
      HalvedRoot(tiger, m, k);
    }
  }

  /** ... and nothing else does. */
  lemma {:induction false} OnlyTreeHash(tiger: Hasher, hash: seq<byte> -> Digest, m: seq<byte>)
    requires IsTreeHash(tiger, hash)
    ensures hash(m) == ThexRoot(tiger, m)
    decreases |m|
  {
    if |m| <= 1024 {
      OneBlockRoot(tiger, m);
    } else {
      var k := CutPoint(|m|, 0);
      HalvedRoot(tiger, m, k);
      OnlyTreeHash(tiger, hash, m[..1024 * Pow2(k)]);
      OnlyTreeHash(tiger, hash, m[1024 * Pow2(k)..]);
    }
  }
}
