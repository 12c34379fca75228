/** The streaming tree hash (hash/ttr.c, hash/ttr.h). */
module Ttr {
  import opened Bytes
  import opened Powers
  import opened Merkle
  import opened Thex

  /** Slots of the interim-value stack. */
  const SLOTS: nat := 56

  /** Fewer blocks than this may be hashed, see StackFits. */
  const BLOCK_LIMIT: nat := 0x80_0000_0000_0000

  /** The highest slot that hashing block number m (counted from 1) writes: the leaf goes on
      top of the roots of the m - 1 blocks before it, and combining two nodes uses the slot
      above them as scratch space. */
  function HighestSlot(m: nat): nat
    requires m >= 1
  {
    PopCount(m - 1) + if m % 2 == 0 then 1 else 0
  }

  lemma {:induction false} PopCountNeeds(n: nat)
    ensures n + 1 >= Pow2(PopCount(n))
    decreases n
  {
    if n > 0 { PopCountNeeds(n / 2); }
  }

  lemma {:induction false} PopCountGrows(n: nat)
    ensures PopCount(n + 1) <= PopCount(n) + 1
    decreases n
  {
    Halves(n);
    if n % 2 == 1 { PopCountGrows(n / 2); }
  }

  lemma {:induction false} PopCountOfOnes(k: nat)
    ensures PopCount(Pow2(k) - 1) == k
    decreases k
  {
    if k > 0 { PopCountOfOnes(k - 1); }
  }

  /** A stack of k + 1 slots is large enough for n blocks exactly when n < 2^k. */
  lemma StackFits(k: nat, n: nat)
    requires k > 0
    ensures (forall m :: 1 <= m <= n ==> HighestSlot(m) < k + 1) <==> n < Pow2(k)
  {
    if n < Pow2(k) {
      forall m | 1 <= m <= n ensures HighestSlot(m) < k + 1 {
        PopCountNeeds(m - 1);
        if PopCount(m - 1) >= k { Pow2Monotone(k, PopCount(m - 1)); }
      }
    } else {
      PopCountOfOnes(k);
      assert HighestSlot(Pow2(k)) == k + 1;
    }
  }

  lemma BlockLimitIsPow2()
    ensures Pow2(55) == BLOCK_LIMIT
  {
    assert Pow2(10) == 0x400;
    assert Pow2(20) == 0x10_0000;
    assert Pow2(30) == 0x4000_0000;
    assert Pow2(40) == 0x100_0000_0000;
    assert Pow2(50) == 0x4_0000_0000_0000;
  }

  /** The 56 slots last for exactly the block counts below BLOCK_LIMIT = 2^55. */
  lemma CapacityIsBlockLimit(n: nat)
    ensures (forall m :: 1 <= m <= n ==> HighestSlot(m) < SLOTS) <==> n < BLOCK_LIMIT
  {
    StackFits(55, n);
    BlockLimitIsPow2();
  }

  /** One more block on top of n whole blocks pushes one more leaf. */
  lemma BlockStep(tiger: Hasher, m: seq<byte>, n: nat, block: seq<byte>)
    requires |m| == n * BLOCKSIZE && 0 < |block| <= BLOCKSIZE
    ensures |BlockHashes(tiger, m)| == n
    ensures BlockHashes(tiger, m + block) == BlockHashes(tiger, m) + [Leaf(tiger, block)]
    ensures Stack(Inner(tiger), BlockHashes(tiger, m + block))
         == Push(Inner(tiger), Stack(Inner(tiger), BlockHashes(tiger, m)), n, Leaf(tiger, block))
  {
    assert BlockHashes(tiger, block) == [Leaf(tiger, block)];
    BlockHashesConcat(tiger, m, block);
    StackPush(Inner(tiger), BlockHashes(tiger, m), Leaf(tiger, block));
  }

  lemma Regroup(a: seq<byte>, b: seq<byte>, n: nat)
    requires n <= |b|
    ensures a + b[..n] + b[n..] == a + b
  {
  }

  /** One halving of a block number b takes one 1 bit off b - 1. */
  lemma Carry(b: nat)
    requires b >= 1
    ensures b % 2 == 1 <==> b != b / 2 * 2
    ensures b % 2 == 1 ==> (b - 1) % 2 == 0
    ensures b % 2 == 0 ==> b >= 2 && (b - 1) % 2 == 1 && (b - 1) / 2 == b / 2 - 1
    ensures b % 2 == 0 ==> PopCount(b - 1) == 1 + PopCount(b / 2 - 1)
  {
  }

  lemma Associate(a: seq<byte>, b: seq<byte>, c: seq<byte>)
    ensures a + b + c == a + (b + c)
  {
  }

  lemma CarryStep(tiger: Hasher, below: seq<Digest>, left: Digest, right: Digest, b: nat)
    requires b >= 2 && b % 2 == 0 && |below| + 1 == PopCount(b - 1)
    ensures |below| == PopCount(b / 2 - 1)
    ensures Push(Inner(tiger), below + [left], b - 1, right) == Push(Inner(tiger), below, b / 2 - 1, Inner(tiger)(left, right))
  {
    assert (b - 1) / 2 == b / 2 - 1 && (b - 1) % 2 == 1;
    assert (below + [left])[..|below|] == below;
  }

  lemma CarryEnd(tiger: Hasher, s: seq<Digest>, h: Digest, b: nat)
    requires b >= 1 && b % 2 == 1 && |s| == PopCount(b - 1)
    ensures Push(Inner(tiger), s, b - 1, h) == s + [h]
  {
    hide PopCount;
    Carry(b);
  }

  lemma SlotBound(count: nat)
    requires count + 1 < BLOCK_LIMIT
    ensures PopCount(count) + 1 < SLOTS
  {
    BlockLimitIsPow2();
    PopCountNeeds(count);
    if PopCount(count) >= 55 { Pow2Monotone(55, PopCount(count)); }
  }

  /** With the last partial block (or the only, empty one) hashed, the stack is that of all leaves. */
  lemma FinalStack(tiger: Hasher, whole: seq<byte>, n: nat, last: seq<byte>)
    requires |whole| == n * BLOCKSIZE && |last| < BLOCKSIZE
    ensures |BlockHashes(tiger, whole)| == n
    ensures Stack(Inner(tiger), Leaves(tiger, whole + last)) ==
      var stack := Stack(Inner(tiger), BlockHashes(tiger, whole));
      if last != [] || n == 0 then Push(Inner(tiger), stack, n, Leaf(tiger, last)) else stack
  {
    if last != [] {
      BlockStep(tiger, whole, n, last);
    } else {
      assert whole + last == whole;
      if n == 0 {
        StackPush(Inner(tiger), [], Leaf(tiger, []));
        assert [] + [Leaf(tiger, [])] == Leaves(tiger, []);
      }
    }
  }

  class TtContext {
    const tiger: Hasher
    var count: nat
    const leaf: array<byte>
    const node: array<byte>
    var index: nat
    var top: nat
    const nodes: array<Digest>

    /** Everything hashed since tt_init, and the whole blocks of it. */
    ghost var message: seq<byte>
    ghost var whole: seq<byte>

    ghost predicate Shape()
      reads this, leaf, node
    {
      && leaf != node
      && leaf.Length == 1 + BLOCKSIZE && leaf[0] == 0
      && node.Length == 1 + 2 * TIGERSIZE && node[0] == 1
      && nodes.Length == SLOTS
      && index <= BLOCKSIZE
      && top <= SLOTS
    }

    /** The stack holds exactly the whole blocks seen so far. */
    ghost predicate Stacked()
      reads this`count, this`top, this`whole, nodes
      requires top <= nodes.Length
    {
      && |whole| == count * BLOCKSIZE
      && nodes[..top] == Stack(Inner(tiger), BlockHashes(tiger, whole))
    }

    ghost predicate Valid()
      reads this, leaf, node, nodes
    {
      && Shape()
      && index < BLOCKSIZE
      && Stacked()
      && message == whole + leaf[1..1 + index]
    }

    constructor (tiger: Hasher)
      ensures Valid() && message == [] && this.tiger == tiger
      ensures fresh(leaf) && fresh(node) && fresh(nodes)
    {
      this.tiger := tiger;
      count := 0;
      leaf := new byte[1 + BLOCKSIZE](_ => 0);
      node := new byte[1 + 2 * TIGERSIZE](_ => 1);
      index := 0;
      nodes := new Digest[SLOTS](_ => seq(TIGERSIZE, _ => 0));
      top := 0;
      message, whole := [], [];
    }

    /** tt_compose: the two top nodes become one; the slot above them is scratch space. */
    method Compose()
      requires Shape() && 2 <= top < SLOTS
      modifies this`top, node, nodes
      ensures Shape() && top == old(top) - 1
      ensures nodes[..top] == old(nodes[..top - 2]) + [Inner(tiger)(old(nodes[top - 2]), old(nodes[top - 1]))]
    {
      forall i | 0 <= i < TIGERSIZE { node[1 + i] := nodes[top - 2][i]; }
      forall i | 0 <= i < TIGERSIZE { node[1 + TIGERSIZE + i] := nodes[top - 1][i]; }
      assert node[..] == [1] + nodes[top - 2] + nodes[top - 1];
      nodes[top] := tiger(node[..]);
      nodes[top - 2] := nodes[top];
      top := top - 1;
    }

    /** The loop of tt_block: combine once for every trailing 0 bit of the block count. */
    method Carries(blocks: nat)
      requires Shape() && 1 <= blocks && 1 <= top < SLOTS && top - 1 == PopCount(blocks - 1)
      modifies this`top, node, nodes
      ensures Shape()
      ensures nodes[..top] == Push(Inner(tiger), old(nodes[..top - 1]), blocks - 1, old(nodes[top - 1]))
    {
      hide Push, PopCount;
      var b := blocks;
      ghost var goal := Push(Inner(tiger), nodes[..top - 1], b - 1, nodes[top - 1]);
      while b == b / 2 * 2
        invariant Shape() && 1 <= b && 1 <= top < SLOTS && top - 1 == PopCount(b - 1)
        invariant Push(Inner(tiger), nodes[..top - 1], b - 1, nodes[top - 1]) == goal
        decreases b
      {
        Carry(b);
        ghost var below, left, right := nodes[..top - 2], nodes[top - 2], nodes[top - 1];
        assert nodes[..top - 1] == below + [left];
        CarryStep(tiger, below, left, right, b);
        Compose();
        assert nodes[..top - 1] == below;
        b := b / 2;
      }
      CarryEnd(tiger, nodes[..top - 1], nodes[top - 1], b);
      assert nodes[..top] == nodes[..top - 1] + [nodes[top - 1]];
    }

    /** tt_block: hash the leaf buffer and carry. */
    method Block()
      requires Shape() && count + 1 < BLOCK_LIMIT && top == PopCount(count)
      modifies this`top, this`count, node, nodes
      ensures Shape() && count == old(count) + 1
      ensures nodes[..top] == Push(Inner(tiger), old(nodes[..top]), old(count), Leaf(tiger, leaf[1..1 + index]))
    {
      SlotBound(count);
      ghost var stack := nodes[..top];
      assert leaf[..index + 1] == [0] + leaf[1..1 + index];
      nodes[top] := tiger(leaf[..index + 1]);
      top := top + 1;
      count := count + 1;
      assert nodes[..top - 1] == stack;
      Carries(count);
    }

    /** memmove of data into the block area of the leaf buffer. */
    method Fill(at: nat, data: seq<byte>)
      requires Shape() && at + |data| <= BLOCKSIZE
      modifies leaf
      ensures Shape()
      ensures leaf[1..1 + at] == old(leaf[1..1 + at])
      ensures leaf[1..1 + at + |data|] == old(leaf[1..1 + at]) + data
    {
      forall i | 0 <= i < |data| { leaf[1 + at + i] := data[i]; }
    }

    /** Complete the block in the leaf buffer with data, and hash it. */
    method CompleteBlock(data: seq<byte>)
      requires Shape() && Stacked() && index + |data| == BLOCKSIZE && count + 1 < BLOCK_LIMIT
      modifies this`index, this`top, this`count, this`whole, leaf, node, nodes
      ensures Shape() && Stacked() && count == old(count) + 1
      ensures whole == old(whole + leaf[1..1 + index]) + data
    {
      hide Push, Stack, BlockHashes;
      ghost var block := leaf[1..1 + index] + data;
      Fill(index, data);
      index := BLOCKSIZE;
      assert leaf[1..1 + index] == block;
      BlockStep(tiger, whole, count, block);
      assert top == |nodes[..top]|;
      Block();
      whole := whole + block;
    }

    /** The loop of tt_update over whole blocks. */
    method WholeBlocks(buffer: seq<byte>) returns (rest: seq<byte>)
      requires Shape() && Stacked() && |whole| + |buffer| < BLOCK_LIMIT * BLOCKSIZE
      modifies this`index, this`top, this`count, this`whole, leaf, node, nodes
      ensures Shape() && Stacked() && |rest| < BLOCKSIZE
      ensures whole + rest == old(whole) + buffer
    {
      rest := buffer;
      while |rest| >= BLOCKSIZE
        invariant Shape() && Stacked() && whole + rest == old(whole) + buffer
      {
        index := 0;
        ghost var before := whole;
        assert before + leaf[1..1] == before;
        CompleteBlock(rest[..BLOCKSIZE]);
        Regroup(before, rest, BLOCKSIZE);
        rest := rest[BLOCKSIZE..];
      }
    }

    /** The end of tt_update: buffer the leftovers. */
    method Keep(rest: seq<byte>)
      requires Shape() && Stacked() && |rest| < BLOCKSIZE && message == whole + rest
      modifies this`index, leaf
      ensures Valid()
    {
      index := |rest|;
      if index != 0 {
        Fill(0, rest);
      }
      assert leaf[1..1 + index] == rest;
    }

    /** Another block fits if the bytes for it do. */
    lemma Room(more: nat)
      requires Shape() && Stacked() && |whole| + index + more < BLOCK_LIMIT * BLOCKSIZE
      ensures index + more >= BLOCKSIZE ==> count + 1 < BLOCK_LIMIT
    {
    }

    /** tt_update: absorb one piece of the message, whatever the earlier pieces were. */
    method Update(buffer: seq<byte>)
      requires Valid() && |message| + |buffer| < BLOCK_LIMIT * BLOCKSIZE
      modifies this, leaf, node, nodes
      ensures Valid() && message == old(message) + buffer
    {
      hide TtContext.Stacked;
      var rest := buffer;
      Room(|rest|);
      message := message + buffer;

      if index != 0 {
        var left := BLOCKSIZE - index;
        if |rest| < left {
          Associate(whole, leaf[1..1 + index], rest);
          Fill(index, rest);
          index := index + |rest|;
          return;
        }
        ghost var before := whole + leaf[1..1 + index];
        CompleteBlock(rest[..left]);
        Regroup(before, rest, left);
        rest := rest[left..];
      }

      rest := WholeBlocks(rest);
      Keep(rest);
    }

    /** The loop of tt_digest. */
    method ComposeAll()
      requires Shape() && 1 <= top < SLOTS
      modifies this`top, node, nodes
      ensures nodes.Length > 0 && nodes[0] == Fold(Inner(tiger), old(nodes[..top]))
    {
      ghost var root := Fold(Inner(tiger), nodes[..top]);
      while top - 1 > 0
        invariant Shape() && 1 <= top < SLOTS
        invariant Fold(Inner(tiger), nodes[..top]) == root
      {
        ghost var below, left, right := nodes[..top - 2], nodes[top - 2], nodes[top - 1];
        assert nodes[..top][..top - 1] == below + [left] && (below + [left])[..top - 2] == below;
        Compose();
        assert nodes[..top][..top - 1] == below;
      }
    }

    /** tt_final: hash the last partial block, or the empty block of an empty message. */
    method Final()
      requires Valid() && |message| < (BLOCK_LIMIT - 1) * BLOCKSIZE
      modifies this`top, this`count, node, nodes
      ensures Shape() && nodes[..top] == Stack(Inner(tiger), Leaves(tiger, message))
    {
      hide Stack, Push, PopCount, BlockHashes, Leaf, Inner;
      ghost var last := leaf[1..1 + index];
      assert |last| == index && top == |nodes[..top]|;
      FinalStack(tiger, whole, count, last);
      PopCountPositive(count);
      if index > 0 || top == 0 {
        Block();
      }
    }

    /** tt_digest: the digest of everything absorbed is its THEX root. */
    method Digest() returns (digest: Digest)
      requires Valid() && |message| < (BLOCK_LIMIT - 1) * BLOCKSIZE
      modifies this`top, this`count, node, nodes
      ensures digest == ThexRoot(tiger, message)
    {
      Final();
      ghost var hs := Leaves(tiger, message);
      StackRoot(Inner(tiger), hs);
      SlotBound(|hs| - 1);
      PopCountGrows(|hs| - 1);
      assert top == |nodes[..top]|;
      ComposeAll();
      digest := nodes[0];
    }
  }

  /** However a message is cut into pieces, the digest is the THEX root of the whole. */
  method DigestOfPieces(tiger: Hasher, pieces: seq<seq<byte>>) returns (digest: Digest)
    requires |Joined(pieces)| < (BLOCK_LIMIT - 1) * BLOCKSIZE
    ensures digest == ThexRoot(tiger, Joined(pieces))
  {
    var ctx := new TtContext(tiger);
    for i := 0 to |pieces|
      invariant ctx.Valid() && ctx.message == Joined(pieces[..i]) && ctx.tiger == tiger
      invariant fresh(ctx) && fresh(ctx.leaf) && fresh(ctx.node) && fresh(ctx.nodes)
    {
      assert pieces[..i + 1][..i] == pieces[..i];
      JoinedPrefix(pieces, i + 1);
      ctx.Update(pieces[i]);
    }
    assert pieces[..|pieces|] == pieces;
    digest := ctx.Digest();
  }
}
