/** The streaming SHA-1 context (hash/sha1.c, hash/sha1.h). */
module Sha1 {
  import opened Bytes
  import opened BlockHash

  const SHA_SUCCESS := 0
  const SHA_INPUT_TOO_LONG := 1
  const SHA_STATE_ERROR := 3

  /** Intermediate_Hash: five words. */
  type State = s: seq<Word> | |s| == 5 witness [0, 0, 0, 0, 0]

  const INITIAL: State := [0x67452301, 0xEFCDAB89, 0x98BADCFE, 0x10325476, 0xC3D2E1F0]

  /** Messages have to be shorter than 2^64 bits. */
  const BIT_LIMIT: nat := 0x1_0000_0000_0000_0000

  /** The message digest of RFC 3174: all blocks of the padded message, words high byte first. */
  function Digest(f: (State, seq<byte>) -> State, m: seq<byte>): seq<byte> {
    WordBytes(FoldBlocks(f, INITIAL, Padded(m, BigEndian(8 * |m|, 8))), false)
  }

  /** RFC 3174 word for word: the last of the chaining values that begin with the initial hash and go
      through the padded message, high bytes first. */
  lemma DigestIs(f: (State, seq<byte>) -> State, m: seq<byte>, p: seq<byte>, states: seq<State>, d: seq<byte>)
    requires IsPadded(p, m, false) && IsChain(f, states, p)
    requires states != [] && states[0] == [0x67452301, 0xEFCDAB89, 0x98BADCFE, 0x10325476, 0xC3D2E1F0]
    requires AreBytes(d, states[|states| - 1], false)
    ensures d == Digest(f, m)
  {
    hide FoldBlocks, IsPadded, IsChain, AreBytes, WordBytes;
    PaddedIs(p, m, false);
    ChainFolds(f, states, p);
    WordBytesAre(d, states[|states| - 1], false);
  }

  lemma BigEndianBytes(w: Word)
    ensures BigEndian(w, 4) == [ShiftedByte(w, 3), ShiftedByte(w, 2), ShiftedByte(w, 1), ShiftedByte(w, 0)]
  {
    forall k | 0 <= k < 4 ensures BigEndian(w, 4)[3 - k] == ShiftedByte(w, k) { BigEndianAt(w, 4, k); }
  }

  class Sha1Context {
    const f: (State, seq<byte>) -> State
    var hash: State
    var lengthLow: Word
    var lengthHigh: Word
    var index: nat
    const block: array<byte>
    var computed: bool
    var corrupted: int

    /** The input so far; of it, the part that has been folded in. */
    ghost var message: seq<byte>
    ghost var whole: seq<byte>

    ghost predicate Buffered()
      reads this, block
    {
      && block.Length == BLOCK && index < BLOCK && |whole| % BLOCK == 0
      && hash == FoldBlocks(f, INITIAL, whole)
      && message == whole + block[..index]
    }

    ghost predicate Valid()
      reads this, block
    {
      && block.Length == BLOCK
      && (corrupted == SHA_SUCCESS && !computed ==> Buffered() && lengthHigh * 0x1_0000_0000 + lengthLow == 8 * |message|)
      && (corrupted == SHA_SUCCESS && computed ==> WordBytes(hash, false) == Digest(f, message))
    }

    /** SHA1Reset of a new context. */
    constructor (f0: (State, seq<byte>) -> State)
      ensures Valid() && fresh(block) && f == f0 && message == [] && corrupted == SHA_SUCCESS && !computed
    {
      f, hash, lengthLow, lengthHigh, index := f0, INITIAL, 0, 0, 0;
      block := new byte[BLOCK];
      computed, corrupted, message, whole := false, SHA_SUCCESS, [], [];
    }

    method ProcessMessageBlock()
      requires block.Length == BLOCK
      modifies this`hash, this`index
      ensures hash == f(old(hash), block[..]) && index == 0
    {
      hash := f(hash, block[..]);
      index := 0;
    }

    /** One byte of SHA1Input. */
    method PutByte(b: byte)
      requires Valid() && corrupted == SHA_SUCCESS && !computed
      modifies this, block
      ensures Valid() && !computed && message == old(message) + [b]
      ensures corrupted == if 8 * |message| < BIT_LIMIT then SHA_SUCCESS else SHA_INPUT_TOO_LONG
    {
      hide FoldBlocks, Digest, WordBytes;
      ghost var before := block[..index];
      block[index] := b;
      index := index + 1;
      CountByte(|message|);
      message := message + [b];
      assert block[..index] == before + [b];
      assert message == whole + block[..index];
      if index == BLOCK {
        assert block[..index] == block[..];
        FoldOne(f, INITIAL, whole, block[..]);
        ProcessMessageBlock();
        whole := message;
        assert message == whole + block[..index];
      }
    }

    /** The two-word bit count of n bytes becomes that of n + 1, or wraps. */
    method CountByte(ghost n: nat)
      requires lengthHigh * 0x1_0000_0000 + lengthLow == 8 * n && corrupted == SHA_SUCCESS
      modifies this`lengthLow, this`lengthHigh, this`corrupted
      ensures corrupted == if 8 * (n + 1) < BIT_LIMIT then SHA_SUCCESS else SHA_INPUT_TOO_LONG
      ensures corrupted == SHA_SUCCESS ==> lengthHigh * 0x1_0000_0000 + lengthLow == 8 * (n + 1)
    {
      lengthLow := (lengthLow + 8) % 0x1_0000_0000;
      if lengthLow == 0 {
        lengthHigh := (lengthHigh + 1) % 0x1_0000_0000;
        if lengthHigh == 0 { corrupted := SHA_INPUT_TOO_LONG; }
      }
    }

    /** SHA1Input: a nonempty piece is refused after the digest has been computed, and from then
        on there is no digest any more; too long a message is noticed when its length wraps. */
    method Input(data: seq<byte>) returns (code: int)
      requires Valid()
      modifies this, block
      ensures Valid() && computed == old(computed)
      ensures data == [] ==> code == SHA_SUCCESS && corrupted == old(corrupted) && message == old(message)
      ensures data != [] && old(computed) ==> code == corrupted == SHA_STATE_ERROR
      ensures data != [] && !old(computed) && old(corrupted) != SHA_SUCCESS ==> code == corrupted == old(corrupted)
      ensures data != [] && !old(computed) && old(corrupted) == SHA_SUCCESS ==>
        && code == SHA_SUCCESS && corrupted in {SHA_SUCCESS, SHA_INPUT_TOO_LONG}
        && (corrupted == SHA_SUCCESS <==> 8 * (|old(message)| + |data|) < BIT_LIMIT)
        && (corrupted == SHA_SUCCESS ==> message == old(message) + data)
    {
      if |data| == 0 { return SHA_SUCCESS; }
      if computed {
        corrupted := SHA_STATE_ERROR;
        return SHA_STATE_ERROR;
      }
      if corrupted != SHA_SUCCESS { return corrupted; }
      var i := 0;
      while i < |data| && corrupted == SHA_SUCCESS
        invariant 0 <= i <= |data| && Valid() && !computed && |message| == |old(message)| + i
        invariant message == old(message) + data[..i]
        invariant corrupted == if 8 * |message| < BIT_LIMIT then SHA_SUCCESS else SHA_INPUT_TOO_LONG
        decreases |data| - i
      {
        assert data[..i + 1] == data[..i] + [data[i]];
        PutByte(data[i]);
        i := i + 1;
      }
      assert data[..|data|] == data;
      return SHA_SUCCESS;
    }

    /** A run of zero bytes up to position end. */
    method PutZeros(end: nat)
      requires block.Length == BLOCK && index <= end <= BLOCK
      modifies this`index, block
      ensures index == end && block[..end] == old(block[..index]) + Zeros(end - old(index))
    {
      ghost var start := index;
      while index < end
        invariant start <= index <= end
        invariant block[..index] == old(block[..index]) + Zeros(index - start)
      {
        ghost var before := block[..index];
        block[index] := 0;
        index := index + 1;
        assert block[..index] == before + [0];
        assert Zeros(index - start) == Zeros(index - 1 - start) + [0];
      }
    }

    /** The message length in bits, in the last 8 bytes of the block. */
    method PutLength()
      requires block.Length == BLOCK
      modifies block
      ensures block[..] == old(block[..56]) + BigEndian(lengthHigh * 0x1_0000_0000 + lengthLow, 8)
    {
      assert Pow256(4) == 0x1_0000_0000 by { assert Pow256(1) == 256 && Pow256(2) == 0x1_0000; }
      hide BigEndian, Pow256;
      BigEndianConcat(lengthHigh, lengthLow, 4, 4);
      PutWord(56, lengthHigh);
      PutWord(60, lengthLow);
    }

    /** One word of the length, high byte first. */
    method PutWord(at: nat, w: Word)
      requires at + 4 <= block.Length
      modifies block
      ensures block[..] == old(block[..at]) + BigEndian(w, 4) + old(block[at + 4..])
    {
      hide BigEndian, ShiftedByte;
      BigEndianBytes(w);
      block[at] := ShiftedByte(w, 3);
      block[at + 1] := ShiftedByte(w, 2);
      block[at + 2] := ShiftedByte(w, 1);
      block[at + 3] := ShiftedByte(w, 0);
    }

    /** A block that has no room for the length is filled up and folded in. */
    method FillBlock()
      requires Buffered()
      modifies this`hash, this`index, this`whole, block
      ensures index == 0 && whole == old(whole + (block[..index] + [0x80] + Zeros(63 - index)))
      ensures |whole| % BLOCK == 0 && hash == FoldBlocks(f, INITIAL, whole)
    {
      ghost var tail := block[..index];
      block[index] := 0x80;
      index := index + 1;
      assert block[..index] == tail + [0x80];
      PutZeros(BLOCK);
      assert block[..BLOCK] == block[..];
      FoldOne(f, INITIAL, whole, block[..]);
      whole := whole + block[..];
      ProcessMessageBlock();
    }

    /** The first padding byte and the zeros, up to where the length goes. */
    method PadBlock(ghost lengthBytes: seq<byte>)
      requires Buffered() && |lengthBytes| == 8
      modifies this`hash, this`index, this`whole, block
      ensures |whole| % BLOCK == 0 && hash == FoldBlocks(f, INITIAL, whole)
      ensures whole + (block[..56] + lengthBytes) == Padded(message, lengthBytes)
    {
      ghost var tail := block[..index];
      PaddedTail(whole, tail, lengthBytes);
      if index > 55 {
        TwoBlocks(whole, tail, lengthBytes);
        FillBlock();
        PutZeros(56);
        assert block[..56] == Zeros(56);
      } else {
        block[index] := 0x80;
        index := index + 1;
        assert block[..index] == tail + [0x80];
        PutZeros(56);
        assert block[..56] == tail + [0x80] + Zeros(55 - |tail|);
      }
    }

    method PadMessage()
      requires Valid() && corrupted == SHA_SUCCESS && !computed
      modifies this`hash, this`index, this`whole, block
      ensures hash == FoldBlocks(f, INITIAL, Padded(message, BigEndian(8 * |message|, 8)))
    {
      hide FoldBlocks, Padded, BigEndian, Digest, WordBytes;
      PadBlock(BigEndian(8 * |message|, 8));
      PutLength();
      FoldOne(f, INITIAL, whole, block[..]);
      ProcessMessageBlock();
    }

    /** SHA1Result: the digest of RFC 3174, as often as it is asked for. */
    method Result() returns (code: int, digest: seq<byte>)
      requires Valid()
      modifies this, block
      ensures Valid() && code == corrupted == old(corrupted) && message == old(message)
      ensures code == SHA_SUCCESS ==> computed && digest == Digest(f, message)
    {
      if corrupted != SHA_SUCCESS { return corrupted, []; }
      if !computed {
        PadMessage();
        forall i | 0 <= i < BLOCK { block[i] := 0; }
        lengthLow, lengthHigh, computed := 0, 0, true;
      }
      digest := PutWords(hash, false);
      return SHA_SUCCESS, digest;
    }
  }

  lemma TwoBlocks(whole: seq<byte>, tail: seq<byte>, lengthBytes: seq<byte>)
    requires |whole| % BLOCK == 0 && 56 <= |tail| < BLOCK && |lengthBytes| == 8
    ensures Padded(whole + tail, lengthBytes) == whole + (tail + [0x80] + Zeros(63 - |tail|)) + (Zeros(56) + lengthBytes)
  {
  }

  /** However a message is cut into pieces, the digest is that of the whole. */
  method DigestOfPieces(f: (State, seq<byte>) -> State, pieces: seq<seq<byte>>) returns (code: int, digest: seq<byte>)
    ensures code == SHA_SUCCESS <==> 8 * |Joined(pieces)| < BIT_LIMIT
    ensures code == SHA_SUCCESS ==> digest == Digest(f, Joined(pieces))
  {
    var ctx := new Sha1Context(f);
    for i := 0 to |pieces|
      invariant ctx.Valid() && !ctx.computed && ctx.f == f && fresh(ctx) && fresh(ctx.block)
      invariant ctx.corrupted == SHA_SUCCESS <==> 8 * |Joined(pieces[..i])| < BIT_LIMIT
      invariant ctx.corrupted == SHA_SUCCESS ==> ctx.message == Joined(pieces[..i])
    {
      assert pieces[..i + 1][..i] == pieces[..i];
      var ignored := ctx.Input(pieces[i]);
    }
    assert pieces[..|pieces|] == pieces;
    code, digest := ctx.Result();
  }
}
