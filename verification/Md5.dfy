/** The streaming MD5 context (hash/md5.c, hash/md5.h). */
module Md5 {
  import opened Bytes
  import opened BlockHash

  /** The digest buffer: four words. */
  type State = s: seq<Word> | |s| == 4 witness [0, 0, 0, 0]

  const INITIAL: State := [0x67452301, 0xEFCDAB89, 0x98BADCFE, 0x10325476]

  const WORD: nat := 0x1_0000_0000

  /** The message digest of RFC 1321: all blocks of the padded message, words low byte first.
      Of the length in bits only the low 64 bits are used. */
  function Digest(f: (State, seq<byte>) -> State, m: seq<byte>): seq<byte> {
    WordBytes(FoldBlocks(f, INITIAL, Padded(m, LittleEndian(8 * |m|, 8))), true)
  }

  /** RFC 1321 word for word: the last of the chaining values that begin with the initial registers and go
      through the padded message, low bytes first. */
  lemma DigestIs(f: (State, seq<byte>) -> State, m: seq<byte>, p: seq<byte>, states: seq<State>, d: seq<byte>)
    requires IsPadded(p, m, true) && IsChain(f, states, p)
    requires states != [] && states[0] == [0x67452301, 0xEFCDAB89, 0x98BADCFE, 0x10325476]
    requires AreBytes(d, states[|states| - 1], true)
    ensures d == Digest(f, m)
  {
    hide FoldBlocks, IsPadded, IsChain, AreBytes, WordBytes;
    PaddedIs(p, m, true);
    ChainFolds(f, states, p);
    WordBytesAre(d, states[|states| - 1], true);
  }

  /** The two length words, low word first, are the low 64 bits of the length. */
  lemma LengthBytes(total: nat, wraps: nat, low: Word, high: Word)
    requires total == (wraps * WORD + high) * WORD + low
    ensures WordBytes([low, high], true) == LittleEndian(total, 8)
  {
    assert Pow256(4) == WORD by { assert Pow256(1) == 256 && Pow256(2) == 0x1_0000; }
    LittleEndianConcat(wraps * WORD + high, low, 4, 4);
    LittleEndianConcat(wraps, high, 0, 4);
    assert LittleEndian(wraps * WORD + high, 4) == LittleEndian(high, 4);
    TwoWords(low, high);
  }

  lemma TwoWords(low: Word, high: Word)
    ensures WordBytes([low, high], true) == LittleEndian(low, 4) + LittleEndian(high, 4)
  {
    hide LittleEndian;
    assert [low, high][..1] == [low] && [low][..0] == [];
    assert WordBytes([low], true) == LittleEndian(low, 4);
  }

  class Md5Context {
    const f: (State, seq<byte>) -> State
    var abcd: State
    var count0: Word
    var count1: Word
    const buf: array<byte>

    /** The input so far, the part of it that has been folded in, and how often the two count
        words have wrapped around together. */
    ghost var message: seq<byte>
    ghost var whole: seq<byte>
    ghost var wraps: nat

    ghost predicate Counted()
      reads this`message, this`wraps, this`count0, this`count1
    {
      8 * |message| == (wraps * WORD + count1) * WORD + count0
    }

    ghost predicate Folded()
      reads this`whole, this`abcd
    {
      |whole| % BLOCK == 0 && abcd == FoldBlocks(f, INITIAL, whole)
    }

    ghost predicate Valid()
      reads this, buf
    {
      && buf.Length == BLOCK && Counted() && Folded()
      && |whole| <= |message| < |whole| + BLOCK
      && message == whole + buf[..|message| - |whole|]
    }

    /** md5_init of a new context. */
    constructor (f0: (State, seq<byte>) -> State)
      ensures Valid() && fresh(buf) && f == f0 && message == []
    {
      f, abcd, count0, count1 := f0, INITIAL, 0, 0;
      buf := new byte[BLOCK];
      message, whole, wraps := [], [], 0;
    }

    method Process(data: seq<byte>)
      requires |data| == BLOCK && Folded()
      modifies this`abcd, this`whole
      ensures Folded() && whole == old(whole) + data
    {
      FoldOne(f, INITIAL, whole, data);
      abcd := f(abcd, data);
      whole := whole + data;
    }

    /** The update of the message length, carry included. */
    method Count(data: seq<byte>)
      requires Counted()
      modifies this`count0, this`count1, this`wraps, this`message
      ensures Counted() && message == old(message) + data
    {
      var n := |data|;
      var nbits := 8 * n % WORD;
      BitsOf(n);
      message := message + data;
      AddHigh(n / 0x2000_0000);
      var carry := AddLow(nbits);
      if carry { AddHigh(1); }
    }

    method AddHigh(k: nat)
      modifies this`count1, this`wraps
      ensures wraps * WORD + count1 == old(wraps * WORD + count1) + k
    {
      wraps := wraps + (count1 + k) / WORD;
      count1 := (count1 + k) % WORD;
    }

    method AddLow(nbits: Word) returns (carry: bool)
      modifies this`count0
      ensures count0 + (if carry then WORD else 0) == old(count0) + nbits
    {
      count0 := (count0 + nbits) % WORD;
      carry := count0 < nbits;
    }

    /** The bits of n bytes are 2^32 times what goes to the upper word, and the rest. */
    lemma BitsOf(n: nat)
      ensures n / 0x2000_0000 * WORD + 8 * n % WORD == 8 * n
    {
    }

    /** (count[0] >> 3) & 63 is the number of bytes in the buffer. */
    lemma Offset()
      requires Counted()
      ensures count0 / 8 % BLOCK == |message| % BLOCK
    {
      ghost var high := wraps * WORD + count1;
      assert |message| == BLOCK * (high * 0x80_0000) + count0 / 8;
      SameOffset(high * 0x80_0000, count0 / 8);
    }

    lemma SameOffset(blocks: nat, rest: nat)
      ensures (BLOCK * blocks + rest) % BLOCK == rest % BLOCK
    {
    }

    method CopyIn(at: nat, data: seq<byte>)
      requires buf.Length == BLOCK && at + |data| <= BLOCK
      modifies buf
      ensures buf[..at + |data|] == old(buf[..at]) + data
    {
      forall i | 0 <= i < |data| { buf[at + i] := data[i]; }
    }

    /** The loop of md5_append over full blocks. */
    method FullBlocks(data: seq<byte>) returns (rest: seq<byte>)
      requires Folded()
      modifies this`abcd, this`whole
      ensures Folded() && |rest| < BLOCK && whole + rest == old(whole) + data
    {
      rest := data;
      while |rest| >= BLOCK
        invariant Folded() && whole + rest == old(whole) + data
      {
        assert rest == rest[..BLOCK] + rest[BLOCK..];
        assert whole + rest == (whole + rest[..BLOCK]) + rest[BLOCK..];
        Process(rest[..BLOCK]);
        rest := rest[BLOCK..];
      }
    }

    /** A partial block in the buffer is completed first. */
    method FirstBlock(offset: nat, data: seq<byte>) returns (rest: seq<byte>)
      requires buf.Length == BLOCK && Folded() && 0 < offset < BLOCK && offset + |data| >= BLOCK
      modifies this`abcd, this`whole, buf
      ensures Folded() && whole + rest == old(whole + buf[..offset]) + data
    {
      var copy := BLOCK - offset;
      CopyIn(offset, data[..copy]);
      assert buf[..BLOCK] == buf[..];
      rest := data[copy..];
      assert data == data[..copy] + rest;
      Process(buf[..]);
    }

    /** md5_append */
    method Append(data: seq<byte>)
      requires Valid()
      modifies this, buf
      ensures Valid() && message == old(message) + data
    {
      hide Md5Context.Counted, FoldBlocks;
      if |data| == 0 { return; }
      var offset := count0 / 8 % BLOCK;
      Offset();
      assert offset == |message| - |whole|;
      Count(data);
      var rest := data;
      if offset != 0 {
        if offset + |data| < BLOCK {
          CopyIn(offset, data);
          assert message == whole + buf[..offset + |data|];
          return;
        }
        rest := FirstBlock(offset, data);
      } else {
        assert old(message) == whole;
      }
      rest := FullBlocks(rest);
      if |rest| > 0 { CopyIn(0, rest); }
      assert buf[..|rest|] == rest;
    }

    /** md5_finish: the digest of RFC 1321. */
    method Finish() returns (digest: seq<byte>)
      requires Valid()
      modifies this, buf
      ensures Valid() && digest == Digest(f, old(message))
    {
      hide FoldBlocks, LittleEndian, WordBytes;
      ghost var m, lengthBytes := message, LittleEndian(8 * |message|, 8);
      LengthBytes(8 * |message|, wraps, count0, count1);
      var data := PutWords([count0, count1], true);
      var zeros := (55 - count0 / 8) % WORD % BLOCK;
      ZerosNeeded();
      Append([0x80] + Zeros(zeros));
      Append(data);
      assert message == Padded(m, lengthBytes);
      PaddedLength(m, lengthBytes);
      WholeOnly();
      digest := PutWords(abcd, true);
    }

    lemma ZerosNeeded()
      requires Counted()
      ensures (55 - count0 / 8) % WORD % BLOCK == ZeroCount(|message|)
    {
      ghost var high := wraps * WORD + count1;
      assert 55 - |message| == 55 - count0 / 8 - BLOCK * (high * 0x80_0000);
    }

    lemma WholeOnly()
      requires Valid() && |message| % BLOCK == 0
      ensures message == whole
    {
    }
  }

  /** However a message is cut into pieces, the digest is that of the whole. */
  method DigestOfPieces(f: (State, seq<byte>) -> State, pieces: seq<seq<byte>>) returns (digest: seq<byte>)
    ensures digest == Digest(f, Joined(pieces))
  {
    var ctx := new Md5Context(f);
    for i := 0 to |pieces|
      invariant ctx.Valid() && ctx.message == Joined(pieces[..i]) && ctx.f == f && fresh(ctx) && fresh(ctx.buf)
    {
      assert pieces[..i + 1][..i] == pieces[..i];
      ctx.Append(pieces[i]);
    }
    assert pieces[..|pieces|] == pieces;
    digest := ctx.Finish();
  }
}
