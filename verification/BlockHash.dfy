/** What SHA-1 and MD5 have in common: a message is padded to whole blocks of 64 bytes, and the
    blocks are folded into a chaining value (RFC 3174 section 4, RFC 1321 sections 3.1 to 3.4).
    The functions that fold one block in are parameters. */
module BlockHash {
  import opened Bytes

  const BLOCK: nat := 64

  /** A chaining value of n 32-bit words. */
  type Word = x: int | 0 <= x < 0x1_0000_0000

  /** The blocks of a message folded one by one into the chaining value; an incomplete last
      block is left out. */
  function FoldBlocks<S>(f: (S, seq<byte>) -> S, s: S, m: seq<byte>): S
    decreases |m|
  {
    if |m| < BLOCK then s else FoldBlocks(f, f(s, m[..BLOCK]), m[BLOCK..])
  }

  lemma {:induction false} FoldConcat<S>(f: (S, seq<byte>) -> S, s: S, a: seq<byte>, b: seq<byte>)
    requires |a| % BLOCK == 0
    ensures FoldBlocks(f, s, a + b) == FoldBlocks(f, FoldBlocks(f, s, a), b)
    decreases |a|
  {
    if a == [] {
      assert a + b == b;
    } else {
      assert (a + b)[..BLOCK] == a[..BLOCK] && (a + b)[BLOCK..] == a[BLOCK..] + b;
      FoldConcat(f, f(s, a[..BLOCK]), a[BLOCK..], b);
    }
  }

  lemma FoldOne<S>(f: (S, seq<byte>) -> S, s: S, a: seq<byte>, block: seq<byte>)
    requires |a| % BLOCK == 0 && |block| == BLOCK
    ensures FoldBlocks(f, s, a + block) == f(FoldBlocks(f, s, a), block)
    ensures |a + block| % BLOCK == 0
  {
    FoldConcat(f, s, a, block);
    assert block[..BLOCK] == block && block[BLOCK..] == [];
  }

  function Zeros(n: nat): (z: seq<byte>)
    ensures |z| == n
  {
    seq(n, _ => 0)
  }

  /** How many zero bytes follow the first padding byte, so that 8 bytes remain in a block. */
  function ZeroCount(n: nat): nat {
    (55 - n) % BLOCK
  }

  /** The message, a 1 bit, zeros, and 8 bytes for its length. */
  function Padded(m: seq<byte>, lengthBytes: seq<byte>): (p: seq<byte>)
    requires |lengthBytes| == 8
  {
    m + [0x80] + Zeros(ZeroCount(|m|)) + lengthBytes
  }

  /** The padding fills up the last block, and it is the shortest that leaves room for the length. */
  lemma PaddedLength(m: seq<byte>, lengthBytes: seq<byte>)
    requires |lengthBytes| == 8
    ensures |Padded(m, lengthBytes)| % BLOCK == 0
    ensures |m| + 9 <= |Padded(m, lengthBytes)| < |m| + 9 + BLOCK
  {
  }

  lemma {:induction false} BigEndianInjective(a: nat, b: nat, n: nat)
    requires a < Pow256(n) && b < Pow256(n) && BigEndian(a, n) == BigEndian(b, n)
    ensures a == b
    decreases n
  {
    if n > 0 {
      var x, y := BigEndian(a, n), BigEndian(b, n);
      assert x[..n - 1] == BigEndian(a / 256, n - 1) && y[..n - 1] == BigEndian(b / 256, n - 1);
      assert x[n - 1] == a % 256 && y[n - 1] == b % 256;
      BigEndianInjective(a / 256, b / 256, n - 1);
    }
  }

  lemma SameEnd(m: seq<byte>, m': seq<byte>, l: seq<byte>, l': seq<byte>)
    requires |l| == |l'| == 8 && Padded(m, l) == Padded(m', l')
    ensures l == l' && (|m| == |m'| ==> m == m')
  {
    var p := Padded(m, l);
    assert l == p[|p| - 8..] && l' == Padded(m', l')[|p| - 8..];
    assert m == p[..|m|] && m' == Padded(m', l')[..|m'|];
  }

  /** No two messages are padded to the same blocks, as long as their lengths fit the n bytes. */
  lemma PaddingIsUnambiguous(m: seq<byte>, m': seq<byte>, n: nat, l: seq<byte>, l': seq<byte>)
    requires 8 * |m| < Pow256(n) && 8 * |m'| < Pow256(n)
    requires l == BigEndian(8 * |m|, n) && l' == BigEndian(8 * |m'|, n) && |l| == |l'| == 8
    requires Padded(m, l) == Padded(m', l')
    ensures m == m'
  {
    SameEnd(m, m', l, l');
    BigEndianInjective(8 * |m|, 8 * |m'|, n);
  }

  /** The padding of a message whose last tail bytes are not yet in a whole block. */
  lemma PaddedTail(whole: seq<byte>, tail: seq<byte>, lengthBytes: seq<byte>)
    requires |whole| % BLOCK == 0 && |tail| < BLOCK && |lengthBytes| == 8
    ensures ZeroCount(|whole + tail|) == if |tail| < 56 then 55 - |tail| else 119 - |tail|
    ensures Padded(whole + tail, lengthBytes) == whole + (tail + [0x80] + Zeros(ZeroCount(|whole + tail|)) + lengthBytes)
  {
  }

  /** (w >> 8 * k) & 0xFF */
  function ShiftedByte(w: Word, k: nat): byte {
    if k == 0 then w % 256 else ShiftedByte(w / 256, k - 1)
  }

  /** The bytes of a word, low or high byte first. */
  function OneWord(w: Word, lowFirst: bool): (s: seq<byte>)
    ensures |s| == 4
  {
    if lowFirst then LittleEndian(w, 4) else BigEndian(w, 4)
  }

  function WordBytes(words: seq<Word>, lowFirst: bool): seq<byte> {
    if words == [] then [] else WordBytes(words[..|words| - 1], lowFirst) + OneWord(words[|words| - 1], lowFirst)
  }

  lemma {:induction false} LittleEndianAt(w: Word, n: nat, k: nat)
    requires k < n
    ensures LittleEndian(w, n)[k] == ShiftedByte(w, k)
    decreases n
  {
    if k > 0 { LittleEndianAt(w / 256, n - 1, k - 1); }
  }

  lemma {:induction false} BigEndianAt(w: Word, n: nat, k: nat)
    requires k < n
    ensures BigEndian(w, n)[n - 1 - k] == ShiftedByte(w, k)
    decreases n
  {
    if k > 0 { BigEndianAt(w / 256, n - 1, k - 1); }
  }

  lemma OneWordAt(w: Word, lowFirst: bool, k: nat)
    requires k < 4
    ensures OneWord(w, lowFirst)[k] == ShiftedByte(w, if lowFirst then k else 3 - k)
  {
    if lowFirst {
      LittleEndianAt(w, 4, k);
    } else {
      BigEndianAt(w, 4, 3 - k);
    }
  }

  /** The first j words and k bytes of the next one. */
  ghost function BytesUpTo(words: seq<Word>, lowFirst: bool, j: nat, k: nat): seq<byte>
    requires k < 4 && (j < |words| || (j == |words| && k == 0))
  {
    WordBytes(words[..j], lowFirst) + if k == 0 then [] else OneWord(words[j], lowFirst)[..k]
  }

  lemma NextByte(words: seq<Word>, lowFirst: bool, j: nat, k: nat)
    requires j < |words| && k < 4
    ensures BytesUpTo(words, lowFirst, j, k) + [ShiftedByte(words[j], if lowFirst then k else 3 - k)] ==
      if k < 3 then BytesUpTo(words, lowFirst, j, k + 1) else BytesUpTo(words, lowFirst, j + 1, 0)
  {
    var front, last := WordBytes(words[..j], lowFirst), OneWord(words[j], lowFirst);
    OneWordAt(words[j], lowFirst, k);
    assert last[..k + 1] == last[..k] + [last[k]];
    if k == 3 {
      assert words[..j + 1][..j] == words[..j];
      assert WordBytes(words[..j + 1], lowFirst) == front + last;
      assert last[..4] == last;
    }
  }

  /** The loop that writes a digest, byte by byte. */
  method PutWords(words: seq<Word>, lowFirst: bool) returns (bytes: seq<byte>)
    ensures bytes == WordBytes(words, lowFirst)
  {
    bytes := [];
    var i := 0;
    ghost var j, k := 0, 0;
    while i < 4 * |words|
      invariant i == 4 * j + k && 0 <= j <= |words| && 0 <= k < 4 && (j < |words| || k == 0)
      invariant bytes == BytesUpTo(words, lowFirst, j, k)
    {
      NextByte(words, lowFirst, j, k);
      assert i / 4 == j && i % 4 == k;
      bytes := bytes + [ShiftedByte(words[i / 4], if lowFirst then i % 4 else 3 - i % 4)];
      i := i + 1;
      if k < 3 { k := k + 1; } else { j, k := j + 1, 0; }
    }
    assert words[..|words|] == words;
  }

  // ----- the definitions of the standards -----

  /** The padding of both standards: a 1 bit, as few zeros as fill the last block up to its last 8
      bytes, and there the length of the message in bits. */
  ghost predicate IsPadded(p: seq<byte>, m: seq<byte>, lowFirst: bool) {
    && |p| % 64 == 0 && |m| + 9 <= |p| < |m| + 73
    && p[..|m|] == m && p[|m|] == 0x80
    && (forall i :: |m| < i < |p| - 8 ==> p[i] == 0)
    && forall i :: |p| - 8 <= i < |p| ==> p[i] == ByteOf(8 * |m|, if lowFirst then i + 8 - |p| else |p| - 1 - i)
  }

  /** The chaining values before every block of p and after the last one. */
  ghost predicate IsChain<S>(f: (S, seq<byte>) -> S, states: seq<S>, p: seq<byte>) {
    |p| == 64 * (|states| - 1) && forall i :: 0 <= i < |states| - 1 ==> IsStep(f, states, p, i)
  }

  ghost predicate IsStep<S>(f: (S, seq<byte>) -> S, states: seq<S>, p: seq<byte>, i: nat)
    requires i + 1 < |states| && 64 * i + 64 <= |p|
  {
    states[i + 1] == f(states[i], p[64 * i..64 * i + 64])
  }

  /** The bytes of the words one after the other. */
  ghost predicate AreBytes(d: seq<byte>, words: seq<Word>, lowFirst: bool) {
    |d| == 4 * |words| && forall j, k :: 0 <= j < |words| && 0 <= k < 4 ==> IsByte(d, words, lowFirst, j, k)
  }

  ghost predicate IsByte(d: seq<byte>, words: seq<Word>, lowFirst: bool, j: nat, k: nat)
    requires 4 * j + k < |d| && j < |words| && k < 4
  {
    d[4 * j + k] == ByteOf(words[j], if lowFirst then k else 3 - k)
  }

  lemma PaddedIs(p: seq<byte>, m: seq<byte>, lowFirst: bool)
    requires IsPadded(p, m, lowFirst)
    ensures p == Padded(m, if lowFirst then LittleEndian(8 * |m|, 8) else BigEndian(8 * |m|, 8))
  {
    hide IsPadded, LittleEndian, BigEndian, ZeroCount, Zeros;
    PaddedFront(p, m, lowFirst);
    PaddedMiddle(p, m, lowFirst);
    PaddedEnd(p, m, lowFirst);
    FourParts(p, |m|, |p| - 8);
  }

  lemma PaddedFront(p: seq<byte>, m: seq<byte>, lowFirst: bool)
    requires IsPadded(p, m, lowFirst)
    ensures |p| == |m| + 9 + ZeroCount(|m|) && p[..|m|] == m && p[|m|] == 0x80
  {
    ZerosFit(|m|, |p|);
  }

  lemma PaddedMiddle(p: seq<byte>, m: seq<byte>, lowFirst: bool)
    requires IsPadded(p, m, lowFirst)
    ensures p[|m| + 1..|p| - 8] == Zeros(|p| - 9 - |m|)
  {
    hide ByteOf;
  }

  lemma PaddedEnd(p: seq<byte>, m: seq<byte>, lowFirst: bool)
    requires IsPadded(p, m, lowFirst)
    ensures p[|p| - 8..] == if lowFirst then LittleEndian(8 * |m|, 8) else BigEndian(8 * |m|, 8)
  {
    hide LittleEndian, BigEndian, ByteOf;
    var l := if lowFirst then LittleEndian(8 * |m|, 8) else BigEndian(8 * |m|, 8);
    forall k | 0 <= k < 8 ensures l[k] == p[|p| - 8 + k] {
      if lowFirst { LittleEndianDigit(8 * |m|, 8, k); } else { BigEndianDigit(8 * |m|, 8, 7 - k); }
    }
  }

  lemma ZerosFit(n: nat, length: nat)
    requires length % 64 == 0 && n + 9 <= length < n + 73
    ensures length == n + 9 + ZeroCount(n)
  {
  }

  lemma FourParts(p: seq<byte>, a: nat, b: nat)
    requires a < b <= |p|
    ensures p == p[..a] + [p[a]] + p[a + 1..b] + p[b..]
  {
  }

  lemma {:induction false} ChainFolds<S>(f: (S, seq<byte>) -> S, states: seq<S>, p: seq<byte>)
    requires states != [] && IsChain(f, states, p)
    ensures FoldBlocks(f, states[0], p) == states[|states| - 1]
    decreases |states|
  {
    if |states| > 1 {
      assert IsStep(f, states, p, 0) && p[0..64] == p[..BLOCK];
      forall i | 0 <= i < |states| - 2 ensures IsStep(f, states[1..], p[64..], i) {
        assert IsStep(f, states, p, i + 1);
        assert p[64..][64 * i..64 * i + 64] == p[64 * (i + 1)..64 * (i + 1) + 64];
      }
      ChainFolds(f, states[1..], p[64..]);
    }
  }

  lemma {:induction false} WordBytesAre(d: seq<byte>, words: seq<Word>, lowFirst: bool)
    requires AreBytes(d, words, lowFirst)
    ensures d == WordBytes(words, lowFirst)
    decreases |words|
  {
    if words != [] {
      hide OneWord, AreBytes, WordBytes;
      var n := |words| - 1;
      FrontBytes(d, words, lowFirst, n);
      LastWord(d, words, lowFirst, n);
      WordBytesAre(d[..4 * n], words[..n], lowFirst);
      OneMoreWord(d, words, lowFirst, n);
    }
  }

  lemma OneMoreWord(d: seq<byte>, words: seq<Word>, lowFirst: bool, n: nat)
    requires |words| == n + 1 && 4 * n <= |d|
    requires d[..4 * n] == WordBytes(words[..n], lowFirst) && d[4 * n..] == OneWord(words[n], lowFirst)
    ensures d == WordBytes(words, lowFirst)
  {
    hide OneWord;
    assert d == d[..4 * n] + d[4 * n..];
  }

  lemma FrontBytes(d: seq<byte>, words: seq<Word>, lowFirst: bool, n: nat)
    requires AreBytes(d, words, lowFirst) && |words| == n + 1
    ensures |d| == 4 * n + 4 && AreBytes(d[..4 * n], words[..n], lowFirst)
  {
    hide ByteOf;
    forall j, k | 0 <= j < n && 0 <= k < 4 ensures IsByte(d[..4 * n], words[..n], lowFirst, j, k) {
      assert IsByte(d, words, lowFirst, j, k);
    }
  }

  lemma LastWord(d: seq<byte>, words: seq<Word>, lowFirst: bool, n: nat)
    requires AreBytes(d, words, lowFirst) && |words| == n + 1
    ensures d[4 * n..] == OneWord(words[n], lowFirst)
  {
    hide LittleEndian, BigEndian, ByteOf;
    forall k | 0 <= k < 4 ensures d[4 * n + k] == OneWord(words[n], lowFirst)[k] {
      assert IsByte(d, words, lowFirst, n, k);
      if lowFirst { LittleEndianDigit(words[n], 4, k); } else { BigEndianDigit(words[n], 4, 3 - k); }
    }
  }
}
