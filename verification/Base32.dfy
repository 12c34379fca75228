/** Base32 (conv/base32.hpp; RFC 4648 section 6): five bytes are eight symbols of five bits. */
module Base32 {
  import opened Wrappers

  /** Symbols 0 to 31, and 32 for the padding. */
  const PAD: bv8 := 32

  // ----- the standard: groups of 40 bits -----

  function At(b: seq<bv8>, i: nat): bv8 {
    if i < |b| then b[i] else 0
  }

  function Pack(b0: bv8, b1: bv8, b2: bv8, b3: bv8, b4: bv8): bv40 {
    (b0 as bv40 << 32) | (b1 as bv40 << 24) | (b2 as bv40 << 16) | (b3 as bv40 << 8) | b4 as bv40
  }

  /** The bits of up to five bytes, with zeros for what is missing. */
  function Bits(b: seq<bv8>): bv40 {
    Pack(At(b, 0), At(b, 1), At(b, 2), At(b, 3), At(b, 4))
  }

  function Low5(g: bv40): bv8 { (g & 31) as bv8 }

  function Low8(g: bv40): bv8 { (g & 255) as bv8 }

  function Quintets(g: bv40): (q: seq<bv8>)
    ensures |q| == 8
  {
    [Low5(g >> 35), Low5(g >> 30), Low5(g >> 25), Low5(g >> 20), Low5(g >> 15), Low5(g >> 10), Low5(g >> 5), Low5(g)]
  }

  function Octets(g: bv40): (o: seq<bv8>)
    ensures |o| == 5
  {
    [Low8(g >> 32), Low8(g >> 24), Low8(g >> 16), Low8(g >> 8), Low8(g)]
  }

  /** The symbols that n bytes take. */
  function SymbolCount(n: nat): nat {
    match n
    case 0 => 0
    case 1 => 2
    case 2 => 4
    case 3 => 5
    case 4 => 7
    case _ => 8
  }

  function Padding(n: nat): seq<bv8> {
    seq(n, _ => PAD)
  }

  /** The eight values of one group, padding included. */
  function Values(b: seq<bv8>): (v: seq<bv8>)
    requires 1 <= |b| <= 5
    ensures |v| == 8
  {
    Quintets(Bits(b))[..SymbolCount(|b|)] + Padding(8 - SymbolCount(|b|))
  }

  /** base32Table */
  function Letter(v: bv8): bv8 {
    if v < 26 then 65 + v else if v < 32 then 24 + v else 61
  }

  function Letters(v: seq<bv8>): (s: seq<bv8>)
    ensures |s| == |v| && forall i :: 0 <= i < |v| ==> s[i] == Letter(v[i])
  {
    seq(|v|, i requires 0 <= i < |v| => Letter(v[i]))
  }

  /** A group in text form; the compact form has no padding. */
  function Group(b: seq<bv8>, compact: bool): seq<bv8>
    requires 1 <= |b| <= 5
  {
    Letters(if compact then Values(b)[..SymbolCount(|b|)] else Values(b))
  }

  function Encoded(data: seq<bv8>, compact: bool): seq<bv8>
    decreases |data|
  {
    if data == [] then []
    else if |data| <= 5 then Group(data, compact)
    else Group(data[..5], compact) + Encoded(data[5..], compact)
  }

  // ----- the text of RFC 4648, bit by bit -----

  /** The capital letters and the digits from 2 to 7. */
  const ALPHABET: seq<bv8> := [
    65, 66, 67, 68, 69, 70, 71, 72, 73, 74, 75, 76, 77, 78, 79, 80, 81, 82, 83, 84, 85, 86, 87, 88, 89, 90,
    50, 51, 52, 53, 54, 55]

  /** Bit k of the data, highest bit of the first byte first; behind the data there are zeros. */
  predicate BitAt(data: seq<bv8>, k: nat) {
    k / 8 < |data| && data[k / 8] & Mask(k % 8) != 0
  }

  function Five(x0: bool, x1: bool, x2: bool, x3: bool, x4: bool): (n: nat)
    ensures n < 32
  {
    (if x0 then 16 else 0) + (if x1 then 8 else 0) + (if x2 then 4 else 0) + (if x3 then 2 else 0) + if x4 then 1 else 0
  }

  /** The number that five bits make, highest bit first. */
  function Number(data: seq<bv8>, k: nat): (n: nat)
    ensures n < 32
  {
    Five(BitAt(data, k), BitAt(data, k + 1), BitAt(data, k + 2), BitAt(data, k + 3), BitAt(data, k + 4))
  }

  /** Character i stands for bits 5 * i and following; the padded form is filled up with equals signs. */
  lemma {:induction false} EncodedAt(data: seq<bv8>, compact: bool, i: nat)
    requires i < |Encoded(data, compact)|
    ensures Encoded(data, compact)[i] == if 5 * i < 8 * |data| then ALPHABET[Number(data, 5 * i)] else 61
    decreases |data|
  {
    hide Group, Number;
    if 0 < |data| <= 5 {
      GroupAt(data, compact, i);
    } else if |data| > 5 {
      GroupLength(data[..5], compact);
      if i < 8 {
        GroupAt(data[..5], compact, i);
        PrefixBits(data, 5, 5 * i);
      } else {
        EncodedAt(data[5..], compact, i - 8);
        LaterBits(data, 5 * i);
      }
    }
  }

  lemma GroupLength(b: seq<bv8>, compact: bool)
    requires 1 <= |b| <= 5
    ensures |Group(b, compact)| == if compact then SymbolCount(|b|) else 8
  {
  }

  lemma PrefixBits(data: seq<bv8>, n: nat, k: nat)
    requires n <= |data| && k + 4 < 8 * n
    ensures Number(data[..n], k) == Number(data, k)
  {
  }

  lemma LaterBits(data: seq<bv8>, k: nat)
    requires |data| >= 5 && k >= 40
    ensures Number(data, k) == Number(data[5..], k - 40)
  {
    hide BitAt;
    LaterBit(data, k);
    LaterBit(data, k + 1);
    LaterBit(data, k + 2);
    LaterBit(data, k + 3);
    LaterBit(data, k + 4);
  }

  lemma LaterBit(data: seq<bv8>, k: nat)
    requires |data| >= 5 && k >= 40
    ensures BitAt(data, k) == BitAt(data[5..], k - 40)
  {
    var i, j := k / 8, (k - 40) / 8;
    assert i == j + 5 && k % 8 == (k - 40) % 8;
  }

  lemma GroupAt(b: seq<bv8>, compact: bool, i: nat)
    requires 1 <= |b| <= 5 && i < |Group(b, compact)|
    ensures Group(b, compact)[i] == if 5 * i < 8 * |b| then ALPHABET[Number(b, 5 * i)] else 61
  {
    hide Quintets, Bits, Letter, Number;
    PadLetter();
    if i < SymbolCount(|b|) { QuintetIs(b, i); }
  }

  lemma PadLetter()
    ensures Letter(PAD) == 61
  {
  }

  lemma QuintetIs(b: seq<bv8>, i: nat)
    requires i < 8
    ensures Letter(Quintets(Bits(b))[i]) == ALPHABET[Number(b, 5 * i)]
  {
    var k := 5 * i;
    QuintetBits(b, i);
    hide Quintets, Bits, BitAt, Letter;
    LetterIs(BitAt(b, k), BitAt(b, k + 1), BitAt(b, k + 2), BitAt(b, k + 3), BitAt(b, k + 4));
  }

  function FromBits(x0: bool, x1: bool, x2: bool, x3: bool, x4: bool): bv8 {
    (if x0 then 16 else 0) | (if x1 then 8 else 0) | (if x2 then 4 else 0) | (if x3 then 2 else 0) | if x4 then 1 else 0
  }

  lemma LetterIs(x0: bool, x1: bool, x2: bool, x3: bool, x4: bool)
    ensures Letter(FromBits(x0, x1, x2, x3, x4)) == ALPHABET[Five(x0, x1, x2, x3, x4)]
  {
  }

  lemma QuintetBits(b: seq<bv8>, i: nat)
    requires i < 8
    ensures Quintets(Bits(b))[i] ==
      FromBits(BitAt(b, 5 * i), BitAt(b, 5 * i + 1), BitAt(b, 5 * i + 2), BitAt(b, 5 * i + 3), BitAt(b, 5 * i + 4))
  {
    hide Quintets, Bits, FiveOf, BitAt, FromBits;
    QuintetMasks(b);
    FiveAre(b, 5 * i);
  }

  function FiveOf(b: seq<bv8>, k: nat): bv8 {
    FromBits(Has(b, k / 8, k % 8), Has(b, (k + 1) / 8, (k + 1) % 8), Has(b, (k + 2) / 8, (k + 2) % 8),
      Has(b, (k + 3) / 8, (k + 3) % 8), Has(b, (k + 4) / 8, (k + 4) % 8))
  }

  lemma FiveAre(b: seq<bv8>, k: nat)
    ensures FiveOf(b, k) == FromBits(BitAt(b, k), BitAt(b, k + 1), BitAt(b, k + 2), BitAt(b, k + 3), BitAt(b, k + 4))
  {
    hide Has, BitAt, FromBits;
    BitIs(b, k);
    BitIs(b, k + 1);
    BitIs(b, k + 2);
    BitIs(b, k + 3);
    BitIs(b, k + 4);
  }

  /** Bit j of byte i. */
  predicate Has(b: seq<bv8>, i: nat, j: nat)
    requires j < 8
  {
    At(b, i) & Mask(j) != 0
  }

  lemma QuintetMasks(b: seq<bv8>)
    ensures var q := Quintets(Bits(b));
      && q[0] == FiveOf(b, 0) && q[1] == FiveOf(b, 5) && q[2] == FiveOf(b, 10) && q[3] == FiveOf(b, 15)
      && q[4] == FiveOf(b, 20) && q[5] == FiveOf(b, 25) && q[6] == FiveOf(b, 30) && q[7] == FiveOf(b, 35)
  {
    hide Quintets, Bits, Has, FromBits;
    QuintetHas(b);
  }

  lemma QuintetHas(b: seq<bv8>)
    ensures var q := Quintets(Bits(b));
      && q[0] == FromBits(Has(b, 0, 0), Has(b, 0, 1), Has(b, 0, 2), Has(b, 0, 3), Has(b, 0, 4))
      && q[1] == FromBits(Has(b, 0, 5), Has(b, 0, 6), Has(b, 0, 7), Has(b, 1, 0), Has(b, 1, 1))
      && q[2] == FromBits(Has(b, 1, 2), Has(b, 1, 3), Has(b, 1, 4), Has(b, 1, 5), Has(b, 1, 6))
      && q[3] == FromBits(Has(b, 1, 7), Has(b, 2, 0), Has(b, 2, 1), Has(b, 2, 2), Has(b, 2, 3))
      && q[4] == FromBits(Has(b, 2, 4), Has(b, 2, 5), Has(b, 2, 6), Has(b, 2, 7), Has(b, 3, 0))
      && q[5] == FromBits(Has(b, 3, 1), Has(b, 3, 2), Has(b, 3, 3), Has(b, 3, 4), Has(b, 3, 5))
      && q[6] == FromBits(Has(b, 3, 6), Has(b, 3, 7), Has(b, 4, 0), Has(b, 4, 1), Has(b, 4, 2))
      && q[7] == FromBits(Has(b, 4, 3), Has(b, 4, 4), Has(b, 4, 5), Has(b, 4, 6), Has(b, 4, 7))
  {
    hide Quintets, Pack, At;
    EncodeMasks(At(b, 0), At(b, 1), At(b, 2), At(b, 3), At(b, 4));
  }

  lemma BitIs(b: seq<bv8>, k: nat)
    ensures BitAt(b, k) == Has(b, k / 8, k % 8)
  {
  }

  function Mask(j: nat): bv8
    requires j < 8
  {
    [128, 64, 32, 16, 8, 4, 2, 1][j]
  }

  // ----- the masks of the program -----

  /** The eight values that Encode computes from five bytes. */
  lemma EncodeMasks(b0: bv8, b1: bv8, b2: bv8, b3: bv8, b4: bv8)
    ensures var q := Quintets(Pack(b0, b1, b2, b3, b4));
      && q[0] == (b0 & 0xf8) >> 3
      && q[1] == ((b1 & 0xc0) >> 6) | ((b0 & 0x07) << 2)
      && q[2] == (b1 & 0x3e) >> 1
      && q[3] == ((b2 & 0xf0) >> 4) | ((b1 & 0x01) << 4)
      && q[4] == ((b3 & 0x80) >> 7) | ((b2 & 0x0f) << 1)
      && q[5] == (b3 & 0x7c) >> 2
      && q[6] == ((b4 & 0xe0) >> 5) | ((b3 & 0x03) << 3)
      && q[7] == b4 & 0x1f
  {
  }

  /** The bits of eight values, padding counting as zeros. */
  function Join(v: seq<bv8>): bv40
    requires |v| == 8
  {
    Join8(v[0], v[1], v[2], v[3], v[4], v[5], v[6], v[7])
  }

  function Join8(v0: bv8, v1: bv8, v2: bv8, v3: bv8, v4: bv8, v5: bv8, v6: bv8, v7: bv8): bv40 {
    ((v0 & 31) as bv40 << 35) | ((v1 & 31) as bv40 << 30) | ((v2 & 31) as bv40 << 25) | ((v3 & 31) as bv40 << 20) |
    ((v4 & 31) as bv40 << 15) | ((v5 & 31) as bv40 << 10) | ((v6 & 31) as bv40 << 5) | (v7 & 31) as bv40
  }

  /** The five bytes that Decode computes from eight values. */
  lemma DecodeMasks(v0: bv8, v1: bv8, v2: bv8, v3: bv8, v4: bv8, v5: bv8, v6: bv8, v7: bv8)
    ensures var o := Octets(Join8(v0, v1, v2, v3, v4, v5, v6, v7));
      && o[0] == ((v0 & 0x1F) << 3) | ((v1 & 0x1C) >> 2)
      && o[1] == ((v1 & 0x03) << 6) | ((v2 & 0x1F) << 1) | ((v3 & 0x10) >> 4)
      && o[2] == ((v3 & 0x0F) << 4) | ((v4 & 0x1E) >> 1)
      && o[3] == ((v4 & 0x01) << 7) | ((v5 & 0x1F) << 2) | ((v6 & 0x18) >> 3)
      && o[4] == ((v6 & 0x07) << 5) | (v7 & 0x1F)
  {
  }

  /** Base32ToDecimal */
  function Digit(c: bv8): Option<bv8> {
    if 65 <= c <= 90 then Some(c - 65)
    else if 97 <= c <= 122 then Some(c - 97)
    else if 50 <= c <= 55 then Some(c - 24)
    else if c == 61 then Some(PAD)
    else None
  }

  /** The values of characters; nothing but padding may follow padding. */
  function ReadValues(chars: seq<bv8>, padded: bool): (r: Option<seq<bv8>>)
    ensures r.Some? ==> |r.value| == |chars|
  {
    if chars == [] then Some([])
    else
      match Digit(chars[0])
      case None => None
      case Some(v) =>
        if padded && v != PAD then None
        else Prepend([v], ReadValues(chars[1..], padded || v == PAD))
  }

  function Prepend(front: seq<bv8>, rest: Option<seq<bv8>>): Option<seq<bv8>> {
    match rest
    case None => None
    case Some(s) => Some(front + s)
  }

  lemma PrependMore(a: seq<bv8>, b: seq<bv8>, rest: Option<seq<bv8>>)
    ensures Prepend(a, Prepend(b, rest)) == Prepend(a + b, rest) && Prepend([], rest) == rest
  {
    if rest.Some? { assert a + (b + rest.value) == (a + b) + rest.value && [] + rest.value == rest.value; }
  }

  function CountPads(v: seq<bv8>): nat {
    if v == [] then 0 else (if v[0] == PAD then 1 else 0) + CountPads(v[1..])
  }

  /** The bytes of a group with that much padding. */
  function OctetCount(padding: nat): (n: nat)
    ensures 1 <= n <= 5
  {
    1 + (if padding <= 4 then 1 else 0) + (if padding <= 3 then 1 else 0) + (if padding <= 1 then 1 else 0) + if padding == 0 then 1 else 0
  }

  /** The eight values of a round; characters that are missing at the end are padding. */
  function RoundValues(chars: seq<bv8>, padded: bool): (r: Option<seq<bv8>>)
    requires |chars| <= 8
    ensures r.Some? ==> |r.value| == 8
  {
    match ReadValues(chars, padded)
    case None => None
    case Some(v) => Some(v + Padding(8 - |v|))
  }

  function RoundSize(text: seq<bv8>): (n: nat)
    ensures n <= |text| && n <= 8 && (text != [] ==> n > 0)
  {
    if |text| > 8 then 8 else |text|
  }

  /** What the rest of a text gives when that much padding came before it. Padding is counted
      through all rounds: after the first one nothing else is accepted. */
  function DecodedFrom(text: seq<bv8>, pads: nat): Option<seq<bv8>>
    decreases |text|
  {
    if text == [] then Some([])
    else
      match RoundValues(text[..RoundSize(text)], pads > 0)
      case None => None
      case Some(v) =>
        var n := pads + CountPads(v);
        Prepend(Octets(Join(v))[..OctetCount(n)], DecodedFrom(text[RoundSize(text)..], n))
  }

  function Decoded(text: seq<bv8>): Option<seq<bv8>> {
    DecodedFrom(text, 0)
  }

  // ----- the round trip -----

  lemma QuintetsSmall(g: bv40)
    ensures forall i :: 0 <= i < 8 ==> Quintets(g)[i] < 32
  {
  }

  lemma OctetsOfBits(b: seq<bv8>)
    ensures Octets(Bits(b)) == [At(b, 0), At(b, 1), At(b, 2), At(b, 3), At(b, 4)]
  {
  }

  /** The first n of eight values, and padding. */
  predicate Spread(v: seq<bv8>, n: nat, q: seq<bv8>)
    requires |q| == 8
  {
    && |v| == 8
    && v[0] == (if n > 0 then q[0] else PAD) && v[1] == (if n > 1 then q[1] else PAD)
    && v[2] == (if n > 2 then q[2] else PAD) && v[3] == (if n > 3 then q[3] else PAD)
    && v[4] == (if n > 4 then q[4] else PAD) && v[5] == (if n > 5 then q[5] else PAD)
    && v[6] == (if n > 6 then q[6] else PAD) && v[7] == (if n > 7 then q[7] else PAD)
  }

  lemma PaddedSpread(n: nat, q: seq<bv8>)
    requires n <= 8 == |q|
    ensures Spread(q[..n] + Padding(8 - n), n, q)
  {
  }

  lemma SpreadJoin(b: seq<bv8>, v: seq<bv8>)
    requires 1 <= |b| <= 5 && Spread(v, SymbolCount(|b|), Quintets(Bits(b)))
    ensures Join(v) == Bits(b)
  {
  }

  /** The values of a group have its bits. */
  lemma ValuesJoin(b: seq<bv8>)
    requires 1 <= |b| <= 5
    ensures Join(Values(b)) == Bits(b)
  {
    hide Join, Bits, Spread, Quintets, Padding;
    PaddedSpread(SymbolCount(|b|), Quintets(Bits(b)));
    SpreadJoin(b, Values(b));
  }

  lemma LetterDigit(v: bv8)
    requires v <= PAD
    ensures Digit(Letter(v)) == Some(v)
  {
  }

  /** Symbols and then padding, as text, are read back. */
  lemma {:induction false} ReadLetters(v: seq<bv8>, n: nat, padded: bool)
    requires n <= |v| && (forall i :: 0 <= i < |v| ==> if i < n then v[i] < PAD else v[i] == PAD) && (padded ==> n == 0)
    ensures ReadValues(Letters(v), padded) == Some(v) && CountPads(v) == |v| - n
    decreases |v|
  {
    if v != [] {
      LetterDigit(v[0]);
      assert Letters(v)[1..] == Letters(v[1..]);
      ReadLetters(v[1..], if n > 0 then n - 1 else 0, padded || v[0] == PAD);
      assert v == [v[0]] + v[1..];
    } else {
      assert Letters(v) == v == [];
    }
  }

  lemma OctetsPrefix(b: seq<bv8>)
    requires |b| <= 5
    ensures Octets(Bits(b))[..|b|] == b
  {
    OctetsOfBits(b);
    assert [At(b, 0), At(b, 1), At(b, 2), At(b, 3), At(b, 4)][..|b|] == b;
  }

  /** The padding tells how many bytes a group has, and so does padding that no encoder writes. */
  lemma OctetCountIs(n: nat)
    requires 1 <= n <= 5
    ensures OctetCount(8 - SymbolCount(n)) == n
    ensures OctetCount(2) == 3 && forall p: nat :: p > 4 ==> OctetCount(p) == 1
  {
  }

  lemma ReadGroup(v: seq<bv8>, n: nat, compact: bool)
    requires |v| == 8 && n <= 8 && forall i :: 0 <= i < 8 ==> if i < n then v[i] < PAD else v[i] == PAD
    ensures var shown := if compact then v[..n] else v;
      ReadValues(Letters(shown), false) == Some(shown) && shown + Padding(8 - |shown|) == v && CountPads(v) == 8 - n
  {
    ReadLetters(if compact then v[..n] else v, n, false);
    ReadLetters(v, n, false);
  }

  /** A group is read back, with or without its padding. */
  lemma GroupRoundTrip(b: seq<bv8>, compact: bool)
    requires 1 <= |b| <= 5
    ensures |Group(b, compact)| <= 8 && RoundValues(Group(b, compact), false) == Some(Values(b))
    ensures Octets(Join(Values(b)))[..OctetCount(CountPads(Values(b)))] == b && (|b| == 5 ==> CountPads(Values(b)) == 0)
  {
    ValuesSmall(b);
    ReadGroup(Values(b), SymbolCount(|b|), compact);
    ValuesJoin(b);
    OctetsPrefix(b);
    OctetCountIs(|b|);
  }

  lemma ValuesSmall(b: seq<bv8>)
    requires 1 <= |b| <= 5
    ensures forall i :: 0 <= i < 8 ==> if i < SymbolCount(|b|) then Values(b)[i] < PAD else Values(b)[i] == PAD
  {
    QuintetsSmall(Bits(b));
  }

  /** Decoding what was encoded gives the data back, in both forms. */
  lemma {:induction false} RoundTrip(data: seq<bv8>, compact: bool)
    ensures Decoded(Encoded(data, compact)) == Some(data)
    decreases |data|
  {
    if data != [] {
      var b := if |data| <= 5 then data else data[..5];
      var rest := if |data| <= 5 then [] else Encoded(data[5..], compact);
      GroupRoundTrip(b, compact);
      if |data| > 5 { RoundTrip(data[5..], compact); }
      FirstRound(Group(b, compact), rest, Values(b));
      assert Encoded(data, compact) == Group(b, compact) + rest;
      assert data == b + if |data| <= 5 then [] else data[5..];
    }
  }

  /** The first round of a text, of which only the last round is padded. */
  lemma FirstRound(group: seq<bv8>, rest: seq<bv8>, v: seq<bv8>)
    requires 0 < |group| <= 8 && RoundValues(group, false) == Some(v) && (rest != [] ==> |group| == 8 && CountPads(v) == 0)
    ensures Decoded(group + rest) == Prepend(Octets(Join(v))[..OctetCount(CountPads(v))], Decoded(rest))
  {
    var text := group + rest;
    var n := RoundSize(text);
    assert text[..n] == group && text[n..] == rest;
    assert DecodedFrom(text, 0) == Prepend(Octets(Join(v))[..OctetCount(CountPads(v))], DecodedFrom(rest, CountPads(v)));
  }

  /** Exactly the texts of symbols followed by padding are accepted, in whatever rounds they fall. */
  lemma AcceptedIff(text: seq<bv8>)
    ensures Decoded(text).Some? <==>
      && (forall c :: c in text ==> 65 <= c <= 90 || 97 <= c <= 122 || 50 <= c <= 55 || c == 61)
      && (forall i, j :: 0 <= i < j < |text| && text[i] == 61 ==> text[j] == 61)
  {
    DigitsAre(text);
    AcceptedFrom(text, 0);
    ReadIff(text, false);
  }

  lemma DigitsAre(text: seq<bv8>)
    ensures (forall i :: 0 <= i < |text| ==> Digit(text[i]).Some?) <==>
      forall c :: c in text ==> 65 <= c <= 90 || 97 <= c <= 122 || 50 <= c <= 55 || c == 61
  {
    if forall i :: 0 <= i < |text| ==> Digit(text[i]).Some? {
      forall c | c in text ensures 65 <= c <= 90 || 97 <= c <= 122 || 50 <= c <= 55 || c == 61 {
        var i :| 0 <= i < |text| && text[i] == c;
        assert Digit(text[i]).Some?;
      }
    } else {
      var i :| 0 <= i < |text| && Digit(text[i]).None?;
      assert text[i] in text;
    }
  }

  /** Small letters are read as the capital ones. */
  lemma IgnoresCase(text: seq<bv8>, other: seq<bv8>)
    requires |text| == |other|
    requires forall i :: 0 <= i < |text| ==> other[i] == text[i] || (65 <= text[i] <= 90 && other[i] == text[i] + 32)
    ensures Decoded(text) == Decoded(other)
  {
    SameDigits(text, other, 0);
  }

  lemma {:induction false} SameDigits(text: seq<bv8>, other: seq<bv8>, pads: nat)
    requires |text| == |other| && forall i :: 0 <= i < |text| ==> Digit(text[i]) == Digit(other[i])
    ensures DecodedFrom(text, pads) == DecodedFrom(other, pads)
    decreases |text|
  {
    if text != [] {
      hide Digit, RoundValues, CountPads, Octets, Join, OctetCount, Prepend, RoundSize;
      var n := RoundSize(text);
      SameSize(text, other);
      SameRound(text[..n], other[..n], pads > 0);
      match RoundValues(text[..n], pads > 0)
      case None =>
      case Some(v) => SameDigits(text[n..], other[n..], pads + CountPads(v));
    }
  }

  lemma SameSize(text: seq<bv8>, other: seq<bv8>)
    requires |text| == |other|
    ensures RoundSize(text) == RoundSize(other)
  {
  }

  lemma SameRound(chars: seq<bv8>, other: seq<bv8>, padded: bool)
    requires |chars| == |other| <= 8 && forall i :: 0 <= i < |chars| ==> Digit(chars[i]) == Digit(other[i])
    ensures RoundValues(chars, padded) == RoundValues(other, padded)
  {
    hide Digit, ReadValues;
    SameValues(chars, other, padded);
  }

  lemma {:induction false} SameValues(chars: seq<bv8>, other: seq<bv8>, padded: bool)
    requires |chars| == |other| && forall i :: 0 <= i < |chars| ==> Digit(chars[i]) == Digit(other[i])
    ensures ReadValues(chars, padded) == ReadValues(other, padded)
    decreases |chars|
  {
    if chars != [] && Digit(chars[0]).Some? {
      SameValues(chars[1..], other[1..], padded || Digit(chars[0]).value == PAD);
    }
  }

  lemma {:induction false} AcceptedFrom(text: seq<bv8>, pads: nat)
    ensures DecodedFrom(text, pads).Some? <==> ReadValues(text, pads > 0).Some?
    decreases |text|
  {
    if text != [] {
      var n := RoundSize(text);
      ReadConcat(text[..n], text[n..], pads > 0);
      assert text == text[..n] + text[n..];
      match ReadValues(text[..n], pads > 0)
      case None =>
      case Some(v) =>
        CountConcat(v, Padding(8 - n));
        if n < 8 {
          assert text[n..] == [];
        } else {
          assert v + Padding(0) == v;
          AcceptedFrom(text[n..], pads + CountPads(v));
        }
    }
  }

  lemma {:induction false} CountConcat(a: seq<bv8>, b: seq<bv8>)
    ensures CountPads(a + b) == CountPads(a) + CountPads(b)
    decreases |a|
  {
    if a == [] {
      assert a + b == b;
    } else {
      assert (a + b)[1..] == a[1..] + b;
      CountConcat(a[1..], b);
    }
  }

  lemma {:induction false} ReadConcat(a: seq<bv8>, b: seq<bv8>, padded: bool)
    ensures ReadValues(a + b, padded).Some? <==>
      ReadValues(a, padded).Some? && ReadValues(b, padded || CountPads(ReadValues(a, padded).value) > 0).Some?
    decreases |a|
  {
    if a == [] {
      assert a + b == b;
    } else {
      assert (a + b)[1..] == a[1..] + b;
      match Digit(a[0])
      case None =>
      case Some(v) =>
        ReadConcat(a[1..], b, padded || v == PAD);
        if ReadValues(a, padded).Some? {
          assert ReadValues(a, padded).value == [v] + ReadValues(a[1..], padded || v == PAD).value;
          assert ReadValues(a, padded).value[1..] == ReadValues(a[1..], padded || v == PAD).value;
        }
    }
  }

  lemma DigitPad(c: bv8)
    ensures Digit(c) == Some(PAD) <==> c == 61
  {
  }

  lemma {:induction false} ReadIff(chars: seq<bv8>, padded: bool)
    ensures ReadValues(chars, padded).Some? <==>
      && (forall i :: 0 <= i < |chars| ==> Digit(chars[i]).Some? && (padded ==> chars[i] == 61))
      && (forall i, j :: 0 <= i < j < |chars| && chars[i] == 61 ==> chars[j] == 61)
    decreases |chars|
  {
    if chars != [] {
      DigitPad(chars[0]);
      var rest := chars[1..];
      assert forall i :: 0 <= i < |rest| ==> rest[i] == chars[i + 1];
      assert forall i :: 1 <= i < |chars| ==> chars[i] == rest[i - 1];
      ReadIff(rest, padded || chars[0] == 61);
    }
  }

  /** The padded form has 8 characters for every 5 bytes begun, the compact form 8 bits for
      every 5, rounded up. */
  lemma {:induction false} EncodedLength(data: seq<bv8>, compact: bool)
    ensures |Encoded(data, compact)| == if compact then (8 * |data| + 4) / 5 else (|data| + 4) / 5 * 8
    decreases |data|
  {
    if |data| > 5 {
      EncodedLength(data[5..], compact);
      assert 8 * |data| + 4 == 8 * (|data| - 5) + 4 + 40;
    }
  }

  // ----- the program -----

  /** The first switch of a round of Encode: fall-through from the last byte to the first. */
  method FirstSwitch(b0: bv8, b1: bv8, b2: bv8, b3: bv8, b4: bv8, index: nat)
    returns (v0: bv8, v1: bv8, v2: bv8, v3: bv8, v4: bv8, v5: bv8, v6: bv8, v7: bv8)
    requires 1 <= index <= 5
    requires (index <= 1 ==> b1 == 0) && (index <= 2 ==> b2 == 0) && (index <= 3 ==> b3 == 0) && (index <= 4 ==> b4 == 0)
    ensures v0 == (b0 & 0xf8) >> 3
    ensures v1 == ((b1 & 0xc0) >> 6) | ((b0 & 0x07) << 2)
    ensures v2 == (b1 & 0x3e) >> 1
    ensures v3 == ((b2 & 0xf0) >> 4) | ((b1 & 0x01) << 4)
    ensures v4 == ((b3 & 0x80) >> 7) | ((b2 & 0x0f) << 1)
    ensures v5 == (b3 & 0x7c) >> 2
    ensures v6 == ((b4 & 0xe0) >> 5) | ((b3 & 0x03) << 3)
    ensures v7 == b4 & 0x1f
  {
    v0, v1, v2, v3, v4, v5, v6, v7 := 0, 0, 0, 0, 0, 0, 0, 0;
    if index >= 5 {
      v7 := b4 & 0x1f;
      v6 := (b4 & 0xe0) >> 5;
    }
    if index >= 4 {
      v6 := v6 | ((b3 & 0x03) << 3);
      v5 := (b3 & 0x7c) >> 2;
      v4 := (b3 & 0x80) >> 7;
    }
    if index >= 3 {
      v4 := v4 | ((b2 & 0x0f) << 1);
      v3 := (b2 & 0xf0) >> 4;
    }
    if index >= 2 {
      v3 := v3 | ((b1 & 0x01) << 4);
      v2 := (b1 & 0x3e) >> 1;
      v1 := (b1 & 0xc0) >> 6;
    }
    v1 := v1 | ((b0 & 0x07) << 2);
    v0 := (b0 & 0xf8) >> 3;
  }

  /** The second switch: what the bytes do not reach is padding. */
  method Pads(v: array<bv8>, index: nat)
    requires v.Length == 8 && 1 <= index <= 5
    modifies v
    ensures v[..] == old(v[..SymbolCount(index)]) + Padding(8 - SymbolCount(index))
  {
    if index == 1 { v[2], v[3] := PAD, PAD; }
    if index <= 2 { v[4] := PAD; }
    if index <= 3 { v[5], v[6] := PAD, PAD; }
    if index <= 4 { v[7] := PAD; }
  }

  lemma MaskedIs(b0: bv8, b1: bv8, b2: bv8, b3: bv8, b4: bv8, v0: bv8, v1: bv8, v2: bv8, v3: bv8, v4: bv8, v5: bv8, v6: bv8, v7: bv8)
    requires v0 == (b0 & 0xf8) >> 3
    requires v1 == ((b1 & 0xc0) >> 6) | ((b0 & 0x07) << 2)
    requires v2 == (b1 & 0x3e) >> 1
    requires v3 == ((b2 & 0xf0) >> 4) | ((b1 & 0x01) << 4)
    requires v4 == ((b3 & 0x80) >> 7) | ((b2 & 0x0f) << 1)
    requires v5 == (b3 & 0x7c) >> 2
    requires v6 == ((b4 & 0xe0) >> 5) | ((b3 & 0x03) << 3)
    requires v7 == b4 & 0x1f
    ensures [v0, v1, v2, v3, v4, v5, v6, v7] == Quintets(Pack(b0, b1, b2, b3, b4))
  {
  }

  method Symbols(b0: bv8, b1: bv8, b2: bv8, b3: bv8, b4: bv8, index: nat) returns (q: seq<bv8>)
    requires 1 <= index <= 5
    requires (index <= 1 ==> b1 == 0) && (index <= 2 ==> b2 == 0) && (index <= 3 ==> b3 == 0) && (index <= 4 ==> b4 == 0)
    ensures q == Quintets(Pack(b0, b1, b2, b3, b4))
  {
    hide Quintets, Pack;
    var v0, v1, v2, v3, v4, v5, v6, v7 := FirstSwitch(b0, b1, b2, b3, b4, index);
    MaskedIs(b0, b1, b2, b3, b4, v0, v1, v2, v3, v4, v5, v6, v7);
    q := [v0, v1, v2, v3, v4, v5, v6, v7];
  }

  /** One round of Encode. The check that all values are below 32 never fails. */
  method EncodeRound(b: seq<bv8>, compact: bool) returns (out: seq<bv8>)
    requires 1 <= |b| <= 5
    ensures out == Group(b, compact)
  {
    hide Quintets, Pack, Group;
    var q := Symbols(At(b, 0), At(b, 1), At(b, 2), At(b, 3), At(b, 4), |b|);
    out := Finish(q, b, compact);
  }

  method Finish(q: seq<bv8>, b: seq<bv8>, compact: bool) returns (out: seq<bv8>)
    requires 1 <= |b| <= 5 && q == Quintets(Bits(b))
    ensures out == Group(b, compact)
  {
    var v := new bv8[8](i requires 0 <= i < 8 => q[i]);
    ValuesSmall(b);
    ghost var n := SymbolCount(|b|);
    assert v[..n] == q[..n];
    Pads(v, |b|);
    assert v[..] == Values(b);
    out := Emit(v, n, compact);
  }

  /** The loop that writes the characters of a round. */
  method Emit(v: array<bv8>, ghost n: nat, compact: bool) returns (out: seq<bv8>)
    requires v.Length == 8 && n <= 8 && forall i :: 0 <= i < 8 ==> if i < n then v[i] < PAD else v[i] == PAD
    ensures out == Letters(if compact then v[..n] else v[..])
  {
    out := [];
    for i := 0 to 8
      invariant out == Letters(v[..i]) && (compact ==> i <= n)
    {
      if compact && v[i] >= 32 { break; }
      assert v[..i + 1] == v[..i] + [v[i]];
      out := out + [Letter(v[i])];
    }
    assert v[..8] == v[..];
  }

  /** Encode */
  method Encode(data: seq<bv8>, compact: bool) returns (out: seq<bv8>)
    ensures out == Encoded(data, compact)
  {
    hide Group;
    out := [];
    var i := 0;
    assert data[0..] == data;
    while i < |data|
      invariant 0 <= i <= |data| && out + Encoded(data[i..], compact) == Encoded(data, compact)
    {
      var index := if |data| - i < 5 then |data| - i else 5;
      var s := EncodeRound(data[i..i + index], compact);
      NextRound(data[i..], index, compact);
      assert data[i..][..index] == data[i..i + index] && data[i..][index..] == data[i + index..];
      assert (out + s) + Encoded(data[i + index..], compact) == out + (s + Encoded(data[i + index..], compact));
      out, i := out + s, i + index;
    }
    assert data[|data|..] == [] && out + [] == out;
  }

  lemma NextRound(rest: seq<bv8>, index: nat, compact: bool)
    requires rest != [] && index == (if |rest| < 5 then |rest| else 5)
    ensures Encoded(rest, compact) == Group(rest[..index], compact) + Encoded(rest[index..], compact)
  {
  }

  /** The loop of Decode that reads the values of a round; the padding of all rounds is counted. */
  method ReadRound(chars: seq<bv8>, pads: nat) returns (values: Option<seq<bv8>>, padding: nat)
    requires |chars| <= 8
    ensures values == RoundValues(chars, pads > 0)
    ensures values.Some? ==> padding == pads + CountPads(values.value)
  {
    var buffer: seq<bv8> := [];
    padding := pads;
    ghost var read := ReadValues(chars, pads > 0);
    PrependMore([], [], read);
    assert chars[0..] == chars;
    for index := 0 to 8
      invariant |buffer| == index && padding == pads + CountPads(buffer)
      invariant index <= |chars| ==> Continues(chars, pads, buffer, index)
      invariant index >= |chars| ==> read.Some? && buffer == read.value + Padding(index - |chars|)
    {
      var b := PAD;
      if index < |chars| {
        var digit := Digit(chars[index]);
        if digit.None? { return None, padding; }
        b := digit.value;
      }
      CountAppend(buffer, b);
      if b == PAD { padding := padding + 1; }
      if padding > 0 && b != PAD { return None, padding; }
      if index < |chars| { Continue(chars, pads, buffer, index, b); }
      buffer := buffer + [b];
      if index + 1 == |chars| {
        assert chars[index + 1..] == [] && buffer + [] == buffer;
      }
    }
    values := Some(buffer);
  }

  /** What has been read of a round, and what the rest gives. */
  predicate Continues(chars: seq<bv8>, pads: nat, buffer: seq<bv8>, index: nat)
    requires index <= |chars|
  {
    ReadValues(chars, pads > 0) == Prepend(buffer, ReadValues(chars[index..], pads + CountPads(buffer) > 0))
  }

  lemma Continue(chars: seq<bv8>, pads: nat, buffer: seq<bv8>, index: nat, b: bv8)
    requires |buffer| == index < |chars| && Digit(chars[index]) == Some(b)
    requires Continues(chars, pads, buffer, index) && (pads + CountPads(buffer) > 0 ==> b == PAD)
    ensures Continues(chars, pads, buffer + [b], index + 1)
  {
    CountAppend(buffer, b);
    assert chars[index..][1..] == chars[index + 1..];
    PrependMore(buffer, [b], ReadValues(chars[index + 1..], pads + CountPads(buffer + [b]) > 0));
  }

  lemma CountAppend(v: seq<bv8>, b: bv8)
    ensures CountPads(v + [b]) == CountPads(v) + if b == PAD then 1 else 0
  {
    CountConcat(v, [b]);
    assert [b][1..] == [];
  }

  /** The bytes of a round of Decode, masks as in the program. */
  method Octets5(v: seq<bv8>) returns (d0: bv8, d1: bv8, d2: bv8, d3: bv8, d4: bv8)
    requires |v| == 8
    ensures [d0, d1, d2, d3, d4] == Octets(Join(v))
  {
    hide Octets, Join8;
    DecodeMasks(v[0], v[1], v[2], v[3], v[4], v[5], v[6], v[7]);
    d0 := ((v[0] & 0x1F) << 3) | ((v[1] & 0x1C) >> 2);
    d1 := ((v[1] & 0x03) << 6) | ((v[2] & 0x1F) << 1) | ((v[3] & 0x10) >> 4);
    d2 := ((v[3] & 0x0F) << 4) | ((v[4] & 0x1E) >> 1);
    d3 := ((v[4] & 0x01) << 7) | ((v[5] & 0x1F) << 2) | ((v[6] & 0x18) >> 3);
    d4 := ((v[6] & 0x07) << 5) | (v[7] & 0x1F);
  }

  method DecodeRound(v: seq<bv8>, padding: nat) returns (out: seq<bv8>)
    requires |v| == 8
    ensures out == Octets(Join(v))[..OctetCount(padding)]
  {
    hide Octets, Join8;
    var d0, d1, d2, d3, d4 := Octets5(v);
    out := [d0];
    if padding <= 4 { out := out + [d1]; }
    if padding <= 3 { out := out + [d2]; }
    if padding <= 1 { out := out + [d3]; }
    if padding == 0 { out := out + [d4]; }
    assert out == [d0, d1, d2, d3, d4][..OctetCount(padding)];
  }

  /** Decode */
  method Decode(text: seq<bv8>) returns (bytes: Option<seq<bv8>>)
    ensures bytes == Decoded(text)
  {
    hide Octets, Join8, RoundValues, OctetCount;
    var out, i, padding := [], 0, 0;
    PrependMore([], [], Decoded(text));
    assert text[0..] == text;
    while i < |text|
      invariant 0 <= i <= |text|
      invariant Decoded(text) == Prepend(out, DecodedFrom(text[i..], padding))
    {
      var size := if |text| - i > 8 then 8 else |text| - i;
      assert text[i..][..size] == text[i..i + size] && text[i..][size..] == text[i + size..];
      var values, pads := ReadRound(text[i..i + size], padding);
      if values.None? { return None; }
      var s := DecodeRound(values.value, pads);
      PrependMore(out, s, DecodedFrom(text[i + size..], pads));
      out, i, padding := out + s, i + size, pads;
    }
    assert text[|text|..] == [] && out + [] == out;
    bytes := Some(out);
  }
}
