/** Gnutella2 packets and their byte encoding (the "Packet Structure" part of the Gnutella2
    specification), with the header arithmetic of g2packet/header.hpp. */
module G2Packet {
  import opened Bytes
  import opened Wrappers

  /** Bodies have to be shorter than this: their length is written in at most three bytes. */
  const BODY_LIMIT: nat := 0x100_0000

  /** The memory image of a packet type, a 64-bit number: the characters of the name, then zeros. */
  type PacketType = t: seq<byte> | |t| == 8 witness [0, 0, 0, 0, 0, 0, 0, 0]

  predicate Nonzero(b: byte) { b != 0 }

  function CountNonzero(s: seq<byte>): (n: nat)
    ensures n <= |s|
  {
    if s == [] then 0 else (if Nonzero(s[0]) then 1 else 0) + CountNonzero(s[1..])
  }

  /** NameLength counts the nonzero bytes of the type. */
  function NameLength(t: PacketType): nat { CountNonzero(t) }

  /** A name: one to eight nonzero bytes. */
  predicate IsName(t: PacketType) {
    && 1 <= NameLength(t)
    && (forall i :: 0 <= i < NameLength(t) ==> Nonzero(t[i]))
    && (forall i :: NameLength(t) <= i < 8 ==> !Nonzero(t[i]))
  }

  function NameBytes(t: PacketType): seq<byte> { t[..NameLength(t)] }

  /** The number of bytes of a length, without leading zero bytes. */
  function LenLength(len: nat): nat {
    if len == 0 then 0 else 1 + LenLength(len / 256)
  }

  function FromLittleEndian(s: seq<byte>): nat {
    if s == [] then 0 else s[0] + 256 * FromLittleEndian(s[1..])
  }

  lemma {:induction false} LittleEndianRoundTrip(value: nat)
    ensures FromLittleEndian(LittleEndian(value, LenLength(value))) == value
    decreases value
  {
    if value > 0 { LittleEndianRoundTrip(value / 256); }
  }

  lemma LenLengthBound(len: nat)
    requires len < BODY_LIMIT
    ensures LenLength(len) <= 3
  {
    var a, b, c := len / 256, len / 256 / 256, len / 256 / 256 / 256;
    assert a < 0x1_0000 && b < 0x100 && c == 0;
    assert LenLength(a) <= 1 + LenLength(b) <= 2 + LenLength(c);
  }

  /** The control byte: length of the length, length of the name, compound flag. */
  function Control(lenLen: nat, t: PacketType, compound: bool): nat
    requires NameLength(t) >= 1
  {
    lenLen * 64 + (NameLength(t) - 1) * 8 + if compound then 4 else 0
  }

  // ----- packets -----

  /** payload is None if nothing was ever written after the children, not even an empty string. */
  datatype Packet = Packet(ptype: PacketType, children: seq<Packet>, payload: Option<seq<byte>>)

  function PayloadBytes(payload: Option<seq<byte>>): seq<byte> {
    if payload.Some? then payload.value else []
  }

  /** What follows the children: in a compound packet a zero byte announces the payload. */
  function Tail(compound: bool, payload: Option<seq<byte>>): seq<byte> {
    (if compound && payload.Some? then [0] else []) + PayloadBytes(payload)
  }

  function Body(p: Packet): seq<byte>
    decreases p, 0
  {
    EncAll(p.children) + Tail(p.children != [], p.payload)
  }

  ghost predicate WellFormed(p: Packet)
    decreases p
  {
    && IsName(p.ptype)
    && |Body(p)| < BODY_LIMIT
    && forall c :: c in p.children ==> WellFormed(c)
  }

  function Header(p: Packet): seq<byte>
    decreases p, 1
  {
    var n := |Body(p)|;
    if IsName(p.ptype) && n < BODY_LIMIT then
      LenLengthBound(n);
      [Control(LenLength(n), p.ptype, p.children != [])] + LittleEndian(n, LenLength(n)) + NameBytes(p.ptype)
    else []
  }

  function Enc(p: Packet): seq<byte>
    decreases p, 2
  {
    Header(p) + Body(p)
  }

  function EncAll(ps: seq<Packet>): seq<byte>
    decreases ps, 0
  {
    if ps == [] then [] else Enc(ps[0]) + EncAll(ps[1..])
  }

  // ----- the wire format -----

  /** The header of a packet whose body has n bytes: a control byte, the length of the body in as few
      bytes as can hold it, lowest first, and the characters of the name. */
  ghost predicate IsHeader(s: seq<byte>, ptype: PacketType, compound: bool, n: nat) {
    exists lenLen, nameLen :: HeaderOf(s, ptype, compound, n, lenLen, nameLen)
  }

  ghost predicate HeaderOf(s: seq<byte>, ptype: PacketType, compound: bool, n: nat, lenLen: nat, nameLen: nat) {
    && lenLen <= 3 && n < Pow256(lenLen) && (lenLen > 0 ==> n >= Pow256(lenLen - 1))
    && 1 <= nameLen <= 8 && (forall i :: 0 <= i < 8 ==> (ptype[i] != 0 <==> i < nameLen))
    && |s| == 1 + lenLen + nameLen
    && s[0] == 64 * lenLen + 8 * (nameLen - 1) + (if compound then 4 else 0)
    && (forall i :: 1 <= i <= lenLen ==> s[i] == ByteOf(n, i - 1))
    && s[1 + lenLen..] == ptype[..nameLen]
  }

  /** A packet is its header and its body; the body is the children one after the other, and the payload,
      behind a zero byte if there are children. */
  ghost predicate IsPacket(s: seq<byte>, p: Packet)
    decreases p
  {
    exists header: seq<byte>, pieces: seq<seq<byte>>, body: seq<byte> :: IsSplit(s, p, header, pieces, body) &&
      forall i :: 0 <= i < |p.children| ==> IsPacket(pieces[i], p.children[i])
  }

  ghost predicate IsSplit(s: seq<byte>, p: Packet, header: seq<byte>, pieces: seq<seq<byte>>, body: seq<byte>) {
    && |pieces| == |p.children| && IsBody(body, p, pieces)
    && s == header + body && IsHeader(header, p.ptype, p.children != [], |body|)
  }

  ghost predicate IsBody(body: seq<byte>, p: Packet, pieces: seq<seq<byte>>) {
    match p.payload
    case None => body == Joined(pieces)
    case Some(data) => body == Joined(pieces) + (if p.children == [] then data else [0] + data)
  }

  /** Exactly the encoding of a well-formed packet has that form. */
  lemma {:induction false} EncIsPacket(p: Packet, s: seq<byte>)
    requires WellFormed(p)
    ensures IsPacket(s, p) <==> s == Enc(p)
    decreases p
  {
    assert forall i :: 0 <= i < |p.children| ==> WellFormed(p.children[i]);
    hide WellFormed, Enc;
    if IsPacket(s, p) {
      var header: seq<byte>, pieces: seq<seq<byte>>, body: seq<byte> :| IsSplit(s, p, header, pieces, body) &&
        forall i :: 0 <= i < |p.children| ==> IsPacket(pieces[i], p.children[i]);
      forall i | 0 <= i < |p.children| ensures pieces[i] == Enc(p.children[i]) { EncIsPacket(p.children[i], pieces[i]); }
      SplitIsEnc(p, s, header, pieces, body);
    }
    if s == Enc(p) {
      var pieces := EncSplits(p);
      forall i | 0 <= i < |p.children| ensures IsPacket(pieces[i], p.children[i]) { EncIsPacket(p.children[i], pieces[i]); }
    }
  }

  lemma SplitIsEnc(p: Packet, s: seq<byte>, header: seq<byte>, pieces: seq<seq<byte>>, body: seq<byte>)
    requires WellFormed(p) && IsSplit(s, p, header, pieces, body)
    requires forall i :: 0 <= i < |p.children| ==> pieces[i] == Enc(p.children[i])
    ensures s == Enc(p)
  {
    hide IsHeader, IsBody;
    PiecesAre(p, pieces);
    BodyIs(p, pieces, body);
    HeaderIs(p, header);
  }

  lemma EncSplits(p: Packet) returns (pieces: seq<seq<byte>>)
    requires WellFormed(p)
    ensures IsSplit(Enc(p), p, Header(p), pieces, Body(p))
    ensures forall i :: 0 <= i < |p.children| ==> pieces[i] == Enc(p.children[i])
  {
    pieces := seq(|p.children|, i requires 0 <= i < |p.children| => Enc(p.children[i]));
    hide IsHeader, IsBody;
    PiecesAre(p, pieces);
    BodyIs(p, pieces, Body(p));
    HeaderIs(p, Header(p));
  }

  lemma PiecesAre(p: Packet, pieces: seq<seq<byte>>)
    requires |pieces| == |p.children| && forall i :: 0 <= i < |pieces| ==> pieces[i] == Enc(p.children[i])
    ensures Joined(pieces) == EncAll(p.children)
  {
    JoinedEncodings(p.children, pieces, |pieces|);
    assert pieces[..|pieces|] == pieces && p.children[..|pieces|] == p.children;
  }

  lemma {:induction false} JoinedEncodings(ps: seq<Packet>, pieces: seq<seq<byte>>, n: nat)
    requires n <= |pieces| == |ps| && forall i :: 0 <= i < |pieces| ==> pieces[i] == Enc(ps[i])
    ensures Joined(pieces[..n]) == EncAll(ps[..n])
    decreases n
  {
    if n == 0 {
      NothingJoined(ps, pieces);
    } else {
      hide Enc, EncAll;
      JoinedEncodings(ps, pieces, n - 1);
      assert pieces[..n][..n - 1] == pieces[..n - 1] && ps[..n] == ps[..n - 1] + [ps[n - 1]];
      EncAllConcat(ps[..n - 1], [ps[n - 1]]);
      OneChild(ps[n - 1]);
    }
  }

  lemma NothingJoined(ps: seq<Packet>, pieces: seq<seq<byte>>)
    ensures Joined(pieces[..0]) == EncAll(ps[..0])
  {
  }

  lemma BodyIs(p: Packet, pieces: seq<seq<byte>>, body: seq<byte>)
    requires Joined(pieces) == EncAll(p.children)
    ensures IsBody(body, p, pieces) <==> body == Body(p)
  {
  }

  lemma HeaderIs(p: Packet, h: seq<byte>)
    requires IsName(p.ptype) && |Body(p)| < BODY_LIMIT
    ensures IsHeader(h, p.ptype, p.children != [], |Body(p)|) <==> h == Header(p)
  {
    var n, compound := |Body(p)|, p.children != [];
    hide Body;
    LenLengthBound(n);
    LenLengthIs(n, LenLength(n));
    NameLengthIs(p.ptype, NameLength(p.ptype));
    assert Header(p) == HeaderBytes(n, p.ptype, compound);
    HeaderBytesAre(n, p.ptype, compound);
    if IsHeader(h, p.ptype, compound, n) {
      var lenLen: nat, nameLen: nat :| HeaderOf(h, p.ptype, compound, n, lenLen, nameLen);
      LenLengthIs(n, lenLen);
      NameLengthIs(p.ptype, nameLen);
      SameHeader(h, Header(p), p.ptype, compound, n, lenLen, nameLen);
    }
  }

  function HeaderBytes(n: nat, t: PacketType, compound: bool): seq<byte>
    requires IsName(t) && n < BODY_LIMIT
  {
    LenLengthBound(n);
    [Control(LenLength(n), t, compound)] + LittleEndian(n, LenLength(n)) + NameBytes(t)
  }

  lemma HeaderBytesAre(n: nat, t: PacketType, compound: bool)
    requires IsName(t) && n < BODY_LIMIT
    ensures HeaderOf(HeaderBytes(n, t, compound), t, compound, n, LenLength(n), NameLength(t))
  {
    LenLengthBound(n);
    LenLengthIs(n, LenLength(n));
    hide LittleEndian, LenLength;
    var s, lenLen := HeaderBytes(n, t, compound), LenLength(n);
    forall i | 1 <= i <= lenLen ensures s[i] == ByteOf(n, i - 1) {
      LittleEndianDigit(n, lenLen, i - 1);
    }
  }

  lemma SameHeader(s: seq<byte>, h: seq<byte>, t: PacketType, compound: bool, n: nat, lenLen: nat, nameLen: nat)
    requires HeaderOf(s, t, compound, n, lenLen, nameLen) && HeaderOf(h, t, compound, n, lenLen, nameLen)
    ensures s == h
  {
    hide ByteOf;
    assert s == s[..1 + lenLen] + s[1 + lenLen..] && h == h[..1 + lenLen] + h[1 + lenLen..];
  }

  /** The length bytes are as few as can hold the length. */
  lemma {:induction false} LenLengthIs(n: nat, k: nat)
    ensures k == LenLength(n) <==> n < Pow256(k) && (k > 0 ==> n >= Pow256(k - 1))
    decreases n
  {
    if n > 0 && k > 0 {
      LenLengthIs(n / 256, k - 1);
      if k > 1 { assert Pow256(k - 1) == 256 * Pow256(k - 2); }
    }
  }

  lemma NameLengthIs(t: PacketType, k: nat)
    requires k <= 8 && forall i :: 0 <= i < 8 ==> (t[i] != 0 <==> i < k)
    ensures NameLength(t) == k
  {
    CountPrefix(t, k);
  }

  lemma {:induction false} CountPrefix(s: seq<byte>, k: nat)
    requires k <= |s| && forall i :: 0 <= i < |s| ==> (s[i] != 0 <==> i < k)
    ensures CountNonzero(s) == k
    decreases |s|
  {
    if s != [] { CountPrefix(s[1..], if k > 0 then k - 1 else 0); }
  }

  lemma OneChild(c: Packet)
    ensures EncAll([c]) == Enc(c)
  {
    assert EncAll([c]) == Enc(c) + EncAll([]);
  }

  lemma {:induction false} EncAllConcat(a: seq<Packet>, b: seq<Packet>)
    ensures EncAll(a + b) == EncAll(a) + EncAll(b)
    decreases |a|
  {
    if a == [] {
      assert a + b == b;
    } else {
      assert (a + b)[1..] == a[1..] + b;
      EncAllConcat(a[1..], b);
    }
  }
}
