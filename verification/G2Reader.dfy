/** The packet reader (g2packet/reader.cpp, reader.hpp, header.hpp). */
module G2Reader {
  import opened Bytes
  import opened Wrappers
  import opened G2Packet

  datatype HeaderInfo = HeaderInfo(ptype: PacketType, compound: bool, endian: bool, dataSize: nat, headerSize: nat, packetSize: nat)

  /** Header::Decode of the bytes at hand. */
  function Decode(s: seq<byte>): Result<HeaderInfo> {
    if s == [] then Failure("Control byte not found") else
    var cb := s[0];
    var lenLen, nameLen := cb / 64, cb / 8 % 8 + 1;
    var headerSize := 1 + lenLen + nameLen;
    if headerSize > |s| then Failure("No space for header") else
    var dataSize := FromLittleEndian(s[1..1 + lenLen]);
    var ptype := s[1 + lenLen..headerSize] + seq(8 - nameLen, _ => 0);
    Success(HeaderInfo(ptype, cb / 4 % 2 == 1, cb / 2 % 2 == 1, dataSize, headerSize, dataSize + headerSize))
  }

  /** A header is what its control byte says: two bits for the length of the length, three for the length of the
      name, one flag for children and one for the byte order. It is refused only if it is cut short. */
  lemma DecodeIs(s: seq<byte>)
    ensures Decode(s).Failure? <==> s == [] || |s| < 2 + s[0] / 64 + s[0] / 8 % 8
    ensures Decode(s).Success? ==>
      var h, lenLen, nameLen := Decode(s).value, s[0] / 64, s[0] / 8 % 8 + 1;
      && h.headerSize == 1 + lenLen + nameLen && h.packetSize == h.headerSize + h.dataSize
      && h.compound == (s[0] / 4 % 2 == 1) && h.endian == (s[0] / 2 % 2 == 1)
      && h.dataSize < Pow256(lenLen) && (forall i :: 1 <= i <= lenLen ==> s[i] == ByteOf(h.dataSize, i - 1))
      && h.ptype[..nameLen] == s[1 + lenLen..1 + lenLen + nameLen] && forall i :: nameLen <= i < 8 ==> h.ptype[i] == 0
  {
    if Decode(s).Success? {
      var lenLen := s[0] / 64;
      DigitsOf(s[1..1 + lenLen]);
      forall i | 1 <= i <= lenLen ensures s[i] == ByteOf(Decode(s).value.dataSize, i - 1) {
        assert s[i] == s[1..1 + lenLen][i - 1];
      }
    }
  }

  lemma {:induction false} DigitsOf(d: seq<byte>)
    ensures FromLittleEndian(d) < Pow256(|d|) && forall i :: 0 <= i < |d| ==> d[i] == ByteOf(FromLittleEndian(d), i)
    decreases |d|
  {
    if d != [] {
      var v := FromLittleEndian(d);
      DigitsOf(d[1..]);
      assert v / 256 == FromLittleEndian(d[1..]) && v % 256 == d[0];
      hide FromLittleEndian, ByteOf;
      forall i | 0 <= i < |d| ensures d[i] == ByteOf(v, i) {
        NextDigit(v, i);
        assert i > 0 ==> d[1..][i - 1] == d[i];
      }
    }
  }

  lemma NextDigit(v: nat, i: nat)
    ensures ByteOf(v, i) == if i == 0 then v % 256 else ByteOf(v / 256, i - 1)
  {
    if i > 0 { DivideTwice(v, Pow256(i - 1)); }
  }

  /** What decoding the encoding of p should give. */
  function Info(p: Packet): HeaderInfo {
    HeaderInfo(p.ptype, p.children != [], false, |Body(p)|, |Header(p)|, |Enc(p)|)
  }

  lemma DecodeEnc(p: Packet, rest: seq<byte>)
    requires WellFormed(p)
    ensures Decode(Enc(p) + rest) == Success(Info(p))
    ensures |Header(p)| >= 2
  {
    hide Body, LittleEndian, NameBytes;
    var n := |Body(p)|;
    var lenLen, name := LenLength(n), NameBytes(p.ptype);
    var cb := Control(lenLen, p.ptype, p.children != []);
    LenLengthBound(n);
    ControlParts(lenLen, p.ptype, p.children != []);
    LittleEndianRoundTrip(n);
    NamePadding(p.ptype);
    assert Header(p) == [cb] + LittleEndian(n, lenLen) + name;
    assert Enc(p) + rest == [cb] + LittleEndian(n, lenLen) + name + (Body(p) + rest);
    Slices(cb, LittleEndian(n, lenLen), name, Body(p) + rest);
  }

  lemma Slices(cb: byte, len: seq<byte>, name: seq<byte>, rest: seq<byte>)
    ensures var s := [cb] + len + name + rest;
      s[0] == cb && s[1..1 + |len|] == len && s[1 + |len|..1 + |len| + |name|] == name
  {
  }

  lemma ControlParts(lenLen: nat, t: PacketType, compound: bool)
    requires lenLen <= 3 && IsName(t)
    ensures var cb := Control(lenLen, t, compound);
      cb < 256 && cb / 64 == lenLen && cb / 8 % 8 + 1 == NameLength(t) && cb / 2 % 2 == 0 && (cb / 4 % 2 == 1) == compound
  {
  }

  lemma NamePadding(t: PacketType)
    requires IsName(t)
    ensures NameBytes(t) + seq(8 - NameLength(t), _ => 0) == t
  {
  }

  // ----- what a reader can see of a packet -----

  /** An empty packet with a one-character name: its control byte is 0, which is also the
      mark that ends a list of children. */
  predicate Marker(p: Packet) {
    Enc(p) != [] && Enc(p)[0] == 0
  }

  /** The children before the first one that reads as the end of the list. */
  function Visible(ps: seq<Packet>): (n: nat)
    ensures n <= |ps|
  {
    if ps == [] || Marker(ps[0]) then 0 else 1 + Visible(ps[1..])
  }

  lemma {:induction false} VisibleAt(ps: seq<Packet>, k: nat)
    requires k <= Visible(ps)
    ensures k < Visible(ps) ==> !Marker(ps[k])
    ensures k == Visible(ps) < |ps| ==> Marker(ps[k])
    decreases k
  {
    if k > 0 { VisibleAt(ps[1..], k - 1); }
  }

  /** The bytes of the body from child k on. */
  function From(p: Packet, k: nat): seq<byte>
    requires k <= |p.children|
  {
    EncAll(p.children[k..]) + Tail(p.children != [], p.payload)
  }

  function StartOf(p: Packet, k: nat): nat
    requires k <= |p.children|
  {
    |Header(p)| + |EncAll(p.children[..k])|
  }

  /** The bytes that are read as the payload. */
  function Rest(p: Packet): seq<byte> {
    var after := From(p, Visible(p.children));
    if p.children == [] || after == [] then after else after[1..]
  }

  /** The packet as a reader sees it. */
  function View(p: Packet): Packet
    decreases p, 0
  {
    Packet(p.ptype, ViewAll(p.children, Visible(p.children)), Some(Rest(p)))
  }

  function ViewAll(ps: seq<Packet>, n: nat): seq<Packet>
    requires n <= |ps|
    decreases ps, n
  {
    if n == 0 then [] else ViewAll(ps, n - 1) + [View(ps[n - 1])]
  }

  lemma FromStart(p: Packet, k: nat)
    requires k <= |p.children|
    ensures StartOf(p, k) + |From(p, k)| == |Enc(p)|
    ensures Enc(p)[StartOf(p, k)..] == From(p, k)
  {
    hide Header, EncAll, Tail;
    var cs := p.children;
    assert cs == cs[..k] + cs[k..];
    EncAllConcat(cs[..k], cs[k..]);
    assert Enc(p) == Header(p) + EncAll(cs[..k]) + From(p, k);
  }

  lemma FromStep(p: Packet, k: nat)
    requires k < |p.children|
    ensures From(p, k) == Enc(p.children[k]) + From(p, k + 1)
    ensures StartOf(p, k + 1) == StartOf(p, k) + |Enc(p.children[k])|
  {
    hide Header, Enc, EncAll, Tail;
    var cs := p.children;
    OneChild(cs[k]);
    assert cs[k..] == [cs[k]] + cs[k + 1..] && cs[..k + 1] == cs[..k] + [cs[k]];
    EncAllConcat([cs[k]], cs[k + 1..]);
    EncAllConcat(cs[..k], [cs[k]]);
  }

  /** At a child the next byte is not 0; behind the visible children it is, if there is one. */
  lemma NextByte(p: Packet, k: nat)
    requires WellFormed(p) && k <= Visible(p.children)
    ensures k < Visible(p.children) ==> From(p, k) != [] && From(p, k)[0] != 0
    ensures k == Visible(p.children) && p.children != [] && From(p, k) != [] ==> From(p, k)[0] == 0
  {
    VisibleAt(p.children, k);
    if k < |p.children| {
      FromStep(p, k);
      DecodeEnc(p.children[k], []);
    }
  }

  /** What a reader that has just advanced to child k, or behind the last visible one, finds. */
  lemma AtChild(p: Packet, k: nat)
    requires WellFormed(p) && k <= Visible(p.children)
    ensures StartOf(p, k) <= |Enc(p)| && Enc(p)[StartOf(p, k)..] == From(p, k)
    ensures k < Visible(p.children) ==>
      && From(p, k) != [] && From(p, k)[0] != 0
      && Decode(From(p, k)) == Success(Info(p.children[k]))
      && StartOf(p, k) + |Enc(p.children[k])| == StartOf(p, k + 1) <= |Enc(p)|
      && Enc(p.children[k]) <= From(p, k) && Enc(p.children[k]) != []
    ensures k == Visible(p.children) && p.children != [] && From(p, k) != [] ==> From(p, k)[0] == 0
  {
    FromStart(p, k);
    NextByte(p, k);
    if k < Visible(p.children) {
      FromStep(p, k);
      FromStart(p, k + 1);
      DecodeEnc(p.children[k], From(p, k + 1));
    }
  }

  /** The fields of a reader of p before its first child (at == -1), at child number at, or
      in its payload with `taken` bytes read. */
  ghost predicate Position(p: Packet, at: int, taken: nat, offset: nat, compound: bool, header: HeaderInfo) {
    var visible := Visible(p.children);
    && -1 <= at <= visible
    && (at < visible ==> taken == 0 && compound == (p.children != []))
    && (at == -1 ==> offset == 0 && header == Info(p))
    && (0 <= at < visible ==> offset == StartOf(p, at) && header == Info(p.children[at]))
    && (at == visible ==>
      && taken <= |Rest(p)| && offset + |Rest(p)| == |Enc(p)| + taken
      && offset > 0 && (compound ==> offset == |Enc(p)|))
  }

  lemma TypeAt(p: Packet, at: int, taken: nat, offset: nat, compound: bool, header: HeaderInfo)
    requires Position(p, at, taken, offset, compound, header) && 0 <= at < Visible(p.children)
    ensures header.ptype == p.children[at].ptype
  {
  }

  /** What lies ahead of a reader that is not behind the last visible child yet. */
  lemma Ahead(p: Packet, at: int, taken: nat, offset: nat, compound: bool, header: HeaderInfo)
    requires WellFormed(p) && Position(p, at, taken, offset, compound, header) && at < Visible(p.children)
    ensures offset < |Enc(p)| && (at >= 0 ==> compound && offset > 0)
    ensures offset + (if at == -1 then header.headerSize else header.packetSize) == StartOf(p, at + 1) <= |Enc(p)|
  {
    AtChild(p, at + 1);
    if at >= 0 {
      AtChild(p, at);
      DecodeEnc(p, []);
    } else {
      DecodeEnc(p, []);
      assert p.children[..0] == [];
    }
  }

  /** What a reader finds that has advanced to child k or behind the visible children. */
  lemma Arrived(p: Packet, k: nat, s: seq<byte>, header: HeaderInfo)
    requires WellFormed(p) && k <= Visible(p.children)
    requires StartOf(p, k) <= |Enc(p)| && s == Enc(p)[StartOf(p, k)..]
    ensures s == [] ==> k == Visible(p.children) && Position(p, k, 0, |Enc(p)|, p.children != [], header)
    ensures s != [] && p.children != [] && s[0] == 0 ==>
      k == Visible(p.children) && Position(p, k, 0, StartOf(p, k) + 1, false, header)
    ensures s != [] && p.children != [] && s[0] != 0 ==>
      && k < Visible(p.children) && Decode(s).Success?
      && Position(p, k, 0, StartOf(p, k), true, Decode(s).value)
      && Decode(s).value.packetSize >= Decode(s).value.headerSize >= 2
    ensures s != [] && p.children == [] ==>
      k == Visible(p.children) && Position(p, k, 0, StartOf(p, k), false, header)
  {
    AtChild(p, k);
    FromStart(p, k);
    DecodeEnc(p, []);
    if k < Visible(p.children) { DecodeEnc(p.children[k], []); }
  }

  class Reader {
    var data: seq<byte>
    var size: nat
    var offset: nat
    var compound: bool
    var header: HeaderInfo

    /** The packet whose encoding is being read, if there is one, and the position in it. */
    ghost var packet: Option<Packet>
    ghost var at: int
    ghost var taken: nat

    ghost predicate Valid()
      reads this
    {
      && offset <= size <= |data|
      && (offset < size ==> 2 <= header.headerSize <= header.packetSize)
      && (packet.Some? ==>
        && WellFormed(packet.value) && data[..size] == Enc(packet.value)
        && Position(packet.value, at, taken, offset, compound, header))
    }

    ghost function Last(): int
      reads this
    {
      if packet.Some? then Visible(packet.value.children) else 0
    }

    constructor ()
      ensures Valid() && packet == None
    {
      data, size, offset, compound := [], 0, 0, false;
      header := HeaderInfo(seq(8, _ => 0), false, false, 0, 0, 0);
      packet, at, taken := None, 0, 0;
    }

    /** Assign: start reading the packet at the front of the given bytes. */
    method Assign(bytes: seq<byte>, ghost p: Option<Packet>) returns (r: Result<()>)
      requires p.Some? ==> WellFormed(p.value) && Enc(p.value) <= bytes
      modifies this
      ensures r.Success? ==> Valid() && data == bytes && packet == p && at == -1 && offset == 0 && size > 0
      ensures p.Some? ==> r.Success?
    {
      hide Enc, WellFormed, Visible, StartOf, Rest;
      if p.Some? {
        assert bytes == Enc(p.value) + bytes[|Enc(p.value)|..];
        DecodeEnc(p.value, bytes[|Enc(p.value)|..]);
      }
      data, offset := bytes, 0;
      var h := Decode(bytes);
      if h.Failure? { return Failure(h.error); }
      header := h.value;
      size := header.packetSize;
      if size > |bytes| { return Failure("No space for packet"); }
      compound := header.compound;
      packet, at, taken := p, -1, 0;
      return Success(());
    }

    predicate AtPacket()
      reads this
    {
      compound && offset != 0 && offset < size
    }

    /** Next: go to the next child, or behind the last one; false if there is none. */
    method Next() returns (more: Result<bool>)
      requires Valid()
      modifies this`offset, this`compound, this`header, this`at
      ensures Valid()
      ensures offset >= old(offset) && (more.Success? && more.value ==> offset > old(offset))
      ensures more.Success? && !more.value ==> offset == size || !compound
      ensures packet.Some? ==> more.Success? && more.value == (at < Last())
      ensures packet.Some? ==> at == if old(at) < Last() then old(at) + 1 else old(at)
    {
      if packet.Some? && at < Last() { Ahead(packet.value, at, taken, offset, compound, header); }
      if offset == size { return Success(false); }
      if offset == 0 {
        if header.headerSize > size { return Failure("offset > size"); }
        more := Settle(header.headerSize);
      } else if compound {
        if offset + header.packetSize > size { return Failure("offset > size"); }
        more := Settle(header.packetSize);
      } else {
        return Success(false);
      }
    }

    /** The rest of Next once the size n of what to skip is known and fits. */
    method Settle(n: nat) returns (more: Result<bool>)
      requires Valid() && offset + n <= size && n >= 2
      requires packet.Some? ==> at < Last() && offset + n == StartOf(packet.value, at + 1)
      modifies this`offset, this`compound, this`header, this`at
      ensures Valid() && offset > old(offset)
      ensures more.Success? && !more.value ==> offset == size || !compound
      ensures packet.Some? ==> more == Success(at < Last()) && at == old(at) + 1
    {
      hide Enc, WellFormed, Visible, Rest, Info, StartOf;
      offset := offset + n;
      at := at + 1;
      if packet.Some? {
        FromStart(packet.value, at);
        PrefixSlice(data, size, offset, size);
        Arrived(packet.value, at, data[offset..size], header);
      }
      if offset == size { return Success(false); }
      assert data[offset] == data[offset..size][0];
      if compound && data[offset] == 0 {
        offset := offset + 1;
        compound := false;
      }
      if compound {
        var h := Decode(data[offset..size]);
        if h.Failure? { return Failure(h.error); }
        header := h.value;
      }
      return Success(compound);
    }

    /** SkipPackets: go behind the last child. */
    method SkipPackets() returns (r: Result<()>)
      requires Valid()
      modifies this`offset, this`compound, this`header, this`at
      ensures Valid() && (r.Success? ==> offset == size || !compound)
      ensures packet.Some? ==> r.Success? && at == Last()
    {
      var more := Next();
      while more.Success? && more.value
        invariant Valid()
        invariant more.Success? && !more.value ==> offset == size || !compound
        invariant packet.Some? ==> more.Success? && more.value == (at < Last())
        decreases size - offset, more.Success? && more.value
      {
        more := Next();
      }
      if more.Failure? { return Failure(more.error); }
      return Success(());
    }

    /** Follow: a reader of the child at hand, or of the first child. */
    method Follow() returns (r: Result<Reader>)
      requires Valid()
      modifies this`offset, this`compound, this`header, this`at
      ensures Valid() && (old(offset) != 0 ==> offset == old(offset) && compound == old(compound) && at == old(at) && header == old(header))
      ensures r.Success? ==> fresh(r.value) && r.value.Valid() && r.value.offset == 0
      ensures packet.None? && r.Success? ==> compound
      ensures packet.Some? && (old(at) == Last() || Last() == 0) ==> r.Failure?
      ensures packet.Some? && -1 <= old(at) < Last() && 0 < Last() ==>
        && at == (if old(at) == -1 then 0 else old(at))
        && r.Success? && r.value.at == -1 && r.value.packet == Some(packet.value.children[at])
    {
      hide Enc, Decode, Visible, Info, Rest;
      ghost var p := packet;
      if offset == 0 {
        var more := Next();
        if more.Failure? { return Failure(more.error); }
      }
      if !compound { return Failure("Not a packet"); }
      var child := new Reader();
      ghost var inner: Option<Packet> := None;
      if packet.Some? && at < Last() {
        AtChild(packet.value, at);
        PrefixSlice(data, size, offset, size);
        inner := Some(packet.value.children[at]);
      }
      var ok := child.Assign(data[offset..size], inner);
      if ok.Failure? { return Failure(ok.error); }
      return Success(child);
    }

    /** BytesLeft: of the child at hand, or unread bytes of the payload. */
    method BytesLeft() returns (n: Result<nat>)
      requires Valid()
      modifies this`offset, this`compound, this`header, this`at
      ensures Valid() && (n.Success? && !old(AtPacket()) ==> (offset == size || !compound) && n.value == size - offset)
      ensures packet.Some? && 0 <= old(at) < Last() ==> at == old(at) && n == Success(|Rest(packet.value.children[at])|)
      ensures packet.Some? && !(0 <= old(at) < Last()) ==> at == Last() && n == Success(|Rest(packet.value)| - taken)
      decreases AtPacket()
    {
      hide Enc, WellFormed, Decode, Visible, Info, StartOf, Rest;
      if packet.Some? && 0 <= at < Last() { Ahead(packet.value, at, taken, offset, compound, header); }
      if AtPacket() {
        var child := Follow();
        if child.Failure? { return Failure(child.error); }
        n := child.value.BytesLeft();
        return;
      }
      var ok := SkipPackets();
      if ok.Failure? { return Failure(ok.error); }
      return Success(size - offset);
    }

    /** Skip some bytes of the payload. */
    method Skip(length: nat) returns (r: Result<()>)
      requires Valid()
      modifies this`offset, this`compound, this`header, this`at, this`taken
      ensures Valid() && (r.Success? ==> offset == size || !compound)
      ensures packet.Some? ==> at == Last() && r.Success? == (old(taken) + length <= |Rest(packet.value)|)
      ensures packet.Some? ==> taken == if r.Success? then old(taken) + length else old(taken)
      ensures packet.Some? && r.Failure? ==> r.error == "bad range"
    {
      r := SkipPackets();
      if r.Failure? { return; }
      var left := BytesLeft();
      if left.Failure? { return Failure(left.error); }
      if left.value < length { return Failure("bad range"); }
      offset := offset + length;
      taken := taken + length;
      return Success(());
    }

    /** Read: `length` payload bytes behind the next `off`; of the child at hand if there is one. */
    method Read(length: nat, off: nat) returns (out: Result<seq<byte>>)
      requires Valid()
      modifies this`offset, this`compound, this`header, this`at, this`taken
      ensures Valid()
      ensures packet.Some? && 0 <= old(at) < Last() ==>
        && at == old(at) && taken == old(taken)
        && out == Piece(Rest(packet.value.children[at]), off, length)
      ensures packet.Some? && !(0 <= old(at) < Last()) ==>
        && at == Last()
        && out == Piece(Rest(packet.value), old(taken) + off, length)
        && (out.Success? ==> taken == old(taken) + off + length)
      decreases AtPacket()
    {
      hide Enc, WellFormed, Decode, Visible, Info, StartOf, Rest;
      if packet.Some? && 0 <= at < Last() { Ahead(packet.value, at, taken, offset, compound, header); }
      if AtPacket() {
        var child := Follow();
        if child.Failure? { return Failure(child.error); }
        out := child.value.Read(length, off);
      } else {
        out := ReadHere(length, off);
      }
    }

    /** Read behind the last child. */
    method ReadHere(length: nat, off: nat) returns (out: Result<seq<byte>>)
      requires Valid()
      modifies this`offset, this`compound, this`header, this`at, this`taken
      ensures Valid()
      ensures packet.Some? ==> at == Last() && out == Piece(Rest(packet.value), old(taken) + off, length)
      ensures packet.Some? && out.Success? ==> taken == old(taken) + off + length
    {
      hide Enc, WellFormed, Decode, Visible, Info, StartOf, Rest;
      var ok := Skip(off);
      if ok.Failure? { return Failure(ok.error); }
      var left := BytesLeft();
      if left.Failure? { return Failure(left.error); }
      if left.value < length { return Failure("bad range"); }
      if packet.Some? {
        RestPiece(packet.value, taken, offset, length);
        PrefixSlice(data, size, offset, offset + length);
      }
      out := Success(data[offset..offset + length]);
      offset := offset + length;
      taken := taken + length;
    }

    /** Contains: whether some child that can be seen has the given type. */
    method Contains(ptype: PacketType) returns (found: Result<bool>)
      requires Valid() && size > 0
      ensures packet.Some? ==> found == Success(exists c :: c in packet.value.children[..Last()] && c.ptype == ptype)
    {
      hide Enc, WellFormed, Decode, Visible, StartOf, Rest, Position;
      var r := new Reader();
      var ok := r.Assign(data[..size], packet);
      if ok.Failure? { return Failure(ok.error); }
      var more := r.Next();
      while more.Success? && more.value
        invariant r.Valid() && fresh(r) && r.packet == packet
        invariant packet.Some? ==> more.Success? && more.value == (r.at < Last()) && 0 <= r.at <= Last()
        invariant packet.Some? ==> forall j :: 0 <= j < r.at ==> packet.value.children[j].ptype != ptype
        decreases r.size - r.offset, more.Success? && more.value
      {
        if packet.Some? { TypeAt(packet.value, r.at, r.taken, r.offset, r.compound, r.header); }
        if r.header.ptype == ptype {
          assert packet.Some? ==> packet.value.children[r.at] in packet.value.children[..Last()];
          return Success(true);
        }
        more := r.Next();
      }
      if more.Failure? { return Failure(more.error); }
      return Success(false);
    }
  }

  function Piece(payload: seq<byte>, from: nat, length: nat): Result<seq<byte>> {
    if from + length <= |payload| then Success(payload[from..from + length]) else Failure("bad range")
  }

  lemma RestPiece(p: Packet, taken: nat, offset: nat, length: nat)
    requires WellFormed(p) && taken + length <= |Rest(p)| && offset + |Rest(p)| == |Enc(p)| + taken
    ensures offset + length <= |Enc(p)| && Enc(p)[offset..offset + length] == Rest(p)[taken..taken + length]
  {
    hide Enc, Rest;
    RestIsLast(p);
    TailSlice(Enc(p), |Enc(p)| - |Rest(p)|, taken, length);
  }

  lemma RestIsLast(p: Packet)
    ensures |Rest(p)| <= |Enc(p)| && Enc(p)[|Enc(p)| - |Rest(p)|..] == Rest(p)
  {
    hide Enc, From, StartOf, Visible;
    FromStart(p, Visible(p.children));
    var start := StartOf(p, Visible(p.children));
    if Rest(p) != From(p, Visible(p.children)) { assert Enc(p)[start..][1..] == Enc(p)[start + 1..]; }
  }

  lemma TailSlice<T>(s: seq<T>, start: nat, a: nat, n: nat)
    requires start + a + n <= |s|
    ensures s[start + a..start + a + n] == s[start..][a..a + n]
  {
  }

  method TypeOf(r: Reader, ghost p: Packet) returns (ptype: PacketType)
    requires r.Valid() && r.packet == Some(p) && r.at == -1
    ensures ptype == p.ptype && r.taken == 0
  {
    ptype := r.header.ptype;
  }

  /** Reading a whole packet with Next, Follow, BytesLeft and Read. */
  method ReadPacket(r: Reader, ghost p: Packet) returns (q: Packet)
    requires r.Valid() && r.packet == Some(p) && r.at == -1
    modifies r
    ensures q == View(p)
    decreases p
  {
    hide Enc, WellFormed, Decode, Visible, StartOf, Position, Info, Reader.Valid, Rest;
    var ptype := TypeOf(r, p);
    var children := [];
    var more := r.Next();
    while more.Success? && more.value
      invariant r.Valid() && r.packet == Some(p) && 0 <= r.at <= r.Last() && r.taken == 0
      invariant more == Success(r.at < r.Last())
      invariant children == ViewAll(p.children, r.at)
      decreases r.Last() - r.at
    {
      var inner := r.Follow();
      var child := ReadPacket(inner.value, p.children[r.at]);
      children := children + [child];
      more := r.Next();
    }
    var left := r.BytesLeft();
    var payload := r.Read(left.value, 0);
    assert payload.value == Rest(p);
    q := Packet(ptype, children, Some(payload.value));
  }
}
