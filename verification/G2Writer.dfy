/** The in-place packet writer (g2packet/writer.cpp). */
module G2Writer {
  import opened Bytes
  import opened Wrappers
  import opened G2Packet

  datatype Stack<T> = Empty | Push(top: T, rest: Stack<T>)

  datatype Details = Details(ptype: PacketType, headerOffset: nat, dataOffset: nat, compound: bool, hasPayload: bool)

  /** A packet that has been begun and not yet closed: what it holds so far. */
  datatype Frame = Frame(ptype: PacketType, children: seq<Packet>, compound: bool, payload: Option<seq<byte>>)

  /** The bytes of an open packet: three zero bytes are reserved for its length. */
  function OpenBytes(f: Frame): seq<byte> {
    OpenHeader(f) + OpenBody(f)
  }

  function OpenHeader(f: Frame): seq<byte> {
    if IsName(f.ptype) then [Control(0, f.ptype, f.compound)] + [0, 0, 0] + NameBytes(f.ptype) else []
  }

  function OpenBody(f: Frame): seq<byte> {
    EncAll(f.children) + Tail(f.compound, f.payload)
  }

  function OpenAll(fs: Stack<Frame>): seq<byte> {
    match fs
    case Empty => []
    case Push(f, outer) => OpenAll(outer) + OpenBytes(f)
  }

  /** The record the writer keeps of an open packet that starts at `start`. */
  ghost predicate Records(d: Details, f: Frame, start: nat) {
    && IsName(f.ptype) && d.ptype == f.ptype
    && d.headerOffset == start && d.dataOffset == start + 4 + NameLength(f.ptype)
    && d.compound == f.compound && d.hasPayload == f.payload.Some?
    && forall c :: c in f.children ==> WellFormed(c)
  }

  /** Packets around the innermost one have a child begun and no payload. */
  ghost predicate Outer(stack: Stack<Details>, frames: Stack<Frame>, base: nat) {
    match (stack, frames)
    case (Empty, Empty) => true
    case (Push(d, ds), Push(f, fs)) =>
      Records(d, f, base + |OpenAll(fs)|) && f.compound && f.payload.None? && Outer(ds, fs, base)
    case _ => false
  }

  ghost predicate Tracks(stack: Stack<Details>, frames: Stack<Frame>, base: nat) {
    match (stack, frames)
    case (Empty, Empty) => true
    case (Push(d, ds), Push(f, fs)) =>
      Records(d, f, base + |OpenAll(fs)|) && f.compound == (f.children != []) && Outer(ds, fs, base)
    case _ => false
  }

  /** The open packets once another one begins inside the innermost of them. */
  function Parents(frames: Stack<Frame>): Stack<Frame> {
    match frames
    case Empty => Empty
    case Push(f, outer) => Push(f.(compound := true), outer)
  }

  function Begun(frames: Stack<Frame>, ptype: PacketType): Stack<Frame> {
    Push(Frame(ptype, [], false, None), Parents(frames))
  }

  /** Closing the innermost packet makes it a child, or one more packet outside. */
  function ClosedFrames(frames: Stack<Frame>): Stack<Frame>
    requires frames.Push?
  {
    match frames.rest
    case Empty => Empty
    case Push(f, outer) => Push(AddChild(f, Finished(frames.top)), outer)
  }

  function ClosedRoots(closed: seq<Packet>, frames: Stack<Frame>): seq<Packet>
    requires frames.Push?
  {
    if frames.rest.Empty? then closed + [Finished(frames.top)] else closed
  }

  function Written(f: Frame, bytes: seq<byte>): Frame {
    f.(payload := Some(PayloadBytes(f.payload) + bytes))
  }

  class Writer {
    var buffer: seq<byte>
    var offset: nat
    var stack: Stack<Details>

    /** The packets closed at the outermost level, and those still open, innermost first. */
    ghost var closed: seq<Packet>
    ghost var frames: Stack<Frame>

    ghost predicate Valid()
      reads this
    {
      && Tracks(stack, frames, |EncAll(closed)|)
      && offset <= |buffer|
      && buffer[..offset] == EncAll(closed) + OpenAll(frames)
    }

    constructor ()
      ensures Valid() && closed == [] && frames == Empty && buffer == []
    {
      buffer, offset, stack := [], 0, Empty;
      closed, frames := [], Empty;
    }

    method Allocate(size: nat)
      requires offset <= |buffer|
      modifies this`buffer
      ensures |buffer| >= offset + size && old(buffer) <= buffer
    {
      if offset + size > |buffer| {
        buffer := buffer + seq(offset + 2 * size - |buffer|, _ => 0);
      }
    }

    /** Both forms of Put: append bytes at the write position. */
    method Put(bytes: seq<byte>)
      requires offset <= |buffer|
      modifies this`buffer, this`offset
      ensures offset == old(offset) + |bytes| <= |buffer|
      ensures buffer[..offset] == old(buffer[..offset]) + bytes
    {
      Allocate(|bytes|);
      buffer := buffer[..offset] + bytes + buffer[offset + |bytes|..];
      offset := offset + |bytes|;
    }

    /** Write payload bytes of the innermost open packet; the first write of a compound packet
        ends its children with a zero byte. */
    method Write(bytes: seq<byte>)
      requires Valid() && frames.Push?
      modifies this
      ensures Valid() && closed == old(closed)
      ensures frames == Push(Written(old(frames).top, bytes), old(frames).rest)
    {
      ghost var before, f := buffer[..offset], frames.top;
      if stack.top.compound && !stack.top.hasPayload {
        Put([0]);
      } else {
        assert before + Separator(f) == before;
      }
      Put(bytes);
      stack := Push(stack.top.(hasPayload := true), stack.rest);
      frames := Push(Written(f, bytes), frames.rest);
      WrittenBytes(f, bytes);
      Regroup(EncAll(closed), OpenAll(frames.rest), OpenBytes(f), Separator(f), bytes);
    }

    /** Start a packet inside the innermost open one, which becomes compound. */
    method Begin(ptype: PacketType) returns (r: Result<()>)
      requires Valid() && IsName(ptype)
      modifies this
      ensures Valid() && closed == old(closed)
      ensures r.Failure? <==> old(frames).Push? && old(frames).top.payload.Some?
      ensures r.Failure? ==> frames == old(frames) && buffer == old(buffer) && offset == old(offset) && stack == old(stack)
      ensures r.Success? ==> frames == Begun(old(frames), ptype)
    {
      hide EncAll, OpenBody;
      if stack.Push? {
        if stack.top.hasPayload { return Failure("Packet after payload"); }
        MarkCompound();
      }
      stack := Push(Details(ptype, offset, offset + 1 + 3 + NameLength(ptype), false, false), stack);
      PutHeader(ptype);
      Associate(EncAll(closed), OpenAll(Parents(frames)), OpenBytes(Frame(ptype, [], false, None)));
      frames := Begun(frames, ptype);
      return Success(());
    }

    /** The innermost open packet gets a child: set the compound bit in its control byte. */
    method MarkCompound()
      requires Valid() && frames.Push? && frames.top.payload.None?
      modifies this`buffer, this`stack
      ensures offset <= |buffer| && buffer[..offset] == EncAll(closed) + OpenAll(Parents(frames))
      ensures Outer(stack, Parents(frames), |EncAll(closed)|)
    {
      var at := stack.top.headerOffset;
      ghost var all, outer, bytes := EncAll(closed), OpenAll(frames.rest), OpenBytes(frames.top);
      MarkedBytes(frames.top);
      Associate(all, outer, bytes);
      SetAt(buffer, offset, all + outer, bytes, SetCompound(bytes[0]));
      Associate(all, outer, OpenBytes(frames.top.(compound := true)));
      buffer := buffer[at := SetCompound(buffer[at])];
      stack := Push(stack.top.(compound := true), stack.rest);
    }

    /** The control byte without a length, three bytes reserved for the length, and the name. */
    method PutHeader(ptype: PacketType)
      requires IsName(ptype) && offset <= |buffer|
      modifies this`buffer, this`offset
      ensures offset <= |buffer|
      ensures buffer[..offset] == old(buffer[..offset]) + OpenBytes(Frame(ptype, [], false, None))
    {
      hide NameBytes;
      ghost var before := buffer[..offset];
      Put([(NameLength(ptype) - 1) * 8]);
      Put([0]);
      Put([0]);
      Put([0]);
      assert buffer[..offset] == before + ([Control(0, ptype, false)] + [0, 0, 0]);
      PutName(ptype);
      assert OpenBody(Frame(ptype, [], false, None)) == [];
    }

    /** The loop of Begin over the characters of the name. */
    method PutName(ptype: PacketType)
      requires IsName(ptype) && offset <= |buffer|
      modifies this`buffer, this`offset
      ensures offset <= |buffer| && buffer[..offset] == old(buffer[..offset]) + NameBytes(ptype)
    {
      NameEnds(ptype);
      var i := 0;
      while i < 8 && Nonzero(ptype[i])
        invariant i <= NameLength(ptype) && offset <= |buffer|
        invariant buffer[..offset] == old(buffer[..offset]) + ptype[..i]
      {
        assert ptype[..i + 1] == ptype[..i] + [ptype[i]];
        Put([ptype[i]]);
        i := i + 1;
      }
    }

    /** Finish the innermost open packet: move its name and body down over the unused length
        bytes and fill in the length. It becomes a child of the packet around it. */
    method Close(ptype: PacketType) returns (r: Result<()>)
      requires Valid() && frames.Push? && |OpenBody(frames.top)| < BODY_LIMIT
      modifies this
      ensures Valid()
      ensures r.Failure? <==> ptype != old(frames).top.ptype
      ensures r.Failure? ==> frames == old(frames) && closed == old(closed) && buffer == old(buffer) && offset == old(offset) && stack == old(stack)
      ensures r.Success? ==> frames == ClosedFrames(old(frames)) && closed == ClosedRoots(old(closed), old(frames))
      ensures r.Success? && frames.Empty? ==> buffer == EncAll(closed)
    {
      if ptype != stack.top.ptype { return Failure("Closed packet"); }
      SealTop();
      CloseStep(stack, frames, closed);
      stack := stack.rest;
      closed := ClosedRoots(closed, frames);
      frames := ClosedFrames(frames);
      if stack.Empty? {
        buffer := buffer[..offset];
      }
      return Success(());
    }

    /** The part of Close that turns the bytes of the innermost packet into its encoding. */
    method SealTop()
      requires Valid() && frames.Push? && |OpenBody(frames.top)| < BODY_LIMIT
      modifies this`buffer, this`offset
      ensures offset <= |buffer|
      ensures buffer[..offset] == EncAll(closed) + OpenAll(frames.rest) + Enc(Finished(frames.top))
    {
      hide EncAll, Enc, OpenBytes, OpenBody, LittleEndian, LenLength;
      var my := stack.top;
      ghost var before, f := EncAll(closed) + OpenAll(frames.rest), frames.top;
      ghost var body, c := NameBytes(f.ptype) + OpenBody(f), Control(0, f.ptype, f.compound);
      OpenParts(EncAll(closed), OpenAll(frames.rest), f);
      var dataLength := offset - my.dataOffset;
      var lenlen := CountLength(dataLength);
      LenLengthBound(dataLength);
      Compact(my.headerOffset, dataLength, lenlen, before, c, body);
      FinishedBytes(f);
    }

    /** LenLength as the loop that header.hpp has. */
    method CountLength(len: nat) returns (lenlen: nat)
      ensures lenlen == LenLength(len)
    {
      var rest := len;
      lenlen := 0;
      while rest != 0
        invariant lenlen + LenLength(rest) == LenLength(len)
      {
        rest := rest / 256;
        lenlen := lenlen + 1;
      }
    }

    /** The byte moves of Close: the length takes the place of the three reserved bytes. */
    method Compact(header: nat, dataLength: nat, lenlen: nat, ghost before: seq<byte>, ghost c: nat, ghost body: seq<byte>)
      requires offset <= |buffer| && lenlen <= 3 && c + lenlen * 64 < 256
      requires header == |before| && buffer[..offset] == before + ([c] + [0, 0, 0] + body)
      modifies this`buffer, this`offset
      ensures offset <= |buffer|
      ensures buffer[..offset] == before + ([c + lenlen * 64] + LittleEndian(dataLength, lenlen) + body)
    {
      hide LittleEndian;
      Split(buffer, offset, before, c, body, lenlen);
      MoveDown(header, lenlen);
      ghost var moved := buffer;
      assert moved[..offset] == before + [c] + [0, 0, 0][..lenlen] + body;
      FillHeader(moved, offset, before, c, body, lenlen, dataLength);
      buffer := buffer[header := buffer[header] + lenlen * 64];
      PutLength(header + 1, dataLength, lenlen);
    }

    /** The shifting loop of Close. */
    method MoveDown(header: nat, lenlen: nat)
      requires header + 4 <= offset <= |buffer| && lenlen <= 3
      modifies this`buffer, this`offset
      ensures |buffer| == old(|buffer|) && offset == old(offset) - (3 - lenlen)
      ensures buffer[..offset] == old(buffer[..header + 1 + lenlen] + buffer[header + 4..offset])
    {
      var over, start := 3 - lenlen, header + 1 + lenlen;
      var off := start;
      while off + over < offset
        invariant start <= off <= offset - over && offset == old(offset) && |buffer| == old(|buffer|)
        invariant forall j :: 0 <= j < start ==> buffer[j] == old(buffer)[j]
        invariant forall j :: start <= j < off ==> buffer[j] == old(buffer)[j + over]
        invariant forall j :: off <= j < |buffer| ==> buffer[j] == old(buffer)[j]
      {
        buffer := buffer[off := buffer[off + over]];
        off := off + 1;
      }
      offset := offset - over;
    }

    /** The loop of Close that writes the length bytes. */
    method PutLength(at: nat, len: nat, lenlen: nat)
      requires at + lenlen <= |buffer|
      modifies this`buffer
      ensures buffer == old(buffer)[..at] + LittleEndian(len, lenlen) + old(buffer)[at + lenlen..]
    {
      var rest := len;
      for off := 0 to lenlen
        invariant |buffer| == old(|buffer|)
        invariant buffer[..at + off] + LittleEndian(rest, lenlen - off) + buffer[at + lenlen..]
               == old(buffer)[..at] + LittleEndian(len, lenlen) + old(buffer)[at + lenlen..]
      {
        assert LittleEndian(rest, lenlen - off) == [rest % 256] + LittleEndian(rest / 256, lenlen - off - 1);
        ghost var was := buffer;
        buffer := buffer[at + off := rest % 256];
        assert buffer[..at + off + 1] == was[..at + off] + [rest % 256];
        rest := rest / 256;
      }
    }
  }

  // ----- bytes under the operations -----

  function Finished(f: Frame): Packet {
    Packet(f.ptype, f.children, f.payload)
  }

  function AddChild(f: Frame, p: Packet): Frame {
    f.(children := f.children + [p])
  }

  lemma OpenParts(all: seq<byte>, outer: seq<byte>, f: Frame)
    requires IsName(f.ptype)
    ensures |OpenBytes(f)| == 4 + NameLength(f.ptype) + |OpenBody(f)|
    ensures all + (outer + OpenBytes(f))
         == all + outer + ([Control(0, f.ptype, f.compound)] + [0, 0, 0] + (NameBytes(f.ptype) + OpenBody(f)))
  {
  }

  lemma Split(buffer: seq<byte>, offset: nat, before: seq<byte>, c: byte, body: seq<byte>, n: nat)
    requires offset <= |buffer| && buffer[..offset] == before + ([c] + [0, 0, 0] + body) && n <= 3
    ensures |before| + 4 <= offset
    ensures buffer[..|before| + 1 + n] == before + [c] + [0, 0, 0][..n]
    ensures buffer[|before| + 4..offset] == body
  {
  }

  /** The control byte and the length bytes put into the reserved space. */
  lemma FillHeader(moved: seq<byte>, offset: nat, before: seq<byte>, c: nat, body: seq<byte>, lenlen: nat, len: nat)
    requires offset <= |moved| && c + lenlen * 64 < 256 && lenlen <= 3
    requires moved[..offset] == before + [c] + [0, 0, 0][..lenlen] + body
    ensures |before| + 1 + lenlen <= offset && moved[|before|] == c
    ensures var marked := moved[|before| := c + lenlen * 64];
      var filled := marked[..|before| + 1] + LittleEndian(len, lenlen) + marked[|before| + 1 + lenlen..];
      |filled| == |moved| && filled[..offset] == before + ([c + lenlen * 64] + LittleEndian(len, lenlen) + body)
  {
    hide LittleEndian;
    var head, n := |before| + 1, LittleEndian(len, lenlen);
    var marked := moved[|before| := c + lenlen * 64];
    assert moved[..offset][..|before|] == before && moved[..offset][|before|] == c;
    assert marked[..head] == before + [c + lenlen * 64];
    assert marked[head + lenlen..offset] == moved[..offset][head + lenlen..] == body;
    assert (marked[..head] + n + marked[head + lenlen..])[..offset] == marked[..head] + n + marked[head + lenlen..offset];
  }

  lemma FinishedBytes(f: Frame)
    requires IsName(f.ptype) && f.compound == (f.children != []) && |OpenBody(f)| < BODY_LIMIT
    ensures var n := |OpenBody(f)|;
      Enc(Finished(f)) == [Control(0, f.ptype, f.compound) + LenLength(n) * 64] + LittleEndian(n, LenLength(n)) + (NameBytes(f.ptype) + OpenBody(f))
  {
  }

  lemma Associate4(a: seq<byte>, b: seq<byte>, c: seq<byte>, d: seq<byte>)
    ensures a + (b + c) + d == a + (b + (c + d))
  {
  }

  lemma AddChildBytes(f: Frame, p: Packet)
    requires f.payload.None?
    ensures OpenBytes(AddChild(f, p)) == OpenBytes(f) + Enc(p)
  {
    ClosedBytes(f.children, p);
    assert OpenBody(f) == EncAll(f.children) && OpenBody(AddChild(f, p)) == EncAll(f.children) + Enc(p);
    assert OpenHeader(AddChild(f, p)) == OpenHeader(f);
    Associate(OpenHeader(f), EncAll(f.children), Enc(p));
  }

  lemma ClosedBytes(closed: seq<Packet>, p: Packet)
    ensures EncAll(closed + [p]) == EncAll(closed) + Enc(p)
  {
    EncAllConcat(closed, [p]);
    OneChild(p);
  }

  lemma CloseStep(stack: Stack<Details>, frames: Stack<Frame>, closed: seq<Packet>)
    requires frames.Push? && Tracks(stack, frames, |EncAll(closed)|) && |OpenBody(frames.top)| < BODY_LIMIT
    ensures Tracks(stack.rest, ClosedFrames(frames), |EncAll(ClosedRoots(closed, frames))|)
    ensures EncAll(ClosedRoots(closed, frames)) + OpenAll(ClosedFrames(frames))
         == EncAll(closed) + OpenAll(frames.rest) + Enc(Finished(frames.top))
  {
    var p := Finished(frames.top);
    assert Body(p) == OpenBody(frames.top);
    if frames.rest.Empty? {
      ClosedBytes(closed, p);
    } else {
      var f := frames.rest.top;
      AddChildBytes(f, p);
      Associate4(EncAll(closed), OpenAll(frames.rest.rest), OpenBytes(f), Enc(p));
    }
  }

  function Separator(f: Frame): seq<byte> {
    if f.compound && f.payload.None? then [0] else []
  }

  lemma WrittenBytes(f: Frame, bytes: seq<byte>)
    ensures OpenBytes(Written(f, bytes)) == OpenBytes(f) + Separator(f) + bytes
  {
    var header, children, f' := OpenHeader(f), EncAll(f.children), Written(f, bytes);
    assert OpenHeader(f') == header && EncAll(f'.children) == children;
    assert Tail(f'.compound, f'.payload) == Tail(f.compound, f.payload) + Separator(f) + bytes;
    Regroup(header, children, Tail(f.compound, f.payload), Separator(f), bytes);
  }

  lemma Regroup(a: seq<byte>, b: seq<byte>, c: seq<byte>, d: seq<byte>, e: seq<byte>)
    ensures a + (b + (c + d + e)) == a + (b + c) + d + e
  {
  }

  lemma Associate(a: seq<byte>, b: seq<byte>, c: seq<byte>)
    ensures a + b + c == a + (b + c)
  {
  }

  function SetCompound(b: byte): byte {
    if b / 4 % 2 == 1 || b + 4 > 255 then b else b + 4
  }

  /** Setting the compound bit of an open packet changes only its control byte. */
  lemma MarkedBytes(f: Frame)
    requires IsName(f.ptype) && f.payload.None?
    ensures OpenBytes(f) != []
    ensures OpenBytes(f.(compound := true)) == [SetCompound(OpenBytes(f)[0])] + OpenBytes(f)[1..]
  {
    var c := Control(0, f.ptype, f.compound);
    var rest := [0, 0, 0] + NameBytes(f.ptype) + OpenBody(f);
    assert OpenBytes(f) == [c] + rest;
    assert SetCompound(c) == Control(0, f.ptype, true);
    assert OpenBytes(f.(compound := true)) == [SetCompound(c)] + rest;
  }

  lemma SetAt(buffer: seq<byte>, offset: nat, before: seq<byte>, bytes: seq<byte>, v: byte)
    requires offset <= |buffer| && bytes != [] && buffer[..offset] == before + bytes
    ensures |before| < |buffer| && buffer[|before|] == bytes[0]
    ensures buffer[|before| := v][..offset] == before + ([v] + bytes[1..])
  {
  }

  lemma NameEnds(t: PacketType)
    requires IsName(t)
    ensures forall i :: 0 <= i < 8 ==> (Nonzero(t[i]) <==> i < NameLength(t))
  {
  }

  // ----- whole packets -----

  /** The open packets once p has been written inside the innermost of them. */
  function WithChild(frames: Stack<Frame>, p: Packet): Stack<Frame> {
    match frames
    case Empty => Empty
    case Push(f, outer) => Push(AddChild(f.(compound := true), p), outer)
  }

  /** Begin, the children, at most one Write, Close: the packet ends up where it was begun. */
  method WritePacket(w: Writer, p: Packet)
    requires w.Valid() && WellFormed(p)
    requires w.frames.Push? ==> w.frames.top.payload.None?
    modifies w
    ensures w.Valid() && w.frames == WithChild(old(w.frames), p)
    ensures w.closed == if old(w.frames).Empty? then old(w.closed) + [p] else old(w.closed)
    ensures w.frames.Empty? ==> w.buffer == EncAll(w.closed)
    decreases p
  {
    hide Writer.Valid, EncAll, Enc;
    var r := w.Begin(p.ptype);
    for i := 0 to |p.children|
      invariant w.Valid() && w.closed == old(w.closed)
      invariant w.frames == Push(Frame(p.ptype, p.children[..i], i > 0, None), Parents(old(w.frames)))
    {
      assert p.children[..i + 1] == p.children[..i] + [p.children[i]];
      WritePacket(w, p.children[i]);
    }
    assert p.children[..|p.children|] == p.children;
    if p.payload.Some? {
      w.Write(p.payload.value);
      assert [] + p.payload.value == p.payload.value;
    }
    assert Finished(w.frames.top) == p;
    assert OpenBody(w.frames.top) == Body(p);
    r := w.Close(p.ptype);
  }

  /** Encoding a packet tree from scratch leaves exactly its recursive encoding in the buffer. */
  method EncodePacket(p: Packet) returns (bytes: seq<byte>)
    requires WellFormed(p)
    ensures bytes == Enc(p)
  {
    var w := new Writer();
    WritePacket(w, p);
    ClosedBytes([], p);
    assert [] + [p] == [p];
    bytes := w.buffer;
  }
}
