/** Fragmenting and repeated sending of datagrams (departurecache.cpp, departurecache.hpp, udp.hpp). */
module DepartureCache {
  import opened Bytes
  import opened Wrappers
  import opened Fragments

  const MTU: nat := 512
  const HEADER_SIZE: nat := 8
  const PAYLOAD_SIZE: nat := MTU - HEADER_SIZE
  const MIN_DEFLATE: nat := PAYLOAD_SIZE + 1
  const DELAY: int := 5
  const MAX_ATTEMPTS: nat := 3

  datatype Packet = Packet(header: Header, timestamp: int, attempts: byte, payload: seq<byte>, endpoint: nat)

  function PieceCount(size: nat): nat {
    size / PAYLOAD_SIZE + if size % PAYLOAD_SIZE != 0 then 1 else 0
  }

  /** Where the piece that begins at i ends: the program counts from the begin of the buffer, not
      from the begin of the piece. */
  function PieceEnd(size: nat, i: nat): (end: nat)
    requires i <= size
    ensures end <= size
  {
    if size - i > PAYLOAD_SIZE then PAYLOAD_SIZE else size - i
  }

  /** The pieces from i on. There are none if a piece would end before it begins, which no range
      of a buffer may do. */
  function PiecesFrom(buf: seq<byte>, i: nat): Option<seq<seq<byte>>>
    decreases |buf| - i
  {
    if i >= |buf| then Some([])
    else if PieceEnd(|buf|, i) < i then None
    else
      match PiecesFrom(buf, i + PAYLOAD_SIZE)
      case None => None
      case Some(rest) => Some([buf[i..PieceEnd(|buf|, i)]] + rest)
  }

  predicate IsFirst(i: nat) { i == 0 }

  lemma FewPieces(buf: seq<byte>, i: nat)
    requires IsFirst(i)
    ensures |buf| <= PAYLOAD_SIZE ==> PiecesFrom(buf, i) == Some(if buf == [] then [] else [buf])
    ensures |buf| == 2 * PAYLOAD_SIZE ==> PiecesFrom(buf, i) == Some([buf[..PAYLOAD_SIZE], []])
    ensures |buf| > PAYLOAD_SIZE && |buf| != 2 * PAYLOAD_SIZE ==> PiecesFrom(buf, i) == None
  {
    var j, k := i + PAYLOAD_SIZE, i + PAYLOAD_SIZE + PAYLOAD_SIZE;
    if |buf| <= j {
      assert PiecesFrom(buf, j) == Some([]);
      if buf != [] {
        assert PiecesFrom(buf, i) == Some([buf[i..|buf|]] + []);
        assert buf[i..|buf|] == buf && [buf] + [] == [buf];
      }
    } else if |buf| == k {
      assert PiecesFrom(buf, k) == Some([]);
      assert PiecesFrom(buf, j) == Some([buf[j..j]] + []);
      assert PiecesFrom(buf, i) == Some([buf[i..j]] + ([buf[j..j]] + []));
      assert buf[i..j] == buf[..PAYLOAD_SIZE] && buf[j..j] == [];
      assert [buf[i..j]] + ([buf[j..j]] + []) == [buf[..PAYLOAD_SIZE], []];
    } else if |buf| > k {
      assert PiecesFrom(buf, k) == None;
    }
  }

  /** The pieces of a buffer. The program cuts buffers of one piece, and those of exactly twice
      that size, of which it loses the second half. */
  function Pieces(buf: seq<byte>): (r: Option<seq<seq<byte>>>)
    ensures |buf| <= PAYLOAD_SIZE ==> r == Some(if buf == [] then [] else [buf])
    ensures |buf| == 2 * PAYLOAD_SIZE ==> r == Some([buf[..PAYLOAD_SIZE], []])
    ensures |buf| > PAYLOAD_SIZE && |buf| != 2 * PAYLOAD_SIZE ==> r == None
  {
    FewPieces(buf, 0);
    PiecesFrom(buf, 0)
  }

  /** How a message is meant to be cut: 1 to 504 bytes in every piece, as few pieces as can be. */
  predicate IsFragmentation(pieces: seq<seq<byte>>, buf: seq<byte>) {
    && Joined(pieces) == buf && |pieces| == PieceCount(|buf|)
    && forall p :: p in pieces ==> 1 <= |p| <= PAYLOAD_SIZE
  }

  /** A message is cut as it is meant to be if and only if it fits into one piece. */
  lemma FragmentedIfOnePiece(buf: seq<byte>)
    ensures Pieces(buf).Some? && IsFragmentation(Pieces(buf).value, buf) <==> |buf| <= 504
  {
    hide Pieces;
    if |buf| <= PAYLOAD_SIZE {
      if buf != [] { assert [buf][..0] == [] && Joined([buf]) == buf; }
    } else if |buf| == 2 * PAYLOAD_SIZE {
      assert [] in Pieces(buf).value by { assert Pieces(buf).value[1] == []; }
    }
  }

  /** 505 bytes: the second piece would run from 504 to 1. */
  lemma SecondPieceRunsBackwards(buf: seq<byte>)
    requires |buf| == PAYLOAD_SIZE + 1
    ensures PieceEnd(|buf|, PAYLOAD_SIZE) == 1 && Pieces(buf) == None
  {
    hide Pieces;
  }

  /** The packets for the pieces: all of them are numbered 1. */
  function PacketsOf(pieces: seq<seq<byte>>, h: Header, endpoint: nat): (s: seq<Packet>)
    ensures |s| == |pieces|
    ensures forall i :: 0 <= i < |s| ==> s[i] == Packet(h.(partNumber := 1), 0, 0, pieces[i], endpoint)
  {
    seq(|pieces|, i requires 0 <= i < |pieces| => Packet(h.(partNumber := 1), 0, 0, pieces[i], endpoint))
  }

  /** What Put queues for a buffer that it can cut. */
  function Packets(buf: seq<byte>, deflate: bool, acknowledge: bool, id: nat, endpoint: nat): seq<Packet>
    requires Pieces(buf).Some?
  {
    PacketsOf(Pieces(buf).value, Header(deflate, acknowledge, id, 0, PieceCount(|buf|) % 256), endpoint)
  }

  lemma OnePacket(queue: seq<Packet>, pieces: seq<seq<byte>>, piece: seq<byte>, h: Header, endpoint: nat)
    ensures queue + PacketsOf(pieces, h, endpoint) + [Packet(h.(partNumber := 1), 0, 0, piece, endpoint)] ==
      queue + PacketsOf(pieces + [piece], h, endpoint)
  {
  }

  /** Packets were queued, but none was sent. */
  ghost predicate OnlyQueued(sent: seq<seq<int>>, sent': seq<seq<int>>) {
    sent <= sent' && forall n :: |sent| <= n < |sent'| ==> sent'[n] == []
  }

  predicate Answers(p: Packet, id: nat, number: byte) {
    p.header.id == id && p.header.partNumber == number
  }

  /** More than five seconds lie between any two times that follow each other. */
  ghost predicate Spaced(times: seq<int>) {
    forall i :: 0 < i < |times| ==> times[i] > times[i - 1] + 5
  }

  /** Packets in the queue may still be sent, and were last sent when their timestamp says. The
      n-th packet that was ever queued has the name n. */
  ghost predicate Queued(cache: seq<Packet>, names: seq<nat>, sent: seq<seq<int>>, acknowledged: seq<bool>) {
    && |names| == |cache| && |acknowledged| == |sent|
    && (forall i :: 0 <= i < |names| ==> names[i] < |sent|)
    && (forall i, j :: 0 <= i < j < |names| ==> names[i] != names[j])
    && (forall i :: 0 <= i < |names| ==> Current(cache[i], sent[names[i]], acknowledged[names[i]]))
  }

  ghost predicate Current(p: Packet, times: seq<int>, acknowledged: bool) {
    && p.header.acknowledge == acknowledged && p.attempts == |times| < Limit(acknowledged)
    && (times != [] ==> p.timestamp == times[|times| - 1])
  }

  function Limit(acknowledged: bool): nat {
    if acknowledged then 3 else 1
  }

  /** No packet is sent more than three times, or more than once if nobody acknowledges it, and
      between two times lie more than five seconds. */
  ghost predicate Restrained(sent: seq<seq<int>>, acknowledged: seq<bool>) {
    |acknowledged| == |sent| && forall n :: 0 <= n < |sent| ==> Spaced(sent[n]) && |sent[n]| <= if acknowledged[n] then 3 else 1
  }

  /** A packet that has been sent as it is queued again, unless it was its last time. */
  function Again(p: Packet, now: int): seq<Packet> {
    var sent := p.(attempts := (p.attempts + 1) % 256, timestamp := now);
    if p.header.acknowledge && sent.attempts < MAX_ATTEMPTS then [sent] else []
  }

  /** The head of the queue is sent, and stays in the queue if it may be sent again. */
  lemma SendKeeps(cache: seq<Packet>, names: seq<nat>, sent: seq<seq<int>>, acknowledged: seq<bool>, now: int)
    returns (cache': seq<Packet>, names': seq<nat>, sent': seq<seq<int>>)
    requires cache != [] && Queued(cache, names, sent, acknowledged) && Restrained(sent, acknowledged)
    requires cache[0].timestamp + DELAY < now
    ensures names[0] < |sent| && sent' == sent[names[0] := sent[names[0]] + [now]]
    ensures cache' == cache[1..] + Again(cache[0], now)
    ensures names' == names[1..] + if Again(cache[0], now) == [] then [] else [names[0]]
    ensures Queued(cache', names', sent', acknowledged) && Restrained(sent', acknowledged)
  {
    var name := names[0];
    var times := sent[name];
    assert Current(cache[0], times, acknowledged[name]) && Spaced(times);
    sent' := sent[name := times + [now]];
    cache' := cache[1..] + Again(cache[0], now);
    names' := names[1..] + if Again(cache[0], now) == [] then [] else [name];
    forall i | 0 <= i < |names'| ensures names'[i] < |sent'| && Current(cache'[i], sent'[names'[i]], acknowledged[names'[i]]) {
      if i < |names| - 1 {
        assert names'[i] == names[i + 1] != name;
        assert Current(cache[i + 1], sent[names[i + 1]], acknowledged[names[i + 1]]);
      }
    }
    forall i, j | 0 <= i < j < |names'| ensures names'[i] != names'[j] {
      assert names'[i] == names[i + 1];
      assert j < |names| - 1 ==> names'[j] == names[j + 1];
    }
    assert Spaced(times + [now]);
  }

  /** What is cut into pieces: the bytes, compressed if there are many. */
  function Ready(bytes: seq<byte>, compress: seq<byte> -> Option<seq<byte>>): Option<seq<byte>> {
    if |bytes| > MIN_DEFLATE then compress(bytes) else Some(bytes)
  }

  predicate CanCut(bytes: seq<byte>, compress: seq<byte> -> Option<seq<byte>>) {
    match Ready(bytes, compress)
    case None => true
    case Some(buf) => |buf| <= PAYLOAD_SIZE || |buf| == 2 * PAYLOAD_SIZE
  }

  class Cache {
    var cache: seq<Packet>

    /** The names of the packets in the queue, the times at which each packet was sent, and
        whether it waits for an acknowledgement. */
    ghost var names: seq<nat>
    ghost var sent: seq<seq<int>>
    ghost var acknowledged: seq<bool>

    ghost predicate Valid()
      reads this
    {
      Queued(cache, names, sent, acknowledged) && Restrained(sent, acknowledged)
    }

    constructor ()
      ensures Valid() && cache == [] && sent == []
    {
      cache, names, sent, acknowledged := [], [], [], [];
    }

    method PushBack(p: Packet)
      requires Valid() && p.attempts == 0
      modifies this
      ensures Valid() && cache == old(cache) + [p] && OnlyQueued(old(sent), sent)
    {
      cache, names := cache + [p], names + [|sent|];
      sent, acknowledged := sent + [[]], acknowledged + [p.header.acknowledge];
    }

    /** Queues a message: compressed if it is long, cut into pieces, the number of pieces taken
        modulo 256. Not defined when a piece would end before it begins. */
    method Put(bytes: seq<byte>, endpoint: nat, acknowledge: bool, id: nat, compress: seq<byte> -> Option<seq<byte>>) returns (defined: bool)
      requires Valid()
      modifies this
      ensures Valid() && OnlyQueued(old(sent), sent)
      ensures defined <==> CanCut(bytes, compress)
      ensures Ready(bytes, compress).None? ==> cache == old(cache)
      ensures Ready(bytes, compress).Some? && defined ==>
        cache == old(cache) + Packets(Ready(bytes, compress).value, |bytes| > MIN_DEFLATE, acknowledge, id, endpoint)
      ensures 0 < |bytes| <= 504 ==>
        cache == old(cache) + [Packet(Header(false, acknowledge, id, 1, 1), 0, 0, bytes, endpoint)]
      ensures |bytes| > 505 && compress(bytes).None? ==> defined && cache == old(cache)
      ensures |bytes| > 505 && compress(bytes).Some? && 0 < |compress(bytes).value| <= 504 ==>
        cache == old(cache) + [Packet(Header(true, acknowledge, id, 1, 1), 0, 0, compress(bytes).value, endpoint)]
      ensures |bytes| == 0 ==> defined && cache == old(cache)
      ensures |bytes| == 505 ==> !defined
    {
      hide Pieces, PiecesFrom, PacketsOf, Queued, Restrained;
      var buf, deflate := bytes, false;
      if |buf| > MIN_DEFLATE {
        var compressed := compress(buf);
        if compressed.None? { return true; }
        buf, deflate := compressed.value, true;
      }
      var total := |buf| / PAYLOAD_SIZE + if |buf| % PAYLOAD_SIZE != 0 then 1 else 0;
      defined := PutPieces(buf, Header(deflate, acknowledge, id, 0, total % 256), endpoint);
    }

    /** The loop of Put. */
    method PutPieces(buf: seq<byte>, h: Header, endpoint: nat) returns (defined: bool)
      requires Valid() && h.partNumber == 0
      modifies this
      ensures Valid() && OnlyQueued(old(sent), sent)
      ensures defined <==> Pieces(buf).Some?
      ensures defined ==> cache == old(cache) + PacketsOf(Pieces(buf).value, h, endpoint)
    {
      var i := 0;
      ghost var queue, done: seq<seq<byte>> := cache, [];
      while i < |buf|
        invariant Valid() && OnlyQueued(old(sent), sent)
        invariant Pieces(buf).Some? <==> PiecesFrom(buf, i).Some?
        invariant PiecesFrom(buf, i).Some? ==> Pieces(buf).value == done + PiecesFrom(buf, i).value
        invariant cache == queue + PacketsOf(done, h, endpoint)
        decreases |buf| - i
      {
        var end := if |buf| - i > PAYLOAD_SIZE then PAYLOAD_SIZE else |buf| - i;
        if end < i { return false; }
        var piece := buf[i..end];
        OnePacket(queue, done, piece, h, endpoint);
        PushBack(Packet(h.(partNumber := h.partNumber + 1), 0, 0, piece, endpoint));
        if PiecesFrom(buf, i).Some? {
          assert done + ([piece] + PiecesFrom(buf, i + PAYLOAD_SIZE).value) == (done + [piece]) + PiecesFrom(buf, i + PAYLOAD_SIZE).value;
        }
        done := done + [piece];
        i := i + PAYLOAD_SIZE;
      }
      assert done + [] == done;
      defined := true;
    }

    /** Queues a bare header: an acknowledgement. */
    method PutHeader(h: Header, endpoint: nat)
      requires Valid()
      modifies this
      ensures Valid() && cache == old(cache) + [Packet(h, 0, 0, [], endpoint)] && OnlyQueued(old(sent), sent)
    {
      PushBack(Packet(h, 0, 0, [], endpoint));
    }

    /** Hands out the packet at the head of the queue if it is due, and queues it again unless it
        was its last time. The clock is read before and after. */
    method Get(before: int, after: int) returns (p: Option<Packet>)
      requires Valid() && before <= after
      modifies this
      ensures Valid()
      ensures p.None? <==> old(cache) == [] || old(cache)[0].timestamp + 5 >= before
      ensures p.None? ==> cache == old(cache) && names == old(names) && sent == old(sent)
      ensures p.Some? ==>
        && p.value == old(cache)[0]
        && cache == old(cache)[1..] + Again(p.value, after)
        && old(names)[0] < |old(sent)| && sent == old(sent)[old(names)[0] := old(sent)[old(names)[0]] + [after]]
      ensures p.Some? && p.value.header.acknowledge && p.value.attempts < 2 ==>
        cache == old(cache)[1..] + [p.value.(attempts := p.value.attempts + 1, timestamp := after)]
      ensures p.Some? && !(p.value.header.acknowledge && p.value.attempts < 2) ==> cache == old(cache)[1..]
    {
      if cache == [] || cache[0].timestamp + DELAY >= before { return None; }
      ghost var cache', names', sent' := SendKeeps(cache, names, sent, acknowledged, after);
      var head := cache[0];
      p := Some(head);
      head := head.(attempts := (head.attempts + 1) % 256, timestamp := after);
      cache := cache[1..] + if head.header.acknowledge && head.attempts < MAX_ATTEMPTS then [head] else [];
      names, sent := names', sent';
      assert cache == cache';
    }

    /** The first packet that was acknowledged is dropped. */
    method Acknowledge(id: nat, number: byte)
      requires Valid()
      modifies this
      ensures Valid() && sent == old(sent)
      ensures cache == old(cache) ||
        exists i :: 0 <= i < |old(cache)| && cache == old(cache)[..i] + old(cache)[i + 1..]
          && old(cache)[i].header.id == id && old(cache)[i].header.partNumber == number
          && forall j :: 0 <= j < i ==> old(cache)[j].header.id != id || old(cache)[j].header.partNumber != number
      ensures cache == old(cache) ==> forall p :: p in cache ==> p.header.id != id || p.header.partNumber != number
    {
      for i := 0 to |cache|
        invariant Valid() && cache == old(cache) && sent == old(sent)
        invariant forall j :: 0 <= j < i ==> !Answers(cache[j], id, number)
      {
        if Answers(cache[i], id, number) {
          assert old(cache)[i] == cache[i] && forall j :: 0 <= j < i ==> !Answers(old(cache)[j], id, number);
          cache, names := cache[..i] + cache[i + 1..], names[..i] + names[i + 1..];
          return;
        }
      }
    }
  }

  datatype Operation =
    | Put(bytes: seq<byte>, endpoint: nat, acknowledge: bool, id: nat)
    | PutHeader(header: Header, endpoint: nat)
    | Get(before: int, after: int)
    | Acknowledge(id: nat, number: byte)

  /** In any run, no packet is sent too often or too soon. A run ends with a message that cannot
      be cut. */
  method Run(c: Cache, operations: seq<Operation>, compress: seq<byte> -> Option<seq<byte>>) returns (defined: bool)
    requires c.Valid() && forall o :: o in operations && o.Get? ==> o.before <= o.after
    modifies c
    ensures c.Valid() && Restrained(c.sent, c.acknowledged)
    ensures defined <==> forall o :: o in operations && o.Put? ==> CanCut(o.bytes, compress)
  {
    for i := 0 to |operations|
      invariant c.Valid()
      invariant forall o :: o in operations[..i] && o.Put? ==> CanCut(o.bytes, compress)
    {
      match operations[i] {
        case Put(bytes, endpoint, acknowledge, id) =>
          var cut := c.Put(bytes, endpoint, acknowledge, id, compress);
          if !cut { return false; }
        case PutHeader(h, endpoint) => c.PutHeader(h, endpoint);
        case Get(before, after) => var p := c.Get(before, after);
        case Acknowledge(id, number) => c.Acknowledge(id, number);
      }
      assert operations[..i + 1] == operations[..i] + [operations[i]];
    }
    assert operations[..|operations|] == operations;
    defined := true;
  }

  // ----- from the departure cache to an arrival cache -----

  /** The datagrams of one message, as they are numbered, whatever count they carry. */
  predicate OfMessage(d: Datagram, id: nat, count: byte) {
    d.header.id == id && d.header.partNumber == 1 && d.header.totalParts == count
  }

  /** The message is open with all parts but the first missing. */
  predicate FirstOnly(v: View, id: nat, count: nat) {
    id in v && |v[id].slots| == count && forall k :: 0 < k < count ==> v[id].slots[k] == []
  }

  lemma {:induction false} StaysOpen(v: View, ds: seq<Datagram>, inflate: Inflate, id: nat, count: byte)
    requires count != 1 && id !in v && forall d :: d in ds ==> OfMessage(d, id, count)
    ensures if ds == [] then ViewAfter(v, ds, inflate) == v else FirstOnly(ViewAfter(v, ds, inflate), id, count)
    ensures ds != [] ==> OutcomeOf(v, ds, inflate) == if count == 0 then OutOfRange else Nothing
    decreases |ds|
  {
    if ds != [] {
      var before, d := ds[..|ds| - 1], ds[|ds| - 1];
      StaysOpen(v, before, inflate, id, count);
      assert d in ds;
      var v1 := WithEntry(ViewAfter(v, before, inflate), d);
      assert FirstOnly(v1, id, count);
      if count > 1 { NoGaps(v1[id].slots[0 := d.payload]); }
    }
  }

  /** Because every piece is numbered 1, the first datagram of a message decides: it is delivered
      as the whole message if the count says 1, and if the count is anything else no datagram
      ever delivers. The count is the number of pieces modulo 256. */
  lemma DeliveredIfCountIsOne(v: View, ds: seq<Datagram>, inflate: Inflate, id: nat, count: byte)
    requires id !in v && ds != [] && ds[0].payload != [] && forall d :: d in ds ==> OfMessage(d, id, count)
    ensures count == 1 && !ds[0].header.deflate ==> OutcomeOf(v, ds[..1], inflate) == Delivered(ds[0].payload)
    ensures count == 1 && ds[0].header.deflate ==>
      match inflate(ds[0].payload, 10 * |ds[0].payload|)
      case Some(message) => OutcomeOf(v, ds[..1], inflate) == Delivered(message)
      case None => OutcomeOf(v, ds[..1], inflate) == Corrupt
    ensures count != 1 ==> forall i :: 0 < i <= |ds| ==> OutcomeOf(v, ds[..i], inflate) == if count == 0 then OutOfRange else Nothing
  {
    assert ds[0] in ds && ds[..1][..0] == [];
    if count == 1 {
      assert Empties(1)[0 := ds[0].payload] == [ds[0].payload];
      assert [ds[0].payload][..0] == [] && Joined([ds[0].payload]) == ds[0].payload;
    } else {
      forall i | 0 < i <= |ds| ensures OutcomeOf(v, ds[..i], inflate) == if count == 0 then OutOfRange else Nothing {
        StaysOpen(v, ds[..i], inflate, id, count);
      }
    }
  }

  /** The datagram carries one of the packets. */
  predicate Carries(d: Datagram, packets: seq<Packet>) {
    exists k :: 0 <= k < |packets| && packets[k].header == d.header && packets[k].payload == d.payload
  }

  /** Whatever datagrams of the packets that Put queues arrive, in any order and number, the
      first one delivers the buffer if it fits into one piece; a longer one is never delivered. */
  lemma DeliveredIfOnePiece(v: View, ds: seq<Datagram>, inflate: Inflate, buf: seq<byte>, deflate: bool, acknowledge: bool, id: nat, endpoint: nat)
    requires id !in v && ds != [] && Pieces(buf).Some?
    requires forall d :: d in ds ==> Carries(d, Packets(buf, deflate, acknowledge, id, endpoint))
    ensures |buf| <= 504 && !deflate ==> OutcomeOf(v, ds[..1], inflate) == Delivered(buf)
    ensures |buf| <= 504 && deflate ==>
      match inflate(buf, 10 * |buf|)
      case Some(message) => OutcomeOf(v, ds[..1], inflate) == Delivered(message)
      case None => OutcomeOf(v, ds[..1], inflate) == Corrupt
    ensures |buf| > 504 ==> forall i :: 0 < i <= |ds| ==> OutcomeOf(v, ds[..i], inflate) == Nothing
  {
    hide Pieces, OutcomeOf, Completed;
    var packets := Packets(buf, deflate, acknowledge, id, endpoint);
    assert ds[0] in ds;
    forall d | d in ds ensures OfMessage(d, id, PieceCount(|buf|) % 256) && (|buf| <= PAYLOAD_SIZE ==> d.payload == buf && d.header.deflate == deflate) {
      var k :| 0 <= k < |packets| && packets[k].header == d.header && packets[k].payload == d.payload;
    }
    if |buf| <= PAYLOAD_SIZE {
      assert PieceCount(|buf|) == 1;
      DeliveredIfCountIsOne(v, ds, inflate, id, 1);
    } else {
      forall i | 0 < i <= |ds| ensures OutcomeOf(v, ds[..i], inflate) == Nothing {
        assert forall d :: d in ds[..i] ==> d in ds;
        StaysOpen(v, ds[..i], inflate, id, 2);
      }
    }
  }
}
