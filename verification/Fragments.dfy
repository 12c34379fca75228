/** Datagrams that carry parts of a message, and what receiving them means (udp.hpp,
    arrivalcache.cpp). The state of the receiver is given by the payloads it holds. */
module Fragments {
  import opened Bytes
  import opened Wrappers

  datatype Header = Header(deflate: bool, acknowledge: bool, id: nat, partNumber: byte, totalParts: byte)

  datatype Datagram = Datagram(header: Header, payload: seq<byte>, time: int)

  /** A message that is being put together: an empty slot is a gap. */
  datatype Entry = Entry(deflate: bool, slots: seq<seq<byte>>, created: int)

  type View = map<nat, Entry>

  datatype Outcome = Nothing | Delivered(message: seq<byte>) | Corrupt | OutOfRange

  /** zlib: compressed bytes and room for the result give the result, or an error. */
  type Inflate = (seq<byte>, nat) -> Option<seq<byte>>

  function Gaps(slots: seq<seq<byte>>): (n: nat)
    ensures n <= |slots|
  {
    if slots == [] then 0 else (if slots[0] == [] then 1 else 0) + Gaps(slots[1..])
  }

  lemma {:induction false} GapsClose(slots: seq<seq<byte>>, k: nat, payload: seq<byte>)
    requires k < |slots| && slots[k] == [] && payload != []
    ensures Gaps(slots[k := payload]) == Gaps(slots) - 1
    decreases |slots|
  {
    if k == 0 {
      assert slots[k := payload][1..] == slots[1..];
    } else {
      assert slots[k := payload][1..] == slots[1..][k - 1 := payload];
      GapsClose(slots[1..], k - 1, payload);
    }
  }

  lemma {:induction false} NoGaps(slots: seq<seq<byte>>)
    ensures Gaps(slots) == 0 <==> forall k :: 0 <= k < |slots| ==> slots[k] != []
    decreases |slots|
  {
    if slots != [] {
      NoGaps(slots[1..]);
      assert (forall k :: 0 <= k < |slots| ==> slots[k] != []) ==> forall k :: 0 <= k < |slots| - 1 ==> slots[1..][k] == slots[k + 1] != [];
    }
  }

  function Empties(n: nat): (slots: seq<seq<byte>>)
    ensures |slots| == n && Gaps(slots) == n
    ensures forall k :: 0 <= k < n ==> slots[k] == []
  {
    if n == 0 then [] else [[]] + Empties(n - 1)
  }

  /** OnCompleted: the parts in order, inflated if the first datagram said so. */
  function Completed(e: Entry, inflate: Inflate): Outcome {
    var data := Joined(e.slots);
    if !e.deflate then Delivered(data)
    else match inflate(data, 10 * |data|)
      case Some(message) => Delivered(message)
      case None => Corrupt
  }

  /** A datagram with a new id opens an entry. */
  function WithEntry(v: View, d: Datagram): View {
    if d.header.id in v then v else v[d.header.id := Entry(d.header.deflate, Empties(d.header.totalParts), d.time)]
  }

  /** A gap is filled; the last one completes the message. */
  function FillSlot(v: View, id: nat, k: nat, payload: seq<byte>, inflate: Inflate): (View, Outcome)
    requires id in v && k < |v[id].slots|
  {
    var e := v[id].(slots := v[id].slots[k := payload]);
    if v[id].slots[k] != [] || payload == [] then (v, Nothing)
    else if Gaps(e.slots) == 0 then (v - {id}, Completed(e, inflate))
    else (v[id := e], Nothing)
  }

  /** What a datagram does to the receiver. */
  function Receive(v: View, d: Datagram, inflate: Inflate): (View, Outcome) {
    var h, v1 := d.header, WithEntry(v, d);
    if h.partNumber == 0 then (v, Nothing)
    else if h.totalParts != |v1[h.id].slots| then (v1, Nothing)
    else if h.partNumber > h.totalParts then (v1, OutOfRange)
    else FillSlot(v1, h.id, h.partNumber - 1, d.payload, inflate)
  }

  /** The state after a run, and what its datagrams delivered. */
  function ViewAfter(v: View, ds: seq<Datagram>, inflate: Inflate): View {
    if ds == [] then v else Receive(ViewAfter(v, ds[..|ds| - 1], inflate), ds[|ds| - 1], inflate).0
  }

  function OutcomeOf(v: View, ds: seq<Datagram>, inflate: Inflate): Outcome
    requires ds != []
  {
    Receive(ViewAfter(v, ds[..|ds| - 1], inflate), ds[|ds| - 1], inflate).1
  }

  // ----- one message among others -----

  /** The datagrams with a given id. */
  function Of(ds: seq<Datagram>, id: nat): seq<Datagram> {
    if ds == [] then []
    else Of(ds[..|ds| - 1], id) + if ds[|ds| - 1].header.id == id then [ds[|ds| - 1]] else []
  }

  /** A nonempty part of a message of n parts. */
  predicate IsPart(d: Datagram, n: nat) {
    1 <= d.header.partNumber <= d.header.totalParts == n && d.payload != []
  }

  /** The first payload seen for part k + 1. */
  function First(ds: seq<Datagram>, k: nat): seq<byte> {
    if ds == [] then []
    else
      var before := First(ds[..|ds| - 1], k);
      if before == [] && ds[|ds| - 1].header.partNumber == k + 1 then ds[|ds| - 1].payload else before
  }

  function Firsts(ds: seq<Datagram>, n: nat): (slots: seq<seq<byte>>)
    ensures |slots| == n && forall k :: 0 <= k < n ==> slots[k] == First(ds, k)
  {
    seq(n, k requires 0 <= k => First(ds, k))
  }

  predicate AllSeen(ds: seq<Datagram>, n: nat) {
    forall k :: 0 <= k < n ==> First(ds, k) != []
  }

  /** Other messages make no difference. */
  lemma Independent(v: View, d: Datagram, inflate: Inflate, id: nat)
    requires d.header.id != id
    ensures var v' := Receive(v, d, inflate).0; (id in v' <==> id in v) && (id in v ==> v'[id] == v[id])
  {
  }

  /** Datagrams that are no part of a message change nothing, but that a number beyond the number of parts is
      reported, and opens the message if it is new. */
  lemma Refused(v: View, d: Datagram, inflate: Inflate)
    ensures d.header.partNumber == 0 ==> Receive(v, d, inflate) == (v, Nothing)
    ensures d.header.partNumber > 0 && d.header.id in v && d.header.totalParts != |v[d.header.id].slots| ==>
      Receive(v, d, inflate) == (v, Nothing)
    ensures d.header.partNumber > d.header.totalParts && (d.header.id in v ==> d.header.totalParts == |v[d.header.id].slots|) ==>
      var after, outcome := Receive(v, d, inflate).0, Receive(v, d, inflate).1;
      && outcome == OutOfRange && d.header.id in after && after - {d.header.id} == v - {d.header.id}
      && (if d.header.id in v then after == v
          else |after[d.header.id].slots| == d.header.totalParts && forall slot :: slot in after[d.header.id].slots ==> slot == [])
    ensures d.payload == [] && d.header.id in v && 0 < d.header.partNumber <= d.header.totalParts ==> Receive(v, d, inflate) == (v, Nothing)
  {
  }

  /** The assembly of a message of which the datagrams in mine have arrived. */
  function Assembly(mine: seq<Datagram>, n: nat): Entry
    requires mine != []
  {
    Entry(mine[0].header.deflate, Firsts(mine, n), mine[0].time)
  }

  /** Among any other traffic, as long as nothing is purged, a message of n parts holds the first
      payload seen of each part until the last gap is filled. Exactly the datagram that fills
      it delivers the message: the first payloads, in the order of the parts. */
  lemma {:induction false} DeliveredAtLastGap(v: View, ds: seq<Datagram>, inflate: Inflate, id: nat, n: nat)
    requires id !in v && n > 0 && forall d :: d in Of(ds, id) ==> IsPart(d, n)
    requires ds != [] ==> !AllSeen(Of(ds[..|ds| - 1], id), n)
    ensures Of(ds, id) == [] || AllSeen(Of(ds, id), n) ==> id !in ViewAfter(v, ds, inflate)
    ensures Of(ds, id) != [] && !AllSeen(Of(ds, id), n) ==>
      id in ViewAfter(v, ds, inflate) &&
      ViewAfter(v, ds, inflate)[id] == Assembly(Of(ds, id), n)
    ensures ds != [] && ds[|ds| - 1].header.id == id && !AllSeen(Of(ds, id), n) ==> OutcomeOf(v, ds, inflate) == Nothing
    ensures ds != [] && ds[|ds| - 1].header.id == id && AllSeen(Of(ds, id), n) ==>
      var data := Joined(Firsts(Of(ds, id), n));
      OutcomeOf(v, ds, inflate) ==
        if !Of(ds, id)[0].header.deflate then Delivered(data)
        else if inflate(data, 10 * |data|).Some? then Delivered(inflate(data, 10 * |data|).value) else Corrupt
    decreases |ds|
  {
    if ds != [] {
      var before, d := ds[..|ds| - 1], ds[|ds| - 1];
      var mine := Of(before, id);
      if before != [] { SeenGrows(before, id, n); }
      DeliveredAtLastGap(v, before, inflate, id, n);
      if d.header.id != id {
        Independent(ViewAfter(v, before, inflate), d, inflate, id);
        assert Of(ds, id) == mine;
      } else {
        assert Of(ds, id) == mine + [d] && d in Of(ds, id);
        OwnStep(ViewAfter(v, before, inflate), mine, d, inflate, n);
      }
    }
  }

  lemma OwnStep(v: View, mine: seq<Datagram>, d: Datagram, inflate: Inflate, n: nat)
    requires IsPart(d, n) && n > 0 && !AllSeen(mine, n)
    requires if mine == [] then d.header.id !in v else d.header.id in v && v[d.header.id] == Assembly(mine, n)
    ensures AllSeen(mine + [d], n) ==> Receive(v, d, inflate) == (v - {d.header.id}, Completed(Assembly(mine + [d], n), inflate))
    ensures !AllSeen(mine + [d], n) ==> Receive(v, d, inflate) == (v[d.header.id := Assembly(mine + [d], n)], Nothing)
  {
    OnePart(mine, d, n);
    var v1, id := WithEntry(v, d), d.header.id;
    assert v1[id].slots == Firsts(mine, n);
    assert Assembly(mine + [d], n) == v1[id].(slots := Firsts(mine + [d], n));
    NoGaps(Firsts(mine, n));
    SlotStep(v, v1, id, v1[id], d.header.partNumber - 1, d.payload, inflate, Assembly(mine + [d], n));
  }

  /** Opening an entry and filling a slot of it, seen from before. */
  lemma SlotStep(v: View, v1: View, id: nat, e: Entry, k: nat, payload: seq<byte>, inflate: Inflate, e': Entry)
    requires v1 == v[id := e] || (id in v && v1 == v && v[id] == e)
    requires k < |e.slots| && payload != [] && Gaps(e.slots) > 0
    requires e' == if e.slots[k] == [] then e.(slots := e.slots[k := payload]) else e
    ensures FillSlot(v1, id, k, payload, inflate) == if Gaps(e'.slots) == 0 then (v - {id}, Completed(e', inflate)) else (v[id := e'], Nothing)
  {
    assert v1 - {id} == v - {id};
    assert v1[id := e'] == v[id := e'];
    assert v1[id := e] == v1;
  }

  /** What was not complete with a datagram more was not complete without it. */
  lemma SeenGrows(ds: seq<Datagram>, id: nat, n: nat)
    requires ds != [] && !AllSeen(Of(ds, id), n)
    ensures !AllSeen(Of(ds[..|ds| - 1], id), n)
  {
    var mine := Of(ds, id);
    var k :| 0 <= k < n && First(mine, k) == [];
    var before := Of(ds[..|ds| - 1], id);
    if ds[|ds| - 1].header.id == id {
      assert mine[..|mine| - 1] == before;
    } else {
      assert mine == before;
    }
    assert First(before, k) == [];
  }

  /** One part more: its slot is filled if it was a gap. */
  lemma OnePart(mine: seq<Datagram>, d: Datagram, n: nat)
    requires IsPart(d, n)
    ensures var k := d.header.partNumber - 1;
      Firsts(mine + [d], n) == if First(mine, k) == [] then Firsts(mine, n)[k := d.payload] else Firsts(mine, n)
    ensures AllSeen(mine + [d], n) <==> Gaps(Firsts(mine + [d], n)) == 0
    ensures mine == [] ==> Firsts(mine, n) == Empties(n)
  {
    assert (mine + [d])[..|mine|] == mine;
    NoGaps(Firsts(mine + [d], n));
  }
}
