/** Reassembly of datagrams with a shared pool of buffers (arrivalcache.cpp, bytepool.hpp,
    objpool.hpp, bytevector.hpp). */
module ArrivalCache {
  import opened Bytes
  import opened Wrappers
  import opened Fragments

  class ByteVector {
    var data: seq<byte>

    constructor ()
      ensures data == []
    {
      data := [];
    }
  }

  /** Free buffers; the one that has been free for longest is used first. */
  class BytePool {
    var pool: seq<ByteVector>

    constructor ()
      ensures pool == []
    {
      pool := [];
    }

    method Get() returns (p: ByteVector)
      modifies this
      ensures old(pool) == [] ==> fresh(p) && p.data == [] && pool == []
      ensures old(pool) != [] ==> p == old(pool)[0] && pool == old(pool)[1..]
    {
      if pool == [] {
        p := new ByteVector();
      } else {
        p := pool[0];
        pool := pool[1..];
      }
    }

    method Release(p: ByteVector)
      modifies this, p
      ensures p.data == [] && pool == old(pool) + [p]
    {
      p.data := [];
      pool := pool + [p];
    }
  }

  /** A message being received. */
  datatype Packet = Packet(header: Header, parts: seq<ByteVector>, created: int, validParts: nat)

  /** What a buffer is used for: nothing, waiting in the pool with a ticket number, or a slot of
      the packet with some id. */
  datatype Use = Free(ticket: nat) | Slot(id: nat, k: nat, data: seq<byte>) {
    function Data(): seq<byte> { if Free? then [] else data }
  }

  type Packets = map<nat, Packet>
  type Uses = map<ByteVector, Use>

  /** Every buffer is either free and in the pool, once, or in exactly one slot. Tickets of the
      pool count on from base. While packet gone is being erased, its first slots are free. */
  ghost predicate Sound(free: seq<ByteVector>, base: nat, cache: Packets, uses: Uses, gone: nat, first: nat) {
    && (forall j :: 0 <= j < |free| ==> free[j] in uses && uses[free[j]] == Free(base + j))
    && (forall id, k :: id in cache && 0 <= k < |cache[id].parts| && (id == gone ==> first <= k) ==>
        InSlot(uses, cache[id].parts[k], id, k))
    && (forall b :: b in uses && uses[b].Free? ==> base <= uses[b].ticket < base + |free| && free[uses[b].ticket - base] == b)
    && (forall b :: b in uses && uses[b].Slot? ==> Occupies(cache, b, uses[b].id, uses[b].k) && (uses[b].id == gone ==> first <= uses[b].k))
  }

  ghost predicate InSlot(uses: Uses, b: ByteVector, id: nat, k: nat) {
    b in uses && uses[b].Slot? && uses[b].id == id && uses[b].k == k
  }

  ghost predicate Occupies(cache: Packets, b: ByteVector, id: nat, k: nat) {
    id in cache && k < |cache[id].parts| && cache[id].parts[k] == b
  }

  /** The slots of a packet are what its buffers hold, and validParts counts those in use. */
  ghost predicate Matches(p: Packet, e: Entry, uses: Uses) {
    && |p.parts| == |e.slots| == p.header.totalParts && e.deflate == p.header.deflate && e.created == p.created
    && (forall i :: 0 <= i < |p.parts| ==> p.parts[i] in uses && uses[p.parts[i]].Data() == e.slots[i])
    && p.validParts == |e.slots| - Gaps(e.slots)
  }

  /** Complete packets do not stay. */
  ghost predicate Tied(p: Packet, e: Entry, uses: Uses) {
    Matches(p, e, uses) && (e.slots != [] ==> Gaps(e.slots) > 0)
  }

  lemma SameTime(p: Packet, e: Entry, uses: Uses)
    requires Tied(p, e, uses)
    ensures e.created == p.created
  {
  }

  ghost predicate AllTied(cache: Packets, view: View, uses: Uses) {
    view.Keys == cache.Keys && forall id :: id in cache ==> Tied(cache[id], view[id], uses)
  }

  /** A buffer that was first in the pool, or is new, goes to the next slot of a packet, ... */
  lemma GetKeeps(free: seq<ByteVector>, base: nat, cache: Packets, uses: Uses, id: nat, b: ByteVector)
    requires Sound(free, base, cache, uses, 0, 0) && id in cache
    requires if free == [] then b !in uses else b == free[0]
    ensures if free == [] then b !in uses else b in uses && uses[b].Free?
    ensures Sound(if free == [] then [] else free[1..], if free == [] then base else base + 1,
      cache[id := cache[id].(parts := cache[id].parts + [b])], uses[b := Slot(id, |cache[id].parts|, [])], 0, 0)
  {
    var free' := if free == [] then [] else free[1..];
    var cache', uses' := cache[id := cache[id].(parts := cache[id].parts + [b])], uses[b := Slot(id, |cache[id].parts|, [])];
    forall j | 0 <= j < |free'| ensures free'[j] in uses' && uses'[free'[j]] == Free(base + 1 + j) {
      assert free'[j] == free[j + 1];
    }
    forall k, i | k in cache' && 0 <= i < |cache'[k].parts| ensures InSlot(uses', cache'[k].parts[i], k, i) {
      if k != id || i < |cache[id].parts| { assert InSlot(uses, cache[k].parts[i], k, i); }
    }
    forall c | c in uses' && uses'[c].Slot? ensures Occupies(cache', c, uses'[c].id, uses'[c].k) {
      if c != b { assert Occupies(cache, c, uses[c].id, uses[c].k); }
    }
  }

  /** A new packet has no slots yet. */
  lemma InsertKeeps(free: seq<ByteVector>, base: nat, cache: Packets, uses: Uses, id: nat, p: Packet)
    requires Sound(free, base, cache, uses, 0, 0) && id !in cache && p.parts == []
    ensures Sound(free, base, cache[id := p], uses, 0, 0)
  {
  }

  /** ... back to the end of the pool, ... */
  lemma ReleaseKeeps(free: seq<ByteVector>, base: nat, cache: Packets, uses: Uses, id: nat, i: nat)
    requires Sound(free, base, cache, uses, id, i) && id in cache && i < |cache[id].parts|
    ensures InSlot(uses, cache[id].parts[i], id, i)
    ensures Sound(free + [cache[id].parts[i]], base, cache, uses[cache[id].parts[i] := Free(base + |free|)], id, i + 1)
  {
  }

  lemma ReleaseBegins(free: seq<ByteVector>, base: nat, cache: Packets, uses: Uses, id: nat)
    requires Sound(free, base, cache, uses, 0, 0)
    ensures Sound(free, base, cache, uses, id, 0)
  {
  }

  /** ... until the packet has no slot left and is forgotten. */
  lemma ForgetKeeps(free: seq<ByteVector>, base: nat, cache: Packets, uses: Uses, id: nat)
    requires id in cache && Sound(free, base, cache, uses, id, |cache[id].parts|)
    ensures Sound(free, base, cache - {id}, uses, 0, 0)
  {
  }

  /** A slot that was a gap is filled. */
  lemma FillKeeps(free: seq<ByteVector>, base: nat, cache: Packets, uses: Uses, e: Entry, id: nat, k: nat, payload: seq<byte>)
    requires Sound(free, base, cache, uses, 0, 0) && id in cache && Matches(cache[id], e, uses)
    requires k < |cache[id].parts| && e.slots[k] == [] && payload != []
    ensures InSlot(uses, cache[id].parts[k], id, k)
    ensures var p' := cache[id].(validParts := cache[id].validParts + 1);
      var uses' := uses[cache[id].parts[k] := Slot(id, k, payload)];
      && Sound(free, base, cache[id := p'], uses', 0, 0)
      && Matches(p', e.(slots := e.slots[k := payload]), uses')
      && (p'.validParts == |p'.parts| <==> Gaps(e.slots[k := payload]) == 0)
  {
    var p, b := cache[id], cache[id].parts[k];
    assert InSlot(uses, b, id, k);
    var p' := p.(validParts := p.validParts + 1);
    var cache', uses' := cache[id := p'], uses[b := Slot(id, k, payload)];
    GapsClose(e.slots, k, payload);
    forall j, i | j in cache' && 0 <= i < |cache'[j].parts| ensures InSlot(uses', cache'[j].parts[i], j, i) {
      assert InSlot(uses, cache[j].parts[i], j, i);
    }
    forall c | c in uses' && uses'[c].Slot? ensures Occupies(cache', c, uses'[c].id, uses'[c].k) {
      assert Occupies(cache, c, uses[c].id, uses[c].k);
    }
    forall i | 0 <= i < |p.parts| ensures uses'[p.parts[i]].Data() == e.slots[k := payload][i] {
      assert InSlot(uses, p.parts[i], id, i);
    }
  }

  /** Packets whose buffers are left alone stay tied. */
  lemma OthersTied(cache: Packets, view: View, uses: Uses, cache': Packets, view': View, uses': Uses, id: nat)
    requires view.Keys == cache.Keys && view'.Keys == cache'.Keys
    requires forall k :: k in cache && k != id ==> Tied(cache[k], view[k], uses)
    requires forall k :: k in cache' && k != id ==> k in cache && cache'[k] == cache[k] && view'[k] == view[k]
    requires forall b :: b in uses && uses[b].Slot? && uses[b].id != id ==> b in uses' && uses'[b] == uses[b]
    requires forall k, i :: k in cache' && k != id && 0 <= i < |cache'[k].parts| ==> InSlot(uses, cache'[k].parts[i], k, i)
    ensures forall k :: k in cache' && k != id ==> Tied(cache'[k], view'[k], uses')
  {
  }

  /** All of that for the packet in whose slot a payload has gone. */
  lemma FillTied(free: seq<ByteVector>, base: nat, cache: Packets, view: View, uses: Uses, id: nat, k: nat, payload: seq<byte>)
    returns (cache': Packets, view': View, uses': Uses)
    requires Sound(free, base, cache, uses, 0, 0) && id in cache && AllTied(cache, view, uses)
    requires k < |cache[id].parts| && view[id].slots[k] == [] && payload != []
    ensures cache[id].parts[k] in uses && cache' == cache[id := cache[id].(validParts := cache[id].validParts + 1)]
    ensures uses' == uses[cache[id].parts[k] := Slot(id, k, payload)]
    ensures view' == view[id := view[id].(slots := view[id].slots[k := payload])]
    ensures Sound(free, base, cache', uses', 0, 0) && Matches(cache'[id], view'[id], uses')
    ensures cache'[id].validParts == |cache'[id].parts| <==> Gaps(view'[id].slots) == 0
    ensures forall j :: j in cache' && j != id ==> Tied(cache'[j], view'[j], uses')
  {
    FillKeeps(free, base, cache, uses, view[id], id, k, payload);
    cache' := cache[id := cache[id].(validParts := cache[id].validParts + 1)];
    uses' := uses[cache[id].parts[k] := Slot(id, k, payload)];
    view' := view[id := view[id].(slots := view[id].slots[k := payload])];
    OthersTied(cache, view, uses, cache', view', uses', id);
  }

  class Cache {
    const pool: BytePool
    const inflate: Inflate
    var cache: Packets

    ghost var uses: Uses
    ghost var base: nat
    /** The payloads that are held. */
    ghost var view: View

    /** The buffers hold what the books say; free ones are empty. */
    ghost predicate Held()
      reads this, uses.Keys
    {
      forall b :: b in uses ==> b.data == uses[b].Data()
    }

    ghost predicate Owned(gone: nat, first: nat)
      reads this, pool, uses.Keys
    {
      Held() && Sound(pool.pool, base, cache, uses, gone, first)
    }

    ghost predicate Valid()
      reads this, pool, uses.Keys
    {
      Owned(0, 0) && AllTied(cache, view, uses)
    }

    constructor (zlib: Inflate)
      ensures Valid() && view == map[] && inflate == zlib && fresh(pool) && uses == map[]
    {
      pool := new BytePool();
      inflate, cache, uses, base, view := zlib, map[], map[], 0, map[];
    }

    /** A buffer from the pool goes to the next slot of a packet. */
    method GetPart(id: nat) returns (b: ByteVector)
      requires Owned(0, 0) && id in cache
      modifies this`cache, this`uses, this`base, pool
      ensures Owned(0, 0) && (fresh(b) || (b in old(uses) && old(uses)[b].Free?))
      ensures cache == old(cache)[id := old(cache[id]).(parts := old(cache[id].parts) + [b])]
      ensures uses == old(uses)[b := Slot(id, |old(cache[id].parts)|, [])]
    {
      hide Sound;
      ghost var free, base0 := pool.pool, base;
      if pool.pool != [] { base := base + 1; }
      b := pool.Get();
      GetKeeps(free, base0, cache, uses, id, b);
      uses := uses[b := Slot(id, |cache[id].parts|, [])];
      cache := cache[id := cache[id].(parts := cache[id].parts + [b])];
    }

    /** Buffers for all parts of a packet. */
    method GetParts(id: nat, n: nat)
      requires Owned(0, 0) && id in cache && cache[id].parts == []
      modifies this`cache, this`uses, this`base, pool
      ensures Owned(0, 0) && fresh(uses.Keys - old(uses.Keys))
      ensures id in cache && cache == old(cache)[id := old(cache[id]).(parts := cache[id].parts)]
      ensures |cache[id].parts| == n && forall k :: 0 <= k < n ==> cache[id].parts[k] in uses && uses[cache[id].parts[k]] == Slot(id, k, [])
      ensures forall b :: b in old(uses) && old(uses)[b].Slot? ==> b in uses && uses[b] == old(uses)[b]
    {
      hide Sound;
      for i := 0 to n
        invariant Owned(0, 0) && fresh(uses.Keys - old(uses.Keys))
        invariant id in cache && cache == old(cache)[id := old(cache[id]).(parts := cache[id].parts)]
        invariant |cache[id].parts| == i && forall k :: 0 <= k < i ==> cache[id].parts[k] in uses && uses[cache[id].parts[k]] == Slot(id, k, [])
        invariant forall b :: b in old(uses) && old(uses)[b].Slot? ==> b in uses && uses[b] == old(uses)[b]
      {
        var b := GetPart(id);
      }
    }

    method NewPacket(h: Header, now: int)
      requires Valid() && h.id !in cache
      modifies this`cache, this`uses, this`base, this`view, pool
      ensures Valid() && fresh(uses.Keys - old(uses.Keys))
      ensures view == old(view)[h.id := Entry(h.deflate, Empties(h.totalParts), now)]
    {
      InsertKeeps(pool.pool, base, cache, uses, h.id, Packet(h, [], now, 0));
      cache := cache[h.id := Packet(h, [], now, 0)];
      GetParts(h.id, h.totalParts);
      view := view[h.id := Entry(h.deflate, Empties(h.totalParts), now)];
      OthersTied(old(cache), old(view), old(uses), cache, view, uses, h.id);
    }

    /** The buffers of a packet go back to the pool, and the packet is forgotten. */
    method ErasePacket(id: nat)
      requires Owned(0, 0) && id in cache && view.Keys == cache.Keys
      requires forall k :: k in cache && k != id ==> Tied(cache[k], view[k], uses)
      modifies this`cache, this`uses, this`view, pool, cache[id].parts
      ensures Valid() && view == old(view) - {id} && uses.Keys == old(uses.Keys)
    {
      ReleaseParts(id);
      ForgetKeeps(pool.pool, base, cache, uses, id);
      cache := cache - {id};
      view := view - {id};
      OthersTied(old(cache), old(view), old(uses), cache, view, uses, id);
    }

    method ReleaseParts(id: nat)
      requires Owned(0, 0) && id in cache
      modifies this`uses, pool, cache[id].parts
      ensures Owned(id, |cache[id].parts|) && uses.Keys == old(uses.Keys)
      ensures forall b :: b in old(uses) && old(uses)[b].Slot? && old(uses)[b].id != id ==> uses[b] == old(uses)[b]
    {
      hide Sound;
      ReleaseBegins(pool.pool, base, cache, uses, id);
      for i := 0 to |cache[id].parts|
        invariant Owned(id, i) && uses.Keys == old(uses.Keys)
        invariant forall b :: b in old(uses) && old(uses)[b].Slot? && old(uses)[b].id != id ==> uses[b] == old(uses)[b]
      {
        ReleasePart(id, i);
      }
    }

    method ReleasePart(id: nat, i: nat)
      requires Owned(id, i) && id in cache && i < |cache[id].parts|
      modifies this`uses, pool, cache[id].parts[i]
      ensures Owned(id, i + 1) && uses.Keys == old(uses.Keys)
      ensures uses == old(uses)[cache[id].parts[i] := Free(base + |old(pool.pool)|)]
      ensures cache[id].parts[i] in old(uses) && InSlot(old(uses), cache[id].parts[i], id, i)
    {
      hide Sound;
      ghost var free := pool.pool;
      ReleaseKeeps(free, base, cache, uses, id, i);
      var b := cache[id].parts[i];
      pool.Release(b);
      uses := uses[b := Free(base + |free|)];
      assert Sound(free + [b], base, cache, uses, id, i + 1);
    }

    /** The payload of a datagram goes to its slot. */
    method FillPart(id: nat, k: nat, payload: seq<byte>)
      requires Valid() && id in cache && k < |cache[id].parts| && view[id].slots[k] == [] && payload != []
      modifies this`cache, this`uses, this`view, cache[id].parts[k]
      ensures Owned(0, 0) && view.Keys == cache.Keys && uses.Keys == old(uses.Keys)
      ensures forall j :: j in cache && j != id ==> Tied(cache[j], view[j], uses)
      ensures id in cache && cache[id].parts == old(cache)[id].parts
      ensures view == old(view)[id := old(view)[id].(slots := old(view)[id].slots[k := payload])]
      ensures Matches(cache[id], view[id], uses)
      ensures cache[id].validParts == |cache[id].parts| <==> Gaps(view[id].slots) == 0
    {
      hide Sound, Gaps, Matches;
      ghost var cache', view', uses' := FillTied(pool.pool, base, cache, view, uses, id, k, payload);
      Assign(cache[id].parts[k], payload, Slot(id, k, payload));
      cache := cache[id := cache[id].(validParts := cache[id].validParts + 1)];
      view := view';
      assert cache == cache' && uses == uses';
    }

    method Assign(b: ByteVector, payload: seq<byte>, ghost use: Use)
      requires Held() && b in uses && use.Data() == payload
      modifies this`uses, b
      ensures Held() && uses == old(uses)[b := use]
    {
      b.data := payload;
      uses := uses[b := use];
    }

    /** OnCompleted: the buffers of all parts one after the other, inflated if need be. */
    method OnCompleted(p: Packet, ghost e: Entry) returns (outcome: Outcome)
      requires Held() && Matches(p, e, uses)
      ensures outcome == Completed(e, inflate)
      ensures !e.deflate ==> outcome == Delivered(Joined(e.slots))
      ensures e.deflate ==> match inflate(Joined(e.slots), 10 * |Joined(e.slots)|)
        case Some(message) => outcome == Delivered(message)
        case None => outcome == Corrupt
    {
      var zbuf := [];
      for i := 0 to |p.parts|
        invariant zbuf == Joined(e.slots[..i])
      {
        assert e.slots[..i + 1][..i] == e.slots[..i];
        zbuf := zbuf + p.parts[i].data;
      }
      assert e.slots[..|p.parts|] == e.slots;
      if p.header.deflate {
        var message := inflate(zbuf, 10 * |zbuf|);
        outcome := if message.Some? then Delivered(message.value) else Corrupt;
      } else {
        outcome := Delivered(zbuf);
      }
    }

    /** A datagram has arrived. A part number beyond the number of parts is an exception. */
    method Put(d: Datagram) returns (outcome: Outcome)
      requires Valid()
      modifies this, pool, uses.Keys
      ensures Valid() && fresh(uses.Keys - old(uses.Keys))
      ensures (view, outcome) == Receive(old(view), d, inflate)
    {
      var h := d.header;
      if h.partNumber == 0 { return Nothing; }
      if h.id !in cache { NewPacket(h, d.time); }
      assert Tied(cache[h.id], view[h.id], uses);
      if h.totalParts != |cache[h.id].parts| { return Nothing; }
      if h.partNumber > |cache[h.id].parts| { return OutOfRange; }
      outcome := PutPart(h.id, h.partNumber - 1, d.payload);
    }

    /** The rest of Put: the part is kept unless it is there already, and the last one completes
        the message. */
    method PutPart(id: nat, k: nat, payload: seq<byte>) returns (outcome: Outcome)
      requires Valid() && id in cache && k < |cache[id].parts|
      modifies this, pool, uses.Keys
      ensures Valid() && uses.Keys == old(uses.Keys)
      ensures id in old(view) && k < |old(view)[id].slots| && (view, outcome) == FillSlot(old(view), id, k, payload, inflate)
    {
      hide Sound, Completed, Gaps;
      assert Tied(cache[id], view[id], uses);
      assert cache[id].parts[k] in uses;
      if cache[id].parts[k].data != [] || |payload| == 0 { return Nothing; }
      FillPart(id, k, payload);
      if cache[id].validParts == |cache[id].parts| {
        outcome := OnCompleted(cache[id], view[id]);
        ErasePacket(id);
        assert view == old(view) - {id};
      } else {
        outcome := Nothing;
      }
    }

    /** Messages that have not been completed within 10 seconds are forgotten. */
    method PurgeOld(now: int)
      requires Valid()
      modifies this, pool, uses.Keys
      ensures Valid() && uses.Keys == old(uses.Keys)
      ensures forall id :: id in view <==> id in old(view) && now - old(view)[id].created <= 10
      ensures forall id :: id in view ==> view[id] == old(view)[id]
    {
      hide Sound, Matches;
      var rest := cache.Keys;
      while rest != {}
        invariant Valid() && uses.Keys == old(uses.Keys) && rest <= cache.Keys
        invariant forall id :: id in view <==> id in old(view) && (id in rest || now - old(view)[id].created <= 10)
        invariant forall id :: id in view ==> view[id] == old(view)[id]
        decreases |rest|
      {
        var id :| id in rest;
        rest := rest - {id};
        SameTime(cache[id], view[id], uses);
        if now - cache[id].created > 10 { Purge(id); }
      }
    }

    method Purge(id: nat)
      requires Valid() && id in cache
      modifies this, pool, uses.Keys
      ensures Valid() && uses.Keys == old(uses.Keys) && view == old(view) - {id}
    {
      forall k | 0 <= k < |cache[id].parts| ensures cache[id].parts[k] in uses {
        assert Tied(cache[id], view[id], uses);
      }
      ErasePacket(id);
    }
  }

  /** A run of datagrams delivers what ViewAfter and OutcomeOf say, and keeps the books of the
      buffers in order. */
  method ReceiveAll(c: Cache, ds: seq<Datagram>) returns (outcomes: seq<Outcome>)
    requires c.Valid()
    modifies c, c.pool, c.uses.Keys
    ensures c.Valid() && |outcomes| == |ds|
    ensures c.view == ViewAfter(old(c.view), ds, c.inflate)
    ensures forall i :: 0 <= i < |ds| ==> outcomes[i] == OutcomeOf(old(c.view), ds[..i + 1], c.inflate)
  {
    hide Cache.Valid, Receive;
    outcomes := [];
    ghost var v0 := c.view;
    for i := 0 to |ds|
      invariant c.Valid() && fresh(c.uses.Keys - old(c.uses.Keys)) && |outcomes| == i
      invariant c.view == ViewAfter(v0, ds[..i], c.inflate)
      invariant forall j :: 0 <= j < i ==> outcomes[j] == OutcomeOf(v0, ds[..j + 1], c.inflate)
    {
      assert ds[..i + 1][..i] == ds[..i];
      var outcome := c.Put(ds[i]);
      outcomes := outcomes + [outcome];
    }
    assert ds[..|ds|] == ds;
  }
}
