/** The queue of uploads (uploadmanager.cpp, uploader_impl.cpp). The first maxUploads uploaders may
    transfer, the others wait in order. */
module UploadManager {

  datatype Status = Idle | Transferring | Queued | Closing | Closed

  class Uploader {
    const address: nat
    var status: Status
    var queuePos: nat
    var queueSize: nat

    constructor (addr: nat)
      ensures address == addr && status == Idle && queuePos == 0
    {
      address, status, queuePos, queueSize := addr, Idle, 0, 0;
    }

    method SetQueue(pos: nat, size: nat)
      modifies this`queuePos, this`queueSize
      ensures queuePos == pos && queueSize == size
    {
      queuePos, queueSize := pos, size;
    }

    /** A request is answered: with an error, with a place in the queue, or with data. */
    method HandleRequest(valid: bool)
      modifies this`status
      ensures status == if !valid then Closing else if queuePos > 0 then Queued else Transferring
    {
      if !valid {
        status := Closing;
      } else if queuePos > 0 {
        status := Queued;
      } else {
        status := Transferring;
      }
    }
  }

  /** How many uploaders serve a host. */
  function CountHost(us: seq<Uploader>, address: nat): nat {
    if us == [] then 0 else CountHost(us[..|us| - 1], address) + if us[|us| - 1].address == address then 1 else 0
  }

  lemma {:induction false} CountHostIs(us: seq<Uploader>, address: nat)
    ensures CountHost(us, address) == |set i | 0 <= i < |us| && us[i].address == address|
    decreases |us|
  {
    var found := set i | 0 <= i < |us| && us[i].address == address;
    if us == [] {
      assert found == {};
    } else {
      var n := |us| - 1;
      CountHostIs(us[..n], address);
      var before := set i | 0 <= i < n && us[..n][i].address == address;
      assert found == if us[n].address == address then before + {n} else before;
    }
  }

  lemma {:induction false} CountConcat(a: seq<Uploader>, b: seq<Uploader>, address: nat)
    ensures CountHost(a + b, address) == CountHost(a, address) + CountHost(b, address)
    decreases |b|
  {
    if b == [] {
      assert a + b == a;
    } else {
      assert (a + b)[..|a + b| - 1] == a + b[..|b| - 1];
      CountConcat(a, b[..|b| - 1], address);
    }
  }

  lemma CountWithout(us: seq<Uploader>, i: nat, address: nat)
    requires i < |us|
    ensures CountHost(us[..i] + us[i + 1..], address) <= CountHost(us, address)
  {
    CountConcat(us[..i], us[i + 1..], address);
    CountConcat(us[..i], us[i..], address);
    CountConcat(us[i..i + 1], us[i + 1..], address);
    assert us == us[..i] + us[i..] && us[i..] == us[i..i + 1] + us[i + 1..];
  }

  lemma WithoutOne(us: seq<Uploader>, i: nat)
    requires i < |us| && forall j, k :: 0 <= j < k < |us| ==> us[j] != us[k]
    ensures var rest := us[..i] + us[i + 1..];
      && (forall k :: 0 <= k < |rest| ==> rest[k] == us[if k < i then k else k + 1])
      && (forall q :: q in rest <==> q in us && q != us[i])
  {
    var rest := us[..i] + us[i + 1..];
    forall q | q in us && q != us[i] ensures q in rest {
      var k :| 0 <= k < |us| && us[k] == q;
      assert rest[if k < i then k else k - 1] == q;
    }
  }

  /** How many uploaders are transferring. */
  function CountTransferring(us: seq<Uploader>): nat
    reads us
  {
    if us == [] then 0 else CountTransferring(us[..|us| - 1]) + if us[|us| - 1].status == Transferring then 1 else 0
  }

  lemma {:induction false} CountTransferringIs(us: seq<Uploader>)
    ensures CountTransferring(us) == |set i | 0 <= i < |us| && us[i].status == Transferring|
    decreases |us|
  {
    var found := set i | 0 <= i < |us| && us[i].status == Transferring;
    if us == [] {
      assert found == {};
    } else {
      var n := |us| - 1;
      CountTransferringIs(us[..n]);
      var before := set i | 0 <= i < n && us[..n][i].status == Transferring;
      assert found == if us[n].status == Transferring then before + {n} else before;
    }
  }

  lemma {:induction false} FewTransferring(us: seq<Uploader>, max: nat)
    requires forall i :: max <= i < |us| ==> us[i].status != Transferring
    ensures CountTransferring(us) <= max && CountTransferring(us) <= |us|
    decreases |us|
  {
    if us != [] {
      var n := |us| - 1;
      forall i | max <= i < n ensures us[..n][i].status != Transferring {}
      FewTransferring(us[..n], max);
    }
  }

  class Manager {
    const maxUploads: nat
    const queueLimit: nat
    const uploadsPerHost: nat
    var uploaders: seq<Uploader>
    /** All uploaders there have been. */
    ghost var everyone: set<Uploader>

    /** The position of an uploader in the queue, 0 for those that may transfer. */
    function Position(i: nat): nat {
      if i < maxUploads then 0 else i + 1 - maxUploads
    }

    /** How many uploaders wait. */
    function Waiting(): nat
      reads this
    {
      if |uploaders| <= maxUploads then 0 else |uploaders| - maxUploads
    }

    ghost predicate Valid()
      reads this, everyone
    {
      && (forall i :: 0 <= i < |uploaders| ==> uploaders[i] in everyone)
      && (forall i, j :: 0 <= i < j < |uploaders| ==> uploaders[i] != uploaders[j])
      && (forall i :: 0 <= i < |uploaders| ==> uploaders[i].queuePos == Position(i) && uploaders[i].queueSize == Waiting())
      && (forall i :: 0 <= i < |uploaders| && uploaders[i].status == Transferring ==> i < maxUploads)
      && (forall a :: CountHost(uploaders, a) <= uploadsPerHost)
      && |uploaders| <= queueLimit + maxUploads + 1
    }

    /** The first maxUploads places are not in the queue; behind them every place counts one more, and the last
        one counts those who wait. */
    lemma Places(i: nat)
      ensures i < maxUploads ==> Position(i) == 0
      ensures Position(maxUploads) == 1 && (i >= maxUploads ==> Position(i + 1) == Position(i) + 1)
      ensures Waiting() == if uploaders == [] then 0 else Position(|uploaders| - 1)
    {
    }

    constructor (uploads: nat, queue: nat, perHost: nat)
      ensures Valid() && uploaders == [] && everyone == {}
    {
      maxUploads, queueLimit, uploadsPerHost, uploaders, everyone := uploads, queue, perHost, [], {};
    }

    method UpdateQueue()
      requires forall i :: 0 <= i < |uploaders| ==> uploaders[i] in everyone
      requires forall i, j :: 0 <= i < j < |uploaders| ==> uploaders[i] != uploaders[j]
      modifies everyone
      ensures forall i :: 0 <= i < |uploaders| ==> uploaders[i].queuePos == Position(i) && uploaders[i].queueSize == Waiting()
      ensures forall i :: 0 <= i < |uploaders| ==> uploaders[i].status == old(uploaders[i].status)
    {
      var size := if |uploaders| <= maxUploads then 0 else |uploaders| - maxUploads;
      for i := 0 to |uploaders|
        invariant forall k :: 0 <= k < i ==> uploaders[k].queuePos == Position(k) && uploaders[k].queueSize == size
        invariant forall k :: 0 <= k < |uploaders| ==> uploaders[k].status == old(uploaders[k].status)
      {
        if i < maxUploads {
          uploaders[i].SetQueue(0, size);
        } else {
          uploaders[i].SetQueue(i + 1 - maxUploads, size);
        }
      }
    }

    /** A host connects: it is refused if it has too many uploaders or the list is too long. */
    method Accept(address: nat, valid: bool) returns (p: Uploader?)
      requires Valid()
      modifies this, everyone
      ensures Valid() && fresh(everyone - old(everyone)) && old(everyone) <= everyone
      ensures p == null <==> CountHost(old(uploaders), address) >= uploadsPerHost || |old(uploaders)| > queueLimit + maxUploads
      ensures p == null ==> uploaders == old(uploaders)
      ensures p != null ==> fresh(p) && uploaders == old(uploaders) + [p] && p.address == address
      ensures p != null ==> p.status == if !valid then Closing else if p.queuePos > 0 then Queued else Transferring
      ensures forall q :: q in old(uploaders) ==> q.queuePos == old(q.queuePos) && q.status == old(q.status)
    {
      var count := 0;
      for i := 0 to |uploaders|
        invariant count == CountHost(uploaders[..i], address)
      {
        assert uploaders[..i + 1][..i] == uploaders[..i];
        if uploaders[i].address == address { count := count + 1; }
      }
      assert uploaders[..|uploaders|] == uploaders;
      if count >= uploadsPerHost { return null; }
      if |uploaders| > queueLimit + maxUploads { return null; }
      var added := new Uploader(address);
      forall a ensures CountHost(uploaders + [added], a) == CountHost(uploaders, a) + if a == address then 1 else 0 {
        assert (uploaders + [added])[..|uploaders|] == uploaders;
      }
      uploaders, everyone := uploaders + [added], everyone + {added};
      UpdateQueue();
      added.HandleRequest(valid);
      p := added;
    }

    /** An uploader leaves; those behind it move up. */
    method Detach(p: Uploader)
      requires Valid()
      modifies this, everyone
      ensures Valid() && everyone == old(everyone)
      ensures p !in uploaders && (p !in old(uploaders) ==> uploaders == old(uploaders))
      ensures p in old(uploaders) ==>
        exists i :: 0 <= i < |old(uploaders)| && old(uploaders)[i] == p && uploaders == old(uploaders)[..i] + old(uploaders)[i + 1..]
      ensures forall q :: q in uploaders <==> q in old(uploaders) && q != p
      ensures forall q :: q in uploaders ==> q.queuePos <= old(q.queuePos) && q.status == old(q.status)
    {
      for i := 0 to |uploaders|
        invariant uploaders == old(uploaders) && forall k :: 0 <= k < i ==> uploaders[k] != p
      {
        if uploaders[i] == p {
          Erase(i);
          return;
        }
      }
      UpdateQueue();
    }

    method Erase(i: nat)
      requires Valid() && i < |uploaders|
      modifies this, everyone
      ensures Valid() && everyone == old(everyone) && uploaders == old(uploaders)[..i] + old(uploaders)[i + 1..]
      ensures forall q :: q in uploaders <==> q in old(uploaders) && q != old(uploaders)[i]
      ensures forall q :: q in uploaders ==> q.queuePos <= old(q.queuePos) && q.status == old(q.status)
    {
      ghost var before := uploaders;
      ghost var rest := before[..i] + before[i + 1..];
      forall a ensures CountHost(rest, a) <= uploadsPerHost { CountWithout(before, i, a); }
      WithoutOne(before, i);
      uploaders := uploaders[..i] + uploaders[i + 1..];
      UpdateQueue();
    }

    /** A queued or idle uploader sends a request. */
    method OnRequest(p: Uploader, valid: bool)
      requires Valid() && p in uploaders && p.status in {Idle, Queued}
      modifies p`status
      ensures Valid() && p.queuePos == old(p.queuePos)
      ensures p.status == if !valid then Closing else if p.queuePos > 0 then Queued else Transferring
    {
      p.HandleRequest(valid);
    }

    /** A range has been sent. */
    method OnSent(p: Uploader)
      requires Valid() && p in uploaders && p.status == Transferring
      modifies p`status
      ensures Valid() && p.queuePos == old(p.queuePos) && p.status == Idle
    {
      p.status := Idle;
    }
  }

  datatype Event = Accept(address: nat, valid: bool) | Detach(k: nat) | Request(k: nat, valid: bool) | Sent(k: nat)

  /** In every run with fixed settings, at most maxUploads uploaders transfer at a time, no host
      has more than its share, the list does not grow beyond its limit, and whoever stays never
      moves back in the queue. */
  method Run(m: Manager, events: seq<Event>)
    requires m.Valid()
    modifies m, m.everyone
    ensures m.Valid() && CountTransferring(m.uploaders) <= m.maxUploads
    ensures forall a :: CountHost(m.uploaders, a) <= m.uploadsPerHost
    ensures |m.uploaders| <= m.queueLimit + m.maxUploads + 1
    ensures forall q :: q in m.uploaders && q in old(m.uploaders) ==> q.queuePos <= old(q.queuePos)
  {
    for i := 0 to |events|
      invariant m.Valid() && fresh(m.everyone - old(m.everyone))
      invariant forall q :: q in old(m.uploaders) ==> q in old(m.everyone)
      invariant forall q :: q in m.uploaders && q in old(m.everyone) ==> q in old(m.uploaders)
      invariant forall q :: q in m.uploaders && q in old(m.uploaders) ==> q.queuePos <= old(q.queuePos)
    {
      match events[i] {
        case Accept(address, valid) => var p := m.Accept(address, valid);
        case Detach(k) => if k < |m.uploaders| { m.Detach(m.uploaders[k]); }
        case Request(k, valid) =>
          if k < |m.uploaders| && m.uploaders[k].status in {Idle, Queued} { m.OnRequest(m.uploaders[k], valid); }
        case Sent(k) => if k < |m.uploaders| && m.uploaders[k].status == Transferring { m.OnSent(m.uploaders[k]); }
      }
    }
    FewTransferring(m.uploaders, m.maxUploads);
  }
}
