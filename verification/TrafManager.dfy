/** Sharing the bandwidth of one second among clients (trafmanager.cpp, trafmanager.hpp). */
module TrafManager {

  datatype Quota = Quota(amount: nat, timestamp: int)

  type Clients = map<nat, Quota>

  /** The amounts of all clients. */
  ghost function Sum(clients: Clients): nat
    decreases |clients|
  {
    if clients == map[] then 0
    else
      var k :| k in clients;
      CardinalityWithout(clients, k);
      clients[k].amount + Sum(clients - {k})
  }

  lemma CardinalityWithout(clients: Clients, k: nat)
    requires k in clients
    ensures |clients| == |clients - {k}| + 1
  {
    assert (clients - {k}).Keys == clients.Keys - {k};
  }

  lemma {:induction false} SumAt(clients: Clients, k: nat)
    requires k in clients
    ensures Sum(clients) == clients[k].amount + Sum(clients - {k})
    decreases |clients|
  {
    var j :| j in clients && Sum(clients) == clients[j].amount + Sum(clients - {j});
    if j != k {
      CardinalityWithout(clients, j);
      CardinalityWithout(clients, k);
      SumAt(clients - {j}, k);
      SumAt(clients - {k}, j);
      assert clients - {j} - {k} == clients - {k} - {j};
    }
  }

  lemma SumUpdate(clients: Clients, k: nat, q: Quota)
    ensures Sum(clients[k := q]) + (if k in clients then clients[k].amount else 0) == Sum(clients) + q.amount
  {
    SumAt(clients[k := q], k);
    assert clients[k := q] - {k} == clients - {k};
    if k in clients { SumAt(clients, k); } else { assert clients - {k} == clients; }
  }

  lemma {:induction false} SumEqual(clients: Clients, amount: nat)
    requires forall k :: k in clients ==> clients[k].amount == amount
    ensures Sum(clients) == amount * |clients|
    decreases |clients|
  {
    if clients != map[] {
      hide Sum;
      var k :| k in clients;
      SumAt(clients, k);
      CardinalityWithout(clients, k);
      SumEqual(clients - {k}, amount);
      OneMore(amount, |clients - {k}|);
    }
  }

  lemma OneMore(amount: nat, n: nat)
    ensures amount * (n + 1) == amount * n + amount
  {
  }

  function Min(a: nat, b: nat): (m: nat)
    ensures m <= a && m <= b && m in {a, b}
  {
    if a < b then a else b
  }

  /** A client that was there at the tick has been granted what it asked for, or its quota. */
  ghost predicate IsFair(clients: map<nat, Quota>, wanted: map<nat, nat>, granted: map<nat, nat>, quota: map<nat, nat>) {
    forall c :: c in quota ==>
      && c in clients && c in wanted && c in granted
      && granted[c] + clients[c].amount >= quota[c]
      && granted[c] >= Min(wanted[c], quota[c])
  }

  /** A request is granted as far as the free share and the own amount go. */
  lemma FairUse(clients: map<nat, Quota>, wanted: map<nat, nat>, granted: map<nat, nat>, quota: map<nat, nat>,
                endpoint: nat, want: nat, use: nat, amount: nat, q: Quota)
    requires IsFair(clients, wanted, granted, quota)
    requires amount >= (if endpoint in clients then clients[endpoint].amount else 0) && use == Min(want, amount) && q.amount == amount - use
    ensures IsFair(clients[endpoint := q],
      wanted[endpoint := want + if endpoint in wanted then wanted[endpoint] else 0],
      granted[endpoint := use + if endpoint in granted then granted[endpoint] else 0], quota)
  {
  }

  lemma NothingShared(clients: map<nat, Quota>, wanted: map<nat, nat>, granted: map<nat, nat>, quota: map<nat, nat>)
    requires clients == map[] && quota == map[]
    ensures IsFair(clients, wanted, granted, quota) && Sum(clients) == 0
  {
  }

  class Manager {
    var maxShare: nat
    var share: nat
    var now: int
    var usage0: nat
    var usage1: nat
    var usage2: nat
    var clients: Clients
    var threshold: bool

    /** maxShare at the last tick, what each client asked for and was granted since, and the
        quota of the clients that were there. */
    ghost var limit: nat
    ghost var wanted: map<nat, nat>
    ghost var granted: map<nat, nat>
    ghost var quota: map<nat, nat>

    /** What can still be granted and what has been granted stay within the limit of the tick. */
    ghost predicate Limited()
      reads this
    {
      share + Sum(clients) + usage0 <= limit
    }

    ghost predicate Fair()
      reads this
    {
      IsFair(clients, wanted, granted, quota)
    }

    ghost predicate Valid()
      reads this
    {
      Limited() && Fair()
    }

    constructor (max: nat)
      ensures Valid() && maxShare == max && usage0 == 0 && clients == map[]
    {
      maxShare, share, now, usage0, usage1, usage2 := max, 0, 0, 0, 0, 0;
      clients, threshold, limit, wanted, granted, quota := map[], false, 0, map[], map[], map[];
    }

    method SetShare(max: nat)
      requires Valid()
      modifies this`maxShare
      ensures Valid() && maxShare == max
    {
      maxShare := max;
    }

    /** Clients that have not asked for three seconds are forgotten. */
    method Sweep()
      modifies this`clients
      ensures forall c :: c in clients <==> c in old(clients) && now - old(clients)[c].timestamp <= 3
      ensures forall c :: c in clients ==> clients[c] == old(clients)[c]
    {
      var rest := clients.Keys;
      while rest != {}
        invariant rest <= clients.Keys
        invariant forall c :: c in clients <==> c in old(clients) && (c in rest || now - old(clients)[c].timestamp <= 3)
        invariant forall c :: c in clients ==> clients[c] == old(clients)[c]
        decreases |rest|
      {
        var c :| c in rest;
        rest := rest - {c};
        if now - clients[c].timestamp > 3 { clients := clients - {c}; }
      }
    }

    /** A new second: nine tenths are shared freely, one tenth is split among the clients. */
    method OnTimer(time: int)
      requires Valid()
      modifies this
      ensures Valid() && now == time && maxShare == old(maxShare)
      ensures time == old(now) ==> clients == old(clients) && share == old(share) && usage0 == old(usage0) && limit == old(limit)
      ensures time != old(now) ==>
        && limit == maxShare && usage0 == 0 && usage1 == old(usage0) && usage2 == old(usage1) && threshold == (old(share) == 0)
        && clients.Keys == quota.Keys == (set c | c in old(clients) && time - old(clients)[c].timestamp <= 3)
        && (forall c :: c in quota ==> |clients| > 0 && wanted[c] == granted[c] == 0 && quota[c] == maxShare / 10 / |clients|)
        && share == if clients == map[] then maxShare else maxShare - maxShare / 10
    {
      hide IsFair, Sum;
      if now == time { return; }
      Advance(time);
      if clients == map[] {
        NothingShared(clients, wanted, granted, quota);
        return;
      }
      var reserved := share / 10;
      share := share - reserved;
      Split(reserved);
    }

    /** The clock moves on; whoever has been silent for too long is forgotten. */
    method Advance(time: int)
      modifies this
      ensures now == time && maxShare == old(maxShare) && share == maxShare && limit == maxShare
      ensures usage0 == 0 && usage1 == old(usage0) && usage2 == old(usage1) && threshold == (old(share) == 0)
      ensures wanted == granted == quota == map[]
      ensures clients.Keys == (set c | c in old(clients) && time - old(clients)[c].timestamp <= 3)
    {
      now := time;
      threshold := share == 0;
      share := maxShare;
      usage2 := usage1;
      usage1 := usage0;
      usage0 := 0;
      limit := maxShare;
      Sweep();
      wanted, granted, quota := map[], map[], map[];
    }

    /** The reserved tenth is split evenly. */
    method Split(reserved: nat)
      requires clients != map[]
      modifies this`clients, this`wanted, this`granted, this`quota
      ensures clients.Keys == old(clients.Keys) == quota.Keys && Fair() && Sum(clients) <= reserved
      ensures |clients| > 0
      ensures forall c :: c in quota ==> c in wanted && c in granted && wanted[c] == granted[c] == 0 && quota[c] == reserved / |clients|
    {
      var minQuota := reserved / |clients|;
      SetQuotas(minQuota);
      SumEqual(clients, minQuota);
    }

    method SetQuotas(minQuota: nat)
      modifies this`clients, this`wanted, this`granted, this`quota
      ensures clients.Keys == old(clients.Keys) == quota.Keys && |clients| == |old(clients)| && Fair()
      ensures forall c :: c in clients ==> clients[c] == Quota(minQuota, old(clients)[c].timestamp)
      ensures forall c :: c in quota ==> c in wanted && c in granted && wanted[c] == granted[c] == 0 && quota[c] == minQuota
    {
      var rest := clients.Keys;
      while rest != {}
        invariant rest <= clients.Keys == old(clients.Keys)
        invariant forall c :: c in clients && c in rest ==> clients[c] == old(clients)[c]
        invariant forall c :: c in clients && c !in rest ==> clients[c] == Quota(minQuota, old(clients)[c].timestamp)
        decreases |rest|
      {
        var c :| c in rest;
        rest := rest - {c};
        clients := clients[c := Quota(minQuota, clients[c].timestamp)];
      }
      assert |clients| == |clients.Keys| && |old(clients)| == |old(clients.Keys)|;
      quota := map c | c in clients :: minQuota;
      wanted := map c | c in clients :: 0;
      granted := map c | c in clients :: 0;
    }

    /** Grants what is asked for as far as the free share and the own amount go. */
    method Use(endpoint: nat, want: nat) returns (use: nat)
      requires Valid()
      modifies this`clients, this`share, this`usage0, this`wanted, this`granted
      ensures Valid()
      ensures use == Min(want, old(share) + if endpoint in old(clients) then old(clients)[endpoint].amount else 0)
      ensures usage0 == old(usage0) + use && share == old(share) - Min(old(share), want)
      ensures endpoint in clients && clients[endpoint].amount ==
        (if endpoint in old(clients) then old(clients)[endpoint].amount else 0) + Min(old(share), want) - use
      ensures clients.Keys == old(clients.Keys) + {endpoint} && forall c :: c in clients && c != endpoint ==> clients[c] == old(clients)[c]
      ensures clients[endpoint].timestamp == now
      ensures endpoint in wanted && endpoint in granted
      ensures wanted == old(wanted)[endpoint := want + if endpoint in old(wanted) then old(wanted)[endpoint] else 0]
      ensures granted == old(granted)[endpoint := use + if endpoint in old(granted) then old(granted)[endpoint] else 0]
    {
      hide IsFair, Sum;
      var q := if endpoint in clients then clients[endpoint] else Quota(0, 0);
      q := q.(timestamp := now);
      var useShare := if share < want then share else want;
      share := share - useShare;
      q := q.(amount := q.amount + useShare);
      use := if want < q.amount then want else q.amount;
      FairUse(clients, wanted, granted, quota, endpoint, want, use, q.amount, q.(amount := q.amount - use));
      q := q.(amount := q.amount - use);
      SumUpdate(clients, endpoint, q);
      clients := clients[endpoint := q];
      usage0 := usage0 + use;
      wanted := wanted[endpoint := want + if endpoint in wanted then wanted[endpoint] else 0];
      granted := granted[endpoint := use + if endpoint in granted then granted[endpoint] else 0];
    }
  }

  datatype Event = Tick(time: int) | Request(endpoint: nat, want: nat) | NewShare(max: nat)

  /** In every run, what has been granted within a second stays within the limit set at its
      beginning, and a client that was there then has been granted all it asked for, or at least
      its quota, whatever the others do. */
  method Run(m: Manager, events: seq<Event>)
    requires m.Valid()
    modifies m
    ensures m.Valid() && m.usage0 <= m.limit
    ensures forall c :: c in m.quota ==> c in m.wanted && c in m.granted && m.granted[c] >= Min(m.wanted[c], m.quota[c])
  {
    for i := 0 to |events|
      invariant m.Valid()
    {
      match events[i] {
        case Tick(time) => m.OnTimer(time);
        case Request(endpoint, want) => var use := m.Use(endpoint, want);
        case NewShare(max) => m.SetShare(max);
      }
    }
  }
}
