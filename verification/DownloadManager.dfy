/** The order of downloads and which of them are active (downloadmanager.cpp). */
module DownloadManager {
  import opened Downloads

  /** A download as the manager sees it. */
  class Entry {
    var status: DownloadStatus
    var priority: nat

    method Resume(canOpen: bool)
      requires status in {Stopped, Paused}
      modifies this`status
      ensures status == if canOpen then Transferring else Failed
    {
      status := if canOpen then Transferring else Failed;
    }

    method Stop()
      modifies this`status
      ensures status == Stopped
    {
      status := Stopped;
    }
  }

  const LOW := 0
  const AVERAGE := 500
  const HIGH := 1000

  function GetWeight(p: Entry): int
    reads p
  {
    match p.status
    case Hashing => HIGH
    case Moving => HIGH
    case Failed => HIGH
    case Stopped => AVERAGE + p.priority
    case Transferring => AVERAGE + p.priority
    case Paused => LOW
  }

  /** What may go before what: paused downloads come last, those that may transfer by priority, and those that are
      hashed, moved or failed before all of a priority below 500. */
  lemma MayPrecede(p: Entry, q: Entry)
    ensures GetWeight(p) >= GetWeight(q) <==>
      match p.status
      case Paused => q.status == Paused
      case Hashing | Moving | Failed => q.status in {Stopped, Transferring} ==> q.priority <= 500
      case Stopped | Transferring =>
        if q.status in {Stopped, Transferring} then p.priority >= q.priority else q.status == Paused || p.priority >= 500
  {
  }

  // ----- std::stable_sort by falling weight -----

  function Insert(p: Entry, s: seq<Entry>, weights: map<Entry, int>): (r: seq<Entry>)
    requires p in weights && forall q :: q in s ==> q in weights
    ensures multiset(r) == multiset(s) + multiset{p} && |r| == |s| + 1
    ensures p in r && (forall q :: q in r ==> q == p || q in s) && (forall q :: q in s ==> q in r)
  {
    if s == [] then [p]
    else if weights[s[0]] > weights[p] then
      var rest := Insert(p, s[1..], weights);
      assert s == [s[0]] + s[1..];
      [s[0]] + rest
    else [p] + s
  }

  function StableSorted(s: seq<Entry>, weights: map<Entry, int>): (r: seq<Entry>)
    requires forall q :: q in s ==> q in weights
    ensures multiset(r) == multiset(s) && |r| == |s|
    ensures (forall q :: q in r ==> q in s) && (forall q :: q in s ==> q in r)
  {
    if s == [] then []
    else
      assert s == [s[0]] + s[1..];
      Insert(s[0], StableSorted(s[1..], weights), weights)
  }

  ghost predicate Falling(s: seq<Entry>, weights: map<Entry, int>)
    requires forall q :: q in s ==> q in weights
  {
    forall i, j :: 0 <= i < j < |s| ==> weights[s[i]] >= weights[s[j]]
  }

  ghost predicate Distinct(s: seq<Entry>) {
    forall i, j :: 0 <= i < j < |s| ==> s[i] != s[j]
  }

  lemma {:induction false} InsertFalls(p: Entry, s: seq<Entry>, weights: map<Entry, int>)
    requires p in weights && (forall q :: q in s ==> q in weights) && Falling(s, weights)
    ensures Falling(Insert(p, s, weights), weights)
    decreases |s|
  {
    if s != [] && weights[s[0]] > weights[p] {
      InsertFalls(p, s[1..], weights);
      var rest := Insert(p, s[1..], weights);
      forall j | 0 <= j < |rest| ensures weights[s[0]] >= weights[rest[j]] {
        assert rest[j] in rest;
        if rest[j] != p {
          var k :| 0 <= k < |s| - 1 && s[1..][k] == rest[j];
          assert s[k + 1] == rest[j];
        }
      }
    }
  }

  lemma {:induction false} SortedFalls(s: seq<Entry>, weights: map<Entry, int>)
    requires forall q :: q in s ==> q in weights
    ensures Falling(StableSorted(s, weights), weights)
    decreases |s|
  {
    if s != [] {
      SortedFalls(s[1..], weights);
      InsertFalls(s[0], StableSorted(s[1..], weights), weights);
    }
  }

  /** A list with the same elements as one without repetition has none either. */
  lemma StaysDistinct(s: seq<Entry>, r: seq<Entry>)
    requires Distinct(s) && multiset(s) == multiset(r)
    ensures Distinct(r)
  {
    forall i, j | 0 <= i < j < |r| ensures r[i] != r[j] {
      if r[i] == r[j] {
        assert r == r[..j] + r[j..];
        assert r[i] in r[..j] && r[j] in r[j..];
        AtMostOnce(s, r[i]);
        assert false;
      }
    }
  }

  lemma {:induction false} AtMostOnce(s: seq<Entry>, p: Entry)
    requires Distinct(s)
    ensures multiset(s)[p] <= 1
    decreases |s|
  {
    if s != [] {
      assert s == [s[0]] + s[1..];
      AtMostOnce(s[1..], p);
      if s[0] == p {
        assert forall j :: 0 <= j < |s| - 1 ==> s[1..][j] == s[j + 1];
        assert p !in s[1..];
      }
    }
  }

  /** p is at position k, and only heavier ones are in front of it. */
  ghost predicate BehindHeavier(s: seq<Entry>, weights: map<Entry, int>, p: Entry, k: nat)
    requires p in weights && forall q :: q in s ==> q in weights
  {
    k < |s| && s[k] == p && forall j :: 0 <= j < k ==> weights[s[j]] > weights[p]
  }

  lemma {:induction false} InsertBehindHeavier(p: Entry, s: seq<Entry>, weights: map<Entry, int>) returns (k: nat)
    requires p in weights && forall q :: q in s ==> q in weights
    ensures BehindHeavier(Insert(p, s, weights), weights, p, k)
    decreases |s|
  {
    k := 0;
    if s != [] && weights[s[0]] > weights[p] {
      var j := InsertBehindHeavier(p, s[1..], weights);
      k := j + 1;
    }
  }

  ghost predicate Precedes(s: seq<Entry>, p: Entry, q: Entry) {
    exists i, j :: 0 <= i < j < |s| && s[i] == p && s[j] == q
  }

  lemma PrecedesAfter(a: Entry, s: seq<Entry>, p: Entry, q: Entry)
    ensures Precedes(s, p, q) ==> Precedes([a] + s, p, q)
    ensures q in s ==> Precedes([a] + s, a, q)
    ensures a != p && a != q && Precedes([a] + s, p, q) ==> Precedes(s, p, q)
  {
    var t := [a] + s;
    if Precedes(s, p, q) {
      var i, j :| 0 <= i < j < |s| && s[i] == p && s[j] == q;
      assert t[i + 1] == p && t[j + 1] == q;
    }
    if q in s {
      var j :| 0 <= j < |s| && s[j] == q;
      assert t[0] == a && t[j + 1] == q;
    }
    if a != p && a != q && Precedes(t, p, q) {
      var i, j :| 0 <= i < j < |t| && t[i] == p && t[j] == q;
      assert s[i - 1] == p && s[j - 1] == q;
    }
  }

  /** Inserting an entry leaves the order of the others alone. */
  lemma {:induction false} InsertKeepsOrder(a: Entry, s: seq<Entry>, weights: map<Entry, int>, p: Entry, q: Entry)
    requires a in weights && (forall x :: x in s ==> x in weights) && Precedes(s, p, q)
    ensures Precedes(Insert(a, s, weights), p, q)
    decreases |s|
  {
    if weights[s[0]] > weights[a] {
      var rest := Insert(a, s[1..], weights);
      assert s == [s[0]] + s[1..];
      PrecedesAfter(s[0], rest, p, q);
      var i, j :| 0 <= i < j < |s| && s[i] == p && s[j] == q;
      assert s[1..][j - 1] == q;
      if i > 0 {
        assert s[1..][i - 1] == p;
        InsertKeepsOrder(a, s[1..], weights, p, q);
      }
    } else {
      PrecedesAfter(a, s, p, q);
    }
  }

  lemma BeforeLighter(p: Entry, s: seq<Entry>, weights: map<Entry, int>, q: Entry)
    requires p in weights && (forall x :: x in s ==> x in weights) && q in s && p != q && weights[p] >= weights[q]
    ensures Precedes(Insert(p, s, weights), p, q)
  {
    var sorted := Insert(p, s, weights);
    var k := InsertBehindHeavier(p, s, weights);
    assert q in sorted;
    var b :| 0 <= b < |sorted| && sorted[b] == q;
    assert sorted[k] == p;
  }

  /** The sort is stable: of two downloads the later one overtakes only if it is heavier. */
  lemma {:induction false} SortIsStable(s: seq<Entry>, weights: map<Entry, int>, p: Entry, q: Entry)
    requires (forall x :: x in s ==> x in weights) && Distinct(s) && Precedes(s, p, q) && weights[p] >= weights[q]
    ensures Precedes(StableSorted(s, weights), p, q)
    decreases |s|
  {
    hide Insert;
    var rest := StableSorted(s[1..], weights);
    assert s == [s[0]] + s[1..];
    var i, j :| 0 <= i < j < |s| && s[i] == p && s[j] == q;
    assert s[1..][j - 1] == q;
    if i == 0 {
      BeforeLighter(p, rest, weights, q);
    } else {
      assert s[1..][i - 1] == p;
      SortIsStable(s[1..], weights, p, q);
      InsertKeepsOrder(s[0], rest, weights, p, q);
    }
  }

  function CountTransferring(s: seq<Entry>): nat
    reads s
  {
    if s == [] then 0 else CountTransferring(s[..|s| - 1]) + if s[|s| - 1].status == Transferring then 1 else 0
  }

  lemma {:induction false} CountIsSet(s: seq<Entry>)
    ensures CountTransferring(s) == |set i | 0 <= i < |s| && s[i].status == Transferring|
    decreases |s|
  {
    var found := set i | 0 <= i < |s| && s[i].status == Transferring;
    if s == [] {
      assert found == {};
    } else {
      var n := |s| - 1;
      CountIsSet(s[..n]);
      var before := set i | 0 <= i < n && s[..n][i].status == Transferring;
      assert found == if s[n].status == Transferring then before + {n} else before;
    }
  }

  lemma {:induction false} CountConcat(a: seq<Entry>, b: seq<Entry>)
    requires forall i :: 0 <= i < |b| ==> b[i].status != Transferring
    ensures CountTransferring(a + b) == CountTransferring(a)
    decreases |b|
  {
    if b == [] {
      assert a + b == a;
    } else {
      assert (a + b)[..|a + b| - 1] == a + b[..|b| - 1];
      CountConcat(a, b[..|b| - 1]);
    }
  }

  /** A stopped download is resumed, which fails if its file is broken. */
  function AfterTry(status: DownloadStatus, broken: bool): (after: DownloadStatus)
    ensures after != Stopped && (status != Stopped ==> after == status)
  {
    if status != Stopped then status else if broken then Failed else Transferring
  }

  class Manager {
    const maxFiles: nat
    var downloads: seq<Entry>
    ghost var everyone: set<Entry>

    ghost predicate Valid()
      reads this
    {
      Distinct(downloads) && forall k :: 0 <= k < |downloads| ==> downloads[k] in everyone
    }

    constructor (files: nat)
      ensures Valid() && maxFiles == files && downloads == []
    {
      maxFiles, downloads, everyone := files, [], {};
    }

    /** The downloads that may be active come first: those that wait are resumed until maxFiles
        are transferring, those beyond that are stopped. */
    method Update(broken: set<Entry>)
      requires Valid()
      modifies this`downloads, everyone
      ensures Valid() && multiset(downloads) == multiset(old(downloads))
      ensures CountTransferring(downloads) <= maxFiles
      ensures forall p, q :: p in downloads && q in downloads && p.status == Transferring && q.status == Stopped ==> p.priority >= q.priority
      ensures (exists q :: q in downloads && q.status == Stopped) ==> CountTransferring(downloads) == maxFiles
      ensures forall p :: p in old(downloads) ==> p.priority == old(p.priority)
      ensures forall p :: p in old(downloads) && old(p.status) !in {Stopped, Transferring} ==> p.status == old(p.status)
    {
      Sort();
      Choose(broken);
    }

    /** Update of a sorted list. */
    method Choose(broken: set<Entry>)
      requires Valid() && forall i, j :: 0 <= i < j < |downloads| ==> GetWeight(downloads[i]) >= GetWeight(downloads[j])
      modifies everyone
      ensures CountTransferring(downloads) <= maxFiles
      ensures forall a, b :: 0 <= a < |downloads| && 0 <= b < |downloads| && downloads[a].status == Transferring && downloads[b].status == Stopped ==>
        downloads[a].priority >= downloads[b].priority
      ensures (exists b :: 0 <= b < |downloads| && downloads[b].status == Stopped) ==> CountTransferring(downloads) == maxFiles
      ensures forall k :: 0 <= k < |downloads| ==> downloads[k].priority == old(downloads[k].priority)
      ensures forall k :: 0 <= k < |downloads| && old(downloads[k].status) !in {Stopped, Transferring} ==> downloads[k].status == old(downloads[k].status)
    {
      hide AfterTry, CountTransferring;
      var i, active := Activate(broken);
      StopRest(i);
      CountConcat(downloads[..i], downloads[i..]);
      assert downloads == downloads[..i] + downloads[i..];
      forall a, b | 0 <= a < |downloads| && 0 <= b < |downloads| && downloads[a].status == Transferring && downloads[b].status == Stopped
        ensures downloads[a].priority >= downloads[b].priority
      {
        assert a < i <= b;
        assert old(GetWeight(downloads[a])) >= old(GetWeight(downloads[b]));
      }
    }

    method Sort()
      requires Valid()
      modifies this`downloads
      ensures Valid() && multiset(downloads) == multiset(old(downloads))
      ensures (forall p :: p in old(downloads) ==> p in downloads) && (forall p :: p in downloads ==> p in old(downloads))
      ensures forall i, j :: 0 <= i < j < |downloads| ==> GetWeight(downloads[i]) >= GetWeight(downloads[j])
      ensures forall p, q :: Precedes(old(downloads), p, q) && GetWeight(p) >= GetWeight(q) ==> Precedes(downloads, p, q)
    {
      var weights := map p | p in downloads :: GetWeight(p);
      SortedFalls(downloads, weights);
      downloads := StableSorted(downloads, weights);
      StaysDistinct(old(downloads), downloads);
      forall p, q | Precedes(old(downloads), p, q) && GetWeight(p) >= GetWeight(q) ensures Precedes(downloads, p, q) {
        SortIsStable(old(downloads), weights, p, q);
      }
      forall k | 0 <= k < |downloads| ensures downloads[k] in everyone {
        assert downloads[k] in downloads;
      }
    }

    /** The first loop of Update. */
    method Activate(broken: set<Entry>) returns (i: nat, active: nat)
      requires Valid()
      modifies everyone
      ensures i <= |downloads| && active + CountTransferring(downloads[..i]) == maxFiles && (active > 0 ==> i == |downloads|)
      ensures forall k :: 0 <= k < |downloads| ==> downloads[k].priority == old(downloads[k].priority)
      ensures forall k :: i <= k < |downloads| ==> downloads[k].status == old(downloads[k].status)
      ensures forall k :: 0 <= k < i ==> downloads[k].status != Stopped
      ensures forall k :: 0 <= k < i && old(downloads[k].status) != Stopped ==> downloads[k].status == old(downloads[k].status)
      ensures forall k :: 0 <= k < i ==> downloads[k].status == AfterTry(old(downloads[k].status), downloads[k] in broken)
    {
      hide AfterTry;
      i, active := 0, maxFiles;
      while i < |downloads| && active > 0
        invariant i <= |downloads| && active + CountTransferring(downloads[..i]) == maxFiles
        invariant forall k :: 0 <= k < |downloads| ==> downloads[k].priority == old(downloads[k].priority)
        invariant forall k :: i <= k < |downloads| ==> downloads[k].status == old(downloads[k].status)
        invariant forall k :: 0 <= k < i ==> downloads[k].status != Stopped
        invariant forall k :: 0 <= k < i ==> downloads[k].status == AfterTry(old(downloads[k].status), downloads[k] in broken)
      {
        var p := downloads[i];
        assert p !in downloads[..i];
        TryResume(p, broken);
        if p.status == Transferring { active := active - 1; }
        assert downloads[..i + 1][..i] == downloads[..i];
        i := i + 1;
      }
    }

    method TryResume(p: Entry, broken: set<Entry>)
      modifies p`status
      ensures p.status == AfterTry(old(p.status), p in broken)
      ensures p.status == if old(p.status) == Stopped then (if p in broken then Failed else Transferring) else old(p.status)
    {
      if p.status == Stopped { p.Resume(p !in broken); }
    }

    /** The second loop of Update. */
    method StopRest(start: nat)
      requires Valid() && start <= |downloads|
      modifies everyone
      ensures forall k :: 0 <= k < |downloads| ==> downloads[k].priority == old(downloads[k].priority)
      ensures forall k :: 0 <= k < start ==> downloads[k].status == old(downloads[k].status)
      ensures forall k :: start <= k < |downloads| ==>
        downloads[k].status == if old(downloads[k].status) == Transferring then Stopped else old(downloads[k].status)
      ensures CountTransferring(downloads[..start]) == old(CountTransferring(downloads[..start]))
    {
      var i := start;
      while i < |downloads|
        invariant start <= i <= |downloads|
        invariant forall k :: 0 <= k < |downloads| ==> downloads[k].priority == old(downloads[k].priority)
        invariant forall k :: 0 <= k < start ==> downloads[k].status == old(downloads[k].status)
        invariant forall k :: i <= k < |downloads| ==> downloads[k].status == old(downloads[k].status)
        invariant forall k :: start <= k < i ==>
          downloads[k].status == if old(downloads[k].status) == Transferring then Stopped else old(downloads[k].status)
        invariant CountTransferring(downloads[..start]) == old(CountTransferring(downloads[..start]))
      {
        var p := downloads[i];
        assert p !in downloads[..start];
        if p.status == Transferring { p.Stop(); }
        i := i + 1;
      }
    }
  }
}
