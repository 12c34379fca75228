/** Writing a packet tree and reading it back. */
module G2RoundTrip {
  import opened Bytes
  import opened Wrappers
  import opened G2Packet
  import opened G2Writer
  import opened G2Reader

  /** The same packet with the difference between no write and an empty write removed. */
  function Plain(p: Packet): Packet
    decreases p, 0
  {
    Packet(p.ptype, PlainAll(p.children, |p.children|), Some(PayloadBytes(p.payload)))
  }

  function PlainAll(ps: seq<Packet>, n: nat): (r: seq<Packet>)
    requires n <= |ps|
    ensures |r| == n
    decreases ps, n
  {
    if n == 0 then [] else PlainAll(ps, n - 1) + [Plain(ps[n - 1])]
  }

  /** No child anywhere in the tree is an empty packet with a one-character name. */
  ghost predicate NoMarkers(p: Packet)
    decreases p
  {
    forall c :: c in p.children ==> !EmptyShort(c) && NoMarkers(c)
  }

  predicate EmptyShort(p: Packet) {
    NameLength(p.ptype) == 1 && p.children == [] && PayloadBytes(p.payload) == []
  }

  lemma MarkerIsEmptyShort(p: Packet)
    requires WellFormed(p)
    ensures Marker(p) <==> EmptyShort(p)
  {
    var n := |Body(p)|;
    LenLengthBound(n);
    ControlParts(LenLength(n), p.ptype, p.children != []);
    assert Header(p)[0] == Control(LenLength(n), p.ptype, p.children != []);
    assert Enc(p)[0] == Header(p)[0];
    if p.children == [] { assert Body(p) == PayloadBytes(p.payload); }
  }

  lemma {:induction false} AllVisible(ps: seq<Packet>)
    ensures Visible(ps) == |ps| <==> forall c :: c in ps ==> !Marker(c)
    decreases |ps|
  {
    if ps != [] {
      AllVisible(ps[1..]);
      assert forall c :: c in ps <==> c == ps[0] || c in ps[1..];
    }
  }

  lemma RestOfAll(p: Packet)
    requires Visible(p.children) == |p.children|
    ensures Rest(p) == PayloadBytes(p.payload)
  {
  }

  /** A tree reads back as it was written exactly if it has no such child. */
  lemma {:induction false} ViewIsPlain(p: Packet)
    requires WellFormed(p)
    ensures View(p) == Plain(p) <==> NoMarkers(p)
    decreases p, 0
  {
    var cs := p.children;
    forall c | c in cs ensures WellFormed(c) && (Marker(c) <==> EmptyShort(c)) { MarkerIsEmptyShort(c); }
    AllVisible(cs);
    if Visible(cs) == |cs| {
      RestOfAll(p);
      ViewsArePlain(cs, |cs|);
      assert cs[..|cs|] == cs;
    } else {
      ViewLength(cs, Visible(cs));
    }
  }

  lemma {:induction false} ViewLength(ps: seq<Packet>, n: nat)
    requires n <= |ps|
    ensures |ViewAll(ps, n)| == n
    decreases n
  {
    hide View;
    if n > 0 { ViewLength(ps, n - 1); }
  }

  lemma SameEnds<T>(a: seq<T>, b: seq<T>, x: T, y: T)
    requires |a| == |b|
    ensures a + [x] == b + [y] <==> a == b && x == y
  {
    if a + [x] == b + [y] {
      assert a == (a + [x])[..|a|] && b == (b + [y])[..|b|];
      assert x == (a + [x])[|a|] && y == (b + [y])[|b|];
    }
  }

  lemma {:induction false} ViewsArePlain(ps: seq<Packet>, n: nat)
    requires n <= |ps| && forall c :: c in ps ==> WellFormed(c)
    ensures ViewAll(ps, n) == PlainAll(ps, n) <==> forall c :: c in ps[..n] ==> NoMarkers(c)
    decreases ps, n
  {
    hide View, Plain, NoMarkers, WellFormed;
    if n > 0 {
      ViewIsPlain(ps[n - 1]);
      ViewsArePlain(ps, n - 1);
      ViewLength(ps, n - 1);
      SameEnds(ViewAll(ps, n - 1), PlainAll(ps, n - 1), View(ps[n - 1]), Plain(ps[n - 1]));
      assert ps[..n] == ps[..n - 1] + [ps[n - 1]];
    }
  }

  /** Write a packet tree, read the bytes: the same types, children and payloads come back,
      exactly if no child's control byte is the mark that ends the children. */
  method RoundTrip(p: Packet) returns (bytes: seq<byte>, q: Packet)
    requires WellFormed(p)
    ensures bytes == Enc(p)
    ensures q == Plain(p) <==> NoMarkers(p)
  {
    bytes := EncodePacket(p);
    var r := new Reader();
    var ok := r.Assign(bytes, Some(p));
    q := ReadPacket(r, p);
    ViewIsPlain(p);
  }
}
