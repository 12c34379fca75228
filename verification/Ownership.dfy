/** Which bytes of a file belong to which downloader while it is being fetched. */
module Ownership {
  import opened Bytes
  import opened Range
  import opened FileRanges
  import opened FileMap

  predicate InFile(r: FileRange, size: nat) {
    !r.Empty() && r.offset + r.length <= size
  }

  predicate Disjoint(a: FileRange, b: FileRange) {
    a.offset + a.length <= b.offset || b.offset + b.length <= a.offset
  }

  ghost predicate AllAre(bytes: seq<Status>, r: FileRange, st: Status)
    requires r.offset + r.length <= |bytes|
  {
    forall i :: r.Has(i) ==> bytes[i] == st
  }

  /** The ACTIVE bytes are exactly the disjoint union of the claimed ranges. */
  ghost predicate Owned<K>(bytes: seq<Status>, claims: map<K, FileRange>) {
    && (forall k :: k in claims ==> InFile(claims[k], |bytes|) && AllAre(bytes, claims[k], ACTIVE))
    && (forall k, l :: k in claims && l in claims && k != l ==> Disjoint(claims[k], claims[l]))
    && (forall i :: 0 <= i < |bytes| && bytes[i] == ACTIVE ==> exists k :: k in claims && claims[k].Has(i))
  }

  /** The bytes found valid stay the same, and nobody writes to them any more. */
  ghost predicate Kept(bytes: seq<Status>, content: seq<byte>, bytes': seq<Status>, content': seq<byte>) {
    && |bytes| == |content| == |bytes'| == |content'|
    && forall i :: 0 <= i < |bytes| ==> (bytes[i] == VALID <==> bytes'[i] == VALID) && (bytes[i] == VALID ==> content'[i] == content[i])
  }

  /** What was found valid stays valid with the same content, but more may have been found. */
  ghost predicate StillValid(bytes: seq<Status>, content: seq<byte>, bytes': seq<Status>, content': seq<byte>) {
    && |bytes| == |content| == |bytes'| == |content'|
    && forall i :: 0 <= i < |bytes| && bytes[i] == VALID ==> bytes'[i] == VALID && content'[i] == content[i]
  }

  /** Giving out work changes vacant bytes only. */
  ghost predicate Advanced(bytes: seq<Status>, bytes': seq<Status>) {
    |bytes| == |bytes'| && forall i :: 0 <= i < |bytes| ==> bytes'[i] == bytes[i] || (bytes[i] in {EMPTY, INVALID} && bytes'[i] == ACTIVE)
  }

  lemma OverwrittenAt(bytes: seq<Status>, r: FileRange, st: Status, i: nat)
    requires r.offset + r.length <= |bytes| && i < |bytes|
    ensures |Overwritten(bytes, r, st)| == |bytes|
    ensures Overwritten(bytes, r, st)[i] == if r.Has(i) then st else bytes[i]
  {
  }

  /** Claiming bytes nobody fetches. */
  lemma Claim<K>(bytes: seq<Status>, claims: map<K, FileRange>, k: K, r: FileRange)
    requires Owned(bytes, claims) && k !in claims && InFile(r, |bytes|)
    requires forall i :: r.Has(i) ==> bytes[i] != ACTIVE
    ensures Owned(Overwritten(bytes, r, ACTIVE), claims[k := r])
  {
    var bytes', claims' := Overwritten(bytes, r, ACTIVE), claims[k := r];
    forall l | l in claims ensures Disjoint(claims[l], r) {
      if !Disjoint(claims[l], r) {
        var i := if claims[l].offset > r.offset then claims[l].offset else r.offset;
        assert claims[l].Has(i) && r.Has(i);
      }
    }
    forall l | l in claims' ensures InFile(claims'[l], |bytes'|) && AllAre(bytes', claims'[l], ACTIVE) {
      if l != k { assert AllAre(bytes, claims[l], ACTIVE); }
    }
    forall i | 0 <= i < |bytes'| && bytes'[i] == ACTIVE ensures exists l :: l in claims' && claims'[l].Has(i) {
      if r.Has(i) {
        assert k in claims' && claims'[k].Has(i);
      } else {
        var l :| l in claims && claims[l].Has(i);
        assert l in claims' && claims'[l].Has(i);
      }
    }
  }

  /** Giving a claim up, whatever the bytes become. */
  lemma Release<K>(bytes: seq<Status>, claims: map<K, FileRange>, k: K, st: Status)
    requires Owned(bytes, claims) && k in claims && st != ACTIVE
    ensures Owned(Overwritten(bytes, claims[k], st), claims - {k})
  {
    var r := claims[k];
    var bytes', claims' := Overwritten(bytes, r, st), claims - {k};
    forall l | l in claims' ensures InFile(claims'[l], |bytes'|) && AllAre(bytes', claims'[l], ACTIVE) {
      assert AllAre(bytes, claims[l], ACTIVE) && Disjoint(claims[l], r);
    }
    forall i | 0 <= i < |bytes'| && bytes'[i] == ACTIVE ensures exists l :: l in claims' && claims'[l].Has(i) {
      var l :| l in claims && claims[l].Has(i);
      assert l in claims' && claims'[l].Has(i);
    }
  }

  /** Verified bytes belong to nobody. */
  lemma Verify<K>(bytes: seq<Status>, claims: map<K, FileRange>, r: FileRange, st: Status)
    requires Owned(bytes, claims) && InFile(r, |bytes|) && AllAre(bytes, r, FULL) && st != ACTIVE
    ensures Owned(Overwritten(bytes, r, st), claims)
  {
  }

  /** A claimed or verified range has a single status as far as the map's assertions can see. */
  lemma OneStatus(rs: Ranges, size: nat, r: FileRange, st: Status)
    requires Contiguous(rs, 0, size) && size == |Flat(rs)| && InFile(r, size) && AllAre(Flat(rs), r, st)
    ensures StatusOf(rs, r) == st
  {
    StatusIsOr(rs, size, r);
    assert Flat(rs)[r.offset..r.offset + r.length] == Fill(r.length, st);
    OrFill(r.length, st);
  }

  /** A part of one range of the map, byte by byte. */
  lemma InsideAll(rs: Ranges, size: nat, k: nat, r: FileRange)
    requires Contiguous(rs, 0, size) && size == |Flat(rs)| && k < |rs| && Inside(r, rs[k])
    ensures InFile(r, size) && AllAre(Flat(rs), r, rs[k].status) && StatusOf(rs, r) == rs[k].status
  {
    InsideStatus(rs, size, k, r);
    forall i | r.Has(i) ensures Flat(rs)[i] == rs[k].status {
      assert Flat(rs)[i] == Flat(rs)[r.offset..r.offset + r.length][i - r.offset];
    }
  }

  lemma {:induction false} OrAllHas(bytes: seq<Status>, i: nat)
    requires i < |bytes|
    ensures bytes[i] | OrAll(bytes) == OrAll(bytes)
    decreases |bytes|
  {
    if i > 0 {
      OrAllHas(bytes[1..], i - 1);
      OrAbsorbs(bytes[i], bytes[0], OrAll(bytes[1..]));
    }
  }

  lemma OrAbsorbs(x: Status, a: Status, b: Status)
    requires x | b == b
    ensures x | (a | b) == a | b
  {
  }

  /** A full block shows in the total status. */
  lemma FullShows(rs: Ranges, size: nat, v: nat)
    requires Contiguous(rs, 0, size) && size == |Flat(rs)|
    ensures AnyFullBlock(rs, v) ==> OrAll(Flat(rs)) & FULL != 0
  {
    if AnyFullBlock(rs, v) {
      var k, b :| 0 <= k < |rs| && 0 <= b && FullBlock(rs[k], v, b);
      ContiguousAt(rs, k, 0, size);
      InsideAll(rs, size, k, rs[k].range);
      assert rs[k].range.Has(rs[k].Offset());
      OrAllHas(Flat(rs), rs[k].Offset());
      FlagShows(OrAll(Flat(rs)));
    }
  }

  /** A byte on offer shows in the total status. */
  lemma OfferShows(bytes: seq<Status>, avail: seq<FileRange>)
    ensures OnOffer(bytes, avail) ==> OrAll(bytes) & (EMPTY | INVALID) != 0
  {
    forall i | 0 <= i < |bytes| && bytes[i] in {EMPTY, INVALID} ensures OrAll(bytes) & (EMPTY | INVALID) != 0 {
      OrAllHas(bytes, i);
      VacantFlagShows(bytes[i], OrAll(bytes));
    }
  }

  /** With nothing announced, the total status tells exactly whether a byte is on offer. */
  lemma {:induction false} VacantShows(bytes: seq<Status>)
    requires Single(bytes)
    ensures OrAll(bytes) & (EMPTY | INVALID) != 0 <==> OnOffer(bytes, [])
    decreases |bytes|
  {
    OfferShows(bytes, []);
    if bytes != [] && OrAll(bytes) & (EMPTY | INVALID) != 0 {
      OneOfBoth(bytes[0], OrAll(bytes[1..]));
      if bytes[0] !in {EMPTY, INVALID} {
        VacantShows(bytes[1..]);
        var i :| 0 <= i < |bytes| - 1 && bytes[1..][i] in {EMPTY, INVALID};
        assert bytes[i + 1] in {EMPTY, INVALID};
      }
    }
  }

  lemma OneOfBoth(x: Status, s: Status)
    requires x in {VALID, INVALID, ACTIVE, EMPTY, FULL} && (x | s) & (EMPTY | INVALID) != 0
    ensures x in {EMPTY, INVALID} || s & (EMPTY | INVALID) != 0
  {
  }

  lemma VacantFlagShows(x: Status, s: Status)
    requires x in {EMPTY, INVALID} && x | s == s
    ensures s & (EMPTY | INVALID) != 0
  {
  }

  lemma FlagShows(s: Status)
    requires FULL | s == s
    ensures s & FULL != 0
  {
  }

  /** Every byte has one of the five statuses. */
  ghost predicate Single(bytes: seq<Status>) {
    forall i :: 0 <= i < |bytes| ==> bytes[i] in {VALID, INVALID, ACTIVE, EMPTY, FULL}
  }

  /** All bytes have the status. */
  ghost predicate Uniform(bytes: seq<Status>, st: Status) {
    forall i :: 0 <= i < |bytes| ==> bytes[i] == st
  }

  /** When the whole map has one of the three final statuses, all bytes have it. */
  lemma AllOf(bytes: seq<Status>, st: Status)
    requires Single(bytes) && bytes != [] && st in {VALID, INVALID, FULL}
    ensures Uniform(bytes, st) <==> OrAll(bytes) == st
  {
    if Uniform(bytes, st) {
      OrFill(|bytes|, st);
      assert bytes == Fill(|bytes|, st);
    }
  }

  lemma Uniformity(bytes: seq<Status>)
    requires Single(bytes) && bytes != []
    ensures forall st :: st in {VALID, INVALID, FULL} ==> (Uniform(bytes, st) <==> OrAll(bytes) == st)
  {
    AllOf(bytes, VALID);
    AllOf(bytes, INVALID);
    AllOf(bytes, FULL);
  }

  lemma SingleKept(bytes: seq<Status>, r: FileRange, st: Status)
    requires Single(bytes) && InFile(r, |bytes|) && st in {VALID, INVALID, ACTIVE, EMPTY, FULL}
    ensures Single(Overwritten(bytes, r, st))
  {
  }

  /** Giving up a claim is what saving the map does to its bytes. */
  lemma ReleaseSaved(bytes: seq<Status>, r: FileRange)
    requires r.offset + r.length <= |bytes| && AllAre(bytes, r, ACTIVE)
    ensures SavedBytes(Overwritten(bytes, r, EMPTY)) == SavedBytes(bytes)
  {
    assert |Overwritten(bytes, r, EMPTY)| == |bytes|;
    forall i | 0 <= i < |bytes| ensures SavedBytes(Overwritten(bytes, r, EMPTY))[i] == SavedBytes(bytes)[i] {
      OverwrittenAt(bytes, r, EMPTY, i);
    }
  }

  lemma NothingToSave(bytes: seq<Status>)
    requires ACTIVE !in bytes
    ensures SavedBytes(bytes) == bytes
  {
  }

  /** What becomes of the bytes when k stops, whether or not it was fetching. */
  function GivenUp(bytes: seq<Status>, fetching: bool, r: FileRange): seq<Status>
    requires fetching ==> r.offset + r.length <= |bytes|
  {
    if fetching then Overwritten(bytes, r, EMPTY) else bytes
  }

  lemma GiveUp<K>(bytes: seq<Status>, claims: map<K, FileRange>, k: K, fetching: bool, r: FileRange)
    requires Owned(bytes, claims) && Single(bytes)
    requires fetching <==> k in claims
    requires fetching ==> claims[k] == r
    ensures fetching ==> InFile(r, |bytes|) && AllAre(bytes, r, ACTIVE)
    ensures Owned(GivenUp(bytes, fetching, r), claims - {k})
    ensures |GivenUp(bytes, fetching, r)| == |bytes| && Single(GivenUp(bytes, fetching, r))
    ensures SavedBytes(GivenUp(bytes, fetching, r)) == SavedBytes(bytes)
    ensures forall h :: InFile(h, |bytes|) && AllAre(bytes, h, FULL) ==> AllAre(GivenUp(bytes, fetching, r), h, FULL)
  {
    if fetching {
      Release(bytes, claims, k, EMPTY);
      SingleKept(bytes, r, EMPTY);
      ReleaseSaved(bytes, r);
    } else {
      assert claims - {k} == claims;
    }
  }

  /** Everything a downloader needs to know before it claims a part of a vacant range. */
  lemma ClaimVacant<K>(rs: Ranges, size: nat, k: nat, r: FileRange, claims: map<K, FileRange>, owner: K)
    requires Contiguous(rs, 0, size) && size == |Flat(rs)| && k < |rs| && Inside(r, rs[k]) && IsVacant(rs[k])
    requires Owned(Flat(rs), claims) && Single(Flat(rs)) && owner !in claims
    ensures InFile(r, size) && Permitted(ACTIVE, StatusOf(rs, r))
    ensures forall i :: r.Has(i) ==> Flat(rs)[i] in {EMPTY, INVALID}
    ensures Owned(Overwritten(Flat(rs), r, ACTIVE), claims[owner := r]) && Single(Overwritten(Flat(rs), r, ACTIVE))
    ensures forall h :: InFile(h, size) && AllAre(Flat(rs), h, FULL) ==> AllAre(Overwritten(Flat(rs), r, ACTIVE), h, FULL)
  {
    InsideAll(rs, size, k, r);
    Claim(Flat(rs), claims, owner, r);
    SingleKept(Flat(rs), r, ACTIVE);
  }

  /** The same before it hands a fetched range over. */
  lemma HandOver<K>(rs: Ranges, size: nat, content: seq<byte>, claims: map<K, FileRange>, owner: K)
    requires Contiguous(rs, 0, size) && size == |Flat(rs)| == |content|
    requires Owned(Flat(rs), claims) && Single(Flat(rs)) && owner in claims
    ensures InFile(claims[owner], size) && AllAre(Flat(rs), claims[owner], ACTIVE) && Permitted(FULL, StatusOf(rs, claims[owner]))
    ensures Kept(Flat(rs), content, Overwritten(Flat(rs), claims[owner], FULL), content)
    ensures Owned(Overwritten(Flat(rs), claims[owner], FULL), claims - {owner}) && Single(Overwritten(Flat(rs), claims[owner], FULL))
    ensures forall h :: InFile(h, size) && AllAre(Flat(rs), h, FULL) ==> AllAre(Overwritten(Flat(rs), claims[owner], FULL), h, FULL)
  {
    OneStatus(rs, size, claims[owner], ACTIVE);
    Release(Flat(rs), claims, owner, FULL);
    SingleKept(Flat(rs), claims[owner], FULL);
  }

  /** File content with data written at a position. */
  function Written(content: seq<byte>, at: nat, data: seq<byte>): seq<byte>
    requires at + |data| <= |content|
  {
    content[..at] + data + content[at + |data|..]
  }

  /** The same for data of any length: past the end the file grows. */
  function Overlaid(content: seq<byte>, at: nat, data: seq<byte>): seq<byte>
    requires at <= |content|
  {
    content[..at] + data + if at + |data| <= |content| then content[at + |data|..] else []
  }

  /** Where the data is written there is the data, everywhere else what was there. */
  lemma WrittenAt(content: seq<byte>, at: nat, data: seq<byte>, i: nat)
    requires at <= |content| && i < |Overlaid(content, at, data)|
    ensures Overlaid(content, at, data)[i] == if at <= i < at + |data| then data[i - at] else content[i]
    ensures at + |data| <= |content| ==> Overlaid(content, at, data) == Written(content, at, data) && i < |content|
  {
  }

  /** Whatever the file holds, data written at the start of r changes no byte outside r. */
  ghost predicate StaysInside(r: FileRange, size: nat, data: seq<byte>)
    requires InFile(r, size)
  {
    forall c: seq<byte> :: |c| == size ==> OutsideKept(c, r, Overlaid(c, r.offset, data))
  }

  ghost predicate OutsideKept(c: seq<byte>, r: FileRange, written: seq<byte>) {
    |written| == |c| && forall i :: 0 <= i < |c| && !r.Has(i) ==> written[i] == c[i]
  }

  lemma StaysInsideIff(r: FileRange, size: nat, data: seq<byte>)
    requires InFile(r, size)
    ensures StaysInside(r, size, data) <==> |data| <= r.length
  {
    if |data| > r.length {
      var other: byte := if data[r.length] == 0 then 1 else 0;
      var c := seq(size, _ => other);
      var written := Overlaid(c, r.offset, data);
      assert written[r.offset + r.length] == data[r.length];
      assert !OutsideKept(c, r, written);
    }
  }

  /** What a downloader fetches lies in the file and is ACTIVE. */
  lemma OwnRange<K>(bytes: seq<Status>, content: seq<byte>, claims: map<K, FileRange>, owner: K)
    requires Owned(bytes, claims) && owner in claims && |bytes| == |content|
    ensures InFile(claims[owner], |bytes|) && AllAre(bytes, claims[owner], ACTIVE)
    ensures Written(content, claims[owner].offset, []) == content
  {
  }

  /** Writing inside an own range touches neither valid nor full bytes. */
  lemma WriteOwn(bytes: seq<Status>, content: seq<byte>, r: FileRange, from: nat, data: seq<byte>)
    requires |bytes| == |content| && InFile(r, |bytes|) && AllAre(bytes, r, ACTIVE) && from + |data| <= r.length
    ensures Kept(bytes, content, bytes, Written(content, r.offset + from, data))
    ensures forall h :: InFile(h, |bytes|) && AllAre(bytes, h, FULL) ==>
      Written(content, r.offset + from, data)[h.offset..h.offset + h.length] == content[h.offset..h.offset + h.length]
  {
  }

  /** Handing ranges back touches no valid byte. */
  lemma SavedKept(bytes: seq<Status>, bytes': seq<Status>, content: seq<byte>)
    requires SavedBytes(bytes) == SavedBytes(bytes') && |bytes| == |content| && Single(bytes) && Single(bytes')
    ensures Kept(bytes, content, bytes', content)
  {
  }

  /** ... and leaves FULL bytes alone. */
  lemma SavedFull(bytes: seq<Status>, bytes': seq<Status>, r: FileRange)
    requires SavedBytes(bytes) == SavedBytes(bytes') && InFile(r, |bytes|) && AllAre(bytes, r, FULL)
    ensures |bytes| == |bytes'| && AllAre(bytes', r, FULL)
  {
    assert |SavedBytes(bytes)| == |SavedBytes(bytes')|;
    forall i | r.Has(i) ensures bytes'[i] == FULL {
      assert SavedBytes(bytes)[i] == SavedBytes(bytes')[i];
    }
  }

  lemma NoClaims<K>(bytes: seq<Status>, claims: map<K, FileRange>)
    requires Owned(bytes, claims) && claims.Keys == {}
    ensures SavedBytes(bytes) == bytes
  {
  }
}
