/** The byte map of a download (filemap.cpp, filemap.hpp). */
module FileMap {
  import opened Bytes
  import opened Powers
  import opened Wrappers
  import opened Range
  import opened FileRanges

  /** The assertions at the head of ModifyRange: what the bytes have to be before they become st. */
  predicate Permitted(st: Status, current: Status) {
    && (st & EMPTY != 0 ==> current == ACTIVE)
    && (st & FULL != 0 ==> current == ACTIVE)
    && (st & VALID != 0 ==> current == FULL)
    && (st & INVALID != 0 ==> current == FULL)
    && (st & ACTIVE != 0 ==> Vacant(current))
  }

  predicate Vacant(st: Status) {
    st == EMPTY || st == INVALID || st == EMPTY | INVALID
  }

  /** The bytes of r get status st, all others keep theirs. */
  function Overwritten(bytes: seq<Status>, r: FileRange, st: Status): seq<Status>
    requires r.offset + r.length <= |bytes|
  {
    bytes[..r.offset] + Fill(r.length, st) + bytes[r.offset + r.length..]
  }

  function OrRanges(rs: Ranges): Status {
    if rs == [] then NONE else rs[0].status | OrRanges(rs[1..])
  }

  lemma {:induction false} OrRangesIs(rs: Ranges, start: nat, end: nat)
    requires Contiguous(rs, start, end)
    ensures OrRanges(rs) == OrAll(Flat(rs))
    decreases |rs|
  {
    if rs != [] {
      OrRangesIs(rs[1..], start + rs[0].Length(), end);
      OrConcat(Fill(rs[0].Length(), rs[0].status), Flat(rs[1..]));
      OrFill(rs[0].Length(), rs[0].status);
    }
  }

  /** What is left of range x in front of byte o, and from byte z on, where it is not empty. */
  function LeftPiece(x: FileRangeEx, o: FileOffset): FileRangeEx
    requires x.Offset() < o
  {
    FileRangeEx(FileRange(x.Offset(), o - x.Offset()), x.status)
  }

  function RightPiece(x: FileRangeEx, z: FileOffset): FileRangeEx
    requires x.Offset() < z < x.Offset() + x.Length()
  {
    FileRangeEx(FileRange(z, x.Offset() + x.Length() - z), x.status)
  }

  /** Ranges first..last erased, and what r leaves of the first and the last inserted. */
  function Erased(rs: Ranges, first: nat, last: nat, r: FileRange): Ranges
    requires first < |rs| && last < |rs| && rs[first].Offset() <= r.offset && rs[last].Offset() < r.offset + r.length < WORD
  {
    var base, z := rs[..first] + rs[last + 1..], r.offset + r.length;
    var withLeft := if r.offset > rs[first].Offset() then Insert(base, LeftPiece(rs[first], r.offset)) else base;
    if z < rs[last].Offset() + rs[last].Length() then Insert(withLeft, RightPiece(rs[last], z)) else withLeft
  }

  /** Everything ModifyRange needs to know about the lists it goes through. */
  lemma Splicing(rs: Ranges, size: nat, r: FileRange, st: Status) returns (first: nat, last: nat, front: Ranges, back: Ranges)
    requires Contiguous(rs, 0, size) && !r.Empty() && r.offset + r.length <= size
    ensures size == |Flat(rs)| < WORD
    ensures first == FindRange(rs, r.First()) <= last == FindRange(rs, r.Last()) < |rs|
    ensures rs[first].Offset() <= r.offset && rs[last].Offset() < r.offset + r.length
    ensures rs[last].Last() == rs[last].Offset() + rs[last].Length() - 1
    ensures Erased(rs, first, last, r) == front + back
    ensures Insert(front + back, FileRangeEx(r, st)) == front + [FileRangeEx(r, st)] + back
    ensures LowerBound(front + [FileRangeEx(r, st)] + back, r.offset) == |front|
    ensures Contiguous(front + [FileRangeEx(r, st)] + back, 0, size)
    ensures Flat(front + [FileRangeEx(r, st)] + back) == Overwritten(Flat(rs), r, st)
    ensures Coalesced(rs) ==> CoalescedBut(front + [FileRangeEx(r, st)] + back, if |front| > 0 then |front| - 1 else |front|, |front| + 1)
  {
    hide Contiguous, Flat, Coalesced, CoalescedBut, Insert;
    var o, z := r.offset, r.offset + r.length;
    ContiguousOrder(rs, 0, size);
    FindRangeIs(rs, size, o);
    FindRangeIs(rs, size, z - 1);
    first, last := FindRange(rs, r.First()), FindRange(rs, r.Last());
    front, back := Before(rs, first, o), After(rs, last, z);
    ContiguousAt(rs, last, 0, size);
    HoldsOrder(rs, size, first, o, last, z - 1);
    ErasedIs(rs, size, first, last, r);
    InsertNew(front, back, FileRangeEx(r, st), size);
    Spliced(rs, size, first, last, r, st);
  }

  lemma ErasedIs(rs: Ranges, size: nat, first: nat, last: nat, r: FileRange)
    requires Contiguous(rs, 0, size) && !r.Empty() && r.offset + r.length <= size < WORD
    requires Holds(rs, first, r.offset) && Holds(rs, last, r.offset + r.length - 1) && first <= last
    ensures Erased(rs, first, last, r) == Before(rs, first, r.offset) + After(rs, last, r.offset + r.length)
    ensures Contiguous(Before(rs, first, r.offset), 0, r.offset)
    ensures Contiguous(After(rs, last, r.offset + r.length), r.offset + r.length, size)
  {
    hide Contiguous, Flat, Before, After, Insert;
    InsertLeft(rs, size, first, last, r.offset);
    BeforeIs(rs, size, first, r.offset);
    AfterIs(rs, size, last, r.offset + r.length);
    InsertRight(rs, size, last, Before(rs, first, r.offset), r.offset, r.offset + r.length);
  }

  /** Erasing ranges first..last and inserting what is left of the first of them, ... */
  lemma InsertLeft(rs: Ranges, size: nat, first: nat, last: nat, o: FileOffset)
    requires Contiguous(rs, 0, size) && Holds(rs, first, o) && first <= last < |rs|
    ensures var base := rs[..first] + rs[last + 1..];
      Before(rs, first, o) + rs[last + 1..] == if o > rs[first].Offset() then Insert(base, LeftPiece(rs[first], o)) else base
  {
    var a, b := rs[..first], rs[last + 1..];
    if o > rs[first].Offset() {
      var start := ContiguousSplit(rs, first, 0, size);
      var end := ContiguousSplit(rs, last + 1, 0, size);
      EndOf(rs, last, 0, size);
      StartsOrder(rs, size, first, last);
      InsertBetween(a, b, LeftPiece(rs[first], o), 0, start, end, size);
    } else {
      assert Before(rs, first, o) == a;
    }
  }

  /** ... what is left of the last of them, ... */
  lemma InsertRight(rs: Ranges, size: nat, last: nat, front: Ranges, o: FileOffset, z: FileOffset)
    requires Contiguous(rs, 0, size) && o < z && Holds(rs, last, z - 1) && Contiguous(front, 0, o)
    ensures front + After(rs, last, z) ==
      if z < rs[last].Offset() + rs[last].Length() then Insert(front + rs[last + 1..], RightPiece(rs[last], z)) else front + rs[last + 1..]
  {
    hide Contiguous, Insert;
    var b := rs[last + 1..];
    if z < rs[last].Offset() + rs[last].Length() {
      var end := ContiguousSplit(rs, last + 1, 0, size);
      EndOf(rs, last, 0, size);
      InsertBetween(front, b, RightPiece(rs[last], z), 0, o, end, size);
      assert front + After(rs, last, z) == front + [RightPiece(rs[last], z)] + b;
    } else {
      assert After(rs, last, z) == b;
    }
  }

  /** ... and the new range. */
  lemma InsertNew(front: Ranges, back: Ranges, x: FileRangeEx, size: nat)
    requires Contiguous(front, 0, x.Offset()) && Contiguous(back, x.Offset() + x.Length(), size) && x.Length() > 0
    ensures Insert(front + back, x) == front + [x] + back
    ensures LowerBound(front + [x] + back, x.Offset()) == |front|
  {
    InsertBetween(front, back, x, 0, x.Offset(), x.Offset() + x.Length(), size);
    PositionOf(front, [x] + back, 0, x.Offset());
    assert front + [x] + back == front + ([x] + back);
  }

  lemma StartsOrder(rs: Ranges, size: nat, i: nat, k: nat)
    requires Contiguous(rs, 0, size) && i <= k < |rs|
    ensures rs[i].Offset() + rs[i].Length() <= rs[k].Offset() + rs[k].Length()
  {
    ContiguousAt(rs, k, 0, size);
    if i < k {
      var middle := ContiguousSplit(rs, k, 0, size);
      ContiguousAt(rs[..k], i, 0, middle);
    }
  }

  lemma HoldsOrder(rs: Ranges, size: nat, i: nat, a: nat, k: nat, b: nat)
    requires Contiguous(rs, 0, size) && Holds(rs, i, a) && Holds(rs, k, b) && a <= b
    ensures i <= k
  {
    if k < i {
      var middle := ContiguousSplit(rs, i, 0, size);
      EndOf(rs[..i], k, 0, middle);
      if k + 1 < i { ContiguousAt(rs[..i], k + 1, 0, middle); }
    }
  }

  lemma {:induction false} PositionOf(front: Ranges, rest: Ranges, start: nat, o: nat)
    requires Contiguous(front, start, o) && rest != [] && rest[0].Offset() == o
    ensures LowerBound(front + rest, o) == |front|
    decreases |front|
  {
    if front == [] {
      assert front + rest == rest;
    } else {
      ContiguousOrder(front, start, o);
      assert (front + rest)[1..] == front[1..] + rest;
      PositionOf(front[1..], rest, start + front[0].Length(), o);
    }
  }

  // ----- saving and loading -----

  datatype Entry = Entry(first: FileOffset, last: FileOffset, status: Status)

  function Saved(st: Status): Status {
    if st == ACTIVE then EMPTY else st
  }

  function Entries(rs: Ranges): seq<Entry> {
    if rs == [] then []
    else var x := rs[|rs| - 1]; Entries(rs[..|rs| - 1]) + [Entry(x.Offset(), x.Last(), Saved(x.status))]
  }

  /** Each entry begins where the one before it ended. */
  predicate InOrder(entries: seq<Entry>, offset: nat) {
    entries == [] || (entries[0].first == offset && entries[0].first <= entries[0].last && InOrder(entries[1..], entries[0].last + 1))
  }

  predicate IsEntry(x: FileRangeEx, e: Entry) {
    x.Offset() == e.first && x.Last() == e.last && x.Length() > 0
  }

  /** The map that is loaded from the entries saved for rs. */
  function SavedRanges(rs: Ranges): (s: Ranges)
    ensures |s| == |rs|
    ensures forall i :: 0 <= i < |rs| ==> s[i] == rs[i].(status := Saved(rs[i].status))
  {
    if rs == [] then [] else [rs[0].(status := Saved(rs[0].status))] + SavedRanges(rs[1..])
  }

  function SavedBytes(bytes: seq<Status>): (s: seq<Status>)
    ensures |s| == |bytes|
    ensures forall i :: 0 <= i < |bytes| ==> s[i] == if bytes[i] == ACTIVE then EMPTY else bytes[i]
  {
    if bytes == [] then [] else [Saved(bytes[0])] + SavedBytes(bytes[1..])
  }

  lemma {:induction false} SavedFlat(rs: Ranges, start: nat, end: nat)
    requires Contiguous(rs, start, end)
    ensures Contiguous(SavedRanges(rs), start, end) && Flat(SavedRanges(rs)) == SavedBytes(Flat(rs))
    decreases |rs|
  {
    if rs != [] {
      SavedFlat(rs[1..], start + rs[0].Length(), end);
      assert SavedRanges(rs)[1..] == SavedRanges(rs[1..]);
    }
  }

  lemma {:induction false} EntriesInOrder(rs: Ranges, start: nat, end: nat)
    requires Contiguous(rs, start, end)
    ensures |Entries(rs)| == |rs|
    ensures forall i :: 0 <= i < |rs| ==> IsEntry(rs[i], Entries(rs)[i]) && Entries(rs)[i].status == Saved(rs[i].status)
    decreases |rs|
  {
    if rs != [] {
      var n := |rs| - 1;
      var middle := ContiguousSplit(rs, n, start, end);
      EntriesInOrder(rs[..n], start, middle);
      ContiguousAt(rs, n, start, end);
    }
  }

  lemma {:induction false} InOrderIs(rs: Ranges, entries: seq<Entry>, start: nat, end: nat)
    requires Contiguous(rs, start, end) && |entries| == |rs|
    requires forall i :: 0 <= i < |rs| ==> IsEntry(rs[i], entries[i])
    ensures InOrder(entries, start)
    decreases |rs|
  {
    if rs != [] { InOrderIs(rs[1..], entries[1..], start + rs[0].Length(), end); }
  }

  /** Saving and loading keeps the partition and every byte but the ACTIVE ones, which become EMPTY. */
  method SaveAndLoad(m: FileMap) returns (loaded: FileMap, r: Result<()>)
    requires m.Valid()
    ensures r.Success? && loaded.Valid()
    ensures loaded.ranges == SavedRanges(m.ranges) && loaded.Bytes() == SavedBytes(m.Bytes())
  {
    var entries := m.ToStream();
    ghost var size := |m.Bytes()|;
    EntriesInOrder(m.ranges, 0, size);
    InOrderIs(m.ranges, entries, 0, size);
    forall e | e in entries ensures e.last + 1 < WORD {
      var i :| 0 <= i < |entries| && entries[i] == e;
      ContiguousAt(m.ranges, i, 0, size);
    }
    loaded := new FileMap();
    r := loaded.FromStream(entries);
    SavedFlat(m.ranges, 0, size);
    LoadedAre(m.ranges, size, entries, loaded.ranges, |loaded.Bytes()|);
  }

  lemma LoadedAre(rs: Ranges, size: nat, entries: seq<Entry>, loaded: Ranges, end: nat)
    requires Contiguous(rs, 0, size) && Contiguous(loaded, 0, end) && Loaded(loaded, entries) && |entries| == |rs|
    requires forall i :: 0 <= i < |rs| ==> IsEntry(rs[i], entries[i]) && entries[i].status == Saved(rs[i].status)
    ensures loaded == SavedRanges(rs)
  {
    hide Contiguous;
    forall i | 0 <= i < |rs| ensures loaded[i] == SavedRanges(rs)[i] {
      assert IsEntry(rs[i], entries[i]) && IsEntry(loaded[i], entries[i]);
      ContiguousAt(rs, i, 0, size);
      ContiguousAt(loaded, i, 0, end);
    }
  }

  lemma SavedAlike(a: Status, b: Status)
    requires a != b
    ensures Saved(a) == Saved(b) <==> {a, b} == {ACTIVE, EMPTY}
  {
    assert ACTIVE in {a, b} && EMPTY in {a, b} <==> {a, b} == {ACTIVE, EMPTY};
  }

  /** A coalesced map stays coalesced through saving exactly if no bytes being fetched
      neighbour empty ones. */
  lemma SavedCoalesced(rs: Ranges)
    requires Coalesced(rs)
    ensures Coalesced(SavedRanges(rs)) <==>
      forall j :: 0 <= j < |rs| - 1 ==> {rs[j].status, rs[j + 1].status} != {ACTIVE, EMPTY}
  {
    var s := SavedRanges(rs);
    forall j | 0 <= j < |rs| - 1
      ensures Differ(s, j) <==> {rs[j].status, rs[j + 1].status} != {ACTIVE, EMPTY}
    {
      assert Differ(rs, j);
      SavedAlike(rs[j].status, rs[j + 1].status);
    }
    if Coalesced(s) {
      forall j | 0 <= j < |rs| - 1 ensures {rs[j].status, rs[j + 1].status} != {ACTIVE, EMPTY} {
        assert Differ(s, j);
      }
    }
  }

  // ----- queries -----

  predicate IsVacant(x: FileRangeEx) {
    x.status == EMPTY || x.status == INVALID
  }

  /** The range begins or ends inside a verification block. */
  predicate Ragged(x: FileRangeEx, v: nat) {
    v != 0 && (x.range.First() % v != 0 || (x.Last() + 1) % v != 0)
  }

  /** The first vacant range that begins or ends inside a verification block. */
  ghost predicate FirstRagged(rs: Ranges, v: nat, k: nat) {
    && k < |rs| && VacantEnd(rs[k], v)
    && forall j :: 0 <= j < k ==> !VacantEnd(rs[j], v)
  }

  ghost predicate VacantEnd(x: FileRangeEx, v: nat) {
    x.status in {EMPTY, INVALID} && v > 0 && (x.Offset() % v != 0 || (x.Offset() + x.Length()) % v != 0)
  }

  /** r is a nonempty part of the single range x. */
  predicate Inside(r: FileRange, x: FileRangeEx) {
    !r.Empty() && x.Offset() <= r.offset && r.offset + r.length <= x.Offset() + x.Length()
  }

  /** A part of x that begins with x or a verification block and ends with x or at the first
      multiple of max, whichever comes first. */
  predicate Trimmed(r: FileRange, x: FileRangeEx, v: nat, max: nat)
    requires max > 0
  {
    && Inside(r, x) && (r.offset == x.Offset() || (v != 0 && r.offset % v == 0))
    && r.length <= max && r.offset % max + r.length <= max
    && (r.offset + r.length == x.Offset() + x.Length() || r.offset % max + r.length == max)
  }

  /** What a and x have in common, cut off at max bytes. */
  predicate Shared(r: FileRange, a: FileRange, x: FileRangeEx, max: nat) {
    && Inside(r, x) && a.offset <= r.offset && r.offset + r.length <= a.offset + a.length
    && (r.offset == a.offset || r.offset == x.Offset())
    && r.length <= max && (r.length == max || r.offset + r.length == a.offset + a.length || r.offset + r.length == x.Offset() + x.Length())
  }

  /** The bytes of one range. */
  lemma OwnSlice(rs: Ranges, size: nat, k: nat)
    requires Contiguous(rs, 0, size) && k < |rs|
    ensures rs[k].Offset() + rs[k].Length() <= size == |Flat(rs)| < WORD
    ensures Flat(rs)[rs[k].Offset()..rs[k].Offset() + rs[k].Length()] == Fill(rs[k].Length(), rs[k].status)
  {
    hide Contiguous;
    ContiguousAt(rs, k, 0, size);
    ContiguousOrder(rs, 0, size);
    var start := ContiguousSplit(rs, k, 0, size);
    ContiguousOrder(rs[..k], 0, start);
    assert rs == rs[..k] + rs[k..] && rs[k..][0] == rs[k];
    FlatConcat(rs[..k], rs[k..]);
    assert Flat(rs) == Flat(rs[..k]) + Fill(rs[k].Length(), rs[k].status) + Flat(rs[k..][1..]);
    MiddleSlice(Flat(rs[..k]), Fill(rs[k].Length(), rs[k].status), Flat(rs[k..][1..]));
  }

  lemma SliceOfFill(flat: seq<Status>, a: nat, n: nat, st: Status, r: FileRange)
    requires a + n <= |flat| && flat[a..a + n] == Fill(n, st) && a <= r.offset && r.offset + r.length <= a + n
    ensures flat[r.offset..r.offset + r.length] == Fill(r.length, st)
  {
    var slice := flat[r.offset..r.offset + r.length];
    forall i | 0 <= i < r.length ensures slice[i] == st {
      assert flat[r.offset + i] == flat[a..a + n][r.offset + i - a];
    }
  }

  /** A part of one range has the status of that range in all its bytes. */
  lemma InsideStatus(rs: Ranges, size: nat, k: nat, r: FileRange)
    requires Contiguous(rs, 0, size) && k < |rs| && Inside(r, rs[k])
    ensures r.offset + r.length <= size == |Flat(rs)|
    ensures Flat(rs)[r.offset..r.offset + r.length] == Fill(r.length, rs[k].status)
    ensures StatusOf(rs, r) == rs[k].status
  {
    OwnSlice(rs, size, k);
    SliceOfFill(Flat(rs), rs[k].Offset(), rs[k].Length(), rs[k].status, r);
    StatusIsOr(rs, size, r);
    OrFill(r.length, rs[k].status);
  }

  /** All bytes of verification block b lie inside the range, which is FULL. */
  ghost predicate FullBlock(x: FileRangeEx, v: nat, b: nat) {
    x.status == FULL && x.Offset() <= b * v && (b + 1) * v <= x.Offset() + x.Length()
  }

  ghost predicate AnyFullBlock(rs: Ranges, v: nat) {
    exists k, b :: 0 <= k < |rs| && 0 <= b && FullBlock(rs[k], v, b)
  }

  /** No block begins between f and the next multiple of v. */
  lemma NextBlock(f: nat, v: nat, b: nat)
    requires v > 0 && f <= b * v
    ensures f - f % v + (if f % v != 0 then v else 0) <= b * v
  {
    var q := f / v;
    assert f == q * v + f % v;
    if f % v != 0 {
      if b <= q { MulMonotone(b, q, v); }
      MulMonotone(q + 1, b, v);
    }
  }

  /** Blocks of range i and of all later ones do not begin before the first multiple of v in range i,
      and range i has one only if it has the one that begins there. */
  lemma FirstBlock(rs: Ranges, size: nat, i: nat, v: nat)
    requires Contiguous(rs, 0, size) && i < |rs| && v > 0
    ensures var f := rs[i].Offset();
      var at := f - f % v + if f % v != 0 then v else 0;
      && (forall k, b :: i <= k < |rs| && 0 <= b && FullBlock(rs[k], v, b) ==> at <= b * v)
      && (forall b :: 0 <= b && FullBlock(rs[i], v, b) ==> at + v <= f + rs[i].Length())
  {
    var f := rs[i].Offset();
    forall k, b | i <= k < |rs| && 0 <= b && FullBlock(rs[k], v, b)
      ensures f - f % v + (if f % v != 0 then v else 0) <= b * v
    {
      OffsetsOrder(rs, size, i, k);
      NextBlock(f, v, b);
    }
    forall b | 0 <= b && FullBlock(rs[i], v, b) ensures (b + 1) * v == b * v + v {}
  }

  lemma OffsetsOrder(rs: Ranges, size: nat, i: nat, k: nat)
    requires Contiguous(rs, 0, size) && i <= k < |rs|
    ensures rs[i].Offset() <= rs[k].Offset()
  {
    ContiguousAt(rs, i, 0, size);
    if i < k {
      var middle := ContiguousSplit(rs, k, 0, size);
      ContiguousAt(rs[..k], i, 0, middle);
    }
  }

  /** What a host may announce as available: any range whose bounds are numbers in order. */
  predicate Announced(a: FileRange) {
    a == FileRange(0, 0) || (!a.Empty() && a.offset + a.length <= WORD)
  }

  /** Announced ranges that end with the last offset there is match nothing; all others that
      match really share a byte. */
  lemma IntersectsIs(a: FileRange, x: FileRange)
    requires Announced(a) && !x.Empty() && x.offset + x.length < WORD && a.Intersects(x)
    ensures !a.Empty() && a.Last() == a.offset + a.length - 1
    ensures a.offset < x.offset + x.length && x.offset < a.offset + a.length
  {
  }

  /** A host that announces a range offers its bytes, unless the range ends with the last offset
      there is: its end then wraps to 0. */
  predicate Offers(a: FileRange, i: int) {
    a.offset <= i < a.offset + a.length < WORD
  }

  /** Intersects sees exactly the bytes that are offered. */
  lemma IntersectsIff(a: FileRange, x: FileRange)
    requires Announced(a) && !x.Empty() && x.offset + x.length < WORD
    ensures a.Intersects(x) <==> exists i :: Offers(a, i) && x.Has(i)
  {
    if a.Intersects(x) {
      var i := if a.offset > x.offset then a.offset else x.offset;
      assert Offers(a, i) && x.Has(i);
    }
  }

  /** All of a file but its first byte, announced up to the last offset there is, matches nothing. */
  lemma LastOffsetWraps(x: FileRange)
    requires !x.Empty() && x.offset + x.length < WORD
    ensures Announced(FileRange(1, WORD - 1)) && !FileRange(1, WORD - 1).Intersects(x)
  {
  }

  /** Some vacant byte is on offer; a host that has announced nothing offers every byte. */
  ghost predicate OnOffer(bytes: seq<Status>, avail: seq<FileRange>) {
    exists i :: 0 <= i < |bytes| && bytes[i] in {EMPTY, INVALID} && (avail == [] || exists a :: a in avail && Offers(a, i))
  }

  lemma Offered(rs: Ranges, size: nat, k: nat, r: FileRange, avail: seq<FileRange>)
    requires Contiguous(rs, 0, size) && k < |rs| && IsVacant(rs[k]) && Inside(r, rs[k])
    requires avail == [] || exists a :: a in avail && Offers(a, r.offset)
    ensures OnOffer(Flat(rs), avail)
  {
    InsideStatus(rs, size, k, r);
    assert Flat(rs)[r.offset] == Flat(rs)[r.offset..r.offset + r.length][0];
  }

  /** The byte at i has the status of the range that holds it. */
  lemma RangeAt(rs: Ranges, size: nat, i: nat) returns (k: nat)
    requires Contiguous(rs, 0, size) && i < |Flat(rs)|
    ensures k < |rs| && rs[k].range.Has(i) && Flat(rs)[i] == rs[k].status && rs[k].Offset() + rs[k].Length() < WORD
  {
    ContiguousOrder(rs, 0, size);
    FindRangeIs(rs, size, i);
    k := FindRange(rs, i);
    ContiguousAt(rs, k, 0, size);
    InsideStatus(rs, size, k, FileRange(i, 1));
    assert Flat(rs)[i] == Flat(rs)[i..i + 1][0];
  }

  lemma ApartOffersNone(a: FileRange, x: FileRange, i: nat)
    requires !a.Intersects(x) && x.Has(i) && x.offset + x.length < WORD
    ensures !Offers(a, i)
  {
  }

  lemma NothingOnOffer(rs: Ranges, size: nat, avail: seq<FileRange>)
    requires Contiguous(rs, 0, size)
    requires if avail == [] then forall k :: 0 <= k < |rs| ==> !IsVacant(rs[k])
             else forall k, a :: 0 <= k < |rs| && IsVacant(rs[k]) && a in avail ==> !a.Intersects(rs[k].range)
    ensures !OnOffer(Flat(rs), avail)
  {
    hide Contiguous, FileRange.Intersects, Offers, FileRange.Has;
    forall i | 0 <= i < |Flat(rs)| && Flat(rs)[i] in {EMPTY, INVALID}
      ensures avail != [] && forall a :: a in avail ==> !Offers(a, i)
    {
      var k := RangeAt(rs, size, i);
      assert IsVacant(rs[k]);
      forall a | a in avail ensures !Offers(a, i) { ApartOffersNone(a, rs[k].range, i); }
    }
  }

  function Touched(x: FileRangeEx, r: FileRange): Status {
    if r.Intersects(x.range) then x.status else NONE
  }

  lemma OrAssociate(a: Status, b: Status, c: Status)
    ensures (a | b) | c == a | (b | c)
  {
  }

  lemma {:induction false} StatusAppend(rs: Ranges, x: FileRangeEx, r: FileRange)
    ensures StatusOf(rs + [x], r) == StatusOf(rs, r) | Touched(x, r)
    decreases |rs|
  {
    if rs == [] {
      assert (rs + [x])[1..] == [];
    } else {
      assert (rs + [x])[1..] == rs[1..] + [x];
      StatusAppend(rs[1..], x, r);
      OrAssociate(Touched(rs[0], r), StatusOf(rs[1..], r), Touched(x, r));
    }
  }

  lemma {:induction false} OrAppend(rs: Ranges, x: FileRangeEx)
    ensures OrRanges(rs + [x]) == OrRanges(rs) | x.status
    decreases |rs|
  {
    if rs == [] {
      assert (rs + [x])[1..] == [];
    } else {
      assert (rs + [x])[1..] == rs[1..] + [x];
      OrAppend(rs[1..], x);
      OrAssociate(rs[0].status, OrRanges(rs[1..]), x.status);
    }
  }

  function CountFlags(bytes: seq<Status>, mask: Status): nat {
    if bytes == [] then 0 else (if bytes[0] & mask != 0 then 1 else 0) + CountFlags(bytes[1..], mask)
  }

  /** Counting flags is counting positions. */
  lemma CountIsSet(bytes: seq<Status>, mask: Status)
    ensures CountFlags(bytes, mask) == |(set i | 0 <= i < |bytes| && bytes[i] & mask != 0)|
  {
    CountUpTo(bytes, mask, |bytes|);
    assert bytes[..|bytes|] == bytes;
    assert (set i | 0 <= i < |bytes| && bytes[i] & mask != 0) == set i | 0 <= i < |bytes| && Flagged(bytes[i], mask);
  }

  predicate Flagged(st: Status, mask: Status) {
    st & mask != 0
  }

  lemma {:induction false} CountUpTo(bytes: seq<Status>, mask: Status, n: nat)
    requires n <= |bytes|
    ensures CountFlags(bytes[..n], mask) == |set i | 0 <= i < n && Flagged(bytes[i], mask)|
    decreases n
  {
    hide CountFlags, Flagged;
    var found := set i | 0 <= i < n && Flagged(bytes[i], mask);
    if n == 0 {
      NoFlags([], mask);
      assert found == {} && bytes[..0] == [];
    } else {
      CountUpTo(bytes, mask, n - 1);
      var before := set i | 0 <= i < n - 1 && Flagged(bytes[i], mask);
      assert found == if Flagged(bytes[n - 1], mask) then before + {n - 1} else before;
      assert bytes[..n] == bytes[..n - 1] + [bytes[n - 1]];
      CountConcat(bytes[..n - 1], [bytes[n - 1]], mask);
      CountOne(bytes[n - 1], mask);
    }
  }

  lemma CountOne(st: Status, mask: Status)
    ensures CountFlags([st], mask) == if Flagged(st, mask) then 1 else 0
  {
    assert [st][1..] == [];
  }

  lemma NoFlags(rs: Ranges, mask: Status)
    ensures CountFlags(Flat(rs[..0]), mask) == CountFlags([], mask) == 0
  {
  }

  lemma {:induction false} CountConcat(a: seq<Status>, b: seq<Status>, mask: Status)
    ensures CountFlags(a + b, mask) == CountFlags(a, mask) + CountFlags(b, mask)
    decreases |a|
  {
    if a == [] {
      assert a + b == b;
    } else {
      assert (a + b)[1..] == a[1..] + b;
      CountConcat(a[1..], b, mask);
    }
  }

  lemma {:induction false} CountFill(n: nat, st: Status, mask: Status)
    ensures CountFlags(Fill(n, st), mask) == if st & mask != 0 then n else 0
    decreases n
  {
    if n > 0 {
      assert Fill(n, st)[1..] == Fill(n - 1, st);
      CountFill(n - 1, st, mask);
    }
  }

  /** The ranges are the entries. */
  predicate Loaded(rs: Ranges, entries: seq<Entry>) {
    |rs| == |entries| && forall i :: 0 <= i < |rs| ==> rs[i].status == entries[i].status && IsEntry(rs[i], entries[i])
  }

  /** Appending the range of the next entry. */
  lemma AppendKeeps(rs: Ranges, entries: seq<Entry>, e: Entry, offset: nat)
    requires Contiguous(rs, 0, offset) && Loaded(rs, entries) && e.first == offset && e.first <= e.last && e.last + 1 < WORD
    ensures var x := FileRangeEx(FileRange(e.first, e.last - e.first + 1), e.status);
      Insert(rs, x) == rs + [x] && Contiguous(rs + [x], 0, e.last + 1) && Loaded(rs + [x], entries + [e])
  {
    var x := FileRangeEx(FileRange(e.first, e.last - e.first + 1), e.status);
    InsertBetween(rs, [], x, 0, offset, e.last + 1, e.last + 1);
    ContiguousOne(x, offset, e.last + 1);
    ContiguousConcat(rs, [x], 0, offset, e.last + 1);
    assert rs + [] == rs;
    assert rs + [x] + [] == rs + [x];
  }

  class FileMap {
    var ranges: Ranges
    var status: Status
    var versize: FileOffset

    /** The status of every byte of the file. */
    ghost function Bytes(): seq<Status>
      reads this
    {
      Flat(ranges)
    }

    ghost predicate Valid()
      reads this
    {
      && Contiguous(ranges, 0, |Bytes()|)
      && (status != NONE ==> status == OrRanges(ranges))
    }

    constructor ()
      ensures Valid() && ranges == [] && versize == 0 && status == NONE
    {
      ranges, status, versize := [], NONE, 0;
    }

    /** Init of an empty map for a file of the given size. An empty file gets an empty range, which
        is no partition. */
    method Init(size: FileOffset)
      requires Valid() && ranges == []
      modifies this`ranges
      ensures size > 0 ==> Valid() && Bytes() == Fill(size, EMPTY) && Coalesced(ranges)
      ensures size == 0 ==> ranges == [FileRangeEx(FileRange(0, 0), EMPTY)] && !Valid()
    {
      ranges := Insert(ranges, FileRangeEx(FileRange(0, size), EMPTY));
      FlatPair(ranges[0], ranges[0]);
    }

    /** Status of the whole map, through the cache. */
    method TotalStatus() returns (st: Status)
      requires Valid()
      modifies this`status
      ensures Valid() && st == OrAll(Bytes())
    {
      OrRangesIs(ranges, 0, |Bytes()|);
      if status == NONE {
        for i := 0 to |ranges|
          invariant status == OrRanges(ranges[..i])
        {
          assert ranges[..i + 1] == ranges[..i] + [ranges[i]];
          OrAppend(ranges[..i], ranges[i]);
          status := status | ranges[i].status;
        }
        assert ranges[..|ranges|] == ranges;
      }
      return status;
    }

    /** Status of a range: the flags of its bytes. */
    method RangeStatus(r: FileRange) returns (st: Status)
      requires Valid()
      ensures st == StatusOf(ranges, r)
      ensures !r.Empty() && r.offset + r.length <= |Bytes()| ==> st == OrAll(Bytes()[r.offset..r.offset + r.length])
    {
      st := NONE;
      for i := 0 to |ranges|
        invariant st == StatusOf(ranges[..i], r)
      {
        assert ranges[..i + 1] == ranges[..i] + [ranges[i]];
        StatusAppend(ranges[..i], ranges[i], r);
        if r.Intersects(ranges[i].range) { st := st | ranges[i].status; }
      }
      assert ranges[..|ranges|] == ranges;
      if !r.Empty() && r.offset + r.length <= |Bytes()| { StatusIsOr(ranges, |Bytes()|, r); }
    }

    /** GetEmptyRange without announced ranges; the two picks are the random choices. The
        result is empty only if nothing is vacant. Otherwise it is part of one vacant range,
        at most max long, and does not cross a multiple of max. */
    method GetEmptyRange(max: FileOffset, pick: nat, pickBlock: nat) returns (range: FileRange)
      requires Valid() && max > 0
      ensures range.Empty() ==> forall k :: 0 <= k < |ranges| ==> ranges[k].status !in {EMPTY, INVALID}
      ensures !range.Empty() ==> exists k :: 0 <= k < |ranges| && ranges[k].status in {EMPTY, INVALID} && Trimmed(range, ranges[k], versize, max)
      ensures forall k: nat :: FirstRagged(ranges, versize, k) ==> Inside(range, ranges[k])
    {
      var k := PickVacant(pick);
      if k.None? { return FileRange(0, 0); }
      var r := ranges[k.value].range;
      ContiguousAt(ranges, k.value, 0, |Bytes()|);
      range := PickPart(r, pickBlock);
      if range.length > max { range := FileRange(range.offset, max); }
      var room := max - range.offset % max;
      if room < range.length { range := FileRange(range.offset, room); }
      assert Trimmed(range, ranges[k.value], versize, max);
    }

    /** A vacant range that begins or ends inside a verification block is finished first; if there
        is none, any vacant range will do. */
    method PickVacant(pick: nat) returns (k: Option<nat>)
      requires Valid()
      ensures k.None? ==> forall j :: 0 <= j < |ranges| ==> ranges[j].status !in {EMPTY, INVALID}
      ensures k.Some? ==> k.value < |ranges| && ranges[k.value].status in {EMPTY, INVALID}
      ensures forall j: nat :: FirstRagged(ranges, versize, j) ==> k == Some(j)
    {
      var parts: seq<nat> := [];
      var i := 0;
      while i < |ranges|
        invariant 0 <= i <= |ranges|
        invariant forall p :: 0 <= p < |parts| ==> parts[p] < |ranges| && IsVacant(ranges[parts[p]])
        invariant parts == [] ==> forall j :: 0 <= j < i ==> !IsVacant(ranges[j])
        invariant forall j :: 0 <= j < i ==> !VacantEnd(ranges[j], versize)
      {
        ContiguousAt(ranges, i, 0, |Bytes()|);
        if IsVacant(ranges[i]) {
          if Ragged(ranges[i], versize) { return Some(i); }
          parts := parts + [i];
        }
        i := i + 1;
      }
      if parts == [] { return None; }
      k := Some(parts[pick % |parts|]);
    }

    /** The choice inside one vacant range: all of it, its unaligned tail, or from some block on. */
    method PickPart(r: FileRange, pickBlock: nat) returns (range: FileRange)
      requires !r.Empty() && r.offset + r.length < WORD
      ensures !range.Empty() && r.offset <= range.offset && range.offset + range.length == r.offset + r.length
      ensures versize == 0 || r.offset % versize != 0 ==> range == r
      ensures versize != 0 && r.offset % versize == 0 ==> range.offset % versize == 0
      ensures versize != 0 && r.offset % versize == 0 && (r.Last() + 1) % versize != 0 ==> range.length < versize
      ensures versize != 0 && r.offset % versize == 0 && (r.Last() + 1) % versize == 0 && r.length > versize ==>
        range.offset == r.offset + versize * (pickBlock % (r.length / versize))
    {
      if versize != 0 && r.First() % versize != 0 {
        range := r;
      } else if versize != 0 && (r.Last() + 1) % versize != 0 {
        range := PickTail(r);
      } else if versize != 0 && r.length > versize {
        range := PickBlock(r, pickBlock);
      } else {
        range := r;
      }
    }

    method PickTail(r: FileRange) returns (range: FileRange)
      requires !r.Empty() && r.offset + r.length < WORD
      requires versize != 0 && r.offset % versize == 0 && (r.Last() + 1) % versize != 0
      ensures !range.Empty() && r.offset <= range.offset && range.offset + range.length == r.offset + r.length
      ensures range.offset % versize == 0 && range.length < versize
    {
      LastBlock(r.First(), r.Last(), versize);
      var tail := r.Last() - r.Last() % versize;
      var offset := if r.First() > tail then r.First() else tail;
      range := FileRange(offset, r.Last() - offset + 1);
    }

    method PickBlock(r: FileRange, pickBlock: nat) returns (range: FileRange)
      requires r.offset + r.length < WORD && versize != 0 && r.offset % versize == 0 && r.length > versize
      ensures !range.Empty() && r.offset <= range.offset && range.offset + range.length == r.offset + r.length
      ensures range.offset % versize == 0 && range.offset == r.offset + versize * (pickBlock % (r.length / versize))
    {
      var blocks := r.length / versize;
      var chosen := pickBlock % blocks;
      ChosenBlock(r.First(), r.length, versize, pickBlock);
      var offset := r.First() + versize * chosen;
      range := FileRange(offset, r.Last() - offset + 1);
    }

    /** GetEmptyRange over announced ranges: the part of the first vacant range that the first
        matching announced range covers, at most max long. */
    method GetAvailableRange(avail: seq<FileRange>, max: FileOffset, pick: nat, pickBlock: nat) returns (range: FileRange)
      requires Valid() && max > 0 && forall a :: a in avail ==> Announced(a)
      ensures range.Empty() <==> !OnOffer(Bytes(), avail)
      ensures !range.Empty() ==> exists k :: 0 <= k < |ranges| && IsVacant(ranges[k]) && Inside(range, ranges[k])
      ensures !range.Empty() ==> range.length <= max
      ensures !range.Empty() && avail != [] ==>
        exists k, a :: 0 <= k < |ranges| && ranges[k].status in {EMPTY, INVALID} && a in avail && Shared(range, a, ranges[k], max)
    {
      if avail == [] {
        range := GetEmptyRange(max, pick, pickBlock);
        if range.Empty() {
          NothingOnOffer(ranges, |Bytes()|, avail);
        } else {
          ghost var k :| 0 <= k < |ranges| && IsVacant(ranges[k]) && Inside(range, ranges[k]);
          Offered(ranges, |Bytes()|, k, range, avail);
        }
        return;
      }
      for i := 0 to |ranges|
        invariant forall k, a :: 0 <= k < i && IsVacant(ranges[k]) && a in avail ==> !a.Intersects(ranges[k].range)
      {
        if IsVacant(ranges[i]) {
          ContiguousAt(ranges, i, 0, |Bytes()|);
          for j := 0 to |avail|
            invariant forall a :: a in avail[..j] ==> !a.Intersects(ranges[i].range)
          {
            var a := avail[j];
            if a.Intersects(ranges[i].range) {
              IntersectsIs(a, ranges[i].range);
              var offset := if a.offset > ranges[i].Offset() then a.offset else ranges[i].Offset();
              var last := if a.Last() < ranges[i].Last() then a.Last() else ranges[i].Last();
              assert last >= offset;
              var length := last - offset + 1;
              range := FileRange(offset, if max < length then max else length);
              assert a in avail && Shared(range, a, ranges[i], max) && Offers(a, offset);
              Offered(ranges, |Bytes()|, i, range, avail);
              return;
            }
            assert avail[..j + 1] == avail[..j] + [a];
          }
          assert avail[..|avail|] == avail;
        }
      }
      range := FileRange(0, 0);
      NothingOnOffer(ranges, |Bytes()|, avail);
    }

    /** GetForValidation: the first whole verification block of a FULL range, or a FULL last
        range that is shorter than a block. */
    method GetForValidation() returns (range: FileRange)
      requires Valid() && |Bytes()| + versize <= WORD
      ensures !range.Empty() ==> exists k :: 0 <= k < |ranges| && ranges[k].status == FULL && Inside(range, ranges[k])
      ensures !range.Empty() ==>
        || (versize > 0 && range.length == versize && range.offset % versize == 0)
        || (range == ranges[|ranges| - 1].range && range.length < versize)
      ensures versize > 0 && range.length != versize ==> !AnyFullBlock(ranges, versize)
      ensures versize > 0 && range.length == versize ==>
        forall k, b :: 0 <= k < |ranges| && 0 <= b && FullBlock(ranges[k], versize, b) ==> range.offset <= b * versize
      ensures range.Empty() && versize > 0 && ranges != [] ==> !(ranges[|ranges| - 1].status == FULL && ranges[|ranges| - 1].Length() < versize)
    {
      if versize == 0 || ranges == [] { return FileRange(0, 0); }
      for i := 0 to |ranges|
        invariant forall k, b :: 0 <= k < i && 0 <= b ==> !FullBlock(ranges[k], versize, b)
      {
        ContiguousAt(ranges, i, 0, |Bytes()|);
        FirstBlock(ranges, |Bytes()|, i, versize);
        if ranges[i].status == FULL && ranges[i].Length() >= versize {
          var offset := ranges[i].Offset() - ranges[i].Offset() % versize;
          Aligned(ranges[i].Offset(), versize);
          if offset < ranges[i].Offset() { offset := offset + versize; }
          if offset + versize - 1 <= ranges[i].Last() {
            range := FileRange(offset, versize);
            assert Inside(range, ranges[i]);
            return;
          }
        }
      }
      var lastRange := ranges[|ranges| - 1];
      ContiguousAt(ranges, |ranges| - 1, 0, |Bytes()|);
      if lastRange.status == FULL && lastRange.Length() < versize {
        assert Inside(lastRange.range, lastRange);
        return lastRange.range;
      }
      return FileRange(0, 0);
    }

    /** CountBytes: how many bytes have one of the given flags. */
    method CountBytes(mask: Status) returns (count: nat)
      requires Valid()
      ensures count == |(set i | 0 <= i < |Bytes()| && Bytes()[i] & mask != 0)|
    {
      CountIsSet(Bytes(), mask);
      hide Flat, CountFlags, Contiguous;
      count := 0;
      NoFlags(ranges, mask);
      for i := 0 to |ranges|
        invariant count == CountFlags(Flat(ranges[..i]), mask)
      {
        assert ranges[..i + 1] == ranges[..i] + [ranges[i]];
        FlatConcat(ranges[..i], [ranges[i]]);
        FlatPair(ranges[i], ranges[i]);
        CountConcat(Flat(ranges[..i]), Flat([ranges[i]]), mask);
        CountFill(ranges[i].Length(), ranges[i].status, mask);
        if ranges[i].status & mask != 0 { count := count + ranges[i].Length(); }
      }
      assert ranges[..|ranges|] == ranges;
    }

    /** ToStream: first and last byte and status of every range; what is being fetched counts as empty. */
    method ToStream() returns (entries: seq<Entry>)
      requires Valid()
      ensures entries == Entries(ranges)
      ensures |entries| == |ranges| && forall k :: 0 <= k < |ranges| ==>
        && entries[k].first == ranges[k].Offset() && entries[k].last == ranges[k].Offset() + ranges[k].Length() - 1
        && entries[k].status == if ranges[k].status == ACTIVE then EMPTY else ranges[k].status
    {
      EntriesInOrder(ranges, 0, |Bytes()|);
      forall k | 0 <= k < |ranges| ensures ranges[k].Last() == ranges[k].Offset() + ranges[k].Length() - 1 {
        ContiguousAt(ranges, k, 0, |Bytes()|);
      }
      entries := [];
      for i := 0 to |ranges|
        invariant entries == Entries(ranges[..i])
      {
        assert ranges[..i + 1][..i] == ranges[..i];
        var t := ranges[i].status;
        if t == ACTIVE { t := EMPTY; }
        entries := entries + [Entry(ranges[i].range.First(), ranges[i].Last(), t)];
      }
      assert ranges[..|ranges|] == ranges;
    }

    /** FromStream: entries with a hole or out of order are refused. The cached status is left as it
        was, so that a map whose status has been asked for stays sound only if it is that of the
        entries. */
    method FromStream(entries: seq<Entry>) returns (r: Result<()>)
      requires forall e :: e in entries ==> e.last + 1 < WORD
      modifies this`ranges
      ensures Contiguous(ranges, 0, |Bytes()|)
      ensures Valid() <==> status == NONE || status == OrAll(Bytes())
      ensures r.Success? <==> InOrder(entries, 0)
      ensures r.Success? ==> Loaded(ranges, entries)
    {
      ranges := [];
      var offset: FileOffset := 0;
      for i := 0 to |entries|
        invariant Contiguous(ranges, 0, offset) && Loaded(ranges, entries[..i])
        invariant InOrder(entries, 0) == InOrder(entries[i..], offset)
      {
        var e := entries[i];
        assert entries[i..][0] == e && entries[i..][1..] == entries[i + 1..];
        if e.first != offset || e.last < e.first {
          ContiguousOrder(ranges, 0, offset);
          OrRangesIs(ranges, 0, offset);
          return Failure("Bytes range hole");
        }
        AppendKeeps(ranges, entries[..i], e, offset);
        assert entries[..i + 1] == entries[..i] + [e];
        ranges := Insert(ranges, FileRangeEx(FileRange(e.first, e.last - e.first + 1), e.status));
        offset := e.last + 1;
      }
      assert entries[|entries|..] == [] && entries[..|entries|] == entries;
      ContiguousOrder(ranges, 0, offset);
      OrRangesIs(ranges, 0, offset);
      return Success(());
    }

    method ModifyRange(range: FileRange, st: Status)
      requires Valid()
      requires !range.Empty() ==> range.offset + range.length <= |Bytes()| && Permitted(st, StatusOf(ranges, range))
      modifies this`ranges, this`status
      ensures Valid()
      ensures Bytes() == if range.Empty() then old(Bytes()) else Overwritten(old(Bytes()), range, st)
      ensures old(Coalesced(ranges)) ==> Coalesced(ranges)
    {
      hide Contiguous, Flat, Coalesced, CoalescedBut, Insert, Erased, FindRange, LowerBound, Permitted, StatusOf, OrRanges;
      if range.Empty() { return; }
      ghost var size := |Bytes()|;
      ghost var i, k, front, back := Splicing(ranges, size, range, st);
      Splice(FindRange(ranges, range.First()), FindRange(ranges, range.Last()), range, st);
      var inserted := LowerBound(ranges, range.offset);
      Merge(if inserted > 0 then inserted - 1 else inserted, size, inserted + 1, old(Coalesced(ranges)));
      status := NONE;
    }

    /** The part of ModifyRange that erases ranges first..last and inserts the pieces. */
    method Splice(first: nat, last: nat, range: FileRange, st: Status)
      requires first < |ranges| && last < |ranges| && !range.Empty() && range.offset + range.length < WORD
      requires ranges[first].Offset() <= range.offset && ranges[last].Offset() < range.offset + range.length
      requires ranges[last].Last() == ranges[last].Offset() + ranges[last].Length() - 1
      modifies this`ranges
      ensures ranges == Insert(Erased(old(ranges), first, last, range), FileRangeEx(range, st))
    {
      var firstPart, lastPart := ranges[first], ranges[last];
      ranges := ranges[..first] + ranges[last + 1..];
      if range.offset > firstPart.Offset() {
        ranges := Insert(ranges, FileRangeEx(FileRange(firstPart.Offset(), range.offset - firstPart.Offset()), firstPart.status));
      }
      if range.Last() < lastPart.Last() {
        ranges := Insert(ranges, FileRangeEx(FileRange(range.Last() + 1, lastPart.Last() - range.Last()), lastPart.status));
      }
      ranges := Insert(ranges, FileRangeEx(range, st));
    }

    /** The merging loop of ModifyRange: three steps from the range in front of the new one. */
    method Merge(start: nat, ghost size: nat, ghost hi: nat, ghost coalesced: bool)
      requires Contiguous(ranges, 0, size) && start <= hi <= start + 2
      requires coalesced ==> CoalescedBut(ranges, start, hi)
      modifies this`ranges
      ensures Contiguous(ranges, 0, size) && Flat(ranges) == Flat(old(ranges))
      ensures coalesced ==> Coalesced(ranges)
    {
      var i: nat, affected := start, 3;
      ghost var top: int := hi;
      while affected > 0 && i < |ranges|
        invariant 0 <= affected <= 3 && top <= i + affected - 1
        invariant Contiguous(ranges, 0, size) && Flat(ranges) == Flat(old(ranges))
        invariant coalesced ==> CoalescedBut(ranges, i, top)
        decreases affected
      {
        var next := i + 1;
        if next < |ranges| && !Differ(ranges, i) {
          MergeKeeps(ranges, i, size);
          if coalesced { MergeNarrows(ranges, i, top); }
          ranges := Insert(ranges[..i] + ranges[next + 1..], Joint(ranges[i], ranges[next]));
          top := top - 1;
        } else {
          i := i + 1;
        }
        affected := affected - 1;
      }
    }
  }

  lemma ChosenBlock(first: nat, length: nat, v: nat, pick: nat)
    requires v > 0 && first % v == 0 && length > v
    ensures length / v > 0
    ensures var at := first + v * (pick % (length / v)); first <= at < first + length && at % v == 0
  {
    var blocks := length / v;
    QuotientIs(v, v, 1);
    QuotientMonotone(v, length, v);
    BlockInside(pick % blocks, blocks, v, length);
    BlockFrom(first, v, pick % blocks);
  }

  lemma QuotientMonotone(a: nat, b: nat, d: nat)
    requires d > 0 && a <= b
    ensures a / d <= b / d
  {
    QuotientBounds(a, d);
    QuotientBounds(b, d);
    if b / d < a / d { MulMonotone(b / d + 1, a / d, d); }
  }

  lemma BlockInside(chosen: nat, blocks: nat, v: nat, length: nat)
    requires v > 0 && chosen < blocks == length / v
    ensures v * chosen < length
  {
  }

  /** The unfinished last block of a stretch that begins at a block. */
  lemma LastBlock(first: nat, last: nat, v: nat)
    requires v > 0 && first % v == 0 && first <= last && (last + 1) % v != 0
    ensures first <= last - last % v && (last - last % v) % v == 0 && last % v + 1 < v
  {
    Aligned(last, v);
    var p, q := first / v, last / v;
    assert first == p * v && last == q * v + last % v;
    assert (q + 1) * v == q * v + v;
    Multiple(q + 1, v);
    if p > q {
      Grows(q + 1, p, v);
      assert false;
    }
    Grows(p, q, v);
  }

  lemma Grows(a: nat, b: nat, v: nat)
    requires a <= b
    ensures a * v <= b * v
  {
  }

  lemma BlockFrom(first: nat, v: nat, blocks: nat)
    requires v > 0 && first % v == 0
    ensures (first + v * blocks) % v == 0
  {
    var p := first / v;
    assert first + v * blocks == (p + blocks) * v;
    Multiple(p + blocks, v);
  }

  lemma Aligned(f: nat, v: nat)
    requires v > 0
    ensures (f - f % v) % v == 0 && (f - f % v + v) % v == 0
  {
    var q := f / v;
    assert f - f % v == q * v;
    assert (q + 1) * v == q * v + v;
    Multiple(q, v);
    Multiple(q + 1, v);
  }

  /** The spliced list is a partition whose bytes are overwritten, coalesced but around the
      new range if the old list was coalesced. */
  lemma Spliced(rs: Ranges, size: nat, first: nat, last: nat, r: FileRange, st: Status)
    requires Contiguous(rs, 0, size) && !r.Empty() && r.offset + r.length <= size < WORD
    requires Holds(rs, first, r.offset) && Holds(rs, last, r.offset + r.length - 1)
    ensures |Flat(rs)| == size
    ensures var spliced := Before(rs, first, r.offset) + [FileRangeEx(r, st)] + After(rs, last, r.offset + r.length);
      && Contiguous(spliced, 0, size) && Flat(spliced) == Overwritten(Flat(rs), r, st)
      && (Coalesced(rs) ==> var n := |Before(rs, first, r.offset)|; CoalescedBut(spliced, if n > 0 then n - 1 else n, n + 1))
  {
    hide Contiguous, Flat, Coalesced, CoalescedBut, Before, After;
    var x, z := FileRangeEx(r, st), r.offset + r.length;
    var front, back := Before(rs, first, r.offset), After(rs, last, z);
    BeforeIs(rs, size, first, r.offset);
    AfterIs(rs, size, last, z);
    ContiguousOne(x, r.offset, z);
    ContiguousConcat(front, [x], 0, r.offset, z);
    ContiguousConcat(front + [x], back, 0, z, size);
    FlatMiddle(front, [x], back);
    FlatPair(x, x);
    if Coalesced(rs) {
      PartsCoalesced(rs, first, r.offset, last, z);
      Junction(front, x, back);
    }
  }
}
