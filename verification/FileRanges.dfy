/** Sorted lists of byte ranges with a status each, and the per-byte statuses they stand for. */
module FileRanges {
  import opened Bytes
  import opened Range

  /** Integrity flags (filemap.hpp). */
  type Status = bv8

  const NONE: Status := 0
  const VALID: Status := 1
  const INVALID: Status := 2
  const ACTIVE: Status := 4
  const EMPTY: Status := 8
  const FULL: Status := 16

  datatype FileRangeEx = FileRangeEx(range: FileRange, status: Status) {
    function Offset(): FileOffset { range.offset }
    function Length(): FileOffset { range.length }
    function Last(): FileOffset { range.Last() }
  }

  type Ranges = seq<FileRangeEx>

  /** The ranges are nonempty and follow each other without a gap from `start` to `end`. */
  ghost predicate Contiguous(rs: Ranges, start: nat, end: nat)
    decreases |rs|
  {
    if rs == [] then start == end else
      && rs[0].Offset() == start && rs[0].Length() > 0 && start + rs[0].Length() < WORD
      && Contiguous(rs[1..], start + rs[0].Length(), end)
  }

  function Fill(n: nat, st: Status): seq<Status> { seq(n, _ => st) }

  /** The status of every byte. */
  function Flat(rs: Ranges): seq<Status>
    decreases |rs|
  {
    if rs == [] then [] else Fill(rs[0].Length(), rs[0].status) + Flat(rs[1..])
  }

  function OrAll(s: seq<Status>): Status {
    if s == [] then 0 else s[0] | OrAll(s[1..])
  }

  /** Neighbours have different statuses. */
  predicate Differ(rs: Ranges, j: nat)
    requires j + 1 < |rs|
  {
    rs[j].status != rs[j + 1].status
  }

  ghost predicate Coalesced(rs: Ranges) {
    forall j :: 0 <= j < |rs| - 1 ==> Differ(rs, j)
  }

  lemma {:induction false} ContiguousConcat(a: Ranges, b: Ranges, start: nat, middle: nat, end: nat)
    requires Contiguous(a, start, middle) && Contiguous(b, middle, end)
    ensures Contiguous(a + b, start, end)
    decreases |a|
  {
    if a == [] {
      assert a + b == b;
    } else {
      assert (a + b)[1..] == a[1..] + b;
      ContiguousConcat(a[1..], b, start + a[0].Length(), middle, end);
    }
  }

  lemma {:induction false} ContiguousSplit(rs: Ranges, k: nat, start: nat, end: nat) returns (middle: nat)
    requires k <= |rs| && Contiguous(rs, start, end)
    ensures middle == if k < |rs| then rs[k].Offset() else end
    ensures start <= middle <= end
    ensures Contiguous(rs[..k], start, middle) && Contiguous(rs[k..], middle, end)
    decreases k
  {
    if k == 0 {
      middle := start;
      assert rs[0..] == rs;
      ContiguousOrder(rs, start, end);
    } else {
      middle := ContiguousSplit(rs[1..], k - 1, start + rs[0].Length(), end);
      assert rs[..k][1..] == rs[1..][..k - 1] && rs[k..] == rs[1..][k - 1..];
    }
  }

  lemma {:induction false} ContiguousOrder(rs: Ranges, start: nat, end: nat)
    requires Contiguous(rs, start, end)
    ensures start <= end && (rs != [] ==> start < end < WORD)
    ensures |Flat(rs)| == end - start
    decreases |rs|
  {
    if rs != [] { ContiguousOrder(rs[1..], start + rs[0].Length(), end); }
  }

  /** Every range of a contiguous list lies between its ends, before all later ones. */
  lemma ContiguousAt(rs: Ranges, k: nat, start: nat, end: nat)
    requires Contiguous(rs, start, end) && k < |rs|
    ensures start <= rs[k].Offset() && rs[k].Length() > 0 && rs[k].Offset() + rs[k].Length() <= end < WORD
    ensures rs[k].Last() == rs[k].Offset() + rs[k].Length() - 1
    ensures k + 1 < |rs| ==> rs[k + 1].Offset() == rs[k].Offset() + rs[k].Length()
  {
    var middle := ContiguousSplit(rs, k, start, end);
    ContiguousOrder(rs[k..], middle, end);
    assert rs[k..][0] == rs[k];
    assert Contiguous(rs[k..][1..], middle + rs[k].Length(), end);
    ContiguousOrder(rs[k..][1..], middle + rs[k].Length(), end);
    if k + 1 < |rs| { assert rs[k..][1..][0] == rs[k + 1]; }
  }

  lemma {:induction false} FlatConcat(a: Ranges, b: Ranges)
    ensures Flat(a + b) == Flat(a) + Flat(b)
    decreases |a|
  {
    if a == [] {
      assert a + b == b;
    } else {
      assert (a + b)[1..] == a[1..] + b;
      FlatConcat(a[1..], b);
    }
  }

  lemma {:induction false} OrConcat(a: seq<Status>, b: seq<Status>)
    ensures OrAll(a + b) == OrAll(a) | OrAll(b)
    decreases |a|
  {
    if a == [] {
      assert a + b == b;
    } else {
      assert (a + b)[1..] == a[1..] + b;
      OrConcat(a[1..], b);
    }
  }

  lemma {:induction false} OrFill(n: nat, st: Status)
    ensures OrAll(Fill(n, st)) == if n == 0 then 0 else st
    decreases n
  {
    if n > 0 {
      assert Fill(n, st)[1..] == Fill(n - 1, st);
      OrFill(n - 1, st);
    }
  }

  // ----- the status of a range of bytes -----

  /** The flags of all ranges that r touches. */
  function StatusOf(rs: Ranges, r: FileRange): Status {
    if rs == [] then NONE
    else (if r.Intersects(rs[0].range) then rs[0].status else NONE) | StatusOf(rs[1..], r)
  }

  function Clamp(x: int, top: nat): (c: nat)
    ensures c <= top
  {
    if x < 0 then 0 else if x > top then top else x
  }

  /** The statuses of the bytes of r, for ranges that begin at byte start. */
  function Within(flat: seq<Status>, start: nat, r: FileRange): seq<Status> {
    flat[Clamp(r.offset - start, |flat|)..Clamp(r.offset + r.length - start, |flat|)]
  }

  lemma WithinConcat(n: nat, st: Status, rest: seq<Status>, start: nat, r: FileRange)
    ensures Within(Fill(n, st) + rest, start, r) == Within(Fill(n, st), start, r) + Within(rest, start + n, r)
    ensures Within(Fill(n, st), start, r) == Fill(|Within(Fill(n, st), start, r)|, st)
  {
  }

  lemma OwnPart(own: FileRange, st: Status, r: FileRange)
    requires !own.Empty() && own.offset + own.length < WORD && !r.Empty() && r.offset + r.length < WORD
    ensures OrAll(Within(Fill(own.length, st), own.offset, r)) == if r.Intersects(own) then st else NONE
  {
    var part := Within(Fill(own.length, st), own.offset, r);
    WithinConcat(own.length, st, [], own.offset, r);
    OrFill(|part|, st);
    assert r.Intersects(own) <==> |part| > 0;
  }

  lemma {:induction false} StatusIsOrWithin(rs: Ranges, start: nat, end: nat, r: FileRange)
    requires Contiguous(rs, start, end) && !r.Empty() && r.offset + r.length < WORD
    ensures StatusOf(rs, r) == OrAll(Within(Flat(rs), start, r))
    decreases |rs|
  {
    if rs != [] {
      var n, st := rs[0].Length(), rs[0].status;
      StatusIsOrWithin(rs[1..], start + n, end, r);
      WithinConcat(n, st, Flat(rs[1..]), start, r);
      OrConcat(Within(Fill(n, st), start, r), Within(Flat(rs[1..]), start + n, r));
      OwnPart(rs[0].range, st, r);
    }
  }

  /** For a range inside the file: the flags of its bytes. */
  lemma StatusIsOr(rs: Ranges, size: nat, r: FileRange)
    requires Contiguous(rs, 0, size) && !r.Empty() && r.offset + r.length <= size
    ensures size == |Flat(rs)| < WORD
    ensures StatusOf(rs, r) == OrAll(Flat(rs)[r.offset..r.offset + r.length])
  {
    ContiguousOrder(rs, 0, size);
    StatusIsOrWithin(rs, 0, size, r);
  }

  // ----- finding and replacing -----

  /** std::lower_bound by offset. */
  function LowerBound(rs: Ranges, offset: nat): (i: nat)
    ensures i <= |rs|
  {
    if rs == [] || rs[0].Offset() >= offset then 0 else 1 + LowerBound(rs[1..], offset)
  }

  lemma {:induction false} LowerBoundIs(rs: Ranges, offset: nat)
    ensures forall k :: 0 <= k < LowerBound(rs, offset) ==> rs[k].Offset() < offset
    ensures LowerBound(rs, offset) < |rs| ==> rs[LowerBound(rs, offset)].Offset() >= offset
    decreases |rs|
  {
    if rs != [] && rs[0].Offset() < offset { LowerBoundIs(rs[1..], offset); }
  }

  /** Insertion into a std::set ordered by offset: nothing happens if the offset is taken. */
  function Insert(rs: Ranges, e: FileRangeEx): Ranges {
    if rs == [] then [e]
    else if rs[0].Offset() == e.Offset() then rs
    else if rs[0].Offset() > e.Offset() then [e] + rs
    else [rs[0]] + Insert(rs[1..], e)
  }

  lemma {:induction false} InsertBetween(a: Ranges, b: Ranges, e: FileRangeEx, start: nat, middle: nat, next: nat, end: nat)
    requires Contiguous(a, start, middle) && Contiguous(b, next, end) && middle <= e.Offset()
    requires b != [] ==> e.Offset() < next
    ensures Insert(a + b, e) == a + [e] + b
    decreases |a|
  {
    if a == [] {
      assert a + b == b;
    } else {
      ContiguousOrder(a, start, middle);
      assert (a + b)[1..] == a[1..] + b;
      InsertBetween(a[1..], b, e, start + a[0].Length(), middle, next, end);
    }
  }

  /** What remains of rs in front of byte o, which lies in range i. */
  function Before(rs: Ranges, i: nat, o: FileOffset): Ranges
    requires i < |rs| && rs[i].Offset() <= o
  {
    rs[..i] + if rs[i].Offset() < o then [FileRangeEx(FileRange(rs[i].Offset(), o - rs[i].Offset()), rs[i].status)] else []
  }

  /** What remains of rs from byte z on, where z - 1 lies in range i. */
  function After(rs: Ranges, i: nat, z: FileOffset): Ranges
    requires i < |rs| && rs[i].Offset() < z
  {
    var last := rs[i].Offset() + rs[i].Length();
    (if z < last then [FileRangeEx(FileRange(z, last - z), rs[i].status)] else []) + rs[i + 1..]
  }

  ghost predicate Holds(rs: Ranges, i: nat, o: nat) {
    i < |rs| && rs[i].Offset() <= o < rs[i].Offset() + rs[i].Length()
  }

  /** Cutting the list at byte o, which lies in range i. */
  lemma CutAt(rs: Ranges, size: nat, i: nat, o: FileOffset) returns (front: Ranges, back: Ranges)
    requires Contiguous(rs, 0, size) && Holds(rs, i, o)
    ensures front == Before(rs, i, o)
    ensures back == [FileRangeEx(FileRange(o, rs[i].Offset() + rs[i].Length() - o), rs[i].status)] + rs[i + 1..]
    ensures Contiguous(front, 0, o) && Contiguous(back, o, size)
    ensures Flat(rs) == Flat(front) + Flat(back)
  {
    hide Contiguous, Flat;
    var a, x, b := rs[..i], rs[i], rs[i + 1..];
    var start := ContiguousSplit(rs, i, 0, size);
    ContiguousAt(rs, i, 0, size);
    assert rs[i..] == [x] + b;
    assert rs == a + rs[i..];
    FlatConcat(a, rs[i..]);
    StartOf(rs[i..], start, size);
    var right := FileRangeEx(FileRange(o, x.Offset() + x.Length() - o), x.status);
    back := [right] + b;
    CutHead(x, b, start, o, size);
    if o == start {
      front := a;
    } else {
      var left := FileRangeEx(FileRange(start, o - start), x.status);
      front := a + [left];
      ContiguousOne(left, start, o);
      ContiguousConcat(a, [left], 0, start, o);
      FlatConcat(a, [left]);
      FlatPair(left, left);
    }
  }

  lemma StartOf(rs: Ranges, start: nat, end: nat)
    requires Contiguous(rs, start, end) && rs != []
    ensures rs[0].Offset() == start
  {
  }

  /** Cutting the first range of a list. */
  lemma CutHead(x: FileRangeEx, b: Ranges, start: nat, o: FileOffset, size: nat)
    requires Contiguous([x] + b, start, size) && x.Offset() <= o < x.Offset() + x.Length()
    ensures var right := FileRangeEx(FileRange(o, x.Offset() + x.Length() - o), x.status);
      && Contiguous([right] + b, o, size) && start == x.Offset()
      && Flat([x] + b) == Fill(o - start, x.status) + Flat([right] + b)
      && (o == start ==> Flat([x] + b) == Flat([right] + b))
  {
    var right := FileRangeEx(FileRange(o, x.Offset() + x.Length() - o), x.status);
    assert ([x] + b)[1..] == b && ([right] + b)[1..] == b;
    assert Fill(x.Length(), x.status) == Fill(o - start, x.status) + Fill(right.Length(), x.status);
  }

  lemma BeforeIs(rs: Ranges, size: nat, i: nat, o: FileOffset)
    requires Contiguous(rs, 0, size) && Holds(rs, i, o)
    ensures o < size == |Flat(rs)|
    ensures Contiguous(Before(rs, i, o), 0, o) && Flat(Before(rs, i, o)) == Flat(rs)[..o]
  {
    var front, back := CutAt(rs, size, i, o);
    ContiguousOrder(rs, 0, size);
    ContiguousOrder(front, 0, o);
    ContiguousOrder(back, o, size);
  }

  lemma AfterIs(rs: Ranges, size: nat, i: nat, z: FileOffset)
    requires Contiguous(rs, 0, size) && z > 0 && Holds(rs, i, z - 1)
    ensures z <= size == |Flat(rs)|
    ensures Contiguous(After(rs, i, z), z, size) && Flat(After(rs, i, z)) == Flat(rs)[z..]
  {
    hide Contiguous, Flat;
    ContiguousOrder(rs, 0, size);
    if Holds(rs, i, z) {
      var front, back := CutAt(rs, size, i, z);
      ContiguousOrder(front, 0, z);
      assert After(rs, i, z) == back;
    } else {
      assert After(rs, i, z) == rs[i + 1..];
      var middle := ContiguousSplit(rs, i + 1, 0, size);
      EndOf(rs, i, 0, size);
      ContiguousOrder(rs[..i + 1], 0, middle);
      assert rs == rs[..i + 1] + rs[i + 1..];
      FlatConcat(rs[..i + 1], rs[i + 1..]);
    }
    ContiguousOrder(After(rs, i, z), z, size);
  }

  /** Where range i ends the rest begins, or the list ends. */
  lemma EndOf(rs: Ranges, i: nat, start: nat, end: nat)
    requires Contiguous(rs, start, end) && i < |rs|
    ensures rs[i].Offset() + rs[i].Length() == if i + 1 < |rs| then rs[i + 1].Offset() else end
  {
    ContiguousAt(rs, i, start, end);
    if i + 1 == |rs| {
      var middle := ContiguousSplit(rs, i, start, end);
      assert rs[i..] == [rs[i]] && rs[i..][1..] == [];
    }
  }

  /** FindRange: the range that holds a byte of the file. */
  function FindRange(rs: Ranges, offset: nat): int {
    var i := LowerBound(rs, offset);
    if i == |rs| || rs[i].Offset() > offset then i - 1 else i
  }

  lemma FindRangeIs(rs: Ranges, size: nat, offset: nat)
    requires Contiguous(rs, 0, size) && offset < size
    ensures 0 <= FindRange(rs, offset) && Holds(rs, FindRange(rs, offset), offset)
  {
    LowerBoundIs(rs, offset);
    var i := FindRange(rs, offset);
    ContiguousOrder(rs, 0, size);
    assert rs != [];
    assert rs[0].Offset() <= offset;
    ContiguousAt(rs, i, 0, size);
    EndOf(rs, i, 0, size);
  }

  // ----- neighbours -----

  /** Only the pairs that start in [lo, hi) may have equal statuses. */
  ghost predicate CoalescedBut(rs: Ranges, lo: int, hi: int) {
    forall j :: 0 <= j < |rs| - 1 && !(lo <= j < hi) ==> Differ(rs, j)
  }

  lemma Junction(front: Ranges, x: FileRangeEx, back: Ranges)
    requires Coalesced(front) && Coalesced(back)
    ensures CoalescedBut(front + [x] + back, if front == [] then 0 else |front| - 1, |front| + 1)
  {
    var rs := front + [x] + back;
    forall j | 0 <= j < |rs| - 1 && !(|front| - 1 <= j < |front| + 1) ensures Differ(rs, j) {
      if j < |front| - 1 { assert Differ(front, j); } else { assert Differ(back, j - |front| - 1); }
    }
  }

  lemma PartsCoalesced(rs: Ranges, i: nat, o: FileOffset, k: nat, z: FileOffset)
    requires Coalesced(rs) && i < |rs| && rs[i].Offset() <= o && k < |rs| && rs[k].Offset() < z
    ensures Coalesced(Before(rs, i, o)) && Coalesced(After(rs, k, z))
  {
    var front, back := Before(rs, i, o), After(rs, k, z);
    forall j | 0 <= j < |front| - 1 ensures Differ(front, j) { assert Differ(rs, j); }
    forall j | 0 <= j < |back| - 1 ensures Differ(back, j) { assert Differ(rs, |rs| - |back| + j); }
  }

  /** Two neighbouring ranges as one. */
  function Joint(a: FileRangeEx, b: FileRangeEx): FileRangeEx
    requires a.Offset() <= b.Last()
  {
    FileRangeEx(FileRange(a.Offset(), (b.Last() - a.Offset() + 1) % WORD), a.status)
  }

  function Merged(rs: Ranges, i: nat): Ranges
    requires i + 1 < |rs| && rs[i].Offset() <= rs[i + 1].Last()
  {
    rs[..i] + [Joint(rs[i], rs[i + 1])] + rs[i + 2..]
  }

  lemma ContiguousOne(x: FileRangeEx, start: nat, end: nat)
    requires x.Offset() == start && x.Length() > 0 && start + x.Length() == end < WORD
    ensures Contiguous([x], start, end)
  {
  }

  lemma MergeKeeps(rs: Ranges, i: nat, size: nat)
    requires Contiguous(rs, 0, size) && i + 1 < |rs| && !Differ(rs, i)
    ensures rs[i].Offset() <= rs[i + 1].Last() && rs[i].Last() == rs[i + 1].Offset() - 1
    ensures Contiguous(Merged(rs, i), 0, size) && Flat(Merged(rs, i)) == Flat(rs)
    ensures Insert(rs[..i] + rs[i + 2..], Joint(rs[i], rs[i + 1])) == Merged(rs, i)
  {
    ContiguousAt(rs, i, 0, size);
    ContiguousAt(rs, i + 1, 0, size);
    EndOf(rs, i + 1, 0, size);
    var a, b, joint := rs[..i], rs[i + 2..], Joint(rs[i], rs[i + 1]);
    var start := ContiguousSplit(rs, i, 0, size);
    var end := ContiguousSplit(rs, i + 2, 0, size);
    ContiguousOne(joint, start, end);
    ContiguousConcat(a, [joint], 0, start, end);
    ContiguousConcat(a + [joint], b, 0, end, size);
    ContiguousOrder(b, end, size);
    InsertBetween(a, b, joint, 0, start, end, size);
    JointFlat(rs, i);
  }

  lemma JointFlat(rs: Ranges, i: nat)
    requires i + 1 < |rs| && !Differ(rs, i) && rs[i].Offset() <= rs[i + 1].Last()
    requires rs[i].Length() + rs[i + 1].Length() == Joint(rs[i], rs[i + 1]).Length()
    ensures Flat(Merged(rs, i)) == Flat(rs)
  {
    var a, x, y, b := rs[..i], rs[i], rs[i + 1], rs[i + 2..];
    assert rs == a + [x, y] + b;
    assert Fill(x.Length() + y.Length(), x.status) == Fill(x.Length(), x.status) + Fill(y.Length(), x.status);
    FlatPair(x, y);
    FlatPair(Joint(x, y), y);
    FlatMiddle(a, [x, y], b);
    FlatMiddle(a, [Joint(x, y)], b);
  }

  lemma FlatPair(x: FileRangeEx, y: FileRangeEx)
    ensures Flat([x]) == Fill(x.Length(), x.status)
    ensures Flat([x, y]) == Fill(x.Length(), x.status) + Fill(y.Length(), y.status)
  {
    assert [x, y][1..] == [y];
    assert [y][1..] == [] && [x][1..] == [];
  }

  lemma FlatMiddle(a: Ranges, m: Ranges, b: Ranges)
    ensures Flat(a + m + b) == Flat(a) + Flat(m) + Flat(b)
  {
    FlatConcat(a, m);
    FlatConcat(a + m, b);
  }

  /** Merging a pair keeps all other pairs; not merging it needs it to differ. */
  lemma MergeNarrows(rs: Ranges, i: nat, hi: int)
    requires i + 1 < |rs| && !Differ(rs, i) && rs[i].Offset() <= rs[i + 1].Last() && CoalescedBut(rs, i, hi)
    ensures CoalescedBut(Merged(rs, i), i, hi - 1)
  {
    var m := Merged(rs, i);
    forall j | 0 <= j < |m| - 1 && !(i <= j < hi - 1) ensures Differ(m, j) {
      if j < i { assert Differ(rs, j); } else { assert Differ(rs, j + 1); }
    }
  }
}
