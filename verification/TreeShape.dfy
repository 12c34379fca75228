/** The shape and the hashes of a depth-truncated, heap-indexed tiger tree (tigertree.cpp),
    as facts about its node array. */
module TreeShape {
  import opened Bytes
  import opened Powers
  import opened Wrappers
  import opened Merkle
  import opened Thex
  import opened Range

  type Nodes = seq<Option<Digest>>

  function HalfUp(n: nat): (h: nat)
    ensures n <= 2 * h <= n + 1
  {
    (n + 1) / 2
  }

  /** Index of the first node of the bottom row of a heap of d rows. */
  function BottomOf(d: nat): nat
    requires d >= 1
  {
    Pow2(d - 1) - 1
  }

  // ----- which nodes exist -----

  predicate Row(row: seq<bool>, w: nat) {
    forall j :: 0 <= j < |row| ==> (row[j] <==> j < w)
  }

  /** w bottom nodes are present, above them half as many, and so on; the root always is. */
  predicate WellShaped(s: seq<bool>, w: nat, d: nat)
    requires d >= 1
    decreases d
  {
    && |s| == Pow2(d) - 1
    && if d == 1 then s[0] else
      Row(s[BottomOf(d)..], w) && WellShaped(s[..BottomOf(d)], HalfUp(w), d - 1)
  }

  lemma AddRow(above: seq<bool>, row: seq<bool>, w: nat, d: nat)
    requires d >= 2 && WellShaped(above, HalfUp(w), d - 1)
    requires |row| == Pow2(d - 1) && Row(row, w)
    ensures WellShaped(above + row, w, d)
  {
  }

  function Shape(t: Nodes): (s: seq<bool>)
    ensures |s| == |t|
    ensures forall p :: 0 <= p < |t| ==> s[p] == t[p].Some?
  {
    seq(|t|, p requires 0 <= p < |t| => t[p].Some?)
  }

  /** Marking a node and its ancestors below the root present. */
  function MarkUp(s: seq<bool>, p: nat): (r: seq<bool>)
    requires 0 < p < |s|
    ensures |r| == |s|
    decreases p
  {
    var marked := s[p := true];
    if (p - 1) / 2 == 0 then marked else MarkUp(marked, (p - 1) / 2)
  }

  lemma {:induction false} MarkUpLocal(s: seq<bool>, tail: seq<bool>, p: nat)
    requires 0 < p < |s|
    ensures MarkUp(s + tail, p) == MarkUp(s, p) + tail
    decreases p
  {
    assert (s + tail)[p := true] == s[p := true] + tail;
    if (p - 1) / 2 != 0 { MarkUpLocal(s[p := true], tail, (p - 1) / 2); }
  }

  lemma Halving(j: nat, w: nat)
    requires j <= w <= j + 1
    ensures j / 2 <= HalfUp(w) <= j / 2 + 1 && HalfUp(j + 1) == j / 2 + 1
  {
  }

  /** Marking a bottom node marks its parent in the rows above. */
  lemma MarkUpSplit(s: seq<bool>, b: nat, up: nat, j: nat)
    requires b == 2 * up + 1 && b + j < |s| && j <= b
    ensures MarkUp(s, b + j) ==
      (if up + j / 2 == 0 then s[..b] else MarkUp(s[..b], up + j / 2)) + s[b..][j := true]
  {
    var above, row := s[..b], s[b..][j := true];
    assert s[b + j := true] == above + row;
    assert (b + j - 1) / 2 == up + j / 2;
    if up + j / 2 != 0 { MarkUpLocal(above, row, up + j / 2); }
  }

  /** Adding bottom node j to a tree with the bottom nodes before it. */
  lemma {:induction false} MarkUpShape(s: seq<bool>, w: nat, d: nat, j: nat)
    requires d >= 2 && WellShaped(s, w, d) && j <= w <= j + 1 && j < Pow2(d - 1)
    ensures WellShaped(MarkUp(s, BottomOf(d) + j), j + 1, d)
    decreases d
  {
    hide MarkUp, HalfUp;
    Halving(j, w);
    var b, up := BottomOf(d), BottomOf(d - 1);
    assert b == 2 * up + 1;
    MarkUpSplit(s, b, up, j);
    if d > 2 { MarkUpShape(s[..b], HalfUp(w), d - 1, j / 2); }
    AddRow(if up + j / 2 == 0 then s[..b] else MarkUp(s[..b], up + j / 2), s[b..][j := true], j + 1, d);
  }

  // ----- which hashes a validated tree holds -----

  /** The test Validate makes at one inner node. */
  predicate NodeOk(tiger: Hasher, t: Nodes, p: nat)
    requires p < |t|
  {
    var left, right := 2 * p + 1, 2 * p + 2;
    t[p].Some? ==>
      && left < |t| && t[left].Some?
      && t[p].value == if right < |t| && t[right].Some? then Inner(tiger)(t[left].value, t[right].value) else t[left].value
  }

  predicate Consistent(tiger: Hasher, t: Nodes) {
    forall p :: 0 <= p < |t| / 2 ==> NodeOk(tiger, t, p)
  }

  /** A tree of d rows with w bottom nodes, where d is the least depth with room for w. */
  ghost predicate Fits(w: nat, d: nat) {
    && d >= 1 && 1 <= w <= Pow2(d - 1)
    && (d >= 2 ==> w > Pow2(d - 2))
  }

  ghost predicate Shaped(t: Nodes, w: nat, d: nat) {
    Fits(w, d) && WellShaped(Shape(t), w, d)
  }

  predicate RowIs(row: Nodes, w: nat) {
    forall j :: 0 <= j < |row| ==> (row[j].Some? <==> j < w)
  }

  lemma RowsAbove(t: Nodes, w: nat, d: nat)
    requires d >= 2 && Shaped(t, w, d)
    ensures |t| == 2 * BottomOf(d) + 1
    ensures Shaped(t[..BottomOf(d)], HalfUp(w), d - 1)
    ensures RowIs(t[BottomOf(d)..], w)
  {
    var b := BottomOf(d);
    assert Shape(t)[..b] == Shape(t[..b]);
    assert Shape(t)[b..] == Shape(t[b..]);
  }

  /** The hashes of the bottom nodes. */
  ghost function Bottom(t: Nodes, w: nat, d: nat): (hs: seq<Digest>)
    requires Shaped(t, w, d)
    ensures |hs| == w
  {
    var b := BottomOf(d);
    if d >= 2 then
      RowsAbove(t, w, d);
      seq(w, j requires 0 <= j < w => t[b..][j].value)
    else [t[0].value]
  }

  /** In a validated tree every row is the row below it paired up. */
  lemma RowIsPairs(tiger: Hasher, t: Nodes, w: nat, d: nat)
    requires d >= 2 && Shaped(t, w, d) && Consistent(tiger, t)
    ensures Shaped(t[..BottomOf(d)], HalfUp(w), d - 1)
    ensures Consistent(tiger, t[..BottomOf(d)])
    ensures Bottom(t[..BottomOf(d)], HalfUp(w), d - 1) == PairUp(Inner(tiger), Bottom(t, w, d))
  {
    RowsAbove(t, w, d);
    var above := t[..BottomOf(d)];
    assert |above| == 2 * BottomOf(d - 1) + 1;
    forall p | 0 <= p < |above| / 2 ensures NodeOk(tiger, above, p) {
      assert NodeOk(tiger, t, p);
    }
    var upper, pairs := Bottom(above, HalfUp(w), d - 1), PairUp(Inner(tiger), Bottom(t, w, d));
    forall j | 0 <= j < HalfUp(w) ensures upper[j] == pairs[j] {
      ParentIsPair(tiger, t, w, d, j);
    }
  }

  lemma ParentIsPair(tiger: Hasher, t: Nodes, w: nat, d: nat, j: nat)
    requires d >= 2 && Shaped(t, w, d) && Consistent(tiger, t) && j < HalfUp(w)
    ensures Shaped(t[..BottomOf(d)], HalfUp(w), d - 1)
    ensures j < |PairUp(Inner(tiger), Bottom(t, w, d))|
    ensures Bottom(t[..BottomOf(d)], HalfUp(w), d - 1)[j] == PairUp(Inner(tiger), Bottom(t, w, d))[j]
  {
    hide PairUp;
    RowsAbove(t, w, d);
    var b, p := BottomOf(d), BottomOf(d - 1) + j;
    var above, row := t[..b], t[b..];
    assert b == 2 * BottomOf(d - 1) + 1 && 2 * p + 1 == b + 2 * j;
    if d >= 3 { RowsAbove(above, HalfUp(w), d - 1); }
    assert t[p] == above[p] && t[p].Some?;
    assert NodeOk(tiger, t, p);
    assert t[2 * p + 1] == row[2 * j];
    assert 2 * j + 1 < |row| ==> t[2 * p + 2] == row[2 * j + 1];
    PairUpAt(Inner(tiger), Bottom(t, w, d), j);
  }

  lemma BottomIs(t: Nodes, w: nat, d: nat, j: nat)
    requires Shaped(t, w, d) && j < w
    ensures BottomOf(d) + j < |t| && t[BottomOf(d) + j] == Some(Bottom(t, w, d)[j])
  {
    if d >= 2 {
      RowsAbove(t, w, d);
      var b := BottomOf(d);
      assert t[b..][j] == t[b + j];
    }
  }

  /** k rows above the bottom of a validated tree, node j holds what k rounds of pairing give. */
  lemma {:induction false} NodeAt(tiger: Hasher, t: Nodes, w: nat, d: nat, k: nat, j: nat)
    requires Shaped(t, w, d) && Consistent(tiger, t) && k < d
    requires j < |Levels(Inner(tiger), Bottom(t, w, d), k)|
    ensures BottomOf(d - k) + j < |t|
    ensures t[BottomOf(d - k) + j] == Some(Levels(Inner(tiger), Bottom(t, w, d), k)[j])
    decreases d
  {
    hide Shaped, Consistent, Bottom, PairUp, BottomOf, HalfUp;
    if k == 0 {
      BottomIs(t, w, d, j);
    } else {
      RowIsPairs(tiger, t, w, d);
      RowsAbove(t, w, d);
      NodeAt(tiger, t[..BottomOf(d)], HalfUp(w), d - 1, k - 1, j);
    }
  }

  /** Every row holds what that many rounds of pairing make of the bottom row. */
  ghost predicate RowsAgree(tiger: Hasher, t: Nodes, w: nat, d: nat)
    requires Shaped(t, w, d)
  {
    forall k, j :: 0 <= k < d && 0 <= j < |Levels(Inner(tiger), Bottom(t, w, d), k)| ==>
      NodeHolds(t, BottomOf(d - k) + j, Levels(Inner(tiger), Bottom(t, w, d), k)[j])
  }

  predicate NodeHolds(t: Nodes, p: nat, h: Digest) {
    p < |t| && t[p] == Some(h)
  }

  /** The test of Validate accepts exactly such trees, whatever their shape. */
  lemma ConsistentIff(tiger: Hasher, t: Nodes, w: nat, d: nat)
    requires Shaped(t, w, d)
    ensures Consistent(tiger, t) <==> RowsAgree(tiger, t, w, d)
  {
    if Consistent(tiger, t) {
      forall k, j | 0 <= k < d && 0 <= j < |Levels(Inner(tiger), Bottom(t, w, d), k)|
        ensures NodeHolds(t, BottomOf(d - k) + j, Levels(Inner(tiger), Bottom(t, w, d), k)[j])
      {
        NodeAt(tiger, t, w, d, k, j);
      }
    }
    if RowsAgree(tiger, t, w, d) { AgreeingIsConsistent(tiger, t, w, d); }
  }

  lemma {:induction false} AgreeingIsConsistent(tiger: Hasher, t: Nodes, w: nat, d: nat)
    requires Shaped(t, w, d) && RowsAgree(tiger, t, w, d)
    ensures Consistent(tiger, t)
    decreases d
  {
    if d >= 2 {
      hide RowsAgree, NodeOk, Bottom, BottomOf, HalfUp;
      RowsAbove(t, w, d);
      AgreeAbove(tiger, t, w, d);
      AgreeingIsConsistent(tiger, t[..BottomOf(d)], HalfUp(w), d - 1);
      forall p | 0 <= p < |t| / 2 ensures NodeOk(tiger, t, p) {
        ParentOk(tiger, t, w, d, p);
      }
    }
  }

  lemma AgreeAbove(tiger: Hasher, t: Nodes, w: nat, d: nat)
    requires d >= 2 && Shaped(t, w, d) && RowsAgree(tiger, t, w, d)
    ensures Shaped(t[..BottomOf(d)], HalfUp(w), d - 1)
    ensures Bottom(t[..BottomOf(d)], HalfUp(w), d - 1) == PairUp(Inner(tiger), Bottom(t, w, d))
    ensures RowsAgree(tiger, t[..BottomOf(d)], HalfUp(w), d - 1)
  {
    hide Shaped, Bottom, HalfUp, PairUp;
    RowsAbove(t, w, d);
    var above, pairs := t[..BottomOf(d)], PairUp(Inner(tiger), Bottom(t, w, d));
    var upper := Bottom(above, HalfUp(w), d - 1);
    forall j | 0 <= j < |upper| ensures upper[j] == pairs[j] {
      BottomIs(above, HalfUp(w), d - 1, j);
      assert Levels(Inner(tiger), Bottom(t, w, d), 1) == pairs;
      assert NodeHolds(t, BottomOf(d - 1) + j, pairs[j]);
    }
    assert upper == pairs;
    forall k, j | 0 <= k < d - 1 && 0 <= j < |Levels(Inner(tiger), upper, k)|
      ensures NodeHolds(above, BottomOf(d - 1 - k) + j, Levels(Inner(tiger), upper, k)[j])
    {
      assert NodeHolds(t, BottomOf(d - (k + 1)) + j, Levels(Inner(tiger), Bottom(t, w, d), k + 1)[j]);
      RoomInHeap(above, HalfUp(w), d - 1);
      RowWidth(Inner(tiger), upper, d - 1, k);
      Pow2Monotone(d - 1 - k, d - 1);
    }
  }

  lemma RoomInHeap(t: Nodes, w: nat, d: nat)
    requires Shaped(t, w, d)
    ensures |t| == Pow2(d) - 1 && w <= Pow2(d - 1)
  {
  }

  lemma {:induction false} RowWidth<D>(node: Combine<D>, hs: seq<D>, d: nat, k: nat)
    requires k < d && |hs| <= Pow2(d - 1)
    ensures |Levels(node, hs, k)| <= Pow2(d - 1 - k)
    decreases k
  {
    if k > 0 { RowWidth(node, PairUp(node, hs), d - 1, k - 1); }
  }

  lemma ParentOk(tiger: Hasher, t: Nodes, w: nat, d: nat, p: nat)
    requires d >= 2 && Shaped(t, w, d) && p < |t| / 2
    requires Shaped(t[..BottomOf(d)], HalfUp(w), d - 1) && Consistent(tiger, t[..BottomOf(d)])
    requires Bottom(t[..BottomOf(d)], HalfUp(w), d - 1) == PairUp(Inner(tiger), Bottom(t, w, d))
    ensures NodeOk(tiger, t, p)
  {
    hide Shaped, Bottom, PairUp;
    RowsAbove(t, w, d);
    var above, up := t[..BottomOf(d)], BottomOf(d - 1);
    assert |above| == 2 * up + 1;
    if p < up {
      assert NodeOk(tiger, above, p);
    } else if p - up < HalfUp(w) {
      LowestParentOk(tiger, t, w, d, p - up);
    } else {
      OddRow(above, HalfUp(w), d - 1, p - up);
    }
  }

  lemma LowestParentOk(tiger: Hasher, t: Nodes, w: nat, d: nat, j: nat)
    requires d >= 2 && Shaped(t, w, d) && j < HalfUp(w) && Shaped(t[..BottomOf(d)], HalfUp(w), d - 1)
    requires Bottom(t[..BottomOf(d)], HalfUp(w), d - 1) == PairUp(Inner(tiger), Bottom(t, w, d))
    ensures BottomOf(d - 1) + j < |t| && NodeOk(tiger, t, BottomOf(d - 1) + j)
  {
    hide Shaped, Bottom, PairUp, Inner;
    RowsAbove(t, w, d);
    assert BottomOf(d) == 2 * BottomOf(d - 1) + 1;
    BottomIs(t[..BottomOf(d)], HalfUp(w), d - 1, j);
    PairUpAt(Inner(tiger), Bottom(t, w, d), j);
    BottomIs(t, w, d, 2 * j);
    if 2 * j + 1 < w {
      BottomIs(t, w, d, 2 * j + 1);
    } else if BottomOf(d) + 2 * j + 1 < |t| {
      OddRow(t, w, d, 2 * j + 1);
    }
  }

  /** Behind the last node of a row there are none. */
  lemma OddRow(t: Nodes, w: nat, d: nat, j: nat)
    requires Shaped(t, w, d) && w <= j && BottomOf(d) + j < |t|
    ensures t[BottomOf(d) + j].None?
  {
    if d >= 2 {
      RowsAbove(t, w, d);
      assert t[BottomOf(d)..][j] == t[BottomOf(d) + j];
    }
  }

  /** The root of a validated tree is the root of its bottom hashes. */
  lemma {:induction false} RootIs(tiger: Hasher, t: Nodes, w: nat, d: nat)
    requires Shaped(t, w, d) && Consistent(tiger, t)
    ensures t[0] == Some(Root(Inner(tiger), Bottom(t, w, d)))
    decreases d
  {
    if d >= 2 {
      RowIsPairs(tiger, t, w, d);
      RowsAbove(t, w, d);
      RootIs(tiger, t[..BottomOf(d)], HalfUp(w), d - 1);
    }
  }

  // ----- how many nodes exist -----

  function NodeCount(w: nat, d: nat): nat
    requires d >= 1
    decreases d
  {
    if d == 1 then 1 else w + NodeCount(HalfUp(w), d - 1)
  }

  /** The number of present nodes gives the depth away. */
  lemma {:induction false} NodeCountBounds(w: nat, d: nat)
    requires Fits(w, d)
    ensures Pow2(d - 1) - 1 < NodeCount(w, d) < Pow2(d)
    decreases d
  {
    if d >= 2 { NodeCountBounds(HalfUp(w), d - 1); }
  }

  // ----- the tree of a file -----

  /** w slices of `size` bytes cover a file of n bytes, and no fewer do. */
  ghost predicate Covers(w: nat, size: nat, n: nat) {
    w >= 1 && (w - 1) * size < n <= w * size
  }

  /** Each bottom node is the digest of its slice of the file. */
  ghost predicate Describes(tiger: Hasher, t: Nodes, w: nat, d: nat, size: nat, file: seq<byte>)
    requires Shaped(t, w, d) && Covers(w, size, |file|)
  {
    forall i :: 0 <= i < w ==> SliceStart(i, size, file) && Bottom(t, w, d)[i] == ThexRoot(tiger, Cut(file, i * size, size))
  }

  ghost predicate SliceStart(i: nat, size: nat, file: seq<byte>) {
    i * size < |file|
  }

  /** The bottom row of a tree that describes a file is a row of the full tree of the file. */
  lemma BottomIsLevel(tiger: Hasher, t: Nodes, w: nat, d: nat, size: nat, e: nat, file: seq<byte>)
    requires Shaped(t, w, d) && size == BLOCKSIZE * Pow2(e) && Covers(w, size, |file|)
    requires Describes(tiger, t, w, d, size, file)
    ensures Bottom(t, w, d) == Levels(Inner(tiger), BlockHashes(tiger, file), e)
  {
    var row, level := Bottom(t, w, d), Levels(Inner(tiger), BlockHashes(tiger, file), e);
    LevelsLength(Inner(tiger), BlockHashes(tiger, file), e);
    SameCount(w, |level|, Pow2(e), |BlockHashes(tiger, file)|, |file|);
    forall i | 0 <= i < w ensures row[i] == level[i] {
      assert SliceStart(i, size, file);
      LevelIsDigest(tiger, file, e, i, size);
    }
  }

  lemma SameCount(w: nat, other: nat, p: nat, blocks: nat, n: nat)
    requires p >= 1 && w >= 1 && (w - 1) * (BLOCKSIZE * p) < n <= w * (BLOCKSIZE * p)
    requires n <= BLOCKSIZE * blocks < n + BLOCKSIZE
    requires blocks <= other * p < blocks + p
    ensures w == other
  {
    assert w * (BLOCKSIZE * p) == BLOCKSIZE * (w * p);
    assert (w - 1) * (BLOCKSIZE * p) == BLOCKSIZE * (w * p - p);
    assert w * p - p < blocks <= w * p;
    assert (w + 1) * p == w * p + p && (other + 1) * p == other * p + p;
    if w < other { MulMonotone(w + 1, other, p); }
    if other < w { MulMonotone(other + 1, w, p); }
  }

  /** If Validate accepts a tree whose bottom nodes are the digests of their slices, then
      the root is the digest of the whole file. */
  lemma RootIsDigest(tiger: Hasher, t: Nodes, w: nat, d: nat, size: nat, e: nat, file: seq<byte>)
    requires Shaped(t, w, d) && size == BLOCKSIZE * Pow2(e) && Covers(w, size, |file|)
    requires Describes(tiger, t, w, d, size, file) && Consistent(tiger, t)
    ensures t[0] == Some(ThexRoot(tiger, file))
  {
    BottomIsLevel(tiger, t, w, d, size, e, file);
    RootIs(tiger, t, w, d);
    LevelsKeepRoot(Inner(tiger), BlockHashes(tiger, file), e);
  }

  /** ... and the node k rows above the bottom over slices run * 2^k and following is the
      digest of the bytes below it. */
  lemma NodeIsDigest(tiger: Hasher, t: Nodes, w: nat, d: nat, size: nat, e: nat, file: seq<byte>, k: nat, run: nat, span: nat)
    requires Shaped(t, w, d) && size == BLOCKSIZE * Pow2(e) && Covers(w, size, |file|)
    requires Describes(tiger, t, w, d, size, file) && Consistent(tiger, t)
    requires k < d && span == size * Pow2(k) && run * span < |file|
    ensures BottomOf(d - k) + run < |t|
    ensures t[BottomOf(d - k) + run] == Some(ThexRoot(tiger, Cut(file, run * span, span)))
  {
    var hs := BlockHashes(tiger, file);
    ScaledPow2Sum(BLOCKSIZE, e, k);
    LevelIsDigest(tiger, file, e + k, run, span);
    LevelsCompose(Inner(tiger), hs, e, k);
    BottomIsLevel(tiger, t, w, d, size, e, file);
    NodeAt(tiger, t, w, d, k, run);
  }

  /** Every node is the digest of the bytes below it. */
  ghost predicate IsTreeOf(tiger: Hasher, t: Nodes, d: nat, size: nat, file: seq<byte>)
    requires d >= 1
  {
    forall k, run :: 0 <= k < d && 0 <= run ==> StretchHolds(tiger, t, d, size * Pow2(k), file, k, run)
  }

  /** The node k rows above the bottom over the run-th stretch of `span` bytes is its digest. */
  ghost predicate StretchHolds(tiger: Hasher, t: Nodes, d: nat, span: nat, file: seq<byte>, k: nat, run: nat)
    requires k < d
  {
    run * span < |file| ==> NodeHolds(t, BottomOf(d - k) + run, ThexRoot(tiger, Cut(file, run * span, span)))
  }

  /** The tree of a file is what Validate accepts over the right bottom row, and nothing else. */
  lemma TreeOfFileIff(tiger: Hasher, t: Nodes, w: nat, d: nat, size: nat, e: nat, file: seq<byte>)
    requires Shaped(t, w, d) && size == BLOCKSIZE * Pow2(e) && Covers(w, size, |file|)
    ensures IsTreeOf(tiger, t, d, size, file) <==> Describes(tiger, t, w, d, size, file) && Consistent(tiger, t)
  {
    assert d >= 1;
    hide Bottom, Shaped, Consistent, Cut, ThexRoot;
    if Describes(tiger, t, w, d, size, file) && Consistent(tiger, t) {
      forall k, run | 0 <= k < d && 0 <= run ensures StretchHolds(tiger, t, d, size * Pow2(k), file, k, run) {
        if run * (size * Pow2(k)) < |file| { NodeIsDigest(tiger, t, w, d, size, e, file, k, run, size * Pow2(k)); }
      }
    }
    if IsTreeOf(tiger, t, d, size, file) {
      TreeDescribes(tiger, t, w, d, size, file);
      TreeAgrees(tiger, t, w, d, size, e, file);
      ConsistentIff(tiger, t, w, d);
    }
  }

  lemma TreeDescribes(tiger: Hasher, t: Nodes, w: nat, d: nat, size: nat, file: seq<byte>)
    requires Shaped(t, w, d) && Covers(w, size, |file|) && IsTreeOf(tiger, t, d, size, file)
    ensures Describes(tiger, t, w, d, size, file)
  {
    hide Bottom, Cut, ThexRoot;
    forall i | 0 <= i < w ensures SliceStart(i, size, file) && Bottom(t, w, d)[i] == ThexRoot(tiger, Cut(file, i * size, size)) {
      MulMonotone(i, w - 1, size);
      assert size == size * Pow2(0) && i * size < |file|;
      assert StretchHolds(tiger, t, d, size * Pow2(0), file, 0, i);
      BottomIs(t, w, d, i);
    }
  }

  lemma TreeAgrees(tiger: Hasher, t: Nodes, w: nat, d: nat, size: nat, e: nat, file: seq<byte>)
    requires Shaped(t, w, d) && size == BLOCKSIZE * Pow2(e) && Covers(w, size, |file|)
    requires Describes(tiger, t, w, d, size, file) && IsTreeOf(tiger, t, d, size, file)
    ensures RowsAgree(tiger, t, w, d)
  {
    hide Bottom, Cut, ThexRoot, Levels, Shaped;
    var hs := BlockHashes(tiger, file);
    BottomIsLevel(tiger, t, w, d, size, e, file);
    forall k, j | 0 <= k < d && 0 <= j < |Levels(Inner(tiger), Bottom(t, w, d), k)|
      ensures NodeHolds(t, BottomOf(d - k) + j, Levels(Inner(tiger), Bottom(t, w, d), k)[j])
    {
      LevelsCompose(Inner(tiger), hs, e, k);
      LevelsLength(Inner(tiger), hs, e + k);
      ScaledPow2Sum(BLOCKSIZE, e, k);
      StretchBegins(|Levels(Inner(tiger), hs, e + k)|, Pow2(e + k), |hs|, |file|, j);
      LevelIsDigest(tiger, file, e + k, j, size * Pow2(k));
      assert StretchHolds(tiger, t, d, size * Pow2(k), file, k, j);
    }
  }

  lemma StretchBegins(nodes: nat, p: nat, blocks: nat, n: nat, j: nat)
    requires n <= BLOCKSIZE * blocks < n + BLOCKSIZE && nodes * p < blocks + p && j < nodes
    ensures j * (BLOCKSIZE * p) < n
  {
    MulMonotone(j, nodes - 1, p);
    assert j * (BLOCKSIZE * p) == BLOCKSIZE * (j * p) && nodes * p == (nodes - 1) * p + p;
  }

  // ----- the walk of Get -----

  function CeilDiv(n: nat, d: nat): nat
    requires d > 0
  {
    n / d + if n % d != 0 then 1 else 0
  }

  /** How often Get halves a length of len blocks, and where the halving takes a node index. */
  function Steps(len: nat): nat {
    if len <= 1 then 0 else 1 + Steps(HalfUp(len))
  }

  function Walk(p: nat, len: nat): nat
    decreases len
  {
    if len <= 1 then p else Walk(p / 2, HalfUp(len))
  }

  function Target(t: Nodes, size: nat, r: FileRange): nat
    requires size > 0
  {
    Walk(|t| / 2 + r.offset / size, CeilDiv(r.length, size))
  }

  lemma {:induction false} WalkShifts(p: nat, len: nat)
    ensures Walk(p, len) == p / Pow2(Steps(len))
    decreases len
  {
    if len > 1 {
      WalkShifts(p / 2, HalfUp(len));
      HalfThenShift(p, Steps(HalfUp(len)));
    }
  }

  lemma {:induction false} StepsBounds(len: nat)
    ensures len <= Pow2(Steps(len))
    ensures Steps(len) > 0 ==> len > Pow2(Steps(len) - 1)
    decreases len
  {
    if len > 1 { StepsBounds(HalfUp(len)); }
  }

  /** Halving the index k times leads from bottom node j to its ancestor k rows up exactly when
      j starts an aligned run of 2^k nodes. */
  lemma WalkReachesAncestor(d: nat, j: nat, k: nat)
    requires k < d && j < Pow2(d - 1)
    ensures (BottomOf(d) + j) / Pow2(k) == BottomOf(d - k) + j / Pow2(k) <==> j % Pow2(k) == 0
  {
    Pow2Sum(d - 1 - k, k);
    ShiftedRun(Pow2(d - 1 - k), Pow2(k), j);
  }

  lemma ShiftedRun(above: nat, width: nat, j: nat)
    requires above >= 1 && width >= 1
    ensures above * width >= 1
    ensures (above * width - 1 + j) / width == above - 1 + j / width + if j % width == 0 then 0 else 1
  {
    var q, rest := j / width, j % width;
    assert j == q * width + rest;
    var reached := above - 1 + q + if rest == 0 then 0 else 1;
    MulMonotone(1, above, width);
    assert (above + q) * width == above * width + q * width;
    assert (above + q - 1) * width == above * width + q * width - width;
    QuotientIs(above * width - 1 + j, width, reached);
  }

  /** r starts at the run-th stretch of `span` bytes, where span is the slice size times 2^k
      and k the number of halvings Get makes, and it fills the stretch or ends the file. */
  ghost predicate Aligned(r: FileRange, size: nat, n: nat, run: nat, k: nat, span: nat) {
    && size > 0 && !r.Empty() && r.offset + r.length <= n
    && k == Steps(CeilDiv(r.length, size)) && span == size * Pow2(k)
    && r.offset == run * span && (r.length == span || r.offset + r.length == n)
  }

  /** For such a range the node that Get reads holds the digest of exactly its bytes. */
  lemma GetIsDigest(tiger: Hasher, t: Nodes, w: nat, d: nat, size: nat, e: nat, file: seq<byte>, r: FileRange, run: nat, k: nat, span: nat)
    requires Shaped(t, w, d) && size == BLOCKSIZE * Pow2(e) && Covers(w, size, |file|)
    requires Describes(tiger, t, w, d, size, file) && Consistent(tiger, t)
    requires Aligned(r, size, |file|, run, k, span)
    ensures Target(t, size, r) < |t|
    ensures t[Target(t, size, r)] == Some(ThexRoot(tiger, file[r.offset..r.offset + r.length]))
  {
    TargetIsNode(t, w, d, size, |file|, r, run, k, span);
    NodeIsDigest(tiger, t, w, d, size, e, file, k, run, span);
    assert Cut(file, run * span, span) == file[r.offset..r.offset + r.length];
  }

  lemma TargetIsNode(t: Nodes, w: nat, d: nat, size: nat, n: nat, r: FileRange, run: nat, k: nat, span: nat)
    requires Shaped(t, w, d) && Covers(w, size, n) && Aligned(r, size, n, run, k, span)
    ensures k < d && r.length <= span && Target(t, size, r) == BottomOf(d - k) + run
  {
    hide Walk, Steps, CeilDiv, Shaped, Covers, Aligned, Fits;
    Halved(t, w, d);
    Reach(w, size, n, r, run, k, span);
    WalkEnds(w, d, size, n, r, run, k, span, r.offset / size, CeilDiv(r.length, size));
  }

  lemma Halved(t: Nodes, w: nat, d: nat)
    requires Shaped(t, w, d)
    ensures Fits(w, d) && |t| / 2 == BottomOf(d)
  {
  }

  lemma Reach(w: nat, size: nat, n: nat, r: FileRange, run: nat, k: nat, span: nat)
    requires Covers(w, size, n) && Aligned(r, size, n, run, k, span)
    ensures size > 0 && n <= w * size
  {
  }

  lemma WalkEnds(w: nat, d: nat, size: nat, n: nat, r: FileRange, run: nat, k: nat, span: nat, j: nat, len: nat)
    requires size > 0 && j == r.offset / size && len == CeilDiv(r.length, size)
    requires Fits(w, d) && n <= w * size && Aligned(r, size, n, run, k, span)
    ensures k < d && r.length <= span && Walk(BottomOf(d) + j, len) == BottomOf(d - k) + run
  {
    hide Walk, Steps, CeilDiv;
    LengthFits(w, d, size, r.length, k, span);
    StartSlice(w, size, r.offset, n, run, Pow2(k), span);
    WalkFrom(d, run * Pow2(k), run, k, len);
  }

  lemma LengthFits(w: nat, d: nat, size: nat, length: nat, k: nat, span: nat)
    requires Fits(w, d) && size > 0 && length <= w * size
    requires k == Steps(CeilDiv(length, size)) && span == size * Pow2(k)
    ensures k < d && length <= span
  {
    var len := CeilDiv(length, size);
    CeilDivBounds(length, size, w);
    StepsBounds(len);
    MulMonotone(len, Pow2(k), size);
    if k >= d { Pow2Monotone(d - 1, k - 1); }
  }

  lemma StartSlice(w: nat, size: nat, offset: nat, n: nat, run: nat, width: nat, span: nat)
    requires size > 0 && span == size * width && offset == run * span && offset < n <= w * size
    ensures offset / size == run * width && run * width < w
  {
    assert run * (size * width) == run * width * size;
    SliceIndex(run * width, w, size, offset, n);
  }

  lemma WalkFrom(d: nat, j: nat, run: nat, k: nat, len: nat)
    requires k == Steps(len) && k < d && j == run * Pow2(k) && j < Pow2(d - 1)
    ensures Walk(BottomOf(d) + j, len) == BottomOf(d - k) + run
  {
    WalkShifts(BottomOf(d) + j, len);
    Multiple(run, Pow2(k));
    WalkReachesAncestor(d, j, k);
  }

  lemma CeilDivBounds(n: nat, size: nat, w: nat)
    requires size > 0 && n <= w * size
    ensures n <= CeilDiv(n, size) * size && CeilDiv(n, size) <= w
  {
    var q := n / size;
    assert n == q * size + n % size;
    assert (q + 1) * size == q * size + size && (w + 1) * size == w * size + size;
    if q > w { MulMonotone(w + 1, q, size); }
    if q == w { assert n % size == 0; }
  }

  lemma SliceIndex(j: nat, w: nat, size: nat, offset: nat, n: nat)
    requires size > 0 && offset == j * size && offset < n <= w * size
    ensures offset / size == j && j < w
  {
    QuotientIs(offset, size, j);
    if j >= w { MulMonotone(w, j, size); }
  }
}
