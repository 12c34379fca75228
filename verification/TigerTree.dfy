/** The tiger tree of a file (tigertree.cpp): building, filling, validating and reading it. */
module TigerTree {
  import opened Bytes
  import opened Powers
  import opened Wrappers
  import opened Merkle
  import opened Thex
  import opened Range
  import opened TreeShape

  const MAX_BLOCKS: nat := 0x40_0000

  // ----- depths and sizes -----

  /** The number of rows above and including w blocks. */
  function Depth(w: nat): (d: nat)
    ensures d >= 1 && (d == 1 <==> w <= 1)
    decreases w
  {
    if w <= 1 then 1 else 1 + Depth(HalfUp(w))
  }

  lemma {:induction false} DepthIsLeast(w: nat, d: nat)
    requires Fits(w, d)
    ensures d == Depth(w)
    decreases d
  {
    if d >= 2 { DepthIsLeast(HalfUp(w), d - 1); }
  }

  /** The depth whose nodes number at least n, and not the one before. */
  function Height(n: nat): nat {
    if n <= 1 then 1 else 1 + Height(n / 2)
  }

  lemma {:induction false} HeightIs(n: nat, h: nat)
    requires h >= 1 && n < Pow2(h) && (h >= 2 ==> n >= Pow2(h - 1))
    ensures h == Height(n)
    decreases h
  {
    if h >= 2 {
      if h >= 3 { assert Pow2(h - 1) == 2 * Pow2(h - 2); }
      HeightIs(n / 2, h - 1);
    }
  }

  /** The node array of a file of 32-bit size is small. */
  lemma FewNodes(w: nat, d: nat)
    requires Fits(w, d) && w <= MAX_BLOCKS
    ensures Pow2(d) <= 4 * MAX_BLOCKS
  {
  }

  lemma HalveCover(w: nat, size: nat, n: nat)
    requires Covers(w, size, n) && w >= 2
    ensures Covers(HalfUp(w), 2 * size, n)
  {
    var h := HalfUp(w);
    MulMonotone(2 * (h - 1), w - 1, size);
    MulMonotone(w, 2 * h, size);
    assert 2 * (h - 1) * size == (h - 1) * (2 * size) && 2 * h * size == h * (2 * size);
  }

  // ----- the bytes of a tree -----

  /** The hashes of the present nodes in index order. */
  function TreeBytes(t: Nodes): seq<byte> {
    if t == [] then []
    else TreeBytes(t[..|t| - 1]) + match t[|t| - 1] { case Some(h) => h case None => [] }
  }

  /** The bytes and the shape determine the tree. */
  lemma {:induction false} SameBytes(t: Nodes, u: Nodes)
    requires Shape(t) == Shape(u) && TreeBytes(t) == TreeBytes(u)
    ensures t == u
    decreases |t|
  {
    if t != [] {
      var n := |t| - 1;
      var a, b := t[..n], u[..n];
      assert Shape(a) == Shape(t)[..n] == Shape(u)[..n] == Shape(b);
      assert t[n].Some? == Shape(t)[n] == u[n].Some?;
      var k := |TreeBytes(t)| - if t[n].Some? then TIGERSIZE else 0;
      assert TreeBytes(a) == TreeBytes(t)[..k] && TreeBytes(b) == TreeBytes(u)[..k];
      if t[n].Some? {
        assert t[n].value == TreeBytes(t)[k..] && u[n].value == TreeBytes(u)[k..];
      }
      SameBytes(a, b);
      assert t == a + [t[n]] && u == b + [u[n]];
    }
  }

  /** Each hash stands behind those of the present nodes in front of it. */
  lemma HashIsAt(t: Nodes, p: nat)
    requires p < |t| && t[p].Some?
    ensures var at := TIGERSIZE * |set q | 0 <= q < p && t[q].Some?|;
      at + TIGERSIZE <= |TreeBytes(t)| && TreeBytes(t)[at..at + TIGERSIZE] == t[p].value
  {
    var before, others := TreeBytes(t[..p]), TreeBytes(t[p + 1..]);
    var one: Nodes := [t[p]];
    assert t == t[..p] + one + t[p + 1..] && one[..0] == [];
    TreeBytesConcat(t[..p] + one, t[p + 1..]);
    TreeBytesConcat(t[..p], one);
    assert TreeBytes(one) == t[p].value;
    MiddleSlice(before, t[p].value, others);
    PresentBefore(t, p);
  }

  lemma {:induction false} PresentBefore(t: Nodes, p: nat)
    requires p <= |t|
    ensures |TreeBytes(t[..p])| == TIGERSIZE * |set q | 0 <= q < p && t[q].Some?|
    decreases p
  {
    var present := set q | 0 <= q < p && t[q].Some?;
    if p == 0 {
      assert present == {};
    } else {
      PresentBefore(t, p - 1);
      var fewer := set q | 0 <= q < p - 1 && t[q].Some?;
      assert present == if t[p - 1].Some? then fewer + {p - 1} else fewer;
      assert t[..p][..p - 1] == t[..p - 1];
    }
  }

  lemma {:induction false} TreeBytesConcat(a: Nodes, b: Nodes)
    ensures TreeBytes(a + b) == TreeBytes(a) + TreeBytes(b)
    decreases |b|
  {
    if b == [] {
      assert a + b == a;
    } else {
      assert (a + b)[..|a + b| - 1] == a + b[..|b| - 1];
      TreeBytesConcat(a, b[..|b| - 1]);
    }
  }

  /** A step of the filling loop at a present node: it takes the next hash. */
  lemma FillStep(t: Nodes, nd: nat, v: seq<byte>, offset: nat)
    requires nd < |t| && t[nd].Some? && offset + TIGERSIZE <= |v| && TreeBytes(t[..nd]) == v[..offset]
    ensures var u := t[nd := Some(v[offset..offset + TIGERSIZE])];
      && Shape(u) == Shape(t) && |TreeBytes(u)| == |TreeBytes(t)|
      && TreeBytes(u[..nd + 1]) == v[..offset + TIGERSIZE]
  {
    var h: Digest := v[offset..offset + TIGERSIZE];
    var u := t[nd := Some(h)];
    assert t == t[..nd + 1] + t[nd + 1..] && u == u[..nd + 1] + t[nd + 1..];
    TreeBytesConcat(t[..nd + 1], t[nd + 1..]);
    TreeBytesConcat(u[..nd + 1], t[nd + 1..]);
    assert t[..nd + 1][..nd] == t[..nd] == u[..nd + 1][..nd];
    assert v[..offset + TIGERSIZE] == v[..offset] + h;
  }

  lemma NothingFilled(t: Nodes)
    ensures TreeBytes(t[..0]) == []
  {
    assert t[..0] == [];
  }

  lemma SkipStep(t: Nodes, nd: nat)
    requires nd < |t| && t[nd].None?
    ensures TreeBytes(t[..nd + 1]) == TreeBytes(t[..nd])
  {
    assert t[..nd + 1][..nd] == t[..nd];
  }

  /** Where the filling loop stops. */
  lemma FillEnd(t: Nodes, nd: nat, v: seq<byte>, offset: nat)
    requires nd <= |t| && offset <= |v| && TreeBytes(t[..nd]) == v[..offset]
    ensures offset <= |TreeBytes(t)| && (nd == |t| ==> offset == |TreeBytes(t)|)
    ensures nd == |t| || offset == |v| ==> TreeBytes(t) <= v || v <= TreeBytes(t)
  {
    assert t == t[..nd] + t[nd..];
    TreeBytesConcat(t[..nd], t[nd..]);
  }

  lemma OneNode(t: Nodes)
    requires |t| == 1 && t[0].Some?
    ensures |TreeBytes(t)| == TIGERSIZE
  {
    assert t[..0] == [];
  }

  lemma {:induction false} RowBytes(row: Nodes, w: nat)
    requires RowIs(row, w)
    ensures |TreeBytes(row)| == TIGERSIZE * if w < |row| then w else |row|
    decreases |row|
  {
    if row != [] {
      assert RowIs(row[..|row| - 1], w);
      RowBytes(row[..|row| - 1], w);
    }
  }

  lemma {:induction false} TreeBytesLength(t: Nodes, w: nat, d: nat)
    requires Shaped(t, w, d)
    ensures |TreeBytes(t)| == TIGERSIZE * NodeCount(w, d)
    decreases d
  {
    if d == 1 {
      assert Shape(t)[0] && t[..0] == [];
      assert TreeBytes(t) == TreeBytes(t[..0]) + t[0].value;
    } else {
      var b := BottomOf(d);
      RowsAbove(t, w, d);
      TreeBytesLength(t[..b], HalfUp(w), d - 1);
      RowBytes(t[b..], w);
      assert t == t[..b] + t[b..];
      TreeBytesConcat(t[..b], t[b..]);
    }
  }

  /** The height FromBytes finds for the bytes of a tree is the depth of the tree. */
  lemma HeightOfBytes(t: Nodes, w: nat, d: nat)
    requires Shaped(t, w, d)
    ensures |TreeBytes(t)| % TIGERSIZE == 0 && Height(|TreeBytes(t)| / TIGERSIZE) == d
  {
    TreeBytesLength(t, w, d);
    Multiple(NodeCount(w, d), TIGERSIZE);
    NodeCountBounds(w, d);
    HeightIs(NodeCount(w, d), d);
  }

  /** A heap of d rows before any block is placed: only the root is there. */
  lemma {:induction false} FreshShape(s: seq<bool>, d: nat)
    requires d >= 1 && |s| == Pow2(d) - 1 && s[0]
    requires forall p :: 1 <= p < |s| ==> !s[p]
    ensures WellShaped(s, 0, d)
    decreases d
  {
    if d >= 2 { FreshShape(s[..BottomOf(d)], d - 1); }
  }

  /** One more bottom node. */
  lemma GrowStep(s: seq<bool>, i: nat, rows: nat, blocks: nat)
    requires rows > 1 && WellShaped(s, i, rows) && i < blocks && Fits(blocks, rows)
    ensures |s| / 2 == BottomOf(rows) > 0 && |s| / 2 + i < |s| && WellShaped(MarkUp(s, |s| / 2 + i), i + 1, rows)
  {
    hide MarkUp;
    MarkUpShape(s, i, rows, i);
  }

  lemma OneRow(rows: nat)
    requires rows == 1
    ensures Pow2(rows) == 2
  {
  }

  lemma {:induction false} ShapeIsUnique(s: seq<bool>, r: seq<bool>, w: nat, d: nat)
    requires d >= 1 && WellShaped(s, w, d) && WellShaped(r, w, d)
    ensures s == r
    decreases d
  {
    if d >= 2 {
      var b := BottomOf(d);
      ShapeIsUnique(s[..b], r[..b], HalfUp(w), d - 1);
      assert s[b..] == r[b..];
      assert s == s[..b] + s[b..] && r == r[..b] + r[b..];
    }
  }

  // ----- when the loops stay inside the node array -----

  /** FromBytes stays inside its node array for that many bytes and a file of that size: bytes that
      are no hashes are refused at once; else their number has to call for at least two rows and
      for no more than the file has, and for one row if the file is empty. */
  predicate Defined(bytes: nat, size: nat) {
    bytes % TIGERSIZE == 0 ==>
      var height := Height(bytes / TIGERSIZE);
      if size == 0 then height == 1 else 2 <= height <= Depth(CeilDiv(size, BLOCKSIZE))
  }

  /** With as many rows as the hashes call for, or as the file has if that is less, the filling loop
      runs out of nodes before it runs out of hashes exactly if the hashes call for more. */
  lemma FillStaysIff(t: Nodes, w: nat, full: nat, hashes: nat)
    requires Shaped(t, w, if full < Height(hashes) then full else Height(hashes))
    ensures |t| < Pow2(Height(hashes)) - 1 && |TreeBytes(t)| < hashes * TIGERSIZE <==> Height(hashes) > full
  {
    var height := Height(hashes);
    var d := if full < height then full else height;
    TreeBytesLength(t, w, d);
    NodeCountBounds(w, d);
    HeightBounds(hashes);
    if height > full { Pow2Monotone(full, height - 1); }
  }

  lemma {:induction false} HeightBounds(n: nat)
    ensures n < Pow2(Height(n)) && (Height(n) >= 2 ==> n >= Pow2(Height(n) - 1))
    decreases n
  {
    if n > 1 { HeightBounds(n / 2); }
  }

  /** Four hashes for a file of two blocks call for three rows, the tree has two: the filling loop
      reads behind its three nodes. A single hash calls for one row: Init walks up from the root. */
  lemma NotAlwaysDefined(size: nat)
    ensures !Defined(4 * TIGERSIZE, 2 * BLOCKSIZE)
    ensures size > 0 ==> !Defined(TIGERSIZE, size)
  {
    assert Height(4) == 1 + Height(2) && Height(2) == 1 + Height(1);
    assert Depth(2) == 1 + Depth(1);
  }

  /** A filled tree is the only one with its shape and these bytes. */
  lemma FilledIs(t: Nodes, filled: Nodes, w: nat, d: nat)
    requires Shaped(t, w, d) && Shaped(filled, w, d)
    requires TreeBytes(filled) <= TreeBytes(t) || TreeBytes(t) <= TreeBytes(filled)
    ensures t == filled
  {
    ShapeIsUnique(Shape(t), Shape(filled), w, d);
    TreeBytesLength(t, w, d);
    TreeBytesLength(filled, w, d);
    SameBytes(t, filled);
  }

  /** A step of AddNodes towards the root, on unsigned numbers: from the root it wraps. */
  function Up(node: nat): (up: nat)
    ensures if node == 0 then up == WORD / 2 - 1 else node < WORD ==> up == (node - 1) / 2
  {
    (node + WORD - 1) % WORD / 2
  }

  class TigerTree {
    const tiger: Hasher
    var tree: Nodes
    var totalBlocks: nat
    var blockSize: nat

    /** Rows of the tree, and blocks per bottom node as a power of two. */
    ghost var depth: nat
    ghost var exponent: nat

    constructor (tiger: Hasher)
      ensures tree == [] && this.tiger == tiger
    {
      this.tiger := tiger;
      tree, totalBlocks, blockSize := [], 0, 0;
    }

    /** The tree has the nodes and the slice size that fit a file of n bytes. */
    ghost predicate FitsFile(n: nat)
      reads this
    {
      && depth >= 2 && Shaped(tree, totalBlocks, depth)
      && blockSize == BLOCKSIZE * Pow2(exponent)
      && Covers(totalBlocks, blockSize, n)
      && depth + exponent == Depth(CeilDiv(n, BLOCKSIZE))
    }

    predicate Empty()
      reads this
    {
      tree == []
    }

    /** The first part of Init: the number of rows a full tree needs, then drop rows from the
        bottom until at most maxDepth are left. */
    method Truncate(fileSize: FileOffset, maxDepth: nat) returns (rows: nat)
      modifies this`totalBlocks, this`blockSize, this`exponent
      ensures fileSize == 0 ==> rows == 1 && totalBlocks == 0
      ensures fileSize > 0 ==> Fits(totalBlocks, rows) && totalBlocks <= MAX_BLOCKS && Covers(totalBlocks, blockSize, fileSize)
      ensures blockSize == BLOCKSIZE * Pow2(exponent) && rows + exponent == Depth(CeilDiv(fileSize, BLOCKSIZE))
      ensures var full := Depth(CeilDiv(fileSize, BLOCKSIZE));
        rows == if maxDepth == 0 || full < maxDepth then full else maxDepth
    {
      totalBlocks := CeilDiv(fileSize, BLOCKSIZE);
      rows := 1;
      var i := 1;
      while i < totalBlocks
        invariant rows >= 1 && i == Pow2(rows - 1) && (rows >= 2 ==> totalBlocks > Pow2(rows - 2))
        decreases totalBlocks - i
      {
        rows := rows + 1;
        i := i * 2;
      }
      if totalBlocks > 0 { DepthIsLeast(totalBlocks, rows); }
      blockSize := BLOCKSIZE;
      exponent := 0;
      ghost var full := rows;
      while maxDepth != 0 && maxDepth < rows
        invariant rows >= 1 && rows + exponent == full && (maxDepth == 0 || full < maxDepth ==> rows == full)
        invariant maxDepth != 0 && maxDepth <= full ==> maxDepth <= rows
        invariant fileSize == 0 ==> rows == 1 && totalBlocks == 0
        invariant fileSize > 0 ==> Fits(totalBlocks, rows) && totalBlocks <= MAX_BLOCKS && Covers(totalBlocks, blockSize, fileSize)
        invariant blockSize == BLOCKSIZE * Pow2(exponent)
      {
        HalveCover(totalBlocks, blockSize, fileSize);
        rows := rows - 1;
        blockSize := blockSize * 2;
        totalBlocks := if totalBlocks % 2 == 1 then (totalBlocks + 1) / 2 else totalBlocks / 2;
        exponent := exponent + 1;
      }
    }

    /** Init: an unfilled tree for a file, with at most maxDepth rows unless maxDepth is 0.
        New nodes are not initialised, so their hashes may be anything. Not defined for a tree
        of a single node over a block. */
    method Init(fileSize: FileOffset, maxDepth: nat) returns (defined: bool)
      modifies this
      ensures defined <==> fileSize == 0 || (fileSize > BLOCKSIZE && maxDepth != 1)
      ensures defined && fileSize > 0 ==> FitsFile(fileSize)
      ensures fileSize == 0 ==> |tree| == 1 && tree[0].Some? && depth == 1
      ensures var full := Depth(CeilDiv(fileSize, BLOCKSIZE));
        depth == if maxDepth == 0 || full < maxDepth then full else maxDepth
    {
      var rows := Truncate(fileSize, maxDepth);
      depth := rows;
      defined := Grow(rows);
    }

    /** The second part of Init: the node array, and the nodes above totalBlocks bottom nodes. */
    method Grow(rows: nat) returns (defined: bool)
      requires if totalBlocks == 0 then rows == 1 else Fits(totalBlocks, rows) && totalBlocks <= MAX_BLOCKS
      modifies this`tree
      ensures defined <==> totalBlocks == 0 || rows > 1
      ensures defined && totalBlocks > 0 ==> Shaped(tree, totalBlocks, rows)
      ensures totalBlocks == 0 ==> |tree| == 1 && tree[0].Some?
    {
      hide MarkUp, Shape, WellShaped, Pow2;
      NewNodes(rows);
      if totalBlocks > 0 { FewNodes(totalBlocks, rows); }
      if rows == 1 { OneRow(rows); }
      ghost var nodes := |tree|;
      for i := 0 to totalBlocks
        invariant |tree| == nodes && WellShaped(Shape(tree), i, rows) && (i > 0 ==> rows > 1)
        invariant totalBlocks == 0 ==> tree[0].Some?
      {
        if rows > 1 { GrowStep(Shape(tree), i, rows, totalBlocks); }
        var inside := AddNodes(|tree| / 2 + i);
        if !inside { return false; }
      }
      defined := true;
    }

    /** A node array for that many rows, in which only the root is there. */
    method NewNodes(rows: nat)
      requires rows >= 1
      modifies this`tree
      ensures |tree| == Pow2(rows) - 1 > 0 && tree[0].Some? && WellShaped(Shape(tree), 0, rows)
    {
      var nodes, width := 0, 1;
      for i := 1 to rows + 1
        invariant width == Pow2(i - 1) && nodes == width - 1
      {
        nodes := nodes + width;
        width := width * 2;
      }
      var uninitialised: Digest := *;
      tree := [Some(uninitialised)] + seq(nodes - 1, _ => None);
      FreshShape(Shape(tree), rows);
    }

    /** The inner loop of Init: create a bottom node and those of its ancestors below the root
        that are missing. From the root the unsigned index wraps, and the walk leaves the array. */
    method AddNodes(bottom: nat) returns (inside: bool)
      requires bottom < |tree| < WORD / 2
      modifies this`tree
      ensures inside <==> bottom > 0
      ensures |tree| == old(|tree|) && (inside ==> Shape(tree) == MarkUp(old(Shape(tree)), bottom))
    {
      hide Up;
      var node := bottom;
      ghost var goal := if bottom > 0 then MarkUp(Shape(tree), bottom) else [];
      while true
        invariant |tree| == old(|tree|)
        invariant if bottom == 0 then node == 0 || node == WORD / 2 - 1
                  else 0 < node < |tree| && MarkUp(Shape(tree), node) == goal
        decreases if node >= |tree| then 0 else if node == 0 then 1 + |tree| else node
      {
        if node >= |tree| { return false; }
        ghost var before := Shape(tree);
        if tree[node].None? {
          var uninitialised: Digest := *;
          tree := tree[node := Some(uninitialised)];
        }
        assert Shape(tree) == before[node := true];
        node := Up(node);
        if node == 0 { break; }
      }
      inside := true;
    }

    /** Validate: whether every inner node agrees with its children; if not, the tree is cleared. */
    method Validate() returns (valid: bool)
      modifies this`tree
      ensures valid == (old(tree) != [] && Consistent(tiger, old(tree)))
      ensures tree == if valid then old(tree) else []
    {
      if tree == [] { return false; }
      valid := true;
      var parent := 0;
      while valid && parent < |tree| / 2
        invariant 0 <= parent <= |tree| / 2
        invariant forall p :: 0 <= p < parent - 1 ==> NodeOk(tiger, tree, p)
        invariant parent > 0 ==> valid == NodeOk(tiger, tree, parent - 1)
        invariant parent == 0 ==> valid
      {
        if tree[parent].Some? {
          var left, right := parent * 2 + 1, parent * 2 + 2;
          if left >= |tree| || tree[left].None? {
            valid := false;
          } else if right >= |tree| || tree[right].None? {
            valid := tree[parent].value == tree[left].value;
          } else {
            var hash := tiger([1] + tree[left].value + tree[right].value);
            valid := tree[parent].value == hash;
          }
        }
        parent := parent + 1;
      }
      if !valid { tree := []; }
    }

    /** ToBytes: the hashes of the present nodes, appended to v. */
    method ToBytes(v: seq<byte>) returns (out: seq<byte>)
      ensures out == v + TreeBytes(tree)
    {
      out := v;
      for i := 0 to |tree|
        invariant out == v + TreeBytes(tree[..i])
      {
        assert tree[..i + 1][..i] == tree[..i];
        if tree[i].Some? { out := out + tree[i].value; }
      }
      assert tree[..|tree|] == tree;
    }

    /** Root of a nonempty tree. */
    method Root() returns (r: Result<Digest>)
      requires tree != [] ==> tree[0].Some?
      ensures r == if tree == [] then Failure("Tree is empty") else Success(tree[0].value)
    {
      if Empty() { return Failure("Tree is empty"); }
      return Success(tree[0].value);
    }

    /** Get reads the node its index walk ends at, which has to be present. */
    method Get(r: FileRange) returns (hash: Result<Digest>)
      requires tree != [] ==>
        blockSize > 0 && Target(tree, blockSize, r) < |tree| && tree[Target(tree, blockSize, r)].Some?
      ensures hash == if tree == [] then Failure("Tree is empty")
        else Success(tree[Target(tree, blockSize, r)].value)
    {
      hide Walk;
      if Empty() { return Failure("Tree is empty"); }
      var parent := WalkUp(|tree| / 2 + r.offset / blockSize,
                           r.length / blockSize + if r.length % blockSize != 0 then 1 else 0);
      return Success(tree[parent].value);
    }

    /** The loop of Get. */
    method WalkUp(bottom: nat, blocks: nat) returns (parent: nat)
      ensures parent == Walk(bottom, blocks)
    {
      parent := bottom;
      var len := blocks;
      while len > 1
        invariant Walk(parent, len) == Walk(bottom, blocks)
      {
        parent := parent / 2;
        len := if len % 2 == 1 then len / 2 + 1 else len / 2;
      }
    }

    /** Root of a validated tree over the right slice digests: the digest of the whole file. */
    lemma RootMatchesFile(file: seq<byte>)
      requires FitsFile(|file|) && Consistent(tiger, tree)
      requires Describes(tiger, tree, totalBlocks, depth, blockSize, file)
      ensures tree[0] == Some(ThexRoot(tiger, file))
    {
      RootIsDigest(tiger, tree, totalBlocks, depth, blockSize, exponent, file);
    }

    /** Get of an aligned range: the digest of its bytes, and the node it reads is present. */
    lemma GetMatchesFile(file: seq<byte>, r: FileRange, run: nat, k: nat, span: nat)
      requires FitsFile(|file|) && Consistent(tiger, tree)
      requires Describes(tiger, tree, totalBlocks, depth, blockSize, file)
      requires Aligned(r, blockSize, |file|, run, k, span)
      ensures Target(tree, blockSize, r) < |tree|
      ensures tree[Target(tree, blockSize, r)] == Some(ThexRoot(tiger, file[r.offset..r.offset + r.length]))
    {
      GetIsDigest(tiger, tree, totalBlocks, depth, blockSize, exponent, file, r, run, k, span);
    }

    /** A tree with the slices of a file passes the test of Validate, and has the digests of the slices
        at the bottom, if and only if every node is the digest of the bytes below it. */
    lemma RightTreeIff(file: seq<byte>)
      requires FitsFile(|file|)
      ensures IsTreeOf(tiger, tree, depth, blockSize, file) <==>
        Consistent(tiger, tree) && Describes(tiger, tree, totalBlocks, depth, blockSize, file)
    {
      TreeOfFileIff(tiger, tree, totalBlocks, depth, blockSize, exponent, file);
    }

    /** The search for the height in FromBytes. */
    method FindHeight(hashes: nat) returns (height: nat, nodes: nat)
      ensures height == Height(hashes) && nodes == Pow2(height) - 1
    {
      height, nodes := 1, 1;
      var pwr := 1;
      while nodes < hashes
        invariant height >= 1 && pwr == Pow2(height - 1) && nodes == Pow2(height) - 1
        invariant height >= 2 ==> Pow2(height - 1) - 1 < hashes
        decreases hashes - nodes
      {
        height := height + 1;
        pwr := pwr * 2;
        nodes := nodes + pwr;
      }
      HeightIs(hashes, height);
    }

    /** The filling loop of FromBytes: present nodes take the hashes of v in index order. It leaves
        the array when there are fewer nodes than it counts on and hashes are left for more. */
    method FillFrom(v: seq<byte>, ghost hashes: nat, nodes: nat) returns (defined: bool)
      requires |v| == hashes * TIGERSIZE
      modifies this`tree
      ensures defined <==> nodes <= |old(tree)| || |v| <= |TreeBytes(old(tree))|
      ensures Shape(tree) == old(Shape(tree))
      ensures defined && nodes == |tree| ==> TreeBytes(tree) <= v || v <= TreeBytes(tree)
    {
      hide TreeBytes, Shape;
      var offset, nd := 0, 0;
      ghost var used := 0;
      NothingFilled(tree);
      while offset + TIGERSIZE <= |v| && nd < nodes
        invariant nd <= nodes && nd <= |tree| && used <= hashes && offset == used * TIGERSIZE
        invariant Shape(tree) == old(Shape(tree)) && |TreeBytes(tree)| == |TreeBytes(old(tree))|
        invariant TreeBytes(tree[..nd]) == v[..offset]
      {
        FillEnd(tree, nd, v, offset);
        if nd >= |tree| { return false; }
        if tree[nd].Some? {
          FillStep(tree, nd, v, offset);
          tree := tree[nd := Some(v[offset..offset + TIGERSIZE])];
          offset, used := offset + TIGERSIZE, used + 1;
        } else {
          SkipStep(tree, nd);
        }
        nd := nd + 1;
      }
      FillEnd(tree, nd, v, offset);
      defined := true;
    }

    /** The part of FromBytes before the tree is validated. */
    method InitAndFill(v: seq<byte>, size: FileOffset) returns (defined: bool)
      requires |v| % TIGERSIZE == 0
      modifies this
      ensures defined <==> Defined(|v|, size)
      ensures defined ==> depth == Height(|v| / TIGERSIZE)
      ensures defined && size == 0 ==> |tree| == 1 && tree[0].Some?
      ensures defined && size > 0 ==> FitsFile(size) && (TreeBytes(tree) <= v || v <= TreeBytes(tree))
    {
      hide TreeBytes, Depth, Pow2;
      var height, nodes := FindHeight(|v| / TIGERSIZE);
      defined := Init(size, height);
      if !defined { return; }
      if size > 0 {
        FillStaysIff(tree, totalBlocks, Depth(CeilDiv(size, BLOCKSIZE)), |v| / TIGERSIZE);
      } else {
        OneNode(tree);
        HeightBounds(|v| / TIGERSIZE);
      }
      defined := FillFrom(v, |v| / TIGERSIZE, nodes);
    }

    /** FromBytes: rebuild the tree of a file of the given size from the bytes of its nodes.
        The height is guessed from the number of hashes. */
    method FromBytes(v: seq<byte>, size: FileOffset) returns (valid: bool, defined: bool)
      modifies this
      ensures defined <==> Defined(|v|, size)
      ensures |v| % TIGERSIZE != 0 ==> !valid && tree == old(tree)
      ensures |v| % TIGERSIZE == 0 && defined ==> depth == Height(|v| / TIGERSIZE)
      ensures |v| % TIGERSIZE == 0 && defined && !valid ==> tree == []
      ensures valid ==> defined && Consistent(tiger, tree)
      ensures valid && size > 0 ==> FitsFile(size) && (TreeBytes(tree) <= v || v <= TreeBytes(tree))
      ensures |v| % TIGERSIZE == 0 && defined && size > 0 ==>
        && blockSize == BLOCKSIZE * Pow2(exponent) && Covers(totalBlocks, blockSize, size)
        && depth + exponent == Depth(CeilDiv(size, BLOCKSIZE))
        && forall t: Nodes :: Shaped(t, totalBlocks, depth) && TreeBytes(t) == v ==>
             valid == Consistent(tiger, t) && (valid ==> tree == t)
      ensures |v| % TIGERSIZE == 0 && defined && size == 0 ==> valid
    {
      if |v| % TIGERSIZE != 0 { return false, true; }
      defined := InitAndFill(v, size);
      if !defined { return false, false; }
      hide TreeBytes, Shape, Height, Depth;
      forall t: Nodes | size > 0 && Shaped(t, totalBlocks, depth) && TreeBytes(t) == v ensures t == tree {
        FilledIs(t, tree, totalBlocks, depth);
      }
      valid := Validate();
      valid := Validate();
    }
  }

  /** Saving the tree of a file and loading it again recovers its rows, its slice size and
      every hash. */
  method RoundTrip(t: TigerTree, size: FileOffset) returns (u: TigerTree, valid: bool)
    requires t.FitsFile(size) && Consistent(t.tiger, t.tree)
    ensures valid && u.tree == t.tree && u.depth == t.depth && Defined(|TreeBytes(t.tree)|, size)
    ensures u.blockSize == t.blockSize && u.totalBlocks == t.totalBlocks
  {
    var v := t.ToBytes([]);
    HeightOfBytes(t.tree, t.totalBlocks, t.depth);
    u := new TigerTree(t.tiger);
    var defined;
    valid, defined := u.FromBytes(v, size);
    CoverIsUnique(u.totalBlocks, t.totalBlocks, t.blockSize, size);
  }

  /** The tree of a file is accepted when it is loaded, and its root is the digest of the file. */
  method LoadTreeOf(t: TigerTree, file: seq<byte>) returns (u: TigerTree, valid: bool, root: Result<Digest>)
    requires |file| < WORD && t.FitsFile(|file|) && IsTreeOf(t.tiger, t.tree, t.depth, t.blockSize, file)
    ensures valid && u.tree == t.tree && root == Success(ThexRoot(t.tiger, file))
  {
    t.RightTreeIff(file);
    t.RootMatchesFile(file);
    u, valid := RoundTrip(t, |file|);
    root := u.Root();
  }

  lemma CoverIsUnique(v: nat, w: nat, size: nat, n: nat)
    requires Covers(v, size, n) && Covers(w, size, n)
    ensures v == w
  {
    if v < w {
      MulMonotone(v, w - 1, size);
    } else if w < v {
      MulMonotone(w, v - 1, size);
    }
  }
}
