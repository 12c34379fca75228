/** What hashing the parts of a file against its tiger tree establishes (download.cpp,
    managedinfo.hpp, tigertree.cpp). */
module HashedParts {
  import opened Bytes
  import opened Powers
  import opened Wrappers
  import opened Merkle
  import opened Thex
  import opened TreeShape
  import opened Range
  import opened FileRanges
  import opened FileMap
  import opened Ownership

  /** A tiger tree as a value: its nodes, its slices and their size, and how many rows it has
      above slices of 1024 * 2^exponent bytes. */
  datatype Tree = Tree(nodes: Nodes, blocks: nat, blockSize: FileOffset, rows: nat, exponent: nat)

  /** A tree that fits a file of that size and that Validate accepts. */
  ghost predicate Accepted(tiger: Hasher, t: Tree, size: nat) {
    && t.rows >= 2 && Shaped(t.nodes, t.blocks, t.rows) && Consistent(tiger, t.nodes)
    && t.blockSize == BLOCKSIZE * Pow2(t.exponent) && Covers(t.blocks, t.blockSize, size)
  }

  /** Root and Get. */
  function RootOf(t: Tree): Option<Digest> {
    if t.nodes == [] then None else t.nodes[0]
  }

  function NodeHash(t: Tree, p: nat): Option<Digest> {
    if p < |t.nodes| then t.nodes[p] else None
  }

  function HashAt(t: Tree, r: FileRange): Option<Digest>
    requires t.blockSize > 0
  {
    NodeHash(t, Target(t.nodes, t.blockSize, r))
  }

  /** A range that GetForValidation may ask to hash: a slice, or a shorter end of the file. */
  predicate IsPart(r: FileRange, size: nat, slice: nat)
    requires slice > 0
  {
    (r.length == slice && r.offset % slice == 0) || (r.offset + r.length == size && r.length < slice)
  }

  /** Get reads the bottom node of the slice in which such a range begins. */
  lemma PartNode(t: Tree, size: nat, r: FileRange)
    requires t.blockSize > 0 && InFile(r, size) && IsPart(r, size, t.blockSize)
    ensures HashAt(t, r) == NodeHash(t, |t.nodes| / 2 + r.offset / t.blockSize)
  {
    OneSlice(r.length, t.blockSize);
  }

  lemma OneSlice(length: nat, slice: nat)
    requires 0 < length <= slice
    ensures CeilDiv(length, slice) == 1
  {
    if length < slice { QuotientIs(length, slice, 0); } else { QuotientIs(length, slice, 1); }
    assert length == length / slice * slice + length % slice;
  }

  lemma BottomNode(tiger: Hasher, t: Tree, size: nat, i: nat)
    requires Accepted(tiger, t, size) && i < t.blocks
    ensures NodeHash(t, |t.nodes| / 2 + i) == Some(Bottom(t.nodes, t.blocks, t.rows)[i])
  {
    hide Consistent, Shaped, Bottom;
    BottomAt(t.nodes, t.blocks, t.rows, i);
  }

  lemma BottomAt(nodes: Nodes, w: nat, d: nat, i: nat)
    requires d >= 2 && Shaped(nodes, w, d) && i < w
    ensures |nodes| / 2 + i < |nodes| && nodes[|nodes| / 2 + i] == Some(Bottom(nodes, w, d)[i])
  {
    hide Bottom, WellShaped, Fits;
    BottomIs(nodes, w, d, i);
    RowsAbove(nodes, w, d);
    assert |nodes| / 2 == BottomOf(d);
  }

  lemma SliceInFile(offset: nat, slice: nat, blocks: nat, size: nat)
    requires slice > 0 && offset < size <= blocks * slice
    ensures offset / slice < blocks
  {
    var q := offset / slice;
    assert offset == q * slice + offset % slice;
    if q >= blocks {
      MulMonotone(blocks, q, slice);
      assert false;
    }
  }

  lemma CoversFile(tiger: Hasher, t: Tree, size: nat)
    requires Accepted(tiger, t, size)
    ensures t.blockSize > 0 && (t.blocks - 1) * t.blockSize < size <= t.blocks * t.blockSize
  {
  }

  lemma PartSlice(tiger: Hasher, t: Tree, size: nat, r: FileRange)
    requires Accepted(tiger, t, size) && t.blockSize > 0 && InFile(r, size)
    ensures r.offset / t.blockSize < t.blocks
  {
    hide Accepted;
    CoversFile(tiger, t, size);
    SliceInFile(r.offset, t.blockSize, t.blocks, size);
  }

  /** The node is there, so that Get does not fail. */
  lemma PartPresent(tiger: Hasher, t: Tree, size: nat, r: FileRange)
    requires Accepted(tiger, t, size) && t.blockSize > 0 && InFile(r, size) && IsPart(r, size, t.blockSize)
    ensures HashAt(t, r).Some?
  {
    hide *;
    PartNode(t, size, r);
    PartSlice(tiger, t, size, r);
    BottomNode(tiger, t, size, r.offset / t.blockSize);
  }

  /** A tree that Validate accepts and whose bottom nodes are the digests of the slices of the file. */
  ghost predicate TreeOf(tiger: Hasher, t: Tree, file: seq<byte>) {
    Accepted(tiger, t, |file|) && Describes(tiger, t.nodes, t.blocks, t.rows, t.blockSize, file)
  }

  /** Get gives the digest of the slice in which the part begins, whatever part of the slice that is. */
  lemma PartHashIs(tiger: Hasher, t: Tree, file: seq<byte>, r: FileRange, first: nat, end: nat)
    requires TreeOf(tiger, t, file)
    requires t.blockSize > 0 && InFile(r, |file|) && IsPart(r, |file|, t.blockSize)
    requires first == r.offset - r.offset % t.blockSize && end == if first + t.blockSize < |file| then first + t.blockSize else |file|
    ensures first <= end && HashAt(t, r) == Some(ThexRoot(tiger, file[first..end]))
  {
    hide HashAt, NodeHash, IsPart, Accepted, Bottom, Target, ThexRoot, Describes, TreeOf;
    AcceptedTree(tiger, t, file);
    var i := r.offset / t.blockSize;
    SliceBegin(r.offset, t.blockSize);
    PartNode(t, |file|, r);
    PartSlice(tiger, t, |file|, r);
    BottomNode(tiger, t, |file|, i);
    DescribedSlice(tiger, t, file, i);
  }

  lemma AcceptedTree(tiger: Hasher, t: Tree, file: seq<byte>)
    requires TreeOf(tiger, t, file)
    ensures Accepted(tiger, t, |file|)
  {
  }

  lemma SliceBegin(offset: nat, slice: nat)
    requires slice > 0
    ensures offset / slice * slice == offset - offset % slice
  {
  }

  lemma DescribedSlice(tiger: Hasher, t: Tree, file: seq<byte>, i: nat)
    requires TreeOf(tiger, t, file) && i < t.blocks
    ensures Shaped(t.nodes, t.blocks, t.rows) && i * t.blockSize <= |file|
    ensures Bottom(t.nodes, t.blocks, t.rows)[i] == ThexRoot(tiger, Cut(file, i * t.blockSize, t.blockSize))
  {
    hide Bottom, ThexRoot, Cut, Shaped, Consistent;
    assert SliceStart(i, t.blockSize, file);
  }

  /** So the bytes of the file pass as a part if it is a whole slice, or the last slice from its begin on. */
  lemma RightPartPasses(tiger: Hasher, t: Tree, file: seq<byte>, r: FileRange)
    requires TreeOf(tiger, t, file)
    requires t.blockSize > 0 && InFile(r, |file|) && IsPart(r, |file|, t.blockSize) && r.offset % t.blockSize == 0
    ensures HashAt(t, r) == Some(ThexRoot(tiger, file[r.offset..r.offset + r.length]))
  {
    hide HashAt, ThexRoot, TreeOf;
    var end := if r.offset + t.blockSize < |file| then r.offset + t.blockSize else |file|;
    PartHashIs(tiger, t, file, r, r.offset, end);
  }

  lemma RightRoot(tiger: Hasher, t: Tree, file: seq<byte>)
    requires TreeOf(tiger, t, file)
    ensures RootOf(t) == Some(ThexRoot(tiger, file))
  {
    hide ThexRoot, Describes, Consistent, Covers;
    RootIsDigest(tiger, t.nodes, t.blocks, t.rows, t.blockSize, t.exponent, file);
  }

  // ----- the parts found valid -----

  /** The content of the range has the digest that the tree holds for it. */
  ghost predicate Proves(tiger: Hasher, t: Tree, content: seq<byte>, r: FileRange) {
    && t.blockSize > 0 && InFile(r, |content|) && IsPart(r, |content|, t.blockSize)
    && HashAt(t, r) == Some(ThexRoot(tiger, content[r.offset..r.offset + r.length]))
  }

  ghost predicate Proven(tiger: Hasher, t: Tree, bytes: seq<Status>, content: seq<byte>, parts: set<FileRange>) {
    && |bytes| == |content|
    && (forall r :: r in parts ==> Proves(tiger, t, content, r) && AllAre(bytes, r, VALID))
    && (forall r, q :: r in parts && q in parts && r != q ==> Disjoint(r, q))
  }

  ghost predicate Covered(bytes: seq<Status>, parts: set<FileRange>) {
    forall i :: 0 <= i < |bytes| && bytes[i] == VALID ==> exists r :: r in parts && r.Has(i)
  }

  lemma ProvenKept(tiger: Hasher, t: Tree, bytes: seq<Status>, content: seq<byte>, bytes': seq<Status>, content': seq<byte>, parts: set<FileRange>)
    requires Proven(tiger, t, bytes, content, parts) && Kept(bytes, content, bytes', content')
    ensures Proven(tiger, t, bytes', content', parts)
  {
    forall r | r in parts ensures Proves(tiger, t, content', r) && AllAre(bytes', r, VALID) {
      assert AllAre(bytes, r, VALID) && Proves(tiger, t, content, r);
      assert content'[r.offset..r.offset + r.length] == content[r.offset..r.offset + r.length];
    }
  }

  lemma CoveredKept(bytes: seq<Status>, content: seq<byte>, bytes': seq<Status>, content': seq<byte>, parts: set<FileRange>)
    requires Covered(bytes, parts) && Kept(bytes, content, bytes', content')
    ensures Covered(bytes', parts)
  {
  }

  lemma CommonByte(q: FileRange, r: FileRange) returns (i: nat)
    requires !Disjoint(q, r) && !q.Empty() && !r.Empty()
    ensures q.Has(i) && r.Has(i)
  {
    i := if q.offset > r.offset then q.offset else r.offset;
  }

  /** A part whose digest matches. */
  lemma ProvenMore(tiger: Hasher, t: Tree, bytes: seq<Status>, content: seq<byte>, parts: set<FileRange>, r: FileRange)
    requires Proven(tiger, t, bytes, content, parts) && Proves(tiger, t, content, r) && AllAre(bytes, r, FULL)
    ensures Proven(tiger, t, Overwritten(bytes, r, VALID), content, parts + {r})
  {
    hide IsPart, HashAt, ThexRoot;
    var bytes' := Overwritten(bytes, r, VALID);
    forall q | q in parts ensures AllAre(bytes', q, VALID) && Disjoint(q, r) {
      assert AllAre(bytes, q, VALID) && Proves(tiger, t, content, q);
      if !Disjoint(q, r) {
        var i := CommonByte(q, r);
        assert false;
      }
    }
  }

  lemma CoveredMore(bytes: seq<Status>, parts: set<FileRange>, r: FileRange)
    requires Covered(bytes, parts) && r.offset + r.length <= |bytes|
    ensures Covered(Overwritten(bytes, r, VALID), parts + {r})
  {
    var bytes' := Overwritten(bytes, r, VALID);
    forall i | 0 <= i < |bytes'| && bytes'[i] == VALID ensures exists q :: q in parts + {r} && q.Has(i) {
      if r.Has(i) {
        assert r in parts + {r};
      } else {
        var q :| q in parts && q.Has(i);
        assert q in parts + {r};
      }
    }
  }

  // ----- a file whose parts have all been found valid -----

  /** Parts that cover the file and do not overlap: each of them is a slice. */
  lemma SliceProven(tiger: Hasher, t: Tree, bytes: seq<Status>, content: seq<byte>, parts: set<FileRange>, i: nat)
    requires Proven(tiger, t, bytes, content, parts) && Covered(bytes, parts) && t.blockSize > 0
    requires (forall k :: 0 <= k < |bytes| ==> bytes[k] == VALID) && i * t.blockSize < |content|
    ensures NodeHash(t, |t.nodes| / 2 + i) == Some(ThexRoot(tiger, Cut(content, i * t.blockSize, t.blockSize)))
  {
    var slice, start := t.blockSize, i * t.blockSize;
    assert bytes[start] == VALID;
    var r :| r in parts && r.Has(start);
    BeginsSlice(tiger, t, bytes, content, parts, i, r, start, slice);
    assert Proves(tiger, t, content, r);
    PartNode(t, |content|, r);
    Multiple(i, slice);
    assert content[r.offset..r.offset + r.length] == Cut(content, start, slice);
  }

  lemma BeginsSlice(tiger: Hasher, t: Tree, bytes: seq<Status>, content: seq<byte>, parts: set<FileRange>, i: nat, r: FileRange, start: nat, slice: nat)
    requires Proven(tiger, t, bytes, content, parts) && Covered(bytes, parts)
    requires (forall k :: 0 <= k < |bytes| ==> bytes[k] == VALID) && slice == t.blockSize && start == i * slice
    requires r in parts && r.Has(start)
    ensures r.offset == start
  {
    hide HashAt, IsPart, Proves;
    PartBegins(tiger, t, content, r, i, start, slice);
    if r.offset < start {
      var before := start - slice;
      StepBack(i, slice);
      assert bytes[before] == VALID;
      var q :| q in parts && q.Has(before);
      PartBegins(tiger, t, content, q, i - 1, before, slice);
      assert false;
    }
  }

  lemma StepBack(i: nat, slice: nat)
    requires i > 0
    ensures (i - 1) * slice == i * slice - slice
  {
  }

  /** A part that holds the start of a slice begins there, or it is the end of the file. */
  lemma PartBegins(tiger: Hasher, t: Tree, content: seq<byte>, r: FileRange, i: nat, start: nat, slice: nat)
    requires Proves(tiger, t, content, r) && slice == t.blockSize && start == i * slice && r.Has(start)
    ensures InFile(r, |content|)
    ensures (r.offset == start && r.length == slice) || (r.offset + r.length == |content| && r.length < slice)
    ensures r.offset < start ==> i > 0
  {
    hide HashAt;
    if r.length == slice && r.offset % slice == 0 { SameMultiple(r.offset, i, slice); }
  }

  lemma SameMultiple(offset: nat, i: nat, slice: nat)
    requires slice > 0 && offset % slice == 0 && offset <= i * slice < offset + slice
    ensures offset == i * slice
  {
    var q := offset / slice;
    assert offset == q * slice;
    assert (q + 1) * slice == q * slice + slice;
    if q < i { MulMonotone(q + 1, i, slice); }
    if q > i { MulMonotone(i, q, slice); }
  }

  /** If every byte was found valid in a part whose digest is the one in the tree, the root of
      the tree is the digest of the file. */
  lemma RootProven(tiger: Hasher, t: Tree, bytes: seq<Status>, content: seq<byte>, parts: set<FileRange>)
    requires Accepted(tiger, t, |content|) && Proven(tiger, t, bytes, content, parts) && Covered(bytes, parts)
    requires forall k :: 0 <= k < |bytes| ==> bytes[k] == VALID
    ensures RootOf(t) == Some(ThexRoot(tiger, content))
  {
    hide Proven, Covered, NodeHash, Consistent;
    CoversFile(tiger, t, |content|);
    forall i | 0 <= i < t.blocks
      ensures SliceStart(i, t.blockSize, content)
      ensures Bottom(t.nodes, t.blocks, t.rows)[i] == ThexRoot(tiger, Cut(content, i * t.blockSize, t.blockSize))
    {
      MulMonotone(i, t.blocks - 1, t.blockSize);
      BottomNode(tiger, t, |content|, i);
      SliceProven(tiger, t, bytes, content, parts, i);
    }
    RootIsDigest(tiger, t.nodes, t.blocks, t.rows, t.blockSize, t.exponent, content);
  }

  // ----- what is known along a run -----

  /** Every valid byte lies in a part whose content has the digest in the tree, or the whole file
      has the root digest. */
  ghost predicate Sure(tiger: Hasher, tree: Option<Tree>, root: Option<Digest>, bytes: seq<Status>, content: seq<byte>, parts: set<FileRange>) {
    && |bytes| == |content|
    && (if tree.Some? then Proven(tiger, tree.value, bytes, content, parts) else parts == {})
    && (Covered(bytes, parts) || (root == Some(ThexRoot(tiger, content)) && forall i :: 0 <= i < |bytes| ==> bytes[i] == VALID))
  }

  lemma SureKept(tiger: Hasher, tree: Option<Tree>, root: Option<Digest>, bytes: seq<Status>, content: seq<byte>, parts: set<FileRange>,
                 tree': Option<Tree>, root': Option<Digest>, bytes': seq<Status>, content': seq<byte>)
    requires Sure(tiger, tree, root, bytes, content, parts) && Kept(bytes, content, bytes', content')
    requires (tree.Some? ==> tree' == tree) && (root.Some? ==> root' == root)
    ensures Sure(tiger, tree', root', bytes', content', parts)
  {
    if tree.Some? { ProvenKept(tiger, tree.value, bytes, content, bytes', content', parts); }
    if Covered(bytes, parts) {
      CoveredKept(bytes, content, bytes', content', parts);
    } else {
      assert content' == content;
    }
  }

  /** A part is found valid. */
  lemma SurePart(tiger: Hasher, t: Tree, root: Option<Digest>, bytes: seq<Status>, content: seq<byte>, parts: set<FileRange>, r: FileRange)
    requires Sure(tiger, Some(t), root, bytes, content, parts) && Proves(tiger, t, content, r) && AllAre(bytes, r, FULL)
    ensures Sure(tiger, Some(t), root, Overwritten(bytes, r, VALID), content, parts + {r})
  {
    assert r.Has(r.offset) && bytes[r.offset] == FULL;
    ProvenMore(tiger, t, bytes, content, parts, r);
    CoveredMore(bytes, parts, r);
  }

  /** The whole file is found valid. */
  lemma SureWhole(tiger: Hasher, tree: Option<Tree>, root: Option<Digest>, bytes: seq<Status>, content: seq<byte>, parts: set<FileRange>, r: FileRange)
    requires Sure(tiger, tree, root, bytes, content, parts) && InFile(r, |bytes|) && r.length == |bytes| && AllAre(bytes, r, FULL)
    requires root == Some(ThexRoot(tiger, content[r.offset..r.offset + r.length]))
    ensures Sure(tiger, tree, root, Overwritten(bytes, r, VALID), content, parts)
  {
    assert content[r.offset..r.offset + r.length] == content;
    var bytes' := Overwritten(bytes, r, VALID);
    assert |bytes'| == |bytes| && forall i :: 0 <= i < |bytes| ==> bytes'[i] == VALID;
    if tree.Some? {
      forall q | q in parts ensures false {
        assert Proves(tiger, tree.value, content, q) && AllAre(bytes, q, VALID) && q.Has(q.offset) && r.Has(q.offset);
      }
    }
  }

  /** Then a file whose bytes are all valid has the root digest. */
  lemma SureRoot(tiger: Hasher, tree: Option<Tree>, root: Option<Digest>, bytes: seq<Status>, content: seq<byte>, parts: set<FileRange>)
    requires Sure(tiger, tree, root, bytes, content, parts) && bytes != [] && forall i :: 0 <= i < |bytes| ==> bytes[i] == VALID
    requires tree.Some? ==> Accepted(tiger, tree.value, |bytes|) && root == RootOf(tree.value)
    ensures root == Some(ThexRoot(tiger, content))
  {
    if Covered(bytes, parts) {
      assert bytes[0] == VALID;
      if tree.Some? {
        RootProven(tiger, tree.value, bytes, content, parts);
      } else {
        assert false;
      }
    }
  }

  /** ... and every valid byte has its digest. */
  lemma SureByte(tiger: Hasher, tree: Option<Tree>, root: Option<Digest>, bytes: seq<Status>, content: seq<byte>, parts: set<FileRange>, i: nat)
    requires Sure(tiger, tree, root, bytes, content, parts) && i < |bytes| && bytes[i] == VALID
    ensures root == Some(ThexRoot(tiger, content)) || (tree.Some? && exists r :: Proves(tiger, tree.value, content, r) && r.Has(i))
  {
    if Covered(bytes, parts) {
      var r :| r in parts && r.Has(i);
      assert Proves(tiger, tree.value, content, r);
    }
  }
}
