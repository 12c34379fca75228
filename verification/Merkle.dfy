/** Merkle combination over any kind of node: the level-by-level root with odd-node promotion,
    and the stack of perfect subtrees that a streaming implementation keeps instead. */
module Merkle {
  import opened Powers

  type Combine<!D> = (D, D) -> D

  /** One level up: neighbours are combined, an odd last node is promoted unchanged. */
  function PairUp<D>(node: Combine<D>, hs: seq<D>): (up: seq<D>)
    ensures |hs| <= 2 * |up| <= |hs| + 1
    decreases |hs|
  {
    if |hs| < 2 then hs else [node(hs[0], hs[1])] + PairUp(node, hs[2..])
  }

  function Root<D>(node: Combine<D>, hs: seq<D>): D
    requires hs != []
    decreases |hs|
  {
    if |hs| == 1 then hs[0] else Root(node, PairUp(node, hs))
  }

  lemma RootOfTwo<D>(node: Combine<D>, hs: seq<D>)
    requires |hs| == 2
    ensures Root(node, hs) == node(hs[0], hs[1])
  {
    assert PairUp(node, hs) == [node(hs[0], hs[1])];
  }

  lemma {:induction false} PairUpAt<D>(node: Combine<D>, hs: seq<D>, i: nat)
    requires 2 * i < |hs|
    ensures PairUp(node, hs)[i] == if 2 * i + 1 < |hs| then node(hs[2 * i], hs[2 * i + 1]) else hs[2 * i]
    decreases i
  {
    if i > 0 { PairUpAt(node, hs[2..], i - 1); }
  }

  lemma {:induction false} PairUpAppendEven<D>(node: Combine<D>, hs: seq<D>, h: D)
    requires |hs| % 2 == 0
    ensures PairUp(node, hs + [h]) == PairUp(node, hs) + [h]
    decreases |hs|
  {
    if hs != [] {
      assert (hs + [h])[2..] == hs[2..] + [h];
      PairUpAppendEven(node, hs[2..], h);
    }
  }

  lemma {:induction false} PairUpAppendOdd<D>(node: Combine<D>, hs: seq<D>, h: D)
    requires |hs| % 2 == 1
    ensures PairUp(node, hs + [h]) == PairUp(node, hs[..|hs| - 1]) + [node(hs[|hs| - 1], h)]
    decreases |hs|
  {
    if |hs| > 1 {
      assert (hs + [h])[2..] == hs[2..] + [h];
      assert hs[..|hs| - 1][2..] == hs[2..][..|hs| - 3];
      PairUpAppendOdd(node, hs[2..], h);
    }
  }

  // ----- the stack -----

  /** What remains on the stack once the leaves hs have been pushed: the leaves pair up, and
      an unpaired last leaf stays on top of the stack of the pairs. */
  function Stack<D>(node: Combine<D>, hs: seq<D>): (s: seq<D>)
    ensures |s| == PopCount(|hs|)
    decreases |hs|
  {
    if hs == [] then []
    else if |hs| % 2 == 0 then Stack(node, PairUp(node, hs))
    else Stack(node, PairUp(node, hs[..|hs| - 1])) + [hs[|hs| - 1]]
  }

  /** Pushing h on a stack of n leaves, carrying like a binary increment. */
  function Push<D>(node: Combine<D>, s: seq<D>, n: nat, h: D): seq<D>
    requires |s| == PopCount(n)
    decreases n
  {
    if n % 2 == 0 then s + [h]
    else Push(node, s[..|s| - 1], n / 2, node(s[|s| - 1], h))
  }

  /** Folding the stack from the top down onto an accumulated right-hand node. */
  function Collapse<D>(node: Combine<D>, s: seq<D>, acc: D): D {
    if s == [] then acc else Collapse(node, s[..|s| - 1], node(s[|s| - 1], acc))
  }

  function Fold<D>(node: Combine<D>, s: seq<D>): D
    requires s != []
  {
    Collapse(node, s[..|s| - 1], s[|s| - 1])
  }

  lemma StackOfOdd<D>(node: Combine<D>, front: seq<D>, last: D)
    requires |front| % 2 == 0
    ensures Stack(node, front + [last]) == Stack(node, PairUp(node, front)) + [last]
  {
    var hs := front + [last];
    Halves(|front|);
    assert hs != [] && |hs| % 2 == 1 && hs[..|hs| - 1] == front && hs[|hs| - 1] == last;
    assert Stack(node, hs) == Stack(node, PairUp(node, hs[..|hs| - 1])) + [hs[|hs| - 1]];
  }

  lemma StackOfEven<D>(node: Combine<D>, hs: seq<D>)
    requires |hs| % 2 == 0
    ensures Stack(node, hs) == Stack(node, PairUp(node, hs))
  {
  }

  lemma {:induction false} StackPush<D>(node: Combine<D>, hs: seq<D>, h: D)
    ensures Stack(node, hs + [h]) == Push(node, Stack(node, hs), |hs|, h)
    decreases |hs|
  {
    hide Stack, PairUp, PopCount;
    var n, half := |hs|, |hs| / 2;
    if n % 2 == 0 {
      StackOfEven(node, hs);
      StackOfOdd(node, hs, h);
    } else {
      assert n == 2 * half + 1;
      var front, last := hs[..n - 1], hs[n - 1];
      var below := PairUp(node, front);
      assert hs == front + [last] && |below| == half;
      Halves(2 * half);
      StackOfOdd(node, front, last);
      PairUpAppendOdd(node, hs, h);
      Halves(n);
      StackOfEven(node, hs + [h]);
      assert Stack(node, hs + [h]) == Stack(node, below + [node(last, h)]);
      StackPush(node, below, node(last, h));
      assert Stack(node, hs)[..|Stack(node, hs)| - 1] == Stack(node, below);
    }
  }

  /** The stack of hs folded onto a last node is the root of hs followed by that node. */
  lemma {:induction false} CollapseStack<D>(node: Combine<D>, hs: seq<D>, acc: D)
    ensures Collapse(node, Stack(node, hs), acc) == Root(node, hs + [acc])
    decreases |hs|
  {
    var n := |hs|;
    if n == 0 {
    } else if n % 2 == 0 {
      PairUpAppendEven(node, hs, acc);
      CollapseStack(node, PairUp(node, hs), acc);
    } else {
      var front, last := hs[..n - 1], hs[n - 1];
      assert hs == front + [last];
      StackOfOdd(node, front, last);
      PairUpAppendOdd(node, hs, acc);
      CollapseStack(node, PairUp(node, front), node(last, acc));
      assert Stack(node, hs)[..|Stack(node, hs)| - 1] == Stack(node, PairUp(node, front));
    }
  }

  /** Folding a whole nonempty stack gives the level-by-level root of the leaves. */
  lemma {:induction false} StackRoot<D>(node: Combine<D>, hs: seq<D>)
    requires hs != []
    ensures Stack(node, hs) != [] && Fold(node, Stack(node, hs)) == Root(node, hs)
    decreases |hs|
  {
    var n := |hs|;
    PopCountPositive(n);
    if n % 2 == 0 {
      StackRoot(node, PairUp(node, hs));
    } else {
      var front, last := hs[..n - 1], hs[n - 1];
      var below := PairUp(node, front);
      assert hs == front + [last];
      StackOfOdd(node, front, last);
      CollapseStack(node, below, last);
      PairUpAppendEven(node, front, last);
      assert Stack(node, hs)[..|Stack(node, hs)| - 1] == Stack(node, below);
    }
  }

  // ----- aligned runs of leaves -----

  /** `width` leaves from `first` on, cut short at the end of the leaves. */
  function Cut<D>(hs: seq<D>, first: nat, width: nat): seq<D>
    requires first <= |hs|
  {
    hs[first..if first + width <= |hs| then first + width else |hs|]
  }

  lemma CutShift<D>(hs: seq<D>, first: nat, width: nat)
    requires first <= |hs|
    ensures Cut(hs, first, width) == Cut(hs[first..], 0, width)
  {
  }

  /** The aligned run of 2^k leaves number `run`. */
  function Run<D>(hs: seq<D>, k: nat, run: nat): (leaves: seq<D>)
    requires run * Pow2(k) < |hs|
    ensures leaves != []
  {
    Cut(hs, run * Pow2(k), Pow2(k))
  }

  /** k levels up from the leaves. */
  function Levels<D>(node: Combine<D>, hs: seq<D>, k: nat): seq<D>
    decreases k
  {
    if k == 0 then hs else Levels(node, PairUp(node, hs), k - 1)
  }

  /** Leaves behind an even number of leaves pair up among themselves. */
  lemma {:induction false} PairUpConcat<D>(node: Combine<D>, a: seq<D>, half: nat, b: seq<D>)
    requires |a| == 2 * half
    ensures |PairUp(node, a)| == half
    ensures PairUp(node, a + b) == PairUp(node, a) + PairUp(node, b)
    decreases half
  {
    if half == 0 {
      assert a == [] && a + b == b;
    } else {
      var pair, rest, all := node(a[0], a[1]), a[2..], a + b;
      assert all[2..] == rest + b && all[0] == a[0] && all[1] == a[1];
      PairUpConcat(node, rest, half - 1, b);
      assert PairUp(node, all) == [pair] + PairUp(node, rest + b);
      assert PairUp(node, a) == [pair] + PairUp(node, rest);
    }
  }

  lemma CutOfPairs<D>(node: Combine<D>, hs: seq<D>, first: nat, width: nat)
    requires 2 * first <= |hs|
    ensures first <= |PairUp(node, hs)|
    ensures Cut(PairUp(node, hs), first, width) == PairUp(node, Cut(hs, 2 * first, 2 * width))
  {
    var up, skipped := PairUp(node, hs), 2 * first;
    var before, leaves := hs[..skipped], hs[skipped..];
    assert hs == before + leaves;
    PairUpConcat(node, before, first, leaves);
    assert up[first..] == PairUp(node, leaves);
    CutPrefix(node, leaves, width);
    CutShift(hs, skipped, 2 * width);
    CutShift(up, first, width);
  }

  lemma CutPrefix<D>(node: Combine<D>, hs: seq<D>, width: nat)
    ensures Cut(PairUp(node, hs), 0, width) == PairUp(node, Cut(hs, 0, 2 * width))
  {
    var twice := 2 * width;
    if twice <= |hs| {
      var mine, others := hs[..twice], hs[twice..];
      assert hs == mine + others;
      PairUpConcat(node, mine, width, others);
    } else {
      assert |PairUp(node, hs)| <= width && Cut(hs, 0, twice) == hs;
    }
  }

  lemma RunOfPairs<D>(node: Combine<D>, hs: seq<D>, k: nat, run: nat)
    requires run * Pow2(k + 1) < |hs|
    ensures run * Pow2(k) < |PairUp(node, hs)|
    ensures Run(PairUp(node, hs), k, run) == PairUp(node, Run(hs, k + 1, run))
  {
    assert run * Pow2(k + 1) == 2 * (run * Pow2(k));
    CutOfPairs(node, hs, run * Pow2(k), Pow2(k));
  }

  /** k levels up, node i is the root of its aligned run of 2^k leaves. */
  lemma {:induction false} LevelsAreRunRoots<D>(node: Combine<D>, hs: seq<D>, k: nat, i: nat)
    requires i * Pow2(k) < |hs|
    ensures i < |Levels(node, hs, k)| && Levels(node, hs, k)[i] == Root(node, Run(hs, k, i))
    decreases k
  {
    if k == 0 {
      assert Run(hs, 0, i) == [hs[i]];
    } else {
      RunOfPairs(node, hs, k - 1, i);
      LevelsAreRunRoots(node, PairUp(node, hs), k - 1, i);
    }
  }

  lemma {:induction false} LevelsLength<D>(node: Combine<D>, hs: seq<D>, k: nat)
    ensures |hs| <= |Levels(node, hs, k)| * Pow2(k) < |hs| + Pow2(k)
    decreases k
  {
    if k > 0 {
      LevelsLength(node, PairUp(node, hs), k - 1);
      Doubled(|Levels(node, hs, k)|, Pow2(k - 1));
    }
  }

  lemma Doubled(rows: nat, p: nat)
    ensures rows * (2 * p) == 2 * (rows * p)
  {
  }

  lemma {:induction false} LevelsCompose<D>(node: Combine<D>, hs: seq<D>, k: nat, m: nat)
    ensures Levels(node, Levels(node, hs, k), m) == Levels(node, hs, k + m)
    decreases k
  {
    if k > 0 { LevelsCompose(node, PairUp(node, hs), k - 1, m); }
  }

  lemma {:induction false} LevelsKeepRoot<D>(node: Combine<D>, hs: seq<D>, k: nat)
    requires hs != []
    ensures Levels(node, hs, k) != [] && Root(node, Levels(node, hs, k)) == Root(node, hs)
    decreases k
  {
    if k > 0 { LevelsKeepRoot(node, PairUp(node, hs), k - 1); }
  }

  /** A run that ends before the last leaf is full and unaffected by later leaves. */
  lemma FullRun<D>(hs: seq<D>, more: seq<D>, k: nat, run: nat)
    requires (run + 1) * Pow2(k) <= |hs|
    ensures run * Pow2(k) < |hs| && |Run(hs, k, run)| == Pow2(k)
    ensures run * Pow2(k) < |hs + more| && Run(hs + more, k, run) == Run(hs, k, run)
  {
    assert (run + 1) * Pow2(k) == run * Pow2(k) + Pow2(k);
  }

  /** The stack holds one root for every 1 bit of the number of leaves: if bit k is set, then
      above the roots of all longer runs (one for each 1 bit of run / 2, the bits above k)
      lies the root of the 2^k leaves that follow theirs. */
  lemma {:induction false} StackHoldsRunRoots<D>(node: Combine<D>, hs: seq<D>, k: nat, run: nat)
    requires run % 2 == 0 && (run + 1) * Pow2(k) <= |hs| < (run + 2) * Pow2(k)
    ensures PopCount(run / 2) < |Stack(node, hs)|
    ensures run * Pow2(k) < |hs| && |Run(hs, k, run)| == Pow2(k)
    ensures Stack(node, hs)[PopCount(run / 2)] == Root(node, Run(hs, k, run))
    decreases k
  {
    if k == 0 {
      FullRun(hs, [], k, run);
      StackTop(node, hs);
      assert run == |hs| - 1 && Run(hs, 0, run) == [hs[run]];
    } else {
      HalfStretch(|hs|, k, run + 1);
      var paired, rest := PairedLeaves(node, hs);
      PairedRun(node, paired, rest, k, run);
      StackHoldsRunRoots(node, PairUp(node, paired), k - 1, run);
    }
  }

  lemma PairedRun<D>(node: Combine<D>, paired: seq<D>, rest: seq<D>, k: nat, run: nat)
    requires k > 0 && (run + 1) * Pow2(k) <= |paired|
    ensures run * Pow2(k) < |paired + rest| && run * Pow2(k - 1) < |PairUp(node, paired)|
    ensures |Run(paired + rest, k, run)| == Pow2(k)
    ensures Root(node, Run(paired + rest, k, run)) == Root(node, Run(PairUp(node, paired), k - 1, run))
  {
    FullRun(paired, rest, k, run);
    RunOfPairs(node, paired, k - 1, run);
  }

  lemma StackTop<D>(node: Combine<D>, hs: seq<D>)
    requires |hs| % 2 == 1
    ensures PopCount((|hs| - 1) / 2) == |Stack(node, hs)| - 1
    ensures Stack(node, hs)[|Stack(node, hs)| - 1] == hs[|hs| - 1]
  {
    assert hs == hs[..|hs| - 1] + [hs[|hs| - 1]];
    Halves(|hs| - 1);
    StackOfOdd(node, hs[..|hs| - 1], hs[|hs| - 1]);
  }

  /** The stack of the paired leaves is the lower part of the stack. */
  lemma PairedLeaves<D>(node: Combine<D>, hs: seq<D>) returns (paired: seq<D>, rest: seq<D>)
    ensures hs == paired + rest && |paired| == 2 * (|hs| / 2)
    ensures Stack(node, PairUp(node, paired)) <= Stack(node, hs)
  {
    if |hs| % 2 == 0 {
      paired, rest := hs, [];
      if hs == [] { assert PairUp(node, hs) == []; }
    } else {
      paired, rest := hs[..|hs| - 1], [hs[|hs| - 1]];
      Halves(|paired|);
      StackOfOdd(node, paired, rest[0]);
    }
  }
}
