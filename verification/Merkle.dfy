/** Merkle trees whose odd levels pair their last node with itself, for any pair hash. */
module Merkle {
  import opened Digits
  import opened Options

  // ------------------------------------------------------------------
  // The level walk and the tree it computes.

  /** The level above. */
  function Level<H>(pair: (H, H) -> H, s: seq<H>): (r: seq<H>)
    ensures |r| == (|s| + 1) / 2
  {
    seq((|s| + 1) / 2, i requires 0 <= i < (|s| + 1) / 2 =>
      pair(s[2 * i], if 2 * i + 1 < |s| then s[2 * i + 1] else s[2 * i]))
  }

  ghost function Root<H>(pair: (H, H) -> H, zero: H, s: seq<H>): H
    decreases |s|
  {
    if s == [] then zero else if |s| == 1 then s[0] else Root(pair, zero, Level(pair, s))
  }

  /** The tree of depth k from the top: a half with no leaves of its own repeats the other. */
  ghost function Tree<H>(pair: (H, H) -> H, s: seq<H>, k: nat): H
    requires 1 <= |s| <= Pow(2, k)
    decreases k
  {
    if k == 0 then s[0]
    else
      var half := Pow(2, k - 1);
      if |s| <= half then pair(Tree(pair, s, k - 1), Tree(pair, s, k - 1))
      else pair(Tree(pair, s[..half], k - 1), Tree(pair, s[half..], k - 1))
  }

  lemma LevelConcat<H>(pair: (H, H) -> H, a: seq<H>, b: seq<H>)
    requires |a| % 2 == 0
    ensures Level(pair, a + b) == Level(pair, a) + Level(pair, b)
  {
    var whole, parts := Level(pair, a + b), Level(pair, a) + Level(pair, b);
    assert |whole| == |parts|;
    forall i | 0 <= i < |whole|
      ensures whole[i] == parts[i]
    {
      var h := |a| / 2;
      if i >= h {
        assert (a + b)[2 * i] == b[2 * (i - h)];
      }
    }
  }

  /** One level of the walk is one level of the tree. */
  lemma {:induction false} TreeLevel<H>(pair: (H, H) -> H, s: seq<H>, k: nat)
    requires k > 0 && 1 <= |s| <= Pow(2, k)
    ensures 1 <= |Level(pair, s)| <= Pow(2, k - 1)
    ensures Tree(pair, s, k) == Tree(pair, Level(pair, s), k - 1)
    decreases k
  {
    hide Level, Pow, Tree;
    PowSucc(2, k - 1);
    if k == 1 {
      TreeLevelLow(pair, s);
    } else {
      PowSucc(2, k - 2);
      var half := Pow(2, k - 1);
      var quarter := Pow(2, k - 2);
      if |s| <= half {
        TreeLevel(pair, s, k - 1);
        TreeRepeats(pair, s, k);
        TreeRepeats(pair, Level(pair, s), k - 1);
      } else {
        var left, right := s[..half], s[half..];
        TreeLevel(pair, left, k - 1);
        TreeLevel(pair, right, k - 1);
        LevelConcat(pair, left, right);
        assert s == left + right;
        TreeHalves(pair, s, k);
        TreeHalves(pair, Level(pair, left) + Level(pair, right), k - 1);
        assert (Level(pair, left) + Level(pair, right))[..quarter] == Level(pair, left);
        assert (Level(pair, left) + Level(pair, right))[quarter..] == Level(pair, right);
      }
    }
  }

  lemma TreeRepeats<H>(pair: (H, H) -> H, s: seq<H>, k: nat)
    requires k > 0 && 1 <= |s| <= Pow(2, k - 1) <= Pow(2, k)
    ensures Tree(pair, s, k) == pair(Tree(pair, s, k - 1), Tree(pair, s, k - 1))
  {
    hide Pow;
  }

  lemma TreeHalves<H>(pair: (H, H) -> H, s: seq<H>, k: nat)
    requires k > 0 && Pow(2, k - 1) < |s| <= Pow(2, k) == 2 * Pow(2, k - 1) && Pow(2, k - 1) > 0
    ensures var half := Pow(2, k - 1);
            Tree(pair, s, k) == pair(Tree(pair, s[..half], k - 1), Tree(pair, s[half..], k - 1))
  {
    hide Pow;
  }

  lemma TreeLevelLow<H>(pair: (H, H) -> H, s: seq<H>)
    requires 1 <= |s| <= Pow(2, 1)
    ensures |Level(pair, s)| == 1 && Tree(pair, s, 1) == Tree(pair, Level(pair, s), 0)
  {
    assert Pow(2, 1) == 2 && Pow(2, 0) == 1;
  }

  // ------------------------------------------------------------------
  // Depth.

  /** The least k with n <= 2^k. */
  ghost function CeilLog2(n: nat): (k: nat)
    requires n >= 1
    ensures n <= Pow(2, k) && (k > 0 ==> Pow(2, k - 1) < n)
  {
    if n == 1 then 0 else CeilLog2((n + 1) / 2) + 1
  }

  /** The walk computes the tree of least depth. */
  lemma {:induction false} RootIsTree<H>(pair: (H, H) -> H, zero: H, s: seq<H>)
    requires s != []
    ensures Root(pair, zero, s) == Tree(pair, s, CeilLog2(|s|))
    decreases |s|
  {
    hide Pow, Level;
    if |s| == 1 {
      assert CeilLog2(1) == 0;
    } else {
      var up := Level(pair, s);
      RootIsTree(pair, zero, up);
      assert CeilLog2(|s|) == CeilLog2(|up|) + 1;
      TreeLevel(pair, s, CeilLog2(|s|));
    }
  }

  method RootAndInnerNodes<H>(pair: (H, H) -> H, zero: H, leaves: seq<H>) returns (root: H, innerNodes: nat)
    ensures root == Root(pair, zero, leaves)
    ensures innerNodes == InnerNodes(|leaves|)
    ensures leaves != [] ==> root == Tree(pair, leaves, CeilLog2(|leaves|))
  {
    if leaves != [] {
      RootIsTree(pair, zero, leaves);
    }
    var level := leaves;
    innerNodes := 0;
    while |level| > 1
      invariant Root(pair, zero, level) == Root(pair, zero, leaves)
      invariant innerNodes + InnerNodes(|level|) == InnerNodes(|leaves|)
      decreases |level|
    {
      level := Level(pair, level);
      innerNodes := innerNodes + |level|;
    }
    root := if |level| > 0 then level[0] else zero;
  }

  // ------------------------------------------------------------------
  // Counting.

  ghost function InnerNodes(n: nat): nat
  {
    if n <= 1 then 0 else (n + 1) / 2 + InnerNodes((n + 1) / 2)
  }

  method InnerNodesOf(leaves: nat) returns (innerNodes: nat)
    ensures innerNodes == InnerNodes(leaves)
    ensures leaves >= 1 ==> innerNodes <= leaves - 1 + CeilLog2(leaves)
  {
    if leaves >= 1 {
      InnerNodesBound(leaves);
    }
    var nodes := leaves;
    innerNodes := 0;
    while nodes > 1
      invariant innerNodes + InnerNodes(nodes) == InnerNodes(leaves)
    {
      nodes := (nodes + 1) / 2;
      innerNodes := innerNodes + nodes;
    }
  }

  /** A tree of n leaves has at least n - 1 inner nodes and at most one more for each level. */
  lemma {:induction false} InnerNodesBound(n: nat)
    requires n >= 1
    ensures n - 1 <= InnerNodes(n) <= n - 1 + CeilLog2(n)
  {
    if n > 1 {
      InnerNodesBound((n + 1) / 2);
    }
  }

  /** The least is met exactly by the trees without an odd level, those of 2^k leaves. */
  lemma {:induction false} InnerNodesLeast(n: nat)
    requires n >= 1
    ensures InnerNodes(n) == n - 1 <==> n == Pow(2, CeilLog2(n))
  {
    if n > 1 {
      InnerNodesLeast((n + 1) / 2);
      InnerNodesBound((n + 1) / 2);
    }
  }

  // ------------------------------------------------------------------
  // Repeated tails.

  /** `after` is `before` with its last 2^j elements repeated, where j is the first odd level. */
  ghost predicate RepeatsTail<T>(before: seq<T>, after: seq<T>, j: nat, odd: nat)
  {
    && odd % 2 == 1 && odd >= 3 && |before| == Times(Pow(2, j), odd) && Pow(2, j) <= |before|
    && after == before + before[|before| - Pow(2, j)..]
  }

  lemma OddLevel<H>(pair: (H, H) -> H, s: seq<H>)
    requires |s| % 2 == 1
    ensures Level(pair, s + [s[|s| - 1]]) == Level(pair, s)
  {
    var more := s + [s[|s| - 1]];
    assert forall i :: 0 <= i < (|s| + 1) / 2 ==> Level(pair, more)[i] == Level(pair, s)[i];
  }

  /** Repeating the tail keeps the root, for every pair hash. */
  lemma {:induction false} RepeatedTailRoot<H>(pair: (H, H) -> H, zero: H, s: seq<H>, rep: seq<H>, j: nat, odd: nat)
    requires RepeatsTail(s, rep, j, odd)
    ensures |rep| > |s| && Root(pair, zero, rep) == Root(pair, zero, s)
    decreases j
  {
    hide Pow, Level, Times;
    if j == 0 {
      PowNone(odd);
      OddLevel(pair, s);
      assert rep == s + [s[|s| - 1]];
    } else {
      PowSucc(2, j - 1);
      var w := Pow(2, j - 1);
      var cut := |s| - 2 * w;
      Doubled(w, odd);
      AtLeast(w, odd);
      RepeatedTailLevel(pair, s, cut);
      RepeatedTailRoot(pair, zero, Level(pair, s), Level(pair, rep), j - 1, odd);
    }
  }

  lemma PowNone(odd: nat)
    ensures Pow(2, 0) == 1 && Times(1, odd) == odd
  {}

  lemma RepeatedTailLevel<H>(pair: (H, H) -> H, s: seq<H>, cut: nat)
    requires cut <= |s| && |s| % 2 == 0 && cut % 2 == 0
    ensures Level(pair, s + s[cut..]) == Level(pair, s) + Level(pair, s)[cut / 2..]
  {
    hide Level;
    LevelConcat(pair, s[..cut], s[cut..]);
    assert s == s[..cut] + s[cut..];
    LevelConcat(pair, s, s[cut..]);
    assert Level(pair, s)[cut / 2..] == Level(pair, s[cut..]);
  }

  function Times(a: nat, b: nat): nat
  {
    a * b
  }

  lemma Doubled(w: nat, n: nat)
    ensures Times(2 * w, n) == 2 * Times(w, n) == Times(w, 2 * n)
  {}

  lemma AtLeast(w: nat, n: nat)
    requires n >= 1
    ensures w <= Times(w, n)
  {
    MulMono(w, w, 1, n);
  }

  ghost function Leaves<T, H>(leaf: T -> H, txs: seq<T>): (r: seq<H>)
    ensures |r| == |txs|
  {
    seq(|txs|, i requires 0 <= i < |txs| => leaf(txs[i]))
  }

  /** Transactions with their tail repeated have the merkle root they had without. */
  lemma RepeatedTailTransactions<T, H>(leaf: T -> H, pair: (H, H) -> H, zero: H, txs: seq<T>, rep: seq<T>, j: nat,
                                       odd: nat)
    requires RepeatsTail(txs, rep, j, odd)
    ensures Root(pair, zero, Leaves(leaf, rep)) == Root(pair, zero, Leaves(leaf, txs))
  {
    hide Pow, Times, Root;
    var s, w := Leaves(leaf, txs), Pow(2, j);
    assert Leaves(leaf, rep) == s + s[|s| - w..];
    RepeatedTailRoot(pair, zero, s, Leaves(leaf, rep), j, odd);
  }

  ghost predicate PowerOfTwo(n: nat)
  {
    exists k :: n == Pow(2, k)
  }

  /** The leaves with their tail repeated at the first odd level, if there is one: there is none
      exactly for no leaves and for a power of two of them. */
  method WithRepeatedTail<T>(txs: seq<T>) returns (r: Option<seq<T>>, ghost j: nat, ghost odd: nat)
    ensures r.None? <==> txs == [] || PowerOfTwo(|txs|)
    ensures r.Some? ==> |r.value| > |txs| && r.value[..|txs|] == txs && RepeatsTail(txs, r.value, j, odd)
  {
    hide Pow, Times;
    var nodes: nat, width: nat := |txs|, 1;
    j := 0;
    PowNone(nodes);
    while nodes > 0 && nodes % 2 == 0
      invariant width == Pow(2, j) && |txs| == Times(width, nodes)
      invariant txs == [] <==> nodes == 0
      decreases nodes
    {
      Doubled(width, nodes / 2);
      PowSucc(2, j);
      nodes := nodes / 2;
      width := width * 2;
      j := j + 1;
    }
    odd := nodes;
    if nodes >= 3 {
      AtLeast(width, nodes);
      r := Some(txs + txs[|txs| - width..]);
      forall k: nat
        ensures |txs| != Pow(2, k)
      {
        PowerHasNoTail(k, j, nodes);
      }
    } else {
      Single(width);
      r := None;
    }
  }

  lemma Single(w: nat)
    ensures Times(w, 1) == w
  {}

  /** A tail is repeated exactly when some level is odd: a power of two has none. */
  lemma {:induction false} PowerHasNoTail(k: nat, j: nat, odd: nat)
    requires odd % 2 == 1 && odd >= 3
    ensures Pow(2, k) != Times(Pow(2, j), odd)
    decreases k
  {
    if k == 0 {
      MulMono(1, Pow(2, j), 3, odd);
    } else if j > 0 {
      PowerHasNoTail(k - 1, j - 1, odd);
      Doubled(Pow(2, j - 1), odd);
    }
  }
}
