/**
 * The one tree all three implementations refine: leaves at level 0 padded with zeros without end, and every node
 * above them the hash of its two children.
 */
module MerkleSpec {
  import opened Arithmetic
  import opened Bn254
  import opened Poseidon

  /** Value of an all-zero subtree of the given height. */
  function Zero(hash: Hash, level: nat): nat {
    if level == 0 then 0 else var z := Zero(hash, level - 1); hash(Two(z, z))
  }

  /** Value of node `i` at `level`. */
  function Node(hash: Hash, leaves: seq<nat>, level: nat, i: nat): nat
    decreases level
  {
    if level == 0 then
      if i < |leaves| then leaves[i] else 0
    else
      hash(Children(hash, leaves, level, i))
  }

  /** The hash evaluation that produces node `i` at `level`. */
  function Children(hash: Hash, leaves: seq<nat>, level: nat, i: nat): Query
    requires level > 0
    decreases level, 0
  {
    Two(Node(hash, leaves, level - 1, 2 * i), Node(hash, leaves, level - 1, 2 * i + 1))
  }

  function Root(hash: Hash, leaves: seq<nat>, height: nat): nat {
    Node(hash, leaves, height, 0)
  }

  /** Index of the ancestor of leaf `i` at `level`. */
  function Ancestor(i: nat, level: nat): nat {
    if level == 0 then i else Ancestor(i, level - 1) / 2
  }

  /** How many nodes of a level have at least one of the first `n` leaves below them. */
  function Width(n: nat, level: nat): nat {
    if level == 0 then n else (Width(n, level - 1) + 1) / 2
  }

  /** The sibling of node `i` of a level. */
  function Sibling(i: nat): nat {
    if i % 2 == 0 then i + 1 else i - 1
  }

  /** The circuit's fold: bit k of the index says on which side the running hash goes at level k. */
  function Fold(hash: Hash, leaf: nat, path: seq<nat>, index: nat): nat
    decreases |path|
  {
    if path == [] then leaf
    else Fold(hash, hash(Switch(leaf, path[0], index)), path[1..], index / 2)
  }

  function Switch(cur: nat, sibling: nat, index: nat): Query {
    if index % 2 == 0 then Two(cur, sibling) else Two(sibling, cur)
  }

  /** The siblings on the way from a node at `level` up to `height`, lowest first. */
  function PathFrom(hash: Hash, leaves: seq<nat>, i: nat, level: nat, height: nat): (path: seq<nat>)
    requires level <= height
    ensures |path| == height - level
    decreases height - level
  {
    if level == height then []
    else [Node(hash, leaves, level, Sibling(i))] + PathFrom(hash, leaves, i / 2, level + 1, height)
  }

  function Path(hash: Hash, leaves: seq<nat>, i: nat, height: nat): (path: seq<nat>)
    ensures |path| == height
  {
    PathFrom(hash, leaves, i, 0, height)
  }

  /** The smallest trees, spelled out: the left leaf is hashed first, and what is missing counts as zero. */
  lemma SmallestTrees(hash: Hash, a: nat, b: nat)
    ensures Root(hash, [a], 0) == a
    ensures Root(hash, [a, b], 1) == hash(Two(a, b)) && Root(hash, [a], 1) == hash(Two(a, 0))
    ensures Root(hash, [], 2) == Zero(hash, 2) == hash(Two(hash(Two(0, 0)), hash(Two(0, 0))))
    ensures Fold(hash, a, [b], 0) == hash(Two(a, b)) && Fold(hash, a, [b], 1) == hash(Two(b, a))
  {
    assert Zero(hash, 1) == hash(Two(0, 0));
    assert Node(hash, [], 1, 0) == hash(Two(0, 0)) == Node(hash, [], 1, 1);
    assert [b][1..] == [];
  }

  // ---------- index arithmetic ----------

  /** The ancestor's index is the leaf's, divided by the number of leaves below a node of the level. */
  lemma {:induction false} AncestorIsQuotient(i: nat, level: nat)
    ensures Ancestor(i, level) == i / Pow2(level)
  {
    if level > 0 {
      AncestorIsQuotient(i, level - 1);
      HalvedQuotient(i, Pow2(level - 1));
    }
  }

  lemma HalvedQuotient(i: nat, k: nat)
    requires k > 0
    ensures i / k / 2 == i / (2 * k)
  {
    assert i == (i / k) * k + i % k;
    HalvedParts(i, i / k / 2, i / k % 2, k, i % k);
  }

  lemma HalvedParts(i: nat, h: nat, odd: nat, k: nat, r: nat)
    requires i == (2 * h + odd) * k + r && odd <= 1 && r < k
    ensures i / (2 * k) == h
  {
    Pairs(h, k, r, odd);
    if odd == 0 {
      DivModUnique(i, h, 2 * k, r);
    } else {
      DivModUnique(i, h, 2 * k, k + r);
    }
  }

  lemma Pairs(h: nat, k: nat, r: nat, odd: nat)
    ensures (2 * h + odd) * k + r == h * (2 * k) + (odd * k + r)
  {
  }

  /** Appending a leaf moves the ancestor of the append position by at most one, and only from an odd child. */
  lemma {:induction false} AncestorSucc(n: nat, level: nat)
    ensures Ancestor(n + 1, level) == Ancestor(n, level) || Ancestor(n + 1, level) == Ancestor(n, level) + 1
  {
    if level > 0 {
      AncestorSucc(n, level - 1);
    }
  }

  lemma {:induction false} WidthSucc(n: nat, level: nat)
    ensures Width(n + 1, level) == Ancestor(n, level) + 1
  {
    if level > 0 {
      WidthSucc(n, level - 1);
    }
  }

  lemma {:induction false} AncestorAtMostWidth(n: nat, level: nat)
    ensures Ancestor(n, level) <= Width(n, level) <= Ancestor(n, level) + 1
  {
    if level > 0 {
      AncestorAtMostWidth(n, level - 1);
    }
  }

  lemma {:induction false} AncestorMonotone(m: nat, n: nat, level: nat)
    requires m <= n
    ensures Ancestor(m, level) <= Ancestor(n, level)
  {
    if level > 0 {
      AncestorMonotone(m, n, level - 1);
    }
  }

  lemma {:induction false} AncestorOfZero(level: nat)
    ensures Ancestor(0, level) == 0 && Width(0, level) == 0
  {
    if level > 0 {
      AncestorOfZero(level - 1);
    }
  }

  lemma {:induction false} AncestorHalf(i: nat, level: nat)
    ensures Ancestor(i / 2, level) == Ancestor(i, level + 1)
  {
    if level > 0 {
      AncestorHalf(i, level - 1);
    }
  }

  /** An index that fits the tree has the root as its top ancestor. */
  lemma {:induction false} AncestorTop(i: nat, height: nat)
    ensures Ancestor(i, height) == 0 <==> i < Pow2(height)
  {
    if height > 0 {
      AncestorTop(i / 2, height - 1);
      AncestorHalf(i, height - 1);
    }
  }

  // ---------- shape of the padded tree ----------

  /** A node with no leaf below it is the zero of its level. */
  lemma {:induction false} EmptyNode(hash: Hash, leaves: seq<nat>, level: nat, i: nat)
    requires i >= Width(|leaves|, level)
    ensures Node(hash, leaves, level, i) == Zero(hash, level)
  {
    if level > 0 {
      EmptyNode(hash, leaves, level - 1, 2 * i);
      EmptyNode(hash, leaves, level - 1, 2 * i + 1);
    }
  }

  /** A node whose leaves are all below `n` depends on the first `n` leaves only. */
  lemma {:induction false} CompleteNode(hash: Hash, a: seq<nat>, b: seq<nat>, n: nat, level: nat, i: nat)
    requires n <= |a| && n <= |b| && a[..n] == b[..n]
    requires i < Ancestor(n, level)
    ensures Node(hash, a, level, i) == Node(hash, b, level, i)
  {
    if level == 0 {
      assert a[..n][i] == b[..n][i];
    } else {
      CompleteNode(hash, a, b, n, level - 1, 2 * i);
      CompleteNode(hash, a, b, n, level - 1, 2 * i + 1);
    }
  }

  // ---------- paths ----------

  /** Folding the sibling path from a node reaches that node's ancestor. */
  lemma {:induction false} FoldPathFrom(hash: Hash, leaves: seq<nat>, i: nat, level: nat, height: nat)
    requires level <= height
    ensures Fold(hash, Node(hash, leaves, level, i), PathFrom(hash, leaves, i, level, height), i)
         == Node(hash, leaves, height, Ancestor(i, height - level))
    decreases height - level
  {
    if level < height {
      var path := PathFrom(hash, leaves, i, level, height);
      var cur := Node(hash, leaves, level, i);
      assert path[1..] == PathFrom(hash, leaves, i / 2, level + 1, height);
      assert Switch(cur, path[0], i) == Children(hash, leaves, level + 1, i / 2);
      FoldPathFrom(hash, leaves, i / 2, level + 1, height);
      AncestorHalf(i, height - level - 1);
    }
  }

  /** Membership completeness: the path of a leaf position folds from that leaf to the root. */
  lemma FoldPath(hash: Hash, leaves: seq<nat>, i: nat, height: nat)
    requires i < |leaves| && i < Pow2(height)
    ensures Fold(hash, leaves[i], Path(hash, leaves, i, height), i) == Root(hash, leaves, height)
  {
    FoldPathFrom(hash, leaves, i, 0, height);
    AncestorTop(i, height);
  }

  /** The k-th hash evaluation of a fold. */
  function FoldQuery(hash: Hash, leaf: nat, path: seq<nat>, index: nat, k: nat): Query
    requires k < |path|
    decreases k
  {
    if k == 0 then Switch(leaf, path[0], index)
    else FoldQuery(hash, hash(Switch(leaf, path[0], index)), path[1..], index / 2, k - 1)
  }

  /**
   * Membership soundness. A path that folds from `leaf` to a node of the tree starts at the tree's own node, or
   * else the fold and the tree meet in two different inputs with equal hashes, and the lemma returns them: level
   * `k` of the fold and the node it should have met there.
   */
  lemma {:induction false} FoldSound(hash: Hash, leaves: seq<nat>, leaf: nat, path: seq<nat>, index: nat, level: nat)
    returns (k: nat)
    requires Fold(hash, leaf, path, index) == Node(hash, leaves, level + |path|, Ancestor(index, |path|))
    ensures leaf == Node(hash, leaves, level, index)
         || (k < |path| && Collides(hash, FoldQuery(hash, leaf, path, index, k),
                                    Children(hash, leaves, level + k + 1, Ancestor(index, k + 1))))
    decreases |path|
  {
    if path == [] {
      return 0;
    }
    var first := Switch(leaf, path[0], index);
    var rest, half := path[1..], index / 2;
    AncestorHalf(index, |rest|);
    var j := FoldSound(hash, leaves, hash(first), rest, half, level + 1);
    if hash(first) == Node(hash, leaves, level + 1, half) {
      k := 0;
      assert Ancestor(index, 1) == half;
    } else {
      k := j + 1;
      AncestorHalf(index, j + 1);
      assert FoldQuery(hash, leaf, path, index, k) == FoldQuery(hash, hash(first), rest, half, j);
    }
  }
}
