/** Membership against any root the program still accepts, stated about the current tree. */
module Membership {
  import opened Bn254
  import opened FrontierTree
  import opened JoinSplit
  import opened MerkleSpec
  import opened Poseidon

  /** The trees of every prefix of the leaves, i.e. every tree the account has ever held. */
  ghost predicate TreesAsked(hash: Hash, asked: iset<Query>, leaves: seq<nat>, height: nat) {
    forall j, l, i {:trigger TreeNode(hash, leaves, j, l, i)} ::
      0 <= j <= |leaves| && 0 < l <= height && 0 <= i ==> Asked(asked, TreeNode(hash, leaves, j, l, i))
  }

  function TreeNode(hash: Hash, leaves: seq<nat>, j: nat, l: nat, i: nat): Query
    requires j <= |leaves| && l > 0
  {
    Children(hash, leaves[..j], l, i)
  }

  /**
   * Whatever folds to a root the ring still holds is a leaf of the current tree at that very index. Failing that,
   * the leaf is zero, or the lemma returns a collision: level `k` of the fold against the tree of the first `j` leaves.
   */
  lemma HistoricMembership(hash: Hash, leaves: seq<nat>, height: nat, window: nat,
      root: nat, leaf: nat, path: seq<nat>, index: nat)
    returns (j: nat, k: nat)
    requires Recent(hash, leaves, height, window, root)
    requires |path| == height && index < Pow2(height) && Fold(hash, leaf, path, index) == root
    ensures j <= |leaves|
    ensures || (index < |leaves| && leaves[index] == leaf)
            || leaf == 0
            || (k < height && Collides(hash, FoldQuery(hash, leaf, path, index, k),
                                       TreeNode(hash, leaves, j, k + 1, Ancestor(index, k + 1))))
  {
    j :| 0 <= j <= |leaves| && |leaves| - j < window && RootAfter(hash, leaves, height, j) == root;
    AncestorTop(index, height);
    k := FoldSound(hash, leaves[..j], leaf, path, index, 0);
  }

  /** The same with the evaluations of the run known to be free of collisions and zeros. */
  lemma MembershipSound(hash: Hash, asked: iset<Query>, leaves: seq<nat>, height: nat, window: nat,
      root: nat, note: Note, path: seq<nat>, index: nat)
    requires Faithful(hash, asked) && TreesAsked(hash, asked, leaves, height)
    requires Asked(asked, note.Opening()) && FoldAsked(hash, asked, note.Commitment(hash), path, index)
    requires Recent(hash, leaves, height, window, root)
    requires |path| == height && index < Pow2(height) && Fold(hash, note.Commitment(hash), path, index) == root
    ensures index < |leaves| && leaves[index] == note.Commitment(hash)
  {
    var leaf := note.Commitment(hash);
    NonZero(hash, asked, note.Opening());
    var j, k := HistoricMembership(hash, leaves, height, window, root, leaf, path, index);
  }
}
