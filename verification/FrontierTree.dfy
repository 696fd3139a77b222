/**
 * The on-chain tree account: an append-only tree kept as one subtree per level plus a ring of recent roots.
 * Both are proved against the padded tree of MerkleSpec, for any height and any ring size.
 */
module FrontierTree {
  import opened Arithmetic
  import opened Bn254
  import opened MerkleSpec
  import opened Poseidon

  /** The parameters the program is deployed with; everything below holds for any others. */
  const MERKLE_TREE_HEIGHT: nat := 26
  const ROOT_HISTORY_SIZE: nat := 250

  datatype AppendResult = Appended(path: seq<nat>) | Full

  // ---------- what the account's buffers mean ----------

  /** Wherever the count of leaves has a set bit, the stored subtree is the finished left neighbour at that level. */
  ghost predicate IsFrontier(hash: Hash, leaves: seq<nat>, subtrees: seq<nat>) {
    forall l | 0 <= l < |subtrees| ::
      Ancestor(|leaves|, l) % 2 == 1 ==> subtrees[l] == Node(hash, leaves, l, Ancestor(|leaves|, l) - 1)
  }

  /** Slot `j % k` holds the root after `j` leaves, for the last `k` values of `j`; unused slots are still zero. */
  ghost predicate IsRing(hash: Hash, leaves: seq<nat>, height: nat, ring: seq<nat>, rootIndex: nat) {
    && |ring| > 0
    && rootIndex == Slot(|leaves|, |ring|)
    && (forall j | 0 <= j <= |leaves| && |leaves| - j < |ring| ::
          ring[Slot(j, |ring|)] == Root(hash, leaves[..j], height))
    && (forall s | |leaves| < s < |ring| :: ring[s] == 0)
  }

  function Slot(j: nat, k: nat): (s: nat)
    requires k > 0
    ensures s < k
  {
    j % k
  }

  /** `root` is non-zero and is one of the last `k` roots, the current one included. */
  ghost predicate Recent(hash: Hash, leaves: seq<nat>, height: nat, k: nat, root: nat) {
    root != 0 && exists j :: 0 <= j <= |leaves| && |leaves| - j < k && RootAfter(hash, leaves, height, j) == root
  }

  function RootAfter(hash: Hash, leaves: seq<nat>, height: nat, j: nat): nat
    requires j <= |leaves|
  {
    Root(hash, leaves[..j], height)
  }

  // ---------- ring lemmas ----------

  /** Two of the last `k` counts never share a slot. */
  lemma SlotsDistinct(i: nat, j: nat, k: nat)
    requires k > 0 && i < j < i + k
    ensures Slot(i, k) != Slot(j, k)
  {
    if i % k == j % k {
      var d := j / k - i / k;
      assert d * k == (j / k) * k - (i / k) * k == j - i;
      if d >= 1 {
        MulGrows(d, k);
      } else {
        MulGrows(1 - d, k);
      }
    }
  }

  /** Every slot of the ring is the slot of one of the last `k` counts, or has never been written. */
  lemma SlotOwner(n: nat, k: nat, s: nat) returns (j: int)
    requires s < k
    ensures n - k < j <= n && (j >= 0 ==> Slot(j, k) == s) && (j < 0 ==> n < s)
  {
    var q, d := n / k, n % k;
    assert n == q * k + d;
    if s <= d {
      j := n - (d - s);
      DivModUnique(j, q, k, s);
    } else {
      j := n - (d + k - s);
      assert (q - 1) * k == q * k - k;
      DivModUnique(j, q - 1, k, s);
      if q == 0 {
        assert q * k == 0;
      }
    }
  }

  lemma NextSlot(n: nat, k: nat)
    requires k > 0
    ensures (Slot(n, k) + 1) % k == Slot(n + 1, k)
  {
    var q, d := n / k, n % k;
    assert n == q * k + d;
    if d + 1 < k {
      DivModUnique(n + 1, q, k, d + 1);
      DivModUnique(d + 1, 0, k, d + 1);
    } else {
      assert (q + 1) * k == q * k + k;
      DivModUnique(n + 1, q + 1, k, 0);
      DivModUnique(d + 1, 1, k, 0);
    }
  }

  /** The root window is exact: scanning the ring for a non-zero word finds exactly the last `k` roots. */
  lemma RingExact(hash: Hash, leaves: seq<nat>, height: nat, ring: seq<nat>, rootIndex: nat, root: nat)
    requires IsRing(hash, leaves, height, ring, rootIndex)
    ensures root != 0 && root in ring <==> Recent(hash, leaves, height, |ring|, root)
  {
    var n, k := |leaves|, |ring|;
    if root != 0 && root in ring {
      var s :| 0 <= s < k && ring[s] == root;
      var j := SlotOwner(n, k, s);
      if j >= 0 {
        assert ring[Slot(j, k)] == Root(hash, leaves[..j], height);
        assert RootAfter(hash, leaves, height, j) == root;
      }
    }
    if Recent(hash, leaves, height, k, root) {
      var j :| 0 <= j <= n && n - j < k && RootAfter(hash, leaves, height, j) == root;
      assert ring[Slot(j, k)] == root;
    }
  }

  /** Writing the next slot with the new root keeps the ring, wraparound included. */
  lemma RingPush(hash: Hash, leaves: seq<nat>, leaf: nat, height: nat, ring: seq<nat>, rootIndex: nat)
    requires IsRing(hash, leaves, height, ring, rootIndex)
    ensures var next := (rootIndex + 1) % |ring|;
            IsRing(hash, leaves + [leaf], height, ring[next := Root(hash, leaves + [leaf], height)], next)
  {
    var n, k, longer := |leaves|, |ring|, leaves + [leaf];
    var next := (rootIndex + 1) % k;
    NextSlot(n, k);
    var pushed := ring[next := Root(hash, longer, height)];
    forall j | 0 <= j <= n + 1 && n + 1 - j < k
      ensures pushed[Slot(j, k)] == Root(hash, longer[..j], height)
    {
      if j == n + 1 {
        assert longer[..j] == longer;
      } else {
        SlotsDistinct(j, n + 1, k);
        assert longer[..j] == leaves[..j];
        assert ring[Slot(j, k)] == Root(hash, leaves[..j], height);
      }
    }
    forall s | n + 1 < s < k
      ensures pushed[s] == 0
    {
      DivModUnique(n + 1, 0, k, n + 1);
    }
  }

  // ---------- frontier lemmas ----------

  /** What an append meets at each level: an empty right neighbour, or the stored left one. */
  lemma AppendNeighbour(hash: Hash, leaves: seq<nat>, leaf: nat, subtrees: seq<nat>, l: nat)
    requires l < |subtrees| && IsFrontier(hash, leaves, subtrees)
    ensures var a := Ancestor(|leaves|, l);
            && (a % 2 == 0 ==> Node(hash, leaves + [leaf], l, a + 1) == Zero(hash, l))
            && (a % 2 == 1 ==> Node(hash, leaves + [leaf], l, a - 1) == subtrees[l])
  {
    var a, longer := Ancestor(|leaves|, l), leaves + [leaf];
    if a % 2 == 0 {
      WidthSucc(|leaves|, l);
      EmptyNode(hash, longer, l, a + 1);
    } else {
      assert longer[..|leaves|] == leaves == leaves[..|leaves|];
      CompleteNode(hash, leaves, longer, |leaves|, l, a - 1);
    }
  }

  /** What an append leaves in `subtrees`: the running hash wherever the append went left, the old entry elsewhere. */
  function Left(hash: Hash, leaves: seq<nat>, leaf: nat, was: seq<nat>, l: nat): nat
    requires l < |was|
  {
    if Ancestor(|leaves|, l) % 2 == 0 then Node(hash, leaves + [leaf], l, Ancestor(|leaves|, l)) else was[l]
  }

  /** The sibling an append meets at a level. */
  function Beside(hash: Hash, leaves: seq<nat>, leaf: nat, l: nat): nat {
    Node(hash, leaves + [leaf], l, Sibling(Ancestor(|leaves|, l)))
  }

  /** One turn of the append loop, whichever way it goes. */
  lemma ClimbStep(hash: Hash, leaves: seq<nat>, leaf: nat, was: seq<nat>, l: nat, top: nat)
    requires l < |was| && IsFrontier(hash, leaves, was)
    requires top == Node(hash, leaves + [leaf], l, Ancestor(|leaves|, l))
    ensures var a := Ancestor(|leaves|, l);
            var (left, right) := if a % 2 == 0 then (top, Zero(hash, l)) else (was[l], top);
            && hash(Two(left, right)) == Node(hash, leaves + [leaf], l + 1, a / 2)
            && left == Left(hash, leaves, leaf, was, l)
            && (if a % 2 == 0 then right else left) == Beside(hash, leaves, leaf, l)
  {
    AppendNeighbour(hash, leaves, leaf, was, l);
  }

  lemma FrontierPush(hash: Hash, leaves: seq<nat>, leaf: nat, was: seq<nat>, now: seq<nat>)
    requires |was| == |now| && IsFrontier(hash, leaves, was)
    requires forall l | 0 <= l < |was| :: now[l] == Left(hash, leaves, leaf, was, l)
    ensures IsFrontier(hash, leaves + [leaf], now)
  {
    var n, longer := |leaves|, leaves + [leaf];
    forall l | 0 <= l < |now| && Ancestor(n + 1, l) % 2 == 1
      ensures now[l] == Node(hash, longer, l, Ancestor(n + 1, l) - 1)
    {
      assert now[l] == Left(hash, leaves, leaf, was, l);
      AncestorSucc(n, l);
      AppendNeighbour(hash, leaves, leaf, was, l);
    }
  }

  /** A path is the neighbours of the leaf's ancestors. */
  lemma {:induction false} PathEntries(hash: Hash, leaves: seq<nat>, i: nat, level: nat, height: nat, k: nat)
    requires level <= height && k < height - level
    ensures PathFrom(hash, leaves, i, level, height)[k] == Node(hash, leaves, level + k, Sibling(Ancestor(i, k)))
    decreases k
  {
    if k > 0 {
      PathEntries(hash, leaves, i / 2, level + 1, height, k - 1);
      AncestorHalf(i, k - 1);
    }
  }

  lemma PathIs(hash: Hash, leaves: seq<nat>, leaf: nat, height: nat, proof: seq<nat>)
    requires |proof| == height
    requires forall l | 0 <= l < height :: proof[l] == Beside(hash, leaves, leaf, l)
    ensures proof == Path(hash, leaves + [leaf], |leaves|, height)
  {
    forall l | 0 <= l < height
      ensures proof[l] == Path(hash, leaves + [leaf], |leaves|, height)[l]
    {
      PathEntries(hash, leaves + [leaf], |leaves|, 0, height, l);
    }
  }

  lemma EmptyFrontier(hash: Hash, subtrees: seq<nat>)
    ensures IsFrontier(hash, [], subtrees)
  {
    forall l | 0 <= l < |subtrees|
      ensures Ancestor(0, l) == 0
    {
      AncestorOfZero(l);
    }
  }

  /** The zero of the top level is the root of no leaves at all. */
  lemma EmptyRing(hash: Hash, height: nat, ring: seq<nat>)
    requires |ring| > 0 && ring[0] == Zero(hash, height) && forall i | 0 < i < |ring| :: ring[i] == 0
    ensures Root(hash, [], height) == Zero(hash, height)
    ensures IsRing(hash, [], height, ring, 0)
  {
    AncestorOfZero(height);
    AncestorAtMostWidth(0, height);
    EmptyNode(hash, [], height, 0);
    DivModUnique(0, 0, |ring|, 0);
  }

  // ---------- the account ----------

  class TreeAccount {
    const hash: Hash
    const height: nat
    const rootHistorySize: nat
    var nextIndex: nat
    const subtrees: array<nat>
    var root: nat
    const rootHistory: array<nat>
    var rootIndex: nat
    ghost var leaves: seq<Word>

    ghost predicate Valid()
      reads this, subtrees, rootHistory
    {
      && subtrees != rootHistory
      && subtrees.Length == height
      && rootHistory.Length == rootHistorySize > 0
      && nextIndex == |leaves| <= Pow2(height)
      && root == Root(hash, leaves, height)
      && IsFrontier(hash, leaves, subtrees[..])
      && IsRing(hash, leaves, height, rootHistory[..], rootIndex)
    }

    /** Every level's empty subtree, before there is anything to store. */
    static method FillZeros(hash: Hash, subtrees: array<nat>)
      modifies subtrees
      ensures forall l | 0 <= l < subtrees.Length :: subtrees[l] == Zero(hash, l)
    {
      for i := 0 to subtrees.Length
        invariant forall l | 0 <= l < i :: subtrees[l] == Zero(hash, l)
      {
        subtrees[i] := Zero(hash, i);
      }
    }

    /** A freshly created, zeroed account followed by `MerkleTree::initialize`. */
    constructor (hash: Hash, height: nat, rootHistorySize: nat)
      requires rootHistorySize > 0
      ensures Valid() && fresh(subtrees) && fresh(rootHistory)
      ensures this.hash == hash && this.height == height && this.rootHistorySize == rootHistorySize
      ensures leaves == [] && root == Zero(hash, height)
      ensures nextIndex == 0 && rootIndex == 0 && rootHistory[0] == root
      ensures forall l | 0 <= l < height :: subtrees[l] == Zero(hash, l)
    {
      hide Node;
      hide Ancestor;
      hide IsFrontier;
      hide IsRing;
      hide Zero;
      this.hash := hash;
      this.height := height;
      this.rootHistorySize := rootHistorySize;
      nextIndex := 0;
      rootIndex := 0;
      leaves := [];
      root := Zero(hash, height);
      subtrees := new nat[height](_ => 0);
      rootHistory := new nat[rootHistorySize](_ => 0);
      new;
      FillZeros(hash, subtrees);
      rootHistory[0] := Zero(hash, height);
      EmptyFrontier(hash, subtrees[..]);
      EmptyRing(hash, height, rootHistory[..]);
    }

    /** The loop of `append`: hash from the new leaf to the top, keeping each left turn in `subtrees`. */
    method Climb(leaf: Word) returns (top: nat, proof: seq<nat>)
      requires Valid() && nextIndex < Pow2(height)
      modifies subtrees
      ensures IsFrontier(hash, leaves + [leaf], subtrees[..])
      ensures top == Root(hash, leaves + [leaf], height)
      ensures proof == Path(hash, leaves + [leaf], nextIndex, height)
    {
      ghost var was, ls := subtrees[..], leaves;
      var currentIndex := nextIndex;
      top := leaf;
      proof := [];
      var i := 0;
      while i < height
        invariant 0 <= i <= height && |proof| == i
        invariant currentIndex == Ancestor(|ls|, i)
        invariant top == Node(hash, ls + [leaf], i, currentIndex)
        invariant forall l | i <= l < height :: subtrees[l] == was[l]
        invariant forall l | 0 <= l < i :: subtrees[l] == Left(hash, ls, leaf, was, l)
        invariant forall l | 0 <= l < i :: proof[l] == Beside(hash, ls, leaf, l)
      {
        ClimbStep(hash, ls, leaf, was, i, top);
        var left, right;
        if currentIndex % 2 == 0 {
          left, right := top, Zero(hash, i);
          subtrees[i] := top;
          proof := proof + [right];
        } else {
          left, right := subtrees[i], top;
          proof := proof + [left];
        }
        top := hash(Two(left, right));
        currentIndex := currentIndex / 2;
        i := i + 1;
      }
      FrontierPush(hash, leaves, leaf, was, subtrees[..]);
      AncestorTop(nextIndex, height);
      PathIs(hash, leaves, leaf, height, proof);
    }

    method Append(leaf: Word) returns (r: AppendResult)
      requires Valid()
      modifies this, subtrees, rootHistory
      ensures Valid()
      ensures r.Full? <==> old(nextIndex) == Pow2(height)
      ensures r.Full? ==> unchanged(this) && unchanged(subtrees) && unchanged(rootHistory)
      ensures r.Appended? ==> leaves == old(leaves) + [leaf]
      ensures r.Appended? ==> r.path == Path(hash, leaves, old(nextIndex), height)
      ensures r.Appended? ==> Fold(hash, leaf, r.path, old(nextIndex)) == root
    {
      if nextIndex >= Pow2(height) {
        return Full;
      }
      RingPush(hash, leaves, leaf, height, rootHistory[..], rootIndex);
      FoldPath(hash, leaves + [leaf], nextIndex, height);
      ghost var ring := rootHistory[..];
      var top, proof := Climb(leaf);
      root := top;
      nextIndex := nextIndex + 1;
      rootIndex := (rootIndex + 1) % rootHistorySize;
      rootHistory[rootIndex] := top;
      leaves := leaves + [leaf];
      assert rootHistory[..] == ring[rootIndex := top];
      r := Appended(proof);
    }

    method IsKnownRoot(root: nat) returns (known: bool)
      requires Valid()
      ensures known <==> Recent(hash, leaves, height, rootHistorySize, root)
    {
      RingExact(hash, leaves, height, rootHistory[..], rootIndex, root);
      if root == 0 {
        return false;
      }
      var i := rootIndex;
      while true
        invariant 0 <= i < rootHistorySize
        invariant i <= rootIndex ==> forall s | i < s <= rootIndex :: rootHistory[s] != root
        invariant i > rootIndex ==> forall s | 0 <= s <= rootIndex || i < s < rootHistorySize :: rootHistory[s] != root
        decreases if i <= rootIndex then i + rootHistorySize else i
      {
        if root == rootHistory[i] {
          assert root in rootHistory[..];
          return true;
        }
        if i == 0 {
          i := rootHistorySize - 1;
        } else {
          i := i - 1;
        }
        if i == rootIndex {
          break;
        }
      }
      assert forall s | 0 <= s < rootHistorySize :: rootHistory[s] != root;
      return false;
    }
  }

  method NewDeployedTree(hash: Hash) returns (t: TreeAccount)
    ensures fresh(t) && fresh(t.subtrees) && fresh(t.rootHistory) && t.Valid()
    ensures t.hash == hash && t.height == 26 && t.rootHistorySize == 250 && t.leaves == []
  {
    t := new TreeAccount(hash, MERKLE_TREE_HEIGHT, ROOT_HISTORY_SIZE);
  }
}
