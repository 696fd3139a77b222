/** The client's tree, the program's tree and the circuit's fold, side by side. */
module TreesAgree {
  import opened Bn254
  import opened ClientTree
  import opened FrontierTree
  import opened MerkleSpec
  import opened Poseidon
  import Indexer

  /**
   * A client that has the first leaves of the account's tree serves a root and a path. The path folds to that root
   * under the circuit's bit order, and the program still knows the root as long as it is not zero and fewer leaves than
   * the ring has slots were appended since.
   */
  method ServeSpend(client: MerkleTree, account: TreeAccount, index: nat)
    returns (root: nat, path: seq<nat>, known: bool)
    requires client.Valid() && account.Valid()
    requires client.hash == account.hash && client.levels == account.height
    requires client.Leaves() <= account.leaves && |account.leaves| - |client.Leaves()| < account.rootHistorySize
    requires index < |client.Leaves()|
    ensures |path| == account.height && Fold(account.hash, account.leaves[index], path, index) == root
    ensures known <==> root != 0
    ensures client.Leaves() == account.leaves ==> root == account.root
  {
    root := client.Root();
    var served := client.Path(index);
    path := served.path;
    FoldPath(client.hash, client.Leaves(), index, client.levels);
    known := account.IsKnownRoot(root);
    assert account.leaves[..|client.Leaves()|] == client.Leaves();
    assert RootAfter(account.hash, account.leaves, account.height, |client.Leaves()|) == root;
  }

  /**
   * What the relayer serves from the chain as it knew it is good on the chain as it is now: the root over its tree is
   * among the last `window`, and its paths fold from the chain's own leaves, as long as fewer than `window` leaves
   * landed since.
   */
  lemma IndexedRootRecent(r: Indexer.Relayer, chain: Indexer.Chain, now: Indexer.Chain, m: Indexer.Mint, hash: Hash,
      height: nat, window: nat)
    requires r.Persistent(chain) && r.Mirrors() && Indexer.Extends(chain, now) && m in r.trees
    requires |Indexer.Of(now.leaves, m)| - |r.trees[m]| < window && Root(hash, r.trees[m], height) != 0
    requires |r.trees[m]| <= Pow2(height)
    ensures Recent(hash, Indexer.Of(now.leaves, m), height, window, Root(hash, r.trees[m], height))
    ensures forall i | 0 <= i < |r.trees[m]| ::
              && i < |Indexer.Of(now.leaves, m)|
              && Fold(hash, Indexer.Of(now.leaves, m)[i], Path(hash, r.trees[m], i, height), i)
                 == Root(hash, r.trees[m], height)
  {
    hide Fold;
    hide Root;
    hide Path;
    var served, leaves := r.trees[m], Indexer.Of(now.leaves, m);
    StillPrefix(r, chain, now, m);
    assert leaves[..|served|] == served;
    RootOfPrefix(hash, leaves, height, served);
    forall i | 0 <= i < |served|
      ensures Fold(hash, leaves[i], Path(hash, served, i, height), i) == Root(hash, served, height)
    {
      FoldPath(hash, served, i, height);
    }
  }

  lemma StillPrefix(r: Indexer.Relayer, chain: Indexer.Chain, now: Indexer.Chain, m: Indexer.Mint)
    requires r.Persistent(chain) && r.Mirrors() && Indexer.Extends(chain, now) && m in r.trees
    ensures r.trees[m] <= Indexer.Of(now.leaves, m)
  {
    assert Indexer.Of(r.stored, m) <= Indexer.Of(chain.leaves, m) <= Indexer.Of(now.leaves, m);
  }

  lemma RootOfPrefix(hash: Hash, leaves: seq<nat>, height: nat, served: seq<nat>)
    requires served <= leaves
    ensures RootAfter(hash, leaves, height, |served|) == Root(hash, served, height)
  {
    assert leaves[..|served|] == served;
  }

  /** The route itself: the relayer's tree, built or rebuilt, answers with a root that the account still knows. */
  method ServeIndexed(r: Indexer.Relayer, ghost chain: Indexer.Chain, ghost now: Indexer.Chain, m: Indexer.Mint,
      account: TreeAccount, index: nat)
    returns (root: nat, path: seq<nat>, known: bool)
    requires r.Persistent(chain) && r.Mirrors() && Indexer.Extends(chain, now)
    requires account.Valid() && account.leaves == Indexer.Of(now.leaves, m)
    requires index < |Indexer.Of(r.stored, m)| && |account.leaves| - |Indexer.Of(r.stored, m)| < account.rootHistorySize
    modifies r`trees
    ensures r.Persistent(chain) && r.Mirrors()
    ensures |path| == account.height && Fold(account.hash, account.leaves[index], path, index) == root
    ensures known <==> root != 0
  {
    var leaves := r.Tree(chain, m);
    StillPrefix(r, chain, now, m);
    var client := new MerkleTree(account.hash, account.height, leaves);
    root, path, known := ServeSpend(client, account, index);
  }
}
