/**
 * The client's tree: every layer kept, and only the nodes to the right of the first new leaf recomputed.
 * However the leaves arrived, the layers are those of the padded tree.
 */
module ClientTree {
  import opened MerkleSpec
  import opened Poseidon

  datatype PathResult = Found(path: seq<nat>) | NotInTree

  /** `layer` holds exactly the nodes of `level` that have a leaf below them. */
  ghost predicate IsLayer(hash: Hash, leaves: seq<nat>, level: nat, layer: seq<nat>) {
    |layer| == Width(|leaves|, level) && IsLayerUpTo(hash, leaves, level, layer, |layer|)
  }

  ghost predicate IsLayerUpTo(hash: Hash, leaves: seq<nat>, level: nat, layer: seq<nat>, count: nat) {
    count <= |layer| && forall i | 0 <= i < count :: layer[i] == Node(hash, leaves, level, i)
  }

  /** The nodes strictly left of the first new leaf's ancestors survive an insertion. */
  lemma Survives(hash: Hash, leaves: seq<nat>, from: nat, level: nat, layer: seq<nat>)
    requires from <= |leaves|
    requires IsLayer(hash, leaves[..from], level, layer)
    ensures IsLayerUpTo(hash, leaves, level, layer, Ancestor(from, level))
    ensures Ancestor(from, level) <= Width(|leaves|, level)
  {
    AncestorAtMostWidth(from, level);
    AncestorMonotone(from, |leaves|, level);
    AncestorAtMostWidth(|leaves|, level);
    forall i | 0 <= i < Ancestor(from, level)
      ensures layer[i] == Node(hash, leaves, level, i)
    {
      assert leaves[..from] == leaves[..from][..from];
      CompleteNode(hash, leaves[..from], leaves, from, level, i);
    }
  }

  /** One recomputed node: its children come from the layer below, or are the zero beside the last one. */
  lemma ParentNode(hash: Hash, leaves: seq<nat>, level: nat, below: seq<nat>, i: nat)
    requires IsLayer(hash, leaves, level, below) && 2 * i < |below|
    ensures hash(Two(below[2 * i], if 2 * i + 1 < |below| then below[2 * i + 1] else Zero(hash, level)))
         == Node(hash, leaves, level + 1, i)
  {
    if 2 * i + 1 >= |below| {
      EmptyNode(hash, leaves, level, 2 * i + 1);
    }
  }

  /** A layer answers for any node of its level, present or not. */
  lemma LayerNode(hash: Hash, leaves: seq<nat>, level: nat, layer: seq<nat>, i: nat)
    requires IsLayer(hash, leaves, level, layer)
    ensures Node(hash, leaves, level, i) == if i < |layer| then layer[i] else Zero(hash, level)
  {
    if i >= |layer| {
      EmptyNode(hash, leaves, level, i);
    }
  }

  lemma PathStep(hash: Hash, leaves: seq<nat>, level: nat, levels: nat, layer: seq<nat>, i: nat, element: nat,
      path: seq<nat>)
    requires level < levels && IsLayer(hash, leaves, level, layer)
    requires element == if Sibling(i) < |layer| then layer[Sibling(i)] else Zero(hash, level)
    ensures path + PathFrom(hash, leaves, i, level, levels)
         == path + [element] + PathFrom(hash, leaves, i / 2, level + 1, levels)
  {
    LayerNode(hash, leaves, level, layer, Sibling(i));
  }

  lemma PathEnds(hash: Hash, leaves: seq<nat>, index: nat, i: nat, levels: nat, path: seq<nat>)
    ensures [] + PathFrom(hash, leaves, index, 0, levels) == MerkleSpec.Path(hash, leaves, index, levels)
    ensures path + PathFrom(hash, leaves, i, levels, levels) == path
  {
  }

  class MerkleTree {
    const hash: Hash
    const levels: nat
    var layers: seq<seq<nat>>

    /** The zero of a level, tabulated by the original when it builds the tree. */
    function ZeroAt(level: nat): nat {
      Zero(hash, level)
    }

    ghost function Leaves(): seq<nat>
      reads this
      requires |layers| > 0
    {
      layers[0]
    }

    ghost predicate Valid()
      reads this
    {
      && |layers| == levels + 1
      && forall l | 0 <= l <= levels :: IsLayer(hash, layers[0], l, layers[l])
    }

    constructor (hash: Hash, levels: nat, leaves: seq<nat>)
      ensures Valid() && Leaves() == leaves
      ensures this.hash == hash && this.levels == levels
    {
      this.hash := hash;
      this.levels := levels;
      layers := [leaves];
      new;
      Rebuild(0);
    }

    /** The layers above the leaves are those of the first `from` leaves. */
    ghost predicate PartlyBuilt(from: nat)
      requires |layers| == levels + 1 && from <= |layers[0]|
      reads this
    {
      forall l | 1 <= l <= levels :: IsLayer(hash, layers[0][..from], l, layers[l])
    }

    /** Recompute what the leaves from `from` on can have changed. */
    method Rebuild(from: nat)
      requires |layers| > 0 && from <= |layers[0]|
      requires (from == 0 && |layers| == 1) || (|layers| == levels + 1 && PartlyBuilt(from))
      modifies this
      ensures Valid() && Leaves() == old(Leaves())
    {
      ghost var leaves := layers[0];
      ghost var stored := |layers|;
      var level := 1;
      while level <= levels
        invariant 1 <= level <= levels + 1
        invariant |layers| == if stored == 1 then level else levels + 1
        invariant layers[0] == leaves
        invariant forall l | 0 <= l < level :: IsLayer(hash, leaves, l, layers[l])
        invariant stored == levels + 1 ==>
                  forall l | level <= l <= levels :: IsLayer(hash, leaves[..from], l, layers[l])
      {
        var below := layers[level - 1];
        if level == |layers| {
          layers := layers + [[]];
          AncestorOfZero(level);
          assert from == 0 && IsLayerUpTo(hash, leaves, level, [], 0);
        } else {
          Survives(hash, leaves, from, level, layers[level]);
        }
        var layer := RebuildLayer(level, below, layers[level], from, leaves);
        layers := layers[level := layer];
        level := level + 1;
      }
    }

    method RebuildLayer(level: nat, below: seq<nat>, stored: seq<nat>, from: nat, ghost leaves: seq<nat>)
      returns (layer: seq<nat>)
      requires level > 0 && IsLayer(hash, leaves, level - 1, below)
      requires IsLayerUpTo(hash, leaves, level, stored, Ancestor(from, level))
      requires Ancestor(from, level) <= Width(|leaves|, level)
      ensures IsLayer(hash, leaves, level, layer)
    {
      layer := stored;
      var i := Ancestor(from, level);
      var count := (|below| + 1) / 2;
      while i < count
        invariant Ancestor(from, level) <= i <= count
        invariant IsLayerUpTo(hash, leaves, level, layer, i)
      {
        ParentNode(hash, leaves, level - 1, below, i);
        var left := below[i * 2];
        var right := if i * 2 + 1 < |below| then below[i * 2 + 1] else ZeroAt(level - 1);
        layer := Assign(layer, i, hash(Two(left, right)));
        i := i + 1;
      }
      layer := layer[..count];
    }

    /** Writing an array entry at, or just past, the end. */
    static function Assign(s: seq<nat>, i: nat, v: nat): (r: seq<nat>)
      requires i <= |s|
      ensures |r| > i && r[i] == v && r[..i] == s[..i]
    {
      if i < |s| then s[i := v] else s + [v]
    }

    method Root() returns (root: nat)
      requires Valid()
      ensures root == MerkleSpec.Root(hash, Leaves(), levels)
    {
      LayerNode(hash, Leaves(), levels, layers[levels], 0);
      root := if |layers[levels]| > 0 then layers[levels][0] else ZeroAt(levels);
    }

    method Insert(leaf: nat) returns (index: nat)
      requires Valid()
      modifies this
      ensures Valid() && Leaves() == old(Leaves()) + [leaf] && index == |old(Leaves())|
    {
      index := |layers[0]|;
      Extend([leaf]);
    }

    method BulkInsert(leaves: seq<nat>)
      requires Valid()
      modifies this
      ensures Valid() && Leaves() == old(Leaves()) + leaves
    {
      if |leaves| == 0 {
        return;
      }
      Extend(leaves);
    }

    /** Push new leaves and rebuild from the first of them; the shared body of the two insertions. */
    method Extend(leaves: seq<nat>)
      requires Valid()
      modifies this
      ensures Valid() && Leaves() == old(Leaves()) + leaves
    {
      var from := |layers[0]|;
      ghost var was := layers[0];
      layers := layers[0 := layers[0] + leaves];
      assert layers[0][..from] == was;
      Rebuild(from);
    }

    method Path(index: int) returns (r: PathResult)
      requires Valid()
      ensures r.NotInTree? <==> index < 0 || index >= |Leaves()|
      ensures r.Found? ==> r.path == MerkleSpec.Path(hash, Leaves(), index, levels)
    {
      hide PathFrom;
      hide MerkleSpec.Path;
      hide IsLayer;
      if index < 0 || index >= |layers[0]| {
        return NotInTree;
      }
      var path: seq<nat> := [];
      var i := index;
      var level := 0;
      ghost var leaves := Leaves();
      PathEnds(hash, leaves, index, i, levels, path);
      while level < levels
        invariant 0 <= level <= levels && i >= 0
        invariant path + PathFrom(hash, leaves, i, level, levels) == MerkleSpec.Path(hash, leaves, index, levels)
      {
        var sibling := if i % 2 == 0 then i + 1 else i - 1;
        var element := if sibling < |layers[level]| then layers[level][sibling] else ZeroAt(level);
        PathStep(hash, leaves, level, levels, layers[level], i, element, path);
        path := path + [element];
        i := i / 2;
        level := level + 1;
      }
      PathEnds(hash, leaves, index, i, levels, path);
      return Found(path);
    }
  }
}
