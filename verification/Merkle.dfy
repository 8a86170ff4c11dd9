/** Merkle trees: MerkleTree (rusty-crypto/src/hash.rs) and calculate_merkle_root
    (rusty-consensus/src/pow.rs). `leaf` hashes a data block and `node` a pair of digests; the
    digest type is a parameter, so no property of the hash is assumed unless stated. */
module Merkle {
  import opened Wrappers

  // --------------------------------------------------------------- specification

  /** The level above xs: consecutive pairs hashed, an odd last element paired with itself. */
  function Level<D>(node: (D, D) -> D, xs: seq<D>): (ys: seq<D>)
    ensures |ys| == (|xs| + 1) / 2
    ensures forall i :: 0 <= i < |ys| ==> ys[i] == PairAt(node, xs, i)
  {
    seq((|xs| + 1) / 2, i requires 0 <= i < (|xs| + 1) / 2 => PairAt(node, xs, i))
  }

  function PairAt<D>(node: (D, D) -> D, xs: seq<D>, i: nat): D
    requires i < (|xs| + 1) / 2
  {
    node(xs[2 * i], if 2 * i + 1 < |xs| then xs[2 * i + 1] else xs[2 * i])
  }

  function Root<D>(node: (D, D) -> D, xs: seq<D>): D
    requires xs != []
    decreases |xs|
  {
    if |xs| == 1 then xs[0] else Root(node, Level(node, xs))
  }

  /** All levels from the leaves up, one after the other. */
  function AllLevels<D>(node: (D, D) -> D, xs: seq<D>): (nodes: seq<D>)
    requires xs != []
    ensures nodes != []
    decreases |xs|
  {
    if |xs| == 1 then xs else xs + AllLevels(node, Level(node, xs))
  }

  function Leaves<B, D>(leaf: B -> D, blocks: seq<B>): (xs: seq<D>)
    ensures |xs| == |blocks| && forall i :: 0 <= i < |xs| ==> xs[i] == leaf(blocks[i])
  {
    seq(|blocks|, i requires 0 <= i < |blocks| => leaf(blocks[i]))
  }

  // ------------------------------------------------------------------ operations

  datatype MerkleTree<D> = MerkleTree(nodes: seq<D>) {
    /** MerkleTree::root. */
    function GetRoot(): Option<D> {
      if nodes == [] then None else Some(nodes[|nodes| - 1])
    }
  }

  /** The inner loop shared by MerkleTree::new and MerkleTree::calculate_merkle_root. */
  method NextLevel<D>(node: (D, D) -> D, current: seq<D>) returns (next: seq<D>)
    ensures next == Level(node, current)
  {
    next := [];
    var i := 0;
    while i < |current|
      invariant i % 2 == 0 && i <= |current| + 1 && |next| == i / 2
      invariant forall k :: 0 <= k < |next| ==> next[k] == PairAt(node, current, k)
    {
      var left := current[i];
      var right := if i + 1 < |current| then current[i + 1] else left;
      next := next + [node(left, right)];
      i := i + 2;
    }
  }

  /** MerkleTree::new. */
  method BuildTree<B, D>(leaf: B -> D, node: (D, D) -> D, blocks: seq<B>) returns (tree: MerkleTree<D>)
    ensures tree.nodes == if blocks == [] then [] else AllLevels(node, Leaves(leaf, blocks))
  {
    if blocks == [] {
      return MerkleTree([]);
    }
    var current := Leaves(leaf, blocks);
    var nodes := current;
    ghost var below := [];
    while |current| > 1
      invariant current != []
      invariant nodes == below + current
      invariant below + AllLevels(node, current) == AllLevels(node, Leaves(leaf, blocks))
      decreases |current|
    {
      var next := NextLevel(node, current);
      below := below + current;
      nodes := nodes + next;
      current := next;
    }
    return MerkleTree(nodes);
  }

  /** MerkleTree::calculate_merkle_root. */
  method CalculateMerkleRoot<B, D>(leaf: B -> D, node: (D, D) -> D, blocks: seq<B>) returns (root: Option<D>)
    ensures root == if blocks == [] then None else Some(Root(node, Leaves(leaf, blocks)))
  {
    if blocks == [] {
      return None;
    }
    var current := Leaves(leaf, blocks);
    while |current| > 1
      invariant current != []
      invariant Root(node, current) == Root(node, Leaves(leaf, blocks))
      decreases |current|
    {
      current := NextLevel(node, current);
    }
    return Some(current[0]);
  }

  /** block_merkle_root and calculate_merkle_root of rusty-consensus over transaction hashes, chunk by
      chunk; no hashes is the empty-block error. */
  method MerkleRootOfHashes<D>(node: (D, D) -> D, hashes: seq<D>) returns (root: Option<D>)
    ensures root == if hashes == [] then None else Some(Root(node, hashes))
  {
    if hashes == [] { return None; }
    var level := hashes;
    while |level| > 1
      invariant level != []
      invariant Root(node, level) == Root(node, hashes)
      decreases |level|
    {
      var next := [];
      for k := 0 to (|level| + 1) / 2
        invariant |next| == k
        invariant forall i :: 0 <= i < k ==> next[i] == PairAt(node, level, i)
      {
        var chunk := if 2 * k + 2 <= |level| then level[2 * k..2 * k + 2] else level[2 * k..];
        next := next + [if |chunk| == 2 then node(chunk[0], chunk[1]) else node(chunk[0], chunk[0])];
      }
      assert next == Level(node, level);
      level := next;
    }
    root := Some(level[0]);
  }

  // ------------------------------------------------------------------- theorems

  /** The last node of the full tree is the root. */
  lemma {:induction false} LastNodeIsRoot<D>(node: (D, D) -> D, xs: seq<D>)
    requires xs != []
    ensures var nodes := AllLevels(node, xs); nodes[|nodes| - 1] == Root(node, xs)
    decreases |xs|
  {
    if |xs| > 1 { LastNodeIsRoot(node, Level(node, xs)); }
  }

  /** The full tree and the direct computation give the same root, for every list of blocks. */
  lemma TreeRootIsDirectRoot<B, D>(leaf: B -> D, node: (D, D) -> D, blocks: seq<B>, tree: MerkleTree<D>)
    requires tree.nodes == if blocks == [] then [] else AllLevels(node, Leaves(leaf, blocks))
    ensures tree.GetRoot() == if blocks == [] then None else Some(Root(node, Leaves(leaf, blocks)))
  {
    if blocks != [] { LastNodeIsRoot(node, Leaves(leaf, blocks)); }
  }

  /** The size of the k-th level over n leaves. */
  function Width(n: nat, k: nat): nat {
    if k == 0 then n else (Width(n, k - 1) + 1) / 2
  }

  /** Top-down reference: node i of level k, defined from its two children by position alone. */
  function NodeAt<D>(node: (D, D) -> D, xs: seq<D>, k: nat, i: nat): D
    requires i < Width(|xs|, k)
  {
    if k == 0 then xs[i]
    else
      var right := if 2 * i + 1 < Width(|xs|, k - 1) then 2 * i + 1 else 2 * i;
      node(NodeAt(node, xs, k - 1, 2 * i), NodeAt(node, xs, k - 1, right))
  }

  lemma {:induction false} WidthOfNext(n: nat, k: nat)
    ensures Width((n + 1) / 2, k) == Width(n, k + 1)
  {
    if k > 0 { WidthOfNext(n, k - 1); }
  }

  lemma {:induction false} NodeAtNext<D>(node: (D, D) -> D, xs: seq<D>, k: nat, i: nat)
    requires i < Width(|xs|, k + 1)
    ensures i < Width((|xs| + 1) / 2, k)
    ensures NodeAt(node, Level(node, xs), k, i) == NodeAt(node, xs, k + 1, i)
  {
    WidthOfNext(|xs|, k);
    if k > 0 {
      WidthOfNext(|xs|, k - 1);
      NodeAtNext(node, xs, k - 1, 2 * i);
      if 2 * i + 1 < Width(|xs|, k) { NodeAtNext(node, xs, k - 1, 2 * i + 1); }
    }
  }

  /** The root is the only node of the first level of width one. */
  lemma {:induction false} RootIsTopNode<D>(node: (D, D) -> D, xs: seq<D>) returns (k: nat)
    requires xs != []
    ensures Width(|xs|, k) == 1 && (k > 0 ==> Width(|xs|, k - 1) > 1)
    ensures Root(node, xs) == NodeAt(node, xs, k, 0)
    decreases |xs|
  {
    if |xs| == 1 {
      k := 0;
    } else {
      k := RootIsTopNode(node, Level(node, xs));
      WidthOfNext(|xs|, k);
      if k > 0 { WidthOfNext(|xs|, k - 1); }
      NodeAtNext(node, xs, k, 0);
      k := k + 1;
    }
  }

  /** Two different lists of the same length with the same root give a collision of `node`. */
  lemma {:induction false} EqualRootsGiveCollision<D>(node: (D, D) -> D, xs: seq<D>, ys: seq<D>)
    returns (a: D, b: D, c: D, d: D)
    requires xs != [] && |xs| == |ys| && xs != ys && Root(node, xs) == Root(node, ys)
    ensures (a, b) != (c, d) && node(a, b) == node(c, d)
    decreases |xs|
  {
    var us, vs := Level(node, xs), Level(node, ys);
    if us == vs {
      var j :| 0 <= j < |xs| && xs[j] != ys[j];
      var i := j / 2;
      assert us[i] == PairAt(node, xs, i) && vs[i] == PairAt(node, ys, i);
      var r := if 2 * i + 1 < |xs| then 2 * i + 1 else 2 * i;
      a, b, c, d := xs[2 * i], xs[r], ys[2 * i], ys[r];
    } else {
      a, b, c, d := EqualRootsGiveCollision(node, us, vs);
    }
  }

  ghost predicate Injective<D(!new)>(node: (D, D) -> D) {
    forall a, b, c, d :: node(a, b) == node(c, d) ==> a == c && b == d
  }

  /** Under injective hashing the root determines the blocks among lists of the same length. */
  lemma RootDeterminesBlocks<B(!new), D(!new)>(leaf: B -> D, node: (D, D) -> D, blocks: seq<B>, others: seq<B>)
    requires Injective(node) && forall b, c :: leaf(b) == leaf(c) ==> b == c
    requires blocks != [] && |blocks| == |others|
    requires Root(node, Leaves(leaf, blocks)) == Root(node, Leaves(leaf, others))
    ensures blocks == others
  {
    var xs, ys := Leaves(leaf, blocks), Leaves(leaf, others);
    if xs != ys {
      var a, b, c, d := EqualRootsGiveCollision(node, xs, ys);
    }
    assert forall i :: 0 <= i < |blocks| ==> leaf(blocks[i]) == xs[i] == ys[i] == leaf(others[i]);
  }

  /** The length matters: repeating the last of an odd number of blocks keeps the root, so no
      property of the hash makes the root determine the list by itself. */
  lemma OddTailMayRepeat<D>(node: (D, D) -> D, xs: seq<D>)
    requires |xs| % 2 == 1 && |xs| > 1
    ensures Root(node, xs + [xs[|xs| - 1]]) == Root(node, xs)
  {
    hide Level, PairAt;
    SameLevel(node, xs);
  }

  lemma SameLevel<D>(node: (D, D) -> D, xs: seq<D>)
    requires |xs| % 2 == 1
    ensures Level(node, xs + [xs[|xs| - 1]]) == Level(node, xs)
  {
    hide Level;
    var ys := xs + [xs[|xs| - 1]];
    forall i | 0 <= i < (|xs| + 1) / 2 ensures PairAt(node, xs, i) == PairAt(node, ys, i) {
      SamePair(node, xs, i);
    }
    hide PairAt;
  }

  lemma SamePair<D>(node: (D, D) -> D, xs: seq<D>, i: nat)
    requires |xs| % 2 == 1 && i < (|xs| + 1) / 2
    ensures PairAt(node, xs + [xs[|xs| - 1]], i) == PairAt(node, xs, i)
  {
  }
}
