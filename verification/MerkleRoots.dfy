/** Which lists share a Merkle root. Odd levels repeat their last node, and MerkleTree
    (rusty-crypto/src/hash.rs) hashes leaves and pairs with the same function, so a root determines
    neither the number of blocks nor even the height of the tree. These are the only two reasons. */
module MerkleRoots {
  import opened Arithmetic
  import opened Merkle

  /** The number of levels above n leaves. */
  function Height(n: nat): nat
    requires n > 0
  {
    if n == 1 then 0 else 1 + Height((n + 1) / 2)
  }

  /** Which of n leaves is found at position i of the full tree, when odd levels repeat their last node. */
  function PadIndex(n: nat, i: nat): (k: nat)
    requires n > 0 && i < Pow2(Height(n))
    ensures k < n
    decreases n
  {
    if n == 1 then 0
    else
      var pair := PadIndex((n + 1) / 2, i / 2);
      if 2 * pair + i % 2 < n then 2 * pair + i % 2 else 2 * pair
  }

  /** The list filled up to a full tree by its own repetitions. */
  function Padded<T>(xs: seq<T>): (ys: seq<T>)
    requires xs != []
    ensures |ys| == Pow2(Height(|xs|))
  {
    seq(Pow2(Height(|xs|)), i requires 0 <= i < Pow2(Height(|xs|)) => xs[PadIndex(|xs|, i)])
  }

  /** The k-th level above a list. */
  function Above<D>(node: (D, D) -> D, xs: seq<D>, k: nat): seq<D>
    decreases k
  {
    if k == 0 then xs else Above(node, Level(node, xs), k - 1)
  }

  lemma PadSiblings(n: nat, i: nat)
    requires n > 1 && 2 * i + 1 < Pow2(Height(n))
    ensures i < Pow2(Height((n + 1) / 2))
    ensures var pair := PadIndex((n + 1) / 2, i);
      && PadIndex(n, 2 * i) == 2 * pair
      && PadIndex(n, 2 * i + 1) == if 2 * pair + 1 < n then 2 * pair + 1 else 2 * pair
  {
    assert (2 * i) / 2 == i && (2 * i + 1) / 2 == i;
  }

  /** Padding commutes with pairing. */
  lemma PaddedLevel<D>(node: (D, D) -> D, xs: seq<D>)
    requires |xs| > 1
    ensures Level(node, Padded(xs)) == Padded(Level(node, xs))
  {
    hide PadIndex, Level;
    var ys, up := Padded(xs), Level(node, xs);
    forall i | 0 <= i < |Padded(up)| ensures Level(node, ys)[i] == Padded(up)[i] {
      PadSiblings(|xs|, i);
    }
  }

  lemma {:induction false} RootPadded<D>(node: (D, D) -> D, xs: seq<D>)
    requires xs != []
    ensures Root(node, Padded(xs)) == Root(node, xs)
    decreases |xs|
  {
    hide PadIndex, Level;
    if |xs| == 1 {
      assert Padded(xs) == xs;
    } else {
      PaddedLevel(node, xs);
      RootPadded(node, Level(node, xs));
    }
  }

  lemma {:induction false} AboveFull<D>(node: (D, D) -> D, xs: seq<D>, m: nat, k: nat)
    requires k <= m && |xs| == Pow2(m)
    ensures |Above(node, xs, k)| == Pow2(m - k)
    ensures Root(node, Above(node, xs, k)) == Root(node, xs)
    ensures k < m ==> Above(node, xs, k + 1) == Level(node, Above(node, xs, k))
    decreases m
  {
    hide Level;
    if k > 0 {
      AboveFull(node, Level(node, xs), m - 1, k - 1);
    }
  }

  /** In an even level, the nodes above determine the nodes below. */
  lemma LevelInjective<D(!new)>(node: (D, D) -> D, xs: seq<D>, ys: seq<D>)
    requires Injective(node) && |xs| == |ys| && |xs| % 2 == 0 && Level(node, xs) == Level(node, ys)
    ensures xs == ys
  {
    forall i | 0 <= i < |xs| ensures xs[i] == ys[i] {
      assert Level(node, xs)[i / 2] == Level(node, ys)[i / 2];
      SamePairs(node, xs, ys, i / 2);
      assert i == 2 * (i / 2) || i == 2 * (i / 2) + 1;
    }
  }

  lemma SamePairs<D(!new)>(node: (D, D) -> D, xs: seq<D>, ys: seq<D>, j: nat)
    requires Injective(node) && |xs| == |ys| && |xs| % 2 == 0 && 2 * j + 1 < |xs|
    requires PairAt(node, xs, j) == PairAt(node, ys, j)
    ensures xs[2 * j] == ys[2 * j] && xs[2 * j + 1] == ys[2 * j + 1]
  {
  }

  /** Full trees of one height with equal roots are equal. */
  lemma {:induction false} FullRootsEqual<D(!new)>(node: (D, D) -> D, xs: seq<D>, ys: seq<D>, k: nat)
    requires Injective(node) && |xs| == |ys| == Pow2(k) && Root(node, xs) == Root(node, ys)
    ensures xs == ys
    decreases k
  {
    hide Level, Injective, Root, Pow2;
    if k == 0 {
      SingleRoot(node, xs);
      SingleRoot(node, ys);
    } else {
      Pow2Next(k - 1);
      RootUp(node, xs);
      RootUp(node, ys);
      FullRootsEqual(node, Level(node, xs), Level(node, ys), k - 1);
      LevelInjective(node, xs, ys);
    }
  }

  lemma Pow2Next(n: nat)
    ensures Pow2(n + 1) == 2 * Pow2(n)
  {
  }

  lemma RootUp<D>(node: (D, D) -> D, xs: seq<D>)
    requires |xs| > 1
    ensures Root(node, Level(node, xs)) == Root(node, xs)
  {
  }

  lemma SingleRoot<D>(node: (D, D) -> D, xs: seq<D>)
    requires |xs| == Pow2(0)
    ensures |xs| == 1 && xs == [Root(node, xs)]
  {
  }

  /** Full trees with equal roots: the lower one is a level of the higher one. */
  lemma FullRootsIff<D(!new)>(node: (D, D) -> D, xs: seq<D>, ys: seq<D>, k: nat, m: nat)
    requires Injective(node) && k <= m && |xs| == Pow2(k) && |ys| == Pow2(m)
    ensures Root(node, xs) == Root(node, ys) <==> xs == Above(node, ys, m - k)
  {
    hide Root, Above, Injective, Pow2;
    AboveFull(node, ys, m, m - k);
    if Root(node, xs) == Root(node, ys) {
      FullRootsEqual(node, xs, Above(node, ys, m - k), k);
    }
  }

  /** The exact law, for lists of digests as they stand (rusty-consensus/src/pow.rs does not hash its
      leaves): with an injective pair hash, two roots are equal if and only if the shorter list, filled
      up, is the level of the other filled-up list at its own height. */
  lemma RootsEqualIff<D(!new)>(node: (D, D) -> D, xs: seq<D>, ys: seq<D>)
    requires Injective(node) && xs != [] && ys != [] && Height(|xs|) <= Height(|ys|)
    ensures Root(node, xs) == Root(node, ys) <==> Padded(xs) == Above(node, Padded(ys), Height(|ys|) - Height(|xs|))
  {
    hide Injective, Padded, Root, Above, Pow2, Height;
    RootPadded(node, xs);
    RootPadded(node, ys);
    FullRootsIff(node, Padded(xs), Padded(ys), Height(|xs|), Height(|ys|));
  }

  // --------------------------------------------------------- leaves and pairs hashed alike

  /** MerkleTree hashes a pair as it hashes a block: `cat` joins two digests into a block. */
  function PairHash<B, D>(leaf: B -> D, cat: (D, D) -> B): (D, D) -> D {
    (x: D, y: D) => leaf(cat(x, y))
  }

  ghost predicate InjectiveLeaf<B(!new), D>(leaf: B -> D) {
    forall b, c :: leaf(b) == leaf(c) ==> b == c
  }

  ghost predicate InjectiveCat<B, D(!new)>(cat: (D, D) -> B) {
    forall a, b, c, d :: cat(a, b) == cat(c, d) ==> a == c && b == d
  }

  /** The blocks that spell the nodes one level up. */
  function Parents<B, D>(leaf: B -> D, cat: (D, D) -> B, blocks: seq<B>): (r: seq<B>)
    ensures |r| == (|blocks| + 1) / 2
  {
    seq((|blocks| + 1) / 2, i requires 0 <= i < (|blocks| + 1) / 2 =>
      cat(leaf(blocks[2 * i]), leaf(blocks[if 2 * i + 1 < |blocks| then 2 * i + 1 else 2 * i])))
  }

  /** Any list of two or more blocks has the root of the list of its joined sibling digests. */
  lemma SiblingDigestsShareRoot<B, D>(leaf: B -> D, cat: (D, D) -> B, blocks: seq<B>)
    requires |blocks| > 1
    ensures var node := PairHash(leaf, cat);
      Root(node, Leaves(leaf, Parents(leaf, cat, blocks))) == Root(node, Leaves(leaf, blocks))
  {
    var node := PairHash(leaf, cat);
    assert Leaves(leaf, Parents(leaf, cat, blocks)) == Level(node, Leaves(leaf, blocks));
  }

  /** When two lists of blocks are two readings of one tree. */
  ghost predicate SameTree<B, D>(leaf: B -> D, cat: (D, D) -> B, blocks: seq<B>, others: seq<B>)
    requires blocks != [] && others != [] && Height(|blocks|) <= Height(|others|)
  {
    var k, m := Height(|blocks|), Height(|others|);
    if k == m then Padded(blocks) == Padded(others)
    else
      JoinedSiblings(cat, Padded(blocks), Above(PairHash(leaf, cat), Padded(Leaves(leaf, others)), m - k - 1))
  }

  /** Every block is the join of two sibling digests. */
  ghost predicate JoinedSiblings<B, D>(cat: (D, D) -> B, blocks: seq<B>, digests: seq<D>) {
    |digests| == 2 * |blocks| && forall i :: 0 <= i < |blocks| ==> blocks[i] == cat(digests[2 * i], digests[2 * i + 1])
  }

  /** The exact law for MerkleTree: with injective hashing and joining, two lists of blocks have the same
      root if and only if they are equal up to repeated tails, or the lower one, filled up, consists of
      the joined sibling digests just below its height in the other. */
  lemma BlockRootsEqualIff<B(!new), D(!new)>(leaf: B -> D, cat: (D, D) -> B, blocks: seq<B>, others: seq<B>)
    requires InjectiveLeaf(leaf) && InjectiveCat(cat)
    requires blocks != [] && others != [] && Height(|blocks|) <= Height(|others|)
    ensures Root(PairHash(leaf, cat), Leaves(leaf, blocks)) == Root(PairHash(leaf, cat), Leaves(leaf, others))
      <==> SameTree(leaf, cat, blocks, others)
  {
    hide Injective, InjectiveLeaf, InjectiveCat, Root, Padded, Leaves, PairHash, Pow2, Height, Above, JoinedSiblings;
    var node := PairHash(leaf, cat);
    PairHashInjective(leaf, cat);
    RootsEqualIff(node, Leaves(leaf, blocks), Leaves(leaf, others));
    PaddedLeaves(leaf, blocks);
    PaddedLeaves(leaf, others);
    var k, m := Height(|blocks|), Height(|others|);
    if k == m {
      AboveNone(node, Padded(Leaves(leaf, others)));
      LeavesInjective(leaf, Padded(blocks), Padded(others));
    } else {
      LowerTree(leaf, cat, Padded(blocks), Padded(Leaves(leaf, others)), k, m);
    }
  }

  lemma AboveNone<D>(node: (D, D) -> D, xs: seq<D>)
    ensures Above(node, xs, 0) == xs
  {
  }

  lemma LowerTree<B(!new), D(!new)>(leaf: B -> D, cat: (D, D) -> B, blocks: seq<B>, ys: seq<D>, k: nat, m: nat)
    requires InjectiveLeaf(leaf) && k < m && |blocks| == Pow2(k) && |ys| == Pow2(m)
    ensures Leaves(leaf, blocks) == Above(PairHash(leaf, cat), ys, m - k)
      <==> JoinedSiblings(cat, blocks, Above(PairHash(leaf, cat), ys, m - k - 1))
  {
    hide InjectiveLeaf, Leaves, PairHash, Pow2, Above, Root, Level, JoinedSiblings;
    var node := PairHash(leaf, cat);
    AboveFull(node, ys, m, m - k - 1);
    Pow2Next(k);
    LeavesAreLevel(leaf, cat, blocks, Above(node, ys, m - k - 1));
  }

  lemma PairHashInjective<B(!new), D(!new)>(leaf: B -> D, cat: (D, D) -> B)
    requires InjectiveLeaf(leaf) && InjectiveCat(cat)
    ensures Injective(PairHash(leaf, cat))
  {
  }

  lemma PaddedLeaves<B, D>(leaf: B -> D, blocks: seq<B>)
    requires blocks != []
    ensures Padded(Leaves(leaf, blocks)) == Leaves(leaf, Padded(blocks))
  {
  }

  lemma LeavesInjective<B(!new), D>(leaf: B -> D, a: seq<B>, b: seq<B>)
    requires InjectiveLeaf(leaf)
    ensures Leaves(leaf, a) == Leaves(leaf, b) <==> a == b
  {
    if Leaves(leaf, a) == Leaves(leaf, b) {
      forall i | 0 <= i < |a| ensures a[i] == b[i] {
        assert Leaves(leaf, a)[i] == Leaves(leaf, b)[i];
      }
    }
  }

  lemma LeavesAreLevel<B(!new), D>(leaf: B -> D, cat: (D, D) -> B, blocks: seq<B>, below: seq<D>)
    requires InjectiveLeaf(leaf) && |below| == 2 * |blocks|
    ensures Leaves(leaf, blocks) == Level(PairHash(leaf, cat), below) <==> JoinedSiblings(cat, blocks, below)
  {
    var node := PairHash(leaf, cat);
    forall i | 0 <= i < |blocks| ensures Level(node, below)[i] == leaf(cat(below[2 * i], below[2 * i + 1])) {
      assert Level(node, below)[i] == PairAt(node, below, i);
    }
    if Leaves(leaf, blocks) == Level(node, below) {
      forall i | 0 <= i < |blocks| ensures blocks[i] == cat(below[2 * i], below[2 * i + 1]) {
        assert Leaves(leaf, blocks)[i] == Level(node, below)[i];
      }
    }
  }
}
