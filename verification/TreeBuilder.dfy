/**
  Huffman tree construction (`Compare`, `buildHuffmanTree`).

  The C++ keeps the pending trees in a `priority_queue` ordered by `Compare`
  (smallest frequency on top).  Here the pending trees are a sequence, the
  forest.  One round of the loop removes the tree of smallest frequency (on
  a tie, the first one in the forest), then the smallest of what is left,
  and appends a new internal node with the first as left child and the
  second as right child.  The heap's own tie-breaking is not reproduced;
  the same rule is used when the decompressor rebuilds the tree, so both
  sides build the same tree from the same table.
 */
module TreeBuilder {
  import opened Bits
  import opened Frequency
  import opened HuffmanTree

  /** The position of the tree `minHeap.top()` yields: the first position
      holding a smallest count (see `MinIndexLeast`). */
  function MinIndex(f: seq<Tree>): (i: nat)
    requires |f| > 0
    ensures i < |f|
  {
    if |f| == 1 then 0
    else
      var k := 1 + MinIndex(f[1..]);
      if f[0].freq <= f[k].freq then 0 else k
  }

  /** The chosen tree has a count no greater than any tree of the forest, and
      every tree before it has a strictly greater count. */
  lemma {:induction false} MinIndexLeast(f: seq<Tree>)
    requires |f| > 0
    ensures forall t :: t in f ==> f[MinIndex(f)].freq <= t.freq
    ensures forall j :: 0 <= j < MinIndex(f) ==> f[MinIndex(f)].freq < f[j].freq
  {
    if |f| > 1 {
      MinIndexLeast(f[1..]);
      assert f == [f[0]] + f[1..];
    }
  }

  /** `minHeap.pop()` of the tree at position `i`. */
  function RemoveAt(f: seq<Tree>, i: nat): (r: seq<Tree>)
    requires i < |f|
    ensures |r| == |f| - 1
    ensures forall t :: t in r ==> t in f
  {
    f[..i] + f[i + 1..]
  }

  lemma {:induction false} WeightSplit(f: seq<Tree>, i: nat)
    requires i <= |f|
    ensures Weight(f) == Weight(f[..i]) + Weight(f[i..])
  {
    if i > 0 {
      assert f[..i][1..] == f[1..][..i - 1];
      assert f[i..] == f[1..][i - 1..];
      WeightSplit(f[1..], i - 1);
    }
  }

  /** Removing one tree takes exactly its weight out of the forest. */
  lemma {:induction false} RemoveAtWeight(f: seq<Tree>, i: nat)
    requires i < |f|
    ensures Weight(f) == Weight(RemoveAt(f, i)) + f[i].freq
  {
    WeightSplit(f, i);
    assert f[i..][1..] == f[i + 1..];
    WeightConcat(f[..i], f[i + 1..]);
  }

  /** Removing one tree takes exactly its leaves out of the forest. */
  lemma {:induction false} RemoveAtBag(f: seq<Tree>, i: nat)
    requires i < |f|
    ensures ForestBag(f) == ForestBag(RemoveAt(f, i)) + LeafBag(f[i])
  {
    var pre, post, x := f[..i], f[i + 1..], f[i];
    assert f == (pre + [x]) + post;
    assert RemoveAt(f, i) == pre + post;
    assert ForestBag([x]) == LeafBag(x) by {
      assert [x][1..] == [];
    }
    var a, b, c := ForestBag(pre), LeafBag(x), ForestBag(post);
    BagConcat(pre + [x], post);
    BagConcat(pre, [x]);
    BagConcat(pre, post);
    assert ForestBag(f) == (a + b) + c;
    assert ForestBag(RemoveAt(f, i)) == a + c;
  }

  /** A round with its two trees chosen: the tree at `i`, then the tree at
      `k` of those left, are replaced by a node over them, appended last. */
  function MergeAt(f: seq<Tree>, i: nat, k: nat): (r: seq<Tree>)
    requires i < |f| && k < |f| - 1
  {
    var rest := RemoveAt(f, i);
    RemoveAt(rest, k) + [Node(f[i].freq + rest[k].freq, f[i], rest[k])]
  }

  /** One round of the `while (minHeap.size() > 1)` loop: two trees are
      replaced by a new node over them, appended last (which two is stated by
      `MergeTakesLightest`). */
  function Merge(f: seq<Tree>): (r: seq<Tree>)
    requires |f| >= 2
    ensures |r| == |f| - 1
    ensures r[|r| - 1].Node?
    ensures r[|r| - 1].freq == r[|r| - 1].left.freq + r[|r| - 1].right.freq
  {
    var i := MinIndex(f);
    MergeAt(f, i, MinIndex(RemoveAt(f, i)))
  }

  /** The new node's left child is the tree of smallest count in the forest
      and its right child is the smallest of the rest, which are the trees
      that stay. */
  lemma {:induction false} MergeTakesLightest(f: seq<Tree>)
    requires |f| >= 2
    ensures forall t :: t in f ==> Merge(f)[|f| - 2].left.freq <= t.freq
    ensures forall t :: t in Merge(f)[..|f| - 2] ==> Merge(f)[|f| - 2].right.freq <= t.freq
  {
    var i := MinIndex(f);
    var rest := RemoveAt(f, i);
    var k := MinIndex(rest);
    MinIndexLeast(f);
    MinIndexLeast(rest);
    var r := Merge(f);
    assert r[..|f| - 2] == RemoveAt(rest, k);
  }

  /** Removing the tree at `i` takes exactly that tree out of the forest. */
  lemma {:induction false} RemoveAtTrees(f: seq<Tree>, i: nat)
    requires i < |f|
    ensures multiset(f) == multiset(RemoveAt(f, i)) + multiset{f[i]}
  {
    assert f == f[..i] + [f[i]] + f[i + 1..];
  }

  /** The parts of a round with its two trees chosen: the trees that stay,
      and the children of the new node. */
  lemma {:induction false} MergeAtParts(f: seq<Tree>, i: nat, k: nat)
    requires i < |f| && k < |f| - 1
    ensures |MergeAt(f, i, k)| == |f| - 1
    ensures MergeAt(f, i, k)[..|f| - 2] == RemoveAt(RemoveAt(f, i), k)
    ensures MergeAt(f, i, k)[|f| - 2] == Node(f[i].freq + RemoveAt(f, i)[k].freq, f[i], RemoveAt(f, i)[k])
  {
  }

  /** A round touches no tree but the two it pops: the trees that stay and
      the two children of the new node are, together, exactly the trees of
      the forest before the round. */
  lemma {:induction false} MergeFrame(f: seq<Tree>)
    requires |f| >= 2
    ensures multiset(Merge(f)[..|f| - 2]) + multiset{Merge(f)[|f| - 2].left, Merge(f)[|f| - 2].right}
      == multiset(f)
  {
    var i := MinIndex(f);
    var rest := RemoveAt(f, i);
    var k := MinIndex(rest);
    MergeAtParts(f, i, k);
    RemoveAtTrees(f, i);
    RemoveAtTrees(rest, k);
  }

  lemma {:induction false} AppendWeight(others: seq<Tree>, a: Tree, b: Tree)
    ensures Weight(others + [Node(a.freq + b.freq, a, b)]) == Weight(others) + a.freq + b.freq
  {
    var m := Node(a.freq + b.freq, a, b);
    assert [m][1..] == [];
    WeightConcat(others, [m]);
  }

  lemma {:induction false} AppendBag(others: seq<Tree>, a: Tree, b: Tree)
    ensures ForestBag(others + [Node(a.freq + b.freq, a, b)]) == ForestBag(others) + LeafBag(a) + LeafBag(b)
  {
    var m := Node(a.freq + b.freq, a, b);
    assert [m][1..] == [];
    BagConcat(others, [m]);
  }

  /** Any choice of the two trees keeps the total weight. */
  lemma {:induction false} MergeWeightStep(f: seq<Tree>, i: nat, k: nat)
    requires i < |f| && k < |f| - 1
    ensures Weight(MergeAt(f, i, k)) == Weight(f)
  {
    var rest := RemoveAt(f, i);
    AppendWeight(RemoveAt(rest, k), f[i], rest[k]);
    RemoveAtWeight(rest, k);
    RemoveAtWeight(f, i);
  }

  /** A round keeps the total weight. */
  lemma {:induction false} MergeWeight(f: seq<Tree>)
    requires |f| >= 2
    ensures Weight(Merge(f)) == Weight(f)
  {
    var i := MinIndex(f);
    MergeWeightStep(f, i, MinIndex(RemoveAt(f, i)));
  }

  /** Any choice of the two trees keeps the leaves. */
  lemma {:induction false} MergeBagStep(f: seq<Tree>, i: nat, k: nat)
    requires i < |f| && k < |f| - 1
    ensures ForestBag(MergeAt(f, i, k)) == ForestBag(f)
  {
    var rest := RemoveAt(f, i);
    var others := RemoveAt(rest, k);
    AppendBag(others, f[i], rest[k]);
    var a, b, c := ForestBag(others), LeafBag(f[i]), LeafBag(rest[k]);
    assert (a + c) + b == a + b + c;
    RemoveAtBag(rest, k);
    RemoveAtBag(f, i);
  }

  /** A round keeps the leaves. */
  lemma {:induction false} MergeBag(f: seq<Tree>)
    requires |f| >= 2
    ensures ForestBag(Merge(f)) == ForestBag(f)
  {
    var i := MinIndex(f);
    MergeBagStep(f, i, MinIndex(RemoveAt(f, i)));
  }

  /** A round keeps every tree well-formed. */
  lemma {:induction false} MergeWellFormed(f: seq<Tree>)
    requires |f| >= 2
    requires AllWellFormed(f)
    ensures AllWellFormed(Merge(f))
  {
    var i := MinIndex(f);
    var rest := RemoveAt(f, i);
    var k := MinIndex(rest);
    var others := RemoveAt(rest, k);
    var merged := Node(f[i].freq + rest[k].freq, f[i], rest[k]);
    assert f[i] in f && rest[k] in rest;
    assert WellFormed(merged);
    forall t | t in Merge(f)
      ensures WellFormed(t)
    {
      if t != merged {
        assert t in others;
      }
    }
  }

  /** The loop run to the end: the one remaining tree. */
  function BuildForest(f: seq<Tree>): (root: Tree)
    requires |f| >= 1
    ensures root.freq == Weight(f)
    ensures LeafBag(root) == ForestBag(f)
    ensures AllWellFormed(f) ==> WellFormed(root)
    ensures |f| >= 2 ==> root.Node?
    decreases |f|
  {
    if |f| == 1 then
      assert f[1..] == [];
      f[0]
    else
      MergeWeight(f);
      MergeBag(f);
      if AllWellFormed(f) then
        MergeWellFormed(f);
        BuildForest(Merge(f))
      else
        BuildForest(Merge(f))
  }

  /** One leaf per table entry, in table order. */
  function InitialForest(t: Table): (f: seq<Tree>)
    ensures |f| == |t|
    ensures forall i :: 0 <= i < |t| ==> f[i] == Leaf(t[i].sym, t[i].freq)
  {
    if |t| == 0 then [] else [Leaf(t[0].sym, t[0].freq)] + InitialForest(t[1..])
  }

  lemma {:induction false} InitialForestAccounts(t: Table)
    ensures Weight(InitialForest(t)) == Sum(t)
    ensures ForestBag(InitialForest(t)) == multiset(t)
  {
    if |t| > 0 {
      assert InitialForest(t)[1..] == InitialForest(t[1..]);
      assert t == [t[0]] + t[1..];
      InitialForestAccounts(t[1..]);
    }
  }

  /** `buildHuffmanTree`.  The table must not be empty: the C++ calls
      `minHeap.top()` on an empty heap otherwise.  The tree has one leaf per
      table entry, carrying that entry's count; every internal node's count
      is the sum of its children's, so the root carries the sum of all
      counts.  Two or more entries give an internal root; a single entry is
      returned as a bare leaf. */
  function BuildTree(t: Table): (root: Tree)
    requires |t| >= 1
    ensures LeafBag(root) == multiset(t)
    ensures WellFormed(root)
    ensures root.freq == Sum(t)
    ensures |t| >= 2 ==> root.Node?
    ensures |t| == 1 ==> root == Leaf(t[0].sym, t[0].freq)
  {
    InitialForestAccounts(t);
    BuildForest(InitialForest(t))
  }

  /** The leaves of the built tree carry exactly the table's symbols. */
  lemma {:induction false} BuildTreeSymbols(t: Table)
    requires |t| >= 1
    ensures LeafSymbols(BuildTree(t)) == Symbols(t)
  {
    var root := BuildTree(t);
    LeafSymbolsOfBag(root);
    forall s | s in Symbols(t)
      ensures s in LeafSymbols(root)
    {
      var i := SymbolIndex(t, s);
      assert t[i] in multiset(t);
    }
    forall s | s in LeafSymbols(root)
      ensures s in Symbols(t)
    {
      var e :| e in LeafBag(root) && e.sym == s;
      assert e in t;
    }
  }
}
