/**
  The Huffman tree (`struct Node`) and the bookkeeping the construction
  keeps track of: the leaves of a tree, the total weight of a forest, and
  well-formedness of internal counts.
 */
module HuffmanTree {
  import opened Bits
  import opened Frequency

  /** A leaf holds a symbol and its count; an internal node holds the sum of
      its children's counts.  Internal nodes carry no symbol (the C++ stores
      '\0' there and never reads it). */
  datatype Tree = Leaf(sym: Byte, freq: nat) | Node(freq: nat, left: Tree, right: Tree)

  /** The (symbol, frequency) pairs of the leaves. */
  function LeafBag(t: Tree): multiset<Entry> {
    match t
    case Leaf(s, f) => multiset{Entry(s, f)}
    case Node(_, l, r) => LeafBag(l) + LeafBag(r)
  }

  function LeafSymbols(t: Tree): set<Byte> {
    match t
    case Leaf(s, _) => {s}
    case Node(_, l, r) => LeafSymbols(l) + LeafSymbols(r)
  }

  /** Every internal node's count is the sum of its children's. */
  predicate WellFormed(t: Tree) {
    match t
    case Leaf(_, _) => true
    case Node(f, l, r) => f == l.freq + r.freq && WellFormed(l) && WellFormed(r)
  }

  /** The symbols of the leaves are the symbols of the leaf entries. */
  lemma {:induction false} LeafSymbolsOfBag(t: Tree)
    ensures forall e :: e in LeafBag(t) ==> e.sym in LeafSymbols(t)
    ensures forall s :: s in LeafSymbols(t) ==> exists e :: e in LeafBag(t) && e.sym == s
  {
    match t
    case Leaf(s, f) =>
      assert Entry(s, f) in LeafBag(t);
    case Node(_, l, r) =>
      LeafSymbolsOfBag(l);
      LeafSymbolsOfBag(r);
  }

  /** Sum of the root counts of a forest. */
  function Weight(f: seq<Tree>): nat {
    if |f| == 0 then 0 else f[0].freq + Weight(f[1..])
  }

  /** All leaf entries of a forest. */
  function ForestBag(f: seq<Tree>): multiset<Entry> {
    if |f| == 0 then multiset{} else LeafBag(f[0]) + ForestBag(f[1..])
  }

  predicate AllWellFormed(f: seq<Tree>) {
    forall t :: t in f ==> WellFormed(t)
  }

  lemma {:induction false} WeightConcat(a: seq<Tree>, b: seq<Tree>)
    ensures Weight(a + b) == Weight(a) + Weight(b)
  {
    if |a| > 0 {
      assert (a + b)[1..] == a[1..] + b;
      WeightConcat(a[1..], b);
    } else {
      assert a + b == b;
    }
  }

  lemma {:induction false} BagConcat(a: seq<Tree>, b: seq<Tree>)
    ensures ForestBag(a + b) == ForestBag(a) + ForestBag(b)
  {
    if |a| > 0 {
      assert (a + b)[1..] == a[1..] + b;
      BagConcat(a[1..], b);
    } else {
      assert a + b == b;
    }
  }
}
