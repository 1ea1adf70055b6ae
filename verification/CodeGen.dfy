/**
  Code generation (`generateCodes`).

  A code is the root-to-leaf path of a symbol's leaf: `false` ('0') for
  each step to a left child, `true` ('1') for each step to a right child.
  The C++ fills an `unordered_map<char, string>` by a depth-first walk that
  visits the left subtree before the right one; the map here is the union
  of the two subtrees' maps with the right one winning on a shared key,
  which is what the later assignment does in the C++.
 */
module CodeGen {
  import opened Bits
  import opened HuffmanTree

  type CodeTable = map<Byte, seq<bool>>

  /** Following `path` from `t` ends on a leaf holding `s`; every step before
      the end is taken from an internal node. */
  predicate LeafAt(t: Tree, path: seq<bool>, s: Byte)
    decreases |path|
  {
    if |path| == 0 then t.Leaf? && t.sym == s
    else t.Node? && LeafAt(if path[0] then t.right else t.left, path[1..], s)
  }

  /** `generateCodes(root, path, huffmanCode)`: the codes of the leaves below
      `t`, each being `path` followed by the path from `t`. */
  function GenerateCodes(t: Tree, path: seq<bool>): (codes: CodeTable)
    ensures codes.Keys == LeafSymbols(t)
  {
    match t
    case Leaf(s, _) => map[s := path]
    case Node(_, l, r) => GenerateCodes(l, path + [false]) + GenerateCodes(r, path + [true])
  }

  /** The code table of a whole tree, as `compress` requests it: a code for
      each leaf symbol and for nothing else. */
  function Codes(t: Tree): (codes: CodeTable)
    ensures codes.Keys == LeafSymbols(t)
  {
    GenerateCodes(t, [])
  }

  /** A generated code starts with `path` and continues with a path from
      `t` to a leaf holding that very symbol. */
  lemma {:induction false} GeneratedCodeIsPath(t: Tree, path: seq<bool>, s: Byte)
    requires s in GenerateCodes(t, path)
    ensures IsPrefix(path, GenerateCodes(t, path)[s])
    ensures LeafAt(t, GenerateCodes(t, path)[s][|path|..], s)
  {
    match t
    case Leaf(_, _) =>
      assert GenerateCodes(t, path)[s][|path|..] == [];
    case Node(_, l, r) =>
      var bit := s in GenerateCodes(r, path + [true]);
      var sub := if bit then r else l;
      var p := path + [bit];
      GeneratedCodeIsPath(sub, p, s);
      var c := GenerateCodes(t, path)[s];
      assert c == GenerateCodes(sub, p)[s];
      ExtendedPrefix(path, bit, c);
  }

  /** A string that starts with `path + [bit]` starts with `path`, and after
      `path` comes `bit` and then the rest. */
  lemma {:induction false} ExtendedPrefix(path: seq<bool>, bit: bool, c: seq<bool>)
    requires IsPrefix(path + [bit], c)
    ensures IsPrefix(path, c)
    ensures c[|path|..][0] == bit
    ensures c[|path|..][1..] == c[|path| + 1..]
  {
    assert c[..|path|] == (path + [bit])[..|path|] == path;
  }

  /** The code of every symbol is its root-to-leaf path in the tree. */
  lemma {:induction false} CodesArePaths(t: Tree)
    ensures forall s :: s in Codes(t) ==> LeafAt(t, Codes(t)[s], s)
  {
    forall s | s in Codes(t)
      ensures LeafAt(t, Codes(t)[s], s)
    {
      GeneratedCodeIsPath(t, [], s);
      assert Codes(t)[s][0..] == Codes(t)[s];
    }
  }

  /** A path that ends on a leaf cannot be extended into another path that
      ends on a leaf. */
  lemma {:induction false} LeafPathsNotNested(t: Tree, c1: seq<bool>, c2: seq<bool>, a: Byte, b: Byte)
    requires LeafAt(t, c1, a) && LeafAt(t, c2, b)
    requires IsPrefix(c1, c2)
    ensures c1 == c2 && a == b
    decreases |c1|
  {
    if |c1| > 0 {
      var child := if c1[0] then t.right else t.left;
      assert c2[0] == c1[0];
      assert c2[1..][..|c1| - 1] == c1[1..];
      LeafPathsNotNested(child, c1[1..], c2[1..], a, b);
      assert c1 == [c1[0]] + c1[1..];
      assert c2 == [c2[0]] + c2[1..];
    }
  }

  /** For a tree with an internal root (two or more leaves), every code is at
      least one bit long and no symbol's code is a prefix of another's. */
  lemma {:induction false} CodesPrefixFree(t: Tree)
    requires t.Node?
    ensures forall s :: s in Codes(t) ==> |Codes(t)[s]| >= 1
    ensures forall a, b :: a in Codes(t) && b in Codes(t) && a != b ==>
      !IsPrefix(Codes(t)[a], Codes(t)[b])
  {
    CodesArePaths(t);
    forall a, b | a in Codes(t) && b in Codes(t) && a != b
      ensures !IsPrefix(Codes(t)[a], Codes(t)[b])
    {
      if IsPrefix(Codes(t)[a], Codes(t)[b]) {
        LeafPathsNotNested(t, Codes(t)[a], Codes(t)[b], a, b);
      }
    }
  }

  /** A tree that is a single leaf gives its symbol the empty code. */
  lemma {:induction false} SingleLeafCode(s: Byte, f: nat)
    ensures Codes(Leaf(s, f)) == map[s := []]
  {
  }
}
