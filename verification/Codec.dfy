/**
  The bitstream codec: `encodeText`, and the tree walk of `decompress`
  pulled out as a function of its own.
 */
module Codec {
  import opened Bits
  import opened Frequency
  import opened HuffmanTree
  import opened CodeGen

  /** The outcome of `encodeText`: the concatenated bits, or the first byte
      without a code, where `huffmanCode.at` throws `std::out_of_range`. */
  datatype Encoding = Encoded(bits: seq<bool>) | UnknownSymbol(sym: Byte)

  /** Every byte of `text` has a code. */
  predicate Covers(codes: CodeTable, text: seq<Byte>) {
    forall i :: 0 <= i < |text| ==> text[i] in codes
  }

  /** `encodeText`: the codes of the bytes of `text`, in input order. */
  function EncodeText(text: seq<Byte>, codes: CodeTable): (r: Encoding)
    ensures r.UnknownSymbol? <==> !Covers(codes, text)
    ensures r.UnknownSymbol? ==> r.sym !in codes && r.sym in text
    decreases |text|
  {
    if |text| == 0 then Encoded([])
    else if text[0] !in codes then UnknownSymbol(text[0])
    else
      match EncodeText(text[1..], codes)
      case UnknownSymbol(s) => UnknownSymbol(s)
      case Encoded(rest) => Encoded(codes[text[0]] + rest)
  }

  /** Encoding distributes over concatenation of texts: each byte's code is
      laid down in order, independently of its neighbours. */
  lemma {:induction false} EncodeAppend(a: seq<Byte>, b: seq<Byte>, codes: CodeTable)
    requires Covers(codes, a) && Covers(codes, b)
    ensures EncodeText(a + b, codes)
      == Encoded(EncodeText(a, codes).bits + EncodeText(b, codes).bits)
    decreases |a|
  {
    if |a| == 0 {
      assert a + b == b;
    } else {
      assert (a + b)[1..] == a[1..] + b;
      assert Covers(codes, a[1..]);
      EncodeAppend(a[1..], b, codes);
    }
  }

  /** The codes of the bytes of `text` laid end to end, built from the last
      byte backwards. */
  function Concatenated(text: seq<Byte>, codes: CodeTable): seq<bool>
    requires Covers(codes, text)
    decreases |text|
  {
    if |text| == 0 then []
    else Concatenated(text[..|text| - 1], codes) + codes[text[|text| - 1]]
  }

  /** `encodeText` lays down the code of each byte in input order and
      nothing else. */
  lemma {:induction false} EncodeIsConcatenation(text: seq<Byte>, codes: CodeTable)
    requires Covers(codes, text)
    ensures EncodeText(text, codes) == Encoded(Concatenated(text, codes))
    decreases |text|
  {
    if |text| > 0 {
      var prefix, b := text[..|text| - 1], text[|text| - 1];
      assert text == prefix + [b];
      EncodeIsConcatenation(prefix, codes);
      EncodeAppend(prefix, [b], codes);
      assert EncodeText([b], codes) == Encoded(codes[b] + []);
      assert codes[b] + [] == codes[b];
    }
  }

  /** The Huffman cost of a table under a code: the sum over entries of the
      count times the code length. */
  function Cost(t: Table, codes: CodeTable): nat
    requires Symbols(t) <= codes.Keys
  {
    if |t| == 0 then 0
    else t[0].freq * |codes[t[0].sym]| + Cost(t[1..], codes)
  }

  lemma {:induction false} CostBump(t: Table, b: Byte, codes: CodeTable)
    requires Distinct(t)
    requires Symbols(t) + {b} <= codes.Keys
    ensures Symbols(Bump(t, b)) <= codes.Keys
    ensures Cost(Bump(t, b), codes) == Cost(t, codes) + |codes[b]|
  {
    BumpInvariant(t, b);
    var r := Bump(t, b);
    if |t| == 0 {
      assert r[1..] == [];
    } else {
      assert r[1..] == (if t[0].sym == b then t[1..] else Bump(t[1..], b));
      if t[0].sym != b {
        CostBump(t[1..], b, codes);
      }
    }
  }

  /** The encoded length is the weighted code length of the text's frequency
      table: each byte value contributes its count times its code length. */
  lemma {:induction false} EncodedLength(text: seq<Byte>, codes: CodeTable)
    requires Covers(codes, text)
    ensures Symbols(FrequencyTable(text)) <= codes.Keys
    ensures |EncodeText(text, codes).bits| == Cost(FrequencyTable(text), codes)
    decreases |text|
  {
    FrequencySymbols(text);
    if |text| > 0 {
      var prefix, b := text[..|text| - 1], text[|text| - 1];
      assert text == prefix + [b];
      assert Covers(codes, prefix);
      EncodedLength(prefix, codes);
      FrequencySymbols(prefix);
      EncodeAppend(prefix, [b], codes);
      assert EncodeText([b], codes).bits == codes[b];
      CostBump(FrequencyTable(prefix), b, codes);
    }
  }

  /** Where the walk stands after a run of bits: the bytes it emitted and the
      node it is at. */
  datatype Decoded = Decoded(out: seq<Byte>, at: Tree)

  /** The loop at the end of `decompress`, started from node `cur`: each bit
      moves to the right child ('1') or left child ('0'); on reaching a leaf
      its symbol is emitted and the walk goes back to the root.  Every byte
      emitted lies in the tree, and each one took at least one bit. */
  function Walk(root: Tree, cur: Tree, bits: seq<bool>): (r: Decoded)
    requires root.Node? && cur.Node?
    ensures r.at.Node?
    ensures |r.out| <= |bits|
    ensures forall i :: 0 <= i < |r.out| ==> r.out[i] in LeafSymbols(root) + LeafSymbols(cur)
    decreases |bits|
  {
    if |bits| == 0 then Decoded([], cur)
    else
      var next := if bits[0] then cur.right else cur.left;
      if next.Leaf? then
        var rest := Walk(root, root, bits[1..]);
        Decoded([next.sym] + rest.out, rest.at)
      else
        Walk(root, next, bits[1..])
  }

  /** The decoded bytes.  A run of bits that stops inside a code leaves the
      walk away from the root and that partial code emits nothing, as in the
      C++.  A tree that is a bare leaf decodes only the empty bit string: the
      C++ would follow a null child pointer on the first bit. */
  function Decode(root: Tree, bits: seq<bool>): (out: seq<Byte>)
    requires root.Node? || |bits| == 0
    ensures |out| <= |bits|
    ensures forall i :: 0 <= i < |out| ==> out[i] in LeafSymbols(root)
  {
    if root.Leaf? then [] else Walk(root, root, bits).out
  }

  /** Walking a symbol's path from `cur` emits exactly that symbol and goes
      back to the root, whatever bits follow. */
  lemma {:induction false} WalkCode(root: Tree, cur: Tree, c: seq<bool>, s: Byte, rest: seq<bool>)
    requires root.Node? && cur.Node?
    requires LeafAt(cur, c, s)
    ensures Walk(root, cur, c + rest)
      == Decoded([s] + Walk(root, root, rest).out, Walk(root, root, rest).at)
    decreases |c|
  {
    var next := if c[0] then cur.right else cur.left;
    assert (c + rest)[0] == c[0];
    assert (c + rest)[1..] == c[1..] + rest;
    if |c| > 1 {
      WalkCode(root, next, c[1..], s, rest);
    } else {
      assert c[1..] + rest == rest;
    }
  }

  /** Decoding the encoding of `text` under the tree's own codes walks back
      to the root after the last code and yields `text`. */
  lemma {:induction false} WalkEncoded(root: Tree, text: seq<Byte>)
    requires root.Node?
    requires Covers(Codes(root), text)
    ensures Walk(root, root, EncodeText(text, Codes(root)).bits) == Decoded(text, root)
    decreases |text|
  {
    if |text| > 0 {
      var codes := Codes(root);
      assert Covers(codes, text[1..]);
      var rest := EncodeText(text[1..], codes).bits;
      assert EncodeText(text, codes).bits == codes[text[0]] + rest;
      CodesArePaths(root);
      WalkCode(root, root, codes[text[0]], text[0], rest);
      WalkEncoded(root, text[1..]);
      assert [text[0]] + text[1..] == text;
    }
  }

  /** The decode round trip: for a tree with an internal root and a text all
      of whose bytes are leaves of it, decoding the encoding gives the text. */
  lemma {:induction false} DecodeEncode(root: Tree, text: seq<Byte>)
    requires root.Node?
    requires Covers(Codes(root), text)
    ensures Decode(root, EncodeText(text, Codes(root)).bits) == text
  {
    WalkEncoded(root, text);
  }

  /** A bare-leaf tree gives every byte of its one-symbol text the empty
      code, so the encoding is empty and decodes to nothing at all. */
  lemma {:induction false} SingleLeafEncodesToNothing(s: Byte, f: nat, text: seq<Byte>)
    requires forall i :: 0 <= i < |text| ==> text[i] == s
    ensures EncodeText(text, Codes(Leaf(s, f))) == Encoded([])
    ensures Decode(Leaf(s, f), []) == []
    decreases |text|
  {
    if |text| > 0 {
      SingleLeafEncodesToNothing(s, f, text[1..]);
    }
  }
}
