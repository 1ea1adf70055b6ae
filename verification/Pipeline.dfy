/**
  `compress` and `decompress` with the file I/O taken out: compression maps
  the input bytes to the container bytes, decompression maps container bytes
  to output bytes.

  Two versions are given.  `CompressAsWritten` / `DecompressAsWritten` follow
  the C++ step by step, with the table order and the heap's tie-break fixed
  as the `Frequency` and `TreeBuilder` modules describe, including its failure on a text with one distinct byte
  (the lone leaf gets the empty code, so nothing is stored for the text and
  nothing comes back) and its undefined behaviour on the empty text (the
  tree builder reads the top of an empty heap).  `Compress` / `Decompress`
  repair both: a lone leaf is given an extra zero-count sibling so that its
  code is one bit long, and an empty table stands for the empty text.  The
  container format is unchanged.
 */
module Pipeline {
  import opened Bits
  import opened Frequency
  import opened HuffmanTree
  import opened TreeBuilder
  import opened CodeGen
  import opened Codec
  import opened Container

  /** Every byte of `text` is a leaf of `root`. */
  predicate InTree(text: seq<Byte>, root: Tree) {
    forall i :: 0 <= i < |text| ==> text[i] in LeafSymbols(root)
  }

  /** `encodeText` under the codes of `root`.  With an internal root the bits
      decode back to the text, and their number is the weighted code length
      of the text's frequency table. */
  function TreeBits(text: seq<Byte>, root: Tree): (bits: seq<bool>)
    requires InTree(text, root)
    ensures root.Node? ==> Decode(root, bits) == text
    ensures Symbols(FrequencyTable(text)) <= Codes(root).Keys
    ensures |bits| == Cost(FrequencyTable(text), Codes(root))
  {
    var codes := Codes(root);
    assert Covers(codes, text);
    EncodedLength(text, codes);
    if root.Node? then
      DecodeEncode(root, text);
      EncodeText(text, codes).bits
    else
      EncodeText(text, codes).bits
  }

  /** The table of a non-empty text has an entry. */
  lemma {:induction false} TableOfNonEmpty(text: seq<Byte>)
    requires |text| > 0
    ensures |FrequencyTable(text)| >= 1
    ensures InTree(text, BuildTree(FrequencyTable(text)))
  {
    FrequencySymbols(text);
    assert text[0] in Symbols(FrequencyTable(text));
    BuildTreeSymbols(FrequencyTable(text));
  }

  /** The table of a text shorter than 2^32 bytes fits the container's fields:
      fewer than 2^16 entries, each count below 2^32. */
  lemma {:induction false} StoredTableFits(text: seq<Byte>)
    requires |text| < U32Limit
    ensures |FrequencyTable(text)| < U16Limit
    ensures forall i :: 0 <= i < |FrequencyTable(text)| ==> FrequencyTable(text)[i].freq < U32Limit
  {
    var t := FrequencyTable(text);
    TableAtMost256(t);
    FrequencySum(text);
    forall i | 0 <= i < |t|
      ensures t[i].freq < U32Limit
    {
      EntryAtMostSum(t, i);
    }
  }

  // ---------------------------------------------------------------------
  // As written

  /** The table is empty exactly for the empty text, the one input for
      which `buildHuffmanTree` reads the top of an empty heap. */
  lemma {:induction false} NoTreeForEmptyText(text: seq<Byte>)
    ensures |FrequencyTable(text)| == 0 <==> |text| == 0
  {
    if |text| > 0 {
      TableOfNonEmpty(text);
    }
  }

  /** `compress` as the C++ does it, for a non-empty text.  The container
      is the 2-byte count, 5 bytes per table entry, the padding byte, and the
      weighted code length under the built tree rounded up to whole bytes. */
  function CompressAsWritten(text: seq<Byte>): (container: seq<Byte>)
    requires |text| > 0
    ensures |FrequencyTable(text)| >= 1
    ensures Symbols(FrequencyTable(text)) <= Codes(BuildTree(FrequencyTable(text))).Keys
    ensures var cost := Cost(FrequencyTable(text), Codes(BuildTree(FrequencyTable(text))));
      |container| == 3 + 5 * |FrequencyTable(text)| + (cost + Padding(cost)) / 8
  {
    TableOfNonEmpty(text);
    var t := FrequencyTable(text);
    WriteFrequencyMap(t) + WriteEncodedData(TreeBits(text, BuildTree(t)))
  }

  /** What `decompress` needs of its input to stay within defined behaviour:
      the table is all there and not empty, the padding does not exceed the
      data, and a bare-leaf tree is not asked to walk any bit. */
  predicate ReadableAsWritten(container: seq<Byte>) {
    TableComplete(container)
    && |ReadFrequencyMap(container).0| >= 1
    && PaddingFits(ReadFrequencyMap(container).1)
    && (BuildTree(ReadFrequencyMap(container).0).Node?
        || |ReadEncodedData(ReadFrequencyMap(container).1)| == 0)
  }

  /** `decompress` as the C++ does it: read the table, rebuild the tree, read
      the bits and walk them.  Every output byte has an entry in the stored
      table, and there are no more output bytes than data bits. */
  function DecompressAsWritten(container: seq<Byte>): (out: seq<Byte>)
    requires ReadableAsWritten(container)
    ensures forall i :: 0 <= i < |out| ==> out[i] in Symbols(ReadFrequencyMap(container).0)
    ensures |out| <= |ReadEncodedData(ReadFrequencyMap(container).1)|
  {
    var t := ReadFrequencyMap(container).0;
    BuildTreeSymbols(t);
    Decode(BuildTree(t), ReadEncodedData(ReadFrequencyMap(container).1))
  }

  /** As written, a text with at least two distinct bytes survives the round
      trip. */
  lemma {:induction false} RoundTripAsWritten(text: seq<Byte>)
    requires |text| < U32Limit
    requires |FrequencyTable(text)| >= 2
    ensures |text| > 0
    ensures ReadableAsWritten(CompressAsWritten(text))
    ensures DecompressAsWritten(CompressAsWritten(text)) == text
  {
    FrequencySum(text);
    var t := FrequencyTable(text);
    TableOfNonEmpty(text);
    var data := WriteEncodedData(TreeBits(text, BuildTree(t)));
    StoredTableFits(text);
    FrequencyMapRoundTrip(t, data);
    EncodedDataRoundTrip(TreeBits(text, BuildTree(t)));
  }

  /** As written, a non-empty text with a single distinct byte comes back as
      nothing at all: the stored bitstream is empty. */
  lemma {:induction false} SingleSymbolLost(text: seq<Byte>)
    requires |text| < U32Limit
    requires |FrequencyTable(text)| == 1
    ensures |text| > 0
    ensures ReadableAsWritten(CompressAsWritten(text))
    ensures DecompressAsWritten(CompressAsWritten(text)) == []
    ensures DecompressAsWritten(CompressAsWritten(text)) != text
  {
    FrequencySum(text);
    var t := FrequencyTable(text);
    TableOfNonEmpty(text);
    var root := BuildTree(t);
    FrequencySymbols(text);
    forall i | 0 <= i < |text|
      ensures text[i] == t[0].sym
    {
      assert text[i] in Symbols(t);
    }
    SingleLeafEncodesToNothing(t[0].sym, t[0].freq, text);
    var bits := TreeBits(text, root);
    assert bits == [];
    StoredTableFits(text);
    FrequencyMapRoundTrip(t, WriteEncodedData(bits));
    EncodedDataRoundTrip(bits);
  }

  // ---------------------------------------------------------------------
  // Corrected

  /** The symbol of the zero-count sibling that `CodingTree` adds to a lone
      leaf, if any. */
  function ExtraLeaf(t: Table): set<Byte> {
    if |t| == 1 then {(t[0].sym + 1) % 256} else {}
  }

  /** The tree used for coding: `buildHuffmanTree`'s tree, except that a lone
      leaf is paired with a zero-count leaf for another byte, so that every
      code of the tree is at least one bit long. */
  function CodingTree(t: Table): (root: Tree)
    requires |t| >= 1
    ensures root.Node?
    ensures WellFormed(root)
    ensures root.freq == Sum(t)
    ensures LeafSymbols(root) == Symbols(t) + ExtraLeaf(t)
    ensures |t| >= 2 ==> root == BuildTree(t)
  {
    BuildTreeSymbols(t);
    var root := BuildTree(t);
    if root.Leaf? then Node(root.freq, root, Leaf((root.sym + 1) % 256, 0)) else root
  }

  /** The leaves of the coding tree are the table's entries, each with its
      count, plus, for a lone entry, the added sibling with count zero. */
  lemma {:induction false} CodingTreeLeaves(t: Table)
    requires |t| >= 1
    ensures LeafBag(CodingTree(t))
      == multiset(t) + (if |t| == 1 then multiset{Entry((t[0].sym + 1) % 256, 0)} else multiset{})
  {
    if |t| == 1 {
      assert t == [t[0]];
      var root := BuildTree(t);
      assert LeafBag(Leaf((root.sym + 1) % 256, 0)) == multiset{Entry((t[0].sym + 1) % 256, 0)};
    }
  }

  /** `compress`, corrected: the empty text is stored as an empty table and
      no bits, three zero bytes in all; any other text is coded with
      `CodingTree`, and the container is the 2-byte count, 5 bytes per table
      entry, the padding byte, and the weighted code length rounded up to
      whole bytes. */
  function Compress(text: seq<Byte>): (container: seq<Byte>)
    ensures |text| == 0 ==> container == [0, 0, 0]
    ensures |text| > 0 ==> |FrequencyTable(text)| >= 1
    ensures |text| > 0 ==> Symbols(FrequencyTable(text)) <= Codes(CodingTree(FrequencyTable(text))).Keys
    ensures |text| > 0 ==>
      var cost := Cost(FrequencyTable(text), Codes(CodingTree(FrequencyTable(text))));
      |container| == 3 + 5 * |FrequencyTable(text)| + (cost + Padding(cost)) / 8
  {
    var t := FrequencyTable(text);
    if |text| == 0 then
      assert WriteEncodedData([]) == [0] + Pack([]);
      WriteFrequencyMap(t) + WriteEncodedData([])
    else
      TableOfNonEmpty(text);
      assert InTree(text, CodingTree(t));
      WriteFrequencyMap(t) + WriteEncodedData(TreeBits(text, CodingTree(t)))
  }

  /** The corrected decompressor needs only a complete table and a padding
      count that fits the data. */
  predicate Readable(container: seq<Byte>) {
    TableComplete(container) && PaddingFits(ReadFrequencyMap(container).1)
  }

  /** `decompress`, corrected: an empty table gives the empty output, any
      other table is decoded with `CodingTree`.  Every output byte has an
      entry in the stored table, or is the added sibling of a lone leaf
      (reachable only by a container no compressor wrote). */
  function Decompress(container: seq<Byte>): (out: seq<Byte>)
    requires Readable(container)
    ensures forall i :: 0 <= i < |out| ==>
      out[i] in Symbols(ReadFrequencyMap(container).0) + ExtraLeaf(ReadFrequencyMap(container).0)
    ensures |ReadFrequencyMap(container).0| == 0 ==> out == []
    ensures |out| <= |ReadEncodedData(ReadFrequencyMap(container).1)|
  {
    var t := ReadFrequencyMap(container).0;
    if |t| == 0 then []
    else Decode(CodingTree(t), ReadEncodedData(ReadFrequencyMap(container).1))
  }

  /** The round trip: every text shorter than 2^32 bytes is recovered from
      its compressed form, including the empty text and a text of one
      repeated byte. */
  lemma {:induction false} RoundTrip(text: seq<Byte>)
    requires |text| < U32Limit
    ensures Readable(Compress(text))
    ensures Decompress(Compress(text)) == text
  {
    var t := FrequencyTable(text);
    StoredTableFits(text);
    if |text| == 0 {
      FrequencyMapRoundTrip(t, WriteEncodedData([]));
      EncodedDataRoundTrip([]);
    } else {
      TableOfNonEmpty(text);
      var bits := TreeBits(text, CodingTree(t));
      FrequencyMapRoundTrip(t, WriteEncodedData(bits));
      EncodedDataRoundTrip(bits);
    }
  }

  /** The correction changes nothing when the text has two or more distinct
      bytes: both compressors write the same container. */
  lemma {:induction false} CompressAgrees(text: seq<Byte>)
    requires |FrequencyTable(text)| >= 2
    ensures |text| > 0
    ensures Compress(text) == CompressAsWritten(text)
  {
    FrequencySum(text);
    EntryAtMostSum(FrequencyTable(text), 0);
  }

  /** Nor does it change decompression of a container whose table has two or
      more entries. */
  lemma {:induction false} DecompressAgrees(container: seq<Byte>)
    requires ReadableAsWritten(container)
    requires |ReadFrequencyMap(container).0| >= 2
    ensures Readable(container)
    ensures Decompress(container) == DecompressAsWritten(container)
  {
  }

  /** The container of the empty text, three zero bytes (an entry count of
      zero and a padding of zero, with no data), decompresses to nothing. */
  lemma {:induction false} EmptyText()
    ensures Readable([0, 0, 0]) && Decompress([0, 0, 0]) == []
  {
    RoundTrip([]);
    assert Compress([]) == [0, 0, 0];
  }

  /** `n` copies of the byte `b`. */
  function Run(b: Byte, n: nat): (r: seq<Byte>)
    ensures |r| == n
    ensures forall i :: 0 <= i < n ==> r[i] == b
  {
    if n == 0 then [] else [b] + Run(b, n - 1)
  }

  /** Any run of one byte value, such as "aa", is lost by the as-written
      round trip. */
  lemma {:induction false} RepeatedByteLost(b: Byte, n: nat)
    requires 0 < n < U32Limit
    ensures ReadableAsWritten(CompressAsWritten(Run(b, n)))
    ensures DecompressAsWritten(CompressAsWritten(Run(b, n))) == []
  {
    var text := Run(b, n);
    var t := FrequencyTable(text);
    FrequencySymbols(text);
    assert text[0] == b;
    assert Symbols(t) == {b};
    DistinctSymbolCount(t);
    SingleSymbolLost(text);
  }
}
