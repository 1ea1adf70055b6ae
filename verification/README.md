# Huffman file compressor, modelled in Dafny

This project models the compression core of `huffman.cpp`, a single-file
C++ Huffman compressor. Each step becomes a pure function over bytes
(`Byte`, 0..255) and bit strings (`seq<bool>`, where `true` is the
character '1'):

- `buildFrequencyMap` counts the bytes of the input.
- `buildHuffmanTree` merges the two lightest trees until one is left. The
  first tree taken becomes the left child.
- `generateCodes` gives each leaf its root-to-leaf path: left is 0, right
  is 1.
- `encodeText` concatenates the codes of the input bytes.
- The container holds the frequency table (a 16-bit count, then one
  symbol byte and one 32-bit count per entry), then a padding byte, then
  the code bits packed eight to a byte, most significant bit first.
- The decode loop of `decompress` walks the tree bit by bit. It emits a
  leaf's symbol and goes back to the root.

Modules, in dependency order:

| module | models |
|---|---|
| `Bits` | bytes, bit strings, `std::bitset<8>` conversions |
| `Frequency` | the frequency table and `buildFrequencyMap` |
| `HuffmanTree` | `struct Node` and tree bookkeeping (leaves, weights) |
| `TreeBuilder` | `buildHuffmanTree` over a forest of trees |
| `CodeGen` | `generateCodes` |
| `Codec` | `encodeText` and the decode walk |
| `Container` | `writeFrequencyMap`/`readFrequencyMap`, `writeEncodedData`/`readEncodedData` |
| `Pipeline` | `compress`/`decompress`, as written and corrected |

How the unordered parts of the C++ are fixed:

- **The hash map.** A frequency table is a sequence of entries with
  pairwise distinct symbols, in order of each byte's first occurrence.
  That one order stands in for the `unordered_map` iteration order.
- **The heap.** The `priority_queue` with `Compare` is modelled as a
  forest (a sequence of trees). Each pop takes the first tree of least
  count. A merged node goes to the end of the forest.
- **Rebuilding the tree.** The table read back from a container is in the
  order it was written. So `decompress` rebuilds the tree that `compress`
  used.
- **Decoding.** The decoder is lenient, as the C++ is. Bits that stop in
  the middle of a code emit nothing.

A lossless compressor must give back every input it compresses. This
code does not always, and the model follows the code:

- **One distinct byte.** A lone leaf gets the empty code, so no data bits
  are stored and the text is lost. Every code would need to be at least
  one bit long.
- **Empty input.** The code reads the top of an empty heap, which is
  undefined behaviour, instead of writing a container that decompresses
  to nothing.
- **Truncated containers.** The code never checks its reads, so the model
  puts preconditions on the readers.

The first two points are logged under Findings. `Pipeline.Compress` and
`Pipeline.Decompress` are the corrected pipeline.

## Model

| member | source | states |
|---|---|---|
| Bits.ByteToBits | huffman.cpp:146-147 | the eight bits of a byte, most significant first, spell that byte's value |
| Bits.BitsToByte | huffman.cpp:131-134 | the byte packed from eight bits unpacks to exactly those bits |
| Bits.NatToBitsInverse | huffman.cpp:146-147 | writing a number below 2^n as n bits and reading them back gives the number |
| Bits.BitsToNatInverse | huffman.cpp:133 | reading n bits as a number and writing it back as n bits gives the same bits |
| Frequency.Bump | huffman.cpp:32 | counting a byte raises its entry by one, or appends a count-1 entry for a new byte; every other entry keeps its place and count |
| Frequency.BumpInvariant | huffman.cpp:32 | counting a byte keeps the symbols distinct, adds the byte to them, and raises the total by one |
| Frequency.Store | huffman.cpp:109 | storing a record replaces the count of an existing symbol in place, or appends the record for a new one |
| Frequency.StoreInvariant | huffman.cpp:109 | storing a record keeps the symbols distinct and adds its symbol |
| Frequency.SymbolIndex | huffman.cpp:29-35 | a byte with an entry has it at some position of the table |
| Frequency.SymbolCountAtMost | huffman.cpp:104-110 | a run of records names no more distinct symbols than it has records, so the table read back is no longer than the stored count |
| Frequency.FrequencyTable | huffman.cpp:29-35 | the table never holds two entries for one byte |
| Frequency.FrequencySymbols | huffman.cpp:29-35 | a byte has an entry if and only if it occurs in the text |
| Frequency.FrequencyCounts | huffman.cpp:29-35 | each entry's count is the number of occurrences of its byte in the text, at least one |
| Frequency.FrequencySum | huffman.cpp:29-35 | the counts add up to the length of the text |
| Frequency.TableAtMost256 | huffman.cpp:85 | a table has at most 256 entries, so its size always fits the 16-bit count |
| TreeBuilder.MinIndex | huffman.cpp:49-50 | the tree `minHeap.top()` yields is at a position inside the forest; which one is stated by `MinIndexLeast` |
| TreeBuilder.MinIndexLeast | huffman.cpp:22-26 | the chosen tree has the least count, and every tree before it has a strictly greater count |
| TreeBuilder.Merge | huffman.cpp:48-54 | one round leaves one tree fewer, and the new last tree is a node whose count is the sum of its children's; which trees it pairs and that the others stay as they were are stated by `MergeTakesLightest` and `MergeFrame` |
| TreeBuilder.MergeFrame | huffman.cpp:49-53 | a round touches no tree but the two it pops: the trees that stay plus the new node's two children are exactly the forest's trees before the round |
| TreeBuilder.MergeTakesLightest | huffman.cpp:49-52 | the new node's left child is lightest of the whole forest, and its right child is lightest of the trees that stay |
| TreeBuilder.MergeWeight | huffman.cpp:49-53 | a round keeps the total count of the forest |
| TreeBuilder.MergeBag | huffman.cpp:49-53 | a round keeps the multiset of (symbol, count) leaves of the forest |
| TreeBuilder.MergeWellFormed | huffman.cpp:52 | a round keeps every node's count equal to the sum of its children's |
| TreeBuilder.BuildForest | huffman.cpp:48-57 | the last tree carries the whole forest's count and leaves; it is well-formed if the forest was; it is a node if there were two or more trees |
| TreeBuilder.InitialForest | huffman.cpp:42-45 | the starting forest has one leaf per table entry, with that entry's symbol and count |
| TreeBuilder.InitialForestAccounts | huffman.cpp:42-45 | the starting forest weighs the table's total, and its leaves are the table's entries |
| TreeBuilder.BuildTree | huffman.cpp:38-58 | the tree's leaves are exactly the table's entries; it is well-formed; the root count is the total; two or more entries give an internal root; one entry gives a bare leaf |
| TreeBuilder.BuildTreeSymbols | huffman.cpp:38-58 | the tree's leaf symbols are exactly the table's symbols |
| CodeGen.GenerateCodes | huffman.cpp:61-72 | exactly the leaf symbols of the tree receive codes |
| CodeGen.Codes | huffman.cpp:186-187 | the code table of a whole tree has a code for each leaf symbol and for nothing else |
| CodeGen.GeneratedCodeIsPath | huffman.cpp:61-72 | a generated code is the starting path followed by the path to a leaf holding that symbol |
| CodeGen.CodesArePaths | huffman.cpp:61-72 | following a symbol's code from the root (0 left, 1 right) ends on that symbol's leaf |
| CodeGen.LeafPathsNotNested | huffman.cpp:66-71 | a path ending on a leaf is never a proper prefix of another path ending on a leaf |
| CodeGen.CodesPrefixFree | huffman.cpp:61-72 | with an internal root every code is non-empty, and no symbol's code is a prefix of another's |
| CodeGen.SingleLeafCode | huffman.cpp:66-67 | a bare-leaf tree gives its symbol the empty code |
| Codec.EncodeText | huffman.cpp:75-81 | encoding fails exactly when some byte has no code, naming such a byte |
| Codec.EncodeAppend | huffman.cpp:77-79 | encoding a concatenation is the concatenation of the encodings |
| Codec.EncodeIsConcatenation | huffman.cpp:75-81 | the encoding is the codes of the bytes laid end to end in input order, as built independently from the back |
| Codec.EncodedLength | huffman.cpp:75-81 | the encoded length is the sum over table entries of count times code length |
| Codec.Walk | huffman.cpp:240-253 | the walk stays on internal nodes, emits at most one byte per bit, and every byte it emits is a leaf symbol |
| Codec.Decode | huffman.cpp:239-253 | no more output bytes than bits, each a leaf symbol of the tree |
| Codec.WalkCode | huffman.cpp:240-253 | walking one symbol's code emits that symbol and returns to the root, whatever follows |
| Codec.WalkEncoded | huffman.cpp:240-253 | walking an encoded text emits the text and ends back at the root |
| Codec.DecodeEncode | huffman.cpp:240-253 | with an internal root, decoding the encoding of a text over the tree's symbols gives the text |
| Codec.SingleLeafEncodesToNothing | huffman.cpp:66-67 | under a bare-leaf tree a run of its byte encodes to no bits at all |
| Container.LittleEndianRoundTrip | huffman.cpp:85-86 | a number below 256^w written as w little-endian bytes reads back unchanged |
| Container.Records | huffman.cpp:88-94 | five bytes per entry |
| Container.WriteFrequencyMap | huffman.cpp:84-95 | the serialised table is 2 + 5n bytes for n entries |
| Container.RawRecords | huffman.cpp:104-110 | exactly as many records as the stored count |
| Container.Collect | huffman.cpp:104-110 | collecting records yields a table with distinct symbols, namely the symbols of the collected records |
| Container.CollectDistinct | huffman.cpp:104-110 | records with distinct symbols are collected as they are, in order |
| Container.ReadFrequencyMap | huffman.cpp:98-113 | the read table has distinct symbols and no more entries than the stored count; the rest of the container is what follows the records |
| Container.RecordsRoundTrip | huffman.cpp:88-94 | reading back the written records gives the entries in order, when every count is below 2^32 |
| Container.FrequencyMapRoundTrip | huffman.cpp:84-113 | a distinct table of fewer than 2^16 entries with counts below 2^32 reads back as the same entries in the same order, and the following bytes are left alone |
| Container.Padding | huffman.cpp:118-120 | the padding is below 8 and brings the bit count to a multiple of 8 |
| Container.Zeros | huffman.cpp:124-126 | the padding bits are all zero |
| Container.Pack | huffman.cpp:131-135 | one byte per eight bits |
| Container.Unpack | huffman.cpp:145-148 | eight bits per byte |
| Container.UnpackPack | huffman.cpp:131-135 | unpacking packed bits gives the bits back |
| Container.PackUnpack | huffman.cpp:145-148 | packing unpacked bytes gives the bytes back |
| Container.WriteEncodedData | huffman.cpp:116-136 | the first byte is the padding, followed by (L + padding) / 8 data bytes |
| Container.WriteEncodedDataUnpacks | huffman.cpp:116-136 | the data bytes unpack to the bits followed by the zero padding bits |
| Container.ReadEncodedData | huffman.cpp:139-156 | no data bytes give no bits; otherwise it gives 8 bits per data byte less the padding, a prefix of the unpacked data |
| Container.EncodedDataRoundTrip | huffman.cpp:116-156 | reading back what was written strips exactly the padding and returns the original bits |
| Pipeline.TreeBits | huffman.cpp:186-187 | with an internal root the bits decode back to the text; their number is the weighted code length of the text's table |
| Pipeline.TableOfNonEmpty | huffman.cpp:29-35 | a non-empty text has a non-empty table, and every byte of it is a leaf of the built tree |
| Pipeline.StoredTableFits | huffman.cpp:85 | the table of a text shorter than 2^32 bytes has fewer than 2^16 entries, each count below 2^32 |
| Pipeline.NoTreeForEmptyText | huffman.cpp:57 | the table is empty, and the heap has no top, exactly when the text is empty |
| Pipeline.CompressAsWritten | huffman.cpp:168-211 | a non-empty text has a non-empty table, and its container is 3 + 5n bytes for an n-entry table plus the weighted code length under the built tree rounded up to whole bytes |
| Pipeline.DecompressAsWritten | huffman.cpp:214-261 | every output byte has an entry in the stored table; no more bytes than data bits |
| Pipeline.RoundTripAsWritten | huffman.cpp:168-261 | as written, a text with two or more distinct bytes is recovered from its container |
| Pipeline.SingleSymbolLost | huffman.cpp:66-67 | as written, a text with one distinct byte comes back as nothing |
| Pipeline.RepeatedByteLost | huffman.cpp:66-67 | as written, any run of one byte value, such as "aa", decompresses to nothing |
| Pipeline.CodingTree | huffman.cpp:38-58 | the corrected tree always has an internal root; it is well-formed and weighs the total; its leaf symbols are the table's symbols plus, for a lone entry, one other byte; with two or more entries it is the built tree |
| Pipeline.CodingTreeLeaves | huffman.cpp:38-58 | the corrected tree's leaves are the table's entries with their counts plus, for a lone entry, one sibling with count zero |
| Pipeline.Decompress | huffman.cpp:214-261 | an empty table gives no output; every output byte is a table symbol or the added sibling; no more bytes than data bits |
| Pipeline.RoundTrip | huffman.cpp:168-261 | every text shorter than 2^32 bytes, including the empty text and a run of one byte, is recovered from its compressed form |
| Pipeline.CompressAgrees | huffman.cpp:168-211 | for two or more distinct bytes the corrected compressor writes the same container as the original |
| Pipeline.DecompressAgrees | huffman.cpp:214-261 | for a stored table of two or more entries the corrected decompressor gives the same output as the original |
| Pipeline.EmptyText | huffman.cpp:57 | the three zero bytes that store the empty text decompress to nothing |
| Pipeline.Compress | huffman.cpp:168-211 | the corrected compressor stores the empty text as three zero bytes; for any other text the container is 3 + 5n bytes for an n-entry table plus the weighted code length rounded up to whole bytes |

## Left out

- File and console I/O are not modelled: opening, reading and writing the files, and the messages on `cout`/`cerr`. Compression and decompression are functions from bytes to bytes.
- `main` and argument handling are not modelled: they only dispatch to `compress` or `decompress`.
- `freeTree` and the raw `new`/`delete` are not modelled: the tree is an immutable value.
- The `unordered_map` iteration order is not modelled. Tables keep first-occurrence order, and a table read back keeps its written order. The real map read back by `decompress` may iterate in a different order than the compressor's map.
- The `priority_queue` tie-break among equal counts is not modelled. It is implementation-defined; the model takes the first tree of least count in forest order. Combined with the previous item, the model does not claim that `decompress` rebuilds the compressor's tree byte for byte in the C++.
- Host byte order is not modelled: the two integer fields are little-endian.
- The `char` type is treated as an unsigned byte 0..255.
- Frequency.FrequencyTable: counts are unbounded integers. The C++ `int` counter overflows only beyond 2^31 - 1 occurrences; the round-trip lemmas require texts shorter than 2^32 bytes.
- Container.ReadFrequencyMap: a stored count of 2^31 or more stays a natural number. The C++ converts it to a negative `int`.
- TreeBuilder.Merge: merged counts are unbounded integers, with no `int` overflow.
- Pipeline.RoundTripAsWritten: counts are unbounded, so the as-written lemmas (with `Pipeline.SingleSymbolLost` and `Pipeline.RepeatedByteLost`) cover texts up to 2^32 - 1 bytes. From 2^31 bytes on, the C++ `int` count of line 32 and the root's sum `left->freq + right->freq` of line 52 overflow. The model does not say what the C++ does there.
- Container.ReadFrequencyMap: truncated input is not modelled. The C++ never checks its reads, so a complete table is a precondition (`TableComplete`).
- Container.ReadEncodedData: a padding byte larger than the data bits would make the C++ erase before the start of its string. It is a precondition (`PaddingFits`).
- Codec.Decode: decoding with a bare-leaf tree follows a null pointer in the C++ when any bit is present. This is a precondition, on `Decode` and in `ReadableAsWritten`.
- Pipeline.DecompressAsWritten: a stored table with no entries reads the top of an empty heap, so the stored table is required to have an entry (`ReadableAsWritten`).
- Codec.EncodeText: the `std::out_of_range` thrown by `huffmanCode.at` is the `UnknownSymbol` result. It does not arise in the pipeline, where every byte has a code.

## Findings

| source | as written | input that shows it | evidently intended | confidence | as-written member | corrected member |
|---|---|---|---|---|---|---|
| huffman.cpp:66-67 | when the input has one distinct byte, the tree is a bare leaf and its code is the empty string, so no data bits are stored and `decompress` writes nothing | the two-byte file "aa" | every byte gets a code of at least one bit, so decompression gives back the input | not executed | Pipeline.RepeatedByteLost | Pipeline.RoundTrip |
| huffman.cpp:57 | for an empty input the heap is empty and `minHeap.top()` is undefined behaviour | the empty file | an empty input compresses to a container that decompresses to nothing | not executed | Pipeline.NoTreeForEmptyText | Pipeline.EmptyText |

The corrected pipeline, `Pipeline.Compress` and `Pipeline.Decompress`, makes two changes:

- It pairs a lone leaf with a zero-count sibling (`Pipeline.CodingTree`, `Pipeline.CodingTreeLeaves`), giving the lone byte the one-bit code 0.
- It stores the empty input as an empty table with no data.

The container format is unchanged. `Pipeline.CompressAgrees` and
`Pipeline.DecompressAgrees` show that nothing else changes.
