/**
  The compressed container: `writeFrequencyMap` / `readFrequencyMap` and
  `writeEncodedData` / `readEncodedData`.

  Layout: a 16-bit count of table entries; per entry one symbol byte and a
  32-bit count; one byte holding the number of padding bits; then the code
  bits, padded with zero bits to a whole number of bytes and packed eight to
  a byte, most significant bit first.  The C++ writes the two integer
  fields in the host's byte order; this model fixes little-endian.
 */
module Container {
  import opened Bits
  import opened Frequency

  function Pow256(n: nat): (r: nat)
    ensures r >= 1
  {
    if n == 0 then 1 else 256 * Pow256(n - 1)
  }

  /** The `width` low bytes of `n`, least significant first. */
  function LittleEndian(n: nat, width: nat): (r: seq<Byte>)
    ensures |r| == width
  {
    if width == 0 then [] else [n % 256] + LittleEndian(n / 256, width - 1)
  }

  /** The number that little-endian bytes spell. */
  function FromLittleEndian(bytes: seq<Byte>): (n: nat)
    ensures n < Pow256(|bytes|)
  {
    if |bytes| == 0 then 0 else bytes[0] + 256 * FromLittleEndian(bytes[1..])
  }

  lemma {:induction false} LittleEndianRoundTrip(n: nat, width: nat)
    requires n < Pow256(width)
    ensures FromLittleEndian(LittleEndian(n, width)) == n
  {
    if width > 0 {
      var r := LittleEndian(n, width);
      assert r[1..] == LittleEndian(n / 256, width - 1);
      LittleEndianRoundTrip(n / 256, width - 1);
    }
  }

  const U16Limit: nat := 0x1_0000
  const U32Limit: nat := 0x1_0000_0000

  /** The entry records: symbol byte, then the count as a `uint32_t`
      (reduced modulo 2^32, as the conversion from `int` does). */
  function Records(t: Table): (r: seq<Byte>)
    ensures |r| == 5 * |t|
  {
    if |t| == 0 then []
    else [t[0].sym] + LittleEndian(t[0].freq % U32Limit, 4) + Records(t[1..])
  }

  /** `writeFrequencyMap`: the entry count as a `uint16_t` (reduced modulo
      2^16), then the records in table order. */
  function WriteFrequencyMap(t: Table): (r: seq<Byte>)
    ensures |r| == 2 + 5 * |t|
  {
    LittleEndian(|t| % U16Limit, 2) + Records(t)
  }

  /** The stored entry count of a container that holds at least two bytes. */
  function StoredCount(bytes: seq<Byte>): nat
    requires |bytes| >= 2
  {
    FromLittleEndian(bytes[..2])
  }

  /** The table section is all there: the count and that many records.  The
      C++ never checks its reads, so this is demanded of the caller. */
  predicate TableComplete(bytes: seq<Byte>) {
    |bytes| >= 2 && |bytes| >= 2 + 5 * StoredCount(bytes)
  }

  /** The `n` records at the front of `bytes`, in the order they were
      written. */
  function RawRecords(bytes: seq<Byte>, n: nat): (r: Table)
    requires |bytes| >= 5 * n
    ensures |r| == n
  {
    if n == 0 then []
    else [Entry(bytes[0], FromLittleEndian(bytes[1..5]))] + RawRecords(bytes[5..], n - 1)
  }

  /** The reading loop's `freqMap[ch] = freq`, record after record, into the
      table `acc`: a later record for a symbol overrides an earlier one. */
  function Collect(acc: Table, records: Table): (r: Table)
    requires Distinct(acc)
    ensures Distinct(r)
    ensures Symbols(r) == Symbols(acc) + Symbols(records)
    decreases |records|
  {
    if |records| == 0 then acc
    else
      StoreInvariant(acc, records[0]);
      Collect(Store(acc, records[0]), records[1..])
  }

  /** Records whose symbols are already distinct are collected in order,
      each as it is. */
  lemma {:induction false} CollectDistinct(acc: Table, records: Table)
    requires Distinct(acc + records)
    ensures Distinct(acc)
    ensures Collect(acc, records) == acc + records
    decreases |records|
  {
    DistinctConcat(acc, records);
    if |records| > 0 {
      var e := records[0];
      assert e.sym in Symbols(records);
      assert acc + records == (acc + [e]) + records[1..];
      CollectDistinct(acc + [e], records[1..]);
    } else {
      assert acc + records == acc;
    }
  }

  /** `readFrequencyMap`: the stored count, that many records collected into
      a table, and the bytes that follow them in the container. */
  function ReadFrequencyMap(bytes: seq<Byte>): (r: (Table, seq<Byte>))
    requires TableComplete(bytes)
    ensures Distinct(r.0)
    ensures |r.0| <= StoredCount(bytes)
    ensures r.1 == bytes[2 + 5 * StoredCount(bytes)..]
  {
    var raw := RawRecords(bytes[2..], StoredCount(bytes));
    DistinctSymbolCount(Collect([], raw));
    SymbolCountAtMost(raw);
    (Collect([], raw), bytes[2 + 5 * StoredCount(bytes)..])
  }

  /** The first record of a written table, and where the others start. */
  lemma {:induction false} RecordsSplit(t: Table, rest: seq<Byte>)
    requires |t| > 0
    ensures (Records(t) + rest)[0] == t[0].sym
    ensures (Records(t) + rest)[1..5] == LittleEndian(t[0].freq % U32Limit, 4)
    ensures (Records(t) + rest)[5..] == Records(t[1..]) + rest
  {
    var head := [t[0].sym] + LittleEndian(t[0].freq % U32Limit, 4);
    assert Records(t) + rest == head + (Records(t[1..]) + rest);
  }

  lemma Pow256Limits()
    ensures Pow256(2) == U16Limit && Pow256(4) == U32Limit
  {
  }

  lemma {:induction false} RecordsRoundTrip(t: Table, rest: seq<Byte>)
    requires forall i :: 0 <= i < |t| ==> t[i].freq < U32Limit
    ensures RawRecords(Records(t) + rest, |t|) == t
  {
    if |t| > 0 {
      var bytes := Records(t) + rest;
      RecordsSplit(t, rest);
      Pow256Limits();
      assert t[0].freq % U32Limit == t[0].freq;
      LittleEndianRoundTrip(t[0].freq, 4);
      var head := Entry(bytes[0], FromLittleEndian(bytes[1..5]));
      assert head == t[0];
      RecordsRoundTrip(t[1..], rest);
      assert RawRecords(bytes, |t|) == [head] + RawRecords(bytes[5..], |t| - 1);
      assert t == [t[0]] + t[1..];
    }
  }

  /** The frequency-table round trip: reading back a written table yields the
      same entries in the same order and leaves the bytes after it alone,
      provided the count fits 16 bits and every frequency fits 32 bits. */
  lemma {:induction false} FrequencyMapRoundTrip(t: Table, rest: seq<Byte>)
    requires Distinct(t)
    requires |t| < U16Limit
    requires forall i :: 0 <= i < |t| ==> t[i].freq < U32Limit
    ensures TableComplete(WriteFrequencyMap(t) + rest)
    ensures ReadFrequencyMap(WriteFrequencyMap(t) + rest) == (t, rest)
  {
    var bytes := WriteFrequencyMap(t) + rest;
    assert bytes[..2] == LittleEndian(|t|, 2);
    Pow256Limits();
    LittleEndianRoundTrip(|t|, 2);
    assert bytes[2..] == Records(t) + rest;
    RecordsRoundTrip(t, rest);
    assert [] + t == t;
    CollectDistinct([], t);
  }

  /** The padding of `writeEncodedData`: the number of zero bits, below 8,
      that brings `len` bits up to a whole number of bytes (only one number
      below 8 does). */
  function Padding(len: nat): (p: nat)
    ensures p < 8
    ensures (len + p) % 8 == 0
  {
    var p := 8 - len % 8;
    if p == 8 then 0 else p
  }

  function Zeros(n: nat): (r: seq<bool>)
    ensures |r| == n
    ensures forall i :: 0 <= i < n ==> !r[i]
  {
    seq(n, _ => false)
  }

  /** Packs whole bytes of bits, eight at a time, most significant first. */
  function Pack(bits: seq<bool>): (r: seq<Byte>)
    requires |bits| % 8 == 0
    ensures |r| == |bits| / 8
    decreases |bits|
  {
    if |bits| == 0 then [] else [BitsToByte(bits[..8])] + Pack(bits[8..])
  }

  /** The bits of a byte string, eight per byte, most significant first. */
  function Unpack(bytes: seq<Byte>): (r: seq<bool>)
    ensures |r| == 8 * |bytes|
  {
    if |bytes| == 0 then [] else ByteToBits(bytes[0]) + Unpack(bytes[1..])
  }

  lemma {:induction false} UnpackPack(bits: seq<bool>)
    requires |bits| % 8 == 0
    ensures Unpack(Pack(bits)) == bits
    decreases |bits|
  {
    if |bits| > 0 {
      var p := Pack(bits);
      assert p[1..] == Pack(bits[8..]);
      UnpackPack(bits[8..]);
      assert bits == bits[..8] + bits[8..];
    }
  }

  lemma {:induction false} PackUnpack(bytes: seq<Byte>)
    ensures Pack(Unpack(bytes)) == bytes
  {
    if |bytes| > 0 {
      var u := Unpack(bytes);
      assert u[..8] == ByteToBits(bytes[0]);
      assert u[8..] == Unpack(bytes[1..]);
      assert BitsToByte(ByteToBits(bytes[0])) == bytes[0];
      PackUnpack(bytes[1..]);
      assert bytes == [bytes[0]] + bytes[1..];
    }
  }

  /** `writeEncodedData`: the padding byte, then the bits followed by that
      many zero bits, packed eight to a byte. */
  function WriteEncodedData(bits: seq<bool>): (r: seq<Byte>)
    ensures |r| == 1 + (|bits| + Padding(|bits|)) / 8
    ensures r[0] == Padding(|bits|)
  {
    [Padding(|bits|)] + Pack(bits + Zeros(Padding(|bits|)))
  }

  /** Unpacking the data bytes written by `writeEncodedData` gives exactly
      the bits followed by the padding's zero bits. */
  lemma {:induction false} WriteEncodedDataUnpacks(bits: seq<bool>)
    ensures Unpack(WriteEncodedData(bits)[1..]) == bits + Zeros(Padding(|bits|))
  {
    var padded := bits + Zeros(Padding(|bits|));
    UnpackPack(padded);
    assert WriteEncodedData(bits)[1..] == Pack(padded);
  }

  /** The padding byte must not exceed the bits that follow it: the C++
      would erase before the start of its string. */
  predicate PaddingFits(bytes: seq<Byte>) {
    |bytes| <= 1 || bytes[0] <= 8 * (|bytes| - 1)
  }

  /** `readEncodedData`: unpack every byte after the padding byte and drop the
      padding bits from the end.  With no bytes at all the padding read fails
      and no bits result. */
  function ReadEncodedData(bytes: seq<Byte>): (bits: seq<bool>)
    requires PaddingFits(bytes)
    ensures |bytes| <= 1 ==> bits == []
    ensures |bytes| > 1 ==> |bits| == 8 * (|bytes| - 1) - bytes[0]
    ensures |bytes| > 1 ==> IsPrefix(bits, Unpack(bytes[1..]))
  {
    if |bytes| == 0 then []
    else
      var padding := bytes[0];
      var unpacked := Unpack(bytes[1..]);
      if padding > 0 && |unpacked| > 0 then unpacked[..|unpacked| - padding] else unpacked
  }

  /** The bitstream round trip: reading back what `writeEncodedData` wrote
      strips exactly the padding and returns the original bits. */
  lemma {:induction false} EncodedDataRoundTrip(bits: seq<bool>)
    ensures PaddingFits(WriteEncodedData(bits))
    ensures ReadEncodedData(WriteEncodedData(bits)) == bits
  {
    WriteEncodedDataUnpacks(bits);
    var p := Padding(|bits|);
    assert (bits + Zeros(p))[..|bits|] == bits;
  }
}
