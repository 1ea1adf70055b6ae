/**
  Frequency analysis (`buildFrequencyMap`).

  The C++ keeps the counts in an `unordered_map<char, int>`.  Here the table
  is a sequence of entries with pairwise distinct symbols, kept in order of
  each symbol's first occurrence in the input; that one fixed order stands in
  for the hash map's iteration order wherever the table is walked.
 */
module Frequency {
  import opened Bits

  datatype Entry = Entry(sym: Byte, freq: nat)

  type Table = seq<Entry>

  /** The symbols that have an entry in `t`. */
  function Symbols(t: Table): (r: set<Byte>)
    ensures forall i :: 0 <= i < |t| ==> t[i].sym in r
  {
    if |t| == 0 then {} else {t[0].sym} + Symbols(t[1..])
  }

  /** A symbol of a table is the symbol of one of its entries. */
  lemma {:induction false} SymbolIndex(t: Table, s: Byte) returns (i: nat)
    requires s in Symbols(t)
    ensures i < |t| && t[i].sym == s
  {
    if t[0].sym == s {
      i := 0;
    } else {
      var j := SymbolIndex(t[1..], s);
      i := j + 1;
    }
  }

  /** No symbol has two entries (the table is a map from symbol to count). */
  predicate Distinct(t: Table) {
    |t| == 0 || (t[0].sym !in Symbols(t[1..]) && Distinct(t[1..]))
  }

  function Sum(t: Table): nat {
    if |t| == 0 then 0 else t[0].freq + Sum(t[1..])
  }

  /** `freqMap[ch]++`: the entry for `b` goes up by one, or a new entry with
      count 1 is appended when `b` has not been seen; every other entry keeps
      its place and its count. */
  function Bump(t: Table, b: Byte): (r: Table)
    requires Distinct(t)
    ensures |r| == if b in Symbols(t) then |t| else |t| + 1
    ensures forall i :: 0 <= i < |t| ==>
      r[i] == Entry(t[i].sym, t[i].freq + (if t[i].sym == b then 1 else 0))
    ensures b !in Symbols(t) ==> r[|t|] == Entry(b, 1)
  {
    if |t| == 0 then [Entry(b, 1)]
    else
      assert t == [t[0]] + t[1..];
      if t[0].sym == b then
        [Entry(b, t[0].freq + 1)] + t[1..]
      else
        [t[0]] + Bump(t[1..], b)
  }

  /** Counting a byte keeps the symbols distinct, adds `b` to them, and adds
      one to the total. */
  lemma {:induction false} BumpInvariant(t: Table, b: Byte)
    requires Distinct(t)
    ensures Symbols(Bump(t, b)) == Symbols(t) + {b}
    ensures Distinct(Bump(t, b))
    ensures Sum(Bump(t, b)) == Sum(t) + 1
  {
    var r := Bump(t, b);
    if |t| > 0 {
      assert t == [t[0]] + t[1..];
      assert r == [r[0]] + r[1..];
      if t[0].sym == b {
        assert r[1..] == t[1..];
      } else {
        BumpInvariant(t[1..], b);
        assert r[1..] == Bump(t[1..], b);
      }
    }
  }

  /** `freqMap[ch] = freq`: the entry for `e.sym` takes the count `e.freq`, or
      `e` is appended when the symbol has no entry yet; every other entry
      keeps its place and its count. */
  function Store(t: Table, e: Entry): (r: Table)
    requires Distinct(t)
    ensures e.sym !in Symbols(t) ==> r == t + [e]
    ensures e.sym in Symbols(t) ==> |r| == |t|
    ensures e.sym in Symbols(t) ==>
      forall i :: 0 <= i < |t| ==> r[i] == (if t[i].sym == e.sym then e else t[i])
  {
    if |t| == 0 then [e]
    else if t[0].sym == e.sym then [e] + t[1..]
    else [t[0]] + Store(t[1..], e)
  }

  /** Storing an entry keeps the symbols distinct and adds `e.sym` to them. */
  lemma {:induction false} StoreInvariant(t: Table, e: Entry)
    requires Distinct(t)
    ensures Symbols(Store(t, e)) == Symbols(t) + {e.sym}
    ensures Distinct(Store(t, e))
  {
    var r := Store(t, e);
    if |t| > 0 {
      if t[0].sym == e.sym {
        assert r[1..] == t[1..];
      } else {
        StoreInvariant(t[1..], e);
        assert r[1..] == Store(t[1..], e);
      }
    }
  }

  lemma {:induction false} SymbolsConcat(a: Table, b: Table)
    ensures Symbols(a + b) == Symbols(a) + Symbols(b)
  {
    if |a| == 0 {
      assert a + b == b;
    } else {
      assert (a + b)[1..] == a[1..] + b;
      SymbolsConcat(a[1..], b);
    }
  }

  /** A table is distinct exactly when both halves are and no symbol has an
      entry in both. */
  lemma {:induction false} DistinctConcat(a: Table, b: Table)
    ensures Distinct(a + b) <==> Distinct(a) && Distinct(b) && Symbols(a) !! Symbols(b)
  {
    if |a| == 0 {
      assert a + b == b;
    } else {
      assert (a + b)[1..] == a[1..] + b;
      SymbolsConcat(a[1..], b);
      DistinctConcat(a[1..], b);
    }
  }

  /** `buildFrequencyMap`: one pass over the text, counting each byte. */
  function FrequencyTable(text: seq<Byte>): (r: Table)
    ensures Distinct(r)
    decreases |text|
  {
    if |text| == 0 then []
    else
      var t := FrequencyTable(text[..|text| - 1]);
      BumpInvariant(t, text[|text| - 1]);
      Bump(t, text[|text| - 1])
  }

  /** The table has an entry for exactly the bytes that occur in the text. */
  lemma {:induction false} FrequencySymbols(text: seq<Byte>)
    ensures forall b :: b in Symbols(FrequencyTable(text)) <==> b in text
    decreases |text|
  {
    if |text| > 0 {
      var prefix := text[..|text| - 1];
      var b := text[|text| - 1];
      assert text == prefix + [b];
      FrequencySymbols(prefix);
      BumpInvariant(FrequencyTable(prefix), b);
    }
  }

  /** Each entry holds the number of occurrences of its byte, at least one. */
  lemma {:induction false} FrequencyCounts(text: seq<Byte>)
    ensures forall i :: 0 <= i < |FrequencyTable(text)| ==>
      FrequencyTable(text)[i].freq == multiset(text)[FrequencyTable(text)[i].sym] >= 1
    decreases |text|
  {
    if |text| > 0 {
      var prefix := text[..|text| - 1];
      var b := text[|text| - 1];
      assert text == prefix + [b];
      var t := FrequencyTable(prefix);
      var r := FrequencyTable(text);
      FrequencyCounts(prefix);
      FrequencySymbols(prefix);
      assert multiset(text) == multiset(prefix) + multiset{b};
      forall i | 0 <= i < |r|
        ensures r[i].freq == multiset(text)[r[i].sym] >= 1
      {
        if i == |t| {
          assert b !in prefix;
        }
      }
    }
  }

  /** The counts add up to the length of the text. */
  lemma {:induction false} FrequencySum(text: seq<Byte>)
    ensures Sum(FrequencyTable(text)) == |text|
    decreases |text|
  {
    if |text| > 0 {
      FrequencySum(text[..|text| - 1]);
      BumpInvariant(FrequencyTable(text[..|text| - 1]), text[|text| - 1]);
    }
  }

  lemma {:induction false} EntryAtMostSum(t: Table, i: nat)
    requires i < |t|
    ensures t[i].freq <= Sum(t)
  {
    if i > 0 {
      EntryAtMostSum(t[1..], i - 1);
    }
  }

  lemma {:induction false} DistinctSymbolCount(t: Table)
    requires Distinct(t)
    ensures |Symbols(t)| == |t|
  {
    if |t| > 0 {
      DistinctSymbolCount(t[1..]);
    }
  }

  /** A table has no more symbols than entries. */
  lemma {:induction false} SymbolCountAtMost(t: Table)
    ensures |Symbols(t)| <= |t|
  {
    if |t| > 0 {
      SymbolCountAtMost(t[1..]);
    }
  }

  /** A set of integers drawn from 0 .. n - 1 has at most n elements. */
  lemma {:induction false} BoundedSetSize(a: set<int>, n: nat)
    requires forall x :: x in a ==> 0 <= x < n
    ensures |a| <= n
  {
    if n > 0 {
      var rest := a - {n - 1};
      BoundedSetSize(rest, n - 1);
      if n - 1 in a {
        assert a == rest + {n - 1};
      } else {
        assert a == rest;
      }
    } else {
      assert forall x :: x !in a;
      assert a == {};
    }
  }

  /** A table with distinct byte symbols has at most 256 entries, so its size
      always fits the container's 16-bit count. */
  lemma {:induction false} TableAtMost256(t: Table)
    requires Distinct(t)
    ensures |t| <= 256
  {
    DistinctSymbolCount(t);
    BoundedSetSize(Symbols(t), 256);
  }
}
