/** Frequency counting: the first loop of `HuffmanTree.Build`. */
module Frequency {
  import opened Bytes

  /** One entry of the frequency table: a symbol and its count (a C# `long`). */
  datatype Entry = Entry(sym: byte, count: int)

  /** The frequency table in the order a `Dictionary<byte, long>` that is only
      ever added to enumerates it: insertion order. */
  type Table = seq<Entry>

  predicate DistinctSymbols(t: Table) {
    forall i, j :: 0 <= i < j < |t| ==> t[i].sym != t[j].sym
  }

  function Symbols(t: Table): set<byte> {
    set i | 0 <= i < |t| :: t[i].sym
  }

  /** Sum of the counts. */
  function Total(t: Table): int {
    if |t| == 0 then 0 else Total(t[..|t| - 1]) + t[|t| - 1].count
  }

  /** Where `s` sits in the table, or -1: `ContainsKey` followed by the indexer. */
  function Find(t: Table, s: byte): (i: int)
    ensures -1 <= i < |t|
    ensures 0 <= i ==> t[i].sym == s
    ensures i < 0 ==> forall j :: 0 <= j < |t| ==> t[j].sym != s
  {
    if |t| == 0 then -1
    else if t[0].sym == s then 0
    else
      var k := Find(t[1..], s);
      if k < 0 then -1 else k + 1
  }

  /** One iteration of the counting loop: increment the entry of `b`, or add
      `b` with count 1 at the end. */
  function CountByte(t: Table, b: byte): Table {
    var i := Find(t, b);
    if 0 <= i then t[i := Entry(b, t[i].count + 1)] else t + [Entry(b, 1)]
  }

  /** The frequency table of `x`, built by one pass from the first byte to the last. */
  function Frequencies(x: seq<byte>): Table {
    if |x| == 0 then [] else CountByte(Frequencies(x[..|x| - 1]), x[|x| - 1])
  }

  /** Index of the first occurrence of `s` in `x`. */
  function FirstIndex(x: seq<byte>, s: byte): (r: nat)
    requires s in x
    ensures r < |x| && x[r] == s
    ensures forall j :: 0 <= j < r ==> x[j] != s
  {
    if x[0] == s then 0 else 1 + FirstIndex(x[1..], s)
  }

  lemma FirstIndexExtend(x: seq<byte>, b: byte, s: byte)
    requires s in x
    ensures s in x + [b] && FirstIndex(x + [b], s) == FirstIndex(x, s)
  {
    var r1, r2 := FirstIndex(x + [b], s), FirstIndex(x, s);
    assert (x + [b])[r2] == s;
    assert x[r1] == s by { assert r1 <= r2; assert (x + [b])[r1] == x[r1]; }
  }

  lemma {:induction false} TotalUpdate(t: Table, i: nat, e: Entry)
    requires i < |t|
    ensures Total(t[i := e]) == Total(t) - t[i].count + e.count
  {
    var n := |t| - 1;
    if i < n {
      assert t[i := e][..n] == t[..n][i := e];
      TotalUpdate(t[..n], i, e);
    } else {
      assert t[i := e][..n] == t[..n];
    }
  }

  /** `t` lists the distinct bytes of `x`, once each. */
  predicate SymbolsOf(t: Table, x: seq<byte>) {
    DistinctSymbols(t) && forall b :: b in Symbols(t) <==> b in x
  }

  /** Each count of `t` is the number of occurrences of its symbol in `x`. */
  predicate CountsOf(t: Table, x: seq<byte>) {
    forall i :: 0 <= i < |t| ==> t[i].count == multiset(x)[t[i].sym] >= 1
  }

  /** The entries of `t` are in order of first occurrence in `x`. */
  predicate OrderOf(t: Table, x: seq<byte>) {
    forall i, j :: 0 <= i < j < |t| ==>
      t[i].sym in x && t[j].sym in x && FirstIndex(x, t[i].sym) < FirstIndex(x, t[j].sym)
  }

  /** One more byte keeps the symbols right... */
  lemma SymbolsStep(t: Table, x: seq<byte>)
    requires |x| > 0 && SymbolsOf(t, x[..|x| - 1])
    ensures SymbolsOf(CountByte(t, x[|x| - 1]), x)
  {
    var y, b := x[..|x| - 1], x[|x| - 1];
    assert x == y + [b];
    var t' := CountByte(t, b);
    var k := Find(t, b);
    if 0 <= k {
      assert forall i :: 0 <= i < |t| ==> t'[i].sym == t[i].sym;
      assert Symbols(t') == Symbols(t);
    } else {
      assert t' == t + [Entry(b, 1)];
      assert Symbols(t') == Symbols(t) + {b} by {
        forall s | s in Symbols(t')
          ensures s in Symbols(t) + {b}
        {
          var i :| 0 <= i < |t'| && t'[i].sym == s;
          if i < |t| {
            assert t[i].sym == s;
          }
        }
        forall s | s in Symbols(t)
          ensures s in Symbols(t')
        {
          var i :| 0 <= i < |t| && t[i].sym == s;
          assert t'[i].sym == s;
        }
        assert t'[|t|].sym == b;
      }
    }
  }

  /** ... and the counts ... */
  lemma CountsStep(t: Table, x: seq<byte>)
    requires |x| > 0 && SymbolsOf(t, x[..|x| - 1]) && CountsOf(t, x[..|x| - 1])
    ensures CountsOf(CountByte(t, x[|x| - 1]), x)
  {
    var y, b := x[..|x| - 1], x[|x| - 1];
    assert x == y + [b];
    var t' := CountByte(t, b);
    assert multiset(x) == multiset(y) + multiset{b};
    var k := Find(t, b);
    forall i | 0 <= i < |t'|
      ensures t'[i].count == multiset(x)[t'[i].sym] >= 1
    {
      var c := t'[i].sym;
      assert multiset(x)[c] == multiset(y)[c] + multiset{b}[c];
      if i < |t| && i != k {
        assert t'[i] == t[i] && c != b;
      } else if i == k {
        assert c == b && multiset{b}[b] == 1;
      } else {
        assert c == b && multiset{b}[b] == 1;
        assert b !in Symbols(t);
        assert b !in multiset(y);
      }
    }
  }

  /** ... and the order. */
  lemma OrderStep(t: Table, x: seq<byte>)
    requires |x| > 0 && SymbolsOf(t, x[..|x| - 1]) && OrderOf(t, x[..|x| - 1])
    ensures OrderOf(CountByte(t, x[|x| - 1]), x)
  {
    var y, b := x[..|x| - 1], x[|x| - 1];
    assert x == y + [b];
    var t' := CountByte(t, b);
    var k := Find(t, b);
    if k < 0 {
      assert b !in y by {
        assert b !in Symbols(t);
      }
    }
    forall i, j | 0 <= i < j < |t'|
      ensures t'[i].sym in x && t'[j].sym in x && FirstIndex(x, t'[i].sym) < FirstIndex(x, t'[j].sym)
    {
      assert t[i].sym in Symbols(t);
      if j < |t| {
        assert t[j].sym in Symbols(t);
        OrderPair(y, b, t[i].sym, t[j].sym);
      } else {
        OrderNew(y, b, t[i].sym);
      }
    }
  }

  /** Two symbols already seen keep their relative order... */
  lemma OrderPair(y: seq<byte>, b: byte, s1: byte, s2: byte)
    requires s1 in y && s2 in y && FirstIndex(y, s1) < FirstIndex(y, s2)
    ensures s1 in y + [b] && s2 in y + [b] && FirstIndex(y + [b], s1) < FirstIndex(y + [b], s2)
  {
    FirstIndexExtend(y, b, s1);
    FirstIndexExtend(y, b, s2);
  }

  /** ... and come before a symbol seen for the first time. */
  lemma OrderNew(y: seq<byte>, b: byte, s: byte)
    requires s in y && b !in y
    ensures s in y + [b] && b in y + [b] && FirstIndex(y + [b], s) < FirstIndex(y + [b], b)
  {
    FirstIndexExtend(y, b, s);
    assert (y + [b])[|y|] == b;
  }

  /** The symbols of the table are exactly the distinct bytes of the input. */
  lemma {:induction false} FrequenciesSymbols(x: seq<byte>)
    ensures SymbolsOf(Frequencies(x), x)
  {
    if |x| > 0 {
      FrequenciesSymbols(x[..|x| - 1]);
      SymbolsStep(Frequencies(x[..|x| - 1]), x);
    }
  }

  /** Each count is the number of occurrences of its symbol. */
  lemma {:induction false} FrequenciesCounts(x: seq<byte>)
    ensures CountsOf(Frequencies(x), x)
  {
    if |x| > 0 {
      FrequenciesSymbols(x[..|x| - 1]);
      FrequenciesCounts(x[..|x| - 1]);
      CountsStep(Frequencies(x[..|x| - 1]), x);
    }
  }

  /** The counts add up to the input length. */
  lemma {:induction false} FrequenciesTotal(x: seq<byte>)
    ensures Total(Frequencies(x)) == |x|
  {
    if |x| > 0 {
      var n := |x| - 1;
      var t0 := Frequencies(x[..n]);
      FrequenciesTotal(x[..n]);
      var k := Find(t0, x[n]);
      if 0 <= k {
        TotalUpdate(t0, k, Entry(x[n], t0[k].count + 1));
      } else {
        assert (t0 + [Entry(x[n], 1)])[..|t0|] == t0;
      }
    }
  }

  /** Entries appear in the order their symbols first occur in the input. */
  lemma {:induction false} FrequenciesOrder(x: seq<byte>)
    ensures OrderOf(Frequencies(x), x)
  {
    if |x| > 0 {
      FrequenciesSymbols(x[..|x| - 1]);
      FrequenciesOrder(x[..|x| - 1]);
      OrderStep(Frequencies(x[..|x| - 1]), x);
    }
  }

  /** The table is what the source promises: one entry per distinct byte of the
      input, each with that byte's number of occurrences, listed in order of
      first occurrence, with counts summing to the input length. */
  lemma FrequenciesSpec(x: seq<byte>)
    ensures DistinctSymbols(Frequencies(x))
    ensures forall b :: b in Symbols(Frequencies(x)) <==> b in x
    ensures forall i :: 0 <= i < |Frequencies(x)| ==>
              Frequencies(x)[i].count == multiset(x)[Frequencies(x)[i].sym] >= 1
    ensures Total(Frequencies(x)) == |x|
    ensures forall i, j :: 0 <= i < j < |Frequencies(x)| ==>
              FirstIndex(x, Frequencies(x)[i].sym) < FirstIndex(x, Frequencies(x)[j].sym)
  {
    FrequenciesSymbols(x);
    FrequenciesCounts(x);
    FrequenciesTotal(x);
    FrequenciesOrder(x);
  }

  /** With every count at least one, the table is no longer than its total
      and no count exceeds the total. */
  lemma {:induction false} TableBounds(t: Table)
    requires forall i :: 0 <= i < |t| ==> t[i].count >= 1
    ensures |t| <= Total(t)
    ensures forall i :: 0 <= i < |t| ==> t[i].count <= Total(t)
  {
    if |t| > 0 {
      TableBounds(t[..|t| - 1]);
    }
  }
}
