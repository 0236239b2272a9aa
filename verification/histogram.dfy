/** The quality histogram that `make_quality_csv_file` builds, and the rows it
    writes under the `Quality,Frequency` header. */
module QualityHistogram {
  import opened Corpus

  /** Every quality character of the corpus, in the order the loops visit them. */
  function Symbols(fragments: seq<Read>): Bytes
  {
    if |fragments| == 0 then []
    else Symbols(fragments[..|fragments| - 1]) + fragments[|fragments| - 1].quality
  }

  /** The total length of the quality strings of the corpus. */
  function QualityLength(fragments: seq<Read>): nat
  {
    if |fragments| == 0 then 0
    else QualityLength(fragments[..|fragments| - 1]) + |fragments[|fragments| - 1].quality|
  }

  lemma {:induction false} SymbolsLength(fragments: seq<Read>)
    ensures |Symbols(fragments)| == QualityLength(fragments)
  {
    if |fragments| > 0 {
      SymbolsLength(fragments[..|fragments| - 1]);
    }
  }

  /** The number of occurrences of `c` in `s`. */
  function Count(s: Bytes, c: CChar): nat
  {
    if |s| == 0 then 0
    else Count(s[..|s| - 1], c) + (if s[|s| - 1] == c then 1 else 0)
  }

  lemma CountAppend(s: Bytes, x: CChar, c: CChar)
    ensures Count(s + [x], c) == Count(s, c) + (if x == c then 1 else 0)
  {
    assert (s + [x])[..|s|] == s;
  }

  /** `Count` agrees with Dafny's own multiset multiplicity. */
  lemma {:induction false} CountIsMultiplicity(s: Bytes, c: CChar)
    ensures Count(s, c) == multiset(s)[c]
  {
    if |s| > 0 {
      var n := |s| - 1;
      CountIsMultiplicity(s[..n], c);
      assert s == s[..n] + [s[n]];
      assert multiset(s) == multiset(s[..n]) + multiset{s[n]};
    }
  }

  /** `freq` has a key for exactly the symbols that occur in `s`, each with its
      number of occurrences. */
  ghost predicate Tallies(freq: map<CChar, nat>, s: Bytes)
  {
    forall c :: (c in freq <==> Count(s, c) > 0) && (c in freq ==> freq[c] == Count(s, c))
  }

  /** `uint32_t` arithmetic wraps modulo this. */
  const Uint32Modulus: nat := 0x1_0000_0000

  /** As `Tallies`, with each count kept in a `uint32_t`. */
  ghost predicate TalliesModulo(freq: map<CChar, nat>, s: Bytes)
  {
    forall c :: (c in freq <==> Count(s, c) > 0) && (c in freq ==> freq[c] == Count(s, c) % Uint32Modulus)
  }

  lemma TallyStep(freq: map<CChar, nat>, s: Bytes, x: CChar)
    requires Tallies(freq, s)
    ensures Tallies(freq[x := (if x in freq then freq[x] else 0) + 1], s + [x])
  {
    forall c {
      CountAppend(s, x, c);
    }
  }

  lemma TallyStepModulo(freq: map<CChar, nat>, s: Bytes, x: CChar)
    requires TalliesModulo(freq, s)
    ensures TalliesModulo(freq[x := ((if x in freq then freq[x] else 0) + 1) % Uint32Modulus], s + [x])
  {
    forall c {
      CountAppend(s, x, c);
    }
    var k := Count(s, x);
    assert (k % Uint32Modulus + 1) % Uint32Modulus == (k + 1) % Uint32Modulus;
  }

  lemma SymbolsStep(fragments: seq<Read>, i: nat)
    requires i < |fragments|
    ensures Symbols(fragments[..i + 1]) == Symbols(fragments[..i]) + fragments[i].quality
  {
    assert fragments[..i + 1][..i] == fragments[..i];
  }

  /** The inner loop: counts one quality string into the histogram with wrapping `uint32_t` counts. */
  method CountQuality32(counts: map<CChar, nat>, ghost done: Bytes, quality: Bytes) returns (freq: map<CChar, nat>)
    requires TalliesModulo(counts, done)
    ensures TalliesModulo(freq, done + quality)
  {
    freq := counts;
    assert done + quality[..0] == done;
    for j := 0 to |quality|
      invariant TalliesModulo(freq, done + quality[..j])
    {
      var c := quality[j];
      TallyStepModulo(freq, done + quality[..j], c);
      assert done + quality[..j + 1] == done + quality[..j] + [c];
      freq := freq[c := ((if c in freq then freq[c] else 0) + 1) % Uint32Modulus];
    }
    assert quality[..|quality|] == quality;
  }

  /** The histogram loop of `make_quality_csv_file` as written: `quality_freq[c]++`
      on a `uint32_t` count, for every character of every quality string. */
  method QualityFrequencies32(fragments: seq<Read>) returns (freq: map<CChar, nat>)
    ensures TalliesModulo(freq, Symbols(fragments))
  {
    freq := map[];
    for i := 0 to |fragments|
      invariant TalliesModulo(freq, Symbols(fragments[..i]))
    {
      freq := CountQuality32(freq, Symbols(fragments[..i]), fragments[i].quality);
      SymbolsStep(fragments, i);
    }
    assert fragments[..|fragments|] == fragments;
  }

  /** The inner loop: counts one quality string into the histogram. */
  method CountQuality(counts: map<CChar, nat>, ghost done: Bytes, quality: Bytes) returns (freq: map<CChar, nat>)
    requires Tallies(counts, done)
    ensures Tallies(freq, done + quality)
  {
    freq := counts;
    assert done + quality[..0] == done;
    for j := 0 to |quality|
      invariant Tallies(freq, done + quality[..j])
    {
      var c := quality[j];
      TallyStep(freq, done + quality[..j], c);
      assert done + quality[..j + 1] == done + quality[..j] + [c];
      freq := freq[c := (if c in freq then freq[c] else 0) + 1];
    }
    assert quality[..|quality|] == quality;
  }

  /** The histogram loop with counts that do not wrap: every symbol that occurs
      gets a key, and its value is its number of occurrences. */
  method QualityFrequencies(fragments: seq<Read>) returns (freq: map<CChar, nat>)
    ensures Tallies(freq, Symbols(fragments))
  {
    freq := map[];
    for i := 0 to |fragments|
      invariant Tallies(freq, Symbols(fragments[..i]))
    {
      freq := CountQuality(freq, Symbols(fragments[..i]), fragments[i].quality);
      SymbolsStep(fragments, i);
    }
    assert fragments[..|fragments|] == fragments;
  }

  lemma {:induction false} CountConstant(n: nat, c: CChar)
    ensures Count(seq(n, _ => c), c) == n
  {
    if n > 0 {
      CountConstant(n - 1, c);
      assert seq(n, _ => c)[..n - 1] == seq(n - 1, _ => c);
    }
  }

  /** A symbol seen 2^32 times is written with frequency 0 by the `uint32_t`
      histogram, although the exact histogram counts it. */
  lemma WrappedCountDropsOccurrences(c: CChar)
    ensures var corpus := [Read([], [], seq(Uint32Modulus, _ => c))];
            forall freq :: TalliesModulo(freq, Symbols(corpus)) ==> c in freq && freq[c] == 0 && !Tallies(freq, Symbols(corpus))
  {
    var corpus := [Read([], [], seq(Uint32Modulus, _ => c))];
    assert corpus[..0] == [];
    assert Symbols(corpus) == seq(Uint32Modulus, _ => c);
    CountConstant(Uint32Modulus, c);
  }

  /** One line after the header: the symbol (written as its integer value) and its count. */
  datatype Row = Row(symbol: CChar, frequency: nat)

  /** The first line of the CSV file. */
  const Header: string := "Quality,Frequency"

  /** The CSV file's content: the header and one row per distinct symbol. */
  datatype CsvTable = CsvTable(header: string, rows: seq<Row>)

  ghost predicate DistinctSymbols(rows: seq<Row>)
  {
    forall i, j :: 0 <= i < j < |rows| ==> rows[i].symbol != rows[j].symbol
  }

  ghost predicate HasRow(rows: seq<Row>, c: CChar)
  {
    exists i :: 0 <= i < |rows| && rows[i].symbol == c
  }

  /** The rows written for `freq`: one per key, with its value, each key once. */
  ghost predicate RowsOf(rows: seq<Row>, freq: map<CChar, nat>)
  {
    && DistinctSymbols(rows)
    && (forall i :: 0 <= i < |rows| ==> rows[i].symbol in freq && rows[i].frequency == freq[rows[i].symbol])
    && (forall c :: c in freq ==> HasRow(rows, c))
  }

  /** The loop over `quality_freq` that writes one row per entry. The map's
      iteration order is unspecified, so the next key is chosen arbitrarily. */
  method CsvRows(freq: map<CChar, nat>) returns (rows: seq<Row>)
    ensures RowsOf(rows, freq)
  {
    rows := [];
    var pending := freq.Keys;
    while pending != {}
      invariant pending <= freq.Keys
      invariant DistinctSymbols(rows)
      invariant forall i :: 0 <= i < |rows| ==> rows[i].symbol in freq && rows[i].symbol !in pending && rows[i].frequency == freq[rows[i].symbol]
      invariant forall c :: c in freq && c !in pending ==> HasRow(rows, c)
      decreases pending
    {
      var c :| c in pending;
      ghost var prev := rows;
      rows := rows + [Row(c, freq[c])];
      assert rows[|rows| - 1].symbol == c;
      forall d | HasRow(prev, d)
        ensures HasRow(rows, d)
      {
        var i :| 0 <= i < |prev| && prev[i].symbol == d;
        assert rows[i] == prev[i];
      }
      pending := pending - {c};
    }
  }

  /** `make_quality_csv_file` without the file itself: the header and the rows
      of the exact histogram. Each symbol of the corpus has one row with its
      number of occurrences, no other symbol has one, and the frequencies add
      up to the total length of the quality strings. */
  method MakeQualityCsv(fragments: seq<Read>) returns (table: CsvTable)
    ensures table.header == Header
    ensures DistinctSymbols(table.rows)
    ensures forall i :: 0 <= i < |table.rows| ==> 0 < table.rows[i].frequency == Count(Symbols(fragments), table.rows[i].symbol)
    ensures forall c :: Count(Symbols(fragments), c) > 0 ==> HasRow(table.rows, c)
    ensures TotalFrequency(table.rows) == QualityLength(fragments)
  {
    var freq := QualityFrequencies(fragments);
    var rows := CsvRows(freq);
    table := CsvTable(Header, rows);
    forall k | 0 <= k < |Symbols(fragments)|
      ensures HasRow(rows, Symbols(fragments)[k])
    {
      var s := Symbols(fragments);
      CountIsMultiplicity(s, s[k]);
      assert s[k] in multiset(s);
    }
    TotalIsLength(rows, Symbols(fragments));
    SymbolsLength(fragments);
  }

  /** The rows of the histogram as written, for the visited characters `s`:
      each symbol that occurs has one row, no other symbol has one, and each
      frequency is the number of occurrences modulo 2^32. */
  ghost predicate WrappedRows(rows: seq<Row>, s: Bytes)
  {
    && DistinctSymbols(rows)
    && (forall i :: 0 <= i < |rows| ==>
          Count(s, rows[i].symbol) > 0 && rows[i].frequency == Count(s, rows[i].symbol) % Uint32Modulus)
    && (forall c :: Count(s, c) > 0 ==> HasRow(rows, c))
  }

  /** `make_quality_csv_file` as written, without the file itself: the header
      and the rows of the `uint32_t` histogram. */
  method MakeQualityCsv32(fragments: seq<Read>) returns (table: CsvTable)
    ensures table.header == Header
    ensures WrappedRows(table.rows, Symbols(fragments))
  {
    var freq := QualityFrequencies32(fragments);
    var rows := CsvRows(freq);
    table := CsvTable(Header, rows);
  }

  /** The file written for a symbol seen 2^32 times has a row for it with frequency 0. */
  lemma WrappedRowIsZero(c: CChar, rows: seq<Row>)
    requires WrappedRows(rows, Symbols([Read([], [], seq(Uint32Modulus, _ => c))]))
    ensures Row(c, 0) in rows
  {
    var corpus := [Read([], [], seq(Uint32Modulus, _ => c))];
    assert corpus[..0] == [];
    assert Symbols(corpus) == seq(Uint32Modulus, _ => c);
    CountConstant(Uint32Modulus, c);
    var i :| 0 <= i < |rows| && rows[i].symbol == c;
    assert rows[i] == Row(c, 0);
  }

  /** The sum of the frequency column. */
  function TotalFrequency(rows: seq<Row>): nat
  {
    if |rows| == 0 then 0 else TotalFrequency(rows[..|rows| - 1]) + rows[|rows| - 1].frequency
  }

  /** The number of rows for symbol `x`. */
  function Hits(rows: seq<Row>, x: CChar): nat
  {
    if |rows| == 0 then 0
    else Hits(rows[..|rows| - 1], x) + (if rows[|rows| - 1].symbol == x then 1 else 0)
  }

  /** The occurrences in `s` of the symbols of `rows`, added up row by row. */
  function CountedBy(rows: seq<Row>, s: Bytes): nat
  {
    if |rows| == 0 then 0 else CountedBy(rows[..|rows| - 1], s) + Count(s, rows[|rows| - 1].symbol)
  }

  lemma {:induction false} HitsNone(rows: seq<Row>, x: CChar)
    requires !HasRow(rows, x)
    ensures Hits(rows, x) == 0
  {
    if |rows| > 0 {
      HitsNone(rows[..|rows| - 1], x);
    }
  }

  lemma {:induction false} HitsOne(rows: seq<Row>, x: CChar)
    requires DistinctSymbols(rows) && HasRow(rows, x)
    ensures Hits(rows, x) == 1
  {
    var n := |rows| - 1;
    var prefix := rows[..n];
    assert DistinctSymbols(prefix);
    if rows[n].symbol == x {
      HitsNone(prefix, x);
    } else {
      var i :| 0 <= i < |rows| && rows[i].symbol == x;
      assert prefix[i].symbol == x;
      HitsOne(prefix, x);
    }
  }

  lemma {:induction false} CountedByEmpty(rows: seq<Row>)
    ensures CountedBy(rows, []) == 0
  {
    if |rows| > 0 {
      CountedByEmpty(rows[..|rows| - 1]);
    }
  }

  lemma {:induction false} CountedByAppend(rows: seq<Row>, s: Bytes, x: CChar)
    ensures CountedBy(rows, s + [x]) == CountedBy(rows, s) + Hits(rows, x)
  {
    if |rows| > 0 {
      CountedByAppend(rows[..|rows| - 1], s, x);
      CountAppend(s, x, rows[|rows| - 1].symbol);
    }
  }

  /** Rows with distinct symbols that cover every character of `s` count each
      character exactly once. */
  lemma {:induction false} CountedByIsLength(rows: seq<Row>, s: Bytes)
    requires DistinctSymbols(rows)
    requires forall k :: 0 <= k < |s| ==> HasRow(rows, s[k])
    ensures CountedBy(rows, s) == |s|
  {
    if |s| == 0 {
      CountedByEmpty(rows);
    } else {
      var n := |s| - 1;
      assert s == s[..n] + [s[n]];
      CountedByIsLength(rows, s[..n]);
      CountedByAppend(rows, s[..n], s[n]);
      HitsOne(rows, s[n]);
    }
  }

  lemma {:induction false} TotalIsCountedBy(rows: seq<Row>, s: Bytes)
    requires forall i :: 0 <= i < |rows| ==> rows[i].frequency == Count(s, rows[i].symbol)
    ensures TotalFrequency(rows) == CountedBy(rows, s)
  {
    if |rows| > 0 {
      TotalIsCountedBy(rows[..|rows| - 1], s);
    }
  }

  /** The frequency column of an exact histogram's rows adds up to the number of
      characters counted. */
  lemma TotalIsLength(rows: seq<Row>, s: Bytes)
    requires DistinctSymbols(rows)
    requires forall i :: 0 <= i < |rows| ==> rows[i].frequency == Count(s, rows[i].symbol)
    requires forall k :: 0 <= k < |s| ==> HasRow(rows, s[k])
    ensures TotalFrequency(rows) == |s|
  {
    TotalIsCountedBy(rows, s);
    CountedByIsLength(rows, s);
  }

  /** Two quality strings `AAB` and `B` give A -> 2 and B -> 2. */
  lemma TwoSymbolHistogram(freq: map<CChar, nat>)
    requires Tallies(freq, Symbols([Read([], [], [65, 65, 66]), Read([], [], [66])]))
    ensures freq == map[65 := 2, 66 := 2]
  {
    TwoSymbolSymbols();
    forall c ensures Count([65, 65, 66, 66], c) == (if c == 65 || c == 66 then 2 else 0) {
      TwoSymbolCount(c);
    }
    assert freq.Keys == {65, 66};
  }

  lemma TwoSymbolSymbols()
    ensures Symbols([Read([], [], [65, 65, 66]), Read([], [], [66])]) == [65, 65, 66, 66]
  {
    var r1, r2 := Read([], [], [65, 65, 66]), Read([], [], [66]);
    assert [r1, r2][..1] == [r1];
    assert [r1][..0] == [];
    assert Symbols([r1]) == [65, 65, 66];
  }

  lemma TwoSymbolCount(c: CChar)
    ensures Count([65, 65, 66, 66], c) == if c == 65 || c == 66 then 2 else 0
  {
    var s: Bytes := [65, 65, 66, 66];
    CountIsMultiplicity(s, c);
    assert multiset(s) == multiset{65, 65, 66, 66};
  }
}
