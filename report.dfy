/**
 * The table `main` writes once every run is folded in: a header line with
 * a tab between its fields, then one row per suite, slowest first, holding
 * the suite's name, its duration in each run and its speed-up percentage,
 * each field right-justified the way `std::setw` pads it.  The output is
 * modelled as the sequence of lines written, without their line ends.
 */
module Report {
  import opened SuiteTime
  import opened CommandLine

  // ---------------------------------------------------------------------
  // Fields and numbers

  function Spaces(n: nat): (r: string)
    ensures |r| == n
  {
    seq(n, _ => ' ')
  }

  /** `std::setw(w) << s`: `s` right-justified in `w` characters. */
  function Pad(w: nat, s: string): (r: string)
    ensures |r| == if |s| < w then w else |s|
  {
    if |s| < w then Spaces(w - |s|) + s else s
  }

  /** Padding never cuts `s` short: it ends the field, and only spaces come before it. */
  lemma PadShape(w: nat, s: string)
    ensures Pad(w, s) == Spaces(|Pad(w, s)| - |s|) + s
    ensures forall i :: 0 <= i < |Pad(w, s)| - |s| ==> Pad(w, s)[i] == ' '
  {
    if |s| >= w {
      assert Spaces(0) + s == s;
    }
  }

  function DigitChar(d: nat): (r: char)
    requires d < 10
  {
    ('0' as int + d) as char
  }

  /** The decimal digits of `n`, as `operator<<` writes a non-negative `int`. */
  function NatToString(n: nat): (r: string)
    ensures |r| > 0
    decreases n
  {
    if n < 10 then [DigitChar(n)] else NatToString(n / 10) + [DigitChar(n % 10)]
  }

  /** Only digits are written, and no leading zero. */
  lemma {:induction false} NatToStringDigits(n: nat)
    ensures var r := NatToString(n);
      (forall i :: 0 <= i < |r| ==> '0' <= r[i] <= '9') && (r[0] == '0' ==> r == "0")
    decreases n
  {
    if n >= 10 {
      NatToStringDigits(n / 10);
      LeadingDigitPositive(NatToString(n / 10));
    }
  }

  /** Reading the written digits back gives the number. */
  lemma {:induction false} DecimalValueOfNatToString(n: nat)
    ensures DecimalValue(NatToString(n)) == n
  {
    if n >= 10 {
      DecimalValueOfNatToString(n / 10);
      var r := NatToString(n);
      assert r[..|r| - 1] == NatToString(n / 10);
    }
  }

  /** A digit string without a leading zero is how its own value is written. */
  lemma {:induction false} NatToStringOfDecimalValue(s: string)
    requires |s| > 0 && forall i :: 0 <= i < |s| ==> '0' <= s[i] <= '9'
    requires s[0] == '0' ==> s == "0"
    ensures NatToString(DecimalValue(s)) == s
    decreases |s|
  {
    var t := s[..|s| - 1];
    if |s| > 1 {
      NatToStringOfDecimalValue(t);
      LeadingDigitPositive(t);
      assert t + [s[|s| - 1]] == s;
    }
  }

  lemma {:induction false} LeadingDigitPositive(s: string)
    requires |s| > 0 && forall i :: 0 <= i < |s| ==> '0' <= s[i] <= '9'
    requires s[0] != '0'
    ensures DecimalValue(s) > 0
    decreases |s|
  {
    if |s| > 1 {
      LeadingDigitPositive(s[..|s| - 1]);
    }
  }

  /** Numbers below `10^digits` take at most `digits` characters. */
  lemma {:induction false} NatToStringLength(n: nat, digits: nat)
    requires 0 < digits && n < Pow10(digits)
    ensures |NatToString(n)| <= digits
    decreases n
  {
    if n >= 10 {
      assert digits > 1;
      NatToStringLength(n / 10, digits - 1);
    }
  }

  function Pow10(k: nat): (r: nat)
    ensures r > 0
  {
    if k == 0 then 1 else 10 * Pow10(k - 1)
  }

  /** `operator<<` on an `int`: a minus sign for negative values. */
  function IntToString(i: int): (r: string) {
    if i < 0 then "-" + NatToString(-i) else NatToString(i)
  }

  // ---------------------------------------------------------------------
  // Tab-separated header

  /** The fields of `parts` with a tab between each two. */
  function Join(parts: seq<string>): (r: string)
    requires |parts| > 0
  {
    if |parts| == 1 then parts[0] else Join(parts[..|parts| - 1]) + "\t" + parts[|parts| - 1]
  }

  /** The fields after one more character: a tab opens a new field, anything else extends the last. */
  function FieldsStep(f: seq<string>, c: char): (r: seq<string>)
    requires |f| > 0
    ensures |r| > 0
  {
    if c == '\t' then f + [""] else f[..|f| - 1] + [f[|f| - 1] + [c]]
  }

  /** The tab-separated fields of `s`, read back. */
  function Fields(s: string): (r: seq<string>)
    ensures |r| > 0
  {
    if s == [] then [""] else FieldsStep(Fields(s[..|s| - 1]), s[|s| - 1])
  }

  lemma FieldsStepAppend(f: seq<string>, g: seq<string>, c: char)
    requires |f| > 0 && |g| > 0
    ensures FieldsStep(f + g, c) == f + FieldsStep(g, c)
  {
    if c != '\t' {
      assert (f + g)[..|f + g| - 1] == f + g[..|g| - 1];
    }
  }

  predicate NoTab(s: string) {
    forall i :: 0 <= i < |s| ==> s[i] != '\t'
  }

  lemma {:induction false} FieldsNoTab(s: string)
    requires NoTab(s)
    ensures Fields(s) == [s]
  {
    if s != [] {
      FieldsNoTab(s[..|s| - 1]);
      assert s[..|s| - 1] + [s[|s| - 1]] == s;
    }
  }

  lemma {:induction false} FieldsAfterTab(a: string, b: string)
    ensures Fields(a + "\t" + b) == Fields(a) + Fields(b)
    decreases |b|
  {
    var s := a + "\t" + b;
    if b == [] {
      assert s[..|s| - 1] == a;
    } else {
      var b' := b[..|b| - 1];
      var c := b[|b| - 1];
      FieldsAfterTab(a, b');
      assert s[..|s| - 1] == a + "\t" + b';
      assert Fields(s) == FieldsStep(Fields(a + "\t" + b'), c);
      assert b[..|b| - 1] == b';
      assert Fields(b) == FieldsStep(Fields(b'), c);
      FieldsStepAppend(Fields(a), Fields(b'), c);
    }
  }

  /** Splitting at tabs undoes `Join` when no field holds a tab. */
  lemma {:induction false} FieldsOfJoin(parts: seq<string>)
    requires |parts| > 0 && forall k :: 0 <= k < |parts| ==> NoTab(parts[k])
    ensures Fields(Join(parts)) == parts
  {
    var n := |parts| - 1;
    FieldsNoTab(parts[n]);
    if n > 0 {
      FieldsOfJoin(parts[..n]);
      FieldsAfterTab(Join(parts[..n]), parts[n]);
      assert parts[..n] + [parts[n]] == parts;
    }
  }

  const SuiteHeading := "\"Test Suite\""
  const SpeedupHeading := "\"Speedup Percent / Variation\""

  function Quoted(s: string): (r: string) {
    "\"" + s + "\""
  }

  /** The header's fields: the padded suite heading, each run's name quoted, the speed-up heading. */
  function HeaderFields(w: nat, runs: seq<Run>): (r: seq<string>)
    ensures |r| == |runs| + 2
  {
    [Pad(w, SuiteHeading)] + seq(|runs|, k requires 0 <= k < |runs| => Quoted(runs[k].name)) + [SpeedupHeading]
  }

  function HeaderLine(w: nat, runs: seq<Run>): (r: string) {
    Join(HeaderFields(w, runs))
  }

  /**
   * The header splits at its tabs into the padded suite heading, the run
   * names in command-line order, and the speed-up heading, as long as no
   * run name holds a tab.
   */
  lemma HeaderFieldsReadBack(w: nat, runs: seq<Run>)
    requires forall k :: 0 <= k < |runs| ==> NoTab(runs[k].name)
    ensures |Fields(HeaderLine(w, runs))| == |runs| + 2
    ensures Fields(HeaderLine(w, runs))[0] == Pad(w, SuiteHeading)
    ensures forall k :: 0 <= k < |runs| ==> Fields(HeaderLine(w, runs))[k + 1] == Quoted(runs[k].name)
    ensures Fields(HeaderLine(w, runs))[|runs| + 1] == SpeedupHeading
  {
    var parts := HeaderFields(w, runs);
    PaddedHeadingNoTab(w);
    HeadingsNoTab();
    forall k | 0 <= k < |parts| ensures NoTab(parts[k]) {
      if 0 < k <= |runs| {
        QuotedNoTab(runs[k - 1].name);
      }
    }
    FieldsOfJoin(parts);
  }

  lemma HeadingsNoTab()
    ensures NoTab(SuiteHeading) && NoTab(SpeedupHeading)
  {
  }

  lemma PaddedHeadingNoTab(w: nat)
    ensures NoTab(Pad(w, SuiteHeading))
  {
    PadShape(w, SuiteHeading);
    HeadingsNoTab();
  }

  lemma QuotedNoTab(s: string)
    requires NoTab(s)
    ensures NoTab(Quoted(s))
  {
  }

  /** The header line written one field at a time, as the loop over runs does. */
  method RenderHeader(w: nat, runs: seq<Run>) returns (line: string)
    ensures line == HeaderLine(w, runs)
  {
    ghost var parts := HeaderFields(w, runs);
    line := Pad(w, SuiteHeading);
    var k := 0;
    while k < |runs|
      invariant 0 <= k <= |runs|
      invariant line == Join(parts[..k + 1])
    {
      assert parts[..k + 2][..k + 1] == parts[..k + 1];
      line := line + "\t" + Quoted(runs[k].name);
      k := k + 1;
    }
    assert parts[..|runs| + 2][..|runs| + 1] == parts[..|runs| + 1];
    line := line + "\t" + SpeedupHeading;
    assert parts[..|runs| + 2] == parts;
  }

  // ---------------------------------------------------------------------
  // Rows

  /** `"  " << std::setw(12) << v`. */
  function Cell(v: int): (r: string) {
    "  " + Pad(12, IntToString(v))
  }

  /** The width of a cell whose number has at most 12 digits. */
  lemma CellLength(v: int)
    requires 0 <= v < Pow10(12)
    ensures |Cell(v)| == 14
  {
    NatToStringLength(v, 12);
  }

  /** Leading spaces dropped. */
  function TrimStart(s: string): (r: string)
    ensures |r| <= |s|
  {
    if s != [] && s[0] == ' ' then TrimStart(s[1..]) else s
  }

  lemma {:induction false} TrimSpaces(n: nat, t: string)
    requires t != [] && t[0] != ' '
    ensures TrimStart(Spaces(n) + t) == t
  {
    if n > 0 {
      TrimSpaces(n - 1, t);
      assert (Spaces(n) + t)[1..] == Spaces(n - 1) + t;
    }
  }

  /** What a reader of the table takes a cell to hold: its digits, spaces dropped. */
  function ReadCell(cell: string): (r: nat) {
    DecimalValue(TrimStart(cell))
  }

  /** A cell reads back as the number written into it. */
  lemma CellReadsBack(v: nat)
    ensures ReadCell(Cell(v)) == v
  {
    var digits := NatToString(v);
    CellShape(v);
    NatToStringDigits(v);
    TrimSpaces(|Cell(v)| - |digits|, digits);
    DecimalValueOfNatToString(v);
  }

  /** A cell of a non-negative number is spaces, then the number's digits. */
  lemma CellShape(v: nat)
    ensures |NatToString(v)| <= |Cell(v)|
    ensures Cell(v) == Spaces(|Cell(v)| - |NatToString(v)|) + NatToString(v)
  {
    var digits := NatToString(v);
    var padded := Pad(12, digits);
    PadShape(12, digits);
    var m := |padded| - |digits|;
    assert padded == Spaces(m) + digits;
    SpacesConcat(2, m);
    assert "  " == Spaces(2);
    Associative("  ", Spaces(m), digits);
  }

  lemma SpacesConcat(a: nat, b: nat)
    ensures Spaces(a) + Spaces(b) == Spaces(a + b)
  {
  }

  /** `runresults[name][suite]`: the map operator yields 0 for a missing entry. */
  function Lookup(runResults: map<string, map<string, nat>>, name: string, suite: string): (r: nat) {
    if name in runResults && suite in runResults[name] then runResults[name][suite] else 0
  }

  /** The pieces of `parts` written one after another. */
  function Concat(parts: seq<string>): (r: string)
    ensures parts == [] ==> r == ""
  {
    if parts == [] then "" else Concat(parts[..|parts| - 1]) + parts[|parts| - 1]
  }

  /** Every piece is one 14-character cell wide. */
  ghost predicate CellWide(parts: seq<string>) {
    forall i :: 0 <= i < |parts| ==> |parts[i]| == 14
  }

  lemma ConcatSnoc(parts: seq<string>, k: nat)
    requires k < |parts|
    ensures Concat(parts[..k + 1]) == Concat(parts[..k]) + parts[k]
  {
    assert parts[..k + 1][..k] == parts[..k];
  }

  lemma CellWidePrefix(parts: seq<string>, n: nat)
    requires n <= |parts| && CellWide(parts)
    ensures CellWide(parts[..n])
  {
    forall i | 0 <= i < n ensures |parts[..n][i]| == 14 {
      assert parts[..n][i] == parts[i];
    }
  }

  lemma {:induction false} ConcatLength(parts: seq<string>)
    requires CellWide(parts)
    ensures |Concat(parts)| == 14 * |parts|
  {
    if parts != [] {
      var n := |parts| - 1;
      CellWidePrefix(parts, n);
      ConcatLength(parts[..n]);
    }
  }

  /** Piece `k` of cells written one after another sits at character `14 * k`. */
  lemma {:induction false} ConcatBlock(parts: seq<string>, k: nat)
    requires k < |parts| && CellWide(parts)
    ensures 14 * (k + 1) <= |Concat(parts)|
    ensures Concat(parts)[14 * k..14 * (k + 1)] == parts[k]
    decreases |parts|
  {
    var n := |parts| - 1;
    var pre := Concat(parts[..n]);
    assert Concat(parts) == pre + parts[n];
    CellWidePrefix(parts, n);
    ConcatLength(parts[..n]);
    if k < n {
      ConcatBlock(parts[..n], k);
      assert parts[..n][k] == parts[k];
      SliceLeft(pre, parts[n], 14 * k, 14 * (k + 1));
    } else {
      assert 14 * k == |pre| && 14 * (k + 1) == |pre| + |parts[n]|;
      SliceRight(pre, parts[n]);
    }
  }

  /** One cell per run, in command-line order. */
  function RunCells(runResults: map<string, map<string, nat>>, runs: seq<Run>, suite: string): (r: seq<string>)
    ensures |r| == |runs|
  {
    seq(|runs|, k requires 0 <= k < |runs| => Cell(Lookup(runResults, runs[k].name, suite)))
  }

  /** `testsuitepct[suite]`, again 0 for a missing entry. */
  function PctOf(pcts: map<string, int>, suite: string): (r: int) {
    if suite in pcts then pcts[suite] else 0
  }

  function RowLine(w: nat, runs: seq<Run>, runResults: map<string, map<string, nat>>,
                   pcts: map<string, int>, suite: string): (r: string)
  {
    Pad(w, suite) + Concat(RunCells(runResults, runs, suite)) + Cell(PctOf(pcts, suite))
  }

  /** Every duration the row's run cells hold fits 12 digits. */
  ghost predicate CellsFit(runResults: map<string, map<string, nat>>, runs: seq<Run>, suite: string) {
    forall k :: 0 <= k < |runs| ==> Lookup(runResults, runs[k].name, suite) < Pow10(12)
  }

  /** Every number the row holds fits 12 digits. */
  ghost predicate RowValuesFit(runResults: map<string, map<string, nat>>, runs: seq<Run>,
                               pcts: map<string, int>, suite: string)
  {
    && CellsFit(runResults, runs, suite)
    && 0 <= PctOf(pcts, suite) < Pow10(12)
  }

  lemma SliceLeft(a: string, b: string, i: nat, j: nat)
    requires i <= j <= |a|
    ensures (a + b)[i..j] == a[i..j]
  {
  }

  lemma SliceRight(a: string, b: string)
    ensures (a + b)[|a|..|a| + |b|] == b
  {
  }

  lemma SliceMiddle(a: string, b: string, c: string, i: nat, j: nat)
    requires i <= j <= |b|
    ensures (a + b + c)[|a| + i..|a| + j] == b[i..j]
  {
  }

  lemma SliceEnds(a: string, b: string, c: string)
    ensures (a + b + c)[..|a|] == a
    ensures (a + b + c)[|a| + |b|..] == c
  {
  }

  lemma RunCellsWide(runResults: map<string, map<string, nat>>, runs: seq<Run>, suite: string)
    requires CellsFit(runResults, runs, suite)
    ensures CellWide(RunCells(runResults, runs, suite))
  {
    forall k | 0 <= k < |runs| ensures |RunCells(runResults, runs, suite)[k]| == 14 {
      CellLength(Lookup(runResults, runs[k].name, suite));
    }
  }

  /**
   * The columns line up: a row is its suite name padded to `w`, then one
   * 14-character cell per run holding the suite's duration in that run (0
   * if the run lacks the suite), then the percentage's cell.
   */
  lemma RowLayout(w: nat, runs: seq<Run>, runResults: map<string, map<string, nat>>,
                  pcts: map<string, int>, suite: string)
    requires |suite| <= w
    requires RowValuesFit(runResults, runs, pcts, suite)
    ensures var row := RowLine(w, runs, runResults, pcts, suite);
      && |row| == w + 14 * (|runs| + 1)
      && row[..w] == Pad(w, suite)
      && (forall k :: 0 <= k < |runs| ==>
            row[w + 14 * k..w + 14 * (k + 1)] == Cell(Lookup(runResults, runs[k].name, suite)))
      && row[w + 14 * |runs|..] == Cell(PctOf(pcts, suite))
  {
    var pad := Pad(w, suite);
    var parts := RunCells(runResults, runs, suite);
    var cells := Concat(parts);
    var last := Cell(PctOf(pcts, suite));
    var row := RowLine(w, runs, runResults, pcts, suite);
    assert row == pad + cells + last;
    assert |pad| == w;
    RunCellsWide(runResults, runs, suite);
    ConcatLength(parts);
    CellLength(PctOf(pcts, suite));
    forall k | 0 <= k < |runs|
      ensures row[w + 14 * k..w + 14 * (k + 1)] == Cell(Lookup(runResults, runs[k].name, suite))
    {
      ConcatBlock(parts, k);
      SliceMiddle(pad, cells, last, 14 * k, 14 * (k + 1));
    }
    SliceEnds(pad, cells, last);
    assert |cells| == 14 * |runs|;
  }

  lemma Associative(a: string, b: string, c: string)
    ensures (a + b) + c == a + (b + c)
  {
  }

  /** One row written cell by cell, as the loop over runs does. */
  method RenderRow(w: nat, runs: seq<Run>, runResults: map<string, map<string, nat>>,
                   pcts: map<string, int>, suite: string) returns (line: string)
    ensures line == RowLine(w, runs, runResults, pcts, suite)
  {
    ghost var cells := RunCells(runResults, runs, suite);
    line := Pad(w, suite);
    var k := 0;
    while k < |runs|
      invariant 0 <= k <= |runs|
      invariant line == Pad(w, suite) + Concat(cells[..k])
    {
      var cell := Cell(Lookup(runResults, runs[k].name, suite));
      ConcatSnoc(cells, k);
      Associative(Pad(w, suite), Concat(cells[..k]), cell);
      line := line + cell;
      k := k + 1;
    }
    assert cells[..k] == cells;
    line := line + Cell(PctOf(pcts, suite));
  }

  // ---------------------------------------------------------------------
  // Row order

  /** A `(suite, maximum)` pair, as copied out of the maximum table. */
  type Entry = (string, nat)

  /** `s` holds each entry of `m` exactly once and nothing else. */
  ghost predicate EntriesOf(s: seq<Entry>, m: map<string, nat>) {
    multiset(s) == multiset(m.Items)
  }

  /** Slowest first: no entry has a larger maximum than one before it. */
  predicate DescendingByMax(s: seq<Entry>) {
    forall p, q :: 0 <= p < q < |s| ==> s[q].1 <= s[p].1
  }

  lemma ItemsRemove(m: map<string, nat>, k: string)
    requires k in m
    ensures multiset(m.Items) == multiset((m - {k}).Items) + multiset{(k, m[k])}
  {
    ItemsSplit(m, k);
  }

  lemma ItemsSplit(m: map<string, nat>, k: string)
    requires k in m
    ensures m.Items == (m - {k}).Items + {(k, m[k])}
    ensures (k, m[k]) !in (m - {k}).Items
  {
    var rest := m - {k};
    forall x | x in m.Items ensures x in rest.Items + {(k, m[k])} {
      if x.0 != k {
        assert x.0 in rest;
      }
    }
    forall x | x in rest.Items + {(k, m[k])} ensures x in m.Items {
      if x != (k, m[k]) {
        assert x.0 in rest;
      }
    }
  }

  /** `std::copy` of the maximum table into a vector of pairs. */
  method CopyEntries(m: map<string, nat>) returns (s: seq<Entry>)
    ensures EntriesOf(s, m)
  {
    s := [];
    var rest := m;
    while rest != map[]
      invariant multiset(s) + multiset(rest.Items) == multiset(m.Items)
      decreases |rest|
    {
      var k :| k in rest;
      ItemsRemove(rest, k);
      s := s + [(k, rest[k])];
      rest := rest - {k};
    }
    assert rest.Items == {};
  }

  lemma SwapKeepsMultiset(s: seq<Entry>, i: nat, j: nat)
    requires i < |s| && j < |s|
    ensures multiset(s[i := s[j]][j := s[i]]) == multiset(s)
  {
  }

  /** Exchanges two entries of `a`. */
  method Swap(a: array<Entry>, i: nat, j: nat)
    requires i < a.Length && j < a.Length
    modifies a
    ensures a[..] == old(a[..])[i := old(a[j])][j := old(a[i])]
    ensures multiset(a[..]) == multiset(old(a[..]))
  {
    SwapKeepsMultiset(a[..], i, j);
    a[i], a[j] := a[j], a[i];
  }

  /**
   * While the entry from `i` travels left in `s[..i + 1]`, it sits at `j`:
   * the other entries keep their order and all that it has passed are faster.
   */
  predicate Inserting(s: seq<Entry>, i: nat, j: nat)
    requires j <= i < |s|
  {
    && (forall p, q :: 0 <= p < q <= i && p != j && q != j ==> s[q].1 <= s[p].1)
    && (forall q :: j < q <= i ==> s[q].1 < s[j].1)
  }

  lemma InsertingStep(s: seq<Entry>, i: nat, j: nat)
    requires 0 < j <= i < |s| && Inserting(s, i, j)
    requires s[j - 1].1 < s[j].1
    ensures Inserting(s[j - 1 := s[j]][j := s[j - 1]], i, j - 1)
  {
  }

  lemma InsertingDone(s: seq<Entry>, i: nat, j: nat)
    requires j <= i < |s| && Inserting(s, i, j)
    requires j == 0 || s[j].1 <= s[j - 1].1
    ensures DescendingByMax(s[..i + 1])
  {
  }

  /**
   * One step of the insertion sort: the entry at `i` moves left past every
   * entry with a smaller maximum, so `a[..i + 1]` is slowest first, holds
   * the same entries as before, and nothing after it moves.
   */
  method InsertAt(a: array<Entry>, i: nat)
    requires 0 < i < a.Length
    requires DescendingByMax(a[..i])
    modifies a
    ensures DescendingByMax(a[..i + 1])
    ensures multiset(a[..i + 1]) == multiset(old(a[..i + 1]))
    ensures a[i + 1..] == old(a[i + 1..])
    ensures multiset(a[..]) == multiset(old(a[..]))
  {
    var j := i;
    assert Inserting(a[..], i, j) by {
      assert forall p :: 0 <= p < i ==> a[..i][p] == a[p];
    }
    while j > 0 && a[j - 1].1 < a[j].1
      invariant 0 <= j <= i
      invariant multiset(a[..]) == multiset(old(a[..]))
      invariant a[i + 1..] == old(a[i + 1..])
      invariant Inserting(a[..], i, j)
    {
      InsertingStep(a[..], i, j);
      Swap(a, j - 1, j);
      j := j - 1;
    }
    InsertingDone(a[..], i, j);
    assert a[..] == a[..i + 1] + a[i + 1..];
    assert old(a[..]) == old(a[..i + 1]) + old(a[i + 1..]);
    PrefixMultiset(a[..i + 1], old(a[..i + 1]), a[i + 1..]);
  }

  /** Two sequences with the same suffix and the same multiset have prefixes with the same multiset. */
  lemma PrefixMultiset(p: seq<Entry>, q: seq<Entry>, s: seq<Entry>)
    requires multiset(p + s) == multiset(q + s)
    ensures multiset(p) == multiset(q)
  {
    assert multiset(p + s) == multiset(p) + multiset(s);
    assert multiset(q + s) == multiset(q) + multiset(s);
    forall x ensures multiset(p)[x] == multiset(q)[x] {
      assert (multiset(p) + multiset(s))[x] == (multiset(q) + multiset(s))[x];
    }
  }

  /** `std::sort` with `b.second < a.second`: the pairs, slowest first. */
  method SortDescending(a: array<Entry>)
    modifies a
    ensures DescendingByMax(a[..])
    ensures multiset(a[..]) == multiset(old(a[..]))
  {
    if a.Length == 0 {
      return;
    }
    var i := 1;
    while i < a.Length
      invariant 1 <= i <= a.Length
      invariant DescendingByMax(a[..i])
      invariant multiset(a[..]) == multiset(old(a[..]))
    {
      InsertAt(a, i);
      i := i + 1;
    }
    assert a[..i] == a[..];
  }

  /** The order rows are printed in: every suite once, slowest first. */
  method SortedSuites(suiteMax: map<string, nat>) returns (order: seq<Entry>)
    ensures EntriesOf(order, suiteMax)
    ensures DescendingByMax(order)
  {
    var s := CopyEntries(suiteMax);
    var a := new Entry[|s|](k requires 0 <= k < |s| => s[k]);
    assert a[..] == s;
    SortDescending(a);
    order := a[..];
  }

  lemma TwiceInSeq(s: seq<Entry>, i: nat, j: nat)
    requires i < j < |s| && s[i] == s[j]
    ensures multiset(s)[s[i]] >= 2
  {
    assert s == s[..j] + [s[j]] + s[j + 1..];
    assert s[i] in multiset(s[..j]);
  }

  /**
   * What `EntriesOf` means entry by entry: each row is a suite with its
   * maximum, every suite has a row, no suite has two, and there are as many
   * rows as suites.
   */
  lemma EntriesOfFacts(s: seq<Entry>, m: map<string, nat>)
    requires EntriesOf(s, m)
    ensures forall i :: 0 <= i < |s| ==> s[i].0 in m && s[i].1 == m[s[i].0]
    ensures forall k :: k in m ==> (k, m[k]) in s
    ensures forall i, j :: 0 <= i < j < |s| ==> s[i].0 != s[j].0
    ensures |s| == |m|
  {
    forall i | 0 <= i < |s| ensures s[i].0 in m && s[i].1 == m[s[i].0] {
      assert s[i] in multiset(s);
      assert s[i] in m.Items;
    }
    forall k | k in m ensures (k, m[k]) in s {
      assert (k, m[k]) in m.Items;
      assert (k, m[k]) in multiset(s);
    }
    forall i, j | 0 <= i < j < |s| ensures s[i].0 != s[j].0 {
      if s[i].0 == s[j].0 {
        TwiceInSeq(s, i, j);
        assert false;
      }
    }
    assert |multiset(s)| == |multiset(m.Items)|;
    assert |m.Items| == |m.Keys| by {
      ItemsCount(m);
    }
  }

  lemma {:induction false} ItemsCount(m: map<string, nat>)
    ensures |m.Items| == |m.Keys|
    decreases |m.Keys|
  {
    if m != map[] {
      var k :| k in m;
      var rest := m - {k};
      ItemsCount(rest);
      ItemsSplit(m, k);
      assert m.Keys == rest.Keys + {k};
    }
  }

  /** The first row is the slowest suite of all. */
  lemma SlowestFirst(order: seq<Entry>, m: map<string, nat>)
    requires EntriesOf(order, m) && DescendingByMax(order)
    requires order != []
    ensures forall k :: k in m ==> m[k] <= order[0].1
  {
    EntriesOfFacts(order, m);
    forall k | k in m ensures m[k] <= order[0].1 {
      var p :| 0 <= p < |order| && order[p] == (k, m[k]);
    }
  }

  // ---------------------------------------------------------------------
  // The whole table

  /** One row per entry of `order`, in that order. */
  function Rows(w: nat, runs: seq<Run>, runResults: map<string, map<string, nat>>,
                pcts: map<string, int>, order: seq<Entry>): (r: seq<string>)
    ensures |r| == |order|
  {
    seq(|order|, i requires 0 <= i < |order| => RowLine(w, runs, runResults, pcts, order[i].0))
  }

  lemma RowsSnoc(w: nat, runs: seq<Run>, runResults: map<string, map<string, nat>>,
                 pcts: map<string, int>, order: seq<Entry>, i: nat)
    requires i < |order|
    ensures Rows(w, runs, runResults, pcts, order[..i + 1]) ==
      Rows(w, runs, runResults, pcts, order[..i]) + [RowLine(w, runs, runResults, pcts, order[i].0)]
  {
    var a := Rows(w, runs, runResults, pcts, order[..i + 1]);
    var b := Rows(w, runs, runResults, pcts, order[..i]) + [RowLine(w, runs, runResults, pcts, order[i].0)];
    forall k | 0 <= k < |a| ensures a[k] == b[k] {
      assert order[..i + 1][k] == order[k];
      if k < i {
        assert order[..i][k] == order[k];
      }
    }
  }

  /** The loop over the sorted pairs, one row each. */
  method RenderRows(w: nat, runs: seq<Run>, runResults: map<string, map<string, nat>>,
                    pcts: map<string, int>, order: seq<Entry>) returns (lines: seq<string>)
    ensures lines == Rows(w, runs, runResults, pcts, order)
  {
    lines := [];
    var i := 0;
    while i < |order|
      invariant 0 <= i <= |order|
      invariant lines == Rows(w, runs, runResults, pcts, order[..i])
    {
      var row := RenderRow(w, runs, runResults, pcts, order[i].0);
      RowsSnoc(w, runs, runResults, pcts, order, i);
      lines := lines + [row];
      i := i + 1;
    }
    assert order[..i] == order;
  }

  /** Everything written to standard output: the header, then the rows. */
  function Table(w: nat, runs: seq<Run>, runResults: map<string, map<string, nat>>,
                 pcts: map<string, int>, order: seq<Entry>): (r: seq<string>)
    ensures |r| == |order| + 1
  {
    [HeaderLine(w, runs)] + Rows(w, runs, runResults, pcts, order)
  }
}
