/**
 * `main` of prep-gtests as a whole: scan the arguments, parse and fold
 * every named log in command-line order, then write the table.  Reading a
 * file is the parameter `readLines`, which maps a file name to the lines
 * of that file; what `main` writes to standard output is the result's list
 * of lines, and a usage error stands for the usage text and exit status 1.
 */
module PrepGtests {
  import opened Wrappers
  import opened LogParse
  import opened CommandLine
  import opened CrossRun
  import opened Report

  /**
   * `lines` is a table `main` may write for `runs`: the header and one row
   * per suite, for the tables folded from the runs' logs and an order of the
   * suites that is slowest first (`std::sort` leaves the order of suites
   * with equal maxima open).
   */
  ghost predicate IsTable(lines: seq<string>, runs: seq<Run>, readLines: string -> seq<string>) {
    exists st: Stats, order: seq<Entry> ::
      && Summarizes(st, HistoryOf(runs, readLines))
      && EntriesOf(order, st.suiteMax)
      && DescendingByMax(order)
      && lines == Table(|st.longest|, runs, st.runResults, st.suitePct, order)
  }

  method PrepareReport(args: seq<string>, readLines: string -> seq<string>)
    returns (r: Result<seq<string>, UsageError>)
    requires ParseResult(args).Success? ==> RunsInRange(ParseResult(args).value, readLines)
    ensures r.Failure? <==> ParseResult(args).Failure?
    ensures r.Failure? ==> r.error == ParseResult(args).error
    ensures r.Success? ==> IsTable(r.value, ParseResult(args).value, readLines)
  {
    var parsed := ParseArgs(args);
    if parsed.Failure? {
      return Failure(parsed.error);
    }
    var runs := parsed.value;
    var st := Aggregate(runs, readLines);
    var w := |st.longest|;
    var header := RenderHeader(w, runs);
    var order := SortedSuites(st.suiteMax);
    var rows := RenderRows(w, runs, st.runResults, st.suitePct, order);
    r := Success([header] + rows);
  }

  /**
   * The precondition of `PrepareReport` holds when every duration each run's
   * log yields, kept or not, is in range.
   */
  lemma LogsGiveRunsInRange(runs: seq<Run>, readLines: string -> seq<string>)
    requires forall i :: 0 <= i < |runs| ==> DurationsInRange(readLines(runs[i].file))
    ensures RunsInRange(runs, readLines)
  {
    forall i | 0 <= i < |runs| ensures ValuesInRange(RunSuites(readLines(runs[i].file))) {
      RunSuitesInRange(readLines(runs[i].file));
    }
  }

  /** Each value of the per-run table is a duration some run had, so it fits an `int`. */
  lemma RunTableInRange(h: History, name: string, s: string)
    requires HistoryInRange(h)
    ensures Lookup(RunTable(h), name, s) <= IntMax
  {
    RunTableFirstWins(h, name);
    if name in RunTable(h) {
      var i :| 0 <= i < |h| && h[i].name == name && RunTable(h)[name] == h[i].suites &&
        forall j :: 0 <= j < i ==> h[j].name != name;
      assert ValuesInRange(h[i].suites);
    }
  }

  lemma {:induction false} MulAtLeast(x: nat, y: nat)
    requires y > 0
    ensures x <= x * y
    decreases y
  {
    if y > 1 {
      MulAtLeast(x, y - 1);
      assert x * y == x * (y - 1) + x;
    }
  }

  lemma QuotientAtMost(a: nat, b: nat)
    requires b > 0
    ensures a / b <= a
  {
    var q := a / b;
    DivBounds(a, b);
    assert q * b <= a;
    MulAtLeast(q, b);
    assert q <= q * b;
  }

  lemma PctFits(max: nat, min: nat)
    requires 0 < min <= max <= IntMax
    ensures 0 <= Pct(max, min) < Pow10(12)
  {
    QuotientAtMost(max * 100, min);
    assert max * 100 <= IntMax * 100;
    assert Pow10(12) == 1_000_000_000_000;
  }

  /**
   * Every row of the table has the layout `RowLayout` describes: its suite
   * name fits the first column, which is as wide as the longest suite name,
   * and every duration and percentage in the row fits 12 digits.  The
   * tables are those `Summarizes` relates to the runs of `h`: the per-run
   * results, the three per-suite tables and the longest suite name.
   */
  lemma TableRowFits(runResults: map<string, map<string, nat>>, mins: map<string, nat>,
                     maxs: map<string, nat>, pcts: map<string, int>, longest: string,
                     h: History, runs: seq<Run>, s: string)
    requires runResults == RunTable(h) && SuiteStats(mins, maxs, pcts, h) && LongestOk(longest, h)
    requires HistoryInRange(h)
    requires s in maxs
    ensures |s| <= |longest|
    ensures RowValuesFit(runResults, runs, pcts, s)
  {
    assert s in Suites(h);
    assert SuiteStatsAt(mins, maxs, pcts, h, s);
    SuiteMinMax(mins, maxs, pcts, h, s);
    var j :| 0 <= j < |h| && s in h[j].suites && h[j].suites[s] == maxs[s];
    assert ValuesInRange(h[j].suites);
    PctFits(maxs[s], mins[s]);
    assert PctOf(pcts, s) == Pct(maxs[s], mins[s]);
    forall k | 0 <= k < |runs| ensures Lookup(runResults, runs[k].name, s) < Pow10(12) {
      RunTableInRange(h, runs[k].name, s);
    }
  }

  /**
   * The column of run `k` shows the durations of the first run with the same
   * name (`runresults.insert` keeps the first), 0 for a suite that run lacks.
   */
  lemma ColumnShowsFirstRunOfName(h: History, k: nat, s: string)
    requires k < |h|
    ensures exists j :: (0 <= j <= k && h[j].name == h[k].name &&
      (forall j' :: 0 <= j' < j ==> h[j'].name != h[k].name) &&
      Lookup(RunTable(h), h[k].name, s) == (if s in h[j].suites then h[j].suites[s] else 0))
  {
    RunTableFirstWins(h, h[k].name);
    var j :| 0 <= j < |h| && h[j].name == h[k].name && RunTable(h)[h[k].name] == h[j].suites &&
      forall j' :: 0 <= j' < j ==> h[j'].name != h[k].name;
    assert j <= k;
  }

  /** With distinct run names, each column shows its own run's durations. */
  lemma DistinctNamesOwnColumn(h: History, k: nat, s: string)
    requires k < |h|
    requires forall a, b :: 0 <= a < b < |h| ==> h[a].name != h[b].name
    ensures Lookup(RunTable(h), h[k].name, s) == if s in h[k].suites then h[k].suites[s] else 0
  {
    ColumnShowsFirstRunOfName(h, k, s);
  }
}
