// The fold over runs in `main`: for each run, in command-line order, the
// run's results map is parsed from its log, kept under the run's name, and
// folded into per-suite minimum, maximum and speed-up percentage, a
// per-run total, and the longest suite name seen.
//
// The state after a prefix of the runs is specified by the sequence of
// runs folded so far (a `History`): `Summarizes(st, h)` says what each of
// the six tables must hold for it.

module CrossRun {
  import opened CommandLine
  import opened LogParse

  /** One folded run: the name its column is shown under, and its results. */
  datatype RunRecord = RunRecord(name: string, suites: map<string, nat>)

  type History = seq<RunRecord>

  /** The six tables that `main` keeps across runs. */
  datatype Stats = Stats(
    runResults: map<string, map<string, nat>>,
    runTotal: map<string, nat>,
    suiteMin: map<string, nat>,
    suiteMax: map<string, nat>,
    suitePct: map<string, int>,
    longest: string)

  const Empty := Stats(map[], map[], map[], map[], map[], "")

  // ---------------------------------------------------------------------
  // Minimum, maximum and percentage

  function Min(a: nat, b: nat): (r: nat) { if b < a then b else a }

  function Max(a: nat, b: nat): (r: nat) { if a < b then b else a }

  /**
   * The fold of `std::min` over `ds` from `INT_MAX`, the value a suite's
   * minimum starts from.
   */
  function MinOf(ds: seq<nat>): (r: nat) {
    if ds == [] then IntMax else Min(MinOf(ds[..|ds| - 1]), ds[|ds| - 1])
  }

  /** The fold of `std::max` over `ds` from 0, the default a suite's maximum starts from. */
  function MaxOf(ds: seq<nat>): (r: nat) {
    if ds == [] then 0 else Max(MaxOf(ds[..|ds| - 1]), ds[|ds| - 1])
  }

  /** For durations that fit an `int`, the folds give the true minimum and maximum. */
  lemma {:induction false} MinMaxOfBounds(ds: seq<nat>)
    requires |ds| > 0
    requires forall k :: 0 <= k < |ds| ==> ds[k] <= IntMax
    ensures forall k :: 0 <= k < |ds| ==> MinOf(ds) <= ds[k] <= MaxOf(ds)
    ensures MinOf(ds) in ds && MaxOf(ds) in ds
  {
    var pre := ds[..|ds| - 1];
    if pre != [] {
      MinMaxOfBounds(pre);
      assert forall k :: 0 <= k < |pre| ==> pre[k] == ds[k];
    }
  }

  /**
   * The speed-up between the slowest and the fastest run, in percent,
   * truncated: `max * 100 / min - 100`.  The fold only asks for it with the
   * minimum at most the maximum; there the quotient is at least 100, so
   * truncating after subtracting 100 is the same as before.
   */
  function Pct(max: nat, min: nat): (r: int)
    requires 0 < min <= max
    ensures r >= 0
    ensures min == max ==> r == 0
  {
    PctBounds(max, min);
    (max * 100) / min - 100
  }

  /** The percentage is the relative variation `(max - min) / min`, in percent, rounded down. */
  lemma PctIsRoundedVariation(max: nat, min: nat)
    requires 0 < min <= max
    ensures Pct(max, min) * min <= (max - min) * 100 < (Pct(max, min) + 1) * min
  {
    PctBounds(max, min);
  }

  lemma PctBounds(max: nat, min: nat)
    requires min > 0
    ensures var q := (max * 100) / min;
      && (min <= max ==> q >= 100)
      && (min == max ==> q == 100)
      && q * min <= max * 100 < (q + 1) * min
  {
    DivBounds(max * 100, min);
    if min <= max {
      assert 100 * min <= max * 100;
      DivAtLeast(max * 100, min, 100);
    }
    if min == max {
      assert max * 100 == 100 * min;
      DivExact(100, min);
    }
  }

  lemma DivBounds(a: nat, b: nat)
    requires b > 0
    ensures (a / b) * b <= a < (a / b + 1) * b
  {
  }

  lemma DivAtLeast(a: nat, b: nat, c: nat)
    requires b > 0 && c * b <= a
    ensures c <= a / b
  {
    DivBounds(a, b);
  }

  lemma DivExact(c: nat, b: nat)
    requires b > 0
    ensures (c * b) / b == c
  {
    DivBounds(c * b, b);
  }

  lemma PctOfHundredAndHundredFifty()
    ensures Pct(150, 100) == 50
  {
  }

  // ---------------------------------------------------------------------
  // What the runs folded so far determine

  /** Durations of `suite`, one per run that has it, in run order. */
  function Durations(h: History, suite: string): (r: seq<nat>) {
    if h == [] then []
    else
      var last := h[|h| - 1];
      Durations(h[..|h| - 1], suite) + (if suite in last.suites then [last.suites[suite]] else [])
  }

  /** Every suite that some run has. */
  function Suites(h: History): (r: set<string>) {
    if h == [] then {} else Suites(h[..|h| - 1]) + h[|h| - 1].suites.Keys
  }

  /** The results kept per run name: `std::map::insert`, so the first run of a name wins. */
  function RunTable(h: History): (r: map<string, map<string, nat>>) {
    if h == [] then map[] else Insert(RunTable(h[..|h| - 1]), h[|h| - 1].name, h[|h| - 1].suites)
  }

  /** The sum of the values of `m`. */
  ghost function SumValues(m: map<string, nat>): (r: nat)
    decreases |m.Keys|
  {
    if m == map[] then 0
    else
      var k :| k in m;
      m[k] + SumValues(m - {k})
  }

  /** The sum of all durations of all runs named `name`. */
  ghost function RunTotal(h: History, name: string): (r: nat) {
    if h == [] then 0
    else RunTotal(h[..|h| - 1], name) + (if h[|h| - 1].name == name then SumValues(h[|h| - 1].suites) else 0)
  }

  /** The run names that have a total: those of runs with at least one suite. */
  function TotalKeys(h: History): (r: set<string>) {
    if h == [] then {}
    else TotalKeys(h[..|h| - 1]) + (if h[|h| - 1].suites != map[] then {h[|h| - 1].name} else {})
  }

  /** All durations of all runs fit a positive `int`. */
  ghost predicate HistoryInRange(h: History) {
    forall i :: 0 <= i < |h| ==> ValuesInRange(h[i].suites)
  }

  /** The per-suite tables hold the right values for suite `t` after the runs of `h`. */
  ghost predicate SuiteStatsAt(mins: map<string, nat>, maxs: map<string, nat>, pcts: map<string, int>,
                               h: History, t: string)
    requires t in mins && t in maxs && t in pcts
  {
    && mins[t] == MinOf(Durations(h, t))
    && maxs[t] == MaxOf(Durations(h, t))
    && 0 < mins[t] <= maxs[t]
    && pcts[t] == Pct(maxs[t], mins[t])
  }

  /** The per-suite tables have an entry for exactly the suites seen, each right for its durations. */
  ghost predicate SuiteStats(mins: map<string, nat>, maxs: map<string, nat>, pcts: map<string, int>, h: History) {
    && mins.Keys == Suites(h)
    && maxs.Keys == Suites(h)
    && pcts.Keys == Suites(h)
    && forall s :: s in Suites(h) ==> SuiteStatsAt(mins, maxs, pcts, h, s)
  }

  /** Each run name with some suite has its total, the sum of its runs' durations. */
  ghost predicate TotalsOk(totals: map<string, nat>, h: History) {
    && totals.Keys == TotalKeys(h)
    && forall n :: n in totals ==> totals[n] == RunTotal(h, n)
  }

  /** `longest` is one of the suites seen (or empty before any) and no suite name is longer. */
  ghost predicate LongestOk(longest: string, h: History) {
    && (longest == "" || longest in Suites(h))
    && forall s :: s in Suites(h) ==> |s| <= |longest|
  }

  /** `st` is what `main` holds after folding the runs of `h`, in order. */
  ghost predicate Summarizes(st: Stats, h: History) {
    && st.runResults == RunTable(h)
    && SuiteStats(st.suiteMin, st.suiteMax, st.suitePct, h)
    && TotalsOk(st.runTotal, h)
    && LongestOk(st.longest, h)
  }

  // ---------------------------------------------------------------------
  // Facts about the specification functions

  // How each specification function sees one more run.

  lemma DurationsSnoc(h: History, r: RunRecord, s: string)
    ensures Durations(h + [r], s) == Durations(h, s) + (if s in r.suites then [r.suites[s]] else [])
  {
    assert (h + [r])[..|h|] == h;
  }

  lemma SuitesSnoc(h: History, r: RunRecord)
    ensures Suites(h + [r]) == Suites(h) + r.suites.Keys
  {
    assert (h + [r])[..|h|] == h;
  }

  lemma RunTableSnoc(h: History, r: RunRecord)
    ensures RunTable(h + [r]) == Insert(RunTable(h), r.name, r.suites)
  {
    assert (h + [r])[..|h|] == h;
  }

  lemma RunTotalSnoc(h: History, r: RunRecord, n: string)
    ensures RunTotal(h + [r], n) == RunTotal(h, n) + (if r.name == n then SumValues(r.suites) else 0)
  {
    assert (h + [r])[..|h|] == h;
  }

  lemma TotalKeysSnoc(h: History, r: RunRecord)
    ensures TotalKeys(h + [r]) == TotalKeys(h) + (if r.suites != map[] then {r.name} else {})
  {
    assert (h + [r])[..|h|] == h;
  }

  lemma {:induction false} DurationsEmpty(h: History, s: string)
    ensures s in Suites(h) <==> Durations(h, s) != []
  {
    if h != [] {
      DurationsEmpty(h[..|h| - 1], s);
    }
  }

  lemma {:induction false} SumValuesRemove(m: map<string, nat>, k: string)
    requires k in m
    ensures SumValues(m) == m[k] + SumValues(m - {k})
    decreases |m.Keys|
  {
    var k' :| k' in m && SumValues(m) == m[k'] + SumValues(m - {k'});
    if k' != k {
      SumValuesRemove(m - {k'}, k);
      SumValuesRemove(m - {k}, k');
      assert m - {k'} - {k} == m - {k} - {k'};
    }
  }

  lemma {:induction false} RunTotalOutsideKeys(h: History, n: string)
    requires n !in TotalKeys(h)
    ensures RunTotal(h, n) == 0
  {
    if h != [] {
      RunTotalOutsideKeys(h[..|h| - 1], n);
    }
  }

  // ---------------------------------------------------------------------
  // The fold

  lemma KeysUpdate<V>(m: map<string, V>, k: string, v: V)
    ensures m[k := v].Keys == m.Keys + {k}
  {
  }

  lemma SuitesAddSuite(h: History, name: string, done: map<string, nat>, s: string, e: nat)
    ensures Suites(h + [RunRecord(name, done[s := e])]) == Suites(h + [RunRecord(name, done)]) + {s}
  {
    SuitesSnoc(h, RunRecord(name, done));
    SuitesSnoc(h, RunRecord(name, done[s := e]));
    KeysUpdate(done, s, e);
  }

  /** Adding suite `s` with duration `e` to the current run updates the per-suite tables correctly. */
  lemma StepSuiteStats(mins: map<string, nat>, maxs: map<string, nat>, pcts: map<string, int>,
                       mins': map<string, nat>, maxs': map<string, nat>, pcts': map<string, int>,
                       h: History, name: string, done: map<string, nat>, s: string, e: nat)
    requires s !in done && e > 0
    requires SuiteStats(mins, maxs, pcts, h + [RunRecord(name, done)])
    requires mins' == mins[s := Min(if s in mins then mins[s] else IntMax, e)]
    requires maxs' == maxs[s := Max(if s in maxs then maxs[s] else 0, e)]
    requires 0 < mins'[s] <= maxs'[s]
    requires pcts' == pcts[s := Pct(maxs'[s], mins'[s])]
    ensures SuiteStats(mins', maxs', pcts', h + [RunRecord(name, done[s := e])])
  {
    var rp, rq := RunRecord(name, done), RunRecord(name, done[s := e]);
    SuitesAddSuite(h, name, done, s, e);
    KeysUpdate(mins, s, mins'[s]);
    KeysUpdate(maxs, s, maxs'[s]);
    KeysUpdate(pcts, s, pcts'[s]);
    StepSuiteAtNew(mins, maxs, pcts, h, name, done, s, e);
    assert SuiteStatsAt(mins', maxs', pcts', h + [rq], s);
    forall t | t in Suites(h + [rq]) && t != s
      ensures SuiteStatsAt(mins', maxs', pcts', h + [rq], t)
    {
      assert t in Suites(h + [rp]);
      assert SuiteStatsAt(mins, maxs, pcts, h + [rp], t);
      StepSuiteAtOther(mins, maxs, pcts, mins', maxs', pcts', h, rp, rq, t);
    }
  }

  lemma StepSuiteAtOther(mins: map<string, nat>, maxs: map<string, nat>, pcts: map<string, int>,
                         mins': map<string, nat>, maxs': map<string, nat>, pcts': map<string, int>,
                         h: History, rp: RunRecord, rq: RunRecord, t: string)
    requires t in rp.suites <==> t in rq.suites
    requires t in rp.suites ==> rp.suites[t] == rq.suites[t]
    requires t in mins && t in maxs && t in pcts
    requires t in mins' && t in maxs' && t in pcts'
    requires mins'[t] == mins[t] && maxs'[t] == maxs[t] && pcts'[t] == pcts[t]
    requires SuiteStatsAt(mins, maxs, pcts, h + [rp], t)
    ensures SuiteStatsAt(mins', maxs', pcts', h + [rq], t)
  {
    DurationsSnoc(h, rp, t);
    DurationsSnoc(h, rq, t);
  }

  /** The new minimum and maximum of suite `s` are those of its durations so far. */
  lemma StepSuiteAtNew(mins: map<string, nat>, maxs: map<string, nat>, pcts: map<string, int>,
                       h: History, name: string, done: map<string, nat>, s: string, e: nat)
    requires s !in done && e > 0
    requires SuiteStats(mins, maxs, pcts, h + [RunRecord(name, done)])
    ensures
      var mn := Min(if s in mins then mins[s] else IntMax, e);
      var mx := Max(if s in maxs then maxs[s] else 0, e);
      && mn == MinOf(Durations(h + [RunRecord(name, done[s := e])], s))
      && mx == MaxOf(Durations(h + [RunRecord(name, done[s := e])], s))
      && 0 < mn <= mx
  {
    var rp, rq := RunRecord(name, done), RunRecord(name, done[s := e]);
    DurationsSnoc(h, rp, s);
    DurationsSnoc(h, rq, s);
    var ds := Durations(h + [rq], s);
    assert ds[..|ds| - 1] == Durations(h + [rp], s);
    DurationsEmpty(h + [rp], s);
  }

  /** Adding a suite with duration `e` to the current run adds `e` to the run's total. */
  lemma StepTotals(totals: map<string, nat>, totals': map<string, nat>, h: History, name: string,
                   done: map<string, nat>, s: string, e: nat, previous: nat)
    requires s !in done
    requires TotalsOk(totals, h + [RunRecord(name, done)])
    requires previous == if name in totals then totals[name] else 0
    requires totals' == totals[name := previous + e]
    ensures TotalsOk(totals', h + [RunRecord(name, done[s := e])])
  {
    var rp, rq := RunRecord(name, done), RunRecord(name, done[s := e]);
    var hp, hq := h + [rp], h + [rq];
    TotalKeysSnoc(h, rp);
    TotalKeysSnoc(h, rq);
    assert TotalKeys(hq) == TotalKeys(hp) + {name};
    SumValuesRemove(done[s := e], s);
    assert done[s := e] - {s} == done;
    forall n | n in totals'
      ensures totals'[n] == RunTotal(hq, n)
    {
      RunTotalSnoc(h, rp, n);
      RunTotalSnoc(h, rq, n);
      if n == name && name !in totals {
        RunTotalOutsideKeys(hp, name);
      }
    }
  }

  /** Adding a suite to the current run keeps the longest name the longest. */
  lemma StepLongest(longest: string, longest': string, h: History, name: string,
                    done: map<string, nat>, s: string, e: nat)
    requires LongestOk(longest, h + [RunRecord(name, done)])
    requires longest' == if |s| > |longest| then s else longest
    ensures LongestOk(longest', h + [RunRecord(name, done[s := e])])
  {
    SuitesSnoc(h, RunRecord(name, done));
    SuitesSnoc(h, RunRecord(name, done[s := e]));
  }

  /** A run whose suites are not folded yet leaves the per-suite tables as they were. */
  lemma StartSuiteStats(mins: map<string, nat>, maxs: map<string, nat>, pcts: map<string, int>,
                        h: History, r: RunRecord)
    requires r.suites == map[]
    requires SuiteStats(mins, maxs, pcts, h)
    ensures SuiteStats(mins, maxs, pcts, h + [r])
  {
    SuitesSnoc(h, r);
    forall t ensures Durations(h + [r], t) == Durations(h, t) {
      DurationsSnoc(h, r, t);
    }
  }

  /** A run whose suites are not folded yet leaves the totals as they were. */
  lemma StartTotals(totals: map<string, nat>, h: History, r: RunRecord)
    requires r.suites == map[]
    requires TotalsOk(totals, h)
    ensures TotalsOk(totals, h + [r])
  {
    TotalKeysSnoc(h, r);
    assert SumValues(r.suites) == 0;
    forall n ensures RunTotal(h + [r], n) == RunTotal(h, n) {
      RunTotalSnoc(h, r, n);
    }
  }

  /** A run whose suites are not folded yet leaves the longest name as it was. */
  lemma StartLongest(longest: string, h: History, r: RunRecord)
    requires r.suites == map[]
    requires LongestOk(longest, h)
    ensures LongestOk(longest, h + [r])
  {
    SuitesSnoc(h, r);
  }

  /** Moving `s` from the remaining suites to the folded ones keeps `done` the folded part of `results`. */
  lemma StepDone(done: map<string, nat>, results: map<string, nat>, remaining: set<string>, s: string)
    requires s in remaining && remaining <= results.Keys
    requires done.Keys == results.Keys - remaining
    requires forall k :: k in done ==> done[k] == results[k]
    ensures s !in done && remaining - {s} <= results.Keys && |remaining - {s}| < |remaining|
    ensures done[s := results[s]].Keys == results.Keys - (remaining - {s})
    ensures forall k :: k in done[s := results[s]] ==> done[s := results[s]][k] == results[k]
  {
  }

  lemma SameMaps(a: map<string, nat>, b: map<string, nat>)
    requires a.Keys == b.Keys
    requires forall k :: k in a ==> a[k] == b[k]
    ensures a == b
  {
  }

  /** Once all its suites are folded, the run is part of the history. */
  lemma FinishRun(st: Stats, h: History, name: string, results: map<string, nat>,
                  done: map<string, nat>, remaining: set<string>)
    requires remaining == {}
    requires done.Keys == results.Keys - remaining
    requires forall k :: k in done ==> done[k] == results[k]
    requires st.runResults == Insert(RunTable(h), name, results)
    requires SuiteStats(st.suiteMin, st.suiteMax, st.suitePct, h + [RunRecord(name, done)])
    requires TotalsOk(st.runTotal, h + [RunRecord(name, done)])
    requires LongestOk(st.longest, h + [RunRecord(name, done)])
    ensures Summarizes(st, h + [RunRecord(name, results)])
  {
    SameMaps(done, results);
    RunTableSnoc(h, RunRecord(name, results));
  }

  /**
   * The body of the loop over one run's results in `main`: folds the
   * duration `execution` of `suite`, from the run named `runName`, into the
   * tables. `done` holds the suites of this run folded before it.
   */
  method FoldSuite(suiteMin: map<string, nat>, suiteMax: map<string, nat>, suitePct: map<string, int>,
                   runTotal: map<string, nat>, longest: string,
                   runName: string, suite: string, execution: nat, ghost h: History, ghost done: map<string, nat>)
    returns (suiteMin': map<string, nat>, suiteMax': map<string, nat>, suitePct': map<string, int>,
             runTotal': map<string, nat>, longest': string)
    requires suite !in done && execution > 0
    requires SuiteStats(suiteMin, suiteMax, suitePct, h + [RunRecord(runName, done)])
    requires TotalsOk(runTotal, h + [RunRecord(runName, done)])
    requires LongestOk(longest, h + [RunRecord(runName, done)])
    ensures SuiteStats(suiteMin', suiteMax', suitePct', h + [RunRecord(runName, done[suite := execution])])
    ensures TotalsOk(runTotal', h + [RunRecord(runName, done[suite := execution])])
    ensures LongestOk(longest', h + [RunRecord(runName, done[suite := execution])])
  {
    StepSuiteAtNew(suiteMin, suiteMax, suitePct, h, runName, done, suite, execution);
    longest' := if |suite| > |longest| then suite else longest;
    var previousMin: nat := if suite in suiteMin then suiteMin[suite] else IntMax;
    suiteMin' := suiteMin[suite := Min(previousMin, execution)];
    var previousMax: nat := if suite in suiteMax then suiteMax[suite] else 0;
    suiteMax' := suiteMax[suite := Max(previousMax, execution)];
    suitePct' := suitePct[suite := Pct(suiteMax'[suite], suiteMin'[suite])];
    var previousTotal: nat := if runName in runTotal then runTotal[runName] else 0;
    runTotal' := runTotal[runName := previousTotal + execution];
    StepSuiteStats(suiteMin, suiteMax, suitePct, suiteMin', suiteMax', suitePct', h, runName, done, suite, execution);
    StepTotals(runTotal, runTotal', h, runName, done, suite, execution, previousTotal);
    StepLongest(longest, longest', h, runName, done, suite, execution);
  }

  /** The body of the loop over runs in `main`: folds one run's results into the tables. */
  method FoldRun(st: Stats, runName: string, results: map<string, nat>, ghost h: History)
    returns (st': Stats)
    requires Summarizes(st, h)
    requires ValuesInRange(results)
    ensures Summarizes(st', h + [RunRecord(runName, results)])
  {
    var runResults := Insert(st.runResults, runName, results);
    var runTotal: map<string, nat>, suiteMin: map<string, nat>, suiteMax: map<string, nat> :=
      st.runTotal, st.suiteMin, st.suiteMax;
    var suitePct: map<string, int>, longest: string := st.suitePct, st.longest;
    var remaining := results.Keys;
    ghost var done: map<string, nat> := map[];
    StartSuiteStats(suiteMin, suiteMax, suitePct, h, RunRecord(runName, done));
    StartTotals(runTotal, h, RunRecord(runName, done));
    StartLongest(longest, h, RunRecord(runName, done));
    while remaining != {}
      invariant remaining <= results.Keys
      invariant done.Keys == results.Keys - remaining
      invariant forall k :: k in done ==> done[k] == results[k]
      invariant SuiteStats(suiteMin, suiteMax, suitePct, h + [RunRecord(runName, done)])
      invariant TotalsOk(runTotal, h + [RunRecord(runName, done)])
      invariant LongestOk(longest, h + [RunRecord(runName, done)])
      decreases |remaining|
    {
      var suite :| suite in remaining;
      StepDone(done, results, remaining, suite);
      assert 0 < results[suite];
      suiteMin, suiteMax, suitePct, runTotal, longest :=
        FoldSuite(suiteMin, suiteMax, suitePct, runTotal, longest, runName, suite, results[suite], h, done);
      remaining := remaining - {suite};
      done := done[suite := results[suite]];
    }
    st' := Stats(runResults, runTotal, suiteMin, suiteMax, suitePct, longest);
    FinishRun(st', h, runName, results, done, remaining);
  }

  /** The runs of `runs`, each with the results parsed from its log. */
  function HistoryOf(runs: seq<Run>, readLines: string -> seq<string>): (h: History)
    ensures |h| == |runs|
    ensures forall i :: 0 <= i < |runs| ==> h[i] == RunRecord(runs[i].name, RunSuites(readLines(runs[i].file)))
  {
    seq(|runs|, i requires 0 <= i < |runs| => RunRecord(runs[i].name, RunSuites(readLines(runs[i].file))))
  }

  lemma EmptySummarizesNothing()
    ensures Summarizes(Empty, [])
  {
  }

  lemma HistoryOfStep(runs: seq<Run>, readLines: string -> seq<string>, i: nat)
    requires i < |runs|
    ensures HistoryOf(runs[..i + 1], readLines) ==
      HistoryOf(runs[..i], readLines) + [RunRecord(runs[i].name, RunSuites(readLines(runs[i].file)))]
  {
    var a := HistoryOf(runs[..i + 1], readLines);
    var b := HistoryOf(runs[..i], readLines) + [RunRecord(runs[i].name, RunSuites(readLines(runs[i].file)))];
    assert |a| == |b|;
    forall k | 0 <= k < |a| ensures a[k] == b[k] {
      assert runs[..i + 1][k] == runs[k];
      if k < i { assert runs[..i][k] == runs[k]; }
    }
  }

  /**
   * The durations each run's log yields, once first-wins has picked them,
   * are positive (a 0 would be divided by) and fit an `int`.
   */
  ghost predicate RunsInRange(runs: seq<Run>, readLines: string -> seq<string>) {
    forall i :: 0 <= i < |runs| ==> ValuesInRange(RunSuites(readLines(runs[i].file)))
  }

  /** The history `main` folds has every value in range when the kept results of each run are. */
  lemma RunsInRangeHistory(runs: seq<Run>, readLines: string -> seq<string>)
    requires RunsInRange(runs, readLines)
    ensures HistoryInRange(HistoryOf(runs, readLines))
  {
    forall i | 0 <= i < |runs| ensures ValuesInRange(HistoryOf(runs, readLines)[i].suites) {
      assert HistoryOf(runs, readLines)[i].suites == RunSuites(readLines(runs[i].file));
    }
  }

  /**
   * The loop over runs in `main`: each run's log (its lines, as `readLines`
   * gives them) is parsed and folded in, in command-line order.
   */
  method Aggregate(runs: seq<Run>, readLines: string -> seq<string>) returns (st: Stats)
    requires RunsInRange(runs, readLines)
    ensures Summarizes(st, HistoryOf(runs, readLines))
  {
    st := Empty;
    EmptySummarizesNothing();
    var i := 0;
    assert HistoryOf(runs[..0], readLines) == [];
    while i < |runs|
      invariant 0 <= i <= |runs|
      invariant Summarizes(st, HistoryOf(runs[..i], readLines))
    {
      var results := ParseLogFile(readLines(runs[i].file));
      HistoryOfStep(runs, readLines, i);
      st := FoldRun(st, runs[i].name, results, HistoryOf(runs[..i], readLines));
      i := i + 1;
    }
    assert runs[..i] == runs;
  }

  // ---------------------------------------------------------------------
  // What the tables mean

  /** Each of a suite's durations is its value in some run that has it. */
  lemma {:induction false} DurationFrom(h: History, s: string, k: nat)
    requires k < |Durations(h, s)|
    ensures exists i :: 0 <= i < |h| && s in h[i].suites && h[i].suites[s] == Durations(h, s)[k]
  {
    var n := |h| - 1;
    var pre := h[..n];
    var dpre := Durations(pre, s);
    assert Durations(h, s) == dpre + (if s in h[n].suites then [h[n].suites[s]] else []);
    if k < |dpre| {
      DurationFrom(pre, s, k);
      var i :| 0 <= i < |pre| && s in pre[i].suites && pre[i].suites[s] == dpre[k];
      assert h[i] == pre[i];
    } else {
      assert s in h[n].suites && h[n].suites[s] == Durations(h, s)[k];
    }
  }

  /** The value of a suite in every run that has it is among the suite's durations. */
  lemma {:induction false} DurationIn(h: History, s: string, i: nat)
    requires i < |h| && s in h[i].suites
    ensures h[i].suites[s] in Durations(h, s)
  {
    var n := |h| - 1;
    var pre := h[..n];
    var dpre := Durations(pre, s);
    assert Durations(h, s) == dpre + (if s in h[n].suites then [h[n].suites[s]] else []);
    if i < n {
      assert pre[i] == h[i];
      DurationIn(pre, s, i);
    }
  }

  /** A suite has been seen exactly when some run has it. */
  lemma {:induction false} SuitesMembers(h: History, s: string)
    ensures s in Suites(h) <==> exists i :: 0 <= i < |h| && s in h[i].suites
  {
    if h != [] {
      var n := |h| - 1;
      SuitesMembers(h[..n], s);
      assert forall i :: 0 <= i < n ==> h[..n][i] == h[i];
    }
  }

  /**
   * After folding the runs of `h`, a suite has a minimum exactly when some
   * run has it; the minimum and maximum are durations it actually had, no
   * run had it faster than the minimum or slower than the maximum, and the
   * percentage is that of the maximum over the minimum, never negative.
   */
  lemma SuiteMinMax(mins: map<string, nat>, maxs: map<string, nat>, pcts: map<string, int>, h: History, s: string)
    requires SuiteStats(mins, maxs, pcts, h) && HistoryInRange(h)
    ensures s in mins <==> exists i :: 0 <= i < |h| && s in h[i].suites
    ensures s in mins ==>
      && s in maxs && s in pcts
      && (forall i :: 0 <= i < |h| && s in h[i].suites ==> mins[s] <= h[i].suites[s] <= maxs[s])
      && (exists i :: 0 <= i < |h| && s in h[i].suites && h[i].suites[s] == mins[s])
      && (exists i :: 0 <= i < |h| && s in h[i].suites && h[i].suites[s] == maxs[s])
      && mins[s] <= maxs[s]
      && pcts[s] == Pct(maxs[s], mins[s]) >= 0
  {
    SuitesMembers(h, s);
    if s in mins {
      var ds := Durations(h, s);
      DurationsEmpty(h, s);
      assert SuiteStatsAt(mins, maxs, pcts, h, s);
      forall k | 0 <= k < |ds| ensures ds[k] <= IntMax {
        DurationFrom(h, s, k);
        var i :| 0 <= i < |h| && s in h[i].suites && h[i].suites[s] == ds[k];
        assert ValuesInRange(h[i].suites);
      }
      MinMaxOfBounds(ds);
      var kmin :| 0 <= kmin < |ds| && ds[kmin] == MinOf(ds);
      var kmax :| 0 <= kmax < |ds| && ds[kmax] == MaxOf(ds);
      DurationFrom(h, s, kmin);
      DurationFrom(h, s, kmax);
      assert exists i :: 0 <= i < |h| && s in h[i].suites && h[i].suites[s] == ds[kmin];
      assert exists i :: 0 <= i < |h| && s in h[i].suites && h[i].suites[s] == ds[kmax];
      forall i | 0 <= i < |h| && s in h[i].suites
        ensures mins[s] <= h[i].suites[s] <= maxs[s]
      {
        DurationIn(h, s, i);
        var k :| 0 <= k < |ds| && ds[k] == h[i].suites[s];
      }
    }
  }

  /** When every run that has a suite took equally long on it, its percentage is 0. */
  lemma EqualDurationsNoSpeedup(mins: map<string, nat>, maxs: map<string, nat>, pcts: map<string, int>,
                                h: History, s: string, d: nat)
    requires SuiteStats(mins, maxs, pcts, h) && HistoryInRange(h)
    requires s in pcts
    requires forall i :: 0 <= i < |h| && s in h[i].suites ==> h[i].suites[s] == d
    ensures pcts[s] == 0
  {
    SuiteMinMax(mins, maxs, pcts, h, s);
  }

  /** After a single run, no suite shows a speed-up. */
  lemma SingleRunNoSpeedup(mins: map<string, nat>, maxs: map<string, nat>, pcts: map<string, int>,
                           h: History, s: string)
    requires |h| == 1 && SuiteStats(mins, maxs, pcts, h) && HistoryInRange(h)
    requires s in pcts
    ensures pcts[s] == 0
  {
    SuiteMinMax(mins, maxs, pcts, h, s);
    var i :| 0 <= i < |h| && s in h[i].suites && h[i].suites[s] == mins[s];
    var j :| 0 <= j < |h| && s in h[j].suites && h[j].suites[s] == maxs[s];
    assert i == 0 == j;
  }

  /** A suite that took 100 ms in one run and 150 ms in the next shows a 50 percent speed-up. */
  lemma TwoRunsSpeedup(mins: map<string, nat>, maxs: map<string, nat>, pcts: map<string, int>, h: History)
    requires |h| == 2 && h[0].suites == map["Suite" := 100] && h[1].suites == map["Suite" := 150]
    requires SuiteStats(mins, maxs, pcts, h)
    ensures mins["Suite"] == 100 && maxs["Suite"] == 150 && pcts["Suite"] == 50
  {
    forall i | 0 <= i < |h| ensures ValuesInRange(h[i].suites) {
      assert i == 0 || i == 1;
    }
    SuiteMinMax(mins, maxs, pcts, h, "Suite");
    assert "Suite" in h[0].suites;
    assert mins["Suite"] <= 100 && 150 <= maxs["Suite"] by {
      assert h[0].suites["Suite"] == 100 && h[1].suites["Suite"] == 150;
    }
    var i :| 0 <= i < |h| && "Suite" in h[i].suites && h[i].suites["Suite"] == mins["Suite"];
    var j :| 0 <= j < |h| && "Suite" in h[j].suites && h[j].suites["Suite"] == maxs["Suite"];
    assert i == 0 || i == 1;
    assert j == 0 || j == 1;
    PctOfHundredAndHundredFifty();
  }

  /** The results kept under a run name are those of the first run with that name. */
  lemma {:induction false} RunTableFirstWins(h: History, name: string)
    ensures name in RunTable(h) <==> exists i :: 0 <= i < |h| && h[i].name == name
    ensures name in RunTable(h) ==>
      exists i :: 0 <= i < |h| && h[i].name == name && RunTable(h)[name] == h[i].suites &&
        forall j :: 0 <= j < i ==> h[j].name != name
  {
    if h != [] {
      var n := |h| - 1;
      RunTableFirstWins(h[..n], name);
      assert forall i :: 0 <= i < n ==> h[..n][i] == h[i];
      if name in RunTable(h[..n]) {
        var i :| 0 <= i < n && h[..n][i].name == name && RunTable(h[..n])[name] == h[..n][i].suites &&
          forall j :: 0 <= j < i ==> h[..n][j].name != name;
        assert RunTable(h)[name] == h[i].suites;
      } else if h[n].name == name {
        assert RunTable(h)[name] == h[n].suites;
        assert forall j :: 0 <= j < n ==> h[j].name != name;
      }
    }
  }

  /** When run names are distinct, each run's total is the sum of its own suites' durations. */
  lemma {:induction false} DistinctRunTotal(h: History, i: nat)
    requires i < |h|
    requires forall j, k :: 0 <= j < k < |h| ==> h[j].name != h[k].name
    ensures RunTotal(h, h[i].name) == SumValues(h[i].suites)
  {
    var n := |h| - 1;
    assert forall j :: 0 <= j < n ==> h[..n][j] == h[j];
    if i < n {
      DistinctRunTotal(h[..n], i);
    } else {
      NoRunTotal(h[..n], h[i].name);
    }
  }

  /** A name that no run has has no total. */
  lemma {:induction false} NoRunTotal(h: History, name: string)
    requires forall j :: 0 <= j < |h| ==> h[j].name != name
    ensures RunTotal(h, name) == 0
  {
    if h != [] {
      var n := |h| - 1;
      assert forall j :: 0 <= j < n ==> h[..n][j] == h[j];
      NoRunTotal(h[..n], name);
    }
  }
}
