// The per-run log parser: every line of one Googletest log is run through
// the suite-time extractor, and each match is inserted into the run's
// results map.  Insertion follows `std::map::insert`, which leaves an
// existing key alone, so the first line that names a suite decides its
// duration.

module LogParse {
  import opened Wrappers
  import opened SuiteTime

  /** The largest value of a 32-bit `int`. */
  const IntMax: nat := 0x7fff_ffff

  /** `std::map::insert`: adds `k := v` only when `k` is not yet a key. */
  function Insert<V>(m: map<string, V>, k: string, v: V): (r: map<string, V>)
    ensures r.Keys == m.Keys + {k}
    ensures k in m ==> r[k] == m[k]
    ensures k !in m ==> r[k] == v
    ensures forall k' :: k' in m && k' != k ==> r[k'] == m[k']
  {
    if k in m then m else m[k := v]
  }

  /** What the extractor makes of one line. */
  type Parsed = Option<(string, nat)>

  /** The extractor's result for each line, in order. */
  function ParsedLines(lines: seq<string>): (ps: seq<Parsed>)
    ensures |ps| == |lines|
    ensures forall i :: 0 <= i < |lines| ==> ps[i] == Extract(lines[i])
  {
    seq(|lines|, i requires 0 <= i < |lines| => Extract(lines[i]))
  }

  /** The parsed line names `suite`. */
  predicate Names(p: Parsed, suite: string) {
    p.Some? && p.value.0 == suite
  }

  /** The results map after inserting the matches of `ps` one by one. */
  function Collect(ps: seq<Parsed>): (r: map<string, nat>)
  {
    if ps == [] then map[]
    else
      var m := Collect(ps[..|ps| - 1]);
      var last := ps[|ps| - 1];
      if last.Some? then Insert(m, last.value.0, last.value.1) else m
  }

  /** `suite` is first named at position `i` of `ps`, with duration `ms`. */
  ghost predicate FirstAt(ps: seq<Parsed>, i: nat, suite: string, ms: nat) {
    i < |ps| && ps[i] == Some((suite, ms)) &&
      forall j :: 0 <= j < i ==> !Names(ps[j], suite)
  }

  lemma {:induction false} CollectFirstWins(ps: seq<Parsed>, suite: string)
    ensures suite in Collect(ps) <==> exists i :: 0 <= i < |ps| && Names(ps[i], suite)
    ensures suite in Collect(ps) ==> exists i: nat :: FirstAt(ps, i, suite, Collect(ps)[suite])
  {
    if ps != [] {
      var n := |ps| - 1;
      var pre := ps[..n];
      CollectFirstWins(pre, suite);
      assert forall i :: 0 <= i < n ==> ps[i] == pre[i];
      var m := Collect(pre);
      if suite in m {
        var i: nat :| FirstAt(pre, i, suite, m[suite]);
        assert FirstAt(ps, i, suite, Collect(ps)[suite]);
      } else if Names(ps[n], suite) {
        assert FirstAt(ps, n, suite, Collect(ps)[suite]);
      } else {
        forall i | 0 <= i < |ps|
          ensures !Names(ps[i], suite)
        {
          if i < n { assert ps[i] == pre[i]; }
        }
      }
    }
  }

  /** The results map that `parselogfile` builds from the lines of one log. */
  function RunSuites(lines: seq<string>): (r: map<string, nat>)
  {
    Collect(ParsedLines(lines))
  }

  /** The line is a suite summary line that names `suite`. */
  predicate Mentions(line: string, suite: string) {
    Names(Extract(line), suite)
  }

  /** `suite` first appears in line `i` of `lines`, with duration `ms`. */
  ghost predicate FirstMention(lines: seq<string>, suite: string, ms: nat) {
    exists i :: 0 <= i < |lines| && Extract(lines[i]) == Some((suite, ms)) &&
      forall j :: 0 <= j < i ==> !Mentions(lines[j], suite)
  }

  /**
   * The keys of a run's results are exactly the suites that some line
   * names, and each value is the duration from the first such line.
   */
  lemma RunSuitesFirstWins(lines: seq<string>, suite: string)
    ensures suite in RunSuites(lines) <==> exists i :: 0 <= i < |lines| && Mentions(lines[i], suite)
    ensures suite in RunSuites(lines) ==> FirstMention(lines, suite, RunSuites(lines)[suite])
  {
    var ps := ParsedLines(lines);
    CollectFirstWins(ps, suite);
    if suite in Collect(ps) {
      var i: nat :| FirstAt(ps, i, suite, Collect(ps)[suite]);
      assert forall j :: 0 <= j < i ==> !Mentions(lines[j], suite) by {
        forall j | 0 <= j < i ensures !Mentions(lines[j], suite) {
          assert !Names(ps[j], suite);
        }
      }
    } else {
      forall i | 0 <= i < |lines| ensures !Mentions(lines[i], suite) {
        assert !Names(ps[i], suite);
      }
    }
  }

  /** Every duration in `lines` that the extractor yields fits a positive `int`. */
  predicate DurationsInRange(lines: seq<string>) {
    forall i :: 0 <= i < |lines| && Extract(lines[i]).Some? ==>
      0 < Extract(lines[i]).value.1 <= IntMax
  }

  /** All values of a results map are positive and fit an `int`. */
  predicate ValuesInRange(m: map<string, nat>) {
    forall suite :: suite in m ==> 0 < m[suite] <= IntMax
  }

  lemma RunSuitesInRange(lines: seq<string>)
    requires DurationsInRange(lines)
    ensures ValuesInRange(RunSuites(lines))
  {
    forall suite | suite in RunSuites(lines)
      ensures 0 < RunSuites(lines)[suite] <= IntMax
    {
      RunSuitesFirstWins(lines, suite);
    }
  }

  /** One more line changes the results only by a first-wins insert of its match. */
  lemma RunSuitesStep(lines: seq<string>, i: nat)
    requires i < |lines|
    ensures RunSuites(lines[..i + 1]) ==
      if Extract(lines[i]).Some?
      then Insert(RunSuites(lines[..i]), Extract(lines[i]).value.0, Extract(lines[i]).value.1)
      else RunSuites(lines[..i])
  {
    var ps := ParsedLines(lines[..i + 1]);
    assert ps[..i] == ParsedLines(lines[..i]);
    assert ps[i] == Extract(lines[i]);
  }

  /** `parselogfile`: drains the lines of one log into a fresh results map. */
  method ParseLogFile(lines: seq<string>) returns (results: map<string, nat>)
    ensures results == RunSuites(lines)
  {
    results := map[];
    var i := 0;
    while i < |lines|
      invariant 0 <= i <= |lines|
      invariant results == RunSuites(lines[..i])
    {
      var matched := Extract(lines[i]);
      RunSuitesStep(lines, i);
      if matched.Some? {
        results := Insert(results, matched.value.0, matched.value.1);
      }
      i := i + 1;
    }
    assert lines[..i] == lines;
  }
}
