/**
 * The suite-time extractor of prep-gtests: the meaning of the search
 *
 *     ] [0-9]+ test from ([a-zA-Z]+).*[(]([0-9]+) ms total
 *
 * applied to one line of a Googletest log.  The search is leftmost (the
 * earliest start position at which the whole pattern matches wins) and
 * backtracking, so every `+` and the `.*` are greedy.  This module does not
 * model a regex engine: it states what a match is (`MatchAt`) and which match
 * the search reports (`IsSearchResult`), and computes it directly.
 */
module SuiteTime {
  import opened Wrappers

  /** The two character classes of the pattern. */
  datatype CharClass = Digit | Letter

  predicate InClass(c: char, cls: CharClass) {
    match cls
    case Digit => '0' <= c <= '9'
    case Letter => 'a' <= c <= 'z' || 'A' <= c <= 'Z'
  }

  /** Length of the longest run of `cls` characters that starts at `i`. */
  function Span(s: string, i: nat, cls: CharClass): (n: nat)
    requires i <= |s|
    ensures i + n <= |s|
    ensures forall k :: i <= k < i + n ==> InClass(s[k], cls)
    ensures i + n == |s| || !InClass(s[i + n], cls)
    decreases |s| - i
  {
    if i < |s| && InClass(s[i], cls) then 1 + Span(s, i + 1, cls) else 0
  }

  /** The run is the only one with these properties. */
  lemma SpanExact(s: string, i: nat, cls: CharClass, n: nat)
    requires i + n <= |s|
    requires forall k :: i <= k < i + n ==> InClass(s[k], cls)
    requires i + n == |s| || !InClass(s[i + n], cls)
    ensures Span(s, i, cls) == n
  {
    var m := Span(s, i, cls);
    if m < n {
      assert false;
    } else if n < m {
      assert false;
    }
  }

  /** `lit` occurs in `s` at position `i`. */
  predicate HasAt(s: string, i: nat, lit: string) {
    i + |lit| <= |s| && s[i..i + |lit|] == lit
  }

  const Bracket := "] "
  const TestFrom := " test from "
  const MsTotal := " ms total"

  /** Decimal value of a string of digits (`to_number`); leading zeros are allowed. */
  function DecimalValue(digits: string): (v: nat)
    decreases |digits|
  {
    if digits == [] then 0
    else
      var c := digits[|digits| - 1];
      var d := if '0' <= c <= '9' then c as int - '0' as int else 0;
      10 * DecimalValue(digits[..|digits| - 1]) + d
  }

  /** The part `] [0-9]+ test from ([a-zA-Z]+)` matches at `p`. */
  predicate HeaderAt(s: string, p: nat) {
    && HasAt(s, p, Bracket)
    && var d := Span(s, p + 2, Digit);
    && d > 0
    && HasAt(s, p + 2 + d, TestFrom)
    && Span(s, p + 2 + d + |TestFrom|, Letter) > 0
  }

  /** Where the suite-name capture starts, for a header at `p`. */
  function NameStart(s: string, p: nat): (i: nat)
    requires HeaderAt(s, p)
    ensures i <= |s|
  {
    p + 2 + Span(s, p + 2, Digit) + |TestFrom|
  }

  /** Where the suite-name capture ends: the letter run is taken whole. */
  function NameEnd(s: string, p: nat): (i: nat)
    requires HeaderAt(s, p)
    ensures NameStart(s, p) < i <= |s|
  {
    NameStart(s, p) + Span(s, NameStart(s, p), Letter)
  }

  /** The part `[(]([0-9]+) ms total` matches at `q`. */
  predicate TrailerAt(s: string, q: nat) {
    && q < |s|
    && s[q] == '('
    && var d := Span(s, q + 1, Digit);
    && d > 0
    && HasAt(s, q + 1 + d, MsTotal)
  }

  /** The duration capture of a trailer at `q`. */
  function Duration(s: string, q: nat): (r: nat)
    requires TrailerAt(s, q)
  {
    DecimalValue(s[q + 1..q + 1 + Span(s, q + 1, Digit)])
  }

  /** The suite-name capture of a header at `p`. */
  function Name(s: string, p: nat): (r: string)
    requires HeaderAt(s, p)
  {
    s[NameStart(s, p)..NameEnd(s, p)]
  }

  /**
   * The whole pattern matches with its header at `p` and the `(` at `q`:
   * `.*` covers everything between the name capture and `q`.
   */
  predicate MatchAt(s: string, p: nat, q: nat) {
    HeaderAt(s, p) && NameEnd(s, p) <= q && TrailerAt(s, q)
  }

  /**
   * The match a leftmost, greedy search reports: no match starts earlier,
   * and for this start `.*` is as long as it can be.
   */
  ghost predicate IsSearchResult(s: string, p: nat, q: nat) {
    && MatchAt(s, p, q)
    && (forall p': nat, q': nat :: p' < p ==> !MatchAt(s, p', q'))
    && (forall q': nat :: q < q' ==> !MatchAt(s, p, q'))
  }

  /** The last trailer that starts below `hi`. */
  function LastTrailer(s: string, hi: nat): (r: Option<nat>)
    requires hi <= |s|
    ensures r.Some? ==> r.value < hi && TrailerAt(s, r.value)
    ensures r.Some? ==> forall q: nat :: r.value < q < hi ==> !TrailerAt(s, q)
    ensures r.None? ==> forall q: nat :: q < hi ==> !TrailerAt(s, q)
    decreases hi
  {
    if hi == 0 then None
    else if TrailerAt(s, hi - 1) then Some(hi - 1)
    else LastTrailer(s, hi - 1)
  }

  /** A header at `p` whose name capture ends by `q`, so `.*` can reach `q`. */
  predicate HeaderBefore(s: string, p: nat, q: nat) {
    HeaderAt(s, p) && NameEnd(s, p) <= q
  }

  /** The first header at or after `lo` whose name capture ends by `q`. */
  function FirstHeader(s: string, q: nat, lo: nat): (r: Option<nat>)
    requires lo <= |s|
    ensures r.Some? ==> lo <= r.value && HeaderBefore(s, r.value, q)
    ensures r.Some? ==> forall p: nat :: lo <= p < r.value ==> !HeaderBefore(s, p, q)
    ensures r.None? ==> forall p: nat :: lo <= p ==> !HeaderBefore(s, p, q)
    decreases |s| - lo
  {
    if lo == |s| then None
    else if HeaderBefore(s, lo, q) then Some(lo)
    else FirstHeader(s, q, lo + 1)
  }

  /** Every match ends its `.*` at or before the last trailer of the line. */
  lemma MatchReachesLastTrailer(s: string, p: nat, q: nat, last: nat)
    requires MatchAt(s, p, q)
    requires forall q': nat :: last < q' ==> !TrailerAt(s, q')
    ensures q <= last && HeaderBefore(s, p, last)
  {
  }

  /** Start of the header and position of the `(` the search reports, if any. */
  function Search(line: string): (r: Option<(nat, nat)>)
    ensures r.None? <==> forall p: nat, q: nat :: !MatchAt(line, p, q)
    ensures r.Some? ==> IsSearchResult(line, r.value.0, r.value.1)
  {
    match LastTrailer(line, |line|)
    case None =>
      NoTrailerNoMatch(line);
      None
    case Some(last) =>
      match FirstHeader(line, last, 0)
      case None =>
        NoHeaderNoMatch(line, last);
        None
      case Some(first) =>
        FirstHeaderIsResult(line, first, last);
        Some((first, last))
  }

  lemma NoTrailerNoMatch(line: string)
    requires LastTrailer(line, |line|).None?
    ensures forall p: nat, q: nat :: !MatchAt(line, p, q)
  {
    forall p: nat, q: nat ensures !MatchAt(line, p, q) {
      assert q < |line| ==> !TrailerAt(line, q);
    }
  }

  lemma NoHeaderNoMatch(line: string, last: nat)
    requires LastTrailer(line, |line|) == Some(last)
    requires FirstHeader(line, last, 0).None?
    ensures forall p: nat, q: nat :: !MatchAt(line, p, q)
  {
    forall p: nat, q: nat ensures !MatchAt(line, p, q) {
      if MatchAt(line, p, q) {
        MatchReachesLastTrailer(line, p, q, last);
      }
    }
  }

  lemma FirstHeaderIsResult(line: string, first: nat, last: nat)
    requires LastTrailer(line, |line|) == Some(last)
    requires FirstHeader(line, last, 0) == Some(first)
    ensures IsSearchResult(line, first, last)
  {
    forall p': nat, q': nat | p' < first ensures !MatchAt(line, p', q') {
      if MatchAt(line, p', q') {
        MatchReachesLastTrailer(line, p', q', last);
      }
    }
  }

  /** A match with nothing earlier and no trailer after it is the one the search reports. */
  lemma SearchFinds(line: string, p: nat, q: nat)
    requires MatchAt(line, p, q)
    requires forall p': nat :: p' < p ==> !HeaderAt(line, p')
    requires forall q': nat :: q < q' ==> !TrailerAt(line, q')
    ensures Search(line) == Some((p, q))
  {
    var (p1, q1) := Search(line).value;
    assert !(p < p1 && MatchAt(line, p, q));
    assert !(p1 < p && MatchAt(line, p1, q1));
    assert !(q < q1 && TrailerAt(line, q1));
    assert !(q1 < q && MatchAt(line, p1, q));
  }

  /** `ctre::search` of the suite-time pattern: the two captures, if the line matches. */
  function Extract(line: string): (r: Option<(string, nat)>)
    ensures r.None? <==> forall p: nat, q: nat :: !MatchAt(line, p, q)
    ensures r.Some? ==> exists p: nat, q: nat :: IsSearchResult(line, p, q) && r.value == (Name(line, p), Duration(line, q))
  {
    match Search(line)
    case None => None
    case Some((p, q)) => Some((Name(line, p), Duration(line, q)))
  }

  /**
   * `name` stands at `i`, right after ` test from `, and the letter run there
   * does not go on past it.
   */
  ghost predicate NameAfterTestFrom(line: string, i: nat, name: string) {
    && |TestFrom| <= i
    && HasAt(line, i - |TestFrom|, TestFrom)
    && HasAt(line, i, name)
    && (i + |name| == |line| || !InClass(line[i + |name|], Letter))
  }

  /**
   * The suite name is a non-empty run of letters that directly follows
   * ` test from ` and is not followed by another letter, so a digit, `_` or
   * `.` ends it.
   */
  lemma SuiteNameIsMaximalLetterRun(line: string)
    requires Extract(line).Some?
    ensures |Extract(line).value.0| > 0
    ensures forall k :: 0 <= k < |Extract(line).value.0| ==> InClass(Extract(line).value.0[k], Letter)
    ensures exists i: nat :: NameAfterTestFrom(line, i, Extract(line).value.0)
  {
    var (p, q) := Search(line).value;
    NameCapture(line, p);
  }

  /** What the name capture of a header holds. */
  lemma NameCapture(line: string, p: nat)
    requires HeaderAt(line, p)
    ensures |Name(line, p)| > 0
    ensures forall k :: 0 <= k < |Name(line, p)| ==> InClass(Name(line, p)[k], Letter)
    ensures NameAfterTestFrom(line, NameStart(line, p), Name(line, p))
  {
    var i, j := NameStart(line, p), NameEnd(line, p);
    var name := line[i..j];
    assert forall k :: 0 <= k < |name| ==> name[k] == line[i + k];
    assert HasAt(line, i - |TestFrom|, TestFrom);
  }

  /**
   * The duration is the value of the digits of the LAST `(digits ms total`
   * group of the line, because `.*` is greedy.
   */
  lemma DurationIsLastGroup(line: string)
    requires Extract(line).Some?
    ensures exists q: nat :: && TrailerAt(line, q)
                        && Extract(line).value.1 == Duration(line, q)
                        && forall q': nat :: q < q' ==> !TrailerAt(line, q')
  {
    var (p, q) := Search(line).value;
    forall q': nat | q < q'
      ensures !TrailerAt(line, q')
    {
      assert TrailerAt(line, q') ==> MatchAt(line, p, q');
    }
  }

  /** A line without the singular ` test from ` (for instance one that says `tests from`) never matches. */
  lemma NoTestFromNoMatch(line: string)
    requires forall i: nat :: !HasAt(line, i, TestFrom)
    ensures Extract(line) == None
  {
    forall p: nat, q: nat
      ensures !MatchAt(line, p, q)
    {
      if p + 2 <= |line| {
        assert !HasAt(line, p + 2 + Span(line, p + 2, Digit), TestFrom);
      }
    }
  }

  /** A line without ` ms total` never matches; no closing parenthesis is looked for. */
  lemma NoMsTotalNoMatch(line: string)
    requires forall i: nat :: !HasAt(line, i, MsTotal)
    ensures Extract(line) == None
  {
    forall p: nat, q: nat
      ensures !MatchAt(line, p, q)
    {
      if q < |line| {
        assert !HasAt(line, q + 1 + Span(line, q + 1, Digit), MsTotal);
      }
    }
  }
}
