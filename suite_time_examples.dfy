/** The extractor on concrete Googletest lines. */
module SuiteTimeExamples {
  import opened Wrappers
  import opened SuiteTime

  lemma HasAtByChars(s: string, i: nat, lit: string)
    requires i + |lit| <= |s|
    requires forall k :: 0 <= k < |lit| ==> s[i + k] == lit[k]
    ensures HasAt(s, i, lit)
  {
    assert s[i..i + |lit|] == lit;
  }

  /** One differing character rules out an occurrence of `lit` at `i`. */
  lemma MismatchNotAt(s: string, i: nat, lit: string, j: nat)
    requires j < |lit| && i + j < |s| && s[i + j] != lit[j]
    ensures !HasAt(s, i, lit)
  {
    if i + |lit| <= |s| {
      assert s[i..i + |lit|][j] == s[i + j];
    }
  }

  /** A header at `p` whose count digits end at `c` and whose name ends at `e`. */
  lemma HeaderByChars(s: string, p: nat, c: nat, e: nat)
    requires HasAt(s, p, Bracket)
    requires p + 2 < c <= |s| && forall k :: p + 2 <= k < c ==> InClass(s[k], Digit)
    requires HasAt(s, c, TestFrom)
    requires c + |TestFrom| < e <= |s| && forall k :: c + |TestFrom| <= k < e ==> InClass(s[k], Letter)
    requires e == |s| || !InClass(s[e], Letter)
    ensures HeaderAt(s, p) && NameStart(s, p) == c + |TestFrom| && NameEnd(s, p) == e
  {
    SpanExact(s, p + 2, Digit, c - (p + 2));
    SpanExact(s, c + |TestFrom|, Letter, e - (c + |TestFrom|));
  }

  /** Without ` test from ` right after the count digits there is no header. */
  lemma CountNotFollowedByTestFrom(s: string, p: nat, c: nat)
    requires p + 2 < c < |s| && !InClass(s[c], Digit)
    requires forall k :: p + 2 <= k < c ==> InClass(s[k], Digit)
    requires !HasAt(s, c, TestFrom)
    ensures !HeaderAt(s, p)
  {
    SpanExact(s, p + 2, Digit, c - (p + 2));
  }

  /** A trailer at `q` whose duration digits end at `e`. */
  lemma TrailerByChars(s: string, q: nat, e: nat)
    requires q < |s| && s[q] == '('
    requires q + 1 < e <= |s| && forall k :: q + 1 <= k < e ==> InClass(s[k], Digit)
    requires HasAt(s, e, MsTotal)
    ensures TrailerAt(s, q) && Duration(s, q) == DecimalValue(s[q + 1..e])
  {
    SpanExact(s, q + 1, Digit, e - (q + 1));
  }

  lemma DecimalValueSnoc(ds: string, c: char)
    requires '0' <= c <= '9'
    ensures DecimalValue(ds + [c]) == 10 * DecimalValue(ds) + (c as int - '0' as int)
  {
    assert (ds + [c])[..|ds|] == ds;
  }

  lemma Value123()
    ensures DecimalValue("123") == 123
  {
    DecimalValueSnoc("", '1');
    assert "" + ['1'] == "1";
    DecimalValueSnoc("1", '2');
    assert "1" + ['2'] == "12";
    DecimalValueSnoc("12", '3');
    assert "12" + ['3'] == "123";
  }

  /**
   * Character-level conditions under which the search reports the header at
   * `p` (count digits up to `c`, name up to `e`) and the trailer at `q`
   * (duration digits up to `d`).
   */
  lemma ExtractByChars(s: string, p: nat, c: nat, e: nat, q: nat, d: nat)
    requires p + 2 < c && c + |TestFrom| < e < q + 1 < d && d + |MsTotal| <= |s|
    requires HasAt(s, p, Bracket)
    requires forall k :: p + 2 <= k < c ==> InClass(s[k], Digit)
    requires HasAt(s, c, TestFrom)
    requires forall k :: c + |TestFrom| <= k < e ==> InClass(s[k], Letter)
    requires !InClass(s[e], Letter)
    requires s[q] == '('
    requires forall k :: q + 1 <= k < d ==> InClass(s[k], Digit)
    requires HasAt(s, d, MsTotal)
    requires p <= |s| && forall k: nat :: k < p ==> s[k] != ']'
    requires forall k: nat :: q < k < |s| ==> s[k] != '('
    ensures Search(s) == Some((p, q))
    ensures Name(s, p) == s[c + |TestFrom|..e] && Duration(s, q) == DecimalValue(s[q + 1..d])
  {
    HeaderByChars(s, p, c, e);
    TrailerByChars(s, q, d);
    NoHeaderBefore(s, p);
    NoTrailerAfter(s, q);
    SearchFinds(s, p, q);
  }

  /** `Extract` reports the captures of the match `Search` finds. */
  lemma ExtractFromSearch(s: string, p: nat, q: nat)
    requires Search(s) == Some((p, q))
    ensures Extract(s) == Some((Name(s, p), Duration(s, q)))
  {
  }

  lemma NoHeaderBefore(s: string, p: nat)
    requires p <= |s| && forall k: nat :: k < p ==> s[k] != ']'
    ensures forall p': nat :: p' < p ==> !HeaderAt(s, p')
  {
    forall p': nat | p' < p
      ensures !HeaderAt(s, p')
    {
      if p' + 2 <= |s| {
        assert s[p'..p' + 2][0] == s[p'];
      }
    }
  }

  lemma NoTrailerAfter(s: string, q: nat)
    requires forall k: nat :: q < k < |s| ==> s[k] != '('
    ensures forall q': nat :: q < q' ==> !TrailerAt(s, q')
  {
  }

  /** A name of letters only, found in `s` at `i`, puts letters at those positions of `s`. */
  lemma LettersAt(s: string, i: nat, name: string)
    requires i + |name| <= |s| && s[i..i + |name|] == name
    requires forall j :: 0 <= j < |name| ==> InClass(name[j], Letter)
    ensures forall k :: i <= k < i + |name| ==> InClass(s[k], Letter)
  {
    forall k | i <= k < i + |name| ensures InClass(s[k], Letter) {
      assert s[k] == name[k - i];
    }
  }

  lemma SuiteAlphaLetters()
    ensures forall j :: 0 <= j < 10 ==> InClass("SuiteAlpha"[j], Letter)
  {
    forall j | 0 <= j < 10 ensures InClass("SuiteAlpha"[j], Letter) {
      if j < 5 {
        SuiteLetters();
        assert "SuiteAlpha"[j] == "Suite"[j];
      } else {
        assert "SuiteAlpha"[j] == "Alpha"[j - 5];
        if j == 5 {} else if j == 6 {} else if j == 7 {} else if j == 8 {} else {}
      }
    }
  }

  lemma SuiteLetters()
    ensures forall j :: 0 <= j < 5 ==> InClass("Suite"[j], Letter)
  {
    forall j | 0 <= j < 5 ensures InClass("Suite"[j], Letter) {
      if j == 0 {} else if j == 1 {} else if j == 2 {} else if j == 3 {} else {}
    }
  }

  const Fixture := "xx] 3 test from SuiteAlpha (123 ms total)"
  const Unclosed := "xx] 3 test from SuiteAlpha (123 ms total"
  const DigitInName := "xx] 1 test from Suite2 (5 ms total)"
  const TwoGroups := "xx] 1 test from A (1 ms total) (2 ms total)"
  const Plural := "xx] 3 tests from SuiteAlpha (123 ms total)"

  lemma FixtureLiterals(s: string)
    requires s == Fixture
    ensures HasAt(s, 2, Bracket) && HasAt(s, 5, TestFrom) && HasAt(s, 31, MsTotal)
  {
    HasAtByChars(s, 2, Bracket);
    HasAtByChars(s, 5, TestFrom);
    HasAtByChars(s, 31, MsTotal);
  }

  lemma FixtureClasses(s: string)
    requires s == Fixture
    ensures forall k :: 4 <= k < 5 ==> InClass(s[k], Digit)
    ensures forall k :: 16 <= k < 26 ==> InClass(s[k], Letter)
    ensures !InClass(s[26], Letter) && s[27] == '('
    ensures forall k :: 28 <= k < 31 ==> InClass(s[k], Digit)
  {
    FixtureCaptures(s);
    SuiteAlphaLetters();
    LettersAt(s, 16, "SuiteAlpha");
  }

  lemma FixtureElsewhere(s: string)
    requires s == Fixture
    ensures forall k: nat :: k < 2 ==> s[k] != ']'
    ensures forall k: nat :: 27 < k < |s| ==> s[k] != '('
  {
  }

  lemma FixtureCaptures(s: string)
    requires s == Fixture
    ensures s[16..26] == "SuiteAlpha" && s[28..31] == "123"
  {
    forall k | 0 <= k < 10
      ensures s[16 + k] == "SuiteAlpha"[k]
    {
      if k == 0 {} else if k == 1 {} else if k == 2 {} else if k == 3 {} else if k == 4 {} else if k == 5 {} else if k == 6 {} else if k == 7 {} else if k == 8 {} else {}
    }
    assert s[16..26] == "SuiteAlpha";
    FixtureDuration(s);
  }

  lemma FixtureDuration(s: string)
    requires s == Fixture
    ensures s[28..31] == "123"
  {
    assert s[28] == '1' && s[29] == '2' && s[30] == '3';
  }

  lemma ExtractFixtureOf(s: string)
    requires s == Fixture
    ensures Extract(s) == Some(("SuiteAlpha", 123))
  {
    FixtureLiterals(s);
    FixtureClasses(s);
    FixtureElsewhere(s);
    FixtureCaptures(s);
    ExtractByChars(s, 2, 5, 26, 27, 31);
    Value123();
    ExtractFromSearch(s, 2, 27);
  }

  /** `xx] 3 test from SuiteAlpha (123 ms total)` yields `("SuiteAlpha", 123)`. */
  lemma ExtractFixture()
    ensures Extract(Fixture) == Some(("SuiteAlpha", 123))
  {
    ExtractFixtureOf(Fixture);
  }

  lemma UnclosedLiterals(s: string)
    requires s == Unclosed
    ensures HasAt(s, 2, Bracket) && HasAt(s, 5, TestFrom) && HasAt(s, 31, MsTotal)
  {
    HasAtByChars(s, 2, Bracket);
    HasAtByChars(s, 5, TestFrom);
    HasAtByChars(s, 31, MsTotal);
  }

  lemma UnclosedClasses(s: string)
    requires s == Unclosed
    ensures forall k :: 4 <= k < 5 ==> InClass(s[k], Digit)
    ensures forall k :: 16 <= k < 26 ==> InClass(s[k], Letter)
    ensures !InClass(s[26], Letter) && s[27] == '('
    ensures forall k :: 28 <= k < 31 ==> InClass(s[k], Digit)
  {
    UnclosedCaptures(s);
    SuiteAlphaLetters();
    LettersAt(s, 16, "SuiteAlpha");
  }

  lemma UnclosedElsewhere(s: string)
    requires s == Unclosed
    ensures forall k: nat :: k < 2 ==> s[k] != ']'
    ensures forall k: nat :: 27 < k < |s| ==> s[k] != '('
  {
  }

  lemma UnclosedCaptures(s: string)
    requires s == Unclosed
    ensures s[16..26] == "SuiteAlpha" && s[28..31] == "123"
  {
    forall k | 0 <= k < 10
      ensures s[16 + k] == "SuiteAlpha"[k]
    {
      if k == 0 {} else if k == 1 {} else if k == 2 {} else if k == 3 {} else if k == 4 {} else if k == 5 {} else if k == 6 {} else if k == 7 {} else if k == 8 {} else {}
    }
    assert s[16..26] == "SuiteAlpha";
    UnclosedDuration(s);
  }

  lemma UnclosedDuration(s: string)
    requires s == Unclosed
    ensures s[28..31] == "123"
  {
    assert s[28] == '1' && s[29] == '2' && s[30] == '3';
  }

  lemma ExtractUnclosedOf(s: string)
    requires s == Unclosed
    ensures Extract(s) == Some(("SuiteAlpha", 123))
  {
    UnclosedLiterals(s);
    UnclosedClasses(s);
    UnclosedElsewhere(s);
    UnclosedCaptures(s);
    ExtractByChars(s, 2, 5, 26, 27, 31);
    Value123();
    ExtractFromSearch(s, 2, 27);
  }

  /** No closing parenthesis is needed: `xx] 3 test from SuiteAlpha (123 ms total` matches too. */
  lemma ExtractUnclosed()
    ensures Extract(Unclosed) == Some(("SuiteAlpha", 123))
  {
    ExtractUnclosedOf(Unclosed);
  }

  lemma DigitInNameLiterals(s: string)
    requires s == DigitInName
    ensures HasAt(s, 2, Bracket) && HasAt(s, 5, TestFrom) && HasAt(s, 25, MsTotal)
  {
    HasAtByChars(s, 2, Bracket);
    HasAtByChars(s, 5, TestFrom);
    HasAtByChars(s, 25, MsTotal);
  }

  lemma DigitInNameClasses(s: string)
    requires s == DigitInName
    ensures forall k :: 4 <= k < 5 ==> InClass(s[k], Digit)
    ensures forall k :: 16 <= k < 21 ==> InClass(s[k], Letter)
    ensures !InClass(s[21], Letter) && s[23] == '('
    ensures forall k :: 24 <= k < 25 ==> InClass(s[k], Digit)
  {
    DigitInNameCaptures(s);
    SuiteLetters();
    LettersAt(s, 16, "Suite");
  }

  lemma DigitInNameElsewhere(s: string)
    requires s == DigitInName
    ensures forall k: nat :: k < 2 ==> s[k] != ']'
    ensures forall k: nat :: 23 < k < |s| ==> s[k] != '('
  {
  }

  lemma DigitInNameCaptures(s: string)
    requires s == DigitInName
    ensures s[16..21] == "Suite" && DecimalValue(s[24..25]) == 5
  {
    forall k | 0 <= k < 5
      ensures s[16 + k] == "Suite"[k]
    {
      if k == 0 {} else if k == 1 {} else if k == 2 {} else if k == 3 {} else {}
    }
    assert s[16..21] == "Suite";
    DigitInNameDuration(s);
  }

  lemma DigitInNameDuration(s: string)
    requires s == DigitInName
    ensures DecimalValue(s[24..25]) == 5
  {
    assert s[24..25] == "" + ['5'];
    DecimalValueSnoc("", '5');
  }

  lemma ExtractDigitInNameOf(s: string)
    requires s == DigitInName
    ensures Extract(s) == Some(("Suite", 5))
  {
    DigitInNameLiterals(s);
    DigitInNameClasses(s);
    DigitInNameElsewhere(s);
    DigitInNameCaptures(s);
    ExtractByChars(s, 2, 5, 21, 23, 25);
    ExtractFromSearch(s, 2, 23);
  }

  /** A digit ends the name: `xx] 1 test from Suite2 (5 ms total)` yields `("Suite", 5)`. */
  lemma ExtractDigitInName()
    ensures Extract(DigitInName) == Some(("Suite", 5))
  {
    ExtractDigitInNameOf(DigitInName);
  }

  lemma TwoGroupsLiterals(s: string)
    requires s == TwoGroups
    ensures HasAt(s, 2, Bracket) && HasAt(s, 5, TestFrom) && HasAt(s, 33, MsTotal)
  {
    HasAtByChars(s, 2, Bracket);
    HasAtByChars(s, 5, TestFrom);
    HasAtByChars(s, 33, MsTotal);
  }

  lemma TwoGroupsClasses(s: string)
    requires s == TwoGroups
    ensures forall k :: 4 <= k < 5 ==> InClass(s[k], Digit)
    ensures forall k :: 16 <= k < 17 ==> InClass(s[k], Letter)
    ensures !InClass(s[17], Letter) && s[31] == '('
    ensures forall k :: 32 <= k < 33 ==> InClass(s[k], Digit)
  {
    forall k | 16 <= k < 17
      ensures InClass(s[k], Letter)
    {
      
    }
  }

  lemma TwoGroupsElsewhere(s: string)
    requires s == TwoGroups
    ensures forall k: nat :: k < 2 ==> s[k] != ']'
    ensures forall k: nat :: 31 < k < |s| ==> s[k] != '('
  {
  }

  lemma TwoGroupsCaptures(s: string)
    requires s == TwoGroups
    ensures s[16..17] == "A" && DecimalValue(s[32..33]) == 2
  {
    assert s[16] == 'A';
    assert s[16..17] == "A";
    TwoGroupsDuration(s);
  }

  lemma TwoGroupsDuration(s: string)
    requires s == TwoGroups
    ensures DecimalValue(s[32..33]) == 2
  {
    assert s[16..17] == [s[16]];
    assert s[32..33] == "" + ['2'];
    DecimalValueSnoc("", '2');
  }

  lemma ExtractTwoGroupsOf(s: string)
    requires s == TwoGroups
    ensures Extract(s) == Some(("A", 2))
  {
    TwoGroupsLiterals(s);
    TwoGroupsClasses(s);
    TwoGroupsElsewhere(s);
    TwoGroupsCaptures(s);
    ExtractByChars(s, 2, 5, 17, 31, 33);
    ExtractFromSearch(s, 2, 31);
  }

  /** `.*` is greedy: of `(1 ms total)` and `(2 ms total)` the later group gives the duration. */
  lemma ExtractTwoGroups()
    ensures Extract(TwoGroups) == Some(("A", 2))
  {
    ExtractTwoGroupsOf(TwoGroups);
  }

  lemma PluralBrackets(s: string)
    requires s == Plural
    ensures forall k: nat :: k < 2 ==> s[k] != ']'
    ensures forall k: nat :: 2 < k < 22 ==> s[k] != ']'
  {
  }

  lemma PluralBracketsTail(s: string)
    requires s == Plural
    ensures forall k: nat :: 22 <= k < |s| ==> s[k] != ']'
  {
  }

  lemma PluralChars(s: string)
    requires s == Plural
    ensures s[4] == '3' && s[5] == ' ' && s[10] == 's'
  {
  }

  /** The count `3` is followed by ` tests`, not ` test from `. */
  lemma PluralNoHeaderAt2(s: string)
    requires s == Plural
    ensures !HeaderAt(s, 2)
  {
    PluralChars(s);
    MismatchNotAt(s, 5, TestFrom, 5);
    CountNotFollowedByTestFrom(s, 2, 5);
  }

  lemma PluralNoOtherHeader(s: string)
    requires s == Plural
    ensures forall p: nat :: p != 2 ==> !HeaderAt(s, p)
  {
    PluralBrackets(s);
    PluralBracketsTail(s);
    forall p: nat | p != 2
      ensures !HeaderAt(s, p)
    {
      if p + 2 <= |s| {
        assert s[p..p + 2][0] == s[p];
      }
    }
  }

  lemma PluralDoesNotMatch(s: string)
    requires s == Plural
    ensures Extract(s) == None
  {
    PluralNoHeaderAt2(s);
    PluralNoOtherHeader(s);
    assert forall p: nat, q: nat :: !MatchAt(s, p, q);
  }

  /** The plural summary line `xx] 3 tests from SuiteAlpha (123 ms total)` does not match. */
  lemma ExtractPluralLine()
    ensures Extract(Plural) == None
  {
    PluralDoesNotMatch(Plural);
  }
}
