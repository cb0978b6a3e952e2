/**
 The range specifier (`1m`, `2d`, `6m`, ...): the match of the regular
 expression `(\d+)(\w+)` anchored at the start of the string, and the
 validation `parse_time_range` performs on its two groups.
 Character classes are ASCII: `\d` is `[0-9]` and `\w` is `[A-Za-z0-9_]`.
 */
module TimeRange {
  import opened Wrappers
  import opened Digits

  predicate IsWordChar(c: char) {
    IsDigit(c) || 'a' <= c <= 'z' || 'A' <= c <= 'Z' || c == '_'
  }

  predicate AllWordChars(s: string) {
    forall i :: 0 <= i < |s| ==> IsWordChar(s[i])
  }

  /** `str.lower` on one ASCII character. */
  function Lower(c: char): char {
    if 'A' <= c <= 'Z' then (c as int - 'A' as int + 'a' as int) as char else c
  }

  /** The end of the longest run of digits that starts at `i`. */
  function DigitRunEnd(s: string, i: nat): (j: nat)
    requires i <= |s|
    ensures i <= j <= |s|
    ensures forall k :: i <= k < j ==> IsDigit(s[k])
    ensures j == |s| || !IsDigit(s[j])
    decreases |s| - i
  {
    if i < |s| && IsDigit(s[i]) then DigitRunEnd(s, i + 1) else i
  }

  /** The end of the longest run of word characters that starts at `i`. */
  function WordRunEnd(s: string, i: nat): (j: nat)
    requires i <= |s|
    ensures i <= j <= |s|
    ensures forall k :: i <= k < j ==> IsWordChar(s[k])
    ensures j == |s| || !IsWordChar(s[j])
    decreases |s| - i
  {
    if i < |s| && IsWordChar(s[i]) then WordRunEnd(s, i + 1) else i
  }

  /** The two groups of a successful match. */
  datatype SpecMatch = SpecMatch(digits: string, word: string)

  /**
   `re.match(r'(\d+)(\w+)', s)`. The digit group is greedy; when the digit
   run is not followed by a word character, the engine gives the run's last
   digit back to the word group (so `12` matches as `1` and `2`).
   */
  function MatchSpec(s: string): Option<SpecMatch> {
    var k := DigitRunEnd(s, 0);
    if k == 0 then None
    else if k < |s| && IsWordChar(s[k]) then
      Some(SpecMatch(s[..k], s[k..WordRunEnd(s, k)]))
    else if k >= 2 then Some(SpecMatch(s[..k - 1], s[k - 1..k]))
    else None
  }

  /** Both groups of a match are non-empty. */
  lemma MatchSpecNonEmpty(s: string)
    ensures MatchSpec(s).Some? ==> |MatchSpec(s).value.digits| >= 1 && |MatchSpec(s).value.word| >= 1
  {
    var k := DigitRunEnd(s, 0);
    if k < |s| && IsWordChar(s[k]) {
      assert WordRunEnd(s, k) > k;
    }
  }

  /** Why `parse_time_range` raises. */
  datatype SpecError =
    | Unparseable   // no match: `match.groups()` fails and the `except` branch raises
    | UnknownUnit   // the unit's first letter, lowercased, is not d, m or y
    | ZeroPrefix    // `int(num)` is zero

  predicate IsUnitLetter(c: char) {
    c == 'd' || c == 'm' || c == 'y'
  }

  /** `parse_time_range(s)`: the specifier itself when it is acceptable. */
  function ParseTimeRange(s: string): Result<string, SpecError> {
    match MatchSpec(s)
    case None => Failure(Unparseable)
    case Some(m) =>
      MatchSpecNonEmpty(s);
      if !IsUnitLetter(Lower(m.word[0])) then Failure(UnknownUnit)
      else if Value(m.digits) == 0 then Failure(ZeroPrefix)
      else Success(s)
  }

  /** The count `int(num)` of an accepted specifier. */
  function Count(s: string): nat
    requires MatchSpec(s).Some?
  {
    Value(MatchSpec(s).value.digits)
  }

  /** The unit tag `unit[0]` that `get_time_ranges` uses (not lowercased). */
  function UnitTag(s: string): char
    requires MatchSpec(s).Some?
  {
    MatchSpecNonEmpty(s);
    MatchSpec(s).value.word[0]
  }

  // ---------------------------------------------------------------------
  // What the match is
  // ---------------------------------------------------------------------

  /**
   What `re.match` promises of its groups: a digit string and a word string
   that together are a prefix of `s`, the word group running as far as it
   can, and no longer digit group that would leave a word character after it.
   */
  predicate RegexGroups(s: string, m: SpecMatch) {
    GroupShapes(s, m) && NoLongerDigitGroup(s, m)
  }

  predicate GroupShapes(s: string, m: SpecMatch) {
    && |m.digits| >= 1 && AllDigits(m.digits)
    && |m.word| >= 1 && AllWordChars(m.word)
    && m.digits + m.word <= s
    && (|m.digits| + |m.word| == |s| || !IsWordChar(s[|m.digits| + |m.word|]))
  }

  predicate NoLongerDigitGroup(s: string, m: SpecMatch) {
    forall j :: |m.digits| < j < |s| && AllDigits(s[..j]) ==> !IsWordChar(s[j])
  }

  /** The match exists exactly when a digit is followed by a word character, and its groups are the regex's. */
  lemma MatchSpecIsRegexMatch(s: string)
    ensures MatchSpec(s).Some? <==> |s| >= 2 && IsDigit(s[0]) && IsWordChar(s[1])
    ensures MatchSpec(s).Some? ==> RegexGroups(s, MatchSpec(s).value)
  {
    MatchSpecExists(s);
    if MatchSpec(s).Some? {
      MatchSpecGroupsAreRegexGroups(s);
    }
  }

  lemma MatchSpecExists(s: string)
    ensures MatchSpec(s).Some? <==> |s| >= 2 && IsDigit(s[0]) && IsWordChar(s[1])
  {
    var k := DigitRunEnd(s, 0);
    if k < |s| && IsWordChar(s[k]) && k >= 1 {
      WordAfterDigits(s, k);
    } else if k >= 2 {
      DigitGivenBack(s, k);
    }
  }

  lemma MatchSpecGroupsAreRegexGroups(s: string)
    requires MatchSpec(s).Some?
    ensures RegexGroups(s, MatchSpec(s).value)
  {
    var k := DigitRunEnd(s, 0);
    if k < |s| && IsWordChar(s[k]) {
      var m := SpecMatch(s[..k], s[k..WordRunEnd(s, k)]);
      WordAfterDigits(s, k);
      WordAfterDigitsGroups(s, k, m);
    } else {
      var m := SpecMatch(s[..k - 1], s[k - 1..k]);
      DigitGivenBack(s, k);
      DigitGivenBackGroups(s, k, m);
    }
  }

  lemma WordAfterDigitsGroups(s: string, k: nat, m: SpecMatch)
    requires k == DigitRunEnd(s, 0) && 1 <= k < |s| && IsWordChar(s[k])
    requires m == SpecMatch(s[..k], s[k..WordRunEnd(s, k)])
    ensures RegexGroups(s, m)
  {
    WordAfterDigitsShapes(s, k, WordRunEnd(s, k));
    NoLongerThanRun(s, k, m);
  }

  lemma DigitGivenBackGroups(s: string, k: nat, m: SpecMatch)
    requires k == DigitRunEnd(s, 0) && k >= 2 && !(k < |s| && IsWordChar(s[k]))
    requires m == SpecMatch(s[..k - 1], s[k - 1..k])
    ensures RegexGroups(s, m)
  {
    DigitGivenBackShapes(s, k);
    NoLongerThanRun(s, k, m);
  }

  /** A word character right after the digit run: the digit group is the whole run. */
  lemma WordAfterDigits(s: string, k: nat)
    requires k == DigitRunEnd(s, 0) && 1 <= k < |s| && IsWordChar(s[k])
    ensures MatchSpec(s) == Some(SpecMatch(s[..k], s[k..WordRunEnd(s, k)]))
    ensures IsDigit(s[0]) && IsWordChar(s[1])
  {
  }

  lemma WordAfterDigitsShapes(s: string, k: nat, e: nat)
    requires 1 <= k < e <= |s|
    requires forall i :: 0 <= i < k ==> IsDigit(s[i])
    requires forall i :: k <= i < e ==> IsWordChar(s[i])
    requires e == |s| || !IsWordChar(s[e])
    ensures GroupShapes(s, SpecMatch(s[..k], s[k..e]))
  {
    var m := SpecMatch(s[..k], s[k..e]);
    assert AllDigits(m.digits) by {
      forall i | 0 <= i < k ensures IsDigit(m.digits[i]) {
        assert m.digits[i] == s[i];
      }
    }
    assert AllWordChars(m.word) by {
      forall i | 0 <= i < e - k ensures IsWordChar(m.word[i]) {
        assert m.word[i] == s[k + i];
      }
    }
    assert m.digits + m.word == s[..e];
  }

  /** No word character after the digit run: its last digit becomes the word group. */
  lemma DigitGivenBack(s: string, k: nat)
    requires k == DigitRunEnd(s, 0) && k >= 2 && !(k < |s| && IsWordChar(s[k]))
    ensures MatchSpec(s) == Some(SpecMatch(s[..k - 1], s[k - 1..k]))
    ensures IsDigit(s[0]) && IsDigit(s[1])
  {
  }

  lemma DigitGivenBackShapes(s: string, k: nat)
    requires 2 <= k <= |s|
    requires forall i :: 0 <= i < k ==> IsDigit(s[i])
    requires k == |s| || !IsWordChar(s[k])
    ensures GroupShapes(s, SpecMatch(s[..k - 1], s[k - 1..k]))
  {
    var m := SpecMatch(s[..k - 1], s[k - 1..k]);
    assert AllDigits(m.digits) by {
      forall i | 0 <= i < k - 1 ensures IsDigit(m.digits[i]) {
        assert m.digits[i] == s[i];
      }
    }
    assert m.word == [s[k - 1]] && IsWordChar(s[k - 1]);
    assert m.digits + m.word == s[..k];
  }

  /** A digit group ending at the run or one before it cannot be extended. */
  lemma NoLongerThanRun(s: string, k: nat, m: SpecMatch)
    requires k == DigitRunEnd(s, 0) && k - 1 <= |m.digits| <= k
    requires |m.digits| == k - 1 ==> !(k < |s| && IsWordChar(s[k]))
    ensures NoLongerDigitGroup(s, m)
  {
    LongerRunsAreNotDigits(s, k);
  }

  /** No prefix longer than the leading digit run is all digits. */
  lemma LongerRunsAreNotDigits(s: string, k: nat)
    requires k == DigitRunEnd(s, 0)
    ensures forall j :: k < j <= |s| ==> !AllDigits(s[..j])
  {
    forall j | k < j <= |s| ensures !AllDigits(s[..j]) {
      assert s[..j][k] == s[k];
    }
  }

  // ---------------------------------------------------------------------
  // What parse_time_range accepts
  // ---------------------------------------------------------------------

  predicate IsUnitChar(c: char) {
    IsUnitLetter(Lower(c))
  }

  /**
   The acceptance rule in words: some non-empty run of digits at the start,
   not all of them zero, is followed by one of `dDmMyY`.
   */
  predicate WellFormedSpec(s: string) {
    exists k :: 1 <= k < |s| && IsUnitChar(s[k]) && AllDigits(s[..k]) && !AllZeros(s[..k])
  }

  predicate AllZeros(s: string) {
    forall i :: 0 <= i < |s| ==> s[i] == '0'
  }

  /** `parse_time_range` returns the string itself or raises, and accepts exactly the well-formed specifiers. */
  lemma ParseTimeRangeAccepts(s: string)
    ensures ParseTimeRange(s).Success? ==> ParseTimeRange(s).value == s
    ensures ParseTimeRange(s).Success? <==> WellFormedSpec(s)
  {
    if ParseTimeRange(s).Success? {
      AcceptedIsWellFormed(s);
    }
    if WellFormedSpec(s) {
      WellFormedIsAccepted(s);
    }
  }

  /** Where the two groups come from in the two ways the engine can match. */
  lemma MatchSpecGroups(s: string)
    requires MatchSpec(s).Some?
    ensures var k := DigitRunEnd(s, 0);
            var m := MatchSpec(s).value;
            if k < |s| && IsWordChar(s[k]) then m.digits == s[..k] && m.word[0] == s[k]
            else IsDigit(m.word[0])
  {
    var k := DigitRunEnd(s, 0);
    if k < |s| && IsWordChar(s[k]) {
      WordAfterDigits(s, k);
      assert WordRunEnd(s, k) > k;
    } else {
      DigitGivenBack(s, k);
    }
  }

  lemma AcceptedIsWellFormed(s: string)
    requires ParseTimeRange(s).Success?
    ensures WellFormedSpec(s)
  {
    var k := DigitRunEnd(s, 0);
    var m := MatchSpec(s).value;
    MatchSpecGroups(s);
    assert IsUnitChar(m.word[0]) && Value(m.digits) != 0;
    assert m.digits == s[..k] && m.word[0] == s[k];
    ValueZeroIffAllZeros(s[..k]);
    assert IsUnitChar(s[k]) && AllDigits(s[..k]) && !AllZeros(s[..k]);
  }

  lemma WellFormedIsAccepted(s: string)
    requires WellFormedSpec(s)
    ensures ParseTimeRange(s).Success?
  {
    var k := DigitRunEnd(s, 0);
    var j :| 1 <= j < |s| && IsUnitChar(s[j]) && AllDigits(s[..j]) && !AllZeros(s[..j]);
    assert j == k;
    assert IsWordChar(s[k]);
    ValueZeroIffAllZeros(s[..k]);
  }

  /** Which error is raised: no match, then a bad unit letter, then a zero count. */
  lemma ParseTimeRangeErrors(s: string)
    ensures ParseTimeRange(s) == Failure(Unparseable) <==> !(|s| >= 2 && IsDigit(s[0]) && IsWordChar(s[1]))
    ensures ParseTimeRange(s) == Failure(UnknownUnit) <==> MatchSpec(s).Some? && !IsUnitChar(UnitTag(s))
    ensures ParseTimeRange(s) == Failure(ZeroPrefix) <==>
              MatchSpec(s).Some? && IsUnitChar(UnitTag(s)) && Count(s) == 0
  {
    MatchSpecIsRegexMatch(s);
  }

  /**
   An accepted specifier has a positive count and a unit tag in `dDmMyY`;
   lowering leaves a tag that is already d, m or y unchanged.
   */
  lemma AcceptedSpecHasUnitAndCount(s: string)
    requires ParseTimeRange(s).Success?
    ensures MatchSpec(s).Some?
    ensures Count(s) >= 1
    ensures IsUnitLetter(Lower(UnitTag(s)))
    ensures IsUnitLetter(UnitTag(s)) ==> Lower(UnitTag(s)) == UnitTag(s)
  {
  }

  /** The examples of the help text. */
  lemma HelpTextExamples()
    ensures ParseTimeRange("2d") == Success("2d")
    ensures ParseTimeRange("1m") == Success("1m")
    ensures ParseTimeRange("6m") == Success("6m")
  {
  }

  /** An uppercase unit, and a unit written as a word. */
  lemma UnitSpellingExamples()
    ensures ParseTimeRange("6M") == Success("6M")
    ensures ParseTimeRange("10years") == Success("10years")
  {
  }

  /** No digit followed by a word character: nothing to match. */
  lemma UnparseableExamples()
    ensures ParseTimeRange("abc") == Failure(Unparseable)
    ensures ParseTimeRange("1") == Failure(Unparseable)
    ensures ParseTimeRange("d1") == Failure(Unparseable)
  {
  }

  /** An unknown unit letter; `12` matches with the unit `2`. */
  lemma UnknownUnitExamples()
    ensures ParseTimeRange("1x") == Failure(UnknownUnit)
    ensures ParseTimeRange("12") == Failure(UnknownUnit)
  {
  }

  /** A zero count, however it is written. */
  lemma ZeroPrefixExamples()
    ensures ParseTimeRange("0d") == Failure(ZeroPrefix)
    ensures ParseTimeRange("00d") == Failure(ZeroPrefix)
  {
  }
}
