/**
  `extractMinutes`: the posting-age text is searched for the leftmost match of
  the pattern (\d+)\s*minutes\s*ago; the digits of the first group, read in
  base 10, are the age in minutes. Text with no match gets the sentinel
  Number.MAX_SAFE_INTEGER, so that it sorts after every parsed age below
  that value (a parsed count of MAX_SAFE_INTEGER or more ties with it or
  sorts after it).
*/
module PostedAge {
  import opened Wrappers

  /** Number.MAX_SAFE_INTEGER, 2^53 - 1. */
  const MaxSafeInteger: int := 9007199254740991

  predicate IsDigit(c: char) {
    '0' <= c <= '9'
  }

  /** The ASCII characters of the class \s: space, tab, line feed, vertical
      tab, form feed and carriage return. */
  predicate IsSpace(c: char) {
    c == ' ' || 9 <= c as int <= 13
  }

  /** The end of the run of digits starting at `i`. */
  function DigitsEnd(s: string, i: nat): (k: nat)
    requires i <= |s|
    ensures i <= k <= |s|
    ensures forall p :: i <= p < k ==> IsDigit(s[p])
    ensures k == |s| || !IsDigit(s[k])
    decreases |s| - i
  {
    if i < |s| && IsDigit(s[i]) then DigitsEnd(s, i + 1) else i
  }

  /** The end of the run of whitespace starting at `i`. */
  function SpacesEnd(s: string, i: nat): (k: nat)
    requires i <= |s|
    ensures i <= k <= |s|
    ensures forall p :: i <= p < k ==> IsSpace(s[p])
    ensures k == |s| || !IsSpace(s[k])
    decreases |s| - i
  {
    if i < |s| && IsSpace(s[i]) then SpacesEnd(s, i + 1) else i
  }

  /** `word` occurs in `s` at position `i`. */
  predicate HasAt(s: string, i: nat, word: string) {
    i + |word| <= |s| && s[i..i + |word|] == word
  }

  /** `parseInt(digits, 10)` on a string of decimal digits. */
  function DecimalValue(digits: string): (v: nat)
    requires forall p :: 0 <= p < |digits| ==> IsDigit(digits[p])
  {
    if digits == [] then 0
    else
      assert IsDigit(digits[|digits| - 1]);
      10 * DecimalValue(digits[..|digits| - 1]) + (digits[|digits| - 1] as int - '0' as int)
  }

  /** The pattern matched at start position `i`, with the value of its digits.
      Each greedy part is followed by a character it cannot consume (a digit
      run by whitespace or 'm', a whitespace run by 'm' or 'a'), so giving
      characters back never helps and the maximal runs decide the match. */
  function MatchAt(s: string, i: nat): Option<nat> {
    if i < |s| && IsDigit(s[i]) then
      var k := DigitsEnd(s, i);
      var m := SpacesEnd(s, k);
      if HasAt(s, m, "minutes") then
        var n := SpacesEnd(s, m + 7);
        if HasAt(s, n, "ago") then Some(DecimalValue(s[i..k])) else None
      else None
    else None
  }

  /** The regular expression (\d+)\s*minutes\s*ago matches at `i`, split as
      the digit group [i, k), whitespace [k, m), "minutes" at m, whitespace
      [m + 7, n) and "ago" at n. The parts need not be maximal runs; this
      is the pattern's meaning, independent of how MatchAt searches. */
  predicate MatchesWith(s: string, i: nat, k: nat, m: nat, n: nat) {
    && i < k <= m && m + 7 <= n && n + 3 <= |s|
    && (forall p :: i <= p < k ==> IsDigit(s[p]))
    && (forall p :: k <= p < m ==> IsSpace(s[p]))
    && HasAt(s, m, "minutes")
    && (forall p :: m + 7 <= p < n ==> IsSpace(s[p]))
    && HasAt(s, n, "ago")
  }

  /** The regular expression matches at `i`, split in some way. */
  ghost predicate PatternAt(s: string, i: nat) {
    exists k, m, n :: MatchesWith(s, i, k, m, n)
  }

  /** The text contains a match of the pattern somewhere. */
  predicate HasMatch(s: string) {
    exists i :: 0 <= i < |s| && MatchAt(s, i).Some?
  }

  /** The regex engine's search: try start positions from `i` onwards. */
  function ScanFrom(s: string, i: nat): (r: int)
    requires i <= |s|
    ensures r >= 0
    decreases |s| - i
  {
    if i == |s| then MaxSafeInteger
    else match MatchAt(s, i)
      case Some(v) => v
      case None => ScanFrom(s, i + 1)
  }

  /** `extractMinutes(postedTime)`. */
  function ExtractMinutes(posted: string): (r: int)
    ensures r >= 0
  {
    ScanFrom(posted, 0)
  }

  lemma {:induction false} ScanFromFirst(s: string, lo: nat, i: nat)
    requires lo <= i < |s| && MatchAt(s, i).Some?
    requires forall j :: lo <= j < i ==> MatchAt(s, j).None?
    ensures ScanFrom(s, lo) == MatchAt(s, i).value
    decreases i - lo
  {
    if lo < i {
      ScanFromFirst(s, lo + 1, i);
    }
  }

  lemma {:induction false} ScanFromNone(s: string, lo: nat)
    requires lo <= |s|
    requires forall j :: lo <= j < |s| ==> MatchAt(s, j).None?
    ensures ScanFrom(s, lo) == MaxSafeInteger
    decreases |s| - lo
  {
    if lo < |s| {
      ScanFromNone(s, lo + 1);
    }
  }

  /** The leftmost match decides the result. */
  lemma ExtractMinutesLeftmost(s: string, i: nat)
    requires i < |s| && MatchAt(s, i).Some?
    requires forall j :: 0 <= j < i ==> MatchAt(s, j).None?
    ensures ExtractMinutes(s) == MatchAt(s, i).value
  {
    ScanFromFirst(s, 0, i);
  }

  /** Text in which the pattern occurs nowhere gets the sentinel. */
  lemma ExtractMinutesNoMatch(s: string)
    requires !HasMatch(s)
    ensures ExtractMinutes(s) == MaxSafeInteger
  {
    ScanFromNone(s, 0);
  }

  /** A digit run that reaches a non-digit ends there. */
  lemma {:induction false} DigitsEndAt(s: string, i: nat, k: nat)
    requires i <= k < |s| && !IsDigit(s[k])
    requires forall p :: i <= p < k ==> IsDigit(s[p])
    ensures DigitsEnd(s, i) == k
    decreases k - i
  {
    if i < k {
      DigitsEndAt(s, i + 1, k);
    }
  }

  /** A whitespace run that reaches a non-space character ends there. */
  lemma {:induction false} SpacesEndAt(s: string, k: nat, m: nat)
    requires k <= m < |s| && !IsSpace(s[m])
    requires forall p :: k <= p < m ==> IsSpace(s[p])
    ensures SpacesEnd(s, k) == m
    decreases m - k
  {
    if k < m {
      SpacesEndAt(s, k + 1, m);
    }
  }

  /** Soundness of the search: where MatchAt reports a match, the regular
      expression matches, split at the maximal runs, and the value is that
      of the digit group. */
  lemma MatchAtSound(s: string, i: nat)
    requires MatchAt(s, i).Some?
    ensures var k := DigitsEnd(s, i); var m := SpacesEnd(s, k);
      && MatchesWith(s, i, k, m, SpacesEnd(s, m + 7))
      && MatchAt(s, i).value == DecimalValue(s[i..k])
  {
  }

  /** Completeness of the search: however the regular expression matches at
      `i`, MatchAt reports a match there, and its digits are that match's
      digit group. Its parts are the maximal runs, so the split at a
      position is unique, as the comment on MatchAt argues. */
  lemma MatchAtComplete(s: string, i: nat, k: nat, m: nat, n: nat)
    requires MatchesWith(s, i, k, m, n)
    ensures k == DigitsEnd(s, i) && m == SpacesEnd(s, k) && n == SpacesEnd(s, m + 7)
    ensures MatchAt(s, i) == Some(DecimalValue(s[i..k]))
  {
    assert s[m] == 'm' by { assert s[m..m + 7][0] == s[m]; }
    assert s[n] == 'a' by { assert s[n..n + 3][0] == s[n]; }
    DigitsEndAt(s, i, k);
    SpacesEndAt(s, k, m);
    SpacesEndAt(s, m + 7, n);
    MatchAtParts(s, i, k, m, n);
  }

  /** Two splits of the regular expression at the same position coincide. */
  lemma MatchSplitUnique(s: string, i: nat, k: nat, m: nat, n: nat, k': nat, m': nat, n': nat)
    requires MatchesWith(s, i, k, m, n) && MatchesWith(s, i, k', m', n')
    ensures k == k' && m == m' && n == n'
  {
    MatchAtComplete(s, i, k, m, n);
    MatchAtComplete(s, i, k', m', n');
  }

  /** MatchAt finds a match exactly where the regular expression matches. */
  lemma MatchAtIsPattern(s: string, i: nat)
    ensures MatchAt(s, i).Some? <==> PatternAt(s, i)
  {
    if MatchAt(s, i).Some? {
      MatchAtSound(s, i);
    }
    if PatternAt(s, i) {
      var k, m, n :| MatchesWith(s, i, k, m, n);
      MatchAtComplete(s, i, k, m, n);
    }
  }

  /** In terms of the regular expression: the leftmost start position where
      it matches decides the result, the value of that match's digit group. */
  lemma ExtractMinutesFirstMatch(s: string, i: nat, k: nat, m: nat, n: nat)
    requires MatchesWith(s, i, k, m, n)
    requires forall j :: 0 <= j < i ==> !PatternAt(s, j)
    ensures ExtractMinutes(s) == DecimalValue(s[i..k])
  {
    forall j | 0 <= j < i
      ensures MatchAt(s, j).None?
    {
      MatchAtIsPattern(s, j);
    }
    MatchAtComplete(s, i, k, m, n);
    ExtractMinutesLeftmost(s, i);
  }

  /** In terms of the regular expression: text where it matches nowhere
      gets the sentinel. */
  lemma ExtractMinutesNoPattern(s: string)
    requires forall j :: 0 <= j < |s| ==> !PatternAt(s, j)
    ensures ExtractMinutes(s) == MaxSafeInteger
  {
    forall j | 0 <= j < |s|
      ensures MatchAt(s, j).None?
    {
      MatchAtIsPattern(s, j);
    }
    ExtractMinutesNoMatch(s);
  }

  /** The match at `i` read off its parts. */
  lemma MatchAtParts(s: string, i: nat, k: nat, m: nat, n: nat)
    requires i < k <= |s| && DigitsEnd(s, i) == k
    requires SpacesEnd(s, k) == m && HasAt(s, m, "minutes")
    requires SpacesEnd(s, m + 7) == n && HasAt(s, n, "ago")
    ensures MatchAt(s, i) == Some(DecimalValue(s[i..k]))
  {
  }

  /** A word placed between two strings occurs where it was placed. */
  lemma HasAtConcat(a: string, word: string, b: string)
    ensures HasAt(a + word + b, |a|, word)
  {
    assert (a + word + b)[|a|..|a| + |word|] == word;
  }

  /** Where the parts of `<digits> minutes ago` sit. */
  lemma MinutesAgoLayout(digits: string)
    ensures var s, n := digits + " minutes ago", |digits|;
      && |s| == n + 12 && s[..n] == digits
      && s[n] == ' ' && s[n + 1] == 'm' && s[n + 8] == ' ' && s[n + 9] == 'a'
      && HasAt(s, n + 1, "minutes") && HasAt(s, n + 9, "ago")
  {
    var s := digits + " minutes ago";
    assert " minutes ago" == " " + "minutes" + " " + "ago";
    assert s == (digits + " ") + "minutes" + (" " + "ago");
    assert s == (digits + " minutes ") + "ago" + [];
    HasAtConcat(digits + " ", "minutes", " " + "ago");
    HasAtConcat(digits + " minutes ", "ago", []);
  }

  /** The pattern matches `<digits> minutes ago` at its first character. */
  lemma MatchAtMinutesAgo(digits: string)
    requires |digits| > 0 && forall p :: 0 <= p < |digits| ==> IsDigit(digits[p])
    ensures MatchAt(digits + " minutes ago", 0) == Some(DecimalValue(digits))
  {
    var n := |digits|;
    var s := digits + " minutes ago";
    MinutesAgoLayout(digits);
    DigitsEndAt(s, 0, n);
    assert SpacesEnd(s, n + 1) == n + 1;
    assert SpacesEnd(s, n + 9) == n + 9;
    MatchAtParts(s, 0, n, n + 1, n + 9);
  }

  /** The text `<digits> minutes ago` parses back to the value of its digits. */
  lemma ExtractMinutesOfDigits(digits: string)
    requires |digits| > 0 && forall p :: 0 <= p < |digits| ==> IsDigit(digits[p])
    ensures ExtractMinutes(digits + " minutes ago") == DecimalValue(digits)
  {
    MatchAtMinutesAgo(digits);
    ExtractMinutesLeftmost(digits + " minutes ago", 0);
  }

  /** "8 minutes ago" is 8 minutes old and "3 minutes ago" is 3. */
  lemma ExtractMinutesExamples()
    ensures ExtractMinutes("8 minutes ago") == 8
    ensures ExtractMinutes("3 minutes ago") == 3
  {
    assert "8" + " minutes ago" == "8 minutes ago";
    assert "3" + " minutes ago" == "3 minutes ago";
    assert "8"[..0] == [] && "3"[..0] == [];
    ExtractMinutesOfDigits("8");
    ExtractMinutesOfDigits("3");
  }

  /** "2 hours ago" does not match: it gets the sentinel. */
  lemma ExtractMinutesHours()
    ensures ExtractMinutes("2 hours ago") == MaxSafeInteger
  {
    var s := "2 hours ago";
    assert DigitsEnd(s, 1) == 1;
    assert DigitsEnd(s, 0) == 1;
    assert SpacesEnd(s, 2) == 2;
    assert SpacesEnd(s, 1) == 2;
    assert s[2..9][0] == 'h';
    assert MatchAt(s, 0) == None;
    forall j | 1 <= j < |s| ensures MatchAt(s, j) == None {
      assert !IsDigit(s[j]);
    }
    ExtractMinutesNoMatch(s);
  }
}
