/**
 The search `re.search(r'\b\d{6}\b', text)` of the message handler.

 `MatchAt(cls, s, i)` says that the pattern matches the text `s` starting at
 index `i`. The pattern has a fixed width, so the only question at a start
 index is whether that one window qualifies, and `re.search` returns the
 leftmost start index that does.
 */
module OtpSearch {
  import opened Wrappers
  import opened CharClasses

  /** Number of digits in an OTP (the `{6}` of the pattern). */
  const CodeLength := 6

  /** `s[k]` exists and is a word character. */
  predicate WordAt(cls: Classes, s: string, k: int)
  {
    0 <= k < |s| && cls.word(s[k])
  }

  /** `\b` at position `k`: exactly one of the characters around `k` is a word character. */
  predicate BoundaryAt(cls: Classes, s: string, k: int)
  {
    WordAt(cls, s, k - 1) != WordAt(cls, s, k)
  }

  /** `\d{6}` at `i`: the six characters from `i` on exist and are digits. */
  predicate DigitsAt(cls: Classes, s: string, i: int)
  {
    0 <= i && i + CodeLength <= |s| &&
    forall k :: i <= k < i + CodeLength ==> cls.digit(s[k])
  }

  /** The whole pattern `\b\d{6}\b` matches at `i`. */
  predicate MatchAt(cls: Classes, s: string, i: int)
  {
    BoundaryAt(cls, s, i) && DigitsAt(cls, s, i) && BoundaryAt(cls, s, i + CodeLength)
  }

  /** `i` is the match `re.search` reports: it matches and nothing starts earlier. */
  ghost predicate LeftmostMatch(cls: Classes, s: string, i: int)
  {
    MatchAt(cls, s, i) && forall j :: 0 <= j < i ==> !MatchAt(cls, s, j)
  }

  /** `code` is the text `re.search(...).group(0)` returns for `s`. */
  ghost predicate LeftmostCode(cls: Classes, s: string, code: string)
  {
    exists i :: LeftmostMatch(cls, s, i) && i + CodeLength <= |s| && code == s[i..i + CodeLength]
  }

  /**
   Because digits are word characters, `\b` around a digit window reduces to
   "no word character right before it and none right after it". This is why
   a window inside a longer digit run, or glued to letters or `_`, is no match.
   */
  lemma MatchAtIffStandalone(cls: Classes, s: string, i: int)
    requires WellFormed(cls)
    ensures MatchAt(cls, s, i) <==>
      && DigitsAt(cls, s, i)
      && (i == 0 || !cls.word(s[i - 1]))
      && (i + CodeLength == |s| || !cls.word(s[i + CodeLength]))
  {
  }

  /** No six-digit window that lies inside a run of seven or more digits matches. */
  lemma NoMatchInsideLongerRun(cls: Classes, s: string, lo: int, hi: int, i: int)
    requires WellFormed(cls)
    requires 0 <= lo <= hi <= |s| && hi - lo > CodeLength
    requires forall k :: lo <= k < hi ==> cls.digit(s[k])
    requires lo <= i && i + CodeLength <= hi
    ensures !MatchAt(cls, s, i)
  {
  }

  /**
   The start positions tried one after the other, as `re.search` does:
   the first index at or after `from` where the pattern matches.
   */
  function FirstMatchFrom(cls: Classes, s: string, from: nat): (r: Option<nat>)
    ensures r.Some? ==> from <= r.value && r.value + CodeLength <= |s| && MatchAt(cls, s, r.value)
    ensures r.Some? ==> forall j :: from <= j < r.value ==> !MatchAt(cls, s, j)
    ensures r.None? <==> forall j :: from <= j ==> !MatchAt(cls, s, j)
    decreases |s| - from
  {
    if from + CodeLength > |s| then None
    else if MatchAt(cls, s, from) then Some(from)
    else FirstMatchFrom(cls, s, from + 1)
  }

  /** Two leftmost matches are the same match. */
  lemma LeftmostIsUnique(cls: Classes, s: string, i: int, j: int)
    requires LeftmostMatch(cls, s, i) && LeftmostMatch(cls, s, j)
    ensures i == j
  {
  }

  /** The OTP found in a message: `otp_match.group(0)`, or nothing. */
  function FindOtp(cls: Classes, s: string): (r: Option<string>)
    ensures r.Some? ==> |r.value| == CodeLength
    ensures r.Some? ==> forall k :: 0 <= k < |r.value| ==> cls.digit(r.value[k])
    ensures r.Some? ==> LeftmostCode(cls, s, r.value)
    ensures r.None? <==> forall j :: !MatchAt(cls, s, j)
  {
    match FirstMatchFrom(cls, s, 0)
    case None => None
    case Some(i) =>
      assert LeftmostMatch(cls, s, i);
      Some(s[i..i + CodeLength])
  }

  /** Any leftmost match is the one `FindOtp` reports. */
  lemma FindOtpReturnsLeftmost(cls: Classes, s: string, i: int)
    requires LeftmostMatch(cls, s, i)
    ensures i + CodeLength <= |s|
    ensures FindOtp(cls, s) == Some(s[i..i + CodeLength])
  {
  }

  /**
   A standalone code preceded only by text without digits is the code found,
   whatever follows it.
   */
  lemma CodeAfterDigitFreeText(cls: Classes, s: string, prefix: string, code: string, suffix: string)
    requires WellFormed(cls)
    requires s == prefix + code + suffix
    requires forall k :: 0 <= k < |prefix| ==> !cls.digit(prefix[k])
    requires |prefix| == 0 || !cls.word(prefix[|prefix| - 1])
    requires |code| == CodeLength && forall k :: 0 <= k < |code| ==> cls.digit(code[k])
    requires |suffix| == 0 || !cls.word(suffix[0])
    ensures FindOtp(cls, s) == Some(code)
  {
    var i := |prefix|;
    assert forall k :: i <= k < i + CodeLength ==> s[k] == code[k - i];
    assert forall j :: 0 <= j < i ==> s[j] == prefix[j];
    assert i > 0 ==> s[i - 1] == prefix[i - 1];
    assert i + CodeLength < |s| ==> s[i + CodeLength] == suffix[0];
    assert cls.word(s[i]) && cls.word(s[i + CodeLength - 1]);
    assert MatchAt(cls, s, i);
    assert s[i..i + CodeLength] == code;
    FindOtpReturnsLeftmost(cls, s, i);
  }

  /**
   A single left-to-right pass. The text is cut into maximal runs of word
   characters; the pattern can only match a run that is exactly six
   characters long and made of digits, and it matches at the start of such
   a run. `Search` returns the first such run, which is the leftmost match.
   */
  method Search(cls: Classes, s: string) returns (pos: Option<nat>)
    requires WellFormed(cls)
    ensures pos.Some? ==> pos.value + CodeLength <= |s| && LeftmostMatch(cls, s, pos.value)
    ensures pos.None? <==> forall j :: !MatchAt(cls, s, j)
    ensures pos == FirstMatchFrom(cls, s, 0)
  {
    var start := 0;          // first index of the current run of word characters
    var digitsOnly := true;  // the current run holds digits only
    var i := 0;
    while i < |s|
      invariant 0 <= start <= i <= |s|
      invariant start == 0 || !cls.word(s[start - 1])
      invariant forall k :: start <= k < i ==> cls.word(s[k])
      invariant digitsOnly <==> forall k :: start <= k < i ==> cls.digit(s[k])
      invariant forall j :: 0 <= j <= i && j != start ==> !MatchAt(cls, s, j)
    {
      if cls.word(s[i]) {
        digitsOnly := digitsOnly && cls.digit(s[i]);
      } else {
        if i - start == CodeLength && digitsOnly {
          pos := Some(start);
          assert MatchAt(cls, s, start);
          SearchAgrees(cls, s, start);
          return;
        }
        RunEndsWithoutMatch(cls, s, start, i);
        start := i + 1;
        digitsOnly := true;
      }
      i := i + 1;
    }
    if i - start == CodeLength && digitsOnly {
      pos := Some(start);
      assert MatchAt(cls, s, start);
      SearchAgrees(cls, s, start);
    } else {
      RunEndsWithoutMatch(cls, s, start, i);
      pos := None;
    }
  }

  /** A finished run `s[start..end]` that is not six digits long holds no match. */
  lemma RunEndsWithoutMatch(cls: Classes, s: string, start: int, end: int)
    requires WellFormed(cls)
    requires 0 <= start <= end <= |s|
    requires forall k :: start <= k < end ==> cls.word(s[k])
    requires end == |s| || !cls.word(s[end])
    requires !(end - start == CodeLength && forall k :: start <= k < end ==> cls.digit(s[k]))
    ensures !MatchAt(cls, s, start)
    ensures end < |s| ==> !MatchAt(cls, s, end)
  {
  }

  /** Helper for `Search`: a match with no earlier match is what `FirstMatchFrom` finds. */
  lemma SearchAgrees(cls: Classes, s: string, i: nat)
    requires LeftmostMatch(cls, s, i)
    ensures FirstMatchFrom(cls, s, 0) == Some(i)
  {
  }
}
