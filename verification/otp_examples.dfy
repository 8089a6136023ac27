/**
 Concrete messages and what the search makes of them. Each lemma holds for
 any pair of classes that agrees with ASCII on ASCII characters, which
 Python's Unicode `\d` and `\w` do.
 */
module OtpExamples {
  import opened Wrappers
  import opened CharClasses
  import opened OtpSearch

  /** Text made of ASCII characters other than digits holds no `\d` character. */
  lemma AsciiNonDigits(cls: Classes, t: string)
    requires AgreesWithAscii(cls)
    requires forall k :: 0 <= k < |t| ==> t[k] as int < 128 && !IsAsciiDigit(t[k])
    ensures forall k :: 0 <= k < |t| ==> !cls.digit(t[k])
  {
  }

  /** ASCII digits are `\d` characters. */
  lemma AsciiDigits(cls: Classes, t: string)
    requires AgreesWithAscii(cls)
    requires forall k :: 0 <= k < |t| ==> IsAsciiDigit(t[k])
    ensures forall k :: 0 <= k < |t| ==> cls.digit(t[k])
  {
  }

  /** Of two standalone codes the leftmost one is taken. */
  lemma LeftmostOfTwo(cls: Classes)
    requires WellFormed(cls) && AgreesWithAscii(cls)
    ensures FindOtp(cls, "try 111111 or 222222") == Some("111111")
  {
    var prefix, code, suffix := "try ", "111111", " or 222222";
    AsciiNonDigits(cls, prefix);
    AsciiDigits(cls, code);
    assert !cls.word(prefix[3]) && !cls.word(suffix[0]);
    CodeAfterDigitFreeText(cls, "try 111111 or 222222", prefix, code, suffix);
  }

  /** A message of the expected shape yields its code. */
  lemma CodeInSentence(cls: Classes)
    requires WellFormed(cls) && AgreesWithAscii(cls)
    ensures FindOtp(cls, "your code is 483920 thanks") == Some("483920")
  {
    var prefix, code, suffix := "your code is ", "483920", " thanks";
    AsciiNonDigits(cls, prefix);
    AsciiDigits(cls, code);
    assert !cls.word(prefix[12]) && !cls.word(suffix[0]);
    CodeAfterDigitFreeText(cls, "your code is 483920 thanks", prefix, code, suffix);
  }

  /** Punctuation is no word character, so it bounds a code. */
  lemma CodeBetweenPunctuation(cls: Classes)
    requires WellFormed(cls) && AgreesWithAscii(cls)
    ensures FindOtp(cls, "-123456.") == Some("123456")
  {
    var prefix, code, suffix := "-", "123456", ".";
    AsciiNonDigits(cls, prefix);
    AsciiDigits(cls, code);
    assert !cls.word(prefix[0]) && !cls.word(suffix[0]);
    CodeAfterDigitFreeText(cls, "-123456.", prefix, code, suffix);
  }

  /** Seven digits in a row contain no code. */
  lemma SevenDigitsNoCode(cls: Classes)
    requires WellFormed(cls) && AgreesWithAscii(cls)
    ensures FindOtp(cls, "code 1234567") == None
  {
  }

  /** Letters glued to the digits make them part of a longer word. */
  lemma GluedToLettersNoCode(cls: Classes)
    requires WellFormed(cls) && AgreesWithAscii(cls)
    ensures FindOtp(cls, "abc123456") == None
  {
  }

  /** Five digits are not enough. */
  lemma FiveDigitsNoCode(cls: Classes)
    requires AgreesWithAscii(cls)
    ensures FindOtp(cls, "12345") == None
  {
  }
}
