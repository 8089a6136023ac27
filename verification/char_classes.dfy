/**
 Character classes used by the OTP pattern.

 Python 3 evaluates `\d` and `\w` on `str` patterns with Unicode semantics:
 `\d` is any decimal digit (category Nd) and `\w` is any alphanumeric
 character or `_`. The model does not enumerate Unicode; it takes the two
 classes as parameters and only relies on the fact that every decimal digit
 is a word character.
 */
module CharClasses {

  /** The two classes the pattern consults. */
  datatype Classes = Classes(digit: char -> bool, word: char -> bool)

  /** Every character `\d` accepts is also accepted by `\w`. */
  predicate WellFormed(cls: Classes)
  {
    forall c :: cls.digit(c) ==> cls.word(c)
  }

  predicate IsAsciiDigit(c: char)
  {
    '0' <= c <= '9'
  }

  predicate IsAsciiWord(c: char)
  {
    'a' <= c <= 'z' || 'A' <= c <= 'Z' || IsAsciiDigit(c) || c == '_'
  }

  /** On code points below 128 the Unicode classes coincide with the ASCII ones. */
  predicate AgreesWithAscii(cls: Classes)
  {
    && (forall c :: c as int < 128 ==> (cls.digit(c) <==> IsAsciiDigit(c)))
    && (forall c :: c as int < 128 ==> (cls.word(c) <==> IsAsciiWord(c)))
  }

  /** The classes Python uses for `bytes` patterns or under `re.ASCII`. */
  function Ascii(): (cls: Classes)
    ensures WellFormed(cls)
    ensures AgreesWithAscii(cls)
    ensures forall c :: c as int >= 128 ==> !cls.word(c)
  {
    Classes(c => IsAsciiDigit(c), c => IsAsciiWord(c))
  }
}
