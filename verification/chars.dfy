/** ASCII character classes and the fixed alphabets both scripts draw from. */
module Chars {

  predicate IsLower(c: char) { 'a' <= c <= 'z' }
  predicate IsUpper(c: char) { 'A' <= c <= 'Z' }
  predicate IsDigit(c: char) { '0' <= c <= '9' }
  predicate IsAlnum(c: char) { IsLower(c) || IsUpper(c) || IsDigit(c) }

  /** The 32 printable ASCII characters that are neither letters, digits nor space. */
  predicate IsPunctuation(c: char) {
    ('!' <= c <= '/') || (':' <= c <= '@') || ('[' <= c <= '`') || ('{' <= c <= '~')
  }

  /** The characters `lo`, `lo+1`, ..., `hi` in code-point order. */
  function CharRange(lo: char, hi: char): (r: string)
    requires lo <= hi <= '~'
    ensures |r| == hi as int - lo as int + 1
    ensures forall i :: 0 <= i < |r| ==> r[i] as int == lo as int + i
  {
    seq(hi as int - lo as int + 1, i requires 0 <= i < hi as int - lo as int + 1 => (lo as int + i) as char)
  }

  const Lowercase: string := CharRange('a', 'z')
  const Uppercase: string := CharRange('A', 'Z')
  const Digits: string := CharRange('0', '9')

  /** Python's `string.punctuation`: four runs of ASCII in code-point order. */
  const Punctuation: string := CharRange('!', '/') + CharRange(':', '@') + CharRange('[', '`') + CharRange('{', '~')

  /** Python's `string.ascii_letters + string.digits`. */
  const AsciiAlnum: string := Lowercase + Uppercase + Digits

  /** Some character of `s` is a lower-case letter; likewise the three below. */
  predicate HasLower(s: string) { exists i :: 0 <= i < |s| && IsLower(s[i]) }
  predicate HasUpper(s: string) { exists i :: 0 <= i < |s| && IsUpper(s[i]) }
  predicate HasDigit(s: string) { exists i :: 0 <= i < |s| && IsDigit(s[i]) }
  predicate HasPunctuation(s: string) { exists i :: 0 <= i < |s| && IsPunctuation(s[i]) }

  /** Every character of `s` occurs in `alphabet`. */
  predicate DrawnFrom(s: string, alphabet: string) {
    forall i :: 0 <= i < |s| ==> s[i] in alphabet
  }

  lemma LowercaseIsLower(k: nat)
    requires k < 26
    ensures |Lowercase| == 26 && IsLower(Lowercase[k])
  {
  }

  lemma UppercaseIsUpper(k: nat)
    requires k < 26
    ensures |Uppercase| == 26 && IsUpper(Uppercase[k])
  {
  }

  lemma DigitsAreDigits(k: nat)
    requires k < 10
    ensures |Digits| == 10 && IsDigit(Digits[k])
  {
  }

  /** `Punctuation` lists exactly the characters `IsPunctuation` admits. */
  lemma PunctuationMembership(c: char)
    ensures |Punctuation| == 32
    ensures c in Punctuation <==> IsPunctuation(c)
  {
    var a, b, d, e := CharRange('!', '/'), CharRange(':', '@'), CharRange('[', '`'), CharRange('{', '~');
    assert Punctuation == a + b + d + e;
    if IsPunctuation(c) {
      if c <= '/' {
        assert Punctuation[c as int - '!' as int] == c;
      } else if c <= '@' {
        assert Punctuation[|a| + c as int - ':' as int] == c;
      } else if c <= '`' {
        assert Punctuation[|a| + |b| + c as int - '[' as int] == c;
      } else {
        assert Punctuation[|a| + |b| + |d| + c as int - '{' as int] == c;
      }
    }
    if c in Punctuation {
      var k :| 0 <= k < |Punctuation| && Punctuation[k] == c;
      if k < |a| {
        assert c == a[k];
      } else if k < |a| + |b| {
        assert c == b[k - |a|];
      } else if k < |a| + |b| + |d| {
        assert c == d[k - |a| - |b|];
      } else {
        assert c == e[k - |a| - |b| - |d|];
      }
    }
  }

  /** An index into `AsciiAlnum` (the pick of `random.choice`) yields a letter or digit. */
  lemma AsciiAlnumPick(k: nat)
    requires k < 62
    ensures |AsciiAlnum| == 62 && IsAlnum(AsciiAlnum[k])
  {
    if k < 26 {
      assert AsciiAlnum[k] == Lowercase[k];
    } else if k < 52 {
      assert AsciiAlnum[k] == Uppercase[k - 26];
    } else {
      assert AsciiAlnum[k] == Digits[k - 52];
    }
  }
}
