/** The alphabets names, versions and digests are written in, letter by letter. */
module Characters {
  import opened Text

  const LOWERCASE := "abcdefghijklmnopqrstuvwxyz"
  const UPPERCASE := "ABCDEFGHIJKLMNOPQRSTUVWXYZ"
  const DECIMALS := "0123456789"

  lemma LowercaseMeans(c: char)
    ensures c in LOWERCASE <==> 'a' <= c <= 'z'
  {
    assert |LOWERCASE| == 26;
    if 'a' <= c <= 'z' { assert LOWERCASE[c as int - 97] == c; }
  }

  lemma UppercaseMeans(c: char)
    ensures c in UPPERCASE <==> 'A' <= c <= 'Z'
  {
    assert |UPPERCASE| == 26;
    if 'A' <= c <= 'Z' { assert UPPERCASE[c as int - 65] == c; }
  }

  lemma DecimalsMean(c: char)
    ensures c in DECIMALS <==> '0' <= c <= '9'
  {
    assert |DECIMALS| == 10;
    if '0' <= c <= '9' { assert DECIMALS[c as int - 48] == c; }
  }

  lemma SpaceMeans(c: char)
    ensures Space(c) <==> c in " \t\r\n"
  {
  }

  lemma DigitMeans(c: char)
    ensures Digit(c) <==> c in DECIMALS
    ensures Digit(c) ==> DigitValue(c) < |DECIMALS| && DECIMALS[DigitValue(c)] == c
  {
    DecimalsMean(c);
  }

  lemma LetterMeans(c: char)
    ensures Letter(c) <==> c in LOWERCASE || c in UPPERCASE
  {
    LowercaseMeans(c);
    UppercaseMeans(c);
  }

  /** Every character of the text is one of these. */
  ghost predicate Written(s: string, alphabet: string) {
    forall k :: 0 <= k < |s| ==> s[k] in alphabet
  }

  /** Sixty-four lower-case hexadecimal digits. */
  ghost predicate Hexadecimal(s: string) {
    |s| == 64 && forall k :: 0 <= k < 64 ==> s[k] in "0123456789abcdef"
  }

  /** One to 4096 characters, none of them a space or a control character. */
  ghost predicate Printable(s: string) {
    1 <= |s| <= 4096 && forall k :: 0 <= k < |s| ==> 33 <= s[k] as int <= 126
  }
}
