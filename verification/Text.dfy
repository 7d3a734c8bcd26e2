/** Byte strings, character classes and the small string searches shared by the models. */
module Text {

  datatype Option<+T> = None | Some(value: T)

  const INT_MAX: nat := 0x7fff_ffff

  predicate Digit(c: char) {
    '0' <= c <= '9'
  }

  predicate Letter(c: char) {
    'a' <= c <= 'z' || 'A' <= c <= 'Z'
  }

  predicate Space(c: char) {
    c == ' ' || c == '\t' || c == '\r' || c == '\n'
  }

  /** The index of the first `c` in `s`, or `|s|` when there is none. */
  function Find(s: string, c: char): (i: nat)
    ensures i <= |s|
  {
    if |s| == 0 || s[0] == c then 0 else 1 + Find(s[1..], c)
  }

  lemma {:induction false} FindFirst(s: string, c: char)
    ensures forall k :: 0 <= k < Find(s, c) ==> s[k] != c
    ensures Find(s, c) < |s| ==> s[Find(s, c)] == c
  {
    if |s| > 0 && s[0] != c {
      FindFirst(s[1..], c);
      assert forall k :: 0 < k < |s| ==> s[k] == s[1..][k - 1];
    }
  }

  /** The index of the last `c` in `s`, or `|s|` when there is none. */
  function RFind(s: string, c: char): (i: nat)
    ensures i <= |s|
  {
    if |s| == 0 then 0
    else if s[|s| - 1] == c then |s| - 1
    else
      var i := RFind(s[..|s| - 1], c);
      if i == |s| - 1 then |s| else i
  }

  lemma {:induction false} RFindLast(s: string, c: char)
    ensures var i := RFind(s, c);
            if i < |s| then s[i] == c && forall k :: i < k < |s| ==> s[k] != c
            else forall k :: 0 <= k < |s| ==> s[k] != c
  {
    if |s| > 0 && s[|s| - 1] != c {
      RFindLast(s[..|s| - 1], c);
      assert forall k :: 0 <= k < |s| - 1 ==> s[k] == s[..|s| - 1][k];
    }
  }

  function DigitValue(c: char): (n: nat)
    requires Digit(c)
    ensures n < 10
  {
    c as int - '0' as int
  }

  predicate Digits(s: string) {
    forall k :: 0 <= k < |s| ==> Digit(s[k])
  }

  /** The number a digit string denotes in base ten; the empty string denotes zero. */
  function Decimal(s: string): nat
    requires Digits(s)
  {
    if s == "" then 0 else 10 * Decimal(s[..|s| - 1]) + DigitValue(s[|s| - 1])
  }

  /** Reading more digits never makes the number smaller. */
  lemma {:induction false} DecimalMonotone(s: string, n: nat)
    requires Digits(s) && n <= |s|
    ensures Decimal(s[..n]) <= Decimal(s)
    decreases |s|
  {
    if n < |s| {
      DecimalMonotone(s[..|s| - 1], n);
      assert s[..|s| - 1][..n] == s[..n];
    } else {
      assert s[..n] == s;
    }
  }

  /** An absolute path without empty, `.` or `..` parts; the root alone is one. */
  predicate AbsolutePath(s: string) {
    && 0 < |s| <= 4096 && s[0] == '/'
    && (forall k :: 0 <= k < |s| ==> ' ' <= s[k] && s[k] != 127 as char)
    && (|s| > 1 ==> forall k :: 0 <= k < |s| && s[k] == '/' ==> PartFollows(s, k))
  }

  predicate PartFollows(s: string, k: nat)
    requires k < |s|
  {
    && !AtEnd(s, k + 1)
    && !(s[k + 1] == '.' && AtEnd(s, k + 2))
    && !(s[k + 1] == '.' && k + 2 < |s| && s[k + 2] == '.' && AtEnd(s, k + 3))
  }

  predicate AtEnd(s: string, k: nat) {
    k >= |s| || s[k] == '/'
  }
}
