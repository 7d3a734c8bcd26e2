/**
 * Version equality as the state verifier decides it, against the version ordering of the Debian
 * Policy Manual section 5.6.12.
 */
module DpkgVersion {
  import opened Text

  // ---------------------------------------------------------------------------------------------
  // Runs of digits and of other characters

  /** The end of the run of digits, or of non-digits, that starts at `i`. */
  function RunEnd(s: string, i: nat, digits: bool): (j: nat)
    requires i <= |s|
    ensures i <= j <= |s|
    ensures forall k :: i <= k < j ==> Digit(s[k]) == digits
    ensures j < |s| ==> Digit(s[j]) != digits
    decreases |s| - i
  {
    if i < |s| && Digit(s[i]) == digits then RunEnd(s, i + 1, digits) else i
  }

  /** The end of the run of zeroes that starts at `i`. */
  function ZeroEnd(s: string, i: nat): (j: nat)
    requires i <= |s|
    ensures i <= j <= |s|
    ensures forall k :: i <= k < j ==> s[k] == '0'
    ensures j < |s| ==> s[j] != '0'
    decreases |s| - i
  {
    if i < |s| && s[i] == '0' then ZeroEnd(s, i + 1) else i
  }

  /** One round of the comparison: a run of non-digits, then a number without its leading zeroes. */
  datatype Part = Part(text: string, number: string)

  function PartAt(s: string, i: nat): Part
    requires i <= |s|
  {
    var d := RunEnd(s, i, false);
    var z := ZeroEnd(s, d);
    Part(s[i..d], s[z..RunEnd(s, z, true)])
  }

  function PartEnd(s: string, i: nat): (j: nat)
    requires i <= |s|
    ensures i <= j <= |s| && (i < |s| ==> i < j)
  {
    var d := RunEnd(s, i, false);
    var z := ZeroEnd(s, d);
    RunEnd(s, z, true)
  }

  /** The rounds from `i` on; even an exhausted string has one, empty, round. */
  function PartsFrom(s: string, i: nat): (parts: seq<Part>)
    requires i <= |s|
    ensures |parts| > 0
    decreases |s| - i
  {
    var j := PartEnd(s, i);
    if j == |s| then [PartAt(s, i)] else [PartAt(s, i)] + PartsFrom(s, j)
  }

  function Parts(s: string): seq<Part> {
    PartsFrom(s, 0)
  }

  // ---------------------------------------------------------------------------------------------
  // The loop

  /** Skips equal non-digits; stops early, and says so, at the first difference. */
  method SkipText(a: string, b: string, i0: nat, j0: nat) returns (same: bool, i: nat, j: nat)
    requires i0 <= |a| && j0 <= |b|
    ensures same <==> a[i0..RunEnd(a, i0, false)] == b[j0..RunEnd(b, j0, false)]
    ensures same ==> i == RunEnd(a, i0, false) && j == RunEnd(b, j0, false)
  {
    i, j := i0, j0;
    ghost var m, n := RunEnd(a, i0, false), RunEnd(b, j0, false);
    while (i < |a| && !Digit(a[i])) || (j < |b| && !Digit(b[j]))
      invariant i0 <= i <= m && j0 <= j <= n && i - i0 == j - j0
      invariant forall k :: i0 <= k < i ==> a[k] == b[j0 + (k - i0)]
      decreases |a| - i
    {
      if i == |a| || j == |b| || a[i] != b[j] {
        DifferentRuns(a, b, i0, j0, i);
        return false, i, j;
      }
      i, j := i + 1, j + 1;
    }
    same := true;
  }

  lemma DifferentRuns(a: string, b: string, i0: nat, j0: nat, i: nat)
    requires i0 <= |a| && j0 <= |b|
    requires var m, n := RunEnd(a, i0, false), RunEnd(b, j0, false);
             var j := j0 + (i - i0);
             && i0 <= i <= m && j <= n && (i < m || j < n)
             && (i == |a| || j == |b| || a[i] != b[j])
    ensures a[i0..RunEnd(a, i0, false)] != b[j0..RunEnd(b, j0, false)]
  {
    var m, n := RunEnd(a, i0, false), RunEnd(b, j0, false);
    var j := j0 + (i - i0);
    if a[i0..m] == b[j0..n] {
      if i < m { SameAt(a, i0, m, b, j0, n, i - i0); }
    }
  }

  lemma SameAt(a: string, i0: nat, m: nat, b: string, j0: nat, n: nat, k: nat)
    requires i0 <= m <= |a| && j0 <= n <= |b| && a[i0..m] == b[j0..n] && k < m - i0
    ensures k < n - j0 && a[i0 + k] == b[j0 + k]
  {
    assert a[i0 + k] == a[i0..m][k] && |a[i0..m]| == |b[j0..n]|;
    assert b[j0 + k] == b[j0..n][k];
  }

  method SkipZeroes(s: string, i0: nat) returns (i: nat)
    requires i0 <= |s|
    ensures i == ZeroEnd(s, i0)
  {
    i := i0;
    while i < |s| && s[i] == '0'
      invariant i0 <= i <= |s| && ZeroEnd(s, i0) == ZeroEnd(s, i)
    {
      i := i + 1;
    }
  }

  /** Skips equal digits; the runs must then both end. */
  method SkipNumber(a: string, b: string, i0: nat, j0: nat) returns (same: bool, i: nat, j: nat)
    requires i0 <= |a| && j0 <= |b|
    ensures same <==> a[i0..RunEnd(a, i0, true)] == b[j0..RunEnd(b, j0, true)]
    ensures same ==> i == RunEnd(a, i0, true) && j == RunEnd(b, j0, true)
  {
    i, j := i0, j0;
    ghost var m, n := RunEnd(a, i0, true), RunEnd(b, j0, true);
    while i < |a| && j < |b| && Digit(a[i]) && Digit(b[j])
      invariant i0 <= i <= m && j0 <= j <= n && i - i0 == j - j0
      invariant forall k :: i0 <= k < i ==> a[k] == b[j0 + (k - i0)]
    {
      if a[i] != b[j] {
        assert a[i] == a[i0..m][i - i0] && b[j] == b[j0..n][j - j0];
        return false, i, j;
      }
      i, j := i + 1, j + 1;
    }
    if (i < |a| && Digit(a[i])) || (j < |b| && Digit(b[j])) {
      assert |a[i0..m]| != |b[j0..n]|;
      return false, i, j;
    }
    same := true;
  }

  lemma PartsStep(a: string, b: string, i: nat, j: nat)
    requires i <= |a| && j <= |b| && PartAt(a, i) == PartAt(b, j)
    ensures PartsFrom(a, i) == PartsFrom(b, j) <==> PartsFrom(a, PartEnd(a, i)) == PartsFrom(b, PartEnd(b, j))
  {
    var i', j' := PartEnd(a, i), PartEnd(b, j);
    if i' == |a| && j' == |b| {
      ExhaustedParts(a);
      ExhaustedParts(b);
    } else if i' == |a| {
      ExhaustedParts(a);
      TextFirst(b, j');
    } else if j' == |b| {
      ExhaustedParts(b);
      TextFirst(a, i');
    } else {
      assert PartsFrom(a, i)[1..] == PartsFrom(a, i') && PartsFrom(b, j)[1..] == PartsFrom(b, j');
    }
  }

  lemma FirstPart(s: string, i: nat)
    requires i <= |s|
    ensures PartsFrom(s, i)[0] == PartAt(s, i)
  {
  }

  lemma ExhaustedParts(s: string)
    ensures PartsFrom(s, |s|) == [Part([], [])]
  {
    assert PartAt(s, |s|) == Part([], []);
  }

  /** A round that ended before the string did is followed by a round with text in it. */
  lemma TextFirst(s: string, i: nat)
    requires i < |s| && !Digit(s[i])
    ensures |PartsFrom(s, i)[0].text| > 0
  {
  }

  method SameVersionPart(a: string, b: string) returns (same: bool)
    ensures same <==> Parts(a) == Parts(b)
  {
    hide PartsFrom, RunEnd, ZeroEnd;
    var i: nat, j: nat := 0, 0;
    while i < |a| || j < |b|
      invariant i <= |a| && j <= |b|
      invariant Parts(a) == Parts(b) <==> PartsFrom(a, i) == PartsFrom(b, j)
      decreases |a| - i + |b| - j
    {
      ghost var i0, j0 := i, j;
      FirstPart(a, i);
      FirstPart(b, j);
      same, i, j := SkipText(a, b, i, j);
      if !same { return false; }
      i := SkipZeroes(a, i);
      j := SkipZeroes(b, j);
      same, i, j := SkipNumber(a, b, i, j);
      if !same { return false; }
      PartsStep(a, b, i0, j0);
    }
    ExhaustedParts(a);
    ExhaustedParts(b);
    same := true;
  }

  // ---------------------------------------------------------------------------------------------
  // The ordering of the Debian Policy Manual, whose zero is this equality

  /** Tildes sort before the end of a run, letters before every other character. */
  function Weight(c: char): (w: int)
    ensures w != 0
  {
    if c == '~' then -1 else if Letter(c) then c as int else c as int + 256
  }

  lemma WeightInjective(c: char, d: char)
    requires Weight(c) == Weight(d)
    ensures c == d
  {
  }

  function TextOrder(x: string, y: string): int {
    if |x| == 0 && |y| == 0 then 0
    else if |x| == 0 then -Weight(y[0])
    else if |y| == 0 then Weight(x[0])
    else if x[0] != y[0] then Weight(x[0]) - Weight(y[0])
    else TextOrder(x[1..], y[1..])
  }

  lemma {:induction false} TextOrderZero(x: string, y: string)
    ensures TextOrder(x, y) == 0 <==> x == y
  {
    if |x| > 0 && |y| > 0 {
      if x[0] != y[0] {
        if Weight(x[0]) == Weight(y[0]) { WeightInjective(x[0], y[0]); }
      } else {
        TextOrderZero(x[1..], y[1..]);
        assert x == [x[0]] + x[1..] && y == [y[0]] + y[1..];
      }
    }
  }

  /** Compares a run of text, then a number, and starts over until something differs or both end. */
  function PolicyOrder(a: string, i: nat, b: string, j: nat): int
    requires i <= |a| && j <= |b|
    decreases |a| - i + |b| - j
  {
    if i == |a| && j == |b| then 0
    else
      var m, n := RunEnd(a, i, false), RunEnd(b, j, false);
      var m', n' := RunEnd(a, m, true), RunEnd(b, n, true);
      var text, number := TextOrder(a[i..m], b[j..n]), Decimal(a[m..m']) - Decimal(b[n..n']);
      if text != 0 then text else if number != 0 then number else PolicyOrder(a, m', b, n')
  }

  lemma {:induction false} LeadingZeroes(s: string, i: nat, j: nat, e: nat)
    requires i <= j <= e <= |s| && Digits(s[i..e])
    requires forall k :: i <= k < j ==> s[k] == '0'
    ensures Digits(s[j..e]) && Decimal(s[i..e]) == Decimal(s[j..e])
    decreases e
  {
    assert forall k :: j <= k < e ==> s[k] == s[i..e][k - i];
    if j < e {
      assert s[i..e][..e - i - 1] == s[i..e - 1] && s[j..e][..e - j - 1] == s[j..e - 1];
      LeadingZeroes(s, i, j, e - 1);
    } else if i < e {
      assert s[i..e][..e - i - 1] == s[i..e - 1] && s[e - 1..e - 1] == s[e..e];
      LeadingZeroes(s, i, e - 1, e - 1);
    }
  }

  predicate Stripped(x: string) {
    Digits(x) && (|x| > 0 ==> x[0] != '0')
  }

  lemma {:induction false} StrippedPositive(x: string)
    requires Stripped(x) && |x| > 0
    ensures Decimal(x) > 0
  {
    if |x| > 1 { StrippedPositive(x[..|x| - 1]); }
  }

  /** A number has one spelling without leading zeroes. */
  lemma {:induction false} StrippedUnique(x: string, y: string)
    requires Stripped(x) && Stripped(y) && Decimal(x) == Decimal(y)
    ensures x == y
  {
    if |x| == 0 || |y| == 0 {
      if |x| > 0 { StrippedPositive(x); }
      if |y| > 0 { StrippedPositive(y); }
    } else {
      StrippedUnique(x[..|x| - 1], y[..|y| - 1]);
      assert x == x[..|x| - 1] + [x[|x| - 1]] && y == y[..|y| - 1] + [y[|y| - 1]];
    }
  }

  lemma {:induction false} ZeroesWithinRun(s: string, i: nat)
    requires i <= |s|
    ensures RunEnd(s, ZeroEnd(s, i), true) == RunEnd(s, i, true)
    decreases |s| - i
  {
    if i < |s| && s[i] == '0' { ZeroesWithinRun(s, i + 1); }
  }

  lemma NumberOf(s: string, i: nat)
    requires i <= |s|
    ensures var d := RunEnd(s, i, false);
            && RunEnd(s, d, true) == PartEnd(s, i)
            && Digits(s[d..PartEnd(s, i)]) && Stripped(PartAt(s, i).number)
            && Decimal(s[d..PartEnd(s, i)]) == Decimal(PartAt(s, i).number)
  {
    hide Decimal, RunEnd, ZeroEnd;
    var d := RunEnd(s, i, false);
    ZeroesWithinRun(s, d);
    LeadingZeroes(s, d, ZeroEnd(s, d), PartEnd(s, i));
  }

  lemma PartOrder(a: string, i: nat, b: string, j: nat)
    requires i <= |a| && j <= |b|
    ensures var m, n := RunEnd(a, i, false), RunEnd(b, j, false);
            && Digits(a[m..PartEnd(a, i)]) && Digits(b[n..PartEnd(b, j)])
            && (PartAt(a, i) == PartAt(b, j) <==>
                TextOrder(a[i..m], b[j..n]) == 0 && Decimal(a[m..PartEnd(a, i)]) == Decimal(b[n..PartEnd(b, j)]))
  {
    hide Decimal, RunEnd, ZeroEnd, TextOrder, PartEnd;
    var m, n := RunEnd(a, i, false), RunEnd(b, j, false);
    TextOrderZero(a[i..m], b[j..n]);
    NumberOf(a, i);
    NumberOf(b, j);
    if Decimal(a[m..PartEnd(a, i)]) == Decimal(b[n..PartEnd(b, j)]) {
      StrippedUnique(PartAt(a, i).number, PartAt(b, j).number);
    }
  }

  /** The rounds agree exactly when the ordering finds no difference. */
  lemma {:induction false} PolicyZero(a: string, i: nat, b: string, j: nat)
    requires i <= |a| && j <= |b|
    ensures PolicyOrder(a, i, b, j) == 0 <==> PartsFrom(a, i) == PartsFrom(b, j)
    decreases |a| - i + |b| - j
  {
    hide Decimal, RunEnd, ZeroEnd, TextOrder, PartsFrom, PartAt;
    if i == |a| && j == |b| {
      ExhaustedParts(a);
      ExhaustedParts(b);
    } else {
      NumberOf(a, i);
      NumberOf(b, j);
      PartOrder(a, i, b, j);
      if PartAt(a, i) == PartAt(b, j) {
        PartsStep(a, b, i, j);
        PolicyZero(a, PartEnd(a, i), b, PartEnd(b, j));
      } else {
        FirstPart(a, i);
        FirstPart(b, j);
      }
    }
  }

  // ---------------------------------------------------------------------------------------------
  // Epoch, upstream version and revision

  predicate VersionCharacter(c: char) {
    Letter(c) || Digit(c) || c == '.' || c == '+' || c == ':' || c == '~' || c == '-'
  }

  predicate VersionText(s: string) {
    0 < |s| <= 1024 && forall k :: 0 <= k < |s| ==> VersionCharacter(s[k])
  }

  datatype Split = Split(epoch: nat, upstream: string, revision: string)

  /** The number before the first colon: signed in spelling only, and within a signed 32-bit integer. */
  function EpochOf(s: string): Option<nat> {
    var colon := Find(s, ':');
    if colon == |s| then Some(0)
    else
      var begin := if s[0] == '+' || s[0] == '-' then 1 else 0;
      if colon <= begin || !Digits(s[begin..colon]) then None
      else
        var epoch := Decimal(s[begin..colon]);
        if epoch > INT_MAX || (s[0] == '-' && epoch != 0) then None else Some(epoch)
  }

  function AfterEpoch(s: string): string {
    var colon := Find(s, ':');
    if colon == |s| then s else s[colon + 1..]
  }

  function SplitOf(s: string): Option<Split> {
    var epoch, rest := EpochOf(s), AfterEpoch(s);
    var hyphen := RFind(rest, '-');
    if !VersionText(s) || epoch.None? || hyphen == 0 || hyphen + 1 == |rest| then None
    else Some(Split(epoch.value, rest[..hyphen], if hyphen == |rest| then "" else rest[hyphen + 1..]))
  }

  method ParseEpoch(s: string) returns (r: Option<nat>)
    ensures r == EpochOf(s)
  {
    var colon := Find(s, ':');
    if colon == |s| { return Some(0); }
    if colon == 0 { return None; }
    var begin := if s[0] == '+' || s[0] == '-' then 1 else 0;
    if begin == colon { return None; }
    var epoch := 0;
    ghost var digits := s[begin..colon];
    for i := begin to colon
      invariant Digits(digits[..i - begin]) && epoch == Decimal(digits[..i - begin]) && epoch <= INT_MAX
    {
      assert digits[..i + 1 - begin][..i - begin] == digits[..i - begin] && digits[i - begin] == s[i];
      if !Digit(s[i]) { return None; }
      if epoch > (INT_MAX - DigitValue(s[i])) / 10 {
        if Digits(digits) { DecimalMonotone(digits, i + 1 - begin); }
        return None;
      }
      epoch := epoch * 10 + DigitValue(s[i]);
    }
    assert digits[..colon - begin] == digits;
    if s[0] == '-' && epoch != 0 { return None; }
    r := Some(epoch);
  }

  method SplitVersion(s: string) returns (r: Option<Split>)
    ensures r == SplitOf(s)
  {
    hide EpochOf, VersionText;
    if !VersionText(s) { return None; }
    var epoch := ParseEpoch(s);
    if epoch.None? { return None; }
    var upstream, revision := AfterEpoch(s), "";
    var hyphen := RFind(upstream, '-');
    if hyphen < |upstream| {
      revision := upstream[hyphen + 1..];
      if |revision| == 0 { return None; }
      upstream := upstream[..hyphen];
    } else {
      assert upstream[..hyphen] == upstream;
    }
    if |upstream| == 0 { return None; }
    r := Some(Split(epoch.value, upstream, revision));
  }

  /** The pieces of a version, joined again, are the version. */
  lemma SplitRebuilds(s: string)
    requires SplitOf(s).Some?
    ensures var v := SplitOf(s).value;
            && |v.upstream| > 0 && v.epoch <= INT_MAX && '-' !in v.revision
            && AfterEpoch(s) == v.upstream + (if |v.revision| == 0 then "" else "-" + v.revision)
            && (Find(s, ':') == |s| ==> v.epoch == 0)
  {
    hide VersionText, Find;
    RFindLast(AfterEpoch(s), '-');
  }

  predicate SameSplit(a: Split, b: Split) {
    a.epoch == b.epoch && Parts(a.upstream) == Parts(b.upstream) && Parts(a.revision) == Parts(b.revision)
  }

  predicate SameVersion(a: string, b: string) {
    if a == b then VersionText(a)
    else
      var x, y := SplitOf(a), SplitOf(b);
      x.Some? && y.Some? && SameSplit(x.value, y.value)
  }

  method SameDpkgVersion(a: string, b: string) returns (same: bool)
    ensures same <==> SameVersion(a, b)
  {
    if a == b { return VersionText(a); }
    var x := SplitVersion(a);
    if x.None? { return false; }
    var y := SplitVersion(b);
    if y.None? { return false; }
    if x.value.epoch != y.value.epoch { return false; }
    same := SameVersionPart(x.value.upstream, y.value.upstream);
    if !same { return false; }
    same := SameVersionPart(x.value.revision, y.value.revision);
  }

  /** On texts that can be versions at all, an equivalence. */
  lemma SameVersionEquivalence(a: string, b: string, c: string)
    ensures SameVersion(a, a) <==> VersionText(a)
    ensures SameVersion(a, b) <==> SameVersion(b, a)
    ensures SameVersion(a, b) ==> VersionText(a) && VersionText(b)
    ensures SameVersion(a, b) && SameVersion(b, c) ==> SameVersion(a, c)
  {
    hide VersionText, Parts, EpochOf, AfterEpoch;
  }

  /** Distinct spellings are the same version exactly when no part of them is ordered apart. */
  lemma SameVersionIsUnordered(a: string, b: string)
    requires SplitOf(a).Some? && SplitOf(b).Some?
    ensures var x, y := SplitOf(a).value, SplitOf(b).value;
            SameVersion(a, b) <==>
            && x.epoch == y.epoch
            && PolicyOrder(x.upstream, 0, y.upstream, 0) == 0
            && PolicyOrder(x.revision, 0, y.revision, 0) == 0
  {
    hide PolicyOrder, PartsFrom, EpochOf, AfterEpoch;
    var x, y := SplitOf(a).value, SplitOf(b).value;
    PolicyZero(x.upstream, 0, y.upstream, 0);
    PolicyZero(x.revision, 0, y.revision, 0);
  }

  lemma ZeroRevision(zeroes: string)
    requires forall k :: 0 <= k < |zeroes| ==> zeroes[k] == '0'
    ensures Parts(zeroes) == [Part([], [])]
  {
    assert RunEnd(zeroes, 0, false) == 0;
    var z := ZeroEnd(zeroes, 0);
    assert z == |zeroes|;
    assert PartAt(zeroes, 0) == Part([], []);
  }

  /** An absent revision and a revision of zeroes are the same. */
  lemma AbsentRevisionIsZero(a: string, b: string)
    requires SplitOf(a).Some? && SplitOf(b).Some?
    requires SplitOf(a).value.epoch == SplitOf(b).value.epoch && SplitOf(a).value.upstream == SplitOf(b).value.upstream
    requires |SplitOf(a).value.revision| == 0
    requires var r := SplitOf(b).value.revision; forall k :: 0 <= k < |r| ==> r[k] == '0'
    ensures SameVersion(a, b)
  {
    hide PartsFrom, EpochOf, AfterEpoch, RFind;
    ZeroRevision(SplitOf(a).value.revision);
    ZeroRevision(SplitOf(b).value.revision);
  }
}
