/** How a version falls into epoch, upstream version and revision, as a spelling of the three. */
module VersionMeaning {
  import opened Text
  import opened Characters
  import opened DpkgVersion
  import StateMeaning

  ghost function Tail(upstream: string, revision: string): string {
    upstream + (if revision == "" then "" else "-" + revision)
  }

  /** The last hyphen separates the revision, when there is one; neither side is empty. */
  ghost predicate TailParts(rest: string, upstream: string, revision: string) {
    && rest == Tail(upstream, revision) && upstream != "" && '-' !in revision && (revision == "" ==> '-' !in upstream)
  }

  /** An optional sign, digits and a colon; a negative epoch can only be zero. */
  ghost predicate Epoch(s: string, sign: string, digits: string, epoch: nat, rest: string) {
    && s == sign + digits + ":" + rest && (sign == "" || sign == "+" || sign == "-")
    && digits != "" && Written(digits, DECIMALS) && Digits(digits) && Decimal(digits) == epoch <= 2147483647
    && (sign == "-" ==> epoch == 0)
  }

  ghost predicate Spells(s: string, epoch: nat, rest: string) {
    || (':' !in s && epoch == 0 && rest == s)
    || exists sign, digits :: Epoch(s, sign, digits, epoch, rest)
  }

  lemma DigitsWritten(s: string)
    ensures Digits(s) <==> Written(s, DECIMALS)
  {
    forall k | 0 <= k < |s|
      ensures Digit(s[k]) <==> s[k] in DECIMALS
    {
      DigitMeans(s[k]);
    }
  }

  lemma LastAt(rest: string, i: nat)
    requires i < |rest| && rest[i] == '-' && '-' !in rest[i + 1..]
    ensures RFind(rest, '-') == i
  {
    hide RFind;
    RFindLast(rest, '-');
    var hyphen := RFind(rest, '-');
    assert forall k :: i < k < |rest| ==> rest[k] == rest[i + 1..][k - i - 1];
  }

  /** Where the last hyphen of the joined parts is. */
  lemma HyphenAt(upstream: string, revision: string)
    requires '-' !in revision
    ensures RFind(upstream + "-" + revision, '-') == |upstream|
  {
    hide RFind;
    var rest := upstream + "-" + revision;
    Joined(upstream, revision);
    assert rest[|upstream|] == '-';
    LastAt(rest, |upstream|);
  }

  lemma NoHyphen(rest: string)
    ensures RFind(rest, '-') == |rest| <==> '-' !in rest
  {
    RFindLast(rest, '-');
  }

  lemma Cut(rest: string, hyphen: nat)
    requires hyphen < |rest| && rest[hyphen] == '-'
    ensures rest == rest[..hyphen] + "-" + rest[hyphen + 1..]
  {
  }

  lemma Joined(upstream: string, revision: string)
    ensures var rest := upstream + "-" + revision; rest[..|upstream|] == upstream && rest[|upstream| + 1..] == revision
  {
  }

  ghost predicate Halves(rest: string, upstream: string, revision: string) {
    var hyphen := RFind(rest, '-');
    && hyphen != 0 && hyphen + 1 != |rest| && rest != ""
    && upstream == rest[..hyphen] && revision == (if hyphen == |rest| then "" else rest[hyphen + 1..])
  }

  lemma TailFound(rest: string, upstream: string, revision: string)
    requires TailParts(rest, upstream, revision)
    ensures Halves(rest, upstream, revision)
  {
    hide RFind;
    if revision == "" {
      NoHyphen(rest);
      assert rest == upstream && rest[..|rest|] == rest;
    } else {
      HyphenAt(upstream, revision);
      Joined(upstream, revision);
      assert rest == upstream + "-" + revision;
    }
  }

  lemma TailRead(rest: string, upstream: string, revision: string)
    requires Halves(rest, upstream, revision)
    ensures TailParts(rest, upstream, revision)
  {
    hide RFind;
    RFindLast(rest, '-');
    NoHyphen(rest);
    var hyphen := RFind(rest, '-');
    if hyphen == |rest| {
      assert rest[..hyphen] == rest;
    } else {
      Cut(rest, hyphen);
    }
  }

  lemma TailMeans(rest: string, upstream: string, revision: string)
    ensures TailParts(rest, upstream, revision) <==> Halves(rest, upstream, revision)
  {
    if TailParts(rest, upstream, revision) { TailFound(rest, upstream, revision); }
    if Halves(rest, upstream, revision) { TailRead(rest, upstream, revision); }
  }

  lemma EpochMeans(s: string, epoch: nat, rest: string)
    ensures EpochOf(s) == Some(epoch) && AfterEpoch(s) == rest <==> Spells(s, epoch, rest)
  {
    hide Find, Decimal, Digits, Written, Epoch;
    FindFirst(s, ':');
    if EpochOf(s) == Some(epoch) && AfterEpoch(s) == rest && Find(s, ':') < |s| { EpochRead(s, epoch, rest); }
    if sign, digits :| Epoch(s, sign, digits, epoch, rest) { EpochFound(s, sign, digits, epoch, rest); }
  }

  lemma Pieces(s: string, begin: nat, colon: nat)
    requires begin <= colon < |s| && s[colon] == ':'
    ensures s == s[..begin] + s[begin..colon] + ":" + s[colon + 1..]
  {
    assert s == s[..colon] + s[colon..] && s[colon..] == ":" + s[colon + 1..];
    assert s[..colon] == s[..begin] + s[begin..colon];
  }

  lemma SignIs(s: string, begin: nat)
    requires |s| > 0 && begin == if s[0] == '+' || s[0] == '-' then 1 else 0
    ensures var sign := s[..begin];
            (sign == "" || sign == "+" || sign == "-") && (sign == "-" <==> s[0] == '-')
  {
    if begin == 1 { assert s[..1] == [s[0]]; }
  }

  lemma EpochRead(s: string, epoch: nat, rest: string)
    requires EpochOf(s) == Some(epoch) && AfterEpoch(s) == rest && Find(s, ':') < |s|
    ensures exists sign, digits :: Epoch(s, sign, digits, epoch, rest)
  {
    hide Find, Decimal, Digits, Written;
    FindFirst(s, ':');
    var colon := Find(s, ':');
    var begin := if s[0] == '+' || s[0] == '-' then 1 else 0;
    var sign, digits := s[..begin], s[begin..colon];
    Pieces(s, begin, colon);
    DigitsWritten(digits);
    SignIs(s, begin);
    assert Epoch(s, sign, digits, epoch, rest);
  }

  lemma ColonAt(front: string, rest: string)
    requires ':' !in front
    ensures Find(front + ":" + rest, ':') == |front|
  {
    var s := front + ":" + rest;
    FindFirst(s, ':');
    assert s[|front|] == ':';
    assert forall k :: 0 <= k < |front| ==> s[k] == front[k];
  }

  lemma PartsOfFront(sign: string, digits: string, rest: string)
    ensures var s, colon := sign + digits + ":" + rest, |sign| + |digits|;
            s[|sign|..colon] == digits && s[colon + 1..] == rest && (digits != "" ==> s[0] == if sign == "" then digits[0] else sign[0])
  {
  }

  lemma NoColon(sign: string, digits: string)
    requires (sign == "" || sign == "+" || sign == "-") && Digits(digits)
    ensures ':' !in sign + digits
  {
  }

  lemma EpochFound(s: string, sign: string, digits: string, epoch: nat, rest: string)
    requires Epoch(s, sign, digits, epoch, rest)
    ensures EpochOf(s) == Some(epoch) && AfterEpoch(s) == rest
  {
    hide Find, Decimal, Written;
    NoColon(sign, digits);
    ColonAt(sign + digits, rest);
    PartsOfFront(sign, digits, rest);
    assert Digit(digits[0]);
  }

  /** Splitting gives exactly the parts the version is spelled with. */
  lemma SplitMeans(s: string, epoch: nat, upstream: string, revision: string)
    ensures SplitOf(s) == Some(Split(epoch, upstream, revision)) <==>
            && 1 <= |s| <= 1024 && Written(s, LOWERCASE + UPPERCASE + DECIMALS + ".+:~-")
            && exists rest :: Spells(s, epoch, rest) && TailParts(rest, upstream, revision)
  {
    hide VersionText, EpochOf, AfterEpoch, Spells, TailParts, RFind, Written;
    StateMeaning.VersionTextMeans(s);
    var rest := AfterEpoch(s);
    forall e: nat, t
      ensures EpochOf(s) == Some(e) && AfterEpoch(s) == t <==> Spells(s, e, t)
    {
      EpochMeans(s, e, t);
    }
    TailMeans(rest, upstream, revision);
  }
}
