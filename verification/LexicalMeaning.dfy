/** Names, architectures, versions and operators, spelled out over their alphabets. */
module LexicalMeaning {
  import opened Text
  import opened Characters
  import opened BinaryRelationships

  // ---------------------------------------------------------------------------------------------
  // Names and architectures

  lemma NameMeans(s: string)
    ensures Name(s) <==> 1 <= |s| <= 255 && s[0] in LOWERCASE + DECIMALS && Written(s, LOWERCASE + DECIMALS + "+-.")
  {
    forall k | 0 <= k < |s|
      ensures NameByte(s[k]) <==> s[k] in LOWERCASE + DECIMALS + "+-."
      ensures (Digit(s[k]) || 'a' <= s[k] <= 'z') <==> s[k] in LOWERCASE + DECIMALS
    {
      LowercaseMeans(s[k]);
      DigitMeans(s[k]);
    }
  }

  lemma ArchitectureMeans(s: string)
    ensures Architecture(s) <==>
            1 <= |s| <= 255 && s[0] in LOWERCASE + UPPERCASE + DECIMALS && Written(s, LOWERCASE + UPPERCASE + DECIMALS + "-")
  {
    forall k | 0 <= k < |s|
      ensures ArchitectureByte(s[k]) <==> s[k] in LOWERCASE + UPPERCASE + DECIMALS + "-"
      ensures (Letter(s[k]) || Digit(s[k])) <==> s[k] in LOWERCASE + UPPERCASE + DECIMALS
    {
      LetterMeans(s[k]);
      DigitMeans(s[k]);
    }
  }

  /** Wildcards start or end with `any`, set off by a hyphen; none of them is a machine's own name. */
  lemma ConcreteMeans(s: string)
    ensures ConcreteArchitecture(s) <==>
            && Architecture(s) && s != "any" && s != "native"
            && !(|s| >= 4 && s[..4] == "any-") && !(|s| >= 4 && s[|s| - 4..] == "-any")
  {
    hide Architecture;
    assert IsAny(s) <==> s == "any";
    assert IsNative(s) <==> s == "native";
    if |s| >= 4 {
      var head, tail := s[..4], s[|s| - 4..];
      assert head == [s[0], s[1], s[2], s[3]] && tail == [s[|s| - 4], s[|s| - 3], s[|s| - 2], s[|s| - 1]];
    }
  }

  lemma MultiArchMeans(text: string, architecture: string)
    ensures MultiArchOf(text, architecture) ==
            if text in {"", "no"} then Some(No)
            else if text == "same" then (if architecture == "all" then None else Some(Same))
            else if text == "foreign" then Some(Foreign)
            else if text == "allowed" then Some(Allowed)
            else None
  {
  }

  // ---------------------------------------------------------------------------------------------
  // Versions

  lemma VersionByteMeans(c: char)
    ensures VersionByte(c) <==> c in LOWERCASE + UPPERCASE + DECIMALS + ".+~"
  {
    LetterMeans(c);
    DigitMeans(c);
  }

  ghost predicate UpstreamByte(c: char) {
    c in LOWERCASE + UPPERCASE + DECIMALS + ".+~-:"
  }

  ghost predicate RevisionByte(c: char) {
    c in LOWERCASE + UPPERCASE + DECIMALS + ".+~"
  }

  lemma BytesMean(c: char)
    ensures UpstreamByte(c) <==> VersionByte(c) || c == '-' || c == ':'
    ensures RevisionByte(c) <==> VersionByte(c)
    ensures VersionByte(c) ==> c != '-' && c != ':'
  {
    LetterMeans(c);
    DigitMeans(c);
  }

  /** A version in its parts. */
  datatype Parts = Parts(epoch: Option<string>, upstream: string, revision: Option<string>)

  ghost function Spell(v: Parts): string {
    (if v.epoch.Some? then v.epoch.value + ":" else "") + v.upstream + (if v.revision.Some? then "-" + v.revision.value else "")
  }

  /**
   * Section 5.6.12 of the Debian Policy Manual: an upstream version may contain hyphens when a
   * revision follows, and colons when an epoch precedes; a revision contains neither.
   */
  ghost predicate WellFormed(v: Parts) {
    && (v.epoch.Some? ==> v.epoch.value != "" && Digits(v.epoch.value) && Decimal(v.epoch.value) <= 2147483647)
    && v.upstream != "" && v.upstream[0] in DECIMALS && (forall k :: 0 <= k < |v.upstream| ==> UpstreamByte(v.upstream[k]))
    && (v.epoch.None? ==> ':' !in v.upstream) && (v.revision.None? ==> '-' !in v.upstream)
    && (v.revision.Some? ==> v.revision.value != "" && forall k :: 0 <= k < |v.revision.value| ==> RevisionByte(v.revision.value[k]))
  }

  lemma FindAt(s: string, c: char, i: nat)
    requires i < |s| && s[i] == c && forall k :: 0 <= k < i ==> s[k] != c
    ensures Find(s, c) == i
  {
    FindFirst(s, c);
  }

  lemma FindNone(s: string, c: char)
    requires forall k :: 0 <= k < |s| ==> s[k] != c
    ensures Find(s, c) == |s|
  {
    FindFirst(s, c);
  }

  lemma RFindAt(s: string, c: char, i: nat)
    requires i < |s| && s[i] == c && forall k :: i < k < |s| ==> s[k] != c
    ensures RFind(s, c) == i
  {
    RFindLast(s, c);
  }

  lemma RFindNone(s: string, c: char)
    requires forall k :: 0 <= k < |s| ==> s[k] != c
    ensures RFind(s, c) == |s|
  {
    RFindLast(s, c);
  }

  ghost function PartsOf(s: string): Parts {
    var colon, begin, hyphen := Find(s, ':'), UpstreamBegin(s), RFind(s, '-');
    Parts(if colon < |s| then Some(s[..colon]) else None,
          if begin <= hyphen <= |s| then s[begin..hyphen] else "",
          if hyphen < |s| then Some(s[hyphen + 1..]) else None)
  }

  lemma PartsSpell(s: string)
    requires Version(s)
    ensures WellFormed(PartsOf(s)) && Spell(PartsOf(s)) == s
  {
    hide Find, RFind, VersionByte, UpstreamByte, RevisionByte, Decimal;
    FindFirst(s, ':');
    RFindLast(s, '-');
    PartsWellFormed(s);
    Rejoined(s, Find(s, ':'), UpstreamBegin(s), RFind(s, '-'));
  }

  lemma PartsWellFormed(s: string)
    requires Version(s)
    ensures WellFormed(PartsOf(s))
  {
    hide Find, RFind, VersionByte, UpstreamByte, RevisionByte, Decimal;
    FindFirst(s, ':');
    RFindLast(s, '-');
    var v, begin, hyphen := PartsOf(s), UpstreamBegin(s), RFind(s, '-');
    DigitMeans(s[begin]);
    forall k | 0 <= k < |v.upstream|
      ensures UpstreamByte(v.upstream[k])
      ensures v.epoch.None? ==> v.upstream[k] != ':'
      ensures v.revision.None? ==> v.upstream[k] != '-'
    {
      assert v.upstream[k] == s[begin + k];
      BytesMean(s[begin + k]);
    }
    if v.revision.Some? {
      forall k | 0 <= k < |v.revision.value|
        ensures RevisionByte(v.revision.value[k])
      {
        assert v.revision.value[k] == s[hyphen + 1 + k];
        BytesMean(s[hyphen + 1 + k]);
      }
    }
  }

  lemma Rejoined(s: string, colon: nat, begin: nat, hyphen: nat)
    requires colon <= |s| && begin == (if colon == |s| then 0 else colon + 1) && begin <= hyphen <= |s|
    requires (colon < |s| ==> s[colon] == ':') && (hyphen < |s| ==> s[hyphen] == '-')
    ensures (if colon < |s| then s[..colon] + ":" else "") + s[begin..hyphen] + (if hyphen < |s| then "-" + s[hyphen + 1..] else "") == s
  {
    HeadIs(s, colon, begin);
    TailIs(s, hyphen);
    Cuts(s, begin, hyphen, if colon < |s| then s[..colon] + ":" else "", if hyphen < |s| then "-" + s[hyphen + 1..] else "");
  }

  lemma Cuts(s: string, i: nat, j: nat, head: string, tail: string)
    requires i <= j <= |s| && head == s[..i] && tail == s[j..]
    ensures head + s[i..j] + tail == s
  {
    assert s[..i] + s[i..j] == s[..j];
    assert s[..j] + s[j..] == s;
  }

  lemma HeadIs(s: string, colon: nat, begin: nat)
    requires colon <= |s| && begin == (if colon == |s| then 0 else colon + 1) && (colon < |s| ==> s[colon] == ':')
    ensures (if colon < |s| then s[..colon] + ":" else "") == s[..begin]
  {
  }

  lemma TailIs(s: string, hyphen: nat)
    requires hyphen <= |s| && (hyphen < |s| ==> s[hyphen] == '-')
    ensures (if hyphen < |s| then "-" + s[hyphen + 1..] else "") == s[hyphen..]
  {
  }

  lemma SpelledParts(v: Parts)
    requires WellFormed(v) && |Spell(v)| <= 1024
    ensures Version(Spell(v))
  {
    hide Find, RFind, VersionByte, UpstreamByte, RevisionByte, Decimal, Spell;
    var s := Spell(v);
    var e := if v.epoch.Some? then |v.epoch.value| else 0;
    var begin := if v.epoch.Some? then e + 1 else 0;
    var hyphen := begin + |v.upstream|;
    SpelledPlaces(v);
    SpelledColon(v);
    SpelledHyphen(v);
    if v.epoch.Some? { assert s[..e] == v.epoch.value; }
    DigitMeans(s[begin]);
    forall k | begin <= k < |s|
      ensures VersionByte(s[k]) || (k <= hyphen && (s[k] == '-' || s[k] == ':'))
    {
      BytesMean(s[k]);
      if k < hyphen { assert s[k] == v.upstream[k - begin]; }
      if k > hyphen { assert s[k] == v.revision.value[k - hyphen - 1]; }
    }
  }

  lemma SpelledColon(v: Parts)
    requires WellFormed(v)
    ensures Find(Spell(v), ':') == if v.epoch.Some? then |v.epoch.value| else |Spell(v)|
  {
    hide Find, VersionByte, UpstreamByte, RevisionByte, Decimal, Spell;
    var s := Spell(v);
    var hyphen := |v.upstream|;
    SpelledPlaces(v);
    if v.epoch.Some? {
      FindAt(s, ':', |v.epoch.value|);
    } else {
      forall k | 0 <= k < |s|
        ensures s[k] != ':'
      {
        if k < hyphen { assert s[k] == v.upstream[k]; }
        if k > hyphen {
          assert s[k] == v.revision.value[k - hyphen - 1];
          BytesMean(s[k]);
        }
      }
      FindNone(s, ':');
    }
  }

  lemma SpelledHyphen(v: Parts)
    requires WellFormed(v)
    ensures RFind(Spell(v), '-') ==
            if v.revision.Some? then (if v.epoch.Some? then |v.epoch.value| + 1 else 0) + |v.upstream| else |Spell(v)|
  {
    hide RFind, VersionByte, UpstreamByte, RevisionByte, Decimal, Spell;
    var s := Spell(v);
    var begin := if v.epoch.Some? then |v.epoch.value| + 1 else 0;
    var hyphen := begin + |v.upstream|;
    SpelledPlaces(v);
    if v.revision.Some? {
      forall k | hyphen < k < |s|
        ensures s[k] != '-'
      {
        assert s[k] == v.revision.value[k - hyphen - 1];
        BytesMean(s[k]);
      }
      RFindAt(s, '-', hyphen);
    } else {
      forall k | 0 <= k < |s|
        ensures s[k] != '-'
      {
        if k >= begin { assert s[k] == v.upstream[k - begin]; }
      }
      RFindNone(s, '-');
    }
  }

  lemma SpelledPlaces(v: Parts)
    ensures var s := Spell(v);
            var begin := if v.epoch.Some? then |v.epoch.value| + 1 else 0;
            var hyphen := begin + |v.upstream|;
            && |s| == hyphen + (if v.revision.Some? then |v.revision.value| + 1 else 0)
            && (v.epoch.Some? ==> s[begin - 1] == ':' && forall k :: 0 <= k < begin - 1 ==> s[k] == v.epoch.value[k])
            && (forall k :: begin <= k < hyphen ==> s[k] == v.upstream[k - begin])
            && (v.revision.Some? ==> s[hyphen] == '-' && forall k :: hyphen < k < |s| ==> s[k] == v.revision.value[k - hyphen - 1])
  {
  }

  /** Versions are exactly the spellings of well-formed parts within 1024 bytes. */
  lemma VersionMeans(s: string)
    ensures Version(s) <==> |s| <= 1024 && exists v :: WellFormed(v) && Spell(v) == s
  {
    hide WellFormed, Spell, PartsOf;
    if Version(s) { PartsSpell(s); }
    if |s| <= 1024 {
      if v :| WellFormed(v) && Spell(v) == s { SpelledParts(v); }
    }
  }
}
