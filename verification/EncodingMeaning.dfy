/**
 * The bytes of effect settings, records and preimages written out: every tag, every name and the
 * place of every field, with the limits as numbers.
 */
module EncodingMeaning {
  import opened Text
  import opened Characters
  import opened ByteOrder
  import opened Reviews
  import opened Netstrings
  import opened EffectSettings
  import opened EffectRecords
  import AdmissionMeaning

  // ---------------------------------------------------------------------------------------------
  // Frames

  /** A number in decimal, without leading zeros. */
  ghost function Numeral(n: nat): string {
    if n < 10 then [DECIMALS[n]] else Numeral(n / 10) + [DECIMALS[n % 10]]
  }

  /** A length, a colon, the text and a comma, for each text in turn. */
  ghost function Framed(fs: seq<string>): string {
    if |fs| == 0 then "" else Numeral(|fs[0]|) + ":" + fs[0] + "," + Framed(fs[1..])
  }

  ghost function Truth(b: bool): string {
    if b then "1" else "0"
  }

  lemma {:induction false} NumeralMeans(n: nat)
    ensures Printed(n) == Numeral(n)
  {
    DecimalDigit(n % 10);
    if n >= 10 { NumeralMeans(n / 10); }
  }

  lemma DecimalDigit(n: nat)
    requires n < 10
    ensures DigitOf(n) == DECIMALS[n]
  {
  }

  lemma {:induction false} FrameMeans(fs: seq<string>)
    ensures NetAll(fs) == Framed(fs)
  {
    hide Printed, Numeral;
    if |fs| > 0 {
      NumeralMeans(|fs[0]|);
      FrameMeans(fs[1..]);
    }
  }

  lemma TruthMeans(b: bool)
    ensures Flag(b) == Truth(b)
  {
  }

  /** The strings agree before the place, and there the first ends or has the smaller byte. */
  ghost predicate Sooner(a: string, b: string, k: nat) {
    k <= |a| && k < |b| && (forall j :: 0 <= j < k ==> a[j] == b[j]) && (k == |a| || a[k] < b[k])
  }

  lemma {:induction false} PrecedesSooner(a: string, b: string) returns (k: nat)
    requires Precedes(a, b)
    ensures Sooner(a, b, k)
  {
    k := 0;
    if |a| > 0 && a[0] == b[0] {
      var n := PrecedesSooner(a[1..], b[1..]);
      k := n + 1;
      forall j | 0 <= j < k
        ensures a[j] == b[j]
      {
        if j > 0 { assert a[1..][j - 1] == b[1..][j - 1]; }
      }
    }
  }

  lemma {:induction false} SoonerPrecedes(a: string, b: string, k: nat)
    requires Sooner(a, b, k)
    ensures Precedes(a, b)
  {
    if k > 0 {
      assert a[0] == b[0];
      SoonerPrecedes(a[1..], b[1..], k - 1);
    }
  }

  /** The first place where two byte strings differ decides, and a beginning comes before the whole. */
  lemma OrderMeans(a: string, b: string)
    ensures Precedes(a, b) <==> exists k: nat :: Sooner(a, b, k)
  {
    hide Precedes, Sooner;
    if Precedes(a, b) {
      var k := PrecedesSooner(a, b);
    }
    if k: nat :| Sooner(a, b, k) { SoonerPrecedes(a, b, k); }
  }

  // ---------------------------------------------------------------------------------------------
  // Settings

  ghost predicate Free(s: string, empty: bool) {
    (empty || s != "") && |s| <= 65536 && forall k :: 0 <= k < |s| ==> s[k] as int != 0
  }

  ghost predicate AllFree(xs: seq<string>, empty: bool) {
    |xs| <= 256 && forall x :: x in xs ==> Free(x, empty)
  }

  ghost predicate PairsFree(xs: seq<Tagged>) {
    |xs| <= 256 && forall x :: x in xs ==> (x.tag == 0 || x.tag == 1) && Free(x.text, true)
  }

  ghost predicate Allowed(s: Settings) {
    && s.triggers <= 2 && s.abortAfter <= 2147483647 && s.debugMask <= 2147483647
    && (s.logFile != "" ==> s.logFilePresent) && Free(s.logFile, true)
    && |s.forces| <= 28 && (forall n :: n in s.forces ==> n < 28) && (forall j, k :: 0 <= j < k < |s.forces| ==> s.forces[j] < s.forces[k])
    && AllFree(s.ignoreDepends, false) && PairsFree(s.hooks) && AllFree(s.statusLoggers, true) && PairsFree(s.filters)
    && |s.statusDescriptors| <= 256 && (forall n :: n in s.statusDescriptors ==> n <= 2147483647)
    && AllFree(s.unmodeledOptions, false)
  }

  lemma FreeMeans(s: string, empty: bool)
    ensures TextValid(s, empty) <==> Free(s, empty)
  {
  }

  lemma AllFreeMeans(xs: seq<string>, empty: bool)
    ensures TextsValid(xs, empty) <==> AllFree(xs, empty)
  {
    hide TextValid, Free;
    forall x
      ensures TextValid(x, empty) <==> Free(x, empty)
    {
      FreeMeans(x, empty);
    }
    if AllFree(xs, empty) {
      forall k | 0 <= k < |xs|
        ensures TextValid(xs[k], empty)
      {
        assert xs[k] in xs;
      }
    }
  }

  lemma PairsMean(xs: seq<Tagged>)
    ensures TaggedValid(xs) <==> PairsFree(xs)
  {
    hide TextValid, Free;
    forall x
      ensures TextValid(x, true) <==> Free(x, true)
    {
      FreeMeans(x, true);
    }
    if PairsFree(xs) {
      forall k | 0 <= k < |xs|
        ensures xs[k].tag < 2 && TextValid(xs[k].text, true)
      {
        assert xs[k] in xs;
      }
    }
  }

  lemma {:induction false} ForcesAscend(xs: seq<nat>, j: nat, k: nat)
    requires ForcesValid(xs) && j < k < |xs|
    ensures xs[j] < xs[k]
  {
    if j < k - 1 { ForcesAscend(xs, j, k - 1); }
  }

  lemma ForcesMean(xs: seq<nat>)
    ensures ForcesValid(xs) <==>
            |xs| <= 28 && (forall n :: n in xs ==> n < 28) && forall j, k :: 0 <= j < k < |xs| ==> xs[j] < xs[k]
  {
    if ForcesValid(xs) {
      forall j, k | 0 <= j < k < |xs|
        ensures xs[j] < xs[k]
      {
        ForcesAscend(xs, j, k);
      }
    }
    if forall n :: n in xs ==> n < 28 {
      forall k | 0 <= k < |xs|
        ensures xs[k] < 28
      {
        assert xs[k] in xs;
      }
    }
  }

  lemma NumbersMean(xs: seq<nat>)
    ensures NumbersValid(xs) <==> |xs| <= 256 && forall n :: n in xs ==> n <= 2147483647
  {
    if forall n :: n in xs ==> n <= 2147483647 {
      forall k | 0 <= k < |xs|
        ensures xs[k] <= 2147483647
      {
        assert xs[k] in xs;
      }
    }
  }

  lemma AllowedMeans(s: Settings)
    ensures SettingsValid(s) <==> Allowed(s)
  {
    hide TextValid, Free, ForcesValid, TextsValid, AllFree, TaggedValid, PairsFree, NumbersValid;
    FreeMeans(s.logFile, true);
    ForcesMean(s.forces);
    AllFreeMeans(s.ignoreDepends, false);
    PairsMean(s.hooks);
    AllFreeMeans(s.statusLoggers, true);
    PairsMean(s.filters);
    NumbersMean(s.statusDescriptors);
    AllFreeMeans(s.unmodeledOptions, false);
  }

  /** The option dpkg knows a force by. */
  ghost function ForceName(n: nat): string {
    match n
    case 0 => "architecture"
    case 1 => "bad-path"
    case 2 => "bad-verify"
    case 3 => "bad-version"
    case 4 => "breaks"
    case 5 => "confask"
    case 6 => "confdef"
    case 7 => "confmiss"
    case 8 => "confnew"
    case 9 => "confold"
    case 10 => "configure-any"
    case 11 => "conflicts"
    case 12 => "depends"
    case 13 => "depends-version"
    case 14 => "downgrade"
    case 15 => "hold"
    case 16 => "not-root"
    case 17 => "overwrite"
    case 18 => "overwrite-dir"
    case 19 => "overwrite-diverted"
    case 20 => "remove-essential"
    case 21 => "remove-reinstreq"
    case 22 => "script-chrootless"
    case 23 => "unsafe-io"
    case 24 => "statoverride-add"
    case 25 => "statoverride-remove"
    case 26 => "security-mac"
    case 27 => "remove-protected"
    case _ => ""
  }

  lemma ForceNameMeans(n: nat)
    requires n < 28
    ensures FORCES[n] == ForceName(n)
  {
  }

  ghost function NamesOf(xs: seq<nat>): seq<string> {
    seq(|xs|, k requires 0 <= k < |xs| => ForceName(xs[k]))
  }

  ghost function PairsOf(xs: seq<Tagged>): seq<string> {
    seq(|xs|, k requires 0 <= k < |xs| => Framed([Numeral(xs[k].tag), xs[k].text]))
  }

  ghost function NumeralsOf(xs: seq<nat>): seq<string> {
    seq(|xs|, k requires 0 <= k < |xs| => Numeral(xs[k]))
  }

  /** Nine flags, three numbers, the log file and seven lists. */
  ghost function Fields21(s: Settings): seq<string> {
    [Truth(s.autoDeconfigure), Truth(s.noAct), Truth(s.recursive), Truth(s.selectedOnly), Truth(s.skipSameVersion),
     Truth(s.pending), Truth(s.noDebsig), Truth(s.robot), Truth(s.noPager),
     Numeral(s.triggers), Numeral(s.abortAfter), Numeral(s.debugMask), Truth(s.logFilePresent), s.logFile]
    + [Framed(NamesOf(s.forces)), Framed(s.ignoreDepends), Framed(PairsOf(s.hooks)), Framed(s.statusLoggers),
       Framed(PairsOf(s.filters)), Framed(NumeralsOf(s.statusDescriptors)), Framed(s.unmodeledOptions)]
  }

  lemma NamesMean(xs: seq<nat>)
    requires ForcesValid(xs)
    ensures ForceNames(xs) == NamesOf(xs)
  {
    hide ForceName;
    forall k | 0 <= k < |xs|
      ensures FORCES[xs[k]] == ForceName(xs[k])
    {
      ForceNameMeans(xs[k]);
    }
  }

  lemma PairsOfMeans(xs: seq<Tagged>)
    ensures TaggedTexts(xs) == PairsOf(xs)
  {
    hide NetAll, Framed, Printed, Numeral;
    forall k | 0 <= k < |xs|
      ensures NetAll(TaggedFields(xs[k])) == Framed([Numeral(xs[k].tag), xs[k].text])
    {
      NumeralMeans(xs[k].tag);
      FrameMeans(TaggedFields(xs[k]));
    }
  }

  lemma NumeralsOfMeans(xs: seq<nat>)
    ensures NumberTexts(xs) == NumeralsOf(xs)
  {
    hide Printed, Numeral;
    forall k | 0 <= k < |xs|
      ensures Printed(xs[k]) == Numeral(xs[k])
    {
      NumeralMeans(xs[k]);
    }
  }

  lemma ScalarsMean(s: Settings)
    ensures Scalars(s) ==
            [Truth(s.autoDeconfigure), Truth(s.noAct), Truth(s.recursive), Truth(s.selectedOnly), Truth(s.skipSameVersion),
             Truth(s.pending), Truth(s.noDebsig), Truth(s.robot), Truth(s.noPager),
             Numeral(s.triggers), Numeral(s.abortAfter), Numeral(s.debugMask), Truth(s.logFilePresent), s.logFile]
  {
    hide Flag, Truth, Printed, Numeral;
    forall b
      ensures Flag(b) == Truth(b)
    {
      TruthMeans(b);
    }
    NumeralMeans(s.triggers);
    NumeralMeans(s.abortAfter);
    NumeralMeans(s.debugMask);
  }

  lemma ListsMean(s: Settings)
    requires ForcesValid(s.forces)
    ensures Lists(s) ==
            [Framed(NamesOf(s.forces)), Framed(s.ignoreDepends), Framed(PairsOf(s.hooks)), Framed(s.statusLoggers),
             Framed(PairsOf(s.filters)), Framed(NumeralsOf(s.statusDescriptors)), Framed(s.unmodeledOptions)]
  {
    hide NetAll, Framed, ForceNames, NamesOf, TaggedTexts, PairsOf, NumberTexts, NumeralsOf, ForcesValid;
    NamesMean(s.forces);
    PairsOfMeans(s.hooks);
    PairsOfMeans(s.filters);
    NumeralsOfMeans(s.statusDescriptors);
    forall fs
      ensures NetAll(fs) == Framed(fs)
    {
      FrameMeans(fs);
    }
  }

  /** Settings are encoded when allowed, as their twenty-one fields in at most 65536 bytes. */
  lemma SettingsMean(s: Settings)
    ensures Encoded(s) == if Allowed(s) && |Framed(Fields21(s))| <= 65536 then Some(Framed(Fields21(s))) else None
  {
    hide NetAll, Framed, Scalars, Lists, SettingsValid, Allowed;
    AllowedMeans(s);
    if Allowed(s) {
      ValidForces(s);
      ScalarsMean(s);
      ListsMean(s);
      FrameMeans(Fields21(s));
    }
  }

  // ---------------------------------------------------------------------------------------------
  // Records

  ghost predicate Visible(s: string) {
    1 <= |s| <= 128 && forall k :: 0 <= k < |s| ==> 33 <= s[k] as int <= 126
  }

  /** All flags off, all numbers zero, no texts. */
  ghost predicate Inert(s: Settings) {
    && !s.autoDeconfigure && !s.noAct && !s.recursive && !s.selectedOnly && !s.skipSameVersion && !s.pending && !s.noDebsig
    && !s.robot && !s.noPager && s.triggers == 0 && s.abortAfter == 0 && s.debugMask == 0 && !s.logFilePresent && s.logFile == ""
    && s.forces == [] && s.ignoreDepends == [] && s.hooks == [] && s.statusLoggers == [] && s.filters == []
    && s.statusDescriptors == [] && s.unmodeledOptions == []
  }

  ghost predicate Known(profile: string) {
    profile == "dpkg-1.23.7-effects-1"
  }

  /** The settings of a known profile are encoded; those of any other are kept as they came. */
  ghost function Kept(r: Record): string {
    if Known(r.semanticProfile) then Framed(Fields21(r.settings)) else r.unsupportedSettings
  }

  ghost predicate Recordable(r: Record) {
    && Visible(r.semanticProfile) && AbsolutePath(r.executorPath)
    && Hexadecimal(r.executorSHA256) && Hexadecimal(r.inputIdentity)
    && r.role <= 4 && r.optionPrefix != [] && AllFree(r.optionPrefix, true)
    && (if Known(r.semanticProfile) then
          r.unsupportedSettings == "" && Allowed(r.settings) && |Framed(Fields21(r.settings))| <= 65536
        else Inert(r.settings) && 1 <= |r.unsupportedSettings| <= 65536)
  }

  ghost function Fields9(r: Record): seq<string> {
    ["CYDIA-NATIVE-EFFECT-POLICY-1", r.semanticProfile, r.executorPath, r.executorSHA256, r.inputIdentity, Numeral(r.role),
     Framed(r.optionPrefix), Kept(r), "asserted-native-effect-settings"]
  }

  lemma VisibleMeans(s: string)
    ensures Token(s) <==> Visible(s)
  {
    if Token(s) {
      forall k | 0 <= k < |s|
        ensures 33 <= s[k] as int <= 126
      {
        assert ' ' < s[k] < 127 as char;
      }
    }
    if Visible(s) {
      forall k | 0 <= k < |s|
        ensures ' ' < s[k] < 127 as char
      {
        assert 33 <= s[k] as int <= 126;
      }
    }
  }

  lemma InertMeans(s: Settings)
    ensures s == DEFAULTS <==> Inert(s)
  {
  }

  lemma DefaultsShort()
    ensures Encoded(DEFAULTS).Some?
  {
    hide Encoded;
    var s := DEFAULTS;
    assert Allowed(s);
    SettingsMean(s);
    DefaultsLength();
  }

  lemma DefaultsLength()
    ensures |Framed(Fields21(DEFAULTS))| <= 65536
  {
    var s := DEFAULTS;
    assert NamesOf(s.forces) == [] && PairsOf(s.hooks) == [] && PairsOf(s.filters) == [] && NumeralsOf(s.statusDescriptors) == [];
    assert Framed([]) == "";
    FramedShort(Fields21(s));
  }

  lemma {:induction false} FramedShort(fs: seq<string>)
    requires forall k :: 0 <= k < |fs| ==> |fs[k]| < 10
    ensures |Framed(fs)| <= 12 * |fs|
  {
    if |fs| > 0 { FramedShort(fs[1..]); }
  }

  lemma SettingsFitMeans(r: Record)
    ensures SettingsFit(r) <==>
            if Known(r.semanticProfile) then
              r.unsupportedSettings == "" && Allowed(r.settings) && |Framed(Fields21(r.settings))| <= 65536
            else Inert(r.settings) && 1 <= |r.unsupportedSettings| <= 65536
    ensures SettingsFit(r) ==> SettingsBytes(r) == Kept(r)
  {
    hide Encoded, Framed, Fields21, Allowed, Inert;
    SettingsMean(r.settings);
    InertMeans(r.settings);
    DefaultsShort();
    if Encoded(r.settings) == Encoded(DEFAULTS) { EncodedInjective(r.settings, DEFAULTS); }
  }

  /** Records are encoded when recordable, as their nine fields in at most 65536 bytes. */
  lemma RecordMeans(r: Record)
    ensures EncodedRecord(r) == if Recordable(r) && |Framed(Fields9(r))| <= 65536 then Some(Framed(Fields9(r))) else None
  {
    hide NetAll, Framed, Printed, Numeral, Encoded, SettingsFit, SettingsBytes, Token, Visible, AbsolutePath, Digest, TextsValid, AllFree,
         Fields21, Allowed, Inert, Kept, Hexadecimal;
    VisibleMeans(r.semanticProfile);
    AdmissionMeaning.DigestMeans(r.executorSHA256);
    AdmissionMeaning.DigestMeans(r.inputIdentity);
    AllFreeMeans(r.optionPrefix, true);
    SettingsFitMeans(r);
    NumeralMeans(r.role);
    FrameMeans(r.optionPrefix);
    FrameMeans(Fields9(r));
  }

  /** The encodings of all records in ascending order behind one tag. */
  lemma RecordsMean(rs: seq<Record>)
    ensures EncodedRecords(rs).Some? <==>
            && |rs| <= 64 && (forall r :: r in rs ==> Recordable(r) && |Framed(Fields9(r))| <= 65536)
            && Total(Values(rs)) <= 1048576 && |Framed(Sort(Values(rs)))| <= 1048576
            && |Framed(["CYDIA-NATIVE-EFFECT-POLICIES-1", Framed(Sort(Values(rs)))])| <= 1048576
    ensures EncodedRecords(rs).Some? ==>
              && EncodedRecords(rs).value == Framed(["CYDIA-NATIVE-EFFECT-POLICIES-1", Framed(Sort(Values(rs)))])
              && forall k :: 0 <= k < |rs| ==> Values(rs)[k] == Framed(Fields9(rs[k]))
  {
    hide NetAll, Framed, EncodedRecord, Recordable, Fields9, Sort, Total;
    forall r
      ensures EncodedRecord(r) == if Recordable(r) && |Framed(Fields9(r))| <= 65536 then Some(Framed(Fields9(r))) else None
    {
      RecordMeans(r);
    }
    FrameMeans(Sort(Values(rs)));
    FrameMeans(["CYDIA-NATIVE-EFFECT-POLICIES-1", Framed(Sort(Values(rs)))]);
    if forall r :: r in rs ==> Recordable(r) && |Framed(Fields9(r))| <= 65536 {
      forall k | 0 <= k < |rs|
        ensures EncodedRecord(rs[k]).Some?
      {
        assert rs[k] in rs;
      }
    }
  }
}
