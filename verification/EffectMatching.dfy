/**
 * Matching a policy record to what is about to run: one record at most may fit, whatever the
 * order of the records, and what fits is bound to the content it was made for.
 */
module EffectMatching {
  import opened Text
  import opened Reviews
  import opened Netstrings
  import opened EffectSettings
  import opened EffectRecords
  import opened EffectInputs
  import opened EffectPreimage

  /** The digest callback may be absent, and a call of it may fail. */
  type Hash = Option<string -> Option<string>>

  datatype Match =
    | Missing | Unsupported | InputMismatch | Ambiguous | Invalid
    | Matched(inputIdentity: string, recordIdentity: string, settings: Settings)

  function Hashed(bytes: string, hash: Hash): Option<string> {
    if hash.Some? && hash.value(bytes).Some? && Digest(hash.value(bytes).value) then hash.value(bytes) else None
  }

  /** Different bytes never share a digest. */
  ghost predicate CollisionFree(hash: Hash) {
    forall x, y :: Hashed(x, hash).Some? && Hashed(x, hash) == Hashed(y, hash) ==> x == y
  }

  function InputIdentity(input: Inputs, hash: Hash): Option<string> {
    var bytes := PreimageOf(input);
    if bytes.Bytes? then Hashed(bytes.bytes, hash) else None
  }

  function RecordIdentity(r: Record, hash: Hash): Option<string> {
    var bytes := EncodedRecord(r);
    if bytes.Some? then Hashed(bytes.value, hash) else None
  }

  /** The record was made for this executor, role and option prefix. */
  predicate Concerns(r: Record, input: Inputs) {
    && r.executorPath == input.executorPath && r.executorSHA256 == input.executorSHA256 && r.role == input.role
    && r.optionPrefix == input.optionPrefix
  }

  predicate Fits(r: Record, input: Inputs, identity: string) {
    && Concerns(r, input) && Supported(r.semanticProfile) && r.semanticProfile == input.semanticProfile
    && r.inputIdentity == identity
  }

  predicate Foreign(r: Record, input: Inputs) {
    Concerns(r, input) && !Supported(r.semanticProfile)
  }

  predicate AnyForeign(rs: seq<Record>, input: Inputs) {
    exists k :: 0 <= k < |rs| && Foreign(rs[k], input)
  }

  predicate OnlyFit(rs: seq<Record>, k: int, input: Inputs, identity: string) {
    0 <= k < |rs| && Fits(rs[k], input, identity) && forall j :: 0 <= j < |rs| && j != k ==> !Fits(rs[j], input, identity)
  }

  predicate NoFit(rs: seq<Record>, input: Inputs, identity: string) {
    forall j :: 0 <= j < |rs| ==> !Fits(rs[j], input, identity)
  }

  /** What each answer means for the records and the input. */
  ghost predicate Answers(rs: seq<Record>, input: Inputs, hash: Hash, m: Match) {
    var identity := InputIdentity(input, hash);
    if EncodedRecords(rs).None? then m == Invalid
    else if identity.None? then m == RefusedInput(input)
    else AnswersFor(rs, input, identity.value, hash, m)
  }

  function RefusedInput(input: Inputs): Match {
    if PreimageOf(input).UnsupportedProfile? then Unsupported else Invalid
  }

  ghost predicate AnswersFor(rs: seq<Record>, input: Inputs, identity: string, hash: Hash, m: Match) {
    if NoFit(rs, input, identity) then m == Unfit(rs, input)
    else if exists k :: OnlyFit(rs, k, input, identity) then
      exists k :: OnlyFit(rs, k, input, identity) && AnswersOne(rs[k], identity, hash, m)
    else m == Ambiguous
  }

  function Unfit(rs: seq<Record>, input: Inputs): Match {
    if AnyForeign(rs, input) then Unsupported else if |rs| == 0 then Missing else InputMismatch
  }

  predicate AnswersOne(r: Record, identity: string, hash: Hash, m: Match) {
    var own := RecordIdentity(r, hash);
    if |r.settings.unmodeledOptions| > 0 then m == Unsupported
    else if own.None? then m == Invalid
    else m == Matched(identity, own.value, r.settings)
  }

  /** The scan: the first fitting record, unless a second one follows. */
  method Scan(rs: seq<Record>, input: Inputs, identity: string) returns (found: Option<nat>, unsupported: bool, ambiguous: bool)
    ensures ambiguous ==> !NoFit(rs, input, identity) && forall k :: !OnlyFit(rs, k, input, identity)
    ensures !ambiguous && found.Some? ==> OnlyFit(rs, found.value, input, identity)
    ensures !ambiguous && found.None? ==> NoFit(rs, input, identity) && unsupported == AnyForeign(rs, input)
  {
    hide Supported;
    found, unsupported, ambiguous := None, false, false;
    for k := 0 to |rs|
      invariant !ambiguous
      invariant found.Some? ==> found.value < k && Fits(rs[found.value], input, identity)
      invariant forall j :: 0 <= j < k && found != Some(j as nat) ==> !Fits(rs[j], input, identity)
      invariant unsupported <==> exists j :: 0 <= j < k && Foreign(rs[j], input)
    {
      var r := rs[k];
      if r.executorPath != input.executorPath || r.executorSHA256 != input.executorSHA256 || r.role != input.role
         || r.optionPrefix != input.optionPrefix { continue; }
      if !Supported(r.semanticProfile) {
        assert Foreign(rs[k], input);
        unsupported := true;
        continue;
      }
      if r.semanticProfile != input.semanticProfile || r.inputIdentity != identity { continue; }
      assert Fits(rs[k], input, identity);
      if found.Some? { return None, unsupported, true; }
      found := Some(k);
    }
  }

  method MatchRecord(rs: seq<Record>, input: Inputs, hash: Hash) returns (m: Match)
    ensures Answers(rs, input, hash, m)
  {
    hide EncodedRecords, EncodedRecord, PreimageOf, NoFit, Fits, AnyForeign, Hashed;
    var encoded := EncodeRecords(rs);
    if encoded.None? { return Invalid; }
    var bytes := EncodeInputs(input);
    if bytes.UnsupportedProfile? { return Unsupported; }
    if bytes.Refused? { return Invalid; }
    var identity := Hashed(bytes.bytes, hash);
    if identity.None? { return Invalid; }
    m := if |rs| == 0 then Missing else InputMismatch;
    var found, unsupported, ambiguous := Scan(rs, input, identity.value);
    if ambiguous { return Ambiguous; }
    if found.None? {
      if unsupported { m := Unsupported; }
      return;
    }
    var r := rs[found.value];
    if |r.settings.unmodeledOptions| > 0 {
      m := Unsupported;
    } else {
      var own := EncodeRecord(r);
      var digest := if own.Some? then Hashed(own.value, hash) else None;
      m := if digest.None? then Invalid else Matched(identity.value, digest.value, r.settings);
    }
    FitAnswered(rs, found.value, input, identity.value, hash, m);
  }

  lemma FitIsOne(rs: seq<Record>, k: int, input: Inputs, identity: string)
    requires OnlyFit(rs, k, input, identity)
    ensures !NoFit(rs, input, identity)
  {
  }

  // ---------------------------------------------------------------------------------------------
  // One answer, whatever the order

  lemma OneFit(rs: seq<Record>, i: int, j: int, input: Inputs, identity: string)
    requires OnlyFit(rs, i, input, identity) && OnlyFit(rs, j, input, identity)
    ensures i == j
  {
  }

  lemma FitAnswered(rs: seq<Record>, k: int, input: Inputs, identity: string, hash: Hash, m: Match)
    requires OnlyFit(rs, k, input, identity)
    ensures AnswersFor(rs, input, identity, hash, m) <==> AnswersOne(rs[k], identity, hash, m)
  {
    hide Fits, AnyForeign, AnswersOne;
    FitIsOne(rs, k, input, identity);
    if AnswersFor(rs, input, identity, hash, m) {
      var j :| OnlyFit(rs, j, input, identity) && AnswersOne(rs[j], identity, hash, m);
      OneFit(rs, k, j, input, identity);
    }
  }

  /** Where a rearrangement puts the only fitting record. */
  lemma OnlyFitMoves(rs: seq<Record>, ts: seq<Record>, k: int, input: Inputs, identity: string) returns (j: nat)
    requires multiset(rs) == multiset(ts) && OnlyFit(rs, k, input, identity)
    ensures OnlyFit(ts, j, input, identity) && ts[j] == rs[k]
  {
    hide Fits;
    assert rs[k] in multiset(ts);
    j :| 0 <= j < |ts| && ts[j] == rs[k];
    OnlyOnce(rs, k, input, identity);
    forall i | 0 <= i < |ts| && i != j
      ensures !Fits(ts[i], input, identity)
    {
      if Fits(ts[i], input, identity) {
        assert ts[i] in multiset(rs);
        var h :| 0 <= h < |rs| && rs[h] == ts[i];
        assert h == k;
        TwiceCounts(ts, i, j);
      }
    }
  }

  lemma OnlyOnce(rs: seq<Record>, k: int, input: Inputs, identity: string)
    requires OnlyFit(rs, k, input, identity)
    ensures multiset(rs)[rs[k]] == 1
  {
    hide Fits;
    TakeOut(rs, k);
    var rest := rs[..k] + rs[k + 1..];
    forall i | 0 <= i < |rest|
      ensures rest[i] != rs[k]
    {
      assert rest[i] == rs[if i < k then i else i + 1];
    }
    assert rs[k] !in multiset(rest);
  }

  lemma TwiceCounts(ts: seq<Record>, i: nat, j: nat)
    requires i < |ts| && j < |ts| && i != j && ts[i] == ts[j]
    ensures multiset(ts)[ts[j]] >= 2
  {
    TakeOut(ts, j);
    var rest := ts[..j] + ts[j + 1..];
    assert rest[if i < j then i else i - 1] == ts[j];
    assert ts[j] in multiset(rest);
  }

  lemma SameFits(rs: seq<Record>, ts: seq<Record>, input: Inputs, identity: string)
    requires multiset(rs) == multiset(ts)
    ensures NoFit(rs, input, identity) ==> NoFit(ts, input, identity)
    ensures AnyForeign(rs, input) ==> AnyForeign(ts, input)
    ensures |rs| == |ts|
  {
    hide Fits, Foreign;
    assert |multiset(rs)| == |multiset(ts)|;
    forall j | 0 <= j < |ts|
      ensures exists k :: 0 <= k < |rs| && rs[k] == ts[j]
    {
      assert ts[j] in multiset(rs);
    }
    if AnyForeign(rs, input) {
      var k :| 0 <= k < |rs| && Foreign(rs[k], input);
      assert rs[k] in multiset(ts);
      var j :| 0 <= j < |ts| && ts[j] == rs[k];
    }
  }

  lemma AnswersForIgnoresOrder(rs: seq<Record>, ts: seq<Record>, input: Inputs, identity: string, hash: Hash, m: Match, n: Match)
    requires multiset(rs) == multiset(ts)
    requires AnswersFor(rs, input, identity, hash, m) && AnswersFor(ts, input, identity, hash, n)
    ensures m == n
  {
    hide NoFit, OnlyFit, AnyForeign, RecordIdentity;
    SameFits(rs, ts, input, identity);
    SameFits(ts, rs, input, identity);
    if k :| OnlyFit(rs, k, input, identity) {
      var j := OnlyFitMoves(rs, ts, k, input, identity);
      FitAnswered(rs, k, input, identity, hash, m);
      FitAnswered(ts, j, input, identity, hash, n);
    } else if k :| OnlyFit(ts, k, input, identity) {
      var j := OnlyFitMoves(ts, rs, k, input, identity);
    }
  }

  /** There is one answer, and it does not depend on the order of the records. */
  lemma AnswerIgnoresOrder(rs: seq<Record>, ts: seq<Record>, input: Inputs, hash: Hash, m: Match, n: Match)
    requires multiset(rs) == multiset(ts) && Answers(rs, input, hash, m) && Answers(ts, input, hash, n)
    ensures m == n
  {
    hide EncodedRecords, InputIdentity, AnswersFor, RefusedInput;
    OrderIgnored(rs, ts);
    if EncodedRecords(rs).Some? && InputIdentity(input, hash).Some? {
      AnswersForIgnoresOrder(rs, ts, input, InputIdentity(input, hash).value, hash, m, n);
    }
  }

  /** The record is the only fitting one, leaves nothing unmodelled and has a digest of its own. */
  predicate Usable(rs: seq<Record>, k: int, input: Inputs, identity: string, hash: Hash) {
    && OnlyFit(rs, k, input, identity) && |rs[k].settings.unmodeledOptions| == 0 && RecordIdentity(rs[k], hash).Some?
  }

  /** A match says which record it comes from, and exists whenever there is a usable one. */
  lemma MatchedExactly(rs: seq<Record>, input: Inputs, hash: Hash, m: Match)
    requires Answers(rs, input, hash, m) && EncodedRecords(rs).Some? && InputIdentity(input, hash).Some?
    ensures var identity := InputIdentity(input, hash).value;
            && (m.Matched? <==> exists k :: Usable(rs, k, input, identity, hash))
            && forall k :: Usable(rs, k, input, identity, hash) ==>
                 m == Matched(identity, RecordIdentity(rs[k], hash).value, rs[k].settings)
  {
    hide EncodedRecords, InputIdentity, RecordIdentity, Fits, AnswersFor, AnyForeign, NoFit;
    var identity := InputIdentity(input, hash).value;
    assert AnswersFor(rs, input, identity, hash, m);
    forall k | Usable(rs, k, input, identity, hash)
      ensures m == Matched(identity, RecordIdentity(rs[k], hash).value, rs[k].settings)
    {
      FitAnswered(rs, k, input, identity, hash, m);
    }
    if m.Matched? {
      MatchHasFit(rs, input, identity, hash, m);
    }
  }

  lemma MatchHasFit(rs: seq<Record>, input: Inputs, identity: string, hash: Hash, m: Match)
    requires AnswersFor(rs, input, identity, hash, m) && m.Matched?
    ensures exists k :: Usable(rs, k, input, identity, hash)
  {
    hide NoFit, Fits, AnyForeign, RecordIdentity;
    assert !NoFit(rs, input, identity);
    var k :| OnlyFit(rs, k, input, identity) && AnswersOne(rs[k], identity, hash, m);
    assert Usable(rs, k, input, identity, hash);
  }

  /** With a collision-free digest, a record that fits two inputs was made for the same content. */
  lemma IdentityBindsContent(a: Inputs, b: Inputs, hash: Hash)
    requires CollisionFree(hash) && InputIdentity(a, hash).Some? && InputIdentity(b, hash).Some?
    ensures InputIdentity(a, hash) == InputIdentity(b, hash) <==> SameContent(a, b)
  {
    hide PreimageOf, Hashed, SameContent;
    PreimageFaithful(a, b);
    assert PreimageOf(a).bytes == PreimageOf(b).bytes <==> PreimageOf(a) == PreimageOf(b);
  }

  // ---------------------------------------------------------------------------------------------
  // One launch

  const LAUNCH_TAG := "CYDIA-NATIVE-EFFECT-LAUNCH-1"

  function LaunchFields(input: Inputs, argv: seq<string>): seq<string> {
    [LAUNCH_TAG, NetAll(InputFields(input)), NetAll(Entries(Variables(input))), NetAll(argv), "stdin:0", "status:3"]
  }

  predicate LaunchAccepted(input: Inputs, argv: seq<string>) {
    && input.optionPrefix <= argv && |argv| <= MAXIMUM_INPUTS && (forall k :: 0 <= k < |argv| ==> TextValid(argv[k], true))
    && |argv| + |Variables(input)| <= BUDGET_ITEMS
    && TextCost(argv) + TextCost(Entries(Variables(input))) <= MAXIMUM_BYTES
  }

  function LaunchOf(input: Inputs, argv: seq<string>): Preimage {
    var bytes := PreimageOf(input);
    if !bytes.Bytes? then bytes
    else if LaunchAccepted(input, argv) && |NetAll(LaunchFields(input, argv))| <= MAXIMUM_BYTES
    then Bytes(NetAll(LaunchFields(input, argv)))
    else Refused
  }

  method EncodeLaunch(input: Inputs, argv: seq<string>) returns (r: Preimage)
    ensures r == LaunchOf(input, argv)
  {
    hide NetAll, InputFields, InputAccepted, TextCost, TextValid, TextsValid, Entries;
    r := EncodeInputs(input);
    if !r.Bytes? { return; }
    var inputs := r.bytes;
    r := Refused;
    if |argv| < |input.optionPrefix| || input.optionPrefix != argv[..|input.optionPrefix|] { return; }
    var budget := new Budget();
    if |argv| > MAXIMUM_INPUTS { return; }
    var ok := budget.Items(|argv|);
    if !ok { return; }
    ok := budget.ReadAll(argv, true);
    if !ok { return; }
    AcceptedEntries(input);
    ok := budget.Strings(Entries(Variables(input)), false);
    if !ok { return; }
    LaunchListsFit(input, argv);
    var arguments := WriteAll(argv);
    var env := WriteAll(Entries(Variables(input)));
    if arguments.None? || env.None? { return; }
    var result := WriteAll([LAUNCH_TAG, inputs, env.value, arguments.value, "stdin:0", "status:3"]);
    if result.Some? { r := Bytes(result.value); }
  }

  lemma AcceptedEntries(input: Inputs)
    requires PreimageOf(input).Bytes?
    ensures TextsValid(Entries(Variables(input)), false) && |Entries(Variables(input))| == |Variables(input)|
  {
    hide NetAll, InputFields, TextsValid, RolesApart, MembersDistinct, Affordable;
  }

  lemma LaunchListsFit(input: Inputs, argv: seq<string>)
    ensures |NetAll(argv)| <= |NetAll(LaunchFields(input, argv))|
    ensures |NetAll(Entries(Variables(input)))| <= |NetAll(LaunchFields(input, argv))|
  {
    hide NetAll, InputFields, Entries;
    FieldFits(LaunchFields(input, argv), 2);
    FieldFits(LaunchFields(input, argv), 3);
  }

  /** Two accepted launches have the same bytes exactly when content, whole environment and arguments agree. */
  lemma LaunchFaithful(a: Inputs, x: seq<string>, b: Inputs, y: seq<string>)
    requires LaunchOf(a, x).Bytes? && LaunchOf(b, y).Bytes?
    ensures LaunchOf(a, x) == LaunchOf(b, y) <==>
            SameContent(a, b) && x == y && Entries(Variables(a)) == Entries(Variables(b))
  {
    hide NetAll, InputFields, SameContent, LaunchAccepted, Entries, InputAccepted;
    PreimageFaithful(a, b);
    NetAllSame(LaunchFields(a, x), LaunchFields(b, y));
    NetAllSame(Entries(Variables(a)), Entries(Variables(b)));
    NetAllSame(x, y);
    var f, g := LaunchFields(a, x), LaunchFields(b, y);
    if f == g {
      assert f[1] == g[1] && f[2] == g[2] && f[3] == g[3];
    }
  }
}
