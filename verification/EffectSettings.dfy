/** The canonical encoding of effect settings, and the decoder that accepts exactly those encodings. */
module EffectSettings {
  import opened Text
  import opened Netstrings

  const MAXIMUM_RECORD_BYTES: nat := 64 * 1024
  const MAXIMUM_VALUE_BYTES: nat := 64 * 1024
  const MAXIMUM_ITEMS: nat := 256

  /** A hook with its phase, or a filter with its kind. */
  datatype Tagged = Tagged(tag: nat, text: string)

  datatype Settings = Settings(
    autoDeconfigure: bool, noAct: bool, recursive: bool, selectedOnly: bool, skipSameVersion: bool, pending: bool,
    noDebsig: bool, robot: bool, noPager: bool, triggers: nat, abortAfter: nat, debugMask: nat,
    logFilePresent: bool, logFile: string, forces: seq<nat>, ignoreDepends: seq<string>, hooks: seq<Tagged>,
    statusLoggers: seq<string>, filters: seq<Tagged>, statusDescriptors: seq<nat>, unmodeledOptions: seq<string>)

  const FORCES: seq<string> := [
    "architecture", "bad-path", "bad-verify", "bad-version", "breaks",
    "confask", "confdef", "confmiss", "confnew", "confold", "configure-any", "conflicts", "depends",
    "depends-version", "downgrade", "hold", "not-root", "overwrite", "overwrite-dir", "overwrite-diverted",
    "remove-essential", "remove-reinstreq", "script-chrootless", "unsafe-io", "statoverride-add",
    "statoverride-remove", "security-mac", "remove-protected"]

  /** Length, first and last character tell the names apart. */
  function Mark(s: string): (nat, char, char) {
    if |s| == 0 then (0, ' ', ' ') else (|s|, s[0], s[|s| - 1])
  }

  lemma MarksDiffer(i: nat, j: nat)
    requires i < j < 28
    ensures Mark(FORCES[i]) != Mark(FORCES[j])
  {
  }

  lemma ForcesDistinct()
    ensures forall i, j :: 0 <= i < j < 28 ==> FORCES[i] != FORCES[j]
  {
    forall i, j | 0 <= i < j < 28
      ensures FORCES[i] != FORCES[j]
    {
      MarksDiffer(i, j);
    }
  }

  predicate TextValid(s: string, empty: bool) {
    (empty || |s| > 0) && |s| <= MAXIMUM_VALUE_BYTES && forall k :: 0 <= k < |s| ==> s[k] != 0 as char
  }

  predicate TextsValid(xs: seq<string>, empty: bool) {
    |xs| <= MAXIMUM_ITEMS && forall k :: 0 <= k < |xs| ==> TextValid(xs[k], empty)
  }

  predicate TaggedValid(xs: seq<Tagged>) {
    |xs| <= MAXIMUM_ITEMS && forall k :: 0 <= k < |xs| ==> xs[k].tag < 2 && TextValid(xs[k].text, true)
  }

  predicate ForcesValid(xs: seq<nat>) {
    |xs| <= 28 && (forall k :: 0 <= k < |xs| ==> xs[k] < 28) && forall k :: 0 < k < |xs| ==> xs[k - 1] < xs[k]
  }

  predicate NumbersValid(xs: seq<nat>) {
    |xs| <= MAXIMUM_ITEMS && forall k :: 0 <= k < |xs| ==> xs[k] <= INT_MAX
  }

  predicate SettingsValid(s: Settings) {
    && s.triggers <= 2 && s.abortAfter <= INT_MAX && s.debugMask <= INT_MAX
    && (!s.logFilePresent ==> |s.logFile| == 0) && TextValid(s.logFile, true)
    && ForcesValid(s.forces) && TextsValid(s.ignoreDepends, false) && TaggedValid(s.hooks)
    && TextsValid(s.statusLoggers, true) && TaggedValid(s.filters) && NumbersValid(s.statusDescriptors)
    && TextsValid(s.unmodeledOptions, false)
  }

  // ---------------------------------------------------------------------------------------------
  // Encoded parts

  function Flag(b: bool): string {
    if b then Printed(1) else Printed(0)
  }

  function ForceNames(xs: seq<nat>): seq<string>
    requires forall k :: 0 <= k < |xs| ==> xs[k] < 28
  {
    seq(|xs|, k requires 0 <= k < |xs| => FORCES[xs[k]])
  }

  function TaggedFields(x: Tagged): seq<string> {
    [Printed(x.tag), x.text]
  }

  function TaggedTexts(xs: seq<Tagged>): seq<string> {
    seq(|xs|, k requires 0 <= k < |xs| => NetAll(TaggedFields(xs[k])))
  }

  function NumberTexts(xs: seq<nat>): seq<string> {
    seq(|xs|, k requires 0 <= k < |xs| => Printed(xs[k]))
  }

  /** The scalars in order. */
  function Scalars(s: Settings): seq<string> {
    [Flag(s.autoDeconfigure), Flag(s.noAct), Flag(s.recursive), Flag(s.selectedOnly), Flag(s.skipSameVersion),
     Flag(s.pending), Flag(s.noDebsig), Flag(s.robot), Flag(s.noPager), Printed(s.triggers), Printed(s.abortAfter),
     Printed(s.debugMask), Flag(s.logFilePresent), s.logFile]
  }

  /** The lists in order, each encoded once more. */
  function Lists(s: Settings): seq<string>
    requires ForcesValid(s.forces)
  {
    [NetAll(ForceNames(s.forces)), NetAll(s.ignoreDepends), NetAll(TaggedTexts(s.hooks)), NetAll(s.statusLoggers),
     NetAll(TaggedTexts(s.filters)), NetAll(NumberTexts(s.statusDescriptors)), NetAll(s.unmodeledOptions)]
  }

  /** The encoding, for valid settings whose encoding fits a record. */
  function Encoded(s: Settings): Option<string> {
    if SettingsValid(s) && |NetAll(Scalars(s) + Lists(s))| <= MAXIMUM_RECORD_BYTES then Some(NetAll(Scalars(s) + Lists(s))) else None
  }

  lemma FlagInjective(a: bool, b: bool)
    ensures Flag(a) == Flag(b) <==> a == b
  {
    PrintedValue(0);
    PrintedValue(1);
  }

  lemma PrintedInjective(a: nat, b: nat)
    ensures Printed(a) == Printed(b) <==> a == b
  {
    PrintedValue(a);
    PrintedValue(b);
  }

  lemma ForceNamesInjective(xs: seq<nat>, ys: seq<nat>)
    requires forall k :: 0 <= k < |xs| ==> xs[k] < 28
    requires forall k :: 0 <= k < |ys| ==> ys[k] < 28
    requires ForceNames(xs) == ForceNames(ys)
    ensures xs == ys
  {
    ForcesDistinct();
    forall k | 0 <= k < |xs|
      ensures |xs| == |ys| && xs[k] == ys[k]
    {
      assert ForceNames(xs)[k] == ForceNames(ys)[k];
    }
    assert |ForceNames(xs)| == |ForceNames(ys)|;
  }

  lemma TaggedTextsInjective(xs: seq<Tagged>, ys: seq<Tagged>)
    requires TaggedTexts(xs) == TaggedTexts(ys)
    ensures xs == ys
  {
    assert |TaggedTexts(xs)| == |TaggedTexts(ys)|;
    forall k | 0 <= k < |xs|
      ensures xs[k] == ys[k]
    {
      assert TaggedTexts(xs)[k] == TaggedTexts(ys)[k];
      NetAllInjective(TaggedFields(xs[k]), TaggedFields(ys[k]));
      assert TaggedFields(xs[k])[0] == TaggedFields(ys[k])[0] && TaggedFields(xs[k])[1] == TaggedFields(ys[k])[1];
      PrintedInjective(xs[k].tag, ys[k].tag);
    }
  }

  lemma NumberTextsInjective(xs: seq<nat>, ys: seq<nat>)
    requires NumberTexts(xs) == NumberTexts(ys)
    ensures xs == ys
  {
    assert |NumberTexts(xs)| == |NumberTexts(ys)|;
    forall k | 0 <= k < |xs|
      ensures xs[k] == ys[k]
    {
      assert NumberTexts(xs)[k] == NumberTexts(ys)[k];
      PrintedInjective(xs[k], ys[k]);
    }
  }

  lemma ScalarAt(a: Settings, b: Settings, k: nat)
    requires Scalars(a) == Scalars(b) && k < 14
    ensures Scalars(a)[k] == Scalars(b)[k]
  {
  }

  lemma FlagsInjective(a: Settings, b: Settings)
    requires Scalars(a) == Scalars(b)
    ensures a.autoDeconfigure == b.autoDeconfigure && a.noAct == b.noAct && a.recursive == b.recursive
    ensures a.selectedOnly == b.selectedOnly && a.skipSameVersion == b.skipSameVersion && a.pending == b.pending
    ensures a.noDebsig == b.noDebsig && a.robot == b.robot && a.noPager == b.noPager
  {
    hide Flag, Printed;
    ScalarAt(a, b, 0);
    FlagInjective(a.autoDeconfigure, b.autoDeconfigure);
    ScalarAt(a, b, 1);
    FlagInjective(a.noAct, b.noAct);
    ScalarAt(a, b, 2);
    FlagInjective(a.recursive, b.recursive);
    ScalarAt(a, b, 3);
    FlagInjective(a.selectedOnly, b.selectedOnly);
    ScalarAt(a, b, 4);
    FlagInjective(a.skipSameVersion, b.skipSameVersion);
    ScalarAt(a, b, 5);
    FlagInjective(a.pending, b.pending);
    ScalarAt(a, b, 6);
    FlagInjective(a.noDebsig, b.noDebsig);
    ScalarAt(a, b, 7);
    FlagInjective(a.robot, b.robot);
    ScalarAt(a, b, 8);
    FlagInjective(a.noPager, b.noPager);
  }

  lemma NumbersInjective(a: Settings, b: Settings)
    requires Scalars(a) == Scalars(b)
    ensures a.triggers == b.triggers && a.abortAfter == b.abortAfter && a.debugMask == b.debugMask
    ensures a.logFilePresent == b.logFilePresent && a.logFile == b.logFile
  {
    hide Flag, Printed;
    ScalarAt(a, b, 9);
    PrintedInjective(a.triggers, b.triggers);
    ScalarAt(a, b, 10);
    PrintedInjective(a.abortAfter, b.abortAfter);
    ScalarAt(a, b, 11);
    PrintedInjective(a.debugMask, b.debugMask);
    ScalarAt(a, b, 12);
    FlagInjective(a.logFilePresent, b.logFilePresent);
    ScalarAt(a, b, 13);
  }

  lemma ListsInjective(a: Settings, b: Settings)
    requires ForcesValid(a.forces) && ForcesValid(b.forces) && Lists(a) == Lists(b)
    ensures a.forces == b.forces && a.ignoreDepends == b.ignoreDepends && a.hooks == b.hooks
    ensures a.statusLoggers == b.statusLoggers && a.filters == b.filters && a.statusDescriptors == b.statusDescriptors
    ensures a.unmodeledOptions == b.unmodeledOptions
  {
    hide NetAll, ForceNames, TaggedTexts, NumberTexts;
    var x, y := Lists(a), Lists(b);
    assert x[0] == y[0] && x[1] == y[1] && x[2] == y[2] && x[3] == y[3] && x[4] == y[4] && x[5] == y[5] && x[6] == y[6];
    NetAllInjective(ForceNames(a.forces), ForceNames(b.forces));
    ForceNamesInjective(a.forces, b.forces);
    NetAllInjective(a.ignoreDepends, b.ignoreDepends);
    NetAllInjective(TaggedTexts(a.hooks), TaggedTexts(b.hooks));
    TaggedTextsInjective(a.hooks, b.hooks);
    NetAllInjective(a.statusLoggers, b.statusLoggers);
    NetAllInjective(TaggedTexts(a.filters), TaggedTexts(b.filters));
    TaggedTextsInjective(a.filters, b.filters);
    NetAllInjective(NumberTexts(a.statusDescriptors), NumberTexts(b.statusDescriptors));
    NumberTextsInjective(a.statusDescriptors, b.statusDescriptors);
    NetAllInjective(a.unmodeledOptions, b.unmodeledOptions);
  }

  /** Distinct settings have distinct encodings. */
  lemma EncodedInjective(a: Settings, b: Settings)
    requires Encoded(a).Some? && Encoded(a) == Encoded(b)
    ensures a == b
  {
    hide NetAll, Scalars, Lists, SettingsValid;
    ValidForces(a);
    ValidForces(b);
    NetAllInjective(Scalars(a) + Lists(a), Scalars(b) + Lists(b));
    SameParts(a, b);
    FlagsInjective(a, b);
    NumbersInjective(a, b);
    ListsInjective(a, b);
  }

  lemma ValidForces(s: Settings)
    requires SettingsValid(s)
    ensures ForcesValid(s.forces)
  {
  }

  lemma SameParts(a: Settings, b: Settings)
    requires ForcesValid(a.forces) && ForcesValid(b.forces) && Scalars(a) + Lists(a) == Scalars(b) + Lists(b)
    ensures Scalars(a) == Scalars(b) && Lists(a) == Lists(b)
  {
    hide Flag, Printed, NetAll;
    assert (Scalars(a) + Lists(a))[..14] == Scalars(a) && (Scalars(b) + Lists(b))[..14] == Scalars(b);
    assert (Scalars(a) + Lists(a))[14..] == Lists(a) && (Scalars(b) + Lists(b))[14..] == Lists(b);
  }

  // ---------------------------------------------------------------------------------------------
  // The encoder

  method WriteStrings(xs: seq<string>, empty: bool) returns (r: Option<string>)
    ensures r == if TextsValid(xs, empty) && |NetAll(xs)| <= MAXIMUM_BYTES then Some(NetAll(xs)) else None
  {
    hide TextValid, NetAll;
    if |xs| > MAXIMUM_ITEMS { return None; }
    var writer := new Writer(MAXIMUM_BYTES);
    for k := 0 to |xs|
      invariant fresh(writer) && writer.Holds() && writer.maximum == MAXIMUM_BYTES && writer.fields == xs[..k]
      invariant forall j :: 0 <= j < k ==> TextValid(xs[j], empty)
    {
      if !TextValid(xs[k], empty) { return None; }
      writer.Field(xs[k]);
    }
    assert xs[..|xs|] == xs;
    r := if writer.valid then Some(writer.bytes) else None;
  }

  method WriteForces(xs: seq<nat>) returns (r: Option<string>)
    requires |xs| <= 28
    ensures r == if ForcesValid(xs) && |NetAll(ForceNames(xs))| <= MAXIMUM_BYTES then Some(NetAll(ForceNames(xs))) else None
  {
    hide NetAll;
    var writer := new Writer(MAXIMUM_BYTES);
    var previous, first := 0, true;
    for k := 0 to |xs|
      invariant fresh(writer) && writer.Holds() && writer.maximum == MAXIMUM_BYTES
      invariant first <==> k == 0
      invariant k > 0 ==> previous == xs[k - 1]
      invariant ForcesValid(xs[..k]) && writer.fields == ForceNames(xs[..k])
    {
      if xs[k] >= 28 || (!first && xs[k] <= previous) { return None; }
      ForcesGrow(xs, k);
      writer.Field(FORCES[xs[k]]);
      first, previous := false, xs[k];
    }
    assert xs[..|xs|] == xs;
    r := if writer.valid then Some(writer.bytes) else None;
  }

  lemma ForcesGrow(xs: seq<nat>, k: nat)
    requires k < |xs| <= 28 && ForcesValid(xs[..k]) && xs[k] < 28 && (k > 0 ==> xs[k - 1] < xs[k])
    ensures ForcesValid(xs[..k + 1]) && ForceNames(xs[..k + 1]) == ForceNames(xs[..k]) + [FORCES[xs[k]]]
  {
    var front, next := xs[..k], xs[..k + 1];
    assert forall j :: 0 <= j < k ==> next[j] == front[j];
  }

  /** A pair of fields never outgrows its own writer. */
  method WriteTagged(xs: seq<Tagged>) returns (r: Option<string>)
    requires |xs| <= MAXIMUM_ITEMS
    ensures r == if TaggedValid(xs) && |NetAll(TaggedTexts(xs))| <= MAXIMUM_BYTES then Some(NetAll(TaggedTexts(xs))) else None
  {
    hide NetAll, TextValid;
    var writer := new Writer(MAXIMUM_BYTES);
    for k := 0 to |xs|
      invariant fresh(writer) && writer.Holds() && writer.maximum == MAXIMUM_BYTES && writer.fields == TaggedTexts(xs[..k])
      invariant TaggedValid(xs[..k])
    {
      if xs[k].tag >= 2 || !TextValid(xs[k].text, true) { return None; }
      var item := WritePair(xs[k]);
      TaggedGrows(xs, k);
      writer.Field(item);
    }
    assert xs[..|xs|] == xs;
    r := if writer.valid then Some(writer.bytes) else None;
  }

  lemma TaggedGrows(xs: seq<Tagged>, k: nat)
    requires k < |xs| && k < MAXIMUM_ITEMS && TaggedValid(xs[..k]) && xs[k].tag < 2 && TextValid(xs[k].text, true)
    ensures TaggedValid(xs[..k + 1]) && TaggedTexts(xs[..k + 1]) == TaggedTexts(xs[..k]) + [NetAll(TaggedFields(xs[k]))]
  {
    hide NetAll, TextValid;
    var next := xs[..k + 1];
    forall j | 0 <= j < |next|
      ensures next[j].tag < 2 && TextValid(next[j].text, true)
    {
      assert j < k ==> next[j] == xs[..k][j];
    }
  }

  method WritePair(x: Tagged) returns (bytes: string)
    requires x.tag < 2 && TextValid(x.text, true)
    ensures bytes == NetAll(TaggedFields(x))
  {
    var item := new Writer(MAXIMUM_BYTES);
    item.Field(Printed(x.tag));
    item.Field(x.text);
    PairShort(x);
    bytes := item.bytes;
  }

  lemma PairShort(x: Tagged)
    requires x.tag < 2 && |x.text| <= MAXIMUM_VALUE_BYTES
    ensures |NetAll(TaggedFields(x))| <= MAXIMUM_BYTES
    ensures [] + [Printed(x.tag)] + [x.text] == TaggedFields(x)
  {
    NetAllPush([], Printed(x.tag));
    NetAllPush([Printed(x.tag)], x.text);
    assert [] + [Printed(x.tag)] == [Printed(x.tag)] && [Printed(x.tag)] + [x.text] == TaggedFields(x);
    SevenDigits(|x.text|);
    SevenDigits(x.tag);
    SevenDigits(|Printed(x.tag)|);
  }

  method WriteNumbers(xs: seq<nat>) returns (r: Option<string>)
    requires |xs| <= MAXIMUM_ITEMS
    ensures r == if NumbersValid(xs) && |NetAll(NumberTexts(xs))| <= MAXIMUM_BYTES then Some(NetAll(NumberTexts(xs))) else None
  {
    hide NetAll, Printed;
    var writer := new Writer(MAXIMUM_BYTES);
    for k := 0 to |xs|
      invariant fresh(writer) && writer.Holds() && writer.maximum == MAXIMUM_BYTES && writer.fields == NumberTexts(xs[..k])
      invariant NumbersValid(xs[..k])
    {
      if xs[k] > INT_MAX { return None; }
      assert xs[..k + 1] == xs[..k] + [xs[k]];
      assert NumberTexts(xs[..k + 1]) == NumberTexts(xs[..k]) + [Printed(xs[k])];
      writer.Field(Printed(xs[k]));
    }
    assert xs[..|xs|] == xs;
    r := if writer.valid then Some(writer.bytes) else None;
  }

  lemma {:induction false} FieldFits(fs: seq<string>, k: nat)
    requires k < |fs|
    ensures |fs[k]| <= |NetAll(fs)|
  {
    if k > 0 { FieldFits(fs[1..], k - 1); }
  }

  /** A list too long for its own writer is too long for the record. */
  lemma ListFits(s: Settings, k: nat)
    requires ForcesValid(s.forces) && k < 7
    ensures |Lists(s)[k]| <= |NetAll(Scalars(s) + Lists(s))|
  {
    hide NetAll, Scalars, Lists;
    ScalarCount(s);
    assert (Scalars(s) + Lists(s))[14 + k] == Lists(s)[k];
    FieldFits(Scalars(s) + Lists(s), 14 + k);
  }

  lemma ScalarCount(s: Settings)
    ensures |Scalars(s)| == 14
    ensures ForcesValid(s.forces) ==> |Lists(s)| == 7
  {
  }

  method EncodeLists(s: Settings) returns (r: Option<seq<string>>)
    ensures r.Some? ==> ForcesValid(s.forces) && r.value == Lists(s)
    ensures r.Some? ==> TextsValid(s.ignoreDepends, false) && TaggedValid(s.hooks) && TextsValid(s.statusLoggers, true)
                        && TaggedValid(s.filters) && NumbersValid(s.statusDescriptors) && TextsValid(s.unmodeledOptions, false)
    ensures r.None? ==> Encoded(s).None?
  {
    hide NetAll, TextsValid, TaggedValid, NumbersValid, ForceNames, TaggedTexts, NumberTexts, Scalars;
    if |s.forces| > 28 || |s.hooks| > MAXIMUM_ITEMS || |s.filters| > MAXIMUM_ITEMS || |s.statusDescriptors| > MAXIMUM_ITEMS {
      LongLists(s);
      return None;
    }
    if ForcesValid(s.forces) {
      ListFits(s, 0);
      ListFits(s, 1);
      ListFits(s, 2);
      ListFits(s, 3);
      ListFits(s, 4);
      ListFits(s, 5);
      ListFits(s, 6);
    }
    var forces := WriteForces(s.forces);
    if forces.None? { return None; }
    var ignores := WriteStrings(s.ignoreDepends, false);
    if ignores.None? { return None; }
    var loggers := WriteStrings(s.statusLoggers, true);
    if loggers.None? { return None; }
    var unmodeled := WriteStrings(s.unmodeledOptions, false);
    if unmodeled.None? { return None; }
    var hooks := WriteTagged(s.hooks);
    if hooks.None? { return None; }
    var filters := WriteTagged(s.filters);
    if filters.None? { return None; }
    var descriptors := WriteNumbers(s.statusDescriptors);
    if descriptors.None? { return None; }
    r := Some([forces.value, ignores.value, hooks.value, loggers.value, filters.value, descriptors.value, unmodeled.value]);
  }

  lemma LongLists(s: Settings)
    requires |s.forces| > 28 || |s.hooks| > MAXIMUM_ITEMS || |s.filters| > MAXIMUM_ITEMS || |s.statusDescriptors| > MAXIMUM_ITEMS
    ensures !SettingsValid(s)
  {
  }

  method EncodeSettings(s: Settings) returns (r: Option<string>)
    ensures r == Encoded(s)
  {
    hide NetAll, TextsValid, TaggedValid, NumbersValid, ForcesValid, TextValid, Lists, Printed;
    if s.triggers > 2 || s.abortAfter > INT_MAX || s.debugMask > INT_MAX || (!s.logFilePresent && |s.logFile| > 0)
       || !TextValid(s.logFile, true) { return None; }
    var lists := EncodeLists(s);
    if lists.None? { return None; }
    var result := new Writer(MAXIMUM_RECORD_BYTES);
    var fields := Scalars(s) + lists.value;
    for k := 0 to |fields|
      invariant fresh(result) && result.Holds() && result.maximum == MAXIMUM_RECORD_BYTES && result.fields == fields[..k]
    {
      result.Field(fields[k]);
    }
    assert fields[..|fields|] == fields;
    r := if result.valid then Some(result.bytes) else None;
  }

  // ---------------------------------------------------------------------------------------------
  // The decoder

  /** What a list of texts would have to be for an encoding to start with it. */
  method DecodeStrings(bytes: string, count: nat) returns (r: Option<seq<string>>)
    ensures r.Some? ==> bytes == NetAll(r.value)
    ensures r.None? ==> forall xs: seq<string> :: |xs| <= count && |NetAll(xs)| <= MAXIMUM_BYTES ==> bytes != NetAll(xs)
  {
    hide NetAll;
    r := Fields(bytes, count, MAXIMUM_BYTES);
    forall xs: seq<string> | |xs| <= count && |NetAll(xs)| <= MAXIMUM_BYTES && bytes == NetAll(xs)
      ensures r == Some(xs)
    {
      FieldsExact(bytes, xs, count, MAXIMUM_BYTES);
    }
  }

  /** A list with an unknown name is not a list of names. */
  lemma NoForce(names: seq<string>, n: nat)
    requires n < |names| && forall j :: 0 <= j < 28 ==> names[n] != FORCES[j]
    ensures forall xs :: ForcesValid(xs) ==> NetAll(names) != NetAll(ForceNames(xs))
  {
    hide NetAll;
    forall xs | ForcesValid(xs)
      ensures NetAll(names) != NetAll(ForceNames(xs))
    {
      if n < |xs| { assert ForceNames(xs)[n] == FORCES[xs[n]]; }
      if NetAll(names) == NetAll(ForceNames(xs)) { NetAllInjective(ForceNames(xs), names); }
    }
  }

  method DecodeForces(bytes: string) returns (r: Option<seq<nat>>)
    ensures r.Some? ==> (forall k :: 0 <= k < |r.value| ==> r.value[k] < 28) && bytes == NetAll(ForceNames(r.value))
    ensures r.None? ==> forall xs :: ForcesValid(xs) && |NetAll(ForceNames(xs))| <= MAXIMUM_BYTES ==> bytes != NetAll(ForceNames(xs))
  {
    hide NetAll;
    var names := DecodeStrings(bytes, 28);
    if names.None? { return None; }
    var forces: seq<nat> := [];
    for n := 0 to |names.value|
      invariant |forces| == n && forall k :: 0 <= k < n ==> forces[k] < 28 && FORCES[forces[k]] == names.value[k]
    {
      var i := 0;
      while i < 28 && names.value[n] != FORCES[i]
        invariant i <= 28 && forall j :: 0 <= j < i ==> names.value[n] != FORCES[j]
      {
        i := i + 1;
      }
      if i == 28 {
        NoForce(names.value, n);
        return None;
      }
      forces := forces + [i];
    }
    assert ForceNames(forces) == names.value;
    r := Some(forces);
  }

  /** A list with an item that is no pair is not a list of pairs. */
  lemma NoTagged(items: seq<string>, n: nat)
    requires n < |items|
    requires forall x: Tagged :: x.tag < 2 && TextValid(x.text, true) ==> items[n] != NetAll(TaggedFields(x))
    ensures forall xs :: TaggedValid(xs) ==> NetAll(items) != NetAll(TaggedTexts(xs))
  {
    hide NetAll, TextValid, TaggedFields;
    forall xs | TaggedValid(xs)
      ensures NetAll(items) != NetAll(TaggedTexts(xs))
    {
      if n < |xs| { assert TaggedTexts(xs)[n] == NetAll(TaggedFields(xs[n])); }
      if NetAll(items) == NetAll(TaggedTexts(xs)) { NetAllInjective(TaggedTexts(xs), items); }
    }
  }

  method DecodeTagged(bytes: string) returns (r: Option<seq<Tagged>>)
    ensures r.Some? ==> bytes == NetAll(TaggedTexts(r.value))
    ensures r.None? ==> forall xs :: TaggedValid(xs) && |NetAll(TaggedTexts(xs))| <= MAXIMUM_BYTES ==> bytes != NetAll(TaggedTexts(xs))
  {
    hide NetAll, Printed;
    var items := DecodeStrings(bytes, MAXIMUM_ITEMS);
    if items.None? { return None; }
    var found: seq<Tagged> := [];
    for n := 0 to |items.value|
      invariant |found| == n && forall k :: 0 <= k < n ==> NetAll(TaggedFields(found[k])) == items.value[k]
    {
      var item := DecodePair(items.value[n]);
      if item.None? {
        NoTagged(items.value, n);
        return None;
      }
      found := found + [item.value];
    }
    assert TaggedTexts(found) == items.value;
    r := Some(found);
  }

  method DecodePair(bytes: string) returns (r: Option<Tagged>)
    ensures r.Some? ==> bytes == NetAll(TaggedFields(r.value))
    ensures r.None? ==> forall x: Tagged :: x.tag < 2 && TextValid(x.text, true) ==> bytes != NetAll(TaggedFields(x))
  {
    hide NetAll, Printed, TextValid;
    var pair := DecodeStrings(bytes, 2);
    forall x: Tagged | x.tag < 2 && TextValid(x.text, true) && bytes == NetAll(TaggedFields(x))
      ensures pair == Some(TaggedFields(x)) && NumberOf(Printed(x.tag), 1) == Some(x.tag)
    {
      ValidText(x.text);
      PairShort(x);
      NetAllInjective(TaggedFields(x), pair.value);
      NumberExact(Printed(x.tag), x.tag, 1);
    }
    if pair.None? || |pair.value| != 2 { return None; }
    var tag := Number(pair.value[0], 1);
    if tag.None? { return None; }
    NumberExact(pair.value[0], tag.value, 1);
    r := Some(Tagged(tag.value, pair.value[1]));
    assert TaggedFields(r.value) == pair.value;
  }

  lemma ValidText(s: string)
    requires TextValid(s, true)
    ensures |s| <= MAXIMUM_VALUE_BYTES
  {
  }

  method DecodeNumbers(bytes: string) returns (r: Option<seq<nat>>)
    ensures r.Some? ==> bytes == NetAll(NumberTexts(r.value))
    ensures r.None? ==> forall xs :: NumbersValid(xs) && |NetAll(NumberTexts(xs))| <= MAXIMUM_BYTES ==> bytes != NetAll(NumberTexts(xs))
  {
    hide NetAll, Printed, NumberOf;
    var items := DecodeStrings(bytes, MAXIMUM_ITEMS);
    if items.None? { return None; }
    var found: seq<nat> := [];
    for n := 0 to |items.value|
      invariant |found| == n && forall k :: 0 <= k < n ==> Printed(found[k]) == items.value[k]
    {
      var number := Number(items.value[n], INT_MAX);
      if number.None? {
        forall xs | NumbersValid(xs) && bytes == NetAll(NumberTexts(xs))
          ensures false
        {
          NetAllInjective(NumberTexts(xs), items.value);
          assert NumberTexts(xs)[n] == Printed(xs[n]);
          NumberExact(items.value[n], xs[n], INT_MAX);
        }
        return None;
      }
      NumberExact(items.value[n], number.value, INT_MAX);
      found := found + [number.value];
    }
    assert NumberTexts(found) == items.value;
    r := Some(found);
  }

  method DecodeFlag(f: string) returns (r: Option<bool>)
    ensures r.Some? ==> f == Flag(r.value)
    ensures r.None? ==> forall b: bool :: f != Flag(b)
  {
    NumberExact(f, 0, 1);
    NumberExact(f, 1, 1);
    var number := Number(f, 1);
    if number.None? { return None; }
    r := Some(number.value == 1);
    NumberExact(f, number.value, 1);
  }

  /** The settings an accepted byte string stands for. */
  ghost function Decoded(bytes: string): (r: Option<Settings>)
    ensures r.Some? ==> Encoded(r.value) == Some(bytes)
  {
    if exists s: Settings :: Encoded(s) == Some(bytes) then var s: Settings :| Encoded(s) == Some(bytes); Some(s) else None
  }

  /** Decoding undoes encoding, and accepts nothing that encoding does not produce. */
  lemma DecodedExact(bytes: string, s: Settings)
    ensures Decoded(bytes) == Some(s) <==> Encoded(s) == Some(bytes)
  {
    hide Encoded;
    if Encoded(s) == Some(bytes) { EncodedInjective(s, Decoded(bytes).value); }
  }

  method DecodeFlags(fields: seq<string>) returns (r: Option<seq<bool>>)
    requires |fields| == 14
    ensures r.Some? ==> |r.value| == 9 && forall k :: 0 <= k < 9 ==> fields[k] == Flag(r.value[k])
    ensures r.None? ==> exists k :: 0 <= k < 9 && forall b: bool :: fields[k] != Flag(b)
  {
    hide Flag;
    var flags: seq<bool> := [];
    for k := 0 to 9
      invariant |flags| == k && forall j :: 0 <= j < k ==> fields[j] == Flag(flags[j])
    {
      var flag := DecodeFlag(fields[k]);
      if flag.None? { return None; }
      flags := flags + [flag.value];
    }
    r := Some(flags);
  }

  lemma FlagFields(s: Settings)
    ensures forall k :: 0 <= k < 9 ==> exists b: bool :: Scalars(s)[k] == Flag(b)
  {
    hide Flag, Printed;
    var x := Scalars(s);
    assert x[0] == Flag(s.autoDeconfigure) && x[1] == Flag(s.noAct) && x[2] == Flag(s.recursive) && x[3] == Flag(s.selectedOnly);
    assert x[4] == Flag(s.skipSameVersion) && x[5] == Flag(s.pending) && x[6] == Flag(s.noDebsig) && x[7] == Flag(s.robot);
    assert x[8] == Flag(s.noPager);
  }

  lemma ValidScalars(s: Settings)
    requires SettingsValid(s)
    ensures NumberOf(Scalars(s)[9], 2) == Some(s.triggers) && NumberOf(Scalars(s)[10], INT_MAX) == Some(s.abortAfter)
    ensures NumberOf(Scalars(s)[11], INT_MAX) == Some(s.debugMask) && Scalars(s)[12] == Flag(s.logFilePresent)
  {
    hide Flag, Printed, TextsValid, TaggedValid, NumbersValid, ForcesValid, NumberOf;
    NumberExact(Scalars(s)[9], s.triggers, 2);
    NumberExact(Scalars(s)[10], s.abortAfter, INT_MAX);
    NumberExact(Scalars(s)[11], s.debugMask, INT_MAX);
  }

  method DecodeScalars(fields: seq<string>) returns (r: Option<Settings>)
    requires |fields| == 14
    ensures r.Some? ==> Scalars(r.value) == fields
    ensures r.None? ==> forall s :: SettingsValid(s) ==> Scalars(s) != fields
  {
    hide Flag, Printed, NumberOf, SettingsValid, Scalars;
    forall s | SettingsValid(s) && Scalars(s) == fields
      ensures forall k :: 0 <= k < 9 ==> exists b: bool :: fields[k] == Flag(b)
      ensures NumberOf(fields[9], 2).Some? && NumberOf(fields[10], INT_MAX).Some? && NumberOf(fields[11], INT_MAX).Some?
      ensures exists b: bool :: fields[12] == Flag(b)
    {
      FlagFields(s);
      ValidScalars(s);
    }
    var flags := DecodeFlags(fields);
    if flags.None? { return None; }
    var triggers := Number(fields[9], 2);
    if triggers.None? { return None; }
    var abortAfter := Number(fields[10], INT_MAX);
    if abortAfter.None? { return None; }
    var debugMask := Number(fields[11], INT_MAX);
    if debugMask.None? { return None; }
    var present := DecodeFlag(fields[12]);
    if present.None? { return None; }
    var f := flags.value;
    NumberExact(fields[9], triggers.value, 2);
    NumberExact(fields[10], abortAfter.value, INT_MAX);
    NumberExact(fields[11], debugMask.value, INT_MAX);
    r := Some(Settings(f[0], f[1], f[2], f[3], f[4], f[5], f[6], f[7], f[8], triggers.value, abortAfter.value,
                       debugMask.value, present.value, fields[13], [], [], [], [], [], [], []));
    ScalarsAre(r.value, fields);
  }

  lemma ScalarsAre(s: Settings, fields: seq<string>)
    requires |fields| == 14
    requires fields[0] == Flag(s.autoDeconfigure) && fields[1] == Flag(s.noAct) && fields[2] == Flag(s.recursive)
    requires fields[3] == Flag(s.selectedOnly) && fields[4] == Flag(s.skipSameVersion) && fields[5] == Flag(s.pending)
    requires fields[6] == Flag(s.noDebsig) && fields[7] == Flag(s.robot) && fields[8] == Flag(s.noPager)
    requires fields[9] == Printed(s.triggers) && fields[10] == Printed(s.abortAfter) && fields[11] == Printed(s.debugMask)
    requires fields[12] == Flag(s.logFilePresent) && fields[13] == s.logFile
    ensures Scalars(s) == fields
  {
    hide Flag, Printed;
  }

  /** The list fields of `s`, whether or not its forces are in order. */
  predicate ListsAre(s: Settings, fields: seq<string>) {
    && |fields| == 7 && (forall k :: 0 <= k < |s.forces| ==> s.forces[k] < 28)
    && fields[0] == NetAll(ForceNames(s.forces)) && fields[1] == NetAll(s.ignoreDepends)
    && fields[2] == NetAll(TaggedTexts(s.hooks)) && fields[3] == NetAll(s.statusLoggers)
    && fields[4] == NetAll(TaggedTexts(s.filters)) && fields[5] == NetAll(NumberTexts(s.statusDescriptors))
    && fields[6] == NetAll(s.unmodeledOptions)
  }

  lemma SameLists(a: Settings, b: Settings, fields: seq<string>)
    requires ListsAre(a, fields) && ListsAre(b, fields)
    ensures a.forces == b.forces && a.ignoreDepends == b.ignoreDepends && a.hooks == b.hooks
    ensures a.statusLoggers == b.statusLoggers && a.filters == b.filters && a.statusDescriptors == b.statusDescriptors
    ensures a.unmodeledOptions == b.unmodeledOptions
  {
    hide NetAll, ForceNames, TaggedTexts, NumberTexts;
    NetAllInjective(ForceNames(a.forces), ForceNames(b.forces));
    ForceNamesInjective(a.forces, b.forces);
    NetAllInjective(a.ignoreDepends, b.ignoreDepends);
    NetAllInjective(TaggedTexts(a.hooks), TaggedTexts(b.hooks));
    TaggedTextsInjective(a.hooks, b.hooks);
    NetAllInjective(a.statusLoggers, b.statusLoggers);
    NetAllInjective(TaggedTexts(a.filters), TaggedTexts(b.filters));
    TaggedTextsInjective(a.filters, b.filters);
    NetAllInjective(NumberTexts(a.statusDescriptors), NumberTexts(b.statusDescriptors));
    NumberTextsInjective(a.statusDescriptors, b.statusDescriptors);
    NetAllInjective(a.unmodeledOptions, b.unmodeledOptions);
  }

  method DecodeLists(s: Settings, fields: seq<string>) returns (r: Option<Settings>)
    requires |fields| == 7 && forall k :: 0 <= k < 7 ==> |fields[k]| <= MAXIMUM_BYTES
    ensures r.Some? ==> ListsAre(r.value, fields) && Scalars(r.value) == Scalars(s)
    ensures r.None? ==> forall t :: SettingsValid(t) ==> !ListsAre(t, fields)
  {
    hide NetAll, Scalars, ForceNames, TaggedTexts, NumberTexts, TextValid;
    var forces := DecodeForces(fields[0]);
    if forces.None? { return None; }
    var ignores := DecodeStrings(fields[1], MAXIMUM_ITEMS);
    if ignores.None? { return None; }
    var hooks := DecodeTagged(fields[2]);
    if hooks.None? { return None; }
    var loggers := DecodeStrings(fields[3], MAXIMUM_ITEMS);
    if loggers.None? { return None; }
    var filters := DecodeTagged(fields[4]);
    if filters.None? { return None; }
    var descriptors := DecodeNumbers(fields[5]);
    if descriptors.None? { return None; }
    var unmodeled := DecodeStrings(fields[6], MAXIMUM_ITEMS);
    if unmodeled.None? { return None; }
    r := Some(s.(forces := forces.value, ignoreDepends := ignores.value, hooks := hooks.value, statusLoggers := loggers.value,
                 filters := filters.value, statusDescriptors := descriptors.value, unmodeledOptions := unmodeled.value));
    SameScalars(s, r.value);
  }

  lemma SameScalars(a: Settings, b: Settings)
    requires b == a.(forces := b.forces, ignoreDepends := b.ignoreDepends, hooks := b.hooks, statusLoggers := b.statusLoggers,
                     filters := b.filters, statusDescriptors := b.statusDescriptors, unmodeledOptions := b.unmodeledOptions)
    ensures Scalars(a) == Scalars(b)
  {
    hide Flag, Printed;
  }

  /** The fields of the encoding of `s`. */
  lemma EncodedFields(s: Settings, bytes: string, fields: seq<string>)
    requires Encoded(s) == Some(bytes) && bytes == NetAll(fields)
    ensures SettingsValid(s) && |fields| == 21 && fields[..14] == Scalars(s) && ListsAre(s, fields[14..])
    ensures Encodes(bytes, fields, 21, MAXIMUM_RECORD_BYTES)
  {
    hide NetAll, ForceNames, TaggedTexts, NumberTexts, Flag, Printed, TextsValid, TaggedValid, NumbersValid, TextValid;
    NetAllInjective(fields, Scalars(s) + Lists(s));
  }

  method DecodeSettings(bytes: string) returns (r: Option<Settings>)
    ensures r == Decoded(bytes)
  {
    hide NetAll, Scalars, ListsAre, SettingsValid, Encoded, Decoded;
    var fields := Fields(bytes, 21, MAXIMUM_RECORD_BYTES);
    forall s | Encoded(s) == Some(bytes)
      ensures fields.Some? && |fields.value| == 21
      ensures SettingsValid(s) && fields.value[..14] == Scalars(s) && ListsAre(s, fields.value[14..])
    {
      EncodedWhole(s, bytes);
      FieldsExact(bytes, Scalars(s) + Lists(s), 21, MAXIMUM_RECORD_BYTES);
      EncodedFields(s, bytes, fields.value);
    }
    NothingDecoded(bytes);
    if fields.None? || |fields.value| != 21 { return None; }
    var f := fields.value;
    var scalars := DecodeScalars(f[..14]);
    if scalars.None? { return None; }
    forall k | 0 <= k < 7
      ensures |f[14..][k]| <= MAXIMUM_BYTES
    {
      FieldFits(f, 14 + k);
    }
    var value := DecodeLists(scalars.value, f[14..]);
    if value.None? { return None; }
    var canonical := EncodeSettings(value.value);
    forall s | Encoded(s) == Some(bytes)
      ensures s == value.value
    {
      FlagsInjective(s, value.value);
      NumbersInjective(s, value.value);
      SameLists(s, value.value, f[14..]);
    }
    if canonical != Some(bytes) { return None; }
    DecodedExact(bytes, value.value);
    r := value;
  }

  lemma EncodedWhole(s: Settings, bytes: string)
    requires Encoded(s) == Some(bytes)
    ensures ForcesValid(s.forces) && bytes == NetAll(Scalars(s) + Lists(s))
    ensures Encodes(bytes, Scalars(s) + Lists(s), 21, MAXIMUM_RECORD_BYTES)
  {
    hide NetAll, ForceNames, TaggedTexts, NumberTexts, Flag, Printed, TextsValid, TaggedValid, NumbersValid, TextValid;
  }

  lemma NothingDecoded(bytes: string)
    ensures (forall s :: Encoded(s) != Some(bytes)) ==> Decoded(bytes).None?
  {
    hide Encoded;
  }
}
