/**
 * Policy records and their canonical list: the order of the records does not matter, and reading
 * a list back gives the records that were written.
 */
module EffectRecords {
  import opened Text
  import opened ByteOrder
  import opened Reviews
  import opened Netstrings
  import opened EffectSettings

  const MAXIMUM_RECORDS: nat := 64
  const PROFILE := "dpkg-1.23.7-effects-1"
  const RECORD_TAG := "CYDIA-NATIVE-EFFECT-POLICY-1"
  const RECORD_MARK := "asserted-native-effect-settings"
  const LIST_TAG := "CYDIA-NATIVE-EFFECT-POLICIES-1"

  const DEFAULTS := Settings(false, false, false, false, false, false, false, false, false, 0, 0, 0, false, "",
                             [], [], [], [], [], [], [])

  datatype Record = Record(semanticProfile: string, executorPath: string, executorSHA256: string, inputIdentity: string,
                           role: nat, optionPrefix: seq<string>, settings: Settings, unsupportedSettings: string)

  predicate Supported(profile: string) {
    profile == PROFILE
  }

  predicate Token(s: string) {
    0 < |s| <= 128 && forall k :: 0 <= k < |s| ==> ' ' < s[k] < 127 as char
  }

  predicate SettingsFit(r: Record) {
    if Supported(r.semanticProfile) then |r.unsupportedSettings| == 0 && Encoded(r.settings).Some?
    else
      && Encoded(DEFAULTS).Some? && Encoded(r.settings) == Encoded(DEFAULTS)
      && 0 < |r.unsupportedSettings| <= MAXIMUM_RECORD_BYTES
  }

  predicate RecordValid(r: Record) {
    && Token(r.semanticProfile) && AbsolutePath(r.executorPath) && Digest(r.executorSHA256) && Digest(r.inputIdentity)
    && r.role <= 4 && |r.optionPrefix| > 0 && TextsValid(r.optionPrefix, true) && SettingsFit(r)
  }

  function SettingsBytes(r: Record): string
    requires SettingsFit(r)
  {
    if Supported(r.semanticProfile) then Encoded(r.settings).value else r.unsupportedSettings
  }

  function RecordFields(r: Record): seq<string>
    requires SettingsFit(r)
  {
    [RECORD_TAG, r.semanticProfile, r.executorPath, r.executorSHA256, r.inputIdentity, Printed(r.role),
     NetAll(r.optionPrefix), SettingsBytes(r), RECORD_MARK]
  }

  function EncodedRecord(r: Record): Option<string> {
    if RecordValid(r) && |NetAll(RecordFields(r))| <= MAXIMUM_RECORD_BYTES then Some(NetAll(RecordFields(r))) else None
  }

  lemma RecordParts(r: Record)
    requires SettingsFit(r)
    ensures var f := RecordFields(r);
            && |f| == 9 && f[0] == RECORD_TAG && f[1] == r.semanticProfile && f[2] == r.executorPath && f[3] == r.executorSHA256
            && f[4] == r.inputIdentity && f[5] == Printed(r.role) && f[6] == NetAll(r.optionPrefix)
            && f[7] == SettingsBytes(r) && f[8] == RECORD_MARK
  {
    hide NetAll, Printed, SettingsBytes;
  }

  lemma FieldsInjective(a: Record, b: Record)
    requires SettingsFit(a) && SettingsFit(b) && RecordFields(a) == RecordFields(b)
    ensures a == b
  {
    hide NetAll, Printed, RecordFields, Encoded, Supported;
    RecordParts(a);
    RecordParts(b);
    PrintedInjective(a.role, b.role);
    NetAllInjective(a.optionPrefix, b.optionPrefix);
    if Supported(a.semanticProfile) {
      EncodedInjective(a.settings, b.settings);
    } else {
      EncodedInjective(a.settings, b.settings);
    }
  }

  lemma RecordInjective(a: Record, b: Record)
    requires EncodedRecord(a).Some? && EncodedRecord(a) == EncodedRecord(b)
    ensures a == b
  {
    hide NetAll, RecordFields, SettingsFit, Token, AbsolutePath, Digest, TextsValid;
    NetAllInjective(RecordFields(a), RecordFields(b));
    FieldsInjective(a, b);
  }

  // ---------------------------------------------------------------------------------------------
  // Lists of records

  function ValueOf(r: Record): string {
    var v := EncodedRecord(r);
    if v.Some? then v.value else ""
  }

  function Values(rs: seq<Record>): (vs: seq<string>)
    ensures |vs| == |rs| && forall k :: 0 <= k < |rs| ==> vs[k] == ValueOf(rs[k])
  {
    seq(|rs|, k requires 0 <= k < |rs| => ValueOf(rs[k]))
  }

  predicate AllEncodable(rs: seq<Record>) {
    |rs| <= MAXIMUM_RECORDS && forall k :: 0 <= k < |rs| ==> EncodedRecord(rs[k]).Some?
  }

  function Total(vs: seq<string>): nat {
    if |vs| == 0 then 0 else Total(vs[..|vs| - 1]) + |vs[|vs| - 1]| + 16
  }

  function ListBytes(vs: seq<string>): string {
    NetAll([LIST_TAG, NetAll(Sort(vs))])
  }

  predicate ListFits(vs: seq<string>) {
    Total(vs) <= MAXIMUM_BYTES && |NetAll(Sort(vs))| <= MAXIMUM_BYTES && |ListBytes(vs)| <= MAXIMUM_BYTES
  }

  function EncodedRecords(rs: seq<Record>): Option<string> {
    if AllEncodable(rs) && ListFits(Values(rs)) then Some(ListBytes(Values(rs))) else None
  }

  lemma {:induction false} TotalInsert(xs: seq<string>, x: string)
    ensures Total(Insert(xs, x)) == Total(xs) + |x| + 16
  {
    if |xs| > 0 && Precedes(x, xs[|xs| - 1]) { TotalInsert(xs[..|xs| - 1], x); }
  }

  lemma {:induction false} TotalSorted(vs: seq<string>)
    ensures Total(Sort(vs)) == Total(vs)
  {
    if |vs| > 0 {
      TotalSorted(vs[..|vs| - 1]);
      TotalInsert(Sort(vs[..|vs| - 1]), vs[|vs| - 1]);
    }
  }

  lemma TakeOut<T>(xs: seq<T>, j: nat)
    requires j < |xs|
    ensures multiset(xs) == multiset(xs[..j] + xs[j + 1..]) + multiset{xs[j]}
  {
    assert xs == xs[..j] + ([xs[j]] + xs[j + 1..]);
  }

  lemma ValuesTakeOut(rs: seq<Record>, j: nat)
    requires j < |rs|
    ensures multiset(Values(rs)) == multiset(Values(rs[..j] + rs[j + 1..])) + multiset{ValueOf(rs[j])}
  {
    hide ValueOf;
    TakeOut(Values(rs), j);
    assert Values(rs[..j] + rs[j + 1..]) == Values(rs)[..j] + Values(rs)[j + 1..];
  }

  lemma LastOut<T>(xs: seq<T>)
    requires |xs| > 0
    ensures multiset(xs) == multiset(xs[..|xs| - 1]) + multiset{xs[|xs| - 1]}
  {
    assert xs == xs[..|xs| - 1] + [xs[|xs| - 1]];
  }

  /** Rearranged records have rearranged encodings. */
  lemma {:induction false} ValuesRearranged(rs: seq<Record>, ts: seq<Record>)
    requires multiset(rs) == multiset(ts)
    ensures multiset(Values(rs)) == multiset(Values(ts))
  {
    hide ValueOf;
    assert |multiset(rs)| == |multiset(ts)|;
    if |rs| > 0 {
      var n := |rs| - 1;
      assert rs[n] in multiset(ts);
      var j :| 0 <= j < |ts| && ts[j] == rs[n];
      var rest := ts[..j] + ts[j + 1..];
      LastOut(rs);
      TakeOut(ts, j);
      SameRest(multiset(rs[..n]), multiset(rest), rs[n]);
      ValuesRearranged(rs[..n], rest);
      ValuesTakeOut(ts, j);
      ValuesLast(rs);
    }
  }

  lemma ValuesLast(rs: seq<Record>)
    requires |rs| > 0
    ensures multiset(Values(rs)) == multiset(Values(rs[..|rs| - 1])) + multiset{ValueOf(rs[|rs| - 1])}
  {
    hide ValueOf;
    LastOut(Values(rs));
    assert Values(rs)[..|rs| - 1] == Values(rs[..|rs| - 1]);
  }

  /** Encoding ignores the order of the records. */
  lemma OrderIgnored(rs: seq<Record>, ts: seq<Record>)
    requires multiset(rs) == multiset(ts)
    ensures EncodedRecords(rs) == EncodedRecords(ts)
  {
    hide EncodedRecord, NetAll, Sort, ValueOf;
    assert |multiset(rs)| == |multiset(ts)|;
    ValuesRearranged(rs, ts);
    SortCanonical(Values(rs), Values(ts));
    TotalSorted(Values(rs));
    TotalSorted(Values(ts));
    SameEncodable(rs, ts);
    SameEncodable(ts, rs);
  }

  lemma SameEncodable(rs: seq<Record>, ts: seq<Record>)
    requires multiset(rs) == multiset(ts)
    ensures AllEncodable(rs) ==> AllEncodable(ts)
  {
    hide EncodedRecord;
    assert |multiset(rs)| == |multiset(ts)|;
    if AllEncodable(rs) {
      forall k | 0 <= k < |ts|
        ensures EncodedRecord(ts[k]).Some?
      {
        assert ts[k] in multiset(rs);
      }
    }
  }

  lemma FindRecord(rs: seq<Record>, ts: seq<Record>, n: nat) returns (j: nat)
    requires multiset(Values(rs)) == multiset(Values(ts)) && n < |rs|
    requires (forall k :: 0 <= k < |rs| ==> EncodedRecord(rs[k]).Some?) && forall k :: 0 <= k < |ts| ==> EncodedRecord(ts[k]).Some?
    ensures j < |ts| && ts[j] == rs[n]
  {
    hide EncodedRecord;
    assert Values(rs)[n] in multiset(Values(ts));
    j :| 0 <= j < |ts| && Values(ts)[j] == Values(rs)[n];
    RecordInjective(ts[j], rs[n]);
  }

  /** Equal encodings come from the same records in some order. */
  lemma {:induction false} ValuesDetermine(rs: seq<Record>, ts: seq<Record>)
    requires multiset(Values(rs)) == multiset(Values(ts))
    requires (forall k :: 0 <= k < |rs| ==> EncodedRecord(rs[k]).Some?) && forall k :: 0 <= k < |ts| ==> EncodedRecord(ts[k]).Some?
    ensures multiset(rs) == multiset(ts)
  {
    hide EncodedRecord, ValueOf;
    assert |multiset(Values(rs))| == |multiset(Values(ts))|;
    if |rs| > 0 {
      var n := |rs| - 1;
      var j := FindRecord(rs, ts, n);
      LastOut(Values(rs));
      assert Values(rs)[..n] == Values(rs[..n]);
      ValuesTakeOut(ts, j);
      SameRest(multiset(Values(rs[..n])), multiset(Values(ts[..j] + ts[j + 1..])), Values(rs)[n]);
      ValuesDetermine(rs[..n], ts[..j] + ts[j + 1..]);
      LastOut(rs);
      TakeOut(ts, j);
    }
  }

  lemma EncodingDetermines(rs: seq<Record>, ts: seq<Record>)
    requires EncodedRecords(rs).Some? && EncodedRecords(rs) == EncodedRecords(ts)
    ensures multiset(rs) == multiset(ts)
  {
    hide EncodedRecord, NetAll, Sort, ValueOf, Total;
    var x, y := Sort(Values(rs)), Sort(Values(ts));
    NetAllInjective([LIST_TAG, NetAll(x)], [LIST_TAG, NetAll(y)]);
    assert [LIST_TAG, NetAll(x)][1] == [LIST_TAG, NetAll(y)][1];
    NetAllInjective(x, y);
    SortCorrect(Values(rs));
    SortCorrect(Values(ts));
    ValuesDetermine(rs, ts);
  }

  // ---------------------------------------------------------------------------------------------
  // Encoding and decoding

  method WritePrefix(r: Record) returns (bytes: Option<string>)
    ensures bytes == if TextsValid(r.optionPrefix, true) && |NetAll(r.optionPrefix)| <= MAXIMUM_BYTES
                     then Some(NetAll(r.optionPrefix)) else None
  {
    bytes := WriteStrings(r.optionPrefix, true);
  }

  method WriteSettings(r: Record) returns (bytes: Option<string>)
    ensures bytes == if SettingsFit(r) then Some(SettingsBytes(r)) else None
  {
    hide Encoded;
    if Supported(r.semanticProfile) {
      if |r.unsupportedSettings| > 0 { return None; }
      bytes := EncodeSettings(r.settings);
      return;
    }
    var empty := EncodeSettings(DEFAULTS);
    if empty.None? { return None; }
    var actual := EncodeSettings(r.settings);
    if actual != empty || |r.unsupportedSettings| == 0 || |r.unsupportedSettings| > MAXIMUM_RECORD_BYTES { return None; }
    bytes := Some(r.unsupportedSettings);
  }

  method EncodeRecord(r: Record) returns (bytes: Option<string>)
    ensures bytes == EncodedRecord(r)
  {
    hide NetAll, Encoded, SettingsBytes, SettingsFit, TextsValid, Token, AbsolutePath, Digest, Printed;
    if !Token(r.semanticProfile) || !AbsolutePath(r.executorPath) || !Digest(r.executorSHA256) || !Digest(r.inputIdentity)
       || r.role > 4 || |r.optionPrefix| == 0 { return None; }
    PrefixFits(r);
    var prefix := WritePrefix(r);
    if prefix.None? { return None; }
    var settings := WriteSettings(r);
    if settings.None? { return None; }
    var fields := [RECORD_TAG, r.semanticProfile, r.executorPath, r.executorSHA256, r.inputIdentity, Printed(r.role),
                   prefix.value, settings.value, RECORD_MARK];
    var result := new Writer(MAXIMUM_RECORD_BYTES);
    for k := 0 to |fields|
      invariant fresh(result) && result.Holds() && result.maximum == MAXIMUM_RECORD_BYTES && result.fields == fields[..k]
    {
      result.Field(fields[k]);
    }
    assert fields[..|fields|] == fields;
    bytes := if result.valid then Some(result.bytes) else None;
  }

  lemma PrefixFits(r: Record)
    ensures EncodedRecord(r).Some? ==> |NetAll(r.optionPrefix)| <= MAXIMUM_BYTES
  {
    hide NetAll, RecordFields, Token, AbsolutePath, Digest, SettingsFit, TextsValid;
    if EncodedRecord(r).Some? {
      RecordParts(r);
      FieldFits(RecordFields(r), 6);
    }
  }

  method EncodeRecords(rs: seq<Record>) returns (bytes: Option<string>)
    ensures bytes == EncodedRecords(rs)
  {
    hide NetAll, EncodedRecord, Sort;
    if |rs| > MAXIMUM_RECORDS { return None; }
    var values: seq<string>, total: nat := [], 0;
    for k := 0 to |rs|
      invariant values == Values(rs[..k]) && total == Total(values) <= MAXIMUM_BYTES
      invariant forall j :: 0 <= j < k ==> EncodedRecord(rs[j]).Some?
    {
      var value := EncodeRecord(rs[k]);
      if value.None? { return None; }
      ValuesNext(rs, k);
      TotalGrows(rs, k + 1);
      if |value.value| + 16 > MAXIMUM_BYTES - total { return None; }
      total := total + |value.value| + 16;
      values := values + [value.value];
    }
    assert rs[..|rs|] == rs;
    var sorted := Sort(values);
    var list := WriteAll(sorted);
    if list.None? { return None; }
    bytes := WriteAll([LIST_TAG, list.value]);
  }

  /** Writes the fields one after the other under the overall limit. */
  method WriteAll(fields: seq<string>) returns (bytes: Option<string>)
    ensures bytes == if |NetAll(fields)| <= MAXIMUM_BYTES then Some(NetAll(fields)) else None
  {
    hide NetAll;
    var writer := new Writer(MAXIMUM_BYTES);
    for k := 0 to |fields|
      invariant fresh(writer) && writer.Holds() && writer.maximum == MAXIMUM_BYTES && writer.fields == fields[..k]
    {
      writer.Field(fields[k]);
    }
    assert fields[..|fields|] == fields;
    bytes := if writer.valid then Some(writer.bytes) else None;
  }

  lemma ValuesNext(rs: seq<Record>, k: nat)
    requires k < |rs|
    ensures Values(rs[..k + 1]) == Values(rs[..k]) + [ValueOf(rs[k])]
    ensures Total(Values(rs[..k + 1])) == Total(Values(rs[..k])) + |ValueOf(rs[k])| + 16
  {
    hide ValueOf;
    var vs := Values(rs[..k + 1]);
    assert vs[..k] == Values(rs[..k]);
  }

  lemma {:induction false} TotalGrows(rs: seq<Record>, k: nat)
    requires k <= |rs|
    ensures Total(Values(rs[..k])) <= Total(Values(rs))
    decreases |rs| - k
  {
    hide ValueOf;
    if k < |rs| {
      ValuesNext(rs, k);
      TotalGrows(rs, k + 1);
    } else {
      assert rs[..k] == rs;
    }
  }

  /** One record from its nine fields; what it means must encode back to them. */
  method DecodeRecord(item: string) returns (r: Option<Record>)
    ensures forall t: Record :: EncodedRecord(t) == Some(item) ==> r == Some(t)
  {
    hide NetAll, EncodedRecord, Decoded, Encoded, Printed, TextsValid;
    var fields := Fields(item, 9, MAXIMUM_RECORD_BYTES);
    forall t: Record | EncodedRecord(t) == Some(item)
      ensures RecordRead(t, item, fields)
    {
      RecordIsRead(t, item);
    }
    if fields.None? || |fields.value| != 9 { return None; }
    var f := fields.value;
    if f[0] != RECORD_TAG || f[8] != RECORD_MARK { return None; }
    var role := Number(f[5], 4);
    if role.None? { return None; }
    var prefix := Fields(f[6], MAXIMUM_ITEMS, MAXIMUM_BYTES);
    if prefix.None? { return None; }
    var settings := DEFAULTS;
    if Supported(f[1]) {
      var decoded := DecodeSettings(f[7]);
      if decoded.None? { return None; }
      settings := decoded.value;
    }
    r := Some(Record(f[1], f[2], f[3], f[4], role.value, prefix.value, settings, if Supported(f[1]) then "" else f[7]));
  }

  /** Everything the decoder reads off the encoding of `t`. */
  ghost predicate RecordRead(t: Record, item: string, fields: Option<seq<string>>) {
    && fields.Some? && |fields.value| == 9
    && var f := fields.value;
    && f[0] == RECORD_TAG && f[1] == t.semanticProfile && f[2] == t.executorPath && f[3] == t.executorSHA256
    && f[4] == t.inputIdentity && NumberOf(f[5], 4) == Some(t.role)
    && FieldsOf(f[6], MAXIMUM_ITEMS, MAXIMUM_BYTES) == Some(t.optionPrefix) && f[8] == RECORD_MARK
    && (if Supported(t.semanticProfile) then Decoded(f[7]) == Some(t.settings) && t.unsupportedSettings == ""
        else t.settings == DEFAULTS && t.unsupportedSettings == f[7])
  }

  lemma RecordIsRead(t: Record, item: string)
    requires EncodedRecord(t) == Some(item)
    ensures RecordRead(t, item, FieldsOf(item, 9, MAXIMUM_RECORD_BYTES))
  {
    hide NetAll, Decoded, Encoded, Printed, RecordFields, Token, AbsolutePath, Digest, NumberOf, FieldsOf;
    RecordParts(t);
    FieldsExact(item, RecordFields(t), 9, MAXIMUM_RECORD_BYTES);
    NumberExact(Printed(t.role), t.role, 4);
    PrefixFits(t);
    FieldsExact(NetAll(t.optionPrefix), t.optionPrefix, MAXIMUM_ITEMS, MAXIMUM_BYTES);
    if Supported(t.semanticProfile) {
      DecodedExact(SettingsBytes(t), t.settings);
    } else {
      EncodedInjective(t.settings, DEFAULTS);
    }
  }

  /** Every accepted byte string re-encodes to itself, and decoding what was encoded permutes the records. */
  method DecodeRecords(bytes: string) returns (r: Option<seq<Record>>)
    ensures r.Some? ==> EncodedRecords(r.value) == Some(bytes)
    ensures forall rs: seq<Record> :: EncodedRecords(rs) == Some(bytes) ==> r.Some? && multiset(r.value) == multiset(rs)
  {
    hide NetAll, EncodedRecord, EncodedRecords;
    var fields := Fields(bytes, 2, MAXIMUM_BYTES);
    forall rs: seq<Record> | EncodedRecords(rs) == Some(bytes)
      ensures fields == Some([LIST_TAG, NetAll(Sort(Values(rs)))])
      ensures FieldsOf(NetAll(Sort(Values(rs))), MAXIMUM_RECORDS, MAXIMUM_BYTES) == Some(Sort(Values(rs)))
    {
      ListIsRead(rs, bytes);
    }
    if fields.None? || |fields.value| != 2 || fields.value[0] != LIST_TAG { return None; }
    var items := Fields(fields.value[1], MAXIMUM_RECORDS, MAXIMUM_BYTES);
    if items.None? { return None; }
    var found: seq<Record> := [];
    for n := 0 to |items.value|
      invariant |found| == n
      invariant forall k, t: Record :: 0 <= k < n && EncodedRecord(t) == Some(items.value[k]) ==> found[k] == t
    {
      var record := DecodeRecord(items.value[n]);
      if record.None? {
        forall rs: seq<Record> | EncodedRecords(rs) == Some(bytes)
          ensures false
        {
          ValueHasRecord(rs, items.value[n]);
        }
        return None;
      }
      found := found + [record.value];
    }
    var canonical := EncodeRecords(found);
    if canonical != Some(bytes) {
      forall rs: seq<Record> | EncodedRecords(rs) == Some(bytes)
        ensures false
      {
        FoundEncodes(rs, items.value, found, bytes);
      }
      return None;
    }
    r := Some(found);
    forall rs: seq<Record> | EncodedRecords(rs) == Some(bytes)
      ensures multiset(found) == multiset(rs)
    {
      EncodingDetermines(rs, found);
    }
  }

  lemma ListIsRead(rs: seq<Record>, bytes: string)
    requires EncodedRecords(rs) == Some(bytes)
    ensures FieldsOf(bytes, 2, MAXIMUM_BYTES) == Some([LIST_TAG, NetAll(Sort(Values(rs)))])
    ensures FieldsOf(NetAll(Sort(Values(rs))), MAXIMUM_RECORDS, MAXIMUM_BYTES) == Some(Sort(Values(rs)))
  {
    hide NetAll, EncodedRecord, Sort, ValueOf, FieldsOf, Total;
    var sorted := Sort(Values(rs));
    SortCorrect(Values(rs));
    FieldsExact(bytes, [LIST_TAG, NetAll(sorted)], 2, MAXIMUM_BYTES);
    FieldsExact(NetAll(sorted), sorted, MAXIMUM_RECORDS, MAXIMUM_BYTES);
  }

  lemma ValueHasRecord(rs: seq<Record>, item: string)
    requires EncodedRecords(rs).Some? && item in Sort(Values(rs))
    ensures exists t: Record :: t in rs && EncodedRecord(t) == Some(item)
  {
    hide EncodedRecord, Sort, Total, NetAll;
    SortHolds(Values(rs));
    var k :| 0 <= k < |rs| && Values(rs)[k] == item;
    assert EncodedRecord(rs[k]) == Some(item);
  }

  /** Decoding every item of a list's encoding gives records with that very encoding. */
  lemma FoundEncodes(rs: seq<Record>, items: seq<string>, found: seq<Record>, bytes: string)
    requires EncodedRecords(rs) == Some(bytes) && items == Sort(Values(rs)) && |found| == |items|
    requires forall k, t: Record :: 0 <= k < |items| && EncodedRecord(t) == Some(items[k]) ==> found[k] == t
    ensures EncodedRecords(found) == Some(bytes) && multiset(found) == multiset(rs)
  {
    hide EncodedRecord, Sort, NetAll, Total;
    SortCorrect(Values(rs));
    forall k | 0 <= k < |items|
      ensures EncodedRecord(found[k]) == Some(items[k])
    {
      ValueHasRecord(rs, items[k]);
    }
    assert Values(found) == items;
    ValuesDetermine(found, rs);
    OrderIgnored(found, rs);
  }
}
