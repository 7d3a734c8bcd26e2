/**
 * Canonical netstrings: a writer with a size limit and a reader with a count limit that undo each
 * other exactly.
 */
module Netstrings {
  import opened Text
  import opened DpkgVersion
  import opened Reviews

  const MAXIMUM_BYTES: nat := 1024 * 1024

  // ---------------------------------------------------------------------------------------------
  // Decimal numbers as std::to_string prints them

  function DigitOf(n: nat): (c: char)
    requires n < 10
    ensures Digit(c) && DigitValue(c) == n
  {
    ('0' as int + n) as char
  }

  function Printed(n: nat): (s: string)
    ensures |s| > 0 && Digits(s)
  {
    if n < 10 then [DigitOf(n)] else Printed(n / 10) + [DigitOf(n % 10)]
  }

  /** The spelling a reader accepts: digits, and no leading zero except in zero itself. */
  predicate Plain(s: string) {
    |s| > 0 && Digits(s) && (|s| > 1 ==> s[0] != '0')
  }

  lemma {:induction false} PrintedValue(n: nat)
    ensures Plain(Printed(n)) && Decimal(Printed(n)) == n
    ensures n > 0 ==> Printed(n)[0] != '0'
  {
    var s := Printed(n);
    if n < 10 {
      assert s[..0] == "";
    } else {
      PrintedValue(n / 10);
      assert s[..|s| - 1] == Printed(n / 10);
    }
  }

  lemma PlainUnique(x: string, y: string)
    requires Plain(x) && Plain(y) && Decimal(x) == Decimal(y)
    ensures x == y
  {
    var a, b := (if x[0] == '0' then x[1..] else x), (if y[0] == '0' then y[1..] else y);
    if x[0] == '0' { ZeroValue(x); }
    if y[0] == '0' { ZeroValue(y); }
    if x[0] != '0' { StrippedPositive(x); }
    if y[0] != '0' { StrippedPositive(y); }
    if x[0] != '0' && y[0] != '0' { StrippedUnique(x, y); }
  }

  lemma ZeroValue(x: string)
    requires Plain(x) && x[0] == '0'
    ensures x == "0" && Decimal(x) == 0
  {
    assert x[..0] == "";
  }

  lemma PlainPrints(x: string)
    requires Plain(x)
    ensures Printed(Decimal(x)) == x
  {
    PrintedValue(Decimal(x));
    PlainUnique(x, Printed(Decimal(x)));
  }

  lemma {:induction false} PrintedShort(n: nat, k: nat, bound: nat)
    requires k > 0 && n < bound && bound == Power(k)
    ensures |Printed(n)| <= k
    decreases k
  {
    if n >= 10 {
      PrintedShort(n / 10, k - 1, Power(k - 1));
    }
  }

  function Power(k: nat): (p: nat)
    ensures p > 0
  {
    if k == 0 then 1 else 10 * Power(k - 1)
  }

  // ---------------------------------------------------------------------------------------------
  // One field and many

  function Net(s: string): (t: string)
    ensures |t| == |Printed(|s|)| + |s| + 2
  {
    Printed(|s|) + ":" + (s + ",")
  }

  function NetAll(fs: seq<string>): string {
    if |fs| == 0 then "" else Net(fs[0]) + NetAll(fs[1..])
  }

  lemma PrintedWithout(n: nat)
    ensures Without(Printed(n), ':')
  {
  }

  /** No netstring is the beginning of another. */
  lemma NetHead(a: string, x: string, b: string, y: string)
    requires Net(a) + x == Net(b) + y
    ensures a == b && x == y
  {
    var p, q := Printed(|a|), Printed(|b|);
    assert Net(a) + x == p + [':'] + (a + "," + x);
    assert Net(b) + y == q + [':'] + (b + "," + y);
    PrintedWithout(|a|);
    PrintedWithout(|b|);
    SeparatorPlace(p, a + "," + x, q, b + "," + y, ':');
    PrintedValue(|a|);
    PrintedValue(|b|);
    assert a == (a + "," + x)[..|a|] && b == (b + "," + y)[..|b|];
    assert x == (a + "," + x)[|a| + 1..] && y == (b + "," + y)[|b| + 1..];
  }

  lemma NetAllNonempty(fs: seq<string>)
    requires |fs| > 0
    ensures |NetAll(fs)| > 0
  {
    assert |Net(fs[0])| > 0;
  }

  /** A byte string is the encoding of at most one list. */
  lemma {:induction false} NetAllInjective(xs: seq<string>, ys: seq<string>)
    requires NetAll(xs) == NetAll(ys)
    ensures xs == ys
  {
    if |xs| == 0 || |ys| == 0 {
      if |xs| > 0 { NetAllNonempty(xs); }
      if |ys| > 0 { NetAllNonempty(ys); }
    } else {
      NetHead(xs[0], NetAll(xs[1..]), ys[0], NetAll(ys[1..]));
      NetAllInjective(xs[1..], ys[1..]);
      assert xs == [xs[0]] + xs[1..] && ys == [ys[0]] + ys[1..];
    }
  }

  lemma {:induction false} NetAllAppend(xs: seq<string>, ys: seq<string>)
    ensures NetAll(xs + ys) == NetAll(xs) + NetAll(ys)
  {
    hide Net;
    if |xs| == 0 {
      assert xs + ys == ys && "" + NetAll(ys) == NetAll(ys);
    } else {
      NetAllAppend(xs[1..], ys);
      assert (xs + ys)[1..] == xs[1..] + ys;
      JoinThree(Net(xs[0]), NetAll(xs[1..]), NetAll(ys));
    }
  }

  lemma JoinThree(x: string, y: string, z: string)
    ensures x + (y + z) == (x + y) + z
  {
  }

  lemma NetAllPush(xs: seq<string>, s: string)
    ensures NetAll(xs + [s]) == NetAll(xs) + Net(s)
  {
    NetAllAppend(xs, [s]);
    assert [s][1..] == [];
    assert Net(s) + "" == Net(s);
  }

  /** What remains after the first fields of an encoding encodes the remaining fields. */
  lemma {:induction false} NetAllRest(fs: seq<string>, rs: seq<string>, rest: string)
    requires NetAll(fs) == NetAll(rs) + rest
    ensures |rs| <= |fs| && rs == fs[..|rs|] && rest == NetAll(fs[|rs|..])
  {
    hide Net;
    if |rs| == 0 {
      assert NetAll(rs) + rest == rest;
    } else {
      assert NetAll(rs) + rest == Net(rs[0]) + (NetAll(rs[1..]) + rest);
      if |fs| > 0 {
        NetHead(fs[0], NetAll(fs[1..]), rs[0], NetAll(rs[1..]) + rest);
        NetAllRest(fs[1..], rs[1..], rest);
        assert fs[1..][|rs| - 1..] == fs[|rs|..];
        assert rs == [rs[0]] + rs[1..];
      } else {
        NetAllNonempty(rs);
      }
    }
  }

  // ---------------------------------------------------------------------------------------------
  // The writer

  class Writer {
    const maximum: nat
    var bytes: string
    var valid: bool
    ghost var fields: seq<string>

    /** The fields written so far, unless they outgrew the limit. */
    ghost predicate Holds()
      reads this
    {
      if valid then bytes == NetAll(fields) && |bytes| <= maximum else bytes == "" && |NetAll(fields)| > maximum
    }

    constructor (maximum: nat)
      ensures Holds() && fields == [] && this.maximum == maximum
    {
      this.maximum := maximum;
      bytes, valid, fields := "", true, [];
    }

    method Field(s: string)
      requires Holds()
      modifies this
      ensures Holds() && fields == old(fields) + [s]
    {
      NetAllPush(fields, s);
      fields := fields + [s];
      if !valid { return; }
      var size := Printed(|s|);
      if |s| > maximum || |size| + 2 > maximum - |s| || |s| + |size| + 2 > maximum - |bytes| {
        valid, bytes := false, "";
        return;
      }
      bytes := bytes + (size + ":" + (s + ","));
    }
  }

  // ---------------------------------------------------------------------------------------------
  // The reader

  /** `bytes` encodes `fs` within the limits. */
  predicate Encodes(bytes: string, fs: seq<string>, count: nat, maximum: nat) {
    |bytes| <= maximum && |fs| <= count && bytes == NetAll(fs)
  }

  /** The fields of an acceptable encoding. */
  ghost function FieldsOf(bytes: string, count: nat, maximum: nat): (r: Option<seq<string>>)
    ensures r.Some? ==> Encodes(bytes, r.value, count, maximum)
  {
    if exists fs: seq<string> :: Encodes(bytes, fs, count, maximum)
    then var fs: seq<string> :| Encodes(bytes, fs, count, maximum); Some(fs)
    else None
  }

  lemma FieldsExact(bytes: string, fs: seq<string>, count: nat, maximum: nat)
    ensures FieldsOf(bytes, count, maximum) == Some(fs) <==> Encodes(bytes, fs, count, maximum)
  {
    hide NetAll;
    if Encodes(bytes, fs, count, maximum) {
      NetAllInjective(fs, FieldsOf(bytes, count, maximum).value);
    }
  }

  /** `s` is the next field of `bytes` at `at`. */
  predicate FieldAt(bytes: string, at: nat, s: string) {
    at + |Net(s)| <= |bytes| && bytes[at..at + |Net(s)|] == Net(s)
  }

  lemma HeadOfField(bytes: string, at: nat, s: string)
    requires at <= |bytes| && FieldAt(bytes, at, s)
    ensures var size := Printed(|s|);
            var e := at + |size|;
            && e + 1 + |s| < |bytes|
            && bytes[at..e] == size && bytes[e] == ':' && bytes[e + 1..e + 1 + |s|] == s && bytes[e + 1 + |s|] == ','
            && RunEnd(bytes, at, true) == e
  {
    hide Net, FieldAt;
    PartsOfField(bytes, at, s);
    NetParts(s);
    var e := at + |Printed(|s|)|;
    forall k | at <= k < e
      ensures Digit(bytes[k])
    {
      assert bytes[k] == bytes[at..e][k - at];
    }
    RunIs(bytes, at, e);
  }

  lemma PartsOfField(bytes: string, at: nat, s: string)
    requires at <= |bytes| && FieldAt(bytes, at, s)
    ensures var size := Printed(|s|);
            var e := at + |size|;
            && e + 1 + |s| < |bytes|
            && bytes[at..e] == size && bytes[e] == ':' && bytes[e + 1..e + 1 + |s|] == s && bytes[e + 1 + |s|] == ','
  {
    hide Net;
    var size, t := Printed(|s|), Net(s);
    var e := at + |size|;
    var slice := bytes[at..at + |t|];
    NetParts(s);
    assert forall k :: 0 <= k < |t| ==> bytes[at + k] == slice[k] == t[k];
    forall k | at <= k < e
      ensures bytes[k] == size[k - at]
    {
      assert bytes[k] == t[k - at];
    }
    forall k | 0 <= k < |s|
      ensures bytes[e + 1 + k] == s[k]
    {
      assert bytes[at + (|size| + 1 + k)] == t[|size| + 1 + k];
    }
    assert bytes[at + |size|] == t[|size|] && bytes[at + (|t| - 1)] == t[|t| - 1];
  }

  lemma NetParts(s: string)
    ensures var size, t := Printed(|s|), Net(s);
            && (forall k :: 0 <= k < |size| ==> t[k] == size[k]) && t[|size|] == ':'
            && (forall k :: 0 <= k < |s| ==> t[|size| + 1 + k] == s[k]) && t[|t| - 1] == ','
  {
  }

  lemma {:induction false} RunIs(s: string, i: nat, e: nat)
    requires i <= e < |s| && (forall k :: i <= k < e ==> Digit(s[k])) && !Digit(s[e])
    ensures RunEnd(s, i, true) == e
    decreases e - i
  {
    if i < e { RunIs(s, i + 1, e); }
  }

  /** The length in front of a field: at most seven digits, within the limit, in plain spelling. */
  predicate LengthPlain(bytes: string, at: nat, e: nat, maximum: nat)
    requires at <= e <= |bytes| && Digits(bytes[at..e])
  {
    e - at <= 7 && Decimal(bytes[at..e]) <= maximum && Plain(bytes[at..e])
  }

  method Length(bytes: string, at: nat, maximum: nat) returns (ok: bool, e: nat, length: nat)
    requires at <= |bytes| && 9 <= maximum <= MAXIMUM_BYTES
    ensures ok ==> e == RunEnd(bytes, at, true) && Plain(bytes[at..e]) && length == Decimal(bytes[at..e]) <= maximum
    ensures !ok ==> !LengthPlain(bytes, at, RunEnd(bytes, at, true), maximum)
  {
    e, length := at, 0;
    ghost var end := RunEnd(bytes, at, true);
    ghost var run := bytes[at..end];
    assert Digits(run);
    while e < |bytes| && Digit(bytes[e])
      invariant at <= e <= end && RunEnd(bytes, e, true) == end
      invariant e - at <= 7 && length == Decimal(run[..e - at]) <= maximum
    {
      var digit := DigitValue(bytes[e]);
      assert run[..e + 1 - at][..e - at] == run[..e - at] && run[e - at] == bytes[e];
      assert Decimal(run[..e + 1 - at]) == 10 * length + digit;
      e := e + 1;
      if e - at > 7 || length > (maximum - digit) / 10 {
        DecimalMonotone(run, e - at);
        return false, e, length;
      }
      length := length * 10 + digit;
    }
    assert run[..e - at] == run;
    ok := e > at && (e - at == 1 || bytes[at] != '0');
  }

  lemma FieldLength(bytes: string, at: nat, s: string, maximum: nat)
    requires at <= |bytes| && FieldAt(bytes, at, s) && |s| <= maximum <= MAXIMUM_BYTES
    ensures LengthPlain(bytes, at, RunEnd(bytes, at, true), maximum)
    ensures Decimal(bytes[at..RunEnd(bytes, at, true)]) == |s|
  {
    HeadOfField(bytes, at, s);
    PrintedValue(|s|);
    SevenDigits(|s|);
  }

  lemma SevenDigits(n: nat)
    requires n <= MAXIMUM_BYTES
    ensures |Printed(n)| <= 7
  {
    assert Power(7) == 10 * Power(6) && Power(6) == 10 * Power(5) && Power(5) == 10 * Power(4);
    assert Power(4) == 10 * Power(3) && Power(3) == 10 * Power(2) && Power(2) == 10 * Power(1) && Power(1) == 10 * Power(0);
    PrintedShort(n, 7, Power(7));
  }

  lemma FieldFrom(bytes: string, at: nat, e: nat, length: nat)
    requires at <= e && e + 1 + length < |bytes|
    requires Plain(bytes[at..e]) && Decimal(bytes[at..e]) == length && bytes[e] == ':' && bytes[e + 1 + length] == ','
    ensures var s := bytes[e + 1..e + 1 + length];
            FieldAt(bytes, at, s) && at + |Net(s)| == e + 1 + length + 1
  {
    var s := bytes[e + 1..e + 1 + length];
    PlainPrints(bytes[at..e]);
    assert Printed(|s|) == bytes[at..e];
    var t := Net(s);
    forall k | 0 <= k < |t|
      ensures bytes[at + k] == t[k]
    {
    }
  }

  /** Reads one field and steps past its comma. */
  method ReadField(bytes: string, at: nat, maximum: nat) returns (ok: bool, s: string, next: nat)
    requires at <= |bytes| <= maximum <= MAXIMUM_BYTES && 9 <= maximum
    ensures ok ==> FieldAt(bytes, at, s) && next == at + |Net(s)| <= |bytes|
    ensures !ok ==> forall t: string :: !FieldAt(bytes, at, t)
  {
    hide Net, FieldAt, LengthPlain;
    s, next := "", at;
    var e, length;
    ok, e, length := Length(bytes, at, maximum);
    forall t: string | FieldAt(bytes, at, t)
      ensures ok && e + 1 + length < |bytes| && bytes[e] == ':' && bytes[e + 1 + length] == ','
    {
      HeadOfField(bytes, at, t);
      FieldLength(bytes, at, t, maximum);
    }
    if !ok { return; }
    if e == |bytes| || bytes[e] != ':' || length >= |bytes| - (e + 1) || bytes[e + 1 + length] != ',' { return false, s, next; }
    FieldFrom(bytes, at, e, length);
    s, next := bytes[e + 1..e + 1 + length], e + 1 + length + 1;
  }

  lemma FieldHere(bytes: string, at: nat, s: string, rest: string)
    requires at <= |bytes| && bytes[at..] == Net(s) + rest
    ensures FieldAt(bytes, at, s)
  {
    hide Net;
    assert bytes[at..][..|Net(s)|] == Net(s);
  }

  lemma NetAllFirst(fs: seq<string>)
    requires |NetAll(fs)| > 0
    ensures |fs| > 0 && NetAll(fs) == Net(fs[0]) + NetAll(fs[1..])
  {
  }

  lemma NextField(bytes: string, at: nat, fs: seq<string>, rs: seq<string>)
    requires at < |bytes| && bytes == NetAll(fs) && bytes[..at] == NetAll(rs)
    ensures |rs| < |fs| && FieldAt(bytes, at, fs[|rs|])
  {
    hide NetAll, Net, FieldAt;
    assert bytes == bytes[..at] + bytes[at..];
    NetAllRest(fs, rs, bytes[at..]);
    NetAllFirst(fs[|rs|..]);
    FieldHere(bytes, at, fs[|rs|], NetAll(fs[|rs|..][1..]));
  }

  method Fields(bytes: string, count: nat, maximum: nat) returns (r: Option<seq<string>>)
    requires 9 <= maximum <= MAXIMUM_BYTES
    ensures r == FieldsOf(bytes, count, maximum)
  {
    hide NetAll, FieldAt, Net;
    if |bytes| > maximum { return None; }
    var fields: seq<string>, at: nat := [], 0;
    NetAllNone();
    assert bytes[..0] == "";
    while at < |bytes|
      invariant at <= |bytes| && |fields| <= count
      invariant bytes[..at] == NetAll(fields)
      decreases |bytes| - at
    {
      forall fs: seq<string> | Encodes(bytes, fs, count, maximum)
        ensures |fields| < |fs| && FieldAt(bytes, at, fs[|fields|])
      {
        NextField(bytes, at, fs, fields);
      }
      if |fields| == count { return None; }
      var ok, s, next := ReadField(bytes, at, maximum);
      if !ok { return None; }
      NetAllPush(fields, s);
      FieldEnds(bytes, at, s, next);
      fields, at := fields + [s], next;
    }
    assert bytes[..|bytes|] == bytes;
    FieldsExact(bytes, fields, count, maximum);
    r := Some(fields);
  }

  lemma NetAllNone()
    ensures NetAll([]) == ""
  {
  }

  lemma FieldEnds(bytes: string, at: nat, s: string, next: nat)
    requires FieldAt(bytes, at, s) && next == at + |Net(s)|
    ensures at < next <= |bytes| && bytes[..next] == bytes[..at] + Net(s)
  {
    assert bytes[..next] == bytes[..at] + bytes[at..next];
  }

  /** Reading what was written gives the fields back, and only what was written can be read. */
  lemma WrittenIsRead(fs: seq<string>, bytes: string, count: nat, maximum: nat)
    requires |fs| <= count
    ensures |NetAll(fs)| <= maximum ==> FieldsOf(NetAll(fs), count, maximum) == Some(fs)
    ensures FieldsOf(bytes, count, maximum).Some? ==> NetAll(FieldsOf(bytes, count, maximum).value) == bytes
  {
    hide NetAll;
    FieldsExact(NetAll(fs), fs, count, maximum);
  }

  // ---------------------------------------------------------------------------------------------
  // Bounded numbers

  /** A plain decimal number no greater than `maximum`. */
  function NumberOf(s: string, maximum: nat): Option<nat> {
    if Plain(s) && Decimal(s) <= maximum then Some(Decimal(s)) else None
  }

  method Number(s: string, maximum: nat) returns (r: Option<nat>)
    requires maximum <= INT_MAX
    ensures r == NumberOf(s, maximum)
  {
    if |s| == 0 || (|s| > 1 && s[0] == '0') { return None; }
    if |s| > 10 {
      if Plain(s) { TenDigits(s, maximum); }
      return None;
    }
    var n := 0;
    for i := 0 to |s|
      invariant Digits(s[..i]) && n == Decimal(s[..i]) <= maximum
    {
      assert s[..i + 1][..i] == s[..i];
      if !Digit(s[i]) { return None; }
      var digit := DigitValue(s[i]);
      if digit > maximum || n > (maximum - digit) / 10 {
        if Digits(s) { DecimalMonotone(s, i + 1); }
        return None;
      }
      n := n * 10 + digit;
    }
    assert s[..|s|] == s;
    r := Some(n);
  }

  lemma TenDigits(s: string, maximum: nat)
    requires Plain(s) && |s| > 10 && maximum <= INT_MAX
    ensures Decimal(s) > maximum
  {
    var n := Decimal(s);
    PlainPrints(s);
    if n <= INT_MAX {
      assert Power(10) == 10 * Power(9) && Power(9) == 10 * Power(8) && Power(8) == 10 * Power(7) && Power(7) == 10 * Power(6);
      assert Power(6) == 10 * Power(5) && Power(5) == 10 * Power(4) && Power(4) == 10 * Power(3) && Power(3) == 10 * Power(2);
      assert Power(2) == 10 * Power(1) && Power(1) == 10 * Power(0);
      PrintedShort(n, 10, Power(10));
    }
  }

  /** Printing a number and reading it back gives the number, and nothing else reads as it. */
  lemma NumberExact(s: string, n: nat, maximum: nat)
    ensures NumberOf(s, maximum) == Some(n) <==> n <= maximum && s == Printed(n)
  {
    PrintedValue(n);
    if Plain(s) { PlainPrints(s); }
  }
}
