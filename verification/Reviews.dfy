/** Reviewed transactions: archives and the ordered primary actions on exact package instances. */
module Reviews {
  import opened Text
  import opened Packages
  import opened BinaryRelationships
  import opened RelationshipCanonical
  import opened RelationshipMatching

  const MAXIMUM_ACTIONS: nat := 4096

  /** The manifest stands for every field of an archive beyond its identifier and package. */
  datatype Archive = Archive(identifier: string, package: Instance, manifest: string)

  /** `bound` and `bounded` are the answers of the binding and transaction checks, not modelled here. */
  datatype Review = Review(actions: seq<ReviewedAction>, archives: seq<Archive>, stateIdentity: string,
                           bound: bool, bounded: bool)

  function Generation(p: Instance): string {
    Key(p) + "@" + p.version
  }

  predicate HexDigit(c: char) {
    Digit(c) || 'a' <= c <= 'f'
  }

  predicate Digest(s: string) {
    |s| == 64 && forall k :: 0 <= k < |s| ==> HexDigit(s[k])
  }

  /** What parsing the instance without Multi-Arch and Provides accepts. */
  predicate PackageValid(p: Instance) {
    Name(p.package) && Version(p.version) && ConcreteArchitecture(p.architecture)
  }

  lemma PackageValidIsParsed(p: Instance)
    ensures PackageOf(p.package, p.version, p.architecture, "no", "").Ok? <==> PackageValid(p)
  {
    hide Name, Version, ConcreteArchitecture;
    EmptyField(Provides);
  }

  lemma EmptyField(kind: Kind)
    ensures FieldOf(kind, "") == Ok(Field(kind, [], "", 0))
  {
  }

  method CheckPackage(p: Instance) returns (ok: bool)
    ensures ok <==> PackageValid(p)
  {
    PackageValidIsParsed(p);
    var parsed := ParsePackage(p.package, p.version, p.architecture, "no", "");
    ok := parsed.Ok?;
  }

  predicate Unpacks(action: ReviewedAction, key: string) {
    action.action == Unpack && Key(action.package) == key
  }

  /** The last unpack of that slot among the first `n` actions, or `n` when there is none. */
  function LastUnpack(actions: seq<ReviewedAction>, n: nat, key: string): (u: nat)
    requires n <= |actions|
    ensures u <= n
    ensures u < n ==> Unpacks(actions[u], key)
  {
    if n == 0 then 0
    else if Unpacks(actions[n - 1], key) then n - 1
    else
      var u := LastUnpack(actions, n - 1, key);
      if u == n - 1 then n else u
  }

  lemma {:induction false} LastUnpackLast(actions: seq<ReviewedAction>, n: nat, key: string)
    requires n <= |actions|
    ensures var u := LastUnpack(actions, n, key);
            forall k :: (if u < n then u else -1) < k < n ==> !Unpacks(actions[k], key)
  {
    if n > 0 && !Unpacks(actions[n - 1], key) { LastUnpackLast(actions, n - 1, key); }
  }

  /** The identifier of that unpack, or zero. */
  function PrecedingUnpack(actions: seq<ReviewedAction>, n: nat, key: string): nat
    requires n <= |actions|
  {
    var u := LastUnpack(actions, n, key);
    if u < n then actions[u].identifier else 0
  }

  // ---------------------------------------------------------------------------------------------
  // Keys and generations name one instance

  predicate Without(s: string, c: char) {
    forall k :: 0 <= k < |s| ==> s[k] != c
  }

  lemma SeparatorPlace(p: string, x: string, q: string, y: string, c: char)
    requires Without(p, c) && Without(q, c) && p + [c] + x == q + [c] + y
    ensures p == q && x == y
  {
    var s, t := p + [c] + x, q + [c] + y;
    assert s[|p|] == c && t[|q|] == c;
    assert forall k :: 0 <= k < |p| ==> s[k] == p[k];
    assert forall k :: 0 <= k < |q| ==> t[k] == q[k];
    assert |p| == |q|;
    assert p == s[..|p|] && q == t[..|q|] && x == s[|p| + 1..] && y == t[|q| + 1..];
  }

  lemma KeyInjective(p: Instance, q: Instance)
    requires Name(p.package) && Name(q.package) && Key(p) == Key(q)
    ensures p.package == q.package && p.architecture == q.architecture
  {
    SeparatorPlace(p.package, p.architecture, q.package, q.architecture, ':');
  }

  lemma GenerationInjective(p: Instance, q: Instance)
    requires PackageValid(p) && PackageValid(q) && Generation(p) == Generation(q)
    ensures p == q
  {
    hide Version;
    KeyWithout(p);
    KeyWithout(q);
    SeparatorPlace(Key(p), p.version, Key(q), q.version, '@');
    KeyInjective(p, q);
  }

  lemma KeyWithout(p: Instance)
    requires PackageValid(p)
    ensures Without(Key(p), '@')
  {
    hide Version;
    var key := Key(p);
    forall k | 0 <= k < |key|
      ensures key[k] != '@'
    {
      assert key[k] == if k < |p.package| then p.package[k] else if k == |p.package| then ':' else p.architecture[k - |p.package| - 1];
    }
  }
}
