/**
 * The binary relationship grammar: concrete syntax, the parser that also prints a canonical
 * form, and the values it accepts.
 */
module BinaryRelationships {
  import opened Text

  const MAXIMUM_FIELD_BYTES: nat := 1024 * 1024
  const MAXIMUM_GROUPS: nat := 4096
  const MAXIMUM_ATOMS: nat := 16384

  datatype Kind = Depends | PreDepends | Breaks | Conflicts | Provides | Replaces
  datatype Qualifier = Implicit | Any | Native | Exact
  datatype Relation = NoRelation | Less | LessEqual | Equal | GreaterEqual | Greater
  datatype MultiArch = No | Same | Foreign | Allowed
  datatype ErrorCode =
    | InvalidInput | InvalidSyntax | InvalidPackage | InvalidArchitecture
    | InvalidVersion | InvalidMultiArch | AlternativesForbidden | ProvidesRelation
    | UnsupportedRestrictions | UnsupportedNativeQualifier | UnsupportedUse
    | LimitExceeded | ComparisonUnavailable | ComparisonInvalidVersion | ComparisonFailed

  datatype Result<+T> = Ok(value: T) | Err(code: ErrorCode, offset: nat)

  datatype Atom = Atom(package: string, architecture: string, version: string,
                       qualifier: Qualifier, relation: Relation)
  type Group = seq<Atom>
  datatype Field = Field(kind: Kind, groups: seq<Group>, canonical: string, atomCount: nat)
  datatype Package = Package(name: string, version: string, architecture: string,
                             multiArch: MultiArch, declared: Field)

  // ---------------------------------------------------------------------------------------------
  // Lexical classes

  predicate NameByte(c: char) {
    'a' <= c <= 'z' || Digit(c) || c == '+' || c == '-' || c == '.'
  }

  predicate Name(s: string) {
    && 0 < |s| <= 255
    && (Digit(s[0]) || 'a' <= s[0] <= 'z')
    && forall k :: 0 <= k < |s| ==> NameByte(s[k])
  }

  predicate ArchitectureByte(c: char) {
    Letter(c) || Digit(c) || c == '-'
  }

  predicate Architecture(s: string) {
    && 0 < |s| <= 255
    && (Letter(s[0]) || Digit(s[0]))
    && forall k :: 0 <= k < |s| ==> ArchitectureByte(s[k])
  }

  /** The three letters `any` at `i`. */
  predicate AnyAt(s: string, i: nat) {
    i + 3 <= |s| && s[i] == 'a' && s[i + 1] == 'n' && s[i + 2] == 'y'
  }

  predicate IsAny(s: string) {
    |s| == 3 && AnyAt(s, 0)
  }

  predicate IsNative(s: string) {
    |s| == 6 && s[0] == 'n' && s[1] == 'a' && s[2] == 't' && s[3] == 'i' && s[4] == 'v' && s[5] == 'e'
  }

  /** Neither a wildcard (`any`, `any-...`, `...-any`) nor `native`. */
  predicate ConcreteArchitecture(s: string) {
    && Architecture(s)
    && !IsAny(s) && !IsNative(s)
    && !(|s| >= 4 && AnyAt(s, 0) && s[3] == '-')
    && !(|s| >= 4 && s[|s| - 4] == '-' && AnyAt(s, |s| - 3))
  }

  predicate VersionByte(c: char) {
    Digit(c) || Letter(c) || c == '.' || c == '+' || c == '~'
  }

  /** The version starts here: after the first colon, or at zero when there is none. */
  function UpstreamBegin(s: string): (i: nat)
    ensures i <= |s|
  {
    var colon := Find(s, ':');
    if colon == |s| then 0 else colon + 1
  }

  /**
   * Debian Policy Manual section 5.6.12, `[epoch:]upstream[-revision]`: a decimal epoch that fits
   * a signed 32-bit integer, an upstream part that starts with a digit, and a nonempty revision
   * after the last hyphen in which neither hyphen nor colon may occur.
   */
  predicate Version(s: string) {
    && 0 < |s| <= 1024
    && var colon, begin, hyphen := Find(s, ':'), UpstreamBegin(s), RFind(s, '-');
    && (colon < |s| ==> 0 < colon && Digits(s[..colon]) && Decimal(s[..colon]) <= INT_MAX)
    && begin < |s| && Digit(s[begin])
    && begin < hyphen && hyphen + 1 != |s|
    && forall k :: begin <= k < |s| ==>
         VersionByte(s[k]) || (k <= hyphen && (s[k] == '-' || s[k] == ':'))
  }

  predicate Negative(kind: Kind) {
    kind == Breaks || kind == Conflicts || kind == Replaces
  }

  predicate AllowsAlternatives(kind: Kind) {
    kind == Depends || kind == PreDepends
  }

  function Operator(relation: Relation): string {
    match relation
    case Less => "<<"
    case LessEqual => "<="
    case Equal => "="
    case GreaterEqual => ">="
    case Greater => ">>"
    case NoRelation => ""
  }

  /** Every spelling the grammar accepts, the two obsolete one-character forms included. */
  function RelationOf(operation: string): Option<Relation> {
    if |operation| == 1 then
      match operation[0]
      case '<' => Some(LessEqual)
      case '=' => Some(Equal)
      case '>' => Some(GreaterEqual)
      case _ => None
    else if |operation| == 2 then
      match (operation[0], operation[1])
      case ('<', '<') => Some(Less)
      case ('<', '=') => Some(LessEqual)
      case ('>', '=') => Some(GreaterEqual)
      case ('>', '>') => Some(Greater)
      case _ => None
    else None
  }

  predicate Restricted(c: char) {
    c == '[' || c == ']' || c == '<' || c == '>' || c == '!'
  }

  predicate Readable(c: char) {
    (' ' <= c || Space(c)) && c < 127 as char
  }

  /** `Version` decided by the source's scans, with the epoch accumulated digit by digit. */
  method IsVersion(s: string) returns (ok: bool)
    ensures ok == Version(s)
  {
    if s == "" || |s| > 1024 { return false; }
    var begin := 0;
    var colon := Find(s, ':');
    if colon < |s| {
      if colon == 0 { return false; }
      var epoch := 0;
      for i := 0 to colon
        invariant Digits(s[..i]) && epoch == Decimal(s[..i]) && epoch <= INT_MAX
      {
        assert s[..colon][..i] == s[..i] && s[..colon][..i + 1] == s[..i + 1];
        assert s[..i + 1][..i] == s[..i];
        if !Digit(s[i]) {
          assert s[..colon][i] == s[i];
          return false;
        }
        if epoch > (INT_MAX - DigitValue(s[i])) / 10 {
          assert Digits(s[..colon]) ==> Decimal(s[..i + 1]) > INT_MAX;
          if Digits(s[..colon]) { DecimalMonotone(s[..colon], i + 1); }
          return false;
        }
        epoch := epoch * 10 + DigitValue(s[i]);
      }
      begin := colon + 1;
    }
    if begin == |s| || !Digit(s[begin]) { return false; }
    var hyphen := RFind(s, '-');
    if hyphen <= begin || hyphen + 1 == |s| { return false; }
    for i := begin to |s|
      invariant forall k :: begin <= k < i ==>
                  VersionByte(s[k]) || (k <= hyphen && (s[k] == '-' || s[k] == ':'))
    {
      if VersionByte(s[i]) { continue; }
      if i <= hyphen && (s[i] == '-' || s[i] == ':') { continue; }
      return false;
    }
    return true;
  }

  // ---------------------------------------------------------------------------------------------
  // Canonical text

  function PrintAtom(a: Atom): string {
    a.package
    + (if a.qualifier == Implicit then "" else ":" + a.architecture)
    + (if a.relation == NoRelation then "" else " (" + Operator(a.relation) + " " + a.version + ")")
  }

  function PrintGroup(g: Group): string {
    if |g| == 0 then ""
    else if |g| == 1 then PrintAtom(g[0])
    else PrintGroup(g[..|g| - 1]) + " | " + PrintAtom(g[|g| - 1])
  }

  function PrintGroups(gs: seq<Group>): string {
    if |gs| == 0 then ""
    else if |gs| == 1 then PrintGroup(gs[0])
    else PrintGroups(gs[..|gs| - 1]) + ", " + PrintGroup(gs[|gs| - 1])
  }

  function CountAtoms(gs: seq<Group>): nat {
    if |gs| == 0 then 0 else CountAtoms(gs[..|gs| - 1]) + |gs[|gs| - 1]|
  }

  // ---------------------------------------------------------------------------------------------
  // What a successful parse of `s` from `p` yields, and where and why a failing one stops

  datatype Token = Blank | NameToken | ArchitectureToken | OperatorToken | VersionToken
  datatype Parsed<+T> = Parsed(value: T, next: nat)
  datatype Qualification = Qualification(architecture: string, qualifier: Qualifier)
  datatype Constraint = Constraint(relation: Relation, version: string)
  datatype Listing = Listing(groups: seq<Group>, count: nat)

  predicate Accepts(t: Token, c: char) {
    match t
    case Blank => Space(c)
    case NameToken => NameByte(c)
    case ArchitectureToken => ArchitectureByte(c)
    case OperatorToken => c == '<' || c == '>' || c == '='
    case VersionToken => !Space(c) && c != ')'
  }

  /** The end of the longest run of `t` characters that starts at `i`. */
  function Scan(t: Token, s: string, i: nat): (j: nat)
    requires i <= |s|
    ensures i <= j <= |s|
    decreases |s| - i
  {
    if i < |s| && Accepts(t, s[i]) then Scan(t, s, i + 1) else i
  }

  lemma {:induction false} ScanLongest(t: Token, s: string, i: nat)
    requires i <= |s|
    ensures forall k :: i <= k < Scan(t, s, i) ==> Accepts(t, s[k])
    ensures Scan(t, s, i) < |s| ==> !Accepts(t, s[Scan(t, s, i)])
    decreases |s| - i
  {
    if i < |s| && Accepts(t, s[i]) {
      ScanLongest(t, s, i + 1);
    }
  }

  function QualificationAt(s: string, p: nat): (r: Result<Parsed<Qualification>>)
    requires p <= |s|
    ensures r.Ok? ==> p <= r.value.next <= |s|
  {
    if p < |s| && s[p] == ':' then
      var end := Scan(ArchitectureToken, s, p + 1);
      var architecture := s[p + 1..end];
      if !Architecture(architecture) then Err(InvalidArchitecture, p + 1)
      else if IsAny(architecture) then Ok(Parsed(Qualification(architecture, Any), end))
      else if IsNative(architecture) then Ok(Parsed(Qualification(architecture, Native), end))
      else if !ConcreteArchitecture(architecture) then Err(UnsupportedRestrictions, p + 1)
      else Ok(Parsed(Qualification(architecture, Exact), end))
    else Ok(Parsed(Qualification("", Implicit), p))
  }

  /** The operator and the blanks around it, from just after the opening parenthesis. */
  function OperatorAt(kind: Kind, s: string, p: nat): (r: Result<Parsed<Relation>>)
    requires p <= |s|
    ensures r.Ok? ==> p <= r.value.next <= |s|
  {
    var begin := Scan(Blank, s, p);
    var end := Scan(OperatorToken, s, begin);
    var relation := RelationOf(s[begin..end]);
    if relation.None? then Err(InvalidSyntax, begin)
    else if kind == Provides && relation.value != Equal then Err(ProvidesRelation, begin)
    else Ok(Parsed(relation.value, Scan(Blank, s, end)))
  }

  /** The version, the closing parenthesis and the blanks around it. */
  function VersionAt(s: string, p: nat): (r: Result<Parsed<string>>)
    requires p <= |s|
    ensures r.Ok? ==> p <= r.value.next <= |s|
  {
    var end := Scan(VersionToken, s, p);
    var close := Scan(Blank, s, end);
    if !Version(s[p..end]) then Err(InvalidVersion, p)
    else if close == |s| then Err(InvalidSyntax, close)
    else if s[close] != ')' then Err(InvalidSyntax, close + 1)
    else Ok(Parsed(s[p..end], Scan(Blank, s, close + 1)))
  }

  function ConstraintAt(kind: Kind, s: string, p: nat): (r: Result<Parsed<Constraint>>)
    requires p <= |s|
    ensures r.Ok? ==> p <= r.value.next <= |s|
  {
    if p < |s| && s[p] == '(' then
      match OperatorAt(kind, s, p + 1)
      case Err(code, offset) => Err(code, offset)
      case Ok(operator) =>
        match VersionAt(s, operator.next)
        case Err(code, offset) => Err(code, offset)
        case Ok(version) => Ok(Parsed(Constraint(operator.value, version.value), version.next))
    else Ok(Parsed(Constraint(NoRelation, ""), p))
  }

  function AtomAt(kind: Kind, s: string, p: nat): (r: Result<Parsed<Atom>>)
    requires p <= |s|
    ensures r.Ok? ==> p < r.value.next <= |s|
  {
    var end := Scan(NameToken, s, p);
    var name := s[p..end];
    if !Name(name) then
      Err(if end < |s| && Restricted(s[end]) then UnsupportedRestrictions else InvalidPackage, p)
    else
      match QualificationAt(s, end)
      case Err(code, offset) => Err(code, offset)
      case Ok(q) =>
        match ConstraintAt(kind, s, Scan(Blank, s, q.next))
        case Err(code, offset) => Err(code, offset)
        case Ok(c) =>
          Ok(Parsed(Atom(name, q.value.architecture, c.value.version, q.value.qualifier, c.value.relation), c.next))
  }

  /** What one atom and its separator lead to: the end of the field, or the next atom. */
  datatype Step = Done(groups: seq<Group>) | More(next: nat, groups: seq<Group>, alternatives: Group)

  /** After an atom that ends at `q` and was appended to the open group. */
  function SeparatorAt(kind: Kind, s: string, q: nat, groups: seq<Group>, alternatives: Group): (r: Result<Step>)
    requires q <= |s|
    ensures r.Ok? && r.value.More? ==> q < r.value.next < |s|
  {
    if q == |s| || s[q] == ',' then
      if |groups| == MAXIMUM_GROUPS then Err(LimitExceeded, q)
      else if q == |s| then Ok(Done(groups + [alternatives]))
      else AfterSeparator(s, q, groups + [alternatives], [])
    else if s[q] == '|' then
      if !AllowsAlternatives(kind) then Err(AlternativesForbidden, q)
      else AfterSeparator(s, q, groups, alternatives)
    else Err(if Restricted(s[q]) then UnsupportedRestrictions else InvalidSyntax, q)
  }

  function AfterSeparator(s: string, q: nat, groups: seq<Group>, alternatives: Group): (r: Result<Step>)
    requires q < |s|
    ensures r.Ok? ==> r.value.More? && q < r.value.next < |s|
    ensures r.Ok? ==> r.value.groups == groups && r.value.alternatives == alternatives
  {
    var next := Scan(Blank, s, q + 1);
    if next == |s| then Err(InvalidSyntax, next) else Ok(More(next, groups, alternatives))
  }

  function StepAt(kind: Kind, s: string, p: nat, groups: seq<Group>, alternatives: Group, count: nat)
    : (r: Result<Step>)
    requires p <= |s|
    ensures r.Ok? && r.value.More? ==> p < r.value.next < |s|
  {
    if count + 1 > MAXIMUM_ATOMS then Err(LimitExceeded, p)
    else
      match AtomAt(kind, s, p)
      case Err(code, offset) => Err(code, offset)
      case Ok(atom) => SeparatorAt(kind, s, atom.next, groups, alternatives + [atom.value])
  }

  /** Reads atoms up to the end, with `groups` complete and `alternatives` open. */
  function ItemsAt(kind: Kind, s: string, p: nat, groups: seq<Group>, alternatives: Group, count: nat)
    : (r: Result<Listing>)
    requires p <= |s|
    decreases |s| - p
  {
    match StepAt(kind, s, p, groups, alternatives, count)
    case Err(code, offset) => Err(code, offset)
    case Ok(Done(groups')) => Ok(Listing(groups', count + 1))
    case Ok(More(next, groups', alternatives')) =>
      ItemsAt(kind, s, next, groups', alternatives', count + 1)
  }

  function ListingOf(kind: Kind, s: string): Result<Listing> {
    var p := Scan(Blank, s, 0);
    if p == |s| then Ok(Listing([], 0)) else ItemsAt(kind, s, p, [], [], 0)
  }

  /** The first unreadable byte, or `|s|`. */
  function Unreadable(s: string, i: nat): (j: nat)
    requires i <= |s|
    ensures i <= j <= |s|
    ensures forall k :: i <= k < j ==> Readable(s[k])
    ensures j < |s| ==> !Readable(s[j])
    decreases |s| - i
  {
    if i < |s| && Readable(s[i]) then Unreadable(s, i + 1) else i
  }

  function FieldOf(kind: Kind, text: string): Result<Field> {
    if |text| > MAXIMUM_FIELD_BYTES then Err(LimitExceeded, 0)
    else if Unreadable(text, 0) < |text| then Err(InvalidSyntax, Unreadable(text, 0))
    else
      match ListingOf(kind, text)
      case Err(code, offset) => Err(code, offset)
      case Ok(listing) =>
        var canonical := PrintGroups(listing.groups);
        if |canonical| > MAXIMUM_FIELD_BYTES then Err(LimitExceeded, 0)
        else Ok(Field(kind, listing.groups, canonical, listing.count))
  }

  // ---------------------------------------------------------------------------------------------
  // The hand-written parser

  function PrintClosed(groups: seq<Group>): string {
    if |groups| == 0 then "" else PrintGroups(groups) + ", "
  }

  /** The canonical text at the head of the loop: every group and alternative so far is followed by its separator. */
  function PrintOpen(groups: seq<Group>, alternatives: Group): string {
    PrintClosed(groups) + (if |alternatives| == 0 then "" else PrintGroup(alternatives) + " | ")
  }

  lemma PrintOpenAtom(groups: seq<Group>, alternatives: Group, a: Atom)
    ensures PrintOpen(groups, alternatives) + PrintAtom(a) == PrintClosed(groups) + PrintGroup(alternatives + [a])
  {
    assert (alternatives + [a])[..|alternatives|] == alternatives;
  }

  lemma PrintCloseGroup(groups: seq<Group>, g: Group)
    ensures PrintClosed(groups) + PrintGroup(g) == PrintGroups(groups + [g])
  {
    assert (groups + [g])[..|groups|] == groups;
  }

  class Parser {
    const kind: Kind
    const input: string
    var position: nat

    constructor (kind: Kind, input: string)
      ensures this.kind == kind && this.input == input && position == 0
    {
      this.kind := kind;
      this.input := input;
      position := 0;
    }

    /** Advances over the longest run of `t` and returns it. */
    method Take(t: Token) returns (text: string)
      requires position <= |input|
      modifies this
      ensures position == Scan(t, input, old(position))
      ensures text == input[old(position)..position]
    {
      var begin := position;
      while position < |input| && Accepts(t, input[position])
        invariant begin <= position <= |input|
        invariant Scan(t, input, begin) == Scan(t, input, position)
      {
        position := position + 1;
      }
      text := input[begin..position];
    }

    method ParseQualification() returns (r: Result<Parsed<Qualification>>)
      requires position <= |input|
      modifies this
      ensures r == QualificationAt(input, old(position))
      ensures r.Ok? ==> position == r.value.next
    {
      if position < |input| && input[position] == ':' {
        position := position + 1;
        var begin := position;
        var architecture := Take(ArchitectureToken);
        if !Architecture(architecture) { return Err(InvalidArchitecture, begin); }
        if IsAny(architecture) {
          r := Ok(Parsed(Qualification(architecture, Any), position));
        } else if IsNative(architecture) {
          r := Ok(Parsed(Qualification(architecture, Native), position));
        } else {
          if !ConcreteArchitecture(architecture) { return Err(UnsupportedRestrictions, begin); }
          r := Ok(Parsed(Qualification(architecture, Exact), position));
        }
      } else {
        r := Ok(Parsed(Qualification("", Implicit), position));
      }
    }

    method ParseOperator() returns (r: Result<Parsed<Relation>>)
      requires position <= |input|
      modifies this
      ensures r == OperatorAt(kind, input, old(position))
      ensures r.Ok? ==> position == r.value.next
    {
      var blank := Take(Blank);
      var begin := position;
      var operation := Take(OperatorToken);
      var relation := RelationOf(operation);
      if relation.None? { return Err(InvalidSyntax, begin); }
      if kind == Provides && relation.value != Equal { return Err(ProvidesRelation, begin); }
      blank := Take(Blank);
      r := Ok(Parsed(relation.value, position));
    }

    method ParseVersion() returns (r: Result<Parsed<string>>)
      requires position <= |input|
      modifies this
      ensures r == VersionAt(input, old(position))
      ensures r.Ok? ==> position == r.value.next
    {
      var versionStart := position;
      var version := Take(VersionToken);
      var valid := IsVersion(version);
      if !valid { return Err(InvalidVersion, versionStart); }
      var blank := Take(Blank);
      if position == |input| { return Err(InvalidSyntax, position); }
      position := position + 1;
      if input[position - 1] != ')' { return Err(InvalidSyntax, position); }
      blank := Take(Blank);
      r := Ok(Parsed(version, position));
    }

    method ParseConstraint() returns (r: Result<Parsed<Constraint>>)
      requires position <= |input|
      modifies this
      ensures r == ConstraintAt(kind, input, old(position))
      ensures r.Ok? ==> position == r.value.next
    {
      if !(position < |input| && input[position] == '(') {
        return Ok(Parsed(Constraint(NoRelation, ""), position));
      }
      position := position + 1;
      var operator := ParseOperator();
      if operator.Err? { return Err(operator.code, operator.offset); }
      var version := ParseVersion();
      if version.Err? { return Err(version.code, version.offset); }
      r := Ok(Parsed(Constraint(operator.value.value, version.value.value), position));
    }

    method ParseAtom() returns (r: Result<Parsed<Atom>>)
      requires position <= |input|
      modifies this
      ensures r == AtomAt(kind, input, old(position))
      ensures r.Ok? ==> position == r.value.next
    {
      var start := position;
      var name := Take(NameToken);
      if !Name(name) {
        return Err(if position < |input| && Restricted(input[position]) then UnsupportedRestrictions
                   else InvalidPackage, start);
      }
      var q := ParseQualification();
      if q.Err? { return Err(q.code, q.offset); }
      var blank := Take(Blank);
      var c := ParseConstraint();
      if c.Err? { return Err(c.code, c.offset); }
      r := Ok(Parsed(Atom(name, q.value.value.architecture, c.value.value.version,
                                              q.value.value.qualifier, c.value.value.relation), position));
    }

    /** The separator after an atom closes its group or keeps it open. */
    method ParseSeparator(groups: seq<Group>, alternatives: Group, canonical: string)
      returns (r: Result<Step>, text: string)
      requires position <= |input|
      requires canonical == PrintClosed(groups) + PrintGroup(alternatives) && alternatives != []
      modifies this
      ensures r == SeparatorAt(kind, input, old(position), groups, alternatives)
      ensures r.Ok? && r.value.Done? ==> position == |input| && text == PrintGroups(r.value.groups)
      ensures r.Ok? && r.value.More? ==>
                position == r.value.next && text == PrintOpen(r.value.groups, r.value.alternatives)
    {
      text := canonical;
      var groups', alternatives' := groups, alternatives;
      if position == |input| || input[position] == ',' {
        if |groups| == MAXIMUM_GROUPS { return Err(LimitExceeded, position), text; }
        PrintCloseGroup(groups, alternatives);
        groups', alternatives' := groups + [alternatives], [];
        if position == |input| { return Ok(Done(groups')), text; }
        text := text + ", ";
      } else if input[position] == '|' {
        if !AllowsAlternatives(kind) { return Err(AlternativesForbidden, position), text; }
        text := text + " | ";
      } else {
        return Err(if Restricted(input[position]) then UnsupportedRestrictions else InvalidSyntax, position), text;
      }
      position := position + 1;
      var blank := Take(Blank);
      if position == |input| { return Err(InvalidSyntax, position), text; }
      r := Ok(More(position, groups', alternatives'));
    }

    /** An atom, then its separator. */
    method ParseStep(groups: seq<Group>, alternatives: Group, canonical: string, count: nat)
      returns (r: Result<Step>, text: string)
      requires position <= |input|
      requires canonical == PrintOpen(groups, alternatives)
      modifies this
      ensures r == StepAt(kind, input, old(position), groups, alternatives, count)
      ensures r.Ok? && r.value.Done? ==> position == |input| && text == PrintGroups(r.value.groups)
      ensures r.Ok? && r.value.More? ==>
                position == r.value.next && text == PrintOpen(r.value.groups, r.value.alternatives)
    {
      text := canonical;
      if count + 1 > MAXIMUM_ATOMS { return Err(LimitExceeded, position), text; }
      var atom := ParseAtom();
      if atom.Err? { return Err(atom.code, atom.offset), text; }
      PrintOpenAtom(groups, alternatives, atom.value.value);
      text := text + PrintAtom(atom.value.value);
      r, text := ParseSeparator(groups, alternatives + [atom.value.value], text);
    }

    /** One pass over the input, appending to the canonical text and to the groups as it goes. */
    method ParseItems() returns (r: Result<Listing>, canonical: string)
      requires position == 0
      modifies this
      ensures r == ListingOf(kind, input)
      ensures r.Ok? ==> canonical == PrintGroups(r.value.groups)
    {
      var groups: seq<Group>, alternatives: Group, count: nat := [], [], 0;
      canonical := "";
      var blank := Take(Blank);
      ghost var all := ListingOf(kind, input);
      while position < |input|
        invariant position <= |input|
        invariant position < |input| ==> all == ItemsAt(kind, input, position, groups, alternatives, count)
        invariant position < |input| ==> canonical == PrintOpen(groups, alternatives)
        invariant position == |input| ==> all == Ok(Listing(groups, count)) && canonical == PrintGroups(groups)
        decreases |input| - position
      {
        var step;
        step, canonical := ParseStep(groups, alternatives, canonical, count);
        if step.Err? { return Err(step.code, step.offset), canonical; }
        groups, count := step.value.groups, count + 1;
        if step.value.More? { alternatives := step.value.alternatives; }
      }
      r := Ok(Listing(groups, count));
    }

    method Parse() returns (r: Result<Field>)
      requires position == 0
      requires |input| <= MAXIMUM_FIELD_BYTES && Unreadable(input, 0) == |input|
      modifies this
      ensures r == FieldOf(kind, input)
    {
      var listing, canonical := ParseItems();
      if listing.Err? { return Err(listing.code, listing.offset); }
      if |canonical| > MAXIMUM_FIELD_BYTES { return Err(LimitExceeded, 0); }
      r := Ok(Field(kind, listing.value.groups, canonical, listing.value.count));
    }
  }

  method ParseField(kind: Kind, text: string) returns (r: Result<Field>)
    ensures r == FieldOf(kind, text)
  {
    if |text| > MAXIMUM_FIELD_BYTES { return Err(LimitExceeded, 0); }
    for i := 0 to |text|
      invariant Unreadable(text, 0) == Unreadable(text, i)
    {
      if !Readable(text[i]) { return Err(InvalidSyntax, i); }
    }
    var parser := new Parser(kind, text);
    r := parser.Parse();
  }

  // ---------------------------------------------------------------------------------------------
  // Packages

  function MultiArchOf(text: string, architecture: string): Option<MultiArch> {
    if text == "" || text == "no" then Some(No)
    else if text == "same" && architecture != "all" then Some(Same)
    else if text == "foreign" then Some(Foreign)
    else if text == "allowed" then Some(Allowed)
    else None
  }

  function PackageOf(name: string, version: string, architecture: string, multiArch: string, provides': string)
    : Result<Package>
  {
    if !Name(name) then Err(InvalidPackage, 0)
    else if !Version(version) then Err(InvalidVersion, 0)
    else if !ConcreteArchitecture(architecture) then Err(InvalidArchitecture, 0)
    else
      var mode := MultiArchOf(multiArch, architecture);
      if mode.None? then Err(InvalidMultiArch, 0)
      else
        match FieldOf(Provides, provides')
        case Err(code, offset) => Err(code, offset)
        case Ok(field) => Ok(Package(name, version, architecture, mode.value, field))
  }

  method ParsePackage(name: string, version: string, architecture: string, multiArch: string, provides': string)
    returns (r: Result<Package>)
    ensures r == PackageOf(name, version, architecture, multiArch, provides')
  {
    if !Name(name) { return Err(InvalidPackage, 0); }
    var valid := IsVersion(version);
    if !valid { return Err(InvalidVersion, 0); }
    if !ConcreteArchitecture(architecture) { return Err(InvalidArchitecture, 0); }
    var mode := MultiArchOf(multiArch, architecture);
    if mode.None? { return Err(InvalidMultiArch, 0); }
    var field := ParseField(Provides, provides');
    if field.Err? { return Err(field.code, field.offset); }
    r := Ok(Package(name, version, architecture, mode.value, field.value));
  }
}
