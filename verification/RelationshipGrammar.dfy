/**
 * The relationship grammar of section 7.1 of the Debian Policy Manual as concrete syntax trees
 * with their layout, and the parser's exactness against it: the parser accepts a text precisely
 * when some tree spells it, and returns what that tree means.
 */
module RelationshipGrammar {
  import opened Text
  import opened BinaryRelationships

  /** `(` gap0 operator gap1 version gap2 `)` gap3 */
  datatype Clause = Clause(gap0: string, operator: string, gap1: string, version: string, gap2: string, gap3: string)

  /** lead name [`:` architecture] gap [clause]; the lead belongs to whatever precedes the name. */
  datatype Term = Term(lead: string, name: string, architecture: Option<string>, gap: string, clause: Option<Clause>)
  type Tree = seq<seq<Term>>
  datatype Document = Document(blank: string, tree: Tree)

  predicate Blanks(s: string) {
    forall k :: 0 <= k < |s| ==> Space(s[k])
  }

  function SpellOperator(c: Clause): string {
    "(" + (c.gap0 + (c.operator + c.gap1))
  }

  function SpellVersion(c: Clause): string {
    c.version + (c.gap2 + (")" + c.gap3))
  }

  function SpellClause(c: Clause): string {
    SpellOperator(c) + SpellVersion(c)
  }

  function SpellArchitecture(a: Option<string>): string {
    if a.None? then "" else ":" + a.value
  }

  function SpellOptional(c: Option<Clause>): string {
    if c.None? then "" else SpellClause(c.value)
  }

  function SpellTerm(t: Term): string {
    t.name + (SpellArchitecture(t.architecture) + (t.gap + SpellOptional(t.clause)))
  }

  /** The text of the tree from term `a` of group `g` on, without that term's lead. */
  function SpellFrom(tree: Tree, g: nat, a: nat): string
    requires forall k :: 0 <= k < |tree| ==> |tree[k]| > 0
    requires g < |tree| && a < |tree[g]|
    decreases |tree| - g, |tree[g]| - a
  {
    SpellTerm(tree[g][a]) + SpellRest(tree, g, a)
  }

  /** What follows that term: a separator and the next term, or nothing. */
  function SpellRest(tree: Tree, g: nat, a: nat): string
    requires forall k :: 0 <= k < |tree| ==> |tree[k]| > 0
    requires g < |tree| && a < |tree[g]|
    decreases |tree| - g, |tree[g]| - a, 0
  {
    if a + 1 < |tree[g]| then "|" + (tree[g][a + 1].lead + SpellFrom(tree, g, a + 1))
    else if g + 1 < |tree| then "," + (tree[g + 1][0].lead + SpellFrom(tree, g + 1, 0))
    else ""
  }

  function Spell(d: Document): string
    requires forall k :: 0 <= k < |d.tree| ==> |d.tree[k]| > 0
  {
    if |d.tree| == 0 then d.blank else d.tree[0][0].lead + SpellFrom(d.tree, 0, 0)
  }

  ghost predicate WellFormedClause(kind: Kind, c: Clause) {
    && Blanks(c.gap0) && Blanks(c.gap1) && Blanks(c.gap2) && Blanks(c.gap3)
    && RelationOf(c.operator).Some?
    && (kind == Provides ==> RelationOf(c.operator) == Some(Equal))
    && Version(c.version)
  }

  predicate QualifierText(a: string) {
    IsAny(a) || IsNative(a) || ConcreteArchitecture(a)
  }

  ghost predicate WellFormedTerm(kind: Kind, t: Term) {
    && Blanks(t.lead) && Blanks(t.gap)
    && Name(t.name)
    && (t.architecture.Some? ==> QualifierText(t.architecture.value))
    && (t.clause.Some? ==> WellFormedClause(kind, t.clause.value))
  }

  ghost predicate WellFormedGroup(kind: Kind, ts: seq<Term>) {
    && |ts| > 0
    && (AllowsAlternatives(kind) || |ts| == 1)
    && forall a :: 0 <= a < |ts| ==> WellFormedTerm(kind, ts[a])
  }

  ghost predicate WellFormedTree(kind: Kind, tree: Tree) {
    forall g :: 0 <= g < |tree| ==> WellFormedGroup(kind, tree[g])
  }

  function QualifierOf(a: Option<string>): Qualifier {
    if a.None? then Implicit
    else if IsAny(a.value) then Any
    else if IsNative(a.value) then Native
    else Exact
  }

  function ClauseMeaning(c: Option<Clause>): Constraint {
    match c
    case None => Constraint(NoRelation, "")
    case Some(clause) =>
      var relation := RelationOf(clause.operator);
      Constraint(if relation.None? then NoRelation else relation.value, clause.version)
  }

  function ArchitectureMeaning(a: Option<string>): Qualification {
    if a.None? then Qualification("", Implicit) else Qualification(a.value, QualifierOf(a))
  }

  function AtomOf(name: string, q: Qualification, c: Constraint): Atom {
    Atom(name, q.architecture, c.version, q.qualifier, c.relation)
  }

  /** What a term means; its layout and its choice of operator spelling do not matter. */
  function Meaning(t: Term): Atom {
    AtomOf(t.name, ArchitectureMeaning(t.architecture), ClauseMeaning(t.clause))
  }

  predicate GroupMeans(ts: seq<Term>, g: Group) {
    |g| == |ts| && forall a :: 0 <= a < |ts| ==> g[a] == Meaning(ts[a])
  }

  predicate TreeMeans(tree: Tree, gs: seq<Group>) {
    |gs| == |tree| && forall g :: 0 <= g < |tree| ==> GroupMeans(tree[g], gs[g])
  }

  // ---------------------------------------------------------------------------------------------
  // Completeness: whatever a tree spells is parsed back to what the tree means

  predicate Yields<T(==)>(r: Result<Parsed<T>>, value: T, next: int) {
    r.Ok? && r.value.value == value && r.value.next == next
  }

  lemma Cut(s: string, p: nat, x: string, y: string)
    requires p <= |s| && s[p..] == x + y
    ensures p + |x| <= |s| && s[p..p + |x|] == x && s[p + |x|..] == y
  {
    assert s[p + |x|..] == s[p..][|x|..];
    assert s[p..p + |x|] == s[p..][..|x|];
  }

  /** Where four consecutive pieces end. */
  lemma Pieces(s: string, p: nat, w: string, x: string, y: string, z: string, rest: string)
    returns (a: nat, b: nat, d: nat, e: nat)
    requires p <= |s| && s[p..] == w + (x + (y + z)) + rest
    ensures p <= a <= b <= d <= e <= |s| && e == |s| - |rest| && a - p == |w| && b - a == |x| && d - b == |y|
    ensures s[p..a] == w && s[a..b] == x && s[b..d] == y && s[d..e] == z && s[d..] == z + rest && s[e..] == rest
    ensures e < |s| ==> s[e] == rest[0]
  {
    assert w + (x + (y + z)) + rest == w + (x + (y + z) + rest);
    Cut(s, p, w, x + (y + z) + rest);
    a := p + |w|;
    assert x + (y + z) + rest == x + (y + z + rest);
    Cut(s, a, x, y + z + rest);
    b := a + |x|;
    assert y + z + rest == y + (z + rest);
    Cut(s, b, y, z + rest);
    d := b + |y|;
    Cut(s, d, z, rest);
    e := d + |z|;
    assert e < |s| ==> s[e] == s[e..][0];
  }

  lemma ScanRun(t: Token, s: string, p: nat, q: nat)
    requires p <= q <= |s|
    requires forall k :: p <= k < q ==> Accepts(t, s[k])
    requires q < |s| ==> !Accepts(t, s[q])
    ensures Scan(t, s, p) == q
  {
    ScanLongest(t, s, p);
  }

  lemma ScanPiece(t: Token, s: string, p: nat, q: nat, run: string)
    requires p <= q <= |s| && s[p..q] == run
    requires forall k :: 0 <= k < |run| ==> Accepts(t, run[k])
    requires q < |s| ==> !Accepts(t, s[q])
    ensures Scan(t, s, p) == q
  {
    assert forall k :: p <= k < q ==> s[k] == s[p..q][k - p] == run[k - p];
    ScanRun(t, s, p, q);
  }

  /** A version starts with a digit and holds nothing that would end its token early. */
  lemma VersionVisible(v: string)
    requires Version(v)
    ensures Digit(v[0])
    ensures forall k :: 0 <= k < |v| ==> Accepts(VersionToken, v[k])
  {
    var colon := Find(v, ':');
    FindFirst(v, ':');
    forall k | 0 <= k < |v|
      ensures Accepts(VersionToken, v[k])
    {
      if k < colon < |v| { assert v[..colon][k] == v[k]; }
    }
    if colon < |v| { assert v[..colon][0] == v[0]; }
  }

  lemma OperatorSpelling(operator: string)
    requires RelationOf(operator).Some?
    ensures operator != "" && forall k :: 0 <= k < |operator| ==> Accepts(OperatorToken, operator[k])
  {
  }

  lemma OperatorComplete(kind: Kind, s: string, p: nat, a: nat, b: nat, d: nat, c: Clause)
    requires p <= a <= b <= d < |s| && s[p..a] == c.gap0 && s[a..b] == c.operator && s[b..d] == c.gap1
    requires Blanks(c.gap0) && Blanks(c.gap1) && Digit(s[d])
    requires RelationOf(c.operator).Some? && (kind == Provides ==> RelationOf(c.operator) == Some(Equal))
    ensures Yields(OperatorAt(kind, s, p), RelationOf(c.operator).value, d)
  {
    OperatorSpelling(c.operator);
    assert s[a] == s[a..b][0];
    ScanPiece(Blank, s, p, a, c.gap0);
    assert b < d ==> s[b] == s[b..d][0];
    ScanPiece(OperatorToken, s, a, b, c.operator);
    ScanPiece(Blank, s, b, d, c.gap1);
  }

  lemma VersionComplete(s: string, d: nat, e: nat, f: nat, g: nat, c: Clause)
    requires d <= e <= f < g <= |s| && s[f] == ')'
    requires s[d..e] == c.version && s[e..f] == c.gap2 && s[f + 1..g] == c.gap3
    requires Version(c.version) && Blanks(c.gap2) && Blanks(c.gap3)
    requires g < |s| ==> !Space(s[g])
    ensures Yields(VersionAt(s, d), c.version, g)
  {
    VersionVisible(c.version);
    assert e < f ==> s[e] == s[e..f][0];
    ScanPiece(VersionToken, s, d, e, c.version);
    ScanPiece(Blank, s, e, f, c.gap2);
    ScanPiece(Blank, s, f + 1, g, c.gap3);
  }

  lemma ConstraintFrom(kind: Kind, s: string, p: nat, relation: Relation, q: nat, version: string, next: nat)
    requires p < |s| && s[p] == '(' && q <= |s|
    requires Yields(OperatorAt(kind, s, p + 1), relation, q) && Yields(VersionAt(s, q), version, next)
    ensures Yields(ConstraintAt(kind, s, p), Constraint(relation, version), next)
  {
  }

  lemma NoConstraint(kind: Kind, s: string, p: nat)
    requires p <= |s| && (p < |s| ==> s[p] != '(')
    ensures Yields(ConstraintAt(kind, s, p), ClauseMeaning(None), p)
  {
  }

  lemma AtomFrom(kind: Kind, s: string, p: nat, a: nat, name: string, q: Qualification, b: nat, d: nat, c: Constraint, next: nat)
    requires p <= a <= b <= d <= |s| && Scan(NameToken, s, p) == a && s[p..a] == name && Name(name)
    requires Yields(QualificationAt(s, a), q, b) && Scan(Blank, s, b) == d
    requires Yields(ConstraintAt(kind, s, d), c, next)
    ensures Yields(AtomAt(kind, s, p), AtomOf(name, q, c), next)
  {
  }

  /** What may follow a name or an architecture. */
  predicate Delimiter(c: char) {
    Space(c) || c == '(' || c == ',' || c == '|'
  }

  lemma NameComplete(s: string, p: nat, a: nat, name: string)
    requires p <= a <= |s| && s[p..a] == name && Name(name)
    requires a < |s| ==> s[a] == ':' || Delimiter(s[a])
    ensures Scan(NameToken, s, p) == a
  {
    ScanPiece(NameToken, s, p, a, name);
  }

  lemma GapComplete(s: string, b: nat, d: nat, gap: string)
    requires b <= d <= |s| && s[b..d] == gap && Blanks(gap)
    requires d < |s| ==> Delimiter(s[d]) && !Space(s[d])
    ensures Scan(Blank, s, b) == d
    ensures b < |s| ==> Delimiter(s[b])
  {
    ScanPiece(Blank, s, b, d, gap);
    if b < d {
      assert s[b] == s[b..d][0] == gap[0];
    }
  }

  lemma TermFrom(kind: Kind, s: string, p: nat, t: Term, a: nat, b: nat, d: nat, next: nat)
    requires Name(t.name) && Blanks(t.gap) && (t.architecture.Some? ==> QualifierText(t.architecture.value))
    requires p <= a <= b <= d <= |s| && s[p..a] == t.name && s[b..d] == t.gap
    requires if t.architecture.None? then a == b else a < b && s[a] == ':' && s[a + 1..b] == t.architecture.value
    requires d < |s| ==> Delimiter(s[d]) && !Space(s[d])
    requires Yields(ConstraintAt(kind, s, d), ClauseMeaning(t.clause), next)
    ensures Yields(AtomAt(kind, s, p), Meaning(t), next)
  {
    GapComplete(s, b, d, t.gap);
    NameComplete(s, p, a, t.name);
    QualificationComplete(s, a, t.architecture, b);
    AtomFrom(kind, s, p, a, t.name, ArchitectureMeaning(t.architecture), b, d, ClauseMeaning(t.clause), next);
  }

  lemma ClausePieces(s: string, p: nat, c: Clause, rest: string)
    returns (a: nat, b: nat, d: nat, e: nat, f: nat, g: nat)
    requires p <= |s| && s[p..] == SpellClause(c) + rest
    ensures p < a <= b <= d <= e <= f < g <= |s| && s[p] == '(' && s[f] == ')' && g == |s| - |rest|
    ensures s[p + 1..a] == c.gap0 && s[a..b] == c.operator && s[b..d] == c.gap1 && s[d..e] == c.version
    ensures s[e..f] == c.gap2 && s[f + 1..g] == c.gap3
    ensures g < |s| ==> s[g] == rest[0]
  {
    var closing := SpellVersion(c) + rest;
    var p', f';
    assert s[p..] == SpellOperator(c) + closing;
    p', a, b, d := Pieces(s, p, "(", c.gap0, c.operator, c.gap1, closing);
    assert s[p] == s[p..p'][0];
    e, f, f', g := Pieces(s, d, c.version, c.gap2, ")", c.gap3, rest);
    assert s[f] == s[f..f'][0];
  }

  lemma ClauseComplete(kind: Kind, s: string, p: nat, c: Clause, a: nat, b: nat, d: nat, e: nat, f: nat, g: nat)
    requires WellFormedClause(kind, c)
    requires p < a <= b <= d <= e <= f < g <= |s| && s[p] == '(' && s[f] == ')'
    requires s[p + 1..a] == c.gap0 && s[a..b] == c.operator && s[b..d] == c.gap1 && s[d..e] == c.version
    requires s[e..f] == c.gap2 && s[f + 1..g] == c.gap3
    requires g < |s| ==> !Space(s[g])
    ensures Yields(ConstraintAt(kind, s, p), ClauseMeaning(Some(c)), g)
  {
    assert Digit(s[d]) by {
      VersionVisible(c.version);
      assert s[d] == s[d..e][0];
    }
    assert Yields(OperatorAt(kind, s, p + 1), RelationOf(c.operator).value, d) by {
      OperatorComplete(kind, s, p + 1, a, b, d, c);
    }
    assert Yields(VersionAt(s, d), c.version, g) by {
      VersionComplete(s, d, e, f, g, c);
    }
    ConstraintFrom(kind, s, p, RelationOf(c.operator).value, d, c.version, g);
  }

  lemma QualificationComplete(s: string, p: nat, a: Option<string>, q: nat)
    requires a.Some? ==> QualifierText(a.value)
    requires p <= q <= |s| && (a.None? ==> p == q) && (a.Some? ==> p < q && s[p] == ':' && s[p + 1..q] == a.value)
    requires q < |s| ==> Delimiter(s[q])
    ensures Yields(QualificationAt(s, p), ArchitectureMeaning(a), q)
  {
    if a.Some? {
      ScanPiece(ArchitectureToken, s, p + 1, q, a.value);
    }
  }

  /** Separators end every token. */
  predicate EndsTerm(rest: string) {
    |rest| == 0 || rest[0] == ',' || rest[0] == '|'
  }

  lemma ClauseSpelled(kind: Kind, s: string, p: nat, c: Clause, rest: string)
    requires WellFormedClause(kind, c) && EndsTerm(rest)
    requires p <= |s| && s[p..] == SpellClause(c) + rest
    ensures Yields(ConstraintAt(kind, s, p), ClauseMeaning(Some(c)), |s| - |rest|)
    ensures p < |s| && s[p] == '('
  {
    var a, b, d, e, f, g := ClausePieces(s, p, c, rest);
    ClauseComplete(kind, s, p, c, a, b, d, e, f, g);
  }

  lemma OptionalComplete(kind: Kind, s: string, d: nat, c: Option<Clause>, rest: string)
    requires c.Some? ==> WellFormedClause(kind, c.value)
    requires EndsTerm(rest) && d <= |s| && s[d..] == SpellOptional(c) + rest
    ensures Yields(ConstraintAt(kind, s, d), ClauseMeaning(c), |s| - |rest|)
    ensures d < |s| ==> Delimiter(s[d]) && !Space(s[d])
  {
    if c.Some? {
      ClauseSpelled(kind, s, d, c.value, rest);
      assert c == Some(c.value);
    } else {
      assert s[d..] == rest;
      assert d < |s| ==> s[d] == s[d..][0] == rest[0];
      NoConstraint(kind, s, d);
    }
  }

  lemma ArchitecturePieces(s: string, a: nat, b: nat, architecture: Option<string>)
    requires a <= b <= |s| && s[a..b] == SpellArchitecture(architecture)
    ensures if architecture.None? then a == b else a < b && s[a] == ':' && s[a + 1..b] == architecture.value
  {
    if architecture.Some? {
      assert |s[a..b]| == 1 + |architecture.value|;
      assert s[a] == s[a..b][0];
      assert s[a + 1..b] == s[a..b][1..] == (":" + architecture.value)[1..];
    }
  }

  lemma TermComplete(kind: Kind, s: string, p: nat, t: Term, rest: string)
    requires WellFormedTerm(kind, t) && EndsTerm(rest)
    requires p <= |s| && s[p..] == SpellTerm(t) + rest
    ensures Yields(AtomAt(kind, s, p), Meaning(t), |s| - |rest|)
  {
    var a, b, d, _ := Pieces(s, p, t.name, SpellArchitecture(t.architecture), t.gap, SpellOptional(t.clause), rest);
    ArchitecturePieces(s, a, b, t.architecture);
    OptionalComplete(kind, s, d, t.clause, rest);
    TermFrom(kind, s, p, t, a, b, d, |s| - |rest|);
  }

  lemma CountPrefix(gs: seq<Group>, n: nat)
    requires n <= |gs|
    ensures CountAtoms(gs[..n]) <= CountAtoms(gs)
    ensures n < |gs| ==> CountAtoms(gs[..n + 1]) == CountAtoms(gs[..n]) + |gs[n]|
    decreases |gs| - n
  {
    if n < |gs| {
      assert gs[..n + 1][..n] == gs[..n];
      CountPrefix(gs, n + 1);
    } else {
      assert gs[..n] == gs;
    }
  }

  lemma LeadComplete(kind: Kind, s: string, p: nat, lead: string, t: Term, rest: string)
    requires WellFormedTerm(kind, t) && Blanks(lead)
    requires p <= |s| && s[p..] == lead + (SpellTerm(t) + rest)
    ensures p + |lead| < |s| && Scan(Blank, s, p) == p + |lead|
    ensures s[p + |lead|..] == SpellTerm(t) + rest
  {
    Cut(s, p, lead, SpellTerm(t) + rest);
    var q := p + |lead|;
    assert s[q] == s[q..][0] == t.name[0];
    ScanPiece(Blank, s, p, q, lead);
  }

  /** One step of the loop over a spelled term, up to its separator. */
  lemma StepComplete(kind: Kind, s: string, p: nat, t: Term, rest: string,
                     groups: seq<Group>, open: Group, more: Group, count: nat) returns (q: nat)
    requires WellFormedTerm(kind, t) && EndsTerm(rest) && more == open + [Meaning(t)]
    requires p <= |s| && s[p..] == SpellTerm(t) + rest && count < MAXIMUM_ATOMS
    ensures p < q <= |s| && s[q..] == rest
    ensures StepAt(kind, s, p, groups, open, count) == SeparatorAt(kind, s, q, groups, more)
  {
    TermComplete(kind, s, p, t, rest);
    Cut(s, p, SpellTerm(t), rest);
    q := AtomAt(kind, s, p).value.next;
  }

  /** A separator, blanks and the next term. */
  lemma SeparatorComplete(kind: Kind, s: string, q: nat, separator: char, next: Term, rest: string,
                          groups: seq<Group>, open: Group) returns (p: nat)
    requires WellFormedTerm(kind, next)
    requires q <= |s| && s[q..] == [separator] + (next.lead + (SpellTerm(next) + rest))
    requires (separator == ',' && |groups| < MAXIMUM_GROUPS) || (separator == '|' && AllowsAlternatives(kind))
    ensures q < p <= |s| && s[p..] == SpellTerm(next) + rest
    ensures SeparatorAt(kind, s, q, groups, open) ==
            Ok(if separator == ',' then More(p, groups + [open], []) else More(p, groups, open))
  {
    Cut(s, q, [separator], next.lead + (SpellTerm(next) + rest));
    assert s[q] == s[q..q + 1][0];
    LeadComplete(kind, s, q + 1, next.lead, next, rest);
    p := q + 1 + |next.lead|;
  }

  ghost predicate Spelled(kind: Kind, s: string, p: nat, tree: Tree, g: nat, a: nat) {
    && WellFormedTree(kind, tree)
    && (forall k :: 0 <= k < |tree| ==> |tree[k]| > 0)
    && g < |tree| && a < |tree[g]| && p <= |s|
    && s[p..] == SpellFrom(tree, g, a)
  }

  lemma NextAlternative(kind: Kind, s: string, p: nat, tree: Tree, g: nat, a: nat,
                        groups: seq<Group>, open: Group, more: Group, count: nat)
    returns (p': nat)
    requires Spelled(kind, s, p, tree, g, a) && count < MAXIMUM_ATOMS && more == open + [Meaning(tree[g][a])]
    requires a + 1 < |tree[g]|
    ensures StepAt(kind, s, p, groups, open, count) == Ok(More(p', groups, more))
    ensures p < p' && Spelled(kind, s, p', tree, g, a + 1)
  {
    var rest, next := SpellRest(tree, g, a), tree[g][a + 1];
    assert WellFormedGroup(kind, tree[g]);
    var q := StepComplete(kind, s, p, tree[g][a], rest, groups, open, more, count);
    assert SpellFrom(tree, g, a + 1) == SpellTerm(next) + SpellRest(tree, g, a + 1);
    p' := SeparatorComplete(kind, s, q, '|', next, SpellRest(tree, g, a + 1), groups, more);
  }

  lemma NextGroup(kind: Kind, s: string, p: nat, tree: Tree, g: nat, a: nat,
                  groups: seq<Group>, open: Group, more: Group, count: nat)
    returns (p': nat)
    requires Spelled(kind, s, p, tree, g, a) && count < MAXIMUM_ATOMS && more == open + [Meaning(tree[g][a])]
    requires a + 1 == |tree[g]| && g + 1 < |tree| && |groups| < MAXIMUM_GROUPS
    ensures StepAt(kind, s, p, groups, open, count) == Ok(More(p', groups + [more], []))
    ensures p < p' && Spelled(kind, s, p', tree, g + 1, 0)
  {
    var rest, next := SpellRest(tree, g, a), tree[g + 1][0];
    assert WellFormedGroup(kind, tree[g]) && WellFormedGroup(kind, tree[g + 1]);
    var q := StepComplete(kind, s, p, tree[g][a], rest, groups, open, more, count);
    assert SpellFrom(tree, g + 1, 0) == SpellTerm(next) + SpellRest(tree, g + 1, 0);
    p' := SeparatorComplete(kind, s, q, ',', next, SpellRest(tree, g + 1, 0), groups, more);
  }

  lemma LastTerm(kind: Kind, s: string, p: nat, tree: Tree, g: nat, a: nat,
                 groups: seq<Group>, open: Group, more: Group, count: nat)
    requires Spelled(kind, s, p, tree, g, a) && count < MAXIMUM_ATOMS && more == open + [Meaning(tree[g][a])]
    requires a + 1 == |tree[g]| && g + 1 == |tree| && |groups| < MAXIMUM_GROUPS
    ensures StepAt(kind, s, p, groups, open, count) == Ok(Done(groups + [more]))
  {
    assert WellFormedGroup(kind, tree[g]);
    var q := StepComplete(kind, s, p, tree[g][a], SpellRest(tree, g, a), groups, open, more, count);
    assert q == |s|;
  }

  lemma OpenGroup(tree: Tree, gs: seq<Group>, g: nat, a: nat)
    requires TreeMeans(tree, gs) && g < |tree| && a < |tree[g]|
    ensures |gs[g]| == |tree[g]| && gs[g][..a + 1] == gs[g][..a] + [Meaning(tree[g][a])]
  {
    assert GroupMeans(tree[g], gs[g]);
  }

  lemma CloseGroup(gs: seq<Group>, g: nat)
    requires g < |gs|
    ensures gs[g][..|gs[g]|] == gs[g] && gs[..g + 1] == gs[..g] + [gs[g]]
    ensures g + 1 < |gs| ==> gs[g + 1][..0] == []
    ensures g + 1 == |gs| ==> gs[..g + 1] == gs
  {
  }

  lemma ItemsMore(kind: Kind, s: string, p: nat, groups: seq<Group>, open: Group, count: nat,
                  p': nat, groups': seq<Group>, open': Group)
    requires p < p' <= |s| && StepAt(kind, s, p, groups, open, count) == Ok(More(p', groups', open'))
    ensures ItemsAt(kind, s, p, groups, open, count) == ItemsAt(kind, s, p', groups', open', count + 1)
  {
  }

  lemma ItemsDone(kind: Kind, s: string, p: nat, groups: seq<Group>, open: Group, count: nat, groups': seq<Group>)
    requires p <= |s| && StepAt(kind, s, p, groups, open, count) == Ok(Done(groups'))
    ensures var r := ItemsAt(kind, s, p, groups, open, count); r.Ok? && r.value.groups == groups'
  {
  }

  predicate Bounded(groups: seq<Group>) {
    |groups| <= MAXIMUM_GROUPS && CountAtoms(groups) <= MAXIMUM_ATOMS
  }

  predicate IsLast(tree: Tree, g: nat, a: nat)
    requires g < |tree| && a < |tree[g]|
  {
    a + 1 == |tree[g]| && g + 1 == |tree|
  }

  /** The parser's state when it is about to read term `a` of group `g`. */
  ghost predicate AtTerm(kind: Kind, s: string, p: nat, tree: Tree, gs: seq<Group>, g: nat, a: nat,
                         groups: seq<Group>, open: Group, count: nat) {
    && Spelled(kind, s, p, tree, g, a) && TreeMeans(tree, gs)
    && groups == gs[..g] && open == gs[g][..a] && count == CountAtoms(groups) + a
  }

  lemma Advance(kind: Kind, s: string, p: nat, tree: Tree, gs: seq<Group>, g: nat, a: nat,
                groups: seq<Group>, open: Group, count: nat)
    returns (p': nat, g': nat, a': nat, groups': seq<Group>, open': Group)
    requires AtTerm(kind, s, p, tree, gs, g, a, groups, open, count) && !IsLast(tree, g, a)
    requires |gs| <= MAXIMUM_GROUPS && count < MAXIMUM_ATOMS
    ensures p < p' && AtTerm(kind, s, p', tree, gs, g', a', groups', open', count + 1)
    ensures if a + 1 < |tree[g]| then g' == g && a' == a + 1 else g' == g + 1 && a' == 0
    ensures StepAt(kind, s, p, groups, open, count) == Ok(More(p', groups', open'))
  {
    OpenGroup(tree, gs, g, a);
    if a + 1 < |tree[g]| {
      g', a', groups', open' := g, a + 1, groups, gs[g][..a + 1];
      p' := NextAlternative(kind, s, p, tree, g, a, groups, open, open', count);
    } else {
      CountPrefix(gs, g);
      CloseGroup(gs, g);
      g', a', groups', open' := g + 1, 0, gs[..g + 1], [];
      p' := NextGroup(kind, s, p, tree, g, a, groups, open, gs[g], count);
    }
  }

  lemma Finish(kind: Kind, s: string, p: nat, tree: Tree, gs: seq<Group>, g: nat, a: nat,
               groups: seq<Group>, open: Group, count: nat)
    requires AtTerm(kind, s, p, tree, gs, g, a, groups, open, count) && IsLast(tree, g, a)
    requires |gs| <= MAXIMUM_GROUPS && count < MAXIMUM_ATOMS
    ensures StepAt(kind, s, p, groups, open, count) == Ok(Done(gs))
  {
    OpenGroup(tree, gs, g, a);
    CloseGroup(gs, g);
    LastTerm(kind, s, p, tree, g, a, groups, open, gs[g], count);
  }

  lemma CountBelow(tree: Tree, gs: seq<Group>, g: nat, a: nat)
    requires TreeMeans(tree, gs) && g < |tree| && a < |tree[g]|
    ensures CountAtoms(gs[..g]) + a < CountAtoms(gs)
  {
    CountPrefix(gs, g);
    CountPrefix(gs, g + 1);
    assert GroupMeans(tree[g], gs[g]);
  }

  lemma {:induction false} ItemsComplete(kind: Kind, s: string, p: nat, tree: Tree, gs: seq<Group>, g: nat, a: nat,
                                         groups: seq<Group>, open: Group, count: nat)
    requires AtTerm(kind, s, p, tree, gs, g, a, groups, open, count) && Bounded(gs)
    ensures var r := ItemsAt(kind, s, p, groups, open, count); r.Ok? && r.value.groups == gs
    decreases |tree| - g, |tree[g]| - a
  {
    hide StepAt, SpellFrom;
    CountBelow(tree, gs, g, a);
    if IsLast(tree, g, a) {
      Finish(kind, s, p, tree, gs, g, a, groups, open, count);
      ItemsDone(kind, s, p, groups, open, count, gs);
    } else {
      var p', g', a', groups', open' := Advance(kind, s, p, tree, gs, g, a, groups, open, count);
      ItemsMore(kind, s, p, groups, open, count, p', groups', open');
      ItemsComplete(kind, s, p', tree, gs, g', a', groups', open', count + 1);
    }
  }

  // ---------------------------------------------------------------------------------------------
  // Soundness: whatever is parsed is spelled by a tree that means the parsed groups

  lemma Join(s: string, i: nat, j: nat, k: nat)
    requires i <= j <= k <= |s|
    ensures s[i..j] + s[j..k] == s[i..k]
  {
  }

  lemma Tail(s: string, i: nat, j: nat)
    requires i <= j <= |s|
    ensures s[i..] == s[i..j] + s[j..]
  {
  }

  lemma BlanksBetween(s: string, p: nat)
    requires p <= |s|
    ensures Blanks(s[p..Scan(Blank, s, p)])
  {
    ScanLongest(Blank, s, p);
  }

  lemma OperatorSound(kind: Kind, s: string, p: nat) returns (gap0: string, operator: string, gap1: string)
    requires p <= |s| && OperatorAt(kind, s, p).Ok?
    ensures var r := OperatorAt(kind, s, p).value;
            && s[p..r.next] == gap0 + (operator + gap1)
            && RelationOf(operator) == Some(r.value) && (kind == Provides ==> r.value == Equal)
    ensures Blanks(gap0) && Blanks(gap1)
  {
    var begin := Scan(Blank, s, p);
    var end := Scan(OperatorToken, s, begin);
    var next := Scan(Blank, s, end);
    gap0, operator, gap1 := s[p..begin], s[begin..end], s[end..next];
    BlanksBetween(s, p);
    BlanksBetween(s, end);
    Join(s, begin, end, next);
    Join(s, p, begin, next);
  }

  lemma VersionSound(s: string, p: nat) returns (gap2: string, gap3: string)
    requires p <= |s| && VersionAt(s, p).Ok?
    ensures var r := VersionAt(s, p).value;
            && s[p..r.next] == r.value + (gap2 + (")" + gap3))
            && Version(r.value)
    ensures Blanks(gap2) && Blanks(gap3)
  {
    var end := Scan(VersionToken, s, p);
    var close := Scan(Blank, s, end);
    var next := Scan(Blank, s, close + 1);
    gap2, gap3 := s[end..close], s[close + 1..next];
    BlanksBetween(s, end);
    BlanksBetween(s, close + 1);
    assert s[close..close + 1] == ")";
    Join(s, close, close + 1, next);
    Join(s, end, close, next);
    Join(s, p, end, next);
  }

  lemma ClauseSound(kind: Kind, s: string, p: nat) returns (c: Option<Clause>)
    requires p <= |s| && ConstraintAt(kind, s, p).Ok?
    ensures var r := ConstraintAt(kind, s, p).value; s[p..r.next] == SpellOptional(c) && r.value == ClauseMeaning(c)
    ensures c.Some? ==> WellFormedClause(kind, c.value)
  {
    if p < |s| && s[p] == '(' {
      var operator := OperatorAt(kind, s, p + 1).value;
      var version := VersionAt(s, operator.next).value;
      var gap0, op, gap1 := OperatorSound(kind, s, p + 1);
      var gap2, gap3 := VersionSound(s, operator.next);
      var clause := Clause(gap0, op, gap1, version.value, gap2, gap3);
      c := Some(clause);
      Join(s, p, p + 1, operator.next);
      Join(s, p, operator.next, version.next);
      assert s[p..p + 1] == "(";
      assert s[p..operator.next] == SpellOperator(clause);
      assert s[operator.next..version.next] == SpellVersion(clause);
    } else {
      c := None;
      assert s[p..p] == "";
    }
  }

  lemma QualificationSound(s: string, p: nat) returns (a: Option<string>)
    requires p <= |s| && QualificationAt(s, p).Ok?
    ensures var r := QualificationAt(s, p).value; s[p..r.next] == SpellArchitecture(a) && r.value == ArchitectureMeaning(a)
    ensures a.Some? ==> QualifierText(a.value)
  {
    if p < |s| && s[p] == ':' {
      var end := Scan(ArchitectureToken, s, p + 1);
      a := Some(s[p + 1..end]);
      Join(s, p, p + 1, end);
      assert s[p..p + 1] == ":";
    } else {
      a := None;
    }
  }

  lemma TermSound(kind: Kind, s: string, p: nat, lead: string) returns (t: Term)
    requires p <= |s| && AtomAt(kind, s, p).Ok? && Blanks(lead)
    ensures WellFormedTerm(kind, t) && t.lead == lead
    ensures var r := AtomAt(kind, s, p).value; Meaning(t) == r.value && s[p..r.next] == SpellTerm(t)
  {
    var a := Scan(NameToken, s, p);
    var q := QualificationAt(s, a).value;
    var architecture := QualificationSound(s, a);
    var d := Scan(Blank, s, q.next);
    var clause := ClauseSound(kind, s, d);
    var next := ConstraintAt(kind, s, d).value.next;
    t := Term(lead, s[p..a], architecture, s[q.next..d], clause);
    BlanksBetween(s, q.next);
    Join(s, q.next, d, next);
    Join(s, a, q.next, next);
    Join(s, p, a, next);
  }

  lemma MeansAppend(done: Tree, groups: seq<Group>, open: seq<Term>, alternatives: Group, t: Term)
    requires TreeMeans(done, groups) && GroupMeans(open, alternatives)
    ensures GroupMeans(open + [t], alternatives + [Meaning(t)])
    ensures TreeMeans(done + [open + [t]], groups + [alternatives + [Meaning(t)]])
  {
    var ts, g := open + [t], alternatives + [Meaning(t)];
    forall k | 0 <= k < |done| + 1
      ensures GroupMeans((done + [ts])[k], (groups + [g])[k])
    {
      if k < |done| { assert GroupMeans(done[k], groups[k]); }
    }
  }

  /** The tree extends what was complete and what was open, and spells the text from here on. */
  ghost predicate Completes(kind: Kind, s: string, p: nat, tree: Tree, done: Tree, open: seq<Term>, lead: string) {
    && |done| < |tree| && tree[..|done|] == done
    && |open| < |tree[|done|]| && tree[|done|][..|open|] == open
    && tree[|done|][|open|].lead == lead
    && Spelled(kind, s, p, tree, |done|, |open|)
  }

  /** What has been read so far, as trees and as the groups they mean. */
  ghost predicate Resumable(kind: Kind, done: Tree, groups: seq<Group>, open: seq<Term>, alternatives: Group, lead: string) {
    && WellFormedTree(kind, done) && TreeMeans(done, groups)
    && (forall a :: 0 <= a < |open| ==> WellFormedTerm(kind, open[a])) && GroupMeans(open, alternatives)
    && (AllowsAlternatives(kind) || |open| == 0)
    && Blanks(lead)
  }

  lemma SeparatorSound(kind: Kind, s: string, q: nat, groups: seq<Group>, open: Group) returns (lead: string)
    requires q <= |s| && SeparatorAt(kind, s, q, groups, open).Ok?
    ensures Blanks(lead)
    ensures var r := SeparatorAt(kind, s, q, groups, open).value;
            match r
            case Done(groups') => q == |s| && groups' == groups + [open]
            case More(next, groups', open') =>
              && q < next
              && ((groups' == groups + [open] && open' == [] && s[q..] == "," + (lead + s[next..]))
                  || (groups' == groups && open' == open && AllowsAlternatives(kind) && s[q..] == "|" + (lead + s[next..])))
  {
    lead := "";
    if q < |s| {
      var next := Scan(Blank, s, q + 1);
      lead := s[q + 1..next];
      BlanksBetween(s, q + 1);
      Tail(s, q + 1, next);
      Tail(s, q, q + 1);
      assert s[q..q + 1] == [s[q]];
    }
  }

  lemma CompletesLast(kind: Kind, s: string, p: nat, t: Term, done: Tree, open: seq<Term>)
    requires WellFormedTree(kind, done) && WellFormedGroup(kind, open + [t])
    requires p <= |s| && s[p..] == SpellTerm(t)
    ensures Completes(kind, s, p, done + [open + [t]], done, open, t.lead)
  {
    var tree := done + [open + [t]];
    assert SpellFrom(tree, |done|, |open|) == SpellTerm(t) + SpellRest(tree, |done|, |open|);
    assert s[p..] + "" == s[p..];
  }

  lemma CompletesGroup(kind: Kind, s: string, p: nat, t: Term, next: nat, tree: Tree, done: Tree, open: seq<Term>, lead: string)
    requires p < next <= |s|
    requires Completes(kind, s, next, tree, done + [open + [t]], [], lead)
    requires s[p..] == SpellTerm(t) + ("," + (lead + s[next..]))
    ensures Completes(kind, s, p, tree, done, open, t.lead)
  {
    var g, a := |done|, |open|;
    assert tree[g] == tree[..g + 1][g] == open + [t];
    assert tree[..g] == tree[..g + 1][..g] == done;
    assert SpellFrom(tree, g, a) == SpellTerm(t) + SpellRest(tree, g, a);
  }

  lemma CompletesAlternative(kind: Kind, s: string, p: nat, t: Term, next: nat, tree: Tree, done: Tree, open: seq<Term>, lead: string)
    requires p < next <= |s|
    requires Completes(kind, s, next, tree, done, open + [t], lead)
    requires s[p..] == SpellTerm(t) + ("|" + (lead + s[next..]))
    ensures Completes(kind, s, p, tree, done, open, t.lead)
  {
    var g, a := |done|, |open|;
    assert tree[g][a] == tree[g][..a + 1][a] == t;
    assert tree[g][..a] == tree[g][..a + 1][..a] == open;
    assert SpellFrom(tree, g, a) == SpellTerm(t) + SpellRest(tree, g, a);
  }

  /** The term read by one step and the separator after it. */
  lemma StepSound(kind: Kind, s: string, p: nat, groups: seq<Group>, alternatives: Group, lead: string, count: nat)
    returns (t: Term, more: Group, closes: bool, lead': string)
    requires p <= |s| && Blanks(lead)
    requires StepAt(kind, s, p, groups, alternatives, count).Ok?
    ensures WellFormedTerm(kind, t) && t.lead == lead && Blanks(lead') && more == alternatives + [Meaning(t)]
    ensures closes || AllowsAlternatives(kind)
    ensures match StepAt(kind, s, p, groups, alternatives, count).value
            case Done(groups') => closes && s[p..] == SpellTerm(t) && groups' == groups + [more]
            case More(next, groups', open') =>
              && groups' == (if closes then groups + [more] else groups)
              && open' == (if closes then [] else more)
              && s[p..] == SpellTerm(t) + ((if closes then "," else "|") + (lead' + s[next..]))
  {
    t := TermSound(kind, s, p, lead);
    more := alternatives + [Meaning(t)];
    var q := AtomAt(kind, s, p).value.next;
    lead' := SeparatorSound(kind, s, q, groups, more);
    closes := q == |s| || s[q] == ',';
    Tail(s, p, q);
  }

  /** One unfolding of the parse: what it read, and the parse that remains. */
  lemma ItemsUnfold(kind: Kind, s: string, p: nat, groups: seq<Group>, alternatives: Group, lead: string, count: nat)
    returns (t: Term, more: Group, last: bool, closes: bool, next: nat, lead': string)
    requires p <= |s| && Blanks(lead)
    requires ItemsAt(kind, s, p, groups, alternatives, count).Ok?
    ensures WellFormedTerm(kind, t) && t.lead == lead && Blanks(lead') && more == alternatives + [Meaning(t)]
    ensures closes || AllowsAlternatives(kind)
    ensures var r := ItemsAt(kind, s, p, groups, alternatives, count);
            if last then closes && s[p..] == SpellTerm(t) && r.value.groups == groups + [more]
            else p < next <= |s|
                 && r == ItemsAt(kind, s, next, if closes then groups + [more] else groups, if closes then [] else more, count + 1)
                 && s[p..] == SpellTerm(t) + ((if closes then "," else "|") + (lead' + s[next..]))
  {
    t, more, closes, lead' := StepSound(kind, s, p, groups, alternatives, lead, count);
    match StepAt(kind, s, p, groups, alternatives, count).value
    case Done(groups') => last, next := true, p;
    case More(next', groups', open') =>
      last, next := false, next';
      ItemsMore(kind, s, p, groups, alternatives, count, next, groups', open');
  }

  lemma Resume(kind: Kind, done: Tree, groups: seq<Group>, open: seq<Term>, alternatives: Group, t: Term, closes: bool, lead: string)
    requires Resumable(kind, done, groups, open, alternatives, t.lead) && WellFormedTerm(kind, t) && Blanks(lead)
    requires closes || AllowsAlternatives(kind)
    ensures var more := alternatives + [Meaning(t)];
            if closes then
              && Resumable(kind, done + [open + [t]], groups + [more], [], [], lead)
              && WellFormedGroup(kind, open + [t])
            else Resumable(kind, done, groups, open + [t], more, lead)
  {
    MeansAppend(done, groups, open, alternatives, t);
    if closes {
      assert WellFormedGroup(kind, open + [t]);
    }
  }

  lemma {:induction false} ItemsSound(kind: Kind, s: string, p: nat, done: Tree, groups: seq<Group>,
                                      open: seq<Term>, alternatives: Group, lead: string, count: nat)
    returns (tree: Tree)
    requires p <= |s| && Resumable(kind, done, groups, open, alternatives, lead)
    requires ItemsAt(kind, s, p, groups, alternatives, count).Ok?
    ensures Completes(kind, s, p, tree, done, open, lead)
    ensures TreeMeans(tree, ItemsAt(kind, s, p, groups, alternatives, count).value.groups)
    decreases |s| - p
  {
    var t, more, last, closes, next, lead' := ItemsUnfold(kind, s, p, groups, alternatives, lead, count);
    Resume(kind, done, groups, open, alternatives, t, closes, lead');
    if last {
      tree := done + [open + [t]];
      CompletesLast(kind, s, p, t, done, open);
    } else if closes {
      tree := ItemsSound(kind, s, next, done + [open + [t]], groups + [more], [], [], lead', count + 1);
      CompletesGroup(kind, s, p, t, next, tree, done, open, lead');
    } else {
      tree := ItemsSound(kind, s, next, done, groups, open + [t], more, lead', count + 1);
      CompletesAlternative(kind, s, p, t, next, tree, done, open, lead');
    }
  }

  lemma CountAppend(groups: seq<Group>, g: Group)
    ensures CountAtoms(groups + [g]) == CountAtoms(groups) + |g|
  {
    assert (groups + [g])[..|groups|] == groups;
  }

  lemma SeparatorCount(kind: Kind, s: string, q: nat, groups: seq<Group>, open: Group, count: nat)
    requires q <= |s| && SeparatorAt(kind, s, q, groups, open).Ok?
    requires count == CountAtoms(groups) + |open| && |groups| <= MAXIMUM_GROUPS
    ensures match SeparatorAt(kind, s, q, groups, open).value
            case Done(groups') => count == CountAtoms(groups') && |groups'| <= MAXIMUM_GROUPS
            case More(next, groups', open') => count == CountAtoms(groups') + |open'| && |groups'| <= MAXIMUM_GROUPS
  {
    CountAppend(groups, open);
    if q < |s| && s[q] == ',' {
      assert SeparatorAt(kind, s, q, groups, open) == AfterSeparator(s, q, groups + [open], []);
    } else if q < |s| {
      assert SeparatorAt(kind, s, q, groups, open) == AfterSeparator(s, q, groups, open);
    }
  }

  lemma StepCount(kind: Kind, s: string, p: nat, groups: seq<Group>, open: Group, count: nat)
    requires p <= |s| && StepAt(kind, s, p, groups, open, count).Ok?
    requires count == CountAtoms(groups) + |open| && |groups| <= MAXIMUM_GROUPS
    ensures count + 1 <= MAXIMUM_ATOMS
    ensures match StepAt(kind, s, p, groups, open, count).value
            case Done(groups') => count + 1 == CountAtoms(groups') && |groups'| <= MAXIMUM_GROUPS
            case More(next, groups', open') => count + 1 == CountAtoms(groups') + |open'| && |groups'| <= MAXIMUM_GROUPS
  {
    var atom := AtomAt(kind, s, p).value;
    SeparatorCount(kind, s, atom.next, groups, open + [atom.value], count + 1);
  }

  lemma {:induction false} ItemsCount(kind: Kind, s: string, p: nat, groups: seq<Group>, open: Group, count: nat)
    requires p <= |s| && ItemsAt(kind, s, p, groups, open, count).Ok?
    requires count == CountAtoms(groups) + |open| && |groups| <= MAXIMUM_GROUPS
    ensures var r := ItemsAt(kind, s, p, groups, open, count).value;
            r.count == CountAtoms(r.groups) <= MAXIMUM_ATOMS && |r.groups| <= MAXIMUM_GROUPS
    decreases |s| - p
  {
    StepCount(kind, s, p, groups, open, count);
    match StepAt(kind, s, p, groups, open, count).value
    case Done(groups') =>
    case More(next, groups', open') => ItemsCount(kind, s, next, groups', open', count + 1);
  }

  // ---------------------------------------------------------------------------------------------
  // The listing of a text is exactly what some document that spells it means

  ghost predicate WellFormedDocument(kind: Kind, d: Document) {
    && Blanks(d.blank) && WellFormedTree(kind, d.tree)
    && forall g :: 0 <= g < |d.tree| ==> |d.tree[g]| > 0
  }

  ghost predicate Denotes(kind: Kind, s: string, groups: seq<Group>) {
    exists d: Document :: WellFormedDocument(kind, d) && Spell(d) == s && TreeMeans(d.tree, groups)
  }

  lemma TreeDenotes(kind: Kind, s: string, p: nat, tree: Tree, groups: seq<Group>, lead: string)
    requires Completes(kind, s, p, tree, [], [], lead) && s[..p] == lead && TreeMeans(tree, groups)
    ensures Denotes(kind, s, groups)
  {
    var d := Document("", tree);
    assert s == s[..p] + s[p..];
    assert Spell(d) == s;
    assert WellFormedDocument(kind, d);
  }

  lemma BlankDenotes(kind: Kind, s: string)
    requires Blanks(s)
    ensures Denotes(kind, s, [])
  {
    var d := Document(s, []);
    assert Spell(d) == s && WellFormedDocument(kind, d) && TreeMeans(d.tree, []);
  }

  lemma ListingSound(kind: Kind, s: string)
    requires ListingOf(kind, s).Ok?
    ensures var r := ListingOf(kind, s).value;
            Denotes(kind, s, r.groups) && Bounded(r.groups) && r.count == CountAtoms(r.groups)
  {
    var p := Scan(Blank, s, 0);
    BlanksBetween(s, 0);
    if p == |s| {
      assert s[0..p] == s;
      BlankDenotes(kind, s);
    } else {
      assert s[..p] == s[0..p];
      ItemsCount(kind, s, p, [], [], 0);
      var tree := ItemsSound(kind, s, p, [], [], [], [], s[..p], 0);
      TreeDenotes(kind, s, p, tree, ListingOf(kind, s).value.groups, s[..p]);
    }
  }

  lemma DocumentComplete(kind: Kind, s: string, d: Document, groups: seq<Group>)
    requires WellFormedDocument(kind, d) && Spell(d) == s && TreeMeans(d.tree, groups) && Bounded(groups)
    requires |d.tree| > 0
    ensures var p := Scan(Blank, s, 0);
            p < |s| && ItemsAt(kind, s, p, [], [], 0).Ok? && ItemsAt(kind, s, p, [], [], 0).value.groups == groups
  {
    var tree := d.tree;
    assert WellFormedGroup(kind, tree[0]);
    var t, rest := tree[0][0], SpellRest(tree, 0, 0);
    assert s[0..] == s == t.lead + (SpellTerm(t) + rest) by {
      assert SpellFrom(tree, 0, 0) == SpellTerm(t) + rest;
    }
    LeadComplete(kind, s, 0, t.lead, t, rest);
    assert groups[..0] == [] && groups[0][..0] == [];
    ItemsComplete(kind, s, |t.lead|, tree, groups, 0, 0, [], [], 0);
  }

  lemma EmptyComplete(kind: Kind, s: string, d: Document, groups: seq<Group>)
    requires WellFormedDocument(kind, d) && Spell(d) == s && TreeMeans(d.tree, groups) && |d.tree| == 0
    ensures var r := ListingOf(kind, s); r.Ok? && r.value.groups == groups
  {
    ScanRun(Blank, s, 0, |s|);
  }

  lemma ListingComplete(kind: Kind, s: string, groups: seq<Group>)
    requires Denotes(kind, s, groups) && Bounded(groups)
    ensures var r := ListingOf(kind, s); r.Ok? && r.value.groups == groups
  {
    var d :| WellFormedDocument(kind, d) && Spell(d) == s && TreeMeans(d.tree, groups);
    hide WellFormedDocument, Spell, TreeMeans, Bounded, ItemsAt, Scan;
    if |d.tree| == 0 {
      EmptyComplete(kind, s, d, groups);
    } else {
      DocumentComplete(kind, s, d, groups);
    }
  }

  // ---------------------------------------------------------------------------------------------
  // Every spelled byte is readable, so the parser's first scan never refuses a well-formed text

  predicate AllReadable(s: string) {
    forall k :: 0 <= k < |s| ==> Readable(s[k])
  }

  lemma ReadableJoin(x: string, y: string)
    requires AllReadable(x) && AllReadable(y)
    ensures AllReadable(x + y)
  {
  }

  lemma VersionReadable(v: string)
    requires Version(v)
    ensures AllReadable(v)
  {
    var colon := Find(v, ':');
    FindFirst(v, ':');
    forall k | 0 <= k < |v|
      ensures Readable(v[k])
    {
      if k < colon < |v| { assert v[..colon][k] == v[k]; }
    }
  }

  lemma ClauseReadable(kind: Kind, c: Clause)
    requires WellFormedClause(kind, c)
    ensures AllReadable(SpellClause(c))
  {
    OperatorSpelling(c.operator);
    VersionReadable(c.version);
    ReadableJoin(c.operator, c.gap1);
    ReadableJoin(c.gap0, c.operator + c.gap1);
    ReadableJoin("(", c.gap0 + (c.operator + c.gap1));
    ReadableJoin(")", c.gap3);
    ReadableJoin(c.gap2, ")" + c.gap3);
    ReadableJoin(c.version, c.gap2 + (")" + c.gap3));
    ReadableJoin(SpellOperator(c), SpellVersion(c));
  }

  lemma TermReadable(kind: Kind, t: Term)
    requires WellFormedTerm(kind, t)
    ensures AllReadable(SpellTerm(t)) && AllReadable(t.lead)
  {
    if t.clause.Some? { ClauseReadable(kind, t.clause.value); }
    if t.architecture.Some? { ReadableJoin(":", t.architecture.value); }
    ReadableJoin(t.gap, SpellOptional(t.clause));
    ReadableJoin(SpellArchitecture(t.architecture), t.gap + SpellOptional(t.clause));
    ReadableJoin(t.name, SpellArchitecture(t.architecture) + (t.gap + SpellOptional(t.clause)));
  }

  lemma {:induction false} TreeReadable(kind: Kind, tree: Tree, g: nat, a: nat)
    requires WellFormedTree(kind, tree) && forall k :: 0 <= k < |tree| ==> |tree[k]| > 0
    requires g < |tree| && a < |tree[g]|
    ensures AllReadable(SpellFrom(tree, g, a))
    decreases |tree| - g, |tree[g]| - a
  {
    assert WellFormedGroup(kind, tree[g]);
    TermReadable(kind, tree[g][a]);
    if a + 1 < |tree[g]| {
      TermReadable(kind, tree[g][a + 1]);
      TreeReadable(kind, tree, g, a + 1);
      ReadableJoin(tree[g][a + 1].lead, SpellFrom(tree, g, a + 1));
      ReadableJoin("|", tree[g][a + 1].lead + SpellFrom(tree, g, a + 1));
    } else if g + 1 < |tree| {
      assert WellFormedGroup(kind, tree[g + 1]);
      TermReadable(kind, tree[g + 1][0]);
      TreeReadable(kind, tree, g + 1, 0);
      ReadableJoin(tree[g + 1][0].lead, SpellFrom(tree, g + 1, 0));
      ReadableJoin(",", tree[g + 1][0].lead + SpellFrom(tree, g + 1, 0));
    }
    ReadableJoin(SpellTerm(tree[g][a]), SpellRest(tree, g, a));
  }

  lemma DenotedReadable(kind: Kind, s: string, groups: seq<Group>)
    requires Denotes(kind, s, groups)
    ensures Unreadable(s, 0) == |s|
  {
    var d :| WellFormedDocument(kind, d) && Spell(d) == s && TreeMeans(d.tree, groups);
    if |d.tree| > 0 {
      assert WellFormedGroup(kind, d.tree[0]);
      TermReadable(kind, d.tree[0][0]);
      TreeReadable(kind, d.tree, 0, 0);
      ReadableJoin(d.tree[0][0].lead, SpellFrom(d.tree, 0, 0));
    }
    assert AllReadable(s);
  }

  /** A field is accepted, with these groups, precisely when the grammar gives the text that meaning within the limits. */
  lemma FieldExact(kind: Kind, text: string, groups: seq<Group>)
    ensures FieldOf(kind, text).Ok? && FieldOf(kind, text).value.groups == groups
            <==> Denotes(kind, text, groups) && Bounded(groups)
                 && |text| <= MAXIMUM_FIELD_BYTES && |PrintGroups(groups)| <= MAXIMUM_FIELD_BYTES
  {
    if FieldOf(kind, text).Ok? && FieldOf(kind, text).value.groups == groups {
      ListingSound(kind, text);
    }
    if Denotes(kind, text, groups) && Bounded(groups) && |text| <= MAXIMUM_FIELD_BYTES {
      DenotedReadable(kind, text, groups);
      ListingComplete(kind, text, groups);
    }
  }
}
