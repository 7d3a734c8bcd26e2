/**
 * The canonical text of a parsed field spells the same groups, so parsing and printing undo
 * each other; and dropping the versions from a field gives text that parses to the same shape.
 */
module RelationshipCanonical {
  import opened Text
  import opened BinaryRelationships
  import opened RelationshipGrammar

  predicate WellFormedQualifier(qualifier: Qualifier, architecture: string) {
    match qualifier
    case Implicit => |architecture| == 0
    case Any => IsAny(architecture)
    case Native => IsNative(architecture)
    case Exact => ConcreteArchitecture(architecture)
  }

  predicate WellFormedRelation(kind: Kind, relation: Relation, version: string) {
    if relation == NoRelation then |version| == 0
    else Version(version) && (kind == Provides ==> relation == Equal)
  }

  predicate WellFormedAtom(kind: Kind, a: Atom) {
    && Name(a.package)
    && WellFormedQualifier(a.qualifier, a.architecture)
    && WellFormedRelation(kind, a.relation, a.version)
  }

  predicate WellFormedAlternatives(kind: Kind, g: Group) {
    && |g| > 0
    && (AllowsAlternatives(kind) || |g| == 1)
    && forall a :: 0 <= a < |g| ==> WellFormedAtom(kind, g[a])
  }

  predicate WellFormedGroups(kind: Kind, gs: seq<Group>) {
    forall g :: 0 <= g < |gs| ==> WellFormedAlternatives(kind, gs[g])
  }

  /** Exactly the fields the parser can produce. */
  predicate ValidField(f: Field) {
    && WellFormedGroups(f.kind, f.groups) && Bounded(f.groups)
    && f.canonical == PrintGroups(f.groups) && |f.canonical| <= MAXIMUM_FIELD_BYTES
    && f.atomCount == CountAtoms(f.groups)
  }

  lemma MeaningWellFormed(kind: Kind, t: Term)
    requires WellFormedTerm(kind, t)
    ensures WellFormedAtom(kind, Meaning(t))
  {
  }

  lemma TreeMeaningWellFormed(kind: Kind, tree: Tree, gs: seq<Group>)
    requires WellFormedTree(kind, tree) && TreeMeans(tree, gs)
    ensures WellFormedGroups(kind, gs)
  {
    forall g | 0 <= g < |gs|
      ensures WellFormedAlternatives(kind, gs[g])
    {
      assert WellFormedGroup(kind, tree[g]) && GroupMeans(tree[g], gs[g]);
      forall a | 0 <= a < |gs[g]|
        ensures WellFormedAtom(kind, gs[g][a])
      {
        MeaningWellFormed(kind, tree[g][a]);
      }
    }
  }

  // ---------------------------------------------------------------------------------------------
  // The tree of the canonical layout

  function CanonicalTerm(a: Atom, first: bool, trailing: string): Term {
    Term(if first then "" else " ", a.package, if a.qualifier == Implicit then None else Some(a.architecture),
         if a.relation == NoRelation then trailing else " ",
         if a.relation == NoRelation then None
         else Some(Clause("", Operator(a.relation), " ", a.version, "", trailing)))
  }

  /** A blank separates an alternative from the bar after it; a comma follows its group directly. */
  function Trailing(g: Group, a: nat): string {
    if a + 1 < |g| then " " else ""
  }

  function CanonicalGroup(g: Group, first: bool): (ts: seq<Term>)
    ensures |ts| == |g|
    ensures forall a :: 0 <= a < |g| ==> ts[a] == CanonicalTerm(g[a], first && a == 0, Trailing(g, a))
  {
    seq(|g|, a requires 0 <= a < |g| => CanonicalTerm(g[a], first && a == 0, Trailing(g, a)))
  }

  function CanonicalTree(gs: seq<Group>): (tree: Tree)
    ensures |tree| == |gs|
    ensures forall g :: 0 <= g < |gs| ==> tree[g] == CanonicalGroup(gs[g], g == 0)
  {
    seq(|gs|, g requires 0 <= g < |gs| => CanonicalGroup(gs[g], g == 0))
  }

  lemma OperatorInverse(relation: Relation)
    ensures relation != NoRelation ==> RelationOf(Operator(relation)) == Some(relation)
  {
  }

  lemma CanonicalTermCorrect(kind: Kind, a: Atom, first: bool, trailing: string)
    requires WellFormedAtom(kind, a) && Blanks(trailing)
    ensures WellFormedTerm(kind, CanonicalTerm(a, first, trailing))
    ensures Meaning(CanonicalTerm(a, first, trailing)) == a
  {
    hide Version, Name, Architecture;
    OperatorInverse(a.relation);
  }

  lemma CanonicalClauseText(operator: string, version: string, trailing: string)
    ensures " " + SpellClause(Clause("", operator, " ", version, "", trailing))
            == (" (" + operator + " " + version + ")") + trailing
  {
    assert "" + (operator + " ") == operator + " " && "" + (")" + trailing) == ")" + trailing;
  }

  lemma Regroup(x: string, y: string, z: string, trailing: string)
    ensures x + (y + (z + trailing)) == ((x + y) + z) + trailing
  {
  }

  lemma CanonicalTermText(a: Atom, first: bool, trailing: string)
    ensures SpellTerm(CanonicalTerm(a, first, trailing)) == PrintAtom(a) + trailing
  {
    hide Operator, SpellClause;
    var t := CanonicalTerm(a, first, trailing);
    var architecture := SpellArchitecture(t.architecture);
    if a.relation == NoRelation {
      Regroup(a.package, architecture, "", trailing);
      assert trailing + "" == "" + trailing;
    } else {
      CanonicalClauseText(Operator(a.relation), a.version, trailing);
      Regroup(a.package, architecture, " (" + Operator(a.relation) + " " + a.version + ")", trailing);
    }
  }

  lemma CanonicalTreeCorrect(kind: Kind, gs: seq<Group>)
    requires WellFormedGroups(kind, gs)
    ensures WellFormedDocument(kind, Document("", CanonicalTree(gs)))
    ensures TreeMeans(CanonicalTree(gs), gs)
  {
    var tree := CanonicalTree(gs);
    forall g | 0 <= g < |gs|
      ensures WellFormedGroup(kind, tree[g]) && GroupMeans(tree[g], gs[g])
    {
      assert WellFormedAlternatives(kind, gs[g]);
      forall a | 0 <= a < |gs[g]|
        ensures WellFormedTerm(kind, tree[g][a]) && Meaning(tree[g][a]) == gs[g][a]
      {
        CanonicalTermCorrect(kind, gs[g][a], g == 0 && a == 0, Trailing(gs[g], a));
      }
    }
  }

  lemma GlueAlternative(open: string, text: string, closed: string, group: string, rest: string)
    requires open + text == closed + group
    ensures open + ((text + " ") + ("|" + (" " + rest))) == (closed + (group + " | ")) + rest
  {
    calc {
      open + ((text + " ") + ("|" + (" " + rest)));
      (open + text) + (" | " + rest);
      (closed + group) + (" | " + rest);
      (closed + (group + " | ")) + rest;
    }
  }

  lemma GlueGroup(open: string, text: string, groups: string, rest: string)
    requires open + text == groups
    ensures open + ((text + "") + ("," + (" " + rest))) == ((groups + ", ") + "") + rest
  {
    calc {
      open + ((text + "") + ("," + (" " + rest)));
      (open + text) + (", " + rest);
      ((groups + ", ") + "") + rest;
    }
  }

  ghost predicate Canonical(gs: seq<Group>, tree: Tree) {
    tree == CanonicalTree(gs) && forall k :: 0 <= k < |tree| ==> |tree[k]| > 0
  }

  lemma CanonicalAlternative(gs: seq<Group>, tree: Tree, g: nat, a: nat)
    requires Canonical(gs, tree) && g < |gs| && a + 1 < |gs[g]|
    ensures SpellFrom(tree, g, a) == (PrintAtom(gs[g][a]) + " ") + ("|" + (" " + SpellFrom(tree, g, a + 1)))
  {
    CanonicalTermText(gs[g][a], g == 0 && a == 0, " ");
  }

  lemma CanonicalGroupEnd(gs: seq<Group>, tree: Tree, g: nat, a: nat)
    requires Canonical(gs, tree) && g < |gs| && a + 1 == |gs[g]|
    ensures if g + 1 < |gs| then
              SpellFrom(tree, g, a) == (PrintAtom(gs[g][a]) + "") + ("," + (" " + SpellFrom(tree, g + 1, 0)))
            else SpellFrom(tree, g, a) == PrintAtom(gs[g][a]) + ""
  {
    CanonicalTermText(gs[g][a], g == 0 && a == 0, "");
    if g + 1 < |gs| {
      assert |tree[g + 1]| > 0;
      assert tree[g + 1][0].lead == " ";
    } else {
      assert SpellRest(tree, g, a) == "";
    }
  }

  lemma TakeOne<T>(s: seq<T>, n: nat)
    requires n < |s|
    ensures s[..n] + [s[n]] == s[..n + 1]
    ensures n + 1 == |s| ==> s[..n + 1] == s
  {
  }

  lemma PrintedSoFar(gs: seq<Group>, g: nat, a: nat)
    requires g < |gs| && a < |gs[g]|
    ensures PrintOpen(gs[..g], gs[g][..a]) + PrintAtom(gs[g][a]) == PrintClosed(gs[..g]) + PrintGroup(gs[g][..a + 1])
    ensures a + 1 == |gs[g]| ==> PrintClosed(gs[..g]) + PrintGroup(gs[g][..a + 1]) == PrintGroups(gs[..g + 1])
  {
    PrintOpenAtom(gs[..g], gs[g][..a], gs[g][a]);
    TakeOne(gs[g], a);
    if a + 1 == |gs[g]| {
      TakeOne(gs, g);
      PrintCloseGroup(gs[..g], gs[g]);
    }
  }

  /** What is printed so far, followed by the canonical layout of the rest, is the canonical text. */
  lemma {:induction false} CanonicalSpelling(gs: seq<Group>, tree: Tree, g: nat, a: nat)
    requires Canonical(gs, tree) && g < |gs| && a < |gs[g]|
    ensures PrintOpen(gs[..g], gs[g][..a]) + SpellFrom(tree, g, a) == PrintGroups(gs)
    decreases |gs| - g, |gs[g]| - a
  {
    hide PrintAtom, PrintGroup, PrintGroups, CanonicalTree, SpellFrom;
    var open, text := PrintOpen(gs[..g], gs[g][..a]), PrintAtom(gs[g][a]);
    PrintedSoFar(gs, g, a);
    if a + 1 < |gs[g]| {
      CanonicalSpelling(gs, tree, g, a + 1);
      CanonicalAlternative(gs, tree, g, a);
      GlueAlternative(open, text, PrintClosed(gs[..g]), PrintGroup(gs[g][..a + 1]), SpellFrom(tree, g, a + 1));
    } else {
      CanonicalGroupEnd(gs, tree, g, a);
      if g + 1 < |gs| {
        assert |tree[g + 1]| > 0;
        CanonicalSpelling(gs, tree, g + 1, 0);
        GlueGroup(open, text, PrintGroups(gs[..g + 1]), SpellFrom(tree, g + 1, 0));
      } else {
        assert gs[..g + 1] == gs;
      }
    }
  }

  /** Every well-formed value is denoted by its canonical text. */
  lemma CanonicalDenotes(kind: Kind, gs: seq<Group>)
    requires WellFormedGroups(kind, gs)
    ensures Denotes(kind, PrintGroups(gs), gs)
  {
    var d := Document("", CanonicalTree(gs));
    CanonicalTreeCorrect(kind, gs);
    if |gs| > 0 {
      assert WellFormedAlternatives(kind, gs[0]);
      CanonicalSpelling(gs, d.tree, 0, 0);
      assert PrintOpen(gs[..0], gs[0][..0]) == "";
      assert "" + SpellFrom(d.tree, 0, 0) == SpellFrom(d.tree, 0, 0);
      assert d.tree[0][0].lead == "";
    }
    assert Spell(d) == PrintGroups(gs);
  }

  /** Parsing yields a valid field, and every valid field is what its canonical text parses to. */
  lemma ParsedIsValid(kind: Kind, text: string)
    requires FieldOf(kind, text).Ok?
    ensures ValidField(FieldOf(kind, text).value) && FieldOf(kind, text).value.kind == kind
  {
    ListingSound(kind, text);
    var groups := ListingOf(kind, text).value.groups;
    var d :| WellFormedDocument(kind, d) && Spell(d) == text && TreeMeans(d.tree, groups);
    TreeMeaningWellFormed(kind, d.tree, groups);
  }

  lemma ValidIsParsed(f: Field)
    requires ValidField(f)
    ensures FieldOf(f.kind, f.canonical) == Ok(f)
  {
    CanonicalDenotes(f.kind, f.groups);
    DenotedReadable(f.kind, f.canonical, f.groups);
    ListingComplete(f.kind, f.canonical, f.groups);
    ListingSound(f.kind, f.canonical);
  }

  /** Printing and parsing undo each other, for every kind and every accepted text. */
  lemma RoundTrip(kind: Kind, text: string)
    requires FieldOf(kind, text).Ok?
    ensures FieldOf(kind, FieldOf(kind, text).value.canonical) == FieldOf(kind, text)
  {
    ParsedIsValid(kind, text);
    ValidIsParsed(FieldOf(kind, text).value);
  }
}
