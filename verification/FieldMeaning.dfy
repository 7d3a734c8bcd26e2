/** What a relationship field may say, with operators, kinds and limits written out. */
module FieldMeaning {
  import opened Text
  import opened Characters
  import opened BinaryRelationships
  import opened RelationshipGrammar

  /** Strict and inclusive relations; a single angle bracket is the old spelling of the inclusive one. */
  ghost function Spelling(operator: string): Option<Relation> {
    if operator == "<<" then Some(Less)
    else if operator == "<=" || operator == "<" then Some(LessEqual)
    else if operator == "=" then Some(Equal)
    else if operator == ">=" || operator == ">" then Some(GreaterEqual)
    else if operator == ">>" then Some(Greater)
    else None
  }

  lemma OperatorsMean(operator: string)
    ensures RelationOf(operator) == Spelling(operator)
  {
    if |operator| == 1 { assert operator == [operator[0]]; }
    if |operator| == 2 { assert operator == [operator[0], operator[1]]; }
  }

  lemma PrintedOperators()
    ensures Operator(Less) == "<<" && Operator(LessEqual) == "<=" && Operator(Equal) == "="
    ensures Operator(GreaterEqual) == ">=" && Operator(Greater) == ">>"
  {
  }

  /** Only dependencies on something to be installed offer a choice. */
  lemma AlternativesMean(kind: Kind)
    ensures AllowsAlternatives(kind) <==> kind in {Depends, PreDepends}
  {
  }

  /** The characters of architecture restrictions and build profiles, which have an error of their own. */
  lemma RestrictionsMean(c: char)
    ensures Restricted(c) <==> c in "[]<>!"
  {
  }

  /** What the scans of blanks, names, architectures, operators and versions run over. */
  lemma TokensMean(c: char)
    ensures Accepts(Blank, c) <==> c in " \t\r\n"
    ensures Accepts(NameToken, c) <==> c in LOWERCASE || c in DECIMALS || c in "+-."
    ensures Accepts(ArchitectureToken, c) <==> c in LOWERCASE || c in UPPERCASE || c in DECIMALS || c == '-'
    ensures Accepts(OperatorToken, c) <==> c in "<=>"
    ensures Accepts(VersionToken, c) <==> c !in " \t\r\n" && c != ')'
  {
    SpaceMeans(c);
    LowercaseMeans(c);
    LetterMeans(c);
    DigitMeans(c);
  }

  /** What may stand in a field at all: blanks and visible characters. */
  lemma ReadableMeans(c: char)
    ensures Readable(c) <==> c in " \t\r\n" || 32 <= c as int <= 126
  {
    SpaceMeans(c);
  }

  /** A field is accepted, with these groups, exactly when the grammar gives it that meaning within these numbers. */
  lemma FieldMeans(kind: Kind, text: string, groups: seq<Group>)
    ensures FieldOf(kind, text).Ok? && FieldOf(kind, text).value.groups == groups <==>
            && Denotes(kind, text, groups) && |groups| <= 4096 && CountAtoms(groups) <= 16384
            && |text| <= 1048576 && |PrintGroups(groups)| <= 1048576
  {
    hide FieldOf, Denotes, PrintGroups, CountAtoms;
    FieldExact(kind, text, groups);
  }

  /** One term with blanks wherever they may stand. */
  ghost function TermText(name: string, architecture: Option<string>, operator: string, version: string): string {
    name + ((if architecture.None? then "" else ":" + architecture.value)
            + (" " + ("(" + ("" + (operator + " ")) + (version + ("" + (")" + ""))))))
  }

  /** A name, perhaps an architecture, and a version relation denote just that. */
  lemma TermMeans(kind: Kind, name: string, architecture: Option<string>, operator: string, version: string)
    requires Name(name) && Version(version) && Spelling(operator).Some? && (kind == Provides ==> operator == "=")
    requires architecture.Some? ==> architecture.value in {"any", "native"} || ConcreteArchitecture(architecture.value)
    ensures Denotes(kind, TermText(name, architecture, operator, version),
                    [[Atom(name, if architecture.Some? then architecture.value else "", version,
                           if architecture.None? then Implicit
                           else if architecture.value == "any" then Any
                           else if architecture.value == "native" then Native
                           else Exact, Spelling(operator).value)]])
  {
    hide Name, Version, ConcreteArchitecture;
    OperatorsMean(operator);
    var clause := Clause("", operator, " ", version, "", "");
    var term := Term("", name, architecture, " ", Some(clause));
    var d := Document("", [[term]]);
    QualifierMeans(architecture);
    TermSpelled(term, clause);
    assert SpellRest(d.tree, 0, 0) == "";
    assert Spell(d) == "" + (SpellTerm(term) + "");
    assert WellFormedGroup(kind, d.tree[0]);
    assert GroupMeans(d.tree[0], [Meaning(term)]);
    assert TreeMeans(d.tree, [[Meaning(term)]]);
  }

  lemma QualifierMeans(architecture: Option<string>)
    ensures architecture.Some? ==> (IsAny(architecture.value) <==> architecture.value == "any")
    ensures architecture.Some? ==> (IsNative(architecture.value) <==> architecture.value == "native")
  {
  }

  lemma TermSpelled(t: Term, c: Clause)
    requires t.clause == Some(c) && c.gap0 == "" && c.gap1 == " " && c.gap2 == "" && c.gap3 == "" && t.gap == " "
    ensures SpellTerm(t) == TermText(t.name, t.architecture, c.operator, c.version)
  {
  }
}
