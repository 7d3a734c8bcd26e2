/**
 * Dropping every version from a field and printing what is left gives text that parses to the
 * same groups, so indices into one field are indices into the other.
 */
module Versionless {
  import opened Text
  import opened BinaryRelationships
  import opened RelationshipGrammar
  import opened RelationshipCanonical

  function StripAtom(a: Atom): Atom {
    a.(version := "", relation := NoRelation)
  }

  function StripGroup(g: Group): (r: Group)
    ensures |r| == |g|
    ensures forall a :: 0 <= a < |g| ==> r[a] == StripAtom(g[a])
  {
    seq(|g|, a requires 0 <= a < |g| => StripAtom(g[a]))
  }

  function Strip(gs: seq<Group>): (r: seq<Group>)
    ensures |r| == |gs|
    ensures forall g :: 0 <= g < |gs| ==> r[g] == StripGroup(gs[g])
  {
    seq(|gs|, g requires 0 <= g < |gs| => StripGroup(gs[g]))
  }

  function Shape(f: Field): Field {
    Field(f.kind, Strip(f.groups), PrintGroups(Strip(f.groups)), f.atomCount)
  }

  lemma StripGroupPrefix(g: Group, n: nat)
    requires n <= |g|
    ensures StripGroup(g[..n]) == StripGroup(g)[..n]
  {
  }

  lemma StripPrefix(gs: seq<Group>, n: nat)
    requires n <= |gs|
    ensures Strip(gs[..n]) == Strip(gs)[..n]
  {
  }

  lemma {:induction false} StripGroupShorter(g: Group)
    ensures |PrintGroup(StripGroup(g))| <= |PrintGroup(g)|
  {
    if |g| > 1 {
      StripGroupShorter(g[..|g| - 1]);
      StripGroupPrefix(g, |g| - 1);
    }
  }

  lemma {:induction false} StripShorter(gs: seq<Group>)
    ensures |PrintGroups(Strip(gs))| <= |PrintGroups(gs)|
    ensures CountAtoms(Strip(gs)) == CountAtoms(gs)
  {
    hide PrintGroup;
    if |gs| > 0 {
      StripShorter(gs[..|gs| - 1]);
      StripPrefix(gs, |gs| - 1);
      StripGroupShorter(gs[|gs| - 1]);
    }
    if |gs| > 1 {
      StripGroupShorter(gs[|gs| - 1]);
    }
  }

  lemma StripWellFormed(kind: Kind, gs: seq<Group>)
    requires WellFormedGroups(kind, gs)
    ensures WellFormedGroups(kind, Strip(gs))
  {
    hide Name, IsAny, IsNative, ConcreteArchitecture, Version;
    forall g | 0 <= g < |gs|
      ensures WellFormedAlternatives(kind, Strip(gs)[g])
    {
      assert WellFormedAlternatives(kind, gs[g]);
      forall a | 0 <= a < |gs[g]|
        ensures WellFormedAtom(kind, StripAtom(gs[g][a]))
      {
        assert WellFormedAtom(kind, gs[g][a]);
      }
    }
  }

  lemma ShapeValid(f: Field)
    requires ValidField(f)
    ensures ValidField(Shape(f))
  {
    hide PrintGroups, WellFormedGroups, CountAtoms;
    StripWellFormed(f.kind, f.groups);
    StripShorter(f.groups);
  }

  /** The versionless text of a field parses back to its groups without their versions. */
  lemma Reparses(f: Field)
    requires ValidField(f)
    ensures FieldOf(f.kind, PrintGroups(Strip(f.groups))) == Ok(Shape(f))
  {
    hide FieldOf, ValidField, PrintGroups;
    ShapeValid(f);
    ValidIsParsed(Shape(f));
  }

  lemma PrintedNonempty(kind: Kind, gs: seq<Group>)
    requires WellFormedGroups(kind, gs)
    ensures |PrintGroups(gs)| > 0 <==> |gs| > 0
  {
    hide PrintAtom;
    if |gs| == 1 {
      assert WellFormedAlternatives(kind, gs[0]) && WellFormedAtom(kind, gs[0][0]);
      AtomNonempty(kind, gs[0][0]);
    }
  }

  lemma AtomNonempty(kind: Kind, a: Atom)
    requires WellFormedAtom(kind, a)
    ensures |PrintAtom(a)| > 0
  {
  }

  lemma StripNext(gs: seq<Group>, g: nat)
    requires g < |gs|
    ensures PrintGroups(Strip(gs[..g + 1])) ==
            (if g == 0 then "" else PrintGroups(Strip(gs[..g])) + ", ") + PrintGroup(StripGroup(gs[g]))
  {
    hide PrintGroup;
    StripPrefix(gs[..g + 1], g);
    assert gs[..g + 1][..g] == gs[..g];
    assert "" + PrintGroup(StripGroup(gs[g])) == PrintGroup(StripGroup(gs[g]));
  }

  lemma StripGroupNext(g: Group, a: nat)
    requires a < |g|
    ensures PrintGroup(StripGroup(g[..a + 1])) ==
            (if a == 0 then "" else PrintGroup(StripGroup(g[..a])) + " | ") + PrintAtom(StripAtom(g[a]))
  {
    hide PrintAtom;
    StripGroupPrefix(g[..a + 1], a);
    assert g[..a + 1][..a] == g[..a];
    assert "" + PrintAtom(StripAtom(g[a])) == PrintAtom(StripAtom(g[a]));
  }

  lemma StripAtomText(a: Atom)
    ensures PrintAtom(StripAtom(a)) == a.package + (if a.qualifier == Implicit then "" else ":" + a.architecture)
  {
    var text := a.package + (if a.qualifier == Implicit then "" else ":" + a.architecture);
    assert text + "" == text;
  }

  lemma PrintEmpty(g: Group, gs: seq<Group>)
    ensures PrintGroup(StripGroup(g[..0])) == "" && PrintGroups(Strip(gs[..0])) == ""
  {
  }

  method AppendGroup(group: Group, before: string) returns (text: string)
    ensures text == before + PrintGroup(StripGroup(group))
  {
    hide PrintGroup, PrintAtom;
    text := before;
    var first := true;
    PrintEmpty(group, []);
    for a := 0 to |group|
      invariant first <==> a == 0
      invariant text == before + PrintGroup(StripGroup(group[..a]))
    {
      if !first { text := text + " | "; }
      first := false;
      text := text + group[a].package;
      if group[a].qualifier != Implicit { text := text + (":" + group[a].architecture); }
      StripGroupNext(group, a);
      StripAtomText(group[a]);
    }
    assert group[..|group|] == group;
  }

  /** One pass that appends names and qualifiers only. */
  method VersionlessText(f: Field) returns (text: string)
    requires ValidField(f)
    ensures text == Shape(f).canonical
  {
    hide PrintGroup, PrintGroups, WellFormedAlternatives;
    text := "";
    PrintEmpty([], f.groups);
    for g := 0 to |f.groups|
      invariant text == PrintGroups(Strip(f.groups[..g]))
    {
      StripWellFormed(f.kind, f.groups[..g]);
      PrintedNonempty(f.kind, Strip(f.groups[..g]));
      if |text| > 0 { text := text + ", "; }
      StripNext(f.groups, g);
      text := AppendGroup(f.groups[g], text);
    }
    assert f.groups[..|f.groups|] == f.groups;
  }
}
