/**
 * The content preimage of an effect policy: its bytes determine, and are determined by, the
 * scalars, the options, the configuration and components as maps, and the required environment.
 */
module EffectInputs {
  import opened Text
  import opened ByteOrder
  import opened Reviews
  import opened Netstrings
  import opened EffectSettings
  import opened EffectRecords

  const MAXIMUM_INPUTS: nat := 4096
  const BUDGET_ITEMS: nat := 16384
  const INPUTS_TAG := "CYDIA-NATIVE-EFFECT-INPUTS-1"

  datatype InputRole = Configuration | Declaration | PolicyOutput
  datatype ContentKind = File | Directory
  datatype Content = Content(role: InputRole, kind: ContentKind, path: string, present: bool, size: nat, sha256: string,
                             members: seq<string>)
  datatype Component = Component(path: string, sha256: string)
  datatype Variable = Variable(name: string, value: string)
  datatype Inputs = Inputs(semanticProfile: string, executorPath: string, executorSHA256: string, platformIdentity: string,
                           dpkgRoot: string, dpkgAdmin: string, executableSearchPath: string,
                           configuration: seq<Content>, components: seq<Component>,
                           environment: Option<seq<Variable>>, role: nat, optionPrefix: seq<string>)

  /** Always part of the preimage, present or not. */
  const FIXED: seq<string> := [
    "DEBIAN_FRONTEND", "DPKG_ADMINDIR", "DPKG_COLORS", "DPKG_DEBUG", "DPKG_FORCE", "DPKG_FRONTEND_LOCKED",
    "DPKG_NLS", "DPKG_PAGER", "DPKG_PATH_GROUP", "DPKG_PATH_PASSWD", "DPKG_ROOT", "DPKG_RUNNING_VERSION",
    "HOME", "LANG", "LANGUAGE", "LC_ALL", "LC_COLLATE", "LC_CTYPE", "LC_MESSAGES", "LC_NUMERIC", "LC_TIME",
    "LC_MONETARY", "LC_PAPER", "LC_NAME", "LC_ADDRESS", "LC_TELEPHONE", "LC_MEASUREMENT", "LC_IDENTIFICATION",
    "PAGER", "PATH", "SHELL", "TERM", "TMPDIR"]

  // ---------------------------------------------------------------------------------------------
  // Shape

  /** Colon-separated absolute paths, none of them missing. */
  predicate SearchParts(s: string)
    decreases |s|
  {
    && |s| > 0
    && var end := Find(s, ':');
    && AbsolutePath(s[..end]) && (end < |s| ==> SearchParts(s[end + 1..]))
  }

  predicate MemberValid(m: string) {
    TextValid(m, false) && m != "." && m != ".." && '/' !in m
  }

  predicate ContentValid(n: Content) {
    && AbsolutePath(n.path) && TextValid(n.path, false) && TextValid(n.sha256, true) && |n.members| <= MAXIMUM_INPUTS
    && (if !n.present then n.size == 0 && |n.sha256| == 0 && |n.members| == 0
        else if n.kind == File then Digest(n.sha256) && |n.members| == 0
        else n.size == 0 && |n.sha256| == 0)
    && forall k :: 0 <= k < |n.members| ==> MemberValid(n.members[k])
  }

  predicate ComponentValid(c: Component) {
    AbsolutePath(c.path) && Digest(c.sha256) && TextValid(c.path, false)
  }

  predicate InputShaped(input: Inputs) {
    && AbsolutePath(input.executorPath) && Digest(input.executorSHA256) && Digest(input.platformIdentity)
    && AbsolutePath(input.dpkgRoot) && AbsolutePath(input.dpkgAdmin)
    && TextValid(input.executableSearchPath, false) && SearchParts(input.executableSearchPath)
    && input.environment.Some? && input.role <= 4 && 0 < |input.components| <= MAXIMUM_INPUTS
    && |input.configuration| <= MAXIMUM_INPUTS && TextsValid(input.optionPrefix, true)
    && TextsValid(Entries(input.environment.value), false)
    && |input.optionPrefix| >= 2 && input.optionPrefix[0] == "--root=" + input.dpkgRoot
    && input.optionPrefix[1] == "--admindir=" + input.dpkgAdmin
    && (forall k :: 0 <= k < |input.configuration| ==> ContentValid(input.configuration[k]))
    && (forall k :: 0 <= k < |input.components| ==> ComponentValid(input.components[k]))
  }

  // ---------------------------------------------------------------------------------------------
  // What reading an input costs

  function TextCost(xs: seq<string>): nat {
    if |xs| == 0 then 0 else TextCost(xs[..|xs| - 1]) + |xs[|xs| - 1]| + 16
  }

  function NodesCost(ns: seq<Content>): nat {
    if |ns| == 0 then 0
    else
      var n := ns[|ns| - 1];
      NodesCost(ns[..|ns| - 1]) + |n.path| + 16 + |n.sha256| + 16 + TextCost(n.members)
  }

  function NodesItems(ns: seq<Content>): nat {
    if |ns| == 0 then 0 else NodesItems(ns[..|ns| - 1]) + |ns[|ns| - 1].members|
  }

  function ComponentsCost(cs: seq<Component>): nat {
    if |cs| == 0 then 0
    else ComponentsCost(cs[..|cs| - 1]) + |cs[|cs| - 1].path| + 16 + |cs[|cs| - 1].sha256| + 16
  }

  function ScalarTexts(input: Inputs): seq<string> {
    [input.semanticProfile, input.executorPath, input.executorSHA256, input.platformIdentity, input.dpkgRoot,
     input.dpkgAdmin, input.executableSearchPath]
  }

  predicate Affordable(input: Inputs) {
    && TextCost(ScalarTexts(input)) + TextCost(input.optionPrefix) + TextCost(Entries(Variables(input)))
       + NodesCost(input.configuration) + ComponentsCost(input.components) <= MAXIMUM_BYTES
    && |input.optionPrefix| + |Variables(input)| + |input.configuration| + |input.components|
       + NodesItems(input.configuration) <= BUDGET_ITEMS
  }

  // ---------------------------------------------------------------------------------------------
  // Keys and rows

  function NodePaths(ns: seq<Content>): seq<string> {
    if |ns| == 0 then [] else NodePaths(ns[..|ns| - 1]) + [ns[|ns| - 1].path]
  }

  /** The nodes whose content is part of the configuration. */
  function Configured(ns: seq<Content>): seq<Content> {
    if |ns| == 0 then []
    else Configured(ns[..|ns| - 1]) + (if ns[|ns| - 1].role == Configuration then [ns[|ns| - 1]] else [])
  }

  function NodeAt(ns: seq<Content>, path: string): Option<Content> {
    if |ns| == 0 then None
    else if ns[|ns| - 1].path == path then Some(ns[|ns| - 1])
    else NodeAt(ns[..|ns| - 1], path)
  }

  function ComponentPaths(cs: seq<Component>): seq<string> {
    if |cs| == 0 then [] else ComponentPaths(cs[..|cs| - 1]) + [cs[|cs| - 1].path]
  }

  function ComponentAt(cs: seq<Component>, path: string): Option<string> {
    if |cs| == 0 then None
    else if cs[|cs| - 1].path == path then Some(cs[|cs| - 1].sha256)
    else ComponentAt(cs[..|cs| - 1], path)
  }

  /** The first entry for a name wins. */
  function ValueAt(vs: seq<Variable>, name: string): Option<string> {
    if |vs| == 0 then None
    else
      var before, last := ValueAt(vs[..|vs| - 1], name), vs[|vs| - 1];
      if before.None? && last.name == name then Some(last.value) else before
  }

  function Entries(vs: seq<Variable>): seq<string> {
    seq(|vs|, k requires 0 <= k < |vs| => vs[k].name + "=" + vs[k].value)
  }

  predicate Policed(name: string) {
    "LC_" <= name || "DPKG_" <= name
  }

  /** The fixed names, and every locale or dpkg variable that is set. */
  function RequiredNames(vs: seq<Variable>): seq<string> {
    if |vs| == 0 then Unique(FIXED)
    else
      var before, name := RequiredNames(vs[..|vs| - 1]), vs[|vs| - 1].name;
      if Policed(name) && name !in before then before + [name] else before
  }

  function Unique(xs: seq<string>): seq<string> {
    if |xs| == 0 then []
    else
      var before, x := Unique(xs[..|xs| - 1]), xs[|xs| - 1];
      if x in before then before else before + [x]
  }

  function NodeFields(n: Content): seq<string> {
    [n.path, if n.kind == File then "file" else "directory", Flag(n.present), Printed(n.size), n.sha256, NetAll(Sort(n.members))]
  }

  function NodeRow(ns: seq<Content>, path: string): string {
    var n := NodeAt(ns, path);
    if n.Some? then NetAll(NodeFields(n.value)) else ""
  }

  function NodeRows(ns: seq<Content>, paths: seq<string>): seq<string> {
    seq(|paths|, k requires 0 <= k < |paths| => NodeRow(ns, paths[k]))
  }

  function ComponentRow(cs: seq<Component>, path: string): seq<string> {
    var sha := ComponentAt(cs, path);
    [path, if sha.Some? then sha.value else ""]
  }

  function ComponentRows(cs: seq<Component>, paths: seq<string>): seq<seq<string>> {
    seq(|paths|, k requires 0 <= k < |paths| => ComponentRow(cs, paths[k]))
  }

  function VariableRow(vs: seq<Variable>, name: string): seq<string> {
    var value := ValueAt(vs, name);
    [name, Flag(value.Some?), if value.Some? then value.value else ""]
  }

  function VariableRows(vs: seq<Variable>, names: seq<string>): seq<seq<string>> {
    seq(|names|, k requires 0 <= k < |names| => VariableRow(vs, names[k]))
  }

  function Flat(rows: seq<seq<string>>): seq<string> {
    if |rows| == 0 then [] else Flat(rows[..|rows| - 1]) + rows[|rows| - 1]
  }

  lemma {:induction false} FlatInjective(xs: seq<seq<string>>, ys: seq<seq<string>>, width: nat)
    requires width > 0 && Flat(xs) == Flat(ys)
    requires (forall k :: 0 <= k < |xs| ==> |xs[k]| == width) && forall k :: 0 <= k < |ys| ==> |ys[k]| == width
    ensures xs == ys
  {
    if |xs| > 0 && |ys| > 0 {
      var m, n := |xs| - 1, |ys| - 1;
      var a, b := Flat(xs[..m]), Flat(ys[..n]);
      assert |a| == |b|;
      assert a == (a + xs[m])[..|a|] && b == (b + ys[n])[..|b|];
      assert xs[m] == (a + xs[m])[|a|..] && ys[n] == (b + ys[n])[|b|..];
      FlatInjective(xs[..m], ys[..n], width);
      assert xs == xs[..m] + [xs[m]] && ys == ys[..n] + [ys[n]];
    } else if |xs| > 0 {
      FlatHolds(xs);
    } else if |ys| > 0 {
      FlatHolds(ys);
    }
  }

  lemma FlatHolds(xs: seq<seq<string>>)
    requires |xs| > 0
    ensures |Flat(xs)| >= |xs[|xs| - 1]|
  {
  }

  // ---------------------------------------------------------------------------------------------
  // The preimage

  function Variables(input: Inputs): seq<Variable> {
    if input.environment.Some? then input.environment.value else []
  }

  function InputFields(input: Inputs): seq<string> {
    var nodes, cs, vs := Configured(input.configuration), input.components, Variables(input);
    [INPUTS_TAG, input.semanticProfile, input.executorPath, input.executorSHA256, input.platformIdentity,
     input.dpkgRoot, input.dpkgAdmin, input.executableSearchPath, Printed(input.role),
     NetAll(NodeRows(nodes, Sort(NodePaths(nodes)))), NetAll(Flat(ComponentRows(cs, Sort(ComponentPaths(cs))))),
     NetAll(Flat(VariableRows(vs, Sort(RequiredNames(vs))))), NetAll(input.optionPrefix)]
  }

  /** A node outside the configuration may not also be a component. */
  predicate RolesApart(input: Inputs) {
    forall k :: 0 <= k < |input.configuration| && input.configuration[k].role != Configuration ==>
      input.configuration[k].path !in ComponentPaths(input.components)
  }

  predicate MembersDistinct(ns: seq<Content>) {
    forall k :: 0 <= k < |ns| ==> Distinct(ns[k].members)
  }

  predicate InputAccepted(input: Inputs) {
    && InputShaped(input) && Affordable(input)
    && Distinct(NodePaths(input.configuration)) && Distinct(ComponentPaths(input.components)) && RolesApart(input)
    && ComponentAt(input.components, input.executorPath) == Some(input.executorSHA256)
    && MembersDistinct(Configured(input.configuration))
  }

  datatype Preimage = Bytes(bytes: string) | UnsupportedProfile | Refused

  function PreimageOf(input: Inputs): Preimage {
    if !Supported(input.semanticProfile) then UnsupportedProfile
    else if InputAccepted(input) && |NetAll(InputFields(input))| <= MAXIMUM_BYTES then Bytes(NetAll(InputFields(input)))
    else Refused
  }

  // ---------------------------------------------------------------------------------------------
  // Looking up by key

  lemma {:induction false} NodePathsHave(ns: seq<Content>, p: string)
    ensures p in NodePaths(ns) <==> exists k :: 0 <= k < |ns| && ns[k].path == p
    ensures p in NodePaths(ns) <==> NodeAt(ns, p).Some?
    ensures NodeAt(ns, p).Some? ==> NodeAt(ns, p).value in ns && NodeAt(ns, p).value.path == p
  {
    if |ns| > 0 {
      var front := ns[..|ns| - 1];
      NodePathsHave(front, p);
      assert ns == front + [ns[|ns| - 1]];
      if p in NodePaths(front) {
        var k :| 0 <= k < |front| && front[k].path == p;
        assert ns[k].path == p;
      }
      if k :| 0 <= k < |ns| && ns[k].path == p {
        assert k < |front| ==> front[k].path == p;
      }
    }
  }

  lemma {:induction false} NodeAtOnly(ns: seq<Content>, n: Content)
    requires Distinct(NodePaths(ns)) && n in ns
    ensures NodeAt(ns, n.path) == Some(n)
  {
    hide Distinct;
    var front, last := ns[..|ns| - 1], ns[|ns| - 1];
    assert ns == front + [last];
    DistinctGrows(NodePaths(front), last.path);
    if n in front {
      NodePathsHave(front, n.path);
      NodeAtOnly(front, n);
    }
  }

  lemma {:induction false} ConfiguredHolds(ns: seq<Content>, n: Content)
    ensures n in Configured(ns) <==> n in ns && n.role == Configuration
  {
    if |ns| > 0 {
      ConfiguredHolds(ns[..|ns| - 1], n);
      assert ns == ns[..|ns| - 1] + [ns[|ns| - 1]];
    }
  }

  lemma NodePathsGrow(ns: seq<Content>, n: Content)
    ensures NodePaths(ns + [n]) == NodePaths(ns) + [n.path]
  {
    assert (ns + [n])[..|ns + [n]| - 1] == ns;
  }

  /** A further key keeps keys distinct exactly when it is new. */
  lemma DistinctGrows(xs: seq<string>, x: string)
    ensures Distinct(xs + [x]) <==> Distinct(xs) && x !in xs
  {
    var ys := xs + [x];
    assert forall j :: 0 <= j < |xs| ==> xs[j] == ys[j];
    if x in xs {
      var j :| 0 <= j < |xs| && xs[j] == x;
      assert ys[j] == ys[|xs|];
    }
  }

  lemma {:induction false} ConfiguredDistinct(ns: seq<Content>)
    requires Distinct(NodePaths(ns))
    ensures Distinct(NodePaths(Configured(ns)))
    ensures forall p :: p in NodePaths(Configured(ns)) ==> p in NodePaths(ns)
  {
    hide Distinct;
    if |ns| > 0 {
      var front, last := ns[..|ns| - 1], ns[|ns| - 1];
      DistinctGrows(NodePaths(front), last.path);
      ConfiguredDistinct(front);
      NodePathsGrow(Configured(front), last);
      DistinctGrows(NodePaths(Configured(front)), last.path);
      assert Configured(ns) == if last.role == Configuration then Configured(front) + [last] else Configured(front);
    }
  }

  // ---------------------------------------------------------------------------------------------
  // Configuration

  /** A node without the order of its members. */
  datatype NodeView = NodeView(path: string, kind: ContentKind, present: bool, size: nat, sha256: string, members: set<string>)

  function ViewOf(n: Content): NodeView {
    NodeView(n.path, n.kind, n.present, n.size, n.sha256, set m | m in n.members)
  }

  function Views(ns: seq<Content>): set<NodeView> {
    set n | n in ns :: ViewOf(n)
  }

  lemma FieldsMeanView(n: Content, m: Content)
    requires Distinct(n.members) && Distinct(m.members)
    ensures NodeFields(n) == NodeFields(m) <==> ViewOf(n) == ViewOf(m)
  {
    hide NetAll, Sort, Printed, Flag, Distinct;
    FlagInjective(n.present, m.present);
    PrintedInjective(n.size, m.size);
    if NodeFields(n) == NodeFields(m) {
      FieldParts(n);
      FieldParts(m);
      NetAllInjective(Sort(n.members), Sort(m.members));
      SortHolds(n.members);
      SortHolds(m.members);
      assert (set x | x in n.members) == (set x | x in m.members);
    }
    if ViewOf(n) == ViewOf(m) {
      assert forall x :: x in n.members <==> x in ViewOf(n).members;
      assert forall x :: x in m.members <==> x in ViewOf(m).members;
      SameSetSorts(n.members, m.members);
    }
  }

  lemma FieldParts(n: Content)
    ensures var f := NodeFields(n);
            && |f| == 6 && f[0] == n.path && (f[1] == "file" <==> n.kind == File) && f[2] == Flag(n.present)
            && f[3] == Printed(n.size) && f[4] == n.sha256 && f[5] == NetAll(Sort(n.members))
  {
    hide NetAll, Sort, Printed, Flag;
    assert |"file"| != |"directory"|;
  }

  lemma RowOf(ns: seq<Content>, n: Content)
    requires Distinct(NodePaths(ns)) && n in ns
    ensures n.path in NodePaths(ns) && NodeRow(ns, n.path) == NetAll(NodeFields(n))
  {
    hide NetAll, NodeFields;
    NodeAtOnly(ns, n);
    NodePathsHave(ns, n.path);
  }

  /** Equal rows come from the same views. */
  lemma RowsGiveViews(ns: seq<Content>, ms: seq<Content>, n: Content)
    requires Distinct(NodePaths(ns)) && Distinct(NodePaths(ms)) && MembersDistinct(ns) && MembersDistinct(ms)
    requires NodeRows(ns, Sort(NodePaths(ns))) == NodeRows(ms, Sort(NodePaths(ms))) && n in ns
    ensures ViewOf(n) in Views(ms)
  {
    hide NetAll, NodeFields, ViewOf, Distinct, NodePaths, NodeAt, Sort;
    var ps, qs := Sort(NodePaths(ns)), Sort(NodePaths(ms));
    assert |NodeRows(ns, ps)| == |ps| && |NodeRows(ms, qs)| == |qs|;
    RowOf(ns, n);
    SortHolds(NodePaths(ns));
    SortHolds(NodePaths(ms));
    var i :| 0 <= i < |ps| && ps[i] == n.path;
    assert NodeRows(ns, ps)[i] == NodeRows(ms, qs)[i];
    NodePathsHave(ms, qs[i]);
    var m := NodeAt(ms, qs[i]).value;
    RowOf(ms, m);
    NetAllInjective(NodeFields(n), NodeFields(m));
    MembersOf(ns, n);
    MembersOf(ms, m);
    FieldsMeanView(n, m);
  }

  lemma MembersOf(ns: seq<Content>, n: Content)
    requires MembersDistinct(ns) && n in ns
    ensures Distinct(n.members)
  {
  }

  lemma ViewsGivePaths(ns: seq<Content>, ms: seq<Content>)
    requires Views(ns) == Views(ms)
    ensures forall p :: p in NodePaths(ns) ==> p in NodePaths(ms)
  {
    forall p | p in NodePaths(ns)
      ensures p in NodePaths(ms)
    {
      NodePathsHave(ns, p);
      var n := NodeAt(ns, p).value;
      assert ViewOf(n) in Views(ms);
      var m :| m in ms && ViewOf(m) == ViewOf(n);
      NodePathsHave(ms, p);
    }
  }

  lemma ViewsGiveRow(ns: seq<Content>, ms: seq<Content>, p: string)
    requires Distinct(NodePaths(ns)) && Distinct(NodePaths(ms)) && MembersDistinct(ns) && MembersDistinct(ms)
    requires Views(ns) == Views(ms) && p in NodePaths(ns)
    ensures NodeRow(ns, p) == NodeRow(ms, p)
  {
    hide NetAll, NodeFields, Distinct, NodePaths, NodeAt, MembersDistinct;
    NodePathsHave(ns, p);
    var n := NodeAt(ns, p).value;
    assert ViewOf(n) in Views(ms);
    var m :| m in ms && ViewOf(m) == ViewOf(n);
    RowOf(ns, n);
    RowOf(ms, m);
    MembersOf(ns, n);
    MembersOf(ms, m);
    FieldsMeanView(n, m);
  }

  lemma ConfigurationFaithful(ns: seq<Content>, ms: seq<Content>)
    requires Distinct(NodePaths(ns)) && Distinct(NodePaths(ms)) && MembersDistinct(ns) && MembersDistinct(ms)
    ensures NodeRows(ns, Sort(NodePaths(ns))) == NodeRows(ms, Sort(NodePaths(ms))) <==> Views(ns) == Views(ms)
  {
    hide Distinct, NodePaths, NodeRow, MembersDistinct, ViewOf, Sort;
    if NodeRows(ns, Sort(NodePaths(ns))) == NodeRows(ms, Sort(NodePaths(ms))) {
      forall n | n in ns
        ensures ViewOf(n) in Views(ms)
      {
        RowsGiveViews(ns, ms, n);
      }
      forall m | m in ms
        ensures ViewOf(m) in Views(ns)
      {
        RowsGiveViews(ms, ns, m);
      }
    }
    if Views(ns) == Views(ms) {
      ViewsGivePaths(ns, ms);
      ViewsGivePaths(ms, ns);
      SameSetSorts(NodePaths(ns), NodePaths(ms));
      SortHolds(NodePaths(ns));
      forall k | 0 <= k < |Sort(NodePaths(ns))|
        ensures NodeRow(ns, Sort(NodePaths(ns))[k]) == NodeRow(ms, Sort(NodePaths(ns))[k])
      {
        ViewsGiveRow(ns, ms, Sort(NodePaths(ns))[k]);
      }
    }
  }

  // ---------------------------------------------------------------------------------------------
  // Components

  lemma {:induction false} ComponentPathsHave(cs: seq<Component>, p: string)
    ensures p in ComponentPaths(cs) <==> ComponentAt(cs, p).Some?
    ensures ComponentAt(cs, p).Some? ==> Component(p, ComponentAt(cs, p).value) in cs
    ensures forall sha :: Component(p, sha) in cs ==> p in ComponentPaths(cs)
  {
    if |cs| > 0 {
      ComponentPathsHave(cs[..|cs| - 1], p);
      assert cs == cs[..|cs| - 1] + [cs[|cs| - 1]];
    }
  }

  lemma {:induction false} ComponentAtOnly(cs: seq<Component>, c: Component)
    requires Distinct(ComponentPaths(cs)) && c in cs
    ensures ComponentAt(cs, c.path) == Some(c.sha256)
  {
    hide Distinct;
    var front, last := cs[..|cs| - 1], cs[|cs| - 1];
    assert cs == front + [last];
    DistinctGrows(ComponentPaths(front), last.path);
    if c in front {
      ComponentPathsHave(front, c.path);
      assert Component(c.path, c.sha256) in front;
      ComponentAtOnly(front, c);
    }
  }

  lemma RowsGiveComponent(cs: seq<Component>, ds: seq<Component>, c: Component)
    requires Distinct(ComponentPaths(cs)) && Distinct(ComponentPaths(ds)) && c in cs
    requires ComponentRows(cs, Sort(ComponentPaths(cs))) == ComponentRows(ds, Sort(ComponentPaths(ds)))
    ensures c in ds
  {
    hide Distinct, ComponentPaths, ComponentAt, Sort;
    var ps, qs := Sort(ComponentPaths(cs)), Sort(ComponentPaths(ds));
    assert |ComponentRows(cs, ps)| == |ps| && |ComponentRows(ds, qs)| == |qs|;
    ComponentAtOnly(cs, c);
    ComponentPathsHave(cs, c.path);
    SortHolds(ComponentPaths(cs));
    SortHolds(ComponentPaths(ds));
    var i :| 0 <= i < |ps| && ps[i] == c.path;
    assert ComponentRows(cs, ps)[i] == ComponentRow(cs, ps[i]) && ComponentRows(ds, qs)[i] == ComponentRow(ds, qs[i]);
    assert ComponentRow(cs, ps[i])[0] == ComponentRow(ds, qs[i])[0] && ComponentRow(cs, ps[i])[1] == ComponentRow(ds, qs[i])[1];
    ComponentPathsHave(ds, qs[i]);
  }

  lemma ComponentsFaithful(cs: seq<Component>, ds: seq<Component>)
    requires Distinct(ComponentPaths(cs)) && Distinct(ComponentPaths(ds))
    ensures ComponentRows(cs, Sort(ComponentPaths(cs))) == ComponentRows(ds, Sort(ComponentPaths(ds))) <==>
            forall c :: c in cs <==> c in ds
  {
    hide Distinct, ComponentPaths, ComponentAt, Sort;
    if ComponentRows(cs, Sort(ComponentPaths(cs))) == ComponentRows(ds, Sort(ComponentPaths(ds))) {
      forall c
        ensures c in cs <==> c in ds
      {
        if c in cs { RowsGiveComponent(cs, ds, c); }
        if c in ds { RowsGiveComponent(ds, cs, c); }
      }
    }
    if forall c :: c in cs <==> c in ds {
      forall p
        ensures p in ComponentPaths(cs) <==> p in ComponentPaths(ds)
        ensures ComponentAt(cs, p) == ComponentAt(ds, p)
      {
        ComponentPathsHave(cs, p);
        ComponentPathsHave(ds, p);
        if p in ComponentPaths(cs) { ComponentAtOnly(ds, Component(p, ComponentAt(cs, p).value)); }
        if p in ComponentPaths(ds) { ComponentAtOnly(cs, Component(p, ComponentAt(ds, p).value)); }
      }
      SameSetSorts(ComponentPaths(cs), ComponentPaths(ds));
    }
  }

  // ---------------------------------------------------------------------------------------------
  // Environment

  lemma {:induction false} UniqueExact(xs: seq<string>)
    ensures Distinct(Unique(xs)) && forall x :: x in Unique(xs) <==> x in xs
  {
    if |xs| > 0 {
      UniqueExact(xs[..|xs| - 1]);
      assert xs == xs[..|xs| - 1] + [xs[|xs| - 1]];
    }
  }

  lemma {:induction false} RequiredExact(vs: seq<Variable>)
    ensures Distinct(RequiredNames(vs))
    ensures forall n :: n in RequiredNames(vs) <==> n in FIXED || (Policed(n) && ValueAt(vs, n).Some?)
  {
    hide Policed;
    if |vs| == 0 {
      UniqueExact(FIXED);
    } else {
      RequiredExact(vs[..|vs| - 1]);
    }
  }

  /** The required names, each with its value or its absence. */
  function Required(vs: seq<Variable>): set<(string, Option<string>)> {
    set n | n in RequiredNames(vs) :: (n, ValueAt(vs, n))
  }

  lemma RowsGiveVariable(vs: seq<Variable>, ws: seq<Variable>, n: string)
    requires VariableRows(vs, Sort(RequiredNames(vs))) == VariableRows(ws, Sort(RequiredNames(ws))) && n in RequiredNames(vs)
    ensures n in RequiredNames(ws) && ValueAt(vs, n) == ValueAt(ws, n)
  {
    hide RequiredNames, ValueAt, Sort, Flag;
    var ps, qs := Sort(RequiredNames(vs)), Sort(RequiredNames(ws));
    assert |VariableRows(vs, ps)| == |ps| && |VariableRows(ws, qs)| == |qs|;
    SortHolds(RequiredNames(vs));
    SortHolds(RequiredNames(ws));
    var i :| 0 <= i < |ps| && ps[i] == n;
    assert VariableRows(vs, ps)[i] == VariableRow(vs, ps[i]) && VariableRows(ws, qs)[i] == VariableRow(ws, qs[i]);
    var x, y := VariableRow(vs, ps[i]), VariableRow(ws, qs[i]);
    assert x[0] == y[0] && x[1] == y[1] && x[2] == y[2];
    FlagInjective(ValueAt(vs, n).Some?, ValueAt(ws, n).Some?);
  }

  lemma EnvironmentFaithful(vs: seq<Variable>, ws: seq<Variable>)
    ensures VariableRows(vs, Sort(RequiredNames(vs))) == VariableRows(ws, Sort(RequiredNames(ws))) <==> Required(vs) == Required(ws)
  {
    hide RequiredNames, ValueAt, Sort, Distinct;
    RequiredExact(vs);
    RequiredExact(ws);
    if VariableRows(vs, Sort(RequiredNames(vs))) == VariableRows(ws, Sort(RequiredNames(ws))) {
      forall n
        ensures n in RequiredNames(vs) <==> n in RequiredNames(ws)
        ensures n in RequiredNames(vs) ==> ValueAt(vs, n) == ValueAt(ws, n)
      {
        if n in RequiredNames(vs) { RowsGiveVariable(vs, ws, n); }
        if n in RequiredNames(ws) { RowsGiveVariable(ws, vs, n); }
      }
    }
    if Required(vs) == Required(ws) {
      forall n
        ensures n in RequiredNames(vs) <==> n in RequiredNames(ws)
        ensures n in RequiredNames(vs) ==> ValueAt(vs, n) == ValueAt(ws, n)
      {
        if n in RequiredNames(vs) { assert (n, ValueAt(vs, n)) in Required(ws); }
        if n in RequiredNames(ws) { assert (n, ValueAt(ws, n)) in Required(vs); }
      }
      SameSetSorts(RequiredNames(vs), RequiredNames(ws));
      SortHolds(RequiredNames(vs));
      assert VariableRows(vs, Sort(RequiredNames(vs))) == VariableRows(ws, Sort(RequiredNames(vs)));
    }
  }

  // ---------------------------------------------------------------------------------------------
  // The theorem

  predicate SameScalars(a: Inputs, b: Inputs) {
    && a.semanticProfile == b.semanticProfile && a.executorPath == b.executorPath && a.executorSHA256 == b.executorSHA256
    && a.platformIdentity == b.platformIdentity && a.dpkgRoot == b.dpkgRoot && a.dpkgAdmin == b.dpkgAdmin
    && a.executableSearchPath == b.executableSearchPath && a.role == b.role
  }

  predicate SameContent(a: Inputs, b: Inputs) {
    && SameScalars(a, b) && a.optionPrefix == b.optionPrefix
    && Views(Configured(a.configuration)) == Views(Configured(b.configuration))
    && (set c | c in a.components) == (set c | c in b.components)
    && Required(Variables(a)) == Required(Variables(b))
  }

  lemma InputParts(input: Inputs)
    ensures var f := InputFields(input);
            var nodes, cs, vs := Configured(input.configuration), input.components, Variables(input);
            && |f| == 13 && f[1] == input.semanticProfile && f[2] == input.executorPath && f[3] == input.executorSHA256
            && f[4] == input.platformIdentity && f[5] == input.dpkgRoot && f[6] == input.dpkgAdmin
            && f[7] == input.executableSearchPath && f[8] == Printed(input.role)
            && f[9] == NetAll(NodeRows(nodes, Sort(NodePaths(nodes))))
            && f[10] == NetAll(Flat(ComponentRows(cs, Sort(ComponentPaths(cs)))))
            && f[11] == NetAll(Flat(VariableRows(vs, Sort(RequiredNames(vs))))) && f[12] == NetAll(input.optionPrefix)
  {
    hide NetAll, Flat, Sort, Printed, NodeRows, ComponentRows, VariableRows, NodePaths, ComponentPaths, RequiredNames;
  }

  lemma RowWidths(cs: seq<Component>, vs: seq<Variable>, ps: seq<string>)
    ensures forall k :: 0 <= k < |ps| ==> |ComponentRows(cs, ps)[k]| == 2
    ensures forall k :: 0 <= k < |ps| ==> |VariableRows(vs, ps)[k]| == 3
  {
    hide ComponentAt, ValueAt, Flag;
  }

  lemma FieldsFaithful(a: Inputs, b: Inputs)
    requires InputAccepted(a) && InputAccepted(b)
    ensures InputFields(a) == InputFields(b) <==> SameContent(a, b)
  {
    hide NetAll, Flat, Sort, Printed, NodeRows, ComponentRows, VariableRows, NodePaths, ComponentPaths, RequiredNames, InputFields,
         InputShaped, Affordable, Distinct, MembersDistinct, Views, Required, RolesApart, ComponentAt, Configured;
    var ns, ms, cs, ds := Configured(a.configuration), Configured(b.configuration), a.components, b.components;
    var vs, ws := Variables(a), Variables(b);
    InputParts(a);
    InputParts(b);
    PrintedInjective(a.role, b.role);
    ConfiguredDistinct(a.configuration);
    ConfiguredDistinct(b.configuration);
    ConfigurationFaithful(ns, ms);
    ComponentsFaithful(cs, ds);
    EnvironmentFaithful(vs, ws);
    NetAllSame(NodeRows(ns, Sort(NodePaths(ns))), NodeRows(ms, Sort(NodePaths(ms))));
    NetAllSame(a.optionPrefix, b.optionPrefix);
    FlatSame(cs, ds);
    FlatVariablesSame(vs, ws);
    SameSet(cs, ds);
    if SameContent(a, b) { AllParts(a, b); }
  }

  lemma NetAllSame(xs: seq<string>, ys: seq<string>)
    ensures NetAll(xs) == NetAll(ys) <==> xs == ys
  {
    hide NetAll;
    if NetAll(xs) == NetAll(ys) { NetAllInjective(xs, ys); }
  }

  lemma FlatSame(cs: seq<Component>, ds: seq<Component>)
    ensures var x, y := ComponentRows(cs, Sort(ComponentPaths(cs))), ComponentRows(ds, Sort(ComponentPaths(ds)));
            NetAll(Flat(x)) == NetAll(Flat(y)) <==> x == y
  {
    hide NetAll, Flat, Sort, ComponentPaths, ComponentRow;
    var x, y := ComponentRows(cs, Sort(ComponentPaths(cs))), ComponentRows(ds, Sort(ComponentPaths(ds)));
    RowWidths(cs, [], Sort(ComponentPaths(cs)));
    RowWidths(ds, [], Sort(ComponentPaths(ds)));
    NetAllSame(Flat(x), Flat(y));
    if Flat(x) == Flat(y) { FlatInjective(x, y, 2); }
  }

  lemma FlatVariablesSame(vs: seq<Variable>, ws: seq<Variable>)
    ensures var x, y := VariableRows(vs, Sort(RequiredNames(vs))), VariableRows(ws, Sort(RequiredNames(ws)));
            NetAll(Flat(x)) == NetAll(Flat(y)) <==> x == y
  {
    hide NetAll, Flat, Sort, RequiredNames, VariableRow;
    var x, y := VariableRows(vs, Sort(RequiredNames(vs))), VariableRows(ws, Sort(RequiredNames(ws)));
    RowWidths([], vs, Sort(RequiredNames(vs)));
    RowWidths([], ws, Sort(RequiredNames(ws)));
    NetAllSame(Flat(x), Flat(y));
    if Flat(x) == Flat(y) { FlatInjective(x, y, 3); }
  }

  lemma SameSet(cs: seq<Component>, ds: seq<Component>)
    ensures (set c | c in cs) == (set c | c in ds) <==> forall c :: c in cs <==> c in ds
  {
    var x, y := set c | c in cs, set c | c in ds;
    assert forall c :: c in x <==> c in cs;
    assert forall c :: c in y <==> c in ds;
    if x == y {
      forall c
        ensures c in cs <==> c in ds
      {
        assert c in x <==> c in cs;
      }
    }
  }

  lemma AllParts(a: Inputs, b: Inputs)
    requires forall k :: 1 <= k < 13 ==> InputFields(a)[k] == InputFields(b)[k]
    ensures InputFields(a) == InputFields(b)
  {
    hide NetAll, Flat, Sort, Printed, NodeRows, ComponentRows, VariableRows, NodePaths, ComponentPaths, RequiredNames;
    assert InputFields(a)[0] == InputFields(b)[0] == INPUTS_TAG;
    assert |InputFields(a)| == |InputFields(b)| == 13;
  }

  /**
   * Two accepted inputs have the same preimage if and only if they agree on the scalars, the
   * option prefix, configuration, components and required environment; the order of nodes,
   * members, components and variables never matters, nor do the excluded nodes.
   */
  lemma PreimageFaithful(a: Inputs, b: Inputs)
    requires PreimageOf(a).Bytes? && PreimageOf(b).Bytes?
    ensures PreimageOf(a) == PreimageOf(b) <==> SameContent(a, b)
  {
    hide NetAll, InputFields, InputAccepted, SameContent;
    FieldsFaithful(a, b);
    NetAllSame(InputFields(a), InputFields(b));
  }
}
