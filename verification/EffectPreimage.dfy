/** Writing the content preimage: what is refused, and the bytes of what is accepted. */
module EffectPreimage {
  import opened Text
  import opened ByteOrder
  import opened Reviews
  import opened Netstrings
  import opened EffectSettings
  import opened EffectRecords
  import opened EffectInputs

  // ---------------------------------------------------------------------------------------------
  // Shape and cost

  class Budget {
    var bytes: nat
    var items: nat

    predicate Within()
      reads this
    {
      bytes <= MAXIMUM_BYTES && items <= BUDGET_ITEMS
    }

    constructor ()
      ensures Within() && bytes == 0 && items == 0
    {
      bytes, items := 0, 0;
    }

    method Items(n: nat) returns (ok: bool)
      requires Within()
      modifies this`items
      ensures Within() && ok == (old(items) + n <= BUDGET_ITEMS)
      ensures items == if ok then old(items) + n else old(items)
    {
      ok := n <= BUDGET_ITEMS - items;
      if ok { items := items + n; }
    }

    method Read(s: string, empty: bool) returns (ok: bool)
      requires Within()
      modifies this`bytes
      ensures Within() && ok == (TextValid(s, empty) && old(bytes) + |s| + 16 <= MAXIMUM_BYTES)
      ensures bytes == if ok then old(bytes) + |s| + 16 else old(bytes)
    {
      ok := TextValid(s, empty) && |s| + 16 <= MAXIMUM_BYTES - bytes;
      if ok { bytes := bytes + |s| + 16; }
    }

    /** Every text valid, and all of them affordable together. */
    method ReadAll(xs: seq<string>, empty: bool) returns (ok: bool)
      requires Within()
      modifies this`bytes
      ensures Within()
      ensures ok == ((forall k :: 0 <= k < |xs| ==> TextValid(xs[k], empty)) && old(bytes) + TextCost(xs) <= MAXIMUM_BYTES)
      ensures ok ==> bytes == old(bytes) + TextCost(xs)
    {
      hide TextValid;
      for k := 0 to |xs|
        modifies this`bytes
        invariant Within() && bytes == old(bytes) + TextCost(xs[..k])
        invariant forall j :: 0 <= j < k ==> TextValid(xs[j], empty)
      {
        TextCostNext(xs, k);
        ok := Read(xs[k], empty);
        if !ok { return; }
      }
      assert xs[..|xs|] == xs;
      ok := true;
    }

    method Strings(xs: seq<string>, empty: bool) returns (ok: bool)
      requires Within()
      modifies this
      ensures Within()
      ensures ok == (TextsValid(xs, empty) && old(items) + |xs| <= BUDGET_ITEMS && old(bytes) + TextCost(xs) <= MAXIMUM_BYTES)
      ensures ok ==> items == old(items) + |xs| && bytes == old(bytes) + TextCost(xs)
    {
      hide TextValid, TextCost;
      if |xs| > MAXIMUM_ITEMS { return false; }
      ok := Items(|xs|);
      if ok { ok := ReadAll(xs, empty); }
    }

    method ReadNode(n: Content) returns (ok: bool)
      requires Within()
      modifies this
      ensures Within()
      ensures ok == (ContentValid(n) && old(items) + |n.members| <= BUDGET_ITEMS
                     && old(bytes) + |n.path| + 16 + |n.sha256| + 16 + TextCost(n.members) <= MAXIMUM_BYTES)
      ensures ok ==> items == old(items) + |n.members|
                     && bytes == old(bytes) + |n.path| + 16 + |n.sha256| + 16 + TextCost(n.members)
    {
      hide TextValid, AbsolutePath, Digest, TextCost;
      if !AbsolutePath(n.path) { return false; }
      ok := Read(n.path, false);
      if !ok { return; }
      ok := Read(n.sha256, true);
      if !ok { return; }
      if |n.members| > MAXIMUM_INPUTS { return false; }
      ok := Items(|n.members|);
      if !ok { return; }
      if !n.present {
        if n.size != 0 || |n.sha256| != 0 || |n.members| != 0 { return false; }
      } else if n.kind == File {
        if !Digest(n.sha256) || |n.members| != 0 { return false; }
      } else if n.size != 0 || |n.sha256| != 0 { return false; }
      ok := ReadMembers(n.members);
    }

    method ReadMembers(ms: seq<string>) returns (ok: bool)
      requires Within()
      modifies this`bytes
      ensures Within()
      ensures ok == ((forall k :: 0 <= k < |ms| ==> MemberValid(ms[k])) && old(bytes) + TextCost(ms) <= MAXIMUM_BYTES)
      ensures ok ==> bytes == old(bytes) + TextCost(ms)
    {
      hide TextValid;
      for k := 0 to |ms|
        modifies this`bytes
        invariant Within() && bytes == old(bytes) + TextCost(ms[..k])
        invariant forall j :: 0 <= j < k ==> MemberValid(ms[j])
      {
        TextCostNext(ms, k);
        ok := Read(ms[k], false);
        if !ok || ms[k] == "." || ms[k] == ".." || '/' in ms[k] { return false; }
      }
      assert ms[..|ms|] == ms;
      ok := true;
    }

    method ReadNodes(ns: seq<Content>) returns (ok: bool)
      requires Within()
      modifies this
      ensures Within()
      ensures ok == ((forall k :: 0 <= k < |ns| ==> ContentValid(ns[k]))
                     && old(items) + NodesItems(ns) <= BUDGET_ITEMS && old(bytes) + NodesCost(ns) <= MAXIMUM_BYTES)
      ensures ok ==> items == old(items) + NodesItems(ns) && bytes == old(bytes) + NodesCost(ns)
    {
      hide ContentValid, TextCost;
      for k := 0 to |ns|
        invariant Within() && bytes == old(bytes) + NodesCost(ns[..k]) && items == old(items) + NodesItems(ns[..k])
        invariant forall j :: 0 <= j < k ==> ContentValid(ns[j])
      {
        NodesNext(ns, k);
        ok := ReadNode(ns[k]);
        if !ok { return; }
      }
      assert ns[..|ns|] == ns;
      ok := true;
    }

    method ReadComponents(cs: seq<Component>) returns (ok: bool)
      requires Within()
      modifies this`bytes
      ensures Within()
      ensures ok == ((forall k :: 0 <= k < |cs| ==> ComponentValid(cs[k])) && old(bytes) + ComponentsCost(cs) <= MAXIMUM_BYTES)
    {
      hide TextValid, AbsolutePath;
      for k := 0 to |cs|
        modifies this`bytes
        invariant Within() && bytes == old(bytes) + ComponentsCost(cs[..k])
        invariant forall j :: 0 <= j < k ==> ComponentValid(cs[j])
      {
        ComponentsNext(cs, k);
        if !AbsolutePath(cs[k].path) || !Digest(cs[k].sha256) { return false; }
        DigestIsText(cs[k].sha256);
        ok := Read(cs[k].path, false);
        if !ok { return; }
        ok := Read(cs[k].sha256, false);
        if !ok { return; }
      }
      assert cs[..|cs|] == cs;
      ok := true;
    }
  }

  lemma DigestIsText(s: string)
    requires Digest(s)
    ensures TextValid(s, false)
  {
  }

  lemma {:induction false} TextCostGrows(xs: seq<string>, k: nat)
    requires k <= |xs|
    ensures TextCost(xs[..k]) <= TextCost(xs)
  {
    if k < |xs| {
      TextCostGrows(xs[..|xs| - 1], k);
      assert xs[..|xs| - 1][..k] == xs[..k];
    } else {
      assert xs[..k] == xs;
    }
  }

  lemma TextCostNext(xs: seq<string>, k: nat)
    requires k < |xs|
    ensures TextCost(xs[..k + 1]) == TextCost(xs[..k]) + |xs[k]| + 16 <= TextCost(xs)
  {
    assert xs[..k + 1][..k] == xs[..k];
    TextCostGrows(xs, k + 1);
  }

  lemma {:induction false} NodesGrow(ns: seq<Content>, k: nat)
    requires k <= |ns|
    ensures NodesCost(ns[..k]) <= NodesCost(ns) && NodesItems(ns[..k]) <= NodesItems(ns)
  {
    hide TextCost;
    if k < |ns| {
      NodesGrow(ns[..|ns| - 1], k);
      assert ns[..|ns| - 1][..k] == ns[..k];
    } else {
      assert ns[..k] == ns;
    }
  }

  lemma NodesNext(ns: seq<Content>, k: nat)
    requires k < |ns|
    ensures NodesCost(ns[..k + 1]) == NodesCost(ns[..k]) + |ns[k].path| + 16 + |ns[k].sha256| + 16 + TextCost(ns[k].members)
    ensures NodesItems(ns[..k + 1]) == NodesItems(ns[..k]) + |ns[k].members|
    ensures NodesCost(ns[..k + 1]) <= NodesCost(ns) && NodesItems(ns[..k + 1]) <= NodesItems(ns)
  {
    hide TextCost;
    assert ns[..k + 1][..k] == ns[..k];
    NodesGrow(ns, k + 1);
  }

  lemma {:induction false} ComponentsGrow(cs: seq<Component>, k: nat)
    requires k <= |cs|
    ensures ComponentsCost(cs[..k]) <= ComponentsCost(cs)
  {
    if k < |cs| {
      ComponentsGrow(cs[..|cs| - 1], k);
      assert cs[..|cs| - 1][..k] == cs[..k];
    } else {
      assert cs[..k] == cs;
    }
  }

  lemma ComponentsNext(cs: seq<Component>, k: nat)
    requires k < |cs|
    ensures ComponentsCost(cs[..k + 1]) == ComponentsCost(cs[..k]) + |cs[k].path| + 16 + |cs[k].sha256| + 16 <= ComponentsCost(cs)
  {
    assert cs[..k + 1][..k] == cs[..k];
    ComponentsGrow(cs, k + 1);
  }

  method CheckShape(input: Inputs) returns (ok: bool)
    ensures ok == (Supported(input.semanticProfile) && InputShaped(input) && Affordable(input))
  {
    hide AbsolutePath, Digest, SearchParts, TextsValid, ContentValid, ComponentValid, TextCost, NodesCost, NodesItems, ComponentsCost;
    if !Supported(input.semanticProfile) { return false; }
    if !AbsolutePath(input.executorPath) || !Digest(input.executorSHA256) || !Digest(input.platformIdentity)
       || !AbsolutePath(input.dpkgRoot) || !AbsolutePath(input.dpkgAdmin) || !TextValid(input.executableSearchPath, false)
       || !SearchParts(input.executableSearchPath) || input.environment.None? || input.role > 4 || |input.components| == 0
       || |input.optionPrefix| == 0 { return false; }
    if |input.components| > MAXIMUM_INPUTS || |input.configuration| > MAXIMUM_INPUTS { return false; }
    ScalarsAreText(input);
    var budget := new Budget();
    ok := budget.ReadAll(ScalarTexts(input), false);
    if !ok { return; }
    ok := budget.Strings(input.optionPrefix, true);
    if !ok { return; }
    ok := budget.Strings(Entries(input.environment.value), false);
    if !ok { return; }
    if |input.optionPrefix| < 2 || input.optionPrefix[0] != "--root=" + input.dpkgRoot
       || input.optionPrefix[1] != "--admindir=" + input.dpkgAdmin { return false; }
    ok := budget.Items(|input.configuration| + |input.components|);
    if !ok { return; }
    ok := budget.ReadNodes(input.configuration);
    if !ok { return; }
    ok := budget.ReadComponents(input.components);
  }

  lemma ScalarsAreText(input: Inputs)
    requires Supported(input.semanticProfile) && AbsolutePath(input.executorPath) && Digest(input.executorSHA256)
    requires Digest(input.platformIdentity) && AbsolutePath(input.dpkgRoot) && AbsolutePath(input.dpkgAdmin)
    requires TextValid(input.executableSearchPath, false)
    ensures forall k :: 0 <= k < |ScalarTexts(input)| ==> TextValid(ScalarTexts(input)[k], false)
  {
    hide AbsolutePath, Digest;
    PathIsText(input.executorPath);
    PathIsText(input.dpkgRoot);
    PathIsText(input.dpkgAdmin);
    DigestIsText(input.executorSHA256);
    DigestIsText(input.platformIdentity);
  }

  lemma PathIsText(s: string)
    requires AbsolutePath(s)
    ensures TextValid(s, false)
  {
    hide PartFollows;
  }

  // ---------------------------------------------------------------------------------------------
  // Maps

  lemma EmptyDistinct()
    ensures Distinct([])
  {
  }

  method CollectNodes(ns: seq<Content>) returns (r: Option<map<string, Content>>)
    ensures r.Some? <==> Distinct(NodePaths(ns))
    ensures r.Some? ==> forall p :: p in r.value <==> p in NodePaths(ns)
    ensures r.Some? ==> forall p :: p in r.value ==> NodeAt(ns, p) == Some(r.value[p])
  {
    hide Distinct;
    var nodes: map<string, Content> := map[];
    EmptyDistinct();
    for k := 0 to |ns|
      invariant Distinct(NodePaths(ns[..k]))
      invariant forall p :: p in nodes <==> p in NodePaths(ns[..k])
      invariant forall p :: p in nodes ==> NodeAt(ns[..k], p) == Some(nodes[p])
    {
      assert ns[..k + 1][..k] == ns[..k];
      DistinctGrows(NodePaths(ns[..k]), ns[k].path);
      if ns[k].path in nodes {
        NodesRepeat(ns, k + 1);
        return None;
      }
      nodes := nodes[ns[k].path := ns[k]];
    }
    assert ns[..|ns|] == ns;
    r := Some(nodes);
  }

  lemma {:induction false} NodesRepeat(ns: seq<Content>, k: nat)
    requires k <= |ns| && !Distinct(NodePaths(ns[..k]))
    ensures !Distinct(NodePaths(ns))
  {
    hide Distinct;
    if k < |ns| {
      NodesRepeat(ns[..|ns| - 1], k) by { assert ns[..|ns| - 1][..k] == ns[..k]; }
      DistinctGrows(NodePaths(ns[..|ns| - 1]), ns[|ns| - 1].path);
    } else {
      assert ns[..k] == ns;
    }
  }

  method CollectComponents(cs: seq<Component>) returns (r: Option<map<string, string>>)
    ensures r.Some? <==> Distinct(ComponentPaths(cs))
    ensures r.Some? ==> forall p :: p in r.value <==> p in ComponentPaths(cs)
    ensures r.Some? ==> forall p :: p in r.value ==> ComponentAt(cs, p) == Some(r.value[p])
    ensures r.Some? ==> forall p :: ComponentAt(cs, p).Some? <==> p in r.value
  {
    hide Distinct;
    var components: map<string, string> := map[];
    EmptyDistinct();
    for k := 0 to |cs|
      invariant Distinct(ComponentPaths(cs[..k]))
      invariant forall p :: p in components <==> p in ComponentPaths(cs[..k])
      invariant forall p :: p in components ==> ComponentAt(cs[..k], p) == Some(components[p])
      invariant forall p :: ComponentAt(cs[..k], p).Some? <==> p in components
    {
      assert cs[..k + 1][..k] == cs[..k];
      DistinctGrows(ComponentPaths(cs[..k]), cs[k].path);
      if cs[k].path in components {
        ComponentsRepeat(cs, k + 1);
        return None;
      }
      components := components[cs[k].path := cs[k].sha256];
    }
    assert cs[..|cs|] == cs;
    r := Some(components);
  }

  lemma {:induction false} ComponentsRepeat(cs: seq<Component>, k: nat)
    requires k <= |cs| && !Distinct(ComponentPaths(cs[..k]))
    ensures !Distinct(ComponentPaths(cs))
  {
    hide Distinct;
    if k < |cs| {
      ComponentsRepeat(cs[..|cs| - 1], k) by { assert cs[..|cs| - 1][..k] == cs[..k]; }
      DistinctGrows(ComponentPaths(cs[..|cs| - 1]), cs[|cs| - 1].path);
    } else {
      assert cs[..k] == cs;
    }
  }

  predicate Apart(keys: seq<string>, nodes: map<string, Content>, components: map<string, string>) {
    forall p :: p in keys && p in nodes && nodes[p].role != Configuration ==> p !in components
  }

  method CheckRoles(keys: seq<string>, nodes: map<string, Content>, components: map<string, string>) returns (ok: bool)
    requires forall p :: p in keys ==> p in nodes
    ensures ok == Apart(keys, nodes, components)
  {
    for k := 0 to |keys|
      invariant forall j :: 0 <= j < k && nodes[keys[j]].role != Configuration ==> keys[j] !in components
    {
      if nodes[keys[k]].role != Configuration && keys[k] in components { return false; }
    }
    ok := true;
  }

  lemma RolesMean(input: Inputs, keys: seq<string>, nodes: map<string, Content>, components: map<string, string>)
    requires Distinct(NodePaths(input.configuration)) && keys == Sort(NodePaths(input.configuration))
    requires forall p :: p in nodes <==> p in NodePaths(input.configuration)
    requires forall p :: p in nodes ==> NodeAt(input.configuration, p) == Some(nodes[p])
    requires forall p :: p in components <==> p in ComponentPaths(input.components)
    ensures RolesApart(input) == Apart(keys, nodes, components)
  {
    hide Distinct, NodePaths, NodeAt, ComponentPaths, Sort;
    SortHolds(NodePaths(input.configuration));
    if RolesApart(input) {
      forall p | p in keys && p in nodes && nodes[p].role != Configuration
        ensures p !in components
      {
        NodePathsHave(input.configuration, p);
        var k :| 0 <= k < |input.configuration| && input.configuration[k] == nodes[p];
        assert input.configuration[k].path !in ComponentPaths(input.components);
      }
    }
    if Apart(keys, nodes, components) {
      forall k | 0 <= k < |input.configuration| && input.configuration[k].role != Configuration
        ensures input.configuration[k].path !in ComponentPaths(input.components)
      {
        NodeAtOnly(input.configuration, input.configuration[k]);
        NodePathsHave(input.configuration, input.configuration[k].path);
        assert input.configuration[k].path in keys;
      }
    }
  }

  // ---------------------------------------------------------------------------------------------
  // Environment

  /** The first entry of each name, and every name that must be part of the preimage. */
  method CollectEnvironment(vs: seq<Variable>) returns (environment: map<string, string>)
    ensures forall n :: n in environment <==> ValueAt(vs, n).Some?
    ensures forall n :: n in environment ==> ValueAt(vs, n) == Some(environment[n])
  {
    environment := map[];
    for k := 0 to |vs|
      invariant forall n :: n in environment <==> ValueAt(vs[..k], n).Some?
      invariant forall n :: n in environment ==> ValueAt(vs[..k], n) == Some(environment[n])
    {
      assert vs[..k + 1][..k] == vs[..k];
      if vs[k].name !in environment { environment := environment[vs[k].name := vs[k].value]; }
    }
    assert vs[..|vs|] == vs;
  }

  method WriteVariables(vs: seq<Variable>, names: seq<string>, environment: map<string, string>) returns (bytes: Option<string>)
    requires forall n :: n in environment <==> ValueAt(vs, n).Some?
    requires forall n :: n in environment ==> ValueAt(vs, n) == Some(environment[n])
    ensures bytes == if |NetAll(Flat(VariableRows(vs, names)))| <= MAXIMUM_BYTES then Some(NetAll(Flat(VariableRows(vs, names)))) else None
  {
    hide NetAll, ValueAt, Flag;
    var writer := new Writer(MAXIMUM_BYTES);
    for k := 0 to |names|
      invariant fresh(writer) && writer.Holds() && writer.maximum == MAXIMUM_BYTES
      invariant writer.fields == Flat(VariableRows(vs, names[..k]))
    {
      assert VariableRows(vs, names[..k + 1])[..k] == VariableRows(vs, names[..k]);
      var found := names[k] in environment;
      writer.Field(names[k]);
      writer.Field(Flag(found));
      writer.Field(if found then environment[names[k]] else "");
      assert VariableRow(vs, names[k]) == [names[k], Flag(found), if found then environment[names[k]] else ""];
    }
    assert names[..|names|] == names;
    bytes := if writer.valid then Some(writer.bytes) else None;
  }

  method WriteComponents(cs: seq<Component>, paths: seq<string>, components: map<string, string>) returns (bytes: Option<string>)
    requires forall p :: p in paths ==> p in components && ComponentAt(cs, p) == Some(components[p])
    ensures bytes == if |NetAll(Flat(ComponentRows(cs, paths)))| <= MAXIMUM_BYTES then Some(NetAll(Flat(ComponentRows(cs, paths)))) else None
  {
    hide NetAll, ComponentAt;
    var writer := new Writer(MAXIMUM_BYTES);
    for k := 0 to |paths|
      invariant fresh(writer) && writer.Holds() && writer.maximum == MAXIMUM_BYTES
      invariant writer.fields == Flat(ComponentRows(cs, paths[..k]))
    {
      assert ComponentRows(cs, paths[..k + 1])[..k] == ComponentRows(cs, paths[..k]);
      writer.Field(paths[k]);
      writer.Field(components[paths[k]]);
      assert ComponentRow(cs, paths[k]) == [paths[k], components[paths[k]]];
    }
    assert paths[..|paths|] == paths;
    bytes := if writer.valid then Some(writer.bytes) else None;
  }

  // ---------------------------------------------------------------------------------------------
  // Configuration

  /** Sorted lists repeat a string exactly when two neighbours are equal. */
  method Repeats(xs: seq<string>) returns (found: bool)
    requires Ascending(xs)
    ensures found <==> !Distinct(xs)
  {
    hide Precedes;
    var k: nat := 1;
    while k < |xs|
      invariant 1 <= k
      invariant forall i, j :: 0 <= i < j < |xs| && j < k ==> xs[i] != xs[j]
    {
      if xs[k - 1] == xs[k] { return true; }
      forall i | 0 <= i < k
        ensures xs[i] != xs[k]
      {
        if xs[i] == xs[k] { Trichotomy(xs[k - 1], xs[k]); }
      }
      k := k + 1;
    }
    found := false;
  }

  lemma DistinctSorted(xs: seq<string>)
    ensures Distinct(Sort(xs)) <==> Distinct(xs)
  {
    hide Sort;
    SortCorrect(xs);
    CountsDistinct(xs);
    CountsDistinct(Sort(xs));
  }

  lemma {:induction false} CountsDistinct(xs: seq<string>)
    ensures Distinct(xs) <==> forall x :: multiset(xs)[x] <= 1
  {
    hide Distinct;
    if |xs| == 0 {
      EmptyDistinct();
    } else {
      var front, last := xs[..|xs| - 1], xs[|xs| - 1];
      assert xs == front + [last];
      CountsDistinct(front);
      DistinctGrows(front, last);
      assert multiset(xs)[last] == multiset(front)[last] + 1;
      assert last in front <==> multiset(front)[last] > 0;
      assert forall x :: multiset(front)[x] <= multiset(xs)[x];
    }
  }

  /** The keys whose node is part of the configuration. */
  function Kept(ns: seq<Content>, keys: seq<string>): seq<string> {
    if |keys| == 0 then []
    else
      var before, node := Kept(ns, keys[..|keys| - 1]), NodeAt(ns, keys[|keys| - 1]);
      if node.Some? && node.value.role == Configuration then before + [keys[|keys| - 1]] else before
  }

  lemma {:induction false} KeptAscends(ns: seq<Content>, keys: seq<string>)
    requires Ascending(keys)
    ensures Ascending(Kept(ns, keys))
    ensures forall p :: p in Kept(ns, keys) <==> p in keys && NodeAt(ns, p).Some? && NodeAt(ns, p).value.role == Configuration
  {
    hide NodeAt, Precedes;
    if |keys| > 0 {
      var front, last := keys[..|keys| - 1], keys[|keys| - 1];
      KeptAscends(ns, front);
      assert keys == front + [last];
      forall p | p in front
        ensures !Precedes(last, p)
      {
        var i :| 0 <= i < |front| && front[i] == p;
        assert !Precedes(keys[|keys| - 1], keys[i]);
      }
    }
  }

  lemma {:induction false} KeptDistinct(ns: seq<Content>, keys: seq<string>)
    requires Distinct(keys)
    ensures Distinct(Kept(ns, keys)) && forall p :: p in Kept(ns, keys) ==> p in keys
  {
    hide NodeAt, Distinct;
    if |keys| == 0 {
      EmptyDistinct();
    } else {
      var front, last := keys[..|keys| - 1], keys[|keys| - 1];
      assert keys == front + [last];
      DistinctGrows(front, last);
      KeptDistinct(ns, front);
      DistinctGrows(Kept(ns, front), last);
    }
  }

  lemma ConfiguredPath(ns: seq<Content>, p: string)
    requires Distinct(NodePaths(ns))
    ensures p in NodePaths(Configured(ns)) <==> NodeAt(ns, p).Some? && NodeAt(ns, p).value.role == Configuration
    ensures p in NodePaths(Configured(ns)) ==> NodeAt(Configured(ns), p) == NodeAt(ns, p)
  {
    hide Distinct, NodePaths, NodeAt, Configured;
    ConfiguredDistinct(ns);
    NodePathsHave(ns, p);
    NodePathsHave(Configured(ns), p);
    if p in NodePaths(Configured(ns)) {
      var n := NodeAt(Configured(ns), p).value;
      ConfiguredHolds(ns, n);
      NodeAtOnly(ns, n);
    }
    if NodeAt(ns, p).Some? && NodeAt(ns, p).value.role == Configuration {
      ConfiguredHolds(ns, NodeAt(ns, p).value);
      NodeAtOnly(Configured(ns), NodeAt(ns, p).value);
    }
  }

  /** Skipping the other nodes in key order leaves the configuration in key order. */
  lemma KeptKeys(ns: seq<Content>)
    requires Distinct(NodePaths(ns))
    ensures Kept(ns, Sort(NodePaths(ns))) == Sort(NodePaths(Configured(ns)))
  {
    hide Distinct, NodePaths, NodeAt, Configured, Sort, Kept, Ascending;
    var keys := Sort(NodePaths(ns));
    SortCorrect(NodePaths(ns));
    SortHolds(NodePaths(ns));
    DistinctSorted(NodePaths(ns));
    KeptAscends(ns, keys);
    KeptDistinct(ns, keys);
    ConfiguredDistinct(ns);
    forall p
      ensures p in Kept(ns, keys) <==> p in NodePaths(Configured(ns))
    {
      ConfiguredPath(ns, p);
      NodePathsHave(ns, p);
    }
    SameSetSorts(Kept(ns, keys), NodePaths(Configured(ns)));
    SortCorrect(Kept(ns, keys));
    AscendingUnique(Sort(Kept(ns, keys)), Kept(ns, keys));
  }

  method WriteNode(n: Content) returns (bytes: Option<string>)
    requires Distinct(n.members)
    ensures bytes == if |NetAll(NodeFields(n))| <= MAXIMUM_BYTES then Some(NetAll(NodeFields(n))) else None
  {
    hide NetAll, Sort, Printed, Flag;
    var names := WriteAll(Sort(n.members));
    if names.None? {
      FieldParts(n);
      FieldFits(NodeFields(n), 5);
      return None;
    }
    bytes := WriteAll([n.path, if n.kind == File then "file" else "directory", Flag(n.present), Printed(n.size), n.sha256, names.value]);
  }

  predicate KeptDistinctly(ns: seq<Content>, keys: seq<string>) {
    forall p :: p in Kept(ns, keys) && NodeAt(ns, p).Some? ==> Distinct(NodeAt(ns, p).value.members)
  }

  /** The kept nodes are the configuration. */
  lemma KeptMembers(ns: seq<Content>)
    requires Distinct(NodePaths(ns))
    ensures KeptDistinctly(ns, Sort(NodePaths(ns))) == MembersDistinct(Configured(ns))
  {
    hide Distinct, NodePaths, NodeAt, Configured, Sort, Kept;
    var keys := Sort(NodePaths(ns));
    KeptKeys(ns);
    ConfiguredDistinct(ns);
    SortHolds(NodePaths(Configured(ns)));
    if KeptDistinctly(ns, keys) {
      forall k | 0 <= k < |Configured(ns)|
        ensures Distinct(Configured(ns)[k].members)
      {
        var n := Configured(ns)[k];
        NodeAtOnly(Configured(ns), n);
        NodePathsHave(Configured(ns), n.path);
        ConfiguredPath(ns, n.path);
        assert n.path in Kept(ns, keys);
      }
    }
    if MembersDistinct(Configured(ns)) {
      forall p | p in Kept(ns, keys) && NodeAt(ns, p).Some?
        ensures Distinct(NodeAt(ns, p).value.members)
      {
        ConfiguredPath(ns, p);
        NodePathsHave(Configured(ns), p);
        MembersOf(Configured(ns), NodeAt(ns, p).value);
      }
    }
  }

  lemma {:induction false} KeptPrefix(ns: seq<Content>, keys: seq<string>, k: nat)
    requires k <= |keys|
    ensures Kept(ns, keys[..k]) <= Kept(ns, keys)
    decreases |keys|
  {
    hide NodeAt;
    if k == |keys| {
      assert keys[..k] == keys;
    } else {
      assert keys[..|keys| - 1][..k] == keys[..k];
      KeptPrefix(ns, keys[..|keys| - 1], k);
    }
  }

  lemma NothingKept(ns: seq<Content>)
    ensures Kept(ns, []) == []
  {
  }

  lemma KeptNext(ns: seq<Content>, keys: seq<string>, k: nat)
    requires k < |keys| && NodeAt(ns, keys[k]).Some?
    ensures var before, after := Kept(ns, keys[..k]), Kept(ns, keys[..k + 1]);
            if NodeAt(ns, keys[k]).value.role == Configuration
            then after == before + [keys[k]] && |before| < |Kept(ns, keys)| && Kept(ns, keys)[|before|] == keys[k]
            else after == before
  {
    hide NodeAt;
    assert keys[..k + 1][..k] == keys[..k];
    KeptPrefix(ns, keys, k + 1);
  }

  method WriteConfiguration(ns: seq<Content>, keys: seq<string>, nodes: map<string, Content>) returns (bytes: Option<string>)
    requires Distinct(NodePaths(ns)) && keys == Sort(NodePaths(ns))
    requires forall p :: p in nodes <==> p in NodePaths(ns)
    requires forall p :: p in nodes ==> NodeAt(ns, p) == Some(nodes[p])
    ensures var rows := NodeRows(Configured(ns), Sort(NodePaths(Configured(ns))));
            bytes == if MembersDistinct(Configured(ns)) && |NetAll(rows)| <= MAXIMUM_BYTES then Some(NetAll(rows)) else None
  {
    hide NetAll, Sort, Distinct, NodePaths, NodeAt, Configured, NodeFields, MembersDistinct, Kept;
    var writer := new Writer(MAXIMUM_BYTES);
    SortHolds(NodePaths(ns));
    KeptKeys(ns);
    KeptMembers(ns);
    ghost var configured := Configured(ns);
    NothingKept(ns);
    for k := 0 to |keys|
      invariant fresh(writer) && writer.Holds() && writer.maximum == MAXIMUM_BYTES
      invariant writer.fields == NodeRows(configured, Kept(ns, keys[..k]))
      invariant KeptDistinctly(ns, keys[..k])
    {
      assert keys[k] in nodes;
      KeptNext(ns, keys, k);
      var node := nodes[keys[k]];
      if node.role == Configuration {
        ghost var before, after := Kept(ns, keys[..k]), Kept(ns, keys[..k + 1]);
        DistinctSorted(node.members);
        SortCorrect(node.members);
        var repeated := Repeats(Sort(node.members));
        if repeated {
          assert Kept(ns, keys)[|before|] == keys[k];
          return None;
        }
        ConfiguredPath(ns, keys[k]);
        var row := WriteNode(node);
        assert NodeRow(configured, keys[k]) == NetAll(NodeFields(node));
        if row.None? {
          ghost var rows := NodeRows(configured, Kept(ns, keys));
          assert rows[|before|] == NetAll(NodeFields(node));
          FieldFits(rows, |before|);
          return None;
        }
        assert NodeRows(configured, after) == NodeRows(configured, before) + [NetAll(NodeFields(node))];
        writer.Field(row.value);
      }
    }
    assert keys[..|keys|] == keys;
    bytes := if writer.valid then Some(writer.bytes) else None;
  }

  // ---------------------------------------------------------------------------------------------
  // The whole

  method EncodeInputs(input: Inputs) returns (r: Preimage)
    ensures r == PreimageOf(input)
  {
    hide NetAll, Sort, Distinct, NodePaths, ComponentPaths, NodeAt, ComponentAt, Configured, MembersDistinct, InputShaped, Affordable,
         NodeRows, ComponentRows, VariableRows, Flat, RequiredNames, ValueAt, Printed, Apart, RolesApart, InputFields;
    var shaped := CheckShape(input);
    if !Supported(input.semanticProfile) { return UnsupportedProfile; }
    if !shaped { return Refused; }
    var nodes := CollectNodes(input.configuration);
    if nodes.None? { return Refused; }
    var components := CollectComponents(input.components);
    if components.None? { return Refused; }
    var keys := Sort(NodePaths(input.configuration));
    SortHolds(NodePaths(input.configuration));
    RolesMean(input, keys, nodes.value, components.value);
    var apart := CheckRoles(keys, nodes.value, components.value);
    if !apart { return Refused; }
    if input.executorPath !in components.value || components.value[input.executorPath] != input.executorSHA256 { return Refused; }
    var vs := Variables(input);
    var environment := CollectEnvironment(vs);
    var config := WriteConfiguration(input.configuration, keys, nodes.value);
    SortHolds(ComponentPaths(input.components));
    var listed := WriteComponents(input.components, Sort(ComponentPaths(input.components)), components.value);
    var env := WriteVariables(vs, Sort(RequiredNames(vs)), environment);
    var options := WriteAll(input.optionPrefix);
    ListsFit(input);
    if config.None? || listed.None? || env.None? || options.None? { return Refused; }
    var result := WriteAll([INPUTS_TAG, input.semanticProfile, input.executorPath, input.executorSHA256, input.platformIdentity,
                            input.dpkgRoot, input.dpkgAdmin, input.executableSearchPath, Printed(input.role),
                            config.value, listed.value, env.value, options.value]);
    FieldsAre(input, config.value, listed.value, env.value, options.value);
    if result.None? { return Refused; }
    r := Bytes(result.value);
  }

  lemma ListsFit(input: Inputs)
    ensures var f := InputFields(input);
            && |f| == 13 && |f[9]| <= |NetAll(f)| && |f[10]| <= |NetAll(f)| && |f[11]| <= |NetAll(f)| && |f[12]| <= |NetAll(f)|
    ensures var nodes, cs, vs := Configured(input.configuration), input.components, Variables(input);
            var f := InputFields(input);
            && f[9] == NetAll(NodeRows(nodes, Sort(NodePaths(nodes))))
            && f[10] == NetAll(Flat(ComponentRows(cs, Sort(ComponentPaths(cs)))))
            && f[11] == NetAll(Flat(VariableRows(vs, Sort(RequiredNames(vs))))) && f[12] == NetAll(input.optionPrefix)
  {
    hide NetAll, InputFields, Flat, Sort, NodeRows, ComponentRows, VariableRows, NodePaths, ComponentPaths, RequiredNames;
    InputParts(input);
    FieldFits(InputFields(input), 9);
    FieldFits(InputFields(input), 10);
    FieldFits(InputFields(input), 11);
    FieldFits(InputFields(input), 12);
  }

  lemma FieldsAre(input: Inputs, config: string, listed: string, env: string, options: string)
    requires var nodes, cs, vs := Configured(input.configuration), input.components, Variables(input);
             && config == NetAll(NodeRows(nodes, Sort(NodePaths(nodes))))
             && listed == NetAll(Flat(ComponentRows(cs, Sort(ComponentPaths(cs)))))
             && env == NetAll(Flat(VariableRows(vs, Sort(RequiredNames(vs))))) && options == NetAll(input.optionPrefix)
    ensures InputFields(input) == [INPUTS_TAG, input.semanticProfile, input.executorPath, input.executorSHA256, input.platformIdentity,
                            input.dpkgRoot, input.dpkgAdmin, input.executableSearchPath, Printed(input.role),
                            config, listed, env, options]
  {
    hide NetAll, Flat, Sort, NodeRows, ComponentRows, VariableRows, NodePaths, ComponentPaths, RequiredNames, Printed, Configured;
  }
}
