/** Which variables of a launch environment the content preimage binds, by name. */
module EnvironmentMeaning {
  import opened Text
  import opened Reviews
  import opened Netstrings
  import opened EffectSettings
  import opened EffectRecords
  import opened EffectInputs

  /** Always bound, set or not. */
  ghost predicate AlwaysBound(n: string) {
    || n in {"DEBIAN_FRONTEND", "DPKG_ADMINDIR", "DPKG_COLORS", "DPKG_DEBUG", "DPKG_FORCE", "DPKG_FRONTEND_LOCKED"}
    || n in {"DPKG_NLS", "DPKG_PAGER", "DPKG_PATH_GROUP", "DPKG_PATH_PASSWD", "DPKG_ROOT", "DPKG_RUNNING_VERSION"}
    || n in {"HOME", "LANG", "LANGUAGE", "LC_ALL", "LC_COLLATE", "LC_CTYPE", "LC_MESSAGES", "LC_NUMERIC", "LC_TIME"}
    || n in {"LC_MONETARY", "LC_PAPER", "LC_NAME", "LC_ADDRESS", "LC_TELEPHONE", "LC_MEASUREMENT", "LC_IDENTIFICATION"}
    || n in {"PAGER", "PATH", "SHELL", "TERM", "TMPDIR"}
  }

  /** A locale or dpkg variable, whichever it is. */
  ghost predicate Prefixed(n: string) {
    (|n| >= 3 && n[..3] == "LC_") || (|n| >= 5 && n[..5] == "DPKG_")
  }

  lemma BoundNames(n: string)
    ensures n in FIXED <==> AlwaysBound(n)
    ensures Policed(n) <==> Prefixed(n)
  {
    assert FIXED == [
      "DEBIAN_FRONTEND", "DPKG_ADMINDIR", "DPKG_COLORS", "DPKG_DEBUG", "DPKG_FORCE", "DPKG_FRONTEND_LOCKED",
      "DPKG_NLS", "DPKG_PAGER", "DPKG_PATH_GROUP", "DPKG_PATH_PASSWD", "DPKG_ROOT", "DPKG_RUNNING_VERSION",
      "HOME", "LANG", "LANGUAGE", "LC_ALL", "LC_COLLATE", "LC_CTYPE", "LC_MESSAGES", "LC_NUMERIC", "LC_TIME",
      "LC_MONETARY", "LC_PAPER", "LC_NAME", "LC_ADDRESS", "LC_TELEPHONE", "LC_MEASUREMENT", "LC_IDENTIFICATION",
      "PAGER", "PATH", "SHELL", "TERM", "TMPDIR"];
  }

  lemma RequiredMeans(vs: seq<Variable>, ws: seq<Variable>)
    ensures Required(vs) == Required(ws) <==> forall n :: AlwaysBound(n) || Prefixed(n) ==> ValueAt(vs, n) == ValueAt(ws, n)
  {
    hide RequiredNames, ValueAt, AlwaysBound, Prefixed, Policed;
    RequiredExact(vs);
    RequiredExact(ws);
    forall n
      ensures n in FIXED <==> AlwaysBound(n)
      ensures Policed(n) <==> Prefixed(n)
    {
      BoundNames(n);
    }
    if Required(vs) == Required(ws) {
      forall n | AlwaysBound(n) || Prefixed(n)
        ensures ValueAt(vs, n) == ValueAt(ws, n)
      {
        if n in RequiredNames(vs) { assert (n, ValueAt(vs, n)) in Required(ws); }
        if n in RequiredNames(ws) { assert (n, ValueAt(ws, n)) in Required(vs); }
      }
    }
    if forall n :: AlwaysBound(n) || Prefixed(n) ==> ValueAt(vs, n) == ValueAt(ws, n) {
      forall n
        ensures n in RequiredNames(vs) <==> n in RequiredNames(ws)
        ensures n in RequiredNames(vs) ==> ValueAt(vs, n) == ValueAt(ws, n)
      {
      }
    }
  }

  /** Equal bytes mean equal values, and equal absences, of each of these names. */
  lemma BytesBindVariables(a: Inputs, b: Inputs)
    requires PreimageOf(a).Bytes? && PreimageOf(a) == PreimageOf(b)
    ensures forall n :: AlwaysBound(n) || Prefixed(n) ==> ValueAt(Variables(a), n) == ValueAt(Variables(b), n)
    ensures ValueAt(Variables(a), "PATH") == ValueAt(Variables(b), "PATH")
  {
    hide PreimageOf, Required, AlwaysBound, Prefixed;
    PreimageFaithful(a, b);
    RequiredMeans(Variables(a), Variables(b));
    PathBound();
  }

  lemma PathBound()
    ensures AlwaysBound("PATH")
  {
  }

  /** No other variable matters: with those values equal, the bytes are equal. */
  lemma OthersAreFree(a: Inputs, environment: Option<seq<Variable>>)
    requires var b := a.(environment := environment);
             && PreimageOf(a).Bytes? && PreimageOf(b).Bytes?
             && forall n :: AlwaysBound(n) || Prefixed(n) ==> ValueAt(Variables(a), n) == ValueAt(Variables(b), n)
    ensures PreimageOf(a) == PreimageOf(a.(environment := environment))
  {
    hide PreimageOf, Required, AlwaysBound, Prefixed;
    var b := a.(environment := environment);
    RequiredMeans(Variables(a), Variables(b));
    PreimageFaithful(a, b);
  }

  /** The first entry of a name is its value. */
  lemma ValueMeans(vs: seq<Variable>, n: string, k: nat)
    requires k < |vs| && vs[k].name == n && forall j :: 0 <= j < k ==> vs[j].name != n
    ensures ValueAt(vs, n) == Some(vs[k].value)
  {
    if k == |vs| - 1 {
      NoValue(vs[..k], n);
    } else {
      ValueMeans(vs[..|vs| - 1], n, k);
    }
  }

  lemma NoValue(vs: seq<Variable>, n: string)
    requires forall j :: 0 <= j < |vs| ==> vs[j].name != n
    ensures ValueAt(vs, n) == None
  {
  }

  /** Names hold no equals sign, as the environment class makes sure. */
  ghost predicate Named(vs: seq<Variable>) {
    forall k :: 0 <= k < |vs| ==> Without(vs[k].name, '=')
  }

  /** The entries of an environment determine its variables, in order. */
  lemma EntriesFaithful(vs: seq<Variable>, ws: seq<Variable>)
    requires Named(vs) && Named(ws) && Entries(vs) == Entries(ws)
    ensures vs == ws
  {
    assert |Entries(vs)| == |Entries(ws)|;
    forall k | 0 <= k < |vs|
      ensures vs[k] == ws[k]
    {
      assert Entries(vs)[k] == Entries(ws)[k];
      assert vs[k].name + ['='] + vs[k].value == ws[k].name + ['='] + ws[k].value;
      SeparatorPlace(vs[k].name, vs[k].value, ws[k].name, ws[k].value, '=');
    }
  }
}
