/**
 * Which installed states a Pre-Depends is evaluated over, and which instances of them count, row
 * by row and with every phase written out.
 */
module AdmissionMeaning {
  import opened Text
  import opened Characters
  import opened Packages
  import opened BinaryRelationships
  import opened PreDepends
  import opened PreDependsAdmission
  import Reviews
  import DpkgState

  ghost predicate Distinct(xs: seq<string>) {
    forall i, j :: 0 <= i < j < |xs| ==> xs[i] != xs[j]
  }

  /** State, metadata and architectures belong together, and what is queued is there and configured. */
  ghost predicate Belongs(s: Setting) {
    && Printable(s.state.identity) && s.metadata.identity == s.state.identity && s.state.native == s.native
    && |s.state.packages| <= 4096 && |s.metadata.packages| <= 4096 && |s.queued| <= 4096
    && ConcreteArchitecture(s.native) && s.native != "all"
    && 1 <= |s.state.architectures| <= 256 && s.state.architectures[0] == s.native && Distinct(s.state.architectures)
    && (forall a :: a in s.state.architectures ==> ConcreteArchitecture(a) && a != "all")
    && (s.incoming.architecture == "all" || s.incoming.architecture in s.state.architectures)
    && (forall i :: 0 <= i < |s.queued| ==> InPlace(s.state, s.queued[i]))
    && forall i, j :: 0 <= i < j < |s.queued| ==> Key(s.queued[i]) != Key(s.queued[j])
  }

  ghost predicate InPlace(state: State, g: Instance) {
    && Key(g) in state.packages && state.packages[Key(g)].package == g
    && (state.packages[Key(g)].status.TriggersAwaited? || state.packages[Key(g)].status.TriggersPending?
        || state.packages[Key(g)].status.Installed?)
  }

  ghost predicate Mentioned(r: Record) {
    r.package.version == "" && r.package.architecture == ""
  }

  /** dpkg's view and the retained one agree, up to deferred trigger processing. */
  ghost predicate PhasesAgree(a: Status, b: Status) {
    a == b || (a in {TriggersAwaited, TriggersPending, Installed} && b in {TriggersAwaited, TriggersPending, Installed})
  }

  ghost predicate RetainedReads(s: Setting, r: Record, m: Retained) {
    && m.package == r.package && PhasesAgree(r.status, m.diskStatus) && Hexadecimal(m.evidence)
    && (m.configVersion == "" || Version(m.configVersion))
    && (m.diskStatus.Installed? || m.diskStatus.TriggersPending? ==> m.configVersion == r.package.version)
    && (m.diskStatus.NotInstalled? ==> m.configVersion == "")
    && s.canonical(m.controls) == Some(m.controls)
    && (if "multi-arch" in m.controls then m.controls["multi-arch"] else "") == (if r.multiArch == "" then "no" else r.multiArch)
  }

  ghost function ReadAs(r: Record, m: Retained): Result<Package> {
    PackageOf(r.package.package, r.package.version, r.package.architecture,
              if "multi-arch" in m.controls then m.controls["multi-arch"] else "",
              if "provides" in m.controls then m.controls["provides"] else "")
  }

  /** An instance of the incoming name that is more than a leftover of its selection. */
  ghost predicate Standing(s: Setting, k: string) {
    k in s.state.packages && s.state.packages[k].package.package == s.incoming.name && !s.state.packages[k].status.NotInstalled?
  }

  ghost predicate Alone(s: Setting) {
    forall k, l :: Standing(s, k) && Standing(s, l) ==> k == l
  }

  ghost predicate SameSlot(s: Setting, p: Package) {
    p.name == s.incoming.name && p.architecture == s.incoming.architecture
  }

  /** Another architecture of the incoming package that cannot be installed beside it. */
  ghost predicate Crossing(s: Setting, r: Record, p: Package) {
    && p.name == s.incoming.name && p.architecture != s.incoming.architecture && !r.status.NotInstalled?
    && !(p.multiArch.Same? && s.incoming.multiArch.Same?)
  }

  /** The row is readable, and what becomes of it is clear. */
  ghost predicate RowReads(s: Setting, k: string)
    requires k in s.state.packages
  {
    var r := s.state.packages[k];
    && k == r.package.package + ":" + r.package.architecture
    && if Mentioned(r) then
         r.status.NotInstalled? && !r.reinstallRequired && r.multiArch in {"", "no"} && r.pending == [] && r.awaited == []
       else
         && k in s.metadata.packages && RetainedReads(s, r, s.metadata.packages[k])
         && ReadAs(r, s.metadata.packages[k]).Ok?
         && var p := ReadAs(r, s.metadata.packages[k]).value;
            && (p.architecture == "all" || p.architecture in s.state.architectures)
            && (Crossing(s, r, p) ==>
                  Alone(s) && ((p.architecture == "all" && s.incoming.architecture == s.native)
                               || (s.incoming.architecture == "all" && p.architecture == s.native)))
            && (SameSlot(s, p) || Crossing(s, r, p) ==> forall i :: 0 <= i < |s.queued| ==> Key(s.queued[i]) != k)
  }

  /** The row stays and is the candidate `c`. */
  ghost predicate Counts(s: Setting, k: string, c: Candidate)
    requires k in s.state.packages
  {
    var r := s.state.packages[k];
    && !Mentioned(r) && k in s.metadata.packages && ReadAs(r, s.metadata.packages[k]).Ok?
    && var m, p := s.metadata.packages[k], ReadAs(r, s.metadata.packages[k]).value;
       && !SameSlot(s, p) && !Crossing(s, r, p)
       && c == Present(p, r.status, m.diskStatus, m.configVersion, m.evidence, exists i :: 0 <= i < |s.queued| && Key(s.queued[i]) == k)
  }

  // ---------------------------------------------------------------------------------------------
  // The two readings agree

  lemma DigestMeans(s: string)
    ensures Reviews.Digest(s) <==> Hexadecimal(s)
  {
    forall c: char
      ensures c in "0123456789abcdef" <==> '0' <= c <= '9' || 'a' <= c <= 'f'
    {
      HexDigitMeans(c);
    }
  }

  lemma HexDigitMeans(c: char)
    ensures c in "0123456789abcdef" <==> '0' <= c <= '9' || 'a' <= c <= 'f'
  {
    var digits := "0123456789abcdef";
    assert '0' <= c <= '9' ==> digits[c as int - 48] == c;
    assert 'a' <= c <= 'f' ==> digits[c as int - 87] == c;
  }

  lemma PrintableMeans(s: string)
    ensures DpkgState.Visible(s) <==> Printable(s)
  {
    if DpkgState.Visible(s) {
      forall k | 0 <= k < |s|
        ensures 33 <= s[k] as int <= 126
      {
        assert ' ' < s[k] < 127 as char;
      }
    }
    if Printable(s) {
      forall k | 0 <= k < |s|
        ensures ' ' < s[k] < 127 as char
      {
        assert 33 <= s[k] as int <= 126;
      }
    }
  }

  lemma RegisteredMeans(architectures: seq<string>, native: string)
    ensures Registered(architectures, native) <==>
            && 1 <= |architectures| <= 256 && architectures[0] == native && Distinct(architectures)
            && forall a :: a in architectures ==> ConcreteArchitecture(a) && a != "all"
  {
    hide ConcreteArchitecture;
    if Registered(architectures, native) {
      forall a | a in architectures
        ensures ConcreteArchitecture(a) && a != "all"
      {
        var i :| 0 <= i < |architectures| && architectures[i] == a;
      }
    }
    if forall a :: a in architectures ==> ConcreteArchitecture(a) && a != "all" {
      forall i | 0 <= i < |architectures|
        ensures architectures[i] != "all" && ConcreteArchitecture(architectures[i])
      {
        assert architectures[i] in architectures;
      }
    }
  }

  lemma QueueMeans(s: Setting)
    ensures QueueFits(s) <==>
            && (forall i :: 0 <= i < |s.queued| ==> InPlace(s.state, s.queued[i]))
            && forall i, j :: 0 <= i < j < |s.queued| ==> Key(s.queued[i]) != Key(s.queued[j])
  {
    hide Key;
    forall g
      ensures QueuedFits(s.state, g) <==> InPlace(s.state, g)
    {
    }
  }

  lemma SettingMeans(s: Setting)
    ensures SettingFits(s).Ok? <==> Belongs(s)
  {
    hide ConcreteArchitecture, Registered, QueueFits, DpkgState.Visible, Printable, InPlace, Distinct;
    PrintableMeans(s.state.identity);
    RegisteredMeans(s.state.architectures, s.native);
    QueueMeans(s);
  }

  lemma {:induction false} NamedNone(s: Setting, order: seq<string>)
    ensures NamedAmong(s, order) == 0 <==> forall k :: k in order ==> !Standing(s, k)
  {
    hide Standing;
    if |order| > 0 {
      NamedNone(s, order[..|order| - 1]);
      NamedIsStanding(s, order[|order| - 1]);
      assert order == order[..|order| - 1] + [order[|order| - 1]];
    }
  }

  lemma NamedIsStanding(s: Setting, k: string)
    ensures NamedInstance(s, k) <==> Standing(s, k)
  {
  }

  lemma {:induction false} NamedCounts(s: Setting, order: seq<string>)
    requires forall i, j :: 0 <= i < j < |order| ==> order[i] != order[j]
    ensures NamedAmong(s, order) <= 1 <==> forall k, l :: k in order && l in order && Standing(s, k) && Standing(s, l) ==> k == l
  {
    hide Standing, NamedInstance;
    if |order| > 0 {
      var front, last := order[..|order| - 1], order[|order| - 1];
      NamedCounts(s, front);
      NamedNone(s, front);
      NamedIsStanding(s, last);
      assert order == front + [last];
      if NamedAmong(s, front) > 0 && Standing(s, last) {
        var k :| k in front && Standing(s, k);
        assert k in order && last in order && k != last;
      }
    }
  }

  lemma RetainedMeans(s: Setting, r: Record, m: Retained)
    ensures RetainedFits(r, m) && ControlsFit(s, r, m) <==> RetainedReads(s, r, m)
  {
    hide Version;
    DigestMeans(m.evidence);
  }

  lemma RecordMeans(s: Setting, named: nat, k: string)
    requires k in s.state.packages && (named <= 1 <==> Alone(s))
    ensures RecordAdmitted(s, named, k).Ok? <==> RowReads(s, k)
    ensures RecordAdmitted(s, named, k).Ok? ==> forall c :: RecordAdmitted(s, named, k).value == Some(c) <==> Counts(s, k, c)
  {
    hide PackageOf, Alone, RetainedFits, ControlsFit, RetainedReads;
    var r := s.state.packages[k];
    if k in s.metadata.packages { RetainedMeans(s, r, s.metadata.packages[k]); }
    if k in s.metadata.packages && ReadAs(r, s.metadata.packages[k]).Ok? {
      var m := s.metadata.packages[k];
      ReplacedMeans(s, named, r, ReadAs(r, m).value);
    }
  }

  lemma ReplacedMeans(s: Setting, named: nat, r: Record, p: Package)
    requires named <= 1 <==> Alone(s)
    ensures Replaced(s, named, r, p) ==
            if SameSlot(s, p) then Ok(true)
            else if !Crossing(s, r, p) then Ok(false)
            else if Alone(s) && ((p.architecture == "all" && s.incoming.architecture == s.native)
                                 || (s.incoming.architecture == "all" && p.architecture == s.native)) then Ok(true)
            else Err(UnsupportedUse, 0)
  {
    hide Alone;
  }

  /** Rows become candidates, or the whole is refused, exactly as written out above. */
  lemma AdmissionMeans(s: Setting, order: seq<string>)
    requires Enumerates(order, s.state.packages)
    ensures Admission(s, order).Ok? <==>
            && Belongs(s) && (forall k :: k in s.state.packages ==> RowReads(s, k))
            && forall k :: k in s.metadata.packages ==> k in s.state.packages && !Mentioned(s.state.packages[k])
    ensures Admission(s, order).Ok? ==>
              forall c :: c in Admission(s, order).value <==> exists k :: k in s.state.packages && Counts(s, k, c)
  {
    hide RecordAdmitted, RowReads, Counts, SettingFits, Belongs, NamedAmong, Standing;
    SettingMeans(s);
    NamedCounts(s, order);
    assert Alone(s) <==> NamedAmong(s, order) <= 1 by {
      assert forall k :: Standing(s, k) ==> k in order by { StandingListed(s, order); }
    }
    var named := NamedAmong(s, order);
    forall k | k in s.state.packages
      ensures RecordAdmitted(s, named, k).Ok? <==> RowReads(s, k)
      ensures RecordAdmitted(s, named, k).Ok? ==> forall c :: RecordAdmitted(s, named, k).value == Some(c) <==> Counts(s, k, c)
    {
      RecordMeans(s, named, k);
    }
    FromMeans(s, named, order);
    if AdmittedFrom(s, named, order).Ok? {
      AdmittedExactly(s, named, order);
    }
  }

  lemma StandingListed(s: Setting, order: seq<string>)
    requires Enumerates(order, s.state.packages)
    ensures forall k :: Standing(s, k) ==> k in order
  {
  }

  lemma {:induction false} FromMeans(s: Setting, named: nat, order: seq<string>)
    requires forall k :: k in order ==> k in s.state.packages
    ensures AdmittedFrom(s, named, order).Ok? <==> forall k :: k in order ==> RecordAdmitted(s, named, k).Ok?
  {
    hide RecordAdmitted;
    if |order| > 0 {
      FromMeans(s, named, order[..|order| - 1]);
      assert order == order[..|order| - 1] + [order[|order| - 1]];
    }
  }
}
