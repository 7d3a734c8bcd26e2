/**
 * The independent validator of an approval: the shape of the review, and of each allowance with
 * its ordered causes and its endpoint.
 */
module DeconfigurationApproval {
  import opened Text
  import opened Packages
  import opened BinaryRelationships
  import opened RelationshipMatching
  import opened DpkgState
  import opened Reviews
  import opened DeconfigurationEffects

  const MAXIMUM_APPROVAL_BYTES: nat := 8 * 1024 * 1024

  datatype Located = Located(action: ReviewedAction, position: nat, precedingUnpack: nat)

  // ---------------------------------------------------------------------------------------------
  // The review

  predicate ArchivesShaped(archives: seq<Archive>) {
    && (forall a :: 0 <= a < |archives| ==> IdentityToken(archives[a].identifier) && PackageValid(archives[a].package))
    && (forall a, b :: 0 <= a < b < |archives| ==> archives[a].identifier != archives[b].identifier)
  }

  predicate ActionShaped(review: Review, action: ReviewedAction) {
    && action.identifier != 0 && PackageValid(action.package)
    && action.action != Triggers && action.action != Deconfigure
    && (if action.action == Unpack then
          exists a :: a in review.archives && a.identifier == action.archive && a.package == action.package
        else |action.archive| == 0)
  }

  /** Neither the same action on the same generation, nor the same identifier or archive, twice. */
  predicate ActionsApart(a: ReviewedAction, b: ReviewedAction) {
    && a.identifier != b.identifier
    && !(a.action == b.action && Generation(a.package) == Generation(b.package))
    && !(a.action == Unpack && b.action == Unpack && a.archive == b.archive)
  }

  predicate ReviewShaped(review: Review) {
    && review.bound && review.bounded
    && 0 < |review.actions| <= MAXIMUM_ACTIONS && |review.archives| <= MAXIMUM_ACTIONS
    && ArchivesShaped(review.archives)
    && (forall p :: 0 <= p < |review.actions| ==> ActionShaped(review, review.actions[p]))
    && (forall p, q :: 0 <= p < q < |review.actions| ==> ActionsApart(review.actions[p], review.actions[q]))
    && ArchivesUsed(review)
  }

  function LocatedAt(actions: seq<ReviewedAction>, p: nat): Located
    requires p < |actions|
  {
    Located(actions[p], p, PrecedingUnpack(actions, p, Key(actions[p].package)))
  }

  /** Each action of the review by identifier, with its position and the unpack before it on its slot. */
  predicate Indexes(actions: seq<ReviewedAction>, n: nat, index: map<nat, Located>)
    requires n <= |actions|
  {
    && (forall p :: 0 <= p < n ==> actions[p].identifier in index)
    && (forall id :: id in index ==>
          index[id].position < n && actions[index[id].position].identifier == id
          && index[id] == LocatedAt(actions, index[id].position))
  }

  // ---------------------------------------------------------------------------------------------
  // One allowance

  predicate VersionOrEmpty(s: string) {
    |s| == 0 || Version(s)
  }

  predicate BreaksShaped(c: Cause, installed: Instance) {
    var field := FieldOf(Breaks, c.canonicalRelation);
    && field.Ok? && field.value.canonical == c.canonicalRelation
    && c.group < |field.value.groups| && c.alternative < |field.value.groups[c.group]|
    && (c.provide.Direct? ==> c.comparedVersion == installed.version)
  }

  predicate SiblingShaped(c: Cause, action: ReviewedAction, installed: Instance) {
    && |c.canonicalRelation| == 0 && c.group == 0 && c.alternative == 0 && c.provide.Direct?
    && c.comparedVersion == installed.version
    && action.package.package == installed.package && action.package.architecture != installed.architecture
  }

  predicate CauseShaped(index: map<nat, Located>, installed: Instance, c: Cause) {
    && c.unpackAction in index
    && index[c.unpackAction].action.action == Unpack && index[c.unpackAction].action.archive == c.archive
    && c.group < MAXIMUM_GROUPS && c.alternative < MAXIMUM_ATOMS
    && (c.provide.Provided? ==> c.provide.index < MAXIMUM_GROUPS)
    && VersionOrEmpty(c.comparedVersion)
    && match c.kind
       case BreaksCause => BreaksShaped(c, installed)
       case SiblingVersionMismatch => SiblingShaped(c, index[c.unpackAction].action, installed)
  }

  /** What tells two causes apart. */
  predicate CausesApart(a: Cause, b: Cause) {
    !(a.unpackAction == b.unpackAction && a.kind == b.kind && a.group == b.group
      && a.alternative == b.alternative && a.provide == b.provide)
  }

  function PositionOf(index: map<nat, Located>, c: Cause): nat {
    if c.unpackAction in index then index[c.unpackAction].position else 0
  }

  predicate CausesShaped(index: map<nat, Located>, installed: Instance, causes: seq<Cause>) {
    && (forall c :: 0 <= c < |causes| ==> CauseShaped(index, installed, causes[c]))
    && (forall c, d :: 0 <= c < d < |causes| ==>
          PositionOf(index, causes[c]) <= PositionOf(index, causes[d]) && CausesApart(causes[c], causes[d]))
  }

  predicate EndpointShaped(index: map<nat, Located>, installed: Instance, last: nat, e: Endpoint) {
    && e.action in index && index[e.action].position > last
    && (e.kind == Configure || e.kind == Remove || e.kind == ActionKind.Purge)
    && index[e.action].action.action == e.kind && index[e.action].action.package == e.package
    && Key(e.package) == Key(installed) && e.precedingUnpack == index[e.action].precedingUnpack
    && (if e.precedingUnpack != 0 then
          && e.precedingUnpack in index && index[e.precedingUnpack].action.action == Unpack
          && index[e.precedingUnpack].position > last && index[e.precedingUnpack].action.package == e.package
        else e.package == installed)
  }

  predicate AllowanceShaped(index: map<nat, Located>, generation: string, a: Allowance) {
    && PackageValid(a.installed) && generation == Generation(a.installed)
    && Configured(a.initialStatus) && Configured(a.diskStatus) && VersionOrEmpty(a.configVersion)
    && Digest(a.installedControlIdentity) && Digest(a.installedScriptsIdentity)
    && |a.causes| > 0 && CausesShaped(index, a.installed, a.causes)
    && EndpointShaped(index, a.installed, PositionOf(index, a.causes[|a.causes| - 1]), a.endpoint)
  }

  // ---------------------------------------------------------------------------------------------
  // The whole set

  /** `order` is the order in which the source's map iterates the allowances. */
  datatype AllowanceSet = AllowanceSet(identity: string, checkpoint: string, authority: string, review: Review,
                                       allowances: map<string, Allowance>, order: seq<string>)

  predicate SetOrdered(s: AllowanceSet) {
    && (forall j, k :: 0 <= j < k < |s.order| ==> s.order[j] != s.order[k])
    && (forall g :: g in s.order ==> g in s.allowances) && (forall g :: g in s.allowances ==> g in s.order)
  }

  function RelationBytes(causes: seq<Cause>): nat {
    if |causes| == 0 then 0 else RelationBytes(causes[..|causes| - 1]) + |causes[|causes| - 1].canonicalRelation|
  }

  function CauseCount(s: AllowanceSet, n: nat): nat
    requires SetOrdered(s) && n <= |s.order|
  {
    if n == 0 then 0
    else
      assert s.order[n - 1] in s.order;
      CauseCount(s, n - 1) + |s.allowances[s.order[n - 1]].causes|
  }

  function RelationTotal(s: AllowanceSet, n: nat): nat
    requires SetOrdered(s) && n <= |s.order|
  {
    if n == 0 then 0
    else
      assert s.order[n - 1] in s.order;
      RelationTotal(s, n - 1) + RelationBytes(s.allowances[s.order[n - 1]].causes)
  }

  ghost predicate SetShaped(s: AllowanceSet)
    requires SetOrdered(s)
  {
    && Digest(s.identity) && Digest(s.checkpoint) && Digest(s.authority) && |s.order| <= MAXIMUM_ACTIONS
    && ReviewShaped(s.review)
    && CauseCount(s, |s.order|) <= MAXIMUM_CAUSES && RelationTotal(s, |s.order|) <= MAXIMUM_APPROVAL_BYTES
    && forall index :: Indexes(s.review.actions, |s.review.actions|, index) ==>
         forall g :: g in s.allowances ==> AllowanceShaped(index, g, s.allowances[g])
  }


  // ---------------------------------------------------------------------------------------------
  // The validator

  method CheckShapedArchives(archives: seq<Archive>) returns (ok: bool)
    ensures ok <==> ArchivesShaped(archives)
  {
    hide IdentityToken, PackageValid;
    var seen: set<string> := {};
    for a := 0 to |archives|
      invariant forall b :: 0 <= b < a ==> IdentityToken(archives[b].identifier) && PackageValid(archives[b].package)
      invariant forall b, c :: 0 <= b < c < a ==> archives[b].identifier != archives[c].identifier
      invariant forall id :: id in seen <==> exists b :: 0 <= b < a && archives[b].identifier == id
    {
      if !IdentityToken(archives[a].identifier) { return false; }
      ok := CheckPackage(archives[a].package);
      if !ok || archives[a].identifier in seen { return false; }
      seen := seen + {archives[a].identifier};
    }
    ok := true;
  }

  method CheckShapedAction(review: Review, action: ReviewedAction) returns (ok: bool)
    ensures ok <==> ActionShaped(review, action)
  {
    hide PackageValid;
    if action.identifier == 0 || action.action == Triggers || action.action == Deconfigure { return false; }
    ok := CheckPackage(action.package);
    if !ok { return; }
    if action.action != Unpack { return |action.archive| == 0; }
    for a := 0 to |review.archives|
      invariant forall b :: 0 <= b < a ==>
                  !(review.archives[b].identifier == action.archive && review.archives[b].package == action.package)
    {
      if review.archives[a].identifier == action.archive && review.archives[a].package == action.package { return true; }
    }
    ok := false;
  }

  /** What the first `n` actions leave in the validator's sets and maps. */
  ghost predicate Scanned(actions: seq<ReviewedAction>, n: nat, index: map<nat, Located>, used: set<string>,
                          unique: set<(ActionKind, string)>, unpacked: map<string, nat>)
    requires n <= |actions|
  {
    && Indexes(actions, n, index)
    && (forall id :: id in used <==> exists p :: 0 <= p < n && actions[p].action == Unpack && actions[p].archive == id)
    && (forall k :: k in unique <==> exists p :: 0 <= p < n && k == (actions[p].action, Generation(actions[p].package)))
    && (forall key :: key in unpacked <==> LastUnpack(actions, n, key) < n)
    && (forall key :: key in unpacked ==> unpacked[key] == PrecedingUnpack(actions, n, key))
  }

  lemma UnpackedNext(actions: seq<ReviewedAction>, n: nat, key: string)
    requires n < |actions|
    ensures LastUnpack(actions, n + 1, key) < n + 1 <==> Unpacks(actions[n], key) || LastUnpack(actions, n, key) < n
    ensures PrecedingUnpack(actions, n + 1, key) ==
            if Unpacks(actions[n], key) then actions[n].identifier else PrecedingUnpack(actions, n, key)
  {
    hide Unpacks;
  }

  lemma LocatedPosition(actions: seq<ReviewedAction>, p: nat)
    requires p < |actions|
    ensures LocatedAt(actions, p).position == p && LocatedAt(actions, p).action == actions[p]
  {
  }

  lemma IndexNext(actions: seq<ReviewedAction>, n: nat, index: map<nat, Located>)
    requires n < |actions| && Indexes(actions, n, index) && actions[n].identifier !in index
    ensures Indexes(actions, n + 1, index[actions[n].identifier := LocatedAt(actions, n)])
  {
    hide LocatedAt;
    forall p | 0 <= p < n
      ensures actions[p].identifier != actions[n].identifier
    {
      assert actions[p].identifier in index;
    }
    LocatedPosition(actions, n);
  }

  lemma ScannedNone(actions: seq<ReviewedAction>)
    ensures Scanned(actions, 0, map[], {}, {}, map[])
  {
  }

  lemma ScannedEnd(actions: seq<ReviewedAction>, index: map<nat, Located>, used: set<string>,
                   unique: set<(ActionKind, string)>, unpacked: map<string, nat>)
    requires Scanned(actions, |actions|, index, used, unique, unpacked)
    ensures Indexes(actions, |actions|, index) && forall id :: id in used <==> ArchiveUsed(actions, id)
  {
    hide Generation, LastUnpack, PrecedingUnpack, LocatedAt;
  }

  lemma ApartIs(actions: seq<ReviewedAction>, n: nat, index: map<nat, Located>, used: set<string>,
                unique: set<(ActionKind, string)>, unpacked: map<string, nat>)
    requires n < |actions| && Scanned(actions, n, index, used, unique, unpacked)
    ensures (forall p :: 0 <= p < n ==> ActionsApart(actions[p], actions[n])) <==>
            && (actions[n].action, Generation(actions[n].package)) !in unique && actions[n].identifier !in index
            && !(actions[n].action == Unpack && actions[n].archive in used)
  {
    hide Generation, LastUnpack, PrecedingUnpack, LocatedAt;
    var k := (actions[n].action, Generation(actions[n].package));
    if forall p :: 0 <= p < n ==> ActionsApart(actions[p], actions[n]) {
      assert k !in unique;
    }
  }

  lemma ScannedNext(actions: seq<ReviewedAction>, n: nat, index: map<nat, Located>, used: set<string>,
                    unique: set<(ActionKind, string)>, unpacked: map<string, nat>, preceding: nat)
    requires n < |actions| && Scanned(actions, n, index, used, unique, unpacked)
    requires actions[n].identifier !in index
    requires var key := Key(actions[n].package); preceding == if key in unpacked then unpacked[key] else 0
    ensures var action := actions[n];
            var key := Key(action.package);
            Scanned(actions, n + 1, index[action.identifier := Located(action, n, preceding)],
                    if action.action == Unpack then used + {action.archive} else used,
                    unique + {(action.action, Generation(action.package))},
                    if action.action == Unpack then unpacked[key := action.identifier] else unpacked)
  {
    hide Generation, LastUnpack, Indexes;
    var action := actions[n];
    var key := Key(action.package);
    assert Located(action, n, preceding) == LocatedAt(actions, n);
    IndexNext(actions, n, index);
    forall k
      ensures LastUnpack(actions, n + 1, k) < n + 1 <==> Unpacks(action, k) || LastUnpack(actions, n, k) < n
      ensures PrecedingUnpack(actions, n + 1, k) ==
              if Unpacks(action, k) then action.identifier else PrecedingUnpack(actions, n, k)
    {
      UnpackedNext(actions, n, k);
    }
  }

  method ReviewShape(review: Review) returns (ok: bool, index: map<nat, Located>)
    ensures ok <==> ReviewShaped(review)
    ensures ok ==> Indexes(review.actions, |review.actions|, index)
  {
    hide ActionShaped, ArchivesShaped, ActionsApart, ArchiveUsed, Generation, Key, Indexes, Scanned;
    index := map[];
    if !review.bound || !review.bounded || |review.actions| == 0 || |review.actions| > MAXIMUM_ACTIONS
       || |review.archives| > MAXIMUM_ACTIONS { return false, index; }
    ok := CheckShapedArchives(review.archives);
    if !ok { return; }
    var actions := review.actions;
    var used: set<string>, unique: set<(ActionKind, string)>, unpacked: map<string, nat> := {}, {}, map[];
    ScannedNone(actions);
    for n := 0 to |actions|
      invariant Scanned(actions, n, index, used, unique, unpacked)
      invariant forall p :: 0 <= p < n ==> ActionShaped(review, actions[p])
      invariant forall p, q :: 0 <= p < q < n ==> ActionsApart(actions[p], actions[q])
    {
      var action := actions[n];
      var key, generation := Key(action.package), Generation(action.package);
      ok := CheckShapedAction(review, action);
      if !ok { return; }
      ApartIs(actions, n, index, used, unique, unpacked);
      if (action.action, generation) in unique || action.identifier in index
         || (action.action == Unpack && action.archive in used) {
        return false, index;
      }
      var preceding := if key in unpacked then unpacked[key] else 0;
      ScannedNext(actions, n, index, used, unique, unpacked, preceding);
      unique := unique + {(action.action, generation)};
      index := index[action.identifier := Located(action, n, preceding)];
      if action.action == Unpack {
        used := used + {action.archive};
        unpacked := unpacked[key := action.identifier];
      }
    }
    ScannedEnd(actions, index, used, unique, unpacked);
    for a := 0 to |review.archives|
      invariant forall b :: 0 <= b < a ==> ArchiveUsed(actions, review.archives[b].identifier)
    {
      if review.archives[a].identifier !in used { return false, index; }
    }
    ok := true;
  }

  method ShapeCause(index: map<nat, Located>, installed: Instance, c: Cause) returns (ok: bool)
    ensures ok <==> CauseShaped(index, installed, c)
  {
    hide FieldOf, Version;
    if c.unpackAction !in index { return false; }
    var at := index[c.unpackAction].action;
    if at.action != Unpack || at.archive != c.archive || c.group >= MAXIMUM_GROUPS || c.alternative >= MAXIMUM_ATOMS
       || (c.provide.Provided? && c.provide.index >= MAXIMUM_GROUPS) { return false; }
    if |c.comparedVersion| > 0 {
      ok := IsVersion(c.comparedVersion);
      if !ok { return; }
    }
    if c.kind == SiblingVersionMismatch { return SiblingShaped(c, at, installed); }
    var field := ParseField(Breaks, c.canonicalRelation);
    ok := field.Ok? && field.value.canonical == c.canonicalRelation
          && c.group < |field.value.groups| && c.alternative < |field.value.groups[c.group]|
          && (c.provide.Provided? || c.comparedVersion == installed.version);
  }

  /** The causes in order, each told apart from those before, within what is left of the byte limit. */
  function KeyOf(c: Cause): (nat, CauseKind, nat, nat, Slot) {
    (c.unpackAction, c.kind, c.group, c.alternative, c.provide)
  }

  function CauseKeys(causes: seq<Cause>): set<(nat, CauseKind, nat, nat, Slot)> {
    if |causes| == 0 then {} else CauseKeys(causes[..|causes| - 1]) + {KeyOf(causes[|causes| - 1])}
  }

  lemma {:induction false} CauseKeysExact(causes: seq<Cause>, c: Cause)
    ensures KeyOf(c) in CauseKeys(causes) <==> exists k :: 0 <= k < |causes| && !CausesApart(causes[k], c)
  {
    if |causes| > 0 {
      var front := causes[..|causes| - 1];
      CauseKeysExact(front, c);
      if KeyOf(c) in CauseKeys(front) {
        var k :| 0 <= k < |front| && !CausesApart(front[k], c);
        assert !CausesApart(causes[k], c);
      } else if KeyOf(c) in CauseKeys(causes) {
        assert !CausesApart(causes[|front|], c);
      } else {
        forall k | 0 <= k < |causes|
          ensures CausesApart(causes[k], c)
        {
          assert k < |front| ==> CausesApart(front[k], c);
        }
      }
    }
  }

  lemma RelationNext(causes: seq<Cause>, n: nat)
    requires n < |causes|
    ensures RelationBytes(causes[..n + 1]) == RelationBytes(causes[..n]) + |causes[n].canonicalRelation|
    ensures CauseKeys(causes[..n + 1]) == CauseKeys(causes[..n]) + {KeyOf(causes[n])}
  {
    assert causes[..n + 1][..n] == causes[..n];
  }

  lemma {:induction false} RelationGrows(causes: seq<Cause>, n: nat)
    requires n <= |causes|
    ensures RelationBytes(causes[..n]) <= RelationBytes(causes)
  {
    if n < |causes| {
      RelationGrows(causes[..|causes| - 1], n);
      assert causes[..|causes| - 1][..n] == causes[..n];
    } else {
      assert causes[..n] == causes;
    }
  }

  lemma {:induction false} TotalsGrow(s: AllowanceSet, n: nat, m: nat)
    requires SetOrdered(s) && n <= m <= |s.order|
    ensures CauseCount(s, n) <= CauseCount(s, m) && RelationTotal(s, n) <= RelationTotal(s, m)
  {
    if n < m { TotalsGrow(s, n, m - 1); }
  }

  /** One more cause keeps the order exactly when it comes no earlier and is told apart from all before. */
  lemma ShapedNext(index: map<nat, Located>, installed: Instance, causes: seq<Cause>, n: nat)
    requires n < |causes|
    ensures CausesShaped(index, installed, causes[..n + 1]) <==>
            && CausesShaped(index, installed, causes[..n]) && CauseShaped(index, installed, causes[n])
            && (n > 0 ==> PositionOf(index, causes[n - 1]) <= PositionOf(index, causes[n]))
            && KeyOf(causes[n]) !in CauseKeys(causes[..n])
    ensures CausesShaped(index, installed, causes) ==> CausesShaped(index, installed, causes[..n + 1])
  {
    hide CauseShaped, CausesApart, CauseKeys, KeyOf;
    var all, front, last := causes[..n + 1], causes[..n], causes[n];
    CauseKeysExact(front, last);
    assert all[n] == last && forall k :: 0 <= k < n ==> all[k] == front[k];
    if CausesShaped(index, installed, all) {
      forall c | 0 <= c < n
        ensures CauseShaped(index, installed, front[c]) && CausesApart(front[c], last)
      {
        assert CauseShaped(index, installed, all[c]) && CausesApart(all[c], all[n]);
      }
      forall c, d | 0 <= c < d < n
        ensures PositionOf(index, front[c]) <= PositionOf(index, front[d]) && CausesApart(front[c], front[d])
      {
        assert CausesApart(all[c], all[d]);
      }
      assert CauseShaped(index, installed, all[n]);
      if n > 0 { assert PositionOf(index, all[n - 1]) <= PositionOf(index, all[n]); }
    }
    if CausesShaped(index, installed, front) && CauseShaped(index, installed, last)
       && (n > 0 ==> PositionOf(index, causes[n - 1]) <= PositionOf(index, last)) && KeyOf(last) !in CauseKeys(front) {
      forall c, d | 0 <= c < d < n + 1
        ensures PositionOf(index, all[c]) <= PositionOf(index, all[d]) && CausesApart(all[c], all[d])
      {
        if d < n {
          assert CausesApart(front[c], front[d]);
        } else if c < n - 1 {
          assert PositionOf(index, front[c]) <= PositionOf(index, front[n - 1]);
        }
      }
    }
  }

  lemma IndexUnique(actions: seq<ReviewedAction>, a: map<nat, Located>, b: map<nat, Located>)
    requires Indexes(actions, |actions|, a) && Indexes(actions, |actions|, b)
    requires forall p, q :: 0 <= p < q < |actions| ==> actions[p].identifier != actions[q].identifier
    ensures a == b
  {
    hide LocatedAt;
    forall id
      ensures id in a <==> id in b
      ensures id in a ==> a[id] == b[id]
    {
      if id in a { assert actions[a[id].position].identifier in b; }
      if id in b { assert actions[b[id].position].identifier in a; }
    }
  }

  method ShapeCauses(index: map<nat, Located>, installed: Instance, causes: seq<Cause>, relationBytes: nat)
    returns (ok: bool, total: nat)
    requires relationBytes <= MAXIMUM_APPROVAL_BYTES
    ensures ok <==> CausesShaped(index, installed, causes) && relationBytes + RelationBytes(causes) <= MAXIMUM_APPROVAL_BYTES
    ensures ok ==> total == relationBytes + RelationBytes(causes)
  {
    hide CauseShaped, CausesApart;
    total := relationBytes;
    var lastPosition, first := 0, true;
    var unique: set<(nat, CauseKind, nat, nat, Slot)> := {};
    for n := 0 to |causes|
      invariant CausesShaped(index, installed, causes[..n])
      invariant first <==> n == 0
      invariant n > 0 ==> lastPosition == PositionOf(index, causes[n - 1])
      invariant total == relationBytes + RelationBytes(causes[..n]) <= MAXIMUM_APPROVAL_BYTES
      invariant unique == CauseKeys(causes[..n])
    {
      var c := causes[n];
      ShapedNext(index, installed, causes, n);
      RelationNext(causes, n);
      ok := ShapeCause(index, installed, c);
      if !ok || (!first && PositionOf(index, c) < lastPosition) { return false, total; }
      if |c.canonicalRelation| > MAXIMUM_APPROVAL_BYTES - total {
        RelationGrows(causes, n + 1);
        return false, total;
      }
      total := total + |c.canonicalRelation|;
      if KeyOf(c) in unique { return false, total; }
      unique := unique + {KeyOf(c)};
      lastPosition, first := PositionOf(index, c), false;
    }
    assert causes[..|causes|] == causes;
    ok := true;
  }

  method ShapeEndpoint(index: map<nat, Located>, installed: Instance, last: nat, e: Endpoint) returns (ok: bool)
    ensures ok <==> EndpointShaped(index, installed, last, e)
  {
    hide Key;
    if e.action !in index || index[e.action].position <= last { return false; }
    if e.kind != Configure && e.kind != Remove && e.kind != ActionKind.Purge { return false; }
    var found := index[e.action];
    if found.action.action != e.kind || found.action.package != e.package || Key(e.package) != Key(installed)
       || e.precedingUnpack != found.precedingUnpack { return false; }
    if e.precedingUnpack == 0 { return e.package == installed; }
    if e.precedingUnpack !in index { return false; }
    var unpack := index[e.precedingUnpack];
    ok := unpack.action.action == Unpack && unpack.position > last && unpack.action.package == e.package;
  }

  method ShapeAllowance(index: map<nat, Located>, generation: string, a: Allowance, relationBytes: nat)
    returns (ok: bool, total: nat)
    requires relationBytes <= MAXIMUM_APPROVAL_BYTES
    ensures ok <==> AllowanceShaped(index, generation, a) && relationBytes + RelationBytes(a.causes) <= MAXIMUM_APPROVAL_BYTES
    ensures ok ==> total == relationBytes + RelationBytes(a.causes)
  {
    hide PackageValid, Generation, Version, Digest, CausesShaped, EndpointShaped, RelationBytes;
    total := relationBytes;
    ok := CheckPackage(a.installed);
    if !ok || generation != Generation(a.installed) || !Configured(a.initialStatus) || !Configured(a.diskStatus) {
      return false, total;
    }
    if |a.configVersion| > 0 {
      ok := IsVersion(a.configVersion);
      if !ok { return; }
    }
    if !Digest(a.installedControlIdentity) || !Digest(a.installedScriptsIdentity) || |a.causes| == 0 { return false, total; }
    ok, total := ShapeCauses(index, a.installed, a.causes, relationBytes);
    if !ok { return; }
    ok := ShapeEndpoint(index, a.installed, PositionOf(index, a.causes[|a.causes| - 1]), a.endpoint);
  }

  /** Every check of the set before it is encoded. */
  method Shape(s: AllowanceSet) returns (ok: bool)
    requires SetOrdered(s)
    ensures ok <==> SetShaped(s)
  {
    hide Digest, AllowanceShaped, Indexes, RelationBytes, ArchivesShaped, ActionShaped, ArchivesUsed, Generation;
    if !Digest(s.identity) || !Digest(s.checkpoint) || !Digest(s.authority) || |s.order| > MAXIMUM_ACTIONS { return false; }
    var index;
    ok, index := ReviewShape(s.review);
    if !ok { return; }
    forall other | Indexes(s.review.actions, |s.review.actions|, other)
      ensures other == index
    {
      IndexUnique(s.review.actions, other, index);
    }
    var causes, relationBytes := 0, 0;
    for n := 0 to |s.order|
      invariant causes == CauseCount(s, n) <= MAXIMUM_CAUSES && relationBytes == RelationTotal(s, n) <= MAXIMUM_APPROVAL_BYTES
      invariant forall k :: 0 <= k < n ==> AllowanceShaped(index, s.order[k], s.allowances[s.order[k]])
    {
      assert s.order[n] in s.order;
      var a := s.allowances[s.order[n]];
      TotalsGrow(s, n + 1, |s.order|);
      if |a.causes| > MAXIMUM_CAUSES - causes { return false; }
      ok, relationBytes := ShapeAllowance(index, s.order[n], a, relationBytes);
      if !ok { return; }
      causes := causes + |a.causes|;
    }
    ok := true;
  }
}
