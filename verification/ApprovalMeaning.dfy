/**
 * What an approval must look like, read off the actions of its review: no index, and every limit,
 * status and kind of action named.
 */
module ApprovalMeaning {
  import opened Text
  import opened Characters
  import opened Packages
  import opened BinaryRelationships
  import opened RelationshipMatching
  import opened DpkgState
  import opened Reviews
  import opened DeconfigurationEffects
  import opened DeconfigurationApproval
  import opened DerivationMeaning
  import DeconfigurationMeaning

  // ---------------------------------------------------------------------------------------------
  // The review

  ghost predicate Valid(p: Instance) {
    Name(p.package) && Version(p.version) && ConcreteArchitecture(p.architecture)
  }

  /** Bounded and bound, with each action, generation and archive handled once. */
  ghost predicate ReviewStands(review: Review) {
    && review.bound && review.bounded && 1 <= |review.actions| <= 4096 && |review.archives| <= 4096
    && ArchivesTold(review.archives) && (forall x :: x in review.archives ==> Valid(x.package))
    && ActionsTold(review) && AllUsed(review)
    && (forall p, q :: 0 <= p < q < |review.actions| && review.actions[p].action == review.actions[q].action ==>
          review.actions[p].package != review.actions[q].package)
    && (forall p, q :: 0 <= p < q < |review.actions| && review.actions[p].action.Unpack? && review.actions[q].action.Unpack? ==>
          review.actions[p].archive != review.actions[q].archive)
  }

  lemma ShapedActionMeans(review: Review, a: ReviewedAction)
    ensures ActionShaped(review, a) <==> Primary(review, a)
  {
    hide PackageValid, Name, Version, ConcreteArchitecture;
    PrimaryMeans(review, a);
    assert ActionShaped(review, a) <==> PrimaryAction(review, a);
  }

  lemma ShapedArchivesMean(archives: seq<Archive>)
    ensures ArchivesShaped(archives) <==> ArchivesTold(archives) && forall x :: x in archives ==> Valid(x.package)
  {
    hide IdentityToken, Name, Version, ConcreteArchitecture, ArchivesTold;
    ArchivesMean(archives);
    forall p
      ensures PackageValid(p) <==> Valid(p)
    {
    }
    hide PackageValid, Valid;
    if ArchivesDistinct(archives) && forall x :: x in archives ==> Valid(x.package) {
      forall a | 0 <= a < |archives|
        ensures PackageValid(archives[a].package)
      {
        assert archives[a] in archives;
      }
    }
  }

  lemma ApartMeans(review: Review)
    requires forall p :: 0 <= p < |review.actions| ==> PackageValid(review.actions[p].package)
    ensures (forall p, q :: 0 <= p < q < |review.actions| ==> ActionsApart(review.actions[p], review.actions[q])) <==>
            && (forall p, q :: 0 <= p < q < |review.actions| ==> review.actions[p].identifier != review.actions[q].identifier)
            && (forall p, q :: 0 <= p < q < |review.actions| && review.actions[p].action == review.actions[q].action ==>
                  review.actions[p].package != review.actions[q].package)
            && (forall p, q :: 0 <= p < q < |review.actions| && review.actions[p].action.Unpack? && review.actions[q].action.Unpack? ==>
                  review.actions[p].archive != review.actions[q].archive)
  {
    hide PackageValid, Generation;
    var actions := review.actions;
    forall p, q | 0 <= p < q < |actions|
      ensures Generation(actions[p].package) == Generation(actions[q].package) <==> actions[p].package == actions[q].package
    {
      if Generation(actions[p].package) == Generation(actions[q].package) { GenerationInjective(actions[p].package, actions[q].package); }
    }
  }

  lemma ReviewMeans(review: Review)
    ensures ReviewShaped(review) <==> ReviewStands(review)
  {
    hide ArchivesShaped, ArchivesTold, ActionShaped, Primary, ActionsApart, ArchivesUsed, AllUsed, Valid;
    ShapedArchivesMean(review.archives);
    UsedMeans(review);
    forall a
      ensures ActionShaped(review, a) <==> Primary(review, a)
      ensures ActionShaped(review, a) ==> PackageValid(a.package)
    {
      ShapedActionMeans(review, a);
      if ActionShaped(review, a) { ShapedValid(review, a); }
    }
    assert (forall p :: 0 <= p < |review.actions| ==> ActionShaped(review, review.actions[p])) <==>
           forall a :: a in review.actions ==> ActionShaped(review, a);
    if forall p :: 0 <= p < |review.actions| ==> ActionShaped(review, review.actions[p]) { ApartMeans(review); }
  }

  lemma ShapedValid(review: Review, a: ReviewedAction)
    requires ActionShaped(review, a)
    ensures PackageValid(a.package)
  {
  }

  // ---------------------------------------------------------------------------------------------
  // Causes and endpoint

  /** The identifier is that of the `p`-th action. */
  ghost predicate Identifies(actions: seq<ReviewedAction>, id: nat, p: nat) {
    p < |actions| && actions[p].identifier == id
  }

  /** A Breaks cause quotes a canonical field and a place in it. */
  ghost predicate Quotes(c: Cause, installed: Instance) {
    var field := FieldOf(Breaks, c.canonicalRelation);
    && field.Ok? && field.value.canonical == c.canonicalRelation
    && c.group < |field.value.groups| && c.alternative < |field.value.groups[c.group]|
    && (c.provide.Direct? ==> c.comparedVersion == installed.version)
  }

  ghost predicate Parts(c: Cause, a: ReviewedAction, installed: Instance) {
    && c.canonicalRelation == "" && c.group == 0 && c.alternative == 0 && c.provide.Direct?
    && c.comparedVersion == installed.version
    && a.package.package == installed.package && a.package.architecture != installed.architecture
  }

  ghost predicate CauseStands(actions: seq<ReviewedAction>, installed: Instance, c: Cause, p: nat) {
    && Identifies(actions, c.unpackAction, p) && actions[p].action.Unpack? && actions[p].archive == c.archive
    && c.group < 4096 && c.alternative < 16384 && (c.provide.Provided? ==> c.provide.index < 4096)
    && (c.comparedVersion == "" || Version(c.comparedVersion))
    && (c.kind.BreaksCause? ==> Quotes(c, installed))
    && (c.kind.SiblingVersionMismatch? ==> Parts(c, actions[p], installed))
  }

  ghost predicate SamePlace(b: Cause, c: Cause) {
    b.unpackAction == c.unpackAction && b.kind == c.kind && b.group == c.group && b.alternative == c.alternative && b.provide == c.provide
  }

  /** Causes in the order of their unpacks, no place twice. */
  ghost predicate CausesStand(actions: seq<ReviewedAction>, installed: Instance, causes: seq<Cause>) {
    && (forall c :: c in causes ==> exists p :: CauseStands(actions, installed, c, p))
    && (forall c, d, p, q ::
          (0 <= c < d < |causes| && Identifies(actions, causes[c].unpackAction, p) && Identifies(actions, causes[d].unpackAction, q)) ==> p <= q)
    && (forall c, d :: 0 <= c < d < |causes| ==> !SamePlace(causes[c], causes[d]))
  }

  /** The endpoint is the `e`-th action, after the last cause, on what was unpacked since or else on the installed package. */
  ghost predicate EndpointStands(actions: seq<ReviewedAction>, installed: Instance, last: nat, endpoint: Endpoint, e: nat) {
    && Identifies(actions, endpoint.action, e) && last < e
    && Closes(actions[e], Slotted(installed)) && actions[e].action == endpoint.kind && actions[e].package == endpoint.package
    && After(actions, e, Slotted(installed), endpoint.precedingUnpack)
    && (NoUnpack(actions, e, Slotted(installed)) ==> endpoint.package == installed)
    && (forall u: nat :: UnpackedBefore(actions, e, Slotted(installed), u) ==> last < u && actions[u].package == endpoint.package)
  }

  ghost predicate AllowanceStands(actions: seq<ReviewedAction>, g: string, a: Allowance) {
    && Valid(a.installed) && g == DeconfigurationMeaning.Label(a.installed)
    && DeconfigurationMeaning.Running(a.initialStatus) && DeconfigurationMeaning.Running(a.diskStatus)
    && (a.configVersion == "" || Version(a.configVersion))
    && Hexadecimal(a.installedControlIdentity) && Hexadecimal(a.installedScriptsIdentity)
    && a.causes != [] && CausesStand(actions, a.installed, a.causes)
    && exists p, e :: Identifies(actions, a.causes[|a.causes| - 1].unpackAction, p)
                      && EndpointStands(actions, a.installed, p, a.endpoint, e)
  }

  ghost predicate Told(actions: seq<ReviewedAction>) {
    && (forall p, q :: 0 <= p < q < |actions| ==> actions[p].identifier != actions[q].identifier)
    && (forall p :: 0 <= p < |actions| ==> actions[p].identifier > 0)
  }

  /** What an index knows, without the index. */
  lemma IndexMeans(actions: seq<ReviewedAction>, index: map<nat, Located>, id: nat)
    requires Told(actions) && Indexes(actions, |actions|, index)
    ensures id in index <==> exists p :: Identifies(actions, id, p)
    ensures forall p :: Identifies(actions, id, p) ==> id in index && index[id] == LocatedAt(actions, p)
  {
    hide LocatedAt;
    forall p: nat | Identifies(actions, id, p)
      ensures id in index && index[id] == LocatedAt(actions, p)
    {
      assert actions[p].identifier in index;
      assert index[id].position == p;
    }
    if id in index { assert Identifies(actions, id, index[id].position); }
  }

  lemma CauseMeans(actions: seq<ReviewedAction>, index: map<nat, Located>, installed: Instance, c: Cause)
    requires Told(actions) && Indexes(actions, |actions|, index)
    ensures CauseShaped(index, installed, c) <==> exists p :: CauseStands(actions, installed, c, p)
  {
    hide FieldOf, Version, Indexes, LocatedAt, Told;
    IndexMeans(actions, index, c.unpackAction);
    if p :| Identifies(actions, c.unpackAction, p) {
      LocatedPosition(actions, p);
      forall q | Identifies(actions, c.unpackAction, q)
        ensures q == p
      {
        LocatedPosition(actions, q);
      }
      assert CauseShaped(index, installed, c) <==> CauseStands(actions, installed, c, p);
    }
  }

  lemma PositionMeans(actions: seq<ReviewedAction>, index: map<nat, Located>, c: Cause, p: nat)
    requires Told(actions) && Indexes(actions, |actions|, index) && Identifies(actions, c.unpackAction, p)
    ensures PositionOf(index, c) == p
  {
    hide Indexes, LocatedAt, Told;
    IndexMeans(actions, index, c.unpackAction);
    LocatedPosition(actions, p);
  }

  lemma CausesMean(actions: seq<ReviewedAction>, index: map<nat, Located>, installed: Instance, causes: seq<Cause>)
    requires Told(actions) && Indexes(actions, |actions|, index)
    ensures CausesShaped(index, installed, causes) <==> CausesStand(actions, installed, causes)
  {
    hide Told, Indexes, CauseShaped, CauseStands, Identifies, PositionOf;
    forall c
      ensures CauseShaped(index, installed, c) <==> exists p :: CauseStands(actions, installed, c, p)
      ensures forall p :: CauseStands(actions, installed, c, p) ==> Identifies(actions, c.unpackAction, p)
      ensures forall p :: Identifies(actions, c.unpackAction, p) ==> PositionOf(index, c) == p
    {
      CauseMeans(actions, index, installed, c);
      forall p | CauseStands(actions, installed, c, p)
        ensures Identifies(actions, c.unpackAction, p)
      {
        StandsIdentifies(actions, installed, c, p);
      }
      forall p | Identifies(actions, c.unpackAction, p)
        ensures PositionOf(index, c) == p
      {
        PositionMeans(actions, index, c, p);
      }
    }
    if forall c :: c in causes ==> exists p :: CauseStands(actions, installed, c, p) {
      forall c | 0 <= c < |causes|
        ensures CauseShaped(index, installed, causes[c])
        ensures exists p :: Identifies(actions, causes[c].unpackAction, p)
      {
        assert causes[c] in causes;
        var p :| CauseStands(actions, installed, causes[c], p);
        assert Identifies(actions, causes[c].unpackAction, p);
      }
    }
  }

  lemma StandsIdentifies(actions: seq<ReviewedAction>, installed: Instance, c: Cause, p: nat)
    requires CauseStands(actions, installed, c, p)
    ensures Identifies(actions, c.unpackAction, p)
  {
  }

  // ---------------------------------------------------------------------------------------------
  // The endpoint

  lemma PrecedingMeans(actions: seq<ReviewedAction>, e: nat, k: string)
    requires e <= |actions| && Told(actions)
    ensures NoUnpack(actions, e, k) ==> PrecedingUnpack(actions, e, k) == 0
    ensures forall u: nat :: UnpackedBefore(actions, e, k, u) ==>
              PrecedingUnpack(actions, e, k) == actions[u].identifier && actions[u].identifier != 0 && actions[u].action == Unpack
    ensures NoUnpack(actions, e, k) || exists u: nat :: UnpackedBefore(actions, e, k, u)
  {
    hide LastUnpack, NoUnpack;
    LastUnpackMeans(actions, e, k);
    var u := LastUnpack(actions, e, k);
    assert u < e ==> UnpackedBefore(actions, e, k, u);
  }

  lemma LocatedIs(actions: seq<ReviewedAction>, p: nat)
    requires p < |actions|
    ensures LocatedAt(actions, p).action == actions[p] && LocatedAt(actions, p).position == p
    ensures LocatedAt(actions, p).precedingUnpack == PrecedingUnpack(actions, p, Key(actions[p].package))
  {
  }

  /** What an index says about the unpack before the endpoint. */
  lemma ReplacedMeans(actions: seq<ReviewedAction>, index: map<nat, Located>, installed: Instance, last: nat, endpoint: Endpoint, e: nat)
    requires Told(actions) && Indexes(actions, |actions|, index) && e <= |actions|
    requires endpoint.precedingUnpack == PrecedingUnpack(actions, e, Slotted(installed))
    ensures (if endpoint.precedingUnpack != 0 then
               && endpoint.precedingUnpack in index && index[endpoint.precedingUnpack].action.action == Unpack
               && index[endpoint.precedingUnpack].position > last && index[endpoint.precedingUnpack].action.package == endpoint.package
             else endpoint.package == installed) <==>
            && (NoUnpack(actions, e, Slotted(installed)) ==> endpoint.package == installed)
            && (forall u: nat :: UnpackedBefore(actions, e, Slotted(installed), u) ==> last < u && actions[u].package == endpoint.package)
  {
    hide Told, Indexes, LocatedAt, NoUnpack, UnpackedBefore, PrecedingUnpack, Slotted;
    var k := Slotted(installed);
    PrecedingMeans(actions, e, k);
    UnpackedOnce(actions, e, k);
    if u: nat :| UnpackedBefore(actions, e, k, u) {
      assert u < |actions| by { UnpackedWithin(actions, e, k, u); }
      assert Identifies(actions, endpoint.precedingUnpack, u);
      IndexMeans(actions, index, endpoint.precedingUnpack);
      LocatedIs(actions, u);
    }
  }

  lemma UnpackedWithin(actions: seq<ReviewedAction>, e: nat, k: string, u: nat)
    requires e <= |actions| && UnpackedBefore(actions, e, k, u)
    ensures u < e
  {
  }

  lemma UnpackedOnce(actions: seq<ReviewedAction>, e: nat, k: string)
    requires e <= |actions|
    ensures forall u: nat, v: nat :: UnpackedBefore(actions, e, k, u) && UnpackedBefore(actions, e, k, v) ==> u == v
    ensures forall u: nat :: UnpackedBefore(actions, e, k, u) ==> !NoUnpack(actions, e, k)
  {
    hide LastUnpack;
    LastUnpackMeans(actions, e, k);
  }

  lemma EndpointMeans(actions: seq<ReviewedAction>, index: map<nat, Located>, installed: Instance, last: nat, endpoint: Endpoint)
    requires Told(actions) && Indexes(actions, |actions|, index)
    ensures EndpointShaped(index, installed, last, endpoint) <==> exists e :: EndpointStands(actions, installed, last, endpoint, e)
  {
    hide Told, Indexes, LocatedAt, NoUnpack, UnpackedBefore, PrecedingUnpack, Slotted, Key, After;
    IndexMeans(actions, index, endpoint.action);
    SlottedMeans(installed);
    if e: nat :| Identifies(actions, endpoint.action, e) {
      LocatedIs(actions, e);
      SlottedMeans(actions[e].package);
      forall f | Identifies(actions, endpoint.action, f)
        ensures f == e
      {
        LocatedIs(actions, f);
      }
      AfterMeans(actions, e, Slotted(installed), endpoint.precedingUnpack);
      if endpoint.precedingUnpack == PrecedingUnpack(actions, e, Slotted(installed)) {
        ReplacedMeans(actions, index, installed, last, endpoint, e);
      }
      assert EndpointShaped(index, installed, last, endpoint) <==> EndpointStands(actions, installed, last, endpoint, e);
    }
  }

  // ---------------------------------------------------------------------------------------------
  // The whole approval

  lemma AllowanceMeans(actions: seq<ReviewedAction>, index: map<nat, Located>, g: string, a: Allowance)
    requires Told(actions) && Indexes(actions, |actions|, index)
    ensures AllowanceShaped(index, g, a) <==> AllowanceStands(actions, g, a)
  {
    hide Told, Indexes, CausesShaped, CausesStand, EndpointShaped, EndpointStands, Name, Version, ConcreteArchitecture, Digest, Hexadecimal, PositionOf,
         CauseStands, Identifies;
    HexMeans(a.installedControlIdentity);
    HexMeans(a.installedScriptsIdentity);
    DeconfigurationMeaning.LabelMeans(a.installed);
    CausesMean(actions, index, a.installed, a.causes);
    if a.causes != [] && CausesStand(actions, a.installed, a.causes) {
      var c := a.causes[|a.causes| - 1];
      LastIdentified(actions, a.installed, a.causes);
      var p :| Identifies(actions, c.unpackAction, p);
      forall q | Identifies(actions, c.unpackAction, q)
        ensures PositionOf(index, c) == q
      {
        PositionMeans(actions, index, c, q);
      }
      EndpointMeans(actions, index, a.installed, p, a.endpoint);
    }
  }

  lemma LastIdentified(actions: seq<ReviewedAction>, installed: Instance, causes: seq<Cause>)
    requires causes != [] && CausesStand(actions, installed, causes)
    ensures var id := causes[|causes| - 1].unpackAction; exists p: nat :: Identifies(actions, id, p)
  {
    hide CauseStands;
    var c := causes[|causes| - 1];
    assert c in causes;
    var p :| CauseStands(actions, installed, c, p);
    StandsIdentifies(actions, installed, c, p);
  }

  lemma {:induction false} IndexThere(actions: seq<ReviewedAction>, n: nat) returns (index: map<nat, Located>)
    requires n <= |actions| && Told(actions)
    ensures Indexes(actions, n, index)
  {
    hide LocatedAt;
    index := map[];
    if n > 0 {
      var front := IndexThere(actions, n - 1);
      DeconfigurationApproval.IndexNext(actions, n - 1, front);
      index := front[actions[n - 1].identifier := LocatedAt(actions, n - 1)];
    }
  }

  ghost predicate SetStands(s: AllowanceSet)
    requires SetOrdered(s)
  {
    && Hexadecimal(s.identity) && Hexadecimal(s.checkpoint) && Hexadecimal(s.authority) && |s.order| <= 4096
    && CauseCount(s, |s.order|) <= 16384 && RelationTotal(s, |s.order|) <= 8388608
    && ReviewStands(s.review) && forall g :: g in s.allowances ==> AllowanceStands(s.review.actions, g, s.allowances[g])
  }

  /** An approval has the required shape exactly when the above holds of it. */
  lemma ApprovalMeans(s: AllowanceSet)
    requires SetOrdered(s)
    ensures SetShaped(s) <==> SetStands(s)
  {
    hide Digest, Hexadecimal, CauseCount, RelationTotal, ReviewShaped, ReviewStands, AllowanceShaped, AllowanceStands, Indexes, SetOrdered;
    HexMeans(s.identity);
    HexMeans(s.checkpoint);
    HexMeans(s.authority);
    ReviewMeans(s.review);
    if ReviewStands(s.review) {
      var actions := s.review.actions;
      ReviewTold(s.review);
      forall index, g | Indexes(actions, |actions|, index) && g in s.allowances
        ensures AllowanceShaped(index, g, s.allowances[g]) <==> AllowanceStands(actions, g, s.allowances[g])
      {
        AllowanceMeans(actions, index, g, s.allowances[g]);
      }
      var index := IndexThere(actions, |actions|);
    }
  }

  lemma ReviewTold(review: Review)
    requires ReviewStands(review)
    ensures Told(review.actions)
  {
    hide Name, Version, ConcreteArchitecture, ArchivesTold, AllUsed;
    forall p | 0 <= p < |review.actions|
      ensures review.actions[p].identifier > 0
    {
      assert review.actions[p] in review.actions;
    }
  }
}
