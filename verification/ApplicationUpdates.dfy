/**
 * Exactly which updates of applications are accepted, and which are refused because a deployed package
 * has the application as a member or a deployment profile refers to a profile that would go.
 */
module ApplicationUpdates {
  import opened Prelude
  import opened Text
  import opened Tables
  import opened Diff
  import opened Catalog
  import opened Invariants
  import opened Conditions
  import opened Acceptance
  import Runs
  import M = MapOrders
  import AI = AppInvariants
  import AO = ApplicationOverwrite
  import P = Packages
  import A = Applications

  // ---------- The parts ----------

  /** The name stands in for an empty display name. */
  predicate TextsAlike(row: ApplicationRow, req: ApplicationRequest) {
    row.displayName == DisplayName(req.name, req.displayName) && row.description == req.description &&
    row.chartName == req.chartName && row.chartVersion == req.chartVersion
  }

  predicate DefaultAlike(row: ApplicationRow, req: ApplicationRequest) {
    req.defaultProfile == if row.defaultProfile.Some? then row.defaultProfile.value else ""
  }

  /** Alike in everything but the validator. */
  predicate TemplateAlike(t: Template, row: Template) {
    t.displayName == row.displayName && t.default == row.default && t.kind == row.kind &&
    t.suggested == row.suggested && t.mandatory == row.mandatory && t.secret == row.secret
  }

  ghost predicate ProfileAlike(p: ProfileRequest, row: ProfileRow) {
    p.displayName == row.displayName && p.description == row.description && p.chartValues == row.chartValues &&
    HeldAlike(row.templates, A.TemplateName, p.templates, A.TemplateName, TemplateAlike)
  }

  /** The first profile that is requested under the name of a stored one is the same. */
  ghost predicate ProfilesAlike(row: ApplicationRow, req: ApplicationRequest) {
    forall n :: n in row.profiles ==> IsKeptAlike(row, req, n)
  }

  ghost predicate IsKeptAlike(row: ApplicationRow, req: ApplicationRequest, n: string)
    requires n in row.profiles
  {
    exists i :: 0 <= i < |req.profiles| && req.profiles[i].name == n &&
                (forall j :: 0 <= j < i ==> req.profiles[j].name != n) && ProfileAlike(req.profiles[i], row.profiles[n])
  }

  ghost predicate Differs(row: ApplicationRow, req: ApplicationRequest) {
    !TextsAlike(row, req) || !ProfilesAlike(row, req) || !DefaultAlike(row, req)
  }

  predicate KindDiffers(row: ApplicationRow, req: ApplicationRequest) {
    req.kind != Unspecified && KindToDb(req.kind) != row.kind
  }

  predicate IgnoredDiffer(row: ApplicationRow, req: ApplicationRequest) {
    req.ignored != [] && (|req.ignored| != |row.ignored| || !(forall r :: r in req.ignored ==> r in row.ignored))
  }

  // ---------- What stands in the way ----------

  ghost predicate IsMemberOfDeployed(db: Db, key: VersionedKey) {
    exists k :: k in db.packages && db.packages[k].isDeployed && key in db.packages[k].applications
  }

  /** A deployment profile of some package refers to the profile. */
  ghost predicate IsReferred(db: Db, key: VersionedKey, n: string) {
    exists k, d :: k in db.packages && d in db.packages[k].profiles &&
                   ProfileLink(key, n) in db.packages[k].profiles[d].links
  }

  predicate IsRequested(ps: seq<ProfileRequest>, n: string) {
    exists i :: 0 <= i < |ps| && ps[i].name == n
  }

  ghost predicate IsUsable(p: ProfileRequest) { IsTrimmed(p.displayName) && TemplatesUsable(p.templates) }

  /** A stored profile that is requested must be requested properly, and one that is not must not be referred to. */
  ghost predicate CanChange(db: Db, key: VersionedKey, ps: seq<ProfileRequest>, n: string) {
    && (forall i :: 0 <= i < |ps| && ps[i].name == n ==> IsUsable(ps[i]))
    && (!IsRequested(ps, n) ==> !IsReferred(db, key, n))
  }

  /** In row order, the first stored profile that cannot be changed is referred to, but not requested. */
  ghost predicate LosesReferred(db: Db, key: VersionedKey, ps: seq<ProfileRequest>, rowOrder: seq<string>) {
    exists i :: 0 <= i < |rowOrder| && !IsRequested(ps, rowOrder[i]) && IsReferred(db, key, rowOrder[i]) &&
                forall j :: 0 <= j < i ==> CanChange(db, key, ps, rowOrder[j])
  }

  function NotStored(names: set<string>, ps: seq<ProfileRequest>): seq<ProfileRequest> {
    if ps == [] then [] else
      var last := |ps| - 1;
      NotStored(names, ps[..last]) + if ps[last].name in names then [] else [ps[last]]
  }

  function InOrder(items: seq<ProfileRequest>, mapOrder: seq<ProfileRequest>): seq<ProfileRequest> {
    if multiset(mapOrder) == multiset(items) then mapOrder else items
  }

  ghost function KeptDisplays(names: set<string>, ps: seq<ProfileRequest>): set<string> {
    set i | 0 <= i < |ps| && ps[i].name in names :: DisplayName(ps[i].name, ps[i].displayName)
  }

  ghost predicate NamesDiffer(ps: seq<ProfileRequest>) {
    forall i, j :: 0 <= i < j < |ps| ==> ps[i].name != ps[j].name
  }

  ghost predicate DisplaysDiffer(ps: seq<ProfileRequest>) {
    forall i, j :: 0 <= i < j < |ps| ==> ToLower(ps[i].displayName) != ToLower(ps[j].displayName)
  }

  ghost predicate CanReconcile(db: Db, key: VersionedKey, row: ApplicationRow, req: ApplicationRequest) {
    var names, ps := row.profiles.Keys, req.profiles;
    && NamesDiffer(ps) && DisplaysDiffer(ps) && (forall n :: n in names ==> CanChange(db, key, ps, n))
    && AppCanBeCreated(names, KeptDisplays(names, ps), InOrder(NotStored(names, ps), req.mapOrder))
  }

  ghost predicate CanAdd(row: ApplicationRow, req: ApplicationRequest) {
    NamesDiffer(req.profiles) &&
    AppCanBeCreated(row.profiles.Keys, AppDisplays(row.profiles), NotStored(row.profiles.Keys, req.profiles))
  }

  ghost predicate CanRewrite(db: Db, key: VersionedKey, row: ApplicationRow, req: ApplicationRequest) {
    && (if ProfilesAlike(row, req) then CanAdd(row, req) else CanReconcile(db, key, row, req))
    && (IgnoredDiffer(row, req) ==> NoDup(req.ignored))
  }

  predicate IsReady(req: ApplicationRequest) {
    (req.profiles != [] ==> req.defaultProfile != "") && IsTrimmed(req.displayName)
  }

  /**
   * The registries exist, a member of a deployed package is the same in texts, chart, default and stored
   * profiles, and unless the kind is all that changes, what is rewritten can be made.
   */
  ghost predicate CanBeUpdated(db: Db, key: VersionedKey, row: ApplicationRow, req: ApplicationRequest) {
    && DefaultIsAmong(req.profiles, A.ProfileName, req.defaultProfile)
    && RegistriesExist(db, key.project, req.helmRegistry, req.imageRegistry)
    && !(Differs(row, req) && IsMemberOfDeployed(db, key))
    && (Differs(row, req) || !KindDiffers(row, req) ==> CanRewrite(db, key, row, req))
  }

  /** A change of a member of a deployed package, or of profiles such that one that is referred to would go. */
  ghost predicate IsProtected(db: Db, key: VersionedKey, row: ApplicationRow, req: ApplicationRequest) {
    && RegistriesExist(db, key.project, req.helmRegistry, req.imageRegistry)
    && ((Differs(row, req) && IsMemberOfDeployed(db, key)) ||
        (!ProfilesAlike(row, req) && NamesDiffer(req.profiles) && DisplaysDiffer(req.profiles) &&
         LosesReferred(db, key, req.profiles, req.rowOrder)))
  }

  // ---------- The comparison ----------

  lemma ProfileAlikeIff(p: ProfileRequest, row: ProfileRow)
    ensures A.SameProfile(p, row) <==> ProfileAlike(p, row)
  {
    hide HeldAlike, Unchanged;
    UnchangedIff(row.templates, A.TemplateName, p.templates, A.TemplateName, A.SameTemplate);
    SameTests(row.templates, A.TemplateName, p.templates, A.TemplateName, A.SameTemplate, TemplateAlike);
  }

  lemma FirstNamed(ps: seq<ProfileRequest>, n: string) returns (i: nat)
    requires Named(ps, A.ProfileName, n)
    ensures i < |ps| && ps[i].name == n && forall j :: 0 <= j < i ==> ps[j].name != n
  {
    i := 0;
    var k :| 0 <= k < |ps| && A.ProfileName(ps[k]) == n;
    while ps[i].name != n
      invariant 0 <= i <= k && forall j :: 0 <= j < i ==> ps[j].name != n
      decreases k - i
    {
      i := i + 1;
    }
  }

  lemma ProfilesIff(row: ApplicationRow, req: ApplicationRequest)
    ensures A.ProfilesChanged(row, req) <==> !ProfilesAlike(row, req)
  {
    hide A.SameProfile, ProfileAlike;
    var ps := req.profiles;
    forall i | 0 <= i < |ps| && ps[i].name in row.profiles
      ensures A.SameProfile(ps[i], row.profiles[ps[i].name]) <==> ProfileAlike(ps[i], row.profiles[ps[i].name])
      ensures IsNew(row.profiles, ps, A.ProfileName, i) <==> exists j :: 0 <= j < i && ps[j].name == ps[i].name
    {
      ProfileAlikeIff(ps[i], row.profiles[ps[i].name]);
    }
    if !A.ProfilesChanged(row, req) {
      forall n | n in row.profiles
        ensures IsKeptAlike(row, req, n)
      {
        var i := FirstNamed(ps, n);
        assert !IsNew(row.profiles, ps, A.ProfileName, i);
      }
    }
    if ProfilesAlike(row, req) {
      forall n | n in row.profiles
        ensures Named(ps, A.ProfileName, n)
      {
        assert IsKeptAlike(row, req, n);
        var i :| 0 <= i < |ps| && ps[i].name == n;
        assert A.ProfileName(ps[i]) == n;
      }
      forall i | 0 <= i < |ps| && !IsNew(row.profiles, ps, A.ProfileName, i)
        ensures A.SameProfile(ps[i], row.profiles[A.ProfileName(ps[i])])
      {
        assert IsKeptAlike(row, req, ps[i].name);
      }
    }
  }

  lemma IgnoredIff(row: ApplicationRow, req: ApplicationRequest)
    ensures A.IgnoredChanged(row, req) <==> IgnoredDiffer(row, req)
  {
    if IgnoredDiffer(row, req) && |req.ignored| == |row.ignored| {
      var r :| r in req.ignored && r !in row.ignored;
      var i :| 0 <= i < |req.ignored| && req.ignored[i] == r;
    }
  }

  /** The change flags of an update, by the stored row and the request. */
  lemma ChangesIff(row: ApplicationRow, req: ApplicationRequest)
    requires KindFits(row.kind) && row.defaultProfile != Some("")
    ensures var ch := A.ApplicationChanges(row, A.Normalized(row, req));
            && (ch.kind <==> KindDiffers(row, req)) && (ch.rootRecord <==> !TextsAlike(row, req))
            && (ch.profiles <==> !ProfilesAlike(row, req)) && (ch.profile <==> !DefaultAlike(row, req))
            && (ch.ignored <==> IgnoredDiffer(row, req)) && (ch.Changed() <==> Differs(row, req))
            && (!ch.profiles ==> ch.newProfiles == NewItems(row.profiles, req.profiles, A.ProfileName))
  {
    hide A.ProfilesChanged, A.IgnoredChanged, ProfilesAlike, IgnoredDiffer, NewItems;
    var normal := A.Normalized(row, req);
    ProfilesIff(row, normal);
    IgnoredIff(row, normal);
    SameLists(row, req, normal);
  }

  lemma SameLists(row: ApplicationRow, req: ApplicationRequest, req': ApplicationRequest)
    requires req'.profiles == req.profiles && req'.ignored == req.ignored
    ensures ProfilesAlike(row, req') <==> ProfilesAlike(row, req)
    ensures IgnoredDiffer(row, req') <==> IgnoredDiffer(row, req)
  {
    hide ProfileAlike;
    forall n | n in row.profiles
      ensures IsKeptAlike(row, req', n) <==> IsKeptAlike(row, req, n)
    {
    }
  }

  // ---------- The profiles ----------

  lemma DistinctIff(ps: seq<ProfileRequest>)
    ensures DistinctNames(ps, A.ProfileName) <==> NamesDiffer(ps)
    ensures DistinctNames(ps, A.LowerDisplay) <==> DisplaysDiffer(ps)
  {
    if DistinctNames(ps, A.ProfileName) {
      forall i, j | 0 <= i < j < |ps|
        ensures ps[i].name != ps[j].name
      {
        assert A.ProfileName(ps[i]) != A.ProfileName(ps[j]);
      }
    }
    if DistinctNames(ps, A.LowerDisplay) {
      forall i, j | 0 <= i < j < |ps|
        ensures ToLower(ps[i].displayName) != ToLower(ps[j].displayName)
      {
        assert A.LowerDisplay(ps[i]) != A.LowerDisplay(ps[j]);
      }
    }
  }

  lemma {:induction false} NewAreNotStored(stored: A.Profiles, ps: seq<ProfileRequest>)
    requires DistinctNames(ps, A.ProfileName)
    ensures NewItems(stored, ps, A.ProfileName) == NotStored(stored.Keys, ps)
  {
    if ps != [] {
      var last := |ps| - 1;
      forall i, j | 0 <= i < j < last
        ensures A.ProfileName(ps[..last][i]) != A.ProfileName(ps[..last][j])
      {
        assert A.ProfileName(ps[i]) != A.ProfileName(ps[j]);
      }
      NewAreNotStored(stored, ps[..last]);
    }
  }

  lemma CreatedDiffer(names: set<string>, shown: set<string>, s: seq<ProfileRequest>)
    requires AppCanBeCreated(names, shown, s)
    ensures DistinctNames(s, A.ProfileName) && forall p :: p in s ==> A.ProfileName(p) !in names
  {
    hide TemplatesUsable, NotShown, AppShownBefore;
    forall i | 0 <= i < |s|
      ensures A.ProfileName(s[i]) !in names && forall j :: 0 <= j < i ==> A.ProfileName(s[j]) != A.ProfileName(s[i])
    {
      assert AppCanFollow(names, shown, s, i);
    }
  }

  lemma AddedIff(row: ApplicationRow, req: ApplicationRequest)
    ensures A.InjectProfiles(row.profiles, NewItems(row.profiles, req.profiles, A.ProfileName)).Ok? <==>
            CanAdd(row, req)
  {
    hide A.InjectProfiles, AppCanBeCreated, NewItems, NotStored, NamesDiffer;
    var items := NewItems(row.profiles, req.profiles, A.ProfileName);
    AppCreatedIff(row.profiles, items);
    DistinctIff(req.profiles);
    if NamesDiffer(req.profiles) {
      NewAreNotStored(row.profiles, req.profiles);
    } else if A.InjectProfiles(row.profiles, items).Ok? {
      CreatedDiffer(row.profiles.Keys, AppDisplays(row.profiles), items);
      RepeatedIsNew(row.profiles, req.profiles, A.ProfileName);
    }
  }

  lemma RequestedIff(ps: seq<ProfileRequest>, n: string)
    requires DistinctNames(ps, A.ProfileName)
    ensures A.Requested(ps, n).Some? <==> IsRequested(ps, n)
    ensures forall i :: 0 <= i < |ps| && ps[i].name == n ==> A.Requested(ps, n) == Some(ps[i])
  {
    var r := A.Requested(ps, n);
    if r.Some? {
      assert A.ProfileName(r.value) == n;
      var i :| 0 <= i < |ps| && ps[i] == r.value;
    }
    forall i | 0 <= i < |ps| && ps[i].name == n
      ensures r == Some(ps[i])
    {
      AI.RequestedIsTheOne(ps, i);
    }
  }

  /** What stands in the way of one stored profile. */
  lemma ObstacleIff(db: Db, key: VersionedKey, ps: seq<ProfileRequest>, n: string)
    requires DistinctNames(ps, A.ProfileName)
    ensures A.ProfileObstacle(db, key, ps, n).None? <==> CanChange(db, key, ps, n)
    ensures A.ProfileObstacle(db, key, ps, n) == Some(FailedPrecondition) <==>
            !IsRequested(ps, n) && IsReferred(db, key, n)
  {
    hide A.Requested, A.TemplatesFit, TemplatesUsable;
    RequestedIff(ps, n);
    forall i | 0 <= i < |ps|
      ensures A.TemplatesFit(ps[i].templates) <==> TemplatesUsable(ps[i].templates)
    {
      TemplatesUsableIff(ps[i].templates);
    }
    assert A.Linked(db, key, n) <==> IsReferred(db, key, n);
  }

  lemma {:induction false} FirstObstacleIff(db: Db, key: VersionedKey, ps: seq<ProfileRequest>, rowOrder: seq<string>)
    requires DistinctNames(ps, A.ProfileName)
    ensures A.FirstObstacle(db, key, ps, rowOrder) == Some(FailedPrecondition) <==> LosesReferred(db, key, ps, rowOrder)
  {
    hide A.ProfileObstacle, CanChange, IsRequested, IsReferred;
    if rowOrder != [] {
      var n, rest := rowOrder[0], rowOrder[1..];
      ObstacleIff(db, key, ps, n);
      FirstObstacleIff(db, key, ps, rest);
      if LosesReferred(db, key, ps, rowOrder) {
        var i :| 0 <= i < |rowOrder| && !IsRequested(ps, rowOrder[i]) && IsReferred(db, key, rowOrder[i]) &&
            forall j :: 0 <= j < i ==> CanChange(db, key, ps, rowOrder[j]);
        if i > 0 {
          assert rest[i - 1] == rowOrder[i] && CanChange(db, key, ps, rowOrder[0]);
          assert forall j :: 0 <= j < i - 1 ==> rest[j] == rowOrder[j + 1];
        }
      }
      if CanChange(db, key, ps, n) && LosesReferred(db, key, ps, rest) {
        var i :| 0 <= i < |rest| && !IsRequested(ps, rest[i]) && IsReferred(db, key, rest[i]) &&
            forall j :: 0 <= j < i ==> CanChange(db, key, ps, rest[j]);
        assert rowOrder[i + 1] == rest[i];
        assert forall j :: 0 <= j < i + 1 ==> j == 0 || rowOrder[j] == rest[j - 1];
      }
    }
  }

  lemma KeptShow(stored: A.Profiles, ps: seq<ProfileRequest>)
    requires DistinctNames(ps, A.ProfileName)
    ensures var kept := A.KeptProfiles(stored, ps);
            kept.Keys <= stored.Keys && AppDisplays(kept) == KeptDisplays(stored.Keys, ps)
  {
    hide A.Requested;
    var kept := A.KeptProfiles(stored, ps);
    forall n | n in stored
      ensures n in kept <==> IsRequested(ps, n)
      ensures forall i :: 0 <= i < |ps| && ps[i].name == n ==>
                kept[n].displayName == DisplayName(ps[i].name, ps[i].displayName)
    {
      RequestedIff(ps, n);
    }
    forall d | d in AppDisplays(kept)
      ensures d in KeptDisplays(stored.Keys, ps)
    {
      var n :| n in kept && kept[n].displayName == d;
      var i :| 0 <= i < |ps| && ps[i].name == n;
    }
    forall d | d in KeptDisplays(stored.Keys, ps)
      ensures d in AppDisplays(kept)
    {
      var i :| 0 <= i < |ps| && ps[i].name in stored && d == DisplayName(ps[i].name, ps[i].displayName);
      assert IsRequested(ps, ps[i].name);
    }
  }

  lemma OtherNamesDoNotMatter(names: set<string>, names': set<string>, shown: set<string>, s: seq<ProfileRequest>)
    requires forall i :: 0 <= i < |s| ==> s[i].name !in names && s[i].name !in names'
    ensures AppCanBeCreated(names, shown, s) <==> AppCanBeCreated(names', shown, s)
  {
    hide TemplatesUsable, NotShown, AppShownBefore;
    forall i | 0 <= i < |s|
      ensures AppCanFollow(names, shown, s, i) <==> AppCanFollow(names', shown, s, i)
    {
    }
  }

  lemma ReconciledIff(db: Db, key: VersionedKey, row: ApplicationRow, req: ApplicationRequest)
    requires A.IsOrderOf(req.rowOrder, row.profiles.Keys)
    ensures var r := A.UpdateProfiles(db, key, row.profiles, req.profiles, req.mapOrder, req.rowOrder);
            && (r.Ok? <==> CanReconcile(db, key, row, req))
            && (r == Err(FailedPrecondition) <==>
                NamesDiffer(req.profiles) && DisplaysDiffer(req.profiles) &&
                    LosesReferred(db, key, req.profiles, req.rowOrder))
            && r != Err(NotFound)
  {
    hide A.InjectProfiles, AppCanBeCreated, NewItems, NotStored, NamesDiffer, DisplaysDiffer, A.ProfileObstacle;
    hide KeptDisplays, AppDisplays, A.FirstObstacle, LosesReferred, CanChange, A.KeptProfiles;
    var stored, ps := row.profiles, req.profiles;
    DistinctIff(ps);
    if NamesDiffer(ps) && DisplaysDiffer(ps) {
      A.NoObstacle(db, key, stored, ps, req.rowOrder);
      forall n
        ensures A.ProfileObstacle(db, key, ps, n).None? <==> CanChange(db, key, ps, n)
      {
        ObstacleIff(db, key, ps, n);
      }
      FirstObstacleIff(db, key, ps, req.rowOrder);
      ObstacleErrors(db, key, ps, req.rowOrder);
      var kept, s := A.KeptProfiles(stored, ps), A.ProfilesToCreate(stored, ps, req.mapOrder);
      KeptShow(stored, ps);
      AppCreatedIff(kept, s);
      InjectErrors(kept, s);
      NewAreNotStored(stored, ps);
      assert s == InOrder(NotStored(stored.Keys, ps), req.mapOrder);
      M.AppOrderedItems(stored, ps, s);
      OtherNamesDoNotMatter(kept.Keys, stored.Keys, AppDisplays(kept), s);
    }
  }

  lemma {:induction false} ObstacleErrors(db: Db, key: VersionedKey, ps: seq<ProfileRequest>, rowOrder: seq<string>)
    ensures A.FirstObstacle(db, key, ps, rowOrder) != Some(NotFound)
  {
    if rowOrder != [] {
      ObstacleErrors(db, key, ps, rowOrder[1..]);
    }
  }

  lemma {:induction false} InjectErrors(base: A.Profiles, ps: seq<ProfileRequest>)
    ensures A.InjectProfiles(base, ps) != Err(FailedPrecondition) && A.InjectProfiles(base, ps) != Err(NotFound)
  {
    hide A.MakeProfile, A.ProfileDisplayTaken, A.TemplatesFit;
    if ps != [] {
      InjectErrors(base, ps[..|ps| - 1]);
    }
  }

  // ---------- The whole update ----------

  lemma AppliedProfilesIff(db: Db, key: VersionedKey, row: ApplicationRow, req: ApplicationRequest)
    requires KindFits(row.kind) && row.defaultProfile != Some("") && A.IsOrderOf(req.rowOrder, row.profiles.Keys)
    ensures var ch, r := A.ApplicationChanges(row, A.Normalized(row, req)),
            A.ApplyProfiles(db, key, row, A.Normalized(row, req), A.ApplicationChanges(row, A.Normalized(row, req)));
            && (r.Ok? <==> if ProfilesAlike(row, req) then CanAdd(row, req) else CanReconcile(db, key, row, req))
            && (r == Err(FailedPrecondition) <==>
                !ProfilesAlike(row, req) && NamesDiffer(req.profiles) && DisplaysDiffer(req.profiles) &&
                    LosesReferred(db, key, req.profiles, req.rowOrder))
            && r != Err(NotFound)
            && (r.Ok? ==> forall n :: n in r.value <==> Named(req.profiles, A.ProfileName, n))
  {
    hide A.UpdateProfiles, A.InjectProfiles, ProfilesAlike, CanAdd, CanReconcile, LosesReferred, NewItems, Named;
    hide A.ApplicationChanges, A.IsOrderOf;
    ChangesIff(row, req);
    ReconciledIff(db, key, row, req);
    AddedIff(row, req);
    InjectErrors(row.profiles, NewItems(row.profiles, req.profiles, A.ProfileName));
    var ch := A.ApplicationChanges(row, A.Normalized(row, req));
    var r := A.ApplyProfiles(db, key, row, A.Normalized(row, req), ch);
    if r.Ok? {
      if ch.profiles {
        AI.ReconciliationReplaces(db, key, row.profiles, req.profiles, req.mapOrder, req.rowOrder, r.value);
      } else {
        AI.InjectedNames(row.profiles, ch.newProfiles, r.value);
        NewItemsNames(row.profiles, req.profiles, A.ProfileName);
        AlikeAreNamed(row, req);
      }
    }
  }

  lemma AlikeAreNamed(row: ApplicationRow, req: ApplicationRequest)
    requires ProfilesAlike(row, req)
    ensures forall n :: n in row.profiles ==> Named(req.profiles, A.ProfileName, n)
  {
    hide ProfileAlike;
    forall n | n in row.profiles
      ensures Named(req.profiles, A.ProfileName, n)
    {
      assert IsKeptAlike(row, req, n);
      var i :| 0 <= i < |req.profiles| && req.profiles[i].name == n;
      assert A.ProfileName(req.profiles[i]) == n;
    }
  }

  lemma AmongIff(ps: seq<ProfileRequest>, default: string)
    requires ps != [] ==> default != ""
    ensures DefaultIsAmong(ps, A.ProfileName, default) <==> default == "" || Named(ps, A.ProfileName, default)
  {
  }

  lemma AlikeDefaultIsAmong(row: ApplicationRow, req: ApplicationRequest)
    requires DefaultFits(row.profiles.Keys, row.defaultProfile) && row.defaultProfile != Some("")
    requires ProfilesAlike(row, req) && DefaultAlike(row, req) && (req.profiles != [] ==> req.defaultProfile != "")
    ensures DefaultIsAmong(req.profiles, A.ProfileName, req.defaultProfile)
  {
    AlikeAreNamed(row, req);
    AmongIff(req.profiles, req.defaultProfile);
  }

  lemma AppliedIff(db: Db, key: VersionedKey, row: ApplicationRow, req: ApplicationRequest)
    requires KindFits(row.kind) && row.defaultProfile != Some("") && DefaultFits(row.profiles.Keys, row.defaultProfile)
    requires A.IsOrderOf(req.rowOrder, row.profiles.Keys) && (req.profiles != [] ==> req.defaultProfile != "")
    requires A.FindRegistries(db, key.project, A.Normalized(row, req)).Ok?
    ensures var normal := A.Normalized(row, req);
            var r := A.ApplyChanges(db, key, row, normal, A.ApplicationChanges(row, normal),
                A.FindRegistries(db, key.project, normal).value);
            && (r.Ok? <==>
                CanRewrite(db, key, row, req) && DefaultIsAmong(req.profiles, A.ProfileName, req.defaultProfile))
            && (r == Err(FailedPrecondition) <==>
                !ProfilesAlike(row, req) && NamesDiffer(req.profiles) && DisplaysDiffer(req.profiles) &&
                    LosesReferred(db, key, req.profiles, req.rowOrder))
            && r != Err(NotFound)
  {
    hide A.ApplyProfiles, ProfilesAlike, CanAdd, CanReconcile, LosesReferred, Named, A.ApplicationChanges, A.IsOrderOf;
    hide DefaultIsAmong, NamesDiffer, DisplaysDiffer, IgnoredDiffer, A.FindRegistries;
    ChangesIff(row, req);
    AppliedProfilesIff(db, key, row, req);
    AmongIff(req.profiles, req.defaultProfile);
    if ProfilesAlike(row, req) && DefaultAlike(row, req) {
      AlikeDefaultIsAmong(row, req);
    }
  }

  lemma NormalRegistries(db: Db, project: string, row: ApplicationRow, req: ApplicationRequest)
    ensures A.FindRegistries(db, project, A.Normalized(row, req)).Ok? <==>
            RegistriesExist(db, project, req.helmRegistry, req.imageRegistry)
    ensures var r := A.FindRegistries(db, project, A.Normalized(row, req)); r.Err? ==> r.error == InvalidArgument
  {
    RegistriesExistIff(db, project, A.Normalized(row, req));
  }

  lemma UpdatedRowIff(db: Db, key: VersionedKey, row: ApplicationRow, req: ApplicationRequest)
    requires ApplicationFits(db, key, row) && !A.DisplayTaken(db, "", A.Normalized(row, req))
    requires A.IsOrderOf(req.rowOrder, row.profiles.Keys) && (req.profiles != [] ==> req.defaultProfile != "")
    ensures var r := A.UpdateRow(db, key.project, key, row, A.Normalized(row, req));
            && (r.Ok? <==> CanBeUpdated(db, key, row, req))
            && (r == Err(FailedPrecondition) <==> IsProtected(db, key, row, req))
            && r != Err(NotFound)
  {
    hide A.ApplyChanges, ProfilesAlike, CanRewrite, LosesReferred, A.ApplicationChanges, A.IsOrderOf, A.DisplayTaken;
    hide DefaultIsAmong, NamesDiffer, DisplaysDiffer, A.FindRegistries, RegistriesExist, ApplicationFits, KindDiffers;
    RowFits(db, key, row);
    NormalRegistries(db, key.project, row, req);
    ChangesIff(row, req);
    if A.FindRegistries(db, key.project, A.Normalized(row, req)).Ok? {
      AppliedIff(db, key, row, req);
      if !Differs(row, req) {
        AlikeDefaultIsAmong(row, req);
      }
    }
    assert A.InDeployedPackage(db, key) <==> IsMemberOfDeployed(db, key);
  }

  lemma RowFits(db: Db, key: VersionedKey, row: ApplicationRow)
    requires ApplicationFits(db, key, row)
    ensures KindFits(row.kind) && row.defaultProfile != Some("") && DefaultFits(row.profiles.Keys, row.defaultProfile)
  {
    if row.defaultProfile.Some? {
      assert ValidName(row.defaultProfile.value);
    }
  }

  /** What an admissible call does with the outcome for the stored row. */
  lemma CallUpdates(db: Db, active: string, req: ApplicationRequest)
    requires Admissible(ChangeApplication(req.name, req.version, req))
    ensures var key, r := VersionedKey(ActiveProject(active), req.name, req.version),
            Call(db, active, ChangeApplication(req.name, req.version, req));
            && (!IsReady(req) ==> r == Err(InvalidArgument))
            && (IsReady(req) && key !in db.applications ==> r == Err(NotFound))
            && (IsReady(req) && key in db.applications ==>
                  var row := db.applications[key];
                  var r' := A.UpdateRow(db, key.project, key, row, A.Normalized(row, req));
                  && (r.Ok? <==> r'.Ok?) && (r'.Err? ==> r == Err(r'.error)))
  {
    hide A.ValidApplication, A.UpdateRow, A.CascadeProfiles, P.CreatePackage, P.UpdatePackage, A.CreateApplication,
         A.DeleteApplication;
  }

  /**
   * In every reachable state, an update of an application by an admissible request, for an order in
   * which the database may return the stored profiles, is accepted, refused as a change of something
   * protected, or not found, exactly as the stored rows and the request say.
   */
  lemma ApplicationUpdateOutcome(db: Db, active: string, req: ApplicationRequest)
    requires Reachable(db) && Admissible(ChangeApplication(req.name, req.version, req))
    requires var key := VersionedKey(ActiveProject(active), req.name, req.version);
             key in db.applications ==> A.IsOrderOf(req.rowOrder, db.applications[key].profiles.Keys)
    ensures var key, r := VersionedKey(ActiveProject(active), req.name, req.version),
            Call(db, active, ChangeApplication(req.name, req.version, req));
            && (r.Ok? <==>
                IsReady(req) && key in db.applications && CanBeUpdated(db, key, db.applications[key], req))
            && (r == Err(FailedPrecondition) <==>
                IsReady(req) && key in db.applications && IsProtected(db, key, db.applications[key], req))
            && (r == Err(NotFound) <==> IsReady(req) && key !in db.applications)
  {
    hide Reachable, Inv, ApplicationFits, Call, Admissible, A.UpdateRow, CanBeUpdated, IsProtected, A.DisplayTaken;
    hide A.IsOrderOf;
    var key := VersionedKey(ActiveProject(active), req.name, req.version);
    Runs.EveryReachableStateFits(db);
    CallUpdates(db, active, req);
    if key in db.applications && IsReady(req) {
      var row := db.applications[key];
      NoApplicationInTheEmptyProject(db, A.Normalized(row, req));
      FitsAt(db, key);
      UpdatedRowIff(db, key, row, req);
    }
  }

  lemma FitsAt(db: Db, key: VersionedKey)
    requires Inv(db) && key in db.applications
    ensures ApplicationFits(db, key, db.applications[key])
  {
  }

  lemma NoApplicationInTheEmptyProject(db: Db, req: ApplicationRequest)
    requires Inv(db)
    ensures !A.DisplayTaken(db, "", req)
  {
    forall k | k in db.applications
      ensures k.project != ""
    {
      assert ApplicationFits(db, k, db.applications[k]);
    }
  }

  /** An accepted update stores the requested texts, chart and default; an unspecified kind stays as it is. */
  lemma UpdatedRootIsStored(db: Db, active: string, req: ApplicationRequest)
    requires Reachable(db) && Call(db, active, ChangeApplication(req.name, req.version, req)).Ok?
    ensures var key := VersionedKey(ActiveProject(active), req.name, req.version);
            var db' := After(db, active, ChangeApplication(req.name, req.version, req));
            && key in db.applications && key in db'.applications
            && var row' := db'.applications[key];
               && TextsAlike(row', req) && DefaultAlike(row', req)
               && row'.kind == if req.kind == Unspecified then db.applications[key].kind else KindToDb(req.kind)
  {
    hide Reachable, Inv, ApplicationFits, A.UpdateApplication, A.UpdateRow, P.CreatePackage, P.UpdatePackage;
    hide A.CreateApplication, A.DeleteApplication;
    var key := VersionedKey(ActiveProject(active), req.name, req.version);
    var db' := After(db, active, ChangeApplication(req.name, req.version, req));
    Runs.EveryReachableStateFits(db);
    AI.UpdateApplicationParts(db, key.project, req, db');
    var row := db.applications[key];
    FitsAt(db, key);
    RowFits(db, key, row);
    AO.RootIsOverwritten(db, key.project, key, row, A.Normalized(row, req), db'.applications[key]);
    EveryReachableRowFits(db, active, req);
  }

  lemma EveryReachableRowFits(db: Db, active: string, req: ApplicationRequest)
    requires Reachable(db)
    requires VersionedKey(ActiveProject(active), req.name, req.version) in
               After(db, active, ChangeApplication(req.name, req.version, req)).applications
    ensures var row' := After(db, active, ChangeApplication(req.name, req.version, req)).applications[
                VersionedKey(ActiveProject(active), req.name, req.version)];
            row'.defaultProfile != Some("")
  {
    hide Reachable, Inv, ApplicationFits, Call, After;
    var op := ChangeApplication(req.name, req.version, req);
    var db', key := After(db, active, op), VersionedKey(ActiveProject(active), req.name, req.version);
    AfterIsReachable(db, active, op);
    Runs.EveryReachableStateFits(db');
    FitsAt(db', key);
    RowFits(db', key, db'.applications[key]);
  }
}
