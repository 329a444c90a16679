/** Exactly which updates of deployment packages are accepted, and which are refused for being deployed. */
module PackageUpdates {
  import opened Prelude
  import opened Text
  import opened Tables
  import opened Diff
  import opened References
  import opened Catalog
  import opened Invariants
  import opened Conditions
  import opened Acceptance
  import opened Comparisons
  import Promises
  import Runs
  import PL = ProfileLinks
  import M = MapOrders
  import P = Packages
  import A = Applications
  import O = Overwrite

  // ---------- What the rewriting asks for ----------

  /** The requested profiles whose names are not stored. */
  function NotStored(names: set<string>, ps: seq<DeploymentProfileRequest>): seq<DeploymentProfileRequest> {
    if ps == [] then [] else
      var last := |ps| - 1;
      NotStored(names, ps[..last]) + if ps[last].name in names then [] else [ps[last]]
  }

  /** In the order of the map, if it is an order of them. */
  function InOrder(items: seq<DeploymentProfileRequest>, mapOrder: seq<DeploymentProfileRequest>)
    : seq<DeploymentProfileRequest>
  {
    if multiset(mapOrder) == multiset(items) then mapOrder else items
  }

  /** What the requested profiles show that are stored already. */
  ghost function KeptDisplays(names: set<string>, ps: seq<DeploymentProfileRequest>): set<string> {
    set i | 0 <= i < |ps| && ps[i].name in names :: DisplayName(ps[i].name, ps[i].displayName)
  }

  ghost predicate NamesDiffer(ps: seq<DeploymentProfileRequest>) {
    forall i, j :: 0 <= i < j < |ps| ==> ps[i].name != ps[j].name
  }

  ghost predicate DisplaysDiffer(ps: seq<DeploymentProfileRequest>) {
    forall i, j :: 0 <= i < j < |ps| ==> ToLower(ps[i].displayName) != ToLower(ps[j].displayName)
  }

  /** The requested profiles that are stored already can be rewritten. */
  ghost predicate StoredFit(db: Db, apps: seq<VersionedKey>, names: set<string>, ps: seq<DeploymentProfileRequest>) {
    forall i :: 0 <= i < |ps| && ps[i].name in names ==> IsTrimmed(ps[i].displayName) && EntriesFit(db, apps, ps[i])
  }

  /** Names and displays differ, the profiles that stay fit, and the others can be created beside them. */
  ghost predicate CanReplaceProfiles(
    db: Db, apps: seq<VersionedKey>, names: set<string>, ps: seq<DeploymentProfileRequest>,
    mapOrder: seq<DeploymentProfileRequest>)
  {
    && NamesDiffer(ps) && DisplaysDiffer(ps)
    && StoredFit(db, apps, names, ps)
    && CanBeCreated(db, apps, names, KeptDisplays(names, ps), InOrder(NotStored(names, ps), mapOrder))
  }

  /** Names differ, and the new profiles can be created beside the stored ones. */
  ghost predicate CanAddProfiles(
    db: Db, apps: seq<VersionedKey>, stored: P.ProfileTable, ps: seq<DeploymentProfileRequest>)
  {
    NamesDiffer(ps) && CanBeCreated(db, apps, stored.Keys, Displays(stored), NotStored(stored.Keys, ps))
  }

  /** The members after the update. */
  function MembersAfter(project: string, row: PackageRow, req: PackageRequest): seq<VersionedKey> {
    if MembersAlike(project, row, req) then row.applications else Keys(project, req.applications)
  }

  /** New members exist, and dependencies and default namespaces, if rewritten, name members. */
  ghost predicate CanMakeMembers(db: Db, project: string, row: PackageRow, req: PackageRequest) {
    var same, apps := MembersAlike(project, row, req), MembersAfter(project, row, req);
    && (!same ==> forall i :: 0 <= i < |apps| ==> apps[i] in db.applications)
    && (!same || DependenciesDiffer(row, req) ==>
          forall i :: 0 <= i < |req.dependencies| ==>
            req.dependencies[i].name != req.dependencies[i].target &&
            HasMember(apps, req.dependencies[i].name) && HasMember(apps, req.dependencies[i].target))
    && (!same || DefaultsDiffer(row, req) ==>
          forall i :: 0 <= i < |req.defaultNamespaces| ==> HasMember(apps, req.defaultNamespaces[i].0))
  }

  /** The stored profiles stay if they and the members are the same, and are rewritten if not. */
  ghost predicate ProfilesStay(project: string, row: PackageRow, req: PackageRequest) {
    MembersAlike(project, row, req) && ProfilesAlike(row, req)
  }

  ghost predicate CanMakeProfiles(db: Db, project: string, row: PackageRow, req: PackageRequest) {
    var apps := MembersAfter(project, row, req);
    if ProfilesStay(project, row, req) then CanAddProfiles(db, apps, row.profiles, req.profiles)
    else CanReplaceProfiles(db, apps, row.profiles.Keys, req.profiles, req.mapOrder)
  }

  /** Each part that is rewritten can be made from the request. */
  ghost predicate CanRewrite(db: Db, project: string, row: PackageRow, req: PackageRequest) {
    && CanMakeMembers(db, project, row, req) && CanMakeProfiles(db, project, row, req)
    && (!ExtensionsAlike(row, req) ==> ExtensionsDiffer(req.extensions))
    && (!ArtifactsAlike(row, req) ==> ArtifactsExist(db, project, req.artifacts))
  }

  /** The request can be read at all: a default is named if there are profiles, and the display name is trimmed. */
  predicate IsReady(req: PackageRequest) {
    (req.profiles != [] ==> req.defaultProfile != "") && IsTrimmed(req.displayName)
  }

  ghost predicate IsFrozen(project: string, row: PackageRow, req: PackageRequest) {
    row.isDeployed && req.isDeployed && PartsDiffer(project, row, req)
  }

  /**
   * Nothing clashes; a package that stays deployed is the same in every part; and unless kind or state
   * is all that changes, what is rewritten can be made.
   */
  ghost predicate CanBeUpdated(db: Db, project: string, row: PackageRow, req: PackageRequest) {
    && DefaultIsAmong(req.profiles, P.ProfileName, req.defaultProfile)
    && !Clashes(row, req) && !IsFrozen(project, row, req)
    && (PartsDiffer(project, row, req) || !KindOrStateDiffers(row, req) ==> CanRewrite(db, project, row, req))
  }

  // ---------- Profiles ----------

  lemma {:induction false} NewAreNotStored(stored: P.ProfileTable, ps: seq<DeploymentProfileRequest>)
    requires DistinctNames(ps, P.ProfileName)
    ensures NewItems(stored, ps, P.ProfileName) == NotStored(stored.Keys, ps)
  {
    if ps != [] {
      var last := |ps| - 1;
      forall i, j | 0 <= i < j < last
        ensures P.ProfileName(ps[..last][i]) != P.ProfileName(ps[..last][j])
      {
        assert P.ProfileName(ps[i]) != P.ProfileName(ps[j]);
      }
      NewAreNotStored(stored, ps[..last]);
    }
  }

  lemma CreatedDiffer(
    db: Db, apps: seq<VersionedKey>, names: set<string>, shown: set<string>, s: seq<DeploymentProfileRequest>)
    requires CanBeCreated(db, apps, names, shown, s)
    ensures DistinctNames(s, P.ProfileName) && forall p :: p in s ==> P.ProfileName(p) !in names
  {
    hide EntriesFit, NotShown, ShownBefore;
    forall i | 0 <= i < |s|
      ensures P.ProfileName(s[i]) !in names && forall j :: 0 <= j < i ==> P.ProfileName(s[j]) != P.ProfileName(s[i])
    {
      assert CanFollow(db, apps, names, shown, s, i);
    }
  }

  lemma DistinctIff(ps: seq<DeploymentProfileRequest>)
    ensures DistinctNames(ps, P.ProfileName) <==> NamesDiffer(ps)
    ensures DistinctNames(ps, P.LowerDisplay) <==> DisplaysDiffer(ps)
  {
    if NamesDiffer(ps) {
      forall i, j | 0 <= i < j < |ps|
        ensures P.ProfileName(ps[i]) != P.ProfileName(ps[j])
      {
      }
    }
    if DistinctNames(ps, P.ProfileName) {
      forall i, j | 0 <= i < j < |ps|
        ensures ps[i].name != ps[j].name
      {
        assert P.ProfileName(ps[i]) != P.ProfileName(ps[j]);
      }
    }
    if DisplaysDiffer(ps) {
      forall i, j | 0 <= i < j < |ps|
        ensures P.LowerDisplay(ps[i]) != P.LowerDisplay(ps[j])
      {
      }
    }
    if DistinctNames(ps, P.LowerDisplay) {
      forall i, j | 0 <= i < j < |ps|
        ensures ToLower(ps[i].displayName) != ToLower(ps[j].displayName)
      {
        assert P.LowerDisplay(ps[i]) != P.LowerDisplay(ps[j]);
      }
    }
  }

  lemma AddedIff(db: Db, apps: seq<VersionedKey>, stored: P.ProfileTable, ps: seq<DeploymentProfileRequest>)
    requires PlainApps(apps)
    ensures P.InjectProfiles(db, apps, stored, NewItems(stored, ps, P.ProfileName)).Ok? <==>
            CanAddProfiles(db, apps, stored, ps)
  {
    hide P.InjectProfiles, CanBeCreated, NewItems, NotStored, NamesDiffer, PlainApps, IsNew;
    CreatedIff(db, apps, stored, NewItems(stored, ps, P.ProfileName));
    DistinctIff(ps);
    if NamesDiffer(ps) {
      NewAreNotStored(stored, ps);
    } else if P.InjectProfiles(db, apps, stored, NewItems(stored, ps, P.ProfileName)).Ok? {
      CreatedDiffer(db, apps, stored.Keys, Displays(stored), NewItems(stored, ps, P.ProfileName));
      RepeatedIsNew(stored, ps, P.ProfileName);
    }
  }

  lemma RequestedIff(ps: seq<DeploymentProfileRequest>, n: string)
    requires DistinctNames(ps, P.ProfileName)
    ensures P.Requested(ps, n).Some? ==>
              exists i :: 0 <= i < |ps| && ps[i].name == n && P.Requested(ps, n) == Some(ps[i])
    ensures forall i :: 0 <= i < |ps| && ps[i].name == n ==> P.Requested(ps, n) == Some(ps[i])
  {
    var r := P.Requested(ps, n);
    if r.Some? {
      assert P.ProfileName(r.value) == n;
      var i :| 0 <= i < |ps| && ps[i] == r.value;
    }
    forall i | 0 <= i < |ps| && ps[i].name == n
      ensures r == Some(ps[i])
    {
      PL.RequestedIsTheOne(ps, i);
    }
  }

  lemma KeptFitIff(db: Db, apps: seq<VersionedKey>, stored: P.ProfileTable, ps: seq<DeploymentProfileRequest>)
    requires PlainApps(apps) && DistinctNames(ps, P.ProfileName)
    ensures (forall n :: n in stored ==> P.KeptFits(db, apps, ps, n)) <==>
            forall i :: 0 <= i < |ps| && ps[i].name in stored ==>
              IsTrimmed(ps[i].displayName) && EntriesFit(db, apps, ps[i])
  {
    hide EntriesFit, P.Resolves, P.Requested;
    forall i | 0 <= i < |ps| && ps[i].name in stored
      ensures P.KeptFits(db, apps, ps, ps[i].name) <==> IsTrimmed(ps[i].displayName) && EntriesFit(db, apps, ps[i])
    {
      RequestedIff(ps, ps[i].name);
      ResolvesIff(db, apps, ps[i]);
    }
    forall n | n in stored
      ensures P.KeptFits(db, apps, ps, n) || exists i :: 0 <= i < |ps| && ps[i].name == n
    {
      RequestedIff(ps, n);
    }
  }

  lemma KeptShow(db: Db, apps: seq<VersionedKey>, stored: P.ProfileTable, ps: seq<DeploymentProfileRequest>)
    requires DistinctNames(ps, P.ProfileName) && forall n :: n in stored ==> P.KeptFits(db, apps, ps, n)
    ensures var kept := P.KeptProfiles(db, apps, stored, ps);
            kept.Keys <= stored.Keys && Displays(kept) == KeptDisplays(stored.Keys, ps)
  {
    hide P.Resolves, P.Requested, P.KeptFits;
    var kept := P.KeptProfiles(db, apps, stored, ps);
    forall n | n in stored
      ensures n in kept <==> exists i :: 0 <= i < |ps| && ps[i].name == n
      ensures forall i :: 0 <= i < |ps| && ps[i].name == n ==>
                kept[n].displayName == DisplayName(ps[i].name, ps[i].displayName)
    {
      RequestedIff(ps, n);
    }
    forall d | d in Displays(kept)
      ensures d in KeptDisplays(stored.Keys, ps)
    {
      var n :| n in kept && kept[n].displayName == d;
      var i :| 0 <= i < |ps| && ps[i].name == n;
    }
  }

  /** Names that none of the profiles has do not stand in the way of creating them. */
  lemma OtherNamesDoNotMatter(
    db: Db, apps: seq<VersionedKey>, names: set<string>, names': set<string>, shown: set<string>,
    s: seq<DeploymentProfileRequest>)
    requires forall i :: 0 <= i < |s| ==> s[i].name !in names && s[i].name !in names'
    ensures CanBeCreated(db, apps, names, shown, s) <==> CanBeCreated(db, apps, names', shown, s)
  {
    hide EntriesFit, NotShown, ShownBefore;
    forall i | 0 <= i < |s|
      ensures CanFollow(db, apps, names, shown, s, i) <==> CanFollow(db, apps, names', shown, s, i)
    {
    }
  }

  lemma ReplacedIff(
    db: Db, apps: seq<VersionedKey>, stored: P.ProfileTable, ps: seq<DeploymentProfileRequest>,
    mapOrder: seq<DeploymentProfileRequest>)
    requires PlainApps(apps)
    ensures P.UpdateProfiles(db, apps, stored, ps, mapOrder).Ok? <==>
            CanReplaceProfiles(db, apps, stored.Keys, ps, mapOrder)
  {
    hide P.InjectProfiles, CanBeCreated, NewItems, NotStored, NamesDiffer, DisplaysDiffer, PlainApps, P.KeptFits;
    hide EntriesFit;
    hide KeptDisplays, Displays;
    DistinctIff(ps);
    if NamesDiffer(ps) && DisplaysDiffer(ps) {
      KeptFitIff(db, apps, stored, ps);
      if forall n :: n in stored ==> P.KeptFits(db, apps, ps, n) {
        var kept := P.KeptProfiles(db, apps, stored, ps);
        var s := P.ProfilesToCreate(stored, ps, mapOrder);
        KeptShow(db, apps, stored, ps);
        CreatedIff(db, apps, kept, s);
        NewAreNotStored(stored, ps);
        assert s == InOrder(NotStored(stored.Keys, ps), mapOrder);
        M.OrderedItems(stored, ps, s);
        M.NotKept(s, stored);
        OtherNamesDoNotMatter(db, apps, kept.Keys, stored.Keys, Displays(kept), s);
      }
    }
  }

  // ---------- The parts ----------

  lemma MembersArePlain(db: Db, project: string, apps: seq<VersionedKey>)
    requires Inv(db) && MembersFit(db, project, apps)
    ensures PlainApps(apps)
  {
    hide Inv, MembersFit;
    Promises.MembersArePlain(db, project, apps);
  }

  lemma AppliedMembersIff(db: Db, project: string, row: PackageRow, req: PackageRequest, ch: P.Changes)
    requires ch.applications <==> !MembersAlike(project, row, req)
    requires ch.dependencies <==> DependenciesDiffer(row, req)
    requires ch.defaultNamespaces <==> DefaultsDiffer(row, req)
    ensures var same, apps, r := MembersAlike(project, row, req), MembersAfter(project, row, req),
            P.ApplyMembers(db, project, row, req, ch);
            && (r.Ok? <==> CanMakeMembers(db, project, row, req))
            && (r.Ok? ==> r.value.applications == if same then apps else Dedup(apps))
            && (r.Err? ==> r.error == InvalidArgument)
  {
    hide P.MakeApplications, P.MakeDependencies, P.MakeAppNamespaces, HasMember, MembersAlike, DependenciesDiffer;
    var apps := MembersAfter(project, row, req);
    var made := if MembersAlike(project, row, req) then apps else Dedup(apps);
    MadeMembersIff(db, project, req.applications);
    MadeDependenciesIff(made, req.dependencies);
    MadeAppNamespacesIff(made, req.defaultNamespaces);
    MembersErrors(db, project, req, made);
    forall n
      ensures HasMember(Dedup(apps), n) <==> HasMember(apps, n)
    {
      HasMemberInDedup(apps, n);
    }
  }

  lemma MembersErrors(db: Db, project: string, req: PackageRequest, apps: seq<VersionedKey>)
    ensures var r := P.MakeApplications(db, project, req.applications); r.Err? ==> r.error == InvalidArgument
    ensures var r := P.MakeDependencies(apps, req.dependencies); r.Err? ==> r.error == InvalidArgument
    ensures var r := P.MakeAppNamespaces(apps, req.defaultNamespaces); r.Err? ==> r.error == InvalidArgument
  {
  }

  lemma {:induction false} InjectErrors(
    db: Db, apps: seq<VersionedKey>, base: P.ProfileTable, ps: seq<DeploymentProfileRequest>)
    ensures P.InjectProfiles(db, apps, base, ps) != Err(FailedPrecondition)
    ensures P.InjectProfiles(db, apps, base, ps) != Err(NotFound)
  {
    hide P.Resolves, P.MakeProfile, P.ProfileDisplayTaken;
    if ps != [] {
      InjectErrors(db, apps, base, ps[..|ps| - 1]);
    }
  }

  /** No part of the rewriting fails with these errors. */
  lemma AppliedErrors(db: Db, project: string, row: PackageRow, req: PackageRequest, ch: P.Changes)
    ensures P.ApplyChanges(db, project, row, req, ch) != Err(FailedPrecondition)
    ensures P.ApplyChanges(db, project, row, req, ch) != Err(NotFound)
  {
    hide P.InjectProfiles, P.MakeApplications, P.MakeDependencies, P.MakeAppNamespaces, P.KeptFits, P.KeptProfiles;
    var members := P.ApplyMembers(db, project, row, req, ch);
    if members.Ok? {
      var apps := members.value.applications;
      MembersErrors(db, project, req, apps);
      AppliedProfileErrors(db, apps, row, req, ch);
    } else {
      MembersMadeErrors(db, project, row, req, ch);
    }
  }

  lemma MembersMadeErrors(db: Db, project: string, row: PackageRow, req: PackageRequest, ch: P.Changes)
    ensures var r := P.ApplyMembers(db, project, row, req, ch); r.Err? ==> r.error == InvalidArgument
  {
  }

  lemma AppliedProfileErrors(
    db: Db, apps: seq<VersionedKey>, row: PackageRow, req: PackageRequest, ch: P.Changes)
    ensures P.ApplyProfiles(db, apps, row, req, ch) != Err(FailedPrecondition)
    ensures P.ApplyProfiles(db, apps, row, req, ch) != Err(NotFound)
  {
    hide P.InjectProfiles, P.KeptFits, P.KeptProfiles, P.ProfilesToCreate;
    InjectErrors(db, apps, row.profiles, ch.newProfiles);
    if forall n :: n in row.profiles ==> P.KeptFits(db, apps, req.profiles, n) {
      InjectErrors(db, apps, P.KeptProfiles(db, apps, row.profiles, req.profiles),
                   P.ProfilesToCreate(row.profiles, req.profiles, req.mapOrder));
    }
  }

  lemma NamedIff(ps: seq<DeploymentProfileRequest>, default: string)
    requires default != ""
    ensures DefaultIsAmong(ps, P.ProfileName, default) <==> Named(ps, P.ProfileName, default)
  {
  }

  lemma AlikeDefaultIsAmong(row: PackageRow, req: PackageRequest)
    requires DefaultFits(row.profiles.Keys, row.defaultProfile) && row.defaultProfile != Some("")
    requires ProfilesAlike(row, req) && DefaultAlike(row, req) && (req.profiles != [] ==> req.defaultProfile != "")
    ensures DefaultIsAmong(req.profiles, P.ProfileName, req.defaultProfile)
  {
    hide ProfileAlike;
    if req.defaultProfile != "" {
      assert IsKeptAlike(row, req, req.defaultProfile);
      var i :| 0 <= i < |req.profiles| && req.profiles[i].name == req.defaultProfile;
      assert P.ProfileName(req.profiles[i]) == req.defaultProfile;
    }
  }

  /** The profile part of an update, with the choice of the default. */
  lemma AppliedProfilesIff(
    db: Db, key: VersionedKey, apps: seq<VersionedKey>, row: PackageRow, req: PackageRequest, ch: P.Changes)
    requires Inv(db) && PackageFits(db, key, row) && MembersFit(db, key.project, apps)
    requires P.ValidPackage(req) && P.PackageChanges(row, req) == Ok(ch)
    requires req.profiles != [] ==> req.defaultProfile != ""
    ensures P.ApplyProfiles(db, apps, row, req, ch).Ok? <==>
            && (if MembersAlike(key.project, row, req) && ProfilesAlike(row, req)
                then CanAddProfiles(db, apps, row.profiles, req.profiles)
                else CanReplaceProfiles(db, apps, row.profiles.Keys, req.profiles, req.mapOrder))
            && DefaultIsAmong(req.profiles, P.ProfileName, req.defaultProfile)
  {
    hide Inv, PackageFits, MembersFit, P.ValidPackage, P.PackageChanges, CanAddProfiles, CanReplaceProfiles;
    hide P.UpdateProfiles, P.InjectProfiles, MembersAlike, ProfilesAlike, DefaultAlike, NewItems, PartsDiffer;
    ChangesIff(db, key, row, req);
    MembersArePlain(db, key.project, apps);
    AddedIff(db, apps, row.profiles, req.profiles);
    ReplacedIff(db, apps, row.profiles, req.profiles, req.mapOrder);
    var t := if ch.profiles || ch.applications
             then P.UpdateProfiles(db, apps, row.profiles, req.profiles, req.mapOrder)
             else P.InjectProfiles(db, apps, row.profiles, ch.newProfiles);
    PartsOf(db, key, row);
    if t.Ok? {
      AppliedTableFits(db, key.project, apps, row, req, ch, t.value);
    }
    if !ch.profile && !ch.profiles {
      AlikeDefaultIsAmong(row, req);
    }
    if req.defaultProfile != "" {
      NamedIff(req.profiles, req.defaultProfile);
    }
  }

  lemma PartsOf(db: Db, key: VersionedKey, row: PackageRow)
    requires PackageFits(db, key, row)
    ensures MembersFit(db, key.project, row.applications) && ProfilesFit(db, key.project, row.profiles)
    ensures DefaultFits(row.profiles.Keys, row.defaultProfile) && row.defaultProfile != Some("")
    ensures KindFits(row.kind)
  {
  }

  /** The rewriting succeeds exactly if each part can be made. */
  lemma AppliedIff(db: Db, key: VersionedKey, row: PackageRow, req: PackageRequest, ch: P.Changes)
    requires Inv(db) && PackageFits(db, key, row) && P.ValidPackage(req) && P.PackageChanges(row, req) == Ok(ch)
    requires req.profiles != [] ==> req.defaultProfile != ""
    ensures P.ApplyChanges(db, key.project, row, req, ch).Ok? <==>
            CanRewrite(db, key.project, row, req) && DefaultIsAmong(req.profiles, P.ProfileName, req.defaultProfile)
  {
    hide Inv, PackageFits, P.ValidPackage, P.PackageChanges, CanAddProfiles, CanReplaceProfiles, PartsDiffer;
    hide P.ApplyMembers, P.ApplyProfiles, MembersAlike, ProfilesAlike, DependenciesDiffer, DefaultsDiffer;
    hide ExtensionsAlike, ArtifactsAlike, ExtensionsDiffer, HasMember, DefaultIsAmong, P.MakeExtensions, MembersFit;
    var project := key.project;
    ChangesIff(db, key, row, req);
    PartsOf(db, key, row);
    AppliedMembersIff(db, project, row, req, ch);
    MadeExtensionsIff(req.extensions);
    var members := P.ApplyMembers(db, project, row, req, ch);
    if members.Ok? {
      var apps := members.value.applications;
      if ch.applications {
        NewMembersFit(db, project, row, req, ch, members.value);
        ReplacedInDedup(db, Keys(project, req.applications), row.profiles.Keys, req.profiles, req.mapOrder);
      }
      AppliedProfilesIff(db, key, apps, row, req, ch);
    }
  }

  lemma NewMembersFit(db: Db, project: string, row: PackageRow, req: PackageRequest, ch: P.Changes, m: P.Members)
    requires P.ApplyMembers(db, project, row, req, ch) == Ok(m) && ch.applications
    ensures MembersFit(db, project, m.applications)
  {
    hide P.MakeApplications, P.MakeDependencies, P.MakeAppNamespaces, MembersFit;
    MadeApplicationsFit(db, project, req.applications);
  }

  lemma ReplacedInDedup(
    db: Db, apps: seq<VersionedKey>, names: set<string>, ps: seq<DeploymentProfileRequest>,
    mapOrder: seq<DeploymentProfileRequest>)
    ensures CanReplaceProfiles(db, Dedup(apps), names, ps, mapOrder) <==>
            CanReplaceProfiles(db, apps, names, ps, mapOrder)
  {
    hide EntriesFit, CanBeCreated, NamesDiffer, DisplaysDiffer;
    CreatedInDedup(db, apps, names, KeptDisplays(names, ps), InOrder(NotStored(names, ps), mapOrder));
    forall i | 0 <= i < |ps|
      ensures EntriesFit(db, Dedup(apps), ps[i]) <==> EntriesFit(db, apps, ps[i])
    {
      EntriesFitInDedup(db, apps, ps[i]);
    }
  }

  // ---------- Outcomes ----------

  lemma UpdatedRowIff(db: Db, key: VersionedKey, row: PackageRow, req: PackageRequest)
    requires Inv(db) && PackageFits(db, key, row) && P.ValidPackage(req) && !P.DisplayTaken(db, "", req)
    requires req.profiles != [] ==> req.defaultProfile != ""
    ensures var r := P.UpdateRow(db, key.project, row, req);
            && (r.Ok? <==> CanBeUpdated(db, key.project, row, req))
            && (r == Err(FailedPrecondition) <==> !Clashes(row, req) && IsFrozen(key.project, row, req))
            && r != Err(NotFound)
            && (r.Ok? && !PartsDiffer(key.project, row, req) && KindOrStateDiffers(row, req) ==>
                r.value == row.(isDeployed := req.isDeployed, kind := KindToDb(req.kind)))
  {
    hide Inv, PackageFits, P.ValidPackage, P.PackageChanges, P.ApplyChanges, PartsDiffer, CanRewrite, Clashes;
    hide KindOrStateDiffers, DefaultIsAmong, P.DisplayTaken;
    ChangesIff(db, key, row, req);
    PartsOf(db, key, row);
    if P.PackageChanges(row, req).Ok? {
      AppliedIff(db, key, row, req, P.PackageChanges(row, req).value);
      AppliedErrors(db, key.project, row, req, P.PackageChanges(row, req).value);
      if !PartsDiffer(key.project, row, req) {
        NothingDiffers(key.project, row, req);
        AlikeDefaultIsAmong(row, req);
      }
    }
  }

  lemma NothingDiffers(project: string, row: PackageRow, req: PackageRequest)
    requires !PartsDiffer(project, row, req)
    ensures ProfilesAlike(row, req) && DefaultAlike(row, req)
  {
    hide ProfilesAlike, DefaultAlike;
  }

  /** What an admissible call does with the outcome for the stored row. */
  lemma CallUpdates(db: Db, active: string, req: PackageRequest)
    requires Admissible(ChangePackage(req.name, req.version, req))
    ensures var key := VersionedKey(ActiveProject(active), req.name, req.version);
            Call(db, active, ChangePackage(req.name, req.version, req)) ==
            if !IsReady(req) then Err(InvalidArgument)
            else if key !in db.packages then Err(NotFound)
            else
              match P.UpdateRow(db, key.project, db.packages[key], req)
              case Ok(row) => Ok(db.(packages := db.packages[key := row]))
              case Err(e) => Err(e)
  {
    hide P.ValidPackage, P.Unambiguous, P.UpdateRow, P.CreatePackage, A.CreateApplication, A.UpdateApplication,
         A.DeleteApplication;
  }

  /**
   * In every reachable state, an update of a deployment package by an admissible request is accepted,
   * refused for being deployed, or not found, exactly as the stored row and the request say.
   */
  lemma PackageUpdateOutcome(db: Db, active: string, req: PackageRequest)
    requires Reachable(db) && Admissible(ChangePackage(req.name, req.version, req))
    ensures var project, r := ActiveProject(active), Call(db, active, ChangePackage(req.name, req.version, req));
            var key := VersionedKey(project, req.name, req.version);
            && (r.Ok? <==> IsReady(req) && key in db.packages && CanBeUpdated(db, project, db.packages[key], req))
            && (r == Err(FailedPrecondition) <==>
                IsReady(req) && key in db.packages && !Clashes(db.packages[key], req) &&
                    IsFrozen(project, db.packages[key], req))
            && (r == Err(NotFound) <==> IsReady(req) && key !in db.packages)
  {
    hide Reachable, Inv, PackageFits, Call, P.ValidPackage, P.Unambiguous, P.UpdateRow, CanBeUpdated, IsFrozen;
    hide Clashes, P.DisplayTaken, IsReady;
    var project := ActiveProject(active);
    var key := VersionedKey(project, req.name, req.version);
    Runs.EveryReachableStateFits(db);
    CallUpdates(db, active, req);
    NoPackageInTheEmptyProject(db, req);
    if key in db.packages && IsReady(req) {
      FitsAt(db, key);
      assert req.profiles != [] ==> req.defaultProfile != "" by { ReadyNamesDefault(req); }
      assert P.ValidPackage(req) by { AdmissibleIsValid(req); }
      UpdatedRowIff(db, key, db.packages[key], req);
    }
  }

  lemma ReadyNamesDefault(req: PackageRequest)
    requires IsReady(req)
    ensures req.profiles != [] ==> req.defaultProfile != ""
  {
  }

  lemma AdmissibleIsValid(req: PackageRequest)
    requires Admissible(ChangePackage(req.name, req.version, req))
    ensures P.ValidPackage(req)
  {
    hide P.ValidPackage, P.Unambiguous;
  }

  lemma NoPackageInTheEmptyProject(db: Db, req: PackageRequest)
    requires Inv(db)
    ensures !P.DisplayTaken(db, "", req)
  {
    forall k | k in db.packages
      ensures k.project != ""
    {
      assert PackageFits(db, k, db.packages[k]);
    }
  }

  lemma FitsAt(db: Db, key: VersionedKey)
    requires Inv(db) && key in db.packages
    ensures PackageFits(db, key, db.packages[key])
  {
  }
}
