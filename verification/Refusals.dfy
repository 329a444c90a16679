/**
 * With which error a call that creates or updates a deployment package or an application is refused.
 * What is neither accepted nor named here is an invalid argument.
 */
module Refusals {
  import opened Prelude
  import opened Text
  import opened Tables
  import opened Diff
  import opened References
  import opened Catalog
  import opened Invariants
  import opened Conditions
  import opened Acceptance
  import opened Comparisons
  import Runs
  import M = MapOrders
  import PU = PackageUpdates
  import AU = ApplicationUpdates
  import AI = AppInvariants
  import P = Packages
  import A = Applications

  // ---------- New deployment packages ----------

  /** The key is new, and members, dependencies and default namespaces can be made. */
  ghost predicate MembersCanBeAdded(db: Db, project: string, req: PackageRequest) {
    var refs := req.applications;
    && VersionedKey(project, req.name, req.version) !in db.packages
    && (forall i :: 0 <= i < |refs| ==> KeyOf(project, refs[i]) in db.applications)
    && Acceptance.DependenciesFit(refs, req.dependencies)
    && (forall i :: 0 <= i < |req.defaultNamespaces| ==> Lists(refs, req.defaultNamespaces[i].0))
  }

  lemma ShownInDedup(
    db: Db, apps: seq<VersionedKey>, base: P.ProfileTable, s: seq<DeploymentProfileRequest>)
    ensures FirstIsShown(db, Dedup(apps), base, s) <==> FirstIsShown(db, apps, base, s)
  {
    hide CanFollow, ShownByAnother, Displays;
    forall i | 0 <= i < |s|
      ensures CanFollow(db, Dedup(apps), base.Keys, Displays(base), s, i) <==>
              CanFollow(db, apps, base.Keys, Displays(base), s, i)
    {
      FollowsInDedup(db, apps, base.Keys, Displays(base), s, i);
    }
  }

  lemma FollowsInDedup(
    db: Db, apps: seq<VersionedKey>, names: set<string>, shown: set<string>, s: seq<DeploymentProfileRequest>, i: nat)
    requires i < |s|
    ensures CanFollow(db, Dedup(apps), names, shown, s, i) <==> CanFollow(db, apps, names, shown, s, i)
  {
    hide EntriesFit, NotShown, ShownBefore;
    EntriesFitInDedup(db, apps, s[i]);
  }

  lemma ExtensionErrors(exts: seq<ExtensionRequest>)
    ensures P.MakeExtensions(exts) == Err(DatabaseError) <==> !ExtensionsDiffer(exts)
    ensures P.MakeExtensions(exts).Ok? <==> ExtensionsDiffer(exts)
  {
    MadeExtensionsIff(exts);
  }

  /** The errors of a creation, part by part. */
  lemma CreationErrorsOf(db: Db, project: string, req: PackageRequest, apps: seq<VersionedKey>)
    requires var r := P.MakeApplications(db, project, req.applications); r.Ok? ==> r.value == apps
    ensures var r, first := P.CreatePackage(db, project, req),
            !P.NeedsDefault(req) && IsTrimmed(req.displayName);
            var made := && first && !P.DisplayTaken(db, project, req) && P.PackageKey(project, req) !in db.packages
                        && P.MakeApplications(db, project, req.applications).Ok?
                        && P.MakeDependencies(apps, req.dependencies).Ok?
                        && P.MakeAppNamespaces(apps, req.defaultNamespaces).Ok?;
            var profiles := P.InjectProfiles(db, apps, map[], req.profiles);
            var default := profiles.Ok? && (req.defaultProfile != "" ==> req.defaultProfile in profiles.value);
            && (profiles == Err(AlreadyExists) || profiles == Err(InvalidArgument) || profiles.Ok? ==>
                  && (r == Err(AlreadyExists) <==>
                      (first && P.DisplayTaken(db, project, req)) || (made && profiles == Err(AlreadyExists)))
                  && (r == Err(DatabaseError) <==>
                      made && default && P.MakeExtensions(req.extensions) == Err(DatabaseError))
                  && (r.Err? ==> r.error == InvalidArgument || r.error == AlreadyExists || r.error == DatabaseError))
  {
    hide P.DisplayTaken, P.InjectProfiles;
    PartErrors(db, project, req, apps);
    hide P.MakeDependencies, P.MakeAppNamespaces, P.MakeArtifacts, P.MakeExtensions;
  }

  lemma PartErrors(db: Db, project: string, req: PackageRequest, apps: seq<VersionedKey>)
    ensures var r := P.MakeDependencies(apps, req.dependencies); r.Err? ==> r.error == InvalidArgument
    ensures var r := P.MakeAppNamespaces(apps, req.defaultNamespaces); r.Err? ==> r.error == InvalidArgument
    ensures var r := P.MakeArtifacts(db, project, req.artifacts); r.Err? ==> r.error == InvalidArgument
    ensures var r := P.MakeExtensions(req.extensions); r.Err? ==> r.error == DatabaseError
  {
  }

  lemma CreatePackageErrors(db: Db, project: string, req: PackageRequest)
    requires P.ValidPackage(req)
    ensures var r, first := P.CreatePackage(db, project, req),
            (req.profiles != [] ==> req.defaultProfile != "") && IsTrimmed(req.displayName);
            var free := first && NameIsFree(db, project, req.name, req.displayName);
            var keys := Keys(project, req.applications);
            && (r == Err(AlreadyExists) <==>
                || (first && !free)
                || (free && MembersCanBeAdded(db, project, req) && FirstIsShown(db, keys, map[], req.profiles)))
            && (r == Err(DatabaseError) <==>
                && free && MembersCanBeAdded(db, project, req) && CanBeCreated(db, keys, {}, {}, req.profiles)
                && DefaultIsAmong(req.profiles, P.ProfileName, req.defaultProfile) && !ExtensionsDiffer(req.extensions))
            && (r.Err? ==> r.error == InvalidArgument || r.error == AlreadyExists || r.error == DatabaseError)
  {
    hide P.ValidPackage, P.CreatePackage, P.MakeApplications, P.MakeDependencies, P.MakeAppNamespaces;
    hide P.InjectProfiles, P.MakeExtensions, P.DisplayTaken, NameIsFree, CanBeCreated, ExtensionsDiffer;
    hide HasMember, Lists, PlainApps, FirstIsShown;
    NameIsFreeIff(db, project, req);
    var keys := Keys(project, req.applications);
    var apps := Dedup(keys);
    MadeMembersIff(db, project, req.applications);
    CreationErrorsOf(db, project, req, apps);
    MadeDependenciesIff(apps, req.dependencies);
    MadeAppNamespacesIff(apps, req.defaultNamespaces);
    forall n
      ensures HasMember(apps, n) <==> Lists(req.applications, n)
    {
      Acceptance.ListsIff(project, req.applications, n);
    }
    ReferencesArePlain(project, req);
    CreationErrors(db, apps, map[], req.profiles);
    CreatedIff(db, apps, map[], req.profiles);
    var none: P.ProfileTable := map[];
    assert none.Keys == {} && Displays(none) == {};
    CreatedInDedup(db, keys, {}, {}, req.profiles);
    ShownInDedup(db, keys, map[], req.profiles);
    ExtensionErrors(req.extensions);
    if P.InjectProfiles(db, apps, map[], req.profiles).Ok? && req.defaultProfile != "" {
      DefaultIsCreatedIff(db, apps, req.profiles, P.InjectProfiles(db, apps, map[], req.profiles).value,
          req.defaultProfile);
    }
  }

  /**
   * A new package is refused as existing for a display name, its own or that of a profile, which another
   * one shows, and with a database error for extensions that do not differ, after all else fits.
   */
  lemma AddPackageRefusals(db: Db, active: string, req: PackageRequest)
    requires Admissible(AddPackage(req))
    ensures var project, r := ActiveProject(active), Call(db, active, AddPackage(req));
            var ready := PU.IsReady(req);
            var free, keys := NameIsFree(db, project, req.name, req.displayName), Keys(project, req.applications);
            && (r == Err(AlreadyExists) <==>
                ready && (!free ||
                          (MembersCanBeAdded(db, project, req) && FirstIsShown(db, keys, map[], req.profiles))))
            && (r == Err(DatabaseError) <==>
                && ready && free && MembersCanBeAdded(db, project, req)
                && CanBeCreated(db, keys, {}, {}, req.profiles)
                && DefaultIsAmong(req.profiles, P.ProfileName, req.defaultProfile) && !ExtensionsDiffer(req.extensions))
            && (r.Err? ==> r.error == InvalidArgument || r.error == AlreadyExists || r.error == DatabaseError)
  {
    hide P.ValidPackage, P.Unambiguous, P.CreatePackage, P.UpdatePackage, A.CreateApplication, A.UpdateApplication;
    hide A.DeleteApplication, NameIsFree, FirstIsShown, CanBeCreated, MembersCanBeAdded, ExtensionsDiffer;
    CreatePackageErrors(db, ActiveProject(active), req);
  }

  // ---------- New applications ----------

  lemma CreateApplicationErrors(db: Db, project: string, req: ApplicationRequest)
    ensures var r, ready := A.CreateApplication(db, project, req), AU.IsReady(req);
            var free := AppNameIsFree(db, project, req.name, req.displayName);
            var placed := && RegistriesExist(db, project, req.helmRegistry, req.imageRegistry)
                          && VersionedKey(project, req.name, req.version) !in db.applications;
            && (r == Err(AlreadyExists) <==> ready && (!free || (placed && AppFirstIsTaken(map[], req.profiles))))
            && (r == Err(DatabaseError) <==>
                && ready && free && placed && AppCanBeCreated({}, {}, req.profiles)
                && DefaultIsAmong(req.profiles, A.ProfileName, req.defaultProfile) && !NoDup(req.ignored))
            && (r.Err? ==> r.error == InvalidArgument || r.error == AlreadyExists || r.error == DatabaseError)
  {
    hide A.InjectProfiles, A.FindRegistries, AppCanBeCreated, RegistriesExist, AppFirstIsTaken, NoDup;
    RegistriesExistIff(db, project, req);
    var none: A.Profiles := map[];
    assert none.Keys == {} && AppDisplays(none) == {};
    AppCreatedIff(map[], req.profiles);
    AppCreationErrors(map[], req.profiles);
    assert A.DisplayTaken(db, project, req) <==> !AppNameIsFree(db, project, req.name, req.displayName);
    hide A.DisplayTaken, AppNameIsFree;
    if A.InjectProfiles(map[], req.profiles).Ok? && req.defaultProfile != "" {
      AppDefaultIsCreatedIff(req.profiles, A.InjectProfiles(map[], req.profiles).value, req.defaultProfile);
    }
  }

  /**
   * A new application is refused as existing for a display name that is taken, its own or that of a
   * profile, or for a profile name that repeats; ignored resources that repeat are a database error.
   */
  lemma AddApplicationRefusals(db: Db, active: string, req: ApplicationRequest)
    requires Admissible(AddApplication(req))
    ensures var project, r := ActiveProject(active), Call(db, active, AddApplication(req));
            var ready, free := AU.IsReady(req), AppNameIsFree(db, project, req.name, req.displayName);
            var placed := && RegistriesExist(db, project, req.helmRegistry, req.imageRegistry)
                          && VersionedKey(project, req.name, req.version) !in db.applications;
            && (r == Err(AlreadyExists) <==> ready && (!free || (placed && AppFirstIsTaken(map[], req.profiles))))
            && (r == Err(DatabaseError) <==>
                && ready && free && placed && AppCanBeCreated({}, {}, req.profiles)
                && DefaultIsAmong(req.profiles, A.ProfileName, req.defaultProfile) && !NoDup(req.ignored))
            && (r.Err? ==> r.error == InvalidArgument || r.error == AlreadyExists || r.error == DatabaseError)
  {
    hide A.ValidApplication, A.CreateApplication, P.CreatePackage, P.UpdatePackage, A.UpdateApplication;
    hide A.DeleteApplication, AppNameIsFree, AppFirstIsTaken, AppCanBeCreated, NoDup;
    CreateApplicationErrors(db, ActiveProject(active), req);
  }

  // ---------- Updated deployment packages ----------

  /** The requested profiles whose names are not stored, or repeat an earlier one. */
  function NewOrRepeated(names: set<string>, ps: seq<DeploymentProfileRequest>): seq<DeploymentProfileRequest> {
    if ps == [] then [] else
      var last := |ps| - 1;
      NewOrRepeated(names, ps[..last]) +
      if ps[last].name in names && (forall j :: 0 <= j < last ==> ps[j].name != ps[last].name) then [] else [ps[last]]
  }

  lemma {:induction false} NewOrRepeatedIff(stored: P.ProfileTable, ps: seq<DeploymentProfileRequest>)
    ensures NewItems(stored, ps, P.ProfileName) == NewOrRepeated(stored.Keys, ps)
  {
    if ps != [] {
      NewOrRepeatedIff(stored, ps[..|ps| - 1]);
    }
  }

  /** The first profile that cannot follow has a trimmed display name, which something shows. */
  ghost predicate FirstIsShownBeside(
    db: Db, apps: seq<VersionedKey>, names: set<string>, shown: set<string>, s: seq<DeploymentProfileRequest>)
  {
    exists i :: 0 <= i < |s| && IsTrimmed(s[i].displayName) && !NotShown(ShownBefore(shown, s, i), s[i].displayName) &&
                forall j :: 0 <= j < i ==> CanFollow(db, apps, names, shown, s, j)
  }

  lemma ShownBesideIff(
    db: Db, apps: seq<VersionedKey>, names: set<string>, base: P.ProfileTable, s: seq<DeploymentProfileRequest>)
    requires DistinctNames(s, P.ProfileName) && base.Keys <= names && forall p :: p in s ==> p.name !in names
    ensures FirstIsShown(db, apps, base, s) <==> FirstIsShownBeside(db, apps, names, Displays(base), s)
  {
    hide EntriesFit, NotShown, ShownBefore, ShownByAnother, Displays;
    forall i | 0 <= i < |s|
      ensures CanFollow(db, apps, base.Keys, Displays(base), s, i) <==> CanFollow(db, apps, names, Displays(base), s, i)
      ensures ShownByAnother(base, s, i) <==> !NotShown(ShownBefore(Displays(base), s, i), s[i].displayName)
    {
      assert s[i] in s && s[i].name !in names;
      OtherIsShownIff(base, s, i);
    }
    hide CanFollow;
  }

  lemma OtherIsShownIff(base: P.ProfileTable, s: seq<DeploymentProfileRequest>, i: nat)
    requires i < |s| && DistinctNames(s, P.ProfileName) && s[i].name !in base
    ensures ShownByAnother(base, s, i) <==> !NotShown(ShownBefore(Displays(base), s, i), s[i].displayName)
  {
    var shown := ShownBefore(Displays(base), s, i);
    forall j | 0 <= j < i
      ensures s[j].name != s[i].name && DisplayName(s[j].name, s[j].displayName) in shown
    {
      assert P.ProfileName(s[j]) != P.ProfileName(s[i]);
    }
    forall n | n in base
      ensures n != s[i].name && base[n].displayName in shown
    {
    }
  }

  /** Profiles that are added or rewritten fail for a display name that is taken, or repeats. */
  ghost predicate ProfilesAreShown(db: Db, project: string, row: PackageRow, req: PackageRequest) {
    var apps, names, ps := PU.MembersAfter(project, row, req), row.profiles.Keys, req.profiles;
    if PU.ProfilesStay(project, row, req) then FirstIsShown(db, apps, row.profiles, NewOrRepeated(names, ps))
    else ReplacementIsShown(db, apps, names, ps, req.mapOrder)
  }

  ghost predicate ReplacementIsShown(
    db: Db, apps: seq<VersionedKey>, names: set<string>, ps: seq<DeploymentProfileRequest>,
    mapOrder: seq<DeploymentProfileRequest>)
  {
    || !PU.NamesDiffer(ps) || !PU.DisplaysDiffer(ps)
    || (PU.StoredFit(db, apps, names, ps) &&
        FirstIsShownBeside(db, apps, names, PU.KeptDisplays(names, ps), PU.InOrder(PU.NotStored(names, ps), mapOrder)))
  }

  lemma ReplacementErrors(
    db: Db, apps: seq<VersionedKey>, stored: P.ProfileTable, ps: seq<DeploymentProfileRequest>,
    mapOrder: seq<DeploymentProfileRequest>)
    requires PlainApps(apps)
    ensures var r := P.UpdateProfiles(db, apps, stored, ps, mapOrder);
            && (r == Err(AlreadyExists) <==> ReplacementIsShown(db, apps, stored.Keys, ps, mapOrder))
            && (r.Err? ==> r.error == AlreadyExists || r.error == InvalidArgument)
  {
    hide P.InjectProfiles, FirstIsShown, FirstIsShownBeside, P.KeptFits, P.KeptProfiles, NewItems, PU.NotStored;
    hide Displays, PU.KeptDisplays, PU.NamesDiffer, PU.DisplaysDiffer, PU.StoredFit;
    PU.DistinctIff(ps);
    if PU.NamesDiffer(ps) && PU.DisplaysDiffer(ps) {
      StoredFitIff(db, apps, stored, ps);
      if forall n :: n in stored ==> P.KeptFits(db, apps, ps, n) {
        var kept, s := P.KeptProfiles(db, apps, stored, ps), P.ProfilesToCreate(stored, ps, mapOrder);
        PU.KeptShow(db, apps, stored, ps);
        CreationErrors(db, apps, kept, s);
        PU.NewAreNotStored(stored, ps);
        assert s == PU.InOrder(PU.NotStored(stored.Keys, ps), mapOrder);
        M.OrderedItems(stored, ps, s);
        ShownBesideIff(db, apps, stored.Keys, kept, s);
      }
    }
  }

  lemma StoredFitIff(db: Db, apps: seq<VersionedKey>, stored: P.ProfileTable, ps: seq<DeploymentProfileRequest>)
    requires PlainApps(apps) && DistinctNames(ps, P.ProfileName)
    ensures (forall n :: n in stored ==> P.KeptFits(db, apps, ps, n)) <==> PU.StoredFit(db, apps, stored.Keys, ps)
  {
    hide EntriesFit, P.KeptFits;
    PU.KeptFitIff(db, apps, stored, ps);
  }

  lemma ReplacementInDedup(
    db: Db, apps: seq<VersionedKey>, names: set<string>, ps: seq<DeploymentProfileRequest>,
    mapOrder: seq<DeploymentProfileRequest>)
    ensures ReplacementIsShown(db, Dedup(apps), names, ps, mapOrder) <==>
            ReplacementIsShown(db, apps, names, ps, mapOrder)
  {
    hide EntriesFit, CanFollow, PU.NamesDiffer, PU.DisplaysDiffer, NotShown, ShownBefore;
    var shown, s := PU.KeptDisplays(names, ps), PU.InOrder(PU.NotStored(names, ps), mapOrder);
    forall i | 0 <= i < |s|
      ensures CanFollow(db, Dedup(apps), names, shown, s, i) <==> CanFollow(db, apps, names, shown, s, i)
    {
      FollowsInDedup(db, apps, names, shown, s, i);
    }
    forall i | 0 <= i < |ps|
      ensures EntriesFit(db, Dedup(apps), ps[i]) <==> EntriesFit(db, apps, ps[i])
    {
      EntriesFitInDedup(db, apps, ps[i]);
    }
  }

  lemma AppliedProfileErrors(
    db: Db, key: VersionedKey, row: PackageRow, req: PackageRequest, ch: P.Changes, apps: seq<VersionedKey>)
    requires PlainApps(apps) && ReadsAlike(key.project, row, req, ch)
    requires apps == if ch.applications then Dedup(PU.MembersAfter(key.project, row, req)) else row.applications
    ensures var r := P.ApplyProfiles(db, apps, row, req, ch);
            && (r == Err(AlreadyExists) <==> ProfilesAreShown(db, key.project, row, req))
            && (r.Err? ==> r.error == AlreadyExists || r.error == InvalidArgument)
  {
    hide P.UpdateProfiles, P.InjectProfiles, NewItems, FirstIsShown, ReplacementIsShown, ProfilesAlike, PlainApps;
    hide MembersAlike, NewOrRepeated;
    ReplacementErrors(db, apps, row.profiles, req.profiles, req.mapOrder);
    CreationErrors(db, apps, row.profiles, NewItems(row.profiles, req.profiles, P.ProfileName));
    NewOrRepeatedIff(row.profiles, req.profiles);
    if ch.applications {
      ReplacementInDedup(db, PU.MembersAfter(key.project, row, req), row.profiles.Keys, req.profiles, req.mapOrder);
    }
  }

  /** The flags that decide how members and profiles are rewritten. */
  ghost predicate ReadsAlike(project: string, row: PackageRow, req: PackageRequest, ch: P.Changes) {
    && (ch.applications <==> !MembersAlike(project, row, req))
    && (ch.profiles <==> !ProfilesAlike(row, req))
    && (!ch.profiles ==> ch.newProfiles == NewItems(row.profiles, req.profiles, P.ProfileName))
  }

  /** Nothing clashes, the package is not frozen, and more than kind and state is at stake. */
  ghost predicate IsRewritten(project: string, row: PackageRow, req: PackageRequest) {
    && !Clashes(row, req) && !PU.IsFrozen(project, row, req)
    && (PartsDiffer(project, row, req) || !KindOrStateDiffers(row, req))
  }

  /** All but the extensions can be rewritten, and those repeat. */
  ghost predicate OnlyExtensionsRepeat(db: Db, project: string, row: PackageRow, req: PackageRequest) {
    && PU.CanMakeMembers(db, project, row, req) && PU.CanMakeProfiles(db, project, row, req)
    && DefaultIsAmong(req.profiles, P.ProfileName, req.defaultProfile)
    && !ExtensionsAlike(row, req) && !ExtensionsDiffer(req.extensions)
  }

  lemma AppliedErrors(db: Db, key: VersionedKey, row: PackageRow, req: PackageRequest, ch: P.Changes)
    requires Inv(db) && PackageFits(db, key, row) && P.ValidPackage(req) && P.PackageChanges(row, req) == Ok(ch)
    requires req.profiles != [] ==> req.defaultProfile != ""
    ensures var project, r := key.project, P.ApplyChanges(db, key.project, row, req, ch);
            && (r == Err(AlreadyExists) <==>
                PU.CanMakeMembers(db, project, row, req) && ProfilesAreShown(db, project, row, req))
            && (r == Err(DatabaseError) <==> OnlyExtensionsRepeat(db, project, row, req))
            && (r.Err? ==> r.error == InvalidArgument || r.error == AlreadyExists || r.error == DatabaseError)
  {
    hide Inv, PackageFits, P.ValidPackage, P.PackageChanges, PartsDiffer, PU.CanMakeMembers, PU.CanMakeProfiles;
    hide P.ApplyMembers, P.ApplyProfiles, MembersAlike, ProfilesAlike, DependenciesDiffer, DefaultsDiffer;
    hide ExtensionsAlike, ArtifactsAlike, ExtensionsDiffer, DefaultIsAmong, P.MakeExtensions, MembersFit;
    hide ProfilesAreShown, P.MakeArtifacts, PlainApps;
    var project := key.project;
    ChangesIff(db, key, row, req);
    PU.PartsOf(db, key, row);
    PU.AppliedMembersIff(db, project, row, req, ch);
    ExtensionErrors(req.extensions);
    PartErrors(db, project, req, []);
    var members := P.ApplyMembers(db, project, row, req, ch);
    if members.Ok? {
      var apps := members.value.applications;
      if ch.applications {
        PU.NewMembersFit(db, project, row, req, ch, members.value);
      }
      PU.MembersArePlain(db, project, apps);
      AppliedProfileErrors(db, key, row, req, ch, apps);
      ProfilesAreMade(db, key, row, req, ch, apps);
    }
  }

  lemma ProfilesAreMade(
    db: Db, key: VersionedKey, row: PackageRow, req: PackageRequest, ch: P.Changes, apps: seq<VersionedKey>)
    requires Inv(db) && PackageFits(db, key, row) && MembersFit(db, key.project, apps)
    requires P.ValidPackage(req) && P.PackageChanges(row, req) == Ok(ch)
    requires req.profiles != [] ==> req.defaultProfile != ""
    requires apps == if ch.applications then Dedup(PU.MembersAfter(key.project, row, req)) else row.applications
    ensures P.ApplyProfiles(db, apps, row, req, ch).Ok? <==>
            PU.CanMakeProfiles(db, key.project, row, req) &&
            DefaultIsAmong(req.profiles, P.ProfileName, req.defaultProfile)
  {
    hide Inv, PackageFits, MembersFit, P.ValidPackage, P.PackageChanges, PU.CanAddProfiles, PU.CanReplaceProfiles;
    hide P.ApplyProfiles, MembersAlike, ProfilesAlike, DefaultIsAmong;
    ChangesIff(db, key, row, req);
    PU.AppliedProfilesIff(db, key, apps, row, req, ch);
    if ch.applications {
      PU.ReplacedInDedup(db, Keys(key.project, req.applications), row.profiles.Keys, req.profiles, req.mapOrder);
    }
  }

  lemma UpdatedRowErrors(db: Db, key: VersionedKey, row: PackageRow, req: PackageRequest)
    requires Inv(db) && PackageFits(db, key, row) && P.ValidPackage(req) && !P.DisplayTaken(db, "", req)
    requires req.profiles != [] ==> req.defaultProfile != ""
    ensures var project, r := key.project, P.UpdateRow(db, key.project, row, req);
            && (r == Err(AlreadyExists) <==>
                && IsRewritten(project, row, req) && PU.CanMakeMembers(db, project, row, req)
                && ProfilesAreShown(db, project, row, req))
            && (r == Err(DatabaseError) <==>
                IsRewritten(project, row, req) && OnlyExtensionsRepeat(db, project, row, req))
  {
    hide Inv, PackageFits, P.ValidPackage, P.PackageChanges, P.ApplyChanges, PartsDiffer, Clashes, P.DisplayTaken;
    hide KindOrStateDiffers, PU.CanMakeMembers, ProfilesAreShown, OnlyExtensionsRepeat;
    ChangesIff(db, key, row, req);
    if P.PackageChanges(row, req).Ok? {
      AppliedErrors(db, key, row, req, P.PackageChanges(row, req).value);
    }
  }

  /**
   * In every reachable state, an update of a package is refused as existing for a display name of a
   * profile alone, and with a database error for extensions alone; never for its own display name.
   */
  lemma ChangePackageRefusals(db: Db, active: string, req: PackageRequest)
    requires Reachable(db) && Admissible(ChangePackage(req.name, req.version, req))
    ensures var project, r := ActiveProject(active), Call(db, active, ChangePackage(req.name, req.version, req));
            var key := VersionedKey(project, req.name, req.version);
            && (r == Err(AlreadyExists) <==>
                && PU.IsReady(req) && key in db.packages && IsRewritten(project, db.packages[key], req)
                && PU.CanMakeMembers(db, project, db.packages[key], req)
                && ProfilesAreShown(db, project, db.packages[key], req))
            && (r == Err(DatabaseError) <==>
                && PU.IsReady(req) && key in db.packages && IsRewritten(project, db.packages[key], req)
                && OnlyExtensionsRepeat(db, project, db.packages[key], req))
  {
    hide Reachable, Inv, PackageFits, Call, P.ValidPackage, P.Unambiguous, P.UpdateRow, IsRewritten, P.DisplayTaken;
    hide PU.CanMakeMembers, ProfilesAreShown, OnlyExtensionsRepeat, PU.IsReady;
    var key := VersionedKey(ActiveProject(active), req.name, req.version);
    Runs.EveryReachableStateFits(db);
    PU.CallUpdates(db, active, req);
    PU.NoPackageInTheEmptyProject(db, req);
    if key in db.packages && PU.IsReady(req) {
      PU.FitsAt(db, key);
      PU.ReadyNamesDefault(req);
      PU.AdmissibleIsValid(req);
      UpdatedRowErrors(db, key, db.packages[key], req);
    }
  }

  // ---------- Updated applications ----------

  function AppNewOrRepeated(names: set<string>, ps: seq<ProfileRequest>): seq<ProfileRequest> {
    if ps == [] then [] else
      var last := |ps| - 1;
      AppNewOrRepeated(names, ps[..last]) +
      if ps[last].name in names && (forall j :: 0 <= j < last ==> ps[j].name != ps[last].name) then [] else [ps[last]]
  }

  lemma {:induction false} AppNewOrRepeatedIff(stored: A.Profiles, ps: seq<ProfileRequest>)
    ensures NewItems(stored, ps, A.ProfileName) == AppNewOrRepeated(stored.Keys, ps)
  {
    if ps != [] {
      AppNewOrRepeatedIff(stored, ps[..|ps| - 1]);
    }
  }

  ghost predicate AppFirstIsShownBeside(names: set<string>, shown: set<string>, s: seq<ProfileRequest>) {
    exists i :: 0 <= i < |s| && IsTrimmed(s[i].displayName) &&
                !NotShown(AppShownBefore(shown, s, i), s[i].displayName) &&
                forall j :: 0 <= j < i ==> AppCanFollow(names, shown, s, j)
  }

  lemma AppShownBesideIff(names: set<string>, base: A.Profiles, s: seq<ProfileRequest>)
    requires DistinctNames(s, A.ProfileName) && base.Keys <= names
    requires forall i :: 0 <= i < |s| ==> s[i].name !in names
    ensures AppFirstIsTaken(base, s) <==> AppFirstIsShownBeside(names, AppDisplays(base), s)
  {
    hide TemplatesUsable, NotShown, AppShownBefore, AppShownByAnother, AppDisplays, AppNamed;
    forall i | 0 <= i < |s|
      ensures AppCanFollow(base.Keys, AppDisplays(base), s, i) <==> AppCanFollow(names, AppDisplays(base), s, i)
      ensures AppShownByAnother(base, s, i) || AppNamed(base, s, i) <==>
              !NotShown(AppShownBefore(AppDisplays(base), s, i), s[i].displayName)
    {
      assert s[i].name !in names;
      AppOtherIsShownIff(base, s, i);
    }
    hide AppCanFollow;
  }

  lemma AppOtherIsShownIff(base: A.Profiles, s: seq<ProfileRequest>, i: nat)
    requires i < |s| && DistinctNames(s, A.ProfileName) && s[i].name !in base
    ensures AppShownByAnother(base, s, i) || AppNamed(base, s, i) <==>
            !NotShown(AppShownBefore(AppDisplays(base), s, i), s[i].displayName)
  {
    var shown := AppShownBefore(AppDisplays(base), s, i);
    forall j | 0 <= j < i
      ensures s[j].name != s[i].name && DisplayName(s[j].name, s[j].displayName) in shown
    {
      assert A.ProfileName(s[j]) != A.ProfileName(s[i]);
    }
    forall n | n in base
      ensures n != s[i].name && base[n].displayName in shown
    {
    }
  }

  /** Names or display names repeat, or every stored profile can be changed and the first new one is shown. */
  ghost predicate ReconciliationIsShown(db: Db, key: VersionedKey, row: ApplicationRow, req: ApplicationRequest) {
    var names, ps := row.profiles.Keys, req.profiles;
    || !AU.NamesDiffer(ps) || !AU.DisplaysDiffer(ps)
    || ((forall n :: n in names ==> AU.CanChange(db, key, ps, n)) &&
        AppFirstIsShownBeside(names, AU.KeptDisplays(names, ps), AU.InOrder(AU.NotStored(names, ps), req.mapOrder)))
  }

  ghost predicate AppProfilesAreTaken(db: Db, key: VersionedKey, row: ApplicationRow, req: ApplicationRequest) {
    if AU.ProfilesAlike(row, req) then AppFirstIsTaken(row.profiles, AppNewOrRepeated(row.profiles.Keys, req.profiles))
    else ReconciliationIsShown(db, key, row, req)
  }

  lemma {:induction false} ObstacleErrors(db: Db, key: VersionedKey, ps: seq<ProfileRequest>, rowOrder: seq<string>)
    ensures var r := A.FirstObstacle(db, key, ps, rowOrder);
            r.Some? ==> r.value == FailedPrecondition || r.value == InvalidArgument
  {
    if rowOrder != [] {
      ObstacleErrors(db, key, ps, rowOrder[1..]);
    }
  }

  lemma ReconciliationErrors(db: Db, key: VersionedKey, row: ApplicationRow, req: ApplicationRequest)
    requires A.IsOrderOf(req.rowOrder, row.profiles.Keys)
    ensures var r := A.UpdateProfiles(db, key, row.profiles, req.profiles, req.mapOrder, req.rowOrder);
            && (r == Err(AlreadyExists) <==> ReconciliationIsShown(db, key, row, req))
            && (r.Err? ==> r.error == AlreadyExists || r.error == InvalidArgument || r.error == FailedPrecondition)
  {
    hide A.InjectProfiles, AppFirstIsTaken, AppFirstIsShownBeside, NewItems, AU.NotStored, AU.NamesDiffer;
    hide AU.DisplaysDiffer, A.ProfileObstacle, AU.KeptDisplays, AppDisplays, A.FirstObstacle, AU.CanChange;
    hide A.KeptProfiles;
    var stored, ps := row.profiles, req.profiles;
    AU.DistinctIff(ps);
    if AU.NamesDiffer(ps) && AU.DisplaysDiffer(ps) {
      A.NoObstacle(db, key, stored, ps, req.rowOrder);
      forall n
        ensures A.ProfileObstacle(db, key, ps, n).None? <==> AU.CanChange(db, key, ps, n)
      {
        AU.ObstacleIff(db, key, ps, n);
      }
      ObstacleErrors(db, key, ps, req.rowOrder);
      var kept, s := A.KeptProfiles(stored, ps), A.ProfilesToCreate(stored, ps, req.mapOrder);
      AU.KeptShow(stored, ps);
      AppCreationErrors(kept, s);
      AU.NewAreNotStored(stored, ps);
      assert s == AU.InOrder(AU.NotStored(stored.Keys, ps), req.mapOrder);
      M.AppOrderedItems(stored, ps, s);
      AppShownBesideIff(stored.Keys, kept, s);
    }
  }

  lemma AppAppliedProfileErrors(db: Db, key: VersionedKey, row: ApplicationRow, req: ApplicationRequest)
    requires KindFits(row.kind) && row.defaultProfile != Some("") && A.IsOrderOf(req.rowOrder, row.profiles.Keys)
    ensures var normal := A.Normalized(row, req);
            var r := A.ApplyProfiles(db, key, row, normal, A.ApplicationChanges(row, normal));
            && (r == Err(AlreadyExists) <==> AppProfilesAreTaken(db, key, row, req))
            && r != Err(DatabaseError)
  {
    hide A.UpdateProfiles, A.InjectProfiles, AU.ProfilesAlike, NewItems, A.ApplicationChanges, A.IsOrderOf;
    hide AppFirstIsTaken, ReconciliationIsShown, AppNewOrRepeated;
    AU.ChangesIff(row, req);
    ReconciliationErrors(db, key, row, req);
    AppCreationErrors(row.profiles, NewItems(row.profiles, req.profiles, A.ProfileName));
    AppNewOrRepeatedIff(row.profiles, req.profiles);
  }

  /** The registries exist, the application is not frozen, and more than the kind is at stake. */
  ghost predicate AppIsRewritten(db: Db, key: VersionedKey, row: ApplicationRow, req: ApplicationRequest) {
    && RegistriesExist(db, key.project, req.helmRegistry, req.imageRegistry)
    && !(AU.Differs(row, req) && AU.IsMemberOfDeployed(db, key))
    && (AU.Differs(row, req) || !AU.KindDiffers(row, req))
  }

  /** All but the ignored resources can be rewritten, and those repeat. */
  ghost predicate OnlyIgnoredRepeat(db: Db, key: VersionedKey, row: ApplicationRow, req: ApplicationRequest) {
    && (if AU.ProfilesAlike(row, req) then AU.CanAdd(row, req) else AU.CanReconcile(db, key, row, req))
    && DefaultIsAmong(req.profiles, A.ProfileName, req.defaultProfile)
    && AU.IgnoredDiffer(row, req) && !NoDup(req.ignored)
  }

  lemma AppAppliedErrors(db: Db, key: VersionedKey, row: ApplicationRow, req: ApplicationRequest)
    requires KindFits(row.kind) && row.defaultProfile != Some("") && DefaultFits(row.profiles.Keys, row.defaultProfile)
    requires A.IsOrderOf(req.rowOrder, row.profiles.Keys) && (req.profiles != [] ==> req.defaultProfile != "")
    requires A.FindRegistries(db, key.project, A.Normalized(row, req)).Ok?
    ensures var normal := A.Normalized(row, req);
            var r := A.ApplyChanges(db, key, row, normal, A.ApplicationChanges(row, normal),
                A.FindRegistries(db, key.project, normal).value);
            && (r == Err(AlreadyExists) <==> AppProfilesAreTaken(db, key, row, req))
            && (r == Err(DatabaseError) <==> OnlyIgnoredRepeat(db, key, row, req))
  {
    hide A.ApplyProfiles, AU.ProfilesAlike, AU.CanAdd, AU.CanReconcile, Named, A.ApplicationChanges, A.IsOrderOf;
    hide DefaultIsAmong, AU.IgnoredDiffer, A.FindRegistries, AppProfilesAreTaken, AU.LosesReferred, AU.NamesDiffer;
    hide AU.DisplaysDiffer, NoDup;
    AU.ChangesIff(row, req);
    AU.AppliedProfilesIff(db, key, row, req);
    AppAppliedProfileErrors(db, key, row, req);
    AU.AmongIff(req.profiles, req.defaultProfile);
    if AU.ProfilesAlike(row, req) && AU.DefaultAlike(row, req) {
      AU.AlikeDefaultIsAmong(row, req);
    }
  }

  lemma AppUpdatedRowErrors(db: Db, key: VersionedKey, row: ApplicationRow, req: ApplicationRequest)
    requires ApplicationFits(db, key, row) && !A.DisplayTaken(db, "", A.Normalized(row, req))
    requires A.IsOrderOf(req.rowOrder, row.profiles.Keys) && (req.profiles != [] ==> req.defaultProfile != "")
    ensures var r := A.UpdateRow(db, key.project, key, row, A.Normalized(row, req));
            && (r == Err(AlreadyExists) <==>
                AppIsRewritten(db, key, row, req) && AppProfilesAreTaken(db, key, row, req))
            && (r == Err(DatabaseError) <==> AppIsRewritten(db, key, row, req) && OnlyIgnoredRepeat(db, key, row, req))
  {
    hide A.ApplyChanges, AU.ProfilesAlike, A.ApplicationChanges, A.IsOrderOf, A.DisplayTaken, AppProfilesAreTaken;
    hide OnlyIgnoredRepeat, A.FindRegistries, RegistriesExist, ApplicationFits, AU.KindDiffers;
    AU.RowFits(db, key, row);
    AU.NormalRegistries(db, key.project, row, req);
    AU.ChangesIff(row, req);
    if A.FindRegistries(db, key.project, A.Normalized(row, req)).Ok? {
      AppAppliedErrors(db, key, row, req);
    }
    assert A.InDeployedPackage(db, key) <==> AU.IsMemberOfDeployed(db, key);
  }

  /**
   * In every reachable state, an update of an application is refused as existing for its profiles alone,
   * and with a database error for ignored resources that repeat; never for its own display name.
   */
  lemma ChangeApplicationRefusals(db: Db, active: string, req: ApplicationRequest)
    requires Reachable(db) && Admissible(ChangeApplication(req.name, req.version, req))
    requires var key := VersionedKey(ActiveProject(active), req.name, req.version);
             key in db.applications ==> A.IsOrderOf(req.rowOrder, db.applications[key].profiles.Keys)
    ensures var key, r := VersionedKey(ActiveProject(active), req.name, req.version),
            Call(db, active, ChangeApplication(req.name, req.version, req));
            && (r == Err(AlreadyExists) <==>
                && AU.IsReady(req) && key in db.applications && AppIsRewritten(db, key, db.applications[key], req)
                && AppProfilesAreTaken(db, key, db.applications[key], req))
            && (r == Err(DatabaseError) <==>
                && AU.IsReady(req) && key in db.applications && AppIsRewritten(db, key, db.applications[key], req)
                && OnlyIgnoredRepeat(db, key, db.applications[key], req))
  {
    hide Reachable, Inv, ApplicationFits, Call, Admissible, A.UpdateRow, AppIsRewritten, A.DisplayTaken;
    hide A.IsOrderOf, AppProfilesAreTaken, OnlyIgnoredRepeat;
    var key := VersionedKey(ActiveProject(active), req.name, req.version);
    Runs.EveryReachableStateFits(db);
    AU.CallUpdates(db, active, req);
    if key in db.applications && AU.IsReady(req) {
      var row := db.applications[key];
      AU.NoApplicationInTheEmptyProject(db, A.Normalized(row, req));
      AU.FitsAt(db, key);
      AppUpdatedRowErrors(db, key, row, req);
    }
  }
}
