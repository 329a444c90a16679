/** Exactly which new deployment packages and applications the catalog accepts. */
module Acceptance {
  import opened Prelude
  import opened Text
  import opened Tables
  import opened Diff
  import opened References
  import opened Catalog
  import opened Conditions
  import AI = AppInvariants
  import M = MapOrders
  import P = Packages
  import A = Applications
  import O = Overwrite

  // ---------- Deployment packages ----------

  /** Bare names are used in entries only if no two references have one name. */
  ghost predicate EntriesAreClear(req: PackageRequest) {
    || (forall i :: 0 <= i < |req.profiles| ==> EntriesAreQualified(req.profiles[i]))
    || (forall i, j :: 0 <= i < j < |req.applications| ==> req.applications[i].name != req.applications[j].name)
  }

  ghost predicate EntriesAreQualified(p: DeploymentProfileRequest) {
    p.appProfiles.Some? ==> forall i :: 0 <= i < |p.appProfiles.value| ==> ':' in p.appProfiles.value[i].0
  }

  function KeyOf(project: string, r: Reference): VersionedKey { VersionedKey(project, r.name, r.version) }

  /** No package of another name in the project shows the display name, ignoring case. */
  ghost predicate NameIsFree(db: Db, project: string, name: string, displayName: string) {
    displayName != "" ==>
      forall k :: k in db.packages && k.project == project &&
                  ToLower(db.packages[k].displayName) == ToLower(displayName) ==>
        k.name == name
  }

  /** A reference of the request has the name. */
  predicate Lists(refs: seq<Reference>, name: string) {
    exists i :: 0 <= i < |refs| && refs[i].name == name
  }

  ghost predicate DependenciesFit(refs: seq<Reference>, deps: seq<Dependency>) {
    forall i :: 0 <= i < |deps| ==>
      deps[i].name != deps[i].target && Lists(refs, deps[i].name) && Lists(refs, deps[i].target)
  }

  /** Different extensions differ in name or version, and the endpoints of one differ in their service. */
  predicate ExtensionsDiffer(exts: seq<ExtensionRequest>) {
    && (forall i, j :: 0 <= i < j < |exts| ==> exts[i].name != exts[j].name || exts[i].version != exts[j].version)
    && (forall i :: 0 <= i < |exts| ==> EndpointsDiffer(exts[i]))
  }

  predicate EndpointsDiffer(e: ExtensionRequest) {
    e.endpoints.Some? ==>
      forall i, j :: 0 <= i < j < |e.endpoints.value| ==>
        e.endpoints.value[i].serviceName != e.endpoints.value[j].serviceName
  }

  ghost predicate ArtifactsExist(db: Db, project: string, arts: seq<ArtifactReference>) {
    forall i :: 0 <= i < |arts| ==> NamedKey(project, arts[i].name) in db.artifacts
  }

  /** A default is named if there are profiles, and a named one is among them. */
  predicate DefaultIsAmong<T>(profiles: seq<T>, name: T -> string, default: string) {
    if default == "" then profiles == [] else exists i :: 0 <= i < |profiles| && name(profiles[i]) == default
  }

  ghost predicate PackageCanBeAdded(db: Db, project: string, req: PackageRequest) {
    var refs := req.applications;
    && EntriesAreClear(req) && DefaultIsAmong(req.profiles, P.ProfileName, req.defaultProfile)
    && IsTrimmed(req.displayName) && NameIsFree(db, project, req.name, req.displayName)
    && VersionedKey(project, req.name, req.version) !in db.packages
    && (forall i :: 0 <= i < |refs| ==> KeyOf(project, refs[i]) in db.applications)
    && DependenciesFit(refs, req.dependencies)
    && (forall i :: 0 <= i < |req.defaultNamespaces| ==> Lists(refs, req.defaultNamespaces[i].0))
    && CanBeCreated(db, Keys(project, refs), {}, {}, req.profiles)
    && ExtensionsDiffer(req.extensions) && ArtifactsExist(db, project, req.artifacts)
  }

  function Keys(project: string, refs: seq<Reference>): (keys: seq<VersionedKey>)
    ensures |keys| == |refs| && forall i :: 0 <= i < |refs| ==> keys[i] == KeyOf(project, refs[i])
  {
    seq(|refs|, i requires 0 <= i < |refs| => KeyOf(project, refs[i]))
  }

  lemma ClearIff(req: PackageRequest)
    ensures P.Unambiguous(req) <==> EntriesAreClear(req)
  {
    forall i | 0 <= i < |req.profiles|
      ensures P.AllQualified(P.EntriesOf(req.profiles[i])) <==> EntriesAreQualified(req.profiles[i])
    {
    }
  }

  lemma NameIsFreeIff(db: Db, project: string, req: PackageRequest)
    ensures P.DisplayTaken(db, project, req) <==> !NameIsFree(db, project, req.name, req.displayName)
  {
  }

  lemma MadeDependenciesIff(apps: seq<VersionedKey>, deps: seq<Dependency>)
    ensures P.MakeDependencies(apps, deps).Ok? <==>
            forall i :: 0 <= i < |deps| ==>
              deps[i].name != deps[i].target && HasMember(apps, deps[i].name) && HasMember(apps, deps[i].target)
  {
    hide HasMember, P.LastNamed;
    forall i | 0 <= i < |deps|
      ensures P.DependencyFits(apps, deps[i]) <==>
              deps[i].name != deps[i].target && HasMember(apps, deps[i].name) && HasMember(apps, deps[i].target)
    {
      LastNamedIff(apps, deps[i].name);
      LastNamedIff(apps, deps[i].target);
    }
  }

  lemma MadeAppNamespacesIff(apps: seq<VersionedKey>, e: Entries)
    ensures P.MakeAppNamespaces(apps, e).Ok? <==> forall i :: 0 <= i < |e| ==> HasMember(apps, e[i].0)
  {
    hide HasMember, P.LastNamed;
    forall n
      ensures P.LastNamed(apps, n).Some? <==> HasMember(apps, n)
    {
      LastNamedIff(apps, n);
    }
    if P.MakeAppNamespaces(apps, e).Ok? {
      forall i | 0 <= i < |e|
        ensures HasMember(apps, e[i].0)
      {
        assert e[i].0 in EntryKeys(e);
      }
    }
  }

  lemma MadeExtensionsIff(exts: seq<ExtensionRequest>)
    ensures P.MakeExtensions(exts).Ok? <==> ExtensionsDiffer(exts)
  {
    var rows := MapSeq(P.MakeExtension, exts);
    forall i | 0 <= i < |exts|
      ensures P.EndpointsFit(rows[i].endpoints) <==> EndpointsDiffer(exts[i])
    {
    }
  }

  lemma ListsIff(project: string, refs: seq<Reference>, name: string)
    ensures HasMember(Dedup(Keys(project, refs)), name) <==> Lists(refs, name)
  {
    HasMemberInDedup(Keys(project, refs), name);
    if Lists(refs, name) {
      var i :| 0 <= i < |refs| && refs[i].name == name;
      assert Keys(project, refs)[i].name == name;
    }
  }

  /** What making the members takes, and what they are. */
  lemma MadeMembersIff(db: Db, project: string, refs: seq<Reference>)
    ensures P.MakeApplications(db, project, refs).Ok? <==>
            forall i :: 0 <= i < |refs| ==> KeyOf(project, refs[i]) in db.applications
    ensures P.MakeApplications(db, project, refs).Ok? ==>
            P.MakeApplications(db, project, refs).value == Dedup(Keys(project, refs))
  {
    assert P.ReferenceKeys(project, refs) == Keys(project, refs);
    forall i | 0 <= i < |refs|
      ensures P.ReferenceKey(project, refs[i]) == KeyOf(project, refs[i])
    {
    }
  }

  lemma ReferencesArePlain(project: string, req: PackageRequest)
    requires P.ValidPackage(req)
    ensures PlainApps(Keys(project, req.applications)) && PlainApps(Dedup(Keys(project, req.applications)))
  {
    hide ValidName, ValidVersion;
    var keys := Keys(project, req.applications);
    forall i | 0 <= i < |keys|
      ensures ':' !in keys[i].name && ':' !in keys[i].version
    {
      assert P.ValidReference(req.applications[i]);
      ValidNamesArePlain(req.applications[i].name);
      ValidNamesArePlain(req.applications[i].version);
    }
    var distinct := Dedup(keys);
    forall i | 0 <= i < |distinct|
      ensures ':' !in distinct[i].name && ':' !in distinct[i].version
    {
      assert distinct[i] in keys;
    }
  }

  lemma CreatedInDedup(
    db: Db, apps: seq<VersionedKey>, names: set<string>, shown: set<string>, s: seq<DeploymentProfileRequest>)
    ensures CanBeCreated(db, Dedup(apps), names, shown, s) <==> CanBeCreated(db, apps, names, shown, s)
  {
    hide EntriesFit, NotShown, ShownBefore;
    forall i | 0 <= i < |s|
      ensures CanFollow(db, Dedup(apps), names, shown, s, i) <==> CanFollow(db, apps, names, shown, s, i)
    {
      EntriesFitInDedup(db, apps, s[i]);
    }
  }

  lemma DefaultIsCreatedIff(
    db: Db, apps: seq<VersionedKey>, ps: seq<DeploymentProfileRequest>, t: P.ProfileTable, default: string)
    requires P.InjectProfiles(db, apps, map[], ps) == Ok(t) && default != ""
    ensures default in t <==> DefaultIsAmong(ps, P.ProfileName, default)
  {
    O.InjectedNames(db, apps, map[], ps, t);
  }

  /** The parts of a creation, one by one. */
  lemma CreationIff(db: Db, project: string, req: PackageRequest)
    ensures P.CreatePackage(db, project, req).Ok? <==>
            && !P.NeedsDefault(req) && IsTrimmed(req.displayName) && !P.DisplayTaken(db, project, req)
            && P.PackageKey(project, req) !in db.packages && P.MakeApplications(db, project, req.applications).Ok?
            && var apps := P.MakeApplications(db, project, req.applications).value;
               && P.MakeDependencies(apps, req.dependencies).Ok?
               && P.MakeAppNamespaces(apps, req.defaultNamespaces).Ok?
               && P.InjectProfiles(db, apps, map[], req.profiles).Ok?
               && (req.defaultProfile != "" ==>
                     req.defaultProfile in P.InjectProfiles(db, apps, map[], req.profiles).value)
               && P.MakeExtensions(req.extensions).Ok? && P.MakeArtifacts(db, project, req.artifacts).Ok?
  {
    hide P.MakeApplications, P.MakeDependencies, P.MakeAppNamespaces, P.InjectProfiles, P.MakeExtensions,
         P.MakeArtifacts, P.DisplayTaken;
  }

  /**
   * A valid request for a new package is accepted if and only if its parts fit: the display name is
   * free among packages of other names, the key is new, members and artifacts exist, dependencies and
   * default namespaces name members, profiles can be created in order, and extensions differ.
   */
  lemma AddPackageSucceedsIff(db: Db, active: string, req: PackageRequest)
    ensures Call(db, active, AddPackage(req)).Ok? <==>
            P.ValidPackage(req) && PackageCanBeAdded(db, ActiveProject(active), req)
  {
    hide P.ValidPackage, P.CreatePackage, P.UpdatePackage, A.CreateApplication, A.UpdateApplication,
         A.DeleteApplication;
    ClearIff(req);
    if P.ValidPackage(req) {
      CreatePackageIff(db, ActiveProject(active), req);
    }
  }

  lemma CreatePackageIff(db: Db, project: string, req: PackageRequest)
    requires P.ValidPackage(req)
    ensures P.CreatePackage(db, project, req).Ok? && EntriesAreClear(req) <==> PackageCanBeAdded(db, project, req)
  {
    hide P.ValidPackage, P.CreatePackage, P.MakeApplications, P.MakeDependencies, P.MakeAppNamespaces;
    hide P.InjectProfiles, P.MakeExtensions, P.DisplayTaken, NameIsFree, CanBeCreated, ExtensionsDiffer;
    hide HasMember, Lists, PlainApps, EntriesAreClear;
    CreationIff(db, project, req);
    NameIsFreeIff(db, project, req);
    var keys := Keys(project, req.applications);
    var apps := Dedup(keys);
    MadeMembersIff(db, project, req.applications);
    MadeDependenciesIff(apps, req.dependencies);
    MadeAppNamespacesIff(apps, req.defaultNamespaces);
    forall n
      ensures HasMember(apps, n) <==> Lists(req.applications, n)
    {
      ListsIff(project, req.applications, n);
    }
    ReferencesArePlain(project, req);
    CreatedIff(db, apps, map[], req.profiles);
    var none: P.ProfileTable := map[];
    assert none.Keys == {} && Displays(none) == {};
    CreatedInDedup(db, keys, {}, {}, req.profiles);
    MadeExtensionsIff(req.extensions);
    if P.InjectProfiles(db, apps, map[], req.profiles).Ok? && req.defaultProfile != "" {
      DefaultIsCreatedIff(db, apps, req.profiles, P.InjectProfiles(db, apps, map[], req.profiles).value,
          req.defaultProfile);
    }
  }

  /** What stops a valid request first: a display name that a package of another name shows. */
  lemma TakenNameIsRejected(db: Db, active: string, req: PackageRequest)
    requires P.ValidPackage(req) && EntriesAreClear(req) && IsTrimmed(req.displayName)
    requires req.profiles != [] ==> req.defaultProfile != ""
    ensures !NameIsFree(db, ActiveProject(active), req.name, req.displayName) ==>
            Call(db, active, AddPackage(req)) == Err(AlreadyExists)
  {
    hide P.ValidPackage, EntriesAreClear, P.DisplayTaken, NameIsFree, P.MakeApplications;
    ClearIff(req);
    NameIsFreeIff(db, ActiveProject(active), req);
  }

  lemma CreatedElsewhere(
    db: Db, db': Db, apps: seq<VersionedKey>, names: set<string>, shown: set<string>, s: seq<DeploymentProfileRequest>)
    requires db'.applications == db.applications
    ensures CanBeCreated(db', apps, names, shown, s) <==> CanBeCreated(db, apps, names, shown, s)
  {
    hide IsDenoted, NotShown, ShownBefore;
    forall i | 0 <= i < |s|
      ensures CanFollow(db', apps, names, shown, s, i) <==> CanFollow(db, apps, names, shown, s, i)
    {
      forall e: (string, string)
        ensures EntryFits(db', apps, e) <==> EntryFits(db, apps, e)
      {
      }
      assert EntriesFit(db', apps, s[i]) <==> EntriesFit(db, apps, s[i]);
    }
  }

  /** After a package, a further version of it is accepted, under the same display name. */
  lemma NextVersionIsAccepted(db: Db, active: string, req: PackageRequest, version: string)
    requires Call(db, active, AddPackage(req)).Ok? && ValidVersion(version) && version != req.version
    requires VersionedKey(ActiveProject(active), req.name, version) !in db.packages
    ensures Call(After(db, active, AddPackage(req)), active, AddPackage(req.(version := version))).Ok?
  {
    hide Call, ValidName, ValidVersion, P.CreatePackage, CanBeCreated, ExtensionsDiffer;
    var project, db', next := ActiveProject(active), After(db, active, AddPackage(req)), req.(version := version);
    AddPackageSucceedsIff(db, active, req);
    AddPackageSucceedsIff(db', active, next);
    AddedPackage(db, active, req);
    CreatedElsewhere(db, db', Keys(project, req.applications), {}, {}, req.profiles);
    assert P.ValidPackage(next);
    assert EntriesAreClear(next) && NameIsFree(db', project, req.name, req.displayName);
  }

  lemma AddedPackage(db: Db, active: string, req: PackageRequest)
    requires Call(db, active, AddPackage(req)).Ok?
    ensures var key, db' := VersionedKey(ActiveProject(active), req.name, req.version),
            After(db, active, AddPackage(req));
            key in db'.packages && db' == db.(packages := db.packages[key := db'.packages[key]])
  {
    hide P.CreatePackage, P.UpdatePackage, A.CreateApplication, A.UpdateApplication, A.DeleteApplication;
    O.CreateParts(db, ActiveProject(active), req, After(db, active, AddPackage(req)));
  }

  // ---------- What a request may hold at all ----------

  ghost predicate IsName(s: string) { MatchesPattern(s, 38, NameChar) }

  ghost predicate IsApplicationName(s: string) { MatchesPattern(s, 24, NameChar) }

  ghost predicate IsVersion(s: string) { MatchesPattern(s, 18, VersionChar) }

  /** Names and versions match their patterns, lists are not too long, and a map has one entry for each key. */
  ghost predicate PackageMatches(req: PackageRequest) {
    && IsName(req.name) && IsVersion(req.version) && |req.extensions| <= 100 && |req.artifacts| <= 100
    && (forall r :: r in req.applications ==> IsName(r.name) && IsVersion(r.version))
    && (forall d :: d in req.dependencies ==> IsApplicationName(d.name) && IsApplicationName(d.target))
    && (forall p :: p in req.profiles ==> IsName(p.name) && (p.appProfiles.Some? ==> KeysDiffer(p.appProfiles.value)))
    && (forall e :: e in req.extensions ==> IsName(e.name) && IsVersion(e.version))
    && (forall a :: a in req.artifacts ==> IsName(a.name)) && (forall n :: n in req.namespaces ==> IsName(n.name))
    && KeysDiffer(req.defaultNamespaces)
  }

  ghost predicate KeysDiffer(e: Entries) {
    forall i, j :: 0 <= i < |e| && 0 <= j < |e| && e[i].0 == e[j].0 ==> i == j
  }

  ghost predicate ApplicationMatches(req: ApplicationRequest) {
    && IsApplicationName(req.name) && IsVersion(req.version)
    && (forall p :: p in req.profiles ==> IsName(p.name))
    && (forall r :: r in req.ignored ==> r.name != "" && r.kind != "" && '/' !in r.name && '/' !in r.kind)
  }

  lemma PackageIsValidIff(req: PackageRequest)
    ensures P.ValidPackage(req) <==> PackageMatches(req)
  {
    hide ValidName, ValidApplicationName, ValidVersion, MatchesPattern;
    forall s
      ensures ValidName(s) <==> IsName(s)
      ensures ValidApplicationName(s) <==> IsApplicationName(s)
      ensures ValidVersion(s) <==> IsVersion(s)
    {
      ValidTextsIff(s);
    }
    assert KeysDiffer(req.defaultNamespaces) <==> DistinctKeys(req.defaultNamespaces);
    forall p
      ensures P.ValidDeploymentProfile(p) <==>
              IsName(p.name) && (p.appProfiles.Some? ==> KeysDiffer(p.appProfiles.value))
    {
    }
    hide P.ValidDeploymentProfile, KeysDiffer, IsName, IsApplicationName, IsVersion;
  }

  lemma ApplicationIsValidIff(req: ApplicationRequest)
    ensures A.ValidApplication(req) <==> ApplicationMatches(req)
  {
    hide ValidName, ValidApplicationName, ValidVersion, MatchesPattern;
    forall s
      ensures ValidName(s) <==> IsName(s)
      ensures ValidApplicationName(s) <==> IsApplicationName(s)
      ensures ValidVersion(s) <==> IsVersion(s)
    {
      ValidTextsIff(s);
    }
  }

  // ---------- Applications ----------

  /** No application of another name in the project shows the display name, ignoring case. */
  ghost predicate AppNameIsFree(db: Db, project: string, name: string, displayName: string) {
    displayName != "" ==>
      forall k :: k in db.applications && k.project == project &&
                  ToLower(db.applications[k].displayName) == ToLower(displayName) ==>
        k.name == name
  }

  /** The helm registry exists with its type, and so does the image registry, if one is named. */
  predicate RegistriesExist(db: Db, project: string, helm: string, image: string) {
    && NamedKey(project, helm) in db.registries && db.registries[NamedKey(project, helm)].kind == "HELM"
    && (image != "" ==>
          NamedKey(project, image) in db.registries && db.registries[NamedKey(project, image)].kind == "IMAGE")
  }

  ghost predicate ApplicationCanBeAdded(db: Db, project: string, req: ApplicationRequest) {
    && DefaultIsAmong(req.profiles, A.ProfileName, req.defaultProfile)
    && IsTrimmed(req.displayName) && AppNameIsFree(db, project, req.name, req.displayName)
    && RegistriesExist(db, project, req.helmRegistry, req.imageRegistry)
    && VersionedKey(project, req.name, req.version) !in db.applications
    && AppCanBeCreated({}, {}, req.profiles) && NoDup(req.ignored)
  }

  lemma RegistriesExistIff(db: Db, project: string, req: ApplicationRequest)
    ensures A.FindRegistries(db, project, req).Ok? <==>
            RegistriesExist(db, project, req.helmRegistry, req.imageRegistry)
    ensures A.FindRegistries(db, project, req).Err? ==> A.FindRegistries(db, project, req).error == InvalidArgument
  {
  }

  lemma AppDefaultIsCreatedIff(ps: seq<ProfileRequest>, t: A.Profiles, default: string)
    requires A.InjectProfiles(map[], ps) == Ok(t) && default != ""
    ensures default in t <==> DefaultIsAmong(ps, A.ProfileName, default)
  {
    AI.InjectedNames(map[], ps, t);
  }

  /** A valid request for a new application is accepted if and only if its parts fit. */
  lemma AddApplicationSucceedsIff(db: Db, active: string, req: ApplicationRequest)
    ensures Call(db, active, AddApplication(req)).Ok? <==>
            A.ValidApplication(req) && ApplicationCanBeAdded(db, ActiveProject(active), req)
  {
    hide A.ValidApplication, A.CreateApplication, P.CreatePackage, P.UpdatePackage, A.UpdateApplication,
         A.DeleteApplication;
    CreateApplicationIff(db, ActiveProject(active), req);
  }

  lemma CreateApplicationIff(db: Db, project: string, req: ApplicationRequest)
    ensures A.CreateApplication(db, project, req).Ok? <==> ApplicationCanBeAdded(db, project, req)
  {
    hide A.InjectProfiles, A.FindRegistries, AppCanBeCreated, RegistriesExist;
    RegistriesExistIff(db, project, req);
    var none: A.Profiles := map[];
    assert none.Keys == {} && AppDisplays(none) == {};
    AppCreatedIff(map[], req.profiles);
    assert A.DisplayTaken(db, project, req) <==> !AppNameIsFree(db, project, req.name, req.displayName);
    if A.InjectProfiles(map[], req.profiles).Ok? && req.defaultProfile != "" {
      AppDefaultIsCreatedIff(req.profiles, A.InjectProfiles(map[], req.profiles).value, req.defaultProfile);
    }
  }

  /** After an application, a further version of it is accepted, under the same display name. */
  lemma NextApplicationVersionIsAccepted(db: Db, active: string, req: ApplicationRequest, version: string)
    requires Call(db, active, AddApplication(req)).Ok? && ValidVersion(version) && version != req.version
    requires VersionedKey(ActiveProject(active), req.name, version) !in db.applications
    ensures Call(After(db, active, AddApplication(req)), active, AddApplication(req.(version := version))).Ok?
  {
    hide Call, ValidApplicationName, ValidName, ValidVersion, AppCanBeCreated;
    var db', next := After(db, active, AddApplication(req)), req.(version := version);
    AddApplicationSucceedsIff(db, active, req);
    AddApplicationSucceedsIff(db', active, next);
    AddedApplication(db, active, req);
    assert A.ValidApplication(next);
    assert AppNameIsFree(db', ActiveProject(active), req.name, req.displayName);
  }

  lemma AddedApplication(db: Db, active: string, req: ApplicationRequest)
    requires Call(db, active, AddApplication(req)).Ok?
    ensures var key, db' := VersionedKey(ActiveProject(active), req.name, req.version),
            After(db, active, AddApplication(req));
            key in db'.applications && db' == db.(applications := db.applications[key := db'.applications[key]])
  {
    hide A.InjectProfiles, A.FindRegistries, P.CreatePackage, P.UpdatePackage, A.UpdateApplication,
         A.DeleteApplication, A.DisplayTaken;
  }
}
