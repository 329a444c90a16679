/** What a caller can rely on after an accepted call, in every reachable state. */
module Promises {
  import opened Prelude
  import opened Text
  import opened Tables
  import opened Diff
  import opened Catalog
  import opened Invariants
  import opened References
  import Runs
  import P = Packages
  import A = Applications
  import O = Overwrite
  import AI = AppInvariants
  import AO = ApplicationOverwrite

  /**
   * An accepted package update leaves exactly what an overwrite would: every part of the stored
   * package shows the request, whichever parts were found changed, if the request is faithful to the
   * parts that were; against stored lists without repetition, if and only if. No other row changes.
   */
  lemma AcceptedUpdateOverwrites(db: Db, active: string, req: PackageRequest)
    requires Reachable(db) && Call(db, active, ChangePackage(req.name, req.version, req)).Ok?
    ensures var key, db' := P.PackageKey(ActiveProject(active), req),
            After(db, active, ChangePackage(req.name, req.version, req));
            && key in db.packages && key in db'.packages
            && db' == db.(packages := db.packages[key := db'.packages[key]])
            && P.PackageChanges(db.packages[key], req).Ok?
            && var ch := P.PackageChanges(db.packages[key], req).value;
               && (O.Faithful(req, ch) ==> O.Reflects(key.project, db'.packages[key], req))
               && (ListedOnce(db.packages[key]) ==>
                   (O.Reflects(key.project, db'.packages[key], req) <==> O.Faithful(req, ch)))
  {
    hide Reachable, Inv, O.Reflects, P.UpdateRow, O.Faithful, P.PackageChanges, O.StoredOnce;
    var project, db' := ActiveProject(active), After(db, active, ChangePackage(req.name, req.version, req));
    Runs.EveryReachableStateFits(db);
    var key := P.PackageKey(project, req);
    PackageIsSettled(db, key);
    O.UpdateReflectsRequest(db, project, db.packages[key], req, db'.packages[key]);
  }

  /** A request that repeats nothing and labels its user interfaces is stored whatever was there before. */
  lemma PlainUpdateOverwrites(db: Db, active: string, req: PackageRequest)
    requires Reachable(db) && Call(db, active, ChangePackage(req.name, req.version, req)).Ok?
    requires O.NothingTwice(req) && O.AllTitled(req)
    ensures var key, db' := P.PackageKey(ActiveProject(active), req),
            After(db, active, ChangePackage(req.name, req.version, req));
            key in db'.packages && O.Reflects(key.project, db'.packages[key], req)
  {
    hide Reachable, Call, After, O.Reflects, O.Faithful, P.PackageChanges, O.NothingTwice, O.AllTitled;
    AcceptedUpdateOverwrites(db, active, req);
    var key := P.PackageKey(ActiveProject(active), req);
    O.NothingTwiceIsFaithful(req, P.PackageChanges(db.packages[key], req).value);
  }

  /** The lists that the store itself does not keep free of repetition hold nothing twice. */
  predicate ListedOnce(row: PackageRow) {
    NoDup(MapSeq(P.StoredDependency, row.dependencies)) && NoDup(row.namespaces) &&
        NoDup(MapSeq(O.ReadArtifact, row.artifacts))
  }

  lemma PackageIsSettled(db: Db, key: VersionedKey)
    requires Inv(db) && key in db.packages
    ensures O.Settled(key.project, db.packages[key])
    ensures ListedOnce(db.packages[key]) ==> O.StoredOnce(db.packages[key])
  {
    var row := db.packages[key];
    assert PackageFits(db, key, row);
    var read := MapSeq(O.ReadExtension, row.extensions);
    forall i, j | 0 <= i < j < |read|
      ensures read[i] != read[j]
    {
      assert row.extensions[i].name != row.extensions[j].name || row.extensions[i].version != row.extensions[j].version;
    }
  }

  /**
   * An accepted application update: the root record shows the request, with the name standing in for
   * an empty display name and the stored kind for an unspecified one. Profiles, registries and ignored
   * resources are stored up to the exact exceptions. No other row changes, in any table.
   */
  lemma AcceptedApplicationUpdate(db: Db, active: string, req: ApplicationRequest)
    requires Reachable(db) && Call(db, active, ChangeApplication(req.name, req.version, req)).Ok?
    ensures var key := A.ApplicationKey(ActiveProject(active), req);
            var db' := After(db, active, ChangeApplication(req.name, req.version, req));
            && key in db.applications && key in db'.applications
            && db' == db.(applications := db.applications[key := db'.applications[key]])
            && ShowsApplication(db, key, db.applications[key], A.Normalized(db.applications[key], req),
                db'.applications[key])
  {
    hide Reachable, Inv, A.UpdateApplication, ShowsApplication, P.CreatePackage, P.UpdatePackage, A.CreateApplication,
         A.DeleteApplication;
    var project, db' := ActiveProject(active), After(db, active, ChangeApplication(req.name, req.version, req));
    Runs.EveryReachableStateFits(db);
    AI.UpdateApplicationParts(db, project, req, db');
    AI.UpdateApplicationKeepsPackages(db, project, req, db');
    var key := A.ApplicationKey(project, req);
    StoredApplicationFits(db, key);
    UpdatedRowShows(db, key, db.applications[key], A.Normalized(db.applications[key], req), db'.applications[key]);
  }

  /**
   * The stored profile shows the request: its texts always; its templates, up to order, exactly if it
   * was made from the request or the request repeats no template name and agrees in validators.
   */
  ghost predicate ShowsProfile(row: ApplicationRow, req: ApplicationRequest, row': ApplicationRow, p: ProfileRequest)
    requires p.name in row'.profiles
  {
    && AO.ShowsTexts(row'.profiles[p.name], p)
    && (!AO.IsRemade(row, req, p) ==> p.name in row.profiles)
    && (AO.ShowsUnvalidated(row'.profiles[p.name], p) <==>
        AO.IsRemade(row, req, p) || DistinctNames(p.templates, A.TemplateName))
    && (AO.ShowsTemplates(row'.profiles[p.name], p) <==>
        AO.IsRemade(row, req, p) || AO.TemplatesAgree(row.profiles[p.name].templates, p.templates))
  }

  ghost predicate ShowsApplication(
    db: Db, key: VersionedKey, row: ApplicationRow, req: ApplicationRequest, row': ApplicationRow)
  {
    && AO.ShowsRoot(row', req)
    && (DistinctNames(req.profiles, A.ProfileName) ==>
          ((forall i :: 0 <= i < |req.profiles| ==> req.profiles[i].name in row'.profiles) <==>
           !(AO.TakesShortcut(row, req) && A.ApplicationChanges(row, req).newProfiles != [])))
    && (DistinctNames(req.profiles, A.ProfileName) ==>
          forall i :: 0 <= i < |req.profiles| && req.profiles[i].name in row'.profiles ==>
            ShowsProfile(row, req, row', req.profiles[i]))
    && A.FindRegistries(db, key.project, req).Ok?
    && ((row'.helmRegistry, row'.imageRegistry) == A.FindRegistries(db, key.project, req).value <==>
        !(AO.TakesShortcut(row, req) &&
          (row.helmRegistry, row.imageRegistry) != A.FindRegistries(db, key.project, req).value))
    && (multiset(row'.ignored) == multiset(req.ignored) <==> AO.IgnoredAreStored(row, req))
  }

  lemma StoredApplicationFits(db: Db, key: VersionedKey)
    requires Inv(db) && key in db.applications
    ensures NoDup(db.applications[key].ignored) && ProfileTableFits(db.applications[key].profiles)
  {
    assert ApplicationFits(db, key, db.applications[key]);
  }

  lemma StoredProfileShows(
    db: Db, key: VersionedKey, row: ApplicationRow, req: ApplicationRequest, row': ApplicationRow, i: nat)
    requires A.UpdateRow(db, key.project, key, row, req) == Ok(row') && ProfileTableFits(row.profiles)
    requires DistinctNames(req.profiles, A.ProfileName) && i < |req.profiles| && req.profiles[i].name in row'.profiles
    ensures ShowsProfile(row, req, row', req.profiles[i])
  {
    hide A.UpdateRow, AO.ShowsTexts, AO.IsRemade, AO.TemplatesAgree, AO.ShowsTemplates, AO.ShowsUnvalidated;
    var p := req.profiles[i];
    AO.NotNew(row, req, p);
    AO.ProfilesAreOverwritten(db, key.project, key, row, req, row', i);
    if p.name in row.profiles {
      assert A.TemplatesFit(row.profiles[p.name].templates);
    }
    AO.TemplatesAreStoredIff(db, key.project, key, row, req, row', i);
  }

  lemma UpdatedRowShows(db: Db, key: VersionedKey, row: ApplicationRow, req: ApplicationRequest, row': ApplicationRow)
    requires A.UpdateRow(db, key.project, key, row, req) == Ok(row')
    requires NoDup(row.ignored) && ProfileTableFits(row.profiles)
    ensures ShowsApplication(db, key, row, req, row')
  {
    hide A.UpdateRow, AO.ShowsRoot, ShowsProfile, AO.TakesShortcut, AO.IgnoredAreStored, A.FindRegistries;
    hide A.ApplicationChanges, ProfileTableFits;
    AO.RootIsOverwritten(db, key.project, key, row, req, row');
    if DistinctNames(req.profiles, A.ProfileName) {
      AO.ProfilesAreStoredIff(db, key.project, key, row, req, row');
      forall i | 0 <= i < |req.profiles| && req.profiles[i].name in row'.profiles
        ensures ShowsProfile(row, req, row', req.profiles[i])
      {
        StoredProfileShows(db, key, row, req, row', i);
      }
    }
    AO.RegistriesAreStoredIff(db, key.project, key, row, req, row');
    AO.IgnoredAreStoredIff(db, key.project, key, row, req, row');
  }

  lemma MembersArePlain(db: Db, project: string, apps: seq<VersionedKey>)
    requires Inv(db) && MembersFit(db, project, apps)
    ensures PlainKeys(apps) && OneProject(apps)
  {
    forall i | 0 <= i < |apps|
      ensures Plain(apps[i].name) && Plain(apps[i].version)
    {
      assert ApplicationFits(db, apps[i], db.applications[apps[i]]);
      ValidNamesArePlain(apps[i].name);
      ValidNamesArePlain(apps[i].version);
    }
  }

  /** The deployment profiles of an accepted new package, each made from its request. */
  lemma CreatedProfiles(db: Db, project: string, req: PackageRequest, row: PackageRow, i: nat)
    requires Inv(db) && i < |req.profiles|
    requires P.CreatePackage(db, project, req) == Ok(db.(packages := db.packages[P.PackageKey(project, req) := row]))
    ensures MembersFit(db, project, row.applications)
    ensures var p := req.profiles[i];
            P.Resolves(db, row.applications, p) && p.name in row.profiles &&
            row.profiles[p.name] == P.MakeProfile(db, row.applications, p)
  {
    hide P.MakeDependencies, P.MakeAppNamespaces, P.MakeArtifacts, P.InjectProfiles, P.DisplayTaken, Inv;
    var key := P.PackageKey(project, req);
    assert db.packages[key := row][key] == row;
    MadeApplicationsFit(db, project, req.applications);
    InjectedRow(db, row.applications, map[], req.profiles, row.profiles, i);
  }

  /** Resolving the map that is read back gives the links that the request stands for. */
  ghost predicate ProfileReadsBack(db: Db, row: PackageRow, p: DeploymentProfileRequest) {
    && P.Resolves(db, row.applications, p) && p.name in row.profiles
    && var wanted := ResolvedLinks(db.applications, row.applications, P.EntriesOf(p));
       DistinctApps(wanted) ==>
         ReadsBack(db.applications, row.applications, wanted,
                   Compose(row.profiles[p.name].links, RepeatsName(row.applications)))
  }

  /**
   * Reference round trip: if the entries of a requested deployment profile resolve to distinct
   * applications, the map read back from the created package, with bare names unless some name
   * repeats, resolves to the same assignment of profiles to applications.
   */
  lemma CreatedProfilesReadBack(db: Db, active: string, req: PackageRequest, i: nat)
    requires Reachable(db) && Call(db, active, AddPackage(req)).Ok? && i < |req.profiles|
    ensures var key, db' := P.PackageKey(ActiveProject(active), req), After(db, active, AddPackage(req));
            key in db'.packages && ProfileReadsBack(db, db'.packages[key], req.profiles[i])
  {
    hide Reachable, Inv, MembersFit, P.CreatePackage, ReadsBack, Compose;
    var project, db' := ActiveProject(active), After(db, active, AddPackage(req));
    Runs.EveryReachableStateFits(db);
    CreatePackageAdds(db, project, req, db');
    var row, p := db'.packages[P.PackageKey(project, req)], req.profiles[i];
    CreatedProfiles(db, project, req, row, i);
    MembersArePlain(db, project, row.applications);
    var wanted := ResolvedLinks(db.applications, row.applications, P.EntriesOf(p));
    if DistinctApps(wanted) {
      assert NoDup(wanted);
      DedupOfDistinct(wanted);
      ReferenceRoundTrip(db.applications, row.applications, P.EntriesOf(p));
    }
  }

  /**
   * The updates look for a taken display name in the project without a name, where nothing is ever
   * stored: no update of an application or a package is rejected for its display name.
   */
  lemma UpdatesNeverFindNameTaken(db: Db, a: ApplicationRequest, p: PackageRequest)
    requires Reachable(db)
    ensures !A.DisplayTaken(db, "", a) && !P.DisplayTaken(db, "", p)
  {
    Runs.EveryReachableStateFits(db);
    forall k | k in db.applications
      ensures k.project != ""
    {
      assert ApplicationFits(db, k, db.applications[k]);
    }
    forall k | k in db.packages
      ensures k.project != ""
    {
      assert PackageFits(db, k, db.packages[k]);
    }
  }
}
