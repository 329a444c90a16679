/** Creating: what is stored shows the request, and deleting undoes it. */
module Undo {
  import opened Prelude
  import opened Tables
  import opened Catalog
  import opened Invariants
  import opened ProfileLinks
  import Runs
  import AI = AppInvariants
  import P = Packages
  import A = Applications
  import R = Registries
  import O = Overwrite

  // ---------- Registries and artifacts ----------

  predicate IsSaved(db: Db, db': Db, key: NamedKey) {
    key in db'.registries && db' == db.(registries := db.registries[key := db'.registries[key]])
  }

  /** An accepted create or update of a registry stores the request and changes nothing else. */
  lemma SavedRegistryShows(db: Db, active: string, op: Op)
    requires (op.AddRegistry? || op.ChangeRegistry?) && Call(db, active, op).Ok?
    ensures var req, key := op.registry, NamedKey(ActiveProject(active), op.registry.name);
            var db' := After(db, active, op);
            && (op.AddRegistry? <==> key !in db.registries) && IsSaved(db, db', key)
            && var row := db'.registries[key];
               row.displayName == (if req.displayName == "" then req.name else req.displayName) &&
               row.description == req.description && row.kind == req.kind &&
               row.apiType == if op.ChangeRegistry? then req.apiType else ""
  {
    hide P.CreatePackage, P.UpdatePackage, P.DeletePackage, A.CreateApplication, A.UpdateApplication,
         A.DeleteApplication;
  }

  /** An accepted create or update of an artifact stores the request and changes nothing else. */
  lemma SavedArtifactShows(db: Db, active: string, op: Op)
    requires (op.AddArtifact? || op.ChangeArtifact?) && Call(db, active, op).Ok?
    ensures var req, key := op.artifact, NamedKey(ActiveProject(active), op.artifact.name);
            var db' := After(db, active, op);
            && (op.AddArtifact? <==> key !in db.artifacts) && op.contentFits
            && key in db'.artifacts && db' == db.(artifacts := db.artifacts[key := db'.artifacts[key]])
            && var row := db'.artifacts[key];
               row.displayName == (if req.displayName == "" then req.name else req.displayName) &&
               row.description == req.description && row.mimeType == req.mimeType && row.payload == req.payload
  {
    hide P.CreatePackage, P.UpdatePackage, P.DeletePackage, A.CreateApplication, A.UpdateApplication,
         A.DeleteApplication;
  }

  /** A new registry is in use by nobody. */
  lemma DeleteUndoesCreateRegistry(db: Db, active: string, req: RegistryRequest)
    requires Reachable(db) && Call(db, active, AddRegistry(req)).Ok?
    ensures var db' := After(db, active, AddRegistry(req));
            Call(db', active, RemoveRegistry(req.name)) == Ok(db)
  {
    hide Reachable, Inv, RegistryFits, PackageFits, P.CreatePackage, P.UpdatePackage, P.DeletePackage;
    hide A.CreateApplication, A.UpdateApplication, A.DeleteApplication;
    var db', key := After(db, active, AddRegistry(req)), NamedKey(ActiveProject(active), req.name);
    Runs.EveryReachableStateFits(db);
    NobodyUses(db, key);
    assert db'.registries - {key} == db.registries;
    assert db'.applications == db.applications;
    NewRegistryGoes(db', key);
  }

  lemma NobodyUses(db: Db, key: NamedKey)
    requires Inv(db) && key !in db.registries
    ensures !R.InUse(db, key) && !R.UsedAsHelm(db, key) && !R.UsedAsImage(db, key)
  {
    forall k | k in db.applications
      ensures db.applications[k].helmRegistry != key && db.applications[k].imageRegistry != Some(key)
      ensures db.applications[k].helmRegistry.project == k.project
      ensures db.applications[k].imageRegistry.Some? ==> db.applications[k].imageRegistry.value.project == k.project
    {
      assert ApplicationFits(db, k, db.applications[k]);
    }
  }

  lemma NewRegistryGoes(db: Db, key: NamedKey)
    requires key in db.registries && key.name != ""
    requires !R.InUse(db, key) && !R.UsedAsHelm(db, key) && !R.UsedAsImage(db, key)
    ensures R.DeleteRegistry(db, key) == Ok(db.(registries := db.registries - {key}))
  {
    var gone := R.DeleteRegistry(db, key).value;
    assert gone.applications == db.applications;
  }

  /** A new artifact is referred to by nobody. */
  lemma DeleteUndoesCreateArtifact(db: Db, active: string, req: ArtifactRequest, fits: bool)
    requires Reachable(db) && Call(db, active, AddArtifact(req, fits)).Ok?
    ensures var db' := After(db, active, AddArtifact(req, fits));
            Call(db', active, RemoveArtifact(req.name)) == Ok(db)
  {
    hide Reachable, Inv, P.CreatePackage, P.UpdatePackage, P.DeletePackage;
    hide A.CreateApplication, A.UpdateApplication, A.DeleteApplication;
    var db', key := After(db, active, AddArtifact(req, fits)), NamedKey(ActiveProject(active), req.name);
    Runs.EveryReachableStateFits(db);
    NobodyRefers(db, key);
    assert db'.artifacts - {key} == db.artifacts;
  }

  lemma NobodyRefers(db: Db, key: NamedKey)
    requires Inv(db) && key !in db.artifacts
    ensures !R.ArtifactInUse(db, key)
  {
    forall k | k in db.packages
      ensures !R.ReferencesArtifact(db.packages[k], key)
    {
      assert PackageFits(db, k, db.packages[k]);
    }
  }

  // ---------- Applications ----------

  /** An accepted new application stores the request: its texts, registries, profiles and default. */
  lemma CreatedApplicationShows(db: Db, project: string, req: ApplicationRequest, db': Db)
    requires A.CreateApplication(db, project, req) == Ok(db')
    ensures var key := A.ApplicationKey(project, req);
            && key !in db.applications && key in db'.applications
            && db' == db.(applications := db.applications[key := db'.applications[key]])
            && var row := db'.applications[key];
               && row.displayName == (if req.displayName == "" then req.name else req.displayName)
               && row.description == req.description && row.kind == KindToDb(req.kind)
               && row.chartName == req.chartName && row.chartVersion == req.chartVersion && row.ignored == req.ignored
               && row.helmRegistry == NamedKey(project, req.helmRegistry)
               && row.imageRegistry ==
                   (if req.imageRegistry == "" then None else Some(NamedKey(project, req.imageRegistry)))
               && AI.IsRequestedTable(req.profiles, row.profiles)
               && row.defaultProfile == if req.defaultProfile == "" then None else Some(req.defaultProfile)
  {
    hide A.InjectProfiles, A.MakeProfile, A.DisplayTaken;
    var key := A.ApplicationKey(project, req);
    var row := db'.applications[key];
    AI.InjectedNames(map[], req.profiles, row.profiles);
    forall i | 0 <= i < |req.profiles|
      ensures req.profiles[i].name in row.profiles &&
              row.profiles[req.profiles[i].name] == A.MakeProfile(req.profiles[i])
    {
      AI.InjectedRow(map[], req.profiles, row.profiles, i);
    }
  }

  /** No package has a new application as a member, and no deployment profile refers to it. */
  lemma DeleteUndoesCreateApplication(db: Db, active: string, req: ApplicationRequest)
    requires Reachable(db) && Call(db, active, AddApplication(req)).Ok?
    ensures var db' := After(db, active, AddApplication(req));
            Call(db', active, RemoveApplication(req.name, req.version)) == Ok(db)
  {
    hide Reachable, Inv, P.CreatePackage, P.UpdatePackage, P.DeletePackage, A.CreateApplication, A.UpdateApplication;
    hide A.CascadeProfiles, A.RefersTo;
    var project, db' := ActiveProject(active), After(db, active, AddApplication(req));
    Runs.EveryReachableStateFits(db);
    CreatedApplicationShows(db, project, req, db');
    var key := A.ApplicationKey(project, req);
    UnknownToPackages(db, key, db'.applications[key].profiles.Keys);
    assert db'.applications - {key} == db.applications;
  }

  lemma UnknownToPackages(db: Db, key: VersionedKey, gone: set<string>)
    requires Inv(db) && key !in db.applications
    ensures forall k :: k in db.packages ==> key !in db.packages[k].applications && !A.RefersTo(db.packages[k], key)
    ensures A.CascadeProfiles(db.packages, key, gone) == db.packages
  {
    forall k | k in db.packages
      ensures key !in db.packages[k].applications && !A.RefersTo(db.packages[k], key)
      ensures A.DropProfileLinks(db.packages[k], key, gone) == db.packages[k]
    {
      assert PackageFits(db, k, db.packages[k]);
      NoLinksToUnknown(db, k, key, gone);
    }
    assert A.CascadeProfiles(db.packages, key, gone) == db.packages;
  }

  lemma NoLinksToUnknown(db: Db, k: VersionedKey, key: VersionedKey, gone: set<string>)
    requires Inv(db) && key !in db.applications && k in db.packages
    ensures A.DropProfileLinks(db.packages[k], key, gone) == db.packages[k]
  {
    var row := db.packages[k];
    assert PackageFits(db, k, row);
    forall n | n in row.profiles
      ensures A.DropLinks(row.profiles[n].links, key, gone) == row.profiles[n].links
    {
      var links := row.profiles[n].links;
      assert LinksFit(db, k.project, row.profiles[n].links);
      forall i | 0 <= i < |links|
        ensures links[i].app != key
      {
        assert LinkFits(db, k.project, links[i]);
      }
      AI.DropLinksKeeps(links, key, gone);
    }
    assert A.DropProfileLinks(row, key, gone).profiles == row.profiles;
  }

  // ---------- Deployment packages ----------

  /** An accepted new package shows the request in every part, like an accepted update. */
  lemma CreatedPackageReflects(db: Db, project: string, req: PackageRequest, db': Db)
    requires P.CreatePackage(db, project, req) == Ok(db') && O.AllTitled(req)
    ensures P.PackageKey(project, req) in db'.packages
    ensures O.Reflects(project, db'.packages[P.PackageKey(project, req)], req)
  {
    hide P.CreatePackage, P.MakeDependencies, P.MakeAppNamespaces, P.MakeArtifacts, P.InjectProfiles;
    O.CreateParts(db, project, req, db');
    var row := db'.packages[P.PackageKey(project, req)];
    O.MadeDependenciesReflect(row.applications, req.dependencies);
    O.MadeAppNamespacesReflect(row.applications, req.defaultNamespaces);
    O.MadeExtensionsReflect(req);
    O.MadeArtifactsReflect(db, project, req.artifacts);
    assert Elements(row.applications) == Elements(P.ReferenceKeys(project, req.applications));
  }

  /** Each deployment profile of an accepted new package has the requested texts and exactly the requested links. */
  lemma CreatedProfilesShow(db: Db, project: string, req: PackageRequest, db': Db, i: nat)
    requires P.CreatePackage(db, project, req) == Ok(db') && i < |req.profiles|
    ensures P.PackageKey(project, req) in db'.packages
    ensures var row := db'.packages[P.PackageKey(project, req)];
            Merged(db, row.applications, map[], req.profiles[i], row.profiles)
  {
    hide P.CreatePackage, P.MakeDependencies, P.MakeAppNamespaces, P.MakeArtifacts, P.InjectProfiles, Merged;
    O.CreateParts(db, project, req, db');
    var row := db'.packages[P.PackageKey(project, req)];
    InjectedRow(db, row.applications, map[], req.profiles, row.profiles, i);
    MadeProfileMerges(db, row.applications, map[], req.profiles[i], row.profiles);
  }

  /** A new package can be deleted again exactly if it was not created as deployed. */
  lemma DeleteUndoesCreatePackage(db: Db, active: string, req: PackageRequest)
    requires Call(db, active, AddPackage(req)).Ok?
    ensures var db' := After(db, active, AddPackage(req));
            Call(db', active, RemovePackage(req.name, req.version)) ==
            if req.isDeployed then Err(FailedPrecondition) else Ok(db)
  {
    hide P.CreatePackage, P.UpdatePackage, A.CreateApplication, A.UpdateApplication, A.DeleteApplication;
    var project, db' := ActiveProject(active), After(db, active, AddPackage(req));
    O.CreateParts(db, project, req, db');
    assert db'.packages - {P.PackageKey(project, req)} == db.packages;
  }
}
