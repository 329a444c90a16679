/** Exactly which calls about registries and artifacts are accepted, and which deletions. */
module Outcomes {
  import opened Prelude
  import opened Text
  import opened Tables
  import opened Catalog
  import opened Invariants
  import Runs
  import AI = AppInvariants
  import P = Packages
  import A = Applications
  import R = Registries

  // ---------- Registries ----------

  /** No other registry of the project shows the display name, ignoring case. */
  ghost predicate RegistryNameIsFree(db: Db, key: NamedKey, displayName: string) {
    forall k :: k in db.registries && k.project == key.project &&
                ToLower(db.registries[k].displayName) == ToLower(displayName) ==>
      k == key
  }

  /** Some application has the registry for its charts or its images. */
  ghost predicate HasUser(db: Db, key: NamedKey) {
    exists a :: a in db.applications &&
                (db.applications[a].helmRegistry == key || db.applications[a].imageRegistry == Some(key))
  }

  /** A new registry: the display name, or the name in its place, is free, and the name is new. */
  lemma AddRegistryOutcome(db: Db, active: string, req: RegistryRequest)
    requires Admissible(AddRegistry(req))
    ensures var key, r := NamedKey(ActiveProject(active), req.name), Call(db, active, AddRegistry(req));
            && (r.Ok? <==>
                IsTrimmed(req.displayName) && key !in db.registries &&
                    RegistryNameIsFree(db, key, DisplayName(req.name, req.displayName)))
            && (r == Err(AlreadyExists) <==>
                IsTrimmed(req.displayName) && !RegistryNameIsFree(db, key, DisplayName(req.name, req.displayName)))
  {
    hide P.CreatePackage, P.UpdatePackage, A.CreateApplication, A.UpdateApplication, A.DeleteApplication;
    hide P.ValidPackage, P.Unambiguous, A.ValidApplication, ValidVersion;
    ValidNamesArePlain(req.name);
  }

  /**
   * An update of a registry: it exists, the display name, if any, is free among the others, and the
   * type stays as it is while an application uses the registry.
   */
  lemma ChangeRegistryOutcome(db: Db, active: string, req: RegistryRequest)
    requires Reachable(db) && Admissible(ChangeRegistry(req.name, req))
    ensures var key, r := NamedKey(ActiveProject(active), req.name), Call(db, active, ChangeRegistry(req.name, req));
            && (r.Ok? <==>
                && IsTrimmed(req.displayName) && key in db.registries
                && (req.displayName == "" || RegistryNameIsFree(db, key, req.displayName))
                && (db.registries[key].kind == req.kind || !HasUser(db, key)))
            && (r == Err(FailedPrecondition) <==>
                && IsTrimmed(req.displayName) && key in db.registries
                && (req.displayName == "" || RegistryNameIsFree(db, key, req.displayName))
                && db.registries[key].kind != req.kind && HasUser(db, key))
            && (r == Err(NotFound) <==>
                && IsTrimmed(req.displayName) && key !in db.registries
                && (req.displayName == "" || RegistryNameIsFree(db, key, req.displayName)))
  {
    hide Reachable, Inv, P.CreatePackage, P.UpdatePackage, A.CreateApplication, A.UpdateApplication;
    hide A.DeleteApplication, P.ValidPackage, P.Unambiguous, A.ValidApplication, ValidVersion, ValidName, HasUser;
    var key := NamedKey(ActiveProject(active), req.name);
    Runs.EveryReachableStateFits(db);
    NameIsFreeIff(db, key, req.displayName);
    if key in db.registries {
      PinnedIff(db, key, req.kind);
    }
  }

  lemma NameIsFreeIff(db: Db, key: NamedKey, displayName: string)
    ensures R.RegistryDisplayTaken(db, key.project, key.name, displayName) <==>
            displayName != "" && !RegistryNameIsFree(db, key, displayName)
  {
  }

  /** The type is pinned exactly while an application uses the registry. */
  lemma PinnedIff(db: Db, key: NamedKey, kind: string)
    requires Inv(db) && key in db.registries && (kind == A.HELM || kind == A.IMAGE)
    ensures R.TypeIsPinned(db, key, kind) <==> db.registries[key].kind != kind && HasUser(db, key)
  {
    hide PackageFits;
    assert RegistryFits(key, db.registries[key]);
    forall a | a in db.applications
      ensures db.applications[a].helmRegistry == key ==> db.registries[key].kind == A.HELM
      ensures db.applications[a].imageRegistry == Some(key) ==> db.registries[key].kind == A.IMAGE
    {
      assert ApplicationFits(db, a, db.applications[a]);
    }
    if R.UsedAsHelm(db, key) {
      var a :| a in db.applications && db.applications[a].helmRegistry == key;
      assert HasUser(db, key);
    }
    if R.UsedAsImage(db, key) {
      var a :| a in db.applications && db.applications[a].imageRegistry == Some(key);
      assert HasUser(db, key);
    }
  }

  /** A registry is deleted if it exists and no application uses it; nothing else changes. */
  lemma RemoveRegistryOutcome(db: Db, active: string, name: string)
    requires Reachable(db) && name != ""
    ensures var key := NamedKey(ActiveProject(active), name);
            Call(db, active, RemoveRegistry(name)) ==
            if HasUser(db, key) then Err(FailedPrecondition)
            else if key !in db.registries then Err(NotFound)
            else Ok(db.(registries := db.registries - {key}))
  {
    hide Reachable, Inv, P.CreatePackage, P.UpdatePackage, A.CreateApplication, A.UpdateApplication;
    hide A.DeleteApplication, P.ValidPackage, P.Unambiguous, A.ValidApplication, R.InUse, HasUser;
    var key := NamedKey(ActiveProject(active), name);
    Runs.EveryReachableStateFits(db);
    InUseIff(db, key);
    if !HasUser(db, key) && key in db.registries {
      var db' := R.DeleteRegistry(db, key).value;
      DeleteRegistryKeepsInv(db, key, db');
    }
  }

  lemma InUseIff(db: Db, key: NamedKey)
    requires Inv(db)
    ensures R.InUse(db, key) <==> HasUser(db, key)
    ensures R.UsedAsHelm(db, key) ==> HasUser(db, key)
  {
    hide PackageFits;
    forall a | a in db.applications
      ensures db.applications[a].helmRegistry.project == a.project
      ensures db.applications[a].imageRegistry.Some? ==> db.applications[a].imageRegistry.value.project == a.project
    {
      assert ApplicationFits(db, a, db.applications[a]);
    }
    if R.InUse(db, key) {
      var a :| a in db.applications && a.project == key.project &&
          (db.applications[a].helmRegistry.name == key.name ||
           (db.applications[a].imageRegistry.Some? && db.applications[a].imageRegistry.value.name == key.name));
      assert HasUser(db, key);
    }
    if HasUser(db, key) {
      var a :| a in db.applications &&
          (db.applications[a].helmRegistry == key || db.applications[a].imageRegistry == Some(key));
      assert R.InUse(db, key);
    }
  }

  // ---------- Artifacts ----------

  ghost predicate ArtifactNameIsFree(db: Db, key: NamedKey, displayName: string) {
    forall k :: k in db.artifacts && k.project == key.project &&
                ToLower(db.artifacts[k].displayName) == ToLower(displayName) ==>
      k == key
  }

  /** Saving an artifact: the content fits, the name is new or known as it must be, and the display name is free. */
  lemma SaveArtifactOutcome(db: Db, active: string, op: Op)
    requires (op.AddArtifact? || op.ChangeArtifact?) && Admissible(op)
    ensures var req, r := op.artifact, Call(db, active, op);
            var key := NamedKey(ActiveProject(active), req.name);
            var ready, free := IsTrimmed(req.displayName) && op.contentFits,
                ArtifactNameIsFree(db, key, DisplayName(req.name, req.displayName));
            && (r.Ok? <==> ready && free && (op.ChangeArtifact? <==> key in db.artifacts))
            && (r == Err(AlreadyExists) <==> ready && !free)
            && (r == Err(NotFound) <==> ready && free && op.ChangeArtifact? && key !in db.artifacts)
  {
    hide P.CreatePackage, P.UpdatePackage, A.CreateApplication, A.UpdateApplication, A.DeleteApplication;
    hide P.ValidPackage, P.Unambiguous, A.ValidApplication, ValidVersion, ValidName;
    var key := NamedKey(ActiveProject(active), op.artifact.name);
    NotEmpty(op);
    var shown := DisplayName(op.artifact.name, op.artifact.displayName);
    assert R.ArtifactDisplayTaken(db, key.project, key.name, shown) <==> !ArtifactNameIsFree(db, key, shown);
  }

  lemma NotEmpty(op: Op)
    requires (op.AddArtifact? || op.ChangeArtifact?) && Admissible(op)
    ensures DisplayName(op.artifact.name, op.artifact.displayName) != ""
  {
    hide P.ValidPackage, P.Unambiguous, A.ValidApplication;
    ValidNamesArePlain(op.artifact.name);
  }

  /** So an artifact can always be saved again under the display name that it shows. */
  lemma ShownNameIsAccepted(db: Db, active: string, req: ArtifactRequest)
    requires Reachable(db) && Admissible(ChangeArtifact(req.name, req, true)) && IsTrimmed(req.displayName)
    requires var key := NamedKey(ActiveProject(active), req.name);
             key in db.artifacts && DisplayName(req.name, req.displayName) == db.artifacts[key].displayName
    ensures Call(db, active, ChangeArtifact(req.name, req, true)).Ok?
  {
    hide Reachable, PackageFits, ApplicationFits, RegistryFits, Call, Admissible;
    Runs.EveryReachableStateFits(db);
    SaveArtifactOutcome(db, active, ChangeArtifact(req.name, req, true));
  }

  /** An artifact is deleted if it exists and no package refers to it; nothing else changes. */
  lemma RemoveArtifactOutcome(db: Db, active: string, name: string)
    requires name != ""
    ensures var key := NamedKey(ActiveProject(active), name);
            Call(db, active, RemoveArtifact(name)) ==
            if key !in db.artifacts then Err(NotFound)
            else if exists k, i :: k in db.packages && 0 <= i < |db.packages[k].artifacts| &&
                                   db.packages[k].artifacts[i].artifact == key then Err(InvalidArgument)
            else Ok(db.(artifacts := db.artifacts - {key}))
  {
    hide P.CreatePackage, P.UpdatePackage, A.CreateApplication, A.UpdateApplication, A.DeleteApplication;
    hide P.ValidPackage, P.Unambiguous, A.ValidApplication;
    var key := NamedKey(ActiveProject(active), name);
    if R.ArtifactInUse(db, key) {
      var k :| k in db.packages && R.ReferencesArtifact(db.packages[k], key);
      var i :| 0 <= i < |db.packages[k].artifacts| && db.packages[k].artifacts[i].artifact == key;
    }
    if k, i :| k in db.packages && 0 <= i < |db.packages[k].artifacts| && db.packages[k].artifacts[i].artifact == key {
      assert R.ReferencesArtifact(db.packages[k], key);
    }
  }

  // ---------- Applications and deployment packages ----------

  /**
   * An application is deleted if no package has it as a member: then nothing else refers to it either,
   * except links from deployment profiles, which go with it.
   */
  lemma RemoveApplicationOutcome(db: Db, active: string, name: string, version: string)
    requires Reachable(db) && name != "" && version != ""
    ensures var key, r := VersionedKey(ActiveProject(active), name, version),
            Call(db, active, RemoveApplication(name, version));
            && (r.Err? ==>
                r == Err(if exists k :: k in db.packages && key in db.packages[k].applications then FailedPrecondition
                         else NotFound))
            && (r.Ok? <==>
                key in db.applications && !exists k :: k in db.packages && key in db.packages[k].applications)
            && (r.Ok? ==>
                && r.value == db.(applications := db.applications - {key}, packages := r.value.packages)
                && r.value.packages.Keys == db.packages.Keys
                && forall k :: k in db.packages ==> OnlyLosesLinks(db.packages[k], r.value.packages[k], key))
  {
    hide Reachable, Inv, P.CreatePackage, P.UpdatePackage, A.CreateApplication, A.UpdateApplication;
    hide P.ValidPackage, P.Unambiguous, A.ValidApplication, A.RefersTo, A.CascadeProfiles, OnlyLosesLinks;
    var key := VersionedKey(ActiveProject(active), name, version);
    Runs.EveryReachableStateFits(db);
    assert A.IsMember(db, key) <==> exists k :: k in db.packages && key in db.packages[k].applications;
    if !A.IsMember(db, key) {
      AI.OnlyMembersAreReferenced(db, key);
      if key in db.applications {
        CascadeOnlyDropsLinks(db, key);
      }
    }
  }

  /** The same row, except that links to the application are gone from its deployment profiles. */
  ghost predicate OnlyLosesLinks(row: PackageRow, row': PackageRow, key: VersionedKey) {
    && row' == row.(profiles := row'.profiles) && row'.profiles.Keys == row.profiles.Keys
    && forall n :: n in row.profiles ==>
         && row'.profiles[n] == row.profiles[n].(links := row'.profiles[n].links)
         && forall l :: l in row'.profiles[n].links <==> l in row.profiles[n].links && l.app != key
  }

  lemma CascadeOnlyDropsLinks(db: Db, key: VersionedKey)
    requires Inv(db) && key in db.applications
    ensures var packages := A.CascadeProfiles(db.packages, key, db.applications[key].profiles.Keys);
            packages.Keys == db.packages.Keys &&
            forall k :: k in db.packages ==> OnlyLosesLinks(db.packages[k], packages[k], key)
  {
    hide ApplicationFits, RegistryFits;
    var gone := db.applications[key].profiles.Keys;
    forall k, n, l | k in db.packages && n in db.packages[k].profiles && l in db.packages[k].profiles[n].links
      ensures l.app == key ==> l.profile in gone
    {
      assert PackageFits(db, k, db.packages[k]);
      assert LinksFit(db, k.project, db.packages[k].profiles[n].links);
      var links := db.packages[k].profiles[n].links;
      var i :| 0 <= i < |links| && links[i] == l;
      assert LinkFits(db, k.project, links[i]);
    }
  }

  /** A deployment package is deleted unless it is deployed; nothing else changes. */
  lemma RemovePackageOutcome(db: Db, active: string, name: string, version: string)
    requires name != "" && version != ""
    ensures var key := VersionedKey(ActiveProject(active), name, version);
            Call(db, active, RemovePackage(name, version)) ==
            if key !in db.packages then Err(NotFound)
            else if db.packages[key].isDeployed then Err(FailedPrecondition)
            else Ok(db.(packages := db.packages - {key}))
  {
    hide P.CreatePackage, P.UpdatePackage, A.CreateApplication, A.UpdateApplication, A.DeleteApplication;
    hide P.ValidPackage, P.Unambiguous, A.ValidApplication;
  }
}
