/** One transaction per RPC: the checks that precede it, then the steps on a copy of the tables. */
module Transactions {
  import opened Prelude
  import opened Text
  import opened Tables
  import opened Catalog
  import opened Invariants
  import PS = PackageSteps
  import AS = ApplicationSteps
  import P = Packages
  import A = Applications
  import R = Registries
  import Runs

  method CreateRegistry(db: Db, active: string, req: RegistryRequest) returns (r: Result<Db>)
    ensures r == Call(db, active, AddRegistry(req))
  {
    if !R.ValidRegistry(req) {
      return Err(InvalidArgument);
    }
    r := R.CreateRegistry(db, ActiveProject(active), req);
  }

  method UpdateRegistry(db: Db, active: string, name: string, req: RegistryRequest) returns (r: Result<Db>)
    ensures r == Call(db, active, ChangeRegistry(name, req))
  {
    if name == "" || !R.ValidRegistry(req) || name != req.name {
      return Err(InvalidArgument);
    }
    r := R.UpdateRegistry(db, ActiveProject(active), req);
  }

  method DeleteRegistry(db: Db, active: string, name: string) returns (r: Result<Db>)
    ensures r == Call(db, active, RemoveRegistry(name))
  {
    if name == "" {
      return Err(InvalidArgument);
    }
    r := R.DeleteRegistry(db, NamedKey(ActiveProject(active), name));
  }

  method CreateArtifact(db: Db, active: string, req: ArtifactRequest, contentFits: bool) returns (r: Result<Db>)
    ensures r == Call(db, active, AddArtifact(req, contentFits))
  {
    if !R.ValidArtifact(req) {
      return Err(InvalidArgument);
    }
    r := R.CreateArtifact(db, ActiveProject(active), req, contentFits);
  }

  method UpdateArtifact(
    db: Db, active: string, name: string, req: ArtifactRequest, contentFits: bool) returns (r: Result<Db>)
    ensures r == Call(db, active, ChangeArtifact(name, req, contentFits))
  {
    if name == "" || !R.ValidArtifact(req) || name != req.name {
      return Err(InvalidArgument);
    }
    r := R.UpdateArtifact(db, ActiveProject(active), req, contentFits);
  }

  method DeleteArtifact(db: Db, active: string, name: string) returns (r: Result<Db>)
    ensures r == Call(db, active, RemoveArtifact(name))
  {
    if name == "" {
      return Err(InvalidArgument);
    }
    r := R.DeleteArtifact(db, NamedKey(ActiveProject(active), name));
  }

  method CreateApplication(db: Db, active: string, req: ApplicationRequest) returns (r: Result<Db>)
    ensures r == Call(db, active, AddApplication(req))
  {
    if !A.ValidApplication(req) {
      return Err(InvalidArgument);
    }
    r := AS.CreateOneApplication(db, ActiveProject(active), req);
  }

  method UpdateApplication(
    db: Db, active: string, name: string, version: string, req: ApplicationRequest) returns (r: Result<Db>)
    requires Reachable(db)
    requires var key := A.ApplicationKey(ActiveProject(active), req);
             key in db.applications ==> A.IsOrderOf(req.rowOrder, db.applications[key].profiles.Keys)
    ensures r == Call(db, active, ChangeApplication(name, version, req))
  {
    if name == "" || version == "" || !A.ValidApplication(req) || name != req.name || version != req.version {
      return Err(InvalidArgument);
    }
    StoredResourcesAreSlashFree(db, A.ApplicationKey(ActiveProject(active), req));
    r := AS.UpdateOneApplication(db, ActiveProject(active), req);
  }

  method DeleteApplication(db: Db, active: string, name: string, version: string) returns (r: Result<Db>)
    ensures r == Call(db, active, RemoveApplication(name, version))
  {
    if name == "" || version == "" {
      return Err(InvalidArgument);
    }
    r := A.DeleteApplication(db, VersionedKey(ActiveProject(active), name, version));
  }

  method CreateDeploymentPackage(db: Db, active: string, req: PackageRequest) returns (r: Result<Db>)
    ensures r == Call(db, active, AddPackage(req))
  {
    if !P.ValidPackage(req) {
      return Err(InvalidArgument);
    }
    var accepted := PS.ValidateDeploymentProfiles(req);
    if !accepted {
      return Err(InvalidArgument);
    }
    r := PS.CreateDeploymentPackage(db, ActiveProject(active), req);
  }

  method UpdateDeploymentPackage(
    db: Db, active: string, name: string, version: string, req: PackageRequest) returns (r: Result<Db>)
    requires Reachable(db)
    ensures r == Call(db, active, ChangePackage(name, version, req))
  {
    if name == "" || version == "" || !P.ValidPackage(req) || name != req.name || version != req.version {
      return Err(InvalidArgument);
    }
    var accepted := PS.ValidateDeploymentProfiles(req);
    if !accepted {
      return Err(InvalidArgument);
    }
    StoredNamesArePlain(db, P.PackageKey(ActiveProject(active), req));
    r := PS.UpdateDeploymentPackage(db, ActiveProject(active), req);
  }

  method DeleteDeploymentPackage(db: Db, active: string, name: string, version: string) returns (r: Result<Db>)
    ensures r == Call(db, active, RemovePackage(name, version))
  {
    if name == "" || version == "" {
      return Err(InvalidArgument);
    }
    r := P.DeletePackage(db, VersionedKey(ActiveProject(active), name, version));
  }

  // ---------- What the invariant provides ----------

  lemma StoredNamesArePlain(db: Db, key: VersionedKey)
    requires Reachable(db)
    ensures key in db.packages ==> PS.PlainRow(db.packages[key])
  {
    Runs.EveryReachableStateFits(db);
    if key in db.packages {
      var row := db.packages[key];
      assert PackageFits(db, key, row);
      forall i | 0 <= i < |row.applications|
        ensures Plain(row.applications[i].name) && Plain(row.applications[i].version)
      {
        assert ApplicationFits(db, row.applications[i], db.applications[row.applications[i]]);
        ValidNamesArePlain(row.applications[i].name);
        ValidNamesArePlain(row.applications[i].version);
      }
      forall i | 0 <= i < |row.dependencies|
        ensures Plain(row.dependencies[i].source.name) && Plain(row.dependencies[i].target.name)
      {
        assert row.dependencies[i].source in row.applications && row.dependencies[i].target in row.applications;
      }
    }
  }

  lemma StoredResourcesAreSlashFree(db: Db, key: VersionedKey)
    requires Reachable(db)
    ensures key in db.applications ==> AS.SlashFree(db.applications[key].ignored)
  {
    Runs.EveryReachableStateFits(db);
    if key in db.applications {
      assert ApplicationFits(db, key, db.applications[key]);
      assert forall i :: 0 <= i < |db.applications[key].ignored| ==> A.ValidResource(db.applications[key].ignored[i]);
    }
  }
}
