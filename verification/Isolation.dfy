/** Projects are isolated: a call made in one project leaves every row of the others alone. */
module Isolation {
  import opened Prelude
  import opened Tables
  import opened Catalog
  import opened Invariants
  import AI = AppInvariants
  import P = Packages
  import A = Applications
  import Runs

  ghost predicate SameVersioned<T>(m: map<VersionedKey, T>, m': map<VersionedKey, T>, project: string) {
    forall k: VersionedKey :: k.project != project ==> (k in m <==> k in m') && (k in m && k in m' ==> m[k] == m'[k])
  }

  ghost predicate SameNamed<T>(m: map<NamedKey, T>, m': map<NamedKey, T>, project: string) {
    forall k: NamedKey :: k.project != project ==> (k in m <==> k in m') && (k in m && k in m' ==> m[k] == m'[k])
  }

  /** The two states agree on every row that does not belong to the project. */
  ghost predicate SameElsewhere(db: Db, db': Db, project: string) {
    SameNamed(db.registries, db'.registries, project) && SameNamed(db.artifacts, db'.artifacts, project) &&
    SameVersioned(db.applications, db'.applications, project) && SameVersioned(db.packages, db'.packages, project)
  }

  /** Deleting an application touches links of its own project only. */
  lemma CascadeStaysInProject(db: Db, app: VersionedKey, gone: set<string>)
    requires Inv(db)
    ensures SameVersioned(db.packages, A.CascadeProfiles(db.packages, app, gone), app.project)
  {
    var after := A.CascadeProfiles(db.packages, app, gone);
    forall k | k in db.packages && k.project != app.project
      ensures after[k] == db.packages[k]
    {
      var row := db.packages[k];
      assert PackageFits(db, k, row);
      forall n | n in row.profiles
        ensures after[k].profiles[n] == row.profiles[n]
      {
        assert LinksFit(db, k.project, row.profiles[n].links);
        forall i | 0 <= i < |row.profiles[n].links|
          ensures row.profiles[n].links[i].app != app
        {
          assert LinkFits(db, k.project, row.profiles[n].links[i]);
        }
        AI.DropLinksKeeps(row.profiles[n].links, app, gone);
      }
      assert after[k].profiles == row.profiles;
    }
  }

  lemma ChangeApplicationIsIsolated(db: Db, project: string, req: ApplicationRequest, db': Db)
    requires Inv(db) && A.UpdateApplication(db, project, req) == Ok(db')
    ensures SameElsewhere(db, db', project)
  {
    AI.UpdateApplicationParts(db, project, req, db');
    AI.UpdateApplicationKeepsPackages(db, project, req, db');
  }

  lemma RemoveApplicationIsIsolated(db: Db, app: VersionedKey, db': Db)
    requires Inv(db) && A.DeleteApplication(db, app) == Ok(db')
    ensures SameElsewhere(db, db', app.project)
  {
    CascadeStaysInProject(db, app, db.applications[app].profiles.Keys);
  }

  lemma AddApplicationIsIsolated(db: Db, project: string, req: ApplicationRequest, db': Db)
    requires project != "" && A.ValidApplication(req) && A.CreateApplication(db, project, req) == Ok(db')
    ensures SameElsewhere(db, db', project)
  {
    AI.CreatedRowFits(db, project, req, db');
  }

  lemma PackageCallIsIsolated(db: Db, project: string, op: Op, db': Db)
    requires Transact(db, project, op) == Ok(db')
    requires op.AddPackage? || op.ChangePackage? || op.RemovePackage?
    ensures SameElsewhere(db, db', project)
  {
    if op.AddPackage? {
      CreatePackageAdds(db, project, op.package, db');
    }
  }

  lemma RegistryCallIsIsolated(db: Db, project: string, op: Op, db': Db)
    requires Inv(db) && Transact(db, project, op) == Ok(db')
    requires op.AddRegistry? || op.ChangeRegistry? || op.RemoveRegistry?
    ensures SameElsewhere(db, db', project)
  {
    hide Inv, P.CreatePackage, P.UpdatePackage, P.DeletePackage, A.CreateApplication, A.UpdateApplication,
         A.DeleteApplication;
    if op.RemoveRegistry? {
      DeleteRegistryKeepsInv(db, NamedKey(project, op.name), db');
    }
  }

  lemma ArtifactCallIsIsolated(db: Db, project: string, op: Op, db': Db)
    requires Transact(db, project, op) == Ok(db')
    requires op.AddArtifact? || op.ChangeArtifact? || op.RemoveArtifact?
    ensures SameElsewhere(db, db', project)
  {
  }

  lemma CallIsIsolated(db: Db, active: string, op: Op)
    requires Inv(db)
    ensures SameElsewhere(db, After(db, active, op), ActiveProject(active))
  {
    hide Inv, P.CreatePackage, P.UpdatePackage, P.DeletePackage, A.CreateApplication, A.UpdateApplication,
         A.DeleteApplication;
    var project, db' := ActiveProject(active), After(db, active, op);
    if Call(db, active, op).Ok? {
      if op.AddApplication? {
        AddApplicationIsIsolated(db, project, op.application, db');
      } else if op.ChangeApplication? {
        ChangeApplicationIsIsolated(db, project, op.application, db');
      } else if op.RemoveApplication? {
        RemoveApplicationIsIsolated(db, VersionedKey(project, op.name, op.version), db');
      } else if op.AddPackage? || op.ChangePackage? || op.RemovePackage? {
        PackageCallIsIsolated(db, project, op, db');
      } else if op.AddRegistry? || op.ChangeRegistry? || op.RemoveRegistry? {
        RegistryCallIsIsolated(db, project, op, db');
      } else {
        ArtifactCallIsIsolated(db, project, op, db');
      }
    }
  }

  /** Over any run of calls made in one project, all rows of the other projects stay as they were. */
  lemma {:induction false} RunIsIsolated(db: Db, calls: seq<(string, Op)>, project: string)
    requires Inv(db)
    requires forall i :: 0 <= i < |calls| ==> ActiveProject(calls[i].0) == project
    ensures SameElsewhere(db, Run(db, calls), project)
  {
    hide Inv, After;
    if calls != [] {
      var last := |calls| - 1;
      RunIsIsolated(db, calls[..last], project);
      Runs.RunKeepsInv(db, calls[..last]);
      CallIsIsolated(Run(db, calls[..last]), calls[last].0, calls[last].1);
      SameElsewhereTransitive(db, Run(db, calls[..last]), Run(db, calls), project);
    }
  }

  lemma SameElsewhereTransitive(a: Db, b: Db, c: Db, project: string)
    requires SameElsewhere(a, b, project) && SameElsewhere(b, c, project)
    ensures SameElsewhere(a, c, project)
  {
  }
}
