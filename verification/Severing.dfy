/** What the project wiper relies on: each of its calls is accepted, and what it leaves behind. */
module Severing {
  import opened Prelude
  import opened Text
  import opened Tables
  import opened Diff
  import opened Catalog
  import opened Invariants
  import P = Packages
  import A = Applications
  import R = Registries
  import O = Overwrite
  import I = Isolation

  // ---------- Severing a package from everything it refers to ----------

  /** An empty map or list is absent from a response on the wire. */
  function OnWire(m: map<string, string>): Option<map<string, string>> {
    if m == map[] then None else Some(m)
  }

  function ReadNamespace(n: NamespaceRow): NamespaceRequest {
    NamespaceRequest(n.name, OnWire(n.labels), OnWire(n.annotations))
  }

  function ReadExtensionOnWire(e: ExtensionRow): ExtensionRequest {
    ExtensionRequest(e.name, e.version, e.displayName, e.description,
                     if e.endpoints == [] then None else Some(e.endpoints), P.ReadUi(e.ui))
  }

  /** The package as read back, marked not deployed and without members and profiles. */
  function SeveredRequest(key: VersionedKey, row: PackageRow): PackageRequest {
    PackageRequest(
      key.name, row.displayName, row.description, key.version, KindFromDb(row.kind),
      false, row.isVisible, !row.allowsMultiple, [], [], [],
      MapSeq(ReadNamespace, row.namespaces), [], "",
      MapSeq(ReadExtensionOnWire, row.extensions), MapSeq(O.ReadArtifact, row.artifacts), [])
  }

  predicate IsSevered(row: PackageRow) {
    !row.isDeployed && row.applications == [] && row.dependencies == [] && row.appNamespaces == map[] &&
    row.profiles == map[]
  }

  lemma SeveredRequestIsValid(db: Db, key: VersionedKey, row: PackageRow)
    requires PackageFits(db, key, row)
    ensures P.ValidPackage(SeveredRequest(key, row)) && P.Unambiguous(SeveredRequest(key, row))
  {
    var req := SeveredRequest(key, row);
    forall i | 0 <= i < |req.extensions|
      ensures P.ValidExtension(req.extensions[i])
    {
      assert ValidName(row.extensions[i].name);
    }
    forall i | 0 <= i < |req.namespaces|
      ensures ValidName(req.namespaces[i].name)
    {
      assert ValidName(row.namespaces[i].name);
    }
    assert ArtifactsFit(db, key.project, row.artifacts);
    forall i | 0 <= i < |req.artifacts|
      ensures ValidName(req.artifacts[i].name)
    {
      assert req.artifacts[i].name == row.artifacts[i].artifact.name;
    }
  }

  /** A request without dependencies and default namespaces is always comparable. */
  lemma SeveredChanges(row: PackageRow, req: PackageRequest)
    requires req.dependencies == [] && req.defaultNamespaces == []
    ensures P.PackageChanges(row, req).Ok?
    ensures var ch := P.PackageChanges(row, req).value;
            && (!ch.dependencies ==> row.dependencies == [])
            && (!ch.defaultNamespaces ==> row.appNamespaces == map[])
            && (req.applications == [] && !ch.applications ==> row.applications == [])
            && (req.profiles == [] && !ch.profiles ==> row.profiles == map[])
            && (req.profiles == [] ==> ch.newProfiles == [])
  {
    assert |row.appNamespaces| == 0 ==> row.appNamespaces == map[];
    if req.profiles == [] && !P.ProfilesChanged(row, req) {
      assert forall n :: n in row.profiles ==> Named(req.profiles, P.ProfileName, n);
      assert row.profiles == map[];
    }
  }

  lemma SeveredMembers(db: Db, project: string, row: PackageRow, req: PackageRequest, ch: P.Changes)
    requires req.applications == [] && req.dependencies == [] && req.defaultNamespaces == []
    requires !ch.dependencies ==> row.dependencies == []
    requires !ch.defaultNamespaces ==> row.appNamespaces == map[]
    requires !ch.applications ==> row.applications == []
    ensures P.ApplyMembers(db, project, row, req, ch) == Ok(P.Members([], [], map[]))
  {
    assert P.MakeApplications(db, project, []) == Ok([]);
    assert P.MakeDependencies([], []).value == [];
    assert P.MakeAppNamespaces([], []).value == map[];
  }

  lemma SeveredProfiles(db: Db, row: PackageRow, req: PackageRequest, ch: P.Changes)
    requires req.profiles == [] && req.defaultProfile == "" && ch.newProfiles == []
    requires !ch.profiles ==> row.profiles == map[]
    ensures var r := P.ApplyProfiles(db, [], row, req, ch);
            r.Ok? && r.value.0 == map[]
  {
    assert NewItems(row.profiles, [], P.ProfileName) == [];
    assert |req.mapOrder| == 0 ==> req.mapOrder == [];
    ArrangeKeeps(NewItems(row.profiles, [], P.ProfileName), req.mapOrder, P.ProfileName);
    if ch.profiles || ch.applications {
      forall n | n in row.profiles
        ensures P.Requested([], n).None?
      {
      }
      assert P.KeptProfiles(db, [], row.profiles, []) == map[];
    }
  }

  lemma StoredArtifactsExist(db: Db, key: VersionedKey, row: PackageRow)
    requires PackageFits(db, key, row)
    ensures P.MakeArtifacts(db, key.project, MapSeq(O.ReadArtifact, row.artifacts)).Ok?
  {
    assert ArtifactsFit(db, key.project, row.artifacts);
    var arts := MapSeq(O.ReadArtifact, row.artifacts);
    forall i | 0 <= i < |arts|
      ensures NamedKey(key.project, arts[i].name) in db.artifacts
    {
      assert row.artifacts[i].artifact == NamedKey(key.project, arts[i].name);
    }
  }

  lemma NothingInTheEmptyProject(db: Db, req: PackageRequest)
    requires Inv(db)
    ensures !P.DisplayTaken(db, "", req)
  {
    forall k | k in db.packages
      ensures k.project != ""
    {
      assert PackageFits(db, k, db.packages[k]);
    }
  }

  lemma FitsAt(db: Db, key: VersionedKey)
    requires Inv(db) && key in db.packages
    ensures PackageFits(db, key, db.packages[key])
  {
  }

  lemma StoredExtensionsFit(db: Db, key: VersionedKey, row: PackageRow)
    requires PackageFits(db, key, row)
    ensures P.MakeExtensions(MapSeq(ReadExtensionOnWire, row.extensions)).Ok?
  {
    assert ListsFit(row);
    var remade := MapSeq(P.MakeExtension, MapSeq(ReadExtensionOnWire, row.extensions));
    forall i | 0 <= i < |remade|
      ensures remade[i].name == row.extensions[i].name && remade[i].version == row.extensions[i].version
      ensures remade[i].endpoints == row.extensions[i].endpoints
    {
    }
  }

  lemma SeveredRow(db: Db, key: VersionedKey)
    requires Inv(db) && key in db.packages
    ensures var r := P.UpdateRow(db, key.project, db.packages[key], SeveredRequest(key, db.packages[key]));
            r.Ok? && IsSevered(r.value)
  {
    hide P.PackageChanges, P.ApplyMembers, P.ApplyProfiles, P.MakeArtifacts, P.MakeExtensions, Inv, PackageFits,
         P.DisplayTaken;
    var row := db.packages[key];
    var req := SeveredRequest(key, row);
    SeveredChanges(row, req);
    var ch := P.PackageChanges(row, req).value;
    if !(ch.kindOrState && !ch.Changed()) {
      NothingInTheEmptyProject(db, req);
      SeveredMembers(db, key.project, row, req, ch);
      SeveredProfiles(db, row, req, ch);
      FitsAt(db, key);
      StoredArtifactsExist(db, key, row);
      StoredExtensionsFit(db, key, row);
    } else {
      assert !ch.applications && !ch.dependencies && !ch.defaultNamespaces && !ch.profiles;
    }
  }

  /** The update that severs a package is always accepted, deployed or not, and changes only that row. */
  lemma SeveringSucceeds(db: Db, key: VersionedKey)
    requires Inv(db) && key in db.packages
    ensures var op := ChangePackage(key.name, key.version, SeveredRequest(key, db.packages[key]));
            && Call(db, key.project, op).Ok?
            && var db' := After(db, key.project, op);
               key in db'.packages && IsSevered(db'.packages[key]) &&
               db' == db.(packages := db.packages[key := db'.packages[key]])
  {
    hide P.UpdateRow, P.ValidPackage, P.Unambiguous, IsSevered;
    var row := db.packages[key];
    assert PackageFits(db, key, row);
    SeveredRequestIsValid(db, key, row);
    SeveredRow(db, key);
  }

  // ---------- The deletions that follow ----------

  ghost predicate AllSevered(db: Db, project: string) {
    forall k :: k in db.packages && k.project == project ==> IsSevered(db.packages[k])
  }

  ghost predicate NoPackages(db: Db, project: string) {
    forall k :: k in db.packages ==> k.project != project
  }

  ghost predicate NoApplications(db: Db, project: string) {
    forall k :: k in db.applications ==> k.project != project
  }

  lemma PackageDeletionSucceeds(db: Db, key: VersionedKey)
    requires Inv(db) && key in db.packages && IsSevered(db.packages[key])
    ensures var op := RemovePackage(key.name, key.version);
            Call(db, key.project, op).Ok? && After(db, key.project, op) == db.(packages := db.packages - {key})
  {
    assert PackageFits(db, key, db.packages[key]);
  }

  lemma NoPackageRefers(db: Db, key: VersionedKey)
    requires Inv(db) && NoPackages(db, key.project)
    ensures forall k :: k in db.packages ==> key !in db.packages[k].applications && !A.RefersTo(db.packages[k], key)
  {
    forall k | k in db.packages
      ensures key !in db.packages[k].applications && !A.RefersTo(db.packages[k], key)
    {
      assert PackageFits(db, k, db.packages[k]);
    }
  }

  lemma CascadeTouchesNothing(db: Db, key: VersionedKey, gone: set<string>)
    requires Inv(db) && NoPackages(db, key.project)
    ensures A.CascadeProfiles(db.packages, key, gone) == db.packages
  {
    I.CascadeStaysInProject(db, key, gone);
    assert A.CascadeProfiles(db.packages, key, gone).Keys == db.packages.Keys;
  }

  /** Without packages in the project, no application of it is a member of any package. */
  lemma ApplicationDeletionSucceeds(db: Db, key: VersionedKey)
    requires Inv(db) && key in db.applications
    requires NoPackages(db, key.project)
    ensures var op := RemoveApplication(key.name, key.version);
            && Call(db, key.project, op).Ok?
            && After(db, key.project, op) == db.(applications := db.applications - {key})
  {
    hide PackageFits, A.CascadeProfiles, A.RefersTo;
    assert ApplicationFits(db, key, db.applications[key]);
    NoPackageRefers(db, key);
    CascadeTouchesNothing(db, key, db.applications[key].profiles.Keys);
  }

  /** Without packages in the project, no artifact of it is referred to. */
  lemma ArtifactDeletionSucceeds(db: Db, key: NamedKey)
    requires Inv(db) && key in db.artifacts
    requires NoPackages(db, key.project)
    ensures var op := RemoveArtifact(key.name);
            Call(db, key.project, op).Ok? && After(db, key.project, op) == db.(artifacts := db.artifacts - {key})
  {
    hide P.CreatePackage, P.UpdatePackage, A.CreateApplication, A.UpdateApplication, A.DeleteApplication;
    forall k | k in db.packages
      ensures !R.ReferencesArtifact(db.packages[k], key)
    {
      assert PackageFits(db, k, db.packages[k]);
    }
  }

  /** Without applications in the project, no registry of it is in use. */
  lemma RegistryDeletionSucceeds(db: Db, key: NamedKey)
    requires Inv(db) && key in db.registries
    requires NoApplications(db, key.project)
    ensures var op := RemoveRegistry(key.name);
            && Call(db, key.project, op).Ok?
            && After(db, key.project, op) == db.(registries := db.registries - {key})
  {
    assert RegistryFits(key, db.registries[key]);
    forall k | k in db.applications
      ensures db.applications[k].helmRegistry != key
    {
      assert ApplicationFits(db, k, db.applications[k]);
    }
    DeleteRegistryKeepsInv(db, key, After(db, key.project, RemoveRegistry(key.name)));
  }
}
