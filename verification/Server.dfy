/**
 * The catalog server: tables and secret store as mutable state, one method per RPC. A transaction
 * works on a private copy of the tables, which replaces them on commit and is dropped on rollback.
 */
module Server {
  import opened Prelude
  import opened Text
  import opened Tables
  import opened Catalog
  import opened Invariants
  import opened Pagination
  import Runs
  import P = Packages
  import A = Applications
  import Transactions
  import Listings

  // ---------- Secrets ----------

  /** The key under which a registry's connection data is kept. */
  function SecretPath(key: NamedKey): string {
    "cat-" + key.project + "_" + key.name
  }

  lemma SecretPathIsUnique(a: NamedKey, b: NamedKey)
    requires '_' !in a.name && '_' !in b.name && SecretPath(a) == SecretPath(b)
    ensures a == b
  {
    LastSeparatorIsUnique("cat-" + a.project, a.name, "cat-" + b.project, b.name, '_');
    assert a.project == ("cat-" + a.project)[4..] && b.project == ("cat-" + b.project)[4..];
  }

  /** Some live registry keeps its secret under the path. */
  ghost predicate HasOwner(live: map<NamedKey, string>, path: string) {
    exists k :: k in live && SecretPath(k) == path
  }

  /** The string-keyed store holds exactly the secret of each live registry. */
  ghost predicate SecretsAgree(secrets: map<string, string>, live: map<NamedKey, string>) {
    && (forall k :: k in live ==> SecretPath(k) in secrets && secrets[SecretPath(k)] == live[k])
    && (forall path :: path in secrets ==> HasOwner(live, path))
  }

  lemma WriteSecretAgrees(secrets: map<string, string>, live: map<NamedKey, string>, key: NamedKey, secret: string)
    requires SecretsAgree(secrets, live) && PlainRegistries(live.Keys + {key})
    ensures SecretsAgree(secrets[SecretPath(key) := secret], live[key := secret])
  {
    var secrets', live' := secrets[SecretPath(key) := secret], live[key := secret];
    forall k | k in live'
      ensures SecretPath(k) in secrets' && secrets'[SecretPath(k)] == live'[k]
    {
      if SecretPath(k) == SecretPath(key) {
        SecretPathIsUnique(k, key);
      }
    }
    forall path | path in secrets'
      ensures HasOwner(live', path)
    {
      if path == SecretPath(key) {
        assert key in live' && SecretPath(key) == path;
      } else {
        var k :| k in live && SecretPath(k) == path;
        assert k in live' && SecretPath(k) == path;
      }
    }
  }

  lemma DeleteSecretAgrees(secrets: map<string, string>, live: map<NamedKey, string>, key: NamedKey)
    requires SecretsAgree(secrets, live) && PlainRegistries(live.Keys + {key})
    ensures SecretsAgree(secrets - {SecretPath(key)}, live - {key})
  {
    var secrets', live' := secrets - {SecretPath(key)}, live - {key};
    forall k | k in live'
      ensures SecretPath(k) in secrets' && secrets'[SecretPath(k)] == live'[k]
    {
      if SecretPath(k) == SecretPath(key) {
        SecretPathIsUnique(k, key);
      }
    }
    forall path | path in secrets'
      ensures HasOwner(live', path)
    {
      var k :| k in live && SecretPath(k) == path;
      assert k in live' && SecretPath(k) == path;
    }
  }

  // ---------- Listings ----------

  /** A row order of the database: for every set of rows, some order of exactly those rows. */
  ghost predicate IsRowOrder<K(!new)>(order: set<K> -> seq<K>) {
    forall s :: NoDup(order(s)) && Elements(order(s)) == s
  }

  function PackagesOf(db: Db, project: string): set<VersionedKey> {
    set k | k in db.packages && k.project == project
  }

  function ApplicationsOf(db: Db, project: string): set<VersionedKey> {
    set k | k in db.applications && k.project == project
  }

  /** In the admin project, artifacts of all projects are listed. */
  function ArtifactsOf(db: Db, project: string): set<NamedKey> {
    set k | k in db.artifacts && (project == ADMIN_PROJECT || k.project == project)
  }

  function RegistriesOf(db: Db, project: string): set<NamedKey> {
    set k | k in db.registries && k.project == project
  }

  function ErrorOf<T>(r: Result<T>): Option<Error> {
    match r
    case Ok(_) => None
    case Err(e) => Some(e)
  }

  class Server {
    var registries: map<NamedKey, RegistryRow>
    var artifacts: map<NamedKey, ArtifactRow>
    var applications: map<VersionedKey, ApplicationRow>
    var packages: map<VersionedKey, PackageRow>
    var secrets: map<string, string>
    ghost var live: map<NamedKey, string>  // the secret last written for each registry that exists

    const versionedOrder: set<VersionedKey> -> seq<VersionedKey>
    const namedOrder: set<NamedKey> -> seq<NamedKey>
    const nameOrder: set<string> -> seq<string>

    function Tables(): Db
      reads this
    {
      Db(registries, artifacts, applications, packages)
    }

    ghost predicate Valid()
      reads this
    {
      && Reachable(Tables())
      && live.Keys == registries.Keys && SecretsAgree(secrets, live)
      && IsRowOrder(versionedOrder) && IsRowOrder(namedOrder) && IsRowOrder(nameOrder)
    }

    constructor (
      versionedOrder: set<VersionedKey> -> seq<VersionedKey>, namedOrder: set<NamedKey> -> seq<NamedKey>,
      nameOrder: set<string> -> seq<string>)
      requires IsRowOrder(versionedOrder) && IsRowOrder(namedOrder) && IsRowOrder(nameOrder)
      ensures Valid() && Tables() == EMPTY && secrets == map[] && live == map[]
    {
      registries, artifacts, applications, packages := map[], map[], map[], map[];
      secrets, live := map[], map[];
      this.versionedOrder, this.namedOrder, this.nameOrder := versionedOrder, namedOrder, nameOrder;
      EmptyIsReachable();
    }

    /** Ends a transaction that keeps the registries: commits what it computed, or rolls back. */
    method Finish(ghost active: string, ghost op: Op, r: Result<Db>) returns (e: Option<Error>)
      requires Valid() && r == Call(Tables(), active, op) && KeepsRegistryKeys(op)
      modifies this`registries, this`artifacts, this`applications, this`packages
      ensures Valid()
      ensures e == ErrorOf(r) && Tables() == After(old(Tables()), active, op)
    {
      AfterIsReachable(Tables(), active, op);
      RegistryKeysStay(Tables(), active, op);
      e := ErrorOf(r);
      if r.Ok? {
        Commit(r.value);
      }
    }

    method Commit(db: Db)
      modifies this`registries, this`artifacts, this`applications, this`packages
      ensures Tables() == db
    {
      registries, artifacts, applications, packages := db.registries, db.artifacts, db.applications, db.packages;
    }

    // ---------- Registries ----------

    method CreateRegistry(active: string, req: RegistryRequest) returns (e: Option<Error>)
      requires Valid()
      modifies this
      ensures Valid()
      ensures e == ErrorOf(Call(old(Tables()), active, AddRegistry(req)))
      ensures Tables() == After(old(Tables()), active, AddRegistry(req))
      ensures live == if e.None? then old(live)[NamedKey(ActiveProject(active), req.name) := req.secret] else old(live)
    {
      var r := Transactions.CreateRegistry(Tables(), active, req);
      e := ErrorOf(r);
      if r.Ok? {
        SavedRegistry(Tables(), active, AddRegistry(req));
        CommitWithSecret(r.value, NamedKey(ActiveProject(active), req.name), req.secret);
      }
    }

    method UpdateRegistry(active: string, name: string, req: RegistryRequest) returns (e: Option<Error>)
      requires Valid()
      modifies this
      ensures Valid()
      ensures e == ErrorOf(Call(old(Tables()), active, ChangeRegistry(name, req)))
      ensures Tables() == After(old(Tables()), active, ChangeRegistry(name, req))
      ensures live == if e.None? then old(live)[NamedKey(ActiveProject(active), req.name) := req.secret] else old(live)
    {
      var r := Transactions.UpdateRegistry(Tables(), active, name, req);
      e := ErrorOf(r);
      if r.Ok? {
        SavedRegistry(Tables(), active, ChangeRegistry(name, req));
        CommitWithSecret(r.value, NamedKey(ActiveProject(active), req.name), req.secret);
      }
    }

    method DeleteRegistry(active: string, name: string) returns (e: Option<Error>)
      requires Valid()
      modifies this
      ensures Valid()
      ensures e == ErrorOf(Call(old(Tables()), active, RemoveRegistry(name)))
      ensures Tables() == After(old(Tables()), active, RemoveRegistry(name))
      ensures live == if e.None? then old(live) - {NamedKey(ActiveProject(active), name)} else old(live)
    {
      var r := Transactions.DeleteRegistry(Tables(), active, name);
      e := ErrorOf(r);
      if r.Ok? {
        DeletedRegistry(Tables(), active, name);
        CommitWithoutSecret(r.value, NamedKey(ActiveProject(active), name));
      }
    }

    /** Saves a registry: its secret is written, then the tables are committed. */
    method CommitWithSecret(db: Db, key: NamedKey, secret: string)
      requires Valid() && Reachable(db) && PlainRegistries(registries.Keys + {key})
      requires db.registries.Keys == registries.Keys + {key}
      modifies this
      ensures Valid() && Tables() == db && live == old(live)[key := secret]
    {
      hide Reachable, SecretsAgree;
      WriteSecret(key, secret);
      Commit(db);
    }

    method WriteSecret(key: NamedKey, secret: string)
      requires SecretsAgree(secrets, live) && PlainRegistries(live.Keys + {key})
      modifies this`secrets, this`live
      ensures SecretsAgree(secrets, live) && live == old(live)[key := secret]
    {
      WriteSecretAgrees(secrets, live, key, secret);
      secrets, live := secrets[SecretPath(key) := secret], live[key := secret];
    }

    /** Removes a registry: its secret is deleted, then the tables are committed. */
    method CommitWithoutSecret(db: Db, key: NamedKey)
      requires Valid() && Reachable(db) && PlainRegistries(registries.Keys + {key})
      requires db.registries.Keys == registries.Keys - {key}
      modifies this
      ensures Valid() && Tables() == db && live == old(live) - {key}
    {
      DeleteSecret(key);
      Commit(db);
    }

    method DeleteSecret(key: NamedKey)
      requires SecretsAgree(secrets, live) && PlainRegistries(live.Keys + {key})
      modifies this`secrets, this`live
      ensures SecretsAgree(secrets, live) && live == old(live) - {key}
    {
      DeleteSecretAgrees(secrets, live, key);
      secrets, live := secrets - {SecretPath(key)}, live - {key};
    }

    // ---------- Artifacts, applications and deployment packages ----------

    method CreateArtifact(active: string, req: ArtifactRequest, contentFits: bool) returns (e: Option<Error>)
      requires Valid()
      modifies this`registries, this`artifacts, this`applications, this`packages
      ensures Valid()
      ensures e == ErrorOf(Call(old(Tables()), active, AddArtifact(req, contentFits)))
      ensures Tables() == After(old(Tables()), active, AddArtifact(req, contentFits))
    {
      var r := Transactions.CreateArtifact(Tables(), active, req, contentFits);
      e := Finish(active, AddArtifact(req, contentFits), r);
    }

    method UpdateArtifact(
      active: string, name: string, req: ArtifactRequest, contentFits: bool) returns (e: Option<Error>)
      requires Valid()
      modifies this`registries, this`artifacts, this`applications, this`packages
      ensures Valid()
      ensures e == ErrorOf(Call(old(Tables()), active, ChangeArtifact(name, req, contentFits)))
      ensures Tables() == After(old(Tables()), active, ChangeArtifact(name, req, contentFits))
    {
      var r := Transactions.UpdateArtifact(Tables(), active, name, req, contentFits);
      e := Finish(active, ChangeArtifact(name, req, contentFits), r);
    }

    method DeleteArtifact(active: string, name: string) returns (e: Option<Error>)
      requires Valid()
      modifies this`registries, this`artifacts, this`applications, this`packages
      ensures Valid()
      ensures e == ErrorOf(Call(old(Tables()), active, RemoveArtifact(name)))
      ensures Tables() == After(old(Tables()), active, RemoveArtifact(name))
    {
      var r := Transactions.DeleteArtifact(Tables(), active, name);
      e := Finish(active, RemoveArtifact(name), r);
    }

    method CreateApplication(active: string, req: ApplicationRequest) returns (e: Option<Error>)
      requires Valid()
      modifies this`registries, this`artifacts, this`applications, this`packages
      ensures Valid()
      ensures e == ErrorOf(Call(old(Tables()), active, AddApplication(req)))
      ensures Tables() == After(old(Tables()), active, AddApplication(req))
    {
      var r := Transactions.CreateApplication(Tables(), active, req);
      e := Finish(active, AddApplication(req), r);
    }

    /** The request, with the order in which the database returns the stored profiles. */
    function WithRows(active: string, req: ApplicationRequest): ApplicationRequest
      reads this
    {
      var key := VersionedKey(ActiveProject(active), req.name, req.version);
      req.(rowOrder := if key in applications then nameOrder(applications[key].profiles.Keys) else [])
    }

    method UpdateApplication(
      active: string, name: string, version: string, req: ApplicationRequest) returns (e: Option<Error>)
      requires Valid()
      modifies this`registries, this`artifacts, this`applications, this`packages
      ensures Valid()
      ensures e == ErrorOf(Call(old(Tables()), active, ChangeApplication(name, version, old(WithRows(active, req)))))
      ensures Tables() == After(old(Tables()), active, ChangeApplication(name, version, old(WithRows(active, req))))
    {
      var r := Transactions.UpdateApplication(Tables(), active, name, version, WithRows(active, req));
      e := Finish(active, ChangeApplication(name, version, WithRows(active, req)), r);
    }

    method DeleteApplication(active: string, name: string, version: string) returns (e: Option<Error>)
      requires Valid()
      modifies this`registries, this`artifacts, this`applications, this`packages
      ensures Valid()
      ensures e == ErrorOf(Call(old(Tables()), active, RemoveApplication(name, version)))
      ensures Tables() == After(old(Tables()), active, RemoveApplication(name, version))
    {
      var r := Transactions.DeleteApplication(Tables(), active, name, version);
      e := Finish(active, RemoveApplication(name, version), r);
    }

    method CreateDeploymentPackage(active: string, req: PackageRequest) returns (e: Option<Error>)
      requires Valid()
      modifies this`registries, this`artifacts, this`applications, this`packages
      ensures Valid()
      ensures e == ErrorOf(Call(old(Tables()), active, AddPackage(req)))
      ensures Tables() == After(old(Tables()), active, AddPackage(req))
    {
      var r := Transactions.CreateDeploymentPackage(Tables(), active, req);
      e := Finish(active, AddPackage(req), r);
    }

    method UpdateDeploymentPackage(
      active: string, name: string, version: string, req: PackageRequest) returns (e: Option<Error>)
      requires Valid()
      modifies this`registries, this`artifacts, this`applications, this`packages
      ensures Valid()
      ensures e == ErrorOf(Call(old(Tables()), active, ChangePackage(name, version, req)))
      ensures Tables() == After(old(Tables()), active, ChangePackage(name, version, req))
    {
      var r := Transactions.UpdateDeploymentPackage(Tables(), active, name, version, req);
      e := Finish(active, ChangePackage(name, version, req), r);
    }

    method DeleteDeploymentPackage(active: string, name: string, version: string) returns (e: Option<Error>)
      requires Valid()
      modifies this`registries, this`artifacts, this`applications, this`packages
      ensures Valid()
      ensures e == ErrorOf(Call(old(Tables()), active, RemovePackage(name, version)))
      ensures Tables() == After(old(Tables()), active, RemovePackage(name, version))
    {
      var r := Transactions.DeleteDeploymentPackage(Tables(), active, name, version);
      e := Finish(active, RemovePackage(name, version), r);
    }

    method GetDeploymentPackage(active: string, name: string, version: string) returns (r: Result<PackageRow>)
      ensures var key := VersionedKey(ActiveProject(active), name, version);
              r == if name == "" || version == "" then Err(InvalidArgument)
                   else if key in packages then Ok(packages[key]) else Err(NotFound)
    {
      var key := VersionedKey(ActiveProject(active), name, version);
      if name == "" || version == "" {
        return Err(InvalidArgument);
      }
      if key !in packages {
        return Err(NotFound);
      }
      return Ok(packages[key]);
    }

    // ---------- Listings, identified by their keys ----------

    /**
     * A page of the packages that the parameters select. The database returns them in its own order if
     * none is asked for, and otherwise in some order of exactly these rows.
     */
    method ListDeploymentPackages(
      active: string, orderBy: string, filter: string, kinds: seq<Kind>, pageSize: int32, offset: int32)
      returns (r: Result<(seq<VersionedKey>, int32)>)
      requires Valid() && |PackagesOf(Tables(), ActiveProject(active))| < 0x8000_0000
      ensures r.Ok? <==> Listings.Readable(orderBy, filter) && 0 <= offset && 0 <= pageSize <= MAX_PAGE_SIZE
      ensures r.Err? ==> r.error == InvalidArgument
      ensures r.Ok? ==>
                var preds := Listings.PredicatesOf(filter);
                var selected := Listings.SelectedPackages(packages, ActiveProject(active), preds, kinds);
                exists rows :: NoDup(rows) && Elements(rows) == selected && |rows| == |selected| &&
                               (orderBy == "" ==> rows == versionedOrder(selected)) &&
                               r.value == (Page(rows, pageSize, offset), |rows|)
      ensures orderBy == "" && filter == "" && kinds == [] ==>
                var rows := versionedOrder(PackagesOf(Tables(), ActiveProject(active)));
                (r.Ok? <==> 0 <= offset && 0 <= pageSize <= MAX_PAGE_SIZE) &&
                (r.Ok? ==> r.value == (Page(rows, pageSize, offset), |rows|))
    {
      hide Reachable, SecretsAgree, Listings.Readable, Listings.PredicatesOf;
      Listings.NoParameters(packages, ActiveProject(active));
      var preds := Listings.ReadParameters(orderBy, filter);
      if preds.Err? {
        return Err(preds.error);
      }
      var selected := Listings.SelectedPackages(packages, ActiveProject(active), preds.value, kinds);
      FewerSelected(selected, PackagesOf(Tables(), ActiveProject(active)));
      DistinctSize(versionedOrder(selected));
      r := ListPage(versionedOrder(selected), pageSize, offset);
    }

    method ListApplications(active: string, pageSize: int32, offset: int32)
      returns (r: Result<(seq<VersionedKey>, int32)>)
      requires Valid() && |versionedOrder(ApplicationsOf(Tables(), ActiveProject(active)))| < 0x8000_0000
      ensures r.Ok? <==> 0 <= offset && 0 <= pageSize <= MAX_PAGE_SIZE
      ensures r.Ok? ==> var rows := versionedOrder(ApplicationsOf(Tables(), ActiveProject(active)));
                        r.value.0 == Page(rows, pageSize, offset) && r.value.1 == |rows|
    {
      r := ListPage(versionedOrder(ApplicationsOf(Tables(), ActiveProject(active))), pageSize, offset);
    }

    method ListArtifacts(active: string, pageSize: int32, offset: int32) returns (r: Result<(seq<NamedKey>, int32)>)
      requires Valid() && |namedOrder(ArtifactsOf(Tables(), ActiveProject(active)))| < 0x8000_0000
      ensures r.Ok? <==> 0 <= offset && 0 <= pageSize <= MAX_PAGE_SIZE
      ensures r.Ok? ==> var rows := namedOrder(ArtifactsOf(Tables(), ActiveProject(active)));
                        r.value.0 == Page(rows, pageSize, offset) && r.value.1 == |rows|
    {
      r := ListPage(namedOrder(ArtifactsOf(Tables(), ActiveProject(active))), pageSize, offset);
    }

    method ListRegistries(active: string, pageSize: int32, offset: int32) returns (r: Result<(seq<NamedKey>, int32)>)
      requires Valid() && |namedOrder(RegistriesOf(Tables(), ActiveProject(active)))| < 0x8000_0000
      ensures r.Ok? <==> 0 <= offset && 0 <= pageSize <= MAX_PAGE_SIZE
      ensures r.Ok? ==> var rows := namedOrder(RegistriesOf(Tables(), ActiveProject(active)));
                        r.value.0 == Page(rows, pageSize, offset) && r.value.1 == |rows|
    {
      r := ListPage(namedOrder(RegistriesOf(Tables(), ActiveProject(active))), pageSize, offset);
    }
  }

  lemma FewerSelected<K>(selected: set<K>, all: set<K>)
    requires selected <= all
    ensures |selected| <= |all|
  {
    assert |all - selected| == |all| - |selected|;
  }

  // ---------- What the calls do to the registry table ----------

  predicate KeepsRegistryKeys(op: Op) {
    !op.AddRegistry? && !op.ChangeRegistry? && !op.RemoveRegistry?
  }

  lemma RegistryKeysStay(db: Db, active: string, op: Op)
    requires KeepsRegistryKeys(op)
    ensures After(db, active, op).registries == db.registries
  {
    hide P.UpdateRow, P.MakeApplications, P.MakeDependencies, P.MakeAppNamespaces, P.InjectProfiles, P.MakeArtifacts;
    hide A.UpdateRow, A.InjectProfiles, A.FindRegistries, A.CascadeProfiles;
  }

  /** The secret paths of the registries can be told apart. */
  predicate PlainRegistries(keys: set<NamedKey>) {
    forall k :: k in keys ==> '_' !in k.name
  }

  lemma RegistryNamesArePlain(db: Db)
    requires Reachable(db)
    ensures PlainRegistries(db.registries.Keys)
  {
    Runs.EveryReachableStateFits(db);
    forall k | k in db.registries
      ensures '_' !in k.name
    {
      assert RegistryFits(k, db.registries[k]);
      ValidNamesArePlain(k.name);
    }
  }

  lemma SavedRegistry(db: Db, active: string, op: Op)
    requires Reachable(db) && (op.AddRegistry? || op.ChangeRegistry?) && Call(db, active, op).Ok?
    ensures var keys := db.registries.Keys + {NamedKey(ActiveProject(active), op.registry.name)};
            PlainRegistries(keys) && After(db, active, op).registries.Keys == keys
    ensures Reachable(After(db, active, op))
  {
    ValidNamesArePlain(op.registry.name);
    RegistryNamesArePlain(db);
    AfterIsReachable(db, active, op);
  }

  lemma DeletedRegistry(db: Db, active: string, name: string)
    requires Reachable(db) && Call(db, active, RemoveRegistry(name)).Ok?
    ensures var key := NamedKey(ActiveProject(active), name);
            && PlainRegistries(db.registries.Keys + {key})
            && After(db, active, RemoveRegistry(name)).registries.Keys == db.registries.Keys - {key}
    ensures Reachable(After(db, active, RemoveRegistry(name)))
  {
    RegistryNamesArePlain(db);
    AfterIsReachable(db, active, RemoveRegistry(name));
  }
}
