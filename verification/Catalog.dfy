/** The catalog service as a state machine: each RPC is one step that commits or changes nothing. */
module Catalog {
  import opened Prelude
  import opened Tables
  import P = Packages
  import A = Applications
  import R = Registries

  const ADMIN_PROJECT := "default"

  /** The project a call acts on: the admin project if the caller names none. */
  function ActiveProject(active: string): string {
    if active == "" then ADMIN_PROJECT else active
  }

  datatype Op =
    | AddRegistry(registry: RegistryRequest)
    | ChangeRegistry(name: string, registry: RegistryRequest)
    | RemoveRegistry(name: string)
    | AddArtifact(artifact: ArtifactRequest, contentFits: bool)
    | ChangeArtifact(name: string, artifact: ArtifactRequest, contentFits: bool)
    | RemoveArtifact(name: string)
    | AddApplication(application: ApplicationRequest)
    | ChangeApplication(name: string, version: string, application: ApplicationRequest)
    | RemoveApplication(name: string, version: string)
    | AddPackage(package: PackageRequest)
    | ChangePackage(name: string, version: string, package: PackageRequest)
    | RemovePackage(name: string, version: string)

  /** The checks that precede the transaction: complete, valid, and the identity is not changed. */
  predicate Admissible(op: Op) {
    match op
    case AddRegistry(r) => R.ValidRegistry(r)
    case ChangeRegistry(name, r) => name != "" && R.ValidRegistry(r) && name == r.name
    case RemoveRegistry(name) => name != ""
    case AddArtifact(a, _) => R.ValidArtifact(a)
    case ChangeArtifact(name, a, _) => name != "" && R.ValidArtifact(a) && name == a.name
    case RemoveArtifact(name) => name != ""
    case AddApplication(a) => A.ValidApplication(a)
    case ChangeApplication(name, version, a) =>
      name != "" && version != "" && A.ValidApplication(a) && name == a.name && version == a.version
    case RemoveApplication(name, version) => name != "" && version != ""
    case AddPackage(p) => P.ValidPackage(p) && P.Unambiguous(p)
    case ChangePackage(name, version, p) =>
      name != "" && version != "" && P.ValidPackage(p) && name == p.name && version == p.version && P.Unambiguous(p)
    case RemovePackage(name, version) => name != "" && version != ""
  }

  /** The transaction of an admissible call. */
  function Transact(db: Db, project: string, op: Op): Result<Db> {
    match op
    case AddRegistry(r) => R.CreateRegistry(db, project, r)
    case ChangeRegistry(_, r) => R.UpdateRegistry(db, project, r)
    case RemoveRegistry(name) => R.DeleteRegistry(db, NamedKey(project, name))
    case AddArtifact(a, fits) => R.CreateArtifact(db, project, a, fits)
    case ChangeArtifact(_, a, fits) => R.UpdateArtifact(db, project, a, fits)
    case RemoveArtifact(name) => R.DeleteArtifact(db, NamedKey(project, name))
    case AddApplication(a) => A.CreateApplication(db, project, a)
    case ChangeApplication(_, _, a) => A.UpdateApplication(db, project, a)
    case RemoveApplication(name, version) => A.DeleteApplication(db, VersionedKey(project, name, version))
    case AddPackage(p) => P.CreatePackage(db, project, p)
    case ChangePackage(_, _, p) => P.UpdatePackage(db, project, p)
    case RemovePackage(name, version) => P.DeletePackage(db, VersionedKey(project, name, version))
  }

  function Call(db: Db, active: string, op: Op): Result<Db> {
    if !Admissible(op) then Err(InvalidArgument) else Transact(db, ActiveProject(active), op)
  }

  /** The tables after a call: a rejected call rolls back. */
  function After(db: Db, active: string, op: Op): Db {
    match Call(db, active, op)
    case Ok(db') => db'
    case Err(_) => db
  }

  const EMPTY := Db(map[], map[], map[], map[])

  /** The tables after a sequence of calls, each made in some project. */
  function Run(db: Db, calls: seq<(string, Op)>): Db {
    if calls == [] then db else
      var last := |calls| - 1;
      After(Run(db, calls[..last]), calls[last].0, calls[last].1)
  }

  /** Some sequence of calls leads from the empty catalog to these tables. */
  ghost predicate Reachable(db: Db) {
    exists calls :: db == Run(EMPTY, calls)
  }

  lemma EmptyIsReachable()
    ensures Reachable(EMPTY)
  {
    assert Run(EMPTY, []) == EMPTY;
  }

  lemma AfterIsReachable(db: Db, active: string, op: Op)
    requires Reachable(db)
    ensures Reachable(After(db, active, op))
  {
    var calls :| db == Run(EMPTY, calls);
    var more := calls + [(active, op)];
    assert more[..|more| - 1] == calls;
    assert Run(EMPTY, more) == After(db, active, op);
  }
}
