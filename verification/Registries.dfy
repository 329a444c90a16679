/** Registries and artifacts: what the create, update and delete operations do to the tables. */
module Registries {
  import opened Prelude
  import opened Text
  import opened Tables
  import opened Applications

  // ---------- Registries ----------

  predicate ValidRegistry(req: RegistryRequest) {
    ValidName(req.name) && (req.kind == HELM || req.kind == IMAGE)
  }

  predicate RegistryDisplayTaken(db: Db, project: string, name: string, displayName: string) {
    displayName != "" &&
    exists k :: k in db.registries && k.project == project && k.name != name &&
                ToLower(db.registries[k].displayName) == ToLower(displayName)
  }

  function CreateRegistry(db: Db, project: string, req: RegistryRequest): Result<Db> {
    var key := NamedKey(project, req.name);
    var displayName := DisplayName(req.name, req.displayName);
    if !IsTrimmed(req.displayName) then Err(InvalidArgument)
    else if RegistryDisplayTaken(db, project, req.name, displayName) then Err(AlreadyExists)
    else if key in db.registries then Err(InvalidArgument)
    else Ok(db.(registries := db.registries[key := RegistryRow(displayName, req.description, req.kind, "")]))
  }

  predicate UsedAsHelm(db: Db, key: NamedKey) {
    exists a :: a in db.applications && db.applications[a].helmRegistry == key
  }

  predicate UsedAsImage(db: Db, key: NamedKey) {
    exists a :: a in db.applications && db.applications[a].imageRegistry == Some(key)
  }

  /** A registry may not change its type while an application uses it in its present one. */
  predicate TypeIsPinned(db: Db, key: NamedKey, kind: string)
    requires key in db.registries
  {
    db.registries[key].kind != kind &&
    ((kind == HELM && UsedAsImage(db, key)) || (kind == IMAGE && UsedAsHelm(db, key)))
  }

  /** The display name is checked as given, even when the name will stand in for it. */
  function UpdateRegistry(db: Db, project: string, req: RegistryRequest): Result<Db> {
    var key := NamedKey(project, req.name);
    if !IsTrimmed(req.displayName) then Err(InvalidArgument)
    else if RegistryDisplayTaken(db, project, req.name, req.displayName) then Err(AlreadyExists)
    else if key !in db.registries then Err(NotFound)
    else if TypeIsPinned(db, key, req.kind) then Err(FailedPrecondition)
    else Ok(db.(registries := db.registries[key := RegistryRow(
        DisplayName(req.name, req.displayName), req.description, req.kind, req.apiType)]))
  }

  /** An application of the project uses some registry of that name. */
  predicate InUse(db: Db, key: NamedKey) {
    exists a :: a in db.applications && a.project == key.project &&
      (db.applications[a].helmRegistry.name == key.name ||
       (db.applications[a].imageRegistry.Some? && db.applications[a].imageRegistry.value.name == key.name))
  }

  /** Deleting a registry clears image references to it; a helm reference forbids the deletion. */
  function DeleteRegistry(db: Db, key: NamedKey): Result<Db> {
    if InUse(db, key) then Err(FailedPrecondition)
    else if key !in db.registries then Err(NotFound)
    else if UsedAsHelm(db, key) then Err(DatabaseError)
    else Ok(db.(registries := db.registries - {key},
                applications := map a | a in db.applications ::
                  if db.applications[a].imageRegistry == Some(key)
                  then db.applications[a].(imageRegistry := None) else db.applications[a]))
  }

  // ---------- Artifacts ----------

  predicate ValidArtifact(req: ArtifactRequest) { ValidName(req.name) }

  predicate ArtifactDisplayTaken(db: Db, project: string, name: string, displayName: string) {
    displayName != "" &&
    exists k :: k in db.artifacts && k.project == project && k.name != name &&
                ToLower(db.artifacts[k].displayName) == ToLower(displayName)
  }

  function MakeArtifactRow(req: ArtifactRequest): ArtifactRow {
    ArtifactRow(DisplayName(req.name, req.displayName), req.description, req.mimeType, req.payload)
  }

  /** `contentFits` is the outcome of the checks on the payload: its format, and the malware scan. */
  function CreateArtifact(db: Db, project: string, req: ArtifactRequest, contentFits: bool): Result<Db> {
    var key := NamedKey(project, req.name);
    if !IsTrimmed(req.displayName) || !contentFits then Err(InvalidArgument)
    else if ArtifactDisplayTaken(db, project, req.name, DisplayName(req.name, req.displayName)) then Err(AlreadyExists)
    else if key in db.artifacts then Err(InvalidArgument)
    else Ok(db.(artifacts := db.artifacts[key := MakeArtifactRow(req)]))
  }

  function UpdateArtifact(db: Db, project: string, req: ArtifactRequest, contentFits: bool): Result<Db> {
    var key := NamedKey(project, req.name);
    if !IsTrimmed(req.displayName) || !contentFits then Err(InvalidArgument)
    else if ArtifactDisplayTaken(db, project, req.name, DisplayName(req.name, req.displayName)) then Err(AlreadyExists)
    else if key !in db.artifacts then Err(NotFound)
    else Ok(db.(artifacts := db.artifacts[key := MakeArtifactRow(req)]))
  }

  predicate ReferencesArtifact(row: PackageRow, key: NamedKey) {
    exists i :: 0 <= i < |row.artifacts| && row.artifacts[i].artifact == key
  }

  /** A package refers to the artifact: the foreign key forbids deletion. */
  predicate ArtifactInUse(db: Db, key: NamedKey) {
    exists k :: k in db.packages && ReferencesArtifact(db.packages[k], key)
  }

  function DeleteArtifact(db: Db, key: NamedKey): Result<Db> {
    if key !in db.artifacts then Err(NotFound)
    else if ArtifactInUse(db, key) then Err(InvalidArgument)
    else Ok(db.(artifacts := db.artifacts - {key}))
  }
}
