/**
 * Deployment packages: what the create, update and delete operations do to the tables. An update
 * first compares the request with the stored rows, part by part, and then rewrites only the parts
 * that differ.
 */
module Packages {
  import opened Prelude
  import opened Text
  import opened Tables
  import opened Diff
  import opened References

  // ---------- Validation ----------

  function EntriesOf(p: DeploymentProfileRequest): Entries {
    match p.appProfiles
    case None => []
    case Some(e) => e
  }

  predicate ValidReference(r: Reference) { ValidName(r.name) && ValidVersion(r.version) }

  predicate ValidDependency(d: Dependency) { ValidApplicationName(d.name) && ValidApplicationName(d.target) }

  predicate ValidDeploymentProfile(p: DeploymentProfileRequest) {
    ValidName(p.name) && DistinctKeys(EntriesOf(p))
  }

  predicate ValidExtension(e: ExtensionRequest) { ValidName(e.name) && ValidVersion(e.version) }

  /** The generated Validate(): names and versions match their patterns, and lists are not too long. */
  predicate ValidPackage(req: PackageRequest) {
    && ValidName(req.name) && ValidVersion(req.version)
    && (forall i :: 0 <= i < |req.applications| ==> ValidReference(req.applications[i]))
    && (forall i :: 0 <= i < |req.dependencies| ==> ValidDependency(req.dependencies[i]))
    && (forall i :: 0 <= i < |req.profiles| ==> ValidDeploymentProfile(req.profiles[i]))
    && (forall i :: 0 <= i < |req.extensions| ==> ValidExtension(req.extensions[i]))
    && |req.extensions| <= 100
    && (forall i :: 0 <= i < |req.artifacts| ==> ValidName(req.artifacts[i].name))
    && |req.artifacts| <= 100
    && (forall i :: 0 <= i < |req.namespaces| ==> ValidName(req.namespaces[i].name))
    && DistinctKeys(req.defaultNamespaces)
  }

  predicate AllQualified(e: Entries) {
    forall i :: 0 <= i < |e| ==> ':' in e[i].0
  }

  predicate RepeatsReferenceName(refs: seq<Reference>) {
    exists i, j :: 0 <= i < j < |refs| && refs[i].name == refs[j].name
  }

  /** Deployment profiles may use bare names only if no application name repeats. */
  predicate Unambiguous(req: PackageRequest) {
    |req.profiles| == 0 || |req.applications| == 1 ||
    (forall i :: 0 <= i < |req.profiles| ==> AllQualified(EntriesOf(req.profiles[i]))) ||
    !RepeatsReferenceName(req.applications)
  }

  // ---------- Rows made from a request ----------

  function ReferenceKey(project: string, r: Reference): VersionedKey {
    VersionedKey(project, r.name, r.version)
  }

  function ReferenceKeys(project: string, refs: seq<Reference>): (keys: seq<VersionedKey>)
    ensures |keys| == |refs|
    ensures forall i :: 0 <= i < |refs| ==> keys[i] == ReferenceKey(project, refs[i])
  {
    seq(|refs|, i requires 0 <= i < |refs| => ReferenceKey(project, refs[i]))
  }

  function MakeApplications(db: Db, project: string, refs: seq<Reference>): Result<seq<VersionedKey>> {
    if forall i :: 0 <= i < |refs| ==> ReferenceKey(project, refs[i]) in db.applications
    then Ok(Dedup(ReferenceKeys(project, refs)))
    else Err(InvalidArgument)
  }

  /** The member a dependency or a default namespace names: the last one with that name. */
  function LastNamed(apps: seq<VersionedKey>, name: string): Option<VersionedKey> {
    LastWith(apps, AppName, name)
  }

  predicate DependencyFits(apps: seq<VersionedKey>, d: Dependency) {
    d.name != d.target && LastNamed(apps, d.name).Some? && LastNamed(apps, d.target).Some?
  }

  function MakeDependency(apps: seq<VersionedKey>, d: Dependency): DependencyRow
    requires DependencyFits(apps, d)
  {
    DependencyRow(LastNamed(apps, d.name).value, LastNamed(apps, d.target).value)
  }

  function MakeDependencies(apps: seq<VersionedKey>, deps: seq<Dependency>): Result<seq<DependencyRow>> {
    if forall i :: 0 <= i < |deps| ==> DependencyFits(apps, deps[i])
    then Ok(seq(|deps|, i requires 0 <= i < |deps| => MakeDependency(apps, deps[i])))
    else Err(InvalidArgument)
  }

  function MakeAppNamespaces(apps: seq<VersionedKey>, e: Entries): Result<map<string, AppNamespaceRow>> {
    if forall n :: n in EntryKeys(e) ==> LastNamed(apps, n).Some?
    then Ok(map n | n in EntryMap(e) :: AppNamespaceRow(LastNamed(apps, n).value, EntryMap(e)[n]))
    else Err(InvalidArgument)
  }

  function OrEmpty(m: Option<map<string, string>>): map<string, string> {
    match m
    case None => map[]
    case Some(v) => v
  }

  function MakeNamespace(n: NamespaceRequest): NamespaceRow {
    NamespaceRow(n.name, OrEmpty(n.labels), OrEmpty(n.annotations))
  }

  const NO_UI := UiExtension("", "", "", "", "", "")

  function MakeExtension(e: ExtensionRequest): ExtensionRow {
    ExtensionRow(e.name, e.version, e.displayName, e.description,
                 if e.ui.Some? then e.ui.value else NO_UI,
                 if e.endpoints.Some? then e.endpoints.value else [])
  }

  /** The unique indexes of extensions, by name and version, and of their endpoints, by service name. */
  predicate ExtensionsFit(rows: seq<ExtensionRow>) {
    && (forall i, j :: 0 <= i < j < |rows| ==> !(rows[i].name == rows[j].name && rows[i].version == rows[j].version))
    && (forall i :: 0 <= i < |rows| ==> EndpointsFit(rows[i].endpoints))
  }

  predicate EndpointsFit(endpoints: seq<Endpoint>) {
    forall i, j :: 0 <= i < j < |endpoints| ==> endpoints[i].serviceName != endpoints[j].serviceName
  }

  function MakeExtensions(exts: seq<ExtensionRequest>): Result<seq<ExtensionRow>> {
    if ExtensionsFit(MapSeq(MakeExtension, exts)) then Ok(MapSeq(MakeExtension, exts)) else Err(DatabaseError)
  }

  function MakeArtifact(project: string, a: ArtifactReference): ArtifactReferenceRow {
    ArtifactReferenceRow(NamedKey(project, a.name), a.purpose)
  }

  function MakeArtifacts(db: Db, project: string, arts: seq<ArtifactReference>): Result<seq<ArtifactReferenceRow>> {
    if forall i :: 0 <= i < |arts| ==> NamedKey(project, arts[i].name) in db.artifacts
    then Ok(seq(|arts|, i requires 0 <= i < |arts| => MakeArtifact(project, arts[i])))
    else Err(InvalidArgument)
  }

  // ---------- Deployment profiles ----------

  type ProfileTable = map<string, DeploymentProfileRow>

  function ProfileName(p: DeploymentProfileRequest): string { p.name }

  function LowerDisplay(p: DeploymentProfileRequest): string { ToLower(p.displayName) }

  /** Another profile of the same package already shows this display name. */
  predicate ProfileDisplayTaken(profiles: ProfileTable, p: DeploymentProfileRequest) {
    p.displayName != "" &&
    exists n :: n in profiles && n != p.name && ToLower(profiles[n].displayName) == ToLower(p.displayName)
  }

  predicate Resolves(db: Db, apps: seq<VersionedKey>, p: DeploymentProfileRequest) {
    AllResolve(db.applications, apps, EntriesOf(p))
  }

  function MakeProfile(db: Db, apps: seq<VersionedKey>, p: DeploymentProfileRequest): DeploymentProfileRow
    requires Resolves(db, apps, p)
  {
    DeploymentProfileRow(DisplayName(p.name, p.displayName), p.description,
                         Dedup(ResolvedLinks(db.applications, apps, EntriesOf(p))))
  }

  function InjectProfile(
    db: Db, apps: seq<VersionedKey>, profiles: ProfileTable, p: DeploymentProfileRequest): Result<ProfileTable>
  {
    if !IsTrimmed(p.displayName) then Err(InvalidArgument)
    else if ProfileDisplayTaken(profiles, p) then Err(AlreadyExists)
    else if !Resolves(db, apps, p) then Err(InvalidArgument)
    else if p.name in profiles then Err(InvalidArgument)
    else Ok(profiles[p.name := MakeProfile(db, apps, p)])
  }

  function InjectProfiles(
    db: Db, apps: seq<VersionedKey>, profiles: ProfileTable, ps: seq<DeploymentProfileRequest>): Result<ProfileTable>
  {
    if ps == [] then Ok(profiles) else
      var before :- InjectProfiles(db, apps, profiles, ps[..|ps| - 1]);
      InjectProfile(db, apps, before, ps[|ps| - 1])
  }

  /** A kept profile takes the requested texts; links are only ever added. */
  function MergeProfile(
    db: Db, apps: seq<VersionedKey>, row: DeploymentProfileRow, p: DeploymentProfileRequest): DeploymentProfileRow
    requires Resolves(db, apps, p)
  {
    DeploymentProfileRow(DisplayName(p.name, p.displayName), p.description,
                         Dedup(row.links + ResolvedLinks(db.applications, apps, EntriesOf(p))))
  }

  function Requested(ps: seq<DeploymentProfileRequest>, n: string): Option<DeploymentProfileRequest> {
    LastWith(ps, ProfileName, n)
  }

  predicate KeptFits(db: Db, apps: seq<VersionedKey>, ps: seq<DeploymentProfileRequest>, n: string) {
    Requested(ps, n).Some? ==>
      IsTrimmed(Requested(ps, n).value.displayName) && Resolves(db, apps, Requested(ps, n).value)
  }

  function KeptProfiles(
    db: Db, apps: seq<VersionedKey>, profiles: ProfileTable, ps: seq<DeploymentProfileRequest>): ProfileTable
    requires forall n :: n in profiles ==> KeptFits(db, apps, ps, n)
  {
    map n | n in profiles && Requested(ps, n).Some? ::
      assert KeptFits(db, apps, ps, n);
      MergeProfile(db, apps, profiles[n], Requested(ps, n).value)
  }

  /** The profiles to create are taken from a map, in the order in which it is ranged over. */
  function ProfilesToCreate(
    profiles: ProfileTable, ps: seq<DeploymentProfileRequest>, mapOrder: seq<DeploymentProfileRequest>)
    : seq<DeploymentProfileRequest>
  {
    Arrange(NewItems(profiles, ps, ProfileName), mapOrder)
  }

  function UpdateProfiles(
    db: Db, apps: seq<VersionedKey>, profiles: ProfileTable, ps: seq<DeploymentProfileRequest>,
    mapOrder: seq<DeploymentProfileRequest>): Result<ProfileTable>
  {
    if !DistinctNames(ps, ProfileName) || !DistinctNames(ps, LowerDisplay) then Err(AlreadyExists)
    else if exists n :: n in profiles && !KeptFits(db, apps, ps, n) then Err(InvalidArgument)
    else InjectProfiles(db, apps, KeptProfiles(db, apps, profiles, ps), ProfilesToCreate(profiles, ps, mapOrder))
  }

  // ---------- Comparing a request with the stored package ----------

  datatype Changes = Changes(
    kindOrState: bool, rootRecord: bool, applications: bool, profiles: bool, profile: bool,
    dependencies: bool, defaultNamespaces: bool, namespaces: bool, extensions: bool, artifacts: bool,
    newProfiles: seq<DeploymentProfileRequest>)
  {
    predicate Changed() {
      rootRecord || applications || profiles || profile || dependencies || defaultNamespaces ||
      namespaces || extensions || artifacts
    }
  }

  predicate KindOrStateChanged(row: PackageRow, req: PackageRequest) {
    !IsSameKind(req.kind, row.kind) || req.isDeployed != row.isDeployed
  }

  predicate RootChanged(row: PackageRow, req: PackageRequest) {
    req.displayName != row.displayName || req.description != row.description ||
    req.isVisible != row.isVisible || req.forbidsMultiple == row.allowsMultiple
  }

  function StoredReference(k: VersionedKey): Reference { Reference(k.name, k.version) }

  predicate ApplicationsChanged(row: PackageRow, req: PackageRequest) {
    |row.applications| != |req.applications| ||
    exists i :: 0 <= i < |req.applications| && req.applications[i] !in MapSeq(StoredReference, row.applications)
  }

  /** The stored contents match, and the stored links read back as exactly the requested map. */
  predicate SameProfile(p: DeploymentProfileRequest, row: DeploymentProfileRow) {
    p.displayName == row.displayName && p.description == row.description &&
    p.appProfiles.Some? && EntryMap(p.appProfiles.value) == Compose(row.links, false)
  }

  predicate ProfilesChanged(row: PackageRow, req: PackageRequest) {
    Altered(row.profiles, req.profiles, ProfileName, SameProfile) || Dropped(row.profiles, req.profiles, ProfileName)
  }

  function StoredDependency(d: DependencyRow): Dependency { Dependency(d.source.name, d.target.name) }

  predicate NamesApplication(refs: seq<Reference>, name: string) {
    exists i :: 0 <= i < |refs| && refs[i].name == name
  }

  /** Scans the requested dependencies: the first unknown one is a change, a non-member is an error. */
  function ScanDependencies(stored: seq<Dependency>, refs: seq<Reference>, deps: seq<Dependency>): Result<bool> {
    if deps == [] then Ok(false)
    else if deps[0] !in stored then Ok(true)
    else if !NamesApplication(refs, deps[0].name) || !NamesApplication(refs, deps[0].target) then Err(InvalidArgument)
    else ScanDependencies(stored, refs, deps[1..])
  }

  function DependenciesChanged(row: PackageRow, req: PackageRequest): Result<bool> {
    if |row.dependencies| != |req.dependencies| then Ok(true)
    else ScanDependencies(MapSeq(StoredDependency, row.dependencies), req.applications, req.dependencies)
  }

  /** Scans the requested default namespaces: any that is not stored alike is an error. */
  function ScanNamespaces(row: PackageRow, e: Entries): Result<bool> {
    if e == [] then Ok(false)
    else if e[0].0 !in row.appNamespaces || row.appNamespaces[e[0].0].namespace != e[0].1 then Err(InvalidArgument)
    else if LastNamed(row.applications, e[0].0).None? then Ok(true)
    else ScanNamespaces(row, e[1..])
  }

  function AppNamespacesChanged(row: PackageRow, req: PackageRequest): Result<bool> {
    if |row.appNamespaces| != |req.defaultNamespaces| then Ok(true)
    else ScanNamespaces(row, req.defaultNamespaces)
  }

  function NamespaceName(n: NamespaceRequest): string { n.name }
  function NamespaceRowName(n: NamespaceRow): string { n.name }

  predicate SameNamespace(n: NamespaceRequest, row: NamespaceRow) {
    n.labels == Some(row.labels) && n.annotations == Some(row.annotations)
  }

  predicate NamespacesUnchanged(row: PackageRow, req: PackageRequest) {
    Unchanged(row.namespaces, NamespaceRowName, req.namespaces, NamespaceName, SameNamespace)
  }

  function ExtensionName(e: ExtensionRequest): string { e.name }
  function ExtensionRowName(e: ExtensionRow): string { e.name }

  /** An extension is read back with a user interface only if its label is set. */
  function ReadUi(ui: UiExtension): Option<UiExtension> {
    if ui.title != "" then Some(ui) else None
  }

  predicate SameExtension(e: ExtensionRequest, row: ExtensionRow) {
    e.name == row.name && e.version == row.version && e.displayName == row.displayName &&
    e.description == row.description && e.endpoints == Some(row.endpoints) && e.ui == ReadUi(row.ui)
  }

  predicate ExtensionsUnchanged(row: PackageRow, req: PackageRequest) {
    Unchanged(row.extensions, ExtensionRowName, req.extensions, ExtensionName, SameExtension)
  }

  function ArtifactName(a: ArtifactReference): string { a.name }
  function ArtifactRowName(a: ArtifactReferenceRow): string { a.artifact.name }

  predicate SameArtifact(a: ArtifactReference, row: ArtifactReferenceRow) {
    a.name == row.artifact.name && a.purpose == row.purpose
  }

  predicate ArtifactsUnchanged(row: PackageRow, req: PackageRequest) {
    Unchanged(row.artifacts, ArtifactRowName, req.artifacts, ArtifactName, SameArtifact)
  }

  function PackageChanges(row: PackageRow, req: PackageRequest): Result<Changes> {
    var dependencies :- DependenciesChanged(row, req);
    var defaultNamespaces :- AppNamespacesChanged(row, req);
    Ok(Changes(
         KindOrStateChanged(row, req), RootChanged(row, req), ApplicationsChanged(row, req),
         ProfilesChanged(row, req), DefaultChanged(row.defaultProfile, req.defaultProfile),
         dependencies, defaultNamespaces, !NamespacesUnchanged(row, req),
         !ExtensionsUnchanged(row, req), !ArtifactsUnchanged(row, req),
         if ProfilesChanged(row, req) then [] else NewItems(row.profiles, req.profiles, ProfileName)))
  }

  // ---------- Create, update, delete ----------

  /** A package of `project` under another name already shows the requested display name. */
  predicate DisplayTaken(db: Db, project: string, req: PackageRequest) {
    req.displayName != "" &&
    exists k :: k in db.packages && k.project == project && k.name != req.name &&
                ToLower(db.packages[k].displayName) == ToLower(req.displayName)
  }

  function PackageKey(project: string, req: PackageRequest): VersionedKey {
    VersionedKey(project, req.name, req.version)
  }

  predicate NeedsDefault(req: PackageRequest) { |req.profiles| > 0 && req.defaultProfile == "" }

  function CreatePackage(db: Db, project: string, req: PackageRequest): Result<Db> {
    if NeedsDefault(req) then Err(InvalidArgument)
    else if !IsTrimmed(req.displayName) then Err(InvalidArgument)
    else if DisplayTaken(db, project, req) then Err(AlreadyExists)
    else if PackageKey(project, req) in db.packages then Err(InvalidArgument)
    else
      var applications :- MakeApplications(db, project, req.applications);
      var dependencies :- MakeDependencies(applications, req.dependencies);
      var appNamespaces :- MakeAppNamespaces(applications, req.defaultNamespaces);
      var profiles :- InjectProfiles(db, applications, map[], req.profiles);
      if req.defaultProfile != "" && req.defaultProfile !in profiles then Err(InvalidArgument)
      else
        var extensions :- MakeExtensions(req.extensions);
        var artifacts :- MakeArtifacts(db, project, req.artifacts);
        Ok(db.(packages := db.packages[PackageKey(project, req) := PackageRow(
            DisplayName(req.name, req.displayName), req.description, KindToDb(req.kind),
            req.isDeployed, req.isVisible, !req.forbidsMultiple,
            applications, dependencies, appNamespaces, MapSeq(MakeNamespace, req.namespaces),
            profiles, if req.defaultProfile == "" then None else Some(req.defaultProfile),
            extensions, artifacts)]))
  }

  /** The profile table and the default profile after the profile part of an update. */
  function ApplyProfiles(db: Db, apps: seq<VersionedKey>, row: PackageRow, req: PackageRequest, ch: Changes)
    : Result<(ProfileTable, Option<string>)>
  {
    var replace := ch.profiles || ch.applications;
    var created := if replace then NewItems(row.profiles, req.profiles, ProfileName) else ch.newProfiles;
    var profiles :- if replace then UpdateProfiles(db, apps, row.profiles, req.profiles, req.mapOrder)
                    else InjectProfiles(db, apps, row.profiles, ch.newProfiles);
    var kept := if row.defaultProfile.Some? && row.defaultProfile.value !in profiles then None else row.defaultProfile;
    var chosen := if req.defaultProfile != "" && Named(created, ProfileName, req.defaultProfile)
                  then Some(req.defaultProfile) else kept;
    if !(ch.profile || ch.profiles) || req.defaultProfile == "" then Ok((profiles, chosen))
    else if req.defaultProfile in profiles then Ok((profiles, Some(req.defaultProfile)))
    else Err(InvalidArgument)
  }

  /** The member applications of a package and the rows that refer to them. */
  datatype Members = Members(
    applications: seq<VersionedKey>, dependencies: seq<DependencyRow>, appNamespaces: map<string, AppNamespaceRow>)

  /** Dependencies and default namespaces are also rewritten when the applications are. */
  function ApplyMembers(db: Db, project: string, row: PackageRow, req: PackageRequest, ch: Changes): Result<Members> {
    var applications :- if ch.applications then MakeApplications(db, project, req.applications)
                        else Ok(row.applications);
    var dependencies :- if ch.dependencies || ch.applications then MakeDependencies(applications, req.dependencies)
                        else Ok(row.dependencies);
    var appNamespaces :- if ch.defaultNamespaces || ch.applications
                         then MakeAppNamespaces(applications, req.defaultNamespaces)
                         else Ok(row.appNamespaces);
    Ok(Members(applications, dependencies, appNamespaces))
  }

  function ApplyExtensions(row: PackageRow, req: PackageRequest, ch: Changes): Result<seq<ExtensionRow>> {
    if ch.extensions then MakeExtensions(req.extensions) else Ok(row.extensions)
  }

  function ApplyArtifacts(db: Db, project: string, row: PackageRow, req: PackageRequest, ch: Changes)
    : Result<seq<ArtifactReferenceRow>>
  {
    if ch.artifacts then MakeArtifacts(db, project, req.artifacts) else Ok(row.artifacts)
  }

  function AppliedRow(
    row: PackageRow, req: PackageRequest, ch: Changes, members: Members,
    profiles: (ProfileTable, Option<string>), extensions: seq<ExtensionRow>,
    artifacts: seq<ArtifactReferenceRow>): PackageRow
  {
    PackageRow(
      DisplayName(req.name, req.displayName), req.description, KindToDb(req.kind),
      req.isDeployed, req.isVisible, !req.forbidsMultiple,
      members.applications, members.dependencies, members.appNamespaces,
      if ch.namespaces then MapSeq(MakeNamespace, req.namespaces) else row.namespaces,
      profiles.0, profiles.1, extensions, artifacts)
  }

  function ApplyChanges(
    db: Db, project: string, row: PackageRow, req: PackageRequest, ch: Changes): Result<PackageRow>
  {
    var members :- ApplyMembers(db, project, row, req, ch);
    var profiles :- ApplyProfiles(db, members.applications, row, req, ch);
    var extensions :- ApplyExtensions(row, req, ch);
    var artifacts :- ApplyArtifacts(db, project, row, req, ch);
    Ok(AppliedRow(row, req, ch, members, profiles, extensions, artifacts))
  }

  /** The stored package after an update of its row, taken alone. */
  function UpdateRow(db: Db, project: string, row: PackageRow, req: PackageRequest): Result<PackageRow> {
    var ch :- PackageChanges(row, req);
    if ch.kindOrState && !ch.Changed() then Ok(row.(isDeployed := req.isDeployed, kind := KindToDb(req.kind)))
    else if ch.Changed() && row.isDeployed && req.isDeployed then Err(FailedPrecondition)
    else if DisplayTaken(db, "", req) then Err(AlreadyExists)
    else ApplyChanges(db, project, row, req, ch)
  }

  function UpdatePackage(db: Db, project: string, req: PackageRequest): Result<Db> {
    var key := PackageKey(project, req);
    if NeedsDefault(req) then Err(InvalidArgument)
    else if !IsTrimmed(req.displayName) then Err(InvalidArgument)
    else if key !in db.packages then Err(NotFound)
    else
      var row :- UpdateRow(db, project, db.packages[key], req);
      Ok(db.(packages := db.packages[key := row]))
  }

  /** Deleting a package takes its owned rows along; a deployed one is refused. */
  function DeletePackage(db: Db, key: VersionedKey): Result<Db> {
    if key !in db.packages then Err(NotFound)
    else if db.packages[key].isDeployed then Err(FailedPrecondition)
    else Ok(db.(packages := db.packages - {key}))
  }
}
