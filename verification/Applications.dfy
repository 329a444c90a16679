/** Applications and their profiles: what the create, update and delete operations do to the tables. */
module Applications {
  import opened Prelude
  import opened Text
  import opened Tables
  import opened Diff

  const HELM := "HELM"
  const IMAGE := "IMAGE"

  // ---------- Validation ----------

  /** Resource names and kinds are dotted words, so they hold no slash; a namespace may be anything. */
  predicate ValidResource(r: Resource) {
    r.name != "" && '/' !in r.name && r.kind != "" && '/' !in r.kind
  }

  predicate ValidApplication(req: ApplicationRequest) {
    && ValidApplicationName(req.name) && ValidVersion(req.version)
    && (forall i :: 0 <= i < |req.profiles| ==> ValidName(req.profiles[i].name))
    && (forall i :: 0 <= i < |req.ignored| ==> ValidResource(req.ignored[i]))
  }

  function TemplateName(t: Template): string { t.name }

  predicate TemplateFits(t: Template) {
    IsTrimmed(t.displayName) && !((t.mandatory || t.secret) && t.default != "")
  }

  /** Template names are distinct, and a mandatory or secret one has no default. */
  predicate TemplatesFit(ts: seq<Template>) {
    DistinctNames(ts, TemplateName) && forall i :: 0 <= i < |ts| ==> TemplateFits(ts[i])
  }

  // ---------- Registries of an application ----------

  /** The registry of that name, if it exists in the project and has the wanted type. */
  function FindRegistry(db: Db, project: string, name: string, kind: string): Option<NamedKey> {
    var key := NamedKey(project, name);
    if key in db.registries && db.registries[key].kind == kind then Some(key) else None
  }

  /** The helm registry and, if one is named, the image registry. */
  function FindRegistries(db: Db, project: string, req: ApplicationRequest): Result<(NamedKey, Option<NamedKey>)> {
    match FindRegistry(db, project, req.helmRegistry, HELM)
    case None => Err(InvalidArgument)
    case Some(helm) =>
      if req.imageRegistry == "" then Ok((helm, None))
      else match FindRegistry(db, project, req.imageRegistry, IMAGE)
           case None => Err(InvalidArgument)
           case Some(image) => Ok((helm, Some(image)))
  }

  // ---------- Profiles ----------

  type Profiles = map<string, ProfileRow>

  function ProfileName(p: ProfileRequest): string { p.name }

  function LowerDisplay(p: ProfileRequest): string { ToLower(p.displayName) }

  function MakeProfile(p: ProfileRequest): ProfileRow {
    ProfileRow(DisplayName(p.name, p.displayName), p.description, p.chartValues, p.templates)
  }

  predicate ProfileDisplayTaken(profiles: Profiles, p: ProfileRequest) {
    p.displayName != "" &&
    exists n :: n in profiles && n != p.name && ToLower(profiles[n].displayName) == ToLower(p.displayName)
  }

  function InjectProfile(profiles: Profiles, p: ProfileRequest): Result<Profiles> {
    if !IsTrimmed(p.displayName) then Err(InvalidArgument)
    else if ProfileDisplayTaken(profiles, p) then Err(AlreadyExists)
    else if p.name in profiles then Err(AlreadyExists)
    else if !TemplatesFit(p.templates) then Err(InvalidArgument)
    else Ok(profiles[p.name := MakeProfile(p)])
  }

  function InjectProfiles(profiles: Profiles, ps: seq<ProfileRequest>): Result<Profiles> {
    if ps == [] then Ok(profiles) else
      var before :- InjectProfiles(profiles, ps[..|ps| - 1]);
      InjectProfile(before, ps[|ps| - 1])
  }

  /** A deployment profile of some package refers to the profile. */
  predicate Linked(db: Db, app: VersionedKey, profile: string) {
    exists k, n :: k in db.packages && n in db.packages[k].profiles &&
                   ProfileLink(app, profile) in db.packages[k].profiles[n].links
  }

  function Requested(ps: seq<ProfileRequest>, n: string): Option<ProfileRequest> {
    LastWith(ps, ProfileName, n)
  }

  /** What stands in the way of one stored profile: a link that forbids deletion, or a bad request. */
  function ProfileObstacle(db: Db, app: VersionedKey, ps: seq<ProfileRequest>, n: string): Option<Error> {
    match Requested(ps, n)
    case None => if Linked(db, app, n) then Some(FailedPrecondition) else None
    case Some(p) => if IsTrimmed(p.displayName) && TemplatesFit(p.templates) then None else Some(InvalidArgument)
  }

  /** Stored profiles that are requested again are overwritten in place, the others are deleted. */
  function KeptProfiles(profiles: Profiles, ps: seq<ProfileRequest>): Profiles {
    map n | n in profiles && Requested(ps, n).Some? :: MakeProfile(Requested(ps, n).value)
  }

  /** The obstacle that is met first when the stored profiles are visited in the given order. */
  function FirstObstacle(db: Db, app: VersionedKey, ps: seq<ProfileRequest>, rowOrder: seq<string>): (r: Option<Error>)
    ensures r.Some? <==> exists i :: 0 <= i < |rowOrder| && ProfileObstacle(db, app, ps, rowOrder[i]).Some?
  {
    if rowOrder == [] then None
    else if ProfileObstacle(db, app, ps, rowOrder[0]).Some? then ProfileObstacle(db, app, ps, rowOrder[0])
    else
      var r := FirstObstacle(db, app, ps, rowOrder[1..]);
      assert r.Some? ==> exists i :: 0 <= i < |rowOrder[1..]| && ProfileObstacle(db, app, ps, rowOrder[1..][i]).Some?;
      r
  }

  /** The names, each once and in some order. */
  predicate IsOrderOf(rowOrder: seq<string>, names: set<string>) {
    NoDup(rowOrder) && Elements(rowOrder) == names
  }

  /** Whatever is not an order of the stored names cannot be what the database returns. */
  function Obstacle(db: Db, app: VersionedKey, profiles: Profiles, ps: seq<ProfileRequest>, rowOrder: seq<string>)
    : Option<Error>
  {
    if IsOrderOf(rowOrder, profiles.Keys) then FirstObstacle(db, app, ps, rowOrder)
    else if exists n :: n in profiles && ProfileObstacle(db, app, ps, n).Some? then Some(InvalidArgument)
    else None
  }

  /** The profiles to create are taken from a map, in the order in which it is ranged over. */
  function ProfilesToCreate(profiles: Profiles, ps: seq<ProfileRequest>, mapOrder: seq<ProfileRequest>)
    : seq<ProfileRequest>
  {
    Arrange(NewItems(profiles, ps, ProfileName), mapOrder)
  }

  function UpdateProfiles(
    db: Db, app: VersionedKey, profiles: Profiles, ps: seq<ProfileRequest>,
    mapOrder: seq<ProfileRequest>, rowOrder: seq<string>): Result<Profiles>
  {
    if !DistinctNames(ps, ProfileName) || !DistinctNames(ps, LowerDisplay) then Err(AlreadyExists)
    else
      match Obstacle(db, app, profiles, ps, rowOrder)
      case Some(e) => Err(e)
      case None => InjectProfiles(KeptProfiles(profiles, ps), ProfilesToCreate(profiles, ps, mapOrder))
  }

  lemma NoObstacle(db: Db, app: VersionedKey, profiles: Profiles, ps: seq<ProfileRequest>, rowOrder: seq<string>)
    ensures Obstacle(db, app, profiles, ps, rowOrder).None? <==>
            forall n :: n in profiles ==> ProfileObstacle(db, app, ps, n).None?
  {
    if IsOrderOf(rowOrder, profiles.Keys) {
      forall n
        ensures n in profiles <==> n in rowOrder
      {
        assert n in profiles.Keys <==> n in Elements(rowOrder);
      }
    }
  }

  /** Deleting profiles of an application takes the links to them along. */
  function DropLinks(links: seq<ProfileLink>, app: VersionedKey, gone: set<string>): (r: seq<ProfileLink>)
    ensures forall l :: l in r <==> l in links && !(l.app == app && l.profile in gone)
    ensures NoDup(links) ==> NoDup(r)
  {
    if links == [] then [] else
      var last := |links| - 1;
      var before := DropLinks(links[..last], app, gone);
      assert links == links[..last] + [links[last]];
      if links[last].app == app && links[last].profile in gone then before else before + [links[last]]
  }

  function DropProfileLinks(row: PackageRow, app: VersionedKey, gone: set<string>): PackageRow {
    row.(profiles := map n | n in row.profiles ::
           row.profiles[n].(links := DropLinks(row.profiles[n].links, app, gone)))
  }

  function CascadeProfiles(
    packages: map<VersionedKey, PackageRow>, app: VersionedKey, gone: set<string>): map<VersionedKey, PackageRow>
  {
    map k | k in packages :: DropProfileLinks(packages[k], app, gone)
  }

  /** The unique index of ignored resources. */
  function MakeIgnored(rs: seq<Resource>): Result<seq<Resource>> {
    if NoDup(rs) then Ok(rs) else Err(DatabaseError)
  }

  // ---------- Comparing a request with the stored application ----------

  datatype Changes = Changes(
    kind: bool, rootRecord: bool, profiles: bool, profile: bool, ignored: bool, newProfiles: seq<ProfileRequest>)
  {
    predicate Changed() { rootRecord || profiles || profile }
  }

  /** The registries are not compared: the code compares the request with what it just looked up. */
  predicate RootChanged(row: ApplicationRow, req: ApplicationRequest) {
    req.displayName != row.displayName || req.description != row.description ||
    req.chartName != row.chartName || req.chartVersion != row.chartVersion
  }

  /** Everything but the validator is compared. */
  predicate SameTemplate(t: Template, row: Template) {
    row.default == t.default && row.kind == t.kind && row.displayName == t.displayName &&
    row.suggested == t.suggested && row.mandatory == t.mandatory && row.secret == t.secret
  }

  predicate SameTemplates(ts: seq<Template>, stored: seq<Template>) {
    Unchanged(stored, TemplateName, ts, TemplateName, SameTemplate)
  }

  predicate SameProfile(p: ProfileRequest, row: ProfileRow) {
    p.displayName == row.displayName && p.description == row.description && p.chartValues == row.chartValues &&
    SameTemplates(p.templates, row.templates)
  }

  predicate ProfilesChanged(row: ApplicationRow, req: ApplicationRequest) {
    Altered(row.profiles, req.profiles, ProfileName, SameProfile) || Dropped(row.profiles, req.profiles, ProfileName)
  }

  /** An empty list asks for no change. */
  predicate IgnoredChanged(row: ApplicationRow, req: ApplicationRequest) {
    req.ignored != [] &&
    (|row.ignored| != |req.ignored| || exists i :: 0 <= i < |req.ignored| && req.ignored[i] !in row.ignored)
  }

  function ApplicationChanges(row: ApplicationRow, req: ApplicationRequest): Changes {
    Changes(
      !IsSameKind(req.kind, row.kind), RootChanged(row, req), ProfilesChanged(row, req),
      DefaultChanged(row.defaultProfile, req.defaultProfile), IgnoredChanged(row, req),
      if ProfilesChanged(row, req) then [] else NewItems(row.profiles, req.profiles, ProfileName))
  }

  // ---------- Create, update, delete ----------

  predicate DisplayTaken(db: Db, project: string, req: ApplicationRequest) {
    req.displayName != "" &&
    exists k :: k in db.applications && k.project == project && k.name != req.name &&
                ToLower(db.applications[k].displayName) == ToLower(req.displayName)
  }

  function ApplicationKey(project: string, req: ApplicationRequest): VersionedKey {
    VersionedKey(project, req.name, req.version)
  }

  predicate NeedsDefault(req: ApplicationRequest) { |req.profiles| > 0 && req.defaultProfile == "" }

  function ChooseDefault(profiles: Profiles, name: string): Result<Option<string>> {
    if name == "" then Ok(None)
    else if name in profiles then Ok(Some(name))
    else Err(InvalidArgument)
  }

  function CreateApplication(db: Db, project: string, req: ApplicationRequest): Result<Db> {
    var key := ApplicationKey(project, req);
    if NeedsDefault(req) then Err(InvalidArgument)
    else if !IsTrimmed(req.displayName) then Err(InvalidArgument)
    else if DisplayTaken(db, project, req) then Err(AlreadyExists)
    else
      var registries :- FindRegistries(db, project, req);
      if key in db.applications then Err(InvalidArgument)
      else
        var profiles :- InjectProfiles(map[], req.profiles);
        var default :- ChooseDefault(profiles, req.defaultProfile);
        var ignored :- MakeIgnored(req.ignored);
        Ok(db.(applications := db.applications[key := ApplicationRow(
            DisplayName(req.name, req.displayName), req.description, KindToDb(req.kind),
            req.chartName, req.chartVersion, registries.0, registries.1, profiles, default, ignored)]))
  }

  /** A member of a deployed package. */
  predicate InDeployedPackage(db: Db, app: VersionedKey) {
    exists k :: k in db.packages && db.packages[k].isDeployed && app in db.packages[k].applications
  }

  /** The request as the update reads it: kind and display name fall back to defaults. */
  function Normalized(row: ApplicationRow, req: ApplicationRequest): ApplicationRequest {
    req.(kind := if req.kind == Unspecified then KindFromDb(row.kind) else req.kind,
         displayName := DisplayName(req.name, req.displayName))
  }

  function ApplyProfiles(db: Db, app: VersionedKey, row: ApplicationRow, req: ApplicationRequest, ch: Changes)
    : Result<Profiles>
  {
    if ch.profiles then UpdateProfiles(db, app, row.profiles, req.profiles, req.mapOrder, req.rowOrder)
    else InjectProfiles(row.profiles, ch.newProfiles)
  }

  function ApplyDefault(row: ApplicationRow, profiles: Profiles, req: ApplicationRequest, ch: Changes)
    : Result<Option<string>>
  {
    if ch.profile || ch.profiles then ChooseDefault(profiles, req.defaultProfile) else Ok(row.defaultProfile)
  }

  function ApplyChanges(
    db: Db, app: VersionedKey, row: ApplicationRow, req: ApplicationRequest, ch: Changes,
    registries: (NamedKey, Option<NamedKey>)): Result<ApplicationRow>
  {
    var profiles :- ApplyProfiles(db, app, row, req, ch);
    var default :- ApplyDefault(row, profiles, req, ch);
    var ignored :- if ch.ignored then MakeIgnored(req.ignored) else Ok(row.ignored);
    Ok(ApplicationRow(
         req.displayName, req.description, KindToDb(req.kind), req.chartName, req.chartVersion,
         registries.0, registries.1, profiles, default, ignored))
  }

  /** The stored application after an update of its row, taken alone; `req` is normalized. */
  function UpdateRow(db: Db, project: string, app: VersionedKey, row: ApplicationRow, req: ApplicationRequest)
    : Result<ApplicationRow>
  {
    var registries :- FindRegistries(db, project, req);
    var ch := ApplicationChanges(row, req);
    if ch.kind && !ch.Changed() then Ok(row.(kind := KindToDb(req.kind)))
    else if ch.Changed() && InDeployedPackage(db, app) then Err(FailedPrecondition)
    else if DisplayTaken(db, "", req) then Err(AlreadyExists)
    else ApplyChanges(db, app, row, req, ch, registries)
  }

  function UpdateApplication(db: Db, project: string, req: ApplicationRequest): Result<Db> {
    var key := ApplicationKey(project, req);
    if NeedsDefault(req) then Err(InvalidArgument)
    else if !IsTrimmed(req.displayName) then Err(InvalidArgument)
    else if key !in db.applications then Err(NotFound)
    else
      var row := db.applications[key];
      var row' :- UpdateRow(db, project, key, row, Normalized(row, req));
      var gone := row.profiles.Keys - row'.profiles.Keys;
      Ok(db.(applications := db.applications[key := row'],
             packages := CascadeProfiles(db.packages, key, gone)))
  }

  predicate IsMember(db: Db, app: VersionedKey) {
    exists k :: k in db.packages && app in db.packages[k].applications
  }

  predicate RefersTo(row: PackageRow, app: VersionedKey) {
    (exists i :: 0 <= i < |row.dependencies| &&
        (row.dependencies[i].source == app || row.dependencies[i].target == app)) ||
    (exists n :: n in row.appNamespaces && row.appNamespaces[n].app == app)
  }

  /** A dependency or default namespace refers to the application: its foreign key forbids deletion. */
  predicate IsReferenced(db: Db, app: VersionedKey) {
    exists k :: k in db.packages && RefersTo(db.packages[k], app)
  }

  function DeleteApplication(db: Db, app: VersionedKey): Result<Db> {
    if IsMember(db, app) then Err(FailedPrecondition)
    else if app !in db.applications then Err(NotFound)
    else if IsReferenced(db, app) then Err(DatabaseError)
    else Ok(db.(applications := db.applications - {app},
                packages := CascadeProfiles(db.packages, app, db.applications[app].profiles.Keys)))
  }
}
