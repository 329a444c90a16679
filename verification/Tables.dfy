/** The catalog's requests and tables. Rows are keyed by the columns of their unique index. */
module Tables {
  import opened Prelude

  // ---------- Kinds ----------

  datatype Kind = Unspecified | Normal | Addon | Extension

  function KindToDb(kind: Kind): string {
    match kind
    case Addon => "addon"
    case Extension => "extension"
    case _ => "normal"
  }

  function KindFromDb(kind: string): Kind {
    if kind == "addon" then Addon
    else if kind == "extension" then Extension
    else Normal
  }

  predicate IsSameKind(kind: Kind, stored: string) {
    (kind == Normal && stored == "normal") || (kind == Extension && stored == "extension") ||
    (kind == Addon && stored == "addon") || (kind == Unspecified && stored == "")
  }

  // ---------- Keys ----------

  /** Registries and artifacts are unique by project and name. */
  datatype NamedKey = NamedKey(project: string, name: string)

  /** Applications and deployment packages are unique by project, name and version. */
  datatype VersionedKey = VersionedKey(project: string, name: string, version: string)

  // ---------- Requests ----------

  /** A Go map that the code ranges over, as its entries in the order of that iteration. */
  type Entries = seq<(string, string)>

  predicate DistinctKeys(e: Entries) {
    forall i, j :: 0 <= i < j < |e| ==> e[i].0 != e[j].0
  }

  /** `secret` is the encoded connection data: URLs, user name, token and CA certificates. */
  datatype RegistryRequest = RegistryRequest(
    name: string, displayName: string, description: string, kind: string, apiType: string, secret: string)

  datatype ArtifactRequest = ArtifactRequest(
    name: string, displayName: string, description: string, mimeType: string, payload: seq<char>)

  datatype Template = Template(
    name: string, displayName: string, default: string, kind: string, validator: string,
    suggested: seq<string>, mandatory: bool, secret: bool)

  datatype ProfileRequest = ProfileRequest(
    name: string, displayName: string, description: string, chartValues: string, templates: seq<Template>)

  datatype Resource = Resource(name: string, kind: string, namespace: string)

  /**
   * The last two are not part of the message but choices of the environment while it is handled:
   * the order in which a map of the new profiles is ranged over, and the order in which the database
   * returns the names of the stored ones.
   */
  datatype ApplicationRequest = ApplicationRequest(
    name: string, displayName: string, description: string, version: string, kind: Kind,
    chartName: string, chartVersion: string, helmRegistry: string, imageRegistry: string,
    profiles: seq<ProfileRequest>, defaultProfile: string, ignored: seq<Resource>,
    mapOrder: seq<ProfileRequest>, rowOrder: seq<string>)

  datatype Reference = Reference(name: string, version: string)

  datatype Dependency = Dependency(name: string, target: string)

  /** None is Go's nil map, which reflect.DeepEqual tells apart from an empty one. */
  datatype DeploymentProfileRequest = DeploymentProfileRequest(
    name: string, displayName: string, description: string, appProfiles: Option<Entries>)

  datatype Endpoint = Endpoint(
    serviceName: string, externalPath: string, internalPath: string, scheme: string,
    authType: string, appName: string)

  datatype UiExtension = UiExtension(
    title: string, serviceName: string, description: string, fileName: string,
    appName: string, moduleName: string)

  /** The endpoints are None when the request carries none at all (Go's nil slice). */
  datatype ExtensionRequest = ExtensionRequest(
    name: string, version: string, displayName: string, description: string,
    endpoints: Option<seq<Endpoint>>, ui: Option<UiExtension>)

  datatype ArtifactReference = ArtifactReference(name: string, purpose: string)

  datatype NamespaceRequest = NamespaceRequest(
    name: string, labels: Option<map<string, string>>, annotations: Option<map<string, string>>)

  /** The last one is the order in which a map of the new profiles is ranged over, as above. */
  datatype PackageRequest = PackageRequest(
    name: string, displayName: string, description: string, version: string, kind: Kind,
    isDeployed: bool, isVisible: bool, forbidsMultiple: bool,
    applications: seq<Reference>, dependencies: seq<Dependency>, defaultNamespaces: Entries,
    namespaces: seq<NamespaceRequest>, profiles: seq<DeploymentProfileRequest>, defaultProfile: string,
    extensions: seq<ExtensionRequest>, artifacts: seq<ArtifactReference>,
    mapOrder: seq<DeploymentProfileRequest>)

  // ---------- Rows ----------

  datatype RegistryRow = RegistryRow(displayName: string, description: string, kind: string, apiType: string)

  datatype ArtifactRow = ArtifactRow(
    displayName: string, description: string, mimeType: string, payload: seq<char>)

  datatype ProfileRow = ProfileRow(
    displayName: string, description: string, chartValues: string, templates: seq<Template>)

  /** Profiles are unique by name within their application. */
  datatype ApplicationRow = ApplicationRow(
    displayName: string, description: string, kind: string, chartName: string, chartVersion: string,
    helmRegistry: NamedKey, imageRegistry: Option<NamedKey>,
    profiles: map<string, ProfileRow>, defaultProfile: Option<string>, ignored: seq<Resource>)

  /** A link from a deployment profile to a profile of an application. */
  datatype ProfileLink = ProfileLink(app: VersionedKey, profile: string)

  datatype DeploymentProfileRow = DeploymentProfileRow(
    displayName: string, description: string, links: seq<ProfileLink>)

  datatype DependencyRow = DependencyRow(source: VersionedKey, target: VersionedKey)

  datatype AppNamespaceRow = AppNamespaceRow(app: VersionedKey, namespace: string)

  datatype NamespaceRow = NamespaceRow(
    name: string, labels: map<string, string>, annotations: map<string, string>)

  /** An extension without a user interface has the empty UiExtension columns. */
  datatype ExtensionRow = ExtensionRow(
    name: string, version: string, displayName: string, description: string,
    ui: UiExtension, endpoints: seq<Endpoint>)

  datatype ArtifactReferenceRow = ArtifactReferenceRow(artifact: NamedKey, purpose: string)

  /** Owned rows are listed in insertion order; deployment profiles are unique by name. */
  datatype PackageRow = PackageRow(
    displayName: string, description: string, kind: string,
    isDeployed: bool, isVisible: bool, allowsMultiple: bool,
    applications: seq<VersionedKey>, dependencies: seq<DependencyRow>,
    appNamespaces: map<string, AppNamespaceRow>, namespaces: seq<NamespaceRow>,
    profiles: map<string, DeploymentProfileRow>, defaultProfile: Option<string>,
    extensions: seq<ExtensionRow>, artifacts: seq<ArtifactReferenceRow>)

  datatype Db = Db(
    registries: map<NamedKey, RegistryRow>,
    artifacts: map<NamedKey, ArtifactRow>,
    applications: map<VersionedKey, ApplicationRow>,
    packages: map<VersionedKey, PackageRow>)

  // ---------- Display names ----------

  /** The stored display name: the name stands in for an empty one. */
  function DisplayName(name: string, displayName: string): string {
    if displayName == "" then name else displayName
  }

  // ---------- Default profiles ----------

  /** A default exists exactly when there is something to choose from, and it is one of those. */
  predicate DefaultFits(names: set<string>, default: Option<string>) {
    (default.Some? <==> names != {}) && (default.Some? ==> default.value in names)
  }

  /** The requested default profile differs from the stored one; the empty name stands for none. */
  predicate DefaultChanged(stored: Option<string>, wanted: string) {
    match stored
    case None => wanted != ""
    case Some(name) => wanted != name
  }

  // ---------- Entries as maps ----------

  function EntryKeys(e: Entries): set<string> {
    set i | 0 <= i < |e| :: e[i].0
  }

  /** The map that the entries come from. */
  function EntryMap(e: Entries): (m: map<string, string>)
    ensures m.Keys == EntryKeys(e)
  {
    if e == [] then map[] else
      var last := |e| - 1;
      var m := EntryMap(e[..last])[e[last].0 := e[last].1];
      assert EntryKeys(e) == EntryKeys(e[..last]) + {e[last].0};
      m
  }

  lemma {:induction false} EntryMapAt(e: Entries, i: nat)
    requires DistinctKeys(e) && i < |e|
    ensures e[i].0 in EntryMap(e) && EntryMap(e)[e[i].0] == e[i].1
  {
    var last := |e| - 1;
    if i < last {
      EntryMapAt(e[..last], i);
    }
  }

  lemma {:induction false} EntryMapSize(e: Entries)
    requires DistinctKeys(e)
    ensures |EntryMap(e)| == |e|
  {
    if e != [] {
      var last := |e| - 1;
      EntryMapSize(e[..last]);
      assert e[last].0 !in EntryMap(e[..last]);
    }
  }

  lemma KeysAreEntries(e: Entries)
    ensures e != [] ==> e[0].0 in EntryMap(e)
    ensures e == [] <==> EntryMap(e) == map[]
  {
    if e != [] {
      assert e[0].0 in EntryKeys(e);
    }
  }
}
