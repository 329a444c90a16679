/** The loops of the deployment package operations, each proved against its specification. */
module PackageSteps {
  import opened Prelude
  import opened Text
  import opened Tables
  import opened Diff
  import opened References
  import opened Packages

  // ---------- Validation ----------

  method ValidateDeploymentProfiles(req: PackageRequest) returns (accepted: bool)
    ensures accepted <==> Unambiguous(req)
  {
    if |req.profiles| == 0 || |req.applications| == 1 {
      return true;
    }
    var qualified := true;
    for i := 0 to |req.profiles|
      invariant qualified <==> forall j :: 0 <= j < i ==> AllQualified(EntriesOf(req.profiles[j]))
    {
      if qualified {
        var e := EntriesOf(req.profiles[i]);
        for j := 0 to |e|
          invariant qualified && forall h :: 0 <= h < j ==> ':' in e[h].0
        {
          if ':' !in e[j].0 {
            qualified := false;
            break;
          }
        }
      }
    }
    if qualified {
      return true;
    }
    var repeats := HasDuplicateAppNames(req.applications, ReferenceName);
    assert RepeatsReferenceName(req.applications) <==> !DistinctNames(req.applications, ReferenceName);
    return !repeats;
  }

  function ReferenceName(r: Reference): string { r.name }

  // ---------- Creating owned rows ----------

  method CreateApplicationReferences(db: Db, project: string, refs: seq<Reference>)
    returns (r: Result<seq<VersionedKey>>)
    ensures r == MakeApplications(db, project, refs)
  {
    var keys: seq<VersionedKey> := [];
    for i := 0 to |refs|
      invariant keys == ReferenceKeys(project, refs)[..i]
      invariant forall j :: 0 <= j < i ==> ReferenceKey(project, refs[j]) in db.applications
    {
      var key := ReferenceKey(project, refs[i]);
      if key !in db.applications {
        return Err(InvalidArgument);
      }
      keys := keys + [key];
    }
    assert keys == ReferenceKeys(project, refs);
    return Ok(Dedup(keys));
  }

  /** The members by name; of several with one name the last stays in the index. */
  method IndexByName(apps: seq<VersionedKey>) returns (index: map<string, VersionedKey>)
    ensures forall n :: n in index <==> LastNamed(apps, n).Some?
    ensures forall n :: n in index ==> LastNamed(apps, n) == Some(index[n])
  {
    index := map[];
    for i := 0 to |apps|
      invariant forall n :: n in index <==> LastNamed(apps[..i], n).Some?
      invariant forall n :: n in index ==> LastNamed(apps[..i], n) == Some(index[n])
    {
      assert apps[..i + 1][..i] == apps[..i];
      index := index[apps[i].name := apps[i]];
    }
    assert apps[..|apps|] == apps;
  }

  method CreateApplicationDependencies(apps: seq<VersionedKey>, deps: seq<Dependency>)
    returns (r: Result<seq<DependencyRow>>)
    ensures r == MakeDependencies(apps, deps)
  {
    var index := IndexByName(apps);
    var rows: seq<DependencyRow> := [];
    for i := 0 to |deps|
      invariant |rows| == i
      invariant forall j :: 0 <= j < i ==> DependencyFits(apps, deps[j]) && rows[j] == MakeDependency(apps, deps[j])
    {
      var d := deps[i];
      if d.name == d.target || d.name !in index || d.target !in index {
        assert !DependencyFits(apps, deps[i]);
        return Err(InvalidArgument);
      }
      rows := rows + [DependencyRow(index[d.name], index[d.target])];
    }
    assert MakeDependencies(apps, deps).Ok? && rows == MakeDependencies(apps, deps).value;
    return Ok(rows);
  }

  method CreateApplicationNamespaces(apps: seq<VersionedKey>, e: Entries)
    returns (r: Result<map<string, AppNamespaceRow>>)
    requires DistinctKeys(e)
    ensures r == MakeAppNamespaces(apps, e)
  {
    var index := IndexByName(apps);
    var rows: map<string, AppNamespaceRow> := map[];
    for i := 0 to |e|
      invariant rows.Keys == EntryKeys(e[..i])
      invariant forall j :: 0 <= j < i ==>
                e[j].0 in index && e[j].0 in rows && rows[e[j].0] == AppNamespaceRow(index[e[j].0], e[j].1)
    {
      assert EntryKeys(e[..i + 1]) == EntryKeys(e[..i]) + {e[i].0};
      if e[i].0 !in index {
        assert e[i].0 in EntryKeys(e) && LastNamed(apps, e[i].0).None?;
        return Err(InvalidArgument);
      }
      rows := rows[e[i].0 := AppNamespaceRow(index[e[i].0], e[i].1)];
    }
    assert e[..|e|] == e;
    NamespaceRowsMade(apps, e, rows);
    return Ok(rows);
  }

  lemma NamespaceRowsMade(apps: seq<VersionedKey>, e: Entries, rows: map<string, AppNamespaceRow>)
    requires DistinctKeys(e) && rows.Keys == EntryKeys(e)
    requires forall j :: 0 <= j < |e| ==>
               LastNamed(apps, e[j].0).Some? && rows[e[j].0] == AppNamespaceRow(LastNamed(apps, e[j].0).value, e[j].1)
    ensures MakeAppNamespaces(apps, e) == Ok(rows)
  {
    forall n | n in EntryKeys(e)
      ensures LastNamed(apps, n).Some? && rows[n] == AppNamespaceRow(LastNamed(apps, n).value, EntryMap(e)[n])
    {
      var j :| 0 <= j < |e| && e[j].0 == n;
      EntryMapAt(e, j);
    }
    assert rows == MakeAppNamespaces(apps, e).value;
  }

  method CreateArtifactReferences(db: Db, project: string, arts: seq<ArtifactReference>)
    returns (r: Result<seq<ArtifactReferenceRow>>)
    ensures r == MakeArtifacts(db, project, arts)
  {
    var rows: seq<ArtifactReferenceRow> := [];
    for i := 0 to |arts|
      invariant |rows| == i
      invariant forall j :: 0 <= j < i ==>
                  NamedKey(project, arts[j].name) in db.artifacts && rows[j] == MakeArtifact(project, arts[j])
    {
      var key := NamedKey(project, arts[i].name);
      if key !in db.artifacts {
        return Err(InvalidArgument);
      }
      rows := rows + [ArtifactReferenceRow(key, arts[i].purpose)];
    }
    assert MakeArtifacts(db, project, arts).Ok? && rows == MakeArtifacts(db, project, arts).value;
    return Ok(rows);
  }

  /** Stores extension by extension; the unique indexes stop at the first repeated one. */
  method CreateExtensions(exts: seq<ExtensionRequest>) returns (r: Result<seq<ExtensionRow>>)
    ensures r == MakeExtensions(exts)
  {
    var rows: seq<ExtensionRow> := [];
    var names: set<(string, string)> := {};
    for i := 0 to |exts|
      invariant rows == MapSeq(MakeExtension, exts[..i]) && ExtensionsFit(rows)
      invariant names == set j | 0 <= j < i :: (exts[j].name, exts[j].version)
    {
      var e := MakeExtension(exts[i]);
      var fits := CreateEndpoints(e.endpoints);
      var all := MapSeq(MakeExtension, exts);
      assert all[i] == e && forall j :: 0 <= j < i ==> all[j] == rows[j];
      if (e.name, e.version) in names || !fits {
        assert !ExtensionsFit(all);
        return Err(DatabaseError);
      }
      rows := rows + [e];
      names := names + {(e.name, e.version)};
    }
    assert exts[..|exts|] == exts;
    return Ok(rows);
  }

  method CreateEndpoints(endpoints: seq<Endpoint>) returns (fits: bool)
    ensures fits <==> EndpointsFit(endpoints)
  {
    var names: set<string> := {};
    for i := 0 to |endpoints|
      invariant names == set j | 0 <= j < i :: endpoints[j].serviceName
      invariant EndpointsFit(endpoints[..i])
    {
      if endpoints[i].serviceName in names {
        return false;
      }
      names := names + {endpoints[i].serviceName};
    }
    assert endpoints[..|endpoints|] == endpoints;
    return true;
  }

  // ---------- Deployment profiles ----------

  method InjectDeploymentProfile(
    db: Db, apps: seq<VersionedKey>, profiles: ProfileTable,
    p: DeploymentProfileRequest) returns (r: Result<ProfileTable>)
    ensures r == InjectProfile(db, apps, profiles, p)
  {
    if !IsTrimmed(p.displayName) {
      return Err(InvalidArgument);
    }
    if ProfileDisplayTaken(profiles, p) {
      return Err(AlreadyExists);
    }
    var links := ValidateAllProfiles(db.applications, apps, EntriesOf(p));
    if links.None? || p.name in profiles {
      return Err(InvalidArgument);
    }
    return Ok(profiles[p.name :=
        DeploymentProfileRow(DisplayName(p.name, p.displayName), p.description, Dedup(links.value))]);
  }

  /** Also reports whether one of the created profiles is the requested default. */
  method CreateDeploymentProfiles(
    db: Db, apps: seq<VersionedKey>, profiles: ProfileTable, ps: seq<DeploymentProfileRequest>, default: string)
    returns (r: Result<ProfileTable>, defaultCreated: bool)
    ensures r == InjectProfiles(db, apps, profiles, ps)
    ensures r.Ok? ==> (defaultCreated <==> default != "" && Named(ps, ProfileName, default))
  {
    var table := profiles;
    defaultCreated := false;
    for i := 0 to |ps|
      invariant InjectProfiles(db, apps, profiles, ps[..i]) == Ok(table)
      invariant defaultCreated <==> default != "" && Named(ps[..i], ProfileName, default)
    {
      assert ps[..i + 1][..i] == ps[..i] && ps[..i + 1] == ps[..i] + [ps[i]];
      NamedStep(ps[..i], ps[i], ProfileName);
      var next := InjectDeploymentProfile(db, apps, table, ps[i]);
      assert InjectProfiles(db, apps, profiles, ps[..i + 1]) == next;
      if next.Err? {
        InjectFails(db, apps, profiles, ps, i + 1);
        return next, false;
      }
      table := next.value;
      if default != "" && default == ps[i].name {
        defaultCreated := true;
      }
    }
    assert ps[..|ps|] == ps;
    r := Ok(table);
  }

  lemma {:induction false} InjectFails(
    db: Db, apps: seq<VersionedKey>, profiles: ProfileTable, ps: seq<DeploymentProfileRequest>, i: nat)
    requires i <= |ps| && InjectProfiles(db, apps, profiles, ps[..i]).Err?
    ensures InjectProfiles(db, apps, profiles, ps) == InjectProfiles(db, apps, profiles, ps[..i])
    decreases |ps| - i
  {
    if i == |ps| {
      assert ps[..i] == ps;
    } else {
      assert ps[..i + 1][..i] == ps[..i];
      InjectFails(db, apps, profiles, ps, i + 1);
    }
  }

  /** Deletes the stored profiles that are not requested, and updates those that are. */
  method KeepRequestedProfiles(
    db: Db, apps: seq<VersionedKey>, profiles: ProfileTable, ps: seq<DeploymentProfileRequest>)
    returns (r: Result<ProfileTable>)
    ensures r.Ok? <==> forall n :: n in profiles ==> KeptFits(db, apps, ps, n)
    ensures r.Ok? ==> r.value == KeptProfiles(db, apps, profiles, ps)
    ensures r.Err? ==> r.error == InvalidArgument
  {
    var kept: ProfileTable := map[];
    var pending := profiles.Keys;
    while pending != {}
      invariant pending <= profiles.Keys
      invariant forall n :: n in profiles && n !in pending ==> KeptFits(db, apps, ps, n)
      invariant forall n :: n in kept <==> n in profiles && n !in pending && Requested(ps, n).Some?
      invariant forall n :: n in kept ==> kept[n] == MergeProfile(db, apps, profiles[n], Requested(ps, n).value)
      decreases |pending|
    {
      var n :| n in pending;
      var wanted := Requested(ps, n);
      if wanted.Some? {
        var links := ValidateAllProfiles(db.applications, apps, EntriesOf(wanted.value));
        if !IsTrimmed(wanted.value.displayName) || links.None? {
          assert !KeptFits(db, apps, ps, n);
          return Err(InvalidArgument);
        }
        kept := kept[n := DeploymentProfileRow(
          DisplayName(wanted.value.name, wanted.value.displayName), wanted.value.description,
          Dedup(profiles[n].links + links.value))];
      }
      pending := pending - {n};
    }
    r := Ok(kept);
  }

  method UpdateDeploymentProfiles(
    db: Db, apps: seq<VersionedKey>, profiles: ProfileTable, ps: seq<DeploymentProfileRequest>,
    mapOrder: seq<DeploymentProfileRequest>, default: string)
    returns (r: Result<ProfileTable>, defaultCreated: bool)
    ensures r == UpdateProfiles(db, apps, profiles, ps, mapOrder)
    ensures r.Ok? ==> (defaultCreated <==>
            default != "" && Named(NewItems(profiles, ps, ProfileName), ProfileName, default))
  {
    var distinct := AllDistinct(ps, ProfileName, LowerDisplay);
    if !distinct {
      return Err(AlreadyExists), false;
    }
    var kept := KeepRequestedProfiles(db, apps, profiles, ps);
    if kept.Err? {
      return kept, false;
    }
    ArrangeKeeps(NewItems(profiles, ps, ProfileName), mapOrder, ProfileName);
    r, defaultCreated :=
      CreateDeploymentProfiles(db, apps, kept.value, ProfilesToCreate(profiles, ps, mapOrder), default);
  }

  // ---------- Comparing ----------

  function AtKey(k: VersionedKey): string { k.name + "@" + k.version }

  function ReferenceAtKey(r: Reference): string { r.name + "@" + r.version }

  predicate SameReference(r: Reference, k: VersionedKey) { r.name == k.name && r.version == k.version }

  predicate PlainReferences(refs: seq<Reference>) {
    forall i :: 0 <= i < |refs| ==> Plain(refs[i].name) && Plain(refs[i].version)
  }

  /** The comparison by "name@version" keys decides membership of references. */
  method ApplicationReferencesChanged(row: PackageRow, req: PackageRequest) returns (changed: bool)
    requires PlainKeys(row.applications) && PlainReferences(req.applications)
    ensures changed <==> ApplicationsChanged(row, req)
  {
    changed := ListChanged(row.applications, AtKey, req.applications, ReferenceAtKey, SameReference);
    forall i | 0 <= i < |req.applications|
      ensures var x := LastWith(row.applications, AtKey, ReferenceAtKey(req.applications[i]));
              (x.Some? && SameReference(req.applications[i], x.value)) <==>
              req.applications[i] in MapSeq(StoredReference, row.applications)
    {
      AtKeysDecide(row.applications, req.applications[i]);
    }
  }

  lemma AtKeysDecide(apps: seq<VersionedKey>, r: Reference)
    requires PlainKeys(apps) && Plain(r.name) && Plain(r.version)
    ensures var x := LastWith(apps, AtKey, ReferenceAtKey(r));
            (x.Some? && SameReference(r, x.value)) <==> r in MapSeq(StoredReference, apps)
  {
    var x := LastWith(apps, AtKey, ReferenceAtKey(r));
    var refs := MapSeq(StoredReference, apps);
    if r in refs {
      var i :| 0 <= i < |refs| && refs[i] == r;
      assert AtKey(apps[i]) == ReferenceAtKey(r);
      assert x.Some?;
    }
    if x.Some? {
      FirstSeparatorIsUnique(x.value.name, x.value.version, r.name, r.version, '@');
      var i :| 0 <= i < |apps| && apps[i] == x.value;
      assert refs[i] == r;
    }
  }

  function SlashKey(d: Dependency): string { d.name + "/" + d.target }

  predicate PlainDependencies(deps: seq<Dependency>) {
    forall i :: 0 <= i < |deps| ==> Plain(deps[i].name) && Plain(deps[i].target)
  }

  lemma SlashKeysDecide(stored: seq<Dependency>, d: Dependency)
    requires PlainDependencies(stored) && Plain(d.name)
    ensures SlashKey(d) in MapSeq(SlashKey, stored) <==> d in stored
  {
    var keys := MapSeq(SlashKey, stored);
    if SlashKey(d) in keys {
      var i :| 0 <= i < |keys| && keys[i] == SlashKey(d);
      FirstSeparatorIsUnique(stored[i].name, stored[i].target, d.name, d.target, '/');
      assert stored[i] == d;
    }
    if d in stored {
      var i :| 0 <= i < |stored| && stored[i] == d;
      assert keys[i] == SlashKey(d);
    }
  }

  method ApplicationDependenciesChanged(row: PackageRow, req: PackageRequest) returns (r: Result<bool>)
    requires PlainDependencies(MapSeq(StoredDependency, row.dependencies)) && PlainDependencies(req.dependencies)
    ensures r == DependenciesChanged(row, req)
  {
    if |row.dependencies| != |req.dependencies| {
      return Ok(true);
    }
    var stored := MapSeq(StoredDependency, row.dependencies);
    var existing: set<string> := {};
    for i := 0 to |stored|
      invariant existing == Elements(MapSeq(SlashKey, stored[..i]))
    {
      assert MapSeq(SlashKey, stored[..i + 1]) == MapSeq(SlashKey, stored[..i]) + [SlashKey(stored[i])];
      existing := existing + {SlashKey(stored[i])};
    }
    assert stored[..|stored|] == stored;
    var apps := set i | 0 <= i < |req.applications| :: req.applications[i].name;
    for i := 0 to |req.dependencies|
      invariant ScanDependencies(stored, req.applications, req.dependencies) ==
                ScanDependencies(stored, req.applications, req.dependencies[i..])
    {
      var d := req.dependencies[i];
      SlashKeysDecide(stored, d);
      assert req.dependencies[i..][0] == d && req.dependencies[i..][1..] == req.dependencies[i + 1..];
      if SlashKey(d) !in existing {
        return Ok(true);
      }
      if d.name !in apps || d.target !in apps {
        return Err(InvalidArgument);
      }
    }
    return Ok(false);
  }

  method ApplicationNamespacesChanged(row: PackageRow, req: PackageRequest) returns (r: Result<bool>)
    ensures r == AppNamespacesChanged(row, req)
  {
    var index := IndexByName(row.applications);
    if |row.appNamespaces| != |req.defaultNamespaces| {
      return Ok(true);
    }
    var e := req.defaultNamespaces;
    for i := 0 to |e|
      invariant ScanNamespaces(row, e) == ScanNamespaces(row, e[i..])
    {
      assert e[i..][0] == e[i] && e[i..][1..] == e[i + 1..];
      if e[i].0 !in row.appNamespaces || row.appNamespaces[e[i].0].namespace != e[i].1 {
        return Err(InvalidArgument);
      }
      if e[i].0 !in index {
        return Ok(true);
      }
    }
    return Ok(false);
  }

  /** What the invariant of the tables gives about the names in a stored package. */
  predicate PlainRow(row: PackageRow) {
    PlainKeys(row.applications) && PlainDependencies(MapSeq(StoredDependency, row.dependencies))
  }

  lemma ValidPackageIsPlain(req: PackageRequest)
    requires ValidPackage(req)
    ensures PlainReferences(req.applications) && PlainDependencies(req.dependencies)
  {
    forall i | 0 <= i < |req.applications|
      ensures Plain(req.applications[i].name) && Plain(req.applications[i].version)
    {
      assert ValidReference(req.applications[i]);
      ValidNamesArePlain(req.applications[i].name);
      ValidNamesArePlain(req.applications[i].version);
    }
    forall i | 0 <= i < |req.dependencies|
      ensures Plain(req.dependencies[i].name) && Plain(req.dependencies[i].target)
    {
      assert ValidDependency(req.dependencies[i]);
      ValidNamesArePlain(req.dependencies[i].name);
      ValidNamesArePlain(req.dependencies[i].target);
    }
  }

  method ComputePackageChanges(row: PackageRow, req: PackageRequest) returns (r: Result<Changes>)
    requires PlainRow(row) && ValidPackage(req)
    ensures r == PackageChanges(row, req)
  {
    ValidPackageIsPlain(req);
    var applications := ApplicationReferencesChanged(row, req);
    var profiles, added := CompareProfiles(row.profiles, req.profiles, ProfileName, SameProfile);
    var dependencies := ApplicationDependenciesChanged(row, req);
    if dependencies.Err? {
      return Err(dependencies.error);
    }
    var defaultNamespaces := ApplicationNamespacesChanged(row, req);
    if defaultNamespaces.Err? {
      return Err(defaultNamespaces.error);
    }
    var namespaces := ListChanged(row.namespaces, NamespaceRowName, req.namespaces, NamespaceName, SameNamespace);
    var extensions := ListChanged(row.extensions, ExtensionRowName, req.extensions, ExtensionName, SameExtension);
    var artifacts := ListChanged(row.artifacts, ArtifactRowName, req.artifacts, ArtifactName, SameArtifact);
    return Ok(Changes(
                KindOrStateChanged(row, req), RootChanged(row, req), applications, profiles,
                DefaultChanged(row.defaultProfile, req.defaultProfile), dependencies.value,
                defaultNamespaces.value, namespaces, extensions, artifacts, added));
  }

  // ---------- Create and update ----------

  method CreateDeploymentPackage(db: Db, project: string, req: PackageRequest) returns (r: Result<Db>)
    requires DistinctKeys(req.defaultNamespaces)
    ensures r == CreatePackage(db, project, req)
  {
    if NeedsDefault(req) || !IsTrimmed(req.displayName) {
      return Err(InvalidArgument);
    }
    if DisplayTaken(db, project, req) {
      return Err(AlreadyExists);
    }
    var key := PackageKey(project, req);
    if key in db.packages {
      return Err(InvalidArgument);
    }
    var applications :- CreateApplicationReferences(db, project, req.applications);
    var dependencies :- CreateApplicationDependencies(applications, req.dependencies);
    var appNamespaces :- CreateApplicationNamespaces(applications, req.defaultNamespaces);
    var created, _ := CreateDeploymentProfiles(db, applications, map[], req.profiles, req.defaultProfile);
    var profiles :- created;
    if req.defaultProfile != "" && req.defaultProfile !in profiles {
      return Err(InvalidArgument);
    }
    var extensions :- CreateExtensions(req.extensions);
    var artifacts :- CreateArtifactReferences(db, project, req.artifacts);
    return Ok(db.(packages := db.packages[key := PackageRow(
        DisplayName(req.name, req.displayName), req.description, KindToDb(req.kind),
        req.isDeployed, req.isVisible, !req.forbidsMultiple,
        applications, dependencies, appNamespaces, MapSeq(MakeNamespace, req.namespaces),
        profiles, if req.defaultProfile == "" then None else Some(req.defaultProfile),
        extensions, artifacts)]));
  }

  method RewriteMembers(db: Db, project: string, row: PackageRow, req: PackageRequest, ch: Changes)
    returns (r: Result<Members>)
    requires DistinctKeys(req.defaultNamespaces)
    ensures r == ApplyMembers(db, project, row, req, ch)
  {
    var m := Members(row.applications, row.dependencies, row.appNamespaces);
    if ch.applications {
      var applications :- CreateApplicationReferences(db, project, req.applications);
      m := m.(applications := applications);
    }
    if ch.dependencies || ch.applications {
      var dependencies :- CreateApplicationDependencies(m.applications, req.dependencies);
      m := m.(dependencies := dependencies);
    }
    if ch.defaultNamespaces || ch.applications {
      var appNamespaces :- CreateApplicationNamespaces(m.applications, req.defaultNamespaces);
      m := m.(appNamespaces := appNamespaces);
    }
    return Ok(m);
  }

  method RewriteProfiles(db: Db, apps: seq<VersionedKey>, row: PackageRow, req: PackageRequest, ch: Changes)
    returns (r: Result<(ProfileTable, Option<string>)>)
    ensures r == ApplyProfiles(db, apps, row, req, ch)
  {
    var updated, defaultCreated;
    if ch.profiles || ch.applications {
      updated, defaultCreated := UpdateDeploymentProfiles(
        db, apps, row.profiles, req.profiles, req.mapOrder, req.defaultProfile);
    } else {
      updated, defaultCreated := CreateDeploymentProfiles(db, apps, row.profiles, ch.newProfiles, req.defaultProfile);
    }
    var profiles :- updated;
    var default := row.defaultProfile;
    if default.Some? && default.value !in profiles {
      default := None;
    }
    if defaultCreated {
      default := Some(req.defaultProfile);
    }
    if (ch.profile || ch.profiles) && req.defaultProfile != "" {
      if req.defaultProfile !in profiles {
        return Err(InvalidArgument);
      }
      default := Some(req.defaultProfile);
    }
    return Ok((profiles, default));
  }

  method RewriteRow(db: Db, project: string, row: PackageRow, req: PackageRequest, ch: Changes)
    returns (r: Result<PackageRow>)
    requires DistinctKeys(req.defaultNamespaces)
    ensures r == ApplyChanges(db, project, row, req, ch)
  {
    var members :- RewriteMembers(db, project, row, req, ch);
    var profiles :- RewriteProfiles(db, members.applications, row, req, ch);
    var extensions := row.extensions;
    if ch.extensions {
      extensions :- CreateExtensions(req.extensions);
    }
    var artifacts := row.artifacts;
    if ch.artifacts {
      artifacts :- CreateArtifactReferences(db, project, req.artifacts);
    }
    return Ok(AppliedRow(row, req, ch, members, profiles, extensions, artifacts));
  }

  method UpdateDeploymentPackage(db: Db, project: string, req: PackageRequest) returns (r: Result<Db>)
    requires ValidPackage(req)
    requires PackageKey(project, req) in db.packages ==> PlainRow(db.packages[PackageKey(project, req)])
    ensures r == UpdatePackage(db, project, req)
  {
    if NeedsDefault(req) || !IsTrimmed(req.displayName) {
      return Err(InvalidArgument);
    }
    var key := PackageKey(project, req);
    if key !in db.packages {
      return Err(NotFound);
    }
    var row := db.packages[key];
    var ch :- ComputePackageChanges(row, req);
    if ch.kindOrState && !ch.Changed() {
      return Ok(db.(packages := db.packages[key := row.(isDeployed := req.isDeployed, kind := KindToDb(req.kind))]));
    }
    if ch.Changed() && row.isDeployed && req.isDeployed {
      return Err(FailedPrecondition);
    }
    if DisplayTaken(db, "", req) {
      return Err(AlreadyExists);
    }
    var row' :- RewriteRow(db, project, row, req, ch);
    return Ok(db.(packages := db.packages[key := row']));
  }
}
