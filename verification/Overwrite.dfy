/**
 * The diffed update refines an overwrite: whichever comparison flags fire, a successful update
 * leaves the package as if every part had been replaced by the request.
 */
module Overwrite {
  import opened Prelude
  import opened Tables
  import opened Diff
  import opened Packages

  // ---------- What a reader sees of a stored package ----------

  function ReadExtension(e: ExtensionRow): ExtensionRequest {
    ExtensionRequest(e.name, e.version, e.displayName, e.description, Some(e.endpoints), ReadUi(e.ui))
  }

  /** The requested extension, with an absent endpoint list read as an empty one. */
  function WantedExtension(e: ExtensionRequest): ExtensionRequest {
    e.(endpoints := Some(if e.endpoints.Some? then e.endpoints.value else []))
  }

  function ReadArtifact(a: ArtifactReferenceRow): ArtifactReference {
    ArtifactReference(a.artifact.name, a.purpose)
  }

  function ReadAppNamespaces(m: map<string, AppNamespaceRow>): map<string, string> {
    map n | n in m :: m[n].namespace
  }

  function Same<T>(x: T): T { x }

  /** The root record shows the request. */
  predicate RootReflects(row: PackageRow, req: PackageRequest) {
    row.displayName == DisplayName(req.name, req.displayName) && row.description == req.description &&
    row.kind == KindToDb(req.kind) && row.isDeployed == req.isDeployed &&
    row.isVisible == req.isVisible && row.allowsMultiple == !req.forbidsMultiple
  }

  predicate DefaultReflects(row: PackageRow, req: PackageRequest) {
    row.defaultProfile == if req.defaultProfile == "" then None else Some(req.defaultProfile)
  }

  ghost predicate ApplicationsReflect(project: string, apps: seq<VersionedKey>, req: PackageRequest) {
    Elements(apps) == Elements(ReferenceKeys(project, req.applications))
  }

  ghost predicate DependenciesReflect(deps: seq<DependencyRow>, req: PackageRequest) {
    multiset(MapSeq(StoredDependency, deps)) == multiset(req.dependencies)
  }

  ghost predicate NamespacesReflect(rows: seq<NamespaceRow>, req: PackageRequest) {
    multiset(rows) == multiset(MapSeq(MakeNamespace, req.namespaces))
  }

  ghost predicate ExtensionsReflect(rows: seq<ExtensionRow>, req: PackageRequest) {
    multiset(MapSeq(ReadExtension, rows)) == multiset(MapSeq(WantedExtension, req.extensions))
  }

  ghost predicate ArtifactsReflect(rows: seq<ArtifactReferenceRow>, req: PackageRequest) {
    multiset(MapSeq(ReadArtifact, rows)) == multiset(req.artifacts)
  }

  /** Every part of the stored package shows the request; lists are compared up to order. */
  ghost predicate Reflects(project: string, row: PackageRow, req: PackageRequest) {
    && RootReflects(row, req) && DefaultReflects(row, req)
    && ApplicationsReflect(project, row.applications, req)
    && DependenciesReflect(row.dependencies, req)
    && ReadAppNamespaces(row.appNamespaces) == EntryMap(req.defaultNamespaces)
    && NamespacesReflect(row.namespaces, req)
    && ExtensionsReflect(row.extensions, req)
    && ArtifactsReflect(row.artifacts, req)
  }

  /** No list of the request names the same thing twice. */
  predicate NothingTwice(req: PackageRequest) {
    NoDup(req.applications) && NoDup(req.dependencies) && NoDup(MapSeq(MakeNamespace, req.namespaces)) &&
    NoDup(MapSeq(WantedExtension, req.extensions)) && NoDup(req.artifacts)
  }

  /** No list of the stored package holds the same thing twice. */
  predicate StoredOnce(row: PackageRow) {
    NoDup(row.applications) && NoDup(MapSeq(StoredDependency, row.dependencies)) && NoDup(row.namespaces) &&
    NoDup(MapSeq(ReadExtension, row.extensions)) && NoDup(MapSeq(ReadArtifact, row.artifacts))
  }

  predicate Titled(e: ExtensionRequest) { e.ui.Some? ==> e.ui.value.title != "" }

  /** Every requested user interface has a label. */
  predicate AllTitled(req: PackageRequest) {
    forall i :: 0 <= i < |req.extensions| ==> Titled(req.extensions[i])
  }

  /** Each list is rewritten or repeats nothing, and rewritten extensions have labelled user interfaces. */
  predicate Faithful(req: PackageRequest, ch: Changes) {
    && (ch.applications || NoDup(req.applications))
    && (ch.dependencies || ch.applications || NoDup(req.dependencies))
    && (ch.namespaces || NoDup(MapSeq(MakeNamespace, req.namespaces)))
    && (if ch.extensions then AllTitled(req) else NoDup(MapSeq(WantedExtension, req.extensions)))
    && (ch.artifacts || NoDup(req.artifacts))
  }

  /** What the reachable-state invariant provides about the stored package. */
  predicate Settled(project: string, row: PackageRow) {
    row.displayName != "" && DefaultFits(row.profiles.Keys, row.defaultProfile) &&
    forall i :: 0 <= i < |row.applications| ==> row.applications[i].project == project
  }

  // ---------- Part by part ----------

  lemma KeptApplicationsReflect(project: string, row: PackageRow, req: PackageRequest)
    requires Settled(project, row) && !ApplicationsChanged(row, req)
    ensures NoDup(req.applications) ==> ApplicationsReflect(project, row.applications, req)
    ensures NoDup(row.applications) ==>
            (ApplicationsReflect(project, row.applications, req) <==> NoDup(req.applications))
  {
    if NoDup(req.applications) {
      DistinctReferencesAreStored(project, row, req);
    }
    var keys := ReferenceKeys(project, req.applications);
    if NoDup(row.applications) && Elements(row.applications) == Elements(keys) {
      DistinctSize(row.applications);
      DistinctSize(keys);
      forall i, j | 0 <= i < j < |req.applications|
        ensures req.applications[i] != req.applications[j]
      {
        assert keys[i] != keys[j];
      }
    }
  }

  lemma DistinctReferencesAreStored(project: string, row: PackageRow, req: PackageRequest)
    requires Settled(project, row) && !ApplicationsChanged(row, req) && NoDup(req.applications)
    ensures ApplicationsReflect(project, row.applications, req)
  {
    var stored := MapSeq(StoredReference, row.applications);
    forall r | r in req.applications
      ensures r in stored
    {
      var i :| 0 <= i < |req.applications| && req.applications[i] == r;
    }
    Pigeonhole(stored, req.applications);
    MultisetMembers(stored, req.applications);
    var keys := ReferenceKeys(project, req.applications);
    forall k
      ensures k in row.applications <==> k in keys
    {
      if k in row.applications {
        var i :| 0 <= i < |row.applications| && row.applications[i] == k;
        assert stored[i] in req.applications;
        var j :| 0 <= j < |req.applications| && req.applications[j] == stored[i];
        assert keys[j] == k;
      }
      if k in keys {
        var j :| 0 <= j < |keys| && keys[j] == k;
        assert req.applications[j] in stored;
        var i :| 0 <= i < |stored| && stored[i] == req.applications[j];
        assert row.applications[i] == k;
      }
    }
  }

  lemma MadeDependenciesReflect(apps: seq<VersionedKey>, deps: seq<Dependency>)
    requires MakeDependencies(apps, deps).Ok?
    ensures MapSeq(StoredDependency, MakeDependencies(apps, deps).value) == deps
  {
  }

  lemma {:induction false} ScannedDependenciesAreStored(
    stored: seq<Dependency>, refs: seq<Reference>, deps: seq<Dependency>)
    requires ScanDependencies(stored, refs, deps) == Ok(false)
    ensures forall d :: d in deps ==> d in stored && NamesApplication(refs, d.name) && NamesApplication(refs, d.target)
  {
    if deps != [] {
      ScannedDependenciesAreStored(stored, refs, deps[1..]);
      assert deps == [deps[0]] + deps[1..];
    }
  }

  lemma KeptDependenciesReflect(row: PackageRow, req: PackageRequest)
    requires DependenciesChanged(row, req) == Ok(false)
    ensures NoDup(req.dependencies) ==> DependenciesReflect(row.dependencies, req)
    ensures NoDup(MapSeq(StoredDependency, row.dependencies)) ==>
              (DependenciesReflect(row.dependencies, req) <==> NoDup(req.dependencies))
  {
    var stored := MapSeq(StoredDependency, row.dependencies);
    ScannedDependenciesAreStored(stored, req.applications, req.dependencies);
    if NoDup(req.dependencies) {
      Pigeonhole(stored, req.dependencies);
    }
    if NoDup(stored) {
      PigeonholeExact(stored, req.dependencies);
    }
  }

  lemma {:induction false} ScannedNamespacesAreStored(row: PackageRow, e: Entries, i: nat)
    requires ScanNamespaces(row, e) == Ok(false) && i < |e|
    ensures e[i].0 in row.appNamespaces && row.appNamespaces[e[i].0].namespace == e[i].1
  {
    if i > 0 {
      ScannedNamespacesAreStored(row, e[1..], i - 1);
    }
  }

  lemma ScannedEntriesAreStored(row: PackageRow, e: Entries, n: string)
    requires ScanNamespaces(row, e) == Ok(false) && DistinctKeys(e) && n in EntryMap(e)
    ensures n in row.appNamespaces && row.appNamespaces[n].namespace == EntryMap(e)[n]
  {
    var i :| 0 <= i < |e| && e[i].0 == n;
    ScannedNamespacesAreStored(row, e, i);
    EntryMapAt(e, i);
  }

  lemma KeptAppNamespacesReflect(row: PackageRow, req: PackageRequest)
    requires AppNamespacesChanged(row, req) == Ok(false) && DistinctKeys(req.defaultNamespaces)
    ensures ReadAppNamespaces(row.appNamespaces) == EntryMap(req.defaultNamespaces)
  {
    hide EntryMap, ScanNamespaces;
    var e := req.defaultNamespaces;
    var wanted, stored := EntryMap(e), ReadAppNamespaces(row.appNamespaces);
    forall n | n in wanted
      ensures n in stored && stored[n] == wanted[n]
    {
      ScannedEntriesAreStored(row, e, n);
    }
    EntryMapSize(e);
    assert wanted.Keys <= stored.Keys && stored.Keys == row.appNamespaces.Keys;
    assert |wanted.Keys| == |wanted| && |row.appNamespaces.Keys| == |row.appNamespaces|;
    SameSize(wanted.Keys, stored.Keys);
  }

  lemma SameSize<T>(a: set<T>, b: set<T>)
    requires a <= b && |a| == |b|
    ensures a == b
  {
    assert |b - a| == |b| - |a|;
  }

  lemma KeptNamespacesReflect(row: PackageRow, req: PackageRequest)
    requires NamespacesUnchanged(row, req)
    ensures NoDup(MapSeq(MakeNamespace, req.namespaces)) ==> NamespacesReflect(row.namespaces, req)
    ensures NoDup(row.namespaces) ==>
              (NamespacesReflect(row.namespaces, req) <==> NoDup(MapSeq(MakeNamespace, req.namespaces)))
  {
    assert MapSeq(Same, row.namespaces) == row.namespaces;
    UnchangedMeansEqual(row.namespaces, NamespaceRowName, req.namespaces, NamespaceName, SameNamespace,
                        Same, MakeNamespace);
  }

  lemma KeptExtensionsReflect(row: PackageRow, req: PackageRequest)
    requires ExtensionsUnchanged(row, req)
    ensures NoDup(MapSeq(WantedExtension, req.extensions)) ==> ExtensionsReflect(row.extensions, req)
    ensures NoDup(MapSeq(ReadExtension, row.extensions)) ==>
              (ExtensionsReflect(row.extensions, req) <==> NoDup(MapSeq(WantedExtension, req.extensions)))
  {
    UnchangedMeansEqual(row.extensions, ExtensionRowName, req.extensions, ExtensionName, SameExtension,
                        ReadExtension, WantedExtension);
  }

  /** A rewritten extension is read back as requested exactly when its user interface has a label. */
  lemma MadeExtensionReflects(e: ExtensionRequest)
    ensures ReadExtension(MakeExtension(e)) == WantedExtension(e) <==> Titled(e)
  {
  }

  /** Rewritten extensions show the request exactly when all their user interfaces have labels. */
  lemma MadeExtensionsReflect(req: PackageRequest)
    ensures ExtensionsReflect(MapSeq(MakeExtension, req.extensions), req) <==> AllTitled(req)
  {
    var read, wanted := MapSeq(ReadExtension, MapSeq(MakeExtension, req.extensions)),
        MapSeq(WantedExtension, req.extensions);
    if AllTitled(req) {
      forall i | 0 <= i < |req.extensions|
        ensures read[i] == wanted[i]
      {
        assert Titled(req.extensions[i]);
        MadeExtensionReflects(req.extensions[i]);
      }
      assert read == wanted;
    }
    if multiset(read) == multiset(wanted) {
      MultisetMembers(read, wanted);
      forall i | 0 <= i < |req.extensions|
        ensures Titled(req.extensions[i])
      {
        assert wanted[i] in read;
        var j :| 0 <= j < |read| && read[j] == wanted[i];
      }
    }
  }

  lemma KeptArtifactsReflect(row: PackageRow, req: PackageRequest)
    requires ArtifactsUnchanged(row, req)
    ensures NoDup(req.artifacts) ==> ArtifactsReflect(row.artifacts, req)
    ensures NoDup(MapSeq(ReadArtifact, row.artifacts)) ==>
            (ArtifactsReflect(row.artifacts, req) <==> NoDup(req.artifacts))
  {
    assert MapSeq(Same, req.artifacts) == req.artifacts;
    UnchangedMeansEqual(row.artifacts, ArtifactRowName, req.artifacts, ArtifactName, SameArtifact, ReadArtifact, Same);
  }

  lemma MadeArtifactsReflect(db: Db, project: string, arts: seq<ArtifactReference>)
    requires MakeArtifacts(db, project, arts).Ok?
    ensures MapSeq(ReadArtifact, MakeArtifacts(db, project, arts).value) == arts
  {
  }

  lemma MadeAppNamespacesReflect(apps: seq<VersionedKey>, e: Entries)
    requires MakeAppNamespaces(apps, e).Ok?
    ensures ReadAppNamespaces(MakeAppNamespaces(apps, e).value) == EntryMap(e)
  {
  }

  // ---------- The default profile ----------

  /** The profile table after injecting: exactly the stored and the requested names, none twice. */
  lemma {:induction false} InjectedNames(
    db: Db, apps: seq<VersionedKey>, base: ProfileTable, ps: seq<DeploymentProfileRequest>, t: ProfileTable)
    requires InjectProfiles(db, apps, base, ps) == Ok(t)
    ensures forall n :: n in t <==> n in base || Named(ps, ProfileName, n)
    ensures forall n :: n in base ==> t[n] == base[n]
  {
    if ps != [] {
      var last := |ps| - 1;
      InjectedNames(db, apps, base, ps[..last], InjectProfiles(db, apps, base, ps[..last]).value);
      NamedStep(ps[..last], ps[last], ProfileName);
      assert ps == ps[..last] + [ps[last]];
    }
  }

  /** A request without profiles leaves none, and no default. */
  lemma NoProfilesNoDefault(
    db: Db, apps: seq<VersionedKey>, row: PackageRow, req: PackageRequest, ch: Changes,
    r: (ProfileTable, Option<string>))
    requires DefaultFits(row.profiles.Keys, row.defaultProfile) && req.profiles == [] && req.defaultProfile == ""
    requires ch.profiles <==> ProfilesChanged(row, req)
    requires !ch.profiles ==> ch.newProfiles == NewItems(row.profiles, req.profiles, ProfileName)
    requires ApplyProfiles(db, apps, row, req, ch) == Ok(r)
    ensures r.1 == None
  {
    ArrangeKeeps(NewItems(row.profiles, [], ProfileName), req.mapOrder, ProfileName);
    if ch.profiles || ch.applications {
      forall n | n in row.profiles
        ensures Requested([], n).None?
      {
      }
      assert KeptProfiles(db, apps, row.profiles, []) == map[];
      InjectedNames(db, apps, map[], ProfilesToCreate(row.profiles, [], req.mapOrder), r.0);
    } else {
      assert forall n :: n in row.profiles ==> Named(req.profiles, ProfileName, n);
      assert row.profiles == map[];
    }
  }

  /** A stored default that the request keeps is still there after the profile part of an update. */
  lemma KeptDefaultStays(
    db: Db, apps: seq<VersionedKey>, row: PackageRow, req: PackageRequest, ch: Changes,
    r: (ProfileTable, Option<string>))
    requires row.defaultProfile == Some(req.defaultProfile) && req.defaultProfile in row.profiles
    requires !ch.profiles && !ProfilesChanged(row, req) && ApplyProfiles(db, apps, row, req, ch) == Ok(r)
    ensures req.defaultProfile in r.0
  {
    var n := req.defaultProfile;
    if ch.applications {
      var kept := KeptProfiles(db, apps, row.profiles, req.profiles);
      assert Named(req.profiles, ProfileName, n);
      assert n in kept;
      InjectedNames(db, apps, kept, ProfilesToCreate(row.profiles, req.profiles, req.mapOrder), r.0);
    } else {
      InjectedNames(db, apps, row.profiles, ch.newProfiles, r.0);
    }
  }

  lemma AppliedDefaultReflects(
    db: Db, apps: seq<VersionedKey>, row: PackageRow, req: PackageRequest, ch: Changes,
    r: (ProfileTable, Option<string>))
    requires DefaultFits(row.profiles.Keys, row.defaultProfile) && !NeedsDefault(req)
    requires PackageChanges(row, req) == Ok(ch) && ApplyProfiles(db, apps, row, req, ch) == Ok(r)
    ensures r.1 == if req.defaultProfile == "" then None else Some(req.defaultProfile)
  {
    hide UpdateProfiles, InjectProfiles, ProfilesChanged;
    if req.defaultProfile == "" {
      NoProfilesNoDefault(db, apps, row, req, ch, r);
    } else if !(ch.profile || ch.profiles) {
      KeptDefaultStays(db, apps, row, req, ch, r);
    }
  }

  /** The shortcut does not touch the default, which is the requested one already. */
  lemma UnchangedDefaultReflects(row: PackageRow, req: PackageRequest)
    requires DefaultFits(row.profiles.Keys, row.defaultProfile) && !NeedsDefault(req)
    requires !DefaultChanged(row.defaultProfile, req.defaultProfile) && !ProfilesChanged(row, req)
    ensures DefaultReflects(row, req)
  {
    if req.defaultProfile == "" {
      assert forall n :: n in row.profiles ==> Named(req.profiles, ProfileName, n);
    }
  }

  // ---------- The whole update ----------

  /** What an accepted update leaves in each part: what was stored, or what is made from the request. */
  ghost predicate Rewritten(
    db: Db, project: string, row: PackageRow, req: PackageRequest, ch: Changes, row': PackageRow)
  {
    && RootReflects(row', req) && DefaultReflects(row', req)
    && (if ch.applications then MakeApplications(db, project, req.applications) == Ok(row'.applications)
        else row'.applications == row.applications)
    && (if ch.dependencies || ch.applications
        then MakeDependencies(row'.applications, req.dependencies) == Ok(row'.dependencies)
        else row'.dependencies == row.dependencies)
    && (if ch.defaultNamespaces || ch.applications
        then MakeAppNamespaces(row'.applications, req.defaultNamespaces) == Ok(row'.appNamespaces)
        else row'.appNamespaces == row.appNamespaces)
    && row'.namespaces == (if ch.namespaces then MapSeq(MakeNamespace, req.namespaces) else row.namespaces)
    && row'.extensions == (if ch.extensions then MapSeq(MakeExtension, req.extensions) else row.extensions)
    && (if ch.artifacts then MakeArtifacts(db, project, req.artifacts) == Ok(row'.artifacts)
        else row'.artifacts == row.artifacts)
  }

  /** The steps of a successful update, by what they leave in the row. */
  lemma AppliedParts(db: Db, project: string, row: PackageRow, req: PackageRequest, ch: Changes, row': PackageRow)
    requires ApplyChanges(db, project, row, req, ch) == Ok(row')
    ensures ApplyMembers(db, project, row, req, ch) ==
            Ok(Members(row'.applications, row'.dependencies, row'.appNamespaces))
    ensures ApplyProfiles(db, row'.applications, row, req, ch) == Ok((row'.profiles, row'.defaultProfile))
    ensures ApplyExtensions(row, req, ch) == Ok(row'.extensions)
    ensures ApplyArtifacts(db, project, row, req, ch) == Ok(row'.artifacts)
    ensures row' == AppliedRow(row, req, ch, Members(row'.applications, row'.dependencies, row'.appNamespaces),
                               (row'.profiles, row'.defaultProfile), row'.extensions, row'.artifacts)
  {
  }

  lemma AppliedMembers(db: Db, project: string, row: PackageRow, req: PackageRequest, ch: Changes, m: Members)
    requires ApplyMembers(db, project, row, req, ch) == Ok(m)
    ensures if ch.applications then MakeApplications(db, project, req.applications) == Ok(m.applications)
            else m.applications == row.applications
    ensures if ch.dependencies || ch.applications
            then MakeDependencies(m.applications, req.dependencies) == Ok(m.dependencies)
            else m.dependencies == row.dependencies
    ensures if ch.defaultNamespaces || ch.applications
            then MakeAppNamespaces(m.applications, req.defaultNamespaces) == Ok(m.appNamespaces)
            else m.appNamespaces == row.appNamespaces
  {
  }

  lemma NothingChanged(row: PackageRow, req: PackageRequest, ch: Changes)
    requires PackageChanges(row, req) == Ok(ch) && !ch.Changed()
    ensures !RootChanged(row, req) && !ProfilesChanged(row, req) &&
            !DefaultChanged(row.defaultProfile, req.defaultProfile)
  {
  }

  lemma ShortcutRewrites(db: Db, project: string, row: PackageRow, req: PackageRequest, ch: Changes)
    requires Settled(project, row) && !NeedsDefault(req)
    requires PackageChanges(row, req) == Ok(ch) && !ch.Changed()
    ensures Rewritten(db, project, row, req, ch, row.(isDeployed := req.isDeployed, kind := KindToDb(req.kind)))
  {
    hide PackageChanges, MakeApplications, MakeDependencies, MakeAppNamespaces, MakeArtifacts, ProfilesChanged;
    NothingChanged(row, req, ch);
    UnchangedDefaultReflects(row, req);
  }

  lemma ChangesRewrite(db: Db, project: string, row: PackageRow, req: PackageRequest, ch: Changes, row': PackageRow)
    requires Settled(project, row) && !NeedsDefault(req)
    requires PackageChanges(row, req) == Ok(ch) && ApplyChanges(db, project, row, req, ch) == Ok(row')
    ensures Rewritten(db, project, row, req, ch, row')
  {
    hide PackageChanges, ApplyChanges, ApplyMembers, ApplyProfiles;
    hide MakeApplications, MakeDependencies, MakeAppNamespaces, MakeArtifacts;
    AppliedParts(db, project, row, req, ch, row');
    AppliedMembers(db, project, row, req, ch, Members(row'.applications, row'.dependencies, row'.appNamespaces));
    AppliedDefaultReflects(db, row'.applications, row, req, ch, (row'.profiles, row'.defaultProfile));
  }

  lemma UpdateRewrites(db: Db, project: string, row: PackageRow, req: PackageRequest, row': PackageRow)
    requires Settled(project, row) && !NeedsDefault(req) && UpdateRow(db, project, row, req) == Ok(row')
    ensures PackageChanges(row, req).Ok? && Rewritten(db, project, row, req, PackageChanges(row, req).value, row')
  {
    hide PackageChanges, ApplyChanges, Rewritten;
    var ch := PackageChanges(row, req).value;
    if ch.kindOrState && !ch.Changed() {
      ShortcutRewrites(db, project, row, req, ch);
    } else {
      ChangesRewrite(db, project, row, req, ch, row');
    }
  }

  lemma MembersReflectIff(db: Db, project: string, row: PackageRow, req: PackageRequest, ch: Changes, row': PackageRow)
    requires Settled(project, row) && PackageChanges(row, req) == Ok(ch) && Rewritten(db, project, row, req, ch, row')
    ensures ch.applications || NoDup(req.applications) ==> ApplicationsReflect(project, row'.applications, req)
    ensures ch.dependencies || ch.applications || NoDup(req.dependencies) ==>
            DependenciesReflect(row'.dependencies, req)
    ensures StoredOnce(row) && ApplicationsReflect(project, row'.applications, req) ==>
              ch.applications || NoDup(req.applications)
    ensures StoredOnce(row) && DependenciesReflect(row'.dependencies, req) ==>
              ch.dependencies || ch.applications || NoDup(req.dependencies)
  {
    hide MakeDependencies, MakeAppNamespaces, MakeArtifacts, ProfilesChanged;
    if ch.applications {
      assert Elements(row'.applications) == Elements(ReferenceKeys(project, req.applications));
    } else {
      KeptApplicationsReflect(project, row, req);
    }
    if ch.dependencies || ch.applications {
      MadeDependenciesReflect(row'.applications, req.dependencies);
    } else {
      KeptDependenciesReflect(row, req);
    }
  }

  lemma ListsReflectIff(db: Db, project: string, row: PackageRow, req: PackageRequest, ch: Changes, row': PackageRow)
    requires PackageChanges(row, req) == Ok(ch) && Rewritten(db, project, row, req, ch, row')
    ensures ch.namespaces || NoDup(MapSeq(MakeNamespace, req.namespaces)) ==> NamespacesReflect(row'.namespaces, req)
    ensures (if ch.extensions then AllTitled(req) else NoDup(MapSeq(WantedExtension, req.extensions))) ==>
              ExtensionsReflect(row'.extensions, req)
    ensures ch.artifacts || NoDup(req.artifacts) ==> ArtifactsReflect(row'.artifacts, req)
    ensures StoredOnce(row) && NamespacesReflect(row'.namespaces, req) ==>
              ch.namespaces || NoDup(MapSeq(MakeNamespace, req.namespaces))
    ensures StoredOnce(row) && ExtensionsReflect(row'.extensions, req) ==>
              if ch.extensions then AllTitled(req) else NoDup(MapSeq(WantedExtension, req.extensions))
    ensures StoredOnce(row) && ArtifactsReflect(row'.artifacts, req) ==> ch.artifacts || NoDup(req.artifacts)
  {
    hide MakeDependencies, MakeAppNamespaces, MakeArtifacts, ProfilesChanged;
    if !ch.namespaces { KeptNamespacesReflect(row, req); }
    if ch.extensions { MadeExtensionsReflect(req); } else { KeptExtensionsReflect(row, req); }
    if ch.artifacts { MadeArtifactsReflect(db, project, req.artifacts); } else { KeptArtifactsReflect(row, req); }
  }

  lemma AppNamespacesReflect(
    db: Db, project: string, row: PackageRow, req: PackageRequest, ch: Changes, row': PackageRow)
    requires PackageChanges(row, req) == Ok(ch) && Rewritten(db, project, row, req, ch, row')
    requires DistinctKeys(req.defaultNamespaces)
    ensures ReadAppNamespaces(row'.appNamespaces) == EntryMap(req.defaultNamespaces)
  {
    hide MakeDependencies, MakeAppNamespaces, MakeArtifacts, ProfilesChanged, EntryMap;
    if ch.defaultNamespaces || ch.applications {
      MadeAppNamespacesReflect(row'.applications, req.defaultNamespaces);
    } else {
      KeptAppNamespacesReflect(row, req);
    }
  }

  /**
   * Diffed update refines overwrite, also through the shortcut for a change of kind or state alone:
   * the stored package shows the request in every part if each list that is not rewritten repeats
   * nothing and rewritten user interfaces are labelled; against stored lists without repetition,
   * if and only if.
   */
  lemma UpdateReflectsRequest(db: Db, project: string, row: PackageRow, req: PackageRequest, row': PackageRow)
    requires Settled(project, row) && !NeedsDefault(req) && DistinctKeys(req.defaultNamespaces)
    requires UpdateRow(db, project, row, req) == Ok(row')
    ensures PackageChanges(row, req).Ok?
    ensures Faithful(req, PackageChanges(row, req).value) ==> Reflects(project, row', req)
    ensures StoredOnce(row) ==> (Reflects(project, row', req) <==> Faithful(req, PackageChanges(row, req).value))
  {
    hide PackageChanges, UpdateRow, Rewritten, StoredOnce, ApplicationsReflect, DependenciesReflect, NamespacesReflect,
         ExtensionsReflect, ArtifactsReflect;
    UpdateRewrites(db, project, row, req, row');
    RewrittenRoot(db, project, row, req, row');
    var ch := PackageChanges(row, req).value;
    MembersReflectIff(db, project, row, req, ch, row');
    ListsReflectIff(db, project, row, req, ch, row');
    AppNamespacesReflect(db, project, row, req, ch, row');
  }

  lemma RewrittenRoot(db: Db, project: string, row: PackageRow, req: PackageRequest, row': PackageRow)
    requires PackageChanges(row, req).Ok? && Rewritten(db, project, row, req, PackageChanges(row, req).value, row')
    ensures RootReflects(row', req) && DefaultReflects(row', req)
  {
  }

  /** A request that repeats nothing and labels its user interfaces is faithful whichever parts changed. */
  lemma NothingTwiceIsFaithful(req: PackageRequest, ch: Changes)
    requires NothingTwice(req) && AllTitled(req)
    ensures Faithful(req, ch)
  {
  }

  // ---------- Creation ----------

  /** The steps of a successful creation, by what they leave in the row. */
  lemma CreateParts(db: Db, project: string, req: PackageRequest, db': Db)
    requires CreatePackage(db, project, req) == Ok(db')
    ensures var key := PackageKey(project, req);
            && key !in db.packages && key in db'.packages
            && db' == db.(packages := db.packages[key := db'.packages[key]])
            && var row := db'.packages[key];
               && MakeApplications(db, project, req.applications) == Ok(row.applications)
               && MakeDependencies(row.applications, req.dependencies) == Ok(row.dependencies)
               && MakeAppNamespaces(row.applications, req.defaultNamespaces) == Ok(row.appNamespaces)
               && InjectProfiles(db, row.applications, map[], req.profiles) == Ok(row.profiles)
               && MakeArtifacts(db, project, req.artifacts) == Ok(row.artifacts)
               && row.namespaces == MapSeq(MakeNamespace, req.namespaces)
               && MakeExtensions(req.extensions) == Ok(row.extensions)
               && RootReflects(row, req)
               && row.defaultProfile == if req.defaultProfile == "" then None else Some(req.defaultProfile)
  {
  }

  // ---------- When the comparison goes wrong ----------

  /** A repeated item defeats the comparison: two namespaces are stored, one is requested twice. */
  lemma RepeatedItemIsNotNoticed(row: PackageRow, req: PackageRequest, a: NamespaceRow, b: NamespaceRow)
    requires a.name != b.name
    requires row.namespaces == [a, b]
    requires req.namespaces == [NamespaceRequest(a.name, Some(a.labels), Some(a.annotations)),
                                NamespaceRequest(a.name, Some(a.labels), Some(a.annotations))]
    ensures NamespacesUnchanged(row, req)
    ensures multiset(row.namespaces) != multiset(MapSeq(MakeNamespace, req.namespaces))
  {
    assert row.namespaces[..1] == [a];
    assert LastWith(row.namespaces, NamespaceRowName, a.name) == Some(a);
    assert b in row.namespaces && b !in MapSeq(MakeNamespace, req.namespaces);
    if multiset(row.namespaces) == multiset(MapSeq(MakeNamespace, req.namespaces)) {
      MultisetMembers(row.namespaces, MapSeq(MakeNamespace, req.namespaces));
    }
  }

  /**
   * A default namespace cannot be changed in place: with as many namespaces as stored, the
   * comparison accepts the request if and only if it equals what is stored, and otherwise rejects it.
   */
  lemma NamespaceChangeInPlaceIsRejected(row: PackageRow, req: PackageRequest)
    requires DistinctKeys(req.defaultNamespaces) && |row.appNamespaces| == |req.defaultNamespaces|
    requires forall n :: n in row.appNamespaces ==> LastNamed(row.applications, n).Some?
    ensures AppNamespacesChanged(row, req) ==
            if ReadAppNamespaces(row.appNamespaces) == EntryMap(req.defaultNamespaces) then Ok(false)
            else Err(InvalidArgument)
  {
    var e := req.defaultNamespaces;
    ScanNamespacesOutcome(row, e);
    if ScanNamespaces(row, e) == Ok(false) {
      KeptAppNamespacesReflect(row, req);
    } else {
      var i :| 0 <= i < |e| && !(e[i].0 in row.appNamespaces && row.appNamespaces[e[i].0].namespace == e[i].1);
      EntryMapAt(e, i);
      assert e[i].0 in EntryMap(e);
    }
  }

  lemma {:induction false} ScanNamespacesOutcome(row: PackageRow, e: Entries)
    requires forall n :: n in row.appNamespaces ==> LastNamed(row.applications, n).Some?
    ensures ScanNamespaces(row, e) == Ok(false) || ScanNamespaces(row, e) == Err(InvalidArgument)
    ensures ScanNamespaces(row, e).Err? ==>
              exists i :: 0 <= i < |e| &&
                  !(e[i].0 in row.appNamespaces && row.appNamespaces[e[i].0].namespace == e[i].1)
  {
    if e != [] {
      ScanNamespacesOutcome(row, e[1..]);
      var ok := (i: int) requires 0 <= i < |e| => e[i].0 in row.appNamespaces &&
          row.appNamespaces[e[i].0].namespace == e[i].1;
      if ScanNamespaces(row, e).Err? && ok(0) {
        var i :| 0 <= i < |e[1..]| &&
            !(e[1..][i].0 in row.appNamespaces && row.appNamespaces[e[1..][i].0].namespace == e[1..][i].1);
        assert e[1..][i] == e[i + 1];
      }
    }
  }
}
