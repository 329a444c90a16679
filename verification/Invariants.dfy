/** What holds in every reachable state of the catalog. */
module Invariants {
  import opened Prelude
  import opened Text
  import opened Tables
  import opened Diff
  import opened References
  import P = Packages
  import A = Applications
  import R = Registries
  import O = Overwrite

  // ---------- The invariant ----------

  predicate DisplayFits(displayName: string) { displayName != "" && IsTrimmed(displayName) }

  ghost predicate RegistryFits(key: NamedKey, row: RegistryRow) {
    key.project != "" && ValidName(key.name) && (row.kind == A.HELM || row.kind == A.IMAGE)
  }

  ghost predicate HasRegistry(db: Db, key: NamedKey, project: string, kind: string) {
    key.project == project && key in db.registries && db.registries[key].kind == kind
  }

  predicate KindFits(kind: string) { kind == "normal" || kind == "addon" || kind == "extension" }

  /** Profiles have valid names, and their templates can be told apart by name. */
  ghost predicate ProfileTableFits(profiles: A.Profiles) {
    forall n :: n in profiles ==> ValidName(n) && A.TemplatesFit(profiles[n].templates)
  }

  ghost predicate ApplicationFits(db: Db, key: VersionedKey, row: ApplicationRow) {
    && key.project != "" && ValidApplicationName(key.name) && ValidVersion(key.version)
    && DisplayFits(row.displayName) && KindFits(row.kind) && ProfileTableFits(row.profiles)
    && HasRegistry(db, row.helmRegistry, key.project, A.HELM)
    && (row.imageRegistry.Some? ==> HasRegistry(db, row.imageRegistry.value, key.project, A.IMAGE))
    && DefaultFits(row.profiles.Keys, row.defaultProfile)
    && NoDup(row.ignored) && (forall i :: 0 <= i < |row.ignored| ==> A.ValidResource(row.ignored[i]))
  }

  ghost predicate MembersFit(db: Db, project: string, apps: seq<VersionedKey>) {
    NoDup(apps) && forall i :: 0 <= i < |apps| ==> apps[i].project == project && apps[i] in db.applications
  }

  ghost predicate DependenciesFit(apps: seq<VersionedKey>, deps: seq<DependencyRow>) {
    forall i :: 0 <= i < |deps| ==>
      deps[i].source in apps && deps[i].target in apps && deps[i].source.name != deps[i].target.name
  }

  ghost predicate AppNamespacesFit(apps: seq<VersionedKey>, m: map<string, AppNamespaceRow>) {
    forall n :: n in m ==> m[n].app in apps && m[n].app.name == n
  }

  ghost predicate LinkFits(db: Db, project: string, l: ProfileLink) {
    l.app.project == project && l.app in db.applications && l.profile in db.applications[l.app].profiles
  }

  ghost predicate LinksFit(db: Db, project: string, links: seq<ProfileLink>) {
    NoDup(links) && forall i :: 0 <= i < |links| ==> LinkFits(db, project, links[i])
  }

  ghost predicate ProfilesFit(db: Db, project: string, profiles: P.ProfileTable) {
    forall n :: n in profiles ==> LinksFit(db, project, profiles[n].links)
  }

  ghost predicate ArtifactsFit(db: Db, project: string, arts: seq<ArtifactReferenceRow>) {
    |arts| <= 100 &&
    forall i :: 0 <= i < |arts| ==>
      arts[i].artifact.project == project && arts[i].artifact in db.artifacts && ValidName(arts[i].artifact.name)
  }

  ghost predicate ListsFit(row: PackageRow) {
    && |row.extensions| <= 100 && P.ExtensionsFit(row.extensions)
    && (forall i :: 0 <= i < |row.namespaces| ==> ValidName(row.namespaces[i].name))
    && (forall i :: 0 <= i < |row.extensions| ==>
          ValidName(row.extensions[i].name) && ValidVersion(row.extensions[i].version))
  }

  /** Deployment profiles have valid names and show trimmed display names. */
  ghost predicate TextsFit(profiles: P.ProfileTable) {
    forall n :: n in profiles ==> ValidName(n) && DisplayFits(profiles[n].displayName)
  }

  ghost predicate PackageFits(db: Db, key: VersionedKey, row: PackageRow) {
    && key.project != "" && ValidName(key.name) && ValidVersion(key.version)
    && DisplayFits(row.displayName) && KindFits(row.kind) && TextsFit(row.profiles)
    && MembersFit(db, key.project, row.applications)
    && DependenciesFit(row.applications, row.dependencies)
    && AppNamespacesFit(row.applications, row.appNamespaces)
    && ProfilesFit(db, key.project, row.profiles)
    && DefaultFits(row.profiles.Keys, row.defaultProfile)
    && ArtifactsFit(db, key.project, row.artifacts)
    && ListsFit(row)
  }

  /** Within a project, no two artifacts show the same display name, ignoring case. */
  ghost predicate ArtifactNamesDistinct(db: Db) {
    forall k, l :: k in db.artifacts && l in db.artifacts && k != l && k.project == l.project ==>
      ToLower(db.artifacts[k].displayName) != ToLower(db.artifacts[l].displayName)
  }

  ghost predicate Inv(db: Db) {
    && (forall k :: k in db.registries ==> RegistryFits(k, db.registries[k]))
    && (forall k :: k in db.artifacts ==> k.project != "" && ValidName(k.name))
    && ArtifactNamesDistinct(db)
    && (forall k :: k in db.applications ==> ApplicationFits(db, k, db.applications[k]))
    && (forall k :: k in db.packages ==> PackageFits(db, k, db.packages[k]))
  }

  // ---------- Frames ----------

  /** No application profile and no artifact of `db` is missing in `db'`. */
  ghost predicate Grows(db: Db, db': Db) {
    && (forall a :: a in db.applications ==>
          a in db'.applications && db.applications[a].profiles.Keys <= db'.applications[a].profiles.Keys)
    && db.artifacts.Keys <= db'.artifacts.Keys
  }

  lemma PackageFrame(db: Db, db': Db, key: VersionedKey, row: PackageRow)
    requires PackageFits(db, key, row) && Grows(db, db')
    ensures PackageFits(db', key, row)
  {
    forall n | n in row.profiles
      ensures LinksFit(db', key.project, row.profiles[n].links)
    {
      var links := row.profiles[n].links;
      assert LinksFit(db, key.project, row.profiles[n].links);
      forall i | 0 <= i < |links|
        ensures LinkFits(db', key.project, links[i])
      {
        assert LinkFits(db, key.project, links[i]);
      }
    }
  }

  lemma PackagesFrame(db: Db, db': Db)
    requires Inv(db) && Grows(db, db') && db'.packages == db.packages
    ensures forall k :: k in db'.packages ==> PackageFits(db', k, db'.packages[k])
  {
    forall k | k in db'.packages
      ensures PackageFits(db', k, db'.packages[k])
    {
      PackageFrame(db, db', k, db.packages[k]);
    }
  }

  // ---------- Registry and artifact steps ----------

  lemma CreateRegistryKeepsInv(db: Db, project: string, req: RegistryRequest, db': Db)
    requires Inv(db) && project != "" && R.ValidRegistry(req)
    requires R.CreateRegistry(db, project, req) == Ok(db')
    ensures Inv(db')
  {
    PackagesFrame(db, db');
    forall k | k in db'.applications
      ensures ApplicationFits(db', k, db'.applications[k])
    {
      assert ApplicationFits(db, k, db.applications[k]);
    }
  }

  /** A registry keeps the type its users rely on. */
  lemma UpdateRegistryKeepsInv(db: Db, project: string, req: RegistryRequest, db': Db)
    requires Inv(db) && project != "" && R.ValidRegistry(req)
    requires R.UpdateRegistry(db, project, req) == Ok(db')
    ensures Inv(db')
  {
    PackagesFrame(db, db');
    var key := NamedKey(project, req.name);
    forall k | k in db'.applications
      ensures ApplicationFits(db', k, db'.applications[k])
    {
      assert ApplicationFits(db, k, db.applications[k]);
      assert db.applications[k].helmRegistry == key ==> R.UsedAsHelm(db, key);
      assert db.applications[k].imageRegistry == Some(key) ==> R.UsedAsImage(db, key);
    }
  }

  /** No application loses a registry: a registry that may be deleted is used by none. */
  lemma DeleteRegistryKeepsInv(db: Db, key: NamedKey, db': Db)
    requires Inv(db) && R.DeleteRegistry(db, key) == Ok(db')
    ensures Inv(db') && db'.applications == db.applications
  {
    hide PackageFits, R.DeleteRegistry, R.InUse, RegistryFits;
    UnusedRegistryGoes(db, key, db');
    PackagesFrame(db, db');
    forall k | k in db'.applications
      ensures ApplicationFits(db', k, db'.applications[k])
    {
      assert ApplicationFits(db, k, db.applications[k]);
    }
  }

  lemma UnusedRegistryGoes(db: Db, key: NamedKey, db': Db)
    requires Inv(db) && R.DeleteRegistry(db, key) == Ok(db')
    ensures db' == db.(registries := db.registries - {key})
    ensures forall k :: k in db.applications ==>
              db.applications[k].helmRegistry != key && db.applications[k].imageRegistry != Some(key)
  {
    hide PackageFits;
    forall k | k in db.applications
      ensures db.applications[k].helmRegistry != key && db.applications[k].imageRegistry != Some(key)
    {
      assert ApplicationFits(db, k, db.applications[k]);
      assert !R.InUse(db, key);
    }
    assert db'.applications == db.applications;
  }

  /** Saving an artifact under a display name that no other artifact of the project shows. */
  lemma SaveArtifactKeepsInv(db: Db, project: string, req: ArtifactRequest, db': Db)
    requires Inv(db) && project != "" && R.ValidArtifact(req)
    requires !R.ArtifactDisplayTaken(db, project, req.name, DisplayName(req.name, req.displayName))
    requires db' == db.(artifacts := db.artifacts[NamedKey(project, req.name) := R.MakeArtifactRow(req)])
    ensures Inv(db')
  {
    hide PackageFits;
    PackagesFrame(db, db');
    var key := NamedKey(project, req.name);
    forall k | k in db'.artifacts && k != key && k.project == project
      ensures ToLower(db'.artifacts[k].displayName) != ToLower(db'.artifacts[key].displayName)
    {
      assert k in db.artifacts && k.name != req.name;
    }
    forall k | k in db'.applications
      ensures ApplicationFits(db', k, db'.applications[k])
    {
      assert ApplicationFits(db, k, db.applications[k]);
    }
  }

  lemma WithoutArtifact(db: Db, key: NamedKey, k: VersionedKey, row: PackageRow)
    requires PackageFits(db, k, row) && !R.ReferencesArtifact(row, key)
    ensures PackageFits(db.(artifacts := db.artifacts - {key}), k, row)
  {
    hide ValidName, ValidVersion, TextsFit, ListsFit;
    var db' := db.(artifacts := db.artifacts - {key});
    assert ArtifactsFit(db', k.project, row.artifacts);
    forall n | n in row.profiles
      ensures LinksFit(db', k.project, row.profiles[n].links)
    {
      SameLinksFit(db, db', k.project, row.profiles[n].links);
    }
  }

  lemma SameLinksFit(db: Db, db': Db, project: string, links: seq<ProfileLink>)
    requires LinksFit(db, project, links) && db'.applications == db.applications
    ensures LinksFit(db', project, links)
  {
    forall i | 0 <= i < |links|
      ensures LinkFits(db', project, links[i])
    {
      assert LinkFits(db, project, links[i]);
    }
  }

  lemma DeleteArtifactKeepsInv(db: Db, key: NamedKey, db': Db)
    requires Inv(db) && R.DeleteArtifact(db, key) == Ok(db')
    ensures Inv(db')
  {
    hide PackageFits, R.ReferencesArtifact;
    forall k | k in db'.packages
      ensures PackageFits(db', k, db'.packages[k])
    {
      WithoutArtifact(db, key, k, db.packages[k]);
    }
    forall k | k in db'.applications
      ensures ApplicationFits(db', k, db'.applications[k])
    {
      assert ApplicationFits(db, k, db.applications[k]);
    }
  }

  // ---------- Package steps ----------

  lemma MadeApplicationsFit(db: Db, project: string, refs: seq<Reference>)
    requires P.MakeApplications(db, project, refs).Ok?
    ensures MembersFit(db, project, P.MakeApplications(db, project, refs).value)
  {
    var keys := P.ReferenceKeys(project, refs);
    var apps := Dedup(keys);
    forall i | 0 <= i < |apps|
      ensures apps[i].project == project && apps[i] in db.applications
    {
      assert apps[i] in keys;
    }
  }

  lemma MadeDependenciesFit(apps: seq<VersionedKey>, deps: seq<Dependency>)
    requires P.MakeDependencies(apps, deps).Ok?
    ensures DependenciesFit(apps, P.MakeDependencies(apps, deps).value)
  {
  }

  lemma MadeAppNamespacesFit(apps: seq<VersionedKey>, e: Entries)
    requires P.MakeAppNamespaces(apps, e).Ok?
    ensures AppNamespacesFit(apps, P.MakeAppNamespaces(apps, e).value)
  {
  }

  lemma MadeArtifactsFit(db: Db, project: string, arts: seq<ArtifactReference>)
    requires P.MakeArtifacts(db, project, arts).Ok? && |arts| <= 100
    requires forall i :: 0 <= i < |arts| ==> ValidName(arts[i].name)
    ensures ArtifactsFit(db, project, P.MakeArtifacts(db, project, arts).value)
  {
  }

  lemma ResolvedLinksFit(db: Db, project: string, apps: seq<VersionedKey>, links: seq<ProfileLink>, e: Entries)
    requires MembersFit(db, project, apps) && AllResolve(db.applications, apps, e)
    requires forall i :: 0 <= i < |links| ==> LinkFits(db, project, links[i])
    ensures LinksFit(db, project, Dedup(links + ResolvedLinks(db.applications, apps, e)))
  {
    var found := ResolvedLinks(db.applications, apps, e);
    ResolvedLinksExist(db.applications, apps, e);
    var all := links + found;
    var distinct := Dedup(all);
    forall i | 0 <= i < |distinct|
      ensures LinkFits(db, project, distinct[i])
    {
      assert distinct[i] in all;
      var j :| 0 <= j < |all| && all[j] == distinct[i];
      if j >= |links| {
        assert found[j - |links|].app in apps;
      }
    }
  }

  lemma MadeProfileFits(db: Db, project: string, apps: seq<VersionedKey>, p: DeploymentProfileRequest)
    requires MembersFit(db, project, apps) && P.Resolves(db, apps, p)
    ensures LinksFit(db, project, P.MakeProfile(db, apps, p).links)
  {
    ResolvedLinksFit(db, project, apps, [], P.EntriesOf(p));
    assert [] + ResolvedLinks(db.applications, apps, P.EntriesOf(p)) ==
           ResolvedLinks(db.applications, apps, P.EntriesOf(p));
  }

  /** Each injected profile is made from its request. */
  lemma {:induction false} InjectedRow(
    db: Db, apps: seq<VersionedKey>, base: P.ProfileTable, ps: seq<DeploymentProfileRequest>, t: P.ProfileTable, i: nat)
    requires P.InjectProfiles(db, apps, base, ps) == Ok(t) && i < |ps|
    ensures ps[i].name in t && P.Resolves(db, apps, ps[i]) && t[ps[i].name] == P.MakeProfile(db, apps, ps[i])
  {
    var last := |ps| - 1;
    if i < last {
      var before := P.InjectProfiles(db, apps, base, ps[..last]).value;
      InjectedRow(db, apps, base, ps[..last], before, i);
      assert ps[..last][i] == ps[i];
      assert P.InjectProfile(db, apps, before, ps[last]) == Ok(t);
    }
  }

  lemma InjectedProfilesFit(
    db: Db, project: string, apps: seq<VersionedKey>, base: P.ProfileTable, ps: seq<DeploymentProfileRequest>,
    t: P.ProfileTable)
    requires MembersFit(db, project, apps) && ProfilesFit(db, project, base)
    requires P.InjectProfiles(db, apps, base, ps) == Ok(t)
    ensures ProfilesFit(db, project, t)
  {
    O.InjectedNames(db, apps, base, ps, t);
    forall n | n in t
      ensures LinksFit(db, project, t[n].links)
    {
      if n !in base {
        var i :| 0 <= i < |ps| && ps[i].name == n;
        InjectedRow(db, apps, base, ps, t, i);
        MadeProfileFits(db, project, apps, ps[i]);
      }
    }
  }

  /** Replacing the profiles leaves exactly the requested names. */
  lemma UpdatedProfiles(
    db: Db, project: string, apps: seq<VersionedKey>, profiles: P.ProfileTable, ps: seq<DeploymentProfileRequest>,
    mapOrder: seq<DeploymentProfileRequest>, t: P.ProfileTable)
    requires MembersFit(db, project, apps) && ProfilesFit(db, project, profiles)
    requires P.UpdateProfiles(db, apps, profiles, ps, mapOrder) == Ok(t)
    ensures ProfilesFit(db, project, t)
    ensures forall n :: n in t <==> Named(ps, P.ProfileName, n)
  {
    var kept := P.KeptProfiles(db, apps, profiles, ps);
    var added := P.ProfilesToCreate(profiles, ps, mapOrder);
    ArrangeKeeps(NewItems(profiles, ps, P.ProfileName), mapOrder, P.ProfileName);
    forall n | n in kept
      ensures LinksFit(db, project, kept[n].links)
    {
      assert P.KeptFits(db, apps, ps, n);
      ResolvedLinksFit(db, project, apps, profiles[n].links, P.EntriesOf(P.Requested(ps, n).value));
    }
    InjectedProfilesFit(db, project, apps, kept, added, t);
    O.InjectedNames(db, apps, kept, added, t);
    NewItemsNames(profiles, ps, P.ProfileName);
    RequestedIffNamed(ps);
    forall n
      ensures n in t <==> Named(ps, P.ProfileName, n)
    {
      if Named(added, P.ProfileName, n) {
        NewItemsAreNamed(profiles, ps, P.ProfileName, n);
      }
    }
  }

  lemma RequestedIffNamed(ps: seq<DeploymentProfileRequest>)
    ensures forall n :: P.Requested(ps, n).Some? <==> Named(ps, P.ProfileName, n)
  {
    forall n
      ensures P.Requested(ps, n).Some? <==> Named(ps, P.ProfileName, n)
    {
      var r := P.Requested(ps, n);
      if r.Some? {
        var i :| 0 <= i < |ps| && ps[i] == r.value;
      }
    }
  }

  /** The profile part of an update, without the choice of the default. */
  lemma AppliedTableFits(
    db: Db, project: string, apps: seq<VersionedKey>, row: PackageRow, req: PackageRequest, ch: P.Changes,
    t: P.ProfileTable)
    requires MembersFit(db, project, apps) && ProfilesFit(db, project, row.profiles)
    requires P.PackageChanges(row, req) == Ok(ch)
    requires if ch.profiles || ch.applications
             then P.UpdateProfiles(db, apps, row.profiles, req.profiles, req.mapOrder) == Ok(t)
             else P.InjectProfiles(db, apps, row.profiles, ch.newProfiles) == Ok(t)
    ensures ProfilesFit(db, project, t)
    ensures forall n :: n in t <==> Named(req.profiles, P.ProfileName, n)
  {
    hide P.UpdateProfiles, P.InjectProfiles, ProfilesFit, MembersFit;
    if ch.profiles || ch.applications {
      UpdatedProfiles(db, project, apps, row.profiles, req.profiles, req.mapOrder, t);
    } else {
      InjectedProfilesFit(db, project, apps, row.profiles, ch.newProfiles, t);
      O.InjectedNames(db, apps, row.profiles, ch.newProfiles, t);
      NewItemsNames(row.profiles, req.profiles, P.ProfileName);
      assert forall n :: n in row.profiles ==> Named(req.profiles, P.ProfileName, n);
    }
  }

  /** The profile part of an update: what is stored afterwards, and its default. */
  lemma AppliedProfilesFit(
    db: Db, project: string, apps: seq<VersionedKey>, row: PackageRow, req: PackageRequest, ch: P.Changes,
    t: P.ProfileTable, default: Option<string>)
    requires MembersFit(db, project, apps) && ProfilesFit(db, project, row.profiles)
    requires DefaultFits(row.profiles.Keys, row.defaultProfile) && !P.NeedsDefault(req)
    requires P.PackageChanges(row, req) == Ok(ch)
    requires P.ApplyProfiles(db, apps, row, req, ch) == Ok((t, default))
    ensures ProfilesFit(db, project, t) && DefaultFits(t.Keys, default)
    ensures forall n :: n in t <==> Named(req.profiles, P.ProfileName, n)
  {
    hide P.UpdateProfiles, P.InjectProfiles, ProfilesFit, MembersFit;
    AppliedTableFits(db, project, apps, row, req, ch, t);
    assert !ch.profiles ==> forall n :: n in row.profiles ==> Named(req.profiles, P.ProfileName, n);
    if req.profiles != [] {
      assert Named(req.profiles, P.ProfileName, req.profiles[0].name);
      assert t.Keys != {};
    } else {
      assert t.Keys == {};
    }
  }

  ghost predicate ValidNames(ps: seq<DeploymentProfileRequest>) {
    forall i :: 0 <= i < |ps| ==> ValidName(ps[i].name)
  }

  lemma ShownTextFits(name: string, displayName: string)
    requires ValidName(name) && IsTrimmed(displayName)
    ensures DisplayFits(DisplayName(name, displayName))
  {
    ValidNamesArePlain(name);
  }

  lemma {:induction false} InjectedTextsFit(
    db: Db, apps: seq<VersionedKey>, base: P.ProfileTable, ps: seq<DeploymentProfileRequest>, t: P.ProfileTable)
    requires TextsFit(base) && ValidNames(ps) && P.InjectProfiles(db, apps, base, ps) == Ok(t)
    ensures TextsFit(t)
  {
    hide ValidName, DisplayFits, P.Resolves, P.ProfileDisplayTaken;
    if ps != [] {
      var last := |ps| - 1;
      InjectedTextsFit(db, apps, base, ps[..last], P.InjectProfiles(db, apps, base, ps[..last]).value);
      ShownTextFits(ps[last].name, ps[last].displayName);
    }
  }

  lemma KeptTextsFit(
    db: Db, apps: seq<VersionedKey>, profiles: P.ProfileTable, ps: seq<DeploymentProfileRequest>)
    requires ValidNames(ps) && forall n :: n in profiles ==> P.KeptFits(db, apps, ps, n)
    ensures TextsFit(P.KeptProfiles(db, apps, profiles, ps))
  {
    hide ValidName, DisplayFits, P.Resolves;
    var kept := P.KeptProfiles(db, apps, profiles, ps);
    forall n | n in kept
      ensures ValidName(n) && DisplayFits(kept[n].displayName)
    {
      assert P.KeptFits(db, apps, ps, n);
      var p := P.Requested(ps, n).value;
      var i :| 0 <= i < |ps| && ps[i] == p;
      ShownTextFits(p.name, p.displayName);
    }
  }

  lemma SameItemsAreValid(items: seq<DeploymentProfileRequest>, ps: seq<DeploymentProfileRequest>)
    requires ValidNames(ps) && forall p :: p in items ==> p in ps
    ensures ValidNames(items)
  {
    forall i | 0 <= i < |items|
      ensures ValidName(items[i].name)
    {
      assert items[i] in ps;
    }
  }

  lemma {:induction false} NewItemsAreWanted(stored: P.ProfileTable, ps: seq<DeploymentProfileRequest>)
    ensures forall p :: p in NewItems(stored, ps, P.ProfileName) ==> p in ps
  {
    if ps != [] {
      var last := |ps| - 1;
      NewItemsAreWanted(stored, ps[..last]);
      assert ps == ps[..last] + [ps[last]];
    }
  }

  lemma AppliedTextsFit(
    db: Db, apps: seq<VersionedKey>, row: PackageRow, req: PackageRequest, ch: P.Changes,
    r: (P.ProfileTable, Option<string>))
    requires TextsFit(row.profiles) && ValidNames(req.profiles)
    requires P.PackageChanges(row, req) == Ok(ch) && P.ApplyProfiles(db, apps, row, req, ch) == Ok(r)
    ensures TextsFit(r.0)
  {
    hide TextsFit, ValidNames, P.InjectProfiles, P.ProfilesChanged, P.KeptFits;
    var added := NewItems(row.profiles, req.profiles, P.ProfileName);
    NewItemsAreWanted(row.profiles, req.profiles);
    if ch.profiles || ch.applications {
      ArrangeKeeps(added, req.mapOrder, P.ProfileName);
      SameItemsAreValid(P.ProfilesToCreate(row.profiles, req.profiles, req.mapOrder), req.profiles);
      KeptTextsFit(db, apps, row.profiles, req.profiles);
      InjectedTextsFit(db, apps, P.KeptProfiles(db, apps, row.profiles, req.profiles),
                       P.ProfilesToCreate(row.profiles, req.profiles, req.mapOrder), r.0);
    } else {
      assert P.PackageChanges(row, req).value.newProfiles == ch.newProfiles;
      ReportedItemsAreValid(row, req, ch);
      InjectedTextsFit(db, apps, row.profiles, ch.newProfiles, r.0);
    }
  }

  lemma ReportedItemsAreValid(row: PackageRow, req: PackageRequest, ch: P.Changes)
    requires ValidNames(req.profiles) && P.PackageChanges(row, req) == Ok(ch)
    ensures ValidNames(ch.newProfiles)
  {
    hide P.ProfilesChanged;
    NewItemsAreWanted(row.profiles, req.profiles);
    SameItemsAreValid(NewItems(row.profiles, req.profiles, P.ProfileName), req.profiles);
  }

  lemma RequestedNamesAreValid(req: PackageRequest)
    requires P.ValidPackage(req)
    ensures ValidNames(req.profiles)
  {
    forall i | 0 <= i < |req.profiles|
      ensures ValidName(req.profiles[i].name)
    {
      assert P.ValidDeploymentProfile(req.profiles[i]);
    }
  }

  lemma AppliedMembersFit(db: Db, project: string, row: PackageRow, req: PackageRequest, ch: P.Changes, m: P.Members)
    requires MembersFit(db, project, row.applications)
    requires DependenciesFit(row.applications, row.dependencies) &&
             AppNamespacesFit(row.applications, row.appNamespaces)
    requires P.ApplyMembers(db, project, row, req, ch) == Ok(m)
    ensures MembersFit(db, project, m.applications)
    ensures DependenciesFit(m.applications, m.dependencies) && AppNamespacesFit(m.applications, m.appNamespaces)
  {
    O.AppliedMembers(db, project, row, req, ch, m);
    if ch.applications { MadeApplicationsFit(db, project, req.applications); }
    if ch.dependencies || ch.applications { MadeDependenciesFit(m.applications, req.dependencies); }
    if ch.defaultNamespaces || ch.applications { MadeAppNamespacesFit(m.applications, req.defaultNamespaces); }
  }

  lemma AppliedRowFits(db: Db, project: string, row: PackageRow, req: PackageRequest, ch: P.Changes, row': PackageRow)
    requires P.ValidPackage(req) && IsTrimmed(req.displayName) && !P.NeedsDefault(req)
    requires PackageFits(db, P.PackageKey(project, req), row)
    requires P.PackageChanges(row, req) == Ok(ch)
    requires P.ApplyChanges(db, project, row, req, ch) == Ok(row')
    ensures PackageFits(db, P.PackageKey(project, req), row')
  {
    O.AppliedParts(db, project, row, req, ch, row');
    AppliedMembersFit(db, project, row, req, ch, P.Members(row'.applications, row'.dependencies, row'.appNamespaces));
    AppliedProfilesFit(db, project, row'.applications, row, req, ch, row'.profiles, row'.defaultProfile);
    RequestedNamesAreValid(req);
    AppliedTextsFit(db, row'.applications, row, req, ch, (row'.profiles, row'.defaultProfile));
    if ch.artifacts { MadeArtifactsFit(db, project, req.artifacts); }
    ValidNamesArePlain(req.name);
    assert ListsFit(row');
  }

  lemma UpdatedRowFits(db: Db, project: string, row: PackageRow, req: PackageRequest, row': PackageRow)
    requires P.ValidPackage(req) && IsTrimmed(req.displayName) && !P.NeedsDefault(req)
    requires PackageFits(db, P.PackageKey(project, req), row)
    requires P.UpdateRow(db, project, row, req) == Ok(row')
    ensures PackageFits(db, P.PackageKey(project, req), row')
  {
    var ch := P.PackageChanges(row, req).value;
    if !(ch.kindOrState && !ch.Changed()) {
      AppliedRowFits(db, project, row, req, ch, row');
    }
  }

  /** Replacing one package row by a fitting one. */
  lemma PackageRowKeepsInv(db: Db, key: VersionedKey, row: PackageRow)
    requires Inv(db) && PackageFits(db, key, row)
    ensures Inv(db.(packages := db.packages[key := row]))
  {
    var db' := db.(packages := db.packages[key := row]);
    forall k | k in db'.packages
      ensures PackageFits(db', k, db'.packages[k])
    {
      PackageFrame(db, db', k, db'.packages[k]);
    }
    ApplicationsFrame(db, db');
  }

  lemma ApplicationsFrame(db: Db, db': Db)
    requires Inv(db) && db'.registries == db.registries && db'.applications == db.applications
    ensures forall k :: k in db'.applications ==> ApplicationFits(db', k, db'.applications[k])
  {
    forall k | k in db'.applications
      ensures ApplicationFits(db', k, db'.applications[k])
    {
      assert ApplicationFits(db, k, db.applications[k]);
    }
  }

  lemma UpdatePackageKeepsInv(db: Db, project: string, req: PackageRequest, db': Db)
    requires Inv(db) && P.ValidPackage(req)
    requires P.UpdatePackage(db, project, req) == Ok(db')
    ensures Inv(db')
  {
    var key := P.PackageKey(project, req);
    var row' := P.UpdateRow(db, project, db.packages[key], req).value;
    UpdatedRowFits(db, project, db.packages[key], req, row');
    PackageRowKeepsInv(db, key, row');
  }

  lemma CreatedRootFits(req: PackageRequest)
    requires P.ValidPackage(req)
    ensures IsTrimmed(req.displayName) ==> DisplayFits(DisplayName(req.name, req.displayName))
    ensures KindFits(KindToDb(req.kind))
  {
    ValidNamesArePlain(req.name);
  }

  lemma NoTexts()
    ensures TextsFit(map[])
  {
  }

  lemma CreatedDefault(db: Db, project: string, req: PackageRequest, row: PackageRow)
    requires P.CreatePackage(db, project, req) == Ok(db.(packages := db.packages[P.PackageKey(project, req) := row]))
    ensures IsTrimmed(req.displayName) && DefaultFits(row.profiles.Keys, row.defaultProfile)
  {
    hide P.MakeApplications, P.MakeDependencies, P.MakeAppNamespaces, P.MakeArtifacts, P.InjectProfiles,
         P.MakeExtensions;
    var key := P.PackageKey(project, req);
    assert db.packages[key := row][key] == row;
    O.InjectedNames(db, row.applications, map[], req.profiles, row.profiles);
    if req.profiles != [] {
      assert Named(req.profiles, P.ProfileName, req.profiles[0].name);
    }
  }

  lemma CreatedRowFits(db: Db, project: string, req: PackageRequest, row: PackageRow)
    requires project != "" && P.ValidPackage(req)
    requires P.CreatePackage(db, project, req) == Ok(db.(packages := db.packages[P.PackageKey(project, req) := row]))
    ensures PackageFits(db, P.PackageKey(project, req), row)
  {
    hide P.CreatePackage, P.MakeApplications, P.MakeDependencies, P.MakeAppNamespaces, P.MakeArtifacts,
         P.InjectProfiles;
    hide ValidName, ValidVersion, TextsFit, ProfilesFit;
    var key := P.PackageKey(project, req);
    assert db.packages[key := row][key] == row;
    O.CreateParts(db, project, req, db.(packages := db.packages[key := row]));
    CreatedDefault(db, project, req, row);
    CreatedRootFits(req);
    NoTexts();
    MadeApplicationsFit(db, project, req.applications);
    MadeDependenciesFit(row.applications, req.dependencies);
    MadeAppNamespacesFit(row.applications, req.defaultNamespaces);
    InjectedProfilesFit(db, project, row.applications, map[], req.profiles, row.profiles);
    O.InjectedNames(db, row.applications, map[], req.profiles, row.profiles);
    RequestedNamesAreValid(req);
    InjectedTextsFit(db, row.applications, map[], req.profiles, row.profiles);
    MadeArtifactsFit(db, project, req.artifacts);
    assert ListsFit(row);
  }

  lemma CreatePackageAdds(db: Db, project: string, req: PackageRequest, db': Db)
    requires P.CreatePackage(db, project, req) == Ok(db')
    ensures var key := P.PackageKey(project, req);
            key !in db.packages && key in db'.packages &&
            db' == db.(packages := db.packages[key := db'.packages[key]])
  {
  }

  lemma CreatePackageKeepsInv(db: Db, project: string, req: PackageRequest, db': Db)
    requires Inv(db) && project != "" && P.ValidPackage(req)
    requires P.CreatePackage(db, project, req) == Ok(db')
    ensures Inv(db')
  {
    var key := P.PackageKey(project, req);
    CreatePackageAdds(db, project, req, db');
    CreatedRowFits(db, project, req, db'.packages[key]);
    PackageRowKeepsInv(db, key, db'.packages[key]);
  }

  lemma DeletePackageKeepsInv(db: Db, key: VersionedKey, db': Db)
    requires Inv(db) && P.DeletePackage(db, key) == Ok(db')
    ensures Inv(db')
  {
    forall k | k in db'.packages
      ensures PackageFits(db', k, db'.packages[k])
    {
      PackageFrame(db, db', k, db.packages[k]);
    }
    ApplicationsFrame(db, db');
  }
}
