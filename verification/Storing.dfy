/** Exactly what an accepted creation or update of a deployment package leaves stored. */
module Storing {
  import opened Prelude
  import opened Text
  import opened Tables
  import opened Diff
  import opened References
  import opened Catalog
  import opened Conditions
  import opened Comparisons
  import I = Invariants
  import Acceptance
  import Promises
  import Runs
  import PL = ProfileLinks
  import PU = PackageUpdates
  import AU = ApplicationUpdates
  import AI = AppInvariants
  import M = MapOrders
  import P = Packages
  import A = Applications
  import O = Overwrite

  // ---------- First occurrences ----------

  ghost predicate ComesFirst<T(!new)>(s: seq<T>, x: T, y: T) {
    exists a :: 0 <= a < |s| && s[a] == x && forall b :: 0 <= b <= a ==> s[b] != y
  }

  /** The elements of the list, each once, in the order in which they first occur. */
  ghost predicate AreFirsts<T(!new)>(r: seq<T>, s: seq<T>) {
    && NoDup(r) && (forall x :: x in r <==> x in s)
    && forall i, j :: 0 <= i < j < |r| ==> ComesFirst(s, r[i], r[j])
  }

  lemma ComesFirstStep<T(!new)>(s: seq<T>, x: T, y: T, z: T)
    ensures ComesFirst(s, x, y) ==> ComesFirst(s + [z], x, y)
    ensures x in s && y !in s ==> ComesFirst(s, x, y)
  {
    if ComesFirst(s, x, y) {
      var a :| 0 <= a < |s| && s[a] == x && forall b :: 0 <= b <= a ==> s[b] != y;
      assert (s + [z])[a] == x && forall b :: 0 <= b <= a ==> (s + [z])[b] != y;
    }
    if x in s && y !in s {
      var a :| 0 <= a < |s| && s[a] == x;
    }
  }

  lemma {:induction false} DedupIsFirsts<T(!new)>(s: seq<T>)
    ensures AreFirsts(Dedup(s), s)
  {
    hide ComesFirst;
    if s != [] {
      var last := |s| - 1;
      var before, r := s[..last], Dedup(s);
      DedupIsFirsts(before);
      assert s == before + [s[last]];
      forall i, j | 0 <= i < j < |r|
        ensures ComesFirst(s, r[i], r[j])
      {
        ComesFirstStep(before, r[i], r[j], s[last]);
      }
    }
  }

  // ---------- What is listed ----------

  ghost predicate MembersListed(project: string, refs: seq<Reference>, apps: seq<VersionedKey>) {
    AreFirsts(apps, Acceptance.Keys(project, refs))
  }

  /** The last member of the name, on both ends. */
  ghost predicate DependenciesListed(apps: seq<VersionedKey>, deps: seq<Dependency>, rows: seq<DependencyRow>) {
    && |rows| == |deps|
    && forall i :: 0 <= i < |deps| ==> DependencyListed(apps, deps[i], rows[i])
  }

  ghost predicate DependencyListed(apps: seq<VersionedKey>, d: Dependency, row: DependencyRow) {
    IsLast(apps, AppName, d.name, row.source) && IsLast(apps, AppName, d.target, row.target) && d.name != d.target
  }

  /** One row for each entry, about the last member of the name. */
  ghost predicate DefaultsListed(apps: seq<VersionedKey>, e: Entries, table: map<string, AppNamespaceRow>) {
    && (forall n :: n in table ==> exists i :: 0 <= i < |e| && e[i].0 == n)
    && forall i :: 0 <= i < |e| ==>
         e[i].0 in table && table[e[i].0].namespace == e[i].1 && IsLast(apps, AppName, e[i].0, table[e[i].0].app)
  }

  predicate NamespacesListed(ns: seq<NamespaceRequest>, rows: seq<NamespaceRow>) {
    && |rows| == |ns|
    && forall i :: 0 <= i < |ns| ==>
         rows[i].name == ns[i].name && Holds(ns[i].labels, rows[i].labels) &&
         Holds(ns[i].annotations, rows[i].annotations)
  }

  predicate Holds(wanted: Option<map<string, string>>, stored: map<string, string>) {
    (wanted.None? ==> stored == map[]) && (wanted.Some? ==> stored == wanted.value)
  }

  predicate ExtensionsListed(exts: seq<ExtensionRequest>, rows: seq<ExtensionRow>) {
    |rows| == |exts| && forall i :: 0 <= i < |exts| ==> ExtensionListed(exts[i], rows[i])
  }

  /** A user interface is stored in full, with a label or without. */
  predicate ExtensionListed(e: ExtensionRequest, row: ExtensionRow) {
    && row.name == e.name && row.version == e.version && row.displayName == e.displayName
    && row.description == e.description
    && (e.ui.Some? ==> row.ui == e.ui.value)
    && (e.ui.None? ==> row.ui == UiExtension("", "", "", "", "", ""))
    && (e.endpoints.Some? ==> row.endpoints == e.endpoints.value) && (e.endpoints.None? ==> row.endpoints == [])
  }

  predicate ArtifactsListed(project: string, arts: seq<ArtifactReference>, rows: seq<ArtifactReferenceRow>) {
    && |rows| == |arts|
    && forall i :: 0 <= i < |arts| ==>
         rows[i].artifact == NamedKey(project, arts[i].name) && rows[i].purpose == arts[i].purpose
  }

  /** The links that the entries denote, in their order. */
  ghost predicate EntriesDenote(apps: seq<VersionedKey>, p: DeploymentProfileRequest, links: seq<ProfileLink>) {
    && (p.appProfiles.None? ==> links == [])
    && (p.appProfiles.Some? ==>
          && |links| == |p.appProfiles.value|
          && forall i :: 0 <= i < |links| ==>
               IsDenoted(apps, p.appProfiles.value[i].0, links[i].app) && links[i].profile == p.appProfiles.value[i].1)
  }

  /** The requested texts, with the name in place of an empty display name, and the denoted links after earlier ones. */
  ghost predicate ProfileListed(
    apps: seq<VersionedKey>, before: seq<ProfileLink>, p: DeploymentProfileRequest, row: DeploymentProfileRow)
  {
    && row.displayName == (if p.displayName == "" then p.name else p.displayName) && row.description == p.description
    && exists links :: EntriesDenote(apps, p, links) && AreFirsts(row.links, before + links)
  }

  function LinksOf(table: P.ProfileTable, n: string): seq<ProfileLink> {
    if n in table then table[n].links else []
  }

  predicate RootListed(req: PackageRequest, row: PackageRow) {
    && row.displayName == (if req.displayName == "" then req.name else req.displayName)
    && row.description == req.description && row.kind == KindToDb(req.kind)
    && row.isDeployed == req.isDeployed && row.isVisible == req.isVisible
    && row.allowsMultiple == !req.forbidsMultiple
    && row.defaultProfile == if req.defaultProfile == "" then None else Some(req.defaultProfile)
  }

  // ---------- What is made is listed ----------

  lemma MadeMembersAreListed(db: Db, project: string, refs: seq<Reference>, apps: seq<VersionedKey>)
    requires P.MakeApplications(db, project, refs) == Ok(apps)
    ensures MembersListed(project, refs, apps)
  {
    hide AreFirsts;
    Acceptance.MadeMembersIff(db, project, refs);
    DedupIsFirsts(Acceptance.Keys(project, refs));
  }

  lemma MadeDependenciesAreListed(apps: seq<VersionedKey>, deps: seq<Dependency>, rows: seq<DependencyRow>)
    requires P.MakeDependencies(apps, deps) == Ok(rows)
    ensures DependenciesListed(apps, deps, rows)
  {
    hide IsLast, LastWith;
    forall i | 0 <= i < |deps|
      ensures DependencyListed(apps, deps[i], rows[i])
    {
      assert P.DependencyFits(apps, deps[i]);
      LastWithIff(apps, AppName, deps[i].name, rows[i].source);
      LastWithIff(apps, AppName, deps[i].target, rows[i].target);
    }
  }

  lemma MadeDefaultsAreListed(apps: seq<VersionedKey>, e: Entries, table: map<string, AppNamespaceRow>)
    requires P.MakeAppNamespaces(apps, e) == Ok(table) && DistinctKeys(e)
    ensures DefaultsListed(apps, e, table)
  {
    hide IsLast, LastWith;
    forall i | 0 <= i < |e|
      ensures e[i].0 in table && table[e[i].0].namespace == e[i].1 && IsLast(apps, AppName, e[i].0, table[e[i].0].app)
    {
      EntryMapAt(e, i);
      LastWithIff(apps, AppName, e[i].0, table[e[i].0].app);
    }
  }

  lemma ResolvedEntriesAreDenoted(db: Db, apps: seq<VersionedKey>, p: DeploymentProfileRequest)
    requires PlainApps(apps) && P.Resolves(db, apps, p)
    ensures EntriesDenote(apps, p, ResolvedLinks(db.applications, apps, P.EntriesOf(p)))
  {
    hide FindApplication, IsDenoted;
    var links := ResolvedLinks(db.applications, apps, P.EntriesOf(p));
    forall i | 0 <= i < |links|
      ensures IsDenoted(apps, P.EntriesOf(p)[i].0, links[i].app) && links[i].profile == P.EntriesOf(p)[i].1
    {
      FindsDenoted(apps, P.EntriesOf(p)[i].0, links[i].app);
    }
  }

  lemma MadeProfileIsListed(db: Db, apps: seq<VersionedKey>, p: DeploymentProfileRequest)
    requires PlainApps(apps) && P.Resolves(db, apps, p)
    ensures ProfileListed(apps, [], p, P.MakeProfile(db, apps, p))
  {
    hide EntriesDenote, AreFirsts;
    var links := ResolvedLinks(db.applications, apps, P.EntriesOf(p));
    ResolvedEntriesAreDenoted(db, apps, p);
    DedupIsFirsts(links);
    assert [] + links == links;
  }

  lemma MergedProfileIsListed(
    db: Db, apps: seq<VersionedKey>, row: DeploymentProfileRow, p: DeploymentProfileRequest)
    requires PlainApps(apps) && P.Resolves(db, apps, p)
    ensures ProfileListed(apps, row.links, p, P.MergeProfile(db, apps, row, p))
  {
    hide EntriesDenote, AreFirsts;
    var links := ResolvedLinks(db.applications, apps, P.EntriesOf(p));
    ResolvedEntriesAreDenoted(db, apps, p);
    DedupIsFirsts(row.links + links);
  }

  // ---------- New packages ----------

  ghost predicate ProfilesListed(
    apps: seq<VersionedKey>, stored: P.ProfileTable, ps: seq<DeploymentProfileRequest>, table: P.ProfileTable)
  {
    && (forall n :: n in table ==> exists i :: 0 <= i < |ps| && ps[i].name == n)
    && forall i :: 0 <= i < |ps| ==>
         ps[i].name in table && ProfileListed(apps, LinksOf(stored, ps[i].name), ps[i], table[ps[i].name])
  }

  lemma CreatedProfilesAreListed(
    db: Db, apps: seq<VersionedKey>, ps: seq<DeploymentProfileRequest>, table: P.ProfileTable)
    requires PlainApps(apps) && P.InjectProfiles(db, apps, map[], ps) == Ok(table)
    ensures ProfilesListed(apps, map[], ps, table)
  {
    hide P.InjectProfiles, P.MakeProfile, P.Resolves, ProfileListed, PlainApps;
    O.InjectedNames(db, apps, map[], ps, table);
    forall n | n in table
      ensures exists i :: 0 <= i < |ps| && ps[i].name == n
    {
      var i :| 0 <= i < |ps| && P.ProfileName(ps[i]) == n;
    }
    forall i | 0 <= i < |ps|
      ensures ps[i].name in table && ProfileListed(apps, LinksOf(map[], ps[i].name), ps[i], table[ps[i].name])
    {
      I.InjectedRow(db, apps, map[], ps, table, i);
      MadeProfileIsListed(db, apps, ps[i]);
    }
  }

  /** A package that holds what the request lists. */
  ghost predicate PackageListed(project: string, req: PackageRequest, row: PackageRow) {
    && RootListed(req, row) && MembersListed(project, req.applications, row.applications)
    && DependenciesListed(row.applications, req.dependencies, row.dependencies)
    && DefaultsListed(row.applications, req.defaultNamespaces, row.appNamespaces)
    && NamespacesListed(req.namespaces, row.namespaces) && ExtensionsListed(req.extensions, row.extensions)
    && ArtifactsListed(project, req.artifacts, row.artifacts)
    && ProfilesListed(row.applications, map[], req.profiles, row.profiles)
  }

  lemma MadeListsAreListed(db: Db, project: string, req: PackageRequest)
    ensures NamespacesListed(req.namespaces, MapSeq(P.MakeNamespace, req.namespaces))
    ensures ExtensionsListed(req.extensions, MapSeq(P.MakeExtension, req.extensions))
    ensures var r := P.MakeArtifacts(db, project, req.artifacts);
            r.Ok? ==> ArtifactsListed(project, req.artifacts, r.value)
  {
  }

  /** An accepted new package stores every column of every part of the request, and changes nothing else. */
  lemma CreatedPackageIsStored(db: Db, active: string, req: PackageRequest)
    requires Call(db, active, AddPackage(req)).Ok?
    ensures var project, db' := ActiveProject(active), After(db, active, AddPackage(req));
            var key := VersionedKey(project, req.name, req.version);
            && key in db'.packages && PackageListed(project, req, db'.packages[key])
            && db' == db.(packages := db.packages[key := db'.packages[key]])
  {
    hide P.CreatePackage, P.UpdatePackage, A.CreateApplication, A.UpdateApplication, A.DeleteApplication;
    hide P.ValidPackage, P.InjectProfiles, PlainApps, P.MakeDependencies, P.MakeAppNamespaces, P.MakeApplications;
    hide MembersListed, DependenciesListed, DefaultsListed, NamespacesListed, ExtensionsListed, ArtifactsListed;
    hide ProfilesListed, P.MakeExtension, P.MakeArtifacts;
    var project, db' := ActiveProject(active), After(db, active, AddPackage(req));
    O.CreateParts(db, project, req, db');
    var row := db'.packages[VersionedKey(project, req.name, req.version)];
    NamesDistinctEntries(req);
    Acceptance.ReferencesArePlain(project, req);
    Acceptance.MadeMembersIff(db, project, req.applications);
    MadeMembersAreListed(db, project, req.applications, row.applications);
    MadeDependenciesAreListed(row.applications, req.dependencies, row.dependencies);
    MadeDefaultsAreListed(row.applications, req.defaultNamespaces, row.appNamespaces);
    CreatedProfilesAreListed(db, row.applications, req.profiles, row.profiles);
    MadeListsAreListed(db, project, req);
    MadeExtensionsAre(req.extensions);
  }

  lemma NamesDistinctEntries(req: PackageRequest)
    requires P.ValidPackage(req)
    ensures DistinctKeys(req.defaultNamespaces)
  {
  }

  lemma MadeExtensionsAre(exts: seq<ExtensionRequest>)
    ensures var r := P.MakeExtensions(exts); r.Ok? ==> r.value == MapSeq(P.MakeExtension, exts)
  {
  }

  // ---------- Updated packages ----------

  /** Where the profiles stay, only those of new names are made. */
  ghost predicate ProfilesAdded(
    apps: seq<VersionedKey>, stored: P.ProfileTable, ps: seq<DeploymentProfileRequest>, table: P.ProfileTable)
  {
    && (forall n :: n in table ==> n in stored || exists i :: 0 <= i < |ps| && ps[i].name == n)
    && (forall n :: n in stored ==> n in table && table[n] == stored[n])
    && forall i :: 0 <= i < |ps| && ps[i].name !in stored ==>
         ps[i].name in table && ProfileListed(apps, [], ps[i], table[ps[i].name])
  }

  lemma AddedProfilesAreListed(
    db: Db, apps: seq<VersionedKey>, stored: P.ProfileTable, ps: seq<DeploymentProfileRequest>, table: P.ProfileTable)
    requires PlainApps(apps) && DistinctNames(ps, P.ProfileName)
    requires P.InjectProfiles(db, apps, stored, NewItems(stored, ps, P.ProfileName)) == Ok(table)
    ensures ProfilesAdded(apps, stored, ps, table)
  {
    hide P.InjectProfiles, P.MakeProfile, P.Resolves, ProfileListed, PlainApps, NewItems;
    var added := NewItems(stored, ps, P.ProfileName);
    O.InjectedNames(db, apps, stored, added, table);
    NewItemsMembers(stored, ps, P.ProfileName);
    forall n | n in table && n !in stored
      ensures exists i :: 0 <= i < |ps| && ps[i].name == n
    {
      var j :| 0 <= j < |added| && P.ProfileName(added[j]) == n;
      assert added[j] in ps;
      var i :| 0 <= i < |ps| && ps[i] == added[j];
    }
    forall i | 0 <= i < |ps| && ps[i].name !in stored
      ensures ps[i].name in table && ProfileListed(apps, [], ps[i], table[ps[i].name])
    {
      assert ps[i] in added;
      var j :| 0 <= j < |added| && added[j] == ps[i];
      I.InjectedRow(db, apps, stored, added, table, j);
      MadeProfileIsListed(db, apps, ps[i]);
    }
  }

  lemma ReplacedProfileIsListed(
    db: Db, apps: seq<VersionedKey>, stored: P.ProfileTable, ps: seq<DeploymentProfileRequest>,
    mapOrder: seq<DeploymentProfileRequest>, table: P.ProfileTable, i: nat)
    requires PlainApps(apps) && P.UpdateProfiles(db, apps, stored, ps, mapOrder) == Ok(table) && i < |ps|
    ensures ps[i].name in table && ProfileListed(apps, LinksOf(stored, ps[i].name), ps[i], table[ps[i].name])
  {
    hide P.UpdateProfiles, P.InjectProfiles, P.MergeProfile, P.MakeProfile, ProfileListed, PlainApps;
    PL.UpdateParts(db, apps, stored, ps, mapOrder, table);
    var kept, added, p := P.KeptProfiles(db, apps, stored, ps), P.ProfilesToCreate(stored, ps, mapOrder), ps[i];
    PL.RequestedIsTheOne(ps, i);
    O.InjectedNames(db, apps, kept, added, table);
    if p.name in stored {
      assert P.KeptFits(db, apps, ps, p.name);
      MergedProfileIsListed(db, apps, stored[p.name], p);
    } else {
      NewItemsMembers(stored, ps, P.ProfileName);
      ArrangeKeeps(NewItems(stored, ps, P.ProfileName), mapOrder, P.ProfileName);
      assert p in added;
      var j :| 0 <= j < |added| && added[j] == p;
      I.InjectedRow(db, apps, kept, added, table, j);
      MadeProfileIsListed(db, apps, p);
    }
  }

  lemma ReplacedProfilesAreListed(
    db: Db, apps: seq<VersionedKey>, stored: P.ProfileTable, ps: seq<DeploymentProfileRequest>,
    mapOrder: seq<DeploymentProfileRequest>, table: P.ProfileTable)
    requires PlainApps(apps) && P.UpdateProfiles(db, apps, stored, ps, mapOrder) == Ok(table)
    ensures ProfilesListed(apps, stored, ps, table)
  {
    hide P.UpdateProfiles, P.InjectProfiles, P.KeptFits, P.KeptProfiles, ProfileListed, PlainApps, NewItems;
    forall i | 0 <= i < |ps|
      ensures ps[i].name in table && ProfileListed(apps, LinksOf(stored, ps[i].name), ps[i], table[ps[i].name])
    {
      ReplacedProfileIsListed(db, apps, stored, ps, mapOrder, table, i);
    }
    forall n | n in table
      ensures exists i :: 0 <= i < |ps| && ps[i].name == n
    {
      NothingElseIsKept(db, apps, stored, ps, mapOrder, table, n);
    }
  }

  lemma NothingElseIsKept(
    db: Db, apps: seq<VersionedKey>, stored: P.ProfileTable, ps: seq<DeploymentProfileRequest>,
    mapOrder: seq<DeploymentProfileRequest>, table: P.ProfileTable, n: string)
    requires P.UpdateProfiles(db, apps, stored, ps, mapOrder) == Ok(table) && n in table
    ensures exists i :: 0 <= i < |ps| && ps[i].name == n
  {
    hide P.UpdateProfiles, P.InjectProfiles, P.MergeProfile, P.MakeProfile, NewItems;
    PL.UpdateParts(db, apps, stored, ps, mapOrder, table);
    var kept, added := P.KeptProfiles(db, apps, stored, ps), P.ProfilesToCreate(stored, ps, mapOrder);
    O.InjectedNames(db, apps, kept, added, table);
    if n in kept {
      PU.RequestedIff(ps, n);
    } else {
      var j :| 0 <= j < |added| && P.ProfileName(added[j]) == n;
      NewItemsMembers(stored, ps, P.ProfileName);
      ArrangeKeeps(NewItems(stored, ps, P.ProfileName), mapOrder, P.ProfileName);
      assert added[j] in ps;
      var i :| 0 <= i < |ps| && ps[i] == added[j];
    }
  }

  /** The stored package afterwards: each part as it was if the request has the same, as listed if not. */
  ghost predicate UpdateListed(project: string, row: PackageRow, req: PackageRequest, row': PackageRow) {
    var same := MembersAlike(project, row, req);
    && RootListed(req, row')
    && (if same then row'.applications == row.applications
        else MembersListed(project, req.applications, row'.applications))
    && (if same && !DependenciesDiffer(row, req) then row'.dependencies == row.dependencies
        else DependenciesListed(row'.applications, req.dependencies, row'.dependencies))
    && (if same && !DefaultsDiffer(row, req) then row'.appNamespaces == row.appNamespaces
        else DefaultsListed(row'.applications, req.defaultNamespaces, row'.appNamespaces))
    && (if NamespacesAlike(row, req) then row'.namespaces == row.namespaces
        else NamespacesListed(req.namespaces, row'.namespaces))
    && (if ExtensionsAlike(row, req) then row'.extensions == row.extensions
        else ExtensionsListed(req.extensions, row'.extensions))
    && (if ArtifactsAlike(row, req) then row'.artifacts == row.artifacts
        else ArtifactsListed(project, req.artifacts, row'.artifacts))
    && (if PU.ProfilesStay(project, row, req)
        then ProfilesAdded(row'.applications, row.profiles, req.profiles, row'.profiles)
        else ProfilesListed(row'.applications, row.profiles, req.profiles, row'.profiles))
  }

  /** Only kind and state differ, at least one of them. */
  ghost predicate OnlyKindOrState(project: string, row: PackageRow, req: PackageRequest) {
    KindOrStateDiffers(row, req) && !PartsDiffer(project, row, req)
  }

  lemma RewrittenPartsAreListed(
    db: Db, key: VersionedKey, row: PackageRow, req: PackageRequest, ch: P.Changes, row': PackageRow)
    requires O.Rewritten(db, key.project, row, req, ch, row') && DistinctKeys(req.defaultNamespaces)
    ensures RootListed(req, row')
    ensures ch.applications ==> MembersListed(key.project, req.applications, row'.applications)
    ensures !ch.applications ==> row'.applications == row.applications
    ensures if ch.dependencies || ch.applications
            then DependenciesListed(row'.applications, req.dependencies, row'.dependencies)
            else row'.dependencies == row.dependencies
    ensures if ch.defaultNamespaces || ch.applications
            then DefaultsListed(row'.applications, req.defaultNamespaces, row'.appNamespaces)
            else row'.appNamespaces == row.appNamespaces
    ensures if ch.namespaces then NamespacesListed(req.namespaces, row'.namespaces)
            else row'.namespaces == row.namespaces
    ensures if ch.extensions then ExtensionsListed(req.extensions, row'.extensions)
            else row'.extensions == row.extensions
    ensures if ch.artifacts then ArtifactsListed(key.project, req.artifacts, row'.artifacts)
            else row'.artifacts == row.artifacts
  {
    hide P.MakeApplications, P.MakeDependencies, P.MakeAppNamespaces, P.MakeArtifacts, P.MakeExtension;
    hide MembersListed, DependenciesListed, DefaultsListed, NamespacesListed, ExtensionsListed, ArtifactsListed;
    if ch.applications {
      MadeMembersAreListed(db, key.project, req.applications, row'.applications);
    }
    if ch.dependencies || ch.applications {
      MadeDependenciesAreListed(row'.applications, req.dependencies, row'.dependencies);
    }
    if ch.defaultNamespaces || ch.applications {
      MadeDefaultsAreListed(row'.applications, req.defaultNamespaces, row'.appNamespaces);
    }
    MadeListsAreListed(db, key.project, req);
  }

  lemma RewrittenProfilesAreListed(
    db: Db, key: VersionedKey, row: PackageRow, req: PackageRequest, ch: P.Changes, row': PackageRow)
    requires P.PackageChanges(row, req) == Ok(ch) && PlainApps(row'.applications)
    requires P.ApplyProfiles(db, row'.applications, row, req, ch) == Ok((row'.profiles, row'.defaultProfile))
    ensures if ch.profiles || ch.applications
            then ProfilesListed(row'.applications, row.profiles, req.profiles, row'.profiles)
            else ProfilesAdded(row'.applications, row.profiles, req.profiles, row'.profiles)
  {
    hide P.PackageChanges, P.ApplyProfiles, P.UpdateProfiles, P.InjectProfiles, ProfilesListed, ProfilesAdded;
    hide NewItems, PlainApps;
    var apps := row'.applications;
    PL.ProfileFlags(row, req, ch);
    PL.ApplyProfilesParts(db, apps, row, req, ch, (row'.profiles, row'.defaultProfile));
    if ch.profiles || ch.applications {
      ReplacedProfilesAreListed(db, apps, row.profiles, req.profiles, req.mapOrder, row'.profiles);
    } else {
      NoneRepeats(db, apps, row, req);
      AddedProfilesAreListed(db, apps, row.profiles, req.profiles, row'.profiles);
    }
  }

  lemma NoneRepeats(db: Db, apps: seq<VersionedKey>, row: PackageRow, req: PackageRequest)
    requires PlainApps(apps)
    requires P.InjectProfiles(db, apps, row.profiles, NewItems(row.profiles, req.profiles, P.ProfileName)).Ok?
    ensures DistinctNames(req.profiles, P.ProfileName)
  {
    hide P.InjectProfiles, NewItems, PlainApps;
    PU.AddedIff(db, apps, row.profiles, req.profiles);
    PU.DistinctIff(req.profiles);
  }

  lemma UpdatedRowIsListed(db: Db, key: VersionedKey, req: PackageRequest, row': PackageRow)
    requires I.Inv(db) && key in db.packages && P.ValidPackage(req) && !P.NeedsDefault(req)
    requires P.UpdateRow(db, key.project, db.packages[key], req) == Ok(row') && PlainApps(row'.applications)
    ensures var row := db.packages[key];
            if OnlyKindOrState(key.project, row, req)
            then row' == row.(isDeployed := req.isDeployed, kind := KindToDb(req.kind))
            else UpdateListed(key.project, row, req, row')
  {
    hide I.Inv, P.ValidPackage, P.PackageChanges, P.ApplyChanges, P.ApplyMembers, P.ApplyProfiles, PlainApps;
    hide PartsDiffer, KindOrStateDiffers, I.PackageFits, P.DisplayTaken, O.Rewritten, O.Settled;
    hide MembersListed, DependenciesListed, DefaultsListed, NamespacesListed, ExtensionsListed, ArtifactsListed;
    hide MembersAlike, DependenciesDiffer, DefaultsDiffer, NamespacesAlike, ExtensionsAlike, ArtifactsAlike;
    hide ProfilesAlike, ProfilesListed, ProfilesAdded, RootListed;
    var row := db.packages[key];
    PU.FitsAt(db, key);
    ChangesIff(db, key, row, req);
    Promises.PackageIsSettled(db, key);
    NamesDistinctEntries(req);
    O.UpdateRewrites(db, key.project, row, req, row');
    var ch := P.PackageChanges(row, req).value;
    RewrittenPartsAreListed(db, key, row, req, ch, row');
    if !(ch.kindOrState && !ch.Changed()) {
      O.AppliedParts(db, key.project, row, req, ch, row');
      RewrittenProfilesAreListed(db, key, row, req, ch, row');
    }
  }

  /**
   * In every reachable state, an accepted update of a package stores kind and state alone if nothing else
   * differs; else each part is as the request lists it, or stays as it was if that is the same.
   */
  lemma UpdatedPackageIsStored(db: Db, active: string, req: PackageRequest)
    requires Reachable(db) && Call(db, active, ChangePackage(req.name, req.version, req)).Ok?
    ensures var project, db' := ActiveProject(active), After(db, active, ChangePackage(req.name, req.version, req));
            var key := VersionedKey(project, req.name, req.version);
            && key in db.packages && key in db'.packages
            && db' == db.(packages := db.packages[key := db'.packages[key]])
            && var row, row' := db.packages[key], db'.packages[key];
               if OnlyKindOrState(project, row, req)
               then row' == row.(isDeployed := req.isDeployed, kind := KindToDb(req.kind))
               else UpdateListed(project, row, req, row')
  {
    hide Reachable, I.Inv, Call, P.ValidPackage, P.Unambiguous, P.UpdateRow, UpdateListed, OnlyKindOrState;
    hide I.PackageFits, PU.IsReady, PlainApps, Admissible;
    var project, op := ActiveProject(active), ChangePackage(req.name, req.version, req);
    var key, db' := VersionedKey(project, req.name, req.version), After(db, active, op);
    Runs.EveryReachableStateFits(db);
    AcceptedIsAdmissible(db, active, op);
    PU.CallUpdates(db, active, req);
    PU.ReadyNamesDefault(req);
    PU.AdmissibleIsValid(req);
    AfterIsReachable(db, active, op);
    Runs.EveryReachableStateFits(db');
    MembersStayPlain(db', key);
    UpdatedRowIsListed(db, key, req, db'.packages[key]);
  }

  lemma AcceptedIsAdmissible(db: Db, active: string, op: Op)
    requires Call(db, active, op).Ok?
    ensures Admissible(op)
  {
    hide Admissible, Transact;
  }

  lemma MembersStayPlain(db: Db, key: VersionedKey)
    requires I.Inv(db) && key in db.packages
    ensures PlainApps(db.packages[key].applications)
  {
    hide I.Inv, I.PackageFits, PlainApps;
    PU.FitsAt(db, key);
    PU.PartsOf(db, key, db.packages[key]);
    PU.MembersArePlain(db, key.project, db.packages[key].applications);
  }

  // ---------- Updated applications ----------

  /** A profile of an application as the request lists it, with its name in place of an empty display name. */
  predicate AppProfileListed(p: ProfileRequest, row: ProfileRow) {
    && row.displayName == (if p.displayName == "" then p.name else p.displayName)
    && row.description == p.description && row.chartValues == p.chartValues && row.templates == p.templates
  }

  ghost predicate AppProfilesListed(ps: seq<ProfileRequest>, table: A.Profiles) {
    && (forall n :: n in table ==> AU.IsRequested(ps, n))
    && forall i :: 0 <= i < |ps| ==> ps[i].name in table && AppProfileListed(ps[i], table[ps[i].name])
  }

  ghost predicate AppProfilesAdded(stored: A.Profiles, ps: seq<ProfileRequest>, table: A.Profiles) {
    && (forall n :: n in table ==> n in stored || AU.IsRequested(ps, n))
    && (forall n :: n in stored ==> n in table && table[n] == stored[n])
    && forall i :: 0 <= i < |ps| && ps[i].name !in stored ==>
         ps[i].name in table && AppProfileListed(ps[i], table[ps[i].name])
  }

  /** The stored application afterwards: profiles and ignored resources as they were if the request has the same. */
  ghost predicate AppUpdateListed(project: string, row: ApplicationRow, req: ApplicationRequest, row': ApplicationRow) {
    && AU.TextsAlike(row', req)
    && row'.kind == (if req.kind == Unspecified then row.kind else KindToDb(req.kind))
    && row'.helmRegistry == NamedKey(project, req.helmRegistry)
    && row'.imageRegistry == (if req.imageRegistry == "" then None else Some(NamedKey(project, req.imageRegistry)))
    && row'.defaultProfile == (if req.defaultProfile == "" then None else Some(req.defaultProfile))
    && row'.ignored == (if AU.IgnoredDiffer(row, req) then req.ignored else row.ignored)
    && (if AU.ProfilesAlike(row, req) then AppProfilesAdded(row.profiles, req.profiles, row'.profiles)
        else AppProfilesListed(req.profiles, row'.profiles))
  }

  ghost predicate OnlyKind(row: ApplicationRow, req: ApplicationRequest) {
    AU.KindDiffers(row, req) && !AU.Differs(row, req)
  }

  lemma AppNamesAreRequested(ps: seq<ProfileRequest>, n: string)
    ensures Named(ps, A.ProfileName, n) <==> AU.IsRequested(ps, n)
  {
    if Named(ps, A.ProfileName, n) {
      var i :| 0 <= i < |ps| && A.ProfileName(ps[i]) == n;
      assert ps[i].name == n;
    }
    if AU.IsRequested(ps, n) {
      var i :| 0 <= i < |ps| && ps[i].name == n;
      assert A.ProfileName(ps[i]) == n;
    }
  }

  lemma AppReconciledAreListed(db: Db, key: VersionedKey, row: ApplicationRow, req: ApplicationRequest, t: A.Profiles)
    requires A.UpdateProfiles(db, key, row.profiles, req.profiles, req.mapOrder, req.rowOrder) == Ok(t)
    ensures AppProfilesListed(req.profiles, t)
  {
    hide A.UpdateProfiles, Named, AU.IsRequested;
    AI.ReconciliationReplaces(db, key, row.profiles, req.profiles, req.mapOrder, req.rowOrder, t);
    forall n
      ensures Named(req.profiles, A.ProfileName, n) <==> AU.IsRequested(req.profiles, n)
    {
      AppNamesAreRequested(req.profiles, n);
    }
  }

  lemma AppAddedAreListed(row: ApplicationRow, req: ApplicationRequest, t: A.Profiles)
    requires A.InjectProfiles(row.profiles, NewItems(row.profiles, req.profiles, A.ProfileName)) == Ok(t)
    ensures AppProfilesAdded(row.profiles, req.profiles, t)
  {
    hide A.InjectProfiles, NewItems, AU.IsRequested, Named;
    var stored, ps := row.profiles, req.profiles;
    var added := NewItems(stored, ps, A.ProfileName);
    AU.AddedIff(row, req);
    AU.DistinctIff(ps);
    AI.InjectedNames(stored, added, t);
    NewItemsNames(stored, ps, A.ProfileName);
    NewItemsMembers(stored, ps, A.ProfileName);
    forall n
      ensures Named(ps, A.ProfileName, n) <==> AU.IsRequested(ps, n)
    {
      AppNamesAreRequested(ps, n);
    }
    forall i | 0 <= i < |ps| && ps[i].name !in stored
      ensures ps[i].name in t && AppProfileListed(ps[i], t[ps[i].name])
    {
      assert ps[i] in added;
      var j :| 0 <= j < |added| && added[j] == ps[i];
      AI.InjectedRow(stored, added, t, j);
    }
  }

  lemma AppAppliedAreListed(
    db: Db, key: VersionedKey, row: ApplicationRow, req: ApplicationRequest, normal: ApplicationRequest,
    registries: (NamedKey, Option<NamedKey>), row': ApplicationRow)
    requires I.KindFits(row.kind) && row.defaultProfile != Some("") && normal == A.Normalized(row, req)
    requires A.ApplyChanges(db, key, row, normal, A.ApplicationChanges(row, normal), registries) == Ok(row')
    requires A.FindRegistries(db, key.project, normal) == Ok(registries)
    requires row.defaultProfile.Some? ==> row.defaultProfile.value in row.profiles
    ensures AppUpdateListed(key.project, row, req, row')
  {
    hide A.UpdateProfiles, A.InjectProfiles, NewItems, AppProfilesListed, AppProfilesAdded, AU.ProfilesAlike;
    hide A.ApplicationChanges, AU.IgnoredDiffer;
    AU.ChangesIff(row, req);
    var ch := A.ApplicationChanges(row, normal);
    if ch.profiles {
      AppReconciledAreListed(db, key, row, normal, row'.profiles);
    } else {
      AppAddedAreListed(row, req, row'.profiles);
    }
  }

  /**
   * In every reachable state, an accepted update of an application stores the kind alone if only that
   * differs; else texts, chart, registries and default are the requested ones, and so are profiles and
   * ignored resources, or they stay. Nothing else changes, in any table.
   */
  lemma UpdatedApplicationIsStored(db: Db, active: string, req: ApplicationRequest)
    requires Reachable(db) && Call(db, active, ChangeApplication(req.name, req.version, req)).Ok?
    ensures var project := ActiveProject(active);
            var db' := After(db, active, ChangeApplication(req.name, req.version, req));
            var key := VersionedKey(project, req.name, req.version);
            && key in db.applications && key in db'.applications
            && db' == db.(applications := db.applications[key := db'.applications[key]])
            && var row, row' := db.applications[key], db'.applications[key];
               if OnlyKind(row, req) then row' == row.(kind := KindToDb(req.kind))
               else AppUpdateListed(project, row, req, row')
  {
    hide Reachable, I.Inv, I.ApplicationFits, P.CreatePackage, P.UpdatePackage, A.CreateApplication;
    hide A.DeleteApplication, A.UpdateApplication, A.ValidApplication, A.UpdateRow, AppUpdateListed, OnlyKind;
    var project, db' := ActiveProject(active), After(db, active, ChangeApplication(req.name, req.version, req));
    var key := VersionedKey(project, req.name, req.version);
    Runs.EveryReachableStateFits(db);
    AI.UpdateApplicationParts(db, project, req, db');
    AI.UpdateApplicationKeepsPackages(db, project, req, db');
    AU.FitsAt(db, key);
    UpdatedApplicationRow(db, key, db.applications[key], req, db'.applications[key]);
  }

  lemma UpdatedApplicationRow(
    db: Db, key: VersionedKey, row: ApplicationRow, req: ApplicationRequest, row': ApplicationRow)
    requires I.ApplicationFits(db, key, row)
    requires A.UpdateRow(db, key.project, key, row, A.Normalized(row, req)) == Ok(row')
    ensures if OnlyKind(row, req) then row' == row.(kind := KindToDb(req.kind))
            else AppUpdateListed(key.project, row, req, row')
  {
    hide I.ApplicationFits, A.ApplyChanges, A.ApplicationChanges, A.FindRegistries, AppUpdateListed;
    hide AU.ProfilesAlike, AU.DefaultAlike, AU.TextsAlike;
    AU.RowFits(db, key, row);
    AU.ChangesIff(row, req);
    var normal := A.Normalized(row, req);
    if !OnlyKind(row, req) {
      AppAppliedAreListed(db, key, row, req, normal, A.FindRegistries(db, key.project, normal).value, row');
    }
  }

  // ---------- The row that is named ----------

  /** A call that updates changes the row that it names, or none: a request for another row is refused. */
  lemma OnlyTheNamedRowChanges(db: Db, active: string, op: Op)
    requires Reachable(db)
    requires op.ChangePackage? || op.ChangeApplication? || op.ChangeRegistry? || op.ChangeArtifact?
    ensures var db', project := After(db, active, op), ActiveProject(active);
            match op
            case ChangePackage(name, version, req) =>
              var key := VersionedKey(project, name, version);
              && (name != req.name || version != req.version || name == "" || version == "" ==>
                    Call(db, active, op) == Err(InvalidArgument))
              && db' == db.(packages := db'.packages) && db'.packages.Keys == db.packages.Keys
              && forall k :: k in db.packages && k != key ==> db'.packages[k] == db.packages[k]
            case ChangeApplication(name, version, req) =>
              var key := VersionedKey(project, name, version);
              && (name != req.name || version != req.version || name == "" || version == "" ==>
                    Call(db, active, op) == Err(InvalidArgument))
              && db' == db.(applications := db'.applications) && db'.applications.Keys == db.applications.Keys
              && forall k :: k in db.applications && k != key ==> db'.applications[k] == db.applications[k]
            case ChangeRegistry(name, req) =>
              var key := NamedKey(project, name);
              && (name != req.name || name == "" ==> Call(db, active, op) == Err(InvalidArgument))
              && db' == db.(registries := db'.registries) && db'.registries.Keys == db.registries.Keys
              && forall k :: k in db.registries && k != key ==> db'.registries[k] == db.registries[k]
            case ChangeArtifact(name, req, _) =>
              var key := NamedKey(project, name);
              && (name != req.name || name == "" ==> Call(db, active, op) == Err(InvalidArgument))
              && db' == db.(artifacts := db'.artifacts) && db'.artifacts.Keys == db.artifacts.Keys
              && forall k :: k in db.artifacts && k != key ==> db'.artifacts[k] == db.artifacts[k]
            case _ => true
  {
    hide Reachable, P.CreatePackage, P.UpdatePackage, A.CreateApplication, A.UpdateApplication, A.DeleteApplication;
    hide P.ValidPackage, P.Unambiguous, A.ValidApplication, ValidName, ValidVersion, UpdateListed, AppUpdateListed;
    if Call(db, active, op).Ok? {
      if op.ChangePackage? {
        UpdatedPackageIsStored(db, active, op.package);
      } else if op.ChangeApplication? {
        UpdatedApplicationIsStored(db, active, op.application);
      }
    }
  }
}
