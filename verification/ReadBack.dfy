/**
 * Saving what was read: exactly when updating a deployment package with the message that
 * GetDeploymentPackage returned is accepted and changes nothing.
 */
module ReadBack {
  import opened Prelude
  import opened Text
  import opened Tables
  import opened Diff
  import opened References
  import opened Catalog
  import opened Invariants
  import opened ProfileLinks
  import opened Severing
  import Runs
  import P = Packages
  import A = Applications
  import O = Overwrite

  // ---------- What is read ----------

  const IMPLICIT := "implicit-default"

  /** A package without profiles is shown with one that takes the default profiles of its members. */
  ghost predicate ShowsImplicit(db: Db, row: PackageRow) {
    row.profiles == map[] &&
    exists a :: a in row.applications && a in db.applications && db.applications[a].defaultProfile.Some?
  }

  /** A map that is empty is absent on the wire. */
  ghost predicate ReadProfile(p: DeploymentProfileRequest, row: DeploymentProfileRow, qualified: bool) {
    && p.displayName == row.displayName && p.description == row.description
    && DistinctKeys(P.EntriesOf(p)) && EntryMap(P.EntriesOf(p)) == Compose(row.links, qualified)
    && (p.appProfiles.None? <==> P.EntriesOf(p) == [])
  }

  ghost predicate ReadProfiles(row: PackageRow, req: PackageRequest) {
    && DistinctNames(req.profiles, P.ProfileName)
    && (forall n :: Named(req.profiles, P.ProfileName, n) <==> n in row.profiles)
    && (forall i :: 0 <= i < |req.profiles| && req.profiles[i].name in row.profiles ==>
          ReadProfile(req.profiles[i], row.profiles[req.profiles[i].name], RepeatsName(row.applications)))
    && req.defaultProfile == if row.defaultProfile.Some? then row.defaultProfile.value else ""
  }

  ghost predicate ReadImplicit(req: PackageRequest) {
    && |req.profiles| == 1 && req.defaultProfile == IMPLICIT
    && req.profiles[0].name == IMPLICIT && req.profiles[0].displayName == "Implicit Default"
    && DistinctKeys(P.EntriesOf(req.profiles[0]))
  }

  ghost predicate ReadRest(key: VersionedKey, row: PackageRow, req: PackageRequest) {
    && req.name == key.name && req.version == key.version
    && req.displayName == row.displayName && req.description == row.description && req.kind == KindFromDb(row.kind)
    && req.isDeployed == row.isDeployed && req.isVisible == row.isVisible && req.forbidsMultiple == !row.allowsMultiple
    && req.applications == MapSeq(P.StoredReference, row.applications)
    && req.dependencies == MapSeq(P.StoredDependency, row.dependencies)
    && DistinctKeys(req.defaultNamespaces) && EntryMap(req.defaultNamespaces) == O.ReadAppNamespaces(row.appNamespaces)
    && req.namespaces == MapSeq(ReadNamespace, row.namespaces)
    && req.extensions == MapSeq(ReadExtensionOnWire, row.extensions)
    && req.artifacts == MapSeq(O.ReadArtifact, row.artifacts)
  }

  ghost predicate ReadAs(db: Db, key: VersionedKey, row: PackageRow, req: PackageRequest) {
    ReadRest(key, row, req) && if ShowsImplicit(db, row) then ReadImplicit(req) else ReadProfiles(row, req)
  }

  // ---------- The condition ----------

  /** No column of a user interface without a label is lost. */
  predicate UiReadsBack(row: PackageRow) {
    forall i :: 0 <= i < |row.extensions| ==> row.extensions[i].ui.title != "" || row.extensions[i].ui == P.NO_UI
  }

  /** The read entries resolve to links that are stored, and the display names can be told apart. */
  ghost predicate ProfilesSaveBack(db: Db, row: PackageRow, req: PackageRequest) {
    && DistinctNames(req.profiles, P.LowerDisplay)
    && forall i :: 0 <= i < |req.profiles| ==>
         P.Resolves(db, row.applications, req.profiles[i]) &&
         WantedLinks(db, row.applications, req.profiles[i]) <= StoredLinks(row.profiles, req.profiles[i].name)
  }

  ghost predicate LeavesRow(db: Db, row: PackageRow, req: PackageRequest, ch: P.Changes) {
    && !ShowsImplicit(db, row)
    && (row.isDeployed ==> !ch.Changed())
    && (ch.extensions ==> UiReadsBack(row))
    && (ch.profiles ==> ProfilesSaveBack(db, row, req))
  }

  // ---------- What is found changed ----------

  lemma {:induction false} AllDependenciesStored(stored: seq<Dependency>, refs: seq<Reference>, deps: seq<Dependency>)
    requires forall d :: d in deps ==>
             d in stored && P.NamesApplication(refs, d.name) && P.NamesApplication(refs, d.target)
    ensures P.ScanDependencies(stored, refs, deps) == Ok(false)
  {
    if deps != [] {
      assert deps[0] in deps;
      AllDependenciesStored(stored, refs, deps[1..]);
    }
  }

  lemma ReadDependencies(db: Db, key: VersionedKey, row: PackageRow, req: PackageRequest)
    requires PackageFits(db, key, row) && ReadRest(key, row, req)
    ensures P.DependenciesChanged(row, req) == Ok(false)
  {
    var stored, refs := MapSeq(P.StoredDependency, row.dependencies), req.applications;
    forall a | a in row.applications
      ensures P.NamesApplication(refs, a.name)
    {
      var i :| 0 <= i < |row.applications| && row.applications[i] == a;
      assert refs[i].name == a.name;
    }
    forall d | d in stored
      ensures P.NamesApplication(refs, d.name) && P.NamesApplication(refs, d.target)
    {
      var i :| 0 <= i < |stored| && stored[i] == d;
      assert row.dependencies[i].source in row.applications && row.dependencies[i].target in row.applications;
    }
    AllDependenciesStored(stored, refs, req.dependencies);
  }

  lemma {:induction false} AllNamespacesStored(row: PackageRow, e: Entries)
    requires forall i :: 0 <= i < |e| ==>
               e[i].0 in row.appNamespaces && row.appNamespaces[e[i].0].namespace == e[i].1 &&
               P.LastNamed(row.applications, e[i].0).Some?
    ensures P.ScanNamespaces(row, e) == Ok(false)
  {
    if e != [] {
      AllNamespacesStored(row, e[1..]);
    }
  }

  lemma ReadDefaultNamespaces(db: Db, key: VersionedKey, row: PackageRow, req: PackageRequest)
    requires PackageFits(db, key, row) && ReadRest(key, row, req)
    ensures P.AppNamespacesChanged(row, req) == Ok(false)
  {
    hide EntryMap, P.ScanNamespaces, ProfilesFit, TextsFit, ArtifactsFit, ListsFit;
    var e := req.defaultNamespaces;
    forall i | 0 <= i < |e|
      ensures e[i].0 in row.appNamespaces && row.appNamespaces[e[i].0].namespace == e[i].1
      ensures P.LastNamed(row.applications, e[i].0).Some?
    {
      EntryMapAt(e, i);
      var app := row.appNamespaces[e[i].0].app;
      assert app in row.applications && app.name == e[i].0;
      var j :| 0 <= j < |row.applications| && row.applications[j] == app;
      assert AppName(row.applications[j]) == e[i].0;
    }
    AllNamespacesStored(row, e);
    EntryMapSize(e);
    assert EntryMap(e).Keys == row.appNamespaces.Keys;
    assert |EntryMap(e).Keys| == |EntryMap(e)| && |row.appNamespaces.Keys| == |row.appNamespaces|;
  }

  lemma ReadApplications(row: PackageRow, req: PackageRequest)
    requires req.applications == MapSeq(P.StoredReference, row.applications)
    ensures !P.ApplicationsChanged(row, req)
  {
  }

  /** The parts of the message that always compare alike. */
  lemma ReadFlags(db: Db, key: VersionedKey, row: PackageRow, req: PackageRequest)
    requires PackageFits(db, key, row) && ReadRest(key, row, req)
    ensures P.PackageChanges(row, req).Ok?
    ensures var ch := P.PackageChanges(row, req).value;
            && !ch.kindOrState && !ch.rootRecord && !ch.applications && !ch.dependencies && !ch.defaultNamespaces
            && (ch.profiles <==> P.ProfilesChanged(row, req))
            && (ch.profile <==> DefaultChanged(row.defaultProfile, req.defaultProfile))
            && (!ch.profiles ==> ch.newProfiles == NewItems(row.profiles, req.profiles, P.ProfileName))
  {
    hide P.DependenciesChanged, P.AppNamespacesChanged, P.ApplicationsChanged, P.ProfilesChanged;
    ReadDependencies(db, key, row, req);
    ReadDefaultNamespaces(db, key, row, req);
    ReadApplications(row, req);
  }

  /** Stored profiles are neither dropped nor joined by new ones. */
  lemma ReadProfilesAddNone(row: PackageRow, req: PackageRequest)
    requires ReadProfiles(row, req) && DefaultFits(row.profiles.Keys, row.defaultProfile)
    ensures NewItems(row.profiles, req.profiles, P.ProfileName) == []
    ensures !DefaultChanged(row.defaultProfile, req.defaultProfile) || row.defaultProfile == Some("")
    ensures row.defaultProfile == None ==> req.profiles == []
  {
    forall i | 0 <= i < |req.profiles|
      ensures req.profiles[i].name in row.profiles
    {
      assert P.ProfileName(req.profiles[i]) == req.profiles[i].name;
      assert Named(req.profiles, P.ProfileName, req.profiles[i].name);
    }
    NewProfilesAreTheMissing(row, req);
    if req.profiles != [] {
      assert Named(req.profiles, P.ProfileName, req.profiles[0].name);
    }
  }

  // ---------- What is rewritten ----------

  lemma RemadeNamespaces(row: PackageRow)
    ensures MapSeq(P.MakeNamespace, MapSeq(ReadNamespace, row.namespaces)) == row.namespaces
  {
  }

  lemma RemadeExtensions(row: PackageRow)
    ensures MapSeq(P.MakeExtension, MapSeq(ReadExtensionOnWire, row.extensions)) == row.extensions <==> UiReadsBack(row)
    ensures P.ExtensionsFit(row.extensions) ==>
              P.ExtensionsFit(MapSeq(P.MakeExtension, MapSeq(ReadExtensionOnWire, row.extensions)))
  {
    var remade := MapSeq(P.MakeExtension, MapSeq(ReadExtensionOnWire, row.extensions));
    forall i | 0 <= i < |remade|
      ensures remade[i] == row.extensions[i] <==> row.extensions[i].ui.title != "" || row.extensions[i].ui == P.NO_UI
      ensures remade[i].name == row.extensions[i].name && remade[i].version == row.extensions[i].version
      ensures remade[i].endpoints == row.extensions[i].endpoints
    {
    }
    if remade == row.extensions {
      forall i | 0 <= i < |row.extensions|
        ensures row.extensions[i].ui.title != "" || row.extensions[i].ui == P.NO_UI
      {
        assert remade[i] == row.extensions[i];
      }
    }
  }

  lemma RemadeArtifacts(db: Db, key: VersionedKey, row: PackageRow)
    requires PackageFits(db, key, row)
    ensures P.MakeArtifacts(db, key.project, MapSeq(O.ReadArtifact, row.artifacts)) == Ok(row.artifacts)
  {
    StoredArtifactsExist(db, key, row);
    assert ArtifactsFit(db, key.project, row.artifacts);
    var remade := P.MakeArtifacts(db, key.project, MapSeq(O.ReadArtifact, row.artifacts)).value;
    forall i | 0 <= i < |remade|
      ensures remade[i] == row.artifacts[i]
    {
      assert row.artifacts[i].artifact.project == key.project;
    }
    assert remade == row.artifacts;
  }

  lemma {:induction false} DedupOfKnown<T(!new)>(s: seq<T>, more: seq<T>)
    requires NoDup(s) && forall x :: x in more ==> x in s
    ensures Dedup(s + more) == s
  {
    if more == [] {
      assert s + more == s;
      DedupOfDistinct(s);
    } else {
      var last := |more| - 1;
      DedupOfKnown(s, more[..last]);
      assert (s + more)[..|s + more| - 1] == s + more[..last];
      assert more[last] in more;
    }
  }

  /** Merging a profile with what was read of it leaves it as it is, if that adds no link. */
  lemma MergedWithItself(db: Db, key: VersionedKey, row: PackageRow, req: PackageRequest, i: nat)
    requires PackageFits(db, key, row) && ReadProfiles(row, req) && i < |req.profiles|
    requires P.Resolves(db, row.applications, req.profiles[i])
    requires WantedLinks(db, row.applications, req.profiles[i]) <= StoredLinks(row.profiles, req.profiles[i].name)
    ensures var p := req.profiles[i];
            p.name in row.profiles &&
                P.MergeProfile(db, row.applications, row.profiles[p.name], p) == row.profiles[p.name] &&
            IsTrimmed(p.displayName)
  {
    var p := req.profiles[i];
    assert Named(req.profiles, P.ProfileName, p.name) by { assert P.ProfileName(p) == p.name; }
    var stored := row.profiles[p.name];
    assert LinksFit(db, key.project, stored.links);
    assert DisplayFits(stored.displayName);
    var links := ResolvedLinks(db.applications, row.applications, P.EntriesOf(p));
    forall l | l in links
      ensures l in stored.links
    {
      assert l in Elements(links);
    }
    DedupOfKnown(stored.links, links);
  }

  lemma KeptAsTheyAre(db: Db, key: VersionedKey, row: PackageRow, req: PackageRequest)
    requires PackageFits(db, key, row) && ReadProfiles(row, req) && ProfilesSaveBack(db, row, req)
    ensures forall n :: n in row.profiles ==> P.KeptFits(db, row.applications, req.profiles, n)
    ensures P.KeptProfiles(db, row.applications, row.profiles, req.profiles) == row.profiles
  {
    hide P.MergeProfile, P.Resolves, WantedLinks, PackageFits;
    forall n | n in row.profiles
      ensures P.KeptFits(db, row.applications, req.profiles, n) && P.Requested(req.profiles, n).Some?
      ensures P.MergeProfile(db, row.applications, row.profiles[n], P.Requested(req.profiles, n).value) ==
              row.profiles[n]
    {
      assert Named(req.profiles, P.ProfileName, n);
      var i :| 0 <= i < |req.profiles| && P.ProfileName(req.profiles[i]) == n;
      RequestedIsTheOne(req.profiles, i);
      MergedWithItself(db, key, row, req, i);
    }
  }

  /** Updating the profiles with what was read of them leaves the table exactly under the condition. */
  lemma ProfilesSaveBackIff(db: Db, key: VersionedKey, row: PackageRow, req: PackageRequest)
    requires PackageFits(db, key, row) && ReadProfiles(row, req)
    ensures P.UpdateProfiles(db, row.applications, row.profiles, req.profiles, req.mapOrder) == Ok(row.profiles) <==>
            ProfilesSaveBack(db, row, req)
  {
    hide P.MergeProfile, P.KeptFits, P.InjectProfiles, PackageFits, NewItems, Merged;
    var updated := P.UpdateProfiles(db, row.applications, row.profiles, req.profiles, req.mapOrder);
    if ProfilesSaveBack(db, row, req) {
      KeptAsTheyAre(db, key, row, req);
      AddsNothing(db, key, row, req);
    }
    if updated == Ok(row.profiles) {
      forall i | 0 <= i < |req.profiles|
        ensures P.Resolves(db, row.applications, req.profiles[i])
        ensures WantedLinks(db, row.applications, req.profiles[i]) <= StoredLinks(row.profiles, req.profiles[i].name)
      {
        UpdatedProfilesAreMerged(db, row.applications, row.profiles, req.profiles, req.mapOrder, row.profiles, i);
        MergedIntoStored(db, row.applications, row.profiles, req.profiles[i]);
      }
    }
  }

  lemma AddsNothing(db: Db, key: VersionedKey, row: PackageRow, req: PackageRequest)
    requires PackageFits(db, key, row) && ReadProfiles(row, req)
    ensures P.ProfilesToCreate(row.profiles, req.profiles, req.mapOrder) == []
    ensures P.InjectProfiles(db, row.applications, row.profiles, []) == Ok(row.profiles)
  {
    ReadProfilesAddNone(row, req);
    var none: seq<DeploymentProfileRequest> := [];
    if req.mapOrder != [] {
      assert req.mapOrder[0] in multiset(req.mapOrder);
      assert multiset(req.mapOrder) != multiset(none);
    }
  }

  lemma MergedIntoStored(db: Db, apps: seq<VersionedKey>, profiles: P.ProfileTable, p: DeploymentProfileRequest)
    requires Merged(db, apps, profiles, p, profiles)
    ensures P.Resolves(db, apps, p) && WantedLinks(db, apps, p) <= StoredLinks(profiles, p.name)
  {
  }

  // ---------- The row ----------

  lemma AppliedMembersStay(db: Db, key: VersionedKey, row: PackageRow, req: PackageRequest, ch: P.Changes)
    requires !ch.applications && !ch.dependencies && !ch.defaultNamespaces
    ensures P.ApplyMembers(db, key.project, row, req, ch) ==
            Ok(P.Members(row.applications, row.dependencies, row.appNamespaces))
  {
  }

  lemma AppliedProfilesStayIff(db: Db, key: VersionedKey, row: PackageRow, req: PackageRequest, ch: P.Changes)
    requires PackageFits(db, key, row) && ReadProfiles(row, req) && !ch.applications
    requires ch.profiles <==> P.ProfilesChanged(row, req)
    requires !ch.profiles ==> ch.newProfiles == NewItems(row.profiles, req.profiles, P.ProfileName)
    ensures P.ApplyProfiles(db, row.applications, row, req, ch) == Ok((row.profiles, row.defaultProfile)) <==>
            (ch.profiles ==> ProfilesSaveBack(db, row, req))
  {
    hide P.UpdateProfiles, P.ProfilesChanged, ProfilesSaveBack, NewItems;
    ProfilesSaveBackIff(db, key, row, req);
    ReadProfilesAddNone(row, req);
    AddsNothing(db, key, row, req);
    NamesAreNotEmpty(db, key, row);
  }

  lemma NamesAreNotEmpty(db: Db, key: VersionedKey, row: PackageRow)
    requires PackageFits(db, key, row)
    ensures row.defaultProfile != Some("")
    ensures row.defaultProfile.Some? ==> row.defaultProfile.value in row.profiles
  {
  }

  lemma AppliedExtensionsStayIff(db: Db, key: VersionedKey, row: PackageRow, req: PackageRequest, ch: P.Changes)
    requires PackageFits(db, key, row) && ReadRest(key, row, req)
    ensures P.ApplyExtensions(row, req, ch) == Ok(row.extensions) <==> (ch.extensions ==> UiReadsBack(row))
    ensures P.ApplyExtensions(row, req, ch).Ok?
  {
    RemadeExtensions(row);
    assert ListsFit(row);
  }

  lemma AppliedRowStays(key: VersionedKey, row: PackageRow, req: PackageRequest, ch: P.Changes)
    requires ReadRest(key, row, req) && KindFits(row.kind) && row.displayName != ""
    ensures P.AppliedRow(row, req, ch, P.Members(row.applications, row.dependencies, row.appNamespaces),
                         (row.profiles, row.defaultProfile), row.extensions, row.artifacts) == row
  {
    RemadeNamespaces(row);
  }

  /** Applying the changes leaves the row exactly under the condition. */
  lemma AppliedStaysIff(db: Db, key: VersionedKey, row: PackageRow, req: PackageRequest, ch: P.Changes)
    requires PackageFits(db, key, row) && ReadRest(key, row, req) && ReadProfiles(row, req)
    requires P.PackageChanges(row, req) == Ok(ch)
    ensures P.ApplyChanges(db, key.project, row, req, ch) == Ok(row) <==>
            (ch.extensions ==> UiReadsBack(row)) && (ch.profiles ==> ProfilesSaveBack(db, row, req))
  {
    hide P.ApplyMembers, P.ApplyProfiles, P.ApplyExtensions, P.MakeArtifacts, P.PackageChanges, P.ProfilesChanged;
    hide UiReadsBack, ProfilesSaveBack, ReadProfiles, P.AppliedRow, NewItems;
    ReadFlags(db, key, row, req);
    AppliedMembersStay(db, key, row, req, ch);
    AppliedProfilesStayIff(db, key, row, req, ch);
    AppliedExtensionsStayIff(db, key, row, req, ch);
    RemadeArtifacts(db, key, row);
    AppliedRowStays(key, row, req, ch);
    if P.ApplyChanges(db, key.project, row, req, ch) == Ok(row) {
      O.AppliedParts(db, key.project, row, req, ch, row);
    }
  }

  /** A package without profiles, shown with an implicit one: saving it would store that one. */
  lemma ImplicitIsStored(db: Db, key: VersionedKey, row: PackageRow, req: PackageRequest)
    requires PackageFits(db, key, row) && ReadRest(key, row, req) && ShowsImplicit(db, row) && ReadImplicit(req)
    ensures P.UpdateRow(db, key.project, row, req) != Ok(row)
  {
    hide P.PackageChanges, P.UpdateRow, ReadRest, PackageFits;
    ReadFlags(db, key, row, req);
    NoDefault(db, key, row);
    if P.UpdateRow(db, key.project, row, req) == Ok(row) {
      ProfilesShowRequest(db, key.project, row, req, row, 0);
    }
  }

  lemma NoDefault(db: Db, key: VersionedKey, row: PackageRow)
    requires PackageFits(db, key, row) && row.profiles == map[]
    ensures row.defaultProfile == None
  {
    assert row.profiles.Keys == {};
  }

  lemma RowSavesBackIff(db: Db, key: VersionedKey, row: PackageRow, req: PackageRequest)
    requires PackageFits(db, key, row) && ReadAs(db, key, row, req) && !P.DisplayTaken(db, "", req)
    ensures P.PackageChanges(row, req).Ok?
    ensures P.UpdateRow(db, key.project, row, req) == Ok(row) <==>
            LeavesRow(db, row, req, P.PackageChanges(row, req).value)
  {
    hide P.PackageChanges, P.ApplyChanges, PackageFits, ReadRest, ReadProfiles, ReadImplicit, ShowsImplicit,
         P.DisplayTaken;
    hide UiReadsBack, ProfilesSaveBack;
    ReadFlags(db, key, row, req);
    DeployedIsRead(key, row, req);
    var ch := P.PackageChanges(row, req).value;
    if ShowsImplicit(db, row) {
      ImplicitIsStored(db, key, row, req);
    } else {
      AppliedStaysIff(db, key, row, req, ch);
    }
  }

  lemma DeployedIsRead(key: VersionedKey, row: PackageRow, req: PackageRequest)
    requires ReadRest(key, row, req)
    ensures req.isDeployed == row.isDeployed
  {
  }

  // ---------- The message is admissible ----------

  lemma ReadReferencesAreValid(db: Db, key: VersionedKey, row: PackageRow, req: PackageRequest)
    requires Inv(db) && PackageFits(db, key, row) && ReadRest(key, row, req)
    ensures forall i :: 0 <= i < |req.applications| ==> P.ValidReference(req.applications[i])
    ensures forall i :: 0 <= i < |req.dependencies| ==> P.ValidDependency(req.dependencies[i])
    ensures PlainKeys(row.applications)
  {
    forall i | 0 <= i < |row.applications|
      ensures ValidApplicationName(row.applications[i].name) && ValidVersion(row.applications[i].version)
      ensures ValidName(row.applications[i].name)
      ensures Plain(row.applications[i].name) && Plain(row.applications[i].version)
    {
      assert ApplicationFits(db, row.applications[i], db.applications[row.applications[i]]);
      ValidNamesArePlain(row.applications[i].name);
      ValidNamesArePlain(row.applications[i].version);
    }
    forall i | 0 <= i < |req.dependencies|
      ensures P.ValidDependency(req.dependencies[i])
    {
      assert row.dependencies[i].source in row.applications && row.dependencies[i].target in row.applications;
    }
  }

  lemma ReadListsAreValid(db: Db, key: VersionedKey, row: PackageRow, req: PackageRequest)
    requires PackageFits(db, key, row) && ReadRest(key, row, req)
    ensures forall i :: 0 <= i < |req.extensions| ==> P.ValidExtension(req.extensions[i])
    ensures |req.extensions| <= 100 && |req.artifacts| <= 100
    ensures forall i :: 0 <= i < |req.artifacts| ==> ValidName(req.artifacts[i].name)
    ensures forall i :: 0 <= i < |req.namespaces| ==> ValidName(req.namespaces[i].name)
  {
    hide ValidName, ValidVersion;
    assert ListsFit(row);
    forall i | 0 <= i < |req.extensions|
      ensures P.ValidExtension(req.extensions[i])
    {
      assert ValidName(row.extensions[i].name) && ValidVersion(row.extensions[i].version);
    }
    forall i | 0 <= i < |req.artifacts|
      ensures ValidName(req.artifacts[i].name)
    {
      assert ValidName(row.artifacts[i].artifact.name);
    }
    forall i | 0 <= i < |req.namespaces|
      ensures ValidName(req.namespaces[i].name)
    {
      assert ValidName(row.namespaces[i].name);
    }
  }

  lemma ReadProfilesAreValid(db: Db, key: VersionedKey, row: PackageRow, req: PackageRequest)
    requires PackageFits(db, key, row) && ReadAs(db, key, row, req)
    ensures forall i :: 0 <= i < |req.profiles| ==> P.ValidDeploymentProfile(req.profiles[i])
  {
    forall i | 0 <= i < |req.profiles|
      ensures P.ValidDeploymentProfile(req.profiles[i])
    {
      if !ShowsImplicit(db, row) {
        var p := req.profiles[i];
        assert Named(req.profiles, P.ProfileName, p.name) by { assert P.ProfileName(p) == p.name; }
        assert ReadProfile(p, row.profiles[p.name], RepeatsName(row.applications));
      }
    }
  }

  lemma {:induction false} QualifiedKeys(links: seq<ProfileLink>)
    ensures forall k :: k in Compose(links, true) ==> ':' in k
  {
    if links != [] {
      var last := |links| - 1;
      QualifiedKeys(links[..last]);
      var k := Printed(links[last].app, true);
      assert k[|links[last].app.name|] == ':';
    }
  }

  lemma ReadIsUnambiguous(db: Db, row: PackageRow, req: PackageRequest)
    requires req.applications == MapSeq(P.StoredReference, row.applications) && ReadProfiles(row, req)
    ensures P.Unambiguous(req)
  {
    if RepeatsName(row.applications) {
      forall i | 0 <= i < |req.profiles|
        ensures P.AllQualified(P.EntriesOf(req.profiles[i]))
      {
        var p := req.profiles[i];
        assert Named(req.profiles, P.ProfileName, p.name) by { assert P.ProfileName(p) == p.name; }
        var e := P.EntriesOf(p);
        QualifiedKeys(row.profiles[p.name].links);
        forall j | 0 <= j < |e|
          ensures ':' in e[j].0
        {
          EntryMapAt(e, j);
        }
      }
    } else {
      assert !P.RepeatsReferenceName(req.applications);
    }
  }

  lemma ReadNeedsNoDefault(db: Db, key: VersionedKey, row: PackageRow, req: PackageRequest)
    requires PackageFits(db, key, row) && ReadAs(db, key, row, req)
    ensures !P.NeedsDefault(req) && IsTrimmed(req.displayName)
  {
    assert DisplayFits(row.displayName);
    if !ShowsImplicit(db, row) && req.profiles != [] {
      var p := req.profiles[0];
      assert Named(req.profiles, P.ProfileName, p.name) by { assert P.ProfileName(p) == p.name; }
      NamesAreNotEmpty(db, key, row);
      assert row.profiles.Keys != {};
    }
  }

  lemma ReadIsAdmissible(db: Db, key: VersionedKey, row: PackageRow, req: PackageRequest)
    requires Inv(db) && PackageFits(db, key, row) && ReadAs(db, key, row, req) && !ShowsImplicit(db, row)
    ensures Admissible(ChangePackage(key.name, key.version, req))
  {
    hide Inv, ReadProfiles, ReadImplicit, P.ValidReference, P.ValidDependency, P.ValidDeploymentProfile,
         P.ValidExtension;
    hide P.Unambiguous;
    ReadReferencesAreValid(db, key, row, req);
    ReadListsAreValid(db, key, row, req);
    ReadProfilesAreValid(db, key, row, req);
    ReadIsUnambiguous(db, row, req);
    ValidNamesArePlain(key.name);
    ValidNamesArePlain(key.version);
  }

  // ---------- The theorem ----------

  /**
   * In every reachable state: updating a package with the message that was read of it is accepted and
   * leaves all tables as they are, if and only if no implicit profile was shown, nothing compares as
   * changed while it is deployed, no unlabelled user interface is rewritten, and rewritten profiles
   * resolve to their stored links. The flags are those of the comparison with the message.
   */
  lemma ReadThenUpdateByFlags(db: Db, active: string, key: VersionedKey, req: PackageRequest)
    requires Reachable(db) && key in db.packages && key.project == ActiveProject(active)
    requires ReadAs(db, key, db.packages[key], req)
    ensures P.PackageChanges(db.packages[key], req).Ok?
    ensures Call(db, active, ChangePackage(key.name, key.version, req)) == Ok(db) <==>
            LeavesRow(db, db.packages[key], req, P.PackageChanges(db.packages[key], req).value)
  {
    hide Reachable, Inv, PackageFits, ReadAs, LeavesRow, Admissible, P.PackageChanges, P.UpdateRow, P.DisplayTaken;
    hide P.CreatePackage, A.CreateApplication, A.UpdateApplication, A.DeleteApplication;
    var row := db.packages[key];
    Runs.EveryReachableStateFits(db);
    FitsAt(db, key);
    NothingInTheEmptyProject(db, req);
    RowSavesBackIff(db, key, row, req);
    ReadNeedsNoDefault(db, key, row, req);
    KeyIsRead(db, key, row, req);
    if LeavesRow(db, row, req, P.PackageChanges(row, req).value) {
      NotImplicit(db, row, req, P.PackageChanges(row, req).value);
      ReadIsAdmissible(db, key, row, req);
      assert db.packages[key := row] == db.packages;
    }
    if Call(db, active, ChangePackage(key.name, key.version, req)) == Ok(db) {
      SameRow(db, key, req);
    }
  }

  lemma KeyIsRead(db: Db, key: VersionedKey, row: PackageRow, req: PackageRequest)
    requires ReadAs(db, key, row, req)
    ensures P.PackageKey(key.project, req) == key
  {
  }

  lemma NotImplicit(db: Db, row: PackageRow, req: PackageRequest, ch: P.Changes)
    requires LeavesRow(db, row, req, ch)
    ensures !ShowsImplicit(db, row)
  {
  }

  lemma SameRow(db: Db, key: VersionedKey, req: PackageRequest)
    requires P.PackageKey(key.project, req) == key && P.UpdatePackage(db, key.project, req) == Ok(db)
    ensures key in db.packages && P.UpdateRow(db, key.project, db.packages[key], req) == Ok(db.packages[key])
  {
    hide P.UpdateRow;
    var row' := P.UpdateRow(db, key.project, db.packages[key], req).value;
    assert db.packages[key := row'][key] == row';
  }

  // ---------- Packages of the ordinary kind, and of the other ----------

  /** Every profile links to members only, to each at most once. */
  ghost predicate LinksMembersOnce(row: PackageRow) {
    forall n :: n in row.profiles ==>
      Runs.OnlyMemberLinks(row.applications, row.profiles[n].links) && DistinctApps(row.profiles[n].links)
  }

  /** Entries that spell the map read back resolve to the links. */
  lemma SpelledEntriesResolve(
    applications: map<VersionedKey, ApplicationRow>, apps: seq<VersionedKey>, links: seq<ProfileLink>, e: Entries)
    requires PlainKeys(apps) && OneProject(apps) && DistinctApps(links)
    requires forall j :: 0 <= j < |links| ==>
               links[j].app in apps && links[j].app in applications &&
                   links[j].profile in applications[links[j].app].profiles
    requires DistinctKeys(e) && EntryMap(e) == Compose(links, RepeatsName(apps))
    ensures AllResolve(applications, apps, e)
    ensures Elements(ResolvedLinks(applications, apps, e)) == Elements(links)
  {
    hide Compose, EntryMap, PlainKeys, OneProject, DistinctApps, ResolveEntry, RepeatsName, HasEntryFor;
    LinksReadBack(applications, apps, links, RepeatsName(apps));
    forall l | l in links
      ensures l in ResolvedOf(applications, apps, e)
    {
      var i :| 0 <= i < |links| && links[i] == l;
      EntrySpellsLink(applications, apps, e, EntryMap(e), l);
    }
    forall j | 0 <= j < |e|
      ensures ResolveEntry(applications, apps, e[j]).Some? && ResolveEntry(applications, apps, e[j]).value in links
    {
      EntryMapAt(e, j);
    }
    ResolvedAreLinks(applications, apps, links, e);
  }

  /** The links that entries resolve to, as far as they do. */
  function ResolvedOf(
    applications: map<VersionedKey, ApplicationRow>, apps: seq<VersionedKey>, e: Entries): set<ProfileLink>
  {
    set j | 0 <= j < |e| && ResolveEntry(applications, apps, e[j]).Some? :: ResolveEntry(applications, apps, e[j]).value
  }

  lemma EntrySpellsLink(
    applications: map<VersionedKey, ApplicationRow>, apps: seq<VersionedKey>, e: Entries,
    back: map<string, string>, l: ProfileLink)
    requires DistinctKeys(e) && EntryMap(e) == back && HasEntryFor(applications, apps, back, l)
    ensures l in ResolvedOf(applications, apps, e)
  {
    hide EntryMap, ResolveEntry;
    var k :| k in back && ResolveEntry(applications, apps, (k, back[k])) == Some(l);
    assert k in EntryKeys(e);
    var j :| 0 <= j < |e| && e[j].0 == k;
    EntryMapAt(e, j);
    assert e[j] == (k, back[k]);
  }

  lemma ResolvedAreLinks(
    applications: map<VersionedKey, ApplicationRow>, apps: seq<VersionedKey>, links: seq<ProfileLink>, e: Entries)
    requires forall j :: 0 <= j < |e| ==>
               ResolveEntry(applications, apps, e[j]).Some? && ResolveEntry(applications, apps, e[j]).value in links
    requires forall l :: l in links ==> l in ResolvedOf(applications, apps, e)
    ensures AllResolve(applications, apps, e)
    ensures Elements(ResolvedLinks(applications, apps, e)) == Elements(links)
  {
    hide ResolveEntry;
    var resolved := ResolvedLinks(applications, apps, e);
    forall l | l in resolved
      ensures l in links
    {
      var j :| 0 <= j < |resolved| && resolved[j] == l;
      assert Some(resolved[j]) == ResolveEntry(applications, apps, e[j]);
    }
    forall l | l in links
      ensures l in resolved
    {
      var j :| 0 <= j < |e| && ResolveEntry(applications, apps, e[j]) == Some(l);
      assert resolved[j] == l;
    }
  }

  lemma StoredLinksExist(db: Db, key: VersionedKey, row: PackageRow, n: string)
    requires PackageFits(db, key, row) && n in row.profiles && LinksMembersOnce(row)
    ensures var links := row.profiles[n].links;
            && DistinctApps(links) && OneProject(row.applications)
            && forall j :: 0 <= j < |links| ==>
                 links[j].app in row.applications && links[j].app in db.applications &&
                 links[j].profile in db.applications[links[j].app].profiles
  {
    var links := row.profiles[n].links;
    assert LinksFit(db, key.project, row.profiles[n].links);
    forall j | 0 <= j < |links|
      ensures links[j].app in row.applications && links[j].app in db.applications
      ensures links[j].profile in db.applications[links[j].app].profiles
    {
      assert LinkFits(db, key.project, links[j]);
    }
  }

  lemma ReadEntriesResolve(db: Db, key: VersionedKey, row: PackageRow, req: PackageRequest, i: nat)
    requires PackageFits(db, key, row) && PlainKeys(row.applications) && ReadProfiles(row, req) && i < |req.profiles|
    requires LinksMembersOnce(row)
    ensures P.Resolves(db, row.applications, req.profiles[i])
    ensures WantedLinks(db, row.applications, req.profiles[i]) <= StoredLinks(row.profiles, req.profiles[i].name)
  {
    hide PackageFits, LinksMembersOnce, PlainKeys, OneProject, AllResolve, Compose, EntryMap, DistinctApps, RepeatsName;
    var p := req.profiles[i];
    assert Named(req.profiles, P.ProfileName, p.name) by { assert P.ProfileName(p) == p.name; }
    StoredLinksExist(db, key, row, p.name);
    SpelledEntriesResolve(db.applications, row.applications, row.profiles[p.name].links, P.EntriesOf(p));
  }

  /** A package that is not deployed, with distinct display names and member links only, saves back. */
  lemma OrdinaryPackageSavesBack(db: Db, active: string, key: VersionedKey, req: PackageRequest)
    requires Reachable(db) && key in db.packages && key.project == ActiveProject(active)
    requires ReadAs(db, key, db.packages[key], req) && !ShowsImplicit(db, db.packages[key])
    requires !db.packages[key].isDeployed && UiReadsBack(db.packages[key]) && LinksMembersOnce(db.packages[key])
    requires DistinctNames(req.profiles, P.LowerDisplay)
    ensures Call(db, active, ChangePackage(key.name, key.version, req)) == Ok(db)
  {
    hide Reachable, Inv, PackageFits, Call, P.PackageChanges, LinksMembersOnce, UiReadsBack, ReadProfiles, ReadRest;
    var row := db.packages[key];
    Runs.EveryReachableStateFits(db);
    FitsAt(db, key);
    ReadReferencesAreValid(db, key, row, req);
    forall i | 0 <= i < |req.profiles|
      ensures P.Resolves(db, row.applications, req.profiles[i])
      ensures WantedLinks(db, row.applications, req.profiles[i]) <= StoredLinks(row.profiles, req.profiles[i].name)
    {
      ReadEntriesResolve(db, key, row, req, i);
    }
    ReadThenUpdateByFlags(db, active, key, req);
  }

  lemma {:induction false} BareKeys(links: seq<ProfileLink>)
    requires forall i :: 0 <= i < |links| ==> ':' !in links[i].app.name
    ensures forall k :: k in Compose(links, false) ==> ':' !in k
  {
    if links != [] {
      BareKeys(links[..|links| - 1]);
    }
  }

  lemma QualifiedDiffers(links: seq<ProfileLink>)
    requires links != [] && forall i :: 0 <= i < |links| ==> ':' !in links[i].app.name
    ensures Compose(links, true) != Compose(links, false)
  {
    QualifiedKeys(links);
    BareKeys(links);
    var k := Printed(links[|links| - 1].app, true);
    assert k in Compose(links, true);
  }

  /** With a repeated application name, a profile with links always compares as changed. */
  lemma RepeatedNamesCompareAsChanged(db: Db, key: VersionedKey, row: PackageRow, req: PackageRequest, n: string)
    requires Inv(db) && PackageFits(db, key, row) && ReadProfiles(row, req)
    requires RepeatsName(row.applications) && n in row.profiles && row.profiles[n].links != []
    ensures P.ProfilesChanged(row, req)
  {
    var links := row.profiles[n].links;
    assert LinksFit(db, key.project, links);
    forall i | 0 <= i < |links|
      ensures ':' !in links[i].app.name
    {
      assert LinkFits(db, key.project, links[i]);
      assert ApplicationFits(db, links[i].app, db.applications[links[i].app]);
      ValidNamesArePlain(links[i].app.name);
    }
    QualifiedDiffers(links);
    assert Named(req.profiles, P.ProfileName, n);
    var i :| 0 <= i < |req.profiles| && P.ProfileName(req.profiles[i]) == n;
    assert !IsNew(row.profiles, req.profiles, P.ProfileName, i);
    assert !P.SameProfile(req.profiles[i], row.profiles[n]);
  }
}
