/**
 * Saving what was read, decided on what is stored: exactly when updating a package with the message
 * that was read of it changes nothing, and that updating an application with it never does.
 */
module SaveBack {
  import opened Prelude
  import opened Text
  import opened Tables
  import opened Diff
  import opened References
  import opened Catalog
  import opened Invariants
  import opened ProfileLinks
  import opened Severing
  import opened ReadBack
  import Runs
  import AI = AppInvariants
  import AO = ApplicationOverwrite
  import P = Packages
  import A = Applications
  import O = Overwrite

  // ---------- What compares alike with what was read of it ----------

  /** Every namespace has labels and annotations, and namespaces of one name are equal. */
  predicate NamespacesQuiet(row: PackageRow) {
    && (forall i :: 0 <= i < |row.namespaces| ==>
          row.namespaces[i].labels != map[] && row.namespaces[i].annotations != map[])
    && (forall i, j :: 0 <= i < |row.namespaces| && 0 <= j < |row.namespaces| ==>
          (row.namespaces[i].name == row.namespaces[j].name ==> row.namespaces[i] == row.namespaces[j]))
  }

  /** Every extension has endpoints, and no two have one name. */
  predicate ExtensionsQuiet(row: PackageRow) {
    && (forall i :: 0 <= i < |row.extensions| ==> row.extensions[i].endpoints != [])
    && DistinctNames(row.extensions, P.ExtensionRowName)
  }

  /** References to one artifact have one purpose. */
  predicate ArtifactsQuiet(row: PackageRow) {
    forall i, j :: 0 <= i < |row.artifacts| && 0 <= j < |row.artifacts| &&
                   row.artifacts[i].artifact.name == row.artifacts[j].artifact.name ==>
      row.artifacts[i].purpose == row.artifacts[j].purpose
  }

  /** Every profile has links, and if there are profiles, no application name repeats. */
  ghost predicate ProfilesQuiet(row: PackageRow) {
    && (forall n :: n in row.profiles ==> row.profiles[n].links != [])
    && (row.profiles != map[] ==> !RepeatsName(row.applications))
  }

  ghost predicate Quiet(row: PackageRow) {
    NamespacesQuiet(row) && ExtensionsQuiet(row) && ArtifactsQuiet(row) && ProfilesQuiet(row)
  }

  lemma NamespaceAlike(row: PackageRow, i: nat)
    requires i < |row.namespaces|
    ensures var x := LastWith(row.namespaces, P.NamespaceRowName, row.namespaces[i].name);
            x.Some? && x.value.name == row.namespaces[i].name &&
            (P.SameNamespace(ReadNamespace(row.namespaces[i]), x.value) <==>
             row.namespaces[i].labels != map[] && row.namespaces[i].annotations != map[] &&
                 x.value == row.namespaces[i])
  {
    assert P.NamespaceRowName(row.namespaces[i]) == row.namespaces[i].name;
  }

  lemma NamespacesFlag(row: PackageRow, req: PackageRequest)
    requires req.namespaces == MapSeq(ReadNamespace, row.namespaces)
    ensures P.NamespacesUnchanged(row, req) <==> NamespacesQuiet(row)
  {
    hide ReadNamespace, P.SameNamespace, LastWith;
    var ns := row.namespaces;
    NamedAlike(row, req);
    forall i | 0 <= i < |ns|
      ensures var x := LastWith(ns, P.NamespaceRowName, ns[i].name);
              x.Some? && (P.SameNamespace(req.namespaces[i], x.value) <==>
                          ns[i].labels != map[] && ns[i].annotations != map[] && x.value == ns[i])
    {
      NamespaceAlike(row, i);
    }
    if NamespacesQuiet(row) {
      forall i | 0 <= i < |ns|
        ensures LastWith(ns, P.NamespaceRowName, ns[i].name).value == ns[i]
      {
        NamespaceAlike(row, i);
        var x := LastWith(ns, P.NamespaceRowName, ns[i].name).value;
        var j :| 0 <= j < |ns| && ns[j] == x;
      }
    }
    if P.NamespacesUnchanged(row, req) {
      forall i, j | 0 <= i < |ns| && 0 <= j < |ns| && ns[i].name == ns[j].name
        ensures ns[i] == ns[j]
      {
        assert LastWith(ns, P.NamespaceRowName, ns[i].name).value == ns[i];
        assert LastWith(ns, P.NamespaceRowName, ns[j].name).value == ns[j];
      }
    }
  }

  lemma NamedAlike(row: PackageRow, req: PackageRequest)
    requires req.namespaces == MapSeq(ReadNamespace, row.namespaces)
    ensures |req.namespaces| == |row.namespaces|
    ensures forall i :: 0 <= i < |row.namespaces| ==>
              req.namespaces[i] == ReadNamespace(row.namespaces[i]) &&
              P.NamespaceName(req.namespaces[i]) == row.namespaces[i].name
  {
  }

  lemma ExtensionAlike(row: PackageRow, i: nat)
    requires i < |row.extensions| && P.ExtensionsFit(row.extensions)
    ensures var x := LastWith(row.extensions, P.ExtensionRowName, row.extensions[i].name);
            x.Some? && (P.SameExtension(ReadExtensionOnWire(row.extensions[i]), x.value) <==>
                        row.extensions[i].endpoints != [] && x.value == row.extensions[i])
  {
    assert P.ExtensionRowName(row.extensions[i]) == row.extensions[i].name;
    var x := LastWith(row.extensions, P.ExtensionRowName, row.extensions[i].name);
    var j :| 0 <= j < |row.extensions| && row.extensions[j] == x.value;
    if x.value.version == row.extensions[i].version {
      assert i == j;
    }
  }

  lemma ExtensionsFlag(row: PackageRow, req: PackageRequest)
    requires req.extensions == MapSeq(ReadExtensionOnWire, row.extensions) && P.ExtensionsFit(row.extensions)
    ensures P.ExtensionsUnchanged(row, req) <==> ExtensionsQuiet(row)
  {
    hide ReadExtensionOnWire, P.SameExtension, LastWith, P.ExtensionsFit;
    var xs := row.extensions;
    ExtensionsNamedAlike(row, req);
    forall i | 0 <= i < |xs|
      ensures var x := LastWith(xs, P.ExtensionRowName, xs[i].name);
              x.Some? && (P.SameExtension(req.extensions[i], x.value) <==> xs[i].endpoints != [] && x.value == xs[i])
    {
      ExtensionAlike(row, i);
    }
    if ExtensionsQuiet(row) {
      forall i | 0 <= i < |xs|
        ensures LastWith(xs, P.ExtensionRowName, xs[i].name).value == xs[i]
      {
        OnlyOneWith(xs, i);
      }
    }
    if P.ExtensionsUnchanged(row, req) {
      DistinctExtensionNames(row);
    }
  }

  lemma ExtensionsNamedAlike(row: PackageRow, req: PackageRequest)
    requires req.extensions == MapSeq(ReadExtensionOnWire, row.extensions)
    ensures |req.extensions| == |row.extensions|
    ensures forall i :: 0 <= i < |row.extensions| ==>
              req.extensions[i] == ReadExtensionOnWire(row.extensions[i]) &&
              P.ExtensionName(req.extensions[i]) == row.extensions[i].name
  {
  }

  lemma OnlyOneWith(xs: seq<ExtensionRow>, i: nat)
    requires DistinctNames(xs, P.ExtensionRowName) && i < |xs|
    ensures LastWith(xs, P.ExtensionRowName, xs[i].name) == Some(xs[i])
  {
    assert P.ExtensionRowName(xs[i]) == xs[i].name;
    var x := LastWith(xs, P.ExtensionRowName, xs[i].name);
    var j :| 0 <= j < |xs| && xs[j] == x.value;
    assert i == j;
  }

  lemma DistinctExtensionNames(row: PackageRow)
    requires P.ExtensionsFit(row.extensions)
    requires forall i :: 0 <= i < |row.extensions| ==>
               LastWith(row.extensions, P.ExtensionRowName, row.extensions[i].name) == Some(row.extensions[i])
    ensures DistinctNames(row.extensions, P.ExtensionRowName)
  {
    hide LastWith;
    var xs := row.extensions;
    forall i, j | 0 <= i < j < |xs|
      ensures P.ExtensionRowName(xs[i]) != P.ExtensionRowName(xs[j])
    {
      var a, b := LastWith(xs, P.ExtensionRowName, xs[i].name), LastWith(xs, P.ExtensionRowName, xs[j].name);
      assert a == Some(xs[i]) && b == Some(xs[j]);
    }
  }

  lemma ArtifactAlike(row: PackageRow, i: nat)
    requires i < |row.artifacts|
    ensures var x := LastWith(row.artifacts, P.ArtifactRowName, row.artifacts[i].artifact.name);
            x.Some? && x.value.artifact.name == row.artifacts[i].artifact.name &&
            (P.SameArtifact(O.ReadArtifact(row.artifacts[i]), x.value) <==> x.value.purpose == row.artifacts[i].purpose)
  {
    assert P.ArtifactRowName(row.artifacts[i]) == row.artifacts[i].artifact.name;
  }

  lemma ArtifactsFlag(row: PackageRow, req: PackageRequest)
    requires req.artifacts == MapSeq(O.ReadArtifact, row.artifacts)
    ensures P.ArtifactsUnchanged(row, req) <==> ArtifactsQuiet(row)
  {
    hide P.SameArtifact, LastWith;
    var xs := row.artifacts;
    forall i | 0 <= i < |xs|
      ensures var x := LastWith(xs, P.ArtifactRowName, xs[i].artifact.name);
              x.Some? && x.value.artifact.name == xs[i].artifact.name &&
              (P.SameArtifact(req.artifacts[i], x.value) <==> x.value.purpose == xs[i].purpose)
      ensures P.ArtifactName(req.artifacts[i]) == xs[i].artifact.name
    {
      ArtifactAlike(row, i);
    }
    if ArtifactsQuiet(row) {
      forall i | 0 <= i < |xs|
        ensures LastWith(xs, P.ArtifactRowName, xs[i].artifact.name).value.purpose == xs[i].purpose
      {
        var x := LastWith(xs, P.ArtifactRowName, xs[i].artifact.name).value;
        var j :| 0 <= j < |xs| && xs[j] == x;
      }
    }
  }

  lemma LinkedProfileAlike(row: PackageRow, req: PackageRequest, i: nat)
    requires ReadProfiles(row, req) && i < |req.profiles| && req.profiles[i].name in row.profiles
    requires row.profiles[req.profiles[i].name].links != [] && !RepeatsName(row.applications)
    ensures P.SameProfile(req.profiles[i], row.profiles[req.profiles[i].name])
  {
    var p := req.profiles[i];
    var links := row.profiles[p.name].links;
    assert ReadProfile(p, row.profiles[p.name], false);
    ComposeIsEmpty(links, false);
    KeysAreEntries(P.EntriesOf(p));
  }

  lemma UnlinkedProfileDiffers(row: PackageRow, req: PackageRequest, n: string)
    requires ReadProfiles(row, req) && n in row.profiles && row.profiles[n].links == []
    ensures P.ProfilesChanged(row, req)
  {
    assert Named(req.profiles, P.ProfileName, n);
    var i :| 0 <= i < |req.profiles| && P.ProfileName(req.profiles[i]) == n;
    var p := req.profiles[i];
    assert ReadProfile(p, row.profiles[n], RepeatsName(row.applications));
    var e := P.EntriesOf(p);
    ComposeIsEmpty(row.profiles[n].links, RepeatsName(row.applications));
    KeysAreEntries(e);
    assert !IsNew(row.profiles, req.profiles, P.ProfileName, i);
  }

  lemma ProfilesFlag(db: Db, key: VersionedKey, row: PackageRow, req: PackageRequest)
    requires Inv(db) && PackageFits(db, key, row) && ReadProfiles(row, req)
    ensures P.ProfilesChanged(row, req) <==> !ProfilesQuiet(row)
  {
    hide Inv, PackageFits, P.SameProfile;
    if ProfilesQuiet(row) {
      forall i | 0 <= i < |req.profiles| && !IsNew(row.profiles, req.profiles, P.ProfileName, i)
        ensures P.SameProfile(req.profiles[i], row.profiles[P.ProfileName(req.profiles[i])])
      {
        assert row.profiles != map[];
        LinkedProfileAlike(row, req, i);
      }
    } else if n :| n in row.profiles && row.profiles[n].links == [] {
      UnlinkedProfileDiffers(row, req, n);
    } else {
      var n :| n in row.profiles;
      RepeatedNamesCompareAsChanged(db, key, row, req, n);
    }
  }

  /** The flags of the comparison with the message, by what is stored. */
  lemma FlagsOfStored(db: Db, key: VersionedKey, row: PackageRow, req: PackageRequest)
    requires Inv(db) && PackageFits(db, key, row) && ReadRest(key, row, req) && ReadProfiles(row, req)
    ensures P.PackageChanges(row, req).Ok?
    ensures var ch := P.PackageChanges(row, req).value;
            && (ch.Changed() <==> !Quiet(row)) && !ch.kindOrState
            && (ch.extensions <==> !ExtensionsQuiet(row)) && (ch.profiles <==> !ProfilesQuiet(row))
  {
    hide Inv, ReadProfiles, P.ProfilesChanged, NamespacesQuiet, ExtensionsQuiet, ArtifactsQuiet, ProfilesQuiet;
    hide P.PackageChanges, P.NamespacesUnchanged, P.ExtensionsUnchanged, P.ArtifactsUnchanged;
    ReadFlags(db, key, row, req);
    ListFlags(row, req);
    assert ListsFit(row);
    NamespacesFlag(row, req);
    ExtensionsFlag(row, req);
    ArtifactsFlag(row, req);
    ProfilesFlag(db, key, row, req);
    ReadProfilesAddNone(row, req);
    NamesAreNotEmpty(db, key, row);
  }

  lemma ListFlags(row: PackageRow, req: PackageRequest)
    requires P.PackageChanges(row, req).Ok?
    ensures var ch := P.PackageChanges(row, req).value;
            && (ch.namespaces <==> !P.NamespacesUnchanged(row, req))
            && (ch.extensions <==> !P.ExtensionsUnchanged(row, req))
            && (ch.artifacts <==> !P.ArtifactsUnchanged(row, req))
  {
    hide P.ProfilesChanged, P.NamespacesUnchanged, P.ExtensionsUnchanged, P.ArtifactsUnchanged;
  }

  // ---------- What can be restored ----------

  /** Stored display names differ, ignoring case, and what a profile reads back as resolves to its links. */
  ghost predicate ProfilesRestorable(db: Db, row: PackageRow) {
    && (forall n, m :: n in row.profiles && m in row.profiles && n != m ==>
          ToLower(row.profiles[n].displayName) != ToLower(row.profiles[m].displayName))
    && (forall n :: n in row.profiles ==> LinksRestorable(db, row, row.profiles[n].links))
  }

  ghost predicate LinksRestorable(db: Db, row: PackageRow, links: seq<ProfileLink>) {
    var back := Compose(links, RepeatsName(row.applications));
    forall k :: k in back ==>
      var l := ResolveEntry(db.applications, row.applications, (k, back[k]));
      l.Some? && l.value in links
  }

  lemma DisplaysDistinctIff(row: PackageRow, req: PackageRequest)
    requires ReadProfiles(row, req)
    ensures DistinctNames(req.profiles, P.LowerDisplay) <==>
            forall n, m :: n in row.profiles && m in row.profiles && n != m ==>
              ToLower(row.profiles[n].displayName) != ToLower(row.profiles[m].displayName)
  {
    hide ReadProfile;
    forall i | 0 <= i < |req.profiles|
      ensures req.profiles[i].name in row.profiles
      ensures P.LowerDisplay(req.profiles[i]) == ToLower(row.profiles[req.profiles[i].name].displayName)
    {
      var p := req.profiles[i];
      assert Named(req.profiles, P.ProfileName, p.name) by { assert P.ProfileName(p) == p.name; }
      ShownDisplay(p, row.profiles[p.name], RepeatsName(row.applications));
    }
    if DistinctNames(req.profiles, P.LowerDisplay) {
      forall n, m | n in row.profiles && m in row.profiles && n != m
        ensures ToLower(row.profiles[n].displayName) != ToLower(row.profiles[m].displayName)
      {
        assert Named(req.profiles, P.ProfileName, n) && Named(req.profiles, P.ProfileName, m);
        var i :| 0 <= i < |req.profiles| && P.ProfileName(req.profiles[i]) == n;
        var j :| 0 <= j < |req.profiles| && P.ProfileName(req.profiles[j]) == m;
        var a, b := if i < j then i else j, if i < j then j else i;
        assert P.LowerDisplay(req.profiles[a]) != P.LowerDisplay(req.profiles[b]);
      }
    } else {
      var i, j :| 0 <= i < j < |req.profiles| && P.LowerDisplay(req.profiles[i]) == P.LowerDisplay(req.profiles[j]);
      assert P.ProfileName(req.profiles[i]) != P.ProfileName(req.profiles[j]);
    }
  }

  lemma ShownDisplay(p: DeploymentProfileRequest, row: DeploymentProfileRow, qualified: bool)
    requires ReadProfile(p, row, qualified)
    ensures p.displayName == row.displayName
  {
  }

  lemma LinksRestorableIff(db: Db, row: PackageRow, p: DeploymentProfileRequest, links: seq<ProfileLink>)
    requires DistinctKeys(P.EntriesOf(p)) && EntryMap(P.EntriesOf(p)) == Compose(links, RepeatsName(row.applications))
    ensures LinksRestorable(db, row, links) <==>
            P.Resolves(db, row.applications, p) && WantedLinks(db, row.applications, p) <= Elements(links)
  {
    hide Compose, EntryMap, RepeatsName, ResolveEntry;
    var e, back := P.EntriesOf(p), Compose(links, RepeatsName(row.applications));
    forall j | 0 <= j < |e|
      ensures e[j].0 in back && e[j] == (e[j].0, back[e[j].0])
    {
      EntryMapAt(e, j);
    }
    forall k | k in back
      ensures exists j :: 0 <= j < |e| && e[j].0 == k
    {
      assert k in EntryKeys(e);
    }
    if LinksRestorable(db, row, links) {
      RestoredLinks(db, row, p, links);
    } else {
      var k :| k in back &&
          !(var l := ResolveEntry(db.applications, row.applications, (k, back[k])); l.Some? && l.value in links);
      var j :| 0 <= j < |e| && e[j].0 == k;
      assert e[j] == (k, back[k]);
      UnrestoredLink(db, row, p, links, j);
    }
  }

  lemma RestoredLinks(db: Db, row: PackageRow, p: DeploymentProfileRequest, links: seq<ProfileLink>)
    requires forall j :: 0 <= j < |P.EntriesOf(p)| ==>
               var l := ResolveEntry(db.applications, row.applications, P.EntriesOf(p)[j]);
               l.Some? && l.value in links
    ensures P.Resolves(db, row.applications, p) && WantedLinks(db, row.applications, p) <= Elements(links)
  {
    hide ResolveEntry;
    var resolved := ResolvedLinks(db.applications, row.applications, P.EntriesOf(p));
    forall l | l in resolved
      ensures l in links
    {
      var j :| 0 <= j < |resolved| && resolved[j] == l;
      assert Some(resolved[j]) == ResolveEntry(db.applications, row.applications, P.EntriesOf(p)[j]);
    }
  }

  lemma UnrestoredLink(db: Db, row: PackageRow, p: DeploymentProfileRequest, links: seq<ProfileLink>, j: nat)
    requires j < |P.EntriesOf(p)|
    requires var l := ResolveEntry(db.applications, row.applications, P.EntriesOf(p)[j]);
             !(l.Some? && l.value in links)
    ensures !(P.Resolves(db, row.applications, p) && WantedLinks(db, row.applications, p) <= Elements(links))
  {
    hide ResolveEntry;
    if P.Resolves(db, row.applications, p) {
      var resolved := ResolvedLinks(db.applications, row.applications, P.EntriesOf(p));
      assert Some(resolved[j]) == ResolveEntry(db.applications, row.applications, P.EntriesOf(p)[j]);
      assert resolved[j] in Elements(resolved);
      assert resolved[j] !in Elements(links);
    }
  }

  lemma RestorableIff(db: Db, row: PackageRow, req: PackageRequest)
    requires ReadProfiles(row, req)
    ensures ProfilesSaveBack(db, row, req) <==> ProfilesRestorable(db, row)
  {
    hide LinksRestorable, P.Resolves, WantedLinks;
    DisplaysDistinctIff(row, req);
    forall i | 0 <= i < |req.profiles|
      ensures req.profiles[i].name in row.profiles
      ensures LinksRestorable(db, row, row.profiles[req.profiles[i].name].links) <==>
              P.Resolves(db, row.applications, req.profiles[i]) &&
              WantedLinks(db, row.applications, req.profiles[i]) <= StoredLinks(row.profiles, req.profiles[i].name)
    {
      var p := req.profiles[i];
      assert Named(req.profiles, P.ProfileName, p.name) by { assert P.ProfileName(p) == p.name; }
      LinksRestorableIff(db, row, p, row.profiles[p.name].links);
    }
    if ProfilesSaveBack(db, row, req) {
      forall n | n in row.profiles
        ensures LinksRestorable(db, row, row.profiles[n].links)
      {
        assert Named(req.profiles, P.ProfileName, n);
        var i :| 0 <= i < |req.profiles| && P.ProfileName(req.profiles[i]) == n;
      }
    }
  }

  // ---------- Deployment packages ----------

  /**
   * What is stored can be saved back: no implicit profile is shown; a deployed package compares alike
   * in every part; extensions that do not have no unlabelled user interface; profiles that do not can
   * be restored.
   */
  ghost predicate SavesBack(db: Db, row: PackageRow) {
    && !ShowsImplicit(db, row)
    && (row.isDeployed ==> Quiet(row))
    && (!ExtensionsQuiet(row) ==> UiReadsBack(row))
    && (!ProfilesQuiet(row) ==> ProfilesRestorable(db, row))
  }

  lemma SavesBackByFlags(db: Db, key: VersionedKey, row: PackageRow, req: PackageRequest)
    requires Inv(db) && PackageFits(db, key, row) && ReadAs(db, key, row, req)
    ensures P.PackageChanges(row, req).Ok?
    ensures LeavesRow(db, row, req, P.PackageChanges(row, req).value) <==> SavesBack(db, row)
  {
    hide Inv, PackageFits, ReadRest, ReadProfiles, Quiet, ExtensionsQuiet, ProfilesQuiet, P.PackageChanges;
    hide ProfilesSaveBack, ProfilesRestorable, UiReadsBack, ShowsImplicit, ReadImplicit;
    ReadFlags(db, key, row, req);
    if !ShowsImplicit(db, row) {
      FlagsOfStored(db, key, row, req);
      RestorableIff(db, row, req);
    }
  }

  /**
   * In every reachable state: updating a package with the message that was read of it is accepted and
   * leaves all tables as they are, if and only if what is stored can be saved back.
   */
  lemma ReadThenUpdateIff(db: Db, active: string, key: VersionedKey, req: PackageRequest)
    requires Reachable(db) && key in db.packages && key.project == ActiveProject(active)
    requires ReadAs(db, key, db.packages[key], req)
    ensures Call(db, active, ChangePackage(key.name, key.version, req)) == Ok(db) <==> SavesBack(db, db.packages[key])
  {
    hide Reachable, Inv, PackageFits, Call, ReadAs, SavesBack, LeavesRow, P.PackageChanges;
    Runs.EveryReachableStateFits(db);
    FitsAt(db, key);
    SavesBackByFlags(db, key, db.packages[key], req);
    ReadThenUpdateByFlags(db, active, key, req);
  }

  lemma DeployedRow(db: Db, key: VersionedKey, row: PackageRow, req: PackageRequest)
    requires Inv(db) && PackageFits(db, key, row) && ReadRest(key, row, req) && ReadProfiles(row, req) && row.isDeployed
    ensures !Quiet(row) ==> P.UpdateRow(db, key.project, row, req) == Err(FailedPrecondition)
  {
    hide Inv, PackageFits, ReadProfiles, Quiet, ExtensionsQuiet, ProfilesQuiet, P.PackageChanges, P.ApplyChanges;
    FlagsOfStored(db, key, row, req);
  }

  /** A deployed package with stored profiles: what was read of it is saved back, or refused as a change. */
  lemma DeployedSavesBackIff(db: Db, active: string, key: VersionedKey, req: PackageRequest)
    requires Reachable(db) && key in db.packages && key.project == ActiveProject(active)
    requires ReadAs(db, key, db.packages[key], req) && db.packages[key].isDeployed
    requires !ShowsImplicit(db, db.packages[key])
    ensures Call(db, active, ChangePackage(key.name, key.version, req)) ==
            if Quiet(db.packages[key]) then Ok(db) else Err(FailedPrecondition)
  {
    hide Reachable, Inv, PackageFits, ReadRest, ReadProfiles, Quiet, ShowsImplicit, Admissible, P.UpdateRow;
    hide ExtensionsQuiet, ProfilesQuiet, ProfilesRestorable, UiReadsBack;
    hide P.CreatePackage, A.CreateApplication, A.UpdateApplication, A.DeleteApplication;
    var row := db.packages[key];
    Runs.EveryReachableStateFits(db);
    FitsAt(db, key);
    ReadThenUpdateIff(db, active, key, req);
    QuietParts(row);
    ReadIsAdmissible(db, key, row, req);
    ReadNeedsNoDefault(db, key, row, req);
    KeyIsRead(db, key, row, req);
    DeployedRow(db, key, row, req);
  }

  lemma QuietParts(row: PackageRow)
    ensures Quiet(row) ==> ExtensionsQuiet(row) && ProfilesQuiet(row)
  {
  }

  /** So a deployed package with a repeated application name and a profile is always refused. */
  lemma DeployedWithRepeatedNamesIsRejected(db: Db, active: string, key: VersionedKey, req: PackageRequest)
    requires Reachable(db) && key in db.packages && key.project == ActiveProject(active)
    requires ReadAs(db, key, db.packages[key], req) && db.packages[key].isDeployed
    requires RepeatsName(db.packages[key].applications) && db.packages[key].profiles != map[]
    ensures Call(db, active, ChangePackage(key.name, key.version, req)) == Err(FailedPrecondition)
  {
    hide Reachable, Call, ReadAs;
    DeployedSavesBackIff(db, active, key, req);
  }

  // ---------- Applications ----------

  ghost predicate ReadAppProfile(p: ProfileRequest, row: ProfileRow) {
    p.displayName == row.displayName && p.description == row.description && p.chartValues == row.chartValues &&
    p.templates == row.templates
  }

  /** The message that GetApplication returns. */
  ghost predicate ReadAsApplication(key: VersionedKey, row: ApplicationRow, req: ApplicationRequest) {
    && req.name == key.name && req.version == key.version
    && req.displayName == row.displayName && req.description == row.description && req.kind == KindFromDb(row.kind)
    && req.chartName == row.chartName && req.chartVersion == row.chartVersion
    && req.helmRegistry == row.helmRegistry.name
    && req.imageRegistry == (if row.imageRegistry.Some? then row.imageRegistry.value.name else "")
    && DistinctNames(req.profiles, A.ProfileName)
    && (forall n :: Named(req.profiles, A.ProfileName, n) <==> n in row.profiles)
    && (forall i :: 0 <= i < |req.profiles| && req.profiles[i].name in row.profiles ==>
          ReadAppProfile(req.profiles[i], row.profiles[req.profiles[i].name]))
    && req.defaultProfile == (if row.defaultProfile.Some? then row.defaultProfile.value else "")
    && req.ignored == row.ignored
  }

  lemma TemplatesCompareAlike(ts: seq<Template>)
    requires DistinctNames(ts, A.TemplateName)
    ensures A.SameTemplates(ts, ts)
  {
    forall i | 0 <= i < |ts|
      ensures LastWith(ts, A.TemplateName, A.TemplateName(ts[i])) == Some(ts[i])
    {
      var x := LastWith(ts, A.TemplateName, A.TemplateName(ts[i]));
      var j :| 0 <= j < |ts| && ts[j] == x.value;
      assert i == j;
    }
  }

  lemma ReadAppProfilesAlike(db: Db, key: VersionedKey, row: ApplicationRow, req: ApplicationRequest)
    requires ApplicationFits(db, key, row) && ReadAsApplication(key, row, req)
    ensures !A.ProfilesChanged(row, req) && NewItems(row.profiles, req.profiles, A.ProfileName) == []
    ensures AI.ValidNames(req.profiles)
  {
    hide A.SameTemplates, ValidName, ValidApplicationName, ValidVersion, HasRegistry;
    forall i | 0 <= i < |req.profiles|
      ensures req.profiles[i].name in row.profiles && ValidName(req.profiles[i].name)
      ensures A.SameProfile(req.profiles[i], row.profiles[req.profiles[i].name])
    {
      var p := req.profiles[i];
      assert Named(req.profiles, A.ProfileName, p.name) by { assert A.ProfileName(p) == p.name; }
      assert A.TemplatesFit(row.profiles[p.name].templates);
      TemplatesCompareAlike(row.profiles[p.name].templates);
    }
    AO.NewProfilesAreTheMissing(row, req);
  }

  lemma ReadRegistries(db: Db, key: VersionedKey, row: ApplicationRow, req: ApplicationRequest)
    requires Inv(db) && ApplicationFits(db, key, row) && ReadAsApplication(key, row, req)
    ensures A.FindRegistries(db, key.project, req) == Ok((row.helmRegistry, row.imageRegistry))
  {
    if row.imageRegistry.Some? {
      assert RegistryFits(row.imageRegistry.value, db.registries[row.imageRegistry.value]);
      ValidNamesArePlain(row.imageRegistry.value.name);
    }
  }

  lemma NamedDefault(db: Db, key: VersionedKey, row: ApplicationRow)
    requires ApplicationFits(db, key, row)
    ensures row.defaultProfile != Some("")
    ensures row.profiles != map[] ==> row.defaultProfile.Some?
  {
    if row.profiles != map[] {
      assert row.profiles.Keys != {};
    }
  }

  lemma ReadRowStays(db: Db, key: VersionedKey, row: ApplicationRow, req: ApplicationRequest)
    requires Inv(db) && ApplicationFits(db, key, row) && ReadAsApplication(key, row, req)
    requires !A.DisplayTaken(db, "", A.Normalized(row, req))
    ensures A.Normalized(row, req) == req && A.UpdateRow(db, key.project, key, row, req) == Ok(row)
  {
    hide Inv, A.ProfilesChanged, A.FindRegistries, A.DisplayTaken, NewItems, A.SameProfile, ProfileTableFits;
    ReadAppProfilesAlike(db, key, row, req);
    ReadRegistries(db, key, row, req);
    NamedDefault(db, key, row);
    assert A.InjectProfiles(row.profiles, []) == Ok(row.profiles);
  }

  lemma ReadApplicationIsAdmissible(db: Db, key: VersionedKey, row: ApplicationRow, req: ApplicationRequest)
    requires ApplicationFits(db, key, row) && ReadAsApplication(key, row, req)
    ensures Admissible(ChangeApplication(key.name, key.version, req))
    ensures !A.NeedsDefault(req) && IsTrimmed(req.displayName) && A.ApplicationKey(key.project, req) == key
  {
    hide P.ValidPackage, P.Unambiguous;
    ReadAppProfilesAlike(db, key, row, req);
    NamedDefault(db, key, row);
    ValidNamesArePlain(key.name);
    ValidNamesArePlain(key.version);
    if req.profiles != [] {
      assert A.ProfileName(req.profiles[0]) == req.profiles[0].name;
      assert Named(req.profiles, A.ProfileName, req.profiles[0].name);
    }
  }

  /** In every reachable state: updating an application with the message that was read of it changes nothing. */
  lemma ReadThenUpdateApplication(db: Db, active: string, key: VersionedKey, req: ApplicationRequest)
    requires Reachable(db) && key in db.applications && key.project == ActiveProject(active)
    requires ReadAsApplication(key, db.applications[key], req)
    ensures Call(db, active, ChangeApplication(key.name, key.version, req)) == Ok(db)
  {
    hide Reachable, Inv, ApplicationFits, ReadAsApplication, Admissible, A.UpdateRow, A.DisplayTaken, A.CascadeProfiles;
    hide P.CreatePackage, P.UpdatePackage, A.CreateApplication, A.DeleteApplication;
    var row := db.applications[key];
    Runs.EveryReachableStateFits(db);
    ApplicationFitsAt(db, key);
    NoApplicationInTheEmptyProject(db, A.Normalized(row, req));
    ReadRowStays(db, key, row, req);
    ReadApplicationIsAdmissible(db, key, row, req);
    AI.CascadeOfUnlinked(db, key, {});
    assert row.profiles.Keys - row.profiles.Keys == {};
    assert db.applications[key := row] == db.applications;
  }

  lemma ApplicationFitsAt(db: Db, key: VersionedKey)
    requires Inv(db) && key in db.applications
    ensures ApplicationFits(db, key, db.applications[key])
  {
  }

  lemma NoApplicationInTheEmptyProject(db: Db, req: ApplicationRequest)
    requires Inv(db)
    ensures !A.DisplayTaken(db, "", req)
  {
    forall k | k in db.applications
      ensures k.project != ""
    {
      assert ApplicationFits(db, k, db.applications[k]);
    }
  }
}
