/**
 * When a request for a package is found to differ from what is stored, part by part, in terms of the
 * stored row and the request alone.
 */
module Comparisons {
  import opened Prelude
  import opened Text
  import opened Tables
  import opened Diff
  import opened References
  import opened Invariants
  import opened Conditions
  import opened Acceptance
  import P = Packages
  import O = Overwrite

  // ---------- The parts ----------

  predicate RootAlike(row: PackageRow, req: PackageRequest) {
    row.displayName == req.displayName && row.description == req.description && row.isVisible == req.isVisible &&
    row.allowsMultiple != req.forbidsMultiple
  }

  /** As many references as members, each to one of them. */
  predicate MembersAlike(project: string, row: PackageRow, req: PackageRequest) {
    |row.applications| == |req.applications| &&
    forall i :: 0 <= i < |req.applications| ==> KeyOf(project, req.applications[i]) in row.applications
  }

  predicate DefaultAlike(row: PackageRow, req: PackageRequest) {
    req.defaultProfile == if row.defaultProfile.Some? then row.defaultProfile.value else ""
  }

  /** The last link to an application of the name is to the profile. */
  predicate LastLinkTo(links: seq<ProfileLink>, name: string, profile: string) {
    exists i :: 0 <= i < |links| && links[i].app.name == name && links[i].profile == profile &&
                forall l :: i < l < |links| ==> links[l].app.name != name
  }

  /** The entries, with bare names, are those of the links, and there is one for each application name. */
  ghost predicate EntriesShow(e: Entries, links: seq<ProfileLink>) {
    && (forall i :: 0 <= i < |e| ==> LastLinkTo(links, e[i].0, e[i].1))
    && (forall i :: 0 <= i < |links| ==> HasKey(e, links[i].app.name))
  }

  predicate HasKey(e: Entries, k: string) {
    exists i :: 0 <= i < |e| && e[i].0 == k
  }

  ghost predicate ProfileAlike(p: DeploymentProfileRequest, row: DeploymentProfileRow) {
    p.displayName == row.displayName && p.description == row.description && p.appProfiles.Some? &&
    EntriesShow(p.appProfiles.value, row.links)
  }

  /** The first profile that is requested under the name of a stored one is the same. */
  ghost predicate ProfilesAlike(row: PackageRow, req: PackageRequest) {
    forall n :: n in row.profiles ==> IsKeptAlike(row, req, n)
  }

  ghost predicate IsKeptAlike(row: PackageRow, req: PackageRequest, n: string)
    requires n in row.profiles
  {
    exists i :: 0 <= i < |req.profiles| && req.profiles[i].name == n &&
                (forall j :: 0 <= j < i ==> req.profiles[j].name != n) && ProfileAlike(req.profiles[i], row.profiles[n])
  }

  predicate IsStored(deps: seq<DependencyRow>, d: Dependency) {
    exists i :: 0 <= i < |deps| && deps[i].source.name == d.name && deps[i].target.name == d.target
  }

  predicate EndsListed(refs: seq<Reference>, d: Dependency) { Lists(refs, d.name) && Lists(refs, d.target) }

  /** More or fewer dependencies, or one that is not stored; before it, all are between listed applications. */
  ghost predicate DependenciesDiffer(row: PackageRow, req: PackageRequest) {
    || |row.dependencies| != |req.dependencies|
    || NewDependency(row.dependencies, req.applications, req.dependencies)
  }

  ghost predicate NewDependency(stored: seq<DependencyRow>, refs: seq<Reference>, deps: seq<Dependency>) {
    exists i :: 0 <= i < |deps| && !IsStored(stored, deps[i]) && forall j :: 0 <= j < i ==> EndsListed(refs, deps[j])
  }

  /** A stored dependency is requested between applications that are not both listed; before it, all are stored. */
  ghost predicate DependenciesClash(row: PackageRow, req: PackageRequest) {
    && |row.dependencies| == |req.dependencies|
    && DanglingDependency(row.dependencies, req.applications, req.dependencies)
  }

  ghost predicate DanglingDependency(stored: seq<DependencyRow>, refs: seq<Reference>, deps: seq<Dependency>) {
    exists i :: 0 <= i < |deps| && IsStored(stored, deps[i]) && !EndsListed(refs, deps[i]) &&
                forall j :: 0 <= j < i ==> IsStored(stored, deps[j])
  }

  predicate DefaultsDiffer(row: PackageRow, req: PackageRequest) {
    |row.appNamespaces| != |req.defaultNamespaces|
  }

  /** As many default namespaces as stored, but not the same. */
  predicate DefaultsClash(row: PackageRow, req: PackageRequest) {
    |row.appNamespaces| == |req.defaultNamespaces| &&
    exists i :: 0 <= i < |req.defaultNamespaces| && !IsDefault(row, req.defaultNamespaces[i])
  }

  predicate IsDefault(row: PackageRow, e: (string, string)) {
    e.0 in row.appNamespaces && row.appNamespaces[e.0].namespace == e.1
  }

  predicate NamespaceAlike(n: NamespaceRequest, row: NamespaceRow) {
    n.labels == Some(row.labels) && n.annotations == Some(row.annotations)
  }

  ghost predicate NamespacesAlike(row: PackageRow, req: PackageRequest) {
    HeldAlike(row.namespaces, P.NamespaceRowName, req.namespaces, P.NamespaceName, NamespaceAlike)
  }

  /** Without a label, a stored user interface is read as none. */
  predicate ExtensionAlike(e: ExtensionRequest, row: ExtensionRow) {
    && e.version == row.version && e.name == row.name && e.displayName == row.displayName
    && e.description == row.description && e.endpoints == Some(row.endpoints)
    && (if row.ui.title == "" then e.ui.None? else e.ui == Some(row.ui))
  }

  ghost predicate ExtensionsAlike(row: PackageRow, req: PackageRequest) {
    HeldAlike(row.extensions, P.ExtensionRowName, req.extensions, P.ExtensionName, ExtensionAlike)
  }

  predicate ArtifactAlike(a: ArtifactReference, row: ArtifactReferenceRow) {
    a.purpose == row.purpose && a.name == row.artifact.name
  }

  ghost predicate ArtifactsAlike(row: PackageRow, req: PackageRequest) {
    HeldAlike(row.artifacts, P.ArtifactRowName, req.artifacts, P.ArtifactName, ArtifactAlike)
  }

  // ---------- All parts ----------

  /** The stored kind is not named, or the state differs. */
  predicate KindOrStateDiffers(row: PackageRow, req: PackageRequest) {
    req.kind == Unspecified || KindToDb(req.kind) != row.kind || req.isDeployed != row.isDeployed
  }

  ghost predicate PartsDiffer(project: string, row: PackageRow, req: PackageRequest) {
    !RootAlike(row, req) || !MembersAlike(project, row, req) || !ProfilesAlike(row, req) || !DefaultAlike(row, req) ||
    DependenciesDiffer(row, req) || DefaultsDiffer(row, req) || !NamespacesAlike(row, req) ||
    !ExtensionsAlike(row, req) || !ArtifactsAlike(row, req)
  }

  /** The comparison itself rejects the request. */
  ghost predicate Clashes(row: PackageRow, req: PackageRequest) {
    DependenciesClash(row, req) || DefaultsClash(row, req)
  }

  // ---------- Proofs ----------

  lemma MembersIff(project: string, row: PackageRow, req: PackageRequest)
    requires forall i :: 0 <= i < |row.applications| ==> row.applications[i].project == project
    ensures P.ApplicationsChanged(row, req) <==> !MembersAlike(project, row, req)
  {
    var stored := MapSeq(P.StoredReference, row.applications);
    forall r: Reference
      ensures r in stored <==> KeyOf(project, r) in row.applications
    {
      if r in stored {
        var i :| 0 <= i < |stored| && stored[i] == r;
        assert row.applications[i] == KeyOf(project, r);
      }
      if KeyOf(project, r) in row.applications {
        var i :| 0 <= i < |row.applications| && row.applications[i] == KeyOf(project, r);
        assert stored[i] == r;
      }
    }
  }

  lemma {:induction false} ComposeIff(links: seq<ProfileLink>, name: string, profile: string)
    ensures var m := Compose(links, false);
            (name in m && m[name] == profile) <==> LastLinkTo(links, name, profile)
    ensures name in Compose(links, false) <==> exists i :: 0 <= i < |links| && links[i].app.name == name
  {
    if links != [] {
      var last := |links| - 1;
      var before := links[..last];
      ComposeIff(before, name, profile);
      if name == links[last].app.name {
        if links[last].profile == profile {
          assert LastLinkTo(links, name, profile);
        }
        if LastLinkTo(links, name, profile) {
          var i :| 0 <= i < |links| && links[i].app.name == name && links[i].profile == profile &&
              forall l :: i < l < |links| ==> links[l].app.name != name;
          assert i == last;
        }
      } else {
        LastLinkStep(links, name, profile);
        if i :| 0 <= i < |links| && links[i].app.name == name {
          assert before[i].app.name == name;
        }
      }
    }
  }

  lemma LastLinkStep(links: seq<ProfileLink>, name: string, profile: string)
    requires links != [] && links[|links| - 1].app.name != name
    ensures LastLinkTo(links, name, profile) <==> LastLinkTo(links[..|links| - 1], name, profile)
  {
    var before := links[..|links| - 1];
    if LastLinkTo(links, name, profile) {
      var i :| 0 <= i < |links| && links[i].app.name == name && links[i].profile == profile &&
          forall l :: i < l < |links| ==> links[l].app.name != name;
      assert before[i] == links[i] && forall l :: i < l < |before| ==> before[l].app.name != name;
    }
    if LastLinkTo(before, name, profile) {
      var i :| 0 <= i < |before| && before[i].app.name == name && before[i].profile == profile &&
          forall l :: i < l < |before| ==> before[l].app.name != name;
      assert forall l :: i < l < |links| ==> l == |before| || links[l] == before[l];
      assert links[i] == before[i];
    }
  }

  lemma EntriesShowIff(e: Entries, links: seq<ProfileLink>)
    requires DistinctKeys(e)
    ensures EntryMap(e) == Compose(links, false) <==> EntriesShow(e, links)
  {
    hide EntryMap, Compose, LastLinkTo;
    var wanted, m := EntryMap(e), Compose(links, false);
    forall i | 0 <= i < |e|
      ensures e[i].0 in wanted && wanted[e[i].0] == e[i].1
      ensures (e[i].0 in m && m[e[i].0] == e[i].1) <==> LastLinkTo(links, e[i].0, e[i].1)
    {
      EntryMapAt(e, i);
      ComposeIff(links, e[i].0, e[i].1);
    }
    forall n
      ensures n in m <==> exists i :: 0 <= i < |links| && links[i].app.name == n
      ensures n in wanted <==> HasKey(e, n)
    {
      ComposeIff(links, n, "");
      assert n in wanted <==> n in EntryKeys(e);
    }
    if wanted == m {
      forall i | 0 <= i < |links|
        ensures HasKey(e, links[i].app.name)
      {
        assert links[i].app.name in wanted;
      }
      forall i | 0 <= i < |e|
        ensures LastLinkTo(links, e[i].0, e[i].1)
      {
        assert e[i].0 in m && m[e[i].0] == wanted[e[i].0];
      }
      assert EntriesShow(e, links);
    }
    if EntriesShow(e, links) {
      forall n | n in wanted
        ensures n in m && m[n] == wanted[n]
      {
        var j :| 0 <= j < |e| && e[j].0 == n;
      }
      forall n | n in m
        ensures n in wanted
      {
        var i :| 0 <= i < |links| && links[i].app.name == n;
      }
      assert wanted.Keys == m.Keys;
      assert wanted == m;
    }
  }

  lemma ProfileAlikeIff(p: DeploymentProfileRequest, row: DeploymentProfileRow)
    requires DistinctKeys(P.EntriesOf(p))
    ensures P.SameProfile(p, row) <==> ProfileAlike(p, row)
  {
    if p.appProfiles.Some? {
      EntriesShowIff(p.appProfiles.value, row.links);
    }
  }

  /** The first item of its name. */
  lemma FirstNamed(ps: seq<DeploymentProfileRequest>, n: string) returns (i: nat)
    requires Named(ps, P.ProfileName, n)
    ensures i < |ps| && ps[i].name == n && forall j :: 0 <= j < i ==> ps[j].name != n
  {
    i := 0;
    var k :| 0 <= k < |ps| && P.ProfileName(ps[k]) == n;
    while ps[i].name != n
      invariant 0 <= i <= k && forall j :: 0 <= j < i ==> ps[j].name != n
      decreases k - i
    {
      i := i + 1;
    }
  }

  lemma ProfilesIff(row: PackageRow, req: PackageRequest)
    requires forall i :: 0 <= i < |req.profiles| ==> DistinctKeys(P.EntriesOf(req.profiles[i]))
    ensures P.ProfilesChanged(row, req) <==> !ProfilesAlike(row, req)
  {
    hide P.SameProfile, ProfileAlike;
    var ps := req.profiles;
    forall i | 0 <= i < |ps| && ps[i].name in row.profiles
      ensures P.SameProfile(ps[i], row.profiles[ps[i].name]) <==> ProfileAlike(ps[i], row.profiles[ps[i].name])
      ensures IsNew(row.profiles, ps, P.ProfileName, i) <==> exists j :: 0 <= j < i && ps[j].name == ps[i].name
    {
      ProfileAlikeIff(ps[i], row.profiles[ps[i].name]);
    }
    if !P.ProfilesChanged(row, req) {
      forall n | n in row.profiles
        ensures IsKeptAlike(row, req, n)
      {
        var i := FirstNamed(ps, n);
        assert !IsNew(row.profiles, ps, P.ProfileName, i);
      }
    }
    if ProfilesAlike(row, req) {
      forall n | n in row.profiles
        ensures Named(ps, P.ProfileName, n)
      {
        assert IsKeptAlike(row, req, n);
        var i :| 0 <= i < |ps| && ps[i].name == n;
        assert P.ProfileName(ps[i]) == n;
      }
      forall i | 0 <= i < |ps| && !IsNew(row.profiles, ps, P.ProfileName, i)
        ensures P.SameProfile(ps[i], row.profiles[P.ProfileName(ps[i])])
      {
        assert IsKeptAlike(row, req, ps[i].name);
      }
    }
  }

  lemma StoredIff(rows: seq<DependencyRow>, d: Dependency)
    ensures d in MapSeq(P.StoredDependency, rows) <==> IsStored(rows, d)
  {
    var stored := MapSeq(P.StoredDependency, rows);
    if IsStored(rows, d) {
      var i :| 0 <= i < |rows| && rows[i].source.name == d.name && rows[i].target.name == d.target;
      assert stored[i] == d;
    }
    if d in stored {
      var i :| 0 <= i < |stored| && stored[i] == d;
    }
  }

  lemma {:induction false} ScanIff(rows: seq<DependencyRow>, refs: seq<Reference>, deps: seq<Dependency>)
    ensures var r := P.ScanDependencies(MapSeq(P.StoredDependency, rows), refs, deps);
            && (r == Ok(true) <==> NewDependency(rows, refs, deps))
            && (r.Err? <==> DanglingDependency(rows, refs, deps))
            && (r.Err? ==> r.error == InvalidArgument)
  {
    hide IsStored, MapSeq;
    if deps != [] {
      var d, rest := deps[0], deps[1..];
      StoredIff(rows, d);
      assert EndsListed(refs, d) <==> P.NamesApplication(refs, d.name) && P.NamesApplication(refs, d.target);
      ScanIff(rows, refs, rest);
      NewStep(rows, refs, deps);
      DanglingStep(rows, refs, deps);
    }
  }

  lemma NewStep(rows: seq<DependencyRow>, refs: seq<Reference>, deps: seq<Dependency>)
    requires deps != []
    ensures NewDependency(rows, refs, deps) <==>
            !IsStored(rows, deps[0]) || (EndsListed(refs, deps[0]) && NewDependency(rows, refs, deps[1..]))
  {
    hide IsStored, EndsListed;
    var rest := deps[1..];
    if NewDependency(rows, refs, deps) && IsStored(rows, deps[0]) {
      var i :| 0 <= i < |deps| && !IsStored(rows, deps[i]) && forall j :: 0 <= j < i ==> EndsListed(refs, deps[j]);
      assert rest[i - 1] == deps[i];
      assert forall j :: 0 <= j < i - 1 ==> EndsListed(refs, rest[j]);
    }
    if !IsStored(rows, deps[0]) {
      assert NewDependency(rows, refs, deps);
    } else if EndsListed(refs, deps[0]) && NewDependency(rows, refs, rest) {
      var i :| 0 <= i < |rest| && !IsStored(rows, rest[i]) && forall j :: 0 <= j < i ==> EndsListed(refs, rest[j]);
      assert deps[i + 1] == rest[i];
      assert forall j :: 0 <= j < i + 1 ==> j == 0 || deps[j] == rest[j - 1];
    }
  }

  lemma DanglingStep(rows: seq<DependencyRow>, refs: seq<Reference>, deps: seq<Dependency>)
    requires deps != []
    ensures DanglingDependency(rows, refs, deps) <==>
            IsStored(rows, deps[0]) && (!EndsListed(refs, deps[0]) || DanglingDependency(rows, refs, deps[1..]))
  {
    hide IsStored, EndsListed;
    var rest := deps[1..];
    if DanglingDependency(rows, refs, deps) {
      var i :| 0 <= i < |deps| && IsStored(rows, deps[i]) && !EndsListed(refs, deps[i]) &&
          forall j :: 0 <= j < i ==> IsStored(rows, deps[j]);
      if i > 0 {
        assert rest[i - 1] == deps[i];
        assert forall j :: 0 <= j < i - 1 ==> IsStored(rows, rest[j]);
      }
    }
    if IsStored(rows, deps[0]) {
      if !EndsListed(refs, deps[0]) {
        assert DanglingDependency(rows, refs, deps);
      } else if DanglingDependency(rows, refs, rest) {
        var i :| 0 <= i < |rest| && IsStored(rows, rest[i]) && !EndsListed(refs, rest[i]) &&
            forall j :: 0 <= j < i ==> IsStored(rows, rest[j]);
        assert deps[i + 1] == rest[i];
        assert forall j :: 0 <= j < i + 1 ==> j == 0 || deps[j] == rest[j - 1];
      }
    }
  }

  lemma DependenciesIff(row: PackageRow, req: PackageRequest)
    ensures var r := P.DependenciesChanged(row, req);
            && (r == Ok(true) <==> DependenciesDiffer(row, req))
            && (r.Err? <==> DependenciesClash(row, req)) && (r.Err? ==> r.error == InvalidArgument)
  {
    hide NewDependency, DanglingDependency;
    ScanIff(row.dependencies, req.applications, req.dependencies);
  }

  lemma {:induction false} ScanDefaultsIff(row: PackageRow, e: Entries)
    requires forall n :: n in row.appNamespaces ==> P.LastNamed(row.applications, n).Some?
    ensures P.ScanNamespaces(row, e) ==
            if forall i :: 0 <= i < |e| ==> IsDefault(row, e[i]) then Ok(false) else Err(InvalidArgument)
  {
    if e != [] {
      ScanDefaultsIff(row, e[1..]);
      if forall i :: 0 <= i < |e[1..]| ==> IsDefault(row, e[1..][i]) {
        assert forall i :: 0 < i < |e| ==> e[i] == e[1..][i - 1];
      } else {
        var i :| 0 <= i < |e[1..]| && !IsDefault(row, e[1..][i]);
        assert !IsDefault(row, e[i + 1]);
      }
    }
  }

  lemma DefaultsIff(row: PackageRow, req: PackageRequest)
    requires AppNamespacesFit(row.applications, row.appNamespaces)
    ensures var r := P.AppNamespacesChanged(row, req);
            && (r == Ok(true) <==> DefaultsDiffer(row, req))
            && (r.Err? <==> DefaultsClash(row, req)) && (r.Err? ==> r.error == InvalidArgument)
  {
    forall n | n in row.appNamespaces
      ensures P.LastNamed(row.applications, n).Some?
    {
      var app := row.appNamespaces[n].app;
      var i :| 0 <= i < |row.applications| && row.applications[i] == app;
      assert AppName(row.applications[i]) == n;
    }
    ScanDefaultsIff(row, req.defaultNamespaces);
  }

  lemma ListsIff(row: PackageRow, req: PackageRequest)
    ensures P.NamespacesUnchanged(row, req) <==> NamespacesAlike(row, req)
    ensures P.ExtensionsUnchanged(row, req) <==> ExtensionsAlike(row, req)
    ensures P.ArtifactsUnchanged(row, req) <==> ArtifactsAlike(row, req)
  {
    hide HeldAlike, Unchanged;
    UnchangedIff(row.namespaces, P.NamespaceRowName, req.namespaces, P.NamespaceName, P.SameNamespace);
    SameTests(row.namespaces, P.NamespaceRowName, req.namespaces, P.NamespaceName, P.SameNamespace, NamespaceAlike);
    UnchangedIff(row.extensions, P.ExtensionRowName, req.extensions, P.ExtensionName, P.SameExtension);
    SameTests(row.extensions, P.ExtensionRowName, req.extensions, P.ExtensionName, P.SameExtension, ExtensionAlike);
    UnchangedIff(row.artifacts, P.ArtifactRowName, req.artifacts, P.ArtifactName, P.SameArtifact);
    SameTests(row.artifacts, P.ArtifactRowName, req.artifacts, P.ArtifactName, P.SameArtifact, ArtifactAlike);
  }

  lemma ValidEntries(req: PackageRequest)
    requires P.ValidPackage(req)
    ensures forall i :: 0 <= i < |req.profiles| ==> DistinctKeys(P.EntriesOf(req.profiles[i]))
  {
    forall i | 0 <= i < |req.profiles|
      ensures DistinctKeys(P.EntriesOf(req.profiles[i]))
    {
      assert P.ValidDeploymentProfile(req.profiles[i]);
    }
  }

  /** The change flags of an update, by the stored row and the request; the comparison ends unless these clash. */
  lemma ChangesIff(db: Db, key: VersionedKey, row: PackageRow, req: PackageRequest)
    requires PackageFits(db, key, row) && P.ValidPackage(req)
    ensures var r := P.PackageChanges(row, req);
            && (r.Err? <==> Clashes(row, req)) && (r.Err? ==> r.error == InvalidArgument)
            && (r.Ok? ==>
                  var ch := r.value;
                  && (ch.kindOrState <==> KindOrStateDiffers(row, req)) && (ch.rootRecord <==> !RootAlike(row, req))
                  && (ch.applications <==> !MembersAlike(key.project, row, req))
                  && (ch.profiles <==> !ProfilesAlike(row, req)) && (ch.profile <==> !DefaultAlike(row, req))
                  && (ch.dependencies <==> DependenciesDiffer(row, req))
                  && (ch.defaultNamespaces <==> DefaultsDiffer(row, req))
                  && (ch.namespaces <==> !NamespacesAlike(row, req))
                  && (ch.extensions <==> !ExtensionsAlike(row, req))
                  && (ch.artifacts <==> !ArtifactsAlike(row, req))
                  && (ch.Changed() <==> PartsDiffer(key.project, row, req))
                  && (!ch.profiles ==> ch.newProfiles == NewItems(row.profiles, req.profiles, P.ProfileName)))
  {
    hide P.ApplicationsChanged, P.ProfilesChanged, P.DependenciesChanged, P.AppNamespacesChanged;
    hide P.NamespacesUnchanged, P.ExtensionsUnchanged, P.ArtifactsUnchanged, P.ValidPackage;
    hide MembersAlike, ProfilesAlike, DependenciesDiffer, DependenciesClash, DefaultsClash, DefaultsDiffer;
    hide NamespacesAlike, ExtensionsAlike, ArtifactsAlike, TextsFit, ProfilesFit, ArtifactsFit, ListsFit;
    hide NewItems, ValidName, ValidVersion;
    ValidEntries(req);
    MembersIff(key.project, row, req);
    ProfilesIff(row, req);
    DependenciesIff(row, req);
    DefaultsIff(row, req);
    ListsIff(row, req);
    NamedDefault(db, key, row);
  }

  lemma NamedDefault(db: Db, key: VersionedKey, row: PackageRow)
    requires PackageFits(db, key, row)
    ensures row.defaultProfile != Some("")
  {
  }
}
