/**
 * Requests that equal what is stored up to the order of their lists: for a package whose parts can be
 * told apart by name, they change kind and state and nothing else.
 */
module Reordering {
  import opened Prelude
  import opened Text
  import opened Tables
  import opened Diff
  import opened References
  import opened Catalog
  import opened Invariants
  import opened Conditions
  import opened Acceptance
  import opened Comparisons
  import opened PackageUpdates
  import Runs
  import P = Packages
  import A = Applications

  // ---------- What the stored parts look like in a request ----------

  function ReferenceOf(k: VersionedKey): Reference { Reference(k.name, k.version) }

  function DependencyOf(d: DependencyRow): Dependency { Dependency(d.source.name, d.target.name) }

  function NamespaceOf(n: NamespaceRow): NamespaceRequest {
    NamespaceRequest(n.name, Some(n.labels), Some(n.annotations))
  }

  function ExtensionOf(e: ExtensionRow): ExtensionRequest {
    ExtensionRequest(e.name, e.version, e.displayName, e.description, Some(e.endpoints),
                     if e.ui.title == "" then None else Some(e.ui))
  }

  function ArtifactOf(a: ArtifactReferenceRow): ArtifactReference { ArtifactReference(a.artifact.name, a.purpose) }

  /** Every list of the request is a reordering of what is stored, and the other parts but kind and state are equal. */
  ghost predicate EqualUpToOrder(row: PackageRow, req: PackageRequest) {
    && RootAlike(row, req) && DefaultAlike(row, req)
    && multiset(req.applications) == multiset(MapSeq(ReferenceOf, row.applications))
    && multiset(req.dependencies) == multiset(MapSeq(DependencyOf, row.dependencies))
    && |req.defaultNamespaces| == |row.appNamespaces|
    && (forall i :: 0 <= i < |req.defaultNamespaces| ==> IsDefault(row, req.defaultNamespaces[i]))
    && multiset(req.namespaces) == multiset(MapSeq(NamespaceOf, row.namespaces))
    && multiset(req.extensions) == multiset(MapSeq(ExtensionOf, row.extensions))
    && multiset(req.artifacts) == multiset(MapSeq(ArtifactOf, row.artifacts))
    && NamesDiffer(req.profiles) && (forall n :: n in row.profiles ==> Named(req.profiles, P.ProfileName, n))
    && (forall i :: 0 <= i < |req.profiles| ==>
          req.profiles[i].name in row.profiles && ProfileAlike(req.profiles[i], row.profiles[req.profiles[i].name]))
  }

  /** Namespaces of one name are equal, as are extensions and references to one artifact. */
  predicate ToldApart(row: PackageRow) {
    && (forall i, j :: 0 <= i < |row.namespaces| && 0 <= j < |row.namespaces| ==>
          (row.namespaces[i].name == row.namespaces[j].name ==> row.namespaces[i] == row.namespaces[j]))
    && (forall i, j :: 0 <= i < j < |row.extensions| ==> row.extensions[i].name != row.extensions[j].name)
    && (forall i, j :: 0 <= i < |row.artifacts| && 0 <= j < |row.artifacts| ==>
          (row.artifacts[i].artifact.name == row.artifacts[j].artifact.name ==>
           row.artifacts[i].purpose == row.artifacts[j].purpose))
  }

  // ---------- Lists ----------

  ghost predicate SameWithinNames<S, R>(stored: seq<S>, name: S -> string, view: S -> R) {
    forall i, j :: 0 <= i < |stored| && 0 <= j < |stored| && name(stored[i]) == name(stored[j]) ==>
      view(stored[i]) == view(stored[j])
  }

  lemma {:induction false} SomeIsLast<S>(stored: seq<S>, name: S -> string, k: nat)
    requires k < |stored|
    ensures exists j :: 0 <= j < |stored| && IsLast(stored, name, name(stored[k]), stored[j])
  {
    hide IsLast;
    var x := LastWith(stored, name, name(stored[k]));
    LastWithIff(stored, name, name(stored[k]), x.value);
    var j :| 0 <= j < |stored| && stored[j] == x.value;
  }

  lemma OnlyOneIsLast<S>(stored: seq<S>, name: S -> string, k: string, x: S, y: S)
    requires IsLast(stored, name, k, x) && IsLast(stored, name, k, y)
    ensures x == y
  {
    hide IsLast;
    LastWithIff(stored, name, k, x);
    LastWithIff(stored, name, k, y);
  }

  /** A reordered list is found alike exactly if what is stored under one name looks the same. */
  lemma ReorderedIsHeldAlike<S, R(!new)>(
    stored: seq<S>, name: S -> string, wanted: seq<R>, wantedName: R -> string, same: (R, S) -> bool, view: S -> R)
    requires multiset(wanted) == multiset(MapSeq(view, stored))
    requires forall i :: 0 <= i < |stored| ==> wantedName(view(stored[i])) == name(stored[i])
    requires forall i, j :: 0 <= i < |wanted| && 0 <= j < |stored| && wantedName(wanted[i]) == name(stored[j]) ==>
               (same(wanted[i], stored[j]) <==> wanted[i] == view(stored[j]))
    ensures HeldAlike(stored, name, wanted, wantedName, same) <==> SameWithinNames(stored, name, view)
  {
    hide IsLast;
    var views := MapSeq(view, stored);
    MultisetMembers(wanted, views);
    assert |multiset(wanted)| == |wanted| && |multiset(views)| == |views|;
    if SameWithinNames(stored, name, view) {
      forall i | 0 <= i < |wanted|
        ensures HasCounterpart(stored, name, wanted[i], wantedName, same)
      {
        assert wanted[i] in views;
        var k :| 0 <= k < |views| && views[k] == wanted[i];
        SomeIsLast(stored, name, k);
        var j :| 0 <= j < |stored| && IsLast(stored, name, name(stored[k]), stored[j]);
        LastHasName(stored, name, name(stored[k]), stored[j]);
      }
    }
    if HeldAlike(stored, name, wanted, wantedName, same) {
      forall i | 0 <= i < |stored|
        ensures exists x :: IsLast(stored, name, name(stored[i]), x) && view(x) == view(stored[i])
      {
        assert views[i] in wanted;
        var k :| 0 <= k < |wanted| && wanted[k] == view(stored[i]);
        assert HasCounterpart(stored, name, wanted[k], wantedName, same);
        var l :| 0 <= l < |stored| && IsLast(stored, name, wantedName(wanted[k]), stored[l]) &&
            same(wanted[k], stored[l]);
        LastHasName(stored, name, wantedName(wanted[k]), stored[l]);
      }
      forall i, j | 0 <= i < |stored| && 0 <= j < |stored| && name(stored[i]) == name(stored[j])
        ensures view(stored[i]) == view(stored[j])
      {
        var x :| IsLast(stored, name, name(stored[i]), x) && view(x) == view(stored[i]);
        var y :| IsLast(stored, name, name(stored[j]), y) && view(y) == view(stored[j]);
        OnlyOneIsLast(stored, name, name(stored[i]), x, y);
      }
    }
  }

  lemma LastHasName<S>(stored: seq<S>, name: S -> string, k: string, x: S)
    requires IsLast(stored, name, k, x)
    ensures name(x) == k
  {
  }

  lemma NamespacesReordered(row: PackageRow, req: PackageRequest)
    requires multiset(req.namespaces) == multiset(MapSeq(NamespaceOf, row.namespaces))
    ensures NamespacesAlike(row, req) <==> SameWithinNames(row.namespaces, P.NamespaceRowName, NamespaceOf)
  {
    hide HeldAlike, SameWithinNames;
    ReorderedIsHeldAlike(row.namespaces, P.NamespaceRowName, req.namespaces, P.NamespaceName, NamespaceAlike,
                         NamespaceOf);
  }

  lemma ExtensionsReordered(row: PackageRow, req: PackageRequest)
    requires multiset(req.extensions) == multiset(MapSeq(ExtensionOf, row.extensions))
    ensures ExtensionsAlike(row, req) <==> SameWithinNames(row.extensions, P.ExtensionRowName, ExtensionOf)
  {
    hide HeldAlike, SameWithinNames;
    ReorderedIsHeldAlike(row.extensions, P.ExtensionRowName, req.extensions, P.ExtensionName, ExtensionAlike,
                         ExtensionOf);
  }

  lemma ArtifactsReordered(row: PackageRow, req: PackageRequest)
    requires multiset(req.artifacts) == multiset(MapSeq(ArtifactOf, row.artifacts))
    ensures ArtifactsAlike(row, req) <==> SameWithinNames(row.artifacts, P.ArtifactRowName, ArtifactOf)
  {
    hide HeldAlike, SameWithinNames;
    ReorderedIsHeldAlike(row.artifacts, P.ArtifactRowName, req.artifacts, P.ArtifactName, ArtifactAlike, ArtifactOf);
  }

  lemma ToldApartIff(row: PackageRow)
    requires P.ExtensionsFit(row.extensions)
    ensures ToldApart(row) <==>
            SameWithinNames(row.namespaces, P.NamespaceRowName, NamespaceOf) &&
            SameWithinNames(row.extensions, P.ExtensionRowName, ExtensionOf) &&
            SameWithinNames(row.artifacts, P.ArtifactRowName, ArtifactOf)
  {
    var ns, es, arts := row.namespaces, row.extensions, row.artifacts;
    assert forall i, j :: 0 <= i < |ns| && 0 <= j < |ns| ==>
                            (NamespaceOf(ns[i]) == NamespaceOf(ns[j]) <==> ns[i] == ns[j]);
    if SameWithinNames(es, P.ExtensionRowName, ExtensionOf) {
      forall i, j | 0 <= i < j < |es|
        ensures es[i].name != es[j].name
      {
        assert P.ExtensionRowName(es[i]) == es[i].name && P.ExtensionRowName(es[j]) == es[j].name;
        assert ExtensionOf(es[i]).version == es[i].version && ExtensionOf(es[j]).version == es[j].version;
      }
    }
    if SameWithinNames(arts, P.ArtifactRowName, ArtifactOf) {
      forall i, j | 0 <= i < |arts| && 0 <= j < |arts| && arts[i].artifact.name == arts[j].artifact.name
        ensures arts[i].purpose == arts[j].purpose
      {
        assert P.ArtifactRowName(arts[i]) == P.ArtifactRowName(arts[j]);
        assert ArtifactOf(arts[i]) == ArtifactOf(arts[j]);
      }
    }
    if SameWithinNames(ns, P.NamespaceRowName, NamespaceOf) {
      forall i, j | 0 <= i < |ns| && 0 <= j < |ns| && ns[i].name == ns[j].name
        ensures ns[i] == ns[j]
      {
        assert P.NamespaceRowName(ns[i]) == P.NamespaceRowName(ns[j]);
        assert NamespaceOf(ns[i]) == NamespaceOf(ns[j]);
      }
    }
  }

  // ---------- The other parts ----------

  lemma MembersReordered(key: VersionedKey, row: PackageRow, req: PackageRequest)
    requires forall i :: 0 <= i < |row.applications| ==> row.applications[i].project == key.project
    requires multiset(req.applications) == multiset(MapSeq(ReferenceOf, row.applications))
    ensures MembersAlike(key.project, row, req)
    ensures forall i :: 0 <= i < |row.applications| ==> Lists(req.applications, row.applications[i].name)
  {
    var views := MapSeq(ReferenceOf, row.applications);
    MultisetMembers(req.applications, views);
    assert |multiset(req.applications)| == |req.applications| && |multiset(views)| == |views|;
    forall i | 0 <= i < |req.applications|
      ensures KeyOf(key.project, req.applications[i]) in row.applications
    {
      assert req.applications[i] in views;
      var j :| 0 <= j < |views| && views[j] == req.applications[i];
      assert row.applications[j] == KeyOf(key.project, req.applications[i]);
    }
    forall i | 0 <= i < |row.applications|
      ensures Lists(req.applications, row.applications[i].name)
    {
      assert views[i] in req.applications;
      var j :| 0 <= j < |req.applications| && req.applications[j] == views[i];
    }
  }

  lemma DependenciesReordered(key: VersionedKey, row: PackageRow, req: PackageRequest)
    requires Invariants.DependenciesFit(row.applications, row.dependencies)
    requires forall i :: 0 <= i < |row.applications| ==> Lists(req.applications, row.applications[i].name)
    requires multiset(req.dependencies) == multiset(MapSeq(DependencyOf, row.dependencies))
    ensures !DependenciesDiffer(row, req) && !DependenciesClash(row, req)
  {
    hide Lists;
    var views := MapSeq(DependencyOf, row.dependencies);
    MultisetMembers(req.dependencies, views);
    assert |multiset(req.dependencies)| == |req.dependencies| && |multiset(views)| == |views|;
    forall i | 0 <= i < |req.dependencies|
      ensures IsStored(row.dependencies, req.dependencies[i]) && EndsListed(req.applications, req.dependencies[i])
    {
      assert req.dependencies[i] in views;
      var j :| 0 <= j < |views| && views[j] == req.dependencies[i];
      var d := row.dependencies[j];
      assert d.source in row.applications && d.target in row.applications;
      var a :| 0 <= a < |row.applications| && row.applications[a] == d.source;
      var b :| 0 <= b < |row.applications| && row.applications[b] == d.target;
    }
  }

  lemma ProfilesReordered(row: PackageRow, req: PackageRequest)
    requires NamesDiffer(req.profiles) && forall n :: n in row.profiles ==> Named(req.profiles, P.ProfileName, n)
    requires forall i :: 0 <= i < |req.profiles| ==>
               req.profiles[i].name in row.profiles && ProfileAlike(req.profiles[i], row.profiles[req.profiles[i].name])
    ensures ProfilesAlike(row, req) && NotStored(row.profiles.Keys, req.profiles) == []
  {
    hide ProfileAlike;
    forall n | n in row.profiles
      ensures IsKeptAlike(row, req, n)
    {
      var i :| 0 <= i < |req.profiles| && P.ProfileName(req.profiles[i]) == n;
      assert req.profiles[i].name == n;
    }
    AllStored(row.profiles.Keys, req.profiles);
  }

  lemma {:induction false} AllStored(names: set<string>, ps: seq<DeploymentProfileRequest>)
    requires forall i :: 0 <= i < |ps| ==> ps[i].name in names
    ensures NotStored(names, ps) == []
  {
    if ps != [] {
      AllStored(names, ps[..|ps| - 1]);
    }
  }

  /** A reordered request differs in no part exactly if the stored parts can be told apart, and never clashes. */
  lemma ReorderedDiffersIff(db: Db, key: VersionedKey, row: PackageRow, req: PackageRequest)
    requires PackageFits(db, key, row) && EqualUpToOrder(row, req)
    ensures PartsDiffer(key.project, row, req) <==> !ToldApart(row)
    ensures !Clashes(row, req)
  {
    hide ToldApart, SameWithinNames, NamespacesAlike, ExtensionsAlike, ArtifactsAlike, ProfilesAlike, MembersAlike;
    hide Named;
    hide DependenciesDiffer, DependenciesClash, Lists, ProfileAlike, TextsFit, ProfilesFit, ArtifactsFit, ValidName,
         ValidVersion, MapSeq;
    MembersReordered(key, row, req);
    DependenciesReordered(key, row, req);
    ProfilesReordered(row, req);
    NamespacesReordered(row, req);
    ExtensionsReordered(row, req);
    ArtifactsReordered(row, req);
    assert ListsFit(row);
    ToldApartIff(row);
  }

  // ---------- The outcome ----------

  /** Where nothing differs, nothing is rewritten. */
  lemma NothingRewritten(db: Db, key: VersionedKey, row: PackageRow, req: PackageRequest, row': PackageRow)
    requires PackageFits(db, key, row) && P.ValidPackage(req) && !P.DisplayTaken(db, "", req)
    requires !PartsDiffer(key.project, row, req) && !KindOrStateDiffers(row, req) && !Clashes(row, req)
    requires DistinctNames(req.profiles, P.ProfileName) && NotStored(row.profiles.Keys, req.profiles) == []
    requires P.UpdateRow(db, key.project, row, req) == Ok(row')
    ensures row' == row
  {
    hide P.PackageChanges, P.ValidPackage, P.DisplayTaken, PackageFits, Clashes, NotStored;
    hide NamespacesAlike, ExtensionsAlike, ArtifactsAlike, ProfilesAlike, MembersAlike, DependenciesDiffer;
    ChangesIff(db, key, row, req);
    NewAreNotStored(row.profiles, req.profiles);
    var ch := P.PackageChanges(row, req).value;
    assert ch.newProfiles == [];
    RootFits(db, key, row);
    assert row'.namespaces == row.namespaces && row'.profiles == row.profiles;
  }

  lemma RootFits(db: Db, key: VersionedKey, row: PackageRow)
    requires PackageFits(db, key, row)
    ensures row.displayName != "" && IsTrimmed(row.displayName) && DefaultFits(row.profiles.Keys, row.defaultProfile)
  {
  }

  lemma ReorderedIsReady(db: Db, key: VersionedKey, row: PackageRow, req: PackageRequest)
    requires PackageFits(db, key, row) && EqualUpToOrder(row, req)
    ensures IsReady(req)
  {
    hide PackageFits, MapSeq, ProfileAlike;
    RootFits(db, key, row);
    PartsOf(db, key, row);
    if req.profiles != [] {
      assert req.profiles[0].name in row.profiles.Keys;
    }
  }

  lemma ReorderedCanBeUpdated(db: Db, key: VersionedKey, row: PackageRow, req: PackageRequest)
    requires PackageFits(db, key, row) && EqualUpToOrder(row, req) && ToldApart(row)
    ensures CanBeUpdated(db, key.project, row, req)
  {
    hide PackageFits, Clashes, ToldApart, CanBeCreated, NotStored;
    ReorderedIsReady(db, key, row, req);
    ReorderedDiffersIff(db, key, row, req);
    ProfilesReordered(row, req);
    NothingDiffers(key.project, row, req);
    PartsOf(db, key, row);
    AlikeDefaultIsAmong(row, req);
    NothingToCreate(db, row.applications, row.profiles);
  }

  lemma NothingToCreate(db: Db, apps: seq<VersionedKey>, stored: P.ProfileTable)
    ensures CanBeCreated(db, apps, stored.Keys, Displays(stored), [])
  {
  }

  /**
   * In every reachable state, a request that equals the stored package up to the order of its lists
   * stores kind and state and changes nothing else, if the stored parts can be told apart; otherwise it
   * is refused as a change of a package that is and stays deployed.
   */
  lemma ReorderedRequest(db: Db, active: string, key: VersionedKey, req: PackageRequest)
    requires Reachable(db) && key in db.packages && key.project == ActiveProject(active)
    requires Admissible(ChangePackage(key.name, key.version, req)) && EqualUpToOrder(db.packages[key], req)
    ensures ToldApart(db.packages[key]) ==>
              Call(db, active, ChangePackage(key.name, key.version, req)) ==
              Ok(db.(packages :=
                db.packages[key := db.packages[key].(isDeployed := req.isDeployed, kind := KindToDb(req.kind))]))
    ensures !ToldApart(db.packages[key]) && db.packages[key].isDeployed && req.isDeployed ==>
              Call(db, active, ChangePackage(key.name, key.version, req)) == Err(FailedPrecondition)
  {
    hide Reachable, Inv, PackageFits, P.ValidPackage, P.Unambiguous, EqualUpToOrder, ToldApart, IsReady;
    hide PartsDiffer, Clashes, CanBeUpdated, Call, After, Admissible;
    var row := db.packages[key];
    Runs.EveryReachableStateFits(db);
    PackageUpdates.FitsAt(db, key);
    assert key == VersionedKey(ActiveProject(active), req.name, req.version) by { KeyIsNamed(key, active, req); }
    ReorderedDiffersIff(db, key, row, req);
    ReorderedIsReady(db, key, row, req);
    PackageUpdateOutcome(db, active, req);
    if ToldApart(row) {
      ReorderedCanBeUpdated(db, key, row, req);
      StoredReordered(db, active, key, req);
    }
  }

  lemma KeyIsNamed(key: VersionedKey, active: string, req: PackageRequest)
    requires key.project == ActiveProject(active) && Admissible(ChangePackage(key.name, key.version, req))
    ensures key == VersionedKey(ActiveProject(active), req.name, req.version)
  {
    hide P.ValidPackage, P.Unambiguous;
  }

  lemma StoredReordered(db: Db, active: string, key: VersionedKey, req: PackageRequest)
    requires Inv(db) && key in db.packages && key == VersionedKey(ActiveProject(active), req.name, req.version)
    requires Admissible(ChangePackage(key.name, key.version, req)) && EqualUpToOrder(db.packages[key], req)
    requires ToldApart(db.packages[key]) && Call(db, active, ChangePackage(key.name, key.version, req)).Ok?
    ensures Call(db, active, ChangePackage(key.name, key.version, req)) ==
            Ok(db.(packages :=
              db.packages[key := db.packages[key].(isDeployed := req.isDeployed, kind := KindToDb(req.kind))]))
  {
    hide Inv, PackageFits, P.ValidPackage, P.Unambiguous, ToldApart, PartsDiffer, Clashes, P.UpdateRow, Call;
    hide Admissible;
    hide CanBeUpdated, P.DisplayTaken, ProfileAlike, MapSeq, NotStored, IsReady;
    var row := db.packages[key];
    CallUpdates(db, active, req);
    AdmissibleIsValid(req);
    ReadyNamesDefault(req);
    PackageUpdates.FitsAt(db, key);
    NoPackageInTheEmptyProject(db, req);
    ReorderedDiffersIff(db, key, row, req);
    ProfilesReordered(row, req);
    DistinctIff(req.profiles);
    UpdatedRowIff(db, key, row, req);
    if !KindOrStateDiffers(row, req) {
      NothingRewritten(db, key, row, req, P.UpdateRow(db, key.project, row, req).value);
    }
  }
}
