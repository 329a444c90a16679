/** Runs from the empty catalog that end in states which a reader might not expect. */
module Scenarios {
  import opened Prelude
  import opened Text
  import opened Tables
  import opened Diff
  import opened References
  import opened Catalog
  import AI = AppInvariants
  import P = Packages
  import A = Applications
  import Runs
  import Server
  import AP = ArtifactPasses

  lemma RunStep(calls: seq<(string, Op)>, before: Db, op: Op, after: Db)
    requires Run(EMPTY, calls) == before && Call(before, "p", op) == Ok(after)
    ensures Run(EMPTY, calls + [("p", op)]) == after
  {
    hide Call;
    RunStepIn(calls, before, "p", op, after);
  }

  lemma RunStepIn(calls: seq<(string, Op)>, before: Db, active: string, op: Op, after: Db)
    requires Run(EMPTY, calls) == before && Call(before, active, op) == Ok(after)
    ensures Run(EMPTY, calls + [(active, op)]) == after
  {
    hide Call;
    var more := calls + [(active, op)];
    assert more[..|more| - 1] == calls;
  }

  lemma ShortNames(s: string)
    requires |s| == 1 && LowerAlnum(s[0])
    ensures ValidName(s) && ValidApplicationName(s) && ValidVersion(s) && IsTrimmed(s)
  {
  }

  // ---------- One registry, one application, one package ----------

  const REGISTRY := NamedKey("p", "r")
  const APP := VersionedKey("p", "a", "1")
  const PACKAGE := VersionedKey("p", "d", "1")
  const PROFILE := ProfileRow("x", "", "", [])
  const APP_ROW := ApplicationRow("a", "", "normal", "c", "1", REGISTRY, None, map["x" := PROFILE], Some("x"), [])
  const LINKED := DeploymentProfileRow("d", "", [ProfileLink(APP, "x")])
  const PACKAGE_ROW :=
    PackageRow("d", "", "normal", false, false, true, [APP], [], map[], [], map["d" := LINKED], Some("d"), [], [])

  const ADD_REGISTRY := AddRegistry(RegistryRequest("r", "", "", A.HELM, "", ""))
  const ADD_APP := AddApplication(
    ApplicationRequest("a", "", "", "1", Normal, "c", "1", "r", "", [ProfileRequest("x", "x", "", "", [])], "x", [],
        [], []))
  const ADD_PACKAGE := AddPackage(
    PackageRequest("d", "d", "", "1", Normal, false, false, false, [Reference("a", "1")], [], [], [],
                   [DeploymentProfileRequest("d", "d", "", Some([("a", "x")]))], "d", [], [], []))

  const WITH_REGISTRY := Db(map[REGISTRY := RegistryRow("r", "", A.HELM, "")], map[], map[], map[])
  const WITH_APP := WITH_REGISTRY.(applications := map[APP := APP_ROW])
  const WITH_PACKAGE := WITH_APP.(packages := map[PACKAGE := PACKAGE_ROW])

  lemma AddsRegistry()
    ensures Call(EMPTY, "p", ADD_REGISTRY) == Ok(WITH_REGISTRY)
  {
    hide ValidName, P.CreatePackage, P.UpdatePackage, A.CreateApplication, A.UpdateApplication, A.DeleteApplication;
    ShortNames("r");
  }

  lemma AddsApplication()
    ensures Call(WITH_REGISTRY, "p", ADD_APP) == Ok(WITH_APP)
  {
    hide P.CreatePackage, P.UpdatePackage, A.UpdateApplication, A.DeleteApplication, ValidName, ValidApplicationName,
         ValidVersion;
    var p := ProfileRequest("x", "x", "", "", []);
    assert [p][..0] == [];
    assert A.InjectProfiles(map[], []) == Ok(map[]);
    assert A.InjectProfile(map[], p) == Ok(map["x" := PROFILE]);
    assert A.InjectProfiles(map[], [p]) == Ok(map["x" := PROFILE]);
    ShortNames("x");
    ShortNames("a");
    ShortNames("1");
  }

  const WANTED := DeploymentProfileRequest("d", "d", "", Some([("a", "x")]))

  lemma ResolvesToApp()
    ensures P.Resolves(WITH_APP, [APP], WANTED)
    ensures P.MakeProfile(WITH_APP, [APP], WANTED) == LINKED
  {
    SplitWithoutSeparator("a", ':');
    assert FindApplication([APP], "a") == Some(APP);
    assert ResolveEntry(WITH_APP.applications, [APP], ("a", "x")) == Some(ProfileLink(APP, "x"));
    assert ResolvedLinks(WITH_APP.applications, [APP], [("a", "x")]) == [ProfileLink(APP, "x")];
    DedupOfDistinct([ProfileLink(APP, "x")]);
  }

  lemma MakesProfile()
    ensures P.InjectProfiles(WITH_APP, [APP], map[], [WANTED]) == Ok(map["d" := LINKED])
  {
    hide P.MakeProfile, P.Resolves;
    ResolvesToApp();
    assert [WANTED][..0] == [];
    assert P.InjectProfiles(WITH_APP, [APP], map[], []) == Ok(map[]);
    assert P.InjectProfile(WITH_APP, [APP], map[], WANTED) == Ok(map["d" := LINKED]);
  }

  lemma AddPackageIsValid()
    ensures Admissible(ADD_PACKAGE)
  {
    hide ValidName, ValidVersion;
    ShortNames("a");
    ShortNames("d");
    ShortNames("1");
  }

  /** What is made from empty lists. */
  lemma NothingMade(db: Db, apps: seq<VersionedKey>)
    ensures P.MakeDependencies(apps, []) == Ok([]) && P.MakeAppNamespaces(apps, []) == Ok(map[])
    ensures P.MakeExtensions([]) == Ok([]) && P.MakeArtifacts(db, "p", []) == Ok([])
    ensures MapSeq(P.MakeNamespace, []) == []
  {
    assert EntryKeys([]) == {} && EntryMap([]) == map[];
    var m := P.MakeAppNamespaces(apps, []).value;
    assert m.Keys == {};
    var d, a := P.MakeDependencies(apps, []).value, P.MakeArtifacts(db, "p", []).value;
    assert d == [] && a == [];
    var e := MapSeq(P.MakeExtension, []);
    assert e == [];
  }

  lemma MakesMembers()
    ensures P.MakeApplications(WITH_APP, "p", [Reference("a", "1")]) == Ok([APP])
  {
    assert P.ReferenceKeys("p", [Reference("a", "1")]) == [APP];
    DedupOfDistinct([APP]);
  }

  lemma AddsPackage()
    ensures Call(WITH_APP, "p", ADD_PACKAGE) == Ok(WITH_PACKAGE)
  {
    hide Admissible, P.InjectProfiles, P.MakeApplications, P.MakeDependencies, P.MakeAppNamespaces, P.UpdatePackage;
    hide A.CreateApplication, A.UpdateApplication, A.DeleteApplication, P.MakeExtensions, P.MakeArtifacts, MapSeq;
    AddPackageIsValid();
    MakesProfile();
    MakesMembers();
    NothingMade(WITH_APP, [APP]);
    assert WITH_APP.packages[PACKAGE := PACKAGE_ROW] == WITH_PACKAGE.packages;
  }

  // ---------- A deployed package with a link to a non-member ----------

  const KEPT := DeploymentProfileRequest("d", "d", "", Some([]))
  const DROP_AND_DEPLOY := ChangePackage("d", "1",
    PackageRequest("d", "d", "", "1", Normal, true, false, false, [], [], [], [], [KEPT], "d", [], [], []))
  const STALE_ROW := PACKAGE_ROW.(applications := [], isDeployed := true)
  const STALE := WITH_APP.(packages := map[PACKAGE := STALE_ROW])
  const LOST := WITH_REGISTRY.(packages := map[PACKAGE := STALE_ROW.(profiles := map["d" := LINKED.(links := [])])])

  lemma MergesNothing()
    ensures P.Resolves(WITH_PACKAGE, [], KEPT) && P.MergeProfile(WITH_PACKAGE, [], LINKED, KEPT) == LINKED
  {
    assert ResolvedLinks(WITH_PACKAGE.applications, [], []) == [];
    assert LINKED.links + [] == LINKED.links;
    DedupOfDistinct(LINKED.links);
  }

  lemma KeepsStored()
    ensures P.KeptFits(WITH_PACKAGE, [], [KEPT], "d")
    ensures P.KeptProfiles(WITH_PACKAGE, [], map["d" := LINKED], [KEPT]) == map["d" := LINKED]
  {
    hide P.Resolves, P.MergeProfile;
    MergesNothing();
    assert P.ProfileName(KEPT) == "d";
    assert P.Requested([KEPT], "d") == Some(KEPT);
    ShortNames("d");
  }

  lemma NothingNew()
    ensures NewItems(map["d" := LINKED], [KEPT], P.ProfileName) == []
  {
    assert [KEPT][..0] == [];
    assert P.ProfileName(KEPT) == "d";
  }

  lemma KeepsProfile()
    ensures P.UpdateProfiles(WITH_PACKAGE, [], map["d" := LINKED], [KEPT], []) == Ok(map["d" := LINKED])
  {
    hide NewItems, P.KeptProfiles, P.KeptFits;
    KeepsStored();
    NothingNew();
    var none: seq<DeploymentProfileRequest> := [];
    assert Arrange(none, none) == none;
  }

  lemma DropIsValid()
    ensures Admissible(DROP_AND_DEPLOY)
  {
    hide ValidName, ValidVersion;
    ShortNames("d");
    ShortNames("1");
  }

  lemma DropChangesApplications()
    ensures var ch := P.PackageChanges(PACKAGE_ROW, DROP_AND_DEPLOY.package);
            && ch.Ok? && ch.value.applications && !ch.value.namespaces && !ch.value.extensions && !ch.value.artifacts
            && !ch.value.profile
  {
    hide P.ProfilesChanged;
  }

  lemma NoMembers()
    ensures P.MakeApplications(WITH_PACKAGE, "p", []) == Ok([])
  {
  }

  lemma DropsRow()
    ensures P.UpdateRow(WITH_PACKAGE, "p", PACKAGE_ROW, DROP_AND_DEPLOY.package) == Ok(STALE_ROW)
  {
    hide P.PackageChanges, P.UpdateProfiles, P.MakeDependencies, P.MakeAppNamespaces, P.MakeApplications;
    DropChangesApplications();
    KeepsProfile();
    NothingMade(WITH_PACKAGE, []);
    NoMembers();
  }

  lemma DropsAndDeploys()
    ensures Call(WITH_PACKAGE, "p", DROP_AND_DEPLOY) == Ok(STALE)
  {
    hide Admissible, P.UpdateRow, P.CreatePackage, A.CreateApplication, A.UpdateApplication, A.DeleteApplication;
    DropIsValid();
    DropsRow();
    assert WITH_PACKAGE.packages[PACKAGE := STALE_ROW] == STALE.packages;
  }

  lemma DropsLink()
    ensures A.DropLinks(LINKED.links, APP, {"x"}) == []
  {
    AI.DropLast(LINKED.links, APP, {"x"});
    assert LINKED.links[..0] == [];
  }

  lemma CascadeTakesLink()
    ensures A.CascadeProfiles(STALE.packages, APP, {"x"}) == LOST.packages
  {
    hide A.DropLinks;
    DropsLink();
    var row := A.DropProfileLinks(STALE_ROW, APP, {"x"});
    assert row.profiles == map["d" := LINKED.(links := [])];
  }

  lemma RemovesApplication()
    ensures Call(STALE, "p", RemoveApplication("a", "1")) == Ok(LOST)
  {
    hide P.CreatePackage, P.UpdatePackage, A.CreateApplication, A.UpdateApplication, A.CascadeProfiles;
    CascadeTakesLink();
    assert APP_ROW.profiles.Keys == {"x"};
    assert STALE.applications - {APP} == LOST.applications;
  }

  /**
   * A reachable package that is deployed has a link to an application that is no longer a member, and
   * deleting that application is accepted and takes the link away.
   */
  lemma StaleLinkIsReachable()
    ensures Run(EMPTY, [("p", ADD_REGISTRY), ("p", ADD_APP), ("p", ADD_PACKAGE), ("p", DROP_AND_DEPLOY)]) == STALE
    ensures Runs.Deployed(STALE, PACKAGE) && STALE_ROW.profiles["d"].links == [ProfileLink(APP, "x")]
    ensures APP !in STALE_ROW.applications
    ensures Call(STALE, "p", RemoveApplication("a", "1")).Ok?
    ensures After(STALE, "p", RemoveApplication("a", "1")).packages[PACKAGE].profiles["d"].links == []
  {
    hide Run, Call;
    BuildsPackage();
    DropsAndDeploys();
    var calls := [("p", ADD_REGISTRY), ("p", ADD_APP), ("p", ADD_PACKAGE)];
    RunStep(calls, WITH_PACKAGE, DROP_AND_DEPLOY, STALE);
    assert calls + [("p", DROP_AND_DEPLOY)] ==
           [("p", ADD_REGISTRY), ("p", ADD_APP), ("p", ADD_PACKAGE), ("p", DROP_AND_DEPLOY)];
    RemovesApplication();
  }

  lemma BuildsPackage()
    ensures Run(EMPTY, [("p", ADD_REGISTRY), ("p", ADD_APP)]) == WITH_APP
    ensures Run(EMPTY, [("p", ADD_REGISTRY), ("p", ADD_APP), ("p", ADD_PACKAGE)]) == WITH_PACKAGE
  {
    hide Call;
    assert Run(EMPTY, []) == EMPTY;
    AddsRegistry();
    AddsApplication();
    AddsPackage();
    RunStep([], EMPTY, ADD_REGISTRY, WITH_REGISTRY);
    RunStep([("p", ADD_REGISTRY)], WITH_REGISTRY, ADD_APP, WITH_APP);
    RunStep([("p", ADD_REGISTRY), ("p", ADD_APP)], WITH_APP, ADD_PACKAGE, WITH_PACKAGE);
    assert [] + [("p", ADD_REGISTRY)] == [("p", ADD_REGISTRY)];
    assert [("p", ADD_REGISTRY)] + [("p", ADD_APP)] == [("p", ADD_REGISTRY), ("p", ADD_APP)];
    assert [("p", ADD_REGISTRY), ("p", ADD_APP)] + [("p", ADD_PACKAGE)] ==
           [("p", ADD_REGISTRY), ("p", ADD_APP), ("p", ADD_PACKAGE)];
  }

  // ---------- Shortcuts that lose new profiles ----------

  const X := ProfileRequest("x", "x", "", "", [])
  const Y := ProfileRequest("y", "y", "", "", [])
  const CHANGE_KIND := ChangeApplication("a", "1",
    ApplicationRequest("a", "a", "", "1", Addon, "c", "1", "r", "", [X, Y], "x", [], [], ["x"]))

  lemma KindUpdatesRow()
    ensures A.UpdateRow(WITH_APP, "p", APP, APP_ROW, CHANGE_KIND.application) == Ok(APP_ROW.(kind := "addon"))
  {
    var row, wanted := APP_ROW, [X, Y];
    assert A.ProfileName(X) == "x" && A.SameProfile(X, PROFILE) && A.ProfileName(Y) == "y";
    assert !Altered(row.profiles, wanted, A.ProfileName, A.SameProfile);
    assert A.ProfileName(wanted[0]) == "x";
    assert Named(wanted, A.ProfileName, "x");
    assert !Dropped(row.profiles, wanted, A.ProfileName);
  }

  lemma ChangesKind()
    ensures Call(WITH_APP, "p", CHANGE_KIND) == Ok(WITH_APP.(applications := map[APP := APP_ROW.(kind := "addon")]))
  {
    hide P.CreatePackage, P.UpdatePackage, A.CreateApplication, A.DeleteApplication, A.UpdateRow;
    hide ValidName, ValidApplicationName, ValidVersion, A.CascadeProfiles;
    ShortNames("a");
    ShortNames("1");
    ShortNames("x");
    ShortNames("y");
    KindUpdatesRow();
    AI.CascadeOfUnlinked(WITH_APP, APP, {});
    assert APP_ROW.profiles.Keys - APP_ROW.(kind := "addon").profiles.Keys == {};
    assert WITH_APP.applications[APP := APP_ROW.(kind := "addon")] == map[APP := APP_ROW.(kind := "addon")];
  }

  /** A change of kind that also brings profile y is accepted: the kind is stored, the profile is not. */
  lemma KindUpdateLosesProfile()
    ensures var calls := [("p", ADD_REGISTRY), ("p", ADD_APP)];
            && Run(EMPTY, calls) == WITH_APP && Call(WITH_APP, "p", CHANGE_KIND).Ok?
            && var row := After(WITH_APP, "p", CHANGE_KIND).applications[APP];
               row.kind == "addon" && "y" !in row.profiles
  {
    hide Run, Call;
    BuildsPackage();
    ChangesKind();
  }

  const DEPLOY_WITH_Y := ChangePackage("d", "1",
    PackageRequest("d", "d", "", "1", Normal, true, false, false, [Reference("a", "1")], [], [], [],
                   [WANTED, DeploymentProfileRequest("y", "y", "", None)], "d", [], [], []))

  lemma ReadsBackAlike()
    ensures P.SameProfile(WANTED, LINKED)
  {
    var e := [("a", "x")];
    assert e[..0] == [] && LINKED.links[..0] == [];
    assert EntryMap(e) == map["a" := "x"] && Compose(LINKED.links, false) == map["a" := "x"];
  }

  lemma ProfileIsUnaltered()
    ensures !P.ProfilesChanged(PACKAGE_ROW, DEPLOY_WITH_Y.package)
  {
    hide P.SameProfile;
    ReadsBackAlike();
    var wanted := DEPLOY_WITH_Y.package.profiles;
    assert P.ProfileName(wanted[0]) == "d" && P.ProfileName(wanted[1]) == "y";
    assert !Altered(PACKAGE_ROW.profiles, wanted, P.ProfileName, P.SameProfile);
    assert Named(wanted, P.ProfileName, "d");
  }

  lemma StateUpdatesRow()
    ensures P.UpdateRow(WITH_PACKAGE, "p", PACKAGE_ROW, DEPLOY_WITH_Y.package) == Ok(PACKAGE_ROW.(isDeployed := true))
  {
    hide P.ProfilesChanged, P.ApplyChanges, NewItems;
    ProfileIsUnaltered();
    assert MapSeq(P.StoredReference, [APP]) == [Reference("a", "1")];
  }

  lemma DeployIsValid()
    ensures Admissible(DEPLOY_WITH_Y)
  {
    hide ValidName, ValidVersion;
    ShortNames("a");
    ShortNames("d");
    ShortNames("y");
    ShortNames("1");
  }

  lemma Deploys()
    ensures Call(WITH_PACKAGE, "p", DEPLOY_WITH_Y) ==
            Ok(WITH_PACKAGE.(packages := map[PACKAGE := PACKAGE_ROW.(isDeployed := true)]))
  {
    hide Admissible, P.UpdateRow, P.CreatePackage, A.CreateApplication, A.UpdateApplication, A.DeleteApplication;
    DeployIsValid();
    StateUpdatesRow();
    assert WITH_PACKAGE.packages[PACKAGE := PACKAGE_ROW.(isDeployed := true)] ==
           map[PACKAGE := PACKAGE_ROW.(isDeployed := true)];
  }

  /** A change of state that also brings deployment profile y is accepted: the state is stored, the profile is not. */
  lemma StateUpdateLosesProfile()
    ensures var calls := [("p", ADD_REGISTRY), ("p", ADD_APP), ("p", ADD_PACKAGE)];
            && Run(EMPTY, calls) == WITH_PACKAGE && Call(WITH_PACKAGE, "p", DEPLOY_WITH_Y).Ok?
            && var row := After(WITH_PACKAGE, "p", DEPLOY_WITH_Y).packages[PACKAGE];
               row.isDeployed && "y" !in row.profiles
  {
    hide Run, Call;
    BuildsPackage();
    Deploys();
  }

  // ---------- Display names shown twice ----------

  function BarePackage(name: string, displayName: string): PackageRequest {
    PackageRequest(name, displayName, "", "1", Normal, false, false, false, [], [], [], [], [], "", [], [], [])
  }

  function BareRow(displayName: string): PackageRow {
    PackageRow(displayName, "", "normal", false, false, true, [], [], map[], [], map[], None, [], [])
  }

  lemma AddsBarePackage(db: Db, name: string, displayName: string)
    requires |name| == 1 && LowerAlnum(name[0]) && IsTrimmed(displayName)
    requires VersionedKey("p", name, "1") !in db.packages && !P.DisplayTaken(db, "p", BarePackage(name, displayName))
    ensures Call(db, "p", AddPackage(BarePackage(name, displayName))) ==
            Ok(db.(packages := db.packages[VersionedKey("p", name, "1") := BareRow(DisplayName(name, displayName))]))
  {
    hide ValidName, ValidVersion, P.DisplayTaken, P.UpdatePackage, A.CreateApplication, A.UpdateApplication,
         A.DeleteApplication;
    hide P.MakeDependencies, P.MakeAppNamespaces, P.MakeExtensions, P.MakeArtifacts, MapSeq;
    ShortNames(name);
    ShortNames("1");
    NothingMade(db, []);
    assert P.MakeApplications(db, "p", []) == Ok([]);
  }

  const PACKAGES_A := EMPTY.(packages := map[VersionedKey("p", "a", "1") := BareRow("b")])
  const PACKAGES_AB := EMPTY.(packages :=
      map[VersionedKey("p", "a", "1") := BareRow("b"), VersionedKey("p", "b", "1") := BareRow("b")])

  /** Two packages show the display name "b": one chose it, the other's name stands in for an empty one. */
  lemma PackagesShowOneName()
    ensures Run(EMPTY, [("p", AddPackage(BarePackage("a", "b"))), ("p", AddPackage(BarePackage("b", "")))]) ==
            PACKAGES_AB
  {
    hide Call;
    AddsBarePackage(EMPTY, "a", "b");
    AddsBarePackage(PACKAGES_A, "b", "");
    assert Run(EMPTY, []) == EMPTY;
    assert EMPTY.packages[VersionedKey("p", "a", "1") := BareRow("b")] == PACKAGES_A.packages;
    assert PACKAGES_A.packages[VersionedKey("p", "b", "1") := BareRow("b")] == PACKAGES_AB.packages;
    var a, b := AddPackage(BarePackage("a", "b")), AddPackage(BarePackage("b", ""));
    RunStep([], EMPTY, a, PACKAGES_A);
    assert [] + [("p", a)] == [("p", a)] && [("p", a)] + [("p", b)] == [("p", a), ("p", b)];
    RunStep([("p", a)], PACKAGES_A, b, PACKAGES_AB);
  }

  function BareApplication(name: string, displayName: string): ApplicationRequest {
    ApplicationRequest(name, displayName, "", "1", Normal, "c", "1", "r", "", [], "", [], [], [])
  }

  function BareApplicationRow(displayName: string): ApplicationRow {
    ApplicationRow(displayName, "", "normal", "c", "1", REGISTRY, None, map[], None, [])
  }

  lemma AddsBareApplication(db: Db, name: string, displayName: string)
    requires |name| == 1 && LowerAlnum(name[0]) && IsTrimmed(displayName)
    requires REGISTRY in db.registries && db.registries[REGISTRY].kind == A.HELM
    requires VersionedKey("p", name, "1") !in db.applications &&
             !A.DisplayTaken(db, "p", BareApplication(name, displayName))
    ensures Call(db, "p", AddApplication(BareApplication(name, displayName))) ==
            Ok(db.(applications :=
                db.applications[VersionedKey("p", name, "1") := BareApplicationRow(DisplayName(name, displayName))]))
  {
    hide ValidApplicationName, ValidVersion, A.DisplayTaken, P.CreatePackage, P.UpdatePackage, A.UpdateApplication,
         A.DeleteApplication;
    ShortNames(name);
    ShortNames("1");
    assert A.InjectProfiles(map[], []) == Ok(map[]);
  }

  const APPS_A := WITH_REGISTRY.(applications := map[VersionedKey("p", "a", "1") := BareApplicationRow("b")])
  const APPS_AB := WITH_REGISTRY.(applications :=
    map[VersionedKey("p", "a", "1") := BareApplicationRow("b"), VersionedKey("p", "b", "1") := BareApplicationRow("b")])

  /** Two applications show the display name "b" in the same way. */
  lemma ApplicationsShowOneName()
    ensures Run(EMPTY, [("p", ADD_REGISTRY), ("p", AddApplication(BareApplication("a", "b"))),
                        ("p", AddApplication(BareApplication("b", "")))]) == APPS_AB
  {
    hide Call, Run;
    BuildsPackage();
    AddsRegistry();
    AddsBareApplication(WITH_REGISTRY, "a", "b");
    AddsBareApplication(APPS_A, "b", "");
    assert WITH_REGISTRY.applications[VersionedKey("p", "a", "1") := BareApplicationRow("b")] == APPS_A.applications;
    assert APPS_A.applications[VersionedKey("p", "b", "1") := BareApplicationRow("b")] == APPS_AB.applications;
    var a, b := AddApplication(BareApplication("a", "b")), AddApplication(BareApplication("b", ""));
    HasRegistry();
    RunStep([("p", ADD_REGISTRY)], WITH_REGISTRY, a, APPS_A);
    assert [("p", ADD_REGISTRY)] + [("p", a)] == [("p", ADD_REGISTRY), ("p", a)];
    RunStep([("p", ADD_REGISTRY), ("p", a)], APPS_A, b, APPS_AB);
    assert [("p", ADD_REGISTRY), ("p", a)] + [("p", b)] == [("p", ADD_REGISTRY), ("p", a), ("p", b)];
  }

  lemma HasRegistry()
    ensures Run(EMPTY, [("p", ADD_REGISTRY)]) == WITH_REGISTRY
  {
    hide Call;
    assert Run(EMPTY, []) == EMPTY;
    AddsRegistry();
    RunStep([], EMPTY, ADD_REGISTRY, WITH_REGISTRY);
    assert [] + [("p", ADD_REGISTRY)] == [("p", ADD_REGISTRY)];
  }

  function BareRegistry(name: string, displayName: string): RegistryRequest {
    RegistryRequest(name, displayName, "", A.HELM, "", "")
  }

  function Showing(displayName: string): RegistryRow { RegistryRow(displayName, "", A.HELM, "") }

  const A_SHOWS_B := EMPTY.(registries := map[NamedKey("p", "a") := Showing("b")])
  const B_SHOWS_C := EMPTY.(registries := map[NamedKey("p", "a") := Showing("b"), NamedKey("p", "b") := Showing("c")])
  const BOTH_SHOW_B := EMPTY.(registries := map[NamedKey("p", "a") := Showing("b"), NamedKey("p", "b") := Showing("b")])

  /** An update that leaves the display name empty lets the name stand in, although another registry shows it. */
  lemma RegistriesShowOneName()
    ensures Run(EMPTY, [("p", AddRegistry(BareRegistry("a", "b"))), ("p", AddRegistry(BareRegistry("b", "c"))),
                        ("p", ChangeRegistry("b", BareRegistry("b", "")))]) ==
            BOTH_SHOW_B
  {
    hide Run, Call;
    var a, b, c := AddRegistry(BareRegistry("a", "b")), AddRegistry(BareRegistry("b", "c")),
        ChangeRegistry("b", BareRegistry("b", ""));
    AddsA();
    AddsB();
    ChangesB();
    EmptyRun();
    RunStep([], EMPTY, a, A_SHOWS_B);
    assert [] + [("p", a)] == [("p", a)] && [("p", a)] + [("p", b)] == [("p", a), ("p", b)];
    RunStep([("p", a)], A_SHOWS_B, b, B_SHOWS_C);
    RunStep([("p", a), ("p", b)], B_SHOWS_C, c, BOTH_SHOW_B);
    assert [("p", a), ("p", b)] + [("p", c)] == [("p", a), ("p", b), ("p", c)];
  }

  lemma EmptyRun()
    ensures Run(EMPTY, []) == EMPTY
  {
  }

  lemma AddsA()
    ensures Call(EMPTY, "p", AddRegistry(BareRegistry("a", "b"))) == Ok(A_SHOWS_B)
  {
    hide ValidName, P.CreatePackage, P.UpdatePackage, A.CreateApplication, A.UpdateApplication, A.DeleteApplication;
    ShortNames("a");
  }

  lemma AddsB()
    ensures Call(A_SHOWS_B, "p", AddRegistry(BareRegistry("b", "c"))) == Ok(B_SHOWS_C)
  {
    hide ValidName, P.CreatePackage, P.UpdatePackage, A.CreateApplication, A.UpdateApplication, A.DeleteApplication;
    ShortNames("b");
    assert ToLower("b")[0] == 'b' && ToLower("c")[0] == 'c';
    assert A_SHOWS_B.registries[NamedKey("p", "b") := Showing("c")] == B_SHOWS_C.registries;
  }

  lemma ChangesB()
    ensures Call(B_SHOWS_C, "p", ChangeRegistry("b", BareRegistry("b", ""))) == Ok(BOTH_SHOW_B)
  {
    hide ValidName, P.CreatePackage, P.UpdatePackage, A.CreateApplication, A.UpdateApplication, A.DeleteApplication;
    ShortNames("b");
    assert B_SHOWS_C.registries[NamedKey("p", "b") := Showing("b")] == BOTH_SHOW_B.registries;
  }

  // ---------- Wiping the admin project with a foreign artifact ----------

  const FOREIGN_KEY := NamedKey("q", "a")
  const ADD_FOREIGN := AddArtifact(ArtifactRequest("a", "", "", "", ""), true)
  const FOREIGN := EMPTY.(artifacts := map[FOREIGN_KEY := ArtifactRow("a", "", "", "")])

  lemma AddsForeign()
    ensures Call(EMPTY, "q", ADD_FOREIGN) == Ok(FOREIGN)
  {
    hide ValidName, P.CreatePackage, P.UpdatePackage, A.CreateApplication, A.UpdateApplication, A.DeleteApplication;
    ShortNames("a");
  }

  lemma ListsForeign(order: AP.RowOrder)
    requires Server.IsRowOrder(order)
    ensures AP.Own(FOREIGN.artifacts, ADMIN_PROJECT) == {} &&
            AP.Foreign(FOREIGN.artifacts, ADMIN_PROJECT) == {FOREIGN_KEY}
    ensures AP.PageOf(FOREIGN.artifacts, ADMIN_PROJECT, order) == [FOREIGN_KEY]
    ensures !AP.MorePages(FOREIGN.artifacts, ADMIN_PROJECT, order)
  {
    var artifacts := FOREIGN.artifacts;
    assert AP.Own(artifacts, ADMIN_PROJECT) == {} && AP.Foreign(artifacts, ADMIN_PROJECT) == {FOREIGN_KEY};
    assert AP.Listed(artifacts, ADMIN_PROJECT) == {FOREIGN_KEY};
    AP.PageFacts(artifacts, ADMIN_PROJECT, order);
    var page := AP.PageOf(artifacts, ADMIN_PROJECT, order);
    assert |page| == 1 && page[0] in Elements(page);
  }

  /** Wiping the admin project when another project has an artifact: one pass, one error, nothing deleted. */
  lemma ForeignArtifactCostsAnError(order: AP.RowOrder)
    requires Server.IsRowOrder(order)
    ensures Run(EMPTY, [("q", ADD_FOREIGN)]) == FOREIGN
    ensures AP.PassesEnd(FOREIGN.artifacts, ADMIN_PROJECT) && !AP.MorePages(FOREIGN.artifacts, ADMIN_PROJECT, order)
    ensures AP.Pass(FOREIGN.artifacts, ADMIN_PROJECT, order) == FOREIGN.artifacts
    ensures AP.PassErrors(FOREIGN.artifacts, ADMIN_PROJECT, order) == [NotFound]
  {
    hide Call, Run, AP.PageOf, AP.MorePages, AP.Own, AP.Foreign;
    EmptyRun();
    AddsForeign();
    RunStepIn([], EMPTY, "q", ADD_FOREIGN, FOREIGN);
    assert [] + [("q", ADD_FOREIGN)] == [("q", ADD_FOREIGN)];
    ListsForeign(order);
    AP.DeleteNone(FOREIGN.artifacts, ADMIN_PROJECT);
    AP.DeleteStep(FOREIGN.artifacts, ADMIN_PROJECT, [FOREIGN_KEY]);
    assert [FOREIGN_KEY][..0] == [];
    assert NamedKey(ADMIN_PROJECT, "a") !in FOREIGN.artifacts;
  }
}
