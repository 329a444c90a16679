/** Which calls keep the display names of a project distinct, ignoring case. */
module DisplayNames {
  import opened Prelude
  import opened Text
  import opened Tables
  import opened Catalog
  import opened Invariants
  import Runs
  import AI = AppInvariants
  import AO = ApplicationOverwrite
  import O = Overwrite
  import P = Packages
  import A = Applications
  import R = Registries

  // ---------- Applications and packages: distinct between different names ----------

  type Displays = map<VersionedKey, string>

  function ApplicationDisplays(db: Db): Displays {
    map k | k in db.applications :: db.applications[k].displayName
  }

  function PackageDisplays(db: Db): Displays {
    map k | k in db.packages :: db.packages[k].displayName
  }

  ghost predicate NamesDistinct(shown: Displays, project: string) {
    forall k, l :: k in shown && l in shown && k.project == project && l.project == project && k.name != l.name ==>
      ToLower(shown[k]) != ToLower(shown[l])
  }

  /** Something of another name in the project shows the display name. */
  ghost predicate ShownByOther(shown: Displays, project: string, name: string, displayName: string) {
    exists k :: k in shown && k.project == project && k.name != name && ToLower(shown[k]) == ToLower(displayName)
  }

  lemma SavedIsDistinctIff(shown: Displays, key: VersionedKey, displayName: string)
    requires NamesDistinct(shown, key.project)
    ensures NamesDistinct(shown[key := displayName], key.project) <==>
            !ShownByOther(shown, key.project, key.name, displayName)
  {
    var after := shown[key := displayName];
    if ShownByOther(shown, key.project, key.name, displayName) {
      var k :| k in shown && k.project == key.project && k.name != key.name &&
          ToLower(shown[k]) == ToLower(displayName);
      assert k in after && key in after && after[k] == shown[k];
    } else {
      forall k, l | k in after && l in after && k.project == key.project && l.project == key.project && k.name != l.name
        ensures ToLower(after[k]) != ToLower(after[l])
      {
        if k == key {
          assert l in shown && after[l] == shown[l];
        } else if l == key {
          assert k in shown && after[k] == shown[k];
        }
      }
    }
  }

  ghost predicate IsPart(shown: Displays, of: Displays) {
    forall k :: k in shown ==> k in of && shown[k] == of[k]
  }

  lemma PartIsDistinct(shown: Displays, of: Displays, project: string)
    requires IsPart(shown, of) && NamesDistinct(of, project)
    ensures NamesDistinct(shown, project)
  {
  }

  /** The call stores an application under this name and display name. */
  predicate SavesApplication(op: Op) { op.AddApplication? || op.ChangeApplication? }

  predicate SavesPackage(op: Op) { op.AddPackage? || op.ChangePackage? }

  lemma SavedApplicationShows(db: Db, project: string, op: Op, db': Db)
    requires Inv(db) && SavesApplication(op) && Transact(db, project, op) == Ok(db')
    ensures var req := op.application;
            ApplicationDisplays(db') ==
            ApplicationDisplays(db)[A.ApplicationKey(project, req) := DisplayName(req.name, req.displayName)]
  {
    hide Inv, P.CreatePackage, P.UpdatePackage, A.UpdateApplication, A.DeleteApplication, A.UpdateRow, A.InjectProfiles;
    var req := op.application;
    var key := A.ApplicationKey(project, req);
    if op.ChangeApplication? {
      AI.UpdateApplicationParts(db, project, req, db');
      AO.RootIsOverwritten(db, project, key, db.applications[key], A.Normalized(db.applications[key], req),
          db'.applications[key]);
    }
  }

  lemma SavedPackageShows(db: Db, project: string, op: Op, db': Db)
    requires Inv(db) && SavesPackage(op) && Transact(db, project, op) == Ok(db')
    ensures var req := op.package;
            PackageDisplays(db') ==
                PackageDisplays(db)[P.PackageKey(project, req) := DisplayName(req.name, req.displayName)]
  {
    hide P.UpdateRow, A.CreateApplication, A.UpdateApplication, A.DeleteApplication, PackageFits, ApplicationFits;
    hide P.MakeApplications, P.MakeDependencies, P.MakeAppNamespaces, P.InjectProfiles, P.MakeExtensions,
         P.MakeArtifacts;
    var req := op.package;
    var key := P.PackageKey(project, req);
    if op.ChangePackage? {
      StoredIsSettled(db, key);
      UpdatedRootShows(db, project, db.packages[key], req, db'.packages[key]);
    }
  }

  lemma StoredIsSettled(db: Db, key: VersionedKey)
    requires Inv(db) && key in db.packages
    ensures O.Settled(key.project, db.packages[key])
  {
    assert PackageFits(db, key, db.packages[key]);
  }

  lemma UpdatedRootShows(db: Db, project: string, row: PackageRow, req: PackageRequest, row': PackageRow)
    requires O.Settled(project, row) && !P.NeedsDefault(req) && P.UpdateRow(db, project, row, req) == Ok(row')
    ensures row'.displayName == DisplayName(req.name, req.displayName)
  {
    hide P.UpdateRow, P.PackageChanges;
    O.UpdateRewrites(db, project, row, req, row');
  }

  /** A call that stores no application leaves the display names of applications or removes some. */
  lemma OtherCallsShowNoNewApplication(db: Db, project: string, op: Op, db': Db)
    requires !SavesApplication(op) && Transact(db, project, op) == Ok(db')
    ensures IsPart(ApplicationDisplays(db'), ApplicationDisplays(db))
  {
    hide A.CreateApplication, A.UpdateApplication, P.UpdateRow, A.CascadeProfiles;
    hide P.MakeApplications, P.MakeDependencies, P.MakeAppNamespaces, P.InjectProfiles, P.MakeExtensions,
         P.MakeArtifacts;
  }

  lemma OtherCallsShowNoNewPackage(db: Db, project: string, op: Op, db': Db)
    requires !SavesPackage(op) && Transact(db, project, op) == Ok(db')
    ensures IsPart(PackageDisplays(db'), PackageDisplays(db))
  {
    hide P.CreatePackage, P.UpdatePackage, A.UpdateRow, A.InjectProfiles, A.FindRegistries, A.DropLinks;
  }

  /**
   * An accepted call keeps the display names of applications distinct, unless it stores one under a
   * display name that an application of another name shows; exactly then it does not.
   */
  lemma ApplicationNamesStayDistinctIff(db: Db, active: string, op: Op)
    requires Reachable(db) && Call(db, active, op).Ok? && NamesDistinct(ApplicationDisplays(db), ActiveProject(active))
    ensures NamesDistinct(ApplicationDisplays(After(db, active, op)), ActiveProject(active)) <==>
            !(SavesApplication(op) &&
              ShownByOther(ApplicationDisplays(db), ActiveProject(active), op.application.name,
                           DisplayName(op.application.name, op.application.displayName)))
  {
    hide Reachable, Inv, Transact, NamesDistinct, ShownByOther, ApplicationDisplays;
    var project, db' := ActiveProject(active), After(db, active, op);
    Runs.EveryReachableStateFits(db);
    if SavesApplication(op) {
      var req := op.application;
      SavedApplicationShows(db, project, op, db');
      SavedIsDistinctIff(ApplicationDisplays(db), A.ApplicationKey(project, req),
          DisplayName(req.name, req.displayName));
    } else {
      OtherCallsShowNoNewApplication(db, project, op, db');
      PartIsDistinct(ApplicationDisplays(db'), ApplicationDisplays(db), project);
    }
  }

  /** The same for deployment packages. */
  lemma PackageNamesStayDistinctIff(db: Db, active: string, op: Op)
    requires Reachable(db) && Call(db, active, op).Ok? && NamesDistinct(PackageDisplays(db), ActiveProject(active))
    ensures NamesDistinct(PackageDisplays(After(db, active, op)), ActiveProject(active)) <==>
            !(SavesPackage(op) &&
              ShownByOther(PackageDisplays(db), ActiveProject(active), op.package.name,
                           DisplayName(op.package.name, op.package.displayName)))
  {
    hide Reachable, Inv, Transact, NamesDistinct, ShownByOther, PackageDisplays;
    var project, db' := ActiveProject(active), After(db, active, op);
    Runs.EveryReachableStateFits(db);
    if SavesPackage(op) {
      var req := op.package;
      SavedPackageShows(db, project, op, db');
      SavedIsDistinctIff(PackageDisplays(db), P.PackageKey(project, req), DisplayName(req.name, req.displayName));
    } else {
      OtherCallsShowNoNewPackage(db, project, op, db');
      PartIsDistinct(PackageDisplays(db'), PackageDisplays(db), project);
    }
  }

  /** A creation with a display name of its own is refused if another name shows it: it always keeps names distinct. */
  lemma CreationWithDisplayNameIsDistinct(db: Db, active: string, op: Op)
    requires Call(db, active, op).Ok?
    ensures op.AddApplication? && op.application.displayName != "" ==>
              !ShownByOther(ApplicationDisplays(db), ActiveProject(active), op.application.name,
                  op.application.displayName)
    ensures op.AddPackage? && op.package.displayName != "" ==>
              !ShownByOther(PackageDisplays(db), ActiveProject(active), op.package.name, op.package.displayName)
  {
    hide A.UpdateApplication, A.DeleteApplication, P.UpdatePackage, A.InjectProfiles, A.FindRegistries;
    hide P.MakeApplications, P.MakeDependencies, P.MakeAppNamespaces, P.InjectProfiles, P.MakeExtensions,
         P.MakeArtifacts;
    var project := ActiveProject(active);
    if op.AddApplication? && op.application.displayName != "" {
      assert !A.DisplayTaken(db, project, op.application);
    }
    if op.AddPackage? && op.package.displayName != "" {
      assert !P.DisplayTaken(db, project, op.package);
    }
  }

  // ---------- Registries ----------

  ghost predicate RegistryNamesDistinct(db: Db, project: string) {
    forall k, l ::
      k in db.registries && l in db.registries && k.project == project && l.project == project && k != l ==>
        ToLower(db.registries[k].displayName) != ToLower(db.registries[l].displayName)
  }

  ghost predicate RegistryShownByOther(db: Db, project: string, name: string, displayName: string) {
    exists k :: k in db.registries && k.project == project && k.name != name &&
                ToLower(db.registries[k].displayName) == ToLower(displayName)
  }

  lemma SavedRegistryIsDistinctIff(db: Db, key: NamedKey, row: RegistryRow)
    requires RegistryNamesDistinct(db, key.project)
    ensures RegistryNamesDistinct(db.(registries := db.registries[key := row]), key.project) <==>
            !RegistryShownByOther(db, key.project, key.name, row.displayName)
  {
    var after := db.registries[key := row];
    if RegistryShownByOther(db, key.project, key.name, row.displayName) {
      var k :| k in db.registries && k.project == key.project && k.name != key.name &&
               ToLower(db.registries[k].displayName) == ToLower(row.displayName);
      assert k in after && key in after && after[k] == db.registries[k];
    } else {
      forall k, l | k in after && l in after && k.project == key.project && l.project == key.project && k != l
        ensures ToLower(after[k].displayName) != ToLower(after[l].displayName)
      {
        if k == key {
          assert l in db.registries && l.name != key.name;
        } else if l == key {
          assert k in db.registries && k.name != key.name;
        }
      }
    }
  }

  /** A call that stores no registry leaves the registries or removes one. */
  lemma OtherCallsSaveNoRegistry(db: Db, project: string, op: Op, db': Db)
    requires !op.AddRegistry? && !op.ChangeRegistry? && Transact(db, project, op) == Ok(db')
    ensures forall k :: k in db'.registries ==> k in db.registries && db'.registries[k] == db.registries[k]
  {
    hide P.UpdateRow, P.MakeApplications, P.MakeDependencies, P.MakeAppNamespaces, P.InjectProfiles, P.MakeExtensions,
         P.MakeArtifacts;
    hide A.UpdateRow, A.InjectProfiles, A.FindRegistries, A.CascadeProfiles;
  }

  /**
   * An accepted call keeps the display names of registries distinct, unless it is an update without a
   * display name and another registry shows the name; exactly then it does not.
   */
  lemma RegistryNamesStayDistinctIff(db: Db, active: string, op: Op)
    requires Call(db, active, op).Ok? && RegistryNamesDistinct(db, ActiveProject(active))
    ensures RegistryNamesDistinct(After(db, active, op), ActiveProject(active)) <==>
            !(op.ChangeRegistry? && op.registry.displayName == "" &&
              RegistryShownByOther(db, ActiveProject(active), op.registry.name, op.registry.name))
  {
    hide P.CreatePackage, P.UpdatePackage, P.DeletePackage, A.CreateApplication, A.UpdateApplication,
         A.DeleteApplication;
    var project, db' := ActiveProject(active), After(db, active, op);
    if op.AddRegistry? || op.ChangeRegistry? {
      var req, key := op.registry, NamedKey(project, op.registry.name);
      SavedRegistryIsDistinctIff(db, key, db'.registries[key]);
      assert R.RegistryDisplayTaken(db, project, req.name, req.displayName) <==>
             req.displayName != "" && RegistryShownByOther(db, project, req.name, req.displayName);
    } else {
      OtherCallsSaveNoRegistry(db, project, op, db');
    }
  }
}
