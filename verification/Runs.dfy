/** Safety over whole runs: the invariant in every reachable state, and "deployed means frozen". */
module Runs {
  import opened Prelude
  import opened Text
  import opened Tables
  import opened Catalog
  import opened Invariants
  import AI = AppInvariants
  import P = Packages
  import A = Applications
  import O = Overwrite

  // ---------- Reachable states ----------

  lemma TransactKeepsInv(db: Db, project: string, op: Op, db': Db)
    requires Inv(db) && project != "" && Admissible(op) && Transact(db, project, op) == Ok(db')
    ensures Inv(db')
  {
    hide Inv, P.CreatePackage, P.UpdatePackage, P.DeletePackage, A.CreateApplication, A.UpdateApplication,
         A.DeleteApplication;
    match op
    case AddRegistry(r) => CreateRegistryKeepsInv(db, project, r, db');
    case ChangeRegistry(_, r) => UpdateRegistryKeepsInv(db, project, r, db');
    case RemoveRegistry(name) => DeleteRegistryKeepsInv(db, NamedKey(project, name), db');
    case AddArtifact(a, _) => SaveArtifactKeepsInv(db, project, a, db');
    case ChangeArtifact(_, a, _) => SaveArtifactKeepsInv(db, project, a, db');
    case RemoveArtifact(name) => DeleteArtifactKeepsInv(db, NamedKey(project, name), db');
    case AddApplication(a) => AI.CreateApplicationKeepsInv(db, project, a, db');
    case ChangeApplication(_, _, a) => AI.UpdateApplicationKeepsInv(db, project, a, db');
    case RemoveApplication(name, version) => AI.DeleteApplicationKeepsInv(db, VersionedKey(project, name, version),
        db');
    case AddPackage(p) => CreatePackageKeepsInv(db, project, p, db');
    case ChangePackage(_, _, p) => UpdatePackageKeepsInv(db, project, p, db');
    case RemovePackage(name, version) => DeletePackageKeepsInv(db, VersionedKey(project, name, version), db');
  }

  lemma AfterKeepsInv(db: Db, active: string, op: Op)
    requires Inv(db)
    ensures Inv(After(db, active, op))
  {
    match Call(db, active, op)
    case Ok(db') => TransactKeepsInv(db, ActiveProject(active), op, db');
    case Err(_) =>
  }

  lemma {:induction false} RunKeepsInv(db: Db, calls: seq<(string, Op)>)
    requires Inv(db)
    ensures Inv(Run(db, calls))
  {
    if calls != [] {
      var last := |calls| - 1;
      RunKeepsInv(db, calls[..last]);
      AfterKeepsInv(Run(db, calls[..last]), calls[last].0, calls[last].1);
    }
  }

  /** Every state that calls can reach from the empty catalog satisfies the invariant. */
  lemma EveryReachableStateFits(db: Db)
    requires Reachable(db)
    ensures Inv(db)
  {
    var calls :| db == Run(EMPTY, calls);
    RunKeepsInv(EMPTY, calls);
  }

  /**
   * Membership closure: in every reachable state a package's applications exist in its project,
   * its dependencies and default namespaces stay among them, and nothing depends on itself.
   */
  lemma MembershipIsClosed(db: Db, k: VersionedKey)
    requires Reachable(db) && k in db.packages
    ensures var row := db.packages[k];
            && (forall a :: a in row.applications ==> a in db.applications && a.project == k.project)
            && (forall d :: d in row.dependencies ==>
                  d.source in row.applications && d.target in row.applications && d.source != d.target)
            && (forall n :: n in row.appNamespaces ==> row.appNamespaces[n].app in row.applications)
  {
    EveryReachableStateFits(db);
    assert PackageFits(db, k, db.packages[k]);
  }

  /** Registry types: the helm registry is a HELM one, the image registry an IMAGE one, both of the project. */
  lemma RegistriesHaveTheirType(db: Db, k: VersionedKey)
    requires Reachable(db) && k in db.applications
    ensures var row := db.applications[k];
            && HasRegistry(db, row.helmRegistry, k.project, A.HELM)
            && (row.imageRegistry.Some? ==> HasRegistry(db, row.imageRegistry.value, k.project, A.IMAGE))
  {
    EveryReachableStateFits(db);
    assert ApplicationFits(db, k, db.applications[k]);
  }

  /** Default profiles: present exactly when there are profiles, and one of the owner's own. */
  lemma DefaultsAreOwn(db: Db)
    requires Reachable(db)
    ensures forall k :: k in db.applications ==>
              DefaultFits(db.applications[k].profiles.Keys, db.applications[k].defaultProfile)
    ensures forall k :: k in db.packages ==>
              DefaultFits(db.packages[k].profiles.Keys, db.packages[k].defaultProfile)
  {
    EveryReachableStateFits(db);
    forall k | k in db.applications
      ensures DefaultFits(db.applications[k].profiles.Keys, db.applications[k].defaultProfile)
    {
      assert ApplicationFits(db, k, db.applications[k]);
    }
    forall k | k in db.packages
      ensures DefaultFits(db.packages[k].profiles.Keys, db.packages[k].defaultProfile)
    {
      assert PackageFits(db, k, db.packages[k]);
    }
  }

  /** Artifact display names: pairwise distinct within a project, ignoring case. */
  lemma ArtifactNamesAreDistinct(db: Db, k: NamedKey, l: NamedKey)
    requires Reachable(db) && k in db.artifacts && l in db.artifacts && k.project == l.project
    requires ToLower(db.artifacts[k].displayName) == ToLower(db.artifacts[l].displayName)
    ensures k == l
  {
    EveryReachableStateFits(db);
  }

  // ---------- What freezing means ----------

  predicate SameTexts(a: DeploymentProfileRow, b: DeploymentProfileRow) {
    a.displayName == b.displayName && a.description == b.description
  }

  function MemberLinks(apps: seq<VersionedKey>, links: seq<ProfileLink>): seq<ProfileLink> {
    if links == [] then [] else
      var last := |links| - 1;
      MemberLinks(apps, links[..last]) + if links[last].app in apps then [links[last]] else []
  }

  /** A stored deployment profile keeps its texts and its links to members, and gains no link. */
  ghost predicate FrozenProfile(apps: seq<VersionedKey>, a: DeploymentProfileRow, b: DeploymentProfileRow) {
    SameTexts(a, b) && MemberLinks(apps, a.links) == MemberLinks(apps, b.links) &&
    forall l :: l in b.links ==> l in a.links
  }

  /** Everything but kind and state is kept; new deployment profiles may have been added. */
  ghost predicate FrozenPackage(a: PackageRow, b: PackageRow) {
    && a.displayName == b.displayName && a.description == b.description
    && a.isVisible == b.isVisible && a.allowsMultiple == b.allowsMultiple
    && a.applications == b.applications && a.dependencies == b.dependencies
    && a.appNamespaces == b.appNamespaces && a.namespaces == b.namespaces
    && a.extensions == b.extensions && a.artifacts == b.artifacts
    && a.defaultProfile == b.defaultProfile
    && forall n :: n in a.profiles ==> n in b.profiles && FrozenProfile(a.applications, a.profiles[n], b.profiles[n])
  }

  ghost predicate FrozenApplication(a: ApplicationRow, b: ApplicationRow) {
    && a.displayName == b.displayName && a.description == b.description
    && a.chartName == b.chartName && a.chartVersion == b.chartVersion
    && a.defaultProfile == b.defaultProfile
    && forall n :: n in a.profiles ==> n in b.profiles && b.profiles[n] == a.profiles[n]
  }

  predicate Deployed(db: Db, k: VersionedKey) {
    k in db.packages && db.packages[k].isDeployed
  }

  /** The package and its members are still there; if it is still deployed, they are unchanged. */
  ghost predicate Frozen(db: Db, db': Db, k: VersionedKey)
    requires k in db.packages
  {
    && k in db'.packages
    && (db'.packages[k].isDeployed ==> FrozenPackage(db.packages[k], db'.packages[k]))
    && forall a :: a in db.packages[k].applications ==>
         a in db.applications && a in db'.applications &&
         (db'.packages[k].isDeployed ==> FrozenApplication(db.applications[a], db'.applications[a]))
  }

  lemma MembersExist(db: Db, k: VersionedKey)
    requires Inv(db) && k in db.packages
    ensures forall a :: a in db.packages[k].applications ==> a in db.applications
  {
    assert PackageFits(db, k, db.packages[k]);
  }

  /** A step that leaves the package row alone and freezes its members. */
  lemma FrozenMembers(db: Db, db': Db, k: VersionedKey)
    requires k in db.packages && k in db'.packages && db'.packages[k] == db.packages[k]
    requires forall a :: a in db.packages[k].applications ==>
               a in db.applications && a in db'.applications &&
                   FrozenApplication(db.applications[a], db'.applications[a])
    ensures Frozen(db, db', k)
  {
  }

  /** A step that leaves the package row and all application rows alone. */
  lemma SelfFrozen(db: Db, db': Db, k: VersionedKey)
    requires Inv(db) && k in db.packages
    requires k in db'.packages && db'.packages[k] == db.packages[k]
    requires db'.applications == db.applications
    ensures Frozen(db, db', k)
  {
    MembersExist(db, k);
    FrozenMembers(db, db', k);
  }

  // ---------- One step ----------

  /** Without a reported change, the profile part of an update only adds. */
  lemma ProfilesOnlyAdded(
    db: Db, apps: seq<VersionedKey>, row: PackageRow, req: PackageRequest, ch: P.Changes,
    t: P.ProfileTable, default: Option<string>)
    requires DefaultFits(row.profiles.Keys, row.defaultProfile)
    requires P.PackageChanges(row, req) == Ok(ch) && !ch.Changed()
    requires P.ApplyProfiles(db, apps, row, req, ch) == Ok((t, default))
    ensures default == row.defaultProfile
    ensures forall n :: n in row.profiles ==> n in t && t[n] == row.profiles[n]
  {
    O.InjectedNames(db, apps, row.profiles, ch.newProfiles, t);
  }

  lemma RootFlag(row: PackageRow, req: PackageRequest, ch: P.Changes)
    requires P.PackageChanges(row, req) == Ok(ch)
    ensures ch.rootRecord <==> P.RootChanged(row, req)
  {
  }

  /** An update that keeps the package deployed changes at most its kind and adds profiles. */
  lemma UpdateOfDeployed(db: Db, project: string, row: PackageRow, req: PackageRequest, row': PackageRow)
    requires DisplayFits(row.displayName) && DefaultFits(row.profiles.Keys, row.defaultProfile)
    requires row.isDeployed && row'.isDeployed
    requires P.UpdateRow(db, project, row, req) == Ok(row')
    ensures FrozenPackage(row, row')
    ensures forall n :: n in row.profiles ==> n in row'.profiles && row'.profiles[n] == row.profiles[n]
  {
    hide P.PackageChanges, P.ApplyChanges, P.ApplyMembers, P.ApplyProfiles;
    var ch := P.PackageChanges(row, req).value;
    if !(ch.kindOrState && !ch.Changed()) {
      RootFlag(row, req, ch);
      O.AppliedParts(db, project, row, req, ch, row');
      var m := P.Members(row'.applications, row'.dependencies, row'.appNamespaces);
      assert !ch.Changed();
      O.AppliedMembers(db, project, row, req, ch, m);
      ProfilesOnlyAdded(db, row'.applications, row, req, ch, row'.profiles, row'.defaultProfile);
    }
  }

  /** An update of a member of a deployed package changes at most its kind, registries and additions. */
  lemma UpdateOfMember(
    db: Db, project: string, app: VersionedKey, row: ApplicationRow, req: ApplicationRequest, row': ApplicationRow)
    requires A.InDeployedPackage(db, app)
    requires A.UpdateRow(db, project, app, row, req) == Ok(row')
    ensures FrozenApplication(row, row')
  {
    var ch := A.ApplicationChanges(row, req);
    if !(ch.kind && !ch.Changed()) {
      AI.InjectedNames(row.profiles, ch.newProfiles, row'.profiles);
    }
  }

  lemma ChangeApplicationFreezes(db: Db, project: string, req: ApplicationRequest, db': Db, k: VersionedKey)
    requires Inv(db) && Deployed(db, k) && A.UpdateApplication(db, project, req) == Ok(db')
    ensures Frozen(db, db', k)
  {
    AI.UpdateApplicationParts(db, project, req, db');
    AI.UpdateApplicationKeepsPackages(db, project, req, db');
    MembersExist(db, k);
    MembersStayFrozen(db, project, req, db', k);
    FrozenMembers(db, db', k);
  }

  lemma MembersStayFrozen(db: Db, project: string, req: ApplicationRequest, db': Db, k: VersionedKey)
    requires Deployed(db, k)
    requires var key := A.ApplicationKey(project, req);
             && key in db.applications && key in db'.applications
             && A.UpdateRow(db, project, key, db.applications[key], A.Normalized(db.applications[key], req)) ==
                 Ok(db'.applications[key])
             && db'.applications == db.applications[key := db'.applications[key]]
    ensures forall a :: a in db.packages[k].applications && a in db.applications ==>
              a in db'.applications && FrozenApplication(db.applications[a], db'.applications[a])
  {
    var key := A.ApplicationKey(project, req);
    if key in db.packages[k].applications {
      assert A.InDeployedPackage(db, key);
      UpdateOfMember(db, project, key, db.applications[key], A.Normalized(db.applications[key], req),
          db'.applications[key]);
    }
  }

  lemma {:induction false} MemberLinksSurvive(
    apps: seq<VersionedKey>, links: seq<ProfileLink>, app: VersionedKey, gone: set<string>)
    requires app !in apps
    ensures MemberLinks(apps, A.DropLinks(links, app, gone)) == MemberLinks(apps, links)
  {
    if links != [] {
      var last := |links| - 1;
      MemberLinksSurvive(apps, links[..last], app, gone);
      var before := A.DropLinks(links[..last], app, gone);
      assert (before + [links[last]])[..|before|] == before;
    }
  }

  lemma RemoveApplicationFreezes(db: Db, app: VersionedKey, db': Db, k: VersionedKey)
    requires Inv(db) && Deployed(db, k) && A.DeleteApplication(db, app) == Ok(db')
    ensures Frozen(db, db', k)
  {
    MembersExist(db, k);
    var row, gone := db.packages[k], db.applications[app].profiles.Keys;
    assert app !in row.applications && db'.packages[k] == A.DropProfileLinks(row, app, gone);
    DroppedLinksFreeze(row, app, gone);
  }

  lemma DroppedLinksFreeze(row: PackageRow, app: VersionedKey, gone: set<string>)
    requires app !in row.applications
    ensures FrozenPackage(row, A.DropProfileLinks(row, app, gone))
  {
    forall n | n in row.profiles
      ensures FrozenProfile(row.applications, row.profiles[n], A.DropProfileLinks(row, app, gone).profiles[n])
    {
      MemberLinksSurvive(row.applications, row.profiles[n].links, app, gone);
    }
  }

  lemma ChangePackageFreezes(db: Db, project: string, req: PackageRequest, db': Db, k: VersionedKey)
    requires Inv(db) && Deployed(db, k) && P.UpdatePackage(db, project, req) == Ok(db')
    ensures Frozen(db, db', k)
  {
    MembersExist(db, k);
    if k != P.PackageKey(project, req) {
      SelfFrozen(db, db', k);
    } else if db'.packages[k].isDeployed {
      assert PackageFits(db, k, db.packages[k]);
      UpdateOfDeployed(db, project, db.packages[k], req, db'.packages[k]);
    }
  }

  lemma RegistryStepFreezes(db: Db, project: string, op: Op, db': Db, k: VersionedKey)
    requires Inv(db) && Deployed(db, k) && Transact(db, project, op) == Ok(db')
    requires op.AddRegistry? || op.ChangeRegistry? || op.RemoveRegistry?
    ensures Frozen(db, db', k)
  {
    hide Inv, Frozen, P.CreatePackage, P.UpdatePackage, P.DeletePackage, A.CreateApplication, A.UpdateApplication,
         A.DeleteApplication;
    if op.RemoveRegistry? {
      DeleteRegistryKeepsInv(db, NamedKey(project, op.name), db');
    }
    SelfFrozen(db, db', k);
  }

  lemma ArtifactStepFreezes(db: Db, project: string, op: Op, db': Db, k: VersionedKey)
    requires Inv(db) && Deployed(db, k) && Transact(db, project, op) == Ok(db')
    requires op.AddArtifact? || op.ChangeArtifact? || op.RemoveArtifact?
    ensures Frozen(db, db', k)
  {
    hide Inv, Frozen, P.CreatePackage, P.UpdatePackage, P.DeletePackage, A.CreateApplication, A.UpdateApplication,
         A.DeleteApplication;
    SelfFrozen(db, db', k);
  }

  lemma AddPackageFreezes(db: Db, project: string, req: PackageRequest, db': Db, k: VersionedKey)
    requires Inv(db) && Deployed(db, k) && P.CreatePackage(db, project, req) == Ok(db')
    ensures Frozen(db, db', k)
  {
    CreatePackageAdds(db, project, req, db');
    SelfFrozen(db, db', k);
  }

  lemma RemovePackageFreezes(db: Db, key: VersionedKey, db': Db, k: VersionedKey)
    requires Inv(db) && Deployed(db, k) && P.DeletePackage(db, key) == Ok(db')
    ensures Frozen(db, db', k)
  {
    SelfFrozen(db, db', k);
  }

  lemma AddApplicationFreezes(db: Db, project: string, req: ApplicationRequest, db': Db, k: VersionedKey)
    requires Inv(db) && Deployed(db, k) && project != "" && A.ValidApplication(req)
    requires A.CreateApplication(db, project, req) == Ok(db')
    ensures Frozen(db, db', k)
  {
    hide Inv, Frozen, A.CreateApplication, ApplicationFits;
    AI.CreatedRowFits(db, project, req, db');
    NewKey(db, project, req, db');
    MembersExist(db, k);
    FrozenMembers(db, db', k);
  }

  lemma NewKey(db: Db, project: string, req: ApplicationRequest, db': Db)
    requires A.CreateApplication(db, project, req) == Ok(db')
    ensures A.ApplicationKey(project, req) !in db.applications
  {
  }

  lemma StepFreezes(db: Db, active: string, op: Op, k: VersionedKey)
    requires Inv(db) && Deployed(db, k)
    ensures Frozen(db, After(db, active, op), k)
  {
    hide Inv, Frozen, P.CreatePackage, P.UpdatePackage, P.DeletePackage, A.CreateApplication, A.UpdateApplication,
         A.DeleteApplication;
    var project, db' := ActiveProject(active), After(db, active, op);
    if Call(db, active, op).Err? {
      SelfFrozen(db, db', k);
    } else {
      match op {
        case AddRegistry(_) => RegistryStepFreezes(db, project, op, db', k);
        case ChangeRegistry(_, _) => RegistryStepFreezes(db, project, op, db', k);
        case RemoveRegistry(_) => RegistryStepFreezes(db, project, op, db', k);
        case AddApplication(a) => AddApplicationFreezes(db, project, a, db', k);
        case ChangeApplication(_, _, a) => ChangeApplicationFreezes(db, project, a, db', k);
        case RemoveApplication(name, version) =>
          RemoveApplicationFreezes(db, VersionedKey(project, name, version), db', k);
        case ChangePackage(_, _, p) => ChangePackageFreezes(db, project, p, db', k);
        case AddPackage(p) => AddPackageFreezes(db, project, p, db', k);
        case RemovePackage(name, version) => RemovePackageFreezes(db, VersionedKey(project, name, version), db', k);
        case _ => ArtifactStepFreezes(db, project, op, db', k);
      }
    }
  }

  // ---------- Whole runs ----------

  lemma FrozenTransitive(a: Db, b: Db, c: Db, k: VersionedKey)
    requires k in a.packages && k in b.packages && k in c.packages
    requires b.packages[k].isDeployed && c.packages[k].isDeployed
    requires Frozen(a, b, k) && Frozen(b, c, k)
    ensures Frozen(a, c, k)
  {
    var x, y, z := a.packages[k], b.packages[k], c.packages[k];
    forall n | n in x.profiles
      ensures n in z.profiles && FrozenProfile(x.applications, x.profiles[n], z.profiles[n])
    {
      assert FrozenProfile(x.applications, x.profiles[n], y.profiles[n]);
      assert FrozenProfile(x.applications, y.profiles[n], z.profiles[n]);
    }
    assert FrozenPackage(x, z);
    forall m | m in x.applications
      ensures m in a.applications && m in c.applications && FrozenApplication(a.applications[m], c.applications[m])
    {
    }
  }

  /**
   * Deployed means frozen: over any run in which the package is deployed in every state, nothing
   * but its kind changes and nothing is lost, for the package and for its member applications.
   */
  lemma {:induction false} FrozenWhileDeployed(db: Db, calls: seq<(string, Op)>, k: VersionedKey)
    requires Inv(db)
    requires forall i :: 0 <= i <= |calls| ==> Deployed(Run(db, calls[..i]), k)
    ensures k in db.packages && Frozen(db, Run(db, calls), k)
  {
    hide Inv, Frozen, Call;
    assert calls[..0] == [] && Deployed(Run(db, calls[..0]), k);
    if calls == [] {
      SelfFrozen(db, db, k);
    } else {
      var last := |calls| - 1;
      var before := Run(db, calls[..last]);
      forall i | 0 <= i <= last
        ensures Deployed(Run(db, calls[..last][..i]), k)
      {
        assert calls[..last][..i] == calls[..i];
      }
      FrozenWhileDeployed(db, calls[..last], k);
      RunKeepsInv(db, calls[..last]);
      StepFreezes(before, calls[last].0, calls[last].1, k);
      assert calls[..|calls|] == calls;
      assert calls[..last] == calls[..last][..last];
      FrozenTransitive(db, before, Run(db, calls), k);
    }
  }

  /** A deployed package and its members survive any next call, whatever it is. */
  lemma DeployedIsNeverDeleted(db: Db, active: string, op: Op, k: VersionedKey, a: VersionedKey)
    requires Inv(db) && Deployed(db, k) && a in db.packages[k].applications
    ensures k in After(db, active, op).packages && a in After(db, active, op).applications
  {
    StepFreezes(db, active, op, k);
  }

  // ---------- Links to non-members ----------

  predicate OnlyMemberLinks(apps: seq<VersionedKey>, links: seq<ProfileLink>) {
    forall i :: 0 <= i < |links| ==> links[i].app in apps
  }

  lemma {:induction false} AllMemberLinks(apps: seq<VersionedKey>, links: seq<ProfileLink>)
    requires OnlyMemberLinks(apps, links)
    ensures MemberLinks(apps, links) == links
  {
    if links != [] {
      var last := |links| - 1;
      AllMemberLinks(apps, links[..last]);
      assert links == links[..last] + [links[last]];
    }
  }

  /** If a stored profile links only to members, freezing keeps it to the last link. */
  lemma FrozenLinksAreEqual(apps: seq<VersionedKey>, a: DeploymentProfileRow, b: DeploymentProfileRow)
    requires FrozenProfile(apps, a, b) && OnlyMemberLinks(apps, a.links)
    ensures a == b
  {
    AllMemberLinks(apps, a.links);
    forall i | 0 <= i < |b.links|
      ensures b.links[i].app in apps
    {
      assert b.links[i] in a.links;
    }
    AllMemberLinks(apps, b.links);
  }

  /**
   * A link left over from an application that is no longer a member is not protected: deleting that
   * application changes a deployed package's profile if and only if the profile links to it.
   */
  lemma StaleLinkIsLostIff(db: Db, app: VersionedKey, db': Db, k: VersionedKey, n: string)
    requires Inv(db) && Deployed(db, k) && n in db.packages[k].profiles
    requires A.DeleteApplication(db, app) == Ok(db')
    ensures n in db'.packages[k].profiles
    ensures db'.packages[k].profiles[n] != db.packages[k].profiles[n] <==>
            exists i :: 0 <= i < |db.packages[k].profiles[n].links| && db.packages[k].profiles[n].links[i].app == app
  {
    var links := db.packages[k].profiles[n].links;
    var gone := db.applications[app].profiles.Keys;
    assert PackageFits(db, k, db.packages[k]);
    assert LinksFit(db, k.project, links);
    if exists i :: 0 <= i < |links| && links[i].app == app {
      var i :| 0 <= i < |links| && links[i].app == app;
      assert LinkFits(db, k.project, links[i]);
      assert links[i] !in A.DropLinks(links, app, gone);
    } else {
      AI.DropLinksKeeps(links, app, gone);
    }
  }

  /** A step other than the deletion of an application leaves the stored profiles of a deployed package alone. */
  lemma OtherStepsKeepProfiles(db: Db, project: string, op: Op, db': Db, k: VersionedKey)
    requires Inv(db) && Deployed(db, k) && project != "" && Admissible(op) && Transact(db, project, op) == Ok(db')
    requires !op.RemoveApplication? && Deployed(db', k)
    ensures forall n :: n in db.packages[k].profiles ==>
              n in db'.packages[k].profiles && db'.packages[k].profiles[n] == db.packages[k].profiles[n]
  {
    hide Inv, P.CreatePackage, P.UpdatePackage, A.CreateApplication, A.UpdateApplication, Admissible;
    match op
    case AddApplication(a) => NewApplicationKeepsPackages(db, project, op, db');
    case ChangeApplication(_, _, a) => AI.UpdateApplicationKeepsPackages(db, project, a, db');
    case AddPackage(p) => CreatePackageAdds(db, project, p, db');
    case ChangePackage(_, _, p) => UpdateKeepsProfiles(db, project, p, db', k);
    case _ =>
  }

  lemma NewApplicationKeepsPackages(db: Db, project: string, op: Op, db': Db)
    requires op.AddApplication? && project != "" && Admissible(op) && Transact(db, project, op) == Ok(db')
    ensures db'.packages == db.packages
  {
    hide ApplicationFits, A.CreateApplication;
    AI.CreatedRowFits(db, project, op.application, db');
  }

  lemma UpdateKeepsProfiles(db: Db, project: string, req: PackageRequest, db': Db, k: VersionedKey)
    requires Inv(db) && Deployed(db, k) && P.UpdatePackage(db, project, req) == Ok(db') && Deployed(db', k)
    ensures forall n :: n in db.packages[k].profiles ==>
              n in db'.packages[k].profiles && db'.packages[k].profiles[n] == db.packages[k].profiles[n]
  {
    hide P.UpdateRow;
    if k == P.PackageKey(project, req) {
      assert PackageFits(db, k, db.packages[k]);
      UpdateOfDeployed(db, project, db.packages[k], req, db'.packages[k]);
    }
  }

  /** The call is an accepted deletion of an application that the profile links to. */
  ghost predicate TakesLink(db: Db, active: string, op: Op, profile: DeploymentProfileRow) {
    && op.RemoveApplication? && Call(db, active, op).Ok?
    && exists i :: 0 <= i < |profile.links| &&
        profile.links[i].app == VersionedKey(ActiveProject(active), op.name, op.version)
  }

  /**
   * Exactly when a stored deployment profile of a package that stays deployed changes in one step: if
   * the step deletes an application that it links to; that is then no member.
   */
  lemma DeployedProfileChangesIff(db: Db, active: string, op: Op, k: VersionedKey, n: string)
    requires Inv(db) && Deployed(db, k) && Deployed(After(db, active, op), k) && n in db.packages[k].profiles
    ensures var db' := After(db, active, op);
            && n in db'.packages[k].profiles
            && (db'.packages[k].profiles[n] != db.packages[k].profiles[n] <==>
                TakesLink(db, active, op, db.packages[k].profiles[n]))
    ensures TakesLink(db, active, op, db.packages[k].profiles[n]) ==>
              VersionedKey(ActiveProject(active), op.name, op.version) !in db.packages[k].applications
  {
    hide Inv, P.CreatePackage, P.UpdatePackage, P.DeletePackage, A.CreateApplication, A.UpdateApplication, Admissible;
    var project, db' := ActiveProject(active), After(db, active, op);
    if Call(db, active, op).Ok? {
      if op.RemoveApplication? {
        StaleLinkIsLostIff(db, VersionedKey(project, op.name, op.version), db', k, n);
      } else {
        OtherStepsKeepProfiles(db, project, op, db', k);
      }
    }
  }
}
