/** The links of deployment profiles after an accepted update, in every reachable state. */
module KeptLinks {
  import opened Prelude
  import opened Text
  import opened Tables
  import opened Diff
  import opened References
  import opened Catalog
  import opened Invariants
  import opened ProfileLinks
  import opened Severing
  import opened ReadBack
  import opened Scenarios
  import Runs
  import P = Packages
  import A = Applications

  // ---------- Unaltered profiles with links to members ----------

  /** References that repeat a stored name cannot be unchanged without repeating it. */
  lemma RepeatedNamesAreRequested(row: PackageRow, req: PackageRequest)
    requires RepeatsName(row.applications) && !P.ApplicationsChanged(row, req)
    ensures P.RepeatsReferenceName(req.applications)
  {
    var stored := MapSeq(P.StoredReference, row.applications);
    var i, j :| 0 <= i < j < |row.applications| && row.applications[i].name == row.applications[j].name;
    if NoDup(req.applications) {
      forall r | r in req.applications
        ensures r in stored
      {
        var k :| 0 <= k < |req.applications| && req.applications[k] == r;
      }
      Pigeonhole(stored, req.applications);
      MultisetMembers(stored, req.applications);
      MultisetKeepsDistinct(req.applications, stored);
      assert stored[i] in req.applications && stored[j] in req.applications && stored[i] != stored[j];
      var a :| 0 <= a < |req.applications| && req.applications[a] == stored[i];
      var b :| 0 <= b < |req.applications| && req.applications[b] == stored[j];
      assert if a < b then req.applications[a].name == req.applications[b].name
             else req.applications[b].name == req.applications[a].name;
    }
  }

  /** Qualified keys never compare alike with bare ones, so there are none, and no links either. */
  lemma QualifiedMeansNone(links: seq<ProfileLink>, e: Entries)
    requires forall i :: 0 <= i < |links| ==> ':' !in links[i].app.name
    requires P.AllQualified(e) && DistinctKeys(e) && EntryMap(e) == Compose(links, false)
    ensures e == [] && links == []
  {
    BareKeys(links);
    ComposeIsEmpty(links, false);
    KeysAreEntries(e);
  }

  lemma LinkedNamesAreBare(db: Db, key: VersionedKey, row: PackageRow, n: string)
    requires Inv(db) && PackageFits(db, key, row) && n in row.profiles
    ensures forall i :: 0 <= i < |row.profiles[n].links| ==> ':' !in row.profiles[n].links[i].app.name
  {
    var links := row.profiles[n].links;
    assert LinksFit(db, key.project, links);
    forall i | 0 <= i < |links|
      ensures ':' !in links[i].app.name
    {
      assert LinkFits(db, key.project, links[i]);
      assert ApplicationFits(db, links[i].app, db.applications[links[i].app]);
      ValidNamesArePlain(links[i].app.name);
    }
  }

  /** No links, no entries: nothing is asked for and nothing stored. */
  lemma NothingLinked(db: Db, apps: seq<VersionedKey>, p: DeploymentProfileRequest, row: DeploymentProfileRow)
    requires P.EntriesOf(p) == [] && row.links == []
    ensures LinksReflect(db, apps, p, row)
  {
    assert ResolvedLinks(db.applications, apps, []) == [];
  }

  /**
   * A profile that links to members only, to each at most once, and compares as unaltered, has exactly
   * the requested links.
   */
  lemma MemberLinksAreReflected(
    db: Db, key: VersionedKey, row: PackageRow, req: PackageRequest, p: DeploymentProfileRequest)
    requires Inv(db) && PackageFits(db, key, row) && LinksMembersOnce(row)
    requires P.ValidPackage(req) && P.Unambiguous(req) && !P.ApplicationsChanged(row, req)
    requires p in req.profiles && p.name in row.profiles && Kept(row.profiles, p, row.profiles)
    ensures LinksReflect(db, row.applications, p, row.profiles[p.name])
  {
    hide Inv, PackageFits, LinksMembersOnce, EntryMap, Compose, P.ApplicationsChanged, RepeatsName, PlainKeys;
    hide P.ValidReference, P.ValidDependency, P.ValidExtension, P.AllQualified, P.RepeatsReferenceName, AllResolve;
    var links, e := row.profiles[p.name].links, P.EntriesOf(p);
    var i :| 0 <= i < |req.profiles| && req.profiles[i] == p;
    assert P.ValidDeploymentProfile(req.profiles[i]);
    if RepeatsName(row.applications) {
      RepeatedNamesAreRequested(row, req);
      SeveralReferences(row, req);
      LinkedNamesAreBare(db, key, row, p.name);
      QualifiedMeansNone(links, e);
      NothingLinked(db, row.applications, p, row.profiles[p.name]);
    } else {
      StoredLinksExist(db, key, row, p.name);
      MembersArePlain(db, key, row);
      SpelledEntriesResolve(db.applications, row.applications, links, e);
    }
  }

  lemma SeveralReferences(row: PackageRow, req: PackageRequest)
    requires RepeatsName(row.applications) && !P.ApplicationsChanged(row, req)
    ensures |req.applications| > 1
  {
  }

  lemma MembersArePlain(db: Db, key: VersionedKey, row: PackageRow)
    requires Inv(db) && PackageFits(db, key, row)
    ensures PlainKeys(row.applications)
  {
    forall i | 0 <= i < |row.applications|
      ensures Plain(row.applications[i].name) && Plain(row.applications[i].version)
    {
      assert ApplicationFits(db, row.applications[i], db.applications[row.applications[i]]);
      ValidNamesArePlain(row.applications[i].name);
      ValidNamesArePlain(row.applications[i].version);
    }
  }

  // ---------- Every accepted update ----------

  /** Exactly when an update leaves the requested links, and a case in which it does. */
  ghost predicate LinksDecided(
    db: Db, row: PackageRow, req: PackageRequest, row': PackageRow, p: DeploymentProfileRequest)
    requires P.PackageChanges(row, req).Ok? && p.name in row'.profiles
  {
    && (LinksReflect(db, row'.applications, p, row'.profiles[p.name]) <==>
        if Rewrites(row, req, p)
        then P.Resolves(db, row'.applications, p) &&
             StoredLinks(row.profiles, p.name) <= WantedLinks(db, row'.applications, p)
        else p.name in row.profiles && LinksReflect(db, row.applications, p, row.profiles[p.name]))
    && (!Rewrites(row, req, p) && LinksMembersOnce(row) ==>
        LinksReflect(db, row'.applications, p, row'.profiles[p.name]))
  }

  lemma UnalteredMemberLinks(db: Db, key: VersionedKey, row: PackageRow, req: PackageRequest, row': PackageRow, i: nat)
    requires Inv(db) && PackageFits(db, key, row) && LinksMembersOnce(row)
    requires P.ValidPackage(req) && P.Unambiguous(req)
    requires P.UpdateRow(db, key.project, row, req) == Ok(row') && DistinctNames(req.profiles, P.ProfileName)
    requires i < |req.profiles| && req.profiles[i].name in row'.profiles
    ensures P.PackageChanges(row, req).Ok?
    ensures var p := req.profiles[i];
            !Rewrites(row, req, p) ==> LinksReflect(db, row'.applications, p, row'.profiles[p.name])
  {
    hide Inv, PackageFits, LinksMembersOnce, P.UpdateRow, P.ValidPackage, P.Unambiguous, LinksReflect, P.PackageChanges;
    var p := req.profiles[i];
    StoredProfileIs(db, key.project, row, req, row', i);
    if !Rewrites(row, req, p) {
      SameMembers(row, req);
      KeptInPlace(row.profiles, p, row'.profiles);
      MemberLinksAreReflected(db, key, row, req, p);
    }
  }

  lemma KeptInPlace(profiles: P.ProfileTable, p: DeploymentProfileRequest, t: P.ProfileTable)
    requires Kept(profiles, p, t)
    ensures Kept(profiles, p, profiles) && p.name in t && t[p.name] == profiles[p.name]
  {
  }

  lemma SameMembers(row: PackageRow, req: PackageRequest)
    requires P.PackageChanges(row, req).Ok? && !P.PackageChanges(row, req).value.applications
    ensures !P.ApplicationsChanged(row, req)
  {
    hide P.ApplicationsChanged;
  }

  /** In every reachable state, after every accepted update, for every requested profile that is stored. */
  lemma AcceptedUpdateLinks(db: Db, active: string, req: PackageRequest, i: nat)
    requires Reachable(db) && Call(db, active, ChangePackage(req.name, req.version, req)).Ok?
    requires DistinctNames(req.profiles, P.ProfileName) && i < |req.profiles|
    ensures var key := P.PackageKey(ActiveProject(active), req);
            var db' := After(db, active, ChangePackage(req.name, req.version, req));
            && key in db.packages && key in db'.packages && P.PackageChanges(db.packages[key], req).Ok?
            && (req.profiles[i].name in db'.packages[key].profiles ==>
                  LinksDecided(db, db.packages[key], req, db'.packages[key], req.profiles[i]))
  {
    hide Reachable, Inv, PackageFits, P.UpdateRow, P.PackageChanges, P.ValidPackage, P.Unambiguous;
    hide LinksMembersOnce, LinksReflect, Rewrites;
    var project := ActiveProject(active);
    var db' := After(db, active, ChangePackage(req.name, req.version, req));
    var key := P.PackageKey(project, req);
    Runs.EveryReachableStateFits(db);
    FitsAt(db, key);
    ChangesAreKnown(db, project, db.packages[key], req);
    if req.profiles[i].name in db'.packages[key].profiles {
      LinksReflectIff(db, project, db.packages[key], req, db'.packages[key], i);
      if LinksMembersOnce(db.packages[key]) {
        UnalteredMemberLinks(db, key, db.packages[key], req, db'.packages[key], i);
      }
    }
  }

  lemma ChangesAreKnown(db: Db, project: string, row: PackageRow, req: PackageRequest)
    requires P.UpdateRow(db, project, row, req).Ok?
    ensures P.PackageChanges(row, req).Ok?
  {
    hide P.ApplyChanges;
  }

  // ---------- An entry that resolves to nothing ----------

  /** Takes the package out of deployment, gives it a description, and repeats the profile that was dropped. */
  const REPEAT_ENTRY := ChangePackage("d", "1",
    PackageRequest("d", "d", "new", "1", Normal, false, false, false, [], [], [], [], [WANTED], "d", [], [], []))
  const REPEATED_ROW := STALE_ROW.(description := "new", isDeployed := false)
  const REPEATED := WITH_APP.(packages := map[PACKAGE := REPEATED_ROW])

  lemma EntryComparesAlike()
    ensures !P.ProfilesChanged(STALE_ROW, REPEAT_ENTRY.package)
    ensures NewItems(STALE_ROW.profiles, REPEAT_ENTRY.package.profiles, P.ProfileName) == []
  {
    hide P.SameProfile;
    ReadsBackAlike();
    var wanted := REPEAT_ENTRY.package.profiles;
    assert P.ProfileName(wanted[0]) == "d" && wanted[..0] == [];
    assert !Altered(STALE_ROW.profiles, wanted, P.ProfileName, P.SameProfile);
    assert Named(wanted, P.ProfileName, "d");
  }

  lemma RepeatsRow()
    ensures P.UpdateRow(STALE, "p", STALE_ROW, REPEAT_ENTRY.package) == Ok(REPEATED_ROW)
  {
    hide P.ProfilesChanged, NewItems;
    EntryComparesAlike();
    assert P.InjectProfiles(STALE, [], STALE_ROW.profiles, []) == Ok(STALE_ROW.profiles);
  }

  lemma RepeatIsValid()
    ensures Admissible(REPEAT_ENTRY)
  {
    hide ValidName, ValidVersion;
    ShortNames("d");
    ShortNames("1");
  }

  lemma Repeats()
    ensures Call(STALE, "p", REPEAT_ENTRY) == Ok(REPEATED)
  {
    hide Admissible, P.UpdateRow, P.CreatePackage, A.CreateApplication, A.UpdateApplication, A.DeleteApplication;
    RepeatIsValid();
    RepeatsRow();
    assert STALE.packages[PACKAGE := REPEATED_ROW] == REPEATED.packages;
  }

  lemma NoMemberResolves()
    ensures !P.Resolves(STALE, [], WANTED)
  {
    assert P.EntriesOf(WANTED)[0] == ("a", "x");
    assert FindApplication([], "a") == None;
    assert ResolveEntry(STALE.applications, [], ("a", "x")) == None;
  }

  /**
   * A package without members, with a leftover link, is updated with the entry that the link reads
   * back as: the update is accepted although the entry resolves to nothing, and the link stays.
   */
  lemma UnresolvedEntryIsAccepted()
    ensures Run(EMPTY, [("p", ADD_REGISTRY), ("p", ADD_APP), ("p", ADD_PACKAGE), ("p", DROP_AND_DEPLOY)]) == STALE
    ensures Call(STALE, "p", REPEAT_ENTRY) == Ok(REPEATED)
    ensures REPEATED_ROW.profiles["d"].links == [ProfileLink(APP, "x")] && REPEATED_ROW.applications == []
    ensures !P.Resolves(STALE, [], WANTED) && !LinksReflect(STALE, [], WANTED, REPEATED_ROW.profiles["d"])
  {
    hide Run, Call, P.Resolves;
    StaleLinkIsReachable();
    Repeats();
    NoMemberResolves();
  }
}
