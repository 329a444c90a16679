/** Application steps: profile reconciliation, and the reachable-state invariant under them. */
module AppInvariants {
  import opened Prelude
  import opened Text
  import opened Tables
  import opened Diff
  import opened Invariants
  import opened Applications

  // ---------- Profile reconciliation refines replacement ----------

  /** The profile table that the request describes. */
  ghost predicate IsRequestedTable(ps: seq<ProfileRequest>, t: Profiles) {
    && (forall n :: n in t <==> Named(ps, ProfileName, n))
    && (forall i :: 0 <= i < |ps| ==> ps[i].name in t && t[ps[i].name] == MakeProfile(ps[i]))
  }

  lemma {:induction false} InjectedNames(base: Profiles, ps: seq<ProfileRequest>, t: Profiles)
    requires InjectProfiles(base, ps) == Ok(t)
    ensures forall n :: n in t <==> n in base || Named(ps, ProfileName, n)
    ensures forall n :: n in base ==> t[n] == base[n]
  {
    if ps != [] {
      var last := |ps| - 1;
      InjectedNames(base, ps[..last], InjectProfiles(base, ps[..last]).value);
      NamedStep(ps[..last], ps[last], ProfileName);
      assert ps == ps[..last] + [ps[last]];
    }
  }

  lemma InjectedLast(base: Profiles, ps: seq<ProfileRequest>, t: Profiles)
    requires ps != [] && InjectProfiles(base, ps) == Ok(t)
    ensures var before, p := InjectProfiles(base, ps[..|ps| - 1]), ps[|ps| - 1];
            before.Ok? && p.name !in before.value && t == before.value[p.name := MakeProfile(p)]
  {
  }

  lemma {:induction false} InjectedRow(base: Profiles, ps: seq<ProfileRequest>, t: Profiles, i: nat)
    requires InjectProfiles(base, ps) == Ok(t) && i < |ps|
    ensures ps[i].name in t && ps[i].name !in base && t[ps[i].name] == MakeProfile(ps[i])
  {
    hide *;
    var last := |ps| - 1;
    InjectedLast(base, ps, t);
    var before := InjectProfiles(base, ps[..last]).value;
    if i < last {
      InjectedRow(base, ps[..last], before, i);
    } else {
      InjectedNames(base, ps[..last], before);
    }
  }

  lemma RequestedIsTheOne(ps: seq<ProfileRequest>, i: nat)
    requires DistinctNames(ps, ProfileName) && i < |ps|
    ensures Requested(ps, ps[i].name) == Some(ps[i])
  {
    var r := Requested(ps, ps[i].name);
    var j :| 0 <= j < |ps| && ps[j] == r.value;
    assert i == j;
  }

  /**
   * Reconciling profile by profile is the same as replacing them all: afterwards the table is the
   * requested one, and no profile that a deployment profile refers to is gone.
   */
  lemma ReconciliationReplaces(
    db: Db, app: VersionedKey, profiles: Profiles, ps: seq<ProfileRequest>,
    mapOrder: seq<ProfileRequest>, rowOrder: seq<string>, t: Profiles)
    requires UpdateProfiles(db, app, profiles, ps, mapOrder, rowOrder) == Ok(t)
    ensures IsRequestedTable(ps, t)
    ensures forall n :: n in profiles && n !in t ==> !Linked(db, app, n)
  {
    var kept, added := KeptProfiles(profiles, ps), ProfilesToCreate(profiles, ps, mapOrder);
    ArrangeKeeps(NewItems(profiles, ps, ProfileName), mapOrder, ProfileName);
    NoObstacle(db, app, profiles, ps, rowOrder);
    InjectedNames(kept, added, t);
    NewItemsMembers(profiles, ps, ProfileName);
    forall i | 0 <= i < |ps|
      ensures ps[i].name in t && t[ps[i].name] == MakeProfile(ps[i])
    {
      RequestedIsTheOne(ps, i);
      if ps[i].name !in profiles {
        assert ps[i] in added;
        var j :| 0 <= j < |added| && added[j] == ps[i];
        InjectedRow(kept, added, t, j);
      }
    }
    forall n | n in t
      ensures Named(ps, ProfileName, n)
    {
      if n in kept {
        var i :| 0 <= i < |ps| && ps[i] == Requested(ps, n).value;
      } else {
        NewItemsAreNamed(profiles, ps, ProfileName, n);
      }
    }
    forall n | n in profiles && n !in t
      ensures !Linked(db, app, n)
    {
      assert ProfileObstacle(db, app, ps, n).None?;
    }
  }

  /** Whichever orders the environment chooses, two accepted reconciliations store the same table. */
  lemma AcceptedOrdersAgree(
    db: Db, app: VersionedKey, profiles: Profiles, ps: seq<ProfileRequest>,
    mapOrder: seq<ProfileRequest>, mapOrder': seq<ProfileRequest>, rowOrder: seq<string>, rowOrder': seq<string>,
    t: Profiles, t': Profiles)
    requires UpdateProfiles(db, app, profiles, ps, mapOrder, rowOrder) == Ok(t)
    requires UpdateProfiles(db, app, profiles, ps, mapOrder', rowOrder') == Ok(t')
    ensures t == t'
  {
    hide UpdateProfiles, MakeProfile;
    ReconciliationReplaces(db, app, profiles, ps, mapOrder, rowOrder, t);
    ReconciliationReplaces(db, app, profiles, ps, mapOrder', rowOrder', t');
    forall n | n in t
      ensures n in t' && t[n] == t'[n]
    {
      var i :| 0 <= i < |ps| && ProfileName(ps[i]) == n;
    }
    assert t.Keys == t'.Keys;
  }

  // ---------- Links survive every application update ----------

  lemma {:induction false} DropLinksKeeps(links: seq<ProfileLink>, app: VersionedKey, gone: set<string>)
    requires forall i :: 0 <= i < |links| ==> !(links[i].app == app && links[i].profile in gone)
    ensures DropLinks(links, app, gone) == links
  {
    DropNone(app, gone);
    hide DropLinks;
    if links != [] {
      var last := |links| - 1;
      DropLinksKeeps(links[..last], app, gone);
      DropLast(links, app, gone);
      assert links == links[..last] + [links[last]];
    }
  }

  lemma DropNone(app: VersionedKey, gone: set<string>)
    ensures DropLinks([], app, gone) == []
  {
  }

  lemma DropLast(links: seq<ProfileLink>, app: VersionedKey, gone: set<string>)
    requires links != []
    ensures var last := |links| - 1;
            DropLinks(links, app, gone) == DropLinks(links[..last], app, gone) +
              if links[last].app == app && links[last].profile in gone then [] else [links[last]]
  {
  }

  lemma CascadeOfUnlinked(db: Db, app: VersionedKey, gone: set<string>)
    requires forall n :: n in gone ==> !Linked(db, app, n)
    ensures CascadeProfiles(db.packages, app, gone) == db.packages
  {
    var after := CascadeProfiles(db.packages, app, gone);
    forall k | k in db.packages
      ensures after[k] == db.packages[k]
    {
      var profiles := db.packages[k].profiles;
      forall n | n in profiles
        ensures after[k].profiles[n] == profiles[n]
      {
        var links := profiles[n].links;
        forall i | 0 <= i < |links|
          ensures !(links[i].app == app && links[i].profile in gone)
        {
          if links[i].app == app {
            assert ProfileLink(app, links[i].profile) in db.packages[k].profiles[n].links;
            assert Linked(db, app, links[i].profile);
          }
        }
        DropLinksKeeps(links, app, gone);
      }
      assert after[k].profiles == profiles;
    }
  }

  ghost predicate ValidNames(ps: seq<ProfileRequest>) {
    forall i :: 0 <= i < |ps| ==> ValidName(ps[i].name)
  }

  lemma {:induction false} InjectedTableFits(base: Profiles, ps: seq<ProfileRequest>, t: Profiles)
    requires ProfileTableFits(base) && ValidNames(ps) && InjectProfiles(base, ps) == Ok(t)
    ensures ProfileTableFits(t)
  {
    hide ValidName, TemplatesFit;
    if ps != [] {
      var last := |ps| - 1;
      InjectedTableFits(base, ps[..last], InjectProfiles(base, ps[..last]).value);
      InjectedLast(base, ps, t);
    }
  }

  lemma KeptTableFits(db: Db, app: VersionedKey, profiles: Profiles, ps: seq<ProfileRequest>)
    requires ValidNames(ps) && forall n :: n in profiles ==> ProfileObstacle(db, app, ps, n).None?
    ensures ProfileTableFits(KeptProfiles(profiles, ps))
  {
    hide ValidName, TemplatesFit;
    var kept := KeptProfiles(profiles, ps);
    forall n | n in kept
      ensures ValidName(n) && TemplatesFit(kept[n].templates)
    {
      assert ProfileObstacle(db, app, ps, n).None?;
      var p := Requested(ps, n).value;
      var i :| 0 <= i < |ps| && ps[i] == p;
    }
  }

  lemma SameItemsAreValid(items: seq<ProfileRequest>, ps: seq<ProfileRequest>)
    requires ValidNames(ps) && forall p :: p in items ==> p in ps
    ensures ValidNames(items)
  {
    forall i | 0 <= i < |items|
      ensures ValidName(items[i].name)
    {
      assert items[i] in ps;
    }
  }

  lemma {:induction false} NewItemsAreWanted(stored: Profiles, ps: seq<ProfileRequest>)
    ensures forall p :: p in NewItems(stored, ps, ProfileName) ==> p in ps
  {
    if ps != [] {
      var last := |ps| - 1;
      NewItemsAreWanted(stored, ps[..last]);
      assert ps == ps[..last] + [ps[last]];
    }
  }

  lemma AppliedTableFits(db: Db, app: VersionedKey, row: ApplicationRow, req: ApplicationRequest, t: Profiles)
    requires ProfileTableFits(row.profiles) && ValidNames(req.profiles)
    requires ApplyProfiles(db, app, row, req, ApplicationChanges(row, req)) == Ok(t)
    ensures ProfileTableFits(t)
  {
    hide ProfileTableFits, ValidNames, InjectProfiles, ProfilesChanged, SameProfile;
    var added := NewItems(row.profiles, req.profiles, ProfileName);
    NewItemsAreWanted(row.profiles, req.profiles);
    SameItemsAreValid(added, req.profiles);
    if ApplicationChanges(row, req).profiles {
      ArrangeKeeps(added, req.mapOrder, ProfileName);
      SameItemsAreValid(ProfilesToCreate(row.profiles, req.profiles, req.mapOrder), req.profiles);
      NoObstacle(db, app, row.profiles, req.profiles, req.rowOrder);
      KeptTableFits(db, app, row.profiles, req.profiles);
      InjectedTableFits(KeptProfiles(row.profiles, req.profiles),
                        ProfilesToCreate(row.profiles, req.profiles, req.mapOrder), t);
    } else {
      InjectedTableFits(row.profiles, added, t);
    }
  }

  /** The profile part of an update: nothing linked is lost, and the default fits. */
  lemma AppliedProfiles(
    db: Db, app: VersionedKey, row: ApplicationRow, req: ApplicationRequest, t: Profiles, default: Option<string>)
    requires DefaultFits(row.profiles.Keys, row.defaultProfile) && !NeedsDefault(req)
    requires ApplyProfiles(db, app, row, req, ApplicationChanges(row, req)) == Ok(t)
    requires ApplyDefault(row, t, req, ApplicationChanges(row, req)) == Ok(default)
    ensures DefaultFits(t.Keys, default)
    ensures forall n :: n in t <==> Named(req.profiles, ProfileName, n)
    ensures forall n :: n in row.profiles && n !in t ==> !Linked(db, app, n)
  {
    var ch := ApplicationChanges(row, req);
    if ch.profiles {
      ReconciliationReplaces(db, app, row.profiles, req.profiles, req.mapOrder, req.rowOrder, t);
    } else {
      InjectedNames(row.profiles, ch.newProfiles, t);
      NewItemsNames(row.profiles, req.profiles, ProfileName);
    }
    assert !ch.profiles ==> forall n :: n in row.profiles ==> Named(req.profiles, ProfileName, n);
    if req.profiles != [] {
      assert Named(req.profiles, ProfileName, req.profiles[0].name);
      assert t.Keys != {};
    } else {
      assert t.Keys == {};
    }
  }

  lemma UpdatedRow(
    db: Db, project: string, app: VersionedKey, row: ApplicationRow, req: ApplicationRequest, row': ApplicationRow)
    requires DefaultFits(row.profiles.Keys, row.defaultProfile) && !NeedsDefault(req)
    requires UpdateRow(db, project, app, row, req) == Ok(row')
    ensures DefaultFits(row'.profiles.Keys, row'.defaultProfile)
    ensures ProfileTableFits(row.profiles) && ValidNames(req.profiles) ==> ProfileTableFits(row'.profiles)
    ensures row'.kind == KindToDb(req.kind)
    ensures forall n :: n in row.profiles && n !in row'.profiles ==> !Linked(db, app, n)
    ensures row'.displayName == row.displayName || row'.displayName == req.displayName
    ensures row'.ignored == row.ignored || (row'.ignored == req.ignored && NoDup(req.ignored))
    ensures (row'.helmRegistry == row.helmRegistry && row'.imageRegistry == row.imageRegistry) ||
            FindRegistries(db, project, req) == Ok((row'.helmRegistry, row'.imageRegistry))
  {
    hide ApplyProfiles, ProfileTableFits, ValidNames, FindRegistries, ProfilesChanged;
    var ch := ApplicationChanges(row, req);
    if !(ch.kind && !ch.Changed()) {
      AppliedProfiles(db, app, row, req, row'.profiles, row'.defaultProfile);
      if ProfileTableFits(row.profiles) && ValidNames(req.profiles) {
        AppliedTableFits(db, app, row, req, row'.profiles);
      }
    }
  }

  /** The steps of a successful update, by what they leave in the tables. */
  lemma UpdateApplicationParts(db: Db, project: string, req: ApplicationRequest, db': Db)
    requires UpdateApplication(db, project, req) == Ok(db')
    ensures !NeedsDefault(req) && IsTrimmed(req.displayName)
    ensures var key := ApplicationKey(project, req);
            && key in db.applications && key in db'.applications
            && UpdateRow(db, project, key, db.applications[key], Normalized(db.applications[key], req)) ==
                Ok(db'.applications[key])
            && db' == db.(applications := db.applications[key := db'.applications[key]],
                          packages := CascadeProfiles(db.packages, key,
                            db.applications[key].profiles.Keys - db'.applications[key].profiles.Keys))
  {
  }

  /** No application update changes the links of any deployment profile, or any other package data. */
  lemma UpdateApplicationKeepsPackages(db: Db, project: string, req: ApplicationRequest, db': Db)
    requires Inv(db) && UpdateApplication(db, project, req) == Ok(db')
    ensures db'.packages == db.packages
  {
    UpdateApplicationParts(db, project, req, db');
    var key := ApplicationKey(project, req);
    var row, row' := db.applications[key], db'.applications[key];
    assert ApplicationFits(db, key, row);
    UpdatedRow(db, project, key, row, Normalized(row, req), row');
    CascadeOfUnlinked(db, key, row.profiles.Keys - row'.profiles.Keys);
  }

  // ---------- The invariant ----------

  lemma ApplicationRowFits(
    db: Db, project: string, row: ApplicationRow, req: ApplicationRequest, row': ApplicationRow)
    requires ValidApplication(req) && IsTrimmed(req.displayName) && !NeedsDefault(req)
    requires ApplicationFits(db, ApplicationKey(project, req), row)
    requires UpdateRow(db, project, ApplicationKey(project, req), row, Normalized(row, req)) == Ok(row')
    ensures ApplicationFits(db, ApplicationKey(project, req), row')
  {
    UpdatedRow(db, project, ApplicationKey(project, req), row, Normalized(row, req), row');
    ValidNamesArePlain(req.name);
  }

  /** Packages keep fitting when one application loses only profiles that nothing links to. */
  lemma PackagesFitAfter(db: Db, key: VersionedKey, row': ApplicationRow)
    requires Inv(db) && key in db.applications
    requires forall n :: n in db.applications[key].profiles && n !in row'.profiles ==> !Linked(db, key, n)
    ensures var db' := db.(applications := db.applications[key := row']);
            forall k :: k in db'.packages ==> PackageFits(db', k, db'.packages[k])
  {
    var db' := db.(applications := db.applications[key := row']);
    forall k | k in db'.packages
      ensures PackageFits(db', k, db'.packages[k])
    {
      var row := db.packages[k];
      assert PackageFits(db, k, row);
      forall n | n in row.profiles
        ensures LinksFit(db', k.project, row.profiles[n].links)
      {
        var links := row.profiles[n].links;
        assert LinksFit(db, k.project, links);
        forall i | 0 <= i < |links|
          ensures LinkFits(db', k.project, links[i])
        {
          assert LinkFits(db, k.project, links[i]);
          if links[i].app == key {
            assert ProfileLink(key, links[i].profile) in db.packages[k].profiles[n].links;
            assert Linked(db, key, links[i].profile);
          }
        }
      }
      assert MembersFit(db', k.project, row.applications);
      assert ArtifactsFit(db', k.project, row.artifacts);
    }
  }

  lemma ApplicationsFitAfter(db: Db, key: VersionedKey, row': ApplicationRow)
    requires Inv(db) && ApplicationFits(db, key, row')
    ensures var db' := db.(applications := db.applications[key := row']);
            forall k :: k in db'.applications ==> ApplicationFits(db', k, db'.applications[k])
  {
    var db' := db.(applications := db.applications[key := row']);
    forall k | k in db'.applications
      ensures ApplicationFits(db', k, db'.applications[k])
    {
      assert ApplicationFits(db, k, db'.applications[k]);
    }
  }

  lemma NothingLinkedIsLost(
    db: Db, key: VersionedKey, row: ApplicationRow, req: ApplicationRequest, row': ApplicationRow)
    requires ApplicationFits(db, key, row) && !NeedsDefault(req)
    requires UpdateRow(db, key.project, key, row, req) == Ok(row')
    ensures forall n :: n in row.profiles && n !in row'.profiles ==> !Linked(db, key, n)
  {
    hide UpdateRow, Linked;
    UpdatedRow(db, key.project, key, row, req, row');
  }

  lemma UpdateApplicationKeepsInv(db: Db, project: string, req: ApplicationRequest, db': Db)
    requires Inv(db) && ValidApplication(req)
    requires UpdateApplication(db, project, req) == Ok(db')
    ensures Inv(db')
  {
    hide PackageFits, UpdateApplication, UpdateRow, CascadeProfiles, ApplicationFits, ValidApplication, Linked;
    UpdateApplicationParts(db, project, req, db');
    UpdateApplicationKeepsPackages(db, project, req, db');
    var key := ApplicationKey(project, req);
    var row, row' := db.applications[key], db'.applications[key];
    assert ApplicationFits(db, key, row);
    ApplicationRowFits(db, project, row, req, row');
    NothingLinkedIsLost(db, key, row, Normalized(row, req), row');
    PackagesFitAfter(db, key, row');
    ApplicationsFitAfter(db, key, row');
  }

  lemma CreatedRowFits(db: Db, project: string, req: ApplicationRequest, db': Db)
    requires project != "" && ValidApplication(req) && CreateApplication(db, project, req) == Ok(db')
    ensures var key := ApplicationKey(project, req);
            && key in db'.applications && db' == db.(applications := db.applications[key := db'.applications[key]])
            && ApplicationFits(db, key, db'.applications[key])
  {
    hide InjectProfiles, DisplayTaken, ValidName, ValidApplicationName, ValidVersion, ProfileTableFits;
    var key := ApplicationKey(project, req);
    var row := db'.applications[key];
    InjectedNames(map[], req.profiles, row.profiles);
    if req.profiles != [] {
      assert Named(req.profiles, ProfileName, req.profiles[0].name);
    }
    RequestedNamesAreValid(req);
    NoProfilesFit();
    InjectedTableFits(map[], req.profiles, row.profiles);
    ShownNameFits(req);
    assert DefaultFits(row.profiles.Keys, row.defaultProfile);
  }

  lemma NoProfilesFit()
    ensures ProfileTableFits(map[])
  {
  }

  lemma RequestedNamesAreValid(req: ApplicationRequest)
    requires ValidApplication(req)
    ensures ValidNames(req.profiles)
  {
  }

  lemma ShownNameFits(req: ApplicationRequest)
    requires ValidApplication(req) && IsTrimmed(req.displayName)
    ensures DisplayFits(DisplayName(req.name, req.displayName))
  {
    ValidNamesArePlain(req.name);
  }

  lemma CreateApplicationKeepsInv(db: Db, project: string, req: ApplicationRequest, db': Db)
    requires Inv(db) && project != "" && ValidApplication(req)
    requires CreateApplication(db, project, req) == Ok(db')
    ensures Inv(db')
  {
    hide PackageFits, ApplicationFits;
    CreatedRowFits(db, project, req, db');
    var key := ApplicationKey(project, req);
    ApplicationsFitAfter(db, key, db'.applications[key]);
    assert key !in db.applications;
    PackagesFrame(db, db');
  }

  /** The membership guard alone protects dependencies and default namespaces: the key constraint never fires. */
  lemma OnlyMembersAreReferenced(db: Db, app: VersionedKey)
    requires Inv(db)
    ensures IsReferenced(db, app) ==> IsMember(db, app)
    ensures DeleteApplication(db, app) != Err(DatabaseError)
  {
    if IsReferenced(db, app) {
      var k :| k in db.packages && RefersTo(db.packages[k], app);
      assert PackageFits(db, k, db.packages[k]);
      assert app in db.packages[k].applications;
    }
  }

  lemma PackageFitsAfterDelete(db: Db, app: VersionedKey, k: VersionedKey, row: PackageRow)
    requires PackageFits(db, k, row) && app in db.applications && app !in row.applications
    ensures PackageFits(db.(applications := db.applications - {app}), k,
                        DropProfileLinks(row, app, db.applications[app].profiles.Keys))
  {
    var db' := db.(applications := db.applications - {app});
    var row' := DropProfileLinks(row, app, db.applications[app].profiles.Keys);
    forall n | n in row'.profiles
      ensures LinksFit(db', k.project, row'.profiles[n].links)
    {
      var links := row'.profiles[n].links;
      assert LinksFit(db, k.project, row.profiles[n].links);
      forall i | 0 <= i < |links|
        ensures LinkFits(db', k.project, links[i])
      {
        assert links[i] in row.profiles[n].links;
        assert LinkFits(db, k.project, links[i]);
      }
    }
    assert row'.profiles.Keys == row.profiles.Keys;
    assert MembersFit(db', k.project, row.applications);
    assert ArtifactsFit(db', k.project, row.artifacts);
  }

  lemma DeleteApplicationKeepsInv(db: Db, app: VersionedKey, db': Db)
    requires Inv(db) && DeleteApplication(db, app) == Ok(db')
    ensures Inv(db')
  {
    var pruned := db.(applications := db.applications - {app});
    forall k | k in db'.packages
      ensures PackageFits(db', k, db'.packages[k])
    {
      PackageFitsAfterDelete(db, app, k, db.packages[k]);
      PackageFrame(pruned, db', k, db'.packages[k]);
    }
    forall k | k in db'.applications
      ensures ApplicationFits(db', k, db'.applications[k])
    {
      assert ApplicationFits(db, k, db.applications[k]);
    }
  }
}
