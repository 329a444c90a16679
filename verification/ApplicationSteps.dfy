/** The loops of the application operations, each proved against its specification. */
module ApplicationSteps {
  import opened Prelude
  import opened Text
  import opened Tables
  import opened Diff
  import opened Applications

  // ---------- Profiles ----------

  method ValidateParameterTemplates(ts: seq<Template>) returns (accepted: bool)
    ensures accepted <==> TemplatesFit(ts)
  {
    var names: set<string> := {};
    for i := 0 to |ts|
      invariant names == Elements(MapSeq(TemplateName, ts[..i]))
      invariant forall h, j :: 0 <= h < j < i ==> TemplateName(ts[h]) != TemplateName(ts[j])
      invariant forall j :: 0 <= j < i ==> TemplateFits(ts[j])
    {
      assert MapSeq(TemplateName, ts[..i + 1]) == MapSeq(TemplateName, ts[..i]) + [ts[i].name];
      if ts[i].name in names {
        var h :| 0 <= h < i && MapSeq(TemplateName, ts[..i])[h] == ts[i].name;
        assert TemplateName(ts[h]) == TemplateName(ts[i]);
        return false;
      }
      if !IsTrimmed(ts[i].displayName) || ((ts[i].mandatory || ts[i].secret) && ts[i].default != "") {
        assert !TemplateFits(ts[i]);
        return false;
      }
      forall h | 0 <= h < i
        ensures TemplateName(ts[h]) != TemplateName(ts[i])
      {
        assert MapSeq(TemplateName, ts[..i])[h] == ts[h].name;
      }
      names := names + {ts[i].name};
    }
    return true;
  }

  method InjectOneProfile(profiles: Profiles, p: ProfileRequest) returns (r: Result<Profiles>)
    ensures r == InjectProfile(profiles, p)
  {
    if !IsTrimmed(p.displayName) {
      return Err(InvalidArgument);
    }
    if ProfileDisplayTaken(profiles, p) || p.name in profiles {
      return Err(AlreadyExists);
    }
    var accepted := ValidateParameterTemplates(p.templates);
    if !accepted {
      return Err(InvalidArgument);
    }
    return Ok(profiles[p.name := MakeProfile(p)]);
  }

  method CreateProfiles(profiles: Profiles, ps: seq<ProfileRequest>) returns (r: Result<Profiles>)
    ensures r == InjectProfiles(profiles, ps)
  {
    var table := profiles;
    for i := 0 to |ps|
      invariant InjectProfiles(profiles, ps[..i]) == Ok(table)
    {
      assert ps[..i + 1][..i] == ps[..i];
      var next := InjectOneProfile(table, ps[i]);
      assert InjectProfiles(profiles, ps[..i + 1]) == next;
      if next.Err? {
        InjectFails(profiles, ps, i + 1);
        return next;
      }
      table := next.value;
    }
    assert ps[..|ps|] == ps;
    return Ok(table);
  }

  lemma {:induction false} InjectFails(profiles: Profiles, ps: seq<ProfileRequest>, i: nat)
    requires i <= |ps| && InjectProfiles(profiles, ps[..i]).Err?
    ensures InjectProfiles(profiles, ps) == InjectProfiles(profiles, ps[..i])
    decreases |ps| - i
  {
    if i == |ps| {
      assert ps[..i] == ps;
    } else {
      assert ps[..i + 1][..i] == ps[..i];
      InjectFails(profiles, ps, i + 1);
    }
  }

  /** Deletes the stored profiles that are not requested, and overwrites those that are, row by row. */
  method KeepRequestedProfiles(
    db: Db, app: VersionedKey, profiles: Profiles, ps: seq<ProfileRequest>, rowOrder: seq<string>)
    returns (r: Result<Profiles>)
    requires IsOrderOf(rowOrder, profiles.Keys)
    ensures match FirstObstacle(db, app, ps, rowOrder)
            case Some(e) => r == Err(e)
            case None => r == Ok(KeptProfiles(profiles, ps))
  {
    hide FirstObstacle, MakeProfile, Linked, TemplatesFit;
    var kept: Profiles := map[];
    assert rowOrder[0..] == rowOrder;
    for i := 0 to |rowOrder|
      invariant FirstObstacle(db, app, ps, rowOrder) == FirstObstacle(db, app, ps, rowOrder[i..])
      invariant forall n :: n in kept <==> n in rowOrder[..i] && Requested(ps, n).Some?
      invariant forall n :: n in kept ==> kept[n] == MakeProfile(Requested(ps, n).value)
    {
      var n := rowOrder[i];
      ObstacleStep(db, app, ps, rowOrder, i);
      assert rowOrder[..i + 1] == rowOrder[..i] + [n];
      var wanted := Requested(ps, n);
      if wanted.None? {
        if Linked(db, app, n) {
          return Err(FailedPrecondition);
        }
      } else {
        var accepted := ValidateParameterTemplates(wanted.value.templates);
        if !IsTrimmed(wanted.value.displayName) || !accepted {
          return Err(InvalidArgument);
        }
        kept := kept[n := MakeProfile(wanted.value)];
      }
    }
    NothingLeft(db, app, ps, rowOrder);
    VisitedAll(profiles, rowOrder);
    assert kept == KeptProfiles(profiles, ps);
    return Ok(kept);
  }

  lemma ObstacleStep(db: Db, app: VersionedKey, ps: seq<ProfileRequest>, rowOrder: seq<string>, i: nat)
    requires i < |rowOrder|
    ensures FirstObstacle(db, app, ps, rowOrder[i..]) ==
            var o := ProfileObstacle(db, app, ps, rowOrder[i]);
            if o.Some? then o else FirstObstacle(db, app, ps, rowOrder[i + 1..])
  {
    assert rowOrder[i..][0] == rowOrder[i] && rowOrder[i..][1..] == rowOrder[i + 1..];
  }

  lemma NothingLeft(db: Db, app: VersionedKey, ps: seq<ProfileRequest>, rowOrder: seq<string>)
    ensures FirstObstacle(db, app, ps, rowOrder[|rowOrder|..]) == None && rowOrder[..|rowOrder|] == rowOrder
  {
  }

  lemma VisitedAll(profiles: Profiles, rowOrder: seq<string>)
    requires IsOrderOf(rowOrder, profiles.Keys)
    ensures forall n :: n in rowOrder <==> n in profiles
  {
    forall n
      ensures n in rowOrder <==> n in profiles
    {
      assert n in Elements(rowOrder) <==> n in profiles.Keys;
    }
  }

  method ReconcileProfiles(
    db: Db, app: VersionedKey, profiles: Profiles, ps: seq<ProfileRequest>,
    mapOrder: seq<ProfileRequest>, rowOrder: seq<string>)
    returns (r: Result<Profiles>)
    requires IsOrderOf(rowOrder, profiles.Keys)
    ensures r == UpdateProfiles(db, app, profiles, ps, mapOrder, rowOrder)
  {
    var distinct := AllDistinct(ps, ProfileName, LowerDisplay);
    if !distinct {
      return Err(AlreadyExists);
    }
    var kept := KeepRequestedProfiles(db, app, profiles, ps, rowOrder);
    if kept.Err? {
      return kept;
    }
    r := CreateProfiles(kept.value, ProfilesToCreate(profiles, ps, mapOrder));
  }

  /** Stores resource by resource; the unique index stops at the first repeated one. */
  method CreateIgnoredResources(rs: seq<Resource>) returns (r: Result<seq<Resource>>)
    ensures r == MakeIgnored(rs)
  {
    for i := 0 to |rs|
      invariant NoDup(rs[..i])
    {
      if rs[i] in rs[..i] {
        var j :| 0 <= j < i && rs[..i][j] == rs[i];
        assert rs[j] == rs[i];
        return Err(DatabaseError);
      }
      assert forall j :: 0 <= j < i ==> rs[..i][j] == rs[j];
    }
    assert rs[..|rs|] == rs;
    return Ok(rs);
  }

  // ---------- Comparing ----------

  function SlashKey(r: Resource): string { r.name + "/" + r.namespace + "/" + r.kind }

  predicate SlashFree(rs: seq<Resource>) {
    forall i :: 0 <= i < |rs| ==> '/' !in rs[i].name && '/' !in rs[i].kind
  }

  /** Name and kind hold no slash, so the key is read uniquely whatever the namespace is. */
  lemma SlashKeyIsUnique(a: Resource, b: Resource)
    requires '/' !in a.name && '/' !in a.kind && '/' !in b.name && '/' !in b.kind
    requires SlashKey(a) == SlashKey(b)
    ensures a == b
  {
    var x, y := a.namespace + "/" + a.kind, b.namespace + "/" + b.kind;
    assert SlashKey(a) == a.name + ['/'] + x && SlashKey(b) == b.name + ['/'] + y;
    FirstSeparatorIsUnique(a.name, x, b.name, y, '/');
    LastSeparatorIsUnique(a.namespace, a.kind, b.namespace, b.kind, '/');
  }

  method IgnoredResourcesChanged(row: ApplicationRow, req: ApplicationRequest) returns (changed: bool)
    requires SlashFree(row.ignored) && SlashFree(req.ignored)
    ensures changed <==> IgnoredChanged(row, req)
  {
    if |req.ignored| == 0 {
      return false;
    }
    if |row.ignored| != |req.ignored| {
      return true;
    }
    var existing: set<string> := {};
    for i := 0 to |row.ignored|
      invariant existing == Elements(MapSeq(SlashKey, row.ignored[..i]))
    {
      assert MapSeq(SlashKey, row.ignored[..i + 1]) == MapSeq(SlashKey, row.ignored[..i]) + [SlashKey(row.ignored[i])];
      existing := existing + {SlashKey(row.ignored[i])};
    }
    assert row.ignored[..|row.ignored|] == row.ignored;
    for i := 0 to |req.ignored|
      invariant forall j :: 0 <= j < i ==> req.ignored[j] in row.ignored
    {
      SlashKeysDecide(row.ignored, req.ignored[i]);
      if SlashKey(req.ignored[i]) !in existing {
        return true;
      }
    }
    return false;
  }

  lemma SlashKeysDecide(stored: seq<Resource>, r: Resource)
    requires SlashFree(stored) && '/' !in r.name && '/' !in r.kind
    ensures SlashKey(r) in MapSeq(SlashKey, stored) <==> r in stored
  {
    var keys := MapSeq(SlashKey, stored);
    if SlashKey(r) in keys {
      var i :| 0 <= i < |keys| && keys[i] == SlashKey(r);
      SlashKeyIsUnique(stored[i], r);
      assert stored[i] == r;
    }
    if r in stored {
      var i :| 0 <= i < |stored| && stored[i] == r;
      assert keys[i] == SlashKey(r);
    }
  }

  method ComputeApplicationChanges(row: ApplicationRow, req: ApplicationRequest) returns (ch: Changes)
    requires SlashFree(row.ignored) && SlashFree(req.ignored)
    ensures ch == ApplicationChanges(row, req)
  {
    var profiles, added := CompareProfiles(row.profiles, req.profiles, ProfileName, SameProfile);
    var ignored := IgnoredResourcesChanged(row, req);
    ch := Changes(!IsSameKind(req.kind, row.kind), RootChanged(row, req), profiles,
                  DefaultChanged(row.defaultProfile, req.defaultProfile), ignored, added);
  }

  // ---------- Create and update ----------

  method CreateOneApplication(db: Db, project: string, req: ApplicationRequest) returns (r: Result<Db>)
    ensures r == CreateApplication(db, project, req)
  {
    if NeedsDefault(req) || !IsTrimmed(req.displayName) {
      return Err(InvalidArgument);
    }
    if DisplayTaken(db, project, req) {
      return Err(AlreadyExists);
    }
    var registries :- FindRegistries(db, project, req);
    var key := ApplicationKey(project, req);
    if key in db.applications {
      return Err(InvalidArgument);
    }
    var profiles :- CreateProfiles(map[], req.profiles);
    var default :- ChooseDefault(profiles, req.defaultProfile);
    var ignored :- CreateIgnoredResources(req.ignored);
    return Ok(db.(applications := db.applications[key := ApplicationRow(
        DisplayName(req.name, req.displayName), req.description, KindToDb(req.kind),
        req.chartName, req.chartVersion, registries.0, registries.1, profiles, default, ignored)]));
  }

  method RewriteRow(db: Db, project: string, app: VersionedKey, row: ApplicationRow, req: ApplicationRequest)
    returns (r: Result<ApplicationRow>)
    requires SlashFree(row.ignored) && SlashFree(req.ignored) && IsOrderOf(req.rowOrder, row.profiles.Keys)
    ensures r == UpdateRow(db, project, app, row, req)
  {
    var registries :- FindRegistries(db, project, req);
    var ch := ComputeApplicationChanges(row, req);
    if ch.kind && !ch.Changed() {
      return Ok(row.(kind := KindToDb(req.kind)));
    }
    if ch.Changed() && InDeployedPackage(db, app) {
      return Err(FailedPrecondition);
    }
    if DisplayTaken(db, "", req) {
      return Err(AlreadyExists);
    }
    var profiles: Profiles;
    if ch.profiles {
      profiles :- ReconcileProfiles(db, app, row.profiles, req.profiles, req.mapOrder, req.rowOrder);
    } else {
      profiles :- CreateProfiles(row.profiles, ch.newProfiles);
    }
    var default := row.defaultProfile;
    if ch.profile || ch.profiles {
      default :- ChooseDefault(profiles, req.defaultProfile);
    }
    var ignored := row.ignored;
    if ch.ignored {
      ignored :- CreateIgnoredResources(req.ignored);
    }
    return Ok(ApplicationRow(
                req.displayName, req.description, KindToDb(req.kind), req.chartName, req.chartVersion,
                registries.0, registries.1, profiles, default, ignored));
  }

  method UpdateOneApplication(db: Db, project: string, req: ApplicationRequest) returns (r: Result<Db>)
    requires ValidApplication(req)
    requires var key := ApplicationKey(project, req);
             key in db.applications ==>
               SlashFree(db.applications[key].ignored) && IsOrderOf(req.rowOrder, db.applications[key].profiles.Keys)
    ensures r == UpdateApplication(db, project, req)
  {
    if NeedsDefault(req) || !IsTrimmed(req.displayName) {
      return Err(InvalidArgument);
    }
    var key := ApplicationKey(project, req);
    if key !in db.applications {
      return Err(NotFound);
    }
    var row := db.applications[key];
    assert forall i :: 0 <= i < |req.ignored| ==> ValidResource(req.ignored[i]);
    var row' :- RewriteRow(db, project, key, row, Normalized(row, req));
    return Ok(db.(applications := db.applications[key := row'],
                  packages := CascadeProfiles(db.packages, key, row.profiles.Keys - row'.profiles.Keys)));
  }
}
