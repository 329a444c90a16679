/** What an accepted application update leaves stored, compared with the request. */
module ApplicationOverwrite {
  import opened Prelude
  import opened Tables
  import opened Diff
  import opened Applications
  import AI = AppInvariants

  function WithoutValidator(t: Template): Template { t.(validator := "") }

  /** The stored profile shows the texts of the request; the name stands in for an empty display name. */
  predicate ShowsTexts(row: ProfileRow, p: ProfileRequest) {
    DisplayName(p.name, row.displayName) == DisplayName(p.name, p.displayName) &&
    row.description == p.description && row.chartValues == p.chartValues
  }

  /** The stored templates are the requested ones, up to order. */
  ghost predicate ShowsTemplates(row: ProfileRow, p: ProfileRequest) {
    multiset(row.templates) == multiset(p.templates)
  }

  /** The same, apart from their validators. */
  ghost predicate ShowsUnvalidated(row: ProfileRow, p: ProfileRequest) {
    multiset(MapSeq(WithoutValidator, row.templates)) == multiset(MapSeq(WithoutValidator, p.templates))
  }

  predicate SameValidators(stored: seq<Template>, ts: seq<Template>) {
    forall i, j :: 0 <= i < |stored| && 0 <= j < |ts| && stored[i].name == ts[j].name ==>
      stored[i].validator == ts[j].validator
  }

  predicate ShowsRoot(row: ApplicationRow, req: ApplicationRequest) {
    row.displayName == req.displayName && row.description == req.description && row.kind == KindToDb(req.kind) &&
    row.chartName == req.chartName && row.chartVersion == req.chartVersion &&
    !DefaultChanged(row.defaultProfile, req.defaultProfile)
  }

  /** A change of the kind alone takes a shortcut that stores nothing else. */
  predicate TakesShortcut(row: ApplicationRow, req: ApplicationRequest) {
    var ch := ApplicationChanges(row, req);
    ch.kind && !ch.Changed()
  }

  /** The profile is made from the request: all profiles are rewritten, or it is new. */
  predicate IsRemade(row: ApplicationRow, req: ApplicationRequest, p: ProfileRequest) {
    ApplicationChanges(row, req).profiles || p.name !in row.profiles
  }

  /** Exactly when the templates of a profile that compares alike are the requested ones. */
  predicate TemplatesAgree(stored: seq<Template>, ts: seq<Template>) {
    DistinctNames(ts, TemplateName) && SameValidators(stored, ts)
  }

  lemma DistinctTemplates(ts: seq<Template>)
    requires DistinctNames(ts, TemplateName)
    ensures NoDup(MapSeq(WithoutValidator, ts)) && NoDup(ts)
  {
    var views := MapSeq(WithoutValidator, ts);
    forall i, j | 0 <= i < j < |views|
      ensures views[i] != views[j] && ts[i] != ts[j]
    {
      assert TemplateName(ts[i]) != TemplateName(ts[j]);
    }
  }

  /** Lists that hold the same items hold the same names: if one has no name twice, neither has the other. */
  lemma SameItemsDistinctNames(stored: seq<Template>, ts: seq<Template>)
    requires DistinctNames(stored, TemplateName)
    requires multiset(MapSeq(WithoutValidator, stored)) == multiset(MapSeq(WithoutValidator, ts))
    ensures DistinctNames(ts, TemplateName)
  {
    var xs, ys := MapSeq(WithoutValidator, stored), MapSeq(WithoutValidator, ts);
    DistinctTemplates(stored);
    MultisetKeepsDistinct(xs, ys);
    MultisetMembers(xs, ys);
    forall i, j | 0 <= i < j < |ts|
      ensures TemplateName(ts[i]) != TemplateName(ts[j])
    {
      assert ys[i] in xs && ys[j] in xs && ys[i] != ys[j];
      var a :| 0 <= a < |xs| && xs[a] == ys[i];
      var b :| 0 <= b < |xs| && xs[b] == ys[j];
      assert a != b;
      assert TemplateName(stored[a]) != TemplateName(stored[b]);
    }
  }

  lemma WithoutValidators(stored: seq<Template>, ts: seq<Template>)
    requires multiset(stored) == multiset(ts)
    ensures multiset(MapSeq(WithoutValidator, stored)) == multiset(MapSeq(WithoutValidator, ts))
  {
    MapKeepsMultiset(stored, ts, WithoutValidator);
  }

  /** Of templates that compare alike: what is shown apart from validators. */
  lemma AlikeUnvalidatedIff(row: ProfileRow, p: ProfileRequest)
    requires SameTemplates(p.templates, row.templates) && DistinctNames(row.templates, TemplateName)
    ensures ShowsUnvalidated(row, p) <==> DistinctNames(p.templates, TemplateName)
  {
    hide DistinctNames;
    if DistinctNames(p.templates, TemplateName) {
      DistinctTemplates(p.templates);
      UnchangedMeansEqual(row.templates, TemplateName, p.templates, TemplateName, SameTemplate,
                          WithoutValidator, WithoutValidator);
    }
    if ShowsUnvalidated(row, p) {
      SameItemsDistinctNames(row.templates, p.templates);
    }
  }

  /** And with validators. */
  lemma AlikeTemplatesIff(row: ProfileRow, p: ProfileRequest)
    requires SameTemplates(p.templates, row.templates) && DistinctNames(row.templates, TemplateName)
    ensures ShowsTemplates(row, p) <==> TemplatesAgree(row.templates, p.templates)
  {
    if TemplatesAgree(row.templates, p.templates) {
      AgreeingTemplatesAreStored(row.templates, p.templates);
      DistinctTemplates(p.templates);
      Pigeonhole(row.templates, p.templates);
    }
    if ShowsTemplates(row, p) {
      WithoutValidators(row.templates, p.templates);
      SameItemsDistinctNames(row.templates, p.templates);
      SameItemsSameValidators(row.templates, p.templates);
    }
  }

  lemma AgreeingTemplatesAreStored(stored: seq<Template>, ts: seq<Template>)
    requires SameTemplates(ts, stored) && SameValidators(stored, ts)
    ensures forall t :: t in ts ==> t in stored
  {
    forall t | t in ts
      ensures t in stored
    {
      var j :| 0 <= j < |ts| && ts[j] == t;
      var x := LastWith(stored, TemplateName, TemplateName(ts[j]));
      var i :| 0 <= i < |stored| && stored[i] == x.value;
      assert stored[i] == t;
    }
  }

  lemma SameItemsSameValidators(stored: seq<Template>, ts: seq<Template>)
    requires multiset(stored) == multiset(ts) && DistinctNames(stored, TemplateName)
    ensures SameValidators(stored, ts)
  {
    MultisetMembers(stored, ts);
    forall i, j | 0 <= i < |stored| && 0 <= j < |ts| && stored[i].name == ts[j].name
      ensures stored[i].validator == ts[j].validator
    {
      assert ts[j] in stored;
      var k :| 0 <= k < |stored| && stored[k] == ts[j];
      assert TemplateName(stored[i]) == TemplateName(stored[k]);
      assert i == k;
    }
  }

  lemma UnchangedProfiles(row: ApplicationRow, req: ApplicationRequest, i: nat)
    requires !ProfilesChanged(row, req) && DistinctNames(req.profiles, ProfileName)
    requires i < |req.profiles| && req.profiles[i].name in row.profiles
    ensures SameProfile(req.profiles[i], row.profiles[req.profiles[i].name])
  {
    assert ProfileName(req.profiles[i]) == req.profiles[i].name;
    assert !IsNew(row.profiles, req.profiles, ProfileName, i);
  }

  lemma AppliedProfileIs(
    db: Db, app: VersionedKey, row: ApplicationRow, req: ApplicationRequest, t: Profiles, i: nat)
    requires DistinctNames(req.profiles, ProfileName) && i < |req.profiles|
    requires ApplyProfiles(db, app, row, req, ApplicationChanges(row, req)) == Ok(t)
    ensures var p := req.profiles[i];
            p.name in t && t[p.name] == if IsRemade(row, req, p) then MakeProfile(p) else row.profiles[p.name]
  {
    hide InjectProfiles, UpdateProfiles, SameProfile, MakeProfile;
    var ch, p := ApplicationChanges(row, req), req.profiles[i];
    if ch.profiles {
      AI.ReconciliationReplaces(db, app, row.profiles, req.profiles, req.mapOrder, req.rowOrder, t);
    } else {
      AI.InjectedNames(row.profiles, ch.newProfiles, t);
      if p.name !in row.profiles {
        NewItemsMembers(row.profiles, req.profiles, ProfileName);
        assert p in ch.newProfiles;
        var j :| 0 <= j < |ch.newProfiles| && ch.newProfiles[j] == p;
        AI.InjectedRow(row.profiles, ch.newProfiles, t, j);
      }
    }
  }

  /** The root record shows the request after every accepted update, also through the shortcut. */
  lemma RootIsOverwritten(
    db: Db, project: string, app: VersionedKey, row: ApplicationRow, req: ApplicationRequest, row': ApplicationRow)
    requires UpdateRow(db, project, app, row, req) == Ok(row')
    ensures ShowsRoot(row', req)
  {
    hide ApplyProfiles, ProfilesChanged, NewItems, FindRegistries;
  }

  lemma NewProfilesAreTheMissing(row: ApplicationRow, req: ApplicationRequest)
    requires DistinctNames(req.profiles, ProfileName) && !ProfilesChanged(row, req)
    ensures ApplicationChanges(row, req).newProfiles == [] <==>
            forall i :: 0 <= i < |req.profiles| ==> req.profiles[i].name in row.profiles
  {
    var added := NewItems(row.profiles, req.profiles, ProfileName);
    NewItemsMembers(row.profiles, req.profiles, ProfileName);
    if added != [] {
      assert added[0] in added;
    }
  }

  /** What an accepted update leaves under the name of a requested profile: made from it, or compared alike. */
  lemma StoredProfileIs(
    db: Db, project: string, app: VersionedKey, row: ApplicationRow, req: ApplicationRequest, row': ApplicationRow,
    i: nat)
    requires UpdateRow(db, project, app, row, req) == Ok(row')
    requires DistinctNames(req.profiles, ProfileName) && i < |req.profiles| && req.profiles[i].name in row'.profiles
    ensures var p := req.profiles[i];
            if IsRemade(row, req, p) then row'.profiles[p.name] == MakeProfile(p)
            else row'.profiles[p.name] == row.profiles[p.name] && SameProfile(p, row.profiles[p.name])
  {
    hide ApplyProfiles, SameProfile, FindRegistries, MakeProfile;
    var p := req.profiles[i];
    if !TakesShortcut(row, req) {
      AppliedProfileIs(db, app, row, req, row'.profiles, i);
    }
    if !IsRemade(row, req, p) {
      UnchangedProfiles(row, req, i);
    }
  }

  /**
   * The texts of a requested profile that is stored are the requested ones after every accepted
   * update. Its templates are, up to order, exactly if the profile is made from the request or they
   * were stored before; a profile that compares alike keeps its old templates.
   */
  lemma ProfilesAreOverwritten(
    db: Db, project: string, app: VersionedKey, row: ApplicationRow, req: ApplicationRequest, row': ApplicationRow,
    i: nat)
    requires UpdateRow(db, project, app, row, req) == Ok(row')
    requires DistinctNames(req.profiles, ProfileName) && i < |req.profiles| && req.profiles[i].name in row'.profiles
    ensures var p := req.profiles[i];
            && ShowsTexts(row'.profiles[p.name], p)
            && (ShowsTemplates(row'.profiles[p.name], p) <==>
                IsRemade(row, req, p) || ShowsTemplates(row.profiles[p.name], p))
  {
    hide UpdateRow, IsRemade;
    StoredProfileIs(db, project, app, row, req, row', i);
  }

  /**
   * For stored templates with distinct names, the last case is decided on the request: it shows its
   * templates apart from validators exactly if it repeats no template name, and with them exactly if,
   * besides, validators agree by name.
   */
  lemma TemplatesAreStoredIff(
    db: Db, project: string, app: VersionedKey, row: ApplicationRow, req: ApplicationRequest, row': ApplicationRow,
    i: nat)
    requires UpdateRow(db, project, app, row, req) == Ok(row')
    requires DistinctNames(req.profiles, ProfileName) && i < |req.profiles| && req.profiles[i].name in row'.profiles
    requires req.profiles[i].name in row.profiles ==>
               DistinctNames(row.profiles[req.profiles[i].name].templates, TemplateName)
    ensures var p := req.profiles[i];
            && (ShowsUnvalidated(row'.profiles[p.name], p) <==>
                IsRemade(row, req, p) || DistinctNames(p.templates, TemplateName))
            && (ShowsTemplates(row'.profiles[p.name], p) <==>
                IsRemade(row, req, p) || TemplatesAgree(row.profiles[p.name].templates, p.templates))
  {
    hide UpdateRow, IsRemade, TemplatesAgree, SameTemplates, DistinctNames, ShowsTemplates, ShowsUnvalidated;
    var p := req.profiles[i];
    StoredProfileIs(db, project, app, row, req, row', i);
    NotNew(row, req, p);
    if IsRemade(row, req, p) {
      MadeTemplatesShow(p);
    } else {
      AlikeUnvalidatedIff(row.profiles[p.name], p);
      AlikeTemplatesIff(row.profiles[p.name], p);
    }
  }

  lemma NotNew(row: ApplicationRow, req: ApplicationRequest, p: ProfileRequest)
    ensures !IsRemade(row, req, p) ==> p.name in row.profiles
  {
  }

  lemma MadeTemplatesShow(p: ProfileRequest)
    ensures ShowsTemplates(MakeProfile(p), p) && ShowsUnvalidated(MakeProfile(p), p)
  {
  }

  /**
   * All requested profiles are stored after an accepted update, unless the update takes the shortcut
   * and the request brings new profiles: then, and only then, the new ones are lost.
   */
  lemma ProfilesAreStoredIff(
    db: Db, project: string, app: VersionedKey, row: ApplicationRow, req: ApplicationRequest, row': ApplicationRow)
    requires UpdateRow(db, project, app, row, req) == Ok(row')
    requires DistinctNames(req.profiles, ProfileName)
    ensures (forall i :: 0 <= i < |req.profiles| ==> req.profiles[i].name in row'.profiles) <==>
            !(TakesShortcut(row, req) && ApplicationChanges(row, req).newProfiles != [])
  {
    hide ApplyProfiles, FindRegistries, SameProfile;
    if TakesShortcut(row, req) {
      NewProfilesAreTheMissing(row, req);
    } else {
      forall i | 0 <= i < |req.profiles|
        ensures req.profiles[i].name in row'.profiles
      {
        RequestedNameIsStored(db, app, row, req, row'.profiles, i);
      }
    }
  }

  lemma RequestedNameIsStored(
    db: Db, app: VersionedKey, row: ApplicationRow, req: ApplicationRequest, t: Profiles, i: nat)
    requires ApplyProfiles(db, app, row, req, ApplicationChanges(row, req)) == Ok(t) && i < |req.profiles|
    ensures req.profiles[i].name in t
  {
    hide InjectProfiles, UpdateProfiles, SameProfile;
    var ch := ApplicationChanges(row, req);
    assert Named(req.profiles, ProfileName, req.profiles[i].name) by {
      assert ProfileName(req.profiles[i]) == req.profiles[i].name;
    }
    if ch.profiles {
      AI.ReconciliationReplaces(db, app, row.profiles, req.profiles, req.mapOrder, req.rowOrder, t);
    } else {
      AI.InjectedNames(row.profiles, ch.newProfiles, t);
      NewItemsNames(row.profiles, req.profiles, ProfileName);
    }
  }

  /** The requested registries are stored, unless the shortcut is taken with other ones in the request. */
  lemma RegistriesAreStoredIff(
    db: Db, project: string, app: VersionedKey, row: ApplicationRow, req: ApplicationRequest, row': ApplicationRow)
    requires UpdateRow(db, project, app, row, req) == Ok(row')
    ensures FindRegistries(db, project, req).Ok?
    ensures var wanted := FindRegistries(db, project, req).value;
            (row'.helmRegistry, row'.imageRegistry) == wanted <==>
            !(TakesShortcut(row, req) && (row.helmRegistry, row.imageRegistry) != wanted)
  {
    hide FindRegistries, ApplyProfiles, ApplicationChanges;
  }

  /**
   * Exactly when the requested ignored resources are stored: an empty list asks for no change, the
   * shortcut stores none, and an unchanged comparison is right for lists without repetition.
   */
  predicate IgnoredAreStored(row: ApplicationRow, req: ApplicationRequest) {
    if req.ignored == [] then row.ignored == []
    else if IgnoredChanged(row, req) then !TakesShortcut(row, req)
    else NoDup(req.ignored)
  }

  lemma IgnoredAreStoredIff(
    db: Db, project: string, app: VersionedKey, row: ApplicationRow, req: ApplicationRequest, row': ApplicationRow)
    requires UpdateRow(db, project, app, row, req) == Ok(row') && NoDup(row.ignored)
    ensures multiset(row'.ignored) == multiset(req.ignored) <==> IgnoredAreStored(row, req)
  {
    hide FindRegistries, ApplyProfiles, ProfilesChanged;
    if row'.ignored == row.ignored {
      KeptIgnored(row, req);
    }
  }

  lemma KeptIgnored(row: ApplicationRow, req: ApplicationRequest)
    requires NoDup(row.ignored)
    ensures multiset(row.ignored) == multiset(req.ignored) <==>
            if req.ignored == [] then row.ignored == [] else !IgnoredChanged(row, req) && NoDup(req.ignored)
  {
    if multiset(row.ignored) == multiset(req.ignored) {
      MultisetMembers(row.ignored, req.ignored);
      MultisetKeepsDistinct(row.ignored, req.ignored);
      assert |multiset(row.ignored)| == |row.ignored| && |multiset(req.ignored)| == |req.ignored|;
    }
    if req.ignored != [] && !IgnoredChanged(row, req) {
      PigeonholeExact(row.ignored, req.ignored);
    }
  }

  // ---------- Validators alone ----------

  function WithValidators(ts: seq<Template>, validators: seq<string>): seq<Template>
    requires |validators| == |ts|
  {
    seq(|ts|, i requires 0 <= i < |ts| => ts[i].(validator := validators[i]))
  }

  lemma ValidatorsCompareAlike(row: ProfileRow, p: ProfileRequest, validators: seq<string>)
    requires SameProfile(p, row) && |validators| == |p.templates|
    ensures SameProfile(p.(templates := WithValidators(p.templates, validators)), row)
  {
    var ts := WithValidators(p.templates, validators);
    forall i | 0 <= i < |ts|
      ensures var x := LastWith(row.templates, TemplateName, TemplateName(ts[i]));
              x.Some? && SameTemplate(ts[i], x.value)
    {
      assert TemplateName(ts[i]) == TemplateName(p.templates[i]);
    }
  }

  /** Replacing a requested profile that is stored leaves the new ones as they are. */
  lemma {:induction false} SameNewItems(stored: Profiles, ps: seq<ProfileRequest>, i: nat, p: ProfileRequest)
    requires DistinctNames(ps, ProfileName) && i < |ps| && p.name == ps[i].name && p.name in stored
    ensures NewItems(stored, ps[i := p], ProfileName) == NewItems(stored, ps, ProfileName)
  {
    var last, qs := |ps| - 1, ps[i := p];
    forall j | 0 <= j < |ps|
      ensures ProfileName(qs[j]) == ProfileName(ps[j])
    {
    }
    assert IsNew(stored, qs, ProfileName, last) <==> IsNew(stored, ps, ProfileName, last);
    if i < last {
      assert qs[..last] == ps[..last][i := p];
      SameNewItems(stored, ps[..last], i, p);
    } else {
      assert qs[..last] == ps[..last];
      assert !IsNew(stored, ps, ProfileName, last);
    }
  }

  /**
   * If nothing compares as changed among the profiles, other validators in a requested profile make no
   * difference: the update has the same outcome, and stores none of them.
   */
  lemma ValidatorIsNotCompared(
    db: Db, project: string, app: VersionedKey, row: ApplicationRow, req: ApplicationRequest, i: nat,
    validators: seq<string>)
    requires !ProfilesChanged(row, req) && DistinctNames(req.profiles, ProfileName)
    requires i < |req.profiles| && req.profiles[i].name in row.profiles
    requires |validators| == |req.profiles[i].templates|
    ensures var p := req.profiles[i].(templates := WithValidators(req.profiles[i].templates, validators));
            UpdateRow(db, project, app, row, req.(profiles := req.profiles[i := p])) ==
            UpdateRow(db, project, app, row, req)
  {
    hide SameProfile, InjectProfiles, NewItems, WithValidators;
    var p := req.profiles[i].(templates := WithValidators(req.profiles[i].templates, validators));
    var req' := req.(profiles := req.profiles[i := p]);
    UnchangedProfiles(row, req, i);
    ValidatorsCompareAlike(row.profiles[p.name], req.profiles[i], validators);
    SameNewItems(row.profiles, req.profiles, i, p);
    StillUnchanged(row, req, i, p);
    assert ApplicationChanges(row, req') == ApplicationChanges(row, req);
    assert FindRegistries(db, project, req') == FindRegistries(db, project, req);
    assert DisplayTaken(db, "", req') == DisplayTaken(db, "", req);
  }

  lemma StillUnchanged(row: ApplicationRow, req: ApplicationRequest, i: nat, p: ProfileRequest)
    requires !ProfilesChanged(row, req) && i < |req.profiles| && p.name == req.profiles[i].name
    requires p.name in row.profiles && SameProfile(p, row.profiles[p.name])
    ensures !ProfilesChanged(row, req.(profiles := req.profiles[i := p]))
  {
    hide SameProfile;
    var ps, qs := req.profiles, req.profiles[i := p];
    forall j | 0 <= j < |ps|
      ensures ProfileName(qs[j]) == ProfileName(ps[j])
      ensures IsNew(row.profiles, qs, ProfileName, j) <==> IsNew(row.profiles, ps, ProfileName, j)
    {
      assert forall h :: 0 <= h < |ps| ==> ProfileName(qs[h]) == ProfileName(ps[h]);
    }
    forall n | n in row.profiles
      ensures Named(qs, ProfileName, n)
    {
      assert Named(ps, ProfileName, n);
      var j :| 0 <= j < |ps| && ProfileName(ps[j]) == n;
      assert ProfileName(qs[j]) == n;
    }
  }
}
