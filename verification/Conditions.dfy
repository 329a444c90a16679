/**
 * What requests ask of the stored rows, in terms of both alone: which member an entry denotes, what a
 * list holds under a name, and which profiles can be created beside others.
 */
module Conditions {
  import opened Prelude
  import opened Text
  import opened Tables
  import opened Diff
  import opened References
  import A = Applications
  import AI = AppInvariants
  import P = Packages
  import M = MapOrders
  import O = Overwrite
  import I = Invariants

  // ---------- What an entry of a deployment profile denotes ----------

  /** The text begins like that, and ends or goes on with a colon. */
  predicate BeginsField(key: string, start: string) {
    start <= key && (|key| == |start| || key[|start|] == ':')
  }

  /** The key is the name, or name, colon and version; nothing in place of the version means any. */
  predicate Denotes(key: string, app: VersionedKey) {
    key == app.name || BeginsField(key, app.name + ":") || BeginsField(key, app.name + ":" + app.version)
  }

  /** The application is the first one that the key denotes. */
  ghost predicate IsDenoted(apps: seq<VersionedKey>, key: string, app: VersionedKey) {
    exists i :: 0 <= i < |apps| && apps[i] == app && Denotes(key, app) &&
                forall j :: 0 <= j < i ==> !Denotes(key, apps[j])
  }

  /** Each entry denotes an application that has the profile. */
  ghost predicate EntriesFit(db: Db, apps: seq<VersionedKey>, p: DeploymentProfileRequest) {
    p.appProfiles.Some? ==>
      forall i :: 0 <= i < |p.appProfiles.value| ==> EntryFits(db, apps, p.appProfiles.value[i])
  }

  ghost predicate EntryFits(db: Db, apps: seq<VersionedKey>, e: (string, string)) {
    exists app :: IsDenoted(apps, e.0, app) && app in db.applications && e.1 in db.applications[app].profiles
  }

  lemma FieldsOfPlain(name: string, rest: string)
    requires ':' !in name
    ensures Split(name + ":" + rest, ':') == [name] + Split(rest, ':')
  {
    SplitAtSeparator(name, ':', rest);
    SplitWithoutSeparator(name, ':');
    assert name + ":" + rest == name + [':'] + rest;
  }

  /** The first field of a text, and what follows it. */
  lemma {:induction false} FirstField(key: string)
    ensures var fields := Split(key, ':');
            && BeginsField(key, fields[0]) && ':' !in fields[0]
            && (|fields| == 1 <==> key == fields[0])
            && (|fields| > 1 ==> |fields[0]| < |key| && key == fields[0] + ":" + key[|fields[0]| + 1..] &&
                                 fields[1..] == Split(key[|fields[0]| + 1..], ':'))
  {
    SplitStep(key, ':');
    if key != "" && key[0] != ':' {
      FirstField(key[1..]);
      var rest := Split(key[1..], ':');
      assert key == [key[0]] + key[1..];
      assert Split(key, ':')[0] == [key[0]] + rest[0];
    }
  }

  /** A text begins with a field exactly if that is its first field. */
  lemma BeginsFieldIff(key: string, start: string)
    requires ':' !in start
    ensures BeginsField(key, start) <==> Split(key, ':')[0] == start
  {
    FirstField(key);
    var first := Split(key, ':')[0];
    if BeginsField(key, start) {
      assert first == key[..|first|] && start == key[..|start|];
    }
  }

  lemma AfterName(key: string, name: string, start: string)
    requires ':' !in name && ':' !in start
    ensures BeginsField(key, name + ":" + start) <==>
            |Split(key, ':')| > 1 && Split(key, ':')[0] == name && Split(key, ':')[1] == start
  {
    hide Split, BeginsField;
    BeginsAfterIff(key, name, start);
    FirstField(key);
    if name + ":" <= key {
      var rest := key[|name| + 1..];
      assert key == name + ":" + rest;
      FieldsOfPlain(name, rest);
      BeginsFieldIff(rest, start);
    }
  }

  lemma BeginsAfterIff(key: string, name: string, start: string)
    ensures BeginsField(key, name + ":" + start) <==> name + ":" <= key && BeginsField(key[|name| + 1..], start)
  {
    var prefix := name + ":";
    if prefix <= key {
      var rest := key[|prefix|..];
      assert key == prefix + rest;
      if start <= rest {
        assert rest == start + rest[|start|..];
        assert key == prefix + start + rest[|start|..];
      }
      if prefix + start <= key {
        assert rest[..|start|] == key[|prefix|..|prefix + start|] == start;
      }
    }
  }

  lemma DenotesIff(key: string, app: VersionedKey)
    requires ':' !in app.name && ':' !in app.version
    ensures var fields := Split(key, ':');
            Denotes(key, app) <==> Matches(app, fields[0], if |fields| > 1 then fields[1] else "")
  {
    FirstField(key);
    AfterName(key, app.name, "");
    AfterName(key, app.name, app.version);
    assert app.name + ":" + "" == app.name + ":";
  }

  predicate PlainApps(apps: seq<VersionedKey>) {
    forall i :: 0 <= i < |apps| ==> ':' !in apps[i].name && ':' !in apps[i].version
  }

  lemma DenotedFirst(apps: seq<VersionedKey>, key: string, app: VersionedKey)
    requires apps != []
    ensures IsDenoted(apps, key, app) <==>
            if Denotes(key, apps[0]) then apps[0] == app else IsDenoted(apps[1..], key, app)
  {
    hide Denotes;
    var rest := apps[1..];
    if IsDenoted(apps, key, app) && !Denotes(key, apps[0]) {
      var i :| 0 <= i < |apps| && apps[i] == app && Denotes(key, app) &&
          forall j :: 0 <= j < i ==> !Denotes(key, apps[j]);
      assert rest[i - 1] == app && forall j :: 0 <= j < i - 1 ==> rest[j] == apps[j + 1];
    }
    if IsDenoted(rest, key, app) && !Denotes(key, apps[0]) {
      var i :| 0 <= i < |rest| && rest[i] == app && Denotes(key, app) &&
          forall j :: 0 <= j < i ==> !Denotes(key, rest[j]);
      assert apps[i + 1] == app && forall j :: 0 < j < i + 1 ==> apps[j] == rest[j - 1];
    }
  }

  lemma {:induction false} FirstMatchingIff(apps: seq<VersionedKey>, key: string, app: VersionedKey)
    requires PlainApps(apps)
    ensures var fields := Split(key, ':');
            FirstMatching(apps, fields[0], if |fields| > 1 then fields[1] else "") == Some(app) <==>
            IsDenoted(apps, key, app)
  {
    hide Denotes, Split, IsDenoted;
    if apps != [] {
      DenotesIff(key, apps[0]);
      FirstMatchingIff(apps[1..], key, app);
      DenotedFirst(apps, key, app);
    } else {
      assert !IsDenoted(apps, key, app) by { NothingIsDenoted(key, app); }
    }
  }

  lemma NothingIsDenoted(key: string, app: VersionedKey)
    ensures !IsDenoted([], key, app)
  {
  }

  lemma FindsDenoted(apps: seq<VersionedKey>, key: string, app: VersionedKey)
    requires PlainApps(apps)
    ensures FindApplication(apps, key) == Some(app) <==> IsDenoted(apps, key, app)
  {
    FirstMatchingIff(apps, key, app);
  }

  /** The entries of a deployment profile resolve exactly if each denotes an application that has the profile. */
  lemma ResolvesIff(db: Db, apps: seq<VersionedKey>, p: DeploymentProfileRequest)
    requires PlainApps(apps)
    ensures P.Resolves(db, apps, p) <==> EntriesFit(db, apps, p)
  {
    hide FindApplication, IsDenoted;
    forall e: (string, string)
      ensures ResolveEntry(db.applications, apps, e).Some? <==> EntryFits(db, apps, e)
    {
      forall app
        ensures FindApplication(apps, e.0) == Some(app) <==> IsDenoted(apps, e.0, app)
      {
        FindsDenoted(apps, e.0, app);
      }
      var found := FindApplication(apps, e.0);
      if ResolveEntry(db.applications, apps, e).Some? {
        assert IsDenoted(apps, e.0, found.value);
      }
    }
  }

  // ---------- What a list holds under a name ----------

  /** The last item under the name. */
  ghost predicate IsLast<S>(stored: seq<S>, name: S -> string, k: string, x: S) {
    exists j :: 0 <= j < |stored| && stored[j] == x && name(x) == k &&
                forall l :: j < l < |stored| ==> name(stored[l]) != k
  }

  lemma {:induction false} LastWithIff<S>(stored: seq<S>, name: S -> string, k: string, x: S)
    ensures LastWith(stored, name, k) == Some(x) <==> IsLast(stored, name, k, x)
  {
    if stored != [] {
      var last := |stored| - 1;
      var before := stored[..last];
      LastWithIff(before, name, k, x);
      if name(stored[last]) == k {
        if IsLast(stored, name, k, x) {
          var j :| 0 <= j < |stored| && stored[j] == x && name(x) == k &&
              forall l :: j < l < |stored| ==> name(stored[l]) != k;
          assert j == last;
        }
      } else {
        if IsLast(stored, name, k, x) {
          var j :| 0 <= j < |stored| && stored[j] == x && name(x) == k &&
              forall l :: j < l < |stored| ==> name(stored[l]) != k;
          assert before[j] == x;
          assert forall l :: j < l < |before| ==> name(before[l]) != k;
        }
        if IsLast(before, name, k, x) {
          var j :| 0 <= j < |before| && before[j] == x && name(x) == k &&
              forall l :: j < l < |before| ==> name(before[l]) != k;
          assert stored[j] == x;
          assert forall l :: j < l < |stored| ==> l == last || stored[l] == before[l];
        }
      }
    }
  }

  /** As many items as stored, each the same as the last one that is stored under its name. */
  ghost predicate HeldAlike<S, R>(
    stored: seq<S>, name: S -> string, wanted: seq<R>, wantedName: R -> string, same: (R, S) -> bool)
  {
    |stored| == |wanted| &&
    forall i :: 0 <= i < |wanted| ==> HasCounterpart(stored, name, wanted[i], wantedName, same)
  }

  ghost predicate HasCounterpart<S, R>(
    stored: seq<S>, name: S -> string, wanted: R, wantedName: R -> string, same: (R, S) -> bool)
  {
    exists j :: 0 <= j < |stored| && IsLast(stored, name, wantedName(wanted), stored[j]) && same(wanted, stored[j])
  }

  lemma UnchangedIff<S, R>(
    stored: seq<S>, name: S -> string, wanted: seq<R>, wantedName: R -> string, same: (R, S) -> bool)
    ensures Unchanged(stored, name, wanted, wantedName, same) <==> HeldAlike(stored, name, wanted, wantedName, same)
  {
    hide IsLast, LastWith;
    forall i | 0 <= i < |wanted|
      ensures var x := LastWith(stored, name, wantedName(wanted[i]));
              (x.Some? && same(wanted[i], x.value)) <==> HasCounterpart(stored, name, wanted[i], wantedName, same)
    {
      var k := wantedName(wanted[i]);
      var x := LastWith(stored, name, k);
      if x.Some? {
        LastWithIff(stored, name, k, x.value);
        var j :| 0 <= j < |stored| && stored[j] == x.value;
      }
      if HasCounterpart(stored, name, wanted[i], wantedName, same) {
        var j :| 0 <= j < |stored| && IsLast(stored, name, k, stored[j]) && same(wanted[i], stored[j]);
        LastWithIff(stored, name, k, stored[j]);
      }
    }
  }

  /** Tests that agree on all items find the same. */
  lemma SameTests<S, R>(
    stored: seq<S>, name: S -> string, wanted: seq<R>, wantedName: R -> string, same: (R, S) -> bool,
    same': (R, S) -> bool)
    requires forall i, j :: 0 <= i < |wanted| && 0 <= j < |stored| ==>
               (same(wanted[i], stored[j]) <==> same'(wanted[i], stored[j]))
    ensures HeldAlike(stored, name, wanted, wantedName, same) <==> HeldAlike(stored, name, wanted, wantedName, same')
  {
    hide IsLast;
    forall i | 0 <= i < |wanted|
      ensures HasCounterpart(stored, name, wanted[i], wantedName, same) <==>
              HasCounterpart(stored, name, wanted[i], wantedName, same')
    {
    }
  }

  /** A member has the name. */
  predicate HasMember(apps: seq<VersionedKey>, name: string) {
    exists i :: 0 <= i < |apps| && apps[i].name == name
  }

  lemma LastNamedIff(apps: seq<VersionedKey>, name: string)
    ensures P.LastNamed(apps, name).Some? <==> HasMember(apps, name)
  {
    var x := P.LastNamed(apps, name);
    if x.Some? {
      assert AppName(x.value) == name;
      var j :| 0 <= j < |apps| && apps[j] == x.value;
    }
    if HasMember(apps, name) {
      var i :| 0 <= i < |apps| && apps[i].name == name;
      assert AppName(apps[i]) == name;
    }
  }

  // ---------- Which profiles can be created ----------

  /** Nothing shows the text of the request, if it has one. */
  ghost predicate NotShown(shown: set<string>, displayName: string) {
    displayName != "" ==> forall d :: d in shown ==> ToLower(d) != ToLower(displayName)
  }

  ghost function Displays(base: P.ProfileTable): set<string> {
    set k | k in base :: base[k].displayName
  }

  /** What is shown beside the first profiles of the list, with what those show. */
  ghost function ShownBefore(shown: set<string>, s: seq<DeploymentProfileRequest>, n: nat): set<string>
    requires n <= |s|
  {
    shown + set j | 0 <= j < n :: DisplayName(s[j].name, s[j].displayName)
  }

  /** The profile can be created beside others, of these names and displays, and the earlier ones of the list. */
  ghost predicate CanFollow(
    db: Db, apps: seq<VersionedKey>, names: set<string>, shown: set<string>, s: seq<DeploymentProfileRequest>, i: nat)
    requires i < |s|
  {
    && IsTrimmed(s[i].displayName) && EntriesFit(db, apps, s[i])
    && s[i].name !in names && (forall j :: 0 <= j < i ==> s[j].name != s[i].name)
    && NotShown(ShownBefore(shown, s, i), s[i].displayName)
  }

  ghost predicate CanBeCreated(
    db: Db, apps: seq<VersionedKey>, names: set<string>, shown: set<string>, s: seq<DeploymentProfileRequest>)
  {
    forall i :: 0 <= i < |s| ==> CanFollow(db, apps, names, shown, s, i)
  }

  lemma CanFollowPrefix(
    db: Db, apps: seq<VersionedKey>, names: set<string>, shown: set<string>, s: seq<DeploymentProfileRequest>,
    n: nat, i: nat)
    requires i < n <= |s|
    ensures CanFollow(db, apps, names, shown, s[..n], i) <==> CanFollow(db, apps, names, shown, s, i)
  {
    hide EntriesFit;
    assert ShownBefore(shown, s[..n], i) == ShownBefore(shown, s, i);
    assert forall j :: 0 <= j < i ==> s[..n][j] == s[j];
  }

  lemma TakenIff(
    db: Db, apps: seq<VersionedKey>, base: P.ProfileTable, s: seq<DeploymentProfileRequest>, t: P.ProfileTable, i: nat)
    requires i < |s| && P.InjectProfiles(db, apps, base, s[..i]) == Ok(t)
    requires s[i].name !in base && forall j :: 0 <= j < i ==> s[j].name != s[i].name
    ensures P.ProfileDisplayTaken(t, s[i]) <==> !NotShown(ShownBefore(Displays(base), s, i), s[i].displayName)
  {
    hide P.InjectProfiles;
    var p, before, shown := s[i], s[..i], ShownBefore(Displays(base), s, i);
    M.TakenAfter(db, apps, base, before, t, p);
    if P.ProfileDisplayTaken(base, p) {
      var n :| n in base && n != p.name && ToLower(base[n].displayName) == ToLower(p.displayName);
      assert base[n].displayName in shown;
    }
    if j :| 0 <= j < |before| && M.Clash(p, before[j]) {
      assert before[j] == s[j];
      assert DisplayName(s[j].name, s[j].displayName) in shown;
    }
    if !NotShown(shown, p.displayName) {
      var d :| d in shown && ToLower(d) == ToLower(p.displayName);
      if d !in Displays(base) {
        var j :| 0 <= j < i && d == DisplayName(s[j].name, s[j].displayName);
        assert M.Clash(p, before[j]);
      }
    }
  }

  /** Creating profiles one after the other succeeds exactly if each can follow the earlier ones. */
  lemma {:induction false} CreatedIff(
    db: Db, apps: seq<VersionedKey>, base: P.ProfileTable, s: seq<DeploymentProfileRequest>)
    requires PlainApps(apps)
    ensures P.InjectProfiles(db, apps, base, s).Ok? <==> CanBeCreated(db, apps, base.Keys, Displays(base), s)
  {
    hide CanFollow, P.Resolves, P.MakeProfile, P.ProfileDisplayTaken;
    if s != [] {
      var last, names, shown := |s| - 1, base.Keys, Displays(base);
      CreatedIff(db, apps, base, s[..last]);
      forall i | 0 <= i < last
        ensures CanFollow(db, apps, names, shown, s[..last], i) <==> CanFollow(db, apps, names, shown, s, i)
      {
        CanFollowPrefix(db, apps, names, shown, s, last, i);
      }
      if CanBeCreated(db, apps, names, shown, s) {
        forall i | 0 <= i < last
          ensures CanFollow(db, apps, names, shown, s[..last], i)
        {
          assert CanFollow(db, apps, names, shown, s, i);
        }
      }
      if P.InjectProfiles(db, apps, base, s[..last]).Ok? {
        LastCreatedIff(db, apps, base, s, P.InjectProfiles(db, apps, base, s[..last]).value);
      }
    }
  }

  lemma LastCreatedIff(
    db: Db, apps: seq<VersionedKey>, base: P.ProfileTable, s: seq<DeploymentProfileRequest>, t: P.ProfileTable)
    requires PlainApps(apps) && s != [] && P.InjectProfiles(db, apps, base, s[..|s| - 1]) == Ok(t)
    ensures P.InjectProfile(db, apps, t, s[|s| - 1]).Ok? <==>
            CanFollow(db, apps, base.Keys, Displays(base), s, |s| - 1)
  {
    hide P.InjectProfiles, P.Resolves, EntriesFit, P.ProfileDisplayTaken, NotShown, P.MakeProfile, Displays;
    hide ShownBefore;
    var last := |s| - 1;
    ResolvesIff(db, apps, s[last]);
    O.InjectedNames(db, apps, base, s[..last], t);
    assert s[last].name in t <==> s[last].name in base || exists j :: 0 <= j < last && s[j].name == s[last].name by {
      forall j | 0 <= j < last
        ensures P.ProfileName(s[..last][j]) == s[j].name
      {
      }
    }
    if s[last].name !in t {
      TakenIff(db, apps, base, s, t, last);
    }
  }

  // ---------- Why profiles cannot be created ----------

  /** A profile of another name, in the table or earlier in the list, shows the display name. */
  ghost predicate ShownByAnother(base: P.ProfileTable, s: seq<DeploymentProfileRequest>, i: nat)
    requires i < |s|
  {
    s[i].displayName != "" &&
    ((exists n :: n in base && n != s[i].name && ToLower(base[n].displayName) == ToLower(s[i].displayName)) ||
     (exists j :: 0 <= j < i && s[j].name != s[i].name &&
                  ToLower(DisplayName(s[j].name, s[j].displayName)) == ToLower(s[i].displayName)))
  }

  /** The first profile that cannot follow has a trimmed display name, which another one shows. */
  ghost predicate FirstIsShown(
    db: Db, apps: seq<VersionedKey>, base: P.ProfileTable, s: seq<DeploymentProfileRequest>)
  {
    exists i :: 0 <= i < |s| && IsTrimmed(s[i].displayName) && ShownByAnother(base, s, i) &&
                forall j :: 0 <= j < i ==> CanFollow(db, apps, base.Keys, Displays(base), s, j)
  }

  lemma ShownIff(
    db: Db, apps: seq<VersionedKey>, base: P.ProfileTable, s: seq<DeploymentProfileRequest>, t: P.ProfileTable, i: nat)
    requires i < |s| && P.InjectProfiles(db, apps, base, s[..i]) == Ok(t)
    ensures P.ProfileDisplayTaken(t, s[i]) <==> ShownByAnother(base, s, i)
  {
    hide P.InjectProfiles;
    var p, before := s[i], s[..i];
    O.InjectedNames(db, apps, base, before, t);
    forall j | 0 <= j < i
      ensures s[j].name in t && t[s[j].name].displayName == DisplayName(s[j].name, s[j].displayName)
    {
      I.InjectedRow(db, apps, base, before, t, j);
      assert before[j] == s[j];
    }
    if P.ProfileDisplayTaken(t, p) {
      var n :| n in t && n != p.name && ToLower(t[n].displayName) == ToLower(p.displayName);
      if n !in base {
        var j :| 0 <= j < |before| && P.ProfileName(before[j]) == n;
        assert before[j] == s[j];
      }
    }
    if n :| n in base && n != p.name && ToLower(base[n].displayName) == ToLower(p.displayName) {
      assert n in t && t[n] == base[n];
    }
  }

  /** One more profile: the first one that cannot follow is an earlier one, or this one. */
  lemma FirstStep(db: Db, apps: seq<VersionedKey>, base: P.ProfileTable, s: seq<DeploymentProfileRequest>)
    requires s != []
    ensures var last, names, shown := |s| - 1, base.Keys, Displays(base);
            && (FirstIsShown(db, apps, base, s) <==>
                || FirstIsShown(db, apps, base, s[..last])
                || (CanBeCreated(db, apps, names, shown, s[..last]) && IsTrimmed(s[last].displayName) &&
                    ShownByAnother(base, s, last)))
            && (CanBeCreated(db, apps, names, shown, s[..last]) ==> !FirstIsShown(db, apps, base, s[..last]))
  {
    hide CanFollow, ShownByAnother, Displays;
    var last, names, shown := |s| - 1, base.Keys, Displays(base);
    var before := s[..last];
    forall i | 0 <= i < last
      ensures s[i] == before[i]
      ensures CanFollow(db, apps, names, shown, before, i) <==> CanFollow(db, apps, names, shown, s, i)
      ensures ShownByAnother(base, before, i) <==> ShownByAnother(base, s, i)
      ensures CanFollow(db, apps, names, shown, before, i) ==> !ShownByAnother(base, before, i)
    {
      CanFollowPrefix(db, apps, names, shown, s, last, i);
      ShownPrefix(base, s, last, i);
      if CanFollow(db, apps, names, shown, before, i) {
        FollowingIsNotShown(db, apps, base, before, i);
      }
    }
    if FirstIsShown(db, apps, base, before) {
      var i :| 0 <= i < |before| && IsTrimmed(before[i].displayName) && ShownByAnother(base, before, i) &&
          forall j :: 0 <= j < i ==> CanFollow(db, apps, names, shown, before, j);
      assert forall j :: 0 <= j < i ==> CanFollow(db, apps, names, shown, s, j);
    }
    if FirstIsShown(db, apps, base, s) && !FirstIsShown(db, apps, base, before) {
      var i :| 0 <= i < |s| && IsTrimmed(s[i].displayName) && ShownByAnother(base, s, i) &&
          forall j :: 0 <= j < i ==> CanFollow(db, apps, names, shown, s, j);
      assert forall j :: 0 <= j < i && j < last ==> CanFollow(db, apps, names, shown, before, j);
      assert i == last;
    }
  }

  /** Creating profiles fails for a display name that is taken, or else for an invalid argument. */
  lemma {:induction false} CreationErrors(
    db: Db, apps: seq<VersionedKey>, base: P.ProfileTable, s: seq<DeploymentProfileRequest>)
    requires PlainApps(apps)
    ensures var r := P.InjectProfiles(db, apps, base, s);
            && (r == Err(AlreadyExists) <==> FirstIsShown(db, apps, base, s))
            && (r.Err? ==> r.error == AlreadyExists || r.error == InvalidArgument)
  {
    hide CanBeCreated, FirstIsShown, P.Resolves, P.MakeProfile, P.ProfileDisplayTaken, ShownByAnother, PlainApps;
    if s != [] {
      var last := |s| - 1;
      CreationErrors(db, apps, base, s[..last]);
      CreatedIff(db, apps, base, s[..last]);
      FirstStep(db, apps, base, s);
      if P.InjectProfiles(db, apps, base, s[..last]).Ok? {
        ShownIff(db, apps, base, s, P.InjectProfiles(db, apps, base, s[..last]).value, last);
      }
    } else {
      assert !FirstIsShown(db, apps, base, s) by { NothingIsShown(db, apps, base); }
    }
  }

  lemma NothingIsShown(db: Db, apps: seq<VersionedKey>, base: P.ProfileTable)
    ensures !FirstIsShown(db, apps, base, [])
  {
  }

  lemma ShownPrefix(base: P.ProfileTable, s: seq<DeploymentProfileRequest>, n: nat, i: nat)
    requires i < n <= |s|
    ensures ShownByAnother(base, s[..n], i) <==> ShownByAnother(base, s, i)
  {
    assert forall j :: 0 <= j <= i ==> s[..n][j] == s[j];
  }

  lemma FollowingIsNotShown(
    db: Db, apps: seq<VersionedKey>, base: P.ProfileTable, s: seq<DeploymentProfileRequest>, i: nat)
    requires i < |s| && CanFollow(db, apps, base.Keys, Displays(base), s, i)
    ensures !ShownByAnother(base, s, i)
  {
    hide EntriesFit;
    var shown := ShownBefore(Displays(base), s, i);
    assert forall n :: n in base ==> base[n].displayName in shown;
    assert forall j :: 0 <= j < i ==> DisplayName(s[j].name, s[j].displayName) in shown;
  }

  // ---------- Keeping the first occurrences ----------

  lemma DenotedStep(apps: seq<VersionedKey>, x: VersionedKey, key: string, app: VersionedKey)
    ensures IsDenoted(apps + [x], key, app) <==>
            IsDenoted(apps, key, app) || (x == app && Denotes(key, x) && forall a :: a in apps ==> !Denotes(key, a))
  {
    hide Denotes;
    var more := apps + [x];
    assert forall j :: 0 <= j < |apps| ==> more[j] == apps[j];
    if IsDenoted(apps, key, app) {
      var i :| 0 <= i < |apps| && apps[i] == app && Denotes(key, app) &&
          forall j :: 0 <= j < i ==> !Denotes(key, apps[j]);
      assert more[i] == app && forall j :: 0 <= j < i ==> !Denotes(key, more[j]);
    }
    if IsDenoted(more, key, app) {
      var i :| 0 <= i < |more| && more[i] == app && Denotes(key, app) &&
          forall j :: 0 <= j < i ==> !Denotes(key, more[j]);
      assert forall j :: 0 <= j < i && j < |apps| ==> !Denotes(key, apps[j]);
    }
    if x == app && Denotes(key, x) && forall a :: a in apps ==> !Denotes(key, a) {
      assert more[|apps|] == app && forall j :: 0 <= j < |apps| ==> !Denotes(key, more[j]);
    }
  }

  /** A key denotes the same member whether or not repeated references are dropped. */
  lemma {:induction false} DenotedInDedup(apps: seq<VersionedKey>, key: string, app: VersionedKey)
    ensures IsDenoted(Dedup(apps), key, app) <==> IsDenoted(apps, key, app)
  {
    hide IsDenoted, Denotes;
    if apps != [] {
      var last := |apps| - 1;
      DenotedInDedup(apps[..last], key, app);
      var r := Dedup(apps[..last]);
      assert apps == apps[..last] + [apps[last]];
      DenotedStep(apps[..last], apps[last], key, app);
      DenotedStep(r, apps[last], key, app);
    } else {
      assert Dedup(apps) == apps;
    }
  }

  lemma EntriesFitInDedup(db: Db, apps: seq<VersionedKey>, p: DeploymentProfileRequest)
    ensures EntriesFit(db, Dedup(apps), p) <==> EntriesFit(db, apps, p)
  {
    hide IsDenoted;
    forall e: (string, string)
      ensures EntryFits(db, Dedup(apps), e) <==> EntryFits(db, apps, e)
    {
      forall app
        ensures IsDenoted(Dedup(apps), e.0, app) <==> IsDenoted(apps, e.0, app)
      {
        DenotedInDedup(apps, e.0, app);
      }
    }
  }

  lemma HasMemberInDedup(apps: seq<VersionedKey>, name: string)
    ensures HasMember(Dedup(apps), name) <==> HasMember(apps, name)
  {
    var distinct := Dedup(apps);
    if HasMember(distinct, name) {
      var i :| 0 <= i < |distinct| && distinct[i].name == name;
      assert distinct[i] in apps;
      var j :| 0 <= j < |apps| && apps[j] == distinct[i];
    }
    if HasMember(apps, name) {
      var i :| 0 <= i < |apps| && apps[i].name == name;
      assert apps[i] in distinct;
      var j :| 0 <= j < |distinct| && distinct[j] == apps[i];
    }
  }

  // ---------- Which application profiles can be created ----------

  /** Template names differ, and a mandatory or secret template has no default. */
  predicate TemplatesUsable(ts: seq<Template>) {
    && (forall i, j :: 0 <= i < j < |ts| ==> ts[i].name != ts[j].name)
    && (forall i :: 0 <= i < |ts| ==>
          IsTrimmed(ts[i].displayName) && (ts[i].mandatory || ts[i].secret ==> ts[i].default == ""))
  }

  lemma TemplatesUsableIff(ts: seq<Template>)
    ensures A.TemplatesFit(ts) <==> TemplatesUsable(ts)
  {
    assert DistinctNames(ts, A.TemplateName) <==> forall i, j :: 0 <= i < j < |ts| ==> ts[i].name != ts[j].name;
    forall i | 0 <= i < |ts|
      ensures A.TemplateFits(ts[i]) <==>
              IsTrimmed(ts[i].displayName) && (ts[i].mandatory || ts[i].secret ==> ts[i].default == "")
    {
    }
  }

  ghost function AppDisplays(base: A.Profiles): set<string> {
    set k | k in base :: base[k].displayName
  }

  ghost function AppShownBefore(shown: set<string>, s: seq<ProfileRequest>, n: nat): set<string>
    requires n <= |s|
  {
    shown + set j | 0 <= j < n :: DisplayName(s[j].name, s[j].displayName)
  }

  /** The profile can be created beside others, of these names and displays, and the earlier ones of the list. */
  ghost predicate AppCanFollow(names: set<string>, shown: set<string>, s: seq<ProfileRequest>, i: nat)
    requires i < |s|
  {
    && IsTrimmed(s[i].displayName) && TemplatesUsable(s[i].templates)
    && s[i].name !in names && (forall j :: 0 <= j < i ==> s[j].name != s[i].name)
    && NotShown(AppShownBefore(shown, s, i), s[i].displayName)
  }

  ghost predicate AppCanBeCreated(names: set<string>, shown: set<string>, s: seq<ProfileRequest>) {
    forall i :: 0 <= i < |s| ==> AppCanFollow(names, shown, s, i)
  }

  lemma AppCanFollowPrefix(names: set<string>, shown: set<string>, s: seq<ProfileRequest>, n: nat, i: nat)
    requires i < n <= |s|
    ensures AppCanFollow(names, shown, s[..n], i) <==> AppCanFollow(names, shown, s, i)
  {
    hide TemplatesUsable;
    assert AppShownBefore(shown, s[..n], i) == AppShownBefore(shown, s, i);
    assert forall j :: 0 <= j < i ==> s[..n][j] == s[j];
  }

  lemma AppTakenIff(base: A.Profiles, s: seq<ProfileRequest>, t: A.Profiles, i: nat)
    requires i < |s| && A.InjectProfiles(base, s[..i]) == Ok(t)
    requires s[i].name !in base && forall j :: 0 <= j < i ==> s[j].name != s[i].name
    ensures A.ProfileDisplayTaken(t, s[i]) <==> !NotShown(AppShownBefore(AppDisplays(base), s, i), s[i].displayName)
  {
    hide A.InjectProfiles;
    var p, before, shown := s[i], s[..i], AppShownBefore(AppDisplays(base), s, i);
    M.AppTakenAfter(base, before, t, p);
    if A.ProfileDisplayTaken(base, p) {
      var n :| n in base && n != p.name && ToLower(base[n].displayName) == ToLower(p.displayName);
      assert base[n].displayName in shown;
    }
    if j :| 0 <= j < |before| && M.AppClash(p, before[j]) {
      assert before[j] == s[j];
      assert DisplayName(s[j].name, s[j].displayName) in shown;
    }
    if !NotShown(shown, p.displayName) {
      var d :| d in shown && ToLower(d) == ToLower(p.displayName);
      if d !in AppDisplays(base) {
        var j :| 0 <= j < i && d == DisplayName(s[j].name, s[j].displayName);
        assert M.AppClash(p, before[j]);
      }
    }
  }

  lemma {:induction false} AppCreatedIff(base: A.Profiles, s: seq<ProfileRequest>)
    ensures A.InjectProfiles(base, s).Ok? <==> AppCanBeCreated(base.Keys, AppDisplays(base), s)
  {
    hide AppCanFollow, A.MakeProfile, A.ProfileDisplayTaken, A.TemplatesFit;
    if s != [] {
      var last, names, shown := |s| - 1, base.Keys, AppDisplays(base);
      AppCreatedIff(base, s[..last]);
      forall i | 0 <= i < last
        ensures AppCanFollow(names, shown, s[..last], i) <==> AppCanFollow(names, shown, s, i)
      {
        AppCanFollowPrefix(names, shown, s, last, i);
      }
      if AppCanBeCreated(names, shown, s) {
        forall i | 0 <= i < last
          ensures AppCanFollow(names, shown, s[..last], i)
        {
          assert AppCanFollow(names, shown, s, i);
        }
      }
      if A.InjectProfiles(base, s[..last]).Ok? {
        AppLastCreatedIff(base, s, A.InjectProfiles(base, s[..last]).value);
      }
    }
  }

  lemma AppLastCreatedIff(base: A.Profiles, s: seq<ProfileRequest>, t: A.Profiles)
    requires s != [] && A.InjectProfiles(base, s[..|s| - 1]) == Ok(t)
    ensures A.InjectProfile(t, s[|s| - 1]).Ok? <==> AppCanFollow(base.Keys, AppDisplays(base), s, |s| - 1)
  {
    hide A.InjectProfiles, A.TemplatesFit, TemplatesUsable, A.ProfileDisplayTaken, NotShown, A.MakeProfile;
    hide AppDisplays, AppShownBefore;
    var last := |s| - 1;
    TemplatesUsableIff(s[last].templates);
    AI.InjectedNames(base, s[..last], t);
    assert s[last].name in t <==> s[last].name in base || exists j :: 0 <= j < last && s[j].name == s[last].name by {
      forall j | 0 <= j < last
        ensures A.ProfileName(s[..last][j]) == s[j].name
      {
      }
    }
    if s[last].name !in t {
      AppTakenIff(base, s, t, last);
    }
  }

  // ---------- Why application profiles cannot be created ----------

  ghost predicate AppShownByAnother(base: A.Profiles, s: seq<ProfileRequest>, i: nat)
    requires i < |s|
  {
    s[i].displayName != "" &&
    ((exists n :: n in base && n != s[i].name && ToLower(base[n].displayName) == ToLower(s[i].displayName)) ||
     (exists j :: 0 <= j < i && s[j].name != s[i].name &&
                  ToLower(DisplayName(s[j].name, s[j].displayName)) == ToLower(s[i].displayName)))
  }

  ghost predicate AppNamed(base: A.Profiles, s: seq<ProfileRequest>, i: nat)
    requires i < |s|
  {
    s[i].name in base || exists j :: 0 <= j < i && s[j].name == s[i].name
  }

  /** The first profile that cannot follow has a trimmed display name, and its display or its name is taken. */
  ghost predicate AppFirstIsTaken(base: A.Profiles, s: seq<ProfileRequest>) {
    exists i :: 0 <= i < |s| && IsTrimmed(s[i].displayName) &&
                (AppShownByAnother(base, s, i) || AppNamed(base, s, i)) &&
                forall j :: 0 <= j < i ==> AppCanFollow(base.Keys, AppDisplays(base), s, j)
  }

  lemma AppTakenByAnother(base: A.Profiles, s: seq<ProfileRequest>, t: A.Profiles, i: nat)
    requires i < |s| && A.InjectProfiles(base, s[..i]) == Ok(t)
    ensures A.ProfileDisplayTaken(t, s[i]) <==> AppShownByAnother(base, s, i)
    ensures s[i].name in t <==> AppNamed(base, s, i)
  {
    hide A.InjectProfiles;
    var p, before := s[i], s[..i];
    AI.InjectedNames(base, before, t);
    forall j | 0 <= j < i
      ensures s[j].name in t && t[s[j].name].displayName == DisplayName(s[j].name, s[j].displayName)
    {
      AI.InjectedRow(base, before, t, j);
      assert before[j] == s[j];
    }
    forall n | n in t && n !in base
      ensures exists j :: 0 <= j < i && s[j].name == n
    {
      var j :| 0 <= j < |before| && A.ProfileName(before[j]) == n;
      assert before[j] == s[j];
    }
    if n :| n in base && n != p.name && ToLower(base[n].displayName) == ToLower(p.displayName) {
      assert n in t && t[n] == base[n];
    }
  }

  lemma AppTakenPrefix(base: A.Profiles, s: seq<ProfileRequest>, n: nat, i: nat)
    requires i < n <= |s|
    ensures AppShownByAnother(base, s[..n], i) <==> AppShownByAnother(base, s, i)
    ensures AppNamed(base, s[..n], i) <==> AppNamed(base, s, i)
  {
    assert forall j :: 0 <= j <= i ==> s[..n][j] == s[j];
  }

  lemma AppNoneIsTaken(base: A.Profiles, s: seq<ProfileRequest>, i: nat)
    requires i < |s| && AppCanFollow(base.Keys, AppDisplays(base), s, i)
    ensures !AppShownByAnother(base, s, i) && !AppNamed(base, s, i)
  {
    var shown := AppShownBefore(AppDisplays(base), s, i);
    assert forall n :: n in base ==> base[n].displayName in shown;
    assert forall j :: 0 <= j < i ==> DisplayName(s[j].name, s[j].displayName) in shown;
  }

  /** One more profile: the first one that cannot follow is an earlier one, or this one. */
  lemma AppFirstStep(base: A.Profiles, s: seq<ProfileRequest>)
    requires s != []
    ensures var last, names, shown := |s| - 1, base.Keys, AppDisplays(base);
            && (AppFirstIsTaken(base, s) <==>
                || AppFirstIsTaken(base, s[..last])
                || (AppCanBeCreated(names, shown, s[..last]) && IsTrimmed(s[last].displayName) &&
                    (AppShownByAnother(base, s, last) || AppNamed(base, s, last))))
            && (AppCanBeCreated(names, shown, s[..last]) ==> !AppFirstIsTaken(base, s[..last]))
  {
    hide AppCanFollow, AppShownByAnother, AppNamed, AppDisplays;
    var last, names, shown := |s| - 1, base.Keys, AppDisplays(base);
    var before := s[..last];
    forall i | 0 <= i < last
      ensures s[i] == before[i]
      ensures AppCanFollow(names, shown, before, i) <==> AppCanFollow(names, shown, s, i)
      ensures AppShownByAnother(base, before, i) || AppNamed(base, before, i) <==>
              AppShownByAnother(base, s, i) || AppNamed(base, s, i)
      ensures AppCanFollow(names, shown, before, i) ==>
                !(AppShownByAnother(base, before, i) || AppNamed(base, before, i))
    {
      AppCanFollowPrefix(names, shown, s, last, i);
      AppTakenPrefix(base, s, last, i);
      if AppCanFollow(names, shown, before, i) {
        AppNoneIsTaken(base, before, i);
      }
    }
    if AppFirstIsTaken(base, before) {
      var i :| 0 <= i < |before| && IsTrimmed(before[i].displayName) &&
          (AppShownByAnother(base, before, i) || AppNamed(base, before, i)) &&
          forall j :: 0 <= j < i ==> AppCanFollow(names, shown, before, j);
      assert forall j :: 0 <= j < i ==> AppCanFollow(names, shown, s, j);
    }
    if AppFirstIsTaken(base, s) && !AppFirstIsTaken(base, before) {
      var i :| 0 <= i < |s| && IsTrimmed(s[i].displayName) &&
          (AppShownByAnother(base, s, i) || AppNamed(base, s, i)) &&
          forall j :: 0 <= j < i ==> AppCanFollow(names, shown, s, j);
      assert forall j :: 0 <= j < i && j < last ==> AppCanFollow(names, shown, before, j);
      assert i == last;
    }
  }

  /** Creating application profiles fails for a display name or a name that is taken, or for an invalid argument. */
  lemma {:induction false} AppCreationErrors(base: A.Profiles, s: seq<ProfileRequest>)
    ensures var r := A.InjectProfiles(base, s);
            && (r == Err(AlreadyExists) <==> AppFirstIsTaken(base, s))
            && (r.Err? ==> r.error == AlreadyExists || r.error == InvalidArgument)
  {
    hide AppCanBeCreated, AppFirstIsTaken, A.MakeProfile, A.ProfileDisplayTaken, AppShownByAnother, AppNamed;
    hide A.TemplatesFit;
    if s != [] {
      var last := |s| - 1;
      AppCreationErrors(base, s[..last]);
      AppCreatedIff(base, s[..last]);
      AppFirstStep(base, s);
      if A.InjectProfiles(base, s[..last]).Ok? {
        AppTakenByAnother(base, s, A.InjectProfiles(base, s[..last]).value, last);
      }
    } else {
      assert !AppFirstIsTaken(base, s) by { NothingIsTaken(base); }
    }
  }

  lemma NothingIsTaken(base: A.Profiles)
    ensures !AppFirstIsTaken(base, [])
  {
  }
}
