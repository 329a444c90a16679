/** What an accepted package update leaves stored of its deployment profiles, compared with the request. */
module ProfileLinks {
  import opened Prelude
  import opened Tables
  import opened Diff
  import opened References
  import P = Packages
  import I = Invariants
  import O = Overwrite

  /** The links that the entries of a requested profile stand for. */
  function WantedLinks(db: Db, apps: seq<VersionedKey>, p: DeploymentProfileRequest): set<ProfileLink>
    requires P.Resolves(db, apps, p)
  {
    Elements(ResolvedLinks(db.applications, apps, P.EntriesOf(p)))
  }

  function StoredLinks(profiles: P.ProfileTable, n: string): set<ProfileLink> {
    if n in profiles then Elements(profiles[n].links) else {}
  }

  /** The texts of the request are stored, and its links are joined with the earlier ones. */
  ghost predicate Merged(
    db: Db, apps: seq<VersionedKey>, profiles: P.ProfileTable, p: DeploymentProfileRequest, t: P.ProfileTable)
  {
    && p.name in t && P.Resolves(db, apps, p)
    && t[p.name].displayName == DisplayName(p.name, p.displayName) && t[p.name].description == p.description
    && Elements(t[p.name].links) == StoredLinks(profiles, p.name) + WantedLinks(db, apps, p)
  }

  lemma MadeProfileMerges(
    db: Db, apps: seq<VersionedKey>, profiles: P.ProfileTable, p: DeploymentProfileRequest, t: P.ProfileTable)
    requires p.name !in profiles && p.name in t && P.Resolves(db, apps, p) && t[p.name] == P.MakeProfile(db, apps, p)
    ensures Merged(db, apps, profiles, p, t)
  {
    assert Elements(t[p.name].links) == {} + WantedLinks(db, apps, p);
  }

  lemma KeptProfileMerges(
    db: Db, apps: seq<VersionedKey>, profiles: P.ProfileTable, p: DeploymentProfileRequest, t: P.ProfileTable)
    requires p.name in profiles && p.name in t && P.Resolves(db, apps, p)
    requires t[p.name] == P.MergeProfile(db, apps, profiles[p.name], p)
    ensures Merged(db, apps, profiles, p, t)
  {
    assert Elements(t[p.name].links) == Elements(profiles[p.name].links) + WantedLinks(db, apps, p);
  }

  lemma RequestedIsTheOne(ps: seq<DeploymentProfileRequest>, i: nat)
    requires DistinctNames(ps, P.ProfileName) && i < |ps|
    ensures P.Requested(ps, ps[i].name) == Some(ps[i])
  {
    var r := P.Requested(ps, ps[i].name);
    assert P.ProfileName(ps[i]) == ps[i].name;
    var j :| 0 <= j < |ps| && ps[j] == r.value;
    assert i == j;
  }

  lemma UpdateParts(
    db: Db, apps: seq<VersionedKey>, profiles: P.ProfileTable, ps: seq<DeploymentProfileRequest>,
    mapOrder: seq<DeploymentProfileRequest>, t: P.ProfileTable)
    requires P.UpdateProfiles(db, apps, profiles, ps, mapOrder) == Ok(t)
    ensures DistinctNames(ps, P.ProfileName)
    ensures forall n :: n in profiles ==> P.KeptFits(db, apps, ps, n)
    ensures P.InjectProfiles(db, apps, P.KeptProfiles(db, apps, profiles, ps),
            P.ProfilesToCreate(profiles, ps, mapOrder)) == Ok(t)
  {
  }

  /** Updating the deployment profiles one by one: every requested one is merged with what was stored. */
  lemma UpdatedProfilesAreMerged(
    db: Db, apps: seq<VersionedKey>, profiles: P.ProfileTable, ps: seq<DeploymentProfileRequest>,
    mapOrder: seq<DeploymentProfileRequest>, t: P.ProfileTable, i: nat)
    requires P.UpdateProfiles(db, apps, profiles, ps, mapOrder) == Ok(t) && i < |ps|
    ensures Merged(db, apps, profiles, ps[i], t)
  {
    hide P.UpdateProfiles, P.InjectProfiles, Merged, P.MergeProfile, P.MakeProfile;
    UpdateParts(db, apps, profiles, ps, mapOrder, t);
    var kept, added, p := P.KeptProfiles(db, apps, profiles, ps), P.ProfilesToCreate(profiles, ps, mapOrder), ps[i];
    RequestedIsTheOne(ps, i);
    O.InjectedNames(db, apps, kept, added, t);
    if p.name in profiles {
      assert P.KeptFits(db, apps, ps, p.name);
      KeptProfileMerges(db, apps, profiles, p, t);
    } else {
      NewItemsMembers(profiles, ps, P.ProfileName);
      ArrangeKeeps(NewItems(profiles, ps, P.ProfileName), mapOrder, P.ProfileName);
      assert p in added;
      var j :| 0 <= j < |added| && added[j] == p;
      I.InjectedRow(db, apps, kept, added, t, j);
      MadeProfileMerges(db, apps, profiles, p, t);
    }
  }

  /** What is stored under one name does not depend on the order of creation. */
  lemma SameUnderAnyOrder(
    db: Db, apps: seq<VersionedKey>, base: P.ProfileTable, added: seq<DeploymentProfileRequest>,
    added': seq<DeploymentProfileRequest>, t: P.ProfileTable, t': P.ProfileTable, n: string)
    requires multiset(added) == multiset(added') && n in t
    requires P.InjectProfiles(db, apps, base, added) == Ok(t) && P.InjectProfiles(db, apps, base, added') == Ok(t')
    ensures n in t' && t[n] == t'[n]
  {
    hide P.InjectProfiles, P.MakeProfile;
    O.InjectedNames(db, apps, base, added, t);
    O.InjectedNames(db, apps, base, added', t');
    MultisetMembers(added, added');
    if n !in base {
      var i :| 0 <= i < |added| && P.ProfileName(added[i]) == n;
      assert added[i] in added';
      var j :| 0 <= j < |added'| && added'[j] == added[i];
      I.InjectedRow(db, apps, base, added, t, i);
      I.InjectedRow(db, apps, base, added', t', j);
    }
  }

  /** Whichever order the map of new profiles is ranged over, two accepted updates store the same table. */
  lemma AcceptedOrdersAgree(
    db: Db, apps: seq<VersionedKey>, profiles: P.ProfileTable, ps: seq<DeploymentProfileRequest>,
    mapOrder: seq<DeploymentProfileRequest>, mapOrder': seq<DeploymentProfileRequest>, t: P.ProfileTable,
    t': P.ProfileTable)
    requires P.UpdateProfiles(db, apps, profiles, ps, mapOrder) == Ok(t)
    requires P.UpdateProfiles(db, apps, profiles, ps, mapOrder') == Ok(t')
    ensures t == t'
  {
    hide P.UpdateProfiles, P.InjectProfiles, P.MergeProfile, P.MakeProfile, NewItems;
    UpdateParts(db, apps, profiles, ps, mapOrder, t);
    UpdateParts(db, apps, profiles, ps, mapOrder', t');
    var kept := P.KeptProfiles(db, apps, profiles, ps);
    var added, added' := P.ProfilesToCreate(profiles, ps, mapOrder), P.ProfilesToCreate(profiles, ps, mapOrder');
    forall n | n in t
      ensures n in t' && t[n] == t'[n]
    {
      SameUnderAnyOrder(db, apps, kept, added, added', t, t', n);
    }
    forall n | n in t'
      ensures n in t
    {
      SameUnderAnyOrder(db, apps, kept, added', added, t', t, n);
    }
    assert t.Keys == t'.Keys;
  }

  /**
   * Links are only ever added: the stored links of an updated profile are the requested ones if and
   * only if no link was stored before that the request does not ask for.
   */
  lemma LinksAreReplacedIff(
    db: Db, apps: seq<VersionedKey>, profiles: P.ProfileTable, p: DeploymentProfileRequest, t: P.ProfileTable)
    requires Merged(db, apps, profiles, p, t)
    ensures Elements(t[p.name].links) == WantedLinks(db, apps, p) <==>
            StoredLinks(profiles, p.name) <= WantedLinks(db, apps, p)
  {
    var stored, wanted := StoredLinks(profiles, p.name), WantedLinks(db, apps, p);
    if stored <= wanted {
      assert stored + wanted == wanted;
    }
  }

  /** What the package holds of a requested profile: merged, or stored before and read back alike. */
  ghost predicate Kept(profiles: P.ProfileTable, p: DeploymentProfileRequest, t: P.ProfileTable) {
    && p.name in profiles && p.name in t && t[p.name] == profiles[p.name]
    && p.displayName == t[p.name].displayName && p.description == t[p.name].description
    && p.appProfiles.Some? && EntryMap(p.appProfiles.value) == Compose(t[p.name].links, false)
  }

  predicate TakesShortcut(row: PackageRow, req: PackageRequest)
    requires P.PackageChanges(row, req).Ok?
  {
    var ch := P.PackageChanges(row, req).value;
    ch.kindOrState && !ch.Changed()
  }

  lemma UnalteredIsKept(row: PackageRow, req: PackageRequest, t: P.ProfileTable, i: nat)
    requires !P.ProfilesChanged(row, req) && DistinctNames(req.profiles, P.ProfileName)
    requires i < |req.profiles| && req.profiles[i].name in row.profiles && req.profiles[i].name in t
    requires t[req.profiles[i].name] == row.profiles[req.profiles[i].name]
    ensures Kept(row.profiles, req.profiles[i], t)
  {
    assert P.ProfileName(req.profiles[i]) == req.profiles[i].name;
    assert !IsNew(row.profiles, req.profiles, P.ProfileName, i);
  }

  /** The flags of a comparison that concern the profiles. */
  lemma ProfileFlags(row: PackageRow, req: PackageRequest, ch: P.Changes)
    requires P.PackageChanges(row, req) == Ok(ch)
    ensures ch.profiles <==> P.ProfilesChanged(row, req)
    ensures !ch.profiles ==> ch.newProfiles == NewItems(row.profiles, req.profiles, P.ProfileName)
  {
  }

  lemma ApplyProfilesParts(
    db: Db, apps: seq<VersionedKey>, row: PackageRow, req: PackageRequest, ch: P.Changes,
    r: (P.ProfileTable, Option<string>))
    requires P.ApplyProfiles(db, apps, row, req, ch) == Ok(r)
    ensures if ch.profiles || ch.applications
            then P.UpdateProfiles(db, apps, row.profiles, req.profiles, req.mapOrder) == Ok(r.0)
            else P.InjectProfiles(db, apps, row.profiles, ch.newProfiles) == Ok(r.0)
  {
  }

  lemma InjectedProfileShows(
    db: Db, apps: seq<VersionedKey>, row: PackageRow, req: PackageRequest, t: P.ProfileTable, i: nat)
    requires DistinctNames(req.profiles, P.ProfileName) && i < |req.profiles| && !P.ProfilesChanged(row, req)
    requires P.InjectProfiles(db, apps, row.profiles, NewItems(row.profiles, req.profiles, P.ProfileName)) == Ok(t)
    ensures if req.profiles[i].name in row.profiles then Kept(row.profiles, req.profiles[i], t)
            else Merged(db, apps, row.profiles, req.profiles[i], t)
  {
    hide P.InjectProfiles, P.ProfilesChanged, Merged, Kept, P.MakeProfile;
    var added, p := NewItems(row.profiles, req.profiles, P.ProfileName), req.profiles[i];
    O.InjectedNames(db, apps, row.profiles, added, t);
    if p.name in row.profiles {
      UnalteredIsKept(row, req, t, i);
    } else {
      NewItemsMembers(row.profiles, req.profiles, P.ProfileName);
      assert p in added;
      var j :| 0 <= j < |added| && added[j] == p;
      I.InjectedRow(db, apps, row.profiles, added, t, j);
      MadeProfileMerges(db, apps, row.profiles, p, t);
    }
  }

  /** The update writes the profile: all of them, or this one because it is new. */
  predicate Rewrites(row: PackageRow, req: PackageRequest, p: DeploymentProfileRequest)
    requires P.PackageChanges(row, req).Ok?
  {
    var ch := P.PackageChanges(row, req).value;
    ch.profiles || ch.applications || p.name !in row.profiles
  }

  /** Outside the shortcut, every requested deployment profile is stored: merged if written, unaltered if not. */
  lemma ProfilesShowRequest(db: Db, project: string, row: PackageRow, req: PackageRequest, row': PackageRow, i: nat)
    requires P.UpdateRow(db, project, row, req) == Ok(row') && !TakesShortcut(row, req)
    requires DistinctNames(req.profiles, P.ProfileName) && i < |req.profiles|
    ensures if Rewrites(row, req, req.profiles[i])
            then Merged(db, row'.applications, row.profiles, req.profiles[i], row'.profiles)
            else Kept(row.profiles, req.profiles[i], row'.profiles)
    ensures req.profiles[i].name in row'.profiles
  {
    hide P.PackageChanges, P.ApplyChanges, P.ApplyProfiles, P.ApplyMembers, P.UpdateProfiles, P.InjectProfiles;
    var ch := P.PackageChanges(row, req).value;
    ProfileFlags(row, req, ch);
    O.AppliedParts(db, project, row, req, ch, row');
    ApplyProfilesParts(db, row'.applications, row, req, ch, (row'.profiles, row'.defaultProfile));
    if ch.profiles || ch.applications {
      UpdatedProfilesAreMerged(db, row'.applications, row.profiles, req.profiles, req.mapOrder, row'.profiles, i);
    } else {
      InjectedProfileShows(db, row'.applications, row, req, row'.profiles, i);
    }
  }

  /** The same for every accepted update, about the requested profiles that are stored afterwards. */
  lemma StoredProfileIs(db: Db, project: string, row: PackageRow, req: PackageRequest, row': PackageRow, i: nat)
    requires P.UpdateRow(db, project, row, req) == Ok(row') && DistinctNames(req.profiles, P.ProfileName)
    requires i < |req.profiles| && req.profiles[i].name in row'.profiles
    ensures P.PackageChanges(row, req).Ok?
    ensures if Rewrites(row, req, req.profiles[i])
            then Merged(db, row'.applications, row.profiles, req.profiles[i], row'.profiles)
            else Kept(row.profiles, req.profiles[i], row'.profiles)
    ensures !Rewrites(row, req, req.profiles[i]) ==> row'.applications == row.applications
  {
    hide P.PackageChanges, P.ApplyChanges, P.ApplyMembers, Merged, Kept;
    var ch := P.PackageChanges(row, req).value;
    ProfileFlags(row, req, ch);
    if TakesShortcut(row, req) {
      UnalteredIsKept(row, req, row'.profiles, i);
    } else {
      ProfilesShowRequest(db, project, row, req, row', i);
      O.AppliedParts(db, project, row, req, ch, row');
      O.AppliedMembers(db, project, row, req, ch, P.Members(row'.applications, row'.dependencies, row'.appNamespaces));
    }
  }

  /** The entries of the request resolve, to exactly the links of the stored profile. */
  ghost predicate LinksReflect(
    db: Db, apps: seq<VersionedKey>, p: DeploymentProfileRequest, row: DeploymentProfileRow)
  {
    P.Resolves(db, apps, p) && Elements(row.links) == WantedLinks(db, apps, p)
  }

  /**
   * Exactly when the links of a requested profile are the requested ones after an accepted update:
   * for a profile that is written, if no other link was stored before; for one that compares as
   * unaltered, if its entries resolve to exactly the links that were stored before.
   */
  lemma LinksReflectIff(db: Db, project: string, row: PackageRow, req: PackageRequest, row': PackageRow, i: nat)
    requires P.UpdateRow(db, project, row, req) == Ok(row') && DistinctNames(req.profiles, P.ProfileName)
    requires i < |req.profiles| && req.profiles[i].name in row'.profiles
    ensures P.PackageChanges(row, req).Ok?
    ensures var p := req.profiles[i];
            LinksReflect(db, row'.applications, p, row'.profiles[p.name]) <==>
            if Rewrites(row, req, p)
            then P.Resolves(db, row'.applications, p) &&
                 StoredLinks(row.profiles, p.name) <= WantedLinks(db, row'.applications, p)
            else p.name in row.profiles && LinksReflect(db, row.applications, p, row.profiles[p.name])
  {
    hide P.PackageChanges, P.UpdateRow, P.Resolves, WantedLinks, StoredLinks;
    var p := req.profiles[i];
    StoredProfileIs(db, project, row, req, row', i);
    if Rewrites(row, req, p) {
      LinksAreReplacedIff(db, row'.applications, row.profiles, p, row'.profiles);
    }
  }

  /**
   * All requested deployment profiles are stored after an accepted update, unless it takes the
   * shortcut for a change of kind or state and the request brings new profiles: those are lost.
   */
  lemma ProfilesAreStoredIff(db: Db, project: string, row: PackageRow, req: PackageRequest, row': PackageRow)
    requires P.UpdateRow(db, project, row, req) == Ok(row') && DistinctNames(req.profiles, P.ProfileName)
    ensures (forall i :: 0 <= i < |req.profiles| ==> req.profiles[i].name in row'.profiles) <==>
            !(TakesShortcut(row, req) && P.PackageChanges(row, req).value.newProfiles != [])
  {
    hide P.PackageChanges, P.ApplyChanges;
    if TakesShortcut(row, req) {
      ProfileFlags(row, req, P.PackageChanges(row, req).value);
      NewProfilesAreTheMissing(row, req);
    } else {
      forall i | 0 <= i < |req.profiles|
        ensures req.profiles[i].name in row'.profiles
      {
        ProfilesShowRequest(db, project, row, req, row', i);
      }
    }
  }

  lemma NewProfilesAreTheMissing(row: PackageRow, req: PackageRequest)
    requires DistinctNames(req.profiles, P.ProfileName)
    ensures NewItems(row.profiles, req.profiles, P.ProfileName) == [] <==>
            forall i :: 0 <= i < |req.profiles| ==> req.profiles[i].name in row.profiles
  {
    var added := NewItems(row.profiles, req.profiles, P.ProfileName);
    NewItemsMembers(row.profiles, req.profiles, P.ProfileName);
    if added != [] {
      assert added[0] in added;
    }
  }
}
