/** When the acceptance of new profiles does not depend on the order in which a map is ranged over. */
module MapOrders {
  import opened Prelude
  import opened Text
  import opened Tables
  import opened Diff
  import AI = AppInvariants
  import I = Invariants
  import O = Overwrite
  import P = Packages
  import A = Applications

  // ---------- Orders without clashes ----------

  predicate IsOrder<T(==)>(order: seq<T>, items: seq<T>) { multiset(order) == multiset(items) }

  /** No item clashes with an earlier one. */
  predicate NoClashIn<T>(s: seq<T>, clash: (T, T) -> bool) {
    forall i, j :: 0 <= j < i < |s| ==> !clash(s[i], s[j])
  }

  ghost predicate NoClash<T(!new)>(items: seq<T>, clash: (T, T) -> bool) {
    forall p, q :: p in items && q in items && p != q ==> !clash(p, q)
  }

  ghost predicate NoOrderClashes<T(!new)>(items: seq<T>, clash: (T, T) -> bool) {
    forall order :: IsOrder(order, items) ==> NoClashIn(order, clash)
  }

  /** An order that puts an item first. */
  lemma FirstInOrder<T(!new)>(items: seq<T>, q: T) returns (order: seq<T>)
    requires q in items
    ensures IsOrder(order, items) && order != [] && order[0] == q
  {
    var i :| 0 <= i < |items| && items[i] == q;
    order := [q] + RemoveAt(items, i);
    RemoveAtMultiset(items, i);
    assert multiset(order) == multiset{q} + multiset(RemoveAt(items, i));
  }

  /** No order has a clash if and only if no two items clash. */
  lemma NoOrderClashesIff<T(!new)>(items: seq<T>, clash: (T, T) -> bool)
    requires NoDup(items)
    ensures NoOrderClashes(items, clash) <==> NoClash(items, clash)
  {
    if NoClash(items, clash) {
      forall order | IsOrder(order, items)
        ensures NoClashIn(order, clash)
      {
        MultisetKeepsDistinct(items, order);
        MultisetMembers(order, items);
      }
    }
    if NoOrderClashes(items, clash) {
      forall p, q | p in items && q in items && p != q
        ensures !clash(p, q)
      {
        var order := FirstInOrder(items, q);
        MultisetMembers(order, items);
        assert p in order;
        var i :| 0 <= i < |order| && order[i] == p;
        assert NoClashIn(order, clash);
      }
    }
  }

  // ---------- Deployment profiles ----------

  /** The profile is in nobody's way, as far as the stored ones go. */
  predicate ProfileFits(db: Db, apps: seq<VersionedKey>, base: P.ProfileTable, p: DeploymentProfileRequest) {
    IsTrimmed(p.displayName) && !P.ProfileDisplayTaken(base, p) && P.Resolves(db, apps, p)
  }

  /** The display name of `p` is what `q` shows. */
  predicate Clash(p: DeploymentProfileRequest, q: DeploymentProfileRequest) {
    p.displayName != "" && ToLower(p.displayName) == ToLower(DisplayName(q.name, q.displayName))
  }

  /** The name of `q` stands in for its display name, and `p` has it for a display name. */
  predicate StandsIn(p: DeploymentProfileRequest, q: DeploymentProfileRequest) {
    q.displayName == "" && p.displayName != "" && ToLower(p.displayName) == ToLower(q.name)
  }

  /** No new profile has the name of another one for a display name while that one has none. */
  ghost predicate NoStandIn(items: seq<DeploymentProfileRequest>) {
    forall p, q :: p in items && q in items && p.name != q.name ==> !StandsIn(p, q)
  }

  /** What is taken after some profiles were created. */
  lemma TakenAfter(
    db: Db, apps: seq<VersionedKey>, base: P.ProfileTable, s: seq<DeploymentProfileRequest>, t: P.ProfileTable,
    p: DeploymentProfileRequest)
    requires P.InjectProfiles(db, apps, base, s) == Ok(t) && forall i :: 0 <= i < |s| ==> s[i].name != p.name
    ensures P.ProfileDisplayTaken(t, p) <==>
            P.ProfileDisplayTaken(base, p) || exists i :: 0 <= i < |s| && Clash(p, s[i])
  {
    hide P.InjectProfiles;
    O.InjectedNames(db, apps, base, s, t);
    forall i | 0 <= i < |s|
      ensures s[i].name in t && t[s[i].name].displayName == DisplayName(s[i].name, s[i].displayName)
    {
      I.InjectedRow(db, apps, base, s, t, i);
    }
    if P.ProfileDisplayTaken(t, p) {
      var n :| n in t && n != p.name && ToLower(t[n].displayName) == ToLower(p.displayName);
      if n !in base {
        var i :| 0 <= i < |s| && P.ProfileName(s[i]) == n;
        assert Clash(p, s[i]);
      }
    }
    if P.ProfileDisplayTaken(base, p) {
      var n :| n in base && n != p.name && ToLower(base[n].displayName) == ToLower(p.displayName);
      assert n in t && t[n] == base[n];
    }
    if i :| 0 <= i < |s| && Clash(p, s[i]) {
      assert s[i].name in t && s[i].name != p.name;
    }
  }

  /** Creating profiles in an order succeeds exactly if each fits and none clashes with an earlier one. */
  lemma {:induction false} CreationSucceedsIff(
    db: Db, apps: seq<VersionedKey>, base: P.ProfileTable, s: seq<DeploymentProfileRequest>)
    requires DistinctNames(s, P.ProfileName) && forall i :: 0 <= i < |s| ==> s[i].name !in base
    ensures P.InjectProfiles(db, apps, base, s).Ok? <==>
            (forall i :: 0 <= i < |s| ==> ProfileFits(db, apps, base, s[i])) && NoClashIn(s, Clash)
  {
    hide P.Resolves, P.ProfileDisplayTaken, Clash, P.MakeProfile;
    if s != [] {
      var last := |s| - 1;
      var before, p := s[..last], s[last];
      forall i, j | 0 <= i < j < last
        ensures P.ProfileName(before[i]) != P.ProfileName(before[j])
      {
        assert P.ProfileName(s[i]) != P.ProfileName(s[j]);
      }
      CreationSucceedsIff(db, apps, base, before);
      forall i | 0 <= i < last
        ensures before[i].name != p.name
      {
        assert P.ProfileName(s[i]) != P.ProfileName(s[last]);
      }
      if P.InjectProfiles(db, apps, base, before).Ok? {
        var t := P.InjectProfiles(db, apps, base, before).value;
        TakenAfter(db, apps, base, before, t, p);
        NotYetCreated(db, apps, base, before, t, p.name);
      }
    }
  }

  lemma NotYetCreated(
    db: Db, apps: seq<VersionedKey>, base: P.ProfileTable, s: seq<DeploymentProfileRequest>, t: P.ProfileTable,
    n: string)
    requires P.InjectProfiles(db, apps, base, s) == Ok(t) && n !in base
    requires forall i :: 0 <= i < |s| ==> s[i].name != n
    ensures n !in t
  {
    hide P.InjectProfiles;
    O.InjectedNames(db, apps, base, s, t);
  }

  /** Among profiles whose display names differ, only a name that stands in can clash. */
  lemma ClashIsStandIn(ps: seq<DeploymentProfileRequest>, items: seq<DeploymentProfileRequest>)
    requires DistinctNames(ps, P.ProfileName) && DistinctNames(ps, P.LowerDisplay)
    requires forall p :: p in items ==> p in ps
    ensures NoClash(items, Clash) <==> NoStandIn(items)
  {
    forall p, q | p in items && q in items && p != q
      ensures Clash(p, q) <==> StandsIn(p, q)
      ensures p.name != q.name
    {
      assert p in ps && q in ps;
      var i :| 0 <= i < |ps| && ps[i] == p;
      var j :| 0 <= j < |ps| && ps[j] == q;
      var a, b := if i < j then i else j, if i < j then j else i;
      assert P.LowerDisplay(ps[a]) != P.LowerDisplay(ps[b]) && P.ProfileName(ps[a]) != P.ProfileName(ps[b]);
    }
  }

  /** The new items of a request with distinct names, in any order. */
  lemma OrderedItems(profiles: P.ProfileTable, ps: seq<DeploymentProfileRequest>, order: seq<DeploymentProfileRequest>)
    requires DistinctNames(ps, P.ProfileName) && IsOrder(order, NewItems(profiles, ps, P.ProfileName))
    ensures DistinctNames(order, P.ProfileName) && NoDup(NewItems(profiles, ps, P.ProfileName))
    ensures forall p :: p in order <==> p in ps && p.name !in profiles
  {
    var items := NewItems(profiles, ps, P.ProfileName);
    NewItemsMembers(profiles, ps, P.ProfileName);
    forall i, j | 0 <= i < j < |items|
      ensures items[i] != items[j]
    {
      assert P.ProfileName(items[i]) != P.ProfileName(items[j]);
    }
    MultisetMembers(order, items);
    MultisetKeepsDistinct(items, order);
    forall i, j | 0 <= i < j < |order|
      ensures P.ProfileName(order[i]) != P.ProfileName(order[j])
    {
      assert order[i] in items && order[j] in items && order[i] != order[j];
      var a :| 0 <= a < |items| && items[a] == order[i];
      var b :| 0 <= b < |items| && items[b] == order[j];
      assert P.ProfileName(items[if a < b then a else b]) != P.ProfileName(items[if a < b then b else a]);
    }
  }

  ghost predicate AcceptedIn(
    db: Db, apps: seq<VersionedKey>, profiles: P.ProfileTable, ps: seq<DeploymentProfileRequest>,
    order: seq<DeploymentProfileRequest>)
  {
    P.UpdateProfiles(db, apps, profiles, ps, order).Ok?
  }

  /** An update that is accepted in some order: in another order exactly if that has no clash. */
  lemma AcceptedInIff(
    db: Db, apps: seq<VersionedKey>, profiles: P.ProfileTable, ps: seq<DeploymentProfileRequest>,
    order: seq<DeploymentProfileRequest>, order': seq<DeploymentProfileRequest>)
    requires AcceptedIn(db, apps, profiles, ps, order)
    ensures AcceptedIn(db, apps, profiles, ps, order') <==>
            NoClashIn(P.ProfilesToCreate(profiles, ps, order'), Clash)
  {
    hide P.InjectProfiles, Clash, ProfileFits, NewItems;
    var kept := P.KeptProfiles(db, apps, profiles, ps);
    var s, s' := P.ProfilesToCreate(profiles, ps, order), P.ProfilesToCreate(profiles, ps, order');
    OrderedItems(profiles, ps, s);
    OrderedItems(profiles, ps, s');
    MultisetMembers(s, s');
    NotKept(s, profiles);
    NotKept(s', profiles);
    CreationSucceedsIff(db, apps, kept, s);
    CreationSucceedsIff(db, apps, kept, s');
    forall i | 0 <= i < |s'|
      ensures ProfileFits(db, apps, kept, s'[i])
    {
      assert s'[i] in s;
      var j :| 0 <= j < |s| && s[j] == s'[i];
    }
  }

  lemma NotKept(s: seq<DeploymentProfileRequest>, profiles: P.ProfileTable)
    requires forall p :: p in s ==> p.name !in profiles
    ensures forall i :: 0 <= i < |s| ==> s[i].name !in profiles
  {
    forall i | 0 <= i < |s|
      ensures s[i].name !in profiles
    {
      assert s[i] in s;
    }
  }

  /**
   * If some order of the new deployment profiles is accepted, then every order is, if and only if no
   * new profile has the name of another one for a display name while that one has none.
   */
  lemma AcceptanceIsOrderFreeIff(
    db: Db, apps: seq<VersionedKey>, profiles: P.ProfileTable, ps: seq<DeploymentProfileRequest>,
    order: seq<DeploymentProfileRequest>)
    requires AcceptedIn(db, apps, profiles, ps, order)
    ensures (forall order' :: AcceptedIn(db, apps, profiles, ps, order')) <==>
            NoStandIn(NewItems(profiles, ps, P.ProfileName))
  {
    var items := NewItems(profiles, ps, P.ProfileName);
    DistinctRequest(db, apps, profiles, ps, order);
    hide P.UpdateProfiles, NewItems, Clash, StandsIn, DistinctNames;
    OrderedItems(profiles, ps, items);
    NoOrderClashesIff(items, Clash);
    ClashIsStandIn(ps, items);
    if NoOrderClashes(items, Clash) {
      forall order'
        ensures AcceptedIn(db, apps, profiles, ps, order')
      {
        AcceptedInIff(db, apps, profiles, ps, order, order');
        assert IsOrder(P.ProfilesToCreate(profiles, ps, order'), items);
      }
    }
    if forall order' :: AcceptedIn(db, apps, profiles, ps, order') {
      forall order' | IsOrder(order', items)
        ensures NoClashIn(order', Clash)
      {
        AcceptedInIff(db, apps, profiles, ps, order, order');
        assert AcceptedIn(db, apps, profiles, ps, order');
        assert P.ProfilesToCreate(profiles, ps, order') == order';
      }
    }
  }

  lemma DistinctRequest(
    db: Db, apps: seq<VersionedKey>, profiles: P.ProfileTable, ps: seq<DeploymentProfileRequest>,
    order: seq<DeploymentProfileRequest>)
    requires AcceptedIn(db, apps, profiles, ps, order)
    ensures DistinctNames(ps, P.ProfileName) && DistinctNames(ps, P.LowerDisplay)
  {
  }

  // ---------- Application profiles ----------

  predicate AppProfileFits(base: A.Profiles, p: ProfileRequest) {
    IsTrimmed(p.displayName) && !A.ProfileDisplayTaken(base, p) && A.TemplatesFit(p.templates)
  }

  predicate AppClash(p: ProfileRequest, q: ProfileRequest) {
    p.displayName != "" && ToLower(p.displayName) == ToLower(DisplayName(q.name, q.displayName))
  }

  predicate AppStandsIn(p: ProfileRequest, q: ProfileRequest) {
    q.displayName == "" && p.displayName != "" && ToLower(p.displayName) == ToLower(q.name)
  }

  ghost predicate NoAppStandIn(items: seq<ProfileRequest>) {
    forall p, q :: p in items && q in items && p.name != q.name ==> !AppStandsIn(p, q)
  }

  lemma AppTakenAfter(base: A.Profiles, s: seq<ProfileRequest>, t: A.Profiles, p: ProfileRequest)
    requires A.InjectProfiles(base, s) == Ok(t) && forall i :: 0 <= i < |s| ==> s[i].name != p.name
    ensures A.ProfileDisplayTaken(t, p) <==>
            A.ProfileDisplayTaken(base, p) || exists i :: 0 <= i < |s| && AppClash(p, s[i])
    ensures p.name !in base ==> p.name !in t
  {
    hide A.InjectProfiles;
    AI.InjectedNames(base, s, t);
    forall i | 0 <= i < |s|
      ensures s[i].name in t && t[s[i].name].displayName == DisplayName(s[i].name, s[i].displayName)
    {
      AI.InjectedRow(base, s, t, i);
    }
    if A.ProfileDisplayTaken(t, p) {
      var n :| n in t && n != p.name && ToLower(t[n].displayName) == ToLower(p.displayName);
      if n !in base {
        var i :| 0 <= i < |s| && A.ProfileName(s[i]) == n;
        assert AppClash(p, s[i]);
      }
    }
    if A.ProfileDisplayTaken(base, p) {
      var n :| n in base && n != p.name && ToLower(base[n].displayName) == ToLower(p.displayName);
      assert n in t && t[n] == base[n];
    }
    if i :| 0 <= i < |s| && AppClash(p, s[i]) {
      assert s[i].name in t && s[i].name != p.name;
    }
  }

  lemma {:induction false} AppCreationSucceedsIff(base: A.Profiles, s: seq<ProfileRequest>)
    requires DistinctNames(s, A.ProfileName) && forall i :: 0 <= i < |s| ==> s[i].name !in base
    ensures A.InjectProfiles(base, s).Ok? <==>
            (forall i :: 0 <= i < |s| ==> AppProfileFits(base, s[i])) && NoClashIn(s, AppClash)
  {
    hide A.ProfileDisplayTaken, AppClash, A.MakeProfile, A.TemplatesFit;
    if s != [] {
      var last := |s| - 1;
      var before, p := s[..last], s[last];
      forall i, j | 0 <= i < j < last
        ensures A.ProfileName(before[i]) != A.ProfileName(before[j])
      {
        assert A.ProfileName(s[i]) != A.ProfileName(s[j]);
      }
      AppCreationSucceedsIff(base, before);
      forall i | 0 <= i < last
        ensures before[i].name != p.name
      {
        assert A.ProfileName(s[i]) != A.ProfileName(s[last]);
      }
      if A.InjectProfiles(base, before).Ok? {
        AppTakenAfter(base, before, A.InjectProfiles(base, before).value, p);
      }
    }
  }

  lemma AppClashIsStandIn(ps: seq<ProfileRequest>, items: seq<ProfileRequest>)
    requires DistinctNames(ps, A.ProfileName) && DistinctNames(ps, A.LowerDisplay)
    requires forall p :: p in items ==> p in ps
    ensures NoClash(items, AppClash) <==> NoAppStandIn(items)
  {
    forall p, q | p in items && q in items && p != q
      ensures AppClash(p, q) <==> AppStandsIn(p, q)
      ensures p.name != q.name
    {
      assert p in ps && q in ps;
      var i :| 0 <= i < |ps| && ps[i] == p;
      var j :| 0 <= j < |ps| && ps[j] == q;
      var a, b := if i < j then i else j, if i < j then j else i;
      assert A.LowerDisplay(ps[a]) != A.LowerDisplay(ps[b]) && A.ProfileName(ps[a]) != A.ProfileName(ps[b]);
    }
  }

  lemma AppOrderedItems(profiles: A.Profiles, ps: seq<ProfileRequest>, order: seq<ProfileRequest>)
    requires DistinctNames(ps, A.ProfileName) && IsOrder(order, NewItems(profiles, ps, A.ProfileName))
    ensures DistinctNames(order, A.ProfileName) && NoDup(NewItems(profiles, ps, A.ProfileName))
    ensures forall p :: p in order <==> p in ps && p.name !in profiles
    ensures forall i :: 0 <= i < |order| ==> order[i].name !in profiles
  {
    var items := NewItems(profiles, ps, A.ProfileName);
    NewItemsMembers(profiles, ps, A.ProfileName);
    forall i, j | 0 <= i < j < |items|
      ensures items[i] != items[j]
    {
      assert A.ProfileName(items[i]) != A.ProfileName(items[j]);
    }
    MultisetMembers(order, items);
    MultisetKeepsDistinct(items, order);
    forall i | 0 <= i < |order|
      ensures order[i].name !in profiles
    {
      assert order[i] in order;
    }
    forall i, j | 0 <= i < j < |order|
      ensures A.ProfileName(order[i]) != A.ProfileName(order[j])
    {
      assert order[i] in items && order[j] in items && order[i] != order[j];
      var a :| 0 <= a < |items| && items[a] == order[i];
      var b :| 0 <= b < |items| && items[b] == order[j];
      assert A.ProfileName(items[if a < b then a else b]) != A.ProfileName(items[if a < b then b else a]);
    }
  }

  ghost predicate AppAcceptedIn(
    db: Db, app: VersionedKey, profiles: A.Profiles, ps: seq<ProfileRequest>,
    mapOrder: seq<ProfileRequest>, rowOrder: seq<string>)
  {
    A.UpdateProfiles(db, app, profiles, ps, mapOrder, rowOrder).Ok?
  }

  lemma AppAcceptedInIff(
    db: Db, app: VersionedKey, profiles: A.Profiles, ps: seq<ProfileRequest>,
    mapOrder: seq<ProfileRequest>, rowOrder: seq<string>, mapOrder': seq<ProfileRequest>, rowOrder': seq<string>)
    requires AppAcceptedIn(db, app, profiles, ps, mapOrder, rowOrder)
    ensures AppAcceptedIn(db, app, profiles, ps, mapOrder', rowOrder') <==>
            NoClashIn(A.ProfilesToCreate(profiles, ps, mapOrder'), AppClash)
  {
    hide A.InjectProfiles, AppClash, AppProfileFits, NewItems, A.Obstacle, A.ProfileObstacle;
    A.NoObstacle(db, app, profiles, ps, rowOrder);
    A.NoObstacle(db, app, profiles, ps, rowOrder');
    var kept := A.KeptProfiles(profiles, ps);
    var s, s' := A.ProfilesToCreate(profiles, ps, mapOrder), A.ProfilesToCreate(profiles, ps, mapOrder');
    AppOrderedItems(profiles, ps, s);
    AppOrderedItems(profiles, ps, s');
    MultisetMembers(s, s');
    AppCreationSucceedsIff(kept, s);
    AppCreationSucceedsIff(kept, s');
    forall i | 0 <= i < |s'|
      ensures AppProfileFits(kept, s'[i])
    {
      assert s'[i] in s;
      var j :| 0 <= j < |s| && s[j] == s'[i];
    }
  }

  /** The same for the profiles of applications, whatever the order of the stored rows. */
  lemma AppAcceptanceIsOrderFreeIff(
    db: Db, app: VersionedKey, profiles: A.Profiles, ps: seq<ProfileRequest>,
    mapOrder: seq<ProfileRequest>, rowOrder: seq<string>)
    requires AppAcceptedIn(db, app, profiles, ps, mapOrder, rowOrder)
    ensures (forall m, r :: AppAcceptedIn(db, app, profiles, ps, m, r)) <==>
            NoAppStandIn(NewItems(profiles, ps, A.ProfileName))
  {
    hide NewItems, AppClash, AppStandsIn, A.InjectProfiles, A.Obstacle, DistinctNames;
    var items := NewItems(profiles, ps, A.ProfileName);
    AppOrderedItems(profiles, ps, items);
    NoOrderClashesIff(items, AppClash);
    AppClashIsStandIn(ps, items);
    if NoOrderClashes(items, AppClash) {
      forall m, r
        ensures AppAcceptedIn(db, app, profiles, ps, m, r)
      {
        AppAcceptedInIff(db, app, profiles, ps, mapOrder, rowOrder, m, r);
        assert IsOrder(A.ProfilesToCreate(profiles, ps, m), items);
      }
    }
    if forall m, r :: AppAcceptedIn(db, app, profiles, ps, m, r) {
      forall m | IsOrder(m, items)
        ensures NoClashIn(m, AppClash)
      {
        AppAcceptedInIff(db, app, profiles, ps, mapOrder, rowOrder, m, rowOrder);
        assert AppAcceptedIn(db, app, profiles, ps, m, rowOrder);
        assert A.ProfilesToCreate(profiles, ps, m) == m;
      }
    }
  }
}
