/**
 * References from deployment profiles to applications of their package: `name` or `name:version`
 * keys in requests, links between rows in the store, and the map composed when reading back.
 */
module References {
  import opened Prelude
  import opened Text
  import opened Tables
  import opened Diff

  // ---------- Resolving ----------

  predicate Matches(app: VersionedKey, name: string, version: string) {
    app.name == name && (version == "" || app.version == version)
  }

  /** The first application that matches; an empty version matches any. */
  function FirstMatching(apps: seq<VersionedKey>, name: string, version: string): (r: Option<VersionedKey>)
    ensures r.Some? ==> r.value in apps && Matches(r.value, name, version)
    ensures r.None? ==> forall i :: 0 <= i < |apps| ==> !Matches(apps[i], name, version)
  {
    if apps == [] then None
    else if Matches(apps[0], name, version) then Some(apps[0])
    else FirstMatching(apps[1..], name, version)
  }

  function FindApplication(apps: seq<VersionedKey>, reference: string): (r: Option<VersionedKey>)
    ensures r.Some? ==> r.value in apps
  {
    var fields := Split(reference, ':');
    FirstMatching(apps, fields[0], if |fields| > 1 then fields[1] else "")
  }

  method FindApplicationInPackage(apps: seq<VersionedKey>, reference: string) returns (r: Option<VersionedKey>)
    ensures r == FindApplication(apps, reference)
  {
    var fields := Split(reference, ':');
    var version := if |fields| > 1 then fields[1] else "";
    for i := 0 to |apps|
      invariant FirstMatching(apps, fields[0], version) == FirstMatching(apps[i..], fields[0], version)
    {
      if apps[i].name == fields[0] && (version == "" || apps[i].version == version) {
        return Some(apps[i]);
      }
      assert apps[i..][1..] == apps[i + 1..];
    }
    return None;
  }

  /** The link that one entry of a deployment profile stands for, if its application and profile exist. */
  function ResolveEntry(
    applications: map<VersionedKey, ApplicationRow>, apps: seq<VersionedKey>, e: (string, string)): Option<ProfileLink>
  {
    match FindApplication(apps, e.0)
    case None => None
    case Some(app) =>
      if app in applications && e.1 in applications[app].profiles then Some(ProfileLink(app, e.1)) else None
  }

  predicate AllResolve(
    applications: map<VersionedKey, ApplicationRow>, apps: seq<VersionedKey>, e: Entries)
  {
    forall i :: 0 <= i < |e| ==> ResolveEntry(applications, apps, e[i]).Some?
  }

  function ResolvedLinks(
    applications: map<VersionedKey, ApplicationRow>, apps: seq<VersionedKey>, e: Entries): (links: seq<ProfileLink>)
    requires AllResolve(applications, apps, e)
    ensures |links| == |e|
    ensures forall i :: 0 <= i < |e| ==> Some(links[i]) == ResolveEntry(applications, apps, e[i])
  {
    seq(|e|, i requires 0 <= i < |e| => ResolveEntry(applications, apps, e[i]).value)
  }

  method ValidateAllProfiles(
    applications: map<VersionedKey, ApplicationRow>, apps: seq<VersionedKey>, e: Entries)
    returns (links: Option<seq<ProfileLink>>)
    ensures links.Some? <==> AllResolve(applications, apps, e)
    ensures links.Some? ==> links.value == ResolvedLinks(applications, apps, e)
  {
    var found: seq<ProfileLink> := [];
    for i := 0 to |e|
      invariant |found| == i
      invariant forall j :: 0 <= j < i ==> Some(found[j]) == ResolveEntry(applications, apps, e[j])
    {
      var app := FindApplicationInPackage(apps, e[i].0);
      if app.None? || app.value !in applications || e[i].1 !in applications[app.value].profiles {
        return None;
      }
      found := found + [ProfileLink(app.value, e[i].1)];
    }
    return Some(found);
  }

  // ---------- Printing ----------

  function Printed(app: VersionedKey, qualified: bool): string {
    if qualified then app.name + ":" + app.version else app.name
  }

  /** The application-to-profile map of a deployment profile; a later link wins over an equal key. */
  function Compose(links: seq<ProfileLink>, qualified: bool): map<string, string> {
    if links == [] then map[] else
      var last := |links| - 1;
      Compose(links[..last], qualified)[Printed(links[last].app, qualified) := links[last].profile]
  }

  method ComposeAppProfileMap(links: seq<ProfileLink>, qualified: bool) returns (m: map<string, string>)
    ensures m == Compose(links, qualified)
  {
    m := map[];
    for i := 0 to |links|
      invariant m == Compose(links[..i], qualified)
    {
      assert links[..i + 1][..i] == links[..i];
      m := m[Printed(links[i].app, qualified) := links[i].profile];
    }
    assert links[..|links|] == links;
  }

  function AppName(k: VersionedKey): string { k.name }

  predicate RepeatsName(apps: seq<VersionedKey>) {
    exists i, j :: 0 <= i < j < |apps| && apps[i].name == apps[j].name
  }

  /** Compares the number of names with the number of references. */
  method HasDuplicateAppNames<T>(refs: seq<T>, name: T -> string) returns (duplicates: bool)
    ensures duplicates <==> !DistinctNames(refs, name)
  {
    var names: set<string> := {};
    for i := 0 to |refs|
      invariant names == Elements(MapSeq(name, refs[..i]))
    {
      assert MapSeq(name, refs[..i + 1]) == MapSeq(name, refs[..i]) + [name(refs[i])];
      names := names + {name(refs[i])};
    }
    assert refs[..|refs|] == refs;
    DistinctSize(MapSeq(name, refs));
    duplicates := |names| != |refs|;
  }

  // ---------- The round trip ----------

  predicate PlainKeys(apps: seq<VersionedKey>) {
    forall i :: 0 <= i < |apps| ==> Plain(apps[i].name) && Plain(apps[i].version)
  }

  predicate OneProject(apps: seq<VersionedKey>) {
    forall i, j :: 0 <= i < |apps| && 0 <= j < |apps| ==> apps[i].project == apps[j].project
  }

  predicate DistinctApps(links: seq<ProfileLink>) {
    forall i, j :: 0 <= i < j < |links| ==> links[i].app != links[j].app
  }

  lemma PrintedSplits(app: VersionedKey, qualified: bool)
    requires Plain(app.name) && Plain(app.version)
    ensures Split(Printed(app, qualified), ':') == if qualified then [app.name, app.version] else [app.name]
  {
    SplitWithoutSeparator(app.name, ':');
    SplitWithoutSeparator(app.version, ':');
    SplitAtSeparator(app.name, ':', app.version);
  }

  /**
   * A printed member resolves to itself: bare names when no name repeats, name:version always.
   */
  lemma PrintedResolves(apps: seq<VersionedKey>, app: VersionedKey, qualified: bool)
    requires PlainKeys(apps) && app in apps
    requires OneProject(apps)
    requires qualified || !RepeatsName(apps)
    ensures FindApplication(apps, Printed(app, qualified)) == Some(app)
  {
    var i :| 0 <= i < |apps| && apps[i] == app;
    PrintedSplits(app, qualified);
    var found := FindApplication(apps, Printed(app, qualified));
    var version := if qualified then app.version else "";
    assert found == FirstMatching(apps, app.name, version);
    assert Matches(apps[i], app.name, version);
    var j :| 0 <= j < |apps| && apps[j] == found.value;
    assert qualified || i == j;
  }

  /** Bare names are read back exactly when it is safe: a repeated name makes one of them unreadable. */
  lemma BareNamesNeedDistinctNames(apps: seq<VersionedKey>)
    requires NoDup(apps) && PlainKeys(apps) && OneProject(apps)
    ensures (forall a :: a in apps ==> FindApplication(apps, Printed(a, false)) == Some(a)) <==> !RepeatsName(apps)
  {
    if !RepeatsName(apps) {
      forall a | a in apps
        ensures FindApplication(apps, Printed(a, false)) == Some(a)
      {
        PrintedResolves(apps, a, false);
      }
    } else {
      var i, j :| 0 <= i < j < |apps| && apps[i].name == apps[j].name;
      assert Printed(apps[i], false) == Printed(apps[j], false);
      assert FindApplication(apps, Printed(apps[i], false)) != Some(apps[i]) ||
             FindApplication(apps, Printed(apps[j], false)) != Some(apps[j]);
    }
  }

  predicate DistinctPrinted(links: seq<ProfileLink>, qualified: bool) {
    forall i, j :: 0 <= i < j < |links| ==> Printed(links[i].app, qualified) != Printed(links[j].app, qualified)
  }

  lemma {:induction false} ComposeAt(links: seq<ProfileLink>, qualified: bool, i: nat)
    requires DistinctPrinted(links, qualified) && i < |links|
    ensures Printed(links[i].app, qualified) in Compose(links, qualified)
    ensures Compose(links, qualified)[Printed(links[i].app, qualified)] == links[i].profile
  {
    var last := |links| - 1;
    if i < last {
      ComposeAt(links[..last], qualified, i);
    }
  }

  lemma {:induction false} ComposeFrom(links: seq<ProfileLink>, qualified: bool, k: string) returns (i: nat)
    requires k in Compose(links, qualified)
    ensures i < |links| && Printed(links[i].app, qualified) == k
  {
    var last := |links| - 1;
    if k == Printed(links[last].app, qualified) {
      i := last;
    } else {
      i := ComposeFrom(links[..last], qualified, k);
    }
  }

  lemma ComposeIsEmpty(links: seq<ProfileLink>, qualified: bool)
    ensures Compose(links, qualified) == map[] <==> links == []
  {
    if links != [] {
      assert Printed(links[|links| - 1].app, qualified) in Compose(links, qualified);
    }
  }

  /** Distinct members print differently, because each printed form resolves to its own member. */
  lemma MembersPrintDistinct(apps: seq<VersionedKey>, links: seq<ProfileLink>, qualified: bool)
    requires PlainKeys(apps) && OneProject(apps)
    requires qualified || !RepeatsName(apps)
    requires forall i :: 0 <= i < |links| ==> links[i].app in apps
    requires DistinctApps(links)
    ensures DistinctPrinted(links, qualified)
  {
    forall i, j | 0 <= i < j < |links|
      ensures Printed(links[i].app, qualified) != Printed(links[j].app, qualified)
    {
      PrintedResolves(apps, links[i].app, qualified);
      PrintedResolves(apps, links[j].app, qualified);
    }
  }

  /** Some entry of the map read back resolves to the link. */
  ghost predicate HasEntryFor(
    applications: map<VersionedKey, ApplicationRow>, apps: seq<VersionedKey>,
    back: map<string, string>, link: ProfileLink)
  {
    exists k :: k in back && ResolveEntry(applications, apps, (k, back[k])) == Some(link)
  }

  /** The map read back, resolved entry by entry, gives the links and nothing else. */
  ghost predicate ReadsBack(
    applications: map<VersionedKey, ApplicationRow>, apps: seq<VersionedKey>,
    links: seq<ProfileLink>, back: map<string, string>)
  {
    && (forall i :: 0 <= i < |links| ==> HasEntryFor(applications, apps, back, links[i]))
    && (forall k :: k in back ==>
          var l := ResolveEntry(applications, apps, (k, back[k]));
          l.Some? && l.value in links)
  }

  /** One link: its printed key is in the map read back, and resolves to the link again. */
  lemma LinkReadsBack(
    applications: map<VersionedKey, ApplicationRow>, apps: seq<VersionedKey>,
    links: seq<ProfileLink>, qualified: bool, i: nat)
    requires PlainKeys(apps) && OneProject(apps) && (qualified || !RepeatsName(apps))
    requires DistinctPrinted(links, qualified) && i < |links|
    requires links[i].app in apps && links[i].app in applications
    requires links[i].profile in applications[links[i].app].profiles
    ensures var back, k := Compose(links, qualified), Printed(links[i].app, qualified);
            k in back && ResolveEntry(applications, apps, (k, back[k])) == Some(links[i])
  {
    ComposeAt(links, qualified, i);
    PrintedResolves(apps, links[i].app, qualified);
  }

  lemma ResolvedLinksExist(
    applications: map<VersionedKey, ApplicationRow>, apps: seq<VersionedKey>, e: Entries)
    requires AllResolve(applications, apps, e)
    ensures var links := ResolvedLinks(applications, apps, e);
            forall i :: 0 <= i < |links| ==>
              links[i].app in apps && links[i].app in applications &&
              links[i].profile in applications[links[i].app].profiles
  {
    var links := ResolvedLinks(applications, apps, e);
    forall i | 0 <= i < |links|
      ensures links[i].app in apps && links[i].app in applications
      ensures links[i].profile in applications[links[i].app].profiles
    {
      assert ResolveEntry(applications, apps, e[i]) == Some(links[i]);
    }
  }

  /**
   * Reading back and resolving again: if the requested entries resolve to links to distinct
   * applications, the map read back, with bare names unless some name repeats, resolves to the
   * same assignment of profiles to applications.
   */
  lemma ReferenceRoundTrip(
    applications: map<VersionedKey, ApplicationRow>, apps: seq<VersionedKey>, e: Entries)
    requires PlainKeys(apps) && OneProject(apps)
    requires AllResolve(applications, apps, e) && DistinctApps(ResolvedLinks(applications, apps, e))
    ensures var links := ResolvedLinks(applications, apps, e);
            ReadsBack(applications, apps, links, Compose(links, RepeatsName(apps)))
  {
    var links := ResolvedLinks(applications, apps, e);
    ResolvedLinksExist(applications, apps, e);
    LinksReadBack(applications, apps, links, RepeatsName(apps));
  }

  lemma LinksReadBack(
    applications: map<VersionedKey, ApplicationRow>, apps: seq<VersionedKey>,
    links: seq<ProfileLink>, qualified: bool)
    requires PlainKeys(apps) && OneProject(apps) && (qualified || !RepeatsName(apps))
    requires DistinctApps(links)
    requires forall i :: 0 <= i < |links| ==>
               links[i].app in apps && links[i].app in applications &&
               links[i].profile in applications[links[i].app].profiles
    ensures ReadsBack(applications, apps, links, Compose(links, qualified))
  {
    MembersPrintDistinct(apps, links, qualified);
    var back := Compose(links, qualified);
    forall i | 0 <= i < |links|
      ensures HasEntryFor(applications, apps, back, links[i])
    {
      LinkReadsBack(applications, apps, links, qualified, i);
    }
    forall k | k in back
      ensures ResolveEntry(applications, apps, (k, back[k])).Some?
      ensures ResolveEntry(applications, apps, (k, back[k])).value in links
    {
      var i := ComposeFrom(links, qualified, k);
      LinkReadsBack(applications, apps, links, qualified, i);
    }
  }
}
