/**
 * The passes that wipe artifacts. The listing of the admin project shows the artifacts of all
 * projects, but a deletion reaches own ones only, by name; so a pass may fail, and passes may go on
 * for ever. Exactly when they end is decided here.
 */
module ArtifactPasses {
  import opened Prelude
  import opened Tables
  import opened Catalog
  import opened Pagination
  import opened Server

  type Artifacts = map<NamedKey, ArtifactRow>

  function Own(artifacts: Artifacts, project: string): set<NamedKey> {
    set k | k in artifacts && k.project == project
  }

  /** The listed artifacts of other projects: none, except in the admin project. */
  function Foreign(artifacts: Artifacts, project: string): set<NamedKey> {
    set k | k in artifacts && k.project != project && project == ADMIN_PROJECT
  }

  function Listed(artifacts: Artifacts, project: string): set<NamedKey> {
    Own(artifacts, project) + Foreign(artifacts, project)
  }

  lemma ListingShows(db: Db, project: string)
    ensures ArtifactsOf(db, project) == Listed(db.artifacts, project)
  {
  }

  // ---------- One pass ----------

  /** Deletes the own artifact of each listed name; what is missing is an error. */
  function DeleteListed(artifacts: Artifacts, project: string, page: seq<NamedKey>): (Artifacts, seq<Error>) {
    if page == [] then (artifacts, []) else
      var last := |page| - 1;
      var (left, errors) := DeleteListed(artifacts, project, page[..last]);
      var key := NamedKey(project, page[last].name);
      if key in left then (left - {key}, errors) else (left, errors + [NotFound])
  }

  function OwnNames(project: string, page: seq<NamedKey>): set<NamedKey> {
    set i | 0 <= i < |page| :: NamedKey(project, page[i].name)
  }

  lemma DeleteStep(artifacts: Artifacts, project: string, page: seq<NamedKey>)
    requires page != []
    ensures var (left, errors) := DeleteListed(artifacts, project, page[..|page| - 1]);
            var key := NamedKey(project, page[|page| - 1].name);
            DeleteListed(artifacts, project, page) ==
            if key in left then (left - {key}, errors) else (left, errors + [NotFound])
  {
  }

  lemma DeleteNone(artifacts: Artifacts, project: string)
    ensures DeleteListed(artifacts, project, []) == (artifacts, []) && artifacts - OwnNames(project, []) == artifacts
  {
  }

  lemma {:induction false} DeletedExactly(artifacts: Artifacts, project: string, page: seq<NamedKey>)
    ensures var (left, errors) := DeleteListed(artifacts, project, page);
            && left == artifacts - OwnNames(project, page)
            && |left| + |page| == |artifacts| + |errors|
            && forall i :: 0 <= i < |errors| ==> errors[i] == NotFound
  {
    hide DeleteListed, OwnNames;
    if page == [] {
      DeleteNone(artifacts, project);
    } else {
      var last := |page| - 1;
      DeletedExactly(artifacts, project, page[..last]);
      DeleteStep(artifacts, project, page);
      NamesStep(project, page);
      var gone, key := OwnNames(project, page[..last]), NamedKey(project, page[last].name);
      RemoveBoth(artifacts, gone, key);
      RemoveOne(artifacts - gone, key);
    }
  }

  lemma RemoveBoth<K, V>(m: map<K, V>, gone: set<K>, k: K)
    ensures m - gone - {k} == m - (gone + {k})
  {
  }

  lemma RemoveOne<K, V>(m: map<K, V>, k: K)
    ensures k !in m ==> m - {k} == m
    ensures k in m ==> |m - {k}| == |m| - 1
  {
    assert (m - {k}).Keys == m.Keys - {k};
    assert |(m - {k}).Keys| == |m - {k}| && |m.Keys| == |m|;
  }

  lemma NamesStep(project: string, page: seq<NamedKey>)
    requires page != []
    ensures var last := |page| - 1;
            OwnNames(project, page) == OwnNames(project, page[..last]) + {NamedKey(project, page[last].name)}
  {
    var last := |page| - 1;
    assert forall i :: 0 <= i < last ==> page[..last][i] == page[i];
  }

  type RowOrder = set<NamedKey> -> seq<NamedKey>

  function PageOf(artifacts: Artifacts, project: string, order: RowOrder): seq<NamedKey> {
    Page(order(Listed(artifacts, project)), MAX_PAGE_SIZE, 0)
  }

  function Pass(artifacts: Artifacts, project: string, order: RowOrder): Artifacts {
    DeleteListed(artifacts, project, PageOf(artifacts, project, order)).0
  }

  function PassErrors(artifacts: Artifacts, project: string, order: RowOrder): seq<Error> {
    DeleteListed(artifacts, project, PageOf(artifacts, project, order)).1
  }

  /** The loop goes on: the reported total exceeds the length of the page. */
  predicate MorePages(artifacts: Artifacts, project: string, order: RowOrder) {
    |Listed(artifacts, project)| > |PageOf(artifacts, project, order)|
  }

  lemma PageFacts(artifacts: Artifacts, project: string, order: RowOrder)
    requires IsRowOrder(order)
    ensures var listed, page := Listed(artifacts, project), PageOf(artifacts, project, order);
            && |order(listed)| == |listed| && NoDup(page) && Elements(page) <= listed
            && |page| == (if |listed| > MAX_PAGE_SIZE then MAX_PAGE_SIZE else |listed|)
            && (|listed| <= MAX_PAGE_SIZE ==> Elements(page) == listed)
            && |Elements(page)| == |page|
  {
    var listed := Listed(artifacts, project);
    var rows, page := order(listed), PageOf(artifacts, project, order);
    DistinctSize(rows);
    assert Elements(rows) == listed && NoDup(rows);
    assert page == rows[..|page|];
    DistinctSize(page);
    forall k | k in page
      ensures k in listed
    {
      assert k in Elements(rows);
    }
    if |listed| <= MAX_PAGE_SIZE {
      assert page == rows;
    }
  }

  /** A pass takes own artifacts only. */
  lemma PassTakesOwn(artifacts: Artifacts, project: string, order: RowOrder)
    ensures var after := Pass(artifacts, project, order);
            && after == artifacts - OwnNames(project, PageOf(artifacts, project, order))
            && Foreign(after, project) == Foreign(artifacts, project)
            && Own(after, project) == Own(artifacts, project) - OwnNames(project, PageOf(artifacts, project, order))
            && Listed(after, project) <= Listed(artifacts, project)
            && forall k: NamedKey :: k.project != project ==> (k in after <==> k in artifacts)
  {
    hide DeleteListed, PageOf;
    DeletedExactly(artifacts, project, PageOf(artifacts, project, order));
    var names := OwnNames(project, PageOf(artifacts, project, order));
    assert forall k :: k in names ==> k.project == project;
  }

  // ---------- Which passes make progress ----------

  ghost predicate HasNamesake(artifacts: Artifacts, project: string, k: NamedKey) {
    exists f :: f in Foreign(artifacts, project) && f.name == k.name
  }

  /**
   * Fewer foreign artifacts are listed than fit on a page; or just as many, and every own artifact
   * shares its name with one of them.
   */
  ghost predicate PassesEnd(artifacts: Artifacts, project: string) {
    |Foreign(artifacts, project)| < MAX_PAGE_SIZE ||
    (|Foreign(artifacts, project)| == MAX_PAGE_SIZE &&
     forall k :: k in Own(artifacts, project) ==> HasNamesake(artifacts, project, k))
  }

  lemma ListedSize(artifacts: Artifacts, project: string)
    ensures |Listed(artifacts, project)| == |Own(artifacts, project)| + |Foreign(artifacts, project)|
  {
    assert Own(artifacts, project) !! Foreign(artifacts, project);
  }

  /** An own artifact on the page goes. */
  lemma OwnOnPageGoes(artifacts: Artifacts, project: string, order: RowOrder, k: NamedKey)
    requires k in PageOf(artifacts, project, order)
    ensures NamedKey(project, k.name) in OwnNames(project, PageOf(artifacts, project, order))
  {
    var page := PageOf(artifacts, project, order);
    var i :| 0 <= i < |page| && page[i] == k;
  }

  lemma SubsetIsAll<T>(a: set<T>, b: set<T>)
    requires a <= b && |a| >= |b|
    ensures a == b
  {
    assert |b - a| == |b| - |a|;
  }

  /** While more pages are reported, some own artifact is named on the page. */
  lemma PageNamesOwn(artifacts: Artifacts, project: string, order: RowOrder) returns (k: NamedKey)
    requires IsRowOrder(order) && PassesEnd(artifacts, project) && MorePages(artifacts, project, order)
    ensures k in Own(artifacts, project) && k in OwnNames(project, PageOf(artifacts, project, order))
  {
    hide IsRowOrder, PageOf;
    PageFacts(artifacts, project, order);
    ListedSize(artifacts, project);
    var page, foreign := PageOf(artifacts, project, order), Foreign(artifacts, project);
    if Elements(page) <= foreign {
      SubsetMeasure(Elements(page), foreign);
      SubsetIsAll(Elements(page), foreign);
      assert Own(artifacts, project) != {};
      k :| k in Own(artifacts, project);
      assert HasNamesake(artifacts, project, k);
      var f :| f in foreign && f.name == k.name;
      assert f in Elements(page);
      OwnOnPageGoes(artifacts, project, order, f);
      assert NamedKey(project, f.name) == k;
    } else {
      k :| k in Elements(page) && k !in foreign;
      assert k in Own(artifacts, project);
      OwnOnPageGoes(artifacts, project, order, k);
      assert NamedKey(project, k.name) == k;
    }
  }

  lemma SubsetMeasure<T>(a: set<T>, b: set<T>)
    requires a <= b
    ensures |a| <= |b|
  {
    assert |b - a| == |b| - |a|;
  }

  lemma PassMakesProgress(artifacts: Artifacts, project: string, order: RowOrder)
    requires IsRowOrder(order) && PassesEnd(artifacts, project)
    ensures var after := Pass(artifacts, project, order);
            && PassesEnd(after, project)
            && |Own(after, project)| <= |Own(artifacts, project)|
            && (MorePages(artifacts, project, order) ==> |Own(after, project)| < |Own(artifacts, project)|)
  {
    hide IsRowOrder, PageOf, Pass, MorePages;
    var after := Pass(artifacts, project, order);
    PassTakesOwn(artifacts, project, order);
    SubsetMeasure(Own(after, project), Own(artifacts, project));
    forall k | k in Own(after, project) && HasNamesake(artifacts, project, k)
      ensures HasNamesake(after, project, k)
    {
      var f :| f in Foreign(artifacts, project) && f.name == k.name;
      assert f in Foreign(after, project);
    }
    if MorePages(artifacts, project, order) {
      var k := PageNamesOwn(artifacts, project, order);
      SubsetMeasure(Own(after, project), Own(artifacts, project) - {k});
    }
  }

  /** The last pass takes every own artifact, and each foreign one costs an error. */
  lemma LastPass(artifacts: Artifacts, project: string, order: RowOrder)
    requires IsRowOrder(order) && !MorePages(artifacts, project, order)
    ensures Own(Pass(artifacts, project, order), project) == {}
    ensures |PassErrors(artifacts, project, order)| == |Foreign(artifacts, project)|
  {
    hide IsRowOrder, DeleteListed, PageOf;
    var page, own := PageOf(artifacts, project, order), Own(artifacts, project);
    PageFacts(artifacts, project, order);
    PassTakesOwn(artifacts, project, order);
    DeletedExactly(artifacts, project, page);
    ListedSize(artifacts, project);
    forall k | k in own
      ensures k in OwnNames(project, page)
    {
      assert k in Elements(page);
      OwnOnPageGoes(artifacts, project, order, k);
      assert NamedKey(project, k.name) == k;
    }
    var after := Pass(artifacts, project, order);
    assert after.Keys == artifacts.Keys - own by {
      forall k | k in OwnNames(project, page) && k in artifacts
        ensures k in own
      {
      }
    }
    SubsetMeasure(own, artifacts.Keys);
    assert |after.Keys| == |artifacts.Keys| - |own|;
    assert |after.Keys| == |after| && |artifacts.Keys| == |artifacts|;
  }

  /** Without foreign artifacts no pass fails. */
  lemma OwnPassSucceeds(artifacts: Artifacts, project: string, order: RowOrder)
    requires IsRowOrder(order) && Foreign(artifacts, project) == {}
    ensures PassErrors(artifacts, project, order) == []
  {
    hide IsRowOrder, DeleteListed, PageOf;
    var page := PageOf(artifacts, project, order);
    PageFacts(artifacts, project, order);
    DeletedExactly(artifacts, project, page);
    forall k
      ensures k in OwnNames(project, page) <==> k in Elements(page)
    {
      if k in Elements(page) {
        OwnOnPageGoes(artifacts, project, order, k);
        assert k in Own(artifacts, project) && NamedKey(project, k.name) == k;
      }
      if k in OwnNames(project, page) {
        var i :| 0 <= i < |page| && NamedKey(project, page[i].name) == k;
        assert page[i] in Elements(page) && page[i] in Own(artifacts, project);
        assert page[i] == k;
      }
    }
    var after := Pass(artifacts, project, order);
    assert after.Keys == artifacts.Keys - Elements(page);
    assert Elements(page) <= artifacts.Keys;
    assert |after.Keys| == |artifacts.Keys| - |Elements(page)|;
    assert |after.Keys| == |after| && |artifacts.Keys| == |artifacts|;
  }

  // ---------- Exactly when the passes end ----------

  /** The artifacts after a number of passes. */
  function AfterPasses(artifacts: Artifacts, project: string, order: RowOrder, passes: nat): Artifacts {
    if passes == 0 then artifacts else Pass(AfterPasses(artifacts, project, order, passes - 1), project, order)
  }

  /** Some pass is the last one. */
  ghost predicate Ends(artifacts: Artifacts, project: string, order: RowOrder) {
    exists n :: !MorePages(AfterPasses(artifacts, project, order, n), project, order)
  }

  lemma {:induction false} LaterPass(artifacts: Artifacts, project: string, order: RowOrder, n: nat)
    ensures AfterPasses(Pass(artifacts, project, order), project, order, n) ==
            AfterPasses(artifacts, project, order, n + 1)
  {
    if n > 0 {
      LaterPass(artifacts, project, order, n - 1);
    }
  }

  lemma {:induction false} PassesDoEnd(artifacts: Artifacts, project: string, order: RowOrder)
    requires IsRowOrder(order) && PassesEnd(artifacts, project)
    ensures Ends(artifacts, project, order)
    decreases |Own(artifacts, project)|
  {
    if MorePages(artifacts, project, order) {
      PassMakesProgress(artifacts, project, order);
      var next := Pass(artifacts, project, order);
      PassesDoEnd(next, project, order);
      var n :| !MorePages(AfterPasses(next, project, order, n), project, order);
      LaterPass(artifacts, project, order, n);
    } else {
      assert AfterPasses(artifacts, project, order, 0) == artifacts;
    }
  }

  lemma {:induction false} ForeignStay(artifacts: Artifacts, project: string, order: RowOrder, n: nat)
    ensures Foreign(AfterPasses(artifacts, project, order, n), project) == Foreign(artifacts, project)
  {
    if n > 0 {
      ForeignStay(artifacts, project, order, n - 1);
      PassTakesOwn(AfterPasses(artifacts, project, order, n - 1), project, order);
    }
  }

  /** More foreign artifacts than fit on a page: whatever the row order, every pass asks for another. */
  lemma TooManyForeign(artifacts: Artifacts, project: string, order: RowOrder, n: nat)
    requires IsRowOrder(order) && |Foreign(artifacts, project)| > MAX_PAGE_SIZE
    ensures MorePages(AfterPasses(artifacts, project, order, n), project, order)
  {
    hide IsRowOrder, PageOf, AfterPasses;
    var now := AfterPasses(artifacts, project, order, n);
    ForeignStay(artifacts, project, order, n);
    ListedSize(now, project);
    PageFacts(now, project, order);
  }

  ghost function Enumerate<K>(s: set<K>): (r: seq<K>)
    ensures NoDup(r) && Elements(r) == s
  {
    if s == {} then [] else
      var x :| x in s;
      var r := Enumerate(s - {x});
      assert Elements([x] + r) == {x} + Elements(r);
      assert x !in Elements(r);
      [x] + r
  }

  ghost function Others(s: set<NamedKey>, project: string): set<NamedKey> { set k | k in s && k.project != project }

  ghost function Mine(s: set<NamedKey>, project: string): set<NamedKey> { set k | k in s && k.project == project }

  ghost function OthersFirst(s: set<NamedKey>, project: string): (r: seq<NamedKey>)
    ensures NoDup(r) && Elements(r) == s
  {
    OthersFirstIsOrder(s, project);
    Enumerate(Others(s, project)) + Enumerate(Mine(s, project))
  }

  lemma OthersFirstIsOrder(s: set<NamedKey>, project: string)
    ensures var r := Enumerate(Others(s, project)) + Enumerate(Mine(s, project));
            NoDup(r) && Elements(r) == s
  {
    hide Enumerate;
    var a, b := Enumerate(Others(s, project)), Enumerate(Mine(s, project));
    assert Others(s, project) + Mine(s, project) == s;
    assert Elements(a + b) == Elements(a) + Elements(b);
    forall i, j | 0 <= i < j < |a + b|
      ensures (a + b)[i] != (a + b)[j]
    {
      if i < |a| <= j {
        assert a[i] in Elements(a) && b[j - |a|] in Elements(b);
      }
    }
  }

  /** A row order that puts the artifacts of other projects first. */
  ghost function ForeignFirst(project: string): (order: RowOrder)
    ensures IsRowOrder(order)
  {
    s => OthersFirst(s, project)
  }

  /** A full page of foreign artifacts comes first: only their namesakes go. */
  lemma FullForeignPage(artifacts: Artifacts, project: string)
    requires |Foreign(artifacts, project)| == MAX_PAGE_SIZE
    ensures Elements(PageOf(artifacts, project, ForeignFirst(project))) == Foreign(artifacts, project)
  {
    hide Enumerate, IsRowOrder;
    var order, listed := ForeignFirst(project), Listed(artifacts, project);
    var first := Enumerate(Others(listed, project));
    assert Others(listed, project) == Foreign(artifacts, project);
    DistinctSize(first);
    assert |first| == MAX_PAGE_SIZE;
    ListedSize(artifacts, project);
    PageFacts(artifacts, project, order);
    var page := PageOf(artifacts, project, order);
    assert order(listed) == first + Enumerate(Mine(listed, project));
    assert page == order(listed)[..MAX_PAGE_SIZE];
    assert page == first;
  }

  /** An own artifact without a namesake survives every pass of that order. */
  lemma {:induction false} LonelyStays(artifacts: Artifacts, project: string, k: NamedKey, n: nat)
    requires |Foreign(artifacts, project)| == MAX_PAGE_SIZE
    requires k in Own(artifacts, project) && !HasNamesake(artifacts, project, k)
    ensures k in Own(AfterPasses(artifacts, project, ForeignFirst(project), n), project)
    ensures MorePages(AfterPasses(artifacts, project, ForeignFirst(project), n), project, ForeignFirst(project))
  {
    hide IsRowOrder, PageOf, ForeignFirst;
    var order := ForeignFirst(project);
    if n > 0 {
      LonelyStays(artifacts, project, k, n - 1);
      var before := AfterPasses(artifacts, project, order, n - 1);
      ForeignStay(artifacts, project, order, n - 1);
      FullForeignPage(before, project);
      PassTakesOwn(before, project, order);
      if k in OwnNames(project, PageOf(before, project, order)) {
        NamesakeOnPage(before, project, order, k);
      }
    }
    var now := AfterPasses(artifacts, project, order, n);
    ForeignStay(artifacts, project, order, n);
    ListedSize(now, project);
    PageFacts(now, project, order);
    SubsetMeasure({k}, Own(now, project));
  }

  lemma NamesakeOnPage(artifacts: Artifacts, project: string, order: RowOrder, k: NamedKey)
    requires k in OwnNames(project, PageOf(artifacts, project, order))
    requires Elements(PageOf(artifacts, project, order)) == Foreign(artifacts, project)
    ensures HasNamesake(artifacts, project, k)
  {
    var page := PageOf(artifacts, project, order);
    var i :| 0 <= i < |page| && NamedKey(project, page[i].name) == k;
    assert page[i] in Elements(page);
  }

  /** Otherwise there is a row order with which they go on for ever. */
  lemma PassesGoOn(artifacts: Artifacts, project: string, n: nat)
    requires !PassesEnd(artifacts, project)
    ensures MorePages(AfterPasses(artifacts, project, ForeignFirst(project), n), project, ForeignFirst(project))
  {
    hide IsRowOrder, PageOf, ForeignFirst, AfterPasses, MorePages;
    if |Foreign(artifacts, project)| > MAX_PAGE_SIZE {
      TooManyForeign(artifacts, project, ForeignFirst(project), n);
    } else {
      var k :| k in Own(artifacts, project) && !HasNamesake(artifacts, project, k);
      LonelyStays(artifacts, project, k, n);
    }
  }

  ghost predicate AlwaysEnds(artifacts: Artifacts, project: string) {
    forall order: RowOrder :: IsRowOrder(order) ==> Ends(artifacts, project, order)
  }

  /** The passes end, whatever the row order, if and only if the condition holds. */
  lemma PassesEndIff(artifacts: Artifacts, project: string)
    ensures PassesEnd(artifacts, project) <==> AlwaysEnds(artifacts, project)
  {
    hide IsRowOrder, PageOf, ForeignFirst, AfterPasses, MorePages, PassesEnd;
    if PassesEnd(artifacts, project) {
      forall order: RowOrder | IsRowOrder(order)
        ensures Ends(artifacts, project, order)
      {
        PassesDoEnd(artifacts, project, order);
      }
    } else {
      forall n: nat
        ensures MorePages(AfterPasses(artifacts, project, ForeignFirst(project), n), project, ForeignFirst(project))
      {
        PassesGoOn(artifacts, project, n);
      }
      assert !Ends(artifacts, project, ForeignFirst(project));
    }
  }
}
