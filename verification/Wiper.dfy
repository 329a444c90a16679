/** The project wiper: it severs all packages of a project, then deletes everything in it, page by page. */
module Wiper {
  import opened Prelude
  import opened Tables
  import opened Catalog
  import opened Invariants
  import opened Pagination
  import opened Server
  import opened Severing
  import opened Isolation
  import Runs
  import Listings
  import AP = ArtifactPasses
  import P = Packages
  import A = Applications

  const COUNT_LIMIT := 0x8000_0000

  /** The rows of a project can be counted in 32 bits. */
  ghost predicate Countable(db: Db, project: string) {
    |PackagesOf(db, project)| < COUNT_LIMIT && |ApplicationsOf(db, project)| < COUNT_LIMIT &&
    |ArtifactsOf(db, project)| < COUNT_LIMIT && |RegistriesOf(db, project)| < COUNT_LIMIT
  }

  /** The listing of artifacts shows only artifacts of the project. */
  ghost predicate ListsOwnArtifacts(db: Db, project: string) {
    forall k :: k in ArtifactsOf(db, project) ==> k.project == project
  }

  ghost predicate NoRegistries(db: Db, project: string) {
    forall k :: k in db.registries ==> k.project != project
  }

  ghost predicate NoArtifacts(db: Db, project: string) {
    forall k :: k in db.artifacts ==> k.project != project
  }

  /** Nothing of the project is left. */
  ghost predicate IsWiped(db: Db, project: string) {
    NoPackages(db, project) && NoApplications(db, project) && NoArtifacts(db, project) && NoRegistries(db, project)
  }

  /** A row order of the database lists each row once. */
  lemma OrderLists<K(!new)>(order: set<K> -> seq<K>, s: set<K>)
    requires IsRowOrder(order)
    ensures NoDup(order(s)) && Elements(order(s)) == s && |order(s)| == |s|
    ensures forall i :: 0 <= i < |order(s)| ==> order(s)[i] in s
  {
    DistinctSize(order(s));
    forall i | 0 <= i < |order(s)|
      ensures order(s)[i] in s
    {
      assert order(s)[i] in Elements(order(s));
    }
  }

  function AsList(e: Option<Error>): seq<Error> {
    match e
    case None => []
    case Some(error) => [error]
  }

  class ProjectWiper {
    const client: Server

    constructor (client: Server)
      ensures this.client == client
    {
      this.client := client;
    }

    method PreparePackageForDeletion(active: string, name: string, version: string) returns (e: Option<Error>)
      requires client.Valid()
      modifies client
      ensures client.Valid()
      ensures var key := VersionedKey(ActiveProject(active), name, version);
              if key in old(client.packages)
              then e.None? && key in client.packages && IsSevered(client.packages[key]) &&
                   client.Tables() == old(client.Tables()).(packages :=
                       old(client.packages)[key := client.packages[key]])
              else e.Some? && client.Tables() == old(client.Tables())
    {
      var found := client.GetDeploymentPackage(active, name, version);
      KnownPackages(client.Tables());
      if found.Err? {
        return Some(found.error);
      }
      var key := VersionedKey(ActiveProject(active), name, version);
      PackageIsSevered(client.Tables(), active, key);
      e := client.UpdateDeploymentPackage(active, name, version, SeveredRequest(key, found.value));
    }

    /** Severs the packages of one page. */
    method PreparePage(active: string, page: seq<VersionedKey>) returns (errors: seq<Error>)
      requires client.Valid()
      requires forall i :: 0 <= i < |page| ==> page[i] in client.packages && page[i].project == ActiveProject(active)
      modifies client
      ensures client.Valid() && errors == []
      ensures SeversExactly(old(client.Tables()), client.Tables(), page)
    {
      hide Server.Valid;
      errors := [];
      for j := 0 to |page|
        invariant client.Valid() && errors == []
        invariant SeversExactly(old(client.Tables()), client.Tables(), page[..j])
      {
        ghost var before := client.Tables();
        var e := PreparePackageForDeletion(active, page[j].name, page[j].version);
        SeversNext(old(client.Tables()), before, client.Tables(), page, j);
        errors := errors + AsList(e);
      }
      assert page[..|page|] == page;
    }

    /** Severs the packages of the next page; returns their number and the reported total. */
    method PrepareNextPage(active: string, offset: int32, ghost db: Db, ghost rows: seq<VersionedKey>)
      returns (failed: seq<Error>, count: int32, total: int32)
      requires client.Valid() && rows == client.versionedOrder(PackagesOf(db, ActiveProject(active)))
      requires |PackagesOf(db, ActiveProject(active))| < COUNT_LIMIT
      requires 0 <= offset <= |rows| && SeversExactly(db, client.Tables(), rows[..offset])
      modifies client
      ensures client.Valid() && failed == [] && total == |rows|
      ensures 0 <= count && offset + count <= |rows| && (offset < |rows| ==> count > 0)
      ensures SeversExactly(db, client.Tables(), rows[..offset + count])
    {
      hide Reachable, SecretsAgree, Listings.SelectedPackages, Listings.Readable, Listings.PredicatesOf;
      hide SeversExactly, Page, PackagesOf;
      ghost var before := client.Tables();
      SameKeys(db, before, rows[..offset]);
      NextPage(db, before, ActiveProject(active), client.versionedOrder, offset);
      var resp := client.ListDeploymentPackages(active, "", "", [], MAX_PAGE_SIZE, offset);
      var page := resp.value.0;
      failed := PreparePage(active, page);
      SeversMore(db, before, client.Tables(), rows, offset, page);
      count, total := |page|, resp.value.1;
    }

    /** Sweeps through all packages of the project; the listing stays the same while they are updated. */
    method PreparePackagesForDeletion(active: string) returns (errors: seq<Error>)
      requires client.Valid() && |PackagesOf(client.Tables(), ActiveProject(active))| < COUNT_LIMIT
      modifies client
      ensures client.Valid() && errors == []
      ensures SeversProject(old(client.Tables()), client.Tables(), ActiveProject(active))
    {
      hide Reachable, SecretsAgree;
      ghost var db, project := client.Tables(), ActiveProject(active);
      ghost var rows := client.versionedOrder(PackagesOf(db, project));
      OrderLists(client.versionedOrder, PackagesOf(db, project));
      errors := [];
      var offset: int32 := 0;
      var hasMorePages := true;
      while hasMorePages
        invariant client.Valid() && errors == []
        invariant 0 <= offset <= |rows| && SeversExactly(db, client.Tables(), rows[..offset])
        invariant !hasMorePages ==> offset == |rows|
        decreases |rows| - offset, hasMorePages
      {
        var failed, count, total := PrepareNextPage(active, offset, db, rows);
        errors := errors + failed;
        SmallInt32(offset + count);
        hasMorePages := total > ToInt32(offset + count);
        offset := ToInt32(offset + count);
      }
      assert rows[..offset] == rows;
      SeversAll(db, client.Tables(), project, rows);
    }

    method DeletePackage(active: string, key: VersionedKey) returns (e: Option<Error>)
      requires client.Valid() && key in client.packages && key.project == ActiveProject(active)
      requires AllSevered(client.Tables(), ActiveProject(active))
      modifies client
      ensures client.Valid() && e.None?
      ensures client.Tables() == old(client.Tables()).(packages := old(client.packages) - {key})
    {
      PackageGoes(client.Tables(), active, key);
      e := client.DeleteDeploymentPackage(active, key.name, key.version);
    }

    /** Deletes the packages of one page. */
    method DeletePackages(active: string, page: seq<VersionedKey>) returns (errors: seq<Error>)
      requires client.Valid() && NoDup(page)
      requires forall i :: 0 <= i < |page| ==> page[i] in client.packages && page[i].project == ActiveProject(active)
      requires AllSevered(client.Tables(), ActiveProject(active))
      modifies client
      ensures client.Valid() && errors == []
      ensures client.Tables() == old(client.Tables()).(packages := old(client.packages) - Elements(page))
    {
      hide Server.Valid;
      errors := [];
      for j := 0 to |page|
        invariant client.Valid() && errors == []
        invariant client.Tables() == old(client.Tables()).(packages := old(client.packages) - Elements(page[..j]))
      {
        NextKey(old(client.packages), page, j);
        var e := DeletePackage(active, page[j]);
        errors := errors + AsList(e);
      }
      assert page[..|page|] == page;
    }

    /** Deletes the packages of the first page; says whether more are left. */
    method WipeNextPackages(active: string) returns (failed: seq<Error>, hasMorePages: bool)
      requires client.Valid() && |PackagesOf(client.Tables(), ActiveProject(active))| < COUNT_LIMIT
      requires AllSevered(client.Tables(), ActiveProject(active))
      modifies client
      ensures client.Valid() && failed == []
      ensures client.Tables() == old(client.Tables()).(packages := client.packages)
      ensures SameVersioned(old(client.packages), client.packages, ActiveProject(active))
      ensures AllSevered(client.Tables(), ActiveProject(active))
      ensures if hasMorePages
              then |PackagesOf(client.Tables(), ActiveProject(active))| < |PackagesOf(old(client.Tables()),
                  ActiveProject(active))|
              else PackagesOf(client.Tables(), ActiveProject(active)) == {}
    {
      hide Reachable, SecretsAgree, Listings.SelectedPackages, Listings.Readable, Listings.PredicatesOf, Page;
      ghost var listed := PackagesOf(client.Tables(), ActiveProject(active));
      FirstPage(client.versionedOrder, listed);
      var resp := client.ListDeploymentPackages(active, "", "", [], MAX_PAGE_SIZE, 0);
      var page, total := resp.value.0, resp.value.1;
      PackagesWithoutPage(client.Tables(), ActiveProject(active), Elements(page));
      failed := DeletePackages(active, page);
      SmallInt32(|page|);
      hasMorePages := total > ToInt32(|page|);
    }

    method WipePackages(active: string) returns (errors: seq<Error>)
      requires client.Valid() && |PackagesOf(client.Tables(), ActiveProject(active))| < COUNT_LIMIT
      requires AllSevered(client.Tables(), ActiveProject(active))
      modifies client
      ensures client.Valid() && errors == []
      ensures NoPackages(client.Tables(), ActiveProject(active))
      ensures client.Tables() == old(client.Tables()).(packages := client.packages)
      ensures SameVersioned(old(client.packages), client.packages, ActiveProject(active))
    {
      hide Server.Valid;
      errors := [];
      var hasMorePages := true;
      while hasMorePages
        invariant client.Valid() && errors == []
        invariant client.Tables() == old(client.Tables()).(packages := client.packages)
        invariant SameVersioned(old(client.packages), client.packages, ActiveProject(active))
        invariant AllSevered(client.Tables(), ActiveProject(active))
        invariant |PackagesOf(client.Tables(), ActiveProject(active))| < COUNT_LIMIT
        invariant !hasMorePages ==> PackagesOf(client.Tables(), ActiveProject(active)) == {}
        decreases |PackagesOf(client.Tables(), ActiveProject(active))|, hasMorePages
      {
        var failed, more := WipeNextPackages(active);
        errors := errors + failed;
        hasMorePages := more;
      }
      NoPackagesListed(client.Tables(), ActiveProject(active));
    }

    method DeleteApplication(active: string, key: VersionedKey) returns (e: Option<Error>)
      requires client.Valid() && key in client.applications && key.project == ActiveProject(active)
      requires NoPackages(client.Tables(), ActiveProject(active))
      modifies client
      ensures client.Valid() && e.None?
      ensures client.Tables() == old(client.Tables()).(applications := old(client.applications) - {key})
    {
      ApplicationGoes(client.Tables(), active, key);
      e := client.DeleteApplication(active, key.name, key.version);
    }

    /** Deletes the applications of one page. */
    method DeleteApplications(active: string, page: seq<VersionedKey>) returns (errors: seq<Error>)
      requires client.Valid() && NoDup(page)
      requires forall i :: 0 <= i < |page| ==>
               page[i] in client.applications && page[i].project == ActiveProject(active)
      requires NoPackages(client.Tables(), ActiveProject(active))
      modifies client
      ensures client.Valid() && errors == []
      ensures client.Tables() == old(client.Tables()).(applications := old(client.applications) - Elements(page))
    {
      hide Server.Valid;
      errors := [];
      for j := 0 to |page|
        invariant client.Valid() && errors == []
        invariant client.Tables() ==
                  old(client.Tables()).(applications := old(client.applications) - Elements(page[..j]))
      {
        NextKey(old(client.applications), page, j);
        var e := DeleteApplication(active, page[j]);
        errors := errors + AsList(e);
      }
      assert page[..|page|] == page;
    }

    /** Deletes the applications of the first page; says whether more are left. */
    method WipeNextApplications(active: string) returns (failed: seq<Error>, hasMorePages: bool)
      requires client.Valid() && |ApplicationsOf(client.Tables(), ActiveProject(active))| < COUNT_LIMIT
      requires NoPackages(client.Tables(), ActiveProject(active))
      modifies client
      ensures client.Valid() && failed == []
      ensures client.Tables() == old(client.Tables()).(applications := client.applications)
      ensures SameVersioned(old(client.applications), client.applications, ActiveProject(active))
      ensures if hasMorePages
              then |ApplicationsOf(client.Tables(), ActiveProject(active))| < |ApplicationsOf(old(client.Tables()),
                  ActiveProject(active))|
              else ApplicationsOf(client.Tables(), ActiveProject(active)) == {}
    {
      hide Reachable, SecretsAgree;
      ghost var listed := ApplicationsOf(client.Tables(), ActiveProject(active));
      FirstPage(client.versionedOrder, listed);
      var resp := client.ListApplications(active, MAX_PAGE_SIZE, 0);
      var page, total := resp.value.0, resp.value.1;
      ApplicationsWithoutPage(client.Tables(), ActiveProject(active), Elements(page));
      failed := DeleteApplications(active, page);
      SmallInt32(|page|);
      hasMorePages := total > ToInt32(|page|);
    }

    method WipeApplications(active: string) returns (errors: seq<Error>)
      requires client.Valid() && |ApplicationsOf(client.Tables(), ActiveProject(active))| < COUNT_LIMIT
      requires NoPackages(client.Tables(), ActiveProject(active))
      modifies client
      ensures client.Valid() && errors == []
      ensures NoApplications(client.Tables(), ActiveProject(active))
      ensures client.Tables() == old(client.Tables()).(applications := client.applications)
      ensures SameVersioned(old(client.applications), client.applications, ActiveProject(active))
    {
      hide Server.Valid;
      errors := [];
      var hasMorePages := true;
      while hasMorePages
        invariant client.Valid() && errors == []
        invariant client.Tables() == old(client.Tables()).(applications := client.applications)
        invariant SameVersioned(old(client.applications), client.applications, ActiveProject(active))
        invariant |ApplicationsOf(client.Tables(), ActiveProject(active))| < COUNT_LIMIT
        invariant !hasMorePages ==> ApplicationsOf(client.Tables(), ActiveProject(active)) == {}
        decreases |ApplicationsOf(client.Tables(), ActiveProject(active))|, hasMorePages
      {
        var failed, more := WipeNextApplications(active);
        errors := errors + failed;
        hasMorePages := more;
      }
      NoApplicationsListed(client.Tables(), ActiveProject(active));
    }

    /** Deletes the own artifact of that name; a missing one is an error. */
    method DeleteArtifact(active: string, name: string) returns (e: Option<Error>)
      requires client.Valid() && name != ""
      requires NoPackages(client.Tables(), ActiveProject(active))
      modifies client
      ensures client.Valid()
      ensures var key := NamedKey(ActiveProject(active), name);
              if key in old(client.artifacts)
              then e.None? && client.Tables() == old(client.Tables()).(artifacts := old(client.artifacts) - {key})
              else e == Some(NotFound) && client.Tables() == old(client.Tables())
    {
      ArtifactGoesOrIsMissing(client.Tables(), active, name);
      e := client.DeleteArtifact(active, name);
    }

    /** Deletes the artifacts of one page, by name. */
    method DeleteArtifacts(active: string, page: seq<NamedKey>) returns (errors: seq<Error>)
      requires client.Valid() && (forall i :: 0 <= i < |page| ==> page[i].name != "")
      requires NoPackages(client.Tables(), ActiveProject(active))
      modifies client
      ensures client.Valid()
      ensures var (left, failed) := AP.DeleteListed(old(client.artifacts), ActiveProject(active), page);
              errors == failed && client.Tables() == old(client.Tables()).(artifacts := left)
    {
      hide Server.Valid, AP.DeleteListed;
      errors := [];
      AP.DeleteNone(client.artifacts, ActiveProject(active));
      for j := 0 to |page|
        invariant client.Valid()
        invariant var (left, failed) := AP.DeleteListed(old(client.artifacts), ActiveProject(active), page[..j]);
                  errors == failed && client.Tables() == old(client.Tables()).(artifacts := left)
      {
        AP.DeleteStep(old(client.artifacts), ActiveProject(active), page[..j + 1]);
        assert page[..j + 1][..j] == page[..j];
        var e := DeleteArtifact(active, page[j].name);
        errors := errors + AsList(e);
      }
      assert page[..|page|] == page;
    }

    /** One pass over the first page; says whether more are left. */
    method WipeNextArtifacts(active: string) returns (failed: seq<Error>, hasMorePages: bool)
      requires client.Valid() && |ArtifactsOf(client.Tables(), ActiveProject(active))| < COUNT_LIMIT
      requires NoPackages(client.Tables(), ActiveProject(active))
      modifies client
      ensures client.Valid()
      ensures client.Tables() == old(client.Tables()).(
                artifacts := AP.Pass(old(client.artifacts), ActiveProject(active), client.namedOrder))
      ensures failed == AP.PassErrors(old(client.artifacts), ActiveProject(active), client.namedOrder)
      ensures hasMorePages <==> AP.MorePages(old(client.artifacts), ActiveProject(active), client.namedOrder)
    {
      hide Reachable, SecretsAgree, AP.DeleteListed;
      AP.ListingShows(client.Tables(), ActiveProject(active));
      AP.PageFacts(client.artifacts, ActiveProject(active), client.namedOrder);
      ListedNamesAreValid(client.Tables(), ActiveProject(active), client.namedOrder);
      var resp := client.ListArtifacts(active, MAX_PAGE_SIZE, 0);
      var page, total := resp.value.0, resp.value.1;
      failed := DeleteArtifacts(active, page);
      SmallInt32(|page|);
      hasMorePages := total > ToInt32(|page|);
    }

    /** Wipes the own artifacts; each foreign one that is listed costs an error. */
    method WipeArtifacts(active: string) returns (errors: seq<Error>)
      requires client.Valid() && |ArtifactsOf(client.Tables(), ActiveProject(active))| < COUNT_LIMIT
      requires NoPackages(client.Tables(), ActiveProject(active))
      requires AP.PassesEnd(client.artifacts, ActiveProject(active))
      modifies client
      ensures client.Valid()
      ensures errors == [] <==> ListsOwnArtifacts(old(client.Tables()), ActiveProject(active))
      ensures OnlyNotFound(errors)
      ensures NoArtifacts(client.Tables(), ActiveProject(active))
      ensures client.Tables() == old(client.Tables()).(artifacts := client.artifacts)
      ensures SameNamed(old(client.artifacts), client.artifacts, ActiveProject(active))
    {
      hide Reachable, SecretsAgree, AP.Pass, AP.MorePages, AP.PassErrors, AP.PassesEnd;
      errors := [];
      var hasMorePages := true;
      ghost var project := ActiveProject(active);
      OwnListing(client.Tables(), project);
      while hasMorePages
        invariant client.Valid()
        invariant client.Tables() == old(client.Tables()).(artifacts := client.artifacts)
        invariant SameNamed(old(client.artifacts), client.artifacts, project)
        invariant AP.Foreign(client.artifacts, project) == AP.Foreign(old(client.artifacts), project)
        invariant AP.PassesEnd(client.artifacts, project)
        invariant |ArtifactsOf(client.Tables(), project)| < COUNT_LIMIT
        invariant OnlyNotFound(errors) && (AP.Foreign(old(client.artifacts), project) == {} ==> errors == [])
        invariant !hasMorePages ==> AP.Own(client.artifacts, project) == {} &&
                                    |errors| >= |AP.Foreign(old(client.artifacts), project)|
        decreases |AP.Own(client.artifacts, project)|, hasMorePages
      {
        ghost var before := client.artifacts;
        PassLeaves(client.Tables(), project, client.namedOrder);
        PassReports(client.artifacts, project, client.namedOrder);
        var failed, more := WipeNextArtifacts(active);
        SameNamedTwice(old(client.artifacts), before, client.artifacts, project);
        errors := errors + failed;
        hasMorePages := more;
      }
      NoArtifactsListed(client.Tables(), project);
    }

    method DeleteRegistry(active: string, key: NamedKey) returns (e: Option<Error>)
      requires client.Valid() && key in client.registries && key.project == ActiveProject(active)
      requires NoApplications(client.Tables(), ActiveProject(active))
      modifies client
      ensures client.Valid() && e.None?
      ensures client.Tables() == old(client.Tables()).(registries := old(client.registries) - {key})
    {
      RegistryGoes(client.Tables(), active, key);
      e := client.DeleteRegistry(active, key.name);
    }

    /** Deletes the registries of one page. */
    method DeleteRegistries(active: string, page: seq<NamedKey>) returns (errors: seq<Error>)
      requires client.Valid() && NoDup(page)
      requires forall i :: 0 <= i < |page| ==> page[i] in client.registries && page[i].project == ActiveProject(active)
      requires NoApplications(client.Tables(), ActiveProject(active))
      modifies client
      ensures client.Valid() && errors == []
      ensures client.Tables() == old(client.Tables()).(registries := old(client.registries) - Elements(page))
    {
      hide Server.Valid;
      errors := [];
      for j := 0 to |page|
        invariant client.Valid() && errors == []
        invariant client.Tables() == old(client.Tables()).(registries := old(client.registries) - Elements(page[..j]))
      {
        NextKey(old(client.registries), page, j);
        var e := DeleteRegistry(active, page[j]);
        errors := errors + AsList(e);
      }
      assert page[..|page|] == page;
    }

    /** Deletes the registries of the first page; says whether more are left. */
    method WipeNextRegistries(active: string) returns (failed: seq<Error>, hasMorePages: bool)
      requires client.Valid() && |RegistriesOf(client.Tables(), ActiveProject(active))| < COUNT_LIMIT
      requires NoApplications(client.Tables(), ActiveProject(active))
      modifies client
      ensures client.Valid() && failed == []
      ensures client.Tables() == old(client.Tables()).(registries := client.registries)
      ensures SameNamed(old(client.registries), client.registries, ActiveProject(active))
      ensures if hasMorePages
              then |RegistriesOf(client.Tables(), ActiveProject(active))| < |RegistriesOf(old(client.Tables()),
                  ActiveProject(active))|
              else RegistriesOf(client.Tables(), ActiveProject(active)) == {}
    {
      hide Reachable, SecretsAgree;
      ghost var listed := RegistriesOf(client.Tables(), ActiveProject(active));
      FirstPage(client.namedOrder, listed);
      var resp := client.ListRegistries(active, MAX_PAGE_SIZE, 0);
      var page, total := resp.value.0, resp.value.1;
      RegistriesWithoutPage(client.Tables(), ActiveProject(active), Elements(page));
      failed := DeleteRegistries(active, page);
      SmallInt32(|page|);
      hasMorePages := total > ToInt32(|page|);
    }

    method WipeRegistries(active: string) returns (errors: seq<Error>)
      requires client.Valid() && |RegistriesOf(client.Tables(), ActiveProject(active))| < COUNT_LIMIT
      requires NoApplications(client.Tables(), ActiveProject(active))
      modifies client
      ensures client.Valid() && errors == []
      ensures NoRegistries(client.Tables(), ActiveProject(active))
      ensures client.Tables() == old(client.Tables()).(registries := client.registries)
      ensures SameNamed(old(client.registries), client.registries, ActiveProject(active))
    {
      hide Server.Valid;
      errors := [];
      var hasMorePages := true;
      while hasMorePages
        invariant client.Valid() && errors == []
        invariant client.Tables() == old(client.Tables()).(registries := client.registries)
        invariant SameNamed(old(client.registries), client.registries, ActiveProject(active))
        invariant |RegistriesOf(client.Tables(), ActiveProject(active))| < COUNT_LIMIT
        invariant !hasMorePages ==> RegistriesOf(client.Tables(), ActiveProject(active)) == {}
        decreases |RegistriesOf(client.Tables(), ActiveProject(active))|, hasMorePages
      {
        var failed, more := WipeNextRegistries(active);
        errors := errors + failed;
        hasMorePages := more;
      }
      NoRegistriesListed(client.Tables(), ActiveProject(active));
    }

    /**
     * Wiping terminates, nothing of the project is left and nothing of any other project changes. The
     * only errors are for foreign artifacts that the listing shows: there is none exactly if it shows
     * own artifacts only.
     */
    method Wipe(active: string) returns (errors: seq<Error>)
      requires client.Valid() && Countable(client.Tables(), ActiveProject(active))
      requires AP.PassesEnd(client.artifacts, ActiveProject(active))
      modifies client
      ensures client.Valid()
      ensures errors == [] <==> ListsOwnArtifacts(old(client.Tables()), ActiveProject(active))
      ensures OnlyNotFound(errors)
      ensures IsWiped(client.Tables(), ActiveProject(active))
      ensures SameElsewhere(old(client.Tables()), client.Tables(), ActiveProject(active))
    {
      hide Server.Valid, AP.PassesEnd, ListsOwnArtifacts, IsSevered, OnlyNotFound;
      errors := PreparePackagesForDeletion(active);
      SameListing(old(client.Tables()), client.Tables(), ActiveProject(active));
      var more := WipePackages(active);
      errors := errors + more;
      more := WipeApplications(active);
      errors := errors + more;
      OnlyArtifactsCount(old(client.Tables()), client.Tables(), ActiveProject(active));
      more := WipeArtifacts(active);
      errors := errors + more;
      assert errors == more;
      more := WipeRegistries(active);
      assert errors + more == errors;
      errors := errors + more;
    }
  }

  // ---------- Severing, page by page ----------

  /** The listed packages are severed, and nothing else has changed. */
  ghost predicate SeversExactly(db: Db, db': Db, keys: seq<VersionedKey>) {
    && db'.packages.Keys == db.packages.Keys
    && db' == db.(packages := db'.packages)
    && forall k :: k in db.packages ==>
         if k in keys then IsSevered(db'.packages[k]) else db'.packages[k] == db.packages[k]
  }

  lemma SameKeys(db: Db, db': Db, keys: seq<VersionedKey>)
    requires SeversExactly(db, db', keys)
    ensures db'.packages.Keys == db.packages.Keys
  {
  }

  /** All packages of the project are severed, and nothing else has changed. */
  ghost predicate SeversProject(db: Db, db': Db, project: string) {
    && db'.packages.Keys == db.packages.Keys
    && db' == db.(packages := db'.packages)
    && AllSevered(db', project) && SameVersioned(db.packages, db'.packages, project)
  }

  lemma SeversNext(db: Db, before: Db, after: Db, page: seq<VersionedKey>, j: nat)
    requires j < |page| && page[j] in before.packages && SeversExactly(db, before, page[..j])
    requires page[j] in after.packages && IsSevered(after.packages[page[j]])
    requires after == before.(packages := before.packages[page[j] := after.packages[page[j]]])
    ensures SeversExactly(db, after, page[..j + 1])
  {
    assert page[..j + 1] == page[..j] + [page[j]];
  }

  lemma SameListing(db: Db, db': Db, project: string)
    requires db'.packages.Keys == db.packages.Keys
    ensures PackagesOf(db', project) == PackagesOf(db, project)
  {
  }

  /** The listing is still the same; its next page holds the next rows, and one at least while some are left. */
  lemma NextPage(db: Db, before: Db, project: string, order: set<VersionedKey> -> seq<VersionedKey>, offset: int32)
    requires IsRowOrder(order) && before.packages.Keys == db.packages.Keys
    requires 0 <= offset <= |order(PackagesOf(db, project))|
    ensures PackagesOf(before, project) == PackagesOf(db, project)
    ensures |order(PackagesOf(before, project))| == |PackagesOf(db, project)|
    ensures var rows := order(PackagesOf(db, project));
            var page := Page(order(PackagesOf(before, project)), MAX_PAGE_SIZE, offset);
            && offset + |page| <= |rows| && page == rows[offset..offset + |page|]
            && (offset < |rows| ==> |page| > 0)
            && forall i :: 0 <= i < |page| ==> page[i] in before.packages && page[i].project == project
  {
    SameListing(db, before, project);
    OrderLists(order, PackagesOf(db, project));
    var rows := order(PackagesOf(db, project));
    var page := Page(rows, MAX_PAGE_SIZE, offset);
    forall i | 0 <= i < |page|
      ensures page[i] in before.packages && page[i].project == project
    {
      assert page[i] == rows[offset + i];
    }
  }

  lemma SeversMore(db: Db, before: Db, after: Db, rows: seq<VersionedKey>, offset: nat, page: seq<VersionedKey>)
    requires offset + |page| <= |rows| && page == rows[offset..offset + |page|]
    requires SeversExactly(db, before, rows[..offset]) && SeversExactly(before, after, page)
    ensures SeversExactly(db, after, rows[..offset + |page|])
  {
    assert rows[..offset + |page|] == rows[..offset] + page;
  }

  lemma SeversAll(db: Db, db': Db, project: string, rows: seq<VersionedKey>)
    requires SeversExactly(db, db', rows) && Elements(rows) == PackagesOf(db, project)
    ensures SeversProject(db, db', project)
  {
    forall k | k in db.packages
      ensures k in rows <==> k.project == project
    {
      assert k in rows <==> k in Elements(rows);
    }
  }

  // ---------- Facts the loops use ----------

  /** The next key of a page is still there, and deleting it makes the step of the loop. */
  lemma NextKey<K, T>(m: map<K, T>, page: seq<K>, j: nat)
    requires NoDup(page) && j < |page| && page[j] in m
    ensures page[j] in m - Elements(page[..j])
    ensures m - Elements(page[..j]) - {page[j]} == m - Elements(page[..j + 1])
  {
    assert page[..j + 1] == page[..j] + [page[j]];
    assert Elements(page[..j + 1]) == Elements(page[..j]) + {page[j]};
  }

  /** The first page of a listing: what it holds, and how much is left when it is deleted. */
  lemma FirstPage<K(!new)>(order: set<K> -> seq<K>, listed: set<K>)
    requires IsRowOrder(order)
    ensures |order(listed)| == |listed|
    ensures var page := Page(order(listed), MAX_PAGE_SIZE, 0);
            && NoDup(page) && Elements(page) <= listed && (forall i :: 0 <= i < |page| ==> page[i] in listed)
            && |listed - Elements(page)| == |listed| - |page| && (listed != {} ==> |page| > 0)
            && (|page| == |listed| ==> listed - Elements(page) == {})
  {
    OrderLists(order, listed);
    var rows := order(listed);
    var page := Page(rows, MAX_PAGE_SIZE, 0);
    assert page == rows[..|page|];
    DistinctSize(page);
    assert Elements(page) <= listed;
  }

  lemma PackagesWithoutPage(db: Db, project: string, gone: set<VersionedKey>)
    requires gone <= PackagesOf(db, project)
    ensures PackagesOf(db.(packages := db.packages - gone), project) == PackagesOf(db, project) - gone
    ensures SameVersioned(db.packages, db.packages - gone, project)
  {
  }

  lemma NoPackagesListed(db: Db, project: string)
    requires PackagesOf(db, project) == {}
    ensures NoPackages(db, project)
  {
    forall k | k in db.packages
      ensures k.project != project
    {
      assert k !in PackagesOf(db, project);
    }
  }

  lemma ApplicationsWithoutPage(db: Db, project: string, gone: set<VersionedKey>)
    requires gone <= ApplicationsOf(db, project)
    ensures ApplicationsOf(db.(applications := db.applications - gone), project) == ApplicationsOf(db, project) - gone
    ensures SameVersioned(db.applications, db.applications - gone, project)
  {
  }

  lemma NoApplicationsListed(db: Db, project: string)
    requires ApplicationsOf(db, project) == {}
    ensures NoApplications(db, project)
  {
    forall k | k in db.applications
      ensures k.project != project
    {
      assert k !in ApplicationsOf(db, project);
    }
  }

  ghost predicate OnlyNotFound(errors: seq<Error>) {
    forall i :: 0 <= i < |errors| ==> errors[i] == NotFound
  }

  lemma NoArtifactsListed(db: Db, project: string)
    requires AP.Own(db.artifacts, project) == {}
    ensures NoArtifacts(db, project)
  {
    forall k | k in db.artifacts
      ensures k.project != project
    {
      assert k !in AP.Own(db.artifacts, project);
    }
  }

  lemma OnlyArtifactsCount(db: Db, db': Db, project: string)
    requires db'.artifacts == db.artifacts
    ensures ListsOwnArtifacts(db', project) <==> ListsOwnArtifacts(db, project)
  {
  }

  lemma OwnListing(db: Db, project: string)
    ensures ListsOwnArtifacts(db, project) <==> AP.Foreign(db.artifacts, project) == {}
    ensures ListsOwnArtifacts(db, project) <==> |AP.Foreign(db.artifacts, project)| == 0
  {
    forall k
      ensures k in AP.Foreign(db.artifacts, project) <==> k in ArtifactsOf(db, project) && k.project != project
    {
    }
  }

  lemma ListedNamesAreValid(db: Db, project: string, order: set<NamedKey> -> seq<NamedKey>)
    requires Reachable(db) && IsRowOrder(order)
    ensures var page := Page(order(ArtifactsOf(db, project)), MAX_PAGE_SIZE, 0);
            forall i :: 0 <= i < |page| ==> page[i].name != ""
  {
    Runs.EveryReachableStateFits(db);
    hide Reachable;
    OrderLists(order, ArtifactsOf(db, project));
    var page := Page(order(ArtifactsOf(db, project)), MAX_PAGE_SIZE, 0);
    forall i | 0 <= i < |page|
      ensures page[i].name != ""
    {
      assert page[i] == order(ArtifactsOf(db, project))[i];
      assert page[i] in db.artifacts;
    }
  }

  /** What one pass leaves, in a project whose passes end. */
  lemma PassLeaves(db: Db, project: string, order: set<NamedKey> -> seq<NamedKey>)
    requires IsRowOrder(order) && AP.PassesEnd(db.artifacts, project)
    ensures var after := db.(artifacts := AP.Pass(db.artifacts, project, order));
            && SameNamed(db.artifacts, after.artifacts, project)
            && AP.Foreign(after.artifacts, project) == AP.Foreign(db.artifacts, project)
            && AP.PassesEnd(after.artifacts, project)
            && |ArtifactsOf(after, project)| <= |ArtifactsOf(db, project)|
            && |AP.Own(after.artifacts, project)| <= |AP.Own(db.artifacts, project)|
            && (AP.MorePages(db.artifacts, project, order) ==>
                  |AP.Own(after.artifacts, project)| < |AP.Own(db.artifacts, project)|)
  {
    hide IsRowOrder, AP.Pass, AP.PageOf, AP.MorePages, AP.PassesEnd, ArtifactsOf, AP.Own, AP.Foreign, AP.Listed,
         AP.OwnNames;
    var after := db.(artifacts := AP.Pass(db.artifacts, project, order));
    AP.PassTakesOwn(db.artifacts, project, order);
    AP.PassMakesProgress(db.artifacts, project, order);
    AP.ListingShows(db, project);
    AP.ListingShows(after, project);
    AP.SubsetMeasure(ArtifactsOf(after, project), ArtifactsOf(db, project));
  }

  /** What one pass reports. */
  lemma PassReports(artifacts: map<NamedKey, ArtifactRow>, project: string, order: set<NamedKey> -> seq<NamedKey>)
    requires IsRowOrder(order)
    ensures var errors := AP.PassErrors(artifacts, project, order);
            && OnlyNotFound(errors)
            && (AP.Foreign(artifacts, project) == {} ==> errors == [])
            && (!AP.MorePages(artifacts, project, order) ==> |errors| == |AP.Foreign(artifacts, project)|)
    ensures !AP.MorePages(artifacts, project, order) ==> AP.Own(AP.Pass(artifacts, project, order), project) == {}
  {
    hide IsRowOrder, AP.DeleteListed, AP.PageOf, AP.MorePages, AP.Own, AP.Foreign, AP.OwnNames;
    AP.DeletedExactly(artifacts, project, AP.PageOf(artifacts, project, order));
    if AP.Foreign(artifacts, project) == {} {
      AP.OwnPassSucceeds(artifacts, project, order);
    }
    if !AP.MorePages(artifacts, project, order) {
      AP.LastPass(artifacts, project, order);
    }
  }

  lemma SameNamedTwice<T>(a: map<NamedKey, T>, b: map<NamedKey, T>, c: map<NamedKey, T>, project: string)
    requires SameNamed(a, b, project) && SameNamed(b, c, project)
    ensures SameNamed(a, c, project)
  {
  }

  lemma RegistriesWithoutPage(db: Db, project: string, gone: set<NamedKey>)
    requires gone <= RegistriesOf(db, project)
    ensures RegistriesOf(db.(registries := db.registries - gone), project) == RegistriesOf(db, project) - gone
    ensures SameNamed(db.registries, db.registries - gone, project)
  {
  }

  lemma NoRegistriesListed(db: Db, project: string)
    requires RegistriesOf(db, project) == {}
    ensures NoRegistries(db, project)
  {
    forall k | k in db.registries
      ensures k.project != project
    {
      assert k !in RegistriesOf(db, project);
    }
  }

  lemma KnownPackages(db: Db)
    requires Reachable(db)
    ensures forall k :: k in db.packages ==> k.name != "" && k.version != ""
  {
    Runs.EveryReachableStateFits(db);
    forall k | k in db.packages
      ensures k.name != "" && k.version != ""
    {
      assert PackageFits(db, k, db.packages[k]);
    }
  }

  lemma PackageIsSevered(db: Db, active: string, key: VersionedKey)
    requires Reachable(db) && key in db.packages && key.project == ActiveProject(active)
    ensures var op := ChangePackage(key.name, key.version, SeveredRequest(key, db.packages[key]));
            && Call(db, active, op).Ok?
            && var db' := After(db, active, op);
               key in db'.packages && IsSevered(db'.packages[key]) &&
               db' == db.(packages := db.packages[key := db'.packages[key]])
  {
    Runs.EveryReachableStateFits(db);
    SeveringSucceeds(db, key);
  }

  lemma PackageGoes(db: Db, active: string, key: VersionedKey)
    requires Reachable(db) && key in db.packages && key.project == ActiveProject(active)
    requires IsSevered(db.packages[key])
    ensures var op := RemovePackage(key.name, key.version);
            Call(db, active, op).Ok? && After(db, active, op) == db.(packages := db.packages - {key})
  {
    Runs.EveryReachableStateFits(db);
    PackageDeletionSucceeds(db, key);
  }

  lemma ApplicationGoes(db: Db, active: string, key: VersionedKey)
    requires Reachable(db) && key in db.applications && key.project == ActiveProject(active)
    requires NoPackages(db, key.project)
    ensures var op := RemoveApplication(key.name, key.version);
            Call(db, active, op).Ok? && After(db, active, op) == db.(applications := db.applications - {key})
  {
    Runs.EveryReachableStateFits(db);
    ApplicationDeletionSucceeds(db, key);
  }

  lemma ArtifactGoesOrIsMissing(db: Db, active: string, name: string)
    requires Reachable(db) && name != "" && NoPackages(db, ActiveProject(active))
    ensures var op, key := RemoveArtifact(name), NamedKey(ActiveProject(active), name);
            Call(db, active, op) ==
            if key in db.artifacts then Ok(db.(artifacts := db.artifacts - {key})) else Err(NotFound)
  {
    hide Reachable, Inv, P.CreatePackage, P.UpdatePackage, A.CreateApplication, A.UpdateApplication,
         A.DeleteApplication;
    Runs.EveryReachableStateFits(db);
    var key := NamedKey(ActiveProject(active), name);
    if key in db.artifacts {
      ArtifactDeletionSucceeds(db, key);
    }
  }

  lemma RegistryGoes(db: Db, active: string, key: NamedKey)
    requires Reachable(db) && key in db.registries && key.project == ActiveProject(active)
    requires NoApplications(db, key.project)
    ensures var op := RemoveRegistry(key.name);
            Call(db, active, op).Ok? && After(db, active, op) == db.(registries := db.registries - {key})
  {
    Runs.EveryReachableStateFits(db);
    RegistryDeletionSucceeds(db, key);
  }

  // ---------- The admin project ----------

  /** Outside the admin project the listing always shows own artifacts only. */
  lemma OtherProjectsListTheirOwn(db: Db, project: string)
    ensures ListsOwnArtifacts(db, project) <==>
            project != ADMIN_PROJECT || forall k :: k in db.artifacts ==> k.project == ADMIN_PROJECT
  {
    if project == ADMIN_PROJECT && ListsOwnArtifacts(db, project) {
      forall k | k in db.artifacts
        ensures k.project == ADMIN_PROJECT
      {
        assert k in ArtifactsOf(db, project);
      }
    }
  }

  /**
   * In the admin project, an artifact of another project is listed, and no run of calls made in the
   * admin project removes it from the listing.
   */
  lemma ForeignArtifactStaysListed(db: Db, calls: seq<(string, Op)>, k: NamedKey)
    requires Inv(db) && k in db.artifacts && k.project != ADMIN_PROJECT
    requires forall i :: 0 <= i < |calls| ==> ActiveProject(calls[i].0) == ADMIN_PROJECT
    ensures k in ArtifactsOf(Run(db, calls), ADMIN_PROJECT)
  {
    RunIsIsolated(db, calls, ADMIN_PROJECT);
  }
}
