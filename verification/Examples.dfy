/** Concrete inputs for the cases in which an operation does less than its request asks for. */
module Examples {
  import opened Prelude
  import opened Text
  import opened Tables
  import opened Diff
  import opened References
  import P = Packages
  import S = Search

  const APP := VersionedKey("p", "a", "1")
  const PROFILE := ProfileRow("x", "", "", [])

  /** A deployment profile that is updated from one application profile to another keeps both links. */
  lemma UpdatedLinkIsNotReplaced(db: Db)
    requires APP in db.applications && db.applications[APP].profiles == map["x" := PROFILE, "y" := PROFILE]
    ensures var row := DeploymentProfileRow("d", "", [ProfileLink(APP, "x")]);
            var p := DeploymentProfileRequest("d", "d", "", Some([("a", "y")]));
            P.Resolves(db, [APP], p) &&
            P.MergeProfile(db, [APP], row, p).links == [ProfileLink(APP, "x"), ProfileLink(APP, "y")]
  {
    var p := DeploymentProfileRequest("d", "d", "", Some([("a", "y")]));
    SplitWithoutSeparator("a", ':');
    assert FindApplication([APP], "a") == Some(APP);
    assert P.EntriesOf(p) == [("a", "y")];
    assert ResolveEntry(db.applications, [APP], ("a", "y")) == Some(ProfileLink(APP, "y"));
    assert ResolvedLinks(db.applications, [APP], [("a", "y")]) == [ProfileLink(APP, "y")];
    var both := [ProfileLink(APP, "x")] + [ProfileLink(APP, "y")];
    assert NoDup(both);
    DedupOfDistinct(both);
  }

  const FOO := DeploymentProfileRequest("foo", "", "", None)
  const BAR := DeploymentProfileRequest("bar", "foo", "", None)

  /** Whether new profiles are accepted may depend on the order in which a map is ranged over. */
  lemma AcceptanceDependsOnMapOrder(db: Db)
    ensures P.UpdateProfiles(db, [], map[], [FOO, BAR], [FOO, BAR]) == Err(AlreadyExists)
    ensures P.UpdateProfiles(db, [], map[], [FOO, BAR], [BAR, FOO]).Ok?
  {
    hide P.UpdateProfiles, P.InjectProfiles, P.InjectProfile, P.MakeProfile;
    assert |ToLower("")| == 0 && |ToLower("foo")| == 3;
    assert multiset([BAR, FOO]) == multiset([FOO, BAR]);
    UpdatesNone(db, FOO, BAR, [FOO, BAR]);
    UpdatesNone(db, FOO, BAR, [BAR, FOO]);
    Injected(db, FOO, BAR);
    Injected(db, BAR, FOO);
    BarAfterFoo(db);
    FooAfterBar(db);
  }

  lemma BarAfterFoo(db: Db)
    ensures P.InjectProfile(db, [], map["foo" := P.MakeProfile(db, [], FOO)], BAR) == Err(AlreadyExists)
  {
    var shown := map["foo" := P.MakeProfile(db, [], FOO)];
    assert shown["foo"].displayName == "foo";
    assert P.ProfileDisplayTaken(shown, BAR);
  }

  lemma FooAfterBar(db: Db)
    ensures P.InjectProfile(db, [], map["bar" := P.MakeProfile(db, [], BAR)], FOO).Ok?
  {
  }

  lemma UpdatesNone(
    db: Db, p: DeploymentProfileRequest, q: DeploymentProfileRequest, order: seq<DeploymentProfileRequest>)
    requires p.name != q.name && ToLower(p.displayName) != ToLower(q.displayName)
    requires multiset(order) == multiset([p, q])
    ensures P.UpdateProfiles(db, [], map[], [p, q], order) == P.InjectProfiles(db, [], map[], order)
  {
    hide P.InjectProfiles, NewItems;
    NewOnes(p, q);
    assert P.KeptProfiles(db, [], map[], [p, q]) == map[];
  }

  lemma NewOnes(p: DeploymentProfileRequest, q: DeploymentProfileRequest)
    ensures var none: P.ProfileTable := map[];
            NewItems(none, [p, q], P.ProfileName) == [p, q]
  {
    var none: P.ProfileTable := map[];
    assert [p, q][..1] == [p] && [p][..0] == [];
    assert NewItems(none, [p], P.ProfileName) == [p];
  }

  lemma Injected(db: Db, p: DeploymentProfileRequest, q: DeploymentProfileRequest)
    requires p.appProfiles.None? && q.appProfiles.None? && IsTrimmed(p.displayName)
    ensures P.InjectProfiles(db, [], map[], [p, q]) ==
            P.InjectProfile(db, [], map[p.name := P.MakeProfile(db, [], p)], q)
  {
    assert [p, q][..1] == [p] && [p][..0] == [];
    assert P.InjectProfiles(db, [], map[], [p]) == P.InjectProfile(db, [], map[], p);
  }

  /** An underscore in a filter value matches any character, not itself. */
  lemma UnderscoreIsNotLiteral()
    ensures S.Like("a", S.LikeValue("_")) && !S.OccurInOrder(S.Pieces("_"), "a", 0)
  {
    assert S.LikeValue("_") == "%_%";
    assert "%_%"[1..] == "_%" && "_%"[1..] == "%";
    S.LikeAnything("");
    assert "a"[1..] == "";
    assert S.Like("a", "_%");
    SplitWithoutSeparator("_", '*');
    assert ToLower("_") == "_";
    assert S.Pieces("_") == ["_"];
    forall i
      ensures !S.StandsAt("_", "a", i)
    {
      assert i == 0 ==> "a"[i..i + 1] == "a";
    }
    S.OnePieceStands("_", "a", 0);
  }
}
