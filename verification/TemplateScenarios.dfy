/** Runs in which an accepted application update keeps the old parameter templates of a profile. */
module TemplateScenarios {
  import opened Prelude
  import opened Text
  import opened Tables
  import opened Diff
  import opened Catalog
  import opened Scenarios
  import AI = AppInvariants
  import AO = ApplicationOverwrite
  import P = Packages
  import A = Applications

  const T := Template("t", "", "", "", "old", [], false, false)
  const U := Template("u", "", "", "", "old", [], false, false)
  const STORED := ProfileRow("x", "", "", [T, U])
  const ROW := ApplicationRow("a", "", "normal", "c", "1", REGISTRY, None, map["x" := STORED], Some("x"), [])
  const ADD_TEMPLATES := AddApplication(
    ApplicationRequest(
      "a", "", "", "1", Normal, "c", "1", "r", "", [ProfileRequest("x", "x", "", "", [T, U])], "x", [], [], []))
  const WITH_TEMPLATES := WITH_REGISTRY.(applications := map[APP := ROW])

  /** The update gives the application a description and asks for these templates. */
  function Requesting(ts: seq<Template>): ApplicationRequest {
    ApplicationRequest(
      "a", "a", "new", "1", Normal, "c", "1", "r", "", [ProfileRequest("x", "x", "", "", ts)], "x", [], [], ["x"])
  }

  function Change(ts: seq<Template>): Op { ChangeApplication("a", "1", Requesting(ts)) }

  lemma TemplatesAreValid()
    ensures A.TemplatesFit([T, U])
  {
    assert A.TemplateName(T) != A.TemplateName(U);
  }

  lemma AddsTemplates()
    ensures Call(WITH_REGISTRY, "p", ADD_TEMPLATES) == Ok(WITH_TEMPLATES)
  {
    hide P.CreatePackage, P.UpdatePackage, A.UpdateApplication, A.DeleteApplication;
    hide ValidName, ValidApplicationName, ValidVersion, A.TemplatesFit;
    var p := ProfileRequest("x", "x", "", "", [T, U]);
    TemplatesAreValid();
    assert [p][..0] == [];
    assert A.InjectProfiles(map[], []) == Ok(map[]);
    assert A.InjectProfile(map[], p) == Ok(map["x" := STORED]);
    assert A.InjectProfiles(map[], [p]) == Ok(map["x" := STORED]);
    ShortNames("x");
    ShortNames("a");
    ShortNames("1");
  }

  lemma ProfileComparesAlike(ts: seq<Template>)
    requires A.SameTemplates(ts, [T, U])
    ensures !A.ProfilesChanged(ROW, Requesting(ts))
    ensures NewItems(ROW.profiles, Requesting(ts).profiles, A.ProfileName) == []
  {
    hide A.SameTemplates;
    var wanted := Requesting(ts).profiles;
    assert A.ProfileName(wanted[0]) == "x" && A.SameProfile(wanted[0], STORED);
    assert !Altered(ROW.profiles, wanted, A.ProfileName, A.SameProfile);
    assert Named(wanted, A.ProfileName, "x");
    assert wanted[..0] == [];
  }

  lemma KeepsRow(ts: seq<Template>)
    requires A.SameTemplates(ts, [T, U])
    ensures A.UpdateRow(WITH_TEMPLATES, "p", APP, ROW, Requesting(ts)) == Ok(ROW.(description := "new"))
  {
    hide A.SameTemplates, A.ProfilesChanged, NewItems;
    ProfileComparesAlike(ts);
    assert A.InjectProfiles(ROW.profiles, []) == Ok(ROW.profiles);
  }

  const UPDATED := WITH_TEMPLATES.(applications := map[APP := ROW.(description := "new")])

  lemma KeepsTemplates(ts: seq<Template>)
    requires A.SameTemplates(ts, [T, U])
    ensures Call(WITH_TEMPLATES, "p", Change(ts)) == Ok(UPDATED)
  {
    hide P.CreatePackage, P.UpdatePackage, A.CreateApplication, A.DeleteApplication, A.UpdateRow, A.SameTemplates;
    hide ValidName, ValidApplicationName, ValidVersion, A.CascadeProfiles;
    ShortNames("a");
    ShortNames("1");
    ShortNames("x");
    KeepsRow(ts);
    AI.CascadeOfUnlinked(WITH_TEMPLATES, APP, {});
    assert ROW.profiles.Keys - ROW.(description := "new").profiles.Keys == {};
    assert WITH_TEMPLATES.applications[APP := ROW.(description := "new")] == UPDATED.applications;
  }

  lemma BuildsTemplates()
    ensures Run(EMPTY, [("p", ADD_REGISTRY), ("p", ADD_TEMPLATES)]) == WITH_TEMPLATES
  {
    hide Call;
    HasRegistry();
    AddsTemplates();
    RunStep([("p", ADD_REGISTRY)], WITH_REGISTRY, ADD_TEMPLATES, WITH_TEMPLATES);
    assert [("p", ADD_REGISTRY)] + [("p", ADD_TEMPLATES)] == [("p", ADD_REGISTRY), ("p", ADD_TEMPLATES)];
  }

  /** The update is accepted and stores the description, but not the new validator of template t. */
  lemma ValidatorIsLost()
    ensures Run(EMPTY, [("p", ADD_REGISTRY), ("p", ADD_TEMPLATES)]) == WITH_TEMPLATES
    ensures var ts := [T.(validator := "new"), U];
            && Call(WITH_TEMPLATES, "p", Change(ts)) == Ok(UPDATED)
            && UPDATED.applications[APP].profiles["x"].templates == [T, U] && A.TemplatesFit(ts)
            && !AO.TemplatesAgree([T, U], ts)
  {
    hide Run, Call;
    var ts := [T.(validator := "new"), U];
    BuildsTemplates();
    SameByName(ts);
    KeepsTemplates(ts);
    assert A.TemplateName(ts[0]) != A.TemplateName(ts[1]);
    assert [T, U][0].name == ts[0].name;
  }

  /** A request that repeats template t is accepted, although it is not valid, and template u stays stored. */
  lemma RepeatedTemplateIsAccepted()
    ensures Run(EMPTY, [("p", ADD_REGISTRY), ("p", ADD_TEMPLATES)]) == WITH_TEMPLATES
    ensures Call(WITH_TEMPLATES, "p", Change([T, T])) == Ok(UPDATED)
    ensures UPDATED.applications[APP].profiles["x"].templates == [T, U] && !A.TemplatesFit([T, T])
  {
    hide Run, Call;
    BuildsTemplates();
    SameByName([T, T]);
    KeepsTemplates([T, T]);
    assert A.TemplateName([T, T][0]) == A.TemplateName([T, T][1]);
  }

  lemma SameByName(ts: seq<Template>)
    requires |ts| == 2 && forall i :: 0 <= i < 2 ==>
             A.SameTemplate(ts[i], T) && (ts[i].name == "t" || ts[i].name == "u")
    ensures A.SameTemplates(ts, [T, U])
  {
    assert [T, U][..1] == [T];
    assert LastWith([T, U], A.TemplateName, "u") == Some(U);
    assert LastWith([T, U], A.TemplateName, "t") == LastWith([T], A.TemplateName, "t") == Some(T);
  }
}
