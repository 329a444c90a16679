# Verified model of the application catalog

The catalog service keeps registries, artifacts, applications with profiles, and deployment
packages with deployment profiles. This project models the service as a transactional state
machine, together with its query parameters, its project wiper, its malware scan framing and its
event fan-out, and proves what holds for every request, every run and every reachable state.

`dafny verify dfyconfig.toml` checks the project.

## Main results

- **The outcome of every call is decided exactly**, by the stored rows and the request alone. When a new
  package or application is accepted (`Acceptance`), when an update is accepted, refused for being
  deployed or for a link, or not found (`PackageUpdates.PackageUpdateOutcome`,
  `ApplicationUpdates.ApplicationUpdateOutcome`), every other error class (`Refusals`), what an accepted
  call leaves stored, column by column (`Storing`), and the outcome of every call about registries and
  artifacts and of every deletion (`Outcomes`) are if-and-only-if or equations over rows and request.
- **Order does not matter to the diff.** A request that equals the stored package up to the order of its
  lists changes kind and state and nothing else, deployed or not, if stored namespaces, extensions and
  artifact references can be told apart by name; if not, a deployed package refuses it
  (`Reordering.ReorderedRequest`).
- **A diffed update equals an overwrite.** A package update computes ten change flags and rewrites
  only what they name. Still the stored package shows the request after an accepted update, whichever
  flags fired, if lists that are not rewritten repeat nothing and rewritten user interfaces are labelled
  (`Promises.AcceptedUpdateOverwrites`); against stored lists without repetition, only then. What else
  is lost has its own exact condition: new profiles in a shortcut update, links of written and of
  unaltered profiles (`KeptLinks.AcceptedUpdateLinks`), templates and validators of application profiles
  (`Promises.AcceptedApplicationUpdate`).
- **Saving what was read.** Updating a package with the message that was read of it changes nothing,
  exactly under a condition on what is stored (`SaveBack.ReadThenUpdateIff`); for an application always
  (`SaveBack.ReadThenUpdateApplication`).
- **Deployed means frozen, over whole runs** (`Runs.FrozenWhileDeployed`). What may still change: the
  kind of the package, new deployment profiles, and of a member its kind, registries, ignored resources
  and new profiles. A stored deployment profile changes exactly when an application that it links to,
  and that is no longer a member, is deleted (`Runs.DeployedProfileChangesIff`); a run of four calls
  leads there (`Scenarios.StaleLinkIsReachable`).
- **Every reachable state is closed.** Members, dependencies, default namespaces, registry types,
  default profiles and artifact display names obey one invariant that all twelve transactions keep
  (`Runs.EveryReachableStateFits`). Other display names need not stay distinct: which calls keep them
  distinct is proved exactly (`DisplayNames`).
- **Wiping a project is complete and touches nothing else** (`Wiper.ProjectWiper.Wipe`): each phase
  establishes what the next one's guards ask for. The admin project lists the artifacts of all projects;
  each foreign one costs an error, and the loop ends for every row order exactly if at most 500 of them
  are listed and, at 500, every own artifact has a namesake among them (`ArtifactPasses.PassesEndIff`).
- **Round trips**: filter and order-by languages, profile references, INSTREAM framing, each with
  its exact domain; and deleting undoes creating. The language of the filter parser is exact, and blanks
  around '=' never matter (`FilterBlanks.ParsedIff`, `FilterBlanks.BlanksDoNotMatter`).
- **Exact fan-out** of events over any interleaving of watchers and overlapping sends.

## How the model is built

- `Tables` holds requests, rows and the tables as maps by natural key. `Packages`, `Applications`
  and `Registries` specify each operation as a function from tables and request to new tables or a
  rejection; `Catalog` makes them steps (`Call`, `After`, `Run`, `Reachable`).
- `PackageSteps` and `ApplicationSteps` contain the loops of the operations as methods, proved equal
  to those functions; `Transactions` adds the checks in front. `Server` is a class with the tables
  and the secret store as fields: a transaction works on a private copy that `Commit` installs.
- `Conditions` and `Comparisons` state what requests ask of stored rows in terms of both alone, and what
  the change flags mean; on them rest `Acceptance`, `PackageUpdates`, `ApplicationUpdates`, `Refusals`,
  `Storing`, `Reordering` and `Outcomes`.
- `Overwrite`, `ProfileLinks`, `KeptLinks`, `MapOrders`, `ApplicationOverwrite`, `Undo`, `ReadBack`,
  `SaveBack`, `DisplayNames` and `Promises` relate what is stored to what was requested. `Invariants`, `AppInvariants`, `Runs` and `Isolation` are about runs.
- `Severing`, `ArtifactPasses` and `Wiper` model the wiper as a client of `Server`. `Pagination`, `Filter`, `FilterBlanks`, `Search`,
  `Ordering` and `Listings` are the query front end, `Instream` the scanner protocol, `Listeners` the events. `Examples`,
  `Scenarios` and `TemplateScenarios` hold concrete inputs and runs for the exceptional cases.
- `Prelude`, `Text`, `Diff` and `References` hold what several of these share.

## Assumptions

- Transactions are serial, as a database with serializable isolation makes them appear.
- Uniqueness and the effects of deletion on other rows follow `internal/ent/generated/migrate/schema.go`:
  (project, name) or (project, name, version) is unique, as are profile names within their owner,
  extensions by name and version, endpoints by service name and ignored resources; owned rows and links are deleted with their
  owner, a deleted profile is cleared as default, registries of applications, members, dependencies and
  artifact references are protected or cleared as declared there.
- Owned rows are read back in the order of their insertion, and a listing shows its rows in an order
  that depends only on which rows there are. Stored profiles of an application are visited in the order
  in which the database returns them, which is any order of their names.
- A Go map that the code ranges over is given by its entries in the order of that iteration. The new
  profiles of an update come from such a map: the order is a parameter of the request (`mapOrder`), and
  every order can be given.
- The listeners' lock lets sends overlap and keeps registration out of them, as `sync.RWMutex` does.
- Requests have passed validation against the patterns of `pkg/schema/catalog-schema.go`; project
  identifiers are arbitrary.

## Model

| member | source | states |
|---|---|---|
| `PackageUpdates.PackageUpdateOutcome` | internal/northbound/deployment-package.go:1066-1201 | in every reachable state, an update of a package is accepted if and only if the package exists, nothing clashes, a package that stays deployed is the same in every part, the default is among the profiles, and what is rewritten can be made; it is refused for being deployed if and only if the package is and stays deployed and a part differs; and not found if and only if no such row is stored |
| `PackageUpdates.UpdatedRowIff` | internal/northbound/deployment-package.go:1066-1201 | the same for one stored row, and what is stored when only kind and state differ |
| `PackageUpdates.ReplacedIff` | internal/northbound/deployment-package.go:1331-1379 | rewriting the profiles succeeds if and only if names and displays differ, the stored ones fit, and the new ones can be created beside them in the order of the map |
| `PackageUpdates.AddedIff` | internal/northbound/deployment-package.go:1158-1201 | adding profiles succeeds if and only if names differ and the new ones can be created beside the stored ones |
| `Comparisons.ChangesIff` | internal/northbound/deployment-package.go:1224-1255 | the comparison rejects exactly a clash of dependencies or default namespaces; otherwise each flag is set exactly if that part of the request differs from the stored one: members by presence under name and version, lists by the last stored item of each name |
| `Comparisons.ComposeIff` | internal/northbound/deployment-profile.go:181-200 | the links read back as the requested map if and only if each link is the entry of its application unless a later link names the same, and there are no other entries |
| `Conditions.UnchangedIff` | internal/northbound/deployment-package.go:1487-1512 | the index comparison finds no change if and only if there are as many items as stored and each is the same as the last stored one of its name |
| `Reordering.ReorderedRequest` | internal/northbound/deployment-package.go:1097-1106 | a request that equals the stored package up to the order of references, dependencies, namespaces, extensions, artifacts, profiles and default namespaces stores kind and state and nothing else if stored items of one name are alike; if not, a package that is and stays deployed refuses it |
| `Reordering.ReorderedDiffersIff` | internal/northbound/deployment-package.go:1264-1287 | for such a request a part counts as changed if and only if stored items of one name are not alike |
| `Acceptance.AddPackageSucceedsIff` | internal/northbound/deployment-package.go:137-222 | a new package is accepted if and only if: entries are clear, a default is named and among the profiles, no package of another name shows the display name, the key is new, references and artifacts exist, dependencies and default namespaces name members, profiles can be created in order, and extensions and endpoints differ |
| `Acceptance.NextVersionIsAccepted` | internal/northbound/deployment-package.go:225-238 | after a package, a further version of it with the same display name and parts is accepted |
| `Acceptance.TakenNameIsRejected` | internal/northbound/deployment-package.go:225-238 | a display name that a package of another name shows is refused as existing |
| `Acceptance.AddApplicationSucceedsIff` | internal/northbound/application.go:121-206 | a new application is accepted if and only if: a default is named and among the profiles, no application of another name shows the display name, the registries exist with their types, the key is new, profiles can be created in order, and ignored resources differ |
| `Acceptance.NextApplicationVersionIsAccepted` | internal/northbound/application.go:209-230 | after an application, a further version of it with the same display name is accepted |
| `Conditions.CreatedIff` | internal/northbound/deployment-package.go:294-314 | creating profiles one after the other succeeds if and only if for each the display name is trimmed and not shown before, the entries denote members that have the profiles, and the name is new |
| `Conditions.CreationErrors` | internal/northbound/deployment-profile.go:20-60 | it fails as existing if and only if the first profile that cannot follow has a trimmed display name that another one shows, and else for an invalid argument |
| `Conditions.AppCreatedIff` | internal/northbound/application.go:232-240 | the same for application profiles, with templates that fit |
| `Conditions.AppCreationErrors` | internal/northbound/application.go:232-240 | their creation fails as existing if and only if the first one that cannot follow has a trimmed display name, and that or its name is taken |
| `Conditions.FindsDenoted` | internal/northbound/deployment-profile.go:150-179 | an entry finds a member if and only if it is the first one whose name the entry is, or whose name and version it is joined with a colon; what follows a second colon is ignored |
| `Conditions.ResolvesIff` | internal/northbound/deployment-profile.go:128-148 | all entries of a profile resolve if and only if each denotes an application that has the named profile |
| `ApplicationUpdates.ApplicationUpdateOutcome` | internal/northbound/application.go:726-841 | in every reachable state and for any row order, an update of an application is accepted, refused as protected, or not found, each if and only if the rows and the request say so: protected is a change of texts, chart, default or stored profiles of a member of a deployed package, and a stored profile with a link that would go before anything else stops the update |
| `ApplicationUpdates.ReconciledIff` | internal/northbound/application.go:1105-1163 | reconciling profiles succeeds, or stops at a link, exactly under the conditions on names, displays, templates and links |
| `ApplicationUpdates.ChangesIff` | internal/northbound/application.go:862-904 | each change flag is set exactly if that part of the request differs from the stored one |
| `ApplicationUpdates.UpdatedRootIsStored` | internal/northbound/application.go:726-841 | an accepted update stores the requested texts, chart and default; an unspecified kind stays as it is |
| `Refusals.AddPackageRefusals` | internal/northbound/deployment-package.go:137-222 | a new package is refused as existing if and only if its display name is taken, or all else fits and that of a profile is; with a database error if and only if only extensions repeat; and otherwise for an invalid argument |
| `Refusals.AddApplicationRefusals` | internal/northbound/application.go:121-206 | the same for a new application, with repeated ignored resources |
| `Refusals.ChangePackageRefusals` | internal/northbound/deployment-package.go:1066-1201 | in every reachable state, an update of a package is refused as existing if and only if it rewrites profiles and names or displays repeat or are taken, and with a database error if and only if only extensions repeat; never for its own display name |
| `Refusals.ChangeApplicationRefusals` | internal/northbound/application.go:726-841 | the same for an application, with repeated ignored resources |
| `Storing.CreatedPackageIsStored` | internal/northbound/deployment-package.go:137-222 | an accepted new package stores every column of every part: members in the order of first mention, dependencies and default namespaces on the last member of each name, user interfaces in full, and links as the entries denote them; nothing else changes |
| `Storing.UpdatedPackageIsStored` | internal/northbound/deployment-package.go:1066-1222 | in every reachable state, an accepted update stores kind and state alone if only those differ; otherwise each part is as the request lists it, or stays if it is the same, and links of rewritten profiles follow the earlier ones |
| `Storing.UpdatedApplicationIsStored` | internal/northbound/application.go:726-841 | the same for an application: the kind alone if only it differs; otherwise texts, chart, registries, default and, where they differ, profiles and ignored resources as requested; no other row of any table changes |
| `Storing.OnlyTheNamedRowChanges` | internal/northbound/deployment-package.go:1015-1064 | an update changes at most the row that the call names, and a request for another row is refused |
| `Storing.DedupIsFirsts` | internal/northbound/deployment-package.go:265-291 | members are kept once each, in the order in which the request first mentions them |
| `Outcomes.AddRegistryOutcome` | internal/northbound/registry.go:167-228 | a new registry is accepted if and only if no other one of the project shows its display name, or the name in its place, and the name is new |
| `Outcomes.ChangeRegistryOutcome` | internal/northbound/registry.go:538-602 | an update of a registry is accepted, refused for its type, refused as existing or not found, each exactly by the rows: its own display name is free, and the type stays while an application uses it |
| `Outcomes.RemoveRegistryOutcome` | internal/northbound/registry.go:657-710 | a registry goes if it exists and no application uses it; nothing else changes |
| `Outcomes.SaveArtifactOutcome` | internal/northbound/artifact.go:78-159 | an artifact is saved if and only if its content fits, no other one shows its display name, and its name is new for a create and known for an update |
| `Outcomes.ShownNameIsAccepted` | internal/northbound/artifact.go:140-159 | so it can always be saved again under the display name that it shows |
| `Outcomes.RemoveArtifactOutcome` | internal/northbound/artifact.go:419-464 | an artifact goes if it exists and no package refers to it; nothing else changes |
| `Outcomes.RemoveApplicationOutcome` | internal/northbound/application.go:1174-1242 | in every reachable state, an application goes if and only if it exists and is no member; links to it go along, and nothing else changes |
| `Outcomes.RemovePackageOutcome` | internal/northbound/deployment-package.go:1648-1704 | a package goes if it exists and is not deployed; nothing else changes |
| `Promises.AcceptedUpdateOverwrites` | internal/northbound/deployment-package.go:1066-1201 | in every reachable state, an accepted package update leaves root fields, kind, state, default profile, application set, dependencies, default namespaces, prescribed namespaces, extensions and artifact references equal to the request if each list that is not rewritten repeats nothing and rewritten user interfaces are labelled; against stored lists without repetition, if and only if; no other row changes |
| `Promises.PlainUpdateOverwrites` | internal/northbound/deployment-package.go:1066-1201 | a request that repeats nothing and labels its user interfaces is stored whatever was there before |
| `Overwrite.UpdateReflectsRequest` | internal/northbound/deployment-package.go:1066-1222 | the same for one stored row, in both directions, whichever change flags fired and also through the kind/state shortcut |
| `Overwrite.UpdateRewrites` | internal/northbound/deployment-package.go:1066-1201 | after an accepted update every part is what was stored or what is made from the request, by its flag, and root and default profile are the requested ones |
| `Overwrite.AppliedDefaultReflects` | internal/northbound/deployment-package.go:1534-1569 | whichever way the profiles are updated, the default profile afterwards is the requested one, or none if none is requested |
| `Overwrite.KeptApplicationsReflect` | internal/northbound/deployment-package.go:1264-1291 | equal length and presence under name and version certify the same application set for requests without repetition, and, against stored references without repetition, only for them |
| `Overwrite.KeptDependenciesReflect` | internal/northbound/deployment-package.go:1387-1431 | the same for dependencies |
| `Overwrite.KeptAppNamespacesReflect` | internal/northbound/deployment-package.go:1442-1476 | unchanged default namespaces equal the requested map |
| `Overwrite.KeptNamespacesReflect` | internal/northbound/deployment-package.go:1487-1512 | unchanged prescribed namespaces equal the request with labels and annotations, and, for stored ones without repetition, exactly if the request repeats nothing |
| `Overwrite.KeptExtensionsReflect` | internal/northbound/deployment-package.go:1572-1608 | the same for API extensions |
| `Overwrite.KeptArtifactsReflect` | internal/northbound/deployment-package.go:1611-1645 | the same for artifact references |
| `Overwrite.MadeExtensionReflects` | internal/northbound/deployment-package.go:430-468 | a stored extension reads back as requested if and only if its user interface, if any, has a label |
| `Overwrite.MadeExtensionsReflect` | internal/northbound/deployment-package.go:430-468 | rewritten extensions show the request if and only if all their user interfaces have labels |
| `Overwrite.RepeatedItemIsNotNoticed` | internal/northbound/deployment-package.go:1487-1512 | a request that repeats one of two stored namespaces is reported unchanged although it differs: the condition on repetition is needed |
| `Overwrite.NamespaceChangeInPlaceIsRejected` | internal/northbound/deployment-package.go:1442-1476 | with as many default namespaces as stored, the comparison accepts exactly the stored ones and rejects every other request |
| `Diff.UnchangedMeansEqual` | internal/northbound/deployment-package.go:1487-1520 | the index-based list comparison certifies equality up to order for distinct requests, by pigeonhole, and exactly for them when the stored items are distinct |
| `Diff.ListChanged` | internal/northbound/deployment-package.go:1487-1512 | the comparison loop reports a change exactly when lengths differ or some requested item has no equal counterpart under its key |
| `Diff.CompareProfiles` | internal/northbound/deployment-package.go:1294-1329 | the profile comparison loop reports a change exactly when a stored profile is altered or missing, and otherwise yields the new items in request order |
| `Diff.ProfileDiffIsExact` | internal/northbound/deployment-package.go:1294-1329 | for distinct names, no change is reported exactly when every stored profile appears unaltered in the request, and the new profiles are exactly the remaining ones |
| `ProfileLinks.ProfilesShowRequest` | internal/northbound/deployment-package.go:1158-1201 | outside the shortcut, every requested deployment profile is stored: one that is written with the requested texts and its links joined to the earlier ones, any other unaltered |
| `ProfileLinks.UpdatedProfilesAreMerged` | internal/northbound/deployment-package.go:1331-1379 | after the profile update loop each requested profile has the requested texts, and its links are the earlier links and the requested ones |
| `ProfileLinks.LinksAreReplacedIff` | internal/northbound/deployment-profile.go:62-91 | for a profile that is written, links are only added: they equal the requested ones if and only if no other link was stored before |
| `ProfileLinks.LinksReflectIff` | internal/northbound/deployment-package.go:1294-1329 | after every accepted update, the entries of a stored requested profile resolve to exactly its links, if and only if: for a profile that is written, no other link was stored before; for one that compares as unaltered, its entries resolve to exactly the links that were stored |
| `KeptLinks.AcceptedUpdateLinks` | internal/northbound/deployment-package.go:1066-1201 | the same for every accepted call in every reachable state; and an unaltered profile of a package whose profiles link to members only, to each once, always has the requested links |
| `KeptLinks.MemberLinksAreReflected` | internal/northbound/deployment-package.go:1294-1329 | an unaltered profile that links to members only, to each at most once, has exactly the requested links, also when application names repeat |
| `KeptLinks.UnresolvedEntryIsAccepted` | internal/northbound/deployment-package.go:1294-1329 | a run and an accepted update with an entry that resolves to nothing, which keeps a link to a non-member |
| `ProfileLinks.ProfilesAreStoredIff` | internal/northbound/deployment-package.go:1097-1106 | requested deployment profiles are all stored, unless the update takes the shortcut and brings new profiles: exactly then the new ones are lost |
| `ProfileLinks.AcceptedOrdersAgree` | internal/northbound/deployment-package.go:1373-1378 | whichever order the map of new profiles is ranged over, two accepted updates store the same table |
| `MapOrders.AcceptanceIsOrderFreeIff` | internal/northbound/deployment-package.go:1373-1378 | if some order of the map of new profiles is accepted, then every order is, if and only if no new profile has the name of another for a display name while that one has none |
| `MapOrders.CreationSucceedsIff` | internal/northbound/deployment-package.go:294-314 | creating profiles in an order succeeds exactly if each fits what is stored and none has the display name that an earlier one shows |
| `Promises.UpdatesNeverFindNameTaken` | internal/northbound/deployment-package.go:1107-1112 | updates look for a taken display name in the project without a name, where nothing is stored: no update is rejected for its display name |
| `Promises.AcceptedApplicationUpdate` | internal/northbound/application.go:675-724 | in every reachable state, an accepted application update shows the request in its root record; stored profiles show their requested texts, and their requested templates exactly if they are made from the request or it repeats no template name and agrees in validators; new profiles, registries and ignored resources are stored up to the exact exceptions below; no other row of any table changes |
| `AppInvariants.ReconciliationReplaces` | internal/northbound/application.go:1105-1163 | reconciling profiles one by one equals replacing them: the table afterwards is the requested one, and no profile with a link from a deployment profile is gone |
| `AppInvariants.AcceptedOrdersAgree` | internal/northbound/application.go:1157-1162 | whichever orders stored and new profiles are visited in, two accepted reconciliations store the same table |
| `MapOrders.AppAcceptanceIsOrderFreeIff` | internal/northbound/application.go:1157-1162 | the same for the profiles of applications, whatever the order of the stored rows |
| `AppInvariants.UpdateApplicationKeepsPackages` | internal/northbound/application.go:726-841 | no application update changes a link of any deployment profile or any other package data |
| `ApplicationOverwrite.RootIsOverwritten` | internal/northbound/application.go:726-841 | after every accepted update, also through the shortcut, the texts, chart, kind and default profile show the request |
| `ApplicationOverwrite.ProfilesAreOverwritten` | internal/northbound/application.go:939-982 | every stored profile that the request names shows the requested texts; its templates are the requested ones, up to order, exactly if the profile is made from the request or they were stored before |
| `ApplicationOverwrite.TemplatesAreStoredIff` | internal/northbound/application.go:1064-1102 | for stored templates with distinct names: they show the request apart from validators exactly if the profile is made from it or it repeats no template name, and with validators exactly if, besides, those agree by name |
| `ApplicationOverwrite.AlikeTemplatesIff` | internal/northbound/application.go:1064-1102 | templates that compare alike are the requested ones, up to order, exactly if the request repeats no name and validators agree by name |
| `ApplicationOverwrite.ProfilesAreStoredIff` | internal/northbound/application.go:761-769 | requested profiles are all stored, unless the kind-only shortcut is taken and the request brings new ones: exactly then those are lost |
| `ApplicationOverwrite.RegistriesAreStoredIff` | internal/northbound/application.go:931-937 | the requested registries are stored unless the shortcut is taken with other registries in the request |
| `ApplicationOverwrite.IgnoredAreStoredIff` | internal/northbound/application.go:1035-1062 | exactly when the requested ignored resources are stored: an empty list asks for no change, the shortcut stores none, and an unchanged comparison is right for lists without repetition |
| `ApplicationOverwrite.ValidatorIsNotCompared` | internal/northbound/application.go:1064-1102 | if the profiles compare as unchanged, other validators in a requested profile make no difference: the update has the same outcome |
| `TemplateScenarios.ValidatorIsLost` | internal/northbound/application.go:1085-1090 | a run from the empty catalog and an accepted update that keeps the old validator |
| `TemplateScenarios.RepeatedTemplateIsAccepted` | internal/northbound/application.go:1064-1102 | an accepted update with a repeated template, which is not valid and is not stored |
| `SaveBack.ReadThenUpdateIff` | internal/northbound/deployment-package.go:940-990 | in every reachable state, updating a package with the message that was read of it is accepted and changes nothing, if and only if no implicit profile is shown; if it is deployed, namespaces have labels and annotations, extensions endpoints and profiles links, and nothing repeats; unlabelled user interfaces are empty unless extensions compare alike; and profiles that do not compare alike resolve to their stored links and show distinct display names |
| `SaveBack.FlagsOfStored` | internal/northbound/deployment-package.go:1224-1255 | which parts compare as changed with the message that was read of them, decided on what is stored |
| `SaveBack.DeployedSavesBackIff` | internal/northbound/deployment-package.go:1097-1106 | a deployed package with stored profiles saves back if every part compares alike, and is refused with FailedPrecondition otherwise |
| `SaveBack.ReadThenUpdateApplication` | internal/northbound/application.go:555-605 | in every reachable state, updating an application with the message that was read of it is accepted and changes nothing |
| `ReadBack.ReadThenUpdateByFlags` | internal/northbound/deployment-package.go:1066-1201 | the condition for packages in terms of the flags of the comparison |
| `ReadBack.OrdinaryPackageSavesBack` | internal/northbound/deployment-package.go:620-694 | it does for a package that is not deployed, with labelled user interfaces, distinct profile display names and one link to a member per application and profile |
| `ReadBack.RepeatedNamesCompareAsChanged` | internal/northbound/deployment-package.go:1294-1329 | with a repeated application name, a profile with links always compares as changed, because the comparison uses bare names |
| `SaveBack.DeployedWithRepeatedNamesIsRejected` | internal/northbound/deployment-package.go:1097-1106 | so a deployed package with a repeated application name and a profile is refused with FailedPrecondition |
| `ReadBack.ProfilesSaveBackIff` | internal/northbound/deployment-package.go:1331-1379 | updating the profiles with what was read of them leaves the table exactly if the read entries resolve to stored links and display names differ |
| `ReadBack.ImplicitIsStored` | internal/northbound/deployment-profile.go:202-230 | saving a package that was shown with the implicit default profile never leaves it as it was |
| `DisplayNames.RegistryNamesStayDistinctIff` | internal/northbound/registry.go:538-602 | an accepted call keeps the display names of registries distinct, except exactly an update without a display name while another registry shows the name |
| `DisplayNames.ApplicationNamesStayDistinctIff` | internal/northbound/application.go:209-229 | an accepted call keeps the display names of applications distinct, except exactly one that stores an application under a display name that one of another name shows |
| `DisplayNames.PackageNamesStayDistinctIff` | internal/northbound/deployment-package.go:225-238 | the same for deployment packages |
| `DisplayNames.CreationWithDisplayNameIsDistinct` | internal/northbound/application.go:209-229 | a creation with a display name of its own is refused if another name shows it |
| `Scenarios.RegistriesShowOneName` | internal/northbound/registry.go:538-602 | three calls after which two registries show one display name |
| `Scenarios.ApplicationsShowOneName` | internal/northbound/application.go:121-206 | three calls after which two applications show one display name |
| `Scenarios.PackagesShowOneName` | internal/northbound/deployment-package.go:137-222 | two calls after which two packages show one display name |
| `Undo.CreatedPackageReflects` | internal/northbound/deployment-package.go:137-222 | an accepted new package shows the request in every part |
| `Undo.CreatedProfilesShow` | internal/northbound/deployment-package.go:294-314 | each deployment profile of a new package has the requested texts and exactly the requested links |
| `Undo.CreatedApplicationShows` | internal/northbound/application.go:121-206 | an accepted new application shows the request: texts, chart, registries of the project, profiles, default |
| `Undo.SavedRegistryShows` | internal/northbound/registry.go:538-602 | an accepted create or update of a registry stores the request, and only that |
| `Undo.SavedArtifactShows` | internal/northbound/artifact.go:379-416 | an accepted create or update of an artifact stores the request, and only that |
| `Undo.DeleteUndoesCreateRegistry` | internal/northbound/registry.go:636-710 | deleting a registry that was just created is accepted and gives back the state before |
| `Undo.DeleteUndoesCreateArtifact` | internal/northbound/artifact.go:419-464 | the same for an artifact |
| `Undo.DeleteUndoesCreateApplication` | internal/northbound/application.go:1174-1242 | the same for an application: no member, dependency, namespace or link can refer to it yet |
| `Undo.DeleteUndoesCreatePackage` | internal/northbound/deployment-package.go:1648-1704 | the same for a package, exactly if it was not created as deployed |
| `Runs.EveryReachableStateFits` | internal/northbound/deployment-package.go:137-222 | the invariant holds in every state that any sequence of calls reaches from the empty catalog |
| `Runs.TransactKeepsInv` | internal/northbound/application.go:726-841 | each of the twelve transactions keeps the invariant |
| `Runs.MembershipIsClosed` | internal/northbound/deployment-package.go:265-393 | in every reachable state a package's applications exist in its project, both ends of a dependency and the owner of a default namespace are members, and nothing depends on itself |
| `AppInvariants.OnlyMembersAreReferenced` | internal/northbound/application.go:1194-1234 | whatever a dependency or default namespace refers to is a member, so the membership guard alone keeps deletions from violating a foreign key |
| `Runs.RegistriesHaveTheirType` | internal/northbound/registry.go:604-633 | in every reachable state the helm registry exists in the project with type HELM, the image registry, if any, with type IMAGE |
| `Runs.DefaultsAreOwn` | internal/northbound/application.go:243-265 | in every reachable state a default profile is set exactly when there are profiles, and is one of the owner's own, for applications and packages |
| `Runs.ArtifactNamesAreDistinct` | internal/northbound/artifact.go:140-159 | in every reachable state artifact display names are pairwise distinct within a project, ignoring case |
| `Invariants.DeleteRegistryKeepsInv` | internal/northbound/registry.go:657-673 | a registry that may be deleted is used by no application, and the invariant survives |
| `Invariants.UpdateRegistryKeepsInv` | internal/northbound/registry.go:604-633 | a registry that may change its type is used by no application in the other one, and the invariant survives |
| `Invariants.AppliedProfilesFit` | internal/northbound/deployment-package.go:1165-1183 | after the profile part of an update the stored names are the requested ones, links lead to existing profiles, and the default is one of them |
| `Invariants.UpdatePackageKeepsInv` | internal/northbound/deployment-package.go:1137-1156 | a package update keeps the invariant: rewritten dependencies and namespaces stay among the new members |
| `AppInvariants.UpdateApplicationKeepsInv` | internal/northbound/application.go:726-841 | an application update keeps the invariant |
| `AppInvariants.DeleteApplicationKeepsInv` | internal/northbound/application.go:1174-1242 | deleting an application cascades to links and keeps the invariant |
| `Isolation.CallIsIsolated` | internal/northbound/service.go:64-81 | a call made in one project changes no row of another |
| `Isolation.RunIsIsolated` | internal/northbound/service.go:64-81 | nor does any sequence of calls made in that project |
| `Text.ValidNamesArePlain` | pkg/schema/catalog-schema.go:181-196 | names and versions that the patterns admit contain none of '@', ':', '/' and '_' |
| `Text.ValidTextsIff` | pkg/schema/catalog-schema.go:181-196 | valid names, application names and versions are exactly the texts of their patterns |
| `Acceptance.PackageIsValidIff` | pkg/schema/catalog-schema.go:181-196 | a package request is valid exactly if every name and version in it matches its pattern, extensions and artifacts are at most 100, and maps have one entry for each key |
| `Acceptance.ApplicationIsValidIff` | pkg/schema/catalog-schema.go:181-196 | the same for an application request, whose ignored resources have a name and a kind without '/' |
| `Text.TrimmedIff` | internal/northbound/service.go:412-421 | a display name passes exactly if trimming white space leaves it as it is |
| `Runs.FrozenWhileDeployed` | internal/northbound/deployment-package.go:1097-1106 | if a package is deployed in every state of a run, then from its start to its end the package keeps everything but its kind, apart from added deployment profiles and links to non-members, its members keep texts, chart, default and stored profiles, and all of them still exist |
| `Runs.StepFreezes` | internal/northbound/application.go:761-769 | one call, whatever it is, freezes a deployed package and its members unless it takes the package out of deployment |
| `Runs.UpdateOfDeployed` | internal/northbound/deployment-package.go:1091-1106 | an update that keeps a package deployed changes at most its kind and adds profiles |
| `Runs.UpdateOfMember` | internal/northbound/application.go:908-929 | an update of a member of a deployed package keeps its texts, chart, default and stored profiles |
| `Runs.DeployedIsNeverDeleted` | internal/northbound/deployment-package.go:1668-1677 | no call deletes a deployed package or one of its members |
| `Runs.FrozenLinksAreEqual` | internal/northbound/deployment-profile.go:62-91 | a stored deployment profile that links to members only is frozen to the last link |
| `Runs.StaleLinkIsLostIff` | internal/ent/generated/migrate/schema.go:604-628 | a link to an application that is no longer a member is not frozen: deleting that application changes the deployed package's profile if and only if the profile links to it |
| `Runs.DeployedProfileChangesIff` | internal/northbound/deployment-package.go:1097-1106 | over every call: a stored deployment profile of a package that stays deployed changes if and only if the call is an accepted deletion of an application that it links to, which is then no member |
| `Scenarios.StaleLinkIsReachable` | internal/northbound/deployment-profile.go:80-85 | four calls after which a deployed package has a link to an application that is no longer a member, and a fifth that takes the link away |
| `Promises.CreatedProfilesReadBack` | internal/northbound/deployment-package.go:620-631 | in every reachable state: if the entries of a deployment profile of an accepted new package resolve to distinct applications, the map read back, with bare names unless some name repeats, resolves to the same assignment |
| `References.ReferenceRoundTrip` | internal/northbound/deployment-profile.go:128-200 | the same for any package members with plain names |
| `References.PrintedResolves` | internal/northbound/deployment-profile.go:150-178 | a printed member resolves to itself: name:version always, a bare name when no name repeats |
| `References.BareNamesNeedDistinctNames` | internal/northbound/deployment-package.go:129-135 | bare names resolve to the members they are printed for if and only if no name repeats |
| `References.FindApplicationInPackage` | internal/northbound/deployment-profile.go:150-178 | the search loop finds the first member with the name and, if given, the version |
| `References.ValidateAllProfiles` | internal/northbound/deployment-profile.go:128-148 | the loop accepts exactly when every entry resolves, and yields the links |
| `References.ComposeAppProfileMap` | internal/northbound/deployment-profile.go:181-200 | the loop builds the map in which a later link wins |
| `References.HasDuplicateAppNames` | internal/northbound/deployment-package.go:129-135 | comparing the number of names with the number of references detects exactly a repeated name |
| `PackageSteps.ValidateDeploymentProfiles` | internal/northbound/deployment-package.go:96-127 | the nested loops accept exactly: no profiles, one application, all keys qualified, or no repeated name |
| `PackageSteps.CreateApplicationReferences` | internal/northbound/deployment-package.go:265-291 | stores each existing application once, or rejects the first unknown one |
| `PackageSteps.CreateApplicationDependencies` | internal/northbound/deployment-package.go:317-361 | resolves both ends through the index by name and rejects non-members and self-dependencies |
| `PackageSteps.CreateApplicationNamespaces` | internal/northbound/deployment-package.go:364-393 | one row per entry, owned by the member of that name |
| `PackageSteps.CreateArtifactReferences` | internal/northbound/deployment-package.go:470-497 | one row per reference to an existing artifact of the project |
| `PackageSteps.CreateExtensions` | internal/northbound/deployment-package.go:430-468 | one row per extension; the unique indexes on name and version and on endpoint service names reject a repetition |
| `PackageSteps.InjectDeploymentProfile` | internal/northbound/deployment-profile.go:20-60 | adds one profile with resolved links, or rejects it |
| `PackageSteps.CreateDeploymentProfiles` | internal/northbound/deployment-package.go:294-314 | adds all requested profiles in order |
| `PackageSteps.UpdateDeploymentProfiles` | internal/northbound/deployment-package.go:1331-1379 | the loops over stored profiles and over the map of new ones, in any order, equal the reconciliation function for that order |
| `PackageSteps.ApplicationReferencesChanged` | internal/northbound/deployment-package.go:1264-1287 | comparing through name@version keys decides exactly the change, because the keys are injective on valid names; that is presence in any order, as Comparisons.ChangesIff states over the rows |
| `PackageSteps.ApplicationDependenciesChanged` | internal/northbound/deployment-package.go:1387-1431 | comparing through name/target keys decides exactly the change or the rejection |
| `PackageSteps.ApplicationNamespacesChanged` | internal/northbound/deployment-package.go:1442-1476 | the loop equals the scan over the entries in their order |
| `PackageSteps.ComputePackageChanges` | internal/northbound/deployment-package.go:1224-1255 | computes all flags, or the rejection |
| `PackageSteps.CreateDeploymentPackage` | internal/northbound/deployment-package.go:137-222 | the steps of a creation yield the specified tables or rejection, which Acceptance.AddPackageSucceedsIff, Refusals.AddPackageRefusals and Storing.CreatedPackageIsStored decide over rows and request |
| `PackageSteps.UpdateDeploymentPackage` | internal/northbound/deployment-package.go:1066-1201 | the flagged rewrites yield the specified row or rejection, which PackageUpdates.PackageUpdateOutcome, Refusals.ChangePackageRefusals and Storing.UpdatedPackageIsStored decide over row and request |
| `ApplicationSteps.ValidateParameterTemplates` | internal/northbound/profile.go:22-48 | accepts exactly distinct template names, trimmed display names, and no default on mandatory or secret templates |
| `ApplicationSteps.CreateProfiles` | internal/northbound/application.go:232-240 | adds all requested profiles in order |
| `ApplicationSteps.ReconcileProfiles` | internal/northbound/application.go:1105-1163 | the loops over the stored rows and over the map of new profiles, in any orders, equal the reconciliation function for those orders, including the code of a rejection |
| `ApplicationSteps.KeepRequestedProfiles` | internal/northbound/application.go:1134-1155 | visits the stored rows in the given order and stops at the first obstacle, or keeps exactly the requested ones |
| `ApplicationSteps.CreateIgnoredResources` | internal/northbound/application.go:268-281 | stores the resources; the unique index rejects a repetition |
| `ApplicationSteps.IgnoredResourcesChanged` | internal/northbound/application.go:1035-1062 | comparing through joined keys decides exactly the change, because the keys are injective on valid resources |
| `ApplicationSteps.ComputeApplicationChanges` | internal/northbound/application.go:862-904 | computes all flags |
| `ApplicationSteps.CreateOneApplication` | internal/northbound/application.go:121-206 | the steps of a creation yield the specified tables or rejection |
| `ApplicationSteps.UpdateOneApplication` | internal/northbound/application.go:726-841 | the steps of an update yield the specified tables or rejection, which ApplicationUpdates.ApplicationUpdateOutcome, Refusals.ChangeApplicationRefusals and Storing.UpdatedApplicationIsStored decide over rows and request |
| `Transactions.UpdateDeploymentPackage` | internal/northbound/deployment-package.go:1015-1064 | the checks before the transaction, and the transaction, equal one step of the state machine |
| `Transactions.UpdateApplication` | internal/northbound/application.go:675-724 | the same for an application |
| `Server.Server.CreateRegistry` | internal/northbound/registry.go:111-228 | commits the step of the state machine and writes the secret, or changes nothing; the server stays valid |
| `Server.Server.UpdateRegistry` | internal/northbound/registry.go:493-602 | the same, overwriting the secret |
| `Server.Server.DeleteRegistry` | internal/northbound/registry.go:636-710 | the same, deleting the secret |
| `Server.Server.CreateArtifact` | internal/northbound/artifact.go:27-137 | commits the step of the state machine, or changes nothing |
| `Server.Server.UpdateArtifact` | internal/northbound/artifact.go:334-416 | the same |
| `Server.Server.DeleteArtifact` | internal/northbound/artifact.go:419-464 | the same |
| `Server.Server.CreateApplication` | internal/northbound/application.go:63-206 | the same |
| `Server.Server.UpdateApplication` | internal/northbound/application.go:675-841 | the same, for the order in which the database returns the stored profiles |
| `Server.Server.DeleteApplication` | internal/northbound/application.go:1174-1242 | the same |
| `Server.Server.CreateDeploymentPackage` | internal/northbound/deployment-package.go:31-222 | the same |
| `Server.Server.UpdateDeploymentPackage` | internal/northbound/deployment-package.go:1015-1201 | the same |
| `Server.Server.DeleteDeploymentPackage` | internal/northbound/deployment-package.go:1648-1704 | the same |
| `Server.Server.ListDeploymentPackages` | internal/northbound/deployment-package.go:500-618 | returns the requested page of exactly the packages of the project that pass filter and kinds, and their number, or rejects parameters that do not parse or name no column |
| `Listings.ReadParameters` | internal/northbound/deployment-package.go:520-575 | reads ordering and filter, or rejects them |
| `Listings.ListedIff` | internal/northbound/deployment-package.go:556-595 | a package is listed if and only if it is in the project, has one of the kinds and shows one of the alternatives of the filter, for filter values without pattern characters |
| `Listings.ListedByFieldsIff` | internal/northbound/deployment-package.go:546-595 | the same by the fields of the row: the attributes name, displayName, description and version search the name, display name, description and version |
| `Listings.ReadableIff` | internal/northbound/deployment-package.go:546-575 | parameters are read if and only if they parse and name only the six attributes that have columns |
| `Listings.KindSelectedIff` | internal/northbound/service.go:359-373 | a kind is selected exactly if none is asked for or it is among those asked for, where unspecified means normal |
| `Server.SecretPathIsUnique` | internal/northbound/registry.go:106-108 | secret paths of different registries differ, for names without '_' |
| `Server.WriteSecretAgrees` | internal/northbound/registry.go:212-224 | writing a secret keeps the string-keyed store equal to the map by project and registry name |
| `Server.DeleteSecretAgrees` | internal/northbound/registry.go:688-702 | so does deleting one |
| `Wiper.ProjectWiper.Wipe` | pkg/wiper/grpc.go:39-50 | terminates, leaves nothing of the project, changes nothing of any other project, and reports errors, all of them NotFound, exactly if the listing shows artifacts of other projects |
| `Wiper.ProjectWiper.PreparePackagesForDeletion` | pkg/wiper/grpc.go:53-75 | the sweep by offset severs every package of the project and changes nothing else |
| `Wiper.ProjectWiper.PreparePackageForDeletion` | pkg/wiper/grpc.go:77-100 | a package that exists is severed, deployed or not; a missing one is an error |
| `Wiper.ProjectWiper.WipePackages` | pkg/wiper/grpc.go:102-123 | deletes every package of the project, page by page |
| `Wiper.ProjectWiper.WipeApplications` | pkg/wiper/grpc.go:125-146 | the same for applications, once no packages are left |
| `Wiper.ProjectWiper.WipeArtifacts` | pkg/wiper/grpc.go:148-168 | deletes every own artifact, page by page; there are errors, all of them NotFound, exactly if foreign artifacts are listed |
| `Wiper.ProjectWiper.WipeNextArtifacts` | pkg/wiper/grpc.go:152-165 | one pass of the loop, for any listing: what it deletes, what it reports, and whether it asks for another |
| `ArtifactPasses.PassesEndIff` | pkg/wiper/grpc.go:148-168 | the passes end, whatever order the database lists rows in, if and only if fewer than 500 foreign artifacts are listed, or 500 and every own artifact shares its name with one of them |
| `ArtifactPasses.TooManyForeign` | pkg/wiper/grpc.go:148-168 | with more than 500 foreign artifacts, every pass asks for another, in any row order |
| `ArtifactPasses.LonelyStays` | pkg/wiper/grpc.go:148-168 | with 500 foreign artifacts and an own one without a namesake, there is a row order in which every pass asks for another |
| `ArtifactPasses.PassMakesProgress` | pkg/wiper/grpc.go:148-168 | otherwise each pass that asks for another has deleted an own artifact |
| `ArtifactPasses.LastPass` | pkg/wiper/grpc.go:148-168 | the last pass leaves no own artifact and reports one error per foreign one |
| `Scenarios.ForeignArtifactCostsAnError` | pkg/wiper/grpc.go:148-168 | one foreign artifact: one pass, one error, nothing deleted |
| `Wiper.ProjectWiper.WipeRegistries` | pkg/wiper/grpc.go:170-190 | the same for registries, once no applications are left |
| `Severing.SeveringSucceeds` | pkg/wiper/grpc.go:77-100 | the update that severs a package is accepted in every state with the invariant, and changes only that row |
| `Severing.PackageDeletionSucceeds` | internal/northbound/deployment-package.go:1668-1704 | a severed package can be deleted |
| `Severing.ApplicationDeletionSucceeds` | internal/northbound/application.go:1196-1216 | without packages in the project, no guard stops the deletion of an application |
| `Severing.ArtifactDeletionSucceeds` | internal/northbound/artifact.go:419-464 | without packages in the project, no artifact is referred to |
| `Severing.RegistryDeletionSucceeds` | internal/northbound/registry.go:657-673 | without applications in the project, no registry is in use |
| `Wiper.OtherProjectsListTheirOwn` | internal/northbound/artifact.go:245-249 | the artifact listing shows own artifacts only, if and only if the project is not the admin project or no other project has artifacts |
| `Wiper.ForeignArtifactStaysListed` | internal/northbound/artifact.go:245-249 | in the admin project an artifact of another project stays listed through any calls made there |
| `Pagination.RangeIsInBounds` | internal/northbound/service.go:378-409 | every accepted page is an in-bounds contiguous slice, even when offset plus page size wraps around in 32 bits |
| `Pagination.ListPage` | internal/northbound/deployment-package.go:596-617 | the listing loop returns exactly that slice and the total, or rejects the parameters |
| `Pagination.PageIs` | internal/northbound/service.go:378-409 | an accepted page holds the rows from the offset on, as many as asked for, or 20; all that are left if those are fewer or the offset is past the middle |
| `Pagination.Sweep` | pkg/wiper/grpc.go:53-75 | stepping the offset by the returned length visits every row of a stable listing once and in order, within max(1, ceil(total/500)) calls |
| `Pagination.PageExceedsSizeIff` | internal/northbound/service.go:401-406 | a page exceeds the requested size if and only if the offset is past the middle and more than a page is left |
| `Pagination.LargePageExample` | internal/northbound/service.go:401-406 | offset 1000 of 1700 rows at page size 500 yields 700 rows |
| `Filter.ParseFilter` | internal/northbound/service.go:289-338 | the parser loop equals the state machine over the elements, whose language FilterBlanks.ParsedIff states exactly |
| `Filter.PrintedParsesBack` | internal/northbound/service.go:289-338 | printing filters as name=value joined by OR and parsing gives the same list if and only if every filter is well-formed |
| `Filter.ParsedAreWellFormed` | internal/northbound/service.go:289-338 | every successful parse yields well-formed filters |
| `Filter.ParsePrintParse` | internal/northbound/service.go:289-338 | parsing, printing and parsing again equals parsing |
| `Filter.NormalizedIsTight` | internal/northbound/service.go:293-294 | after normalisation no blank stands next to '=' |
| `Filter.TightIsNormalized` | internal/northbound/service.go:293-294 | normalisation leaves such a text alone |
| `FilterBlanks.NormalizedIsRemaining` | internal/northbound/service.go:293-294 | normalisation removes exactly the blanks that stand in a run next to an '=', and keeps all else in order |
| `FilterBlanks.ParsedIff` | internal/northbound/service.go:289-338 | a parameter parses to the given filters if and only if they are well-formed and the parameter without those blanks is what they print as |
| `FilterBlanks.BlanksDoNotMatter` | internal/northbound/service.go:293-294 | blanks put before or after any '=' do not change what a parameter parses to |
| `FilterBlanks.PrintedWithGapsParsesBack` | internal/northbound/service.go:289-338 | printing filters with any blanks around each '=' and parsing gives them back if and only if they are well-formed |
| `Search.FilterPredicates` | internal/northbound/service.go:340-357 | builds one LIKE condition per filter, or rejects an attribute without a column |
| `Search.FilterMeaning` | internal/northbound/service.go:348-351 | for a value without '%', '_' and backslash, a column matches the built pattern if and only if the pieces of the value, split at '*', occur in it in order, without overlap and ignoring case |
| `Search.MeansItsPiecesIff` | internal/northbound/service.go:348-351 | that holds for all columns if and only if the value has none of these three characters |
| `Search.RowPassesIff` | internal/northbound/application.go:376-384 | a row passes the predicates if and only if there is no filter or it shows one of them |
| `Ordering.ParseOrderBy` | internal/northbound/service.go:227-258 | the parser loop equals the function over the elements |
| `Ordering.PrintedParsesBack` | internal/northbound/service.go:227-258 | printing and parsing an ordering gives it back if and only if it is well-formed and not the single blank one |
| `Ordering.ParsePrintParse` | internal/northbound/service.go:227-258 | parsing, printing and parsing again equals parsing, except exactly for a parameter made of spaces alone |
| `Ordering.ElementIff` | internal/northbound/service.go:232-255 | exactly what an element means: between spaces, the name alone or with "asc" is ascending, with "desc" descending |
| `Ordering.DirectionsAreRead` | internal/northbound/service.go:240-249 | "name" and "name asc" are the same ascending order, "name desc" the descending one |
| `Ordering.ElementsIff` | internal/northbound/service.go:231-257 | a parameter is accepted if and only if each of its elements is, and gives them in order |
| `Examples.UpdatedLinkIsNotReplaced` | internal/northbound/deployment-profile.go:80-85 | a deployment profile updated from one application profile to another keeps both links |
| `Examples.AcceptanceDependsOnMapOrder` | internal/northbound/deployment-package.go:1373-1378 | two new profiles that are accepted in one order of the map and rejected in the other: the condition for freedom from the order is needed |
| `Scenarios.KindUpdateLosesProfile` | internal/northbound/application.go:763-764 | a run from the empty catalog after which a change of kind that also brings a profile stores the kind and loses the profile |
| `Scenarios.StateUpdateLosesProfile` | internal/northbound/deployment-package.go:1099-1100 | a run after which a change of state that also brings a deployment profile stores the state and loses the profile |
| `Examples.UnderscoreIsNotLiteral` | internal/northbound/service.go:348-351 | an underscore in a filter value matches any character: the condition on the value is needed |
| `Instream.RoundTrip` | pkg/malware/malware.go:100-137 | reading the emitted session gives back exactly the contents, whatever follows |
| `Instream.CutOffIsIncomplete` | pkg/malware/malware.go:100-137 | no proper prefix of a session is read as complete |
| `Instream.PiecesPartition` | pkg/malware/malware.go:114-130 | data chunks have length 1 to 1024, all but the last are full, their number is ceil(n/1024), and together they are the contents |
| `Instream.HeaderBytes` | pkg/malware/malware.go:40-55 | a piece is preceded by its length in four bytes, the most significant first |
| `Instream.ShortSessionBytes` | pkg/malware/malware.go:100-137 | the bytes of a session whose contents fit one piece |
| `Instream.Scanner.SendChunk` | pkg/malware/malware.go:40-55 | writes length and data, up to the point where the connection breaks |
| `Instream.Scanner.SendContents` | pkg/malware/malware.go:114-137 | the chunk loop writes exactly the stream, up to that point |
| `Instream.Scanner.ScanBytes` | pkg/malware/malware.go:76-153 | the scanner has read exactly the contents, or no complete stream and the attempt fails; the connection is given up in any case |
| `Listeners.ExactFanOut` | internal/northbound/listeners.go:87-97 | over any interleaving that the lock admits, with sends overlapping: a send that has ended reached exactly the channels whose last registration before it named no project or the project of the event, and no kinds or its kind; one in progress no others, and no channel twice |
| `Listeners.EndedSendReachesExactly` | internal/northbound/listeners.go:87-97 | a send whose begin and end are in the run has reached exactly the channels that asked for its event |
| `Listeners.QueueOrderIsKept` | internal/northbound/events.go:60-83 | a send that ends before another begins is received before it by every channel that receives both; a queue is sent event by event |
| `Listeners.ReceivedWasSent` | internal/northbound/listeners.go:87-97 | everything a channel has received was sent |
| `Listeners.ReceivedWasWanted` | internal/northbound/listeners.go:87-97 | everything a channel has received is of the project that its last registration named, if any, and of a kind that it listed, if any |
| `Listeners.RunIsConsistent` | internal/northbound/listeners.go:87-97 | while a send is in progress the listeners do not change, and each log holds exactly what was delivered, each once |
| `Listeners.RegisteredIsWatching` | internal/northbound/listeners.go:75-85 | a channel is registered exactly under the watch that the last step about it added |
| `Listeners.MatchKind` | internal/northbound/listeners.go:123-133 | the loop accepts exactly an empty list or a list with the kind |
| `Listeners.EventListeners.AddListener` | internal/northbound/listeners.go:75-79 | is the add step, and changes nothing else |
| `Listeners.EventListeners.DeleteListener` | internal/northbound/listeners.go:81-85 | is the remove step, and changes nothing else |
| `Listeners.EventListeners.SendEvent` | internal/northbound/listeners.go:87-97 | begins, visits each listener once in any order, and ends: each log grows by the event exactly if the listener names no project or that of the event, and no kinds or its kind |
| `Listeners.EventQueue.Append` | internal/northbound/events.go:60-62 | adds one event at the end |
| `Listeners.EventQueue.SendToAll` | internal/northbound/events.go:64-68 | each log grows by what its listener asks for of the queue, in order |

## Left out

- Deployment requirements of profiles, timestamps, and surrogate row identifiers: rows are known by their natural keys, which no operation changes.
- Case folding beyond ASCII letters, and length and pattern checks on display names other than surrounding white space.
- Commit failures, failures of the secret service, the configuration without a secret service, and reading secrets back.
- Authentication and authorization, gRPC and REST plumbing, uploads of YAML and tar archives, schema migration, Helm and OCI access.
- The REST wiper, which handles only the first page of each listing in its delete phases.
- Content checks of artifacts (JSON, YAML, PNG, JPEG, malware) enter the model as one outcome per request.
- The read operations apart from listings and the message that `GetDeploymentPackage` returns.
- Listings of applications, artifacts and registries take no filter, ordering and kinds in `Server`; the listing of packages does.
- The order of rows that an ordering asks for, which depends on the collation of the database, and filters on the columns of timestamps.
- Retries and timeouts of the malware scan, and the deadline on the connection.
- Which events each operation appends, replay on registration, and whether a blocked channel ever delivers: only the safety of the fan-out is proved.
- Fields that a protobuf message carries besides its data, which a deep comparison would also see.
- Server.Server.ListDeploymentPackages: with an ordering, says that the rows are exactly the selected ones, not in which order, as said above.
- Search.FilterMeaning: covers values without '%', '_' and backslash; for every other value Search.MeansItsPiecesIff shows that it fails.
- Search.RowPassesIff: covers the same values.
- Wiper.ProjectWiper.Wipe: asks that the rows of each kind can be counted in 32 bits, as the listing's total is an int32, and that the passes over the artifacts end, which ArtifactPasses.PassesEndIff decides exactly.
- Pagination.Sweep: covers listings whose rows can be counted in 32 bits, like every member about listings.
