# OCIDex: a verified model of its hard parts

This project models the parts of OCIDex whose correctness is not visible in one function body, and proves what they
keep. It is written in Dafny 4.11; `dafny verify dfyconfig.toml` checks everything.

- **Operator reconcilers.** `ApiKeyModel` and `OciRegistryModel` describe the two stores a reconcile acts on (the
  custom resource with its *stored* status and the Secrets, and the OCIDex server) and one reconcile as a sequence of
  calls cut by a plan: every call may succeed, fail before or after taking effect, or be the last thing the process
  does. `ApiKeyController`, `OciRegistryController` and `ScanRequestController` hold the reconcilers as classes that
  make those calls one by one; each is proved to end in the state the model gives. `RegistrySettings` is what the
  registry requests carry and what the server makes of it. The `*Proofs` modules, `ApiKeySecrets`, `ApiKeyOrphans`,
  `ApiKeyReady`, `OciRegistryServer` and `OciRegistryOutcomes` prove what every run keeps, and with
  `ApiKeyConvergence` what runs without faults come to.
- **Corpus pipeline.** `FanOut` is the generator, the bounded channel and the workers as interleaved steps. `LoadGen`
  and `LoadGraphs` generate the corpus: aliased base packages, links, churn, and the graph each document describes.
- **Graphs.** `DiffTree`, `DiffTreeWalk` and `DiffTreeProofs` are the CLI's diff tree, on any graph;
  `DescendantCounts` is the server's rollup its pruning relies on. `DevFixtures` is the dependency graph of the
  development corpus.
- **Schema conversion.** `SpecTo30` rewrites OpenAPI 3.1 documents for 3.0 (Schema Object in OpenAPI 3.0.3; section
  6.1.1 of JSON Schema Validation 2020-12).
- **Inventory.** `ImageIds`, `Inventory` and `Snapshots`: digests, aggregation, order.
- **Requests.** `Utf8`, `Base64Url` (section 5 of RFC 4648), `JsonStrings` and `JsonReading` (sections 2 and 7 of
  RFC 8259), `Cursors`, `PageWalks` and `Paging` for opaque cursors and the two paged lists; `QueryNames` for query
  parameter names; `ClientIp` for the client address (section 3.2.2 of RFC 7230 on split headers); `Authz` for
  capabilities.
- `Kubernetes`, `Graphs`, `ByteStrings` and `Options` hold what several of these share.

## What the proofs found

- **APIKey, Secret contents.** "The Secret holds the stored key's plaintext" holds all along a run exactly when no
  delete is misreported and no prefix collides on the way (`AlwaysMatchesExact`, from `SecretExact` for one
  reconcile). Neither is given. The server's prefix is the first 8 characters of `ocidex_` and base64 text, so there
  are 64 of them, and keys are listed oldest first; the lookup after a create then returns an older key with the same
  prefix (`LookupExact`). The API answers every failed delete as not found; a rotation then overwrites the Secret of a
  key that stays stored (`MisreportedDeleteBreaksSecret`), and a deletion of the object removes the Secret of a key
  that stays live (`MisreportedDeletion`). The custom resource's documentation speaks of a 12-character prefix; the
  code uses 8, and so does the model.
- **APIKey, rotation.** A recorded ListAPIKeys or DeleteAPIKey error makes the next reconcile report Synced without
  rotating, whether it is recorded before or after the spec change (`ErrorHidesSpecChange`). Ready=True can be
  believed all along a run exactly when no reconcile that starts so stores its verdict and no lookup after a create
  finds an outdated key (`ReadyAlwaysExact`). ADR-030 describes rotation by an annotation; the code compares
  generations, and so does the model.
- **APIKey, convergence.** Two error-free reconciles store the id of a live key and report Ready=True, from whatever
  is stored (`ConvergesInTwo`); the key carries the current spec and the Secret its plaintext exactly unless a
  recorded error masked the rotation (`HealthyExact`).
- **APIKey, deletion.** The Secret outlives the object exactly when reading it failed while it existed.
- **OCIRegistry, convergence.** Three error-free passes bring the registry in sync exactly when the object is not
  stuck (`ConvergesInThree`), and Ready=True says so (`SettledInThree`). It is stuck when the registry it stands for,
  the stored live one or the one it would adopt, refuses its update: its namespace has another source of the wanted
  name, the namespace the spec names is missing or has one, or a namespace of its own cannot take the name. Names are
  unique per namespace since migration 00053, and adoption takes the oldest registry of a name anywhere: with a
  namespace in the spec, and own namespaces aside, a conflicting create leaves the object stuck exactly when that
  oldest one is in another namespace (`OlderNamesakeStrands`, `AdoptsRightExact`).
- **OCIRegistry, faults.** Two kinds of pass decide whether an object is stuck, and every other fault leaves that as
  it was (`StuckStep`, `StuckOverRun`, `ConvergesAfterAnyRun`). One creates a registry and does not store its id:
  adoption, which is there to repair just that, then takes over an older namesake, and the object is stuck
  (`UnstoredCreateExact`, `LostWriteStrands`). The other is told that its live registry is missing and clears the id:
  the server answers not found to every get that fails (internal/service/registry.go:590-593) and to a caller who may
  not see the registry (internal/api/registry.go:261-268). Such a get frees objects renamed into each other's names,
  which nothing else does (`SwappedNames`, `MissedGetFrees`); where the wanted name is free, as it is until the first
  update after a rename, it makes the operator create a second registry and leave the first behind
  (`ForgottenIsReplaced`), and no other fault makes a second one (`CreatesExactly`).
- **OCIRegistry, settings.** An update keeps what the spec leaves out, so a setting taken out of the spec stays on the
  registry (`RemovedKeyLingers`, `KeyIsNeverTakenBack`), and one update settles all it ever will (`OneUpdateSettles`).
  Visibility is the namespace's: an update writes it only to a namespace that shares the registry's id, which a create
  that names a namespace never makes, and the operator always names one. So a private registry asked for in a public
  namespace stays public (`PrivateStaysPublic`, `VisibilityOverRun`). A registry that moved out of a namespace of its
  own still writes to it: with the visibility left out of the spec, the namespace left behind, and every other source
  in it, takes the visibility of the one it moved to (`LeftNamespaceFollows`). An update leaves what a fresh create
  would exactly when nothing lingers and the two end in namespaces of one visibility (`UpdateIsCreateExact`).
- **fanOut.** What comes back is the first sink error, or else the generator's own, where the caller does not cancel
  (`ReturnsExactly` has every case). A cancellation after the last send can return nil with fewer documents, whatever
  their number (`InterruptLooksLikeSuccess`); where nobody cancels with context.Canceled, nil means every document
  (`NilMeansAll`).
- **Conversion.** OpenAPI 3.0.3 takes a single string for `type`. A converted object keeps its meaning exactly when it
  names one type besides `"null"`, or none at all, and says `nullable: true` only where its type list names `"null"`
  (`MeaningPreserved`). Two types stay a list and `"null"` alone leaves an empty one (`OtherListsLoseMeaning`), and a
  stray `nullable: true` comes to admit null (`StrayNullableGainsNull`). Converting twice differs only where a type
  list is the one entry of another (`IdempotentExact` says exactly when, `NestedListConvertsTwice` gives one). Objects
  with a type list are rewritten where they are data too, under `enum`, `const`, `default` or `example`
  (`DataKeptExact`, `EnumIsRewritten`).
- **Snapshot.** The order sent is a function of the cluster exactly when no two workloads differ in kind alone
  (`SameNameOtherKind` is a cluster in which two do); the reference a row shows is free of the pods' order exactly
  when the pods under its key agree on it.
- **Paging.** An empty name, or an empty artifact type, becomes NULL in the next page's query, so a page that ends in
  such a row loses rows: all of them for a name, those of the same name for a type (`KeyWalkExact`,
  `EmptyNameLosesRow`).
- **Corpus.** A document's root lists the components without dependencies, so it reaches those and no others.

## Model

| member | source | states |
|---|---|---|
| ApiKeyController.ApiKeyReconciler.Reconcile | internal/controller/apikey_controller.go:55-80 | making the calls one by one, whatever each of them does, ends in the two stores the model of one reconcile gives |
| ApiKeyController.ApiKeyReconciler.CreateAndPersist | internal/controller/apikey_controller.go:82-118 | creating, looking up, writing the Secret and storing the id leaves the modelled stores at every point it can be cut off |
| ApiKeyController.ApiKeyReconciler.VerifyOrRotate | internal/controller/apikey_controller.go:120-152 | listing, the missing-key reset and the rotation decision leave the modelled stores |
| ApiKeyController.ApiKeyReconciler.Rotate | internal/controller/apikey_controller.go:154-163 | the old key is deleted before a new one is asked for, and nothing is created after a failed delete |
| ApiKeyController.ApiKeyReconciler.HandleDeletion | internal/controller/apikey_controller.go:165-188 | key, Secret and finalizer go in that order, each only after the one before |
| ApiKeyController.ApiKeyReconciler.FindKeyByPrefix | internal/controller/apikey_controller.go:199-214 | the result is the first listed key with the prefix, or none if no key has it |
| ApiKeyProofs.CoherentStep | internal/controller/apikey_controller.go:55-188 | every event (reconcile, spec change, deletion, changes by others) keeps ids distinct, issued and tied to the spec they were minted for |
| ApiKeyProofs.LookupFindsNewest | internal/controller/apikey_controller.go:199-214 | the lookup after a create returns the new key iff no earlier listed key has its prefix |
| ApiKeySecrets.SecretExact | internal/controller/apikey_controller.go:55-188 | from a Secret that matches, one reconcile, whatever its calls do, leaves one that matches iff no delete is misreported and no prefix collides; with a distinct new prefix, iff no delete is misreported |
| ApiKeySecrets.AlwaysMatchesExact | internal/controller/apikey_controller.go:82-188 | over every run with any faults the Secret holds the stored live key's plaintext all along iff no delete is misreported and no prefix collides |
| ApiKeySecrets.SecretMatchesAlways | internal/controller/apikey_controller.go:82-188 | where every minted key's prefix differs from the other live keys', that holds all along iff no delete is misreported |
| ApiKeySecrets.LookupExact | internal/controller/apikey_controller.go:82-118 | after an error-free create the stored id is the new key's, with its plaintext in the Secret, iff no live key listed before it has the same prefix |
| ApiKeySecrets.MisreportedDeleteBreaksSecret | internal/controller/apikey_controller.go:154-163 | a rotation told that its live key is missing, and then a lost status write, leave a live stored key whose plaintext the Secret no longer holds |
| ApiKeySecrets.MisreportedDeletion | internal/controller/apikey_controller.go:165-188 | a deletion told that its live key is missing removes the Secret of a key that stays live |
| ApiKeyOrphans.OrphanBound | internal/controller/apikey_controller.go:82-118 | over every run, live minted keys that the object does not store never outnumber the reconciles that minted without storing plus those that dropped a live key reported missing |
| ApiKeyOrphans.LeakIsCutShort | internal/controller/apikey_controller.go:82-118 | a reconcile whose new prefix is distinct mints without storing iff it was cut short between the create and the status write |
| ApiKeyOrphans.OrphansAreCutShort | internal/controller/apikey_controller.go:82-188 | over every run with distinct new prefixes, they never outnumber the reconciles cut short between the create taking effect and the status write landing, plus those that dropped a live key reported missing |
| ApiKeyOrphans.FinalizerGuardsKey | internal/controller/apikey_controller.go:165-188 | an object that disappears leaves its stored key live iff that key was reported missing while live, and its Secret iff that existed and reading it failed |
| ApiKeyReady.ReadyExact | internal/controller/apikey_controller.go:82-163 | one reconcile makes Ready=True wrong iff it began with a stale live key recorded as not ready and stored its verdict, or stored an outdated key that has the new one's prefix |
| ApiKeyReady.ReadyAlwaysExact | internal/controller/apikey_controller.go:55-188 | over every run with any faults, Ready=True at a generation means all along that the stored live key was minted for it iff no reconcile does either of these |
| ApiKeyReady.ReadyMeansCurrentSpec | internal/controller/apikey_controller.go:120-163 | on such runs Ready=True at the current generation means that the stored live key was asked for with the current spec |
| ApiKeyReady.MaskedFrom | internal/controller/apikey_controller.go:120-163 | masking has two causes only, whatever the prefixes: a list or delete error recorded while a rotation is due, or a spec change while not ready |
| ApiKeyReady.ErrorHidesSpecChange | internal/controller/apikey_controller.go:120-152 | one failed list, on either side of a spec change, makes the next error-free reconcile report Synced with the old key |
| ApiKeyConvergence.ConvergesInTwo | internal/controller/apikey_controller.go:55-163 | from every coherent world of a wanted object, with no stored id, a missing key's or a live one's, two error-free reconciles store the id of a live key and report Ready=True for the current generation |
| ApiKeyConvergence.HealthyExact | internal/controller/apikey_controller.go:55-163 | with distinct new prefixes, and where Secret and Ready could be trusted before, they leave a live key with the name and capabilities of the current spec and its plaintext in the Secret, iff the rotation was not masked |
| ApiKeyConvergence.PrefixIsStoredKeys | internal/controller/apikey_controller.go:103-118 | over every run with any faults the status shows the prefix of the live key whose id it stores |
| ApiKeyConvergence.ReportedExact | internal/controller/apikey_controller.go:82-163 | Ready and its reason say, for the current generation, exactly which call of a concluding reconcile went wrong, or that none did |
| ApiKeyConvergence.FinalizerExact | internal/controller/apikey_controller.go:62-73 | a wanted object has its finalizer iff it had it or writing it took effect, and nothing else is touched before |
| ApiKeyConvergence.DisappearsExact | internal/controller/apikey_controller.go:165-188 | an object under deletion goes iff the delete of its key did not fail, its Secret, if read, is gone, and the finalizer could be removed |
| ApiKeyConvergence.DeletionCompletes | internal/controller/apikey_controller.go:165-188 | a deletion in which nothing fails takes the object, its key and its Secret, and no other key or Secret |
| ApiKeyConvergence.PrefixShowsOneCharacter | internal/service/auth.go:509-515 | the prefix of a key is the first eight characters, which show one character of its base64 text |
| OciRegistryController.OciRegistryReconciler.Reconcile | internal/controller/ociregistry_controller.go:44-118 | the calls made one by one end in the modelled stores, wherever they are cut |
| OciRegistryController.OciRegistryReconciler.CreateOrAdopt | internal/controller/ociregistry_controller.go:74-95 | create, or adopt on a name conflict, leaves the modelled stores |
| OciRegistryController.OciRegistryReconciler.CheckAndUpdate | internal/controller/ociregistry_controller.go:97-116 | drift check and update leave the modelled stores; a registry reported missing, live or not, is forgotten |
| OciRegistryController.OciRegistryReconciler.CallCreate | internal/service/registry.go:465-573 | the server's create: mint the namespace if there is none of the name, then add the registry unless the namespace has a source of its name |
| OciRegistryController.OciRegistryReconciler.CallUpdate | internal/api/registry.go:514-621 | the server's update: written if the name is free in its namespace, renaming a namespace of its own, and then moved if the request names another one where it is free |
| OciRegistryController.OciRegistryReconciler.HandleDeletion | internal/controller/ociregistry_controller.go:139-154 | the stored registry goes before the finalizer |
| OciRegistryController.OciRegistryReconciler.SpecToBody | internal/controller/ociregistry_controller.go:197-339 | the request carries name, fields, owner reference, the full scan window, the enabled flag of an update and, only if given, namespace and credentials |
| RegistrySettings.UpdateIsCreateExact | internal/api/registry.go:481-556 | an update leaves the registry as a create from the same spec would iff no field the spec leaves out lingers and both end in namespaces of one visibility, wherever the registry is and whether the create mints or joins |
| RegistrySettings.RequestsCarry | internal/api/registry.go:291-556 | a create and an update leave the registry enabled, with its owner and credentials, and with every field of the spec as stated, the scan window with its defaults |
| RegistrySettings.NonEmptyExact | internal/service/registry.go:971-980 | of a list the entries that are not empty are kept, in order |
| RegistrySettings.PrivateStaysPublic | db/queries/registry.sql:128-140 | a private spec in a public namespace gives a public registry, updated or created there; only a create that mints obeys |
| RegistrySettings.OmittedStaysPrivate | internal/api/registry.go:506-509 | with the visibility left out, a private namespace stays private under an update as under a create into it |
| RegistrySettings.OneUpdateSettles | internal/service/registry.go:667-680 | updating twice from one spec is updating once |
| RegistrySettings.KeyIsNeverTakenBack | internal/service/registry.go:640-680 | after any sequence of specs there is no trusted key iff neither they nor the registry ever had one |
| RegistrySettings.RemovedKeyLingers | internal/service/registry.go:678-680 | a trusted key taken out of the spec stays on the registry, update after update |
| OciRegistryServer.AcceptedAgain | internal/api/registry.go:481-621 | an update, whether it takes effect, stops before its move or is lost, is accepted the next time iff it was to be accepted this time |
| OciRegistryProofs.CoherentStep | internal/controller/ociregistry_controller.go:44-116 | whatever fails in a pass, ids stay unique, names stay unique per namespace and namespaces keep distinct names |
| OciRegistryProofs.ConvergesInThree | internal/controller/ociregistry_controller.go:67-116 | from any stored id three error-free reconciles end in sync with the spec iff the registry the object stands for, or would adopt, takes the update |
| OciRegistryProofs.StuckStep | internal/controller/ociregistry_controller.go:74-116 | a pass that forgets a live registry, or leaves a new one unstored, leaves the object stuck iff the next create would conflict and adopt one that refuses; any other pass, whatever fails, keeps it stuck or not |
| OciRegistryProofs.StuckOverRun | internal/controller/ociregistry_controller.go:44-116 | over every faulty run the last such pass decides whether the object is stuck, and the start if there was none |
| OciRegistryProofs.ConvergesAfterAnyRun | internal/controller/ociregistry_controller.go:44-116 | after any faulty run three error-free reconciles end in sync iff the run did not leave the object stuck, and, if it forgot no live registry, at the one the object stood for |
| OciRegistryProofs.ChosenOverRun | internal/controller/ociregistry_controller.go:74-116 | over every run that never forgets, the object stays with the registry it stores or would adopt |
| OciRegistryProofs.CreatesExactly | internal/controller/ociregistry_controller.go:74-102 | over every run the registries created are the one there was call for, plus one for each live registry forgotten while the name is free, less the one there still is call for |
| OciRegistryProofs.ForgottenIsReplaced | internal/controller/ociregistry_controller.go:97-102 | a get that misses the live registry makes the next reconcile create a second one and leave the first iff the wanted name is free |
| OciRegistryProofs.NeverMoves | internal/controller/ociregistry_controller.go:292-299 | without an explicit namespace in the spec no run moves a registry to another namespace |
| OciRegistryProofs.VisibilityOverRun | db/queries/registry.sql:124-173 | no run changes the visibility of a namespace that shares its id with no registry, whatever the spec says |
| OciRegistryOutcomes.ReadyMeansInSync | internal/controller/ociregistry_controller.go:67-116 | a pass that lives to a landed status write stores a verdict on the current generation, and Ready=True then means in sync, except for the adopting pass, which leaves the registry untouched |
| OciRegistryOutcomes.ReportedExact | internal/controller/ociregistry_controller.go:67-137 | Ready, its reason and the scan scope say, for the current generation, exactly how a concluding pass went |
| OciRegistryOutcomes.SettledInThree | internal/controller/ociregistry_controller.go:44-137 | three error-free passes leave the finalizer, and Ready=True with the scan scope of the current generation iff the registry is in sync |
| OciRegistryOutcomes.FinalizerStays | internal/controller/ociregistry_controller.go:54-65 | no registry call takes effect before the object has its finalizer, which it gets iff writing it took effect |
| OciRegistryOutcomes.DisappearsExact | internal/controller/ociregistry_controller.go:139-152 | an object under deletion goes iff nothing is stored or the delete did not fail, and the finalizer could be removed; a failed delete is reported |
| OciRegistryOutcomes.DeletionRemovesStored | internal/controller/ociregistry_controller.go:139-152 | an object that disappears has taken exactly the registry whose id is stored, iff that registry was not reported missing while live |
| OciRegistryOutcomes.AdoptsRightExact | internal/controller/ociregistry_controller.go:74-84 | a pass whose create conflicts stores the conflicting registry's id iff no other namespace has an older one of that name |
| OciRegistryOutcomes.OlderNamesakeStrands | db/queries/registry.sql:75-86 | when the create conflicts, the object is stuck iff the spec names the namespace and the oldest registry of the name is in another one, or that one's own namespace is in the way |
| OciRegistryOutcomes.UnstoredCreateExact | internal/controller/ociregistry_controller.go:74-94 | a created registry whose id is not stored leaves the object stuck iff an older one has the name and the spec names a namespace, or that one's own namespace cannot take the name |
| OciRegistryOutcomes.LostWriteStrands | internal/controller/ociregistry_controller.go:77-94 | one lost status write after a create, beside an older namesake elsewhere, keeps the object out of sync for good, where a landed one ends in sync |
| OciRegistryOutcomes.OnlyForgettingFrees | internal/controller/ociregistry_controller.go:97-112 | a pass frees a stuck object iff it forgets the registry and the next create would not end stuck again |
| OciRegistryOutcomes.StuckForGood | internal/controller/ociregistry_controller.go:108-112 | a stuck object is out of sync after every run that never forgets |
| OciRegistryOutcomes.SwappedNames | internal/controller/ociregistry_controller.go:97-112 | an object renamed to the name of another registry beside its own is stuck after a run iff the run forgot nothing |
| OciRegistryOutcomes.MissedGetFrees | internal/controller/ociregistry_controller.go:97-102 | one get that misses its live registry, and three error-free reconciles, bring it in sync with the other one |
| OciRegistryOutcomes.LeftNamespaceFollows | internal/api/registry.go:506-509 | an update gives a namespace that shares the registry's id the visibility of the spec, or of the namespace the registry is in now, even once it has left |
| OciRegistryOutcomes.MintObeysSpec | internal/service/registry.go:543-573 | a namespace minted by a create has the name asked for and the visibility of the spec, or is public |
| ScanRequestController.ScanRequestReconciler.Reconcile | internal/controller/scanrequest_controller.go:41-91 | the calls made one by one end in the modelled state |
| ScanRequestController.PhaseExact | internal/controller/scanrequest_controller.go:41-91 | each outcome's phase, condition and reason: Dispatched and true iff the scan was accepted and reported so, Pending iff the registry has no id yet, Failed otherwise |
| ScanRequestController.TerminalForever | internal/controller/scanrequest_controller.go:41-55 | once the stored phase is terminal, no event sequence changes it or gets another scan accepted |
| ScanRequestController.AcceptedThenTerminal | internal/controller/scanrequest_controller.go:70-91 | an accepted scan ends in a terminal phase iff the process survives the call and the status write lands |
| ScanRequestController.AcceptedScans | internal/controller/scanrequest_controller.go:41-91 | over any run accepted scans are exactly the status writes lost after an accepted scan, plus one iff an accepted scan settled the phase |
| FanOut.InvNext | cmd/loadgen/main.go:106-139 | every interleaved step keeps each sent item in exactly one place: succeeded, failed, in flight or buffered |
| FanOut.NeverStuck | cmd/loadgen/main.go:106-139 | until the call returns some step is enabled, given only that running sink calls return |
| FanOut.MeasureDecreases | cmd/loadgen/main.go:106-139 | every step lowers a measure |
| FanOut.EveryRun | cmd/loadgen/main.go:106-139 | every interleaving keeps the invariant and has at most 3 * total + concurrency + 2 steps |
| FanOut.OnReturn | cmd/loadgen/main.go:122-139 | sent = succeeded + failed + left over, at most one failure per worker; nil iff everything was sent and nothing but a Canceled cause came, and without one every item succeeded once |
| FanOut.FirstErrorWins | cmd/loadgen/main.go:106-139 | without an outside cancellation the cause is the first sink error and stays it |
| FanOut.ReturnsExactly | cmd/loadgen/main.go:106-139 | on every run that returns: the first sink error or cancellation unless it is context.Canceled, else the error of rendering, else Canceled if the generator was cut off, else nil |
| FanOut.NilMeansAll | cmd/loadgen/main.go:106-139 | on every run in which nobody cancels with context.Canceled, nil means that every item succeeded once |
| FanOut.InterruptLooksLikeSuccess | cmd/loadgen/main.go:130-139 | for every number of items and workers some run returns nil one item short |
| FanOut.FanOut | cmd/loadgen/main.go:106-139 | under any scheduler the call returns, with the error its history says, and nil without a Canceled cause means every item was delivered |
| DiffTree.Writer.Render | cmd/ocidex-cli/sbom_diff.go:126-163 | the output is the join of the response walked from every root, line for line |
| DiffTree.Writer.Walk | cmd/ocidex-cli/sbom_diff.go:165-193 | terminates on every graph, prints the lines of the ref's walk and leaves the path set as it found it |
| DiffTree.JoinedExact | cmd/ocidex-cli/sbom_diff.go:131-149 | a joined node carries a change iff some change refers to it, and then the last one that does |
| DiffTree.IndexedExact | cmd/ocidex-cli/sbom_diff.go:131-138 | a ref is known iff some node has it, and stands for the last that does |
| DiffTree.ChildrenExact | cmd/ocidex-cli/sbom_diff.go:151-154 | a ref's children are the ends of the edges that start there, in order |
| DiffTreeWalk.OneLinePerSimplePath | cmd/ocidex-cli/sbom_diff.go:165-193 | the walk prints one node line for each edge path from a root through shown refs that repeats none, and no other |
| DiffTreeWalk.EntriesPlaced | cmd/ocidex-cli/sbom_diff.go:165-193 | every line stands at the depth of its path, and every cycle line closes a cycle |
| DiffTreeWalk.LinesInOrder | cmd/ocidex-cli/sbom_diff.go:165-193 | lines come in preorder: a node before what is below it, siblings by position |
| DiffTreeWalk.PrintsReachable | cmd/ocidex-cli/sbom_diff.go:165-193 | on every graph a ref gets a line iff a walk through shown refs leads to it from a root |
| DiffTreeProofs.WrittenLines | cmd/ocidex-cli/sbom_diff.go:165-193 | every line written is at the depth of its path, and shows the joined node of a ref that is shown or says that the ref is on the path |
| DiffTreeProofs.SiblingsByName | cmd/ocidex-cli/sbom_diff.go:183-189 | below one parent the lines come in order of name, and roots in the order given |
| DiffTreeProofs.FullTreePrintsReachable | cmd/ocidex-cli/sbom_diff.go:126-193 | without pruning exactly the known refs reachable through known refs get lines |
| DiffTreeProofs.PrunedTreePrintsChanges | cmd/ocidex-cli/sbom_diff.go:165-204 | with pruning and accurate counts a ref gets a line iff it is reachable and changed or leads to a change |
| DescendantCounts.RollupExact | internal/service/difftree.go:128-167 | on every graph the server's count for a node is the number of changes on the distinct nodes reachable below it |
| DiffTreeProofs.RenderedChangesExact | internal/service/difftree.go:100-167 | server and client together: the pruned tree shows exactly the reachable refs that are changed or lead to a change |
| DevFixtures.AcyclicReaches | scripts/dev-fixtures.py:239-267 | over an acyclic table every component of every list is reachable from the image |
| DevFixtures.ReachableExact | scripts/dev-fixtures.py:239-267 | that holds for all lists iff the table is acyclic |
| DevFixtures.DependsOnIsAcyclic | scripts/dev-fixtures.py:209-237 | the table in use is acyclic |
| DevFixtures.EveryReleaseReachable | scripts/dev-fixtures.py:313-356 | in every release that drift makes of one or two lists, if the remaining components have distinct refs, each is reachable from the image |
| DevFixtures.DependencyGraph | scripts/dev-fixtures.py:239-267 | the loop that grows edges and pulled refs returns the graph the lemmas speak of |
| SpecTo30.MeaningPreserved | cmd/specto30/main.go:63-93 | a converted object is valid under 3.0 and admits what it admitted under 3.1 iff it names one type besides null, or none at all, and says nullable only where its type list names null |
| SpecTo30.OtherListsLoseMeaning | cmd/specto30/main.go:76-80 | a list of two types, and a list of null alone, lose their meaning |
| SpecTo30.StrayNullableGainsNull | cmd/specto30/main.go:76-83 | a one-type list beside nullable comes to admit null |
| SpecTo30.MeaningPreservedAt | cmd/specto30/main.go:63-93 | the same at every depth of the document |
| SpecTo30.ConvertedAt | cmd/specto30/main.go:80-92 | what stands at a surviving path is converted where it stands: other keys change by recursion only |
| SpecTo30.IdempotentExact | cmd/specto30/main.go:63-93 | converting twice is converting once iff no object is left with a type list that a second pass would still change |
| SpecTo30.NestedListConvertsTwice | cmd/specto30/main.go:66-79 | a type list nested in a type list is changed again by a second pass |
| SpecTo30.UnchangedExact | cmd/specto30/main.go:63-93 | a value is left as it is iff no object in it has a type list with null in it or with one entry |
| SpecTo30.DataKeptExact | cmd/specto30/main.go:80-92 | so what a schema holds as data under enum, const, default or example survives iff it has no such object |
| SpecTo30.EnumIsRewritten | cmd/specto30/main.go:66-92 | an enum of an object with a type list comes to admit another value |
| SpecTo30.IdempotentOnSchemas | cmd/specto30/main.go:63-93 | so it is idempotent on documents whose type lists hold strings |
| SpecTo30.RewrittenFields | cmd/specto30/main.go:64-87 | overwriting type and nullable first and recursing after gives each key the value conversion means for it |
| SpecTo30.JsonObject.RewriteType | cmd/specto30/main.go:66-79 | in place, type becomes the single kept entry or the kept list, nullable is set iff null was listed, other keys stay |
| SpecTo30.Downconvert | cmd/specto30/main.go:63-93 | the recursive program computes the conversion the lemmas speak of, on every JSON value |
| ImageIds.NormalizedExact | cmd/k8s-agent/inventory.go:37-62 | a digest is read iff the imageID, trimmed, is it in some letter case or ends in an at sign and it |
| ImageIds.NormalizedIsCanonical | cmd/k8s-agent/inventory.go:37-62 | a resolved digest has the canonical form, and resolving it again is the identity |
| ImageIds.PinnedResolves | cmd/k8s-agent/inventory.go:37-62 | a reference pinned to a digest resolves to it in any letter case, scheme or none |
| ImageIds.LocalIDIsUnresolvable | cmd/k8s-agent/inventory.go:43-53 | a scheme without an at sign after it never yields a digest |
| Inventory.OwnerExact | cmd/k8s-agent/inventory.go:90-113 | the workload of a pod is its first controlling owner, with the Deployment for a ReplicaSet and the pod itself for a Node or none |
| Inventory.RefExact | cmd/k8s-agent/inventory.go:146-189 | the reference shown is the status image if that is a name, else the last spec image of the container, else the bare id |
| ImageIds.StripsExact | cmd/k8s-agent/inventory.go:115-130 | the Deployment's name is the ReplicaSet's without its hash, or without the last segment if the hash is not there, or all of it |
| ImageIds.StripHashExact | cmd/k8s-agent/inventory.go:115-130 | with the hash label present the Deployment's name comes back exactly |
| Inventory.AccumulatedExact | cmd/k8s-agent/inventory.go:203-238 | a key has a row iff some status counts towards it, and its count is the number of those |
| Inventory.SnapshotIsOrderIndependent | cmd/k8s-agent/inventory.go:203-238 | keys and counts are the same for every order of the pods |
| Inventory.CountsAreConserved | cmd/k8s-agent/inventory.go:203-238 | the counts over any listing of the keys sum to the statuses of running pods with something to show |
| Inventory.FirstSeenIsShown | cmd/k8s-agent/inventory.go:232-236 | a row shows the reference of the first status counted towards it |
| Inventory.ReferenceOrderExact | cmd/k8s-agent/inventory.go:232-236 | that reference is the same for every order of the pods iff the pods under the key agree on it |
| Snapshots.TiedExact | cmd/k8s-agent/inventory.go:260-272 | two rows tie in the comparator iff they agree on namespace, name, container and digest |
| Snapshots.OrderDeterminedExact | cmd/k8s-agent/inventory.go:260-272 | there is one sorted listing of the rows iff no two different rows tie |
| Snapshots.SnapshotDeterminedExact | cmd/k8s-agent/inventory.go:191-274 | the snapshot is a function of its rows iff no two workloads differ in kind alone |
| Snapshots.SameNameOtherKind | cmd/k8s-agent/inventory.go:90-113 | a bare pod and a StatefulSet's pod of one name and image differ in kind alone |
| Snapshots.RowsConserve | cmd/k8s-agent/inventory.go:240-258 | the rows' pod counts sum to the counted container statuses |
| Snapshots.RowsDescribe | cmd/k8s-agent/inventory.go:198-274 | every running container with an image is described by one row and no other, by namespace, workload, name and digest, and every row counts those it describes |
| Snapshots.RowsShow | cmd/k8s-agent/inventory.go:216-236 | every row shows the reference of a container it describes |
| Snapshots.TwoDigestsTwoRows | cmd/k8s-agent/inventory.go:64-74 | two digests of one container of one workload are two rows |
| Snapshots.SortedAscends | cmd/k8s-agent/inventory.go:260-272 | rows ascend by namespace, workload, container and digest |
| Snapshots.CountPod | cmd/k8s-agent/inventory.go:205-238 | the loop over one pod's statuses yields the accumulator the lemmas speak of |
| Snapshots.BuildSnapshot | cmd/k8s-agent/inventory.go:198-274 | sorted rows with conserved counts: one for each running container with an image, with its digest, and none that describes no such container or shows another reference |
| Utf8.SanitizedExact | internal/api/cursor.go:54-57 | text is written unchanged iff it is valid UTF-8 |
| Utf8.ValidExact | internal/api/cursor.go:54-57 | valid text is exactly what the encodings of Unicode scalar values make up, one after another |
| Base64Url.DecodeInvertsEncode | internal/api/cursor.go:54-69 | decoding inverts encoding on every byte string |
| Base64Url.DecodesExact | internal/api/cursor.go:66-69 | what decodes is, line breaks aside, text of the alphabet whose last group has more than one character |
| Base64Url.StrayByteExact | internal/api/cursor.go:66-69 | a line break may stand anywhere in the text, and any other byte outside the alphabet spoils it |
| JsonStrings.ReadInvertsWrite | internal/api/cursor.go:54-72 | every tuple written as JSON reads back, stray bytes replaced |
| JsonReading.ReadExact | internal/api/cursor.go:70-72 | what is read is null or an array of strings and nulls, in any spelling and with any white space, and all of that is read |
| JsonReading.PairRead | internal/api/cursor.go:70-72 | an escaped surrogate pair reads as the one character it encodes |
| Cursors.DecodeOfEncode | internal/api/cursor.go:54-77 | a cursor decodes under the arity it was made with and is refused under any other |
| Cursors.RoundTripExact | internal/api/cursor.go:54-77 | the tuple comes back unchanged iff every part is valid UTF-8 |
| Cursors.ArityExclusive | internal/api/cursor.go:62-77 | no string at all is accepted under two arities |
| Cursors.OffsetRoundTripExact | internal/api/search.go:123-131 | an offset survives its cursor iff it is at most 2^31 - 1, and is refused beyond |
| Cursors.ParseInt32Exact | internal/api/search.go:123-131 | what is read as an offset is a decimal number of 32 bits, with a sign or without and however padded, and all of those are read |
| PageWalks.WalkExact | internal/api/pagination.go:14-21 | following cursors that lead to the right page where they fit, and astray where not, gives every row once and in order iff every page start fits |
| Paging.ReadCursor | internal/api/search.go:416-449 | the branches over sort and cursor ask for the page the cursor stands for, or refuse it |
| Paging.List | internal/api/search.go:408-482 | the handlers' branches give the response the walk is about, with a total on the first page only |
| Paging.TotalExact | internal/api/search.go:408-482 | only the artifact list without a cursor counts its rows, and a page with more to come is full |
| Paging.AfterExact | db/queries/artifact.sql:196-200 | the rows past a cursor are the later ones, less those a NULL in the cursor loses |
| Paging.SeverityWalkExact | internal/api/search.go:465-477 | by offset, following the cursors returns every row once and in order iff the last page starts at an offset a cursor can carry, which holds up to 2^31 - 1 rows |
| Paging.KeyWalkExact | internal/service/search_artifact.go:330-379 | by key, following the cursors returns every row once and in order iff no page ends in a row whose empty name, or empty type before a row of the same name, becomes NULL |
| Paging.EmptyNameLosesRow | internal/service/search_artifact.go:342 | a row after one without a name never comes up when a page ends between them |
| Paging.NamedRowsAllComeUp | internal/api/search.go:478-481 | with names (and artifact types) present every row comes up, whatever the limit |
| Paging.OtherSortRefuses | internal/api/search.go:416-424 | a cursor made under one sort is refused under the other |
| QueryNames.CamelHasNoUnderscore | internal/api/naming.go:14-31 | a camelCase name has no underscore, and a name without one is left as it is |
| QueryNames.SnakeToCamelExact | internal/api/naming.go:14-31 | reading byte by byte: every underscore is dropped and the byte after it raised, all others stay |
| QueryNames.SnakeToCamelInPlace | internal/api/naming.go:14-31 | the loop that rewrites the parts in place gives that spelling |
| QueryNames.RespelledAt | internal/api/naming.go:41-51 | after any of the legacy keys, in any order: they are gone, and a name that was absent has the values of its first spelling |
| QueryNames.RewriteExact | internal/api/naming.go:34-62 | for every iteration order no key with an underscore is left, and keys that had none keep their values, sort names respelled |
| QueryNames.RewriteTwice | internal/api/naming.go:34-62 | rewriting a rewritten query changes nothing |
| QueryNames.OrderIndependentExact | internal/api/naming.go:41-51 | all iteration orders agree iff no two legacy names stand for one absent camelCase name with values that stay different |
| QueryNames.Request.LegacyQueryNames | internal/api/naming.go:34-62 | the map rewritten while it is ranged over ends without underscores, with the values of every other key kept, and is untouched if the rewrite does not apply |
| ClientIp.HeadersConcatenate | internal/api/ratelimit.go:84-93 | splitting a header over several lines is concatenating their lists |
| ClientIp.CommaSeparates | internal/api/ratelimit.go:84-93 | one line is split at its commas |
| ClientIp.ChainSuffixExact | internal/api/ratelimit.go:124-139 | entries put ahead of the chain never matter iff it holds an untrusted or unparseable hop |
| ClientIp.ChainExact | internal/api/ratelimit.go:121-139 | behind trusted hops the client is the untrusted one, or the last address vouched for where the next does not parse or there is none |
| ClientIp.HopsSuffixExact | internal/api/ratelimit.go:107-122 | entries put ahead never matter iff the chain has the configured number of hops |
| ClientIp.HopsExact | internal/api/ratelimit.go:100-119 | with a hop count the entry with one less behind it decides, or the first of a shorter chain |
| ClientIp.LinesAheadAreIgnored | internal/api/ratelimit.go:58-139 | header lines a client sends ahead of the proxies' own never change the answer, once the proxies' own end the walk, reach the hop count, or an edge header decides |
| ClientIp.OutsidersHeadersAreIrrelevant | internal/api/ratelimit.go:58-82 | with trusted proxies set, a peer outside them is the client whatever its headers say |
| ClientIp.WalkTrustedChain | internal/api/ratelimit.go:124-139 | the loop from the right computes the walk the lemmas speak of |
| Authz.DominatesIsInclusion | internal/authz/capability.go:240-248 | a role dominates another iff it grants every capability the other does |
| Authz.DominatesIsPreorder | internal/authz/capability.go:240-248 | so dominance is reflexive and transitive, for any role table |
| Authz.AllowIsMonotone | internal/authz/capability.go:331-342 | under every global role a dominating member role is allowed whatever the dominated one is |
| Authz.CanExact | internal/api/authz.go:29-38 | nothing past the key's ceiling; an admin anything within it; a member what the role grants, and a viewer of that only reading; nobody else anything |
| Authz.MayGrantExact | internal/api/authz.go:53-61 | an admin may grant any role, a member exactly those that confer no more than the member has |
| Authz.ActorsManageMembers | internal/api/authz.go:29-61 | over any run of permitted changes no actor is an installation-wide viewer, and each holds manage_member at that point, within the key |
| Authz.ChangeConfersOwn | internal/api/authz.go:29-61 | a guarded change by a non-admin confers only what the actor's own membership holds |
| Authz.NoEscalation | internal/api/authz.go:29-61 | over any run of guarded changes by non-admins no capability appears that no member held at the start |
| Authz.Capabilities | internal/authz/capability.go:219-227 | the list holds the granted capabilities, in declaration order and no others |
| Authz.RolesWith | internal/authz/capability.go:354-362 | the list holds the roles that grant the capability, in declaration order and no others |
| LoadGen.BaseSize | cmd/loadgen/gen.go:108 | however the product rounds, a share between 0 and 1 never takes more packages from the base image than the document has components; 1 takes all and 0 none |
| LoadGen.Packages | cmd/loadgen/gen.go:134-165 | exactly n packages come out, the vulnerable ones first at their starting versions, none depending on anything |
| LoadGen.LinkDependencies | cmd/loadgen/gen.go:170-177 | in place, each application library gets one to three dependencies on earlier components and nothing else changes |
| LoadGen.Churn | cmd/loadgen/gen.go:180-186 | in place, each package is bumped once iff its draw is below the fraction, and nothing else moves |
| LoadGen.Assemble | cmd/loadgen/gen.go:113-116 | the slice is new, base packages first and the artifact's own after them, each with its vulnerable ones in front, well linked; the base is not modified |
| LoadGen.Artifact | cmd/loadgen/gen.go:112-128 | one artifact's documents have the right size, links and packages, each version is the one before with every package bumped whose draw is below the churn, and emitting stops at the first refusal |
| LoadGen.Generate | cmd/loadgen/gen.go:106-130 | the corpus has Artifacts * Versions documents of exactly Components components in order, each version churned out of the one before by its artifact's draws, and artifacts on one base image start from the same packages |
| LoadGraphs.Document | cmd/loadgen/gen.go:203-222 | the loop yields the dependency entries and the root list the lemmas speak of |
| LoadGraphs.EdgesExact | cmd/loadgen/gen.go:206-222 | the document's edges are the components' dependencies, both ways |
| LoadGraphs.PathsDescend | cmd/loadgen/gen.go:170-222 | every path goes to ever earlier components, so the graph is acyclic |
| LoadGraphs.PathsEndAtRoot | cmd/loadgen/gen.go:203-222 | a path can go no further iff it has ended at a component listed under root, which is one in the base layer |
| LoadGraphs.SomePathEnds | cmd/loadgen/gen.go:203-222 | from every component some path ends there |
| LoadGraphs.RootReachesExact | cmd/loadgen/gen.go:206-222 | root reaches exactly the components it lists |

## Left out

- Controller-runtime: reconciles of one object are serialized and read the current object; caching, leader election,
  predicates, requeue results, messages and transition times of conditions are not modelled.
- The server as the operator sees it: keys or registries with unique ids, namespaces with unique names, and sources
  with names unique per namespace. Who may do what there is part of the replies; renames and moves of namespaces by
  others are not modelled, and neither is what a move does to SBOMs.
- RegistrySettings.UpdateIsCreateExact: requests the server refuses and webhook secrets are left out; the namespace an
  update or a create ends in, and its visibility, are parameters here and part of the server in the runs.
- ScanRequestController: the reply to a scan is accepted or refused; what the scan does is not part of this model.
- FanOut.FanOut: a scheduler picks among enabled steps; memory ordering of the atomic counter is not modelled.
- The ingest sink's retry loop and the file sink: a sink call is one step that returns an error or not.
- DiffTree.Writer.Render: the text of a line and the five counts behind one number are left out, and so are writer
  errors.
- DescendantCounts.RollupExact: component ids and bom-refs of the server's tree are taken as one-to-one; the five
  counts are five instances of one, since the descent does not look at them.
- DevFixtures.EveryReleaseReachable: what a version bump does to a ref is a parameter; names and licences are opaque.
- SpecTo30.Downconvert: the in-place rewrite is per object; the recursion returns the rewritten tree, so two places of
  a document that share one map are not modelled. JSON decoding never makes such a document.
- SpecTo30.MeaningPreserved: speaks of types that are a string or a list of strings, the only ones JSON Schema allows.
- ImageIds.NormalizedIsCanonical: white space is ASCII only, and letters fold as ASCII.
- Snapshots.BuildSnapshot: PodCount is unbounded where the code uses 32 bits; sort.Slice is a parameter that sorts.
- JsonStrings.ReadInvertsWrite: a stray byte is written as a six-character escape; reading gives the same text if it
  is written as the three bytes of U+FFFD.
- Paging.KeyWalkExact: rows do not change between pages, and their text is valid UTF-8 in a strict total collation, as
  the database keeps it; hand-made cursors with malformed ids are not modelled past their arity.
- Paging.SeverityWalkExact: the severity order is a given list; it does not change between pages.
- The time-and-id cursor (internal/api/cursor.go:10-40) of the other lists: it needs a model of time formatting.
- QueryNames.Request.LegacyQueryNames: parsing and re-encoding the query string are left out; whether the raw query
  has a literal underscore is a parameter.
- ClientIp: parsing addresses and prefix membership are parameters.
- Authz: key ceilings are an arbitrary optional set; the role table is a parameter; ParseCapabilities is left out.
- LoadGen.Generate: the random source is an arbitrary sequence, and names, versions, purls, digests and the JSON text
  are left out.
- HTTP plumbing, SQL beyond the row comparison of the paged queries, NATS, OAuth, enrichment, scanning and the web UI.
