# Pépin: no false green, proved on a model

Pépin reads the inventory of a cloud tenant, evaluates rules on it, and publishes one typed
verdict per control and subject (`pass`, `fail`, `not-applicable`, `not-evaluated`,
`exempted`), an exit code and a sealed evidence bundle. Its central promise is that nothing
that was not read, not proven or merely set aside ever shows as green. No single function
keeps that promise: it rests on the way pagination, the collection state, the capability lock,
six rewriting passes and the exit ladder compose. This project models those parts in Dafny,
in the form the source gives them, and proves what they guarantee together.

The model follows the code. Loops are methods with loops, objects updated in place are
classes (`Collection`, `Candidate`, `Directory`, `Locale`), values are datatypes; every method
is proved equal to a specification function, and what the program promises is proved of those
functions. What they compute is said a second time, from the data alone: a read from its requests
and their replies (`Fetch.Conversation`), a verdict from the resources, the records, the tables and
the policy (`Reference`), a code and a headline from the findings and the verdicts (`Outcome`), a
bundle from what sealing was given (`Contents`). The members of the program do not use those
definitions, so that a wrong step in the program contradicts a lemma even when its
specification function repeats it.

| file | what it models |
|---|---|
| `Fetch`, `Collector`, `EimPolicy` | pagination, joins, projection of items into resources, over any server |
| `Projection` | the path language of the descriptors: `lookup`, `pathExists`, alternatives |
| `CollectionState` | the pessimistic state of what could be read |
| `Inventory`, `ProvenanceIndex` | what the assessment reads of an inventory, typed or reloaded from JSON |
| `Assess`, `Passes` | the capability lock, the verdicts, the passes that rewrite them |
| `Exempt` | dated exemptions |
| `Gate` | what weighs, the exit ladder, the headline |
| `Pipeline`, `Certainty` | the whole scan, and its end-to-end guarantees |
| `Sealing`, `Rederive`, `Language` | sealing order, replay of a sealed bundle in two languages |
| `Checksums`, `Bundle`, `Pinning` | writing and verifying a bundle, and what acceptance establishes |
| `PolicyEffect`, `Dossier`, `Refused` | scan, bundle, verification and replay, from one end to the other; the faithful dossiers that are refused |
| `KeyedDiff`, `Diff`, `Comparable` | comparing two bundles, and which scans can be compared |
| `Paths`, `Extraction` | what a path reads and what a reply becomes, said of the documents themselves |
| `Reference`, `Outcome`, `Waivers`, `Annotations`, `Trail` | what a scan must conclude, said of its data alone, and that it does |
| `Contents`, `Comparison` | what a sealed directory holds, when one is accepted, and what a comparison reports, said of the files and of the lists alone |
| `Wrappers`, `Order`, `Text`, `Json`, `Model` | shared vocabulary |

The server is any function from a request to a reply, and may refuse any request. The tables of
controls (types read, deciding attributes, absence tables), the findings of the rules, the gate
profile, the digest and the document formats are parameters, so that every statement holds for
all of them.

Some results say that the code does not do what one might read into it. Each comes with its
exact condition, for all inputs, and with an input:

- The comment on `VerifyBundle` (internal/assess/bundle.go:264-268) says that the list of
  digests covers exactly the declared artifacts plus the manifest. The code never asks that the
  manifest be listed. `Pinning.ManifestMayBeUnlisted` builds accepted bundles that do not list
  it, for every assessment, and `Pinning.ManifestPinnedExactly` shows that the list pins the
  manifest if and only if it names it.
- What a scan seals is always accepted, but not always confirmed by its replay.
  `Dossier.HonestDossier` gives the three conditions under which it is, together necessary and
  sufficient, and `Refused` a dossier that fails each:
  - Sealing never removes a file (internal/assess/bundle.go:160-262), and the replay takes its policy
    from the directory (cmd/verify.go:289-302), so an exemptions document that an earlier scan left
    there is replayed although nothing lists it. It must cover no deviation that stands
    (`Refused.StaleExemptionsRefuse`).
  - The OSCAL document is rendered from the results in the sealing order, and compared with one
    rendered from the results in the order they are derived in (cmd/verify.go:95-120). To a verifier
    that speaks the language of the scan, a rendering that lists results in their order agrees if
    and only if the scan produced them in the sealing order (`Dossier.OscalFollowsExactly`), which
    no scan does that has a finding on a control whose code comes after that of a control with a
    verdict of its own (`Dossier.LateFinding`, `Refused.LateFindingIsRefused`). The renderer is not
    part of this model; one that hides the order always agrees.
  - An input that already carries an instant keeps it, while the run names its own
    (cmd/scan.go:158-166). The replay asks that the two agree (cmd/verify.go:127-143), so the scan of
    an input sealed at another instant is refused as antedated (`Refused.RescanIsRefused`).
- The pagination loop ends without an error on a page that only looks like the last one: an empty
  page, whatever the flag says, or a short one without a flag (internal/collect/engine.go:277-293).
  `Fetch.OffsetsFaithful` and `Fetch.NumberedFaithful` show that a read is complete or in error if
  and only if no such page comes before the end, `Collector.MissingWithoutError` and
  `Collector.MissingFromJoin` what that means for the resources, for a count published as complete
  and for the state of the collection; `Fetch.EmptyPageEndsTheRead` and
  `EimPolicy.EmptyPageHidesNames` give the servers.
- The key by which findings and exempted verdicts are compared joins control and subject with a
  NUL character (cmd/scan.go:641-666). It tells the pairs of two codes apart if and only if
  neither code is the beginning of the other, cut before a NUL (`Gate.KeysSeparate`);
  `Gate.KeysCollide` gives the subjects for which two others are confused.
- Exit 1 does not mean that some verdict failed. A conclusive finding has a failed verdict if and
  only if the assessment did not withdraw it and no exemption covers it
  (`Certainty.DeviationFailsExactly`), and one that was withdrawn still weighs in the gate
  (`Certainty.WithdrawnStillWeighs`, with `Certainty.ExitOneWithoutFailure` for a scan).
- Exit 0 does not mean that no verdict of high severity failed. It shows one if and only if some
  finding that stands carries no severity of its own, on a control of critical or high severity
  (`Certainty.ExitZeroFailures`, with `Certainty.ExitZeroBesideFailure` for a scan).
- A bundle cannot always be compared with another. The verdicts of a scan can be indexed if and only
  if no two of its findings share control and subject, and none lacks a control
  (`Comparable.ScanIsComparable`).
- The sealing order (internal/assess/bundle.go:140-153) hides the order of arrival if and only if
  no two different verdicts share control, subject and status (`Sealing.ArrivalShowsExactly`).

## Model

| member | source | states |
|---|---|---|
| `Fetch.FetchItems` | internal/collect/engine.go:249-305 | the pagination loop holds a conversation: each request is the one due (the page number, the count of items received, the token of the reply before, nothing when the endpoint takes no such parameter), each reply but the last calls for another, there are between one and the bound of them, the items are those received, and the error is the refusal, or the truncation of a bound reached while more is announced; it also gives the result of its recursive specification |
| `Fetch.OffsetsFaithful` | internal/collect/engine.go:261-298 | on a server that serves any batch, an empty one included, at any offset and says truly whether items remain when it is asked, whatever it refuses: what is read is a prefix, and the read is complete or an error exactly when no page that looks like the last one comes before the end |
| `Fetch.EmptyPageEndsTheRead` | internal/collect/engine.go:277-289 | an empty first page that says items remain ends the read with nothing and no error |
| `Fetch.OffsetsSucceed` | internal/collect/engine.go:249-289 | a server that is asked whether items remain and serves at least a given number of items a page is read to its end within the page bound |
| `Fetch.FullPagesComplete` | internal/collect/engine.go:289-293 | without a flag from the server, full pages make the read complete or an error, and an unrefused read succeeds exactly when the list is shorter than page size times bound |
| `Fetch.NumberedFaithful` | internal/collect/engine.go:261-293 | the same by page number, with or without a flag: complete or an error exactly when no page that looks like the last one is served while items remain behind it |
| `Fetch.TokenChainComplete` | internal/collect/engine.go:294-298 | a chain of tokens, each part given in reply to the very token of the part before, is read in order to its end or ends in an error, and the bound cuts exactly the longer chains |
| `Fetch.SinglePageComplete` | internal/collect/engine.go:275-277 | an endpoint that is not paginated is complete or an error |
| `Fetch.CutExactly` | internal/collect/engine.go:249-298 | on a list truthfully served, by offset or by page number, what is read is a prefix, and it is cut short without an error exactly when a page that looks like the last one comes before the end |
| `Fetch.ServedIsFaithful` | internal/collect/engine.go:249-305 | over the ways of serving a list that the loop reads completely, whatever is refused, a read is complete or an error |
| `EimPolicy.ReadAllNamed` | internal/eimpolicy/eimpolicy.go:184-256 | users and groups: the bounded loops give the named entries of what is received, in order, although the offset counts all that was received |
| `EimPolicy.ReadAll` | internal/eimpolicy/eimpolicy.go:212-275 | the unbounded loops, on any server that ends, give what is received or the refusal |
| `EimPolicy.ReadsExactly` | internal/eimpolicy/eimpolicy.go:184-275 | on a list truthfully served a success is a prefix, it is the whole list exactly when no empty page comes before the end, and the unbounded loops end |
| `EimPolicy.DrainedWithin` | internal/eimpolicy/eimpolicy.go:184-256 | a server that answers enough per page is read whole within the bound |
| `EimPolicy.EmptyPageHidesNames` | internal/eimpolicy/eimpolicy.go:184-256 | an empty page that announces more gives a success without the name behind it |
| `Projection.Lookup` | internal/collect/engine.go:828-847 | the loop over a dotted path reads the node the path designates, null when there is none |
| `Projection.PathExists` | internal/collect/engine.go:545-575 | the loop decides whether the path designates a node, null included |
| `Projection.ReadIsPresent` | internal/collect/engine.go:531-575 | a value read is present, and a path that is present but reads as null holds an explicit null |
| `Projection.LookupCoalesce` | internal/collect/engine.go:577-587 | the alternatives of a path give the first value that is not null |
| `Projection.SourcePresent` | internal/collect/engine.go:531-541 | an attribute is present when one of its alternatives is |
| `Projection.CoalescedIsPresent` | internal/collect/engine.go:531-587 | a coalesced value was carried by one of its alternatives |
| `Projection.ProjectAttested` | internal/collect/engine.go:407-450 | the projection loop, in whatever order the mapping is walked, gives the specified attributes and attestations |
| `Projection.NoFabricatedValue` | internal/collect/engine.go:407-450 | a projected attribute is not null and attested as observed, what was not observed is not projected, and the provenance has exactly the keys of the mapping |
| `Projection.CopiedFromSource` | internal/collect/engine.go:420-450 | without a transform the value is the node under the first alternative that holds one |
| `Paths.PathReads` | internal/collect/engine.go:828-847 | a path reads what its last key leads to from the node of the path before it; the empty path is the document |
| `Paths.TwoAlternatives` | internal/collect/engine.go:531-587 | of two alternatives, each trimmed, the second is read when the first reads as nothing, and presence is that of either |
| `Extraction.PlainItems` | internal/collect/engine.go:770-793 | an items path without star: an array gives its elements in order, an object itself, anything else nothing; a point is the whole document, no path no item |
| `Extraction.FlattenedItems` | internal/collect/engine.go:773-824 | with stars, however many: the recursive flattening gives what is reached segment by segment, all places at once, in order, each object with the object it was flattened out of |
| `Extraction.OneArray` | internal/collect/engine.go:797-824 | one starred array gives its elements, in order, each object with the document as its parent |
| `Extraction.ReplySays` | internal/collect/engine.go:261-305 | a reply says that more remains exactly when the document holds true there, and its next token is the text it holds there, or nothing |
| `Collector.MapAll` | internal/collect/engine.go:365-378 | one resource per item, in order |
| `Extraction.ResourceOfItem` | internal/collect/engine.go:365-450 | the identity, place and attributes of the resource of an item: constants over what was projected, each with its attestation, and no attribute from elsewhere |
| `Extraction.CopiedAttribute` | internal/collect/engine.go:407-450 | an attribute that is only copied is the value its path holds, if it is not null, and is attested as observed exactly when the item holds the path |
| `Extraction.ComputedAttribute` | internal/collect/engine.go:407-450 | a transform computes on what the item holds, never on nothing, and is attested as derived only when it gave a value |
| `Extraction.ResourceOfCount` | internal/collect/engine.go:165-196 | an aggregate is one resource whose attribute is the count, attested as computed |
| `Collector.CollectForEach` | internal/collect/engine.go:214-243 | the loop over the parents stops at the first parent whose children could not be read, keeps what was read, and reports the parent list's error otherwise |
| `Extraction.ResourcesOfChildren` | internal/collect/engine.go:214-243 | one resource for each child that was read, in order, made from the child with its parent |
| `Extraction.ParentIsReadable` | internal/collect/engine.go:214-243 | what a descriptor reads under the parent key of a child is what the parent holds |
| `Collector.CollectResource` | internal/collect/engine.go:165-196 | what one spec yields, join, list or aggregate |
| `Collector.JoinComplete` | internal/collect/engine.go:214-243 | over faithful lists, a join is a prefix of the nested flat-map of all children of all parents, and all of it when there is no error |
| `Collector.FailsExactly` | internal/collect/engine.go:165-243 | a spec ends in an error exactly when a list behind it failed: its own, or for a join the parents' or that of a parent's children |
| `Collector.CollectedIsCompleteOrError` | internal/collect/engine.go:165-305 | from a server that serves the lists behind it and refuses what it likes, a spec yields everything behind it or an error and a prefix; an aggregate counts the whole list or is not emitted |
| `Extraction.DocumentsBecomeResources` | internal/collect/engine.go:137-305 | from a server that answers documents carrying slices of a list, cut anyhow, and refuses what it likes: the unit is incomplete, or there is one resource per element, in order, each copied attribute being what the element holds under its key |
| `Collector.MissingWithoutError` | internal/collect/engine.go:137-305 | over a list truthfully served, by offset or by page number, resources are missing, or an aggregate counts less than there is, without an error, exactly when a page that looks like the last one comes too early; the unit recorded is then complete |
| `Collector.MissingFromJoin` | internal/collect/engine.go:137-305 | the same for a join: children are missing without an error exactly when the list of a parent that was read was cut, or that of the parents was and one left unread has children |
| `Collector.Collect` | internal/collect/engine.go:137-155 | every spec runs, its resources are kept, and its state is recorded in the collection, in order |
| `Extraction.UnitOfSpec` | internal/collect/engine.go:137-155 | the unit recorded for a spec: its type, attempted, complete exactly without an error, and the class of its error otherwise |
| `CollectionState.Collection.Record` | internal/model/collection.go:147-164 | the state kept in place stays the merge of every record ever made, this one included |
| `CollectionState.UnitSays` | internal/model/collection.go:147-164 | a unit of the state, said of the records of its name: attempted when one was, complete when all were, their types each once and in order, and the error and detail of the first that failed |
| `CollectionState.Collection.Incomplete` | internal/model/collection.go:188-196 | the failing units, in order |
| `CollectionState.Collection.IncompleteTypes` | internal/model/collection.go:201-211 | each type a failing unit feeds is charged to the first such unit |
| `CollectionState.MergeSorted` | internal/model/collection.go:214-231 | the sorted union of two lists of types without duplicates or empty names |
| `CollectionState.MergeUnique` | internal/model/collection.go:147-164 | a history of records leaves exactly one state |
| `CollectionState.OrderDoesNotShow` | internal/model/collection.go:147-164 | neither order nor repetition of the records shows, except in which failure is quoted |
| `CollectionState.IncompleteExactly` | internal/model/collection.go:188-211 | a type is unread exactly when some unit that feeds it was attempted and failed at least once, and it is charged to the failed unit whose name comes first |
| `CollectionState.FailingRecordUnreads` | internal/model/collection.go:147-211 | one failing record leaves its types unread |
| `CollectionState.UnreadGrows` | internal/model/collection.go:147-164 | no later record makes an unread type readable again |
| `Inventory.ResourceTypesOf` | cmd/scan.go:854-877 | the types present in a typed or reloaded inventory |
| `Inventory.SubjectsNamed` | cmd/scan.go:592-623 | the names and identifiers of the resources, and the target when it is known |
| `Waivers.SubjectsSay` | cmd/scan.go:592-623 | the subjects an exemption may name are exactly the identifiers and names of the resources and the target, when not empty |
| `Inventory.AttrsByTypeOf` | cmd/scan.go:929-1063 | attribute k counts for type t exactly when some resource of t exposes it and every resource of t exposes it or was searched for it in vain; the keys are the types present |
| `Inventory.AttrsByTypeUnique` | cmd/scan.go:929-1063 | that specification determines the result |
| `Inventory.OrderDoesNotMatter` | cmd/scan.go:929-1063 | the result does not depend on the order or repetition of the resources |
| `Inventory.OneMoreResource` | cmd/scan.go:986-1056 | what one more resource changes: it must vouch for the attribute, and it may be the one that unlocks it |
| `Inventory.ReloadShowsTheSame` | cmd/scan.go:854-1063 | an inventory written to JSON and reloaded shows the assessment what the typed one did |
| `ProvenanceIndex.ProvenanceOf` | internal/assess/provenance.go:62-112 | the index has an entry exactly for the attributes sought on each type, with the sorted distinct sources, the count observed and the count sought |
| `ProvenanceIndex.IndexUnique` | internal/assess/provenance.go:62-112 | that specification determines the index |
| `Annotations.IndexSays` | internal/assess/provenance.go:62-112 | for each attribute asked for on a type: how many resources were asked, how many had it, and the distinct marks of their sources, sorted |
| `Annotations.MarkSays` | internal/assess/provenance.go:117-131 | the mark of an attestation: its nature, its source when it has one, and whether it was computed, unless its nature says so |
| `Assess.DecidingByType` | internal/assess/assess.go:581-595 | the attributes to require on each type, a named type counting only when present |
| `Assess.AttributesCollected` | internal/assess/assess.go:557-614 | every deciding type has one declared attribute, or all of them for the controls that need all, and there is a deciding type |
| `Assess.BrokenCorrelations` | internal/assess/assess.go:335-365 | the secondary types present whose deciding data is missing, sorted |
| `Assess.ReasonIsThere` | internal/assess/assess.go:618-682 | the reason given for a control that does not pass is an obstacle that is really there, and the types or attributes it names are exactly the missing ones |
| `Assess.ReasonIsTheObstacle` | internal/assess/assess.go:618-682 | it is the first condition of the lock that fails: not verified exactly when the contract does not verify the control, no resource exactly when it is verified but not applicable, missing attributes exactly when only the deciding data is missing |
| `Assess.JudgeFindings` | internal/assess/assess.go:378-422 | one verdict per finding, and the controls that have one |
| `Reference.FindingCarries` | internal/assess/assess.go:378-422 | what the line of a finding carries: references and remediation of its control, its own labels, its message, or exactly the types whose link is missing |
| `Assess.Build` | internal/assess/assess.go:377-503 | the verdicts of the findings, then of the controls without finding in the order of their codes |
| `Assess.BuiltMembers` | internal/assess/assess.go:377-503 | a verdict is that of a finding or that of a control without any, and each such verdict is there |
| `Assess.PassIsUnlocked` | internal/assess/assess.go:424-503 | a pass has no finding, is declared, not ruled out, verified, applicable, and has its deciding data |
| `Assess.UnlockedPasses` | internal/assess/assess.go:424-503 | conversely such a control passes: the lock is exact |
| `Reference.ControlCarries` | internal/assess/assess.go:424-503 | what the line of a control without finding carries: its severity, its references and its justification |
| `Reference.PassRests` | internal/assess/assess.go:449-487 | a pass names exactly the types it was judged on, sorted, or the declaration it rests on |
| `Assess.FindingsStayVisible` | internal/assess/assess.go:378-422 | each finding has its line in its place, with its subject, labels and severity, and is a deviation exactly when the rule decided and the correlation holds |
| `Assess.BuiltCount` | internal/assess/assess.go:377-503 | as many lines as findings plus controls without finding that are declared or justified as not applicable |
| `Passes.WithProvenance` | internal/assess/provenance.go:166-215 | annotates each verdict with the origin of its deciding attributes, and decides nothing |
| `Annotations.ProvenanceShown` | internal/assess/provenance.go:166-215 | a verdict shows exactly the attributes its control asks for that the index knows, on the main type for the empty key, each with its origin, and nothing else of it moves |
| `Passes.UnsoughtExactly` | internal/assess/attested_absence.go:107-140 | fields are named as never sought exactly when a deviation rests on one that nobody sought on a type whose other fields were sought |
| `Passes.WithAttestedAbsence` | internal/assess/attested_absence.go:76-98 | withdraws, in place, exactly the deviations that rest on such a field |
| `Annotations.AbsenceShown` | internal/assess/attested_absence.go:76-140 | a deviation that rests on an absence nobody looked for is withdrawn and names exactly the fields and types never asked for; every other verdict is kept whole |
| `Passes.DegradedControls` | internal/assess/collection.go:52-87 | the controls of the scope that read an unread type, each with the unit it is charged to |
| `Annotations.ChargedUnit` | internal/assess/collection.go:52-87 | a degraded control is charged to a unit that was attempted, was not read whole, and feeds a type it reads |
| `Passes.Degrade` | internal/assess/collection.go:93-121 | rewrites the verdicts of those controls, passes becoming not evaluated, and returns how many passes were withdrawn |
| `Passes.DegradeVerdict` | internal/assess/collection.go:104-118 | a verdict passes after degradation only if it passed before |
| `Annotations.IncompletenessShown` | internal/assess/collection.go:93-121 | a degraded control loses its pass, and a verdict of it that is not evaluated names the unit and the right it would take; nothing else moves |
| `Passes.WithRelaxations` | internal/assess/relaxation.go:50-86 | drops the references of relaxed controls, labels them and qualifies their evidence |
| `Annotations.RelaxationShown` | internal/assess/relaxation.go:50-86 | a relaxed verdict loses its references and says so in three labels and in its evidence, whose texts are given; everything else is kept |
| `Passes.RelaxTwice` | internal/assess/relaxation.go:50-86 | a second application changes nothing but the evidence, where it repeats its sentence, and nothing at all exactly when no verdict is that of a relaxed control |
| `Exempt.WholeDayIsCovered` | internal/exempt/exempt.go:61-74 | a date without time covers its whole day and not an instant more |
| `Reference.ValidityRead` | internal/exempt/exempt.go:61-74 | an exemption lapses after the end of its day, after its instant, and at once when its date cannot be read |
| `Exempt.MatchIsFirst` | internal/exempt/apply.go:217-227 | the exemption attributed is valid, covers, and none before it in the file does both |
| `Exempt.FindMatch` | internal/exempt/apply.go:217-227 | the loop over the candidates finds the first that covers |
| `Exempt.Rewrite` | internal/exempt/apply.go:168-182 | the verdicts are rewritten in place, and each candidate is credited with exactly the subjects it set aside |
| `Exempt.Apply` | internal/exempt/apply.go:125-204 | the rewritten verdicts, and a sorted report with one record per orphan, expired or applied exemption |
| `Exempt.ExemptedExactly` | internal/exempt/apply.go:125-204 | a verdict becomes exempted exactly when it was a deviation and the file holds an unexpired exemption of a known control, without resource or for that very subject; all else is kept |
| `Exempt.ExemptedIsAttributed` | internal/exempt/apply.go:168-250 | a verdict set aside names the first exemption of the file in force for it: justification, owner, approver and end of validity |
| `Waivers.VerdictAfter` | internal/exempt/apply.go:168-250 | a deviation is set aside by the first exemption of the file that names a known control and resource, has not lapsed and aims at it, and carries its justification, date and signatures; every other verdict is kept whole |
| `Exempt.NoCoveredDeviationLeft` | internal/exempt/apply.go:125-204 | no remaining deviation is covered by an exemption in force |
| `Exempt.FileOrderDoesNotMatter` | internal/exempt/apply.go:125-227 | the statuses do not depend on the order of the file |
| `Exempt.TimeOnlyShrinks` | internal/exempt/apply.go:231-237 | later, no verdict is exempted that was not before |
| `Exempt.SubjectsDoNotMatter` | internal/exempt/apply.go:125-181 | the whole list of verdicts is independent of the subjects the caller passes |
| `Exempt.EffectIsItsOwn` | internal/exempt/apply.go:168-194 | two exemptions never set aside the same control and subject |
| `Exempt.RecordSaysFate` | internal/exempt/apply.go:137-202 | an exemption is orphan, expired, applied or dormant, its record says which, and only a dormant one has none |
| `Waivers.ReportHolds` | internal/exempt/apply.go:125-204 | the report repeats the file and holds exactly the records due, each said of the exemption and the verdicts: applied, then expired, then orphans, by control and by resource |
| `Exempt.FatesAddUp` | internal/exempt/apply.go:65-202 | the report holds one record per exemption that is not dormant, and its orphan, expired and applied records are as many as the exemptions with that fate and no more |
| `Exempt.ReportCounts` | internal/exempt/apply.go:65-81 | the report counts each fate but dormancy, once per exemption |
| `Exempt.AppliedMeansExempted` | internal/exempt/apply.go:77-77 | the report says an exemption applied exactly when a verdict became exempted |
| `Exempt.AppliedPairs` | internal/exempt/apply.go:168-194 | the control and subject pairs named by the applied records of the report are exactly those of the newly exempted verdicts |
| `Gate.ExemptedKeysOf` | cmd/scan.go:641-649 | the keys of the exempted verdicts |
| `Gate.OpenFindings` | cmd/scan.go:654-666 | the deviations whose key is not among them, in order |
| `Gate.OpenExactly` | cmd/scan.go:641-666 | a deviation stays in the gate exactly when no exempted verdict has its key, and when the codes can be told apart, exactly when none has its control and subject |
| `Gate.KeysSeparate` | cmd/scan.go:641-666 | the keys of two codes tell all their pairs apart exactly when neither code is the beginning of the other, cut before a NUL |
| `Gate.KeysCollide` | cmd/scan.go:641-666 | for any two other codes, the two subjects that make the keys equal |
| `Gate.Summarize` | internal/scoring/scoring.go:19-35 | the total and the count of each severity |
| `Gate.CompliantExactly` | internal/scoring/scoring.go:19-35 | compliant means no critical and no high deviation |
| `Gate.EvaluatedNonGov` | cmd/scan.go:720-731 | how many controls outside governance ended as pass or fail |
| `Gate.ExitLadder` | cmd/scan.go:368-432 | when each of the four codes is returned |
| `Gate.Conclude` | cmd/scan.go:313-432 | the code and the headline are those of the facts of the scan |
| `Outcome.ScanOutcome` | cmd/scan.go:368-432 | each exit code and each headline, if and only if what it says of the findings, of the final verdicts, of the records and of the policy, without the counts of the gate |
| `Outcome.NothingMeasured` | cmd/scan.go:720-731 | when no final verdict is a pass or a failure of a control outside governance, the code is 1 or 3, never 0 nor 4, and the headline is undetermined |
| `Pipeline.AssessAll` | cmd/scan.go:190-251 | the passes in the order of the command, from inventory and collection state to final verdicts and report |
| `Pipeline.RunScan` | cmd/scan.go:190-432 | the same, to the exit code and the headline |
| `Pipeline.StatusAt` | cmd/scan.go:228-251 | the final status of every line, from the status it was built with |
| `Pipeline.StatusMachine` | cmd/scan.go:228-251 | the passes keep length, place, control and subject, and only move pass to not evaluated, an unattested deviation to not evaluated, and a deviation to exempted; the number of lines is that of the findings plus the controls without finding |
| `Reference.FindingsConcluded` | cmd/scan.go:190-251 | each finding has its line in its place, with its control, its subject and its severity or that of its control; it is not evaluated when the rule could not decide, a link is missing or the absence is unfounded, exempted when a valid exemption aims at it, and failed otherwise, all said of the resources, the tables and the policy |
| `Reference.ControlsConcluded` | cmd/scan.go:190-251 | after the findings, exactly one line for each control without finding that is justified or declared, and for no other: not applicable exactly when justified, a pass exactly when it is verified, its types are there, the data it asks for is established and nothing it reads was left unread, and not evaluated otherwise |
| `Trail.LineAtTheEnd` | cmd/scan.go:228-251 | what each line says at the end of the passes: the unit not read that its control depends on, if it is not evaluated; otherwise the absences it rested on, if it was a deviation that was withdrawn; its own reason in every other case; qualified, and without references, exactly when its control is relaxed |
| `Pipeline.DeviationStaysVisible` | cmd/scan.go:228-251 | a conclusive finding with its correlation intact stays in its place as a deviation, an exempted one, or one whose absence nobody attested |
| `Pipeline.RelaxedLoseReferences` | internal/assess/relaxation.go:50-86 | at the end of the passes a verdict of a relaxed control has no reference left and is labelled so, and every other verdict has the references it was built with |
| `Pipeline.PassIsProven` | cmd/scan.go:190-251 | a final pass has no finding, is in the scope, verified, applicable, reads no unread type, and on every deciding type the same declared attribute (all for the controls that need all) is shown by some resource, and shown by or searched for in vain on every other |
| `Pipeline.UnreadIsNeverGreen` | cmd/scan.go:190-432 | for any history of collection: no control of the scope that reads an unread type passes, and the scan does not exit 0 |
| `Pipeline.FailedReadIsNeverGreen` | internal/collect/engine.go:137-305 | on any server: when any list behind a spec ended in an error, no control of the scope that reads its type passes and the scan does not exit 0, whatever is recorded later |
| `Pipeline.IncompleteCollectionIsNeverGreen` | internal/collect/engine.go:137-305 | from the server to the exit code: when it serves the lists behind a spec, parents and children included, and the resources collected are not all of them, no control of the scope that reads its type passes and the scan does not exit 0, whatever is recorded later |
| `Pipeline.FailedSpecIsUnread` | internal/collect/engine.go:137-155 | a spec that ended in an error leaves its type unread for good |
| `Certainty.AppliedIffExempted` | cmd/scan.go:413-415 | the report says an exemption applied exactly when a final verdict is exempted |
| `Certainty.ExitZeroExactly` | cmd/scan.go:368-432 | exit 0 exactly when no retained critical or high deviation, nothing exempted, no control degraded, nothing severe set aside, something measured, and in strict mode no medium or low deviation, stale exemption or relaxed control |
| `Certainty.ExitZeroHeadline` | cmd/scan.go:1522-1606 | on exit 0 the headline is never undetermined, non-compliant or incomplete, and in strict mode it is the plain compliant one |
| `Certainty.ExitZeroFailures` | internal/scoring/scoring.go:19-35 | a scan that exits 0 shows a failed verdict of critical or high severity exactly when some finding that stands carries no severity, on a control of such a severity |
| `Certainty.ExitZeroBesideFailure` | internal/scoring/scoring.go:19-35 | a scan of a fully read inventory, in strict mode, that exits 0 with a failed verdict of high severity |
| `Certainty.ExitOneExactly` | cmd/scan.go:368-370 | for all codes, exit 1 exactly when no exempted finding has the key of some retained critical or high deviation; when the codes can be told apart, exactly when such a deviation was withdrawn by the assessment or is covered by no exemption in force |
| `Certainty.ExitOneByKey` | cmd/scan.go:368-370 | the same read from the final verdicts: exit 1 exactly when a retained critical or high deviation has a key that no exempted verdict has |
| `Certainty.DeviationFailsExactly` | cmd/scan.go:228-251 | a conclusive finding has a failed verdict exactly when it was not withdrawn and no exemption in force covers it, and an exempted one exactly when it was not withdrawn and one does |
| `Certainty.WithdrawnStillWeighs` | cmd/scan.go:305-370 | a critical or high deviation that the assessment withdrew, for a broken correlation or an unattested absence, leaves no failed verdict on its control, and the scan exits 1 all the same, unless an exempted finding has its key, which takes a code that cannot be told apart from it |
| `Certainty.ExitOneWithoutFailure` | cmd/scan.go:305-370 | a scan that exits 1 while none of its verdicts is a failure |
| `Certainty.FailuresOnlyRemoveCertainty` | internal/model/collection.go:147-211 | further records of collection turn at most passes into not evaluated, keep every other line, a non-zero exit non-zero and exit 1 at 1 |
| `Certainty.StatusesOnlyLosePasses` | internal/assess/collection.go:52-121 | the same, line by line, for any two sets of unread types one within the other |
| `Sealing.CanonicalTwice` | internal/assess/bundle.go:140-153 | reading a sealed list back into the sealing order changes nothing |
| `Sealing.SealedInOrder` | internal/assess/bundle.go:140-153 | sealed verdicts are those given, by control, then by subject, then by the text of their status |
| `Sealing.ArrivalShowsExactly` | internal/assess/bundle.go:140-153 | every reordering of a list is sealed alike exactly when no two different verdicts of it share control, subject and status |
| `Sealing.TiesKeepTheirOrder` | internal/assess/bundle.go:140-153 | in whatever list, two verdicts that do share them are sealed side by side in the order they came |
| `Sealing.StatusIsItsText` | internal/assess/bundle.go:140-153 | two statuses have the same text exactly when they are the same status |
| `Rederive.LocalizeFindings` | cmd/scan.go:808-822 | the findings are put into the language of the process in place, and lose the labels that carried the translation |
| `Rederive.WordsOf` | cmd/scan.go:808-822 | a localized finding takes its words in English when the process speaks it and there is a translation that is not blank, loses the labels that carried it, and keeps the rest |
| `Rederive.CloneFindings` | cmd/scan.go:827-834 | a fresh copy, so that the second language starts from the same findings |
| `Rederive.ReDeriveInEitherLanguage` | cmd/verify.go:230-280 | the two replays: it matches exactly when one of them reads like the sealed document, returns the first that does, in its language, or else the first try, and leaves the language of the process as it was |
| `Rederive.ReplayIsFaithful` | cmd/verify.go:230-280 | the replay of the sealed inventory, with other subjects, gives the verdicts of the scan, of a typed inventory or of a reloaded one |
| `Rederive.FaithfulBundleMatches` | cmd/verify.go:230-280 | what a scan in either language sealed is recognized, under the policy of its report |
| `Rederive.SealedPassIsProven` | cmd/verify.go:149-280 | every pass of a recognized bundle is proven on the reloaded inventory: no finding, every type read, deciding data shown by some resource and shown by or searched for on every other |
| `PolicyEffect.NoEffect` | internal/exempt/apply.go:125-204 | replaying without change of anything else, a policy that covers no deviation that stands changes no verdict |
| `PolicyEffect.OneFewer` | internal/exempt/apply.go:125-204 | and one that covers some leaves fewer failures |
| `Dossier.DossierReadsBack` | cmd/verify.go:149-302 | in a sealed directory verify finds the assessment, its rendering and the input that were sealed, and as policy that of the report, or when the report is empty what the directory held before |
| `Dossier.ReDerive` | cmd/verify.go:95-280 | no refusal exactly when assessment, input and policy of the directory can be read, its provider is known, the rules, policy, configuration and instant they give lead to the sealed results in one language, the rendering is that of the results derived, and the instants agree; the language of the process is left as it was |
| `Dossier.ReplayTakes` | cmd/verify.go:149-280 | a replay takes the findings, the policy, the tagged types, the relaxations and the instant from the directory, and nothing else; an unreadable instant is that of the verifier |
| `Dossier.UnknownProviderIsRefused` | cmd/verify.go:149-175 | a run of an unknown provider is never confirmed |
| `Dossier.HonestDossier` | cmd/verify.go:95-302 | the bundle a scan seals is accepted, and is recognized from the directory alone exactly when nothing stale was there that covers a deviation that stands, the rendering does not suffer from the sealing order, and the input carries no other instant than the run |
| `Dossier.OscalInItsLanguage` | cmd/verify.go:95-120 | to a verifier that speaks the language of the scan, the rendering agrees exactly when that of the sealed order is that of the order of the scan |
| `Dossier.OscalFollowsExactly` | cmd/verify.go:95-120 | a rendering that hides the order always agrees, one that lists the results in their order agrees exactly when the scan produced them in the sealing order |
| `Dossier.LateFinding` | internal/assess/assess.go:377-503 | a finding on a control whose code comes after that of a control with a verdict of its own keeps the results out of the sealing order |
| `Dossier.RecognizedPassIsProven` | cmd/verify.go:149-280 | whoever wrote a directory, when it is recognized every pass of its assessment is proven on the input it holds: no finding of the rules, every type read, deciding data shown by some resource and shown by or searched for on every other |
| `Refused.StaleExemptionsRefuse` | cmd/verify.go:149-302 | a bundle faithfully sealed where an earlier one left an exemption of its deviation is accepted and not recognized, in either language |
| `Refused.RescanIsRefused` | cmd/scan.go:158-166 | the scan of an input that carries another instant seals a bundle that is accepted and not recognized |
| `Refused.LateFindingIsRefused` | cmd/verify.go:95-120 | when the rendering lists the results in their order, a bundle faithfully sealed with a late finding is accepted and not recognized |
| `Language.LanguageDoesNotShow` | cmd/verify.go:188-195 | both languages conclude the same control, subject and status line by line |
| `Checksums.SplitLines` | internal/assess/bundle.go:409-422 | the byte loop cuts the text into its lines, the last one counting when it is not empty |
| `Checksums.LinesOfEnded` | internal/assess/bundle.go:409-422 | splitting is the inverse of ending lines: it gives back the lines a text was made of, then those of what follows |
| `Checksums.ParseChecksum` | internal/assess/bundle.go:424-439 | the byte loops read a line as specified |
| `Checksums.ParseExactly` | internal/assess/bundle.go:424-439 | a line reads as a digest and a name exactly when it is the one, some spaces and the other, in one way only |
| `Checksums.ReadList` | internal/assess/bundle.go:274-298 | a list is read exactly when every line is legible and no name is listed twice, and gives the digest of each name |
| `Checksums.ListRoundTrip` | internal/assess/bundle.go:241-262 | reading a printed list gives back its entries |
| `Checksums.PlainNameExactly` | internal/assess/bundle.go:327-329 | the guard lets through the names without a slash, and the slash alone |
| `Bundle.SummaryOf` | internal/assess/bundle.go:401-407 | the recount by status |
| `Bundle.WritePieces` | internal/assess/bundle.go:236-245 | the files, the artifacts and the list of digests grow together, file by file |
| `Bundle.WriteBundle` | internal/assess/bundle.go:160-262 | the whole directory after sealing, over what it held before |
| `Contents.SealedFiles` | internal/assess/bundle.go:160-262 | under each of the five names exactly what sealing was given for it, and what was there before when it was given nothing; every other name is untouched |
| `Contents.SealedManifest` | internal/assess/bundle.go:160-262 | the manifest read back names the run and the summaries given, declares exactly the files given, in order, with their role, digest and size, and counts the verdicts of each status |
| `Contents.SealedList` | internal/assess/bundle.go:236-262 | the text of the list is one line for each declared file, in order, then that of the manifest |
| `Contents.SealedDigests` | internal/assess/bundle.go:236-262 | the list read back names exactly the files given and the manifest, each with the digest of what the directory holds |
| `Bundle.CheckDeclarations` | internal/assess/bundle.go:306-319 | no error exactly when every artifact is listed and every listed name is an artifact or the manifest |
| `Bundle.CheckDigests` | internal/assess/bundle.go:320-338 | no error exactly when every listed name is plain, present and has its digest |
| `Bundle.CheckSizes` | internal/assess/bundle.go:343-354 | no error exactly when every artifact has its declared size |
| `Bundle.CheckSummary` | internal/assess/bundle.go:369-399 | no error exactly when the announced counts, if any, are those of the assessment |
| `Bundle.CompareCounts` | internal/assess/bundle.go:381-397 | the two loops agree exactly when the counts are equal for every status |
| `Bundle.VerifyBundle` | internal/assess/bundle.go:269-356 | no error exactly when the directory is an acceptable bundle |
| `Contents.AcceptanceMeans` | internal/assess/bundle.go:269-399 | a directory is accepted exactly when every line of its list is a digest, spaces and a name, no name comes twice, every declared file is listed and every listed one declared or the manifest, plain, there and of that digest, every size is right, and the announced counts are those of the assessment or there are none |
| `Pinning.RoundTrip` | internal/assess/bundle.go:160-356 | verification accepts what sealing wrote, for every assessment, with or without input, configuration and exemptions, whatever the directory held |
| `Pinning.AcceptedExactly` | internal/assess/bundle.go:306-354 | in an accepted bundle the listed names are the declared artifacts and possibly the manifest, all plain, with matching digests, and artifacts with matching sizes |
| `Pinning.CountsAreTrue` | internal/assess/bundle.go:369-399 | the counts an accepted bundle announces are those of its assessment |
| `Pinning.ListedFilesArePinned` | internal/assess/bundle.go:320-338 | under a collision-free digest, two accepted bundles with the same list agree on every listed file |
| `Pinning.ManifestMayBeUnlisted` | internal/assess/bundle.go:264-319 | for every assessment, the sealed bundle whose list lost the line of the manifest is still accepted |
| `Pinning.ManifestPinnedExactly` | internal/assess/bundle.go:264-319 | the list pins the manifest exactly when it names it |
| `Pinning.SameManifestSameCounts` | internal/assess/bundle.go:358-399 | accepted bundles with the same manifest, when it announces counts, have as many verdicts of each status |
| `Pinning.RelabellingIsRejected` | internal/assess/bundle.go:358-399 | giving one verdict another status with the manifest unchanged is rejected, whatever list is regenerated |
| `Pinning.ResealedExactly` | internal/assess/bundle.go:320-399 | replacing the assessment and regenerating the list alone is accepted exactly when size and counts are the declared ones |
| `Pinning.UnlistedIsIgnored` | internal/assess/bundle.go:320-338 | a file no list names changes nothing |
| `Pinning.StaleExemptionsStay` | internal/assess/bundle.go:160-262 | sealing without exemptions leaves the exemptions document of the directory as it was |
| `Pinning.DeclaredDigestIsIgnored` | internal/assess/bundle.go:306-354 | the digest an artifact carries in the manifest is never compared |
| `KeyedDiff.SortKeys` | internal/assess/diff.go:246-262 | keys taken from a map in any order, then sorted, give one list |
| `KeyedDiff.EditsExactly` | internal/assess/diff.go:264-300 | the edits are exactly the keys whose values differ, in strict order |
| `KeyedDiff.EditsArePatch` | internal/assess/diff.go:264-300 | applied to the first index they give the second |
| `Diff.IndexResults` | internal/assess/diff.go:304-317 | the index exists exactly when every verdict names a control and no pair repeats, and the error is that of the first offending verdict |
| `Diff.MergeResults` | internal/assess/diff.go:246-302 | the loop over the ordered keys gives the described edits and their tally |
| `Diff.CompareResults` | internal/assess/diff.go:236-302 | changes and counters exactly when both sides can be indexed, and otherwise which side could not |
| `Diff.OrderDoesNotShow` | internal/assess/diff.go:304-317 | the index does not depend on the order of the verdicts |
| `Diff.ResultChangesExactly` | internal/assess/diff.go:264-300 | the changes are exactly the keys whose status differs, strictly ordered, each with its kind and statuses |
| `Comparison.ChangesReported` | internal/assess/diff.go:236-336 | the changes reported are exactly those due, said of the verdicts of each side: added, removed, fixed, regressed, visibility lost or restored, or another change; by control then subject, each pair once |
| `Diff.ChangesArePatch` | internal/assess/diff.go:236-302 | replayed on the statuses before, the changes give the statuses after |
| `Diff.ChangesSwap` | internal/assess/diff.go:236-332 | the other way round, fixed and regressed, lost and restored, added and removed are exchanged in place, and so are the counters |
| `Diff.CountersAddUp` | internal/assess/diff.go:264-302 | the counters add up to the number of changes, and added minus removed is the difference of the lengths |
| `Diff.CountersCountPairs` | internal/assess/diff.go:264-302 | each counter is the number of pairs of its kind, none missed and none counted twice |
| `Diff.LossIsNotAFix` | internal/assess/diff.go:319-336 | as many are counted fixed as pairs that failed and now pass, and as many lost as pairs that were visible and no longer are |
| `Comparable.ScanIsComparable` | internal/assess/diff.go:304-317 | the sealed verdicts of a scan can be indexed exactly when every finding names a control, no two name the same control and subject, and no nameless control has a verdict of its own |
| `Comparable.SealedIsIndexable` | internal/assess/bundle.go:140-153 | the sealing order does not change whether verdicts can be indexed |
| `Diff.IndexResources` | internal/assess/diff.go:391-404 | the same for resources, by provider, type and identifier |
| `Diff.CompareResources` | internal/assess/diff.go:338-389 | the resource changes exactly when both inventories can be indexed, and otherwise which could not |
| `Diff.CountMoves` | internal/assess/diff.go:126-134 | how many resources were added and removed |
| `Diff.ResourceChangesExactly` | internal/assess/diff.go:367-388 | a resource is added exactly when only the second side has it, removed exactly when only the first has |
| `Comparison.MovesReported` | internal/assess/diff.go:338-404 | a resource is reported as added when only the second inventory holds its provider, type and identifier, as removed when only the first does, and not otherwise |
| `Diff.MovesArePatch` | internal/assess/diff.go:338-389 | taking away what left and adding what arrived gives the second inventory |
| `Diff.MovesSwap` | internal/assess/diff.go:338-389 | the other way round, arrivals and departures are exchanged in place |
| `Diff.ResourcesAddUp` | internal/assess/diff.go:338-404 | arrivals minus departures are the growth of the inventory |

## Left out

- HTTP, signatures, credentials, files and the terminal: the server is a function, a directory is a map of names to contents, and input/output errors other than an absent file are not modelled; neither are file modes nor the temporary file of the OSCAL rendering.
- Rules, the gate profiles and the control tables: findings, the retained part and the tables are parameters.
- JSON, YAML, OSCAL and SHA-256: documents are read back as written and the digest is a function, collision-free where a statement says so. Bytes are characters, so the size of a file is its number of characters.
- The wording of evidence, headlines and errors: a verdict carries the reason it rests on, not its sentence.
- Paths of endpoints, variables of a URL and the body of a request: the World gives the endpoint of each list and the answer to each request.
- Named transforms: any function of the value read that also says whether it computed; the individual transforms are not modelled.
- `Classify`: any function from an error to an outcome; its classes do not weigh in a verdict.
- RecordUnmapped, redaction of inventories and subjects, the digest of a policy, the notices of a report: they move no verdict and no exit code.
- The composition of the inline-policy collectors: only their pagination loops, where the reading is decided.
- The provenance of a bundle (its versions and targets) and its signature.
- DiffBundles: reading and checking the two directories, and the comparison of their versions; the comparisons themselves are modelled.
- EimPolicy.ReadAll: asks for a server that ends, after any number of pages, because the loop has no bound of its own; every finite list truthfully served does (`EimPolicy.FiniteListsEnd`).
- Rederive.CloneFindings: labels are values here, so the copy of the map of labels that keeps the second language intact is not visible.
- Rederive.FaithfulBundleMatches: takes inventory, policy and configuration as given; what a directory really gives, and the fallback to the clock when the instant of a run cannot be parsed, are in Dossier.
- Dossier.ReDerive: the findings, their Terraform origin included, are any function of the sealed input, which leaves out the scans that add rules of their own (`--policy-dir`); the configuration is the tagged types and the relaxations it leads to, and an unreadable one is an unreadable input; the OSCAL rendering and its normal form are functions of the assessment and of the text; an error other than an absent file and the note on the digest of the rules are not modelled.
- Gate.Profile: what the profile retains is any function of a finding, and what it holds to be severe any set of severities with critical and high in it, so that the case of other spellings is left open.
- Atoi: an index beyond the machine word is an error in the program and a very large number here; its reader rejects both.
