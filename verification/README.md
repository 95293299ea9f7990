# Verification of the admin API's stateful core

A Dafny model of the parts of the configuration admin service that hold real state or in-place algorithms, with
proofs of what they keep. `dafny verify dfyconfig.toml` checks everything.

| file | what it models |
|---|---|
| `Basics.dfy` | stock definitions, the unstable library sort, scans of a table |
| `PriorityOrder.dfy` | the in-place shift of priority-ordered rules, and packing, on arrays of rule objects |
| `RuleTable.dfy` | the table of rules, and the list each group of it stands for; each store operation refines a list operation |
| `NamedRules.dfy` | the check that no other rule of a group has the same name or an equal rule |
| `FeatureRules.dfy` | feature rules: create, update, change priority, delete, and runs of them |
| `FirmwareTemplates.dfy` | firmware rule templates, ordered per action type, and the built-in ones |
| `DcmFormulas.dfy` | DCM formulas, including the update that patches its slice at the wrong index |
| `ChangeApproval.dfy` | the approval workflow of permanent telemetry profiles: propose, approve, cancel, revert |
| `BatchApproval.dfy` | batch approval and merging of telemetry two changes |
| `DuplicateIndex.dfy` | the index by name, MAC address and rule key that replaces a scan, as a record of what was filed |
| `BulkImport.dfy` | bulk import of firmware rules: the batch loop, and when its indexed check agrees with a scan |
| `PercentRanges.dfy` | percent ranges of a feature rule |
| `NamespacedLists.dfy` | namespaced lists: references across rename and delete, adding and removing items |
| `TimeWindows.dfy` | hourly chunks of the change log, windows of changed keys |
| `Paging.dfy` | cutting a list into pages, with 64-bit products |

Services are classes whose methods update their stores in place. Each method is proved against a specification
function or relation (`Step`, `Run`, `Process`, `ImportAll`, `Effect`), and the promises are lemmas about those, over
every input and every run. What a single request does is stated once more without them, request by request (`CreateDoes`,
`PutStores`, `ApproveDoes`, `UpdateStores` and their like): when it is accepted, what the stores then hold, and what
stays.

## Assumptions

- The database is an in-memory map; writes cannot fail, and a read hands out fresh objects. The cache of the real
  service may hand out objects that are still shared, so a mutation can become visible before it is saved.
- The caller is authorised. Its application type and name, generated identifiers and the time are parameters;
  generated identifiers are new when they are generated.
- Predicates of the rules library and of the bean classes (equality of rules and of change data, validity of one
  rule or profile, the key of a rule, MAC normalisation, intersection of list data) are parameters. Equality is
  assumed symmetric where a lemma says so, and equal rules are assumed to have equal keys.
- A blank identifier is one made of spaces only. Where a rule or feature leaves the name of a list blank, as the
  built-in templates do, no list is meant.
- Application types are `stb` and `rdkcloud`, as in `shared/coretypes.go`; no stored rule has the type `all`.

## Findings

Where a property one would expect is false of the code, the exact condition is proved.

- A feature rule's priority can be changed by a caller of another application type; then the wrong list is
  reordered (`FeatureRules.ChangePriorityExact`).
- A template update that changes the action type never stores the template; it reports success unless the new type
  has no templates (`FirmwareTemplates.UpdateStoresItsTemplate`).
- A DCM formula update that changes the priority is right only if the old or the new priority is 1, or if nothing
  but the priority changes and the patched index lies past the slice; otherwise the new content is lost or two
  formulas get one priority (`DcmFormulas.UpdateIsRightExactlyWhen`, `DcmFormulas.UpdateKeepsNumbering`). The next
  delete of the type repairs the numbering (`DcmFormulas.DcmFormulaService.DeleteDcmFormula`).
- Neither approving nor reverting an update checks names (`ChangeApproval.StepKeepsNames`,
  `ChangeApproval.RunKeepsNames`).
- A batch-approved change whose approved record does not validate disappears without an error
  (`BatchApproval.ListedChangesAreConserved`).
- A change listed twice in a batch approval can be approved and reported as failed
  (`BatchApproval.ApprovedYetFailed`).
- In a bulk PUT a name given up earlier in the request still counts as taken, and so does a rule given up as long
  as its entry stays in the index (`BulkImport.PutCheckIsScan`).
- In a bulk POST two submissions under one blank identifier are never compared, and the entry of the first can be
  overwritten by the second, after which even a rule with its own identifier can repeat the first
  (`BulkImport.UniqueExactly`, with the inputs `BulkImport.BlanksEscapeTheCheck` and
  `BulkImport.OverwrittenEntry`).
- Renaming a namespaced list leaves environment-model whitelists behind, in any stores and whatever else dangles
  there (`NamespacedLists.StepBreaks`, `NamespacedLists.RunBreaks`, `NamespacedLists.WhitelistLeftDangling`), and
  overwrites a list of another type (`NamespacedLists.RenameSparesOthers`).
- Huge page numbers wrap around (`Paging.PageIsRightExactlyWhen`).

## Model

| member | source | states |
|---|---|---|
| `Basics.SortSlice` | adminapi/queries/feature_rule_service.go:168-170 | the library sort is not stable: all that is promised is an ordered permutation of the input |
| `PriorityOrder.ShiftForward` | adminapi/queries/feature_rule_service.go:181-187 | the first loop of the shift: exactly the slots between the two positions take their right neighbour, each displaced rule loses one from its priority, no other slot or priority changes |
| `PriorityOrder.ShiftBackward` | adminapi/queries/feature_rule_service.go:188-194 | the second loop: exactly the slots between the two positions take their left neighbour, each displaced rule gains one |
| `PriorityOrder.MoveSlot` | adminapi/queries/feature_rule_service.go:179-195 | in place, slot k afterwards holds what stood at Source(i, j, k), slots between the positions are numbered by their index, priorities outside are untouched |
| `PriorityOrder.Reorganize` | adminapi/queries/feature_rule_service.go:175-203 | for rules with distinct ids and any old priority that names a slot, the array becomes the list with one element moved to the clamped position, and the returned slice is exactly the renumbered part |
| `PriorityOrder.MoveAt` | adminapi/queries/feature_rule_service.go:175-197 | where each element of a moved list comes from, and that the opposite move has the inverse origin |
| `PriorityOrder.MoveAndBack` | adminapi/queries/feature_rule_service.go:175-197 | moving an element and moving it back gives the same list |
| `PriorityOrder.ShiftAndBack` | adminapi/queries/feature_rule_service.go:175-197 | on a list numbered 1..n a shift keeps the numbering, and the opposite shift restores every slot and every priority |
| `PriorityOrder.ShiftKeepsIds` | adminapi/queries/feature_rule_service.go:175-197 | a shift neither loses, duplicates nor invents a rule |
| `PriorityOrder.AddNew` | adminapi/queries/feature_rule_service.go:167-173 | a new rule is appended to some sorted rearrangement of the rules read and shifted to its clamped priority |
| `PriorityOrder.UpdateByPriority` | adminapi/queries/feature_rule_service.go:392-407 | the new version replaces the rule of the same id in some sorted rearrangement and is shifted from the stored to the requested priority |
| `PriorityOrder.UpdatePriorities` | adminapi/queries/feature_rule_service.go:466-471 | the rule at the old priority of some sorted rearrangement is shifted to the clamped new one |
| `PriorityOrder.Pack` | adminapi/queries/feature_rule_handler.go:384-406 | from any priorities: the survivors of the group, each once and in an order that respects their priorities, are renumbered; what is reported is exactly what changed; other rules keep their priority |
| `RuleTable.DenseHasListing` | adminapi/queries/feature_rule_service.go:175-203 | priorities of a group are exactly 1..n if and only if the group reads as some list of length n in priority order |
| `RuleTable.SortedOrderIsUnique` | adminapi/queries/feature_rule_service.go:168-170 | however an unstable sort orders ties, two sorted listings of the same rules agree once the priorities are distinct |
| `RuleTable.ListingIsUnique` | adminapi/queries/feature_rule_service.go:168-170 | a group numbered 1..n reads as exactly one list |
| `RuleTable.SliceSuffices` | adminapi/queries/feature_rule_service.go:160-163 | writing only the altered slice leaves the store as writing the whole renumbered list would, and that store reads as the list with one element moved |
| `RuleTable.RepackedIsChanged` | adminapi/queries/feature_rule_handler.go:398-403 | packing reports a rule if and only if its priority differs from its rank |
| `RuleTable.PackSuffices` | adminapi/queries/feature_rule_handler.go:373-381 | writing only the reported rules numbers the survivors 1..n whatever the priorities were, and leaves other groups alone |
| `RuleTable.RemovedReading` | adminapi/queries/feature_rule_handler.go:370-406 | packing a dense group after a delete keeps the order: the list loses one element |
| `RuleTable.RuleStore.constructor` | adminapi/queries/feature_rule_service.go:46-60 | any table whose groups are numbered 1..n has a list for each group |
| `RuleTable.RuleStore.Read` | adminapi/queries/feature_rule_service.go:46-60 | the rules of a group, or all rules, each once |
| `RuleTable.RuleStore.Insert` | adminapi/queries/feature_rule_service.go:159-173 | create on the store refines insert-at-clamped-position on the list of the group; every other list is unchanged |
| `RuleTable.RuleStore.Replace` | adminapi/queries/feature_rule_service.go:382-407 | update on the store refines replace-then-move on the list |
| `RuleTable.RuleStore.ReplaceAbsent` | adminapi/queries/firmware_rule_template_service.go:269-281 | when the list read does not contain the rule, its last rule is shifted instead and the new version is not stored |
| `RuleTable.RuleStore.Shift` | adminapi/queries/feature_rule_service.go:446-471 | a priority change on the store refines a move on the list |
| `RuleTable.RuleStore.DeleteAndPack` | adminapi/queries/feature_rule_handler.go:370-406 | from any priorities the group ends up 1..n in an order that respects the old ones and everything else is untouched; from a dense store delete refines removing one element |
| `RuleTable.InsertTakesPlace` | adminapi/queries/feature_rule_service.go:167-203 | inserting puts the new element at index priority - 1 if that is at most the length, else last; what stood before and after keeps its order |
| `RuleTable.MoveTakesPlace` | adminapi/queries/feature_rule_service.go:175-203 | moving takes the element to index priority - 1 if that is in the list, else last; the others keep their order |
| `RuleTable.ReplaceTakesPlace` | adminapi/queries/feature_rule_service.go:392-407 | replacing puts the new version at the place its priority asks for, in place of the old one |
| `NamedRules.FindClash` | adminapi/queries/feature_rule_service.go:349-366 | the scan of stored rules finds a rule exactly when one of the same type and another id has the name or an equal rule |
| `NamedRules.ClashIsStored` | adminapi/queries/feature_rule_service.go:349-366 | the scan of the table and the scan of the list of the type agree |
| `NamedRules.InsertKeepsNoClash` | adminapi/queries/feature_rule_service.go:150-173 | a list without clashes stays so when a rule that passed the scan is inserted |
| `NamedRules.ReplaceKeepsNoClash` | adminapi/queries/feature_rule_service.go:368-407 | the same for a new version of a rule |
| `FeatureRules.FeatureRuleService.BeforeSaving` | adminapi/queries/feature_rule_service.go:218-242 | accepts exactly the rules of the caller's type that are acceptable and clash with no other |
| `FeatureRules.FeatureRuleService.CreateFeatureRule` | adminapi/queries/feature_rule_service.go:150-165 | accepted exactly when the id is unknown and the rule may be saved; the lists change by one insert at the clamped position |
| `FeatureRules.FeatureRuleService.UpdateFeatureRule` | adminapi/queries/feature_rule_service.go:368-390 | accepted exactly when the rule may be saved and is stored under the caller's type; the lists change by one replace-then-move |
| `FeatureRules.FeatureRuleService.ChangePriorities` | adminapi/queries/feature_rule_service.go:441-464 | the position is that of the named rule, the list is the caller's; out of range exactly when the position is past that list's end, not found exactly when there is no such rule |
| `FeatureRules.FeatureRuleService.DeleteFeatureRule` | adminapi/queries/feature_rule_handler.go:353-382 | carried out exactly when the rule is stored under the caller's type; the list loses that element |
| `FeatureRules.FeatureRuleService.ServeAll` | adminapi/queries/feature_rule_service.go:150-471 | every run of requests refines the same run on the lists and leaves each application type numbered exactly 1..n |
| `FeatureRules.CreateDoes` | adminapi/queries/feature_rule_service.go:150-203 | a create is accepted if and only if the rule is acceptable, of the caller's type or of none, its id unknown, and no rule of the type has its name or an equal rule; then the rule stands at index priority - 1, or last when the priority is not in 1..n + 1, the others keep their order and every other list is unchanged; refused, nothing changes |
| `FeatureRules.UpdateDoes` | adminapi/queries/feature_rule_service.go:368-407 | the same for an update of a rule of the caller's list: when it is accepted, where the new version stands, and what stays |
| `FeatureRules.UpdateOfAbsent` | adminapi/queries/feature_rule_service.go:368-390 | an update of a rule that is not in the caller's list changes nothing |
| `FeatureRules.ChangePriorityDoes` | adminapi/queries/feature_rule_service.go:441-471 | the rule at the named rule's index of the caller's list is taken out and put at the requested place, last if there is no such place; with the index past the list nothing changes |
| `FeatureRules.DeleteDoes` | adminapi/queries/feature_rule_handler.go:353-406 | the named rule leaves the caller's list, the rest keeps its order, every other list is unchanged |
| `FeatureRules.UnknownDoesNothing` | adminapi/queries/feature_rule_service.go:441-455 | a priority change or delete of a rule no list holds changes nothing |
| `FeatureRules.RunNext` | adminapi/queries/feature_rule_service.go:150-471 | a run is its requests one after the other |
| `FeatureRules.OtherTypesUntouched` | adminapi/queries/feature_rule_service.go:160-163 | over any run by callers of other types, the list of an application type does not change |
| `FeatureRules.RunKeepsUnique` | adminapi/queries/feature_rule_service.go:349-366 | over any run no application type ever holds two rules with one name or two equal rules |
| `FeatureRules.ChangePriorityExact` | adminapi/queries/feature_rule_service.go:441-464 | a priority change ends without an index out of range and moves the named rule, and only that, as asked if and only if the rule is of the caller's type, or it already stands where it should and so does the rule at that position of the caller's list |
| `FeatureRules.WrongTypeReordered` | adminapi/queries/feature_rule_service.go:441-464 | an input for it: moving a rule of the other type reorders the caller's own |
| `FeatureRules.ChangePriorityAndBack` | adminapi/queries/feature_rule_service.go:441-464 | changing a priority and changing it back restores every list |
| `FeatureRules.CreateThenDelete` | adminapi/queries/feature_rule_service.go:150-165 | deleting a rule that was just created restores every list, whatever place it took |
| `FirmwareTemplates.FirmwareTemplateService.Validate` | adminapi/queries/firmware_rule_template_service.go:216-229 | accepts exactly acceptable templates that clash with no template of their action type |
| `FirmwareTemplates.FirmwareTemplateService.CreateTemplate` | adminapi/queries/firmware_rule_template_service.go:327-348 | accepted exactly when the id is new and the template may be saved; the list of its action type gains it at the clamped position |
| `FirmwareTemplates.FirmwareTemplateService.UpdateTemplate` | adminapi/queries/firmware_rule_template_service.go:303-325 | done exactly when the template is stored, may be saved, and does not move to an action type without templates (that ends in an index out of range); the effect on the lists, including an update that changes the action type |
| `FirmwareTemplates.FirmwareTemplateService.MoveTemplate` | adminapi/queries/firmware_rule_template_handler.go:776-802 | moves the named template within the list of its action type, exactly when it is stored |
| `FirmwareTemplates.FirmwareTemplateService.DeleteTemplate` | adminapi/queries/firmware_rule_template_handler.go:354-409 | refused when in use, not found when absent; otherwise the template leaves the list of its action type and the rest is renumbered |
| `FirmwareTemplates.FirmwareTemplateService.ServeAll` | adminapi/queries/firmware_rule_template_service.go:231-348 | every run of requests keeps each action type numbered exactly 1..n and refines the same run on the lists |
| `FirmwareTemplates.CreateDoes` | adminapi/queries/firmware_rule_template_service.go:327-348 | a create is accepted if and only if the template is acceptable, of a known action type, its id new, and nothing of the type has its name or an equal rule; where it then stands and what stays |
| `FirmwareTemplates.UpdateDoes` | adminapi/queries/firmware_rule_template_service.go:303-325 | the same for an update that keeps the action type |
| `FirmwareTemplates.UpdateOfAbsentDoes` | adminapi/queries/firmware_rule_template_service.go:265-325 | an accepted update that changes the action type takes the last template of the new type to the requested place; all else is as before |
| `FirmwareTemplates.MoveAndDeleteDo` | adminapi/queries/firmware_rule_template_handler.go:354-430 | a move takes the template at index i to the requested place and a delete takes it out, in the list of its action type and no other; in use it stays |
| `FirmwareTemplates.UnknownDoesNothing` | adminapi/queries/firmware_rule_template_handler.go:776-802 | a move or delete of an unknown template changes nothing |
| `FirmwareTemplates.RunNext` | adminapi/queries/firmware_rule_template_service.go:231-348 | a run is its requests one after the other |
| `FirmwareTemplates.RunKeepsUnique` | adminapi/queries/firmware_rule_template_service.go:216-229 | over every run no action type ever holds two templates with one name or two equal rules |
| `FirmwareTemplates.CreateFirmwareRuleTemplates` | adminapi/queries/firmware_rule_template_service.go:394-478 | an empty table is filled with templates numbered exactly 1..n per action type; any other table is left alone |
| `FirmwareTemplates.ServeFromSeed` | adminapi/queries/firmware_rule_template_service.go:231-478 | every state reachable from the built-in templates by any run of requests is numbered exactly 1..n per action type |
| `FirmwareTemplates.SeedIsDense` | adminapi/queries/firmware_rule_template_service.go:394-478 | the built-in templates are dense per action type although they are not written in priority order |
| `FirmwareTemplates.UpdateStoresItsTemplate` | adminapi/queries/firmware_rule_template_service.go:265-325 | an accepted update stores the new version if and only if the template keeps its action type |
| `FirmwareTemplates.MovedTypeIsLost` | adminapi/queries/firmware_rule_template_service.go:265-325 | an input for it: the template is not stored and another one is moved |
| `DcmFormulas.DcmFormulaService.CreateDcmRule` | adminapi/dcm/dcmformula_service.go:251-282 | from any priorities: accepted exactly when the id is unknown, the type is the caller's, the formula is acceptable and clashes with no other; exactly the slice shifted for it is written; where the priorities are 1..n the list of the type gains the formula at the clamped position |
| `DcmFormulas.DcmFormulaService.DeleteDcmFormula` | adminapi/dcm/dcmformula_service.go:92-144 | from any priorities, broken by an earlier update or not: the rest of the type is numbered 1..n in an order that respects the old priorities, other types are untouched, and the device, log upload and VOD settings go with the formula; where the priorities were 1..n the list just loses it |
| `DcmFormulas.DcmFormulaService.UpdateDcmRule` | adminapi/dcm/dcmformula_service.go:316-354 | from any priorities: which of refused, done and index out of range an update is; with the priority unchanged only the record is written, otherwise exactly the patched slice of a sorted listing of the type |
| `DcmFormulas.UpdateItem` | adminapi/dcm/dcmformula_service.go:295-314 | what is handed back is the shifted slice with the new version put at index newPriority - 1 of the slice |
| `DcmFormulas.UnchangedPriority` | adminapi/dcm/dcmformula_service.go:335-339 | with the priority unchanged the new version takes the place of the old one in the list |
| `DcmFormulas.UpdateIsRightExactlyWhen` | adminapi/dcm/dcmformula_service.go:295-354 | an update that changes the priority does what it should if and only if the new priority is at most n and the old or the new priority is 1, or the content is the same and the patched index lies past the slice |
| `DcmFormulas.UpdateKeepsNumbering` | adminapi/dcm/dcmformula_service.go:295-354 | such an update keeps the numbering 1..n if and only if the new priority is 1 or n + 1, or the old one is less than twice the new one minus 1 |
| `DcmFormulas.LandsInPlace` | adminapi/dcm/dcmformula_service.go:307-311 | when the slice starts at the front, the update refines replace-then-move |
| `DcmFormulas.IsLost` | adminapi/dcm/dcmformula_service.go:307-311 | when the index lies past the slice the rule is moved and its new content is lost |
| `DcmFormulas.DisplacesAnother` | adminapi/dcm/dcmformula_service.go:307-311 | when the index hits another formula, two formulas end up with one priority |
| `ChangeApproval.ChangeService.BeforeSavingProfile` | adminapi/change/permanent_telemetry_profile_service.go:108-162 | passes exactly valid profiles whose name no other profile has |
| `ChangeApproval.ChangeService.BeforeRemoving` | adminapi/change/permanent_telemetry_profile_service.go:177-234 | passes exactly stored profiles of the caller's type that no telemetry rule is bound to |
| `ChangeApproval.ChangeService.CreatePermanentTelemetryProfile` | adminapi/change/permanent_telemetry_profile_service.go:72-92 | stores the profile exactly when its guards pass, and changes nothing else |
| `ChangeApproval.ChangeService.UpdatePermanentTelemetryProfile` | adminapi/change/permanent_telemetry_profile_service.go:59-70 | stores the profile exactly when it exists; names are not looked at |
| `ChangeApproval.ChangeService.DeletePermanentTelemetryProfile` | adminapi/change/permanent_telemetry_profile_service.go:164-186 | removes the profile exactly when its guards pass |
| `ChangeApproval.ChangeService.CreateOneChange` | adminapi/change/change_service.go:72-145 | stores a proposed change exactly when it is complete and no pending change on its profile carries the same data |
| `ChangeApproval.ChangeService.WriteCreateChange` | adminapi/change/permanent_telemetry_profile_service.go:236-266 | a create is proposed exactly when the profile could be created now, no pending change is about equal data and the change may be proposed; nothing but the pending changes is touched |
| `ChangeApproval.ChangeService.WriteUpdateChangeOrSave` | adminapi/change/permanent_telemetry_profile_service.go:268-302 | an update is done exactly when the caller may write the profile, it exists, is valid, its name is free, and either its data did not change (then it is saved at once) or the change may be proposed |
| `ChangeApproval.ChangeService.WriteDeleteChange` | adminapi/change/permanent_telemetry_profile_service.go:304-326 | a delete is proposed exactly when the profile could be deleted now and no pending change on it says the same; no profile is touched |
| `ChangeApproval.ChangeService.CancelChange` | adminapi/change/change_service.go:237-245 | exactly the named change stops being pending |
| `ChangeApproval.ChangeService.GetChangesByEntityId` | adminapi/change/change_service.go:308-317 | finds exactly the pending changes on a profile |
| `ChangeApproval.ChangeService.CancelApprovedChangesByEntityId` | adminapi/change/change_service.go:412-427 | nothing stays pending on any of the profiles, all else stays |
| `ChangeApproval.ChangeService.Approve` | adminapi/change/change_service.go:319-351 | done exactly when the change is pending and its operation passes its guards; then the profile store, the approved record and the cancelled rest change together, else nothing does |
| `ChangeApproval.ChangeService.Revert` | adminapi/change/change_service.go:201-235 | the stores after a revert, with errors of the inner operation dropped, and which of the four outcomes it has, the crash on an absent created profile included |
| `ChangeApproval.CreateIsProposed` | adminapi/change/permanent_telemetry_profile_service.go:188-266 | a create is accepted if and only if the id is free, the caller writes the profile's type, the profile is valid, no other has its name, and no pending change carries the same data; the record that waits, field by field, and nothing else changes |
| `ChangeApproval.UpdateIsProposed` | adminapi/change/permanent_telemetry_profile_service.go:200-302 | when a submitted update is refused, when it is saved at once, and the record that otherwise waits: the stored profile as the old, the submitted one as the new entity |
| `ChangeApproval.DeleteIsProposed` | adminapi/change/permanent_telemetry_profile_service.go:214-326 | when a delete is refused, and the record that otherwise waits |
| `ChangeApproval.ApproveDoes` | adminapi/change/change_service.go:318-351 | for each operation, from any stores: the condition under which approving goes through, and what then is in each store; otherwise nothing changes |
| `ChangeApproval.RevertDoes` | adminapi/change/change_service.go:201-239 | for each operation: the approved record is gone, and the condition under which the profile is as it was before the change |
| `ChangeApproval.OthersDo` | adminapi/change/change_service.go:241-249 | what cancelling a change, deleting a profile outright and editing a telemetry rule do to each store |
| `ChangeApproval.RunNext` | adminapi/change/change_service.go:201-351 | a run is its requests one after the other |
| `ChangeApproval.UpdateLifeCycle` | adminapi/change/permanent_telemetry_profile_service.go:268-302 | from a submitted update that waits: approved, its profile is the submitted one and nothing else changed; reverted after that, the profiles are those before the proposal; cancelled, all stores are |
| `ChangeApproval.CreateLifeCycle` | adminapi/change/permanent_telemetry_profile_service.go:236-266 | from a submitted create: approved by a caller of its type the submitted profile is added, otherwise nothing changes; reverting takes it out again if and only if the caller has its type and no telemetry rule is bound to it; cancelling restores all stores |
| `ChangeApproval.DeleteLifeCycle` | adminapi/change/permanent_telemetry_profile_service.go:304-326 | from a submitted delete: approved by a caller of its type the profile is gone, otherwise nothing changes; reverting brings the same profile back if and only if the caller may store it and its name is free; cancelling restores all stores |
| `ChangeApproval.RecordStays` | adminapi/change/change_service.go:201-351 | over any run in which its identifier is not proposed again, what is pending or approved under it is the proposed record |
| `ChangeApproval.UpdateOverRuns` | adminapi/change/change_service.go:201-351 | whatever is served in between: approving a submitted update stores the submitted profile, reverting it at any later time stores the profile of the time of the proposal, and a profile that is gone by then stays gone |
| `ChangeApproval.StepKeepsInv` | adminapi/change/change_service.go:62-145 | every step keeps: no change is both pending and approved, no two pending changes on a profile carry the same data, a change is about one profile |
| `ChangeApproval.RunKeepsInv` | adminapi/change/change_service.go:62-427 | the same over every run of propose, approve, cancel, revert, delete and rebind |
| `ChangeApproval.ApprovalSettlesEntity` | adminapi/change/change_service.go:319-351 | a successful approval moves the change, leaves nothing pending on its profile and touches no other; a failing one changes nothing at all |
| `ChangeApproval.RevertUndoesApproval` | adminapi/change/change_service.go:201-235 | approving then reverting restores the profile store if and only if the change is revertible; the approved record is gone either way |
| `ChangeApproval.ApprovalKeepsNamesUnique` | adminapi/change/permanent_telemetry_profile_service.go:59-70 | unique names survive an approval if and only if the change is not an update to a name another profile has |
| `ChangeApproval.StepKeepsNames` | adminapi/change/change_service.go:201-351 | a request keeps names unique if and only if it does not approve or revert an update to a name another profile has |
| `ChangeApproval.RunKeepsNames` | adminapi/change/change_service.go:201-351 | over every run names are unique at all times if and only if no step approves or reverts such an update |
| `ChangeApproval.NameTakenOver` | adminapi/change/change_service.go:326-335 | an input: approving an update gives two profiles one name |
| `ChangeApproval.BindingKeepsResolving` | adminapi/change/permanent_telemetry_profile_service.go:177-234 | over every run, the profile a telemetry rule is bound to stays as long as the rule is not edited |
| `BatchApproval.TelemetryTwoChangeService.GetTelemetryTwoChangesByIds` | adminapi/change/telemetry_two_change_service.go:60-74 | exactly the listed pending changes, ordered by timestamp, ties in any order |
| `BatchApproval.TelemetryTwoChangeService.DeleteTelemetryTwoProfile` | adminapi/change/telemetry_two_profile_service.go:213-307 | removes the profile exactly when it is of the caller's type and no rule is bound to it |
| `BatchApproval.TelemetryTwoChangeService.ApplyOne` | adminapi/change/telemetry_two_change_service.go:174-188 | one change succeeds exactly when its guard passes; the profile store and the merged updates afterwards |
| `BatchApproval.TelemetryTwoChangeService.SaveToApprovedAndCleanUp` | adminapi/change/telemetry_two_change_service.go:520-532 | the approved record is stored and the change removed exactly when the record validates |
| `BatchApproval.TelemetryTwoChangeService.CancelByEntityIds` | adminapi/change/telemetry_two_change_service.go:534-548 | on the given profiles exactly the excluded changes stay pending |
| `BatchApproval.TelemetryTwoChangeService.ApproveTelemetryTwoChanges` | adminapi/change/telemetry_two_change_service.go:167-207 | the stores and the errors are those of processing the listed changes in timestamp order and then cancelling |
| `BatchApproval.CreateDoes` | adminapi/change/telemetry_two_profile_service.go:179-281 | a create in a batch goes through if and only if its id is free, or taken by a profile of its own type that is not of the caller's, and the profile is valid alone and among the stored; then exactly it is stored |
| `BatchApproval.UpdateDoes` | adminapi/change/telemetry_two_change_service.go:176-184 | an update is laid over the merged profile field by field; it goes through if and only if the merged profile is stored, of the caller's type, keeps its type and is valid; then exactly it is stored, and it is remembered in any case |
| `BatchApproval.DeleteDoes` | adminapi/change/telemetry_two_profile_service.go:213-307 | a delete goes through if and only if the profile is stored, of the caller's type and bound to no telemetry rule; then exactly it is gone |
| `BatchApproval.BooksOfOne` | adminapi/change/telemetry_two_change_service.go:187-192 | what one change leaves in the pending and approved changes, with the approved record field by field, and in the errors |
| `BatchApproval.LastChangeDecides` | adminapi/change/telemetry_two_change_service.go:167-207 | over a whole batch the last listed change of a profile that has no error decides: a create leaves exactly its profile, a delete none, an update the merge of all updates of the profile up to there |
| `BatchApproval.DeletedIsGone` | adminapi/change/telemetry_two_change_service.go:185-186 | a listed delete without an error leaves its profile out of the store unless a later create of that id has no error |
| `BatchApproval.OthersUnchanged` | adminapi/change/telemetry_two_change_service.go:167-207 | a profile that no listed change without an error is about is after the batch as before |
| `BatchApproval.Accounting` | adminapi/change/telemetry_two_change_service.go:173-195 | at every point of the batch the pending and approved stores differ from the start by exactly the records filed so far |
| `BatchApproval.ListedChangesAreConserved` | adminapi/change/telemetry_two_change_service.go:167-207 | each listed change either failed and is still pending with an error, or went through and is approved; the one exception is an approved record that does not validate, and then the change is lost silently |
| `BatchApproval.SilentlyLost` | adminapi/change/telemetry_two_change_service.go:186-189 | an input for the exception: the profile is stored, the change is neither pending nor approved, and no error is reported |
| `BatchApproval.UnlistedChangeSurvives` | adminapi/change/telemetry_two_change_service.go:534-548 | an unlisted pending change survives if and only if no listed change on its profile went through |
| `BatchApproval.EveryListedChange` | adminapi/change/telemetry_two_change_service.go:167-207 | in any batch, repetitions included: a listed change has an error if and only if it failed at some occurrence, an approved record if and only if it left one at some occurrence, and is still pending if and only if it failed somewhere and left no record |
| `BatchApproval.ApprovedYetFailed` | adminapi/change/telemetry_two_change_service.go:173-195 | a change is approved and reported as failed if and only if some occurrence fails and some occurrence leaves a record |
| `BatchApproval.ListedTwice` | adminapi/change/telemetry_two_change_service.go:60-74 | an input for it: a create listed twice |
| `BatchApproval.RunKeepsOrder` | adminapi/change/telemetry_two_change_service.go:167-207 | over every run of proposals and batches no change is both pending and approved, which is what conservation asks of the start of each batch |
| `BatchApproval.RunNext` | adminapi/change/telemetry_two_change_service.go:167-207 | a run is its events one after the other; every batch starts with nothing merged, failed or touched |
| `BatchApproval.BatchKeepsBound` | adminapi/change/telemetry_two_profile_service.go:287-307 | no batch removes a profile a telemetry rule is bound to |
| `BatchApproval.MergedIs` | adminapi/change/telemetry_two_change_service.go:177-183 | what is merged for a profile is the merge of the updates to it, whatever else the batch holds |
| `BatchApproval.BatchLeavesMerge` | adminapi/change/telemetry_two_change_service.go:177-183 | when all listed changes on a profile are updates that go through, the stored profile is their merge |
| `BatchApproval.LastWriterWins` | adminapi/change/telemetry_two_change_service.go:500-518 | merging updates from one base gives each field the value of the last change that altered it, or the base value |
| `BatchApproval.MergeIgnoresTies` | adminapi/change/telemetry_two_change_service.go:69-71 | any two timestamp orders merge to the same profile when changes with equal timestamps alter different fields |
| `BatchApproval.BatchIgnoresTies` | adminapi/change/telemetry_two_change_service.go:167-207 | so the profile a batch stores does not depend on how the unstable sort breaks such ties |
| `DuplicateIndex.FindAndDelete` | adminapi/queries/firmware_rule_handler.go:514-523 | the in-place compaction: the returned prefix holds exactly the entries with another id, in order, and the full-length slice is as described by CompactedInPlace |
| `DuplicateIndex.CompactedHolds` | adminapi/queries/firmware_rule_handler.go:514-523 | a compaction whose result is dropped loses no entry with another id and brings in none |
| `DuplicateIndex.CompactedKeeps` | adminapi/queries/firmware_rule_handler.go:514-523 | an entry with the id that is filed again survives such a compaction if and only if it stands in the tail that is not written to |
| `DuplicateIndex.ValidateAgainstAll` | adminapi/queries/firmware_rule_service.go:358-374 | the full scan finds a rule exactly when one of the same type and another id has the name or an equal rule |
| `DuplicateIndex.FiledIsIndexOf` | adminapi/queries/firmware_rule_handler.go:586-597 | in whatever order the table is read, the index built from it is the one that filing its rules one by one leaves |
| `DuplicateIndex.ShelfHoldsFiled` | adminapi/queries/firmware_rule_handler.go:649-660 | no index holds anything but rules that were filed there |
| `DuplicateIndex.ShelfIsLatest` | adminapi/queries/firmware_rule_handler.go:649-654 | the indexes by name and by MAC address hold exactly the latest version of each id filed there |
| `DuplicateIndex.LatestIsOnShelf` | adminapi/queries/firmware_rule_handler.go:655-656 | no index loses the latest version of an id, not even the one whose compaction result is dropped |
| `DuplicateIndex.GoneHasSuccessor` | adminapi/queries/firmware_rule_handler.go:649-660 | an entry that is gone was pushed out by a later one with the same id filed in the same place |
| `DuplicateIndex.ShelfIsShelved` | adminapi/queries/firmware_rule_handler.go:649-660 | as long as no id was filed twice in a place, that place holds all that was filed there, in order |
| `DuplicateIndex.FirstTwinOverwrites` | adminapi/queries/firmware_rule_handler.go:655-656 | the first time an id is filed again under a rule key, its old entry is overwritten if and only if something else was filed there in between |
| `DuplicateIndex.NameTakenIs` | adminapi/queries/firmware_rule_handler.go:473-482 | a name counts as taken if and only if some other rule of the type was ever filed under it |
| `DuplicateIndex.RuleTakenIs` | adminapi/queries/firmware_rule_handler.go:484-511 | the comparison of rules sees exactly the entries filed where the rule belongs, MAC fallback included |
| `BulkImport.BulkImporter.BuildIndex` | adminapi/queries/firmware_rule_handler.go:586-597 | every stored rule is filed under its name and under its key |
| `BulkImport.BulkImporter.DuplicateFrFound` | adminapi/queries/firmware_rule_handler.go:473-512 | the indexed check as a statement about the two buckets it looks into |
| `BulkImport.BulkImporter.ImportEntity` | adminapi/queries/firmware_rule_handler.go:599-667 | one rule is stored exactly when it passes; table and index change together |
| `BulkImport.BulkImporter.FileEntity` | adminapi/queries/firmware_rule_handler.go:649-660 | how an accepted rule enters the index, with one compaction result dropped |
| `BulkImport.BulkImporter.PostPutEntities` | adminapi/queries/firmware_rule_handler.go:598-667 | the loop over the submitted rules is the fold of the single import |
| `BulkImport.BulkImporter.ServeEntities` | adminapi/queries/firmware_rule_handler.go:559-667 | a whole request starting from unique names and rules: a PUT ends with unique names and rules; a POST ends with unique names if and only if no two accepted rules under one blank id share a name, and with unique rules if and only if no pair escapes the comparison; the index is that of the history |
| `BulkImport.PutStores` | adminapi/queries/firmware_rule_handler.go:598-667 | at any point of a PUT a rule is stored if and only if its id is not blank and stored, its type is the caller's and the stored one's, it is valid, and no version under another id clashes by name or by a rule still on its shelf; it then replaces the stored one; refused, nothing changes |
| `BulkImport.PostStores` | adminapi/queries/firmware_rule_handler.go:598-667 | at any point of a POST a rule is stored if and only if its id is not stored, its type is the caller's, it is valid and no version under another id clashes; it is then added under its own id, or the generated one if it is blank; refused, nothing changes |
| `BulkImport.PutIsTraced` | adminapi/queries/firmware_rule_handler.go:598-667 | at every point of a PUT batch the index is that of the history, the table holds the last version of every rule, and names and rules are unique |
| `BulkImport.StoredIsLatest` | adminapi/queries/firmware_rule_handler.go:649-660 | in a PUT every stored rule can be found in every index it belongs to, stale entries and the dropped compaction notwithstanding |
| `BulkImport.PutNameCheck` | adminapi/queries/firmware_rule_handler.go:473-482 | in a PUT the name check refuses a rule if and only if another rule of the type has the name or had it earlier in the request and gave it up; it agrees with a scan if and only if every given-up name is one some other rule has now |
| `BulkImport.PutRuleCheck` | adminapi/queries/firmware_rule_handler.go:484-511 | in a PUT the comparison of rules refuses a rule if and only if another rule of the type equals it, or an earlier version still in the index does |
| `BulkImport.StillOnMac` | adminapi/queries/firmware_rule_handler.go:652-654 | for rules on one MAC address an earlier version is still in the index if and only if its id was not filed again on that address |
| `BulkImport.PutCheckIsScan` | adminapi/queries/firmware_rule_service.go:358-374 | in a PUT the indexed check refuses whatever a scan finds, and besides exactly what takes up a name or rule given up earlier; hence when the two agree, both ways |
| `BulkImport.PutKeepsUnique` | adminapi/queries/firmware_rule_handler.go:598-667 | a PUT import keeps names and rules unique per application type |
| `BulkImport.FreedNameStaysTaken` | adminapi/queries/firmware_rule_handler.go:649-651 | an input for PutNameCheck: a name just given up is refused |
| `BulkImport.ChangedRuleStaysTaken` | adminapi/queries/firmware_rule_handler.go:649-660 | an input for PutRuleCheck: a rule just changed into one of another key is refused to others |
| `BulkImport.PostIsTraced` | adminapi/queries/firmware_rule_handler.go:598-667 | at every point of a POST batch the index is that of the history, each version is stored under its own key, and every submission passed the check when it came; blank ids may repeat |
| `BulkImport.PostCovers` | adminapi/queries/firmware_rule_handler.go:649-660 | in a POST a version that came with its own id can be found by its name and by its rule |
| `BulkImport.PostHoldsStored` | adminapi/queries/firmware_rule_handler.go:649-660 | in a POST every index entry stands for a stored rule, filed where it belongs |
| `BulkImport.DuplicateIs` | adminapi/queries/firmware_rule_handler.go:473-549 | the indexed check refuses a rule if and only if some version of the type clashes with it and is not hidden, by a shared blank id or by a lost entry |
| `BulkImport.PostCheckIsScan` | adminapi/queries/firmware_rule_service.go:358-374 | at any point of a POST, for a rule with a new id: what the scan finds, what the indexed check finds, and that they agree if and only if a clash, if there is one, is not all hidden; only rules that came without an id are ever hidden |
| `BulkImport.LostToTwin` | adminapi/queries/firmware_rule_handler.go:655-656 | an entry is lost only to a later submission with the same id filed in the same place |
| `BulkImport.FirstTwinLoses` | adminapi/queries/firmware_rule_handler.go:655-656 | in a POST the entry of a rule that came without an id is lost to its first twin of the same rule key if and only if a rule of that key was accepted in between |
| `BulkImport.UniqueExactly` | adminapi/queries/firmware_rule_handler.go:473-549 | over a POST names stay unique if and only if no two accepted submissions under one blank id share a name; rules if and only if no equal pair shares a blank id or had the first entry lost when the second came |
| `BulkImport.PostUniqueExactly` | adminapi/queries/firmware_rule_handler.go:559-667 | the same for a whole POST request that starts from unique names and rules |
| `BulkImport.TwinsApart` | adminapi/queries/firmware_rule_handler.go:473-549 | submissions under one blank id that differ in name, rule and rule key do no harm |
| `BulkImport.BlanksEscapeTheCheck` | adminapi/queries/firmware_rule_handler.go:473-512 | an input: two submissions under one blank id with one name are both stored |
| `BulkImport.OverwrittenEntry` | adminapi/queries/firmware_rule_handler.go:655-656 | an input: the dropped compaction overwrites an entry, and a rule with its own id that equals a stored one is let in, although no two of the earlier submissions clash |
| `BulkImport.OverwrittenInBatch` | adminapi/queries/firmware_rule_handler.go:559-667 | the same as a whole POST to an empty table: all four are accepted and two equal rules are stored |
| `PercentRanges.ValidateRanges` | adminapi/queries/feature_rule_service.go:285-328 | accepts exactly when every range lies in 0..100 with start below end and no two distinct ranges meet; what each refusal means |
| `PercentRanges.MeetIsStartInside` | adminapi/queries/feature_rule_service.go:305-307 | testing starting points in both directions decides whether two ranges have a common point |
| `PercentRanges.PointInOneRange` | adminapi/queries/feature_rule_service.go:285-310 | in an accepted list a point lies in at most one distinct range |
| `PercentRanges.AcceptedRangesFit` | adminapi/queries/feature_rule_service.go:285-310 | the lengths of the distinct ranges of an accepted list add up to at most 100 |
| `NamespacedLists.NamespacedListService.CreateNamespacedList` | adminapi/queries/namespaced_list_service.go:301-331 | accepted exactly when the list is valid, its items normalise and, unless overwriting is allowed, no list of its type has the id; it is stored with normalised items, replacing a list of any type with that id |
| `NamespacedLists.NamespacedListService.UpdateNamespacedList` | adminapi/queries/namespaced_list_service.go:333-380 | an update is accepted exactly when the list exists with its type, a rename exactly when no list of its type has the new id; after a rename the references are rewritten, the old id is gone and the list is stored under the new one |
| `NamespacedLists.NamespacedListService.RenameInUsedEntities` | adminapi/queries/namespaced_list_service.go:449-479 | all seven tables and all features are rewritten, each reference once |
| `NamespacedLists.NamespacedListService.RenameInTable` | adminapi/queries/namespaced_list_service.go:456-466 | exactly the rules of the table that name the old list are rewritten |
| `NamespacedLists.NamespacedListService.RenameInFeatures` | adminapi/queries/namespaced_list_service.go:469-476 | exactly the whitelisted features that name the old list are rewritten |
| `NamespacedLists.NamespacedListService.DeleteNamespacedList` | adminapi/queries/namespaced_list_service.go:382-407 | deleted exactly when it exists, has the requested type and nothing names it |
| `NamespacedLists.NamespacedListService.ValidateUsage` | adminapi/queries/namespaced_list_service.go:410-447 | finds a use exactly when a condition of any table, an environment-model whitelist or a whitelisted feature names the list |
| `NamespacedLists.NamespacedListService.AddNamespacedListData` | adminapi/queries/namespaced_list_service.go:194-241 | accepted exactly when the list exists with that type, the items are valid and normalise, and the union does not intersect itself; the items become the union, each once |
| `NamespacedLists.NamespacedListService.RemoveNamespacedListData` | adminapi/queries/namespaced_list_service.go:243-299 | accepted exactly when the normalised items are pairwise distinct, all present and do not exhaust the list; the items become the difference |
| `NamespacedLists.NamespacedListService.Without` | adminapi/queries/namespaced_list_service.go:256-280 | the removal loop: the missing items are none exactly when the items are distinct and all present |
| `NamespacedLists.CreateStores` | adminapi/queries/namespaced_list_service.go:301-331 | accepted if and only if the list is valid, every item of a MAC list can be normalised, and overwriting is allowed or no list of its type has the id; then the id holds the submitted type and items, position by position in stored form, and every other list, rule and feature is unchanged; refused, nothing changes |
| `NamespacedLists.UpdateStores` | adminapi/queries/namespaced_list_service.go:333-380 | the same for an update that keeps the id, accepted if and only if a list of its type is stored there |
| `NamespacedLists.RenameStores` | adminapi/queries/namespaced_list_service.go:348-380 | a rename is accepted if and only if the list is valid, can be stored and no list of its type has the new id; then the new id holds what was submitted, the old id is gone, conditions and whitelisted features that named the old list name the new one, and all else is unchanged |
| `NamespacedLists.DeleteRemoves` | adminapi/queries/namespaced_list_service.go:382-447 | accepted if and only if the list is stored, of the type asked for, and named by no condition, environment-model whitelist or whitelisted feature; then exactly it is gone |
| `NamespacedLists.AddDataDoes` | adminapi/queries/namespaced_list_service.go:194-241 | when items are accepted; the list then holds exactly what it held and the new items in stored form, each once, and all else is unchanged |
| `NamespacedLists.RemoveDataDoes` | adminapi/queries/namespaced_list_service.go:243-299 | when a removal is accepted; the list then holds exactly what it held but for the items, and all else is unchanged |
| `NamespacedLists.BadItemsAreRefused` | adminapi/queries/namespaced_list_service.go:212-219 | a MAC list takes no item that cannot be normalised |
| `NamespacedLists.NormalizedIs` | adminapi/queries/namespaced_list_service.go:307-315 | items normalise if and only if each one of a MAC list does, and each keeps its position |
| `NamespacedLists.RenameMovesNames` | adminapi/queries/namespaced_list_service.go:449-479 | after a rename exactly the names of the old list name the new one, other names and all whitelists are unchanged |
| `NamespacedLists.RenameAndBack` | adminapi/queries/namespaced_list_service.go:449-479 | renaming back undoes a rename if and only if nothing named the new list before |
| `NamespacedLists.StepBreaks` | adminapi/queries/namespaced_list_service.go:333-479 | from any stores, other dangling names and blanks included: a request or edit leaves a name dangling that did not dangle before if and only if it is an accepted rename of a stored list some environment-model firmware rule has as whitelist, or an edit that is the first to name a list which does not exist |
| `NamespacedLists.StepKeepsResolving` | adminapi/queries/namespaced_list_service.go:333-479 | the special case of stores in which every name that is not blank resolves: a request keeps it so if and only if it breaks no name |
| `NamespacedLists.RunBreaks` | adminapi/queries/namespaced_list_service.go:194-479 | over any run of list requests and edits, from any stores and any point of it: a name that does not dangle there never dangles afterwards if and only if no later step breaks it, whatever other names do |
| `NamespacedLists.RunKeepsResolving` | adminapi/queries/namespaced_list_service.go:194-479 | the special case of a run that starts where every name resolves: every name resolves at all times if and only if no step breaks one |
| `NamespacedLists.ListRunKeepsName` | adminapi/queries/namespaced_list_service.go:194-479 | over any run of list requests alone, from any stores: a name that resolves or is unused at the start stays so, unless it is a whitelist then and is renamed |
| `NamespacedLists.ListRunKeepsResolving` | adminapi/queries/namespaced_list_service.go:194-479 | where every name resolves at the start, that no list request renames a whitelist of the start is enough |
| `NamespacedLists.WhitelistLeftDangling` | adminapi/queries/namespaced_list_service.go:449-479 | a concrete rename after which a whitelist names a list that is gone |
| `NamespacedLists.RenameSparesOthers` | adminapi/queries/namespaced_list_service.go:350-371 | a rename leaves every other list alone if and only if no list, of whatever type, has the new name |
| `NamespacedLists.OtherTypeOverwritten` | adminapi/queries/namespaced_list_service.go:350-371 | an input for it: a rename removes a list of another type |
| `NamespacedLists.AddThenRemove` | adminapi/queries/namespaced_list_service.go:194-299 | removing the items just added restores the list if and only if they were distinct and new and the list was not empty |
| `NamespacedLists.RemoveThenAdd` | adminapi/queries/namespaced_list_service.go:194-299 | adding the items just removed restores the list, and is accepted if and only if the list as it was is acceptable |
| `TimeWindows.ChangeLogChunks` | adminapi/queries/common.go:298-332 | the loop ends after floor(elapsed hours) + 1, at most 24, chunks that start at midnight and touch end to start; the last one ends an hour past now |
| `TimeWindows.MomentInOneChunk` | adminapi/queries/common.go:298-332 | every moment of the day up to now lies in exactly one chunk, the one its hour names |
| `TimeWindows.ChangedKeyWindows` | adminapi/queries/common.go:182-202 | the row keys visited are the consecutive multiples of the window size from the window of the first moment to that of the last, each once |
| `TimeWindows.MomentInOneWindow` | adminapi/queries/common.go:182-202 | every moment between the two lies in exactly one visited window |
| `Paging.PageIsRightExactlyWhen` | adminapi/queries/feature_rule_handler.go:128-140 | the computed page is the page meant if and only if the product of page and size fits 64 bits, or the wrapped start lies at or past the end of the list |
| `Paging.HugePageRepeatsFirst` | adminapi/dcm/dcmformula_service.go:356-368 | a page number past 2^62 shows the first page again |
| `Paging.GeneratedPagesTile` | adminapi/dcm/dcmformula_service.go:356-368 | as long as the products fit 64 bits the computed pages 1, 2, .. do not crash and give back the list |
| `Paging.GeneratedPageHolds` | adminapi/queries/feature_rule_handler.go:128-140 | the computed page holds exactly the elements whose index is on the page, in order |
| `Paging.ShownOnExactlyOnePage` | adminapi/queries/feature_rule_handler.go:128-140 | every index shows on exactly one of the computed pages, the one division names |

## Left out

- BulkImport.BulkImporter.ImportEntity: submitted rules are taken as already normalised, and the per-rule result messages are not modelled.
- PercentRanges.ValidateRanges: parsing of the range text and values that are not numbers are not modelled; bounds are reals.
- ChangeApproval.ChangeService.Approve: the telemetry elements of a profile and the identifiers given to them are one opaque setting.
- The V1 batch approval and batch revert, whose exclusion list is searched by bisection although it is not sorted, and the merge of V1 telemetry elements, which works on loop copies.
- The V2 revert, which writes back the current profile.
- Bulk create, update and import of feature rules and templates: loops over the single operations that are modelled.
- Priorities of templates are 32-bit; they are at most the number of templates, so the width is not modelled. Slice bounds computed in floating point are exact at these sizes.
- Failing database writes, concurrent requests and the shared cache.
- HTTP handlers, JSON, headers, permission checks, searches and filters, and logging.
- Device, VOD and log upload settings, log repositories, models, environments: single-branch validation.
- The rule action's percentage ranges: the code drops the results of those checks.
