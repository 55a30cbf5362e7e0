# A verified model of Metl's flow model, UnZip step, invoke API and model editor

This project models five parts of the Metl integration platform (its
`symmetric-is-core`, `symmetric-is-ui` and `metl-core` modules) in Dafny and
proves properties of them.

- **Flow** (`FlowModel`): a flow's ordered steps and links. It covers the
  link and step queries, the three removals (which edit the list in place the
  way `Iterator.remove` does) and the folder id. Step, link and folder are
  values. The link queries are described by `Select`, `Reject` and
  `FirstSelected` over a `LinkQuery`.
- **AbstractObject** (`Identity`): the base class of the model objects. It covers
  the generated id, the audit fields, `equals` (same runtime class and equal id,
  otherwise reference identity), `hashCode` (Java's 32-bit `String.hashCode` of
  the id, over its UTF-16 code units), `toString` and `isSettingNameAllowed`.
- **UnZip** (`UnZipStep`): the component that extracts archives.
  - `start` checks the target resource and resolves the settings.
  - `handle` extracts each listed archive into the target directory. Then it
    sends one message listing the extracted paths. `HandleSpec` is a pure
    statement of the whole of `handle`.
  - The filesystem is a map from file name to contents. An archive is given
    by its entries' names, directory flags and sizes.
- **ExecutionApi** (`ExecutionApi`): the `invoke` REST operation and the error
  handler.
  - `invoke` finds every local agent with the given name and that agent's
    first deployment with the given name. It runs each deployment and polls
    until the execution is done.
  - It then summarises the last execution: the status and times, plus, for an
    ERROR execution, a message taken from the steps' error logs.
  - Agents, the scheduler and the execution service are the functions of a
    `Services` value. `InvokeSpec` is the pure statement of `invoke`.
- **EditModelPanel** (`EditModel`): the model editor's entity and attribute tree.
  - The tree widget is reduced to its item sequence, the name, type and parent
    of each item, and the selection. Entities and attributes are classes. An
    attribute's back-pointer to its entity and an entity's attribute list are
    updated in place.
  - The model covers building the tree under a filter (`add`, `addAll`,
    `getName`, with highlighting) and `setButtonsEnabled`.
  - It covers the remove cascade: each selected item and its children, all
    attributes deleted before any entity.
  - It covers the import listener's `selected`. Imported entities are matched
    by upper-cased name against the entities shown and the ones imported
    before. A new entity is saved and added. A matched one gets the attributes
    whose names it does not have yet.
  - The configuration service's `save` and `delete` calls are recorded in
    order. The pure `ImportState`, `ImportEntity` and `ImportAll` state what the
    import does. `Cascade`, `Removal` and `ListsAfterRemoval` state what the
    removal does.

## The invoke result's message

The message of an ERROR execution's result is that of the *last* step in ERROR
state that has an ERROR-level log. The loop at `ExecutionApi.java:98-108`
visits every step and overwrites the message for each such step. The model
states this in `StepsMessage` and `StepsMessageIsLastFailure`.

## Model

| member | source | states |
|---|---|---|
| Common.IndexOf | symmetric-is-ui/src/main/java/org/jumpmind/symmetric/is/ui/views/design/EditModelPanel.java:180 | the result is -1 exactly when the text occurs nowhere; otherwise it is the first position where it occurs |
| Common.ContainsIffOccurs | symmetric-is-ui/src/main/java/org/jumpmind/symmetric/is/ui/views/design/EditModelPanel.java:179 | `contains` holds exactly when the text occurs at some position |
| Common.ToUpper | symmetric-is-ui/src/main/java/org/jumpmind/symmetric/is/ui/views/design/EditModelPanel.java:319 | the upper-cased name has the same length, and each character is the upper case of the original one (ASCII letters only) |
| Identity.AbstractObject.constructor | symmetric-is-core/src/main/java/org/jumpmind/symmetric/is/core/model/AbstractObject.java:11-22 | a new object takes the generated id, and both its creation and last-update times equal the current time |
| Identity.AbstractObject.SetId | symmetric-is-core/src/main/java/org/jumpmind/symmetric/is/core/model/AbstractObject.java:36-38 | getId then returns the new id |
| Identity.AbstractObject.SetName | symmetric-is-core/src/main/java/org/jumpmind/symmetric/is/core/model/AbstractObject.java:24-26 | toString, which returns the name, then returns the new name |
| Identity.AbstractObject.SetCreateTime | symmetric-is-core/src/main/java/org/jumpmind/symmetric/is/core/model/AbstractObject.java:44-46 | the creation time becomes the given time |
| Identity.AbstractObject.SetCreateBy | symmetric-is-core/src/main/java/org/jumpmind/symmetric/is/core/model/AbstractObject.java:52-54 | the creator becomes the given user |
| Identity.AbstractObject.SetLastUpdateTime | symmetric-is-core/src/main/java/org/jumpmind/symmetric/is/core/model/AbstractObject.java:60-62 | the last-update time becomes the given time |
| Identity.AbstractObject.SetLastUpdateBy | symmetric-is-core/src/main/java/org/jumpmind/symmetric/is/core/model/AbstractObject.java:68-70 | the last updater becomes the given user |
| Identity.AbstractObject.IsSettingNameAllowed | symmetric-is-core/src/main/java/org/jumpmind/symmetric/is/core/model/AbstractObject.java:28-30 | false for every class except Flow, which overrides it to true |
| Common.CodeUnits | symmetric-is-core/src/main/java/org/jumpmind/symmetric/is/core/model/AbstractObject.java:73-76 | a character of the Basic Multilingual Plane is one code unit, itself; any other is a high and a low surrogate that together encode it |
| Common.Utf16OfBmp | symmetric-is-core/src/main/java/org/jumpmind/symmetric/is/core/model/AbstractObject.java:73-76 | a string of Basic Multilingual Plane characters has one code unit per character, equal to it |
| Common.HashUnitsAppend | symmetric-is-core/src/main/java/org/jumpmind/symmetric/is/core/model/AbstractObject.java:73-76 | one more code unit makes the hash 31 times the hash so far plus the unit, wrapped into 32 bits |
| Common.JavaStringHashAppend | symmetric-is-core/src/main/java/org/jumpmind/symmetric/is/core/model/AbstractObject.java:73-76 | appending a Basic Multilingual Plane character makes the hash 31 times the old hash plus the character, wrapped into 32 bits |
| Common.JavaStringHashAppendPair | symmetric-is-core/src/main/java/org/jumpmind/symmetric/is/core/model/AbstractObject.java:73-76 | appending a character outside the Basic Multilingual Plane folds in its high surrogate and then its low one, each wrapped into 32 bits |
| Common.JavaStringHashExample | symmetric-is-core/src/main/java/org/jumpmind/symmetric/is/core/model/AbstractObject.java:73-76 | the hash of "ab" is 3105, as in Java |
| Identity.AbstractObject.HashCode | symmetric-is-core/src/main/java/org/jumpmind/symmetric/is/core/model/AbstractObject.java:73-76 | the hash is a 32-bit signed int |
| Identity.EqualsSameClass | symmetric-is-core/src/main/java/org/jumpmind/symmetric/is/core/model/AbstractObject.java:78-85 | two objects of exactly the same runtime class are equal exactly when their ids are |
| Identity.EqualsOtherClass | symmetric-is-core/src/main/java/org/jumpmind/symmetric/is/core/model/AbstractObject.java:79-83 | objects of different runtime classes are never equal, whatever their ids |
| Identity.EqualsNonModelObject | symmetric-is-core/src/main/java/org/jumpmind/symmetric/is/core/model/AbstractObject.java:78-85 | a model object never equals null or an object that is not a model object |
| Identity.EqualsIsEquivalence | symmetric-is-core/src/main/java/org/jumpmind/symmetric/is/core/model/AbstractObject.java:78-85 | equals is reflexive, symmetric and transitive |
| Identity.EqualObjectsHaveEqualHashes | symmetric-is-core/src/main/java/org/jumpmind/symmetric/is/core/model/AbstractObject.java:73-85 | equal objects have equal hash codes |
| FlowModel.Flow.constructor | symmetric-is-core/src/main/java/org/jumpmind/symmetric/is/core/model/Flow.java:28-32 | a new flow has empty step, link and parameter lists |
| FlowModel.Flow.SetFolderId | symmetric-is-core/src/main/java/org/jumpmind/symmetric/is/core/model/Flow.java:60-70 | getFolderId then returns the given id, null included; a non-null id files the flow under a folder with that id |
| FlowModel.StepIndex | symmetric-is-core/src/main/java/org/jumpmind/symmetric/is/core/model/Flow.java:114-121 | the position found holds a step with the id and no earlier one does; no position means no step has the id |
| FlowModel.SelectMembership | symmetric-is-core/src/main/java/org/jumpmind/symmetric/is/core/model/Flow.java:89-111 | a link is selected exactly when it is in the list and matches the query; it is rejected exactly when it is in the list and does not match |
| FlowModel.SelectOnlySelected | symmetric-is-core/src/main/java/org/jumpmind/symmetric/is/core/model/Flow.java:89-111 | every selected link matches the query, and no rejected one does |
| FlowModel.SelectRejectPartition | symmetric-is-core/src/main/java/org/jumpmind/symmetric/is/core/model/Flow.java:147-159 | the selected and the rejected links together are a permutation of the list |
| FlowModel.SelectOfRejectIsEmpty | symmetric-is-core/src/main/java/org/jumpmind/symmetric/is/core/model/Flow.java:147-159 | after the matching links are removed, the same query selects nothing |
| FlowModel.FirstSelectedIsFirst | symmetric-is-core/src/main/java/org/jumpmind/symmetric/is/core/model/Flow.java:77-87 | there is no first match exactly when no link matches; otherwise the match is at the first matching position |
| FlowModel.RemovedStepLinksAreGone | symmetric-is-core/src/main/java/org/jumpmind/symmetric/is/core/model/Flow.java:147-159 | after the links touching a step are removed, no link leaves or enters that step |
| FlowModel.RemovedPairIsGone | symmetric-is-core/src/main/java/org/jumpmind/symmetric/is/core/model/Flow.java:161-172 | after the links between two steps are removed, the pair lookup finds nothing |
| FlowModel.Flow.FindFlowStepLink | symmetric-is-core/src/main/java/org/jumpmind/symmetric/is/core/model/Flow.java:77-87 | returns the first link with that source and target, or null |
| FlowModel.Flow.FindFlowStepLinksWithSource | symmetric-is-core/src/main/java/org/jumpmind/symmetric/is/core/model/Flow.java:89-99 | returns the links leaving the step, in list order |
| FlowModel.Flow.FindFlowStepLinksWithTarget | symmetric-is-core/src/main/java/org/jumpmind/symmetric/is/core/model/Flow.java:101-111 | returns the links entering the step, in list order |
| FlowModel.Flow.FindFlowStepWithId | symmetric-is-core/src/main/java/org/jumpmind/symmetric/is/core/model/Flow.java:114-121 | null exactly when no step has the id; otherwise the first step with it |
| FlowModel.Flow.RemoveFlowStep | symmetric-is-core/src/main/java/org/jumpmind/symmetric/is/core/model/Flow.java:135-145 | removes and returns the first step with the given step's id, and leaves the other steps in order; with no such step, returns null and changes nothing |
| FlowModel.Flow.RemoveFlowStepLinks | symmetric-is-core/src/main/java/org/jumpmind/symmetric/is/core/model/Flow.java:147-159 | returns the links touching the step, in order, and keeps exactly the others, in order |
| FlowModel.Flow.RemoveFlowStepLink | symmetric-is-core/src/main/java/org/jumpmind/symmetric/is/core/model/Flow.java:161-172 | keeps exactly the links not joining the pair, and returns the last link visited (as written) |
| FlowModel.ReturnedLinkNotRemoved | symmetric-is-core/src/main/java/org/jumpmind/symmetric/is/core/model/Flow.java:161-172 | the link returned as written can be a link that was not removed and is still in the list |
| FlowModel.Flow.RemoveFlowStepLinkAsIntended | symmetric-is-core/src/main/java/org/jumpmind/symmetric/is/core/model/Flow.java:161-172 | the same removal, returning the last link it removed, or null |
| FlowModel.LastSelectedIsRemoved | symmetric-is-core/src/main/java/org/jumpmind/symmetric/is/core/model/Flow.java:161-172 | the corrected result is null exactly when no link joins the pair; otherwise it was in the list, joins the pair and is gone afterwards |
| UnZipStep.UnZip.constructor | metl-core/src/main/java/org/jumpmind/metl/core/runtime/component/UnZip.java:69-79 | the field defaults: no target, UTF-8, must-exist, delete-on-complete and sub-directory off, empty files extracted |
| UnZipStep.TargetResource | metl-core/src/main/java/org/jumpmind/metl/core/runtime/component/UnZip.java:85-86 | a resource is found exactly when the target-resource setting names a deployed resource, and it is that resource |
| UnZipStep.CollapseSlashes | metl-core/src/main/java/org/jumpmind/metl/core/runtime/component/UnZip.java:115 | no separator follows another in the result; it is no longer, empty only for the empty path, and ends as the path does |
| UnZipStep.CollapseSlashesKeeps | metl-core/src/main/java/org/jumpmind/metl/core/runtime/component/UnZip.java:115 | a path without doubled separators is left as it is |
| UnZipStep.Normalize | metl-core/src/main/java/org/jumpmind/metl/core/runtime/component/UnZip.java:129 | the result is in normal form (no doubled separator, no trailing one except the root) and is empty only for the empty path |
| UnZipStep.NormalizeKeeps | metl-core/src/main/java/org/jumpmind/metl/core/runtime/component/UnZip.java:129 | a path already in normal form is left as it is |
| UnZipStep.NormalizeIdempotent | metl-core/src/main/java/org/jumpmind/metl/core/runtime/component/UnZip.java:129 | normalizing twice is normalizing once |
| UnZipStep.TrailingSeparatorDropped | metl-core/src/main/java/org/jumpmind/metl/core/runtime/component/UnZip.java:129 | one separator after a normal path other than the root is dropped |
| UnZipStep.Resolve | metl-core/src/main/java/org/jumpmind/metl/core/runtime/component/UnZip.java:136 | the parent is a prefix and the child a suffix of the result, with at most one separator added |
| UnZipStep.ResolveSingleSeparators | metl-core/src/main/java/org/jumpmind/metl/core/runtime/component/UnZip.java:136 | resolving one normal path against another doubles no separator |
| UnZipStep.ChildPath | metl-core/src/main/java/org/jumpmind/metl/core/runtime/component/UnZip.java:136 | the parent path, or the root for the empty path, is a prefix and the normalized child a suffix |
| UnZipStep.ChildPathSingleSeparators | metl-core/src/main/java/org/jumpmind/metl/core/runtime/component/UnZip.java:136 | a child of a normal path doubles no separator |
| UnZipStep.Join | metl-core/src/main/java/org/jumpmind/metl/core/runtime/component/UnZip.java:98 | the normalized parent, or the root for an empty parent, is a prefix and the normalized child a suffix |
| UnZipStep.JoinSingleSeparators | metl-core/src/main/java/org/jumpmind/metl/core/runtime/component/UnZip.java:98 | whatever the two strings, the joined path doubles no separator |
| UnZipStep.JoinAbsoluteChild | metl-core/src/main/java/org/jumpmind/metl/core/runtime/component/UnZip.java:98 | a child with a leading separator is placed under the parent: /data and /sub give /data/sub |
| UnZipStep.JoinTrailingSeparators | metl-core/src/main/java/org/jumpmind/metl/core/runtime/component/UnZip.java:128 | a trailing separator on the parent, the child or both leaves the joined path unchanged |
| UnZipStep.JoinEmptyParent | metl-core/src/main/java/org/jumpmind/metl/core/runtime/component/UnZip.java:128 | an empty parent stands for the root: the child sub gives /sub |
| UnZipStep.JoinDoubledSeparator | metl-core/src/main/java/org/jumpmind/metl/core/runtime/component/UnZip.java:128 | a doubled separator is collapsed: a//b and c give a/b/c |
| UnZipStep.FileName | metl-core/src/main/java/org/jumpmind/metl/core/runtime/component/UnZip.java:128 | the file name has no separator and is what follows the last separator of the normalized path (all of it when there is none) |
| UnZipStep.RemoveExtension | metl-core/src/main/java/org/jumpmind/metl/core/runtime/component/UnZip.java:128 | the result is a prefix of the name; when the name ends in an extension (a dot followed by no dot or separator of either kind) exactly that is dropped, otherwise the name is kept |
| UnZipStep.MergeParameters | metl-core/src/main/java/org/jumpmind/metl/core/runtime/component/UnZip.java:125-126 | the keys are the union of flow parameters and header; a header value wins over a flow parameter |
| UnZipStep.UnZip.Start | metl-core/src/main/java/org/jumpmind/metl/core/runtime/component/UnZip.java:82-106 | delete-on-complete is read first; a missing or non-local-file resource and a blank path each give their own error and leave the remaining settings unchanged; otherwise the target directory is the path, joined with the relative path when that is not blank |
| UnZipStep.UnZip.ReadExtractionSettings | metl-core/src/main/java/org/jumpmind/metl/core/runtime/component/UnZip.java:101-104 | each setting takes its property, or keeps its current value when the property is absent |
| UnZipStep.FileSystem.Delete | metl-core/src/main/java/org/jumpmind/metl/core/runtime/component/UnZip.java:150 | the file no longer exists, and every other file is unchanged |
| UnZipStep.UnZip.Handle | metl-core/src/main/java/org/jumpmind/metl/core/runtime/component/UnZip.java:109-161 | what is sent and the filesystem afterwards are those of the handle specification for the current settings |
| UnZipStep.EntryPathsMembership | metl-core/src/main/java/org/jumpmind/metl/core/runtime/component/UnZip.java:131-143 | a path is written for an archive exactly when some entry is neither a directory nor (unless empty files are extracted) empty, and the path is that entry under the target directory |
| UnZipStep.EntryPathsAppend | metl-core/src/main/java/org/jumpmind/metl/core/runtime/component/UnZip.java:131-143 | the paths for two runs of entries are the paths of each, in order |
| UnZipStep.ExtractAllAccumulates | metl-core/src/main/java/org/jumpmind/metl/core/runtime/component/UnZip.java:112-158 | paths of earlier archives stay in front and do not affect the rest of the run |
| UnZipStep.MustExistFindsAll | metl-core/src/main/java/org/jumpmind/metl/core/runtime/component/UnZip.java:114-118 | with must-exist set, a call succeeds only if every listed file exists |
| UnZipStep.NotFoundOnlyIfMustExist | metl-core/src/main/java/org/jumpmind/metl/core/runtime/component/UnZip.java:116-118 | a missing archive fails the call only when must-exist is set |
| UnZipStep.MissingArchiveSkipped | metl-core/src/main/java/org/jumpmind/metl/core/runtime/component/UnZip.java:114-119 | without must-exist, a file that does not exist is skipped wherever it is listed: the run is the run without it, so in particular a missing first file leaves the run of the rest |
| UnZipStep.MissingArchivesSkipped | metl-core/src/main/java/org/jumpmind/metl/core/runtime/component/UnZip.java:114-119 | without must-exist, a list of files none of which exist sends an empty list and changes nothing |
| UnZipStep.ExtractAllOnlyDeletes | metl-core/src/main/java/org/jumpmind/metl/core/runtime/component/UnZip.java:149-151 | the archive map is only ever shrunk: entries are only removed, never added or changed; without delete-on-complete it is unchanged |
| UnZipStep.DeleteOnCompleteRemovesArchives | metl-core/src/main/java/org/jumpmind/metl/core/runtime/component/UnZip.java:149-151 | with delete-on-complete, a successful call leaves none of the listed archives |
| UnZipStep.HandleSendsAtMostOnce | metl-core/src/main/java/org/jumpmind/metl/core/runtime/component/UnZip.java:110-160 | a null payload sends nothing; otherwise exactly one message is sent, carrying the inbound unit-of-work flag, or the call fails |
| ExecutionApi.FirstNamed | symmetric-is-ui/src/main/java/org/jumpmind/symmetric/is/ui/api/ExecutionApi.java:73-75 | nothing is found exactly when no deployment has the name; otherwise the deployment found has the name and no earlier deployment has it |
| ExecutionApi.FirstDone | symmetric-is-ui/src/main/java/org/jumpmind/symmetric/is/ui/api/ExecutionApi.java:79-86 | the answer picked is done, and no earlier answer is |
| ExecutionApi.Awaited | symmetric-is-ui/src/main/java/org/jumpmind/symmetric/is/ui/api/ExecutionApi.java:79-86 | the execution polling returns has a done status |
| ExecutionApi.FirstErrorLog | symmetric-is-ui/src/main/java/org/jumpmind/symmetric/is/ui/api/ExecutionApi.java:101-106 | no message exactly when no log is at ERROR level; otherwise the text of the first log at ERROR level |
| ExecutionApi.RunsExactlyMatching | symmetric-is-ui/src/main/java/org/jumpmind/symmetric/is/ui/api/ExecutionApi.java:69-91 | no run starts exactly when no agent with the name has a deployment with that name; each run is such an agent with its first such deployment |
| ExecutionApi.RunsComplete | symmetric-is-ui/src/main/java/org/jumpmind/symmetric/is/ui/api/ExecutionApi.java:69-86 | every agent with the name that has a deployment with the name gets a run, of its first such deployment |
| ExecutionApi.RunsAppend | symmetric-is-ui/src/main/java/org/jumpmind/symmetric/is/ui/api/ExecutionApi.java:69-91 | the agents are visited in order: the runs of two stretches of agents are the runs of the first followed by those of the second |
| ExecutionApi.InvokeNotFound | symmetric-is-ui/src/main/java/org/jumpmind/symmetric/is/ui/api/ExecutionApi.java:111-119 | the not-found exception is thrown exactly when no run started; its message names the agent when no agent has that name and the deployment otherwise, never "Unexpected error" |
| ExecutionApi.InvokeReturnsDone | symmetric-is-ui/src/main/java/org/jumpmind/symmetric/is/ui/api/ExecutionApi.java:79-110 | a returned result has a done status, is the last run's execution, and has no message unless the status is ERROR |
| ExecutionApi.StepsMessageNoneIff | symmetric-is-ui/src/main/java/org/jumpmind/symmetric/is/ui/api/ExecutionApi.java:96-108 | the result has no message exactly when no step contributes one |
| ExecutionApi.StepsMessageIsLastFailure | symmetric-is-ui/src/main/java/org/jumpmind/symmetric/is/ui/api/ExecutionApi.java:96-108 | a result message comes from the last ERROR step that has an ERROR-level log |
| ExecutionApi.AwaitExecution | symmetric-is-ui/src/main/java/org/jumpmind/symmetric/is/ui/api/ExecutionApi.java:78-86 | the polling loop returns the first done answer for the execution id |
| ExecutionApi.FindDeployment | symmetric-is-ui/src/main/java/org/jumpmind/symmetric/is/ui/api/ExecutionApi.java:73-75 | the inner loop finds the agent's first deployment with the name |
| ExecutionApi.SummariseErrors | symmetric-is-ui/src/main/java/org/jumpmind/symmetric/is/ui/api/ExecutionApi.java:96-108 | the loop over the steps computes the result message |
| ExecutionApi.Summarise | symmetric-is-ui/src/main/java/org/jumpmind/symmetric/is/ui/api/ExecutionApi.java:93-110 | the result copies the execution's id, status and times; it carries a message only for an ERROR execution |
| ExecutionApi.Invoke | symmetric-is-ui/src/main/java/org/jumpmind/symmetric/is/ui/api/ExecutionApi.java:59-120 | the runs started and the outcome are those of the invoke specification |
| ExecutionApi.HandleError | symmetric-is-ui/src/main/java/org/jumpmind/symmetric/is/ui/api/ExecutionApi.java:142-150 | the error wraps the exception; its status code is the exception's declared response status, or 500 when it has none |
| EditModel.ModelEntity.AddModelAttribute | symmetric-is-ui/src/main/java/org/jumpmind/symmetric/is/ui/views/design/EditModelPanel.java:334 | the attribute is appended to the entity's list |
| EditModel.ModelEntity.RemoveModelAttribute | symmetric-is-ui/src/main/java/org/jumpmind/symmetric/is/ui/views/design/EditModelPanel.java:292 | the attribute is taken out of the entity's list, the others keep their order |
| EditModel.AttributeNamed | symmetric-is-ui/src/main/java/org/jumpmind/symmetric/is/ui/views/design/EditModelPanel.java:331 | nothing is found exactly when no attribute has the name; otherwise an attribute of the list with that name |
| EditModel.GetNamePlainIffNoMatch | symmetric-is-ui/src/main/java/org/jumpmind/symmetric/is/ui/views/design/EditModelPanel.java:178-189 | the label is the plain name exactly when the filter is blank or the name does not contain it |
| EditModel.GetNameHighlightsFirstOccurrence | symmetric-is-ui/src/main/java/org/jumpmind/symmetric/is/ui/views/design/EditModelPanel.java:178-189 | otherwise the label is the name with its first occurrence of the filter wrapped in the highlight span |
| EditModel.BlankFilterLabelsPlain | symmetric-is-ui/src/main/java/org/jumpmind/symmetric/is/ui/views/design/EditModelPanel.java:178-189 | with the blank filter every label is the plain name |
| EditModel.IncludedIffMatches | symmetric-is-ui/src/main/java/org/jumpmind/symmetric/is/ui/views/design/EditModelPanel.java:163-176 | an entity is added exactly when the filter is blank, or its name or one of its attributes' names contains the filter |
| EditModel.BlankFilterIncludesAll | symmetric-is-ui/src/main/java/org/jumpmind/symmetric/is/ui/views/design/EditModelPanel.java:163-176 | with the blank filter every entity is added, in order |
| EditModel.InsertAllContents | symmetric-is-ui/src/main/java/org/jumpmind/symmetric/is/ui/views/design/EditModelPanel.java:193 | after adding items the tree holds exactly the old items and the new ones, and, when the old items held no item twice, no item twice |
| EditModel.RegistryContents | symmetric-is-ui/src/main/java/org/jumpmind/symmetric/is/ui/views/design/EditModelPanel.java:315-321 | every entity shown is registered under its upper-cased name; each key maps to the last shown entity with that key |
| EditModel.ImportUnmatched | symmetric-is-ui/src/main/java/org/jumpmind/symmetric/is/ui/views/design/EditModelPanel.java:325-328 | an entity whose key is new is registered and saved, the entity and all its attributes are added to the tree with their rows, all its attributes point back at it, and no attribute list changes |
| EditModel.ImportMatched | symmetric-is-ui/src/main/java/org/jumpmind/symmetric/is/ui/views/design/EditModelPanel.java:329-337 | for a matched entity, only the match's attribute list grows, only by attributes with new names, and the objects saved are exactly the attributes appended, in order |
| EditModel.MergeAppendsFresh | symmetric-is-ui/src/main/java/org/jumpmind/symmetric/is/ui/views/design/EditModelPanel.java:330-337 | a merge only appends attributes whose names are new to the target, saves exactly the attributes it appends, in order, and leaves the other entities as they were |
| EditModel.MergeSaved | symmetric-is-ui/src/main/java/org/jumpmind/symmetric/is/ui/views/design/EditModelPanel.java:330-335 | the objects a merge saves are exactly the attributes it appends to the target's list, in the order appended |
| EditModel.ImportEntityOutcome | symmetric-is-ui/src/main/java/org/jumpmind/symmetric/is/ui/views/design/EditModelPanel.java:323-338 | one import turn only grows the attribute lists by new names and the saved objects, and registers the key only if it was new |
| EditModel.ImportAllGrows | symmetric-is-ui/src/main/java/org/jumpmind/symmetric/is/ui/views/design/EditModelPanel.java:323-339 | the whole import only grows the attribute lists by new names and the saved objects: nothing is dropped or replaced |
| EditModel.ImportAllRegistry | symmetric-is-ui/src/main/java/org/jumpmind/symmetric/is/ui/views/design/EditModelPanel.java:323-339 | the registry after the import is the old one plus each imported entity whose key was not yet taken |
| EditModel.RegistryAfterKeys | symmetric-is-ui/src/main/java/org/jumpmind/symmetric/is/ui/views/design/EditModelPanel.java:323-339 | existing keys keep their entity, and the keys afterwards are the old ones plus the imported ones |
| EditModel.RegistryAfterFirst | symmetric-is-ui/src/main/java/org/jumpmind/symmetric/is/ui/views/design/EditModelPanel.java:323-339 | a new key maps to the first imported entity with that key |
| EditModel.CascadeInsert | symmetric-is-ui/src/main/java/org/jumpmind/symmetric/is/ui/views/design/EditModelPanel.java:280-286 | collecting one more selected item adds the item and its children |
| EditModel.BothPasses | symmetric-is-ui/src/main/java/org/jumpmind/symmetric/is/ui/views/design/EditModelPanel.java:288-301 | the attribute pass and the entity pass together remove the whole cascade, each item deleted once, every attribute before any entity |
| EditModel.EditModelPanel.constructor | symmetric-is-ui/src/main/java/org/jumpmind/symmetric/is/ui/views/design/EditModelPanel.java:67-117 | the new panel shows every entity with plain labels, each attribute under its entity; nothing is selected; add, add-attribute and import are enabled; edit and remove are not |
| EditModel.EditModelPanel.SetButtonsEnabled | symmetric-is-ui/src/main/java/org/jumpmind/symmetric/is/ui/views/design/EditModelPanel.java:119-127 | add, add-attribute and import are enabled exactly when the filter is blank; edit and remove exactly when something is selected |
| EditModel.EditModelPanel.AddModelEntity | symmetric-is-ui/src/main/java/org/jumpmind/symmetric/is/ui/views/design/EditModelPanel.java:192-197 | the entity is added once, labelled with the filter highlight and no parent |
| EditModel.EditModelPanel.AddModelAttribute | symmetric-is-ui/src/main/java/org/jumpmind/symmetric/is/ui/views/design/EditModelPanel.java:200-207 | the attribute is added once, labelled and typed, under the entity it points back at |
| EditModel.EditModelPanel.Add | symmetric-is-ui/src/main/java/org/jumpmind/symmetric/is/ui/views/design/EditModelPanel.java:154-161 | every attribute of the entity points back at it, and the entity and its attributes are in the tree, the attributes under the entity |
| EditModel.EditModelPanel.AddAll | symmetric-is-ui/src/main/java/org/jumpmind/symmetric/is/ui/views/design/EditModelPanel.java:163-176 | exactly the matching entities are added, in order, each attribute under the last added entity that lists it; the entities' lists are unchanged |
| EditModel.EditModelPanel.CollectCascade | symmetric-is-ui/src/main/java/org/jumpmind/symmetric/is/ui/views/design/EditModelPanel.java:277-286 | the items collected are the selected ones and their children |
| EditModel.EditModelPanel.RemoveAttributes | symmetric-is-ui/src/main/java/org/jumpmind/symmetric/is/ui/views/design/EditModelPanel.java:288-295 | each attribute item of the cascade is deleted once and leaves the tree, and is taken out of its entity's list |
| EditModel.EditModelPanel.RemoveEntities | symmetric-is-ui/src/main/java/org/jumpmind/symmetric/is/ui/views/design/EditModelPanel.java:296-301 | each entity item of the cascade is deleted once and leaves the tree |
| EditModel.EditModelPanel.Remove | symmetric-is-ui/src/main/java/org/jumpmind/symmetric/is/ui/views/design/EditModelPanel.java:274-303 | the cascade leaves the tree and each of its items is deleted exactly once, attributes before entities; each owner loses exactly its removed attributes |
| EditModel.EditModelPanel.CollectExisting | symmetric-is-ui/src/main/java/org/jumpmind/symmetric/is/ui/views/design/EditModelPanel.java:315-321 | the registry is the one RegistryContents describes |
| EditModel.EditModelPanel.ImportTurn | symmetric-is-ui/src/main/java/org/jumpmind/symmetric/is/ui/views/design/EditModelPanel.java:323-338 | one imported entity changes the panel and the objects as one import turn does |
| EditModel.EditModelPanel.MergeInto | symmetric-is-ui/src/main/java/org/jumpmind/symmetric/is/ui/views/design/EditModelPanel.java:330-337 | the merge loop changes the panel and the objects as the merge does |
| EditModel.EditModelPanel.MergeOne | symmetric-is-ui/src/main/java/org/jumpmind/symmetric/is/ui/views/design/EditModelPanel.java:331-336 | an attribute whose name is new is pointed at the match, saved, appended and shown under it; any other is ignored |
| EditModel.EditModelPanel.ImportSelected | symmetric-is-ui/src/main/java/org/jumpmind/symmetric/is/ui/views/design/EditModelPanel.java:314-340 | afterwards the panel, the lists and the back-pointers are as the import of the whole collection leaves them |

## Findings

| source | as written | input that shows it | evidently intended | confidence | as-written member | corrected member |
|---|---|---|---|---|---|---|
| symmetric-is-core/src/main/java/org/jumpmind/symmetric/is/core/model/Flow.java:161-172 | `removeFlowStepLink` returns the last link the iteration visited, which is the list's last link, matching or not | links [a→b, c→d], remove (a, b): returns c→d, which stays in the list | return the link removed, or null when no link joins the pair | medium, not executed | FlowModel.Flow.RemoveFlowStepLink, FlowModel.ReturnedLinkNotRemoved | FlowModel.Flow.RemoveFlowStepLinkAsIntended, FlowModel.LastSelectedIsRemoved |

## Left out

- Logging, statistics counters, `AppUtils.sleep` between polls, `URLDecoder.decode` of the path variables and `toObjectMap` are not modelled. None of them affects the results stated here.
- The UUID and the current date of a new `AbstractObject` are constructor parameters. Dates are integers (milliseconds).
- `FormatUtils.replaceTokens` is an uninterpreted function parameter of `Handle`. Its token syntax is not part of this model.
- `TypedProperties` is two maps, for boolean and string settings. How it parses text values is not modelled.
- Writing the entry contents, `mkdirs` and stream closing are not modelled. Extracted files do not enter the filesystem map.
- `getAbsolutePath` (`UnZip.java:98`, `UnZip.java:141`) is not modelled, because it reads the process's working directory. A relative path therefore stays relative. An extracted path is `new File(targetDir, entryName)`, normalized as `java.io.File` does (`ChildPath`).
- Paths follow `java.io.File` on Unix: `/` is the only separator and `/` is the default parent. Windows paths are not modelled.
- The filesystem map is keyed by the payload's file names as given. A name and its normalized form count as different files.
- The `encoding` setting is read but never used by `handle`, so it affects nothing here.
- `Common.ToUpper`: it upper-cases ASCII letters only. Unicode case mapping is not modelled.
- `ExecutionApi.AwaitExecution`: polling ends only if the execution service eventually answers with a done execution. That is its precondition (`EventuallyDone`). `ExecutionApi.Invoke`, `ExecutionApi.InvokeSpec`, `ExecutionApi.InvokeNotFound` and `ExecutionApi.InvokeReturnsDone` require it only of the runs `invoke` starts (`RunsTerminate`). A poll that never ends is left out.
- The agent set is a sequence in its iteration order. The order of a `HashSet` is not modelled, and the same holds for the remove listener's item set: the passes visit the set in an arbitrary order.
- The exception `invoke` throws, and the `MisconfiguredException` and `IoException` of `UnZip`, are result values (`InvokeOutcome`, `StartResult`, `HandleResult`).
- `handleError` reads the exception class's `@ResponseStatus` annotation. Here that is the exception's optional status field.
- The null guards on Flow's link list are left out. The constructor always creates the list and nothing sets it to null.
- `Identity.AbstractObject.HashCode`: its contract states only the 32-bit range. The exact value is `Common.JavaStringHash`, Java's `31 * h + c` over the id's UTF-16 code units, in 32-bit arithmetic.
- `EditModel.EditModelPanel.Remove`: it requires every attribute in the cascade to point back at an entity. The source would throw a `NullPointerException` part-way through the attribute pass otherwise, and that partial state is not modelled.
- `EditModel.ModelEntity.RemoveModelAttribute`: `ModelEntity.java` is not part of this model. Removal is taken to remove every occurrence of the attribute from the list.
- The tree's items, the removal cascade's item set and the entity's attribute list compare model objects by reference. The source's Vaadin container, `HashSet` and `List.remove` use `AbstractObject.equals` and `hashCode`: same runtime class and equal id (`Identity.EqualsSameClass`). The model therefore assumes that distinct model objects have distinct ids.
- `getModelAttributeByName` is taken to return the first attribute with exactly the given name (`AttributeNamed`).
- The tree widget's selection after a removal, icons, collapsing, the table field factory and `editSelectedItem` are not modelled.
- The add-entity, add-attribute, edit and value-change listeners are not modelled. The filter's text-change listener (`EditModelPanel.java:90-98`) has no method of its own. It calls `setButtonsEnabled`, clears the tree and calls `addAll`, and those calls are modelled.
- The `TableColumnSelectWindow` that supplies the imported entities is not modelled. The import starts from the collection it passes to `selected`.
- Concurrency: none of these classes is modelled for concurrent callers.
