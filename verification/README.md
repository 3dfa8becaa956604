# Verified model of git-hubby's ruleset engine and reconciliation protocols

git-hubby reconciles Kubernetes resources (Organizations, Repositories, RulesetPresets, …) with GitHub. This project
models the parts of it whose correctness depends on several pieces of code staying consistent with each other, and
proves that they do:

- **Ruleset inheritance.** A ruleset may `extends` a preset, up to five levels. `KeyedMerge`, `ChainFold`,
  `RulesetMerge`, `Inheritance` model the merge of a child onto its parent and say what every field of an effective
  ruleset is in terms of the chain; `ExtendsChain` and `ChainResolver` model the walk up the chain with its cycle, depth,
  missing and unreadable parents; `EffectiveRuleset` puts both together.
- **Two mirrors of the walk.** `PresetIndex` is the bounded reverse walk that wakes the owners of a changed preset;
  `ChangeDetection` is the map of generations that detects a change at startup. Both are proved complete against the walk.
- **From definitions to GitHub.** `MergeDefinitions` and `RulesetCollect` gather the definitions of several sources, and
  `CollectedDefinitions` says which of them conflict and what is returned, in terms of what they resolve to.
  `RulesetMapper` and `RulesetDiffer` translate and compare; `SentRulesets` says what is sent by reading it back, `RoundTrip`
  proves that translation and comparison agree. `RulesetSync` applies, and `RulesetConvergence` and `StoredRulesets` prove
  what a run leaves behind and when a second one writes nothing.
- **Running and rescheduling.** `ErrorTree`, `RequeuePolicy` and `Executor` cover groups of parallel reconciliations, the
  conditions stored in the status, and the controller's own classification of the joined error; `ComponentConditions` goes
  from the outcomes of the reconciliations to every condition in the status, and `UnresolvedErrors` follows an unresolved
  ruleset to its scheduling.
- **Smaller protocols.** `RateLimit` (stall and requeue), `InstallationTransport` (401 handling under every interleaving),
  `Autolinks` (delete before create).

Code that updates state is a class or a method with loops, proved against a specification function; the properties are
lemmas about those functions. Presets are a `map` from names to reads (found, missing, failed); a reader that may answer
differently each time is a function of the read's number. GitHub is a map by id with a log or history, and an oracle
decides which API call fails, so a run can be cut anywhere. Time is an integer number of seconds. A lemma that is
recursive, or to which Dafny would otherwise apply induction by itself, carries `{:induction false}`: an inductive proof
shows its recursive calls. `dafny verify dfyconfig.toml` checks the whole project.

## Findings

Where a promised property does not hold of the code, the model follows the code, gives an input, and proves exactly when
the property holds:

- **Rulesets that are written on every run.** A definition differs from its own mapping if and only if it gives both
  repository names and repository properties (which the CRD rejects, `AtMostOneOf` at
  api/v1alpha1/rulesetpreset_types.go:82), or an entry of a required reviewer asks for other approvals, another number of
  patterns or a pattern that the reviewer's last entry does not have (`RoundTrip.MappingMatchesIff`,
  `RulesetConvergence.UnrepresentableIsRewritten`). The second case passes admission: a team named once by slug and once by
  id becomes one reviewer when slugs are resolved (`StoredRulesets.TeamNamedTwice`,
  `StoredRulesets.TeamNamedTwiceIsRewritten`).
- **Merge methods that stay wrong.** `allowedMergeMethods` is sent but never compared
  (`RoundTrip.MergeMethodsAreNotCompared`). A run leaves the wanted ones if and only if they were there before or something
  that is compared differed (`StoredRulesets.MergeMethodsSettleIff`); `StoredRulesets.StaleMergeMethodsStay` is a run that
  writes nothing and leaves the wrong ones.
- **An update flag that stays wrong.** `updateAllowsFetchAndMerge` is sent as true, but only the presence of the update rule
  is compared (`StoredRulesets.UpdateFlagIsNotCompared`); the condition is the same (`StoredRulesets.UpdateFlagSettlesIff`,
  `StoredRulesets.StaleUpdateFlagStays`).
- **Lists compared by key.** The comparison of status checks decides equality up to order for every list on GitHub if and
  only if the definition's contexts are distinct (`RoundTrip.ChecksDecidedIff`); contexts from two apps, which the merge
  keeps apart, are not (`RoundTrip.OneContextFromTwoApps`). The same holds for bypass actors and workflows
  (`RoundTrip.ActorsDecidedIff`, `RoundTrip.WorkflowListDecidedIff`). For required reviewers the condition is on GitHub's
  side: distinct reviewers with distinct patterns each, or an entry that names none (`RoundTrip.ReviewersDecidedIff`). For
  repository properties, among lists on GitHub that repeat no value: distinct names, or a last entry of some name that
  repeats a value itself and so matches nothing (`RoundTrip.TargetsDecidedIff`).
- **Lists of strings.** `stringSlicesEqual` decides equality up to order for every first list if and only if the second
  list has no duplicates (`RoundTrip.StringsDecidedIff`, `RoundTrip.StringsEqualIsOneSided`).
- **Requeued without error.** The comment on `OnReconcileError` ties this to user action, but a rate limit, a spread delay
  or a shutdown has the same effect, and nothing else has (`Executor.StatusAgreesWithScheduling`,
  `Executor.RateLimitIsNotReported`).
- **Hidden failures.** An error is reported if and only if its tree contains no intended stop
  (`Executor.FailureReportedIff`, `Executor.StopHidesFailure`).
- **The bound of the reverse walk.** Five steps are needed for direct references; four would do for inline rulesets
  (`PresetIndex.FourStepsMissADirectReference`, `PresetIndex.InlineNeedsOneLess`).
- **Autolinks that hash alike.** An autolink's hashed text tells it apart from every autolink whose prefix has no `|` if
  and only if its own prefix has none (`Autolinks.JoinedTextIdentifiesIff`, `Autolinks.BarsCollide`); the CRD's pattern
  excludes them.
- **Entries that share a merge key.** No other workflow has the merge key of a workflow if and only if neither its
  repository name nor its path has a slash (`Inheritance.WorkflowKeyUniqueIff`); a path usually has one, and then the
  other workflow's repository name has a slash too. A workflow shares its key with another one whose repository name has no
  slash, which is so of every repository on GitHub, if and only if its own repository name has one
  (`Inheritance.WorkflowKeyIdentifiesIff`). No other status check has the merge key of a check if and only if no slash of
  its context is followed by `slug:` and no slash of its app slug by what reads as a slug, an id or nothing
  (`Inheritance.StatusCheckKeyUniqueIff`, `Inheritance.SlugsCollide`). The CRD excludes neither.

## Model

| member | source | states |
|---|---|---|
| KeyedMerge.MergeKeyedLoop | internal/reconciler/common/rulesets/extends_merge.go:187-218 | the loops, with their maps and early return, compute the closed form of the keyed merge for any entry type and key |
| KeyedMerge.OverwriteParents | internal/reconciler/common/rulesets/extends_merge.go:200-210 | parent entries are overridden at their first occurrence, later ones with a child key are dropped |
| KeyedMerge.AppendNew | internal/reconciler/common/rulesets/extends_merge.go:211-217 | the child's new keys follow in child order, with the child's last entry |
| KeyedMerge.IndexByKey | internal/reconciler/common/rulesets/extends_merge.go:194-197 | the map filled by one pass holds the last entry of each key |
| KeyedMerge.MergeKeyedAssociative | internal/reconciler/common/rulesets/extends_merge.go:187-218 | the keyed merge is associative on all lists, duplicate keys included |
| ChainFold.FoldPiece | internal/reconciler/common/rulesets/resolve.go:126-129 | with an associative merge any contiguous piece of a chain may be merged first |
| ChainFold.NearestDefinerWins | internal/reconciler/common/rulesets/extends_merge.go:187-218 | a key set by a non-base ruleset has exactly one effective entry, the last one of the nearest definer |
| ChainFold.BaseEntriesKept | internal/reconciler/common/rulesets/extends_merge.go:187-218 | a key only the base sets keeps all of the base's entries in order |
| ChainFold.ChainKeysAndOrder | api/v1alpha1/rulesetpreset_types.go:32-37 | the effective keys are the union along the chain, in base-first order: inherited entries cannot be removed |
| ChainFold.NearestDefinerSemantics | internal/reconciler/common/rulesets/extends_merge.go:187-218 | all of this for every key and every ruleset of a chain at once |
| ChainFold.FoldObjects | internal/reconciler/common/rulesets/extends_merge.go:175-185 | along a chain, absent objects do not take part and the present ones are folded |
| RulesetMerge.MergeRulesAssociative | internal/reconciler/common/rulesets/extends_merge.go:84-139 | the merge of the rules, with all its recursive, keyed, inherited and atomic parts, is associative |
| RulesetMerge.MergeSpecAssociative | internal/reconciler/common/rulesets/extends_merge.go:72-82 | the merge of whole rulesets is associative |
| RulesetMerge.MergePieceFirst | internal/reconciler/common/rulesets/resolve.go:126-129 | any contiguous piece of an extends chain may be merged first without changing the effective ruleset |
| RulesetMerge.EffectiveScalars | internal/reconciler/common/rulesets/extends_merge.go:72-82 | the name is the ruleset's own; target and enforcement come from the nearest ruleset that sets them |
| RulesetMerge.EffectiveBypassActors | internal/reconciler/common/rulesets/extends_merge.go:72-82 | the effective bypass actors are the chain's lists merged by key |
| RulesetMerge.EffectiveStatusChecks | internal/reconciler/common/rulesets/extends_merge.go:118-123 | status checks are merged over the rulesets that have the rule; absent everywhere means absent |
| RulesetMerge.EffectiveRequiredReviewers | internal/reconciler/common/rulesets/extends_merge.go:104-116 | the same for required reviewers |
| RulesetMerge.EffectiveWorkflows | internal/reconciler/common/rulesets/extends_merge.go:132-139 | the same for workflows |
| Inheritance.EffectiveFields | internal/reconciler/common/rulesets/extends_merge.go:72-102 | every flag, pattern and the conditions come whole from the nearest ruleset that sets them, and are unset if none does |
| Inheritance.EffectivePullRequest | internal/reconciler/common/rulesets/extends_merge.go:104-116 | so does every scalar of the pull request rule, an empty list of merge methods and a zero count meaning "not set" |
| Inheritance.EffectiveObjects | internal/reconciler/common/rulesets/extends_merge.go:118-139 | so do the scalars of the status check, Copilot review and workflow rules |
| Inheritance.BypassActorKeyIdentifies | internal/reconciler/common/rulesets/extends_merge.go:141-143 | two actors share a key exactly when type and slug-or-id are the same |
| Inheritance.ReviewerKeyIdentifies | internal/reconciler/common/rulesets/extends_merge.go:151-153 | two reviewers share a key exactly when type and slug-or-id are the same |
| Inheritance.WorkflowKeyUniqueIff | internal/reconciler/common/rulesets/extends_merge.go:132-139 | no other workflow shares the key of a workflow iff neither its repository name nor its path has a slash |
| Inheritance.WorkflowKeyIdentifiesIff | internal/reconciler/common/rulesets/extends_merge.go:132-139 | no workflow of a repository without a slash in its name shares the key of another workflow iff that one's repository name has no slash |
| Inheritance.StatusCheckKeyUniqueIff | internal/reconciler/common/rulesets/extends_merge.go:145-164 | no other status check shares the key of a check iff no slash of its context is followed by `slug:` and no slash of its slug by what reads as a slug, an id or nothing |
| Inheritance.SlugsCollide | internal/reconciler/common/rulesets/extends_merge.go:145-164 | an input: two checks of different contexts and apps with one key |
| ExtendsChain.ResolveSucceedsIff | internal/reconciler/common/rulesets/resolve.go:94-138 | resolution succeeds iff a path of at most five distinct existing presets, none the ruleset itself, leads to one that extends nothing and some ruleset sets enforcement |
| ExtendsChain.ResolveFailsIff | internal/reconciler/common/rulesets/resolve.go:94-125 | otherwise reason and chain are exactly the first obstacle and the walked path; a cycle takes precedence over depth |
| ExtendsChain.ResolveLacksEnforcementIff | internal/reconciler/common/rulesets/resolve.go:134-136 | the enforcement error is returned exactly when the walk ends and no ruleset sets enforcement |
| ExtendsChain.WalkReachesIff | internal/reconciler/common/rulesets/resolve.go:104-124 | the loop ends with a chain iff that chain is a clean path to its end |
| ExtendsChain.WalkBlockedIff | internal/reconciler/common/rulesets/resolve.go:104-124 | the loop returns an error iff its chain is a clean path followed by that obstacle |
| ExtendsChain.ResolveIsLocal | internal/reconciler/common/rulesets/resolve.go:94-138 | the outcome depends on nothing but the presets the walk reads |
| ExtendsChain.AncestorsMirrorWalk | internal/reconciler/common/rulesets/resolve.go:143-159 | `Ancestors` yields exactly the walk of `Resolve` up to its obstacle and fails exactly where a preset is unreadable |
| ExtendsChain.FlatteningPreservesMeaning | internal/reconciler/common/rulesets/resolve.go:126-137 | replacing a resolvable preset by its own resolved spec leaves every ruleset that resolved before unchanged |
| EffectiveRuleset.ResolvedFields | api/v1alpha1/rulesetpreset_types.go:32-37 | a resolved ruleset has its own name, no extends, the defaulted target, and every other scalar of the ruleset, its rules and their merged objects from the nearest ruleset that sets it |
| EffectiveRuleset.ResolvedLists | api/v1alpha1/rulesetpreset_types.go:32-37 | the four keyed lists of a resolved ruleset are the chain's lists merged by key |
| EffectiveRuleset.ResolvedByNearest | api/v1alpha1/rulesetpreset_types.go:32-37 | nearest-definer semantics of all four keyed lists of a resolved ruleset: no key lost or invented, base-first order, one entry per overridden key (the nearest definer's last), the base's own entries otherwise |
| ChainResolver.ChainResolver.constructor | internal/reconciler/common/rulesets/resolve.go:73-75 | a new resolver remembers nothing |
| ChainResolver.ChainResolver.GetPreset | internal/reconciler/common/rulesets/resolve.go:78-88 | a found preset is read once and remembered; a failed read is not |
| ChainResolver.ChainResolver.WalkUp | internal/reconciler/common/rulesets/resolve.go:94-125 | the walk is the one every store consistent with the answers received gives |
| ChainResolver.FoldLoop | internal/reconciler/common/rulesets/resolve.go:126-129 | the merge loop from the base to the ruleset computes the fold of the chain |
| ChainResolver.ChainResolver.ResolveRuleset | internal/reconciler/common/rulesets/resolve.go:94-138 | for a reader that may change between reads, the outcome is that of every store consistent with the answers; which are answers of the reader; with a stable reader, that of its store |
| ChainResolver.ChainResolver.FindAncestors | internal/reconciler/common/rulesets/resolve.go:143-159 | for a reader that may change between reads, the ancestors and presets that every store consistent with the answers gives; an error only after a failed read |
| PresetIndex.ExpandLevel | internal/controller/rulesetpreset_index.go:117-136 | one level of the reverse walk adds exactly the children of the level, each once; a list error keeps what was found |
| PresetIndex.PresetWithDescendants | internal/controller/rulesetpreset_index.go:113-138 | without list errors, exactly the presets that extend the changed one in at most five steps, each once, the preset first |
| PresetIndex.Requests | internal/controller/rulesetpreset_index.go:142-162 | without list errors, exactly one request per owner that references one of those presets; never a request for another owner |
| PresetIndex.WatchIsComplete | internal/controller/rulesetpreset_index.go:113-162 | if creating, deleting or changing a preset changes the outcome of a reference or inline ruleset of an owner, the owner is found, cyclic graphs included |
| PresetIndex.WokenUpIff | internal/controller/rulesetpreset_index.go:86-162 | an owner is woken up exactly if it references, or extends in an inline ruleset, a preset from which at most five extends edges lead to the changed one |
| PresetIndex.InlineNeedsOneLess | internal/controller/rulesetpreset_index.go:86-98 | for owners with inline rulesets only, four steps suffice |
| PresetIndex.FourStepsMissADirectReference | internal/controller/rulesetpreset_index.go:113-138 | with four steps, creating the base of a longest allowed chain misses an owner that references the chain directly |
| ChangeDetection.CollectPresetGenerations | internal/reconciler/reconcilerfactory/factory.go:283-330 | for any reader: fails only after a failed read, records only generations that were read, and records every preset of a chain that answers of the reader lead through, for each reference and inline ruleset; with a stable reader, succeeds exactly when every read does and records exactly the tracked presets |
| ChangeDetection.SubResourcesChanged | internal/reconciler/spreading/spreading.go:166-182 | one-sided lookup after a length check decides equality of the maps, nil distinguished |
| ChangeDetection.ChangeDetectionIsSound | internal/reconciler/reconcilerfactory/factory.go:301-330 | if generation determines spec, equal maps mean equal outcomes for all references and inline rulesets, failures included |
| ChangeDetection.Spread | internal/reconciler/spreading/spreading.go:107-203 | a reconciliation is delayed exactly if the resource is observed, healthy, undeleted and has unchanged sub-resources before the end of the period; it then happens at the drawn minute of the interval |
| MergeDefinitions.Dedupe | internal/reconciler/common/merge/merge.go:21-57 | one pass keeps the first candidate per key and reports each conflicting key once, with all its sources |
| MergeDefinitions.ConflictIff | internal/reconciler/common/merge/merge.go:21-57 | a key is in conflict exactly when a later candidate differs from the first one with that key |
| MergeDefinitions.FirstPerKeyIsFirst | internal/reconciler/common/merge/merge.go:21-57 | the kept candidates have distinct keys, cover every key and are each the first of theirs |
| MergeDefinitions.FirstPerKeyPlaces | internal/reconciler/common/merge/merge.go:21-57 | in order, they are the candidates at exactly the places before which their key does not occur |
| RulesetCollect.MarkUnresolvedDuplicates | internal/reconciler/common/rulesets/collect.go:111-124 | the in-place pass marks exactly the resolved entries whose name has an unresolved candidate |
| RulesetCollect.ResolveDesired | internal/reconciler/common/rulesets/collect.go:126-138 | a candidate keeps its name, and an unresolved one carries the definition as written |
| RulesetCollect.Collect | internal/reconciler/common/rulesets/collect.go:65-107 | for any reader, one candidate per reference and inline ruleset, each resolved with answers the reader gave; the result is their deduplicated and marked list, their conflicts with all their sources, or a reference the reader did not find; with a stable reader the candidates are those of its store, which `CollectedDefinitions` takes from there |
| RulesetCollect.CollectFailsClosed | internal/reconciler/common/rulesets/collect.go:105-124 | every defined name is returned once, as unresolved exactly when one of its definitions is |
| RulesetCollect.SelfDoesNotMatter | internal/reconciler/common/rulesets/resolve.go:94-125 | a definition that resolves under one owner name resolves to the same ruleset under another |
| RulesetCollect.RawEqualTogether | internal/reconciler/common/rulesets/collect.go:85-90 | definitions written alike are resolved or unresolved together, to the same ruleset |
| RulesetCollect.SameDefinitionTransitive | internal/reconciler/common/rulesets/collect.go:85-90 | so the two-way comparison is transitive on the candidates of one store |
| RulesetCollect.ConflictsAreSymmetric | internal/reconciler/common/rulesets/collect.go:83-104 | a name is in conflict exactly when any two of its definitions differ |
| RulesetCollect.ConflictsIgnoreOrder | internal/reconciler/common/rulesets/collect.go:65-107 | permuting the sources does not change the conflicting names |
| RulesetCollect.EffectiveRulesetsIgnoreOrder | internal/reconciler/common/rulesets/collect.go:65-107 | nor, without conflicts, the effective ruleset under any name |
| CollectedDefinitions.ConflictsExactly | internal/reconciler/common/rulesets/collect.go:83-104 | a name is reported as a conflict exactly when two of its definitions both resolve and to different rulesets, or do not both resolve and are written differently |
| CollectedDefinitions.CollectedExactly | internal/reconciler/common/rulesets/collect.go:65-138 | without conflicts, what is returned for a name is what all of its definitions resolve to, or else one of its definitions as written with its own reason |
| CollectedDefinitions.OutcomeIs | internal/reconciler/common/rulesets/collect.go:111-124 | if presets change meanwhile: the first definition is returned, but if it resolves and a later one does not, with the spec and the error of the last such |
| CollectedDefinitions.SameWhenResolved | internal/reconciler/common/rulesets/collect.go:85-90 | two definitions that differ only in how they spell the default target are not in conflict |
| CollectedDefinitions.SourcesIdentify | internal/reconciler/common/merge/merge.go:8-10 | the sources that conflicts name tell presets and inline rulesets apart, by name and index |
| RulesetDiffer.FindUnmatched | internal/mapper/github_ruleset_mapper.go:324-344 | the loop over the definition's map finds an entry without match exactly when there is one |
| RulesetDiffer.CompareStrings | internal/mapper/github_ruleset_mapper.go:774-791 | equal length and one-sided inclusion |
| RulesetDiffer.CompareBypassActors | internal/mapper/github_ruleset_mapper.go:300-345 | the loops decide the comparison of the last entries per key |
| RulesetDiffer.CompareRequiredReviewers | internal/mapper/github_ruleset_mapper.go:622-666 | the same, looking GitHub's reviewers up among the definition's |
| RulesetDiffer.CompareStatusChecks | internal/mapper/github_ruleset_mapper.go:669-711 | the same for status checks, by context |
| RulesetDiffer.CompareWorkflows | internal/mapper/github_ruleset_mapper.go:535-587 | the same for workflows, by repository id and path |
| RulesetDiffer.ComparePropertyTargets | internal/mapper/github_ruleset_mapper.go:444-468 | the same for repository properties, by name |
| RoundTrip.MappingMatchesIff | internal/mapper/github_ruleset_mapper.go:14-297 | a definition differs from its own mapping iff it gives both repository conditions, or an entry of a reviewer differs from that reviewer's last entry in approvals or number of patterns or has a pattern the last one lacks |
| RoundTrip.DistinctReviewersAreConsistent | internal/mapper/github_ruleset_mapper.go:622-666 | distinct reviewers meet that condition |
| RoundTrip.MatchedIffPermutation | internal/mapper/github_ruleset_mapper.go:300-345 | equal length and one-sided matching hold exactly for permutations if the side that is looked through has distinct keys, whatever the other side has |
| RoundTrip.StringsEqualIff | internal/mapper/github_ruleset_mapper.go:774-791 | the string comparison decides equality up to order when the second list has no duplicates |
| RoundTrip.StringsDecidedIff | internal/mapper/github_ruleset_mapper.go:774-791 | it does so for every first list iff the second list has no duplicates |
| RoundTrip.StringsEqualIsOneSided | internal/mapper/github_ruleset_mapper.go:774-791 | an input: with duplicates the answer depends on which side has them |
| RoundTrip.DifferDecidesEquality | internal/mapper/github_ruleset_mapper.go:270-297 | if the definition names no actor, property, check or workflow twice and GitHub no reviewer and no string twice, "no difference" means equal compared fields up to list order and the spelling of nil and defaults |
| RoundTrip.ChecksDecidedIff | internal/mapper/github_ruleset_mapper.go:669-711 | the comparison of status checks decides equality up to order, for every list on GitHub, iff the definition's contexts are distinct |
| RoundTrip.ActorsDecidedIff | internal/mapper/github_ruleset_mapper.go:300-345 | the same for bypass actors, by type and id |
| RoundTrip.WorkflowListDecidedIff | internal/mapper/github_ruleset_mapper.go:535-587 | the same for workflows, by repository id and path |
| RoundTrip.TargetsDecidedIff | internal/mapper/github_ruleset_mapper.go:444-468 | the same for repository properties, among lists on GitHub of the same length that repeat no value, iff names are distinct or the last entry of some name repeats a value |
| RoundTrip.ReviewersDecidedIff | internal/mapper/github_ruleset_mapper.go:622-666 | the comparison of required reviewers decides equality up to order, for every definition, iff GitHub's reviewers and the patterns of each are distinct or an entry names no reviewer |
| RoundTrip.OneContextFromTwoApps | internal/mapper/github_ruleset_mapper.go:669-711 | an input: one context from two apps is reported as a difference although the checks are a permutation |
| RoundTrip.MergeMethodsSent | internal/mapper/github_ruleset_mapper.go:206-224 | known merge methods are sent as written and in order, an empty list as "merge" |
| RoundTrip.MergeMethodsAreNotCompared | internal/mapper/github_ruleset_mapper.go:590-618 | changing only the allowed merge methods never changes the differ's answer |
| SentRulesets.SentReadsBack | internal/mapper/github_ruleset_mapper.go:14-267 | for every definition: an empty name is the only error; what is sent reads back as the definition, entry by entry and in order, without slugs, workflow repository names and extends, with every default written out and repository names in place of properties |
| SentRulesets.ReadBackIsSentAgain | internal/mapper/github_ruleset_mapper.go:14-267 | every ruleset in the spelling that is sent is sent again as it was after reading it back |
| SentRulesets.SentIsTheOnlyOne | internal/mapper/github_ruleset_mapper.go:14-267 | so a definition is sent as the only ruleset in that spelling that reads back as its plain form, spelling of nil included |
| SentRulesets.SentLooksTheSame | internal/mapper/github_ruleset_mapper.go:14-267 | what is sent has the same view as the definition, if that gives at most one repository condition |
| RulesetSync.Sync | internal/reconciler/common/rulesets/sync.go:45-130 | the code is the specified run, for any listing and any pattern of API errors; the unresolved errors are returned in order once all else is done |
| RulesetSync.IndexedIff | internal/reconciler/common/rulesets/sync.go:53-60 | the index has exactly the names that are listed, nil elements and empty names aside |
| RulesetSync.IndexedLast | internal/reconciler/common/rulesets/sync.go:53-60 | each name has the id of the last element listed with it |
| RulesetSync.PreparedWhole | internal/reconciler/common/rulesets/sync.go:76-87 | with required reviewers enabled the definition goes through slug resolution and adjustment as it is |
| RulesetSync.PreparedWithoutReviewers | internal/reconciler/common/rulesets/sync.go:76-87 | with them disabled it goes through both without any required reviewer and with everything else |
| RulesetSync.DisabledReviewersAreNotSent | internal/reconciler/common/rulesets/sync.go:76-87 | so none is left, unless slug resolution or adjustment invents one |
| RulesetSync.UnidentifiedIsNeverWritten | internal/reconciler/common/rulesets/sync.go:99-124 | a ruleset listed without an id is never created again, updated or deleted, wherever the run is cut |
| RulesetSync.DeleteOrphans | internal/reconciler/common/rulesets/sync.go:120-128 | the deletions, in any map order, stop at the first error |
| RulesetSync.SyncFailsClosed | internal/reconciler/common/rulesets/sync.go:61-129 | wherever a run is cut, no write concerns an unresolved name, and all deletions come after all other writes, once every desired ruleset was processed without error |
| RulesetSync.UnresolvedDefinitionsAreNeverWritten | internal/reconciler/common/rulesets/sync.go:42-44 | from definitions to writes: a name with an unresolved definition is never created, updated or deleted, for any reads and failures |
| RulesetConvergence.UnresolvedAreUntouched | internal/reconciler/common/rulesets/sync.go:64-70 | wherever a run is cut, the rulesets of unresolved names are exactly as they were |
| RulesetConvergence.ListedExactly | internal/reconciler/common/rulesets/sync.go:52-60 | if the listing has every ruleset with its name and id and no other name, in any order, the index finds exactly the rulesets of GitHub |
| RulesetConvergence.SyncConverges | internal/reconciler/common/rulesets/sync.go:45-130 | if GitHub lists exactly its rulesets, a run without errors leaves exactly the applied names and the pre-existing unresolved ones; each applied one is settled, each unresolved one untouched |
| RulesetConvergence.SyncSucceedsIff | internal/reconciler/common/rulesets/sync.go:45-130 | unless GitHub lists an id it does not have, a run in which no call fails succeeds exactly if every applied definition can be prepared and mapped; rulesets listed without an id do not matter |
| RulesetConvergence.SyncReachesSync | internal/reconciler/common/rulesets/sync.go:45-130 | if the applied definitions are representable, none of them differs from GitHub afterwards |
| RulesetConvergence.InSyncWritesNothing | internal/reconciler/common/rulesets/sync.go:103-118 | in sync, a run writes nothing, even if it fails on the way |
| RulesetConvergence.SecondSyncWritesNothing | internal/reconciler/common/rulesets/sync.go:45-130 | after a successful run a second one writes nothing |
| RulesetConvergence.UnrepresentableIsRewritten | internal/reconciler/common/rulesets/sync.go:103-118 | a ruleset stored as sent is written again exactly when its definition is not representable, and is stored the same afterwards |
| StoredRulesets.SyncStores | internal/reconciler/common/rulesets/sync.go:45-130 | a run without errors leaves of each applied ruleset that was there exactly what was sent, if it differed, and what was there otherwise |
| StoredRulesets.MergeMethodsSettleIff | internal/reconciler/common/rulesets/sync.go:103-118 | such a run leaves the wanted merge methods iff they were there before or something that is compared differed |
| StoredRulesets.StaleMergeMethodsStay | internal/reconciler/common/rulesets/sync.go:103-118 | a whole run that writes nothing and leaves other merge methods than wanted |
| StoredRulesets.UpdateFlagSettlesIff | internal/mapper/github_ruleset_mapper.go:102-106 | a run without errors leaves the update rule as wanted iff it was so before or something that is compared differed |
| StoredRulesets.StaleUpdateFlagStays | internal/mapper/github_ruleset_mapper.go:471-521 | a whole run that writes nothing and leaves the flag of the update rule unset |
| StoredRulesets.TeamNamedTwice | internal/reconciler/common/idresolver/resolver.go:318-341 | a team named by slug and by id resolves to one reviewer, whose entries are consistent iff the first asks for nothing but what the second does |
| StoredRulesets.RewritingRun | internal/reconciler/common/rulesets/sync.go:45-130 | a whole run over a ruleset stored as sent for an unrepresentable definition updates it and leaves the same rulesets, so the next run does so again |
| StoredRulesets.TeamNamedTwiceIsRewritten | internal/reconciler/common/rulesets/sync.go:45-130 | an input that admission accepts and every run without errors updates |
| UnresolvedErrors.UserActionIff | internal/reconciler/common/rulesets/resolve.go:54-60 | the joined error of the unresolved rulesets requires user action iff there are some and none of them met a read error |
| UnresolvedErrors.BackoffIffReadError | internal/controller/requeue_policy.go:116-127 | such a run is retried with backoff iff a preset could not be read; otherwise the controller waits |
| UnresolvedErrors.ReadErrorIff | internal/reconciler/common/rulesets/resolve.go:116-120 | a definition has a read error iff its chain is clean up to a preset that cannot be read |
| UnresolvedErrors.UnresolvedWaitForWatches | internal/controller/requeue_policy.go:116-135 | unresolved rulesets without a read error, and without anything wrapped that says otherwise, wait for the success interval |
| ErrorTree.RequiresUserActionIff | internal/reconciler/user_action.go:27-61 | an error requires user action exactly when it consists only of errors that do |
| ErrorTree.AwaitsIff | internal/reconciler/user_action.go:79-97 | an error awaits a GitHub change exactly when it contains a marker or a 422 response |
| ErrorTree.FindFirstIff | internal/reconciler/stop.go:22-27 | the typed search finds an error exactly when the tree contains one |
| ErrorTree.FindFirstIsFirst | internal/reconciler/stop.go:22-27 | it finds the first one, parents before children and joined errors in order |
| ErrorTree.StopOfIs | internal/reconciler/stop.go:22-27 | the message of a stop is that of the first stop in the tree |
| ErrorTree.ReadableIff | internal/reconciler/user_action.go:178-183 | an error is reworded exactly when its tree contains a 422 response |
| RequeuePolicy.UserActionWait | internal/controller/requeue_policy.go:116-135 | an error that requires user action waits for the success interval, or for the GitHub state interval if that is set and shorter and the tree contains a marker, a 422 or first a NotFound |
| RequeuePolicy.OtherErrors | internal/controller/requeue_policy.go:72-102 | other errors: nothing on shutdown, then the rate limit with at least 30 seconds, then the spread delay, else backoff |
| RequeuePolicy.ResetTimeIs | internal/controller/requeue_policy.go:72-102 | the first rate limit error of the library decides if it has a reset time, else the first one of the client |
| RequeuePolicy.SpreadDelayIs | internal/controller/requeue_policy.go:72-102 | the spread delay is that of the first error that asks for one |
| Executor.RunGroup | internal/reconciler/executor.go:181-205 | the results of a group are the same for every completion order, and each member is called once |
| Executor.ProcessGroup | internal/reconciler/executor.go:148-161 | separates intended stops from errors |
| Executor.SkipRemaining | internal/reconciler/executor.go:208-221 | one skipped result per remaining reconciliation, in order |
| Executor.RunReconciliations | internal/reconciler/executor.go:135-178 | for every completion order of every group, the results and errors of the specified run; every reconciliation up to and including the first halting group is called exactly once, group after group, and nothing else is called |
| Executor.Accounting | internal/reconciler/executor.go:135-221 | each of the called reconciliations has its result, in order; after a stop without failure each later one has exactly one skipped result, after a failure none; the errors are the halting group's |
| Executor.UpdateConditions | internal/reconciler/executor.go:251-291 | each condition is that of its last result, all others are kept, and Ready summarizes the errors; `ComponentConditions.ComponentStatus` says what that means for the outcomes |
| Executor.ResultsCarryTheErrors | internal/reconciler/executor.go:135-178 | the errors in the results are exactly those joined and returned |
| Executor.ReadyIffNoError | internal/reconciler/executor.go:39-75 | Ready is True exactly when no error is returned |
| Executor.StatusAgreesWithScheduling | internal/reconciler/executor.go:251-291 | Ready says UserActionRequired exactly when the controller classifies the returned error so; and it says exactly when the error is not returned |
| Executor.RateLimitIsNotReported | internal/controller/requeue_policy.go:104-127 | a rate limit while reconciling is stored as failed but not returned |
| Executor.FailureReportedIff | internal/reconciler/executor.go:148-161 | an error is reported exactly when its tree contains no intended stop |
| Executor.StopHidesFailure | internal/reconciler/stop.go:22-27 | an error joined with a stop is neither reported nor returned |
| ComponentConditions.ResultsIff | internal/reconciler/executor.go:135-221 | the results of a run are exactly those of the reconciliations up to the first group that fails or stops, and a skipped one for each later reconciliation if that group only stops |
| ComponentConditions.StopMessage | internal/reconciler/executor.go:148-161 | what is skipped carries the message of the first reconciliation of the group that stopped the run |
| ComponentConditions.ComponentStatus | internal/reconciler/executor.go:224-291 | over whole runs: a component is False exactly if its reconciliation was called and its error contains no stop, with UserActionRequired exactly if the user can fix every part of it; True if it was called without such an error; skipped after a group that stopped without failure; as before after a failure |
| ComponentConditions.ReadyStatus | internal/reconciler/executor.go:251-291 | Ready is True exactly if no called component failed, and else asks for user action exactly if the user can fix all that failed |
| ComponentConditions.ReadyFromComponents | internal/reconciler/executor.go:251-291 | in terms of conditions: Ready is True exactly if all called components are, and asks for user action exactly if one of them is False and every such one asks for it |
| ComponentConditions.Reconcile | internal/reconciler/executor.go:39-75 | running and updating the conditions, for every completion order, is such a run, and returns an error exactly if a called component failed |
| RateLimit.OrgRateLimitRegistry.constructor | internal/ratelimit/org_registry.go:64-70 | a new registry knows no organization |
| RateLimit.OrgRateLimitRegistry.Update | internal/ratelimit/org_registry.go:126-142 | records one category of one organization at the given time, under the first app id; unmonitored categories are ignored and no other organization changes |
| RateLimit.OrgRateLimitRegistry.UpdateFromRateLimitResponse | internal/ratelimit/org_registry.go:147-189 | records each category present in the response at the given time and keeps all others, for one organization only |
| RateLimit.OrgRateLimitRegistry.ShouldStall | internal/ratelimit/org_registry.go:198-239 | stalled exactly when one of the given categories, or of the four monitored ones, is below its threshold with its reset plus grace in the future; the delay ends when the last of them renews |
| RateLimit.OrgRateLimitRegistry.IsStale | internal/ratelimit/org_registry.go:244-263 | stale exactly when no category was updated within the threshold |
| RateLimit.OrgRateLimitRegistry.CheckRateLimit | internal/ghclient/factory.go:203-230 | a known stall is an error without refresh; otherwise, if no category was updated within the threshold and the refresh succeeds, its limits are recorded and the result is an error exactly if the organization is then stalled; otherwise nothing changes and there is no error; the reset time outlasts every stall known then; other organizations are untouched |
| RateLimit.OrgRateLimitRegistry.RefreshAndCheck | internal/ghclient/factory.go:216-227 | records the refreshed limits and decides by them |
| RateLimit.TooLowStalls | internal/ghclient/factory.go:216-227 | a response with a category below its threshold and its reset in the future stalls the organization |
| RateLimit.StallEnds | internal/ratelimit/org_registry.go:198-239 | from the end of the delay on the organization is not stalled |
| RateLimit.StallLasts | internal/ratelimit/org_registry.go:198-239 | until then it is stalled all the time: the delay is exact |
| RateLimit.RequeueOutlastsStall | internal/controller/requeue_policy.go:81-92 | from the requeue time on, the organization is not stalled by what `ShouldStall` answered for, however the error was wrapped |
| RateLimit.OrgRateLimitRegistry.RequeueAfterCheck | internal/ghclient/factory.go:203-230 | from the check through the wrapped error to the requeue: a requeue exactly after a known stall or one found by refreshing stale data, so always after a fresh response below a threshold; no backoff, at least the minimum delay, and no stall from the requeue time on if the registry is not updated meanwhile |
| RateLimit.WrappedResetTime | internal/controller/requeue_policy.go:81-87 | the reset time survives any depth of wrapping |
| InstallationTransport.AuthorizeGitHubAccess.CurrentInstallation | internal/ghclient/transport.go:104-111 | hands out the cached transport or caches a new one |
| InstallationTransport.AuthorizeGitHubAccess.Invalidate | internal/ghclient/transport.go:115-121 | drops the cached transport only if it is the rejected one |
| InstallationTransport.DiscardedIsNeverHandedOut | internal/ghclient/transport.go:76-121 | in every interleaving, a discarded transport is never handed out again |
| InstallationTransport.SentAtMostTwice | internal/ghclient/transport.go:76-97 | every request is sent at most twice, the second time on another transport |
| InstallationTransport.OneReplacementPerTransport | internal/ghclient/transport.go:113-121 | concurrent 401s on one transport cause at most one replacement |
| InstallationTransport.OnlyRejectionsDiscard | internal/ghclient/transport.go:76-97 | a request discards a transport, or is sent again, only after it was itself answered 401 |
| InstallationTransport.RejectedCanBeSentAgain | internal/ghclient/transport.go:76-97 | a rejected request can always be sent again, on a transport that was never discarded |
| Autolinks.JoinedTextInjective | internal/mapper/github_autolink_mapper.go:11-14 | the hashed text identifies the autolink if prefixes contain no bar |
| Autolinks.JoinedTextIdentifiesIff | internal/mapper/github_autolink_mapper.go:11-14 | an autolink is told apart by the text from all with a bar-free prefix iff its own prefix is bar-free |
| Autolinks.BarsCollide | internal/mapper/github_autolink_mapper.go:11-14 | an input: two autolinks with the same text |
| Autolinks.DedupedLinks | internal/reconciler/reporec/rec_autolinks.go:118-155 | without conflicts the deduplicated list has all desired autolinks, each prefix once |
| Autolinks.CleanupUnused | internal/reconciler/reporec/rec_autolinks.go:157-176 | deletes in any map order, stops at the first error, skips entries without id |
| Autolinks.CreateMissing | internal/reconciler/reporec/rec_autolinks.go:178-199 | creates in any map order, stops at the first error |
| Autolinks.ReconcileAutolinks | internal/reconciler/reporec/rec_autolinks.go:47-111 | the code is the specified run; a conflict ends it before any call to GitHub |
| Autolinks.PrefixesStayUnique | internal/reconciler/reporec/rec_autolinks.go:47-199 | prefixes are unique on GitHub after every delete and every create, wherever the run is cut |
| Autolinks.AutolinksConverge | internal/reconciler/reporec/rec_autolinks.go:47-199 | a complete run leaves exactly the deduplicated desired autolinks |
| Autolinks.AutolinksSucceed | internal/reconciler/reporec/rec_autolinks.go:47-199 | a run fails only if a call fails or GitHub lists an id it does not have; autolinks listed in part do not matter |
| Autolinks.UnlistedStays | internal/reconciler/reporec/rec_autolinks.go:64-85 | whatever GitHub lists, an autolink that is not listed with its id and all its fields is neither deleted nor changed |

## Left out

- Logging, messages of errors and conditions, `FinishedAt` and `LastTransitionTime`.
- Kubernetes and GitHub clients, server-side apply, pagination and retries: reads, listings and API errors are parameters.
- GitHub's own behaviour beyond "stores what it is sent, under the id it assigned".
- Go's integer widths and the overflow of `time.Duration`; aliasing of deep-copied specs; nil against empty slices, which the repository's comparisons do not distinguish.
- Slug resolution and the `Adjust` hook of `Sync`: parameters assumed to keep the ruleset's name; of the resolver only the required reviewers are modelled, without its refresh and retry.
- The `UnresolvedError` that `resolveDesired` builds for a foreign error: `Resolve` returns no other kind.
- Nil entries in the lists of a GitHub ruleset, which the comparators dereference without a check.
- ChangeDetection.CollectPresetGenerations: the kind part of a sub-resource key is taken as a distinct component.
- PresetIndex.Requests: sorting and compacting of index names is not modelled, only the set of names.
- MergeDefinitions.Dedupe: the records reached through pointers are values in a map; the callback for duplicates only logs.
- RateLimit.OrgRateLimitRegistry.CheckRateLimit: locking is left out and the clock is a sequence of readings.
- InstallationTransport.AuthorizeGitHubAccess.CurrentInstallation: transports are numbered in order of creation; the non-resilient mode, which creates one per request, has no state.
- Autolinks.ReconcileAutolinks: the candidates are an input; reading them from AutolinksPresets is not modelled. SHA-256 is a collision-free parameter.
- RequeuePolicy.ReadableKeepsDecision: `IsNotFound` goes by the status reason; its fallback on the code 404 is left out.
- Status apply failures, finalizers, the success requeue and its jitter.
- Webhooks, deploy keys, topics, team members, roles and the fields of repositories and organizations, which are compared with GitHub's and changed one by one; code security configurations, which are looked up by name and polled; the caches of GitHub responses; the admission webhooks, which reject resources before they are stored.
