# Reverse-proxy control plane: a verified model

A web application firewall and reverse proxy keeps its configuration as numbered revisions, compiles
one detection engine per site and per combination of disabled rule categories, obtains certificates
over ACME, and keeps counters, logs and limiters in memory. This project models the stateful protocols
and the transformations at the centre of that program and proves what they are for.

| file | subject |
|---|---|
| `NormalForm.dfy` | change detection: empty sections stripped from a configuration document |
| `Center.dfy`, `ApplyRegistry.dfy` | publishing, rolling back, subscribing; the bounded registry of apply outcomes |
| `HotReload.dfy`, `Consume.dfy` | publishers, one bounded channel and the consumer loop, over every interleaving |
| `Matcher.dfy`, `Variants.dfy` | disable rules, the unions of their category sets, variant engines and their lookup |
| `LineFilter.dfy`, `Directives.dfy` | the directive filter that inlines includes and drops dangling rule updates |
| `AcmeHolder.dfy`, `IssueQueue.dfy` | the two ACME slots and the certificate issuance queue |
| `DailyCounters.dfy` | daily request counters across midnights, flushes and restarts |
| `Entities.dfy` | placeholders for sensitive values and their restoration |
| `Shipper.dfy`, `Ring.dfy` | the batching log shipper and the ring buffer of recent entries |
| `Rate.dfy`, `LoginLimit.dfy` | the sliding-window limiters against a full log of events |
| `JsonSkip.dfy`, `PathTemplate.dfy` | top-level JSON keys from a token stream; route templates |
| `Text.dfy`, `Decimal.dfy`, `Sequences.dfy`, `Sets.dfy`, `Options.dfy` | shared vocabulary |

Objects whose methods update fields are classes with an invariant `Valid()`; a method stands for one
critical section of the program. Ghost fields record what happened (every increment, every write, every
failure), and the invariants tie the program's bounded state to those full records. Where a protocol
interleaves, it is a step system (`HotReload`), and the loop of the program is shown to take only its
steps (`Consume`).

## What the proofs found

Where the code does not do what its documentation says, or only under a condition, the code is kept, a
concrete input is given, and the exact condition is proved.

- **Racing publishers can roll the data plane back.** A publication stores its revision first and swaps
  the active pair later, without a lock around both. The consumer's catch-up reads the active pair a
  second time after its comparison and does not compare again. `HotReload.RacingPublishersRollBack`
  gives a run in which revision 3 is replaced by revision 2. A swap is harmful when it comes between
  that comparison and that read and brings a revision older than the running one;
  `HotReload.RollbackExactly` proves that a swap can lead to a rollback if and only if it is harmful,
  and `HotReload.NeverRollsBack` that a run without harmful swaps, in whatever order, never rolls back.
  Swaps in revision order are harmless (`HotReload.OrderedRunIsHarmless`). Convergence needs no
  assumption on the order (`HotReload.RestsConverged`), and the consumer comes to rest whenever publishers
  pause (`HotReload.ComesToRest`).
- **The directive filter can leave a blank line.** When every line of an included file is dropped, or
  nothing is left at all, joining no lines yields an empty line. `Directives.FilterPreservesLines` is
  the exact condition for equality line by line, `Directives.VanishingFileLeavesBlank` an input, and
  `Directives.FilterPreservesMeaning` the equality of all nonblank lines, which always holds.
- **The sampling percentage is not kept across every wrap-around of the 64-bit counter**, because 2^64 is
  not a multiple of 100. `Shipper.Shipper.HundredWritesKeepPct` proves for 100 consecutive calls with an
  entry on an open shipper that they keep the percentage if and only if the counter before them and the
  percentage satisfy `Shipper.KeepsPct`; `Shipper.WrapAroundKeepsMore` is a window of 100 calls that keeps
  32 where 16 are configured.
- **Host normalization is not idempotent** (`a..` needs two passes).
  `AcmeHolder.NormHostIdempotentExactly` says for which inputs one pass is enough: what is left after
  trimming and removing the port has no trailing space, no further port, and no dot or space before a
  trailing dot. Routing relies on it, because each registry lookup normalizes once more:
  `AcmeHolder.Misroute` builds, for any other host, a holder that misroutes it. Every domain the issuance
  queue accepts is a fixed point (`IssueQueue.ValidDomainsAreNormal`).

## Model

| member | source | states |
|---|---|---|
| `NormalForm.DeletionKeepsNormalForm` | internal/configcenter/center.go:359-380 | Deleting one map entry that holds an empty container, anywhere in a document, does not change what normalization computes. |
| `NormalForm.DeletionShrinks` | internal/configcenter/center.go:359-380 | Each such deletion strictly shrinks the set of entry positions, so no order of deletions goes on forever. |
| `NormalForm.NormalizeIdempotent` | internal/configcenter/center.go:359-380 | Normalizing a normalized document changes nothing. |
| `NormalForm.ReachesNormalForm` | internal/configcenter/center.go:359-391 | From every document some run of single deletions ends in the value the recursion returns. |
| `NormalForm.UniqueNormalForm` | internal/configcenter/center.go:359-391 | A run of deletions is no longer than the number of entries, and it cannot go on exactly when it has reached the normalized document: every order ends in the same value. |
| `NormalForm.SameNormalFormIffJoinable` | internal/configcenter/center.go:359-391 | Two documents normalize alike if and only if deletions of empty entries can make them equal. |
| `NormalForm.EmptySectionIsNoChange` | internal/configcenter/center.go:359-391 | A new map entry at any depth that holds an empty list or map does not change the normal form. |
| `NormalForm.ValueIsChange` | internal/configcenter/center.go:359-391 | A new map entry at any depth that holds a value does. |
| `Center.Offer` | internal/configcenter/center.go:160-165 | An event is appended while fewer than 8 wait and dropped otherwise; the send never blocks. |
| `Center.Center.PublishInternal` | internal/configcenter/center.go:116-171 | The result for every input, in the program's order of refusals; on success history grows by exactly the next revision, the active pair is that revision, and every subscriber is offered it; otherwise nothing changes. Every channel keeps snapshots paired with their revision, in order. |
| `Center.Center.Publish` | internal/configcenter/center.go:112-114 | Refused as unchanged exactly when the active and the submitted document can be made equal by deleting empty sections: so a document with one more empty section is, one with one more value is not; otherwise an accepted document extends history by one. |
| `Center.Center.Rollback` | internal/configcenter/center.go:244-254 | A stored, valid revision is always published again as a new one, never refused as unchanged; an unknown one changes nothing. |
| `Center.Center.Subscribe` | internal/configcenter/center.go:229-240 | A fresh, empty channel joins the subscribers. |
| `Center.Center.Cancel` | internal/configcenter/center.go:234-239 | Only that channel leaves the subscribers. |
| `Center.Center.LeastRecorded` | internal/configcenter/center.go:276-284 | The search loop of the pruning finds the least recorded revision when all are positive. |
| `Center.Center.SetApplyStatus` | internal/configcenter/center.go:265-287 | The in-place insertion and pruning loop computes the specified registry, and if the registry was right for some reports it is right for those and the new one. |
| `Center.Center.ApplyStatusFor` | internal/configcenter/center.go:300-305 | Pending exactly for revisions not recorded, else the recorded outcome of that revision. |
| `ApplyRegistry.RecordKeepsRegistry` | internal/configcenter/center.go:265-287 | One report, repeated or stale, keeps the registry exactly the 64 greatest revisions ever reported, each with its latest outcome. |
| `ApplyRegistry.RegistryAfterReports` | internal/configcenter/center.go:265-287 | So it is after any sequence of reports, from the empty registry on. |
| `ApplyRegistry.KeptOrOutranked` | internal/configcenter/center.go:275-286 | A reported revision is on record with its latest outcome, or 64 greater ones are. |
| `ApplyRegistry.RegistryIsUnique` | internal/configcenter/center.go:309-309 | The reports leave no choice: the specification determines the registry. |
| `ApplyRegistry.GreatestIsKept` | internal/configcenter/center.go:275-286 | The newest reported revision is never pruned. |
| `ApplyRegistry.WaitForApply` | internal/configcenter/center.go:316-331 | A waiter settles if and only if a poll sees its own revision, and with the outcome of the first such poll; without subscribers it stays pending. |
| `ApplyRegistry.PollReadsOwnOutcome` | internal/configcenter/center.go:300-331 | What a poll reads for a revision is the latest outcome reported for that same revision. |
| `HotReload.ReloadsArePaired` | internal/configcenter/consume.go:64-134 | Over every run, however publishers race: each reload used the configuration stored for its revision, and a recorded outcome is that of the last reload reported for that revision. |
| `HotReload.RestsConverged` | internal/configcenter/consume.go:64-134 | Over every run, however publishers race: whenever the consumer rests at its select with an empty channel, it runs at least the center's revision, or its last reload was of that very revision and failed, and the failure is on record unless 64 greater revisions are. |
| `HotReload.ComesToRest` | internal/configcenter/consume.go:64-134 | From any state, however the reloads end, the consumer alone takes at most ten steps for each queued event and ten more, and it can go on unless it waits at its select with an empty channel: a refused revision is not retried for ever. |
| `HotReload.QueuedAreApplied` | internal/configcenter/consume.go:114-131 | When the channel holds only newer revisions and reloads succeed, each queued revision gets its own reload, in order, before a catch-up jumps ahead. |
| `HotReload.TurnsToCatchUp` | internal/configcenter/consume.go:101-114 | After a failed reload of an event, and on an event that is out of date, a consumer that is behind asks the center at once. |
| `HotReload.NeverRollsBack` | internal/configcenter/consume.go:76-130 | Along every run without harmful swaps, with drops, failures and stale events, the running revision never decreases. |
| `HotReload.HarmfulSwapRollsBack` | internal/configcenter/consume.go:76-86 | After any harmful swap the catch-up's read and one successful reload end below the revision that ran. |
| `HotReload.RollbackExactly` | internal/configcenter/consume.go:76-86 | After any run without harmful swaps, a swap has a continuation that ends below the running revision if and only if it is harmful: between a catch-up's comparison and its read, with an older revision than the running one. |
| `HotReload.StepKeepsSound` | internal/configcenter/consume.go:68-131 | With swaps in revision order every single step keeps the invariant that nothing held is newer than the active revision and applied revisions ascend. |
| `HotReload.OrderedRunIsHarmless` | internal/configcenter/center.go:143-166 | Swaps in revision order are harmless. |
| `HotReload.OrderedRestsSettled` | internal/configcenter/consume.go:64-134 | With swaps in revision order the failure of the center's revision is on record for certain, and the revisions applied on the way increase strictly. |
| `HotReload.RestsEqual` | internal/configcenter/consume.go:64-134 | If moreover no reload failed, the resting consumer runs exactly the center's revision. |
| `HotReload.RacingPublishersRollBack` | internal/configcenter/center.go:143-156 | A concrete run of two racing publishers in which revision 3 is replaced by revision 2. |
| `Consume.Consumer.Publish` | internal/configcenter/center.go:143-166 | One publisher action between two consumer actions is a step of the protocol and leaves what is queued in place. |
| `Consume.Consumer.Interleave` | internal/configcenter/center.go:143-166 | Any number of them is a run of the protocol. |
| `Consume.Consumer.ApplyOne` | internal/configcenter/consume.go:68-75 | Reloading one snapshot sets the running revision on success only, records the outcome, and continues where the receive path says. |
| `Consume.Consumer.CatchUpOnce` | internal/configcenter/consume.go:76-86 | One round: nothing to do, or one reload, and another round exactly when it succeeded. |
| `Consume.Consumer.CatchUp` | internal/configcenter/consume.go:76-86 | The catch-up loop takes only steps of the protocol; of its reloads only the last can fail, and a failed one leaves it at the select; it ends there or is cut by its budget. |
| `Consume.Consumer.Drain` | internal/configcenter/consume.go:117-130 | The drain loop applies queued events with the monotonic guard; of its reloads only the last can fail, and a failed one leads to a catch-up. |
| `Consume.Consumer.Loop` | internal/configcenter/consume.go:92-133 | The whole loop is a run of the protocol that stands where it says; every reload it made used the stored configuration of its revision, and when it stands at the select with an empty channel its fields have converged. |
| `Consume.Consumer.RestsSettled` | internal/configcenter/consume.go:92-133 | The stronger rest after ordered publications, stated about the loop's own fields. |
| `Matcher.CrsWellFormed` | internal/config/config.go:113-131 | The program's two category tables name the same ten categories, each once. |
| `Matcher.ValidateStages` | internal/config/matcher.go:117-142 | A disable list is accepted exactly when it is nonempty, all its stages are known and it does not mix the whole stage with single categories; it is rewritten in place to canonical spelling, up to the refusal when refused. |
| `Matcher.StageExactly` | internal/config/matcher.go:119-135 | Which single stages are known and how they are spelled afterwards: the categories of the table after the scope prefix, up to case and space, the whole stage, and the listed modules. |
| `Matcher.AllOfExactly` | internal/config/matcher.go:117-136 | The prefix-wise verdict of the loop holds of the list exactly when it holds of every stage. |
| `Matcher.HasWholeExactly` | internal/config/matcher.go:132-134 | The whole-stage flag says exactly that some stage is the whole one. |
| `Matcher.HasScopedExactly` | internal/config/matcher.go:119-131 | The scoped flag says exactly that some stage has the scope prefix. |
| `Matcher.CanonicalIsValid` | internal/config/matcher.go:119-131 | Canonical spelling is accepted again, is a fixed point and names a category of the table. |
| `Matcher.AcceptedIsValidated` | internal/config/matcher.go:117-142 | What an accepted list is rewritten to satisfies what the engine build relies on. |
| `Matcher.MaskHasBits` | internal/config/matcher.go:254-259 | Every choice of rule sets is the bit pattern of a mask below 2^n. |
| `Matcher.MaskPicksSome` | internal/config/matcher.go:254-259 | Every nonzero mask below 2^n picks at least one set. |
| `Matcher.MaskUnion` | internal/config/matcher.go:255-263 | The inner bit loop computes the union of the chosen sets. |
| `Matcher.SubsetUnions` | internal/config/matcher.go:252-273 | The mask loop returns unions only, with pairwise different keys, at most 2^n - 1 of them, and a key for every union. |
| `Matcher.RuleSetsExactly` | internal/config/matcher.go:224-245 | The collected sets are exactly those of enabled disabling rules with a scoped stage that have no site list or name the first domain up to case. |
| `Matcher.UnionsExact` | internal/config/matcher.go:252-273 | On valid categories the result is precisely the set of unions of nonempty choices, each once. |
| `Matcher.ScopedCorazaExclusionSets` | internal/config/matcher.go:220-274 | Too many exactly when more than four rules apply to the site; otherwise, for a validated policy, exactly the distinct unions of the applicable rules' sets. |
| `Matcher.ScopedCorazaSetKey` | internal/config/matcher.go:278-289 | The string builder writes the comma-joined categories in table order. |
| `Matcher.KeyInjective` | internal/config/matcher.go:278-289 | Two valid category sets have the same key if and only if they are equal. |
| `Variants.EnabledCategorySet` | internal/coraza/stage.go:432-456 | The site list wins over the global default, without either everything is on; unknown names are ignored and spelling is normalized. |
| `Variants.EnabledIsValid` | internal/coraza/stage.go:432-456 | The effective set contains only categories of the table. |
| `Variants.EnabledExactly` | internal/coraza/stage.go:432-456 | Which categories are on: those of the table that an entry of the deciding list names, up to case and space; all of them without a list. |
| `Variants.VariantCategories` | internal/coraza/stage.go:620-633 | The listed categories are the base set without the excluded one, in table order. |
| `Variants.AliasTest` | internal/coraza/stage.go:100-105 | Comparing two lengths recognises exactly the exclusions that remove nothing. |
| `Variants.ListedCategoriesLoad` | internal/coraza/stage.go:605-614 | A variant compiled from the listed categories loads exactly the set that was listed. |
| `Variants.BuildVariant` | internal/coraza/stage.go:98-112 | An exclusion gets the main engine, an engine of base minus exclusion, or none when its compile fails. |
| `Variants.BuildVariants` | internal/coraza/stage.go:96-113 | The variant map holds an engine under the key of every exclusion that has one, and nothing else. |
| `Variants.BuildSite` | internal/coraza/stage.go:78-113 | An enabled site is built exactly when its main engine compiles and the rule cap holds, with main engine and variants as specified. |
| `Variants.New` | internal/coraza/stage.go:71-122 | The stage is built unless some enabled site cannot be; every domain maps to the engines of the last enabled site that lists it. |
| `Variants.ServesExactly` | internal/coraza/stage.go:117-119 | A site serves a domain when it is enabled and lists it, up to case and space. |
| `Variants.HitsAreUnions` | internal/config/matcher.go:250-253 | What the registry reports after any rules were hit is the union of a choice of the site's rule sets. |
| `Variants.PickVariant` | internal/coraza/stage.go:242-259 | The lookup returns the engine of the canonical key, and the fallback warning appears exactly when a nonempty exclusion has no engine. |
| `Variants.SelectedEngineIsExact` | internal/coraza/stage.go:242-259 | For every validated policy and any hit rules, the selected engine loads exactly the site's categories minus the disabled ones; only when that compile was skipped does it load the site's full set. |
| `Variants.RuleHasEngine` | internal/coraza/stage.go:89-259 | For any single applicable rule, stated on its fields: the variant map has an engine without the rule's categories unless its compile failed, and a request that hits just this rule runs through it. |
| `Variants.SelectedEngineIsBounded` | internal/coraza/stage.go:242-259 | For any disabled set at all, explained by rules or not, the selected engine loads at least the base minus it and at most the base. |
| `Variants.DomainEngineIsExact` | internal/coraza/stage.go:71-259 | End to end, from the build to a request for a served domain. |
| `LineFilter.DropLines` | internal/coraza/stage.go:500-518 | The line loop keeps exactly the lines that are not dropped, in order. |
| `LineFilter.Materialize` | internal/coraza/stage.go:528-549 | The loop computes the specified pass: inline, join, drop once more. |
| `LineFilter.MaterializedLines` | internal/coraza/stage.go:528-549 | The lines of the produced text, described line by line. |
| `LineFilter.PassPreservesMeaning` | internal/coraza/stage.go:528-549 | Expanding after the pass and dropping after expanding give the same nonblank lines. |
| `LineFilter.PassPreservesLines` | internal/coraza/stage.go:528-549 | They agree to the last blank line if and only if something is left and no file loses all its lines. |
| `LineFilter.PassIsIdempotent` | internal/coraza/stage.go:528-549 | A second pass changes nothing. |
| `Directives.ExcludedCategoryPrefixes` | internal/coraza/stage.go:483-495 | Exactly the positive file numbers of the categories that are off. |
| `Directives.MaterializeCrsIncludes` | internal/coraza/stage.go:528-549 | The filter for dangling target updates and ruleset includes; the identity when nothing is excluded. |
| `Directives.DanglingExactly` | internal/coraza/stage.go:506-513 | Which lines are dropped: those that trim to a first word beginning with the directive's name in any case and a second word that is the number of a rule in an excluded file, whatever follows; all others are kept. |
| `Directives.AtoiReads` | internal/coraza/stage.go:510-510 | Rule numbers are read as decimal numbers with an optional sign. |
| `Directives.IncludedExactly` | internal/coraza/stage.go:536-538 | Which lines include a file of the ruleset, and which text they stand for. |
| `Directives.FileNumberIs` | internal/coraza/stage.go:460-475 | The number between the first two dashes of a file name is its file number. |
| `Directives.DirectivesCoherent` | internal/coraza/stage.go:536-543 | Skipping files without the directive name is safe: no dangling update hides in them, and an include line is never an update. |
| `Directives.FilterPreservesMeaning` | internal/coraza/stage.go:528-549 | The filtered text, expanded, has the same nonblank directives in the same order as the expanded text with exactly the dangling updates deleted. |
| `Directives.FilterPreservesLines` | internal/coraza/stage.go:528-549 | The exact condition for equality of the full line sequences. |
| `Directives.VanishingFileLeavesBlank` | internal/coraza/stage.go:539-543 | An input on which the full line sequences differ: the scanner category off, so that file 913 is excluded, and an included file that only updates rule 913100. |
| `Directives.FilterIsIdempotent` | internal/coraza/stage.go:528-549 | Filtering twice is filtering once, and excluding nothing changes nothing. |
| `AcmeHolder.NormalExactly` | internal/certmgr/certmgr.go:238-244 | Normalization leaves a host name alone if and only if it has no surrounding space, port, trailing dot or upper case. |
| `AcmeHolder.NormHostIdempotentExactly` | internal/certmgr/certmgr.go:238-244 | For which inputs a second normalization changes nothing, as a condition on the trimmed input without its port. |
| `AcmeHolder.NormHostNotIdempotent` | internal/certmgr/certmgr.go:238-244 | A name that needs two passes. |
| `AcmeHolder.Holder.Register` | internal/certmgr/certmgr.go:590-594 | The domain is registered from then on, whatever the time; no other host's registration changes. |
| `AcmeHolder.Holder.Settle` | internal/certmgr/certmgr.go:602-615 | After a failure the domain is registered until the cooldown ends, after a success for good; an unknown domain and other hosts are not affected. |
| `AcmeHolder.Holder.ClaimIsAdmission` | internal/certmgr/certmgr.go:364-371 | A live slot's policy admits a host exactly when the slot has one of the ranked claims on it. |
| `AcmeHolder.Holder.RoutesToStrongestClaim` | internal/certmgr/certmgr.go:485-521 | The one manager that is asked has the strongest claim of the live slots, so it admits the host whenever any live slot does; precedence is registrations, site domains, production cache, staging cache. |
| `AcmeHolder.Misroute` | internal/certmgr/certmgr.go:485-521 | For every host whose normalized name is not left alone, a registration and a site lead to a holder in which a live slot admits the host and the manager that is asked does not. |
| `AcmeHolder.Holder.BuildSlot` | internal/certmgr/certmgr.go:377-413 | A host is in the snapshot exactly when some site of the mode lists a domain, or the cache holds an entry, that normalizes to it; a manager exists exactly when the snapshot is not empty or a registration is active, and its contact is the first of the sites' or the global one. |
| `AcmeHolder.Holder.PruneRegistry` | internal/certmgr/certmgr.go:646-661 | An entry stays exactly when it is unexpired, or has no expiry and its host is in neither part of the snapshot; entries that stay do not change. |
| `AcmeHolder.Holder.Rebuild` | internal/certmgr/certmgr.go:419-426 | Both slots and the registry after a rebuild; every host with an active registration before it, every domain of an ACME site and every cached host is admitted by a live manager of its slot after it. |
| `AcmeHolder.Holder.SlotFor` | internal/certmgr/certmgr.go:570-585 | A live slot is used as it is; a missing one is built exactly for a registered domain, which the manager admits; the other slot stays. |
| `IssueQueue.ValidDomainsAreNormal` | internal/certmgr/request.go:195-223 | Every accepted domain is a fixed point of host normalization, so registrations always match. |
| `IssueQueue.ValidDomainExactly` | internal/certmgr/request.go:195-223 | Exactly which names are accepted: up to 253 characters of labels joined by dots, each 1 to 63 lower-case letters, digits and inner hyphens. |
| `IssueQueue.Service.AddTask` | internal/certmgr/request.go:317-327 | The history stays the newest 50, newest first, and the id index covers exactly it. |
| `IssueQueue.Service.Request` | internal/certmgr/request.go:248-313 | Every answer: the running issuance of the same key, a cooldown refusal, a cached certificate or a new pending entry, and what changes in each case. |
| `IssueQueue.Service.Submit` | internal/certmgr/request.go:262-312 | The same under the lock, after the domain was accepted. |
| `IssueQueue.Service.Start` | internal/certmgr/request.go:330-339 | At most two issuances run, and none starts within the cooldown after the last failure of its key. |
| `IssueQueue.Service.Finish` | internal/certmgr/request.go:340-366 | A running issuance ends in success or failure, leaves the in-flight table, returns its token, and a failure starts the cooldown. |
| `IssueQueue.Service.Task` | internal/certmgr/request.go:381-389 | An id is found exactly while its entry is among the newest 50. |
| `IssueQueue.Service.RenewalStart` | internal/certmgr/renewal.go:138-168 | A renewal takes a token of the shared semaphore and keeps the invariant. |
| `IssueQueue.Service.OneUnfinishedPerKey` | internal/certmgr/request.go:262-266 | Single flight: two unfinished entries of one key are the same. |
| `DailyCounters.DayKeyOrder` | internal/metrics/metrics.go:364-366 | Rendered dates compare like day numbers, so pruning by string order is pruning by day. |
| `DailyCounters.KeyRoundTrip` | internal/metrics/metrics.go:383-455 | Splitting a counter key gives back its site and outcome, for sites without a NUL. |
| `DailyCounters.AddByGroup` | internal/metrics/metrics.go:383-398 | The summing loop adds up the counters per group, in whatever order the map is walked. |
| `DailyCounters.AddAll` | internal/metrics/metrics.go:315-322 | Adding one map to another adds every key and every group sum. |
| `DailyCounters.CountsByField` | internal/metrics/metrics.go:253-256 | Counting by key is counting by the increments' own site and outcome. |
| `DailyCounters.Daily.RecordHistory` | internal/metrics/metrics.go:383-406 | The day's entry becomes baseline plus live per outcome, exactly the days before the cutoff go, and the others stay. |
| `DailyCounters.Daily.RollDaily` | internal/metrics/metrics.go:221-250 | On a new day the old one is archived before its counters are dropped, and days before the cutoff are gone; on the same day nothing changes. |
| `DailyCounters.Daily.DailyReqInc` | internal/metrics/metrics.go:253-256 | One increment of the given day is added to what the counters account for. |
| `DailyCounters.Daily.FoldDailyAndRoll` | internal/metrics/metrics.go:293-302 | After a fold every day is exact, the current one included, however often it was folded before, and no day before the cutoff is left. |
| `DailyCounters.Daily.Flush` | internal/metrics/metrics.go:312-339 | After a flush both files hold everything counted so far, and the history file no day before the cutoff. |
| `DailyCounters.Daily.HistoryIsBounded` | internal/metrics/metrics.go:399-404 | In every reachable state the days on record lie between the last cutoff and now, so their number is bounded. |
| `DailyCounters.Daily.LoadDailyRequestsBase` | internal/metrics/metrics.go:267-285 | The baseline is restored exactly for a file of today, and the counts stay exact. |
| `DailyCounters.Daily.Restart` | internal/metrics/metrics.go:267-422 | A restart after a flush, on the same or a later day, loses no increment. |
| `DailyCounters.Daily.SnapshotDailyRequestsBySite` | internal/metrics/metrics.go:442-455 | The console's numbers are exactly today's increments per site. |
| `DailyCounters.Daily.TodayIsExact` | internal/metrics/metrics.go:221-285 | In every reachable state, baseline plus live counter equals today's increments per site and outcome. |
| `DailyCounters.Daily.PastDaysAreExact` | internal/metrics/metrics.go:383-406 | Every past day on record equals that day's increments per outcome, and no day within the retention is missing. |
| `Entities.ItoaAI` | internal/ai/sanitize.go:182-194 | The 12-byte digit loop writes the decimal ordinal. |
| `Decimal.ValueOfItoa` | internal/ai/sanitize.go:182-194 | Reading the rendered ordinal as a decimal number gives the ordinal back. |
| `Entities.ItoaInjective` | internal/ai/sanitize.go:182-194 | Different ordinals have different digits. |
| `Entities.PlaceholderInjective` | internal/ai/sanitize.go:57-70 | Placeholders are equal if and only if category and ordinal are. |
| `Entities.RestorePlain` | internal/ai/sanitize.go:74-86 | Text without placeholder shapes passes through, even right before a placeholder. |
| `Entities.UnknownPassThrough` | internal/ai/sanitize.go:74-86 | A text in which no placeholder is known is returned unchanged. |
| `Entities.MatchExactly` | internal/ai/sanitize.go:25-25 | What a placeholder looks like: one of the five categories, a dash and a number, in brackets. |
| `Entities.RestoreUndoesMask` | internal/ai/sanitize.go:74-86 | Replacing values by their placeholders is undone exactly, even when a value itself looks like a placeholder. |
| `Entities.AddKeepsBijection` | internal/ai/sanitize.go:57-70 | Handing out the next ordinal keeps placeholders and values in bijection, with ordinals 1..k per category. |
| `Entities.EntityMap.Add` | internal/ai/sanitize.go:57-70 | A known value keeps its placeholder, a new one gets the next ordinal, and nothing handed out earlier changes. |
| `Entities.EntityMap.Mask` | internal/ai/sanitize.go:57-86 | Masking a text in one pass through the map and restoring it gives the text back. |
| `Shipper.KeptWithinRun` | internal/accesslog/accesslog.go:143-151 | How many of any k consecutive calls pass the sampling, from any counter value on. |
| `Shipper.HundredCallsKeepPct` | internal/accesslog/accesslog.go:143-151 | 100 consecutive counter values keep exactly the configured percentage while the counter does not wrap. |
| `Shipper.HundredCallsKeepPctExactly` | internal/accesslog/accesslog.go:143-151 | For every counter value and percentage, when the next 100 calls keep exactly the percentage, wrap-around included. |
| `Shipper.Shipper.HundredWritesKeepPct` | internal/accesslog/accesslog.go:142-165 | In every reachable state, any 100 consecutive calls of Write with an entry on an open shipper, with anything in between, offered exactly the configured percentage if and only if the counter value before them keeps it. |
| `Shipper.KeptAcrossWrap` | internal/accesslog/accesslog.go:143-151 | The exact count for calls that cross the wrap-around of the 64-bit counter. |
| `Shipper.WrapAroundKeepsMore` | internal/accesslog/accesslog.go:143-151 | A window of 100 calls that keeps 32 at 16 percent. |
| `Shipper.Shipper.Write` | internal/accesslog/accesslog.go:142-165 | Which writes are offered to the queue, that an offered one is queued or counted as dropped, and the record of the call. |
| `Shipper.Shipper.Tick` | internal/accesslog/accesslog.go:208-211 | A tick hands over what is batched, and batches already handed over stay. |
| `Shipper.Shipper.Receive` | internal/accesslog/accesslog.go:196-207 | Receiving moves the queue's first entry into the batch and flushes a full one; the end of the channel flushes the rest. |
| `Shipper.Shipper.Close` | internal/accesslog/accesslog.go:175-186 | The first Close returns with queue and batch empty and everything taken handed over in order; a repeated one does not wait. |
| `Shipper.Shipper.Conservation` | internal/accesslog/accesslog.go:142-215 | In every reachable state: offered = dropped + queued + batched + handed over, and what was handed over is a prefix of what was taken. |
| `Ring.ContainsFold` | internal/accesslog/ring.go:81-107 | The scan finds exactly the case-folded occurrences. |
| `Ring.MatchesQuery` | internal/accesslog/ring.go:52-66 | The filters of the query, each only when set. |
| `Ring.QuerySearches` | internal/accesslog/ring.go:52-66 | The text is looked for in path, user agent, client address and rule, in any case; the three filters combine by conjunction. |
| `Ring.Overwrite` | internal/accesslog/ring.go:25-37 | Overwriting a slot of a full buffer drops the oldest entry and adds the newest. |
| `Ring.Ring.Write` | internal/accesslog/ring.go:25-37 | The buffer holds the newest entries of everything ever written. |
| `Ring.Ring.Count` | internal/accesslog/ring.go:72-79 | The smaller of the number of writes and the capacity. |
| `Ring.Ring.Recent` | internal/accesslog/ring.go:44-69 | The first matches of the reversed last entries, as if the whole sequence had been kept. |
| `Rate.ShardInRange` | internal/botlib/rate.go:72-84 | The shard of every key is in 0..15, also for the one hash whose negation wraps. |
| `Rate.KeyHash` | internal/botlib/rate.go:72-84 | The hash loop with 64-bit wrap-around computes that shard. |
| `Rate.RateCounter.Over` | internal/botlib/rate.go:38-53 | True if and only if the key's hits in the closed window, this one included, exceed the quota. |
| `Rate.CountIsNumber` | internal/botlib/rate.go:56-70 | The count that the limiter is compared with is the number of hits that are not before the cutoff. |
| `Rate.RateCounter.RecordHit` | internal/botlib/rate.go:38-53 | The dropped front held only expired hits; no other key's bucket changes. |
| `Rate.RateCounter.Count` | internal/botlib/rate.go:56-70 | The number of the key's hits in the closed window. |
| `LoginLimit.Compact` | internal/api/loginlimit.go:80-85 | The in-place compaction leaves exactly the live failures, in order. |
| `LoginLimit.DropStale` | internal/api/loginlimit.go:72-79 | Every source that is left has a failure no older than the window, and what pruning would keep does not change. |
| `LoginLimit.KeepLive` | internal/api/loginlimit.go:80-91 | Pruning leaves the live failures of each source and no empty entry. |
| `LoginLimit.LoginLimiter.PruneLocked` | internal/api/loginlimit.go:71-92 | Pruning loses no failure that any later check could count. |
| `LoginLimit.LoginLimiter.Locked` | internal/api/loginlimit.go:44-50 | Locked if and only if the failures since the source's last success inside the window reach the maximum. |
| `LoginLimit.LoginLimiter.RecordFailure` | internal/api/loginlimit.go:53-60 | One failure is added to the source's record, and no other source changes. |
| `LoginLimit.LoginLimiter.RecordSuccess` | internal/api/loginlimit.go:63-67 | The source starts afresh. |
| `JsonSkip.SkipValue` | internal/apiasset/normalize.go:200-226 | The loop uses up what the delimiter count says, or runs out of tokens. |
| `JsonSkip.SkipsExactlyOneValue` | internal/apiasset/normalize.go:200-226 | For every JSON value and whatever follows it, exactly the value's tokens are skipped. |
| `JsonSkip.JSONTopKeys` | internal/apiasset/normalize.go:164-198 | The reader returns the keys found by skipping value after value; nothing for empty, oversized or non-object bodies. |
| `JsonSkip.TopKeysOfObject` | internal/apiasset/normalize.go:164-198 | On every well-formed object these are its top-level keys in order, whatever the values nest. |
| `JsonSkip.TruncatedBodyKeepsPrefix` | internal/apiasset/normalize.go:179-197 | A body cut short at any token yields a prefix of the keys. |
| `PathTemplate.NormalizePath` | internal/apiasset/normalize.go:22-53 | The loop computes the specified template. |
| `PathTemplate.SegmentsInPlace` | internal/apiasset/normalize.go:22-53 | Segment by segment: words survive in place, numbers, long hexadecimal strings and addresses become the parameter, everything after the tenth segment the wildcard, and the query string goes. |
| `PathTemplate.TemplateSegments` | internal/apiasset/normalize.go:22-140 | A template has at most 11 segments, the eleventh being the wildcard, none empty and none an identifier. |
| `PathTemplate.TemplateIsIdempotent` | internal/apiasset/normalize.go:22-53 | The template of a template is itself. |

## Left out

- File, database, network, systemd, TLS and cryptography calls: their outcomes are parameters (`storeOk`, `ok`, `compiles`, cached expiry dates), and the clock is a parameter that does not run backwards.
- Text is ASCII: Unicode case folding and white space are not modelled.
- `Center` methods are single critical sections; the gap between storing a revision and swapping it in is modelled in `HotReload` and `Consume` instead. Opening a stored center, `PublishSite` and field-by-field validation are not modelled.
- `HotReload.OrderedRestsSettled`, `HotReload.RestsEqual`: assume swaps in revision order; without it the active revision may be older than the running one, and the registry may prefer 64 greater revisions.
- Consume.Consumer.Loop: the endless loop is cut after a budget of iterations, and its oracle supplies publisher activity and reload outcomes; the `after` callback and cancellation are not modelled.
- Center.Center.SetApplyStatus: revisions are positive, as the store assigns them; with other revisions the search for the least one would not find it.
- `Variants`: an engine is the set of categories it was built from, and whether a category set compiles is a parameter; scoring, request inspection and the log lines are not modelled. The total cap on variants over all sites is left out.
- Variants.HitsAreUnions: the stage registry reports the stages of the rules that were hit, as its comment promises; the registry's own storage is not modelled.
- `Directives`: included files do not include ruleset files themselves, and a directive is one line (no continuation lines).
- `AcmeHolder`: certificate issuance by the ACME client, challenges and HTTP handlers are left out; `Rebuild` and `SlotFor` are atomic, which the program does not enforce. Normalization is a parameter of the class, `NormHost` in the program.
- AcmeHolder.Holder.RoutesToStrongestClaim: for hosts whose normalized name is left alone by a second normalization, since each registry lookup normalizes again; `AcmeHolder.NormHostIdempotentExactly` says which hosts these are, and `AcmeHolder.Misroute` that the others can be misrouted.
- `IssueQueue`: the holder's registration around an issuance is modelled in `AcmeHolder` and not tied to the queue; random ids are distinct by assumption; the contact address and error texts are not modelled; renewal passes appear only as users of the shared semaphore, without the cooldown.
- `DailyCounters`: one clock reading per operation, where the program reads it several times; increments that race a rollover, and stops without a flush, are not modelled. Counters do not overflow.
- Entities.EntityMap.Mask: one pass over a text already divided into plain stretches and values; the detection patterns, repeated passes, truncation and key or credential rewrites are not invertible and not modelled. Ordinals stay below 10^12, the digit buffer's width.
- `Shipper`: pushing a batch to its destination and its retries are left out, as is the reuse of the batch's storage.
- Ring.Ring.Recent: the limit is not negative; the program would fail on a negative one.
- LoginLimit.LoginLimiter.PruneLocked: each source's slice is compacted in a copy of its own, so the sharing of storage between old and new slices is not modelled. The window is the same in every call.
- `Rate.RateCounter`: the shard function is a parameter, `KeyHash` in the program; the locks of the shards are not modelled.
- `JsonSkip`: the tokenizer is not modelled; a decoder is the sequence of tokens it will still deliver.
- Asset inventory storage, alerting, statistics endpoints and configuration defaults would only add easy members.
