# WerSu: verified models

WerSu stores notes in directories, guards them with relationship tuples and lets rules react to changes. This project
models eight pieces of that logic in Dafny and proves what they keep over every input and every run. Nothing here runs
the original program.

| Part | Modules |
|---|---|
| The async TTL and LRU cache, as a step system in which any number of calls is in flight | `TtlSteps`, `AsyncTtl`, `TtlRuns`, `TtlOrder`, `LruStack`, `CacheKey` |
| The cascade delete of a directory subtree, with its capped resolver and its dry run | `Hierarchy`, `SubtreeResolver`, `CascadeSpec`, `CascadeTrail`, `CascadeEffects`, `CascadeDelete`, `DryRunListing`, `CascadeResults` |
| Writing relationship tuples, and the audit trail | `SharePolicy`, `Relationships`, `ShareHistory`, `ShareRights`, `PermissionService` |
| Rule dispatch and the first-parent walk | `FirstParents`, `RuleDispatcher` |
| Attachment URLs and the scanner that reads them back | `PercentEncoding`, `AttachmentScanner`, `AttachmentUrls`, `AttachmentRoundTrip`, `AttachmentLeak`, `AttachmentPlain`, `AttachmentExact`, `AttachmentForms` |
| The README parser and writer | `PythonText`, `ReadmeLines`, `ReadmeParser`, `ReadmeMatches`, `ReadmeRoundTrip` |
| Pruning of undefined values, and the check in front of every query | `UndefinedPruning` |
| The environment template renderer | `EnvTemplate`, `EnvFixedPoint`, `EnvReferences` |

`Wrappers`, `Sequences`, `StringOrder` and `PythonText` hold what several parts share: optional values, sorting, and
Python's order and treatment of text.

Code that updates something in place is modelled in place: the cache closure, the services and the dispatcher are
classes, the README parser blanks an array, the resolver and the ancestor walk are loops. Each such method is proved
equal to a function or relation on values, and the lemmas are about those.

What the code cannot decide is a parameter: the clock, random secrets, the answers of the permission backend, and for
every request of the cascade whether the collaborator obeys, refuses, or changes the row and fails afterwards.

## Where the code and its own documentation differ

The models follow the code.

- The cache documents that an entry is "timestamped on insert". The deadline counts from the moment the call began, so
  a slow call inserts an entry that has already lived for the duration of the call. A negative `maxsize` is not
  rejected; the first completed call then empties the cache and raises.
- A comment in the dispatcher says that a rule attached to a note's own parent directory was covered by the direct
  match. It is not: the direct match compares the event's entity, which is the note. Such a rule matches exactly if
  first parents lead from that directory in a circle back to it, over directories that can all be read
  (`OwnDirectoryRule`), so never in a tree (`OwnDirectoryRuleInTree`, `DeeperThanParents`).
- The cascade promises to delete what is owned exclusively by the subtree. The resolver looks ten levels deep at a
  time, so a note that is held both by the root and by a directory more than ten levels below it survives with no
  directory left (`DeepSharedNoteIsOrphaned`, `OrphanInChain`). Directory and note rows go without their parent tuples,
  which stay in the permission backend; only attachments drop theirs.
- The relationship filter treats a missing subject relation as a wildcard. On a store that follows the schema this
  makes no difference (`FilterIsExact`). `BareRoleShadowsUserset` shows a replacement that deletes a tuple it should
  keep; its store holds a bare role as a subject, which the schema allows on no grantable relation, so that input is not
  reachable with the backend as it is configured.
- The scanner's comment lists the form `"key":"<id>"`. The expression needs an equals sign: this form never gives its
  key back (`ColonFormIsNotRead`), and for keys as the repository makes them it gives nothing
  (`ColonFormFindsNothing`).
- The round trip of a document of image URLs holds exactly if every URL is anchored: the last `https://` in front of
  its key, or without any the last `http://`, or without either the last `/api/`, begins behind the start of the URL
  before (`LeaksIff`). Otherwise the path slug `image` is reported as an attachment. One scheme in front of two URLs
  leaks (`OneSchemeLeaks`); an `http://` in front of each does not (`SchemeEachAnchors`); an `https://` in front of both
  leaks even with an `http://` between them, because it is looked for first (`SecureSchemeLeaks`).
- The environment renderer says that rendered lines win over the values the user gave. The values win.

## Model

| member | source | states |
|---|---|---|
| CacheKey.MakeKeyInjective | src/utils/async_ttl.py:72-81 | two calls share a cache key exactly if they pass equal positional arguments and equal keyword arguments, in whatever order the keywords were written |
| AsyncTtl.TtlCache.Begin | src/utils/async_ttl.py:146-160 | before the await: a live entry hits and becomes the most recent, an expired one is dropped and counted, everything else is a miss |
| AsyncTtl.TtlCache.Complete | src/utils/async_ttl.py:161-167 | after the await: the result is stored as the most recent entry with a deadline counted from the start of the call; raises exactly for a negative bound |
| AsyncTtl.TtlCache.EvictOverflow | src/utils/async_ttl.py:164-166 | the eviction loop keeps exactly the most recent entries that fit, and raises on an empty dictionary exactly for a negative bound |
| AsyncTtl.TtlCache.CacheClear | src/utils/async_ttl.py:172-177 | forgets all entries and counters |
| TtlRuns.StoredIsLatest | src/utils/async_ttl.py:144-177 | in every interleaving each stored entry is the latest completed call for its key since the last clear, with that call's deadline |
| TtlRuns.LatestIsStoredOrExpired | src/utils/async_ttl.py:144-177 | without a size bound the latest completed call is still stored unless its deadline has passed |
| TtlRuns.HitIsLatestAndFresh | src/utils/async_ttl.py:150-156 | in every interleaving there is exactly one latest completed call for a key that hits, the hit returns its value, and that call began less than `ttl` ago |
| TtlRuns.HitsCharacterised | src/utils/async_ttl.py:144-167 | without a size bound, a lookup hits with a value if and only if the latest completion since the last clear has that value and is fresh |
| TtlRuns.CallsAreCounted | src/utils/async_ttl.py:153-160 | hits and misses add up to the calls begun since the last clear |
| TtlRuns.CountersAreExact | src/utils/async_ttl.py:150-160 | hits are the calls begun since the last clear whose lookup found a fresh entry, misses those whose lookup did not |
| TtlOrder.OrderIsByLastTouch | src/utils/async_ttl.py:154-163 | in every interleaving the dictionary order is strictly the order of the last hit or completion of each key |
| TtlOrder.SizeIsBounded | src/utils/async_ttl.py:164-170 | between any two steps of the event loop the number of entries, as `cache_info` reports it, is at most `maxsize` |
| TtlOrder.EvictsLeastRecentlyUsed | src/utils/async_ttl.py:161-167 | a completion evicts at most one key, and that key was touched before every key that stays |
| TtlOrder.EntriesAreConserved | src/utils/async_ttl.py:150-177 | since the last clear: entries held = absent keys inserted - entries found expired - entries evicted |
| LruStack.OrderIsRecency | src/utils/async_ttl.py:144-167 | after successful sequential calls the cache holds the most recently called keys in order of their last call, whatever the TTL |
| LruStack.FailureKeepsInclusionIff | src/utils/async_ttl.py:150-161 | a failing call keeps the smaller order a suffix of the larger if and only if both lookups hit, or neither does, or the smaller cache misses and holds no other key |
| LruStack.SuccessKeepsInclusion | src/utils/async_ttl.py:150-167 | a successful call keeps it, whether it hits, misses or finds an expired entry in either cache |
| LruStack.StackInclusionIff | src/utils/async_ttl.py:144-167 | over sequential calls a smaller cache holds a suffix of the key order of a larger one after every call if and only if every failing call meets that condition when it is made |
| LruStack.StackInclusion | src/utils/async_ttl.py:150-167 | so it always does when every call succeeds, even with different TTLs |
| LruStack.FailureBreaksInclusion | src/utils/async_ttl.py:150-167 | a concrete run with one failing call after which the smaller cache holds a key that the larger one lacks |
| SubtreeResolver.Walk | src/db/repos/permissions/spicedb_repo.py:590-618 | the breadth-first loop finds exactly the directories at most `max_depth` steps below the root, on cyclic hierarchies too |
| SubtreeResolver.Collect | src/db/repos/permissions/spicedb_repo.py:620-664 | exactly the children with at least one parent among the given ones |
| SubtreeResolver.KeepExclusive | src/db/repos/permissions/spicedb_repo.py:666-719 | exactly the candidates that have parents, all of them among the given ones |
| SubtreeResolver.FilterIsExclusive | src/db/repos/permissions/spicedb_repo.py:644-719 | attachments collected from all nearby notes and filtered afterwards are those that hang on exclusive notes only |
| SubtreeResolver.ResolveChildren | src/db/repos/permissions/spicedb_repo.py:567-725 | the directories within the cap, the notes with all parents among them, the attachments with all parents among those notes |
| CascadeDelete.DirectoryService.DeleteNotes | src/services/directory.py:451-464 | every given note is asked for exactly once, whatever the answers; exactly those whose deletion took effect are gone, those that stay were refused, and nothing else changes |
| CascadeDelete.DirectoryService.DeleteAttachments | src/services/directory.py:466-477 | the same of the attachments; the tuples of an attachment go all together, with its row, and only if its deletion ran to the end |
| CascadeDelete.DirectoryService.DeleteSubdirectories | src/services/directory.py:363-369 | a finished loop leaves no row below any resolved directory, at any depth, and of what is doomed below them only what was refused; it finishes whatever the content deletions answer; the root's row is untouched |
| CascadeDelete.DirectoryService.DeleteDirectory | src/services/directory.py:325-382 | ends on every hierarchy without a cycle. It asks for the permission, then the resolver, then each attachment of its own share, then each note of it, and last for its own row; a failed permission or resolver ends it there. Also when it raises, it only removed rows of the subtree, each after all rows below it, and only content that some directory of the subtree owned exclusively at the start, and it accounts for every row that went by a request that took effect. Only a failing permission, resolver, snapshot or row stops it: otherwise it returns, leaves no directory of the subtree, and of what is doomed only what was refused |
| CascadeDelete.DirectoryService.DryDelete | src/services/directory.py:384-438 | lists what a delete resolves first without the root, sorted by kind and id, and changes nothing; asks for the view permission first; raises exactly if a request other than the lookup of an attachment fails |
| CascadeDelete.DirectoryService.ListKind | src/services/directory.py:397-431 | every id of one kind is looked up and listed once; raises exactly at the first failing lookup of a directory or a note, and never for attachments |
| CascadeDelete.Repositories.DeleteNote | src/services/note.py:173-192 | the row goes unless the request is refused; a missing note raises |
| CascadeDelete.Repositories.DeleteAttachment | src/services/attachment_facade.py:168-183 | the row goes first, then every tuple of the attachment |
| CascadeDelete.Repositories.DeleteRow | src/db/repos/directory/directory_facade.py:249-253 | removes the row of a directory if there is one and says whether it did |
| DryRunListing.ListingIsSorted | src/services/directory.py:433-438 | the listing is the ascending permutation: directories, notes, attachments, each by id |
| Sequences.SortedAscending | src/services/directory.py:437 | sorting gives an ascending permutation of elements that a strict order tells apart |
| Sequences.AscendingUnique | src/utils/async_ttl.py:81 | there is only one ascending order of the same elements, so sorting forgets the order in which they came |
| CascadeSpec.DoomedIsExclusive | src/api/repos/permission_repo.py:194-199 | everything the whole recursion may delete had all its parents inside the subtree |
| CascadeSpec.DoomedUnion | src/services/directory.py:348-369 | the nested calls together delete everything that any directory at any depth owns exclusively, although each one only looks ten levels deep |
| CascadeSpec.ExclusiveShrinks | src/services/directory.py:348-361 | deleting attachments never makes another attachment exclusive, so resolving again against the changed store stays safe |
| CascadeSpec.ShallowResolutionIsComplete | src/services/directory.py:440-449 | in a subtree no deeper than the cap the first resolution lists everything that is doomed |
| CascadeTrail.RefusedAreRefusals | src/services/directory.py:451-477 | the notes and attachments refused at some time are at most as many as the refusals in the trail of requests |
| CascadeEffects.EffectsTrans | src/services/directory.py:348-369 | the effects of two consecutive parts of a cascade are the effect of both together |
| CascadeEffects.AccountTrans | src/services/directory.py:348-369 | the accounts of two consecutive parts, rows and tuples gone against deletions that took effect, are the account of both together |
| CascadeResults.RemovedAfterDescendants | src/services/directory.py:363-382 | at every step of every run, also one cut short, the next directory row to go has no row below it |
| CascadeResults.SharedContentSurvives | src/services/directory.py:348-369 | notes with a parent outside the subtree, and attachments on such notes, survive every run |
| CascadeResults.ExactOutcome | src/services/directory.py:325-382 | a run in which nothing is refused removes exactly the subtree and what it owns exclusively |
| CascadeResults.ObeyedIsThorough | src/services/directory.py:325-382 | when every request is obeyed, the run returns and nothing doomed is left |
| CascadeResults.OutcomeUpToRefusals | src/services/directory.py:451-477 | when at most deletions of notes and attachments fail, the run returns, the whole subtree is gone, everything else that is not doomed is kept, and the doomed rows left are among the refused ones and at most as many as there were refusals |
| CascadeResults.DryRunPredicts | src/services/directory.py:384-449 | the directories that the dry run lists are those removed if and only if no row lies below the cap; in a shallow subtree the notes and attachments agree as well |
| CascadeResults.SingleParentIsDoomed | src/api/repos/permission_repo.py:194-199 | a note with a single parent in the subtree is deleted at any depth |
| CascadeResults.DeepSharedNoteIsOrphaned | src/services/directory.py:440-449 | a note in the root and in a directory below the cap is never deleted, even if both directories are |
| CascadeResults.OrphanInChain | src/services/directory.py:440-449 | in an acyclic chain of eleven steps with a note in its first and its last directory, a run that removes the whole chain leaves the note |
| CascadeResults.EndsIffAcyclic | src/services/directory.py:366-369 | the recursion ends if and only if no two different directories below the root reach each other; a directory that is its own parent does no harm |
| SharePolicy.ProtectedRelations | src/domain/share_policy.py:39-57 | ownership, hierarchy and role membership are in no capability map |
| ShareRights.WriteError | src/services/permissions.py:273-285 | there is no error exactly if the policy knows a capability for the relation and the caller holds it |
| ShareRights.WriterIff | src/db/migrations/schema.zed:51-64 | evaluated on the stored tuples by the schema: on notes, directories and shelves the access relation of a level is written exactly by holders of its right to grant or to delegate and by the masters of the level, the right to grant exactly by holders of the right to delegate and the masters, the right to delegate exactly by the masters; masters are owners, and admins below the admin level |
| ShareRights.OnlyLevels | src/domain/share_policy.py:39-57 | nobody writes any other relation on these, anything but the two delegable rights on a role, or anything on another type |
| ShareRights.RoleWriterIff | src/db/migrations/schema.zed:15-20 | on a role the right to grant membership is written exactly by admins and delegates, the right to delegate exactly by admins, nothing else by anybody |
| ShareRights.GrantorWrites | src/db/migrations/schema.zed:51-54 | a user who holds one right to grant and nothing else writes exactly the access relation of that level |
| ShareRights.DelegateWrites | src/db/migrations/schema.zed:51-59 | a user who holds one right to delegate and nothing else writes exactly the access relation of that level and the right to grant it |
| ShareRights.SealedNeedsPower | src/db/migrations/schema.zed:51-64 | a write that bears on a level, on ownership or on administration needs a power over that level |
| ShareRights.NobodyRises | src/services/permissions.py:133-207 | users who hold no power over a level cannot, by any run of authorized creates, deletes and replacements, change any tuple that decides who has, grants or delegates that level, who owns or who administers the resource, nor who holds these rights directly or through a role |
| Relationships.NormalizeSound | src/services/permissions.py:287-353 | what normalization accepts lies on the expected resource, is grantable, has a subject the schema allows, and is neither an owner tuple nor structural |
| Relationships.NormalizeComplete | src/services/permissions.py:287-353 | a stored tuple is accepted unchanged if and only if it is grantable and its subject fits the schema |
| Relationships.RoleMeansMembers | src/services/permissions.py:318-331 | a role subject without a relation is treated as `#member`, which is the only relation accepted and the one stored |
| Relationships.UserIsSingle | src/services/permissions.py:318-322 | a user subject is accepted and stored only without a relation |
| Relationships.KeyInjective | src/services/permissions.py:394-404 | two stored tuples have the same comparison key exactly if they are equal |
| Relationships.FilterIsExact | src/db/repos/permissions/spicedb_repo.py:240-274 | on a store that follows the schema, deleting a normalised tuple by filter removes that tuple and no other |
| PermissionService.PermissionServiceImpl.Prepare | src/services/permissions.py:133-148 | a single write passes exactly if the resource is valid and present, the tuple normalises and the caller holds the capability of its relation |
| PermissionService.PermissionServiceImpl.CreateRelationship | src/services/permissions.py:133-141 | adds exactly the normalised tuple, which the caller may write, and audits it; an error leaves tuples and trail untouched |
| PermissionService.PermissionServiceImpl.DeleteRelationship | src/services/permissions.py:143-151 | removes the normalised tuple, which the caller may write, and audits it; an error leaves tuples and trail untouched |
| PermissionService.PermissionServiceImpl.NormalizeAll | src/services/permissions.py:162-164 | all tuples normalised in order, or the error of the first that fails |
| PermissionService.PermissionServiceImpl.KeepUnlisted | src/services/permissions.py:178-188 | comparing by key keeps exactly the tuples that are not among the others |
| PermissionService.PermissionServiceImpl.DropOwners | src/services/permissions.py:171-176 | exactly the tuples that are not owner tuples |
| PermissionService.PermissionServiceImpl.AuthorizeAll | src/services/permissions.py:190-195 | passes exactly if every relation may be written, otherwise the error of the first that may not |
| PermissionService.PermissionServiceImpl.Plan | src/services/permissions.py:162-195 | accepts exactly the differences in which nothing is structural and everything may be written, and computes what to drop and what to create; nothing is refused for lack of rights before everything is valid |
| PermissionService.PermissionServiceImpl.Commit | src/services/permissions.py:197-205 | drops and creates the difference, and audits neither an empty revocation nor an empty grant |
| PermissionService.PermissionServiceImpl.Audit | src/services/permissions.py:355-392 | appends one entry for each tuple, or loses the whole batch if the audit repository fails |
| PermissionService.PermissionServiceImpl.ReplaceRelationships | src/services/permissions.py:153-207 | succeeds exactly on acceptable requests, and then every tuple dropped or created is one the caller may write; on a store that follows the schema a tuple is stored afterwards if and only if it is desired, an owner tuple of the resource, or one of another resource; an error leaves tuples and trail untouched |
| ShareHistory.ReplaceHitsTargetIff | src/services/permissions.py:178-200 | for any store, a replacement ends at its target if and only if no dropped tuple used as a filter matches a tuple that should stay |
| ShareHistory.ReplaceHitsTarget | src/services/permissions.py:178-200 | on a store that follows the schema a replacement always ends at its target |
| ShareHistory.BareRoleShadowsUserset | src/db/repos/permissions/spicedb_repo.py:269-274 | on a store outside the schema, dropping a bare role subject also deletes the desired userset tuple |
| ShareHistory.ReplaceTwice | src/services/permissions.py:153-207 | repeating a replacement changes no tuple and writes no audit entry |
| ShareHistory.ChangeContinues | src/services/permissions.py:133-207 | one write appends to the trail what replays to its effect, and touches no protected tuple |
| ShareHistory.RunReplays | src/services/permissions.py:133-207 | after any run of writes, replaying the trail over the initial tuples gives the stored tuples, and tuples outside the capability map are those of the start |
| FirstParents.GetFirstParent | src/services/event_context.py:119-131 | the first of the parents in ascending order of id |
| FirstParents.ClosedChain | src/services/event_context.py:118-136 | once the walk meets a directory it has seen, every further first-parent step stays in the chain |
| FirstParents.CycleIff | src/services/event_context.py:106-108 | a directory is among its own ancestors if and only if it lies on a ring, a list of directories each of which is the first parent of the one before, back to the start |
| FirstParents.RingIsAncestors | src/services/event_context.py:118-136 | the ancestors of a directory on a ring are exactly the directories of the ring |
| FirstParents.DeeperThanParents | src/services/event_context.py:106-108 | where every directory lies deeper than its parents there is no ring |
| FirstParents.ChainIsComplete | src/services/event_context.py:118-139 | the finished chain holds exactly the directories reached in one or more first-parent steps |
| FirstParents.DirectoryAncestorIds | src/services/event_context.py:97-139 | ends on every hierarchy, cyclic or not, without duplicates, nearest first, with exactly the first-parent ancestors; a directory on the way that cannot be read empties the answer |
| RuleDispatcher.Dispatcher.NoteParentDirectoryId | src/services/event_context.py:142-164 | the first parent of a readable note |
| RuleDispatcher.Dispatcher.AncestorChainContains | src/api/events/rule_dispatcher.py:355-368 | true exactly for first-parent ancestors on a readable chain |
| RuleDispatcher.Dispatcher.DirectoryScopeMatches | src/api/events/rule_dispatcher.py:302-327 | a directory rule covers a note event exactly if it is reached in one or more first-parent steps from the note's first parent |
| RuleDispatcher.Dispatcher.ShelfScopeMatches | src/api/events/rule_dispatcher.py:330-352 | a shelf rule covers a book on the shelf, and a note whose first parent is one |
| RuleDispatcher.Dispatcher.ScopeMatches | src/api/events/rule_dispatcher.py:239-299 | decides exactly the scope relation of a rule and an event |
| RuleDispatcher.Dispatcher.ContainsText | src/api/events/rule_dispatcher.py:416-431 | true exactly if the substring occurs at some position |
| RuleDispatcher.Dispatcher.ConditionHolds | src/api/events/rule_dispatcher.py:402-432 | decides exactly the condition; text conditions fail for directory events and for notes that cannot be read |
| RuleDispatcher.Dispatcher.RunAddToDirectory | src/api/events/rule_dispatcher.py:468-487 | a note event with an id puts its note into the directory if the repository accepts it; a directory event changes nothing |
| RuleDispatcher.Dispatcher.RunAddTag | src/api/events/rule_dispatcher.py:489-504 | the tag goes on the note of a note event, or on the directory of a directory event, if the id is not empty and the repository accepts it |
| RuleDispatcher.Dispatcher.EvaluateAndExecute | src/api/events/rule_dispatcher.py:371-504 | exactly if condition and action parse and the condition holds, a note of a note event joins the directory, or the note or directory of the event gets the tag, where the repository accepts it; nothing else changes |
| RuleDispatcher.Dispatcher.Candidates | src/api/events/rule_dispatcher.py:231-234 | exactly the rules in scope, decided before any action runs |
| RuleDispatcher.Dispatcher.Dispatch | src/api/events/rule_dispatcher.py:199-236 | a tag is bound afterwards if and only if it was before, or some rule whose scope and condition hold initially adds that tag, the tag is for the event's own note or directory, its id is not empty and the repository accepts it; a note lies in a directory if and only if it did before, or such a rule adds to that directory, the event is of that note, and the repository accepts it |
| RuleDispatcher.DispatchIgnoresOrder | src/api/events/rule_dispatcher.py:225-236 | any two rule lists with the same members lead to the same bindings |
| RuleDispatcher.OwnDirectoryRule | src/api/events/rule_dispatcher.py:316-327 | a rule on the directory that holds a note covers its events if and only if that directory lies on a ring of first parents that can all be read |
| RuleDispatcher.OwnDirectoryRuleInTree | src/api/events/rule_dispatcher.py:316-327 | in a hierarchy without such rings it never does |
| PercentEncoding.UnquoteQuote | src/utils/attachment_url.py:58-59 | decoding undoes encoding for every byte string |
| PercentEncoding.DoubleRoundTrip | src/utils/attachment_url.py:33-35 | decoding twice undoes encoding twice for every byte string |
| PercentEncoding.UnquoteFixpoint | src/utils/extract_attachments.py:26-28 | decoding leaves a text as it is if and only if it holds no `%hh` |
| AttachmentScanner.FindUrlStart | src/utils/extract_attachments.py:80-90 | the last marker in front of a position, by the precedence of the three markers |
| AttachmentScanner.MarkSuperseded | src/utils/extract_attachments.py:50-62 | exactly the path slugs that are the first match of the URL around some key |
| AttachmentScanner.ExtractAttachmentIds | src/utils/extract_attachments.py:31-77 | the values of all matches that are not superseded, each once, in order of first appearance |
| AttachmentScanner.UniqueIsSet | src/utils/extract_attachments.py:47-76 | removing duplicates keeps every value and leaves none twice |
| AttachmentUrls.ImageUrlMatches | src/utils/attachment_url.py:14-35 | a printed image URL contributes its path slug and its key wherever it stands, and nothing in between |
| AttachmentRoundTrip.MatchesOfDocument | src/utils/extract_attachments.py:52-65 | the matches of a document of printed URLs are exactly a slug and a key for each |
| AttachmentRoundTrip.KeySupersedes | src/utils/extract_attachments.py:52-62 | the key of a URL supersedes that URL's slug if the URL is taken to start behind the start of the one before |
| AttachmentRoundTrip.SchemeFreeIsAnchored | src/utils/extract_attachments.py:80-90 | without a scheme marker every URL is taken to start where it does |
| AttachmentLeak.KeyMissesSlug | src/utils/extract_attachments.py:50-62 | if a URL is taken to start at or before the URL in front of it, no key at all supersedes its slug |
| AttachmentLeak.MarkedExactly | src/utils/extract_attachments.py:50-62 | of the slugs of a document exactly those of the anchored URLs are superseded, by whichever keys |
| AttachmentLeak.DocumentShows | src/utils/extract_attachments.py:19-90 | extracting from any document of printed image URLs and text without references gives its keys, and `image` in front of each whose URL is not anchored, of equal values only the first |
| AttachmentLeak.DocumentRoundTrip | src/utils/extract_attachments.py:19-90 | if every URL is anchored, exactly the keys, once each, in order of first appearance |
| AttachmentLeak.InsertedIff | src/utils/extract_attachments.py:70-76 | a value put between two lists leaves their first occurrences as they were if and only if it came before or is the next new one |
| AttachmentLeak.DocumentRoundTripIff | src/utils/extract_attachments.py:19-90 | a document gives back exactly its keys if and only if every URL is anchored, or the slug of the first loose one stands where a key `image` has been or comes next |
| AttachmentLeak.LeaksIff | src/utils/extract_attachments.py:19-90 | without a key `image`: exactly the keys if and only if every URL is anchored, and otherwise `image` is among the ids |
| AttachmentPlain.PlainDocumentRoundTrip | src/utils/extract_attachments.py:19-90 | URLs separated by text without slashes and equals signs, none of which continues a key, give back exactly their keys |
| AttachmentPlain.OneSchemeLeaks | src/utils/extract_attachments.py:80-90 | one scheme in front of two URLs of any readable keys: the second is not anchored and `image` is extracted |
| AttachmentPlain.SchemeEachAnchors | src/utils/extract_attachments.py:80-90 | `http://` in front of each of two URLs: exactly the keys are extracted |
| AttachmentPlain.SecureSchemeLeaks | src/utils/extract_attachments.py:86-89 | `https://` in front and `http://` between: `image` is extracted, by the order of the markers |
| AttachmentExact.PrefixIsRead | src/utils/extract_attachments.py:19-23 | a key is read back up to its first `.` or `~` |
| AttachmentExact.SlugRemains | src/utils/extract_attachments.py:19-77 | a key that is empty or begins with `.` or `~` is lost, and `image` is extracted instead |
| AttachmentExact.ImageUrlRoundTripIff | src/utils/attachment_url.py:14-35 | an image URL gives its key back if and only if the key is not empty and free of `.` and `~` |
| AttachmentExact.LinkUrlRoundTrip | src/utils/attachment_url.py:38-59 | a link URL gives its key back decoded, hence unchanged if and only if the key holds no `%hh` |
| AttachmentForms.WrittenIsRead | src/utils/extract_attachments.py:8-28 | `key = "..."`, with `key` in any cases, any white space around the equals sign and an optional quote at either end, gives exactly its value decoded twice |
| AttachmentForms.WrittenRoundTrip | src/utils/extract_attachments.py:8-28 | so a key encoded twice is read back unchanged, and a plain one if and only if it holds no `%hh` |
| AttachmentExact.ColonFormIsNotRead | src/utils/extract_attachments.py:9-23 | the form `"key":"..."` never gives its key back, whatever the key |
| AttachmentExact.ColonFormFindsNothing | src/utils/extract_attachments.py:9-23 | it gives nothing at all for a key without an equals sign and without the path of an attachment |
| ReadmeParser.ParseReadme | src/utils/readme_parser.py:79-130 | the first heading, the first image and the description of the text with both overwritten; nothing for missing content |
| ReadmeParser.BlankSpans | src/utils/readme_parser.py:112-118 | exactly the characters inside some span become blanks, in whatever order the spans come |
| ReadmeParser.WriteReadme | src/utils/readme_parser.py:63-76 | the parts that are present, separated by empty lines |
| ReadmeLines.TidyDescription | src/utils/readme_parser.py:122-124 | tidy text behind any amount of white space is its own description |
| ReadmeLines.DescriptionIsTidy | src/utils/readme_parser.py:122-124 | whatever the text, its description has no blank lines and no white space around its lines |
| ReadmeMatches.HeadingFirst | src/utils/readme_parser.py:32 | a trimmed title of one line at the start is found whole, and its match stops in front of the last line feed behind it |
| ReadmeMatches.HeadingIff | src/utils/readme_parser.py:32 | text without stray white space has no title if and only if none of its lines begins with a hash sign and white space |
| ReadmeMatches.ImageAfterHeading | src/utils/readme_parser.py:36-38 | behind a title without an image, the URL found is the printed one, even if the match begins in the title |
| ReadmeMatches.ImageInHeading | src/utils/readme_parser.py:36-38 | an image in the title is found before the printed one |
| ReadmeMatches.FindsImageIff | src/utils/readme_parser.py:36-38 | a search finds something if and only if the parts of an image stand somewhere in the text |
| ReadmeMatches.ImageOfHeaded | src/utils/readme_parser.py:36-38 | a heading and a description hold an image together if and only if one of them does, or one is left open in the title and closed by the description's first bracket in front of a URL |
| ReadmeRoundTrip.TitleIsReadIff | src/utils/readme_parser.py:95-97 | the title is read back exactly if it is present or no line of the description begins like one |
| ReadmeRoundTrip.ImageIsRead | src/utils/readme_parser.py:99-101 | the URL is read back from a match that ends with the printed image |
| ReadmeRoundTrip.DescriptionIsRead | src/utils/readme_parser.py:103-124 | the two matches and the separators leave exactly the description |
| ReadmeRoundTrip.ParsedIsShaped | src/utils/readme_parser.py:41-60 | whatever the text, a title is one trimmed line, a URL has no white space and no closing parenthesis, a description is tidy |
| ReadmeRoundTrip.RoundTripIff | src/utils/readme_parser.py:63-130 | a README is read back exactly as written if and only if its parts have that shape, no description line begins like a heading when there is no title, no image stands in the title, and without an image URL none stands in the description or across both |
| ReadmeRoundTrip.NormalFormRoundTrips | src/utils/readme_parser.py:63-130 | every README in normal form is read back: no `![` in the title, nor in the description without an image URL, and no line like a heading without a title |
| ReadmeRoundTrip.ReparseIff | src/utils/readme_parser.py:63-130 | writing the result of a first parse and parsing again gives the same result if and only if the parts found first are unambiguous in that sense |
| ReadmeRoundTrip.ReparseCanFail | src/utils/readme_parser.py:63-130 | a concrete text in which removing the image exposes a heading, so that the second parse finds a title |
| UndefinedPruning.AsDict | src/utils/convert.py:10-38 | an object becomes a dictionary without its undefined values; anything else is refused |
| UndefinedPruning.AsDictInner | src/utils/convert.py:41-66 | the loops compute the pruned value |
| UndefinedPruning.AtomsStay | src/utils/convert.py:41-66 | along every path through lists, tuples, objects and dictionaries the pruned value has an atom exactly if the original has that atom there |
| UndefinedPruning.ShapesStay | src/utils/convert.py:41-66 | along every path lists, tuples and named tuples keep their kind and length, and objects and dictionaries become dictionaries with the keys of their defined entries in order; only undefined entries disappear, and nothing is added |
| UndefinedPruning.DefinedConcat | src/utils/convert.py:45-51 | keeping the defined entries of two parts, one after the other, keeps those of the whole in order |
| UndefinedPruning.PrunedPasses | src/utils/convert.py:41-66 | a pruned value passes the query check if and only if no list or tuple anywhere inside held an undefined value |
| UndefinedPruning.DropAfterAsDict | src/utils/dict_helper.py:5-14 | dropping undefined values from a pruned value changes nothing |
| UndefinedPruning.DropFixpointIff | src/utils/dict_helper.py:5-14 | dropping changes nothing if and only if no dictionary reached through dictionaries held an undefined value |
| UndefinedPruning.DroppedKeeps | src/utils/dict_helper.py:5-14 | along every path whatever is no dictionary stays as it is, and a dictionary stays whole or keeps the keys of its defined entries in order; nothing is added |
| UndefinedPruning.CheckIsExact | src/db/database.py:32-51 | the check finds a value exactly if some path through lists, tuples and dictionaries leads to an undefined one, and it names such a path |
| UndefinedPruning.AssertNoUndefined | src/db/database.py:32-51 | raises with the path of the first undefined value behind the path it was given |
| UndefinedPruning.ValidateQueryArgs | src/db/database.py:54-58 | accepts the arguments exactly if no path leads to an undefined value, otherwise names one that does |
| EnvTemplate.ParseExistingEnv | scripts/generate-prod-env.py:55-72 | every assignment line gives its key the trimmed value, the last line of a key wins; a missing file gives nothing |
| EnvTemplate.Substitute | scripts/generate-prod-env.py:466-536 | the three passes, the error with the first unknown key of either of the first two, and the error for placeholders left over |
| EnvReferences.TokenIff | scripts/generate-prod-env.py:44-45 | a text begins with a placeholder if and only if it begins with a key name between the marks |
| EnvReferences.SlotsIff | scripts/generate-prod-env.py:44-45 | scanning finds a placeholder if and only if one begins somewhere in the text |
| EnvReferences.AnswerIsFilledIn | scripts/generate-prod-env.py:496-502 | behind text that cannot run into it, an answer replaces its placeholder and the text on either side is filled in on its own; the pass fails exactly if an answer is missing in one of the three |
| EnvReferences.SecretIsFilledIn | scripts/generate-prod-env.py:504-510 | a secret replaces its placeholder: the one of the earlier run, or else the one drawn for this place |
| EnvReferences.LeftoverIff | scripts/generate-prod-env.py:512-514 | rendering gives up after the two passes if and only if one of their placeholders begins somewhere in the text |
| EnvReferences.AssignmentIff | scripts/generate-prod-env.py:519-526 | a rendered line gives a key its value if and only if it is `KEY=value` behind any white space; the value reaches to the end of the line |
| EnvReferences.ParseLineIff | scripts/generate-prod-env.py:46-52 | a line of an existing file gives a key its value if and only if it is `KEY = value` with any white space at either end and around the equals sign, which is not part of the value |
| EnvReferences.TrimIff | scripts/generate-prod-env.py:46-52 | what a trimmed value is: the text without the white space at either end, and nothing else taken |
| EnvReferences.CommentSaysNothing | scripts/generate-prod-env.py:522-523 | a line whose first character behind white space is a hash sign says nothing to either reader |
| EnvReferences.DerivedIsLast | scripts/generate-prod-env.py:519-526 | the third pass knows a key if and only if some rendered line assigns it, with the value of the last such line |
| EnvReferences.EnvIsLast | scripts/generate-prod-env.py:64-72 | reading a file knows a key if and only if some line gives it a value, and that of the last such line wins |
| EnvReferences.ShownIsDerived | scripts/generate-prod-env.py:516-526 | a whole line `KEY=value` anywhere in the text is known to the third pass unless a later line assigns the key |
| EnvReferences.ReferenceShowsLine | scripts/generate-prod-env.py:516-536 | wherever a reference to such a key stands, what is written shows the value of that line in its place, or the value the user gave |
| EnvReferences.ReferenceShowsSecret | scripts/generate-prod-env.py:484-487 | wherever a reference to the key of a secret stands, what is written shows the secret chosen for it, if its line alone assigns the key and the user gave no value |
| EnvFixedPoint.ScanSplit | scripts/generate-prod-env.py:44-45 | no placeholder crosses a line |
| EnvFixedPoint.ReferenceIsExpanded | scripts/generate-prod-env.py:532-536 | a reference anywhere becomes the value of its key, or stays where there is none, and the text on either side is expanded on its own |
| EnvFixedPoint.ValuesWin | scripts/generate-prod-env.py:528-536 | a value the user gave is used for a reference anywhere, whatever a rendered line says |
| EnvFixedPoint.SecretsShow | scripts/generate-prod-env.py:504-536 | every secret of a template is shown whole on the line of its key after all three passes |
| EnvFixedPoint.ShownIsRead | scripts/generate-prod-env.py:55-72 | a secret that is shown on the only line of its key is read back unchanged |
| EnvFixedPoint.SecretsAreRecovered | scripts/generate-prod-env.py:590-602 | reading the written file gives every secret back as it was chosen |
| EnvFixedPoint.RerenderIsFixedPoint | scripts/generate-prod-env.py:466-536 | rendering again with the recovered secrets writes the same file, whatever fresh secrets would be drawn |
| EnvFixedPoint.FreshRerenderIsFixedPoint | scripts/generate-prod-env.py:466-536 | after a first run without an earlier file the hexadecimal secrets need no further condition |

## Left out

- gRPC adapters, SQL, SpiceDB, S3, JWT, the hocuspocus server and the start-up wiring: input and output only.
- Tag, shelf, preference, auth and role services, visitors, and the conversion of entities for the database
  (`convert_entity_for_db`): thin validation and delegation that would only add easy members.
- Permission chains as objects: a check is an answer that may also be a failure.
- The permissions of the schema that guard no write of the share operations (`view`, `write`, `delete`, `has_admin` and
  what they inherit from parents): the rights to write are proved against the schema, the others are answers.
- The display names in the dry run, and the sorting of the lists that the permission operations return: what they
  contain is modelled, not how it is shown.
- The order in which a set is worked through is arbitrary in the cascade, where the code uses sorted lists; the
  results hold for every order.
- Relationship operations on shelves and roles when the service was built without their repository: the code raises
  before anything else happens.
- Readings of the rule context that fail on one call and succeed on the next: whether a note or directory can be read
  does not change during one dispatch. Cycles of rules that trigger each other: the dispatcher does not follow up its
  own events.
- A backend failure in the middle of a replacement's writes: the code has no roll-back, and the tuples written so
  far stay.
- PermissionService.PermissionServiceImpl.Commit: created tuples join a set, also when the desired list names one of
  them twice. The repository sends them in one bulk import and ignores the answer that a tuple exists already
  (src/db/repos/permissions/spicedb_repo.py:220-233); what the backend keeps of such a batch is not modelled.
- Unicode case folding and UTF-8 in the attachment scanner: text is a sequence of characters, keys are sequences of
  bytes, and only the ASCII letters have two cases.
- The prompts, validators, file permissions and the storage configuration of the environment script.
- EnvFixedPoint.RerenderIsFixedPoint: the two conditions on the secrets of the first run (one plain line without
  `${KEY}`, one rendered line for each key) are sufficient; a repeated line with the same value would do as well.
