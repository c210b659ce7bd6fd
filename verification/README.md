# AzCopy: a verified model of its engines

This project models the algorithmic parts of AzCopy in Dafny and proves what they promise: the sync engine, the retrying
download reader, the bucket-name resolvers, the part dispatcher, the path escape codec, interactive deletion, the token
refresh timer, the request retry policy and the benchmark source. `dafny verify dfyconfig.toml` checks all of it.

- `SyncObjects`, `SyncEngine`, `SyncEnumerator`: stored objects and filters, the index and the two comparators as classes,
  and the two scan orders run end to end. Traversals are arbitrary sequences, map iteration is an arbitrary order, and
  `strings.ToLower` is an arbitrary function. One specification, `IsSyncOutcome`, is met by both orders.
- `SyncTheorems`: the destination after a run whose copies and deletions are carried out in any interleaving, and what a
  second run does. How a copied source lands is an arbitrary function, so the condition for convergence is exact.
- `DeleteProcessor`: the prompting state machine against a closed form over the user's answers; any deletion of a file may
  fail.
- `HttpRange`, `RetryReader`: the ledger of offset and count over arbitrary faults. `Close` by another goroutine may happen
  between any two steps of `Read` and inside a read of the body. A body delivers bytes of the resource at its position
  and reports EOF only at its end; the getter's own error is never nil or EOF.
- `NamingRules`, `NameResolver`: the S3 and GCP resolvers. They are near copies of each other, so one class with a
  `provider` models both; the rewriting, the panic and the suffix loop branch where the two sources differ.
- `PartDispatcher`: buffering, shuffling, numbering and refusal of parts, with wrapping counters.
- `Text`, `PathEscape`: `strings.ReplaceAll`, `Split` and `Join`, and the nine-character codec run pass by pass in any order.
- `TokenRefresh`: startRefresh, timer goroutines and stopRefresh as a state machine, one locked section a step.
- `RetryPolicy`, `Int64`: the back-off in wrapping 64-bit arithmetic and the try loop with its int32 counters. The jitter is a
  real, its range widened by the roundings to float32. A jittered delay that does not fit in an int64 converts to an
  arbitrary one, as Go leaves it to the platform.
- `Common`: the option type and the entity type.
- `Decimal`, `Benchmark`: decimal text and its inverse, the benchmark URL and its enumeration.

Some promises are false of the code in some cases. Each has its exact condition, and a witness:

- Bucket names supplied on demand after construction can share a container: `NameResolvers.OnDemandCanClash`. They stay
  apart exactly when no call asks for a clean name already handed out: `NameResolvers.OnDemandDistinctIff`.
- The comment on `startRefresh` allows starting again after stopping. If a timer has fired and its callback is still running
  there are then two timers, even with a single caller: `TokenRefresh.RestartCanDouble`. Over any run there is never more
  than one refresh exactly when every start comes after the refresh before it is over, which it is once its callback has
  ended after a stop or a stop has met its waiting timer: `TokenRefresh.RestartIsSingleIff`. Within the package a credential
  is started once only.
- Decoding a path does not always undo encoding it; it does exactly for paths without an escape sequence:
  `PathEscape.PathRoundTripIff`, `PathEscape.RoundTripCanFail`.
- Back-off delays are not always bounded below by zero. They are exactly for the tries whose wrapped back-off product leaves
  room for the jitter in an int64: `RetryPolicy.DelayInBoundsIff`. With the default exponential delays a run stays in
  bounds exactly up to 31 tries (`RetryPolicy.DefaultDelaysFitIff`), and from the 65th try every delay is negative
  (`RetryPolicy.LateTriesDoNotWait`).
- `MaxTries` does not bound the tries when it is the largest int32, and only then: `RetryPolicy.CounterEndsIff`. The loop
  then ends only if some outcome is not retried: `RetryPolicy.EndsIff`. Likewise the enumeration of a benchmark ends
  exactly when the file count is not the largest uint: `Benchmark.CounterEndsIff`.
- The deletion count reported to the user counts calls of the deleter, which leaves folders alone and may fail on files. It is
  the number of removed objects exactly when no call was made on a folder and none failed:
  `DeleteProcessor.CountIsRemovalsIff`, `DeleteProcessor.CountCanBeWrong`.
- A sync does not always leave destination objects that the filters exclude alone. The comparison does not see them, so
  one is overwritten exactly when a source that passes the filters has its path, as two single files of different names
  have. A sync mirrors the source's paths exactly when no deletion fails: `SyncTheorems.FileSyncMirrorsSource`,
  `SyncTheorems.ExcludedIsOverwritten`.
- Folding paths for a case-insensitive destination avoids infinite syncing exactly as long as no source is a case variant of
  an earlier one: `SyncTheorems.FoldedSyncSettlesIff`, `SyncTheorems.CaseVariantsNeverSettle`.

## Model

| member | source | states |
|---|---|---|
| SyncObjects.PassedFilters | cmd/zc_enumerator.go:726-750 | an object passes exactly when every filter that applies to it accepts it |
| SyncObjects.FiltersCompose | cmd/zc_enumerator.go:726-750 | no filter accepts everything, one filter asks about what it applies to, file-only filters let folders through, and lists of filters must all accept |
| SyncObjects.RecencyByTimes | cmd/zc_enumerator.go:95-106 | newer means a later SMB time where it is known and a later modified time where it is not, in all four cases |
| SyncObjects.Kept | cmd/zc_enumerator.go:765-773 | a traversal hands over exactly the objects met that pass the filters |
| SyncEngine.ObjectIndexer.Store | cmd/syncIndexer.go:47-62 | storing binds the path, or the folded path when the flag is set, to the object and counts it |
| SyncEngine.IndexFacts | cmd/syncIndexer.go:47-62 | after any run of stores the keys are the keys of the objects, and each key holds an object of that key |
| SyncEngine.PlainIndexFacts | cmd/syncIndexer.go:51-59 | with distinct paths and no folding the index is exactly the objects by path |
| SyncEngine.SyncDestinationComparator.ProcessIfNecessary | cmd/syncComparator.go:50-73 | one destination removes its source from the index and schedules it if newer or forced, or goes to the cleaner |
| SyncEngine.SyncSourceComparator.ProcessIfNecessary | cmd/syncComparator.go:97-119 | one source removes its key from the index and is scheduled if missing, newer or forced |
| SyncEngine.CopyScheduler.ScheduleCopyTransfer | cmd/zc_enumerator.go:153-162 | the scheduler takes exactly the objects the folder option admits |
| SyncEngine.Clean | cmd/zc_enumerator.go:143-151 | the cleaner is offered exactly the objects the folder option admits |
| SyncEnumerator.IndexAll | cmd/zc_enumerator.go:659-664 | traversing the primary side indexes exactly its filter-passing objects |
| SyncEnumerator.UploadStep | cmd/syncComparator.go:50-73 | comparing one more destination decides exactly the copy of its source, or makes it an extra |
| SyncEnumerator.CompareDestinations | cmd/zc_enumerator.go:670-673 | after the secondary traversal the decided copies, the extras and the rest of the index are exactly those of the destinations seen |
| SyncEnumerator.ScheduleMissing | cmd/syncEnumerator.go:158-175 | the upload finalizer schedules exactly the sources no destination decided, which completes the specified outcome |
| SyncEnumerator.ScheduleRest | cmd/syncIndexer.go:65-74 | traversing the index in any order schedules every object left once; applying the filters again drops nothing |
| SyncEnumerator.EnumerateSourceFirst | cmd/zc_enumerator.go:659-682 | indexing, comparing and finalising, in that order, turn an empty engine into the specified outcome |
| SyncEnumerator.SyncSourceFirst | cmd/syncEnumerator.go:145-177 | for every source, destination, filter list, option and order: each missing, newer or mirrored source is scheduled once and nothing else, and exactly the extras are offered to the cleaner, which deletes as answered |
| SyncEnumerator.SourceStep | cmd/syncComparator.go:97-119 | looking a source up in what is left of the index is the same as comparing it with the whole index unless an earlier source had its key |
| SyncEnumerator.OfferLeftovers | cmd/syncEnumerator.go:184-203 | the finalizer offers to the cleaner, in any order, exactly the indexed destinations whose key no source had |
| SyncEnumerator.SyncDestinationFirst | cmd/syncEnumerator.go:178-218 | the folded outcome for any key folding, and without folding the same outcome as source first |
| SyncEnumerator.UnfoldedOutcome | cmd/syncEnumerator.go:178-218 | without folding the keyed index run copies and offers exactly what the set specification says |
| SyncTheorems.ScanOrdersAgree | cmd/syncEnumerator.go:144-219 | the two scan orders give permutations of the same copies and of the same offers |
| SyncTheorems.CopiedIffNewer | cmd/zc_enumerator.go:95-106 | over a run, a file at both sides is copied exactly when its own known time is later than that of the destination; equal times copy nothing |
| SyncTheorems.MissingIsCopied | cmd/syncComparator.go:97-119 | over a run, a missing or forced source is copied unless it is a folder that the folder option leaves out: all of them, or the root one |
| SyncTheorems.OfferedIffExtra | cmd/syncComparator.go:64-69 | over a run, a destination is offered for deletion exactly when no source has its path, unless it is a folder left out |
| SyncTheorems.NothingDeleted | cmd/syncProcessor.go:129-155 | without deletion, and in a dry run, nothing is deleted and nothing counted |
| SyncTheorems.FoldedOffersIff | cmd/syncIndexer.go:35-39 | with folding, an object is offered for deletion exactly when no source folds to its key and no destination met later does, however many sources share a key |
| SyncTheorems.CaseInsensitiveOffersIff | cmd/syncEnumerator.go:178-200 | on a case-insensitive destination exactly the objects no source folds to are offered for deletion |
| SyncTheorems.FoldedCopiesIff | cmd/syncComparator.go:97-119 | on a case-insensitive destination a source is copied, once, exactly when it is missing, newer or forced under its folded key, or a variant of an earlier source |
| SyncTheorems.FoldedSyncSettlesIff | cmd/syncIndexer.go:35-39 | with an up-to-date case-insensitive destination a run copies nothing exactly when no source is a case variant of an earlier one |
| SyncTheorems.CaseVariantsNeverSettle | cmd/syncIndexer.go:35-39 | with sources "A" and "a" the second is copied in every run |
| SyncTheorems.RunSettles | cmd/syncEnumerator.go:158-175 | in any interleaving of its copies and deletions a run leaves each path with the landed source, nothing, or what was there |
| SyncTheorems.FileSyncMirrorsSource | cmd/syncEnumerator.go:145-216 | with deletion on and files only, each source path ends fresh; an excluded destination is untouched, unless a source has its path, when it is overwritten; and the paths are the source's plus excluded ones exactly when no deletion failed |
| SyncTheorems.ExcludedIsOverwritten | cmd/syncEnumerator.go:145-216 | an excluded destination, though newer, is overwritten by an included source of its path |
| SyncTheorems.SecondRun | cmd/syncComparator.go:97-119 | a second non-mirror run wants again exactly the copies that landed older or unseen, and offers again exactly the extras not removed |
| SyncTheorems.SyncConvergesIff | cmd/syncEnumerator.go:230-243 | a second run over files deletes nothing exactly when no deletion failed, and copies nothing exactly when every copy landed visible and not older than its source |
| DeleteProcessor.InteractiveDeleteProcessor.constructor | cmd/syncProcessor.go:203-215 | the flags start as the deletion mode says and nothing has been deleted |
| DeleteProcessor.InteractiveDeleteProcessor.RemoveImmediately | cmd/syncProcessor.go:125-167 | after any offers and failed deletions the deleter calls, removals, count and number of questions are those of the closed form; the deleter's error is returned |
| DeleteProcessor.InteractiveDeleteProcessor.PromptForConfirmation | cmd/syncProcessor.go:169-201 | one question; Yes answers delete, for-all answers stop the questions, anything else keeps the object |
| DeleteProcessor.InteractiveDeleteProcessor.Delete | cmd/syncProcessor.go:286-312 | a deleter call removes a file unless it fails, and leaves folders alone |
| DeleteProcessor.PromptedRun | cmd/syncProcessor.go:125-201 | before the first for-all answer exactly the objects answered Yes are deleted, from it on all or none, and no question follows it |
| DeleteProcessor.AnswersDecide | cmd/syncProcessor.go:169-201 | each of the five answers, by name: YesForAll and NoForAll decide for all later objects and end the questions, Yes deletes one, No and anything else keep one |
| DeleteProcessor.ChosenIffApproved | cmd/syncProcessor.go:125-167 | the deleter is called on an object exactly when some offer of it was approved |
| DeleteProcessor.ChosenUnprompted | cmd/syncProcessor.go:203-215 | without prompting everything offered is deleted, or nothing |
| DeleteProcessor.CountIsRemovalsIff | cmd/syncProcessor.go:158-166 | the deletion count is the number of removed objects exactly when the deleter was passed no folder and failed on no file |
| DeleteProcessor.CountCanBeWrong | cmd/syncProcessor.go:158-166 | one extra file whose deletion fails, or one extra folder, counts as one deletion |
| HttpRange.HeaderDenotesInterval | azbfs/zc_util_validate.go:25-50 | the header text of a request that does not overflow is read by section 2.1 of RFC 7233 as exactly its interval |
| HttpRange.HeaderOfExample | azbfs/zc_util_validate.go:25-50 | the exact text of a bounded and an open header, no header for everything, and the two panics |
| HttpRange.OverflowingHeaderIsMalformed | azbfs/zc_util_validate.go:42-50 | for int64 offset and count the header is unreadable exactly when its last byte overflows |
| RetryReaders.RetryReader.constructor | azbfs/zc_retry_reader.go:77-96 | the ledger starts at the requested range with nothing delivered |
| RetryReaders.RetryReader.Close | azbfs/zc_retry_reader.go:184-191 | closes the current body, if any, and moves nothing |
| RetryReaders.RetryReader.CurrentBody | azbfs/zc_retry_reader.go:112-123 | the body read from is the current one, or a new one opened at the ledger's position |
| RetryReaders.RetryReader.Advance | azbfs/zc_retry_reader.go:136-142 | a delivery moves offset and count together |
| RetryReaders.RetryReader.TryOnce | azbfs/zc_retry_reader.go:112-145 | one try reads the current body or a new one, and delivers and moves the ledger, or moves nothing and leaves no body, the one read closed |
| RetryReaders.RetryReader.Attempt | azbfs/zc_retry_reader.go:112-162 | one round of the loop goes round again exactly after a retryable failure while tries are left, and logs its request, body and failure |
| RetryReaders.RetryReader.Read | azbfs/zc_retry_reader.go:104-164 | delivers only what it returns with nil or EOF, bounded body reads and requests all for the undelivered rest, retries exactly retryable errors while tries are left, and closes every body it met but the one it keeps |
| RetryReaders.FailuresByKind | azbfs/zc_retry_reader.go:145-180 | by kind of error: network errors and early ends are retried while retries are left, a closed body too unless that is to be an error, and nothing else ever |
| RetryReaders.GivesUpWhenExhausted | azbfs/zc_retry_reader.go:145-163 | a read that gives up on such an error has failed MaxRetryRequests + 1 times |
| RetryReaders.RetryReader.HeaderOfRest | azbfs/zc_util_validate.go:25-50 | in every reachable state the Range header of the ledger denotes exactly the undelivered interval, without overflow if the first range had none |
| RetryReaders.ReadInto | azbfs/zc_retry_reader.go:104-164 | every request of a Read carries the header of the interval undelivered before it |
| RetryReaders.Consume | azbfs/zc_retry_reader.go:104-191 | over any run of reads and closes with any faults the output is the contiguous slice from the initial offset, the whole range once EOF is seen, and Offset + Count never changes |
| NamingRules.RunBecomesCount | cmd/s3NameResolver.go:122-153 | a run of k hyphens becomes -k- and the text on either side is rewritten as if alone |
| NamingRules.RunIsItsLength | cmd/s3NameResolver.go:122-153 | what stands between the two hyphens a run of at least 2 becomes is its length in decimal |
| NamingRules.SingleHyphenStays | cmd/s3NameResolver.go:137-140 | a single hyphen is left as it is |
| NamingRules.NeedsWorkIff | cmd/gcpNameResolver.go:71-78 | a name is left alone exactly when it has no period, no two adjacent hyphens and, for GCP, no underscore |
| NamingRules.SeparatorsBecomeHyphens | cmd/s3NameResolver.go:111-119 | lone periods, and underscores for GCP, become hyphens and nothing else changes |
| NamingRules.HyphenRunsShape | cmd/s3NameResolver.go:122-153 | whatever hyphens precede it, a rewritten text has no double hyphen, does not end in one and is not too short |
| NamingRules.SanitisedIsContainerText | cmd/s3NameResolver.go:111-153 | a legal bucket name never panics and is rewritten to legal container text of at least 3 characters |
| NamingRules.CleanIsContainerName | cmd/gcpNameResolver.go:71-78 | a legal bucket name that needs no work is a legal container name |
| NamingRules.SuffixedInjective | cmd/s3NameResolver.go:186-190 | different suffixes give different names |
| NameResolvers.LeastFree | cmd/s3NameResolver.go:189-207 | the suffix search returns the least free number, or reports that all are used |
| NameResolvers.FreeSuffixExists | cmd/gcpNameResolver.go:146-161 | by pigeonhole the unbounded GCP loop ends at a free name, and the S3 loop does while fewer than 999 names are used |
| NameResolvers.S3SuffixFailsIff | cmd/s3NameResolver.go:193-207 | the S3 search fails exactly when all 999 candidates are used |
| NameResolvers.CollapseRuns | cmd/s3NameResolver.go:123-152 | the buffer-writing loop computes the rewriting |
| NameResolvers.NameResolver.constructor | cmd/s3NameResolver.go:66-82 | enters every listed name as pending, then resolves them in order |
| NameResolvers.NameResolver.ResolveName | cmd/s3NameResolver.go:85-99 | resolves a pending or new name once and answers from the table |
| NameResolvers.NameResolver.ResolveNew | cmd/gcpNameResolver.go:71-131 | enters the sanitised, collision-free, length-checked name and marks it taken |
| NameResolvers.NameResolver.FreshSuffix | cmd/gcpNameResolver.go:146-161 | the suffix loop ends, at the least free suffix |
| NameResolvers.ResolveKeepsConsistent | cmd/s3NameResolver.go:165-168 | every resolution keeps clean names mapped to themselves and taken names owned by one bucket each |
| NameResolvers.ResolveKeepsDistinctIff | cmd/s3NameResolver.go:85-99 | one call keeps buckets apart exactly when its name is not a clean one already handed out |
| NameResolvers.RunDistinctIff | cmd/s3NameResolver.go:63-99 | over any run of calls buckets end up apart exactly when no call clashed |
| NameResolvers.ConstructionIsInjective | cmd/s3NameResolver.go:63-82 | after construction from any list distinct buckets have distinct containers, clean names are their own, and asking again changes nothing |
| NameResolvers.OnDemandDistinctIff | cmd/s3NameResolver.go:63-99 | later on-demand calls never change a listed answer, and keep buckets apart exactly when none clashes |
| NameResolvers.OnDemandCanClash | cmd/s3NameResolver.go:64-65 | a.b listed and a-b asked for later share a container |
| NameResolvers.ResolvedNamesAreValid | cmd/s3NameResolver.go:30-47 | whatever is listed and asked for, a legal bucket's container name is legal |
| NameResolvers.ContainerNameMeans | cmd/s3NameResolver.go:30-35 | what legal means there: 3 to 63 lower-case letters, digits and hyphens, none at the ends and no two in a row |
| NameResolvers.RunIsAnswered | cmd/s3NameResolver.go:120-153 | a resolver answers a name with a run of k hyphens with the number k between hyphens, or fails beyond 63 characters |
| NameResolvers.PeriodsAreAnswered | cmd/gcpNameResolver.go:84-91 | a resolver answers a name with lone periods or, for GCP, underscores with hyphens in their places |
| NameResolvers.CollisionIsNumbered | cmd/s3NameResolver.go:186-208 | a name in use is answered with a hyphen and the least free number from 2 on, at most 63 characters long |
| NameResolvers.DocumentedRun | cmd/s3NameResolver.go:120-121 | bucket--name becomes bucket-2-name with either provider |
| NameResolvers.DocumentedPeriods | cmd/s3NameResolver.go:42-43 | bucket.with.period becomes bucket-with-period |
| NameResolvers.DocumentedCollision | cmd/s3NameResolver.go:46-47 | bucket.name listed with bucket-name becomes bucket-name-2 |
| PartDispatcher.Dispatcher.AddTransfer | cmd/copyEnumeratorHelper.go:17-56 | the trimmed transfer is held exactly once, unless a full part was refused, when nothing changes but the buffer's order |
| PartDispatcher.Dispatcher.ShuffleTransfers | cmd/copyEnumeratorHelper.go:61-63 | shuffling permutes the buffer |
| PartDispatcher.Dispatcher.SendFullPart | cmd/copyEnumeratorHelper.go:25-40 | a full part is sent under the next number and a new one started; the first starts the wait |
| PartDispatcher.Dispatcher.Append | cmd/copyEnumeratorHelper.go:44-53 | the wrapping counters stay the folds of the list |
| PartDispatcher.Dispatcher.DispatchFinalPart | cmd/copyEnumeratorHelper.go:67-100 | everything held is sent with the final part, which is not empty if anything was; the outcomes of a refusal |
| PartDispatcher.FoldsOfPermutation | cmd/copyEnumeratorHelper.go:44-63 | the counters do not depend on the order the shuffle leaves |
| PartDispatcher.FileCountIsNumberOfFiles | cmd/copyEnumeratorHelper.go:44-53 | the file fold is the number of files in the list |
| PartDispatcher.TotalSizeIsSum | cmd/copyEnumeratorHelper.go:44-53 | the size fold is the sum of the sizes |
| PartDispatcher.SentIsRelative | cmd/copyEnumeratorHelper.go:18-20 | a source is what follows the source root and a destination what follows the destination root, a name without its root is kept, and nothing else of a transfer changes |
| PartDispatcher.Run | cmd/copyEnumeratorHelper.go:17-100 | with every part accepted the parts hold a permutation of the transfers added, each with the names that follow its own root, are numbered from 0, are full but for the last, carry fitting counters, and progress is awaited once |
| PathEscape.TablesAreInverse | cmd/copyEnumeratorInit.go:550-572 | the two tables are inverse to each other |
| PathEscape.EscapesAreHex | cmd/copyEnumeratorInit.go:550-560 | the table has the nine characters Windows forbids, each with its code in upper-case hexadecimal |
| PathEscape.EncodePass | cmd/copyEnumeratorInit.go:588-592 | one ReplaceAll pass escapes one more character of a partly encoded text |
| PathEscape.DecodePass | cmd/copyEnumeratorInit.go:597-601 | one ReplaceAll pass replaces one more escape of a partly decoded text |
| PathEscape.EncodeParts | cmd/copyEnumeratorInit.go:588-592 | the encoding passes in any table order equal a single pass over each part |
| PathEscape.DecodeParts | cmd/copyEnumeratorInit.go:597-601 | the decoding passes in any table order equal a single pass over each part |
| PathEscape.PathEncodeRules | cmd/copyEnumeratorInit.go:574-612 | the path of a route, part by part and in place, with URL escaping of remote paths last |
| PathEscape.DecodeOfEncode | cmd/copyEnumeratorInit.go:550-601 | encoding any of the nine characters is invisible to the decoder |
| PathEscape.RoundTripIff | cmd/copyEnumeratorInit.go:550-601 | decoding undoes encoding exactly on texts that contain no escape |
| PathEscape.SplitOfEncode | cmd/copyEnumeratorInit.go:582-592 | encoding part by part is encoding the whole path but for its separators |
| PathEscape.JoinOfDecode | cmd/copyEnumeratorInit.go:597-610 | decoding part by part is decoding the whole path |
| PathEscape.PathRoundTripIff | cmd/copyEnumeratorInit.go:574-612 | the way there and back is the identity exactly on paths without an escape |
| PathEscape.RoundTripCanFail | cmd/copyEnumeratorInit.go:574-612 | a path that is the text of an escape comes back as the character escaped |
| PathEscape.UploadRestoresNameIff | cmd/copyEnumeratorInit.go:584-610 | uploading a downloaded file, URL escape included, spells the remote name as the original path would be spelled exactly when that path contains no escape |
| PathEscape.SourcePath | cmd/copyEnumeratorInit.go:574-612 | the source side changes nothing but the URL spelling at Blob, BlobFS, Files, S3 and GCP |
| PathEscape.OrdinaryDestinationPath | cmd/copyEnumeratorInit.go:574-612 | so does the destination side of a route with neither a Windows disk nor Files, or with decoding disabled |
| PathEscape.WindowsPathIsLegal | cmd/copyEnumeratorInit.go:584-592 | a path on a Windows disk has none of the characters Windows forbids but its separators |
| PathEscape.FilesPathIsLegal | cmd/copyEnumeratorInit.go:584-608 | before the URL escape no part of a path at Azure Files has any of the nine characters |
| PathEscape.WindowsRoundTripIff | cmd/copyEnumeratorInit.go:574-612 | downloading to a Windows disk and uploading to Blob, BlobFS, S3 or GCP restores the remote name exactly when it has no escape |
| PathEscape.FilesRoundTripIff | cmd/copyEnumeratorInit.go:574-612 | copying to Azure Files and downloading from there restores the path exactly when it has no escape |
| TokenRefresh.Next | azbfs/zc_credential_token.go:87-115 | every step keeps the timer field on the last timer created |
| TokenRefresh.ChainsOfNext | azbfs/zc_credential_token.go:87-115 | only startRefresh adds a refresh that is armed or under way |
| TokenRefresh.ChainsBoundedByStarts | azbfs/zc_credential_token.go:87-115 | in every interleaving there are never more refreshes than starts |
| TokenRefresh.NothingArmedAfterStop | azbfs/zc_credential_token.go:105-115 | after stopRefresh no timer is created until another start |
| TokenRefresh.OneStartThenStop | azbfs/zc_credential_token.go:85-115 | from one start at most one refresh is armed or in flight, and after stopRefresh none is ever armed |
| TokenRefresh.StartGoesOn | azbfs/zc_credential_token.go:85-103 | from any start until a stop the refreshing never lapses: one refresh more is armed or in flight at every moment |
| TokenRefresh.RestartIsSingleIff | azbfs/zc_credential_token.go:87-115 | over any interleaving with any number of starts and stops, at most one refresh is ever armed or in flight exactly when every start comes after the callback before it ended stopped or its waiting timer was stopped |
| TokenRefresh.RestartsThenStop | azbfs/zc_credential_token.go:87-115 | after any such run a stop leaves no timer armed, for good |
| TokenRefresh.RestartCanDouble | azbfs/zc_credential_token.go:89-90 | start, timer fires, stop, start with that callback still running ends with two timers |
| RetryPolicy.DefaultsAreUsable | azbfs/zc_policy_retry.go:64-103 | options that do not panic come out with a try and positive ordered delays |
| RetryPolicy.DefaultsOfNothing | azbfs/zc_policy_retry.go:86-103 | the values filled in when nothing is set, for either policy |
| RetryPolicy.DefaultsKeepIff | azbfs/zc_policy_retry.go:64-103 | options are kept exactly when all are set and ordered, and refused exactly when negative, unordered or half set; filling in twice changes nothing |
| RetryPolicy.PowLoop | azbfs/zc_policy_retry.go:106-112 | the power loop computes the wrapped power |
| RetryPolicy.BackoffWraps | azbfs/zc_policy_retry.go:106-118 | wrapping at every multiplication gives the documented (2^(try-1) - 1) * RetryDelay wrapped once |
| RetryPolicy.ProductOfTries | azbfs/zc_policy_retry.go:115-124 | the back-off is 0, 1, 3, 7, ... times the delay, or 0 once and then the delay |
| RetryPolicy.JitterRange | azbfs/zc_policy_retry.go:126-128 | the jitter can be any number from 0.8 up to 1.3 and is within 0.79 and 1.31 |
| RetryPolicy.DelayIsJitteredProduct | azbfs/zc_policy_retry.go:126-132 | a delay with room is the product times the jitter without its fraction, or the maximum exactly when that is not larger |
| RetryPolicy.DelaysOfExample | azbfs/zc_policy_retry.go:105-132 | with 1 second, at most 60 and no jitter the third try waits 3 seconds and the seventh 60 |
| RetryPolicy.DelayInBoundsIff | azbfs/zc_policy_retry.go:105-132 | whatever the jitter and the conversion, a try's delay is between 0 and the maximum exactly when the wrapped product leaves room for the jitter |
| RetryPolicy.LastTryDecides | azbfs/zc_policy_retry.go:105-132 | for retry delays up to 73 years every try of a run is in bounds exactly when the last one's unwrapped product leaves that room |
| RetryPolicy.DefaultDelaysFitIff | azbfs/zc_policy_retry.go:89-132 | with the default exponential delays a run is in bounds exactly up to 31 tries |
| RetryPolicy.LateTriesDoNotWait | azbfs/zc_policy_retry.go:105-132 | from the 65th try every exponential delay that fits an int64 is negative |
| RetryPolicy.CounterEndsIff | azbfs/zc_policy_retry.go:185 | the int32 loop counter passes MaxTries some time exactly when that is not the largest int32 |
| RetryPolicy.EndsIff | azbfs/zc_policy_retry.go:185-293 | the precondition of the try loop is exactly that some try is not reached or not passed |
| RetryPolicy.TryLoop | azbfs/zc_policy_retry.go:185-293 | for all options at which the loop ends: at most MaxTries calls unless that is the largest int32, going on exactly after retryable outcomes, every retried response closed, the first delay zero, delays and total bounded above; and below when every try fits |
| RetryPolicy.RetriedOutcomes | azbfs/zc_policy_retry.go:253-276 | by kind of outcome: exactly temporary errors and early ends in a live context are retried, and their responses closed |
| Benchmark.FromUrl | cmd/benchmark.go:258-289 | overwriting the pieces in place parses the three parameters or reports an error |
| Benchmark.UrlRoundTrip | cmd/benchmark.go:254-289 | every parameter triple survives its URL form |
| Benchmark.UrlOfExample | cmd/benchmark.go:254-256 | the exact URL of one benchmark |
| Benchmark.ToReversedString | cmd/zc_traverser_benchmark.go:52-62 | the index-filling loop reverses the decimal |
| Benchmark.PathOfInjective | cmd/zc_traverser_benchmark.go:69-77 | different files have different paths, with folders or without |
| Benchmark.PathText | cmd/zc_traverser_benchmark.go:69-77 | a path is the decimal of the file backwards, after that of its folder backwards and a separator if there are folders |
| Benchmark.CounterEndsIff | cmd/zc_traverser_benchmark.go:69 | the uint loop counter passes the file count some time exactly when that is not the largest uint |
| Benchmark.Traverse | cmd/zc_traverser_benchmark.go:64-101 | exactly fileCount objects with pairwise distinct paths are emitted |

## Left out

- SyncEngine.SyncDestinationComparator.ProcessIfNecessary: models the case-insensitive branch, which removes the unfolded key, but no run uses it, because the flag is only set when the destination is indexed.
- RetryPolicy.DelayInBoundsIff: float32 rounding is modelled as a jitter whose range is wider by 2^-22 on both sides, which covers it; the float32 values that fall at the edges of that range are not told apart.
- RetryPolicy.TryLoop: requires that the loop ends (`RetryPolicy.EndsIff`); does not model the secondary host, which is always the empty string, nor request copies, the timeout parameter and per-try contexts.
- Benchmark.Traverse: requires a file count below the largest uint, because at that value the loop never ends (`Benchmark.CounterEndsIff`).
- NameResolvers.NameResolver.ResolveName: requires a name that is not empty and does not panic, because the code recurses for ever on the one and panics on the others.
- RetryReaders.RetryReader.Read: does not model the test-only error injection, which the arbitrary faults cover, nor a resource that changes between requests.
- Errors of the copy scheduler in sync: it succeeds. A deleter's error ends nothing: the destination comparator ignores it, and `getProcessingError` returns its nil result rather than the error passed in.
- Filters that do not support the operating system: the program ends there.
- `copyTransferProcessor` of sync buffers and dispatches parts as `addTransfer` does, without shuffling; only the folder filter is modelled. `quitIfInSync` and progress reports are user interface.
- Concrete traversers, the transfer engine, HTTP pipelines, credential lookup, command-line handling and generated REST code.
- `url.PathEscape` is an arbitrary function; Unicode, URL parsing and logging are library behaviour.
- The bucket rules on IP addresses and on "google" are not needed by any proof.
