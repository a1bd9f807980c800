# Verified model of tg-bridge

tg-bridge connects one Telegram account to small devices over HTTPS and WebSocket. This project models the parts of
it that hold state and proves what they promise.

- **Media cache** (`LruPolicy`, `LruStack`, `MediaNames`, `LruList`, `MediaDirectory`, `MediaCache`, `MediaFetch`,
  `MediaProtocol`): an LRU disk cache. The class `MediaCache` has the real structures, a map of list nodes, a doubly
  linked ring, a byte total and a directory, and is proved to follow the list functions of `LruPolicy`. `LruStack`
  proves stack inclusion for that policy. `MediaProtocol` runs any number of calls step by step, over any number of
  crashes and restarts.
- **Rate limiter** (`TokenBucket`, `RateLimiter`): token buckets over reals, optimality of the greedy decision, and
  runs of the bounded map: window bounds that count evictions, and independence of the IPs between evictions.
- **Login** (`LoginProtocol`, `Login`): the login as a transition system with one-slot mailboxes, and the nested retry
  loops of the code proved to stay inside it.
- **Media ids** (`Base64Url`, `MediaId`): base64url (sections 3.2 and 5 of RFC 4648), the length-prefixed payload and
  the truncated tag (section 5 of RFC 2104), with exact acceptance conditions.
- **Events** (`BrokerProtocol`, `Broker`, `MediaSummary`, `Delivery`, `FanOut`): bounded lossy fan-out under interleaving, the filtered
  path from an update to a client, and what each client is written in every interleaving.
- **Peers** (`PeerIds`, `Text`, `ChatIndex`): the chat-id convention, the hash join of the dialog list against a plain
  scan, the previews in it, and the cache of input peers.

What the proofs found about the code:

- Two files with one stem leave the start-up map of the cache inconsistent; `MediaCache.constructor` says exactly when,
  and `OpenOnSameStem` opens such a directory.
- A Put that replaces an entry under another mime type leaves the old file behind (`ReplacingPutOrphans`); FetchMedia
  cannot cause it, since it only puts after a miss. `PutOtherMime` is such a Put.
- A cached file larger than the whole budget survives while the service runs and is dropped at the next start
  (`CleanRestart` has the exact condition, `OversizedFileIsLost` a run that ends there).
- The comment on the Submit functions says they return false when no prompt is waiting. The code returns false only
  when the slot is full and keeps an early value for a later prompt (`RefusedExactlyWhenFull`, `EarlyCodeIsAccepted`).
- The error of a rejected phone, code or password is published and then cleared at once by the next prompt, so a
  blocked prompt never shows it (`WrongValueAsksAgain`, `BlockedPromptIsPublished`).
- A media ref with a file reference of 65536 bytes or more gets an id that cannot be decoded back, and may denote
  another ref (`MediaIdRoundTrip`, `OversizedRefIsMisread`).
- A group and a channel with one raw id share one index slot: the one that comes first in the response loses its title
  and its cached peer (`SharedIdHidesGroup`, `SharedIdHidesChannel`; `JoinIsScan` says exactly when a row differs). A
  group id above 10^12 has the chat id of a channel (`LargeGroupCollides`).
- The README of tg-bridge says that auth endpoints are limited to 10 requests a minute per IP. With a burst of 5, 60
  seconds in which the bucket of the IP is not evicted let through up to 15, and that many are reached; each eviction
  in between hands out 5 more (`AuthMinuteBound`, `AuthMinuteBoundReached`).
- Evicting an arbitrary bucket can hit a drained one, whose IP then gets a new burst at the same instant
  (`EvictionReadmits`, `EvictionGivesAnotherBurst`). The plain bound holds exactly up to 10001 distinct IPs
  (`PlainBoundExactly`).
- Id strings are not unique: the decoder skips newlines and ignores surplus bits (`SecondId`; `DecodesAlike` and
  `SpellingsOfId` say exactly which strings are alike).
- A larger budget can lose a key that a smaller one keeps, when a download fails in the smaller cache alone
  (`FailureBreaksInclusion`, `InclusionWithFailures`).
- The preview of a message is cut by bytes and may end in half a character (`PreviewCutsLetter`; `PreviewWellFormed` says
  exactly when), and its ellipsis makes it up to two bytes longer than the limit (`TruncateIsShort`).
- The byte count of a progressive picture without sizes is that of the picture chosen before it (`StaleBytes`,
  `BytesAreOwn`).

Assumptions: SHA-256 and HMAC-SHA256 are arbitrary functions with 32-byte results, and different media ids in use have
different cache keys (`CacheKeyInjective` says what that means). In `MediaProtocol` at most one call per key is in
flight, renames are atomic, removals succeed, every file in the directory is readable, and the first start finds
distinct stems. Clock readings do not decrease. Replies of Telegram, the outcome of file operations, the choice of a map
element and the order of a directory listing are arbitrary.

## Model

| member | source | states |
|---|---|---|
| `LruPolicy.EvictDownIsLongestFit` | internal/bridge/mediacache.go:138-155 | what an eviction loop leaves is the longest prefix of the list that fits the budget or is down to the floor: every longer prefix is over budget, so exactly the shortest tail goes; also for a negative budget |
| `LruPolicy.TouchReorders` | internal/bridge/mediacache.go:85-91 | a hit moves the entry to the front and otherwise keeps all entries, their number and their total size |
| `LruPolicy.TouchExactly` | internal/bridge/mediacache.go:85-91 | a hit takes the first entry of the key to the front, and the others keep their order |
| `LruPolicy.InsertKeepsInvariant` | internal/bridge/mediacache.go:128-141 | the new entry is never evicted, the others kept are the most recent ones in order, keys stay distinct, and the total is within budget or one entry is left |
| `LruPolicy.ReachableInsert` | internal/bridge/mediacache.go:128-141 | fresh or replacing, the locked section keeps distinct keys and total <= maxBytes or one entry |
| `LruPolicy.AccessKeepsInvariant` | internal/bridge/mediacache.go:72-156 | each hit or successful miss keeps distinct keys and the budget, and the key is cached afterwards |
| `LruStack.RecencyIsByLatestAccess` | internal/bridge/mediacache.go:80-142 | the recency list is ordered by the index of the latest access, without repetition; keys never accessed come last |
| `LruStack.RecencyMembers` | internal/bridge/mediacache.go:80-142 | the recency list has exactly the keys of the directory and the accessed keys |
| `LruStack.AccessKeepsPrefix` | internal/bridge/mediacache.go:80-142 | after one access the cached keys are again a prefix of the recency order |
| `LruStack.RunCachesPrefix` | internal/bridge/media.go:210-238 | after any run of accesses on any starting directory the cached keys are a prefix of the recency order |
| `LruStack.RunFollowsRecency` | internal/bridge/media.go:210-238 | the prefix property for accesses of any sizes, from any list with distinct keys |
| `LruStack.LargerCachesMore` | internal/bridge/mediacache.go:72-156 | on the same directory and accesses a larger maxBytes never holds fewer entries |
| `LruStack.StackInclusion` | internal/bridge/mediacache.go:72-156 | stack inclusion: the keys under the smaller maxBytes are a prefix of those under the larger, at every moment |
| `LruStack.LargerBudgetNeverHurts` | internal/bridge/media.go:210-238 | a larger maxBytes never lowers the number of hits of a run |
| `LruStack.TryRunIsRun` | internal/bridge/media.go:210-238 | a run with failed downloads ends like the run of the accesses that hit or whose download succeeds |
| `LruStack.InclusionWithFailures` | internal/bridge/media.go:210-238 | stack inclusion with failed downloads, as long as no access fails in the smaller cache that hits in the larger one |
| `LruStack.FailureBreaksInclusion` | internal/bridge/media.go:210-238 | a directory and two accesses, the first failing in the smaller cache alone, after which the smaller cache has a key that the larger one has lost |
| `MediaNames.CacheKeyInjective` | internal/bridge/mediacache.go:158-161 | two media ids share a cache key exactly when the first 10 digest bytes agree |
| `MediaNames.CacheKeyExactly` | internal/bridge/mediacache.go:158-161 | the key is the first ten digest bytes in lower-case hexadecimal, high digit first |
| `MediaNames.StemOfOwnName` | internal/bridge/mediacache.go:60-61 | the start-up scan splits key+extension back into key and extension, and never takes a final file for a temp file |
| `MediaNames.ExtExactly` | internal/bridge/mediacache.go:60-61 | the extension is what follows the last dot, with it, and stem and extension make up the name |
| `MediaNames.IsTempExactly` | internal/bridge/mediacache.go:52-55 | temporary are exactly the names that end in .tmp |
| `MediaNames.MimeRoundTrip` | internal/bridge/mediacache.go:163-189 | a mime type survives being stored as an extension if and only if it is one of five |
| `MediaNames.TypesExactly` | internal/bridge/mediacache.go:163-189 | the extension of each mime type and the mime type of each extension, by name, whatever the case of the letters |
| `LruList.Unlink` | internal/bridge/mediacache.go:132-150 | taking out a node leaves a well-formed ring of the other nodes |
| `LruList.LinkAfter` | internal/bridge/mediacache.go:134 | putting a node in leaves a well-formed ring with the node second |
| `LruList.List.PushFront` | internal/bridge/mediacache.go:134 | the list of nodes grows at the front by a fresh node; the ring stays well formed |
| `LruList.List.Back` | internal/bridge/mediacache.go:146-149 | the last node, nil exactly on the empty list |
| `LruList.List.Remove` | internal/bridge/mediacache.go:131-150 | the node goes, the others keep their order; the ring stays well formed |
| `LruList.List.MoveToFront` | internal/bridge/mediacache.go:89 | the node is first, the others keep their order; the ring stays well formed |
| `MediaDirectory.AdoptedOnDisk` | internal/bridge/mediacache.go:47-71 | each adopted entry has its own file of the recorded size, named after its key, and none is a temp file |
| `MediaDirectory.AdoptedExactly` | internal/bridge/mediacache.go:47-71 | adopted are exactly the readable files that are not temporary, each with its stem, size and the type of its extension |
| `MediaDirectory.AdoptedOrder` | internal/bridge/mediacache.go:47-71 | a file that the directory lists later is nearer to the front |
| `MediaDirectory.StaleExactly` | internal/bridge/mediacache.go:49-55 | removed are exactly the files, not directories, with temporary names |
| `MediaDirectory.OnDiskReplace` | internal/bridge/mediacache.go:121-136 | writing the file of one key leaves the files of the other keys intact |
| `MediaCache.MediaCache.constructor` | internal/bridge/mediacache.go:33-78 | list, total and files agree after opening any directory, temp files are gone, exactly the shortest tail is evicted; the map is consistent if and only if no kept stem occurs twice among the adopted files |
| `MediaCache.MediaCache.Scan` | internal/bridge/mediacache.go:47-71 | the list is the adopted files in reverse directory order; temp files are removed, directories and unreadable files skipped |
| `MediaCache.MediaCache.ShrinkToBudget` | internal/bridge/mediacache.go:72-76 | the start-up eviction loop ends with the longest fitting prefix, empty if need be |
| `MediaCache.MediaCache.Get` | internal/bridge/mediacache.go:81-92 | a hit returns the file and mime of the entry and moves it to the front; a miss changes nothing; list, map, total and files keep agreeing |
| `MediaCache.MediaCache.Put` | internal/bridge/mediacache.go:96-142 | a failure leaves list and map alone and no temp file; a success installs the complete content under its final name, puts the entry first and removes exactly the files of the evicted entries; list, map, total, files and budget keep agreeing |
| `MediaCache.MediaCache.Install` | internal/bridge/mediacache.go:126-141 | the locked section, from a state where the rename has happened: replaces, registers and evicts, and all structures agree again |
| `MediaCache.MediaCache.EvictLocked` | internal/bridge/mediacache.go:145-156 | the last entry leaves list, map, total and directory; false exactly on an empty list |
| `MediaCache.MediaCache.Register` | internal/bridge/mediacache.go:68-70 | the entry is first in the list, mapped to its node and counted |
| `MediaCache.MediaCache.Unregister` | internal/bridge/mediacache.go:128-132 | the node of the key leaves list and total |
| `MediaCache.MediaCache.EvictOthers` | internal/bridge/mediacache.go:138-140 | the eviction loop of Put terminates, keeps the front entry and the agreement of map and list |
| `MediaCache.MediaCache.Download` | internal/bridge/mediacache.go:103-124 | the temp file never outlives the call, the final file appears only complete |
| `MediaCache.IndexedMapAgrees` | internal/bridge/mediacache.go:58-76 | after the scan, map and list agree if and only if the kept stems are unique |
| `MediaCache.MovedToFront` | internal/bridge/mediacache.go:85-91 | moving a node keeps map, files and budget in agreement with the list |
| `MediaCache.ReplacedMapAgrees` | internal/bridge/mediacache.go:128-135 | removing a node and mapping its key anew gives an agreeing map |
| `MediaCache.RenamedOnDisk` | internal/bridge/mediacache.go:116-127 | after the rename and before the lock, all other entries still match their files and the new one does too |
| `MediaCache.ReplacingPutOrphans` | internal/bridge/mediacache.go:128-135 | a replaced entry leaves its old file behind, owned by nobody, if and only if the file names differ |
| `MediaCache.PutOtherMime` | internal/bridge/mediacache.go:96-142 | opened on a directory with the JPEG of an id, a Put of that id as a PNG gives a valid cache with only the PNG and leaves the JPEG behind |
| `MediaCache.SameStemNotUnique` | internal/bridge/mediacache.go:58-71 | on a directory with a.jpg and a.png the kept stems are not unique |
| `MediaCache.OpenOnSameStem` | internal/bridge/mediacache.go:58-71 | so the cache opened on it starts with a map that disagrees with its list |
| `MediaFetch.FetchMedia` | internal/bridge/media.go:210-238 | a successful fetch is exactly one access of the policy, its entry is first and is what is returned; a miss succeeds for a signed photo id, when ready, with a complete download, and only then; a failed fetch leaves the list alone, and its error says which step failed |
| `MediaProtocol.FinalOwner` | internal/bridge/mediacache.go:121-136 | a final file belongs to an entry or to a call between rename and lock, and its stem is the owner's key |
| `MediaProtocol.OwnFiles` | internal/bridge/mediacache.go:100-124 | a call in flight has no final file before its rename and no temp file before its open |
| `MediaProtocol.EvictionOnDisk` | internal/bridge/mediacache.go:138-155 | eviction removes the files of exactly the entries it drops |
| `MediaProtocol.CommitInv` | internal/bridge/mediacache.go:126-141 | the locked section of any call keeps entries, files and all other calls in flight consistent |
| `MediaProtocol.RenameInv` | internal/bridge/mediacache.go:121-124 | the atomic rename keeps everything consistent |
| `MediaProtocol.FailInv` | internal/bridge/mediacache.go:107-124 | a call that fails at any point leaves no file behind |
| `MediaProtocol.HitInv` | internal/bridge/mediacache.go:81-92 | a hit between any two steps of other calls keeps everything consistent |
| `MediaProtocol.StepInv` | internal/bridge/mediacache.go:81-156 | every step of every interleaving, crash and restart included, keeps the invariant |
| `MediaProtocol.StartInv` | internal/bridge/mediacache.go:33-78 | opening a directory with distinct stems establishes the invariant |
| `MediaProtocol.RunInv` | internal/bridge/mediacache.go:81-156 | the invariant holds in every state of every run |
| `MediaProtocol.HistoryInv` | internal/bridge/mediacache.go:43-156 | the invariant holds in every state of every sequence of lives of the process, whatever was left of the directory at each crash and whatever the budget of each start |
| `MediaProtocol.DiskAgreement` | internal/bridge/mediacache.go:96-156 | in every such state each entry has a complete file of its size, and each final file without an entry belongs to exactly one call, renamed and not committed, whose download it holds |
| `MediaProtocol.CrashRecovery` | internal/bridge/mediacache.go:43-77 | restarting after any run on any part of its files, as a crash between two removals leaves them, and under any new budget: no temp file is left, only complete downloads are adopted, the stems are unique and the state is consistent |
| `MediaProtocol.RestartInv` | internal/bridge/mediacache.go:43-77 | a restart from any consistent state gives a consistent state in which every file is listed, complete and not temporary |
| `MediaProtocol.RestartStemsUnique` | internal/bridge/mediacache.go:58-70 | at every restart the stems are distinct, so the start-up map is exact |
| `MediaProtocol.FinalFilesApart` | internal/bridge/mediacache.go:96-101 | two final files never share a stem in any consistent state |
| `MediaProtocol.CleanRestart` | internal/bridge/mediacache.go:43-77 | with no call in flight and storable mime types a restart rebuilds exactly the same entries if and only if they are within maxBytes, or none |
| `MediaProtocol.OversizedFileIsLost` | internal/bridge/mediacache.go:72-76 | for every download larger than the budget, a run from an empty directory that ends with this one entry, nothing in flight, and loses it at every restart |
| `MediaProtocol.PutIsItsSteps` | internal/bridge/mediacache.go:96-142 | the steps of one undisturbed successful call form a run that ends with exactly the list and the files that MediaCache.Put promises |
| `MediaProtocol.HitExactly` | internal/bridge/mediacache.go:85-91 | a hit puts the entry first, leaves the others in their order and changes nothing else |
| `MediaProtocol.MissExactly` | internal/bridge/media.go:214-232 | a call can start exactly for a key neither cached nor in flight |
| `MediaProtocol.WriteExactly` | internal/bridge/mediacache.go:110 | a download may reach the temp file in any pieces |
| `MediaProtocol.FailExactly` | internal/bridge/mediacache.go:107-124 | a call can fail at any point before its rename, and then its temp file is gone and everything else is as before |
| `MediaProtocol.RestartExactly` | internal/bridge/mediacache.go:43-77 | the process can crash at any point, and what it opens then is what `MediaCache.constructor` opens |
| `MediaProtocol.InterleavedRun` | internal/bridge/mediacache.go:81-142 | calls take effect at their locked sections: in every state of a run without restart the list is that of the accesses so far one after the other, and its keys are a prefix of the order by latest access |
| `TokenBucket.TokensBounded` | internal/httpapi/ratelimit.go:50-59 | tokens stay within [0, burst] after every request |
| `TokenBucket.WindowWithRest` | internal/httpapi/ratelimit.go:50-60 | requests let through in a window plus the tokens left never exceed burst + rate * length |
| `TokenBucket.WindowBound` | internal/httpapi/ratelimit.go:50-60 | one bucket that is kept: any time span T lets through at most burst + rate * T requests; `RateLimiter.RunWindowBound` is the bound of the whole limiter |
| `TokenBucket.SpacedRequestAdmitted` | internal/httpapi/ratelimit.go:47-60 | with burst >= 1 the first request and any request 1/rate seconds after the previous one are let through |
| `TokenBucket.LevelIsWindow` | internal/httpapi/ratelimit.go:50-54 | the level of a bucket is what the window since it was last full still allows |
| `TokenBucket.GreedyDominates` | internal/httpapi/ratelimit.go:33-61 | the bucket is ahead of every feasible selection by at least what it is short of tokens |
| `TokenBucket.GreedyOptimal` | internal/httpapi/ratelimit.go:33-61 | for every prefix the bucket lets through at least as many requests as any selection within the window bounds |
| `TokenBucket.GreedyIsLargestFeasible` | internal/httpapi/ratelimit.go:33-61 | the decisions of the bucket are themselves within the window bounds, so they are a largest feasible selection |
| `RateLimiter.BucketCell.Spend` | internal/httpapi/ratelimit.go:50-60 | refill capped at the burst, one token taken exactly when there is one |
| `RateLimiter.RateLimiter.Obtain` | internal/httpapi/ratelimit.go:37-49 | the bucket of the IP, new ones full; only a map of more than 10000 buckets loses one, and only for a new IP |
| `RateLimiter.RateLimiter.Allow` | internal/httpapi/ratelimit.go:33-61 | decision and new map are one step of the limiter for some victim; no other bucket changes and no two IPs share one |
| `RateLimiter.MapBounded` | internal/httpapi/ratelimit.go:41-48 | the map never exceeds 10001 buckets and only holds IPs that were seen |
| `RateLimiter.PrivateBucket` | internal/httpapi/ratelimit.go:37-60 | from any moment at which an IP has no bucket until its next eviction, its bucket is the private bucket fed only its requests since that moment |
| `RateLimiter.PrivateDecision` | internal/httpapi/ratelimit.go:37-60 | and the decisions are those of that private bucket |
| `RateLimiter.DecisionSinceEviction` | internal/httpapi/ratelimit.go:33-61 | in every run, without any condition, each decision is the one of a private bucket fed only the requests of its IP since its bucket was last evicted, or since the start |
| `RateLimiter.NoEvictions` | internal/httpapi/ratelimit.go:41-46 | with at most 10001 distinct IPs no bucket is ever evicted |
| `RateLimiter.IndependentBuckets` | internal/httpapi/ratelimit.go:33-61 | with at most 10001 distinct IPs every decision depends only on the requests of its own IP, whatever the interleaving |
| `RateLimiter.RunWindowWithRest` | internal/httpapi/ratelimit.go:33-61 | for any run, IP and window: requests let through plus what the IP could still spend at the end stay within one burst, one more per eviction of its bucket in the window, and rate * length |
| `RateLimiter.RunWindowBound` | internal/httpapi/ratelimit.go:33-61 | window bound of the limiter: at most burst * (1 + evictions of the IP in the window) + rate * length, for every run, IP and window |
| `RateLimiter.KeptWindowBound` | internal/httpapi/ratelimit.go:33-61 | an IP not evicted within the window gets at most burst + rate * length |
| `RateLimiter.FewIpsWindowBound` | internal/httpapi/ratelimit.go:33-61 | with at most 10001 distinct IPs in the run the plain bound burst + rate * length holds for every IP and window |
| `RateLimiter.PlainBoundExactly` | internal/httpapi/server.go:29 | for every n: the plain bound of the auth endpoints holds in all runs of at most n distinct IPs if and only if n <= 10001 |
| `RateLimiter.LetThroughIsAdmitted` | internal/httpapi/ratelimit.go:33-61 | what an IP gets from the limiter while its bucket is kept is what its private bucket admits |
| `RateLimiter.KeptIsOptimal` | internal/httpapi/ratelimit.go:33-61 | while the bucket of an IP is kept, no selection of its requests within the window bounds has more requests than the limiter lets through, whatever the other IPs do |
| `RateLimiter.RunSpacedRequest` | internal/httpapi/ratelimit.go:33-61 | in any run, with burst >= 1, a request at least 1/rate seconds after all earlier ones of its IP is let through |
| `RateLimiter.AuthMinuteBound` | internal/httpapi/server.go:29 | any 60 seconds let through at most 15 requests of one IP to the auth endpoints, and 5 more for each eviction of its bucket within them |
| `RateLimiter.AuthMinuteBoundReached` | internal/httpapi/server.go:29 | a run without evictions reaches the 15, so the documented 10 per minute is not a bound |
| `RateLimiter.EvictionReadmits` | internal/httpapi/ratelimit.go:41-48 | an IP with a drained bucket is refused, but let through at the same moment once a new IP has evicted its bucket |
| `RateLimiter.EvictionGivesAnotherBurst` | internal/httpapi/ratelimit.go:41-48 | a run from the empty map in which, at one instant, six requests of one IP are let through where its burst is five |
| `LoginProtocol.StepInv` | internal/bridge/auth.go:133-218 | every step of every interleaving keeps the log rules, the mailboxes and the published status consistent |
| `LoginProtocol.AfterSendCodeOk` | internal/bridge/auth.go:150-164 | whatever SendCode replies, what is published and asked next obeys the rules of the log; which errors ask again is `SendCodeErrorsExactly` |
| `LoginProtocol.AfterSignInOk` | internal/bridge/auth.go:164-198 | the same for SignIn, across the inner retry loop and the outer one |
| `LoginProtocol.AfterPasswordOk` | internal/bridge/auth.go:207-216 | the same for the password check |
| `LoginProtocol.RunInv` | internal/bridge/auth.go:133-218 | the invariant holds in every state of every run |
| `LoginProtocol.AuthorizedIsJustified` | internal/bridge/bridge.go:145-149 | authorized is published only right after an authorized Status, a SignIn with phone and hash of the latest SendCode, or a Password after ErrPasswordAuthNeeded |
| `LoginProtocol.FailureIsJustified` | internal/bridge/bridge.go:145-148 | error is published only after an unrecoverable reply, with that reply, or after a cancelled prompt |
| `LoginProtocol.WrongValueAsksAgain` | internal/bridge/auth.go:130-132 | a recoverable error is published with the state that asks for that value, and then that prompt follows; it never ends the login; which errors these are say the next three rows |
| `LoginProtocol.SendCodeErrorsExactly` | internal/bridge/auth.go:17-29 | after an error of SendCode: nine errors, by name, publish need_phone with the error, any other publishes the failure |
| `LoginProtocol.SignInErrorsExactly` | internal/bridge/auth.go:164-198 | after an error of SignIn: PHONE_CODE_INVALID publishes need_code, the password error need_password, the nine need_phone, any other the failure |
| `LoginProtocol.PasswordErrorsExactly` | internal/bridge/auth.go:201-218 | after an error of the password check: only a wrong password asks again |
| `LoginProtocol.SignInUsesLatestCode` | internal/bridge/auth.go:180-188 | every SignIn uses the phone and code hash of the latest SendCode |
| `LoginProtocol.MistypedCodeKeepsHash` | internal/bridge/auth.go:192-196 | after PHONE_CODE_INVALID the next call is a SignIn with the same phone and hash, never a SendCode |
| `LoginProtocol.SendCodeFollowsRefusal` | internal/bridge/auth.go:144-175 | every SendCode but the first comes right after a call that was refused with a recoverable error |
| `LoginProtocol.MistypedCodeSendsNoCode` | internal/bridge/auth.go:144-199 | over a whole run: between a SignIn refused as PHONE_CODE_INVALID and any later SendCode some call was refused with a recoverable error |
| `LoginProtocol.PasswordPhaseIsFinal` | internal/bridge/auth.go:168-170 | once the password is asked for, no SendCode and no SignIn ever follows |
| `LoginProtocol.MailboxConserves` | internal/bridge/auth.go:81-120 | for each channel the accepted values are the consumed ones and at most one pending, and the consumed ones are those sent to Telegram and at most one in hand, in order |
| `LoginProtocol.BlockedPromptIsPublished` | internal/bridge/auth.go:92-120 | at every blocked prompt the slot is empty and the status is the matching need_* state without error |
| `LoginProtocol.RefusedExactlyWhenFull` | internal/bridge/auth.go:81-88 | a submission is refused, changing nothing, if and only if its slot is full |
| `LoginProtocol.AcceptedValueIsNext` | internal/bridge/auth.go:81-120 | over a whole run: an accepted value is the next one consumed from its channel, at once by a blocked prompt, and is what the slot holds until then |
| `LoginProtocol.EarlyCodeIsAccepted` | internal/bridge/auth.go:76-79 | a code submitted before any prompt is accepted, against the comment on Submit |
| `Login.HttpAuthenticator.SetState` | internal/bridge/auth.go:63-68 | publishing is the publication step of the protocol |
| `Login.HttpAuthenticator.TrySend` | internal/bridge/auth.go:81-88 | true exactly when the slot was empty; the state is that of the submission step |
| `Login.HttpAuthenticator.Ask` | internal/bridge/auth.go:92-120 | a prompt publishes, receives or is cancelled as the protocol does, and returns the value that the protocol consumes |
| `Login.HttpAuthenticator.SignInWithCodeRetry` | internal/bridge/auth.go:182-199 | the inner loop ends only signed in, refused for another reason than the code, or cancelled, in a reachable protocol state |
| `Login.HttpAuthenticator.PasswordLoop` | internal/bridge/auth.go:201-218 | the password loop ends only accepted, with an error that is not a wrong password, or cancelled, in a reachable protocol state |
| `Login.HttpAuthenticator.RunAuth` | internal/bridge/auth.go:133-178 | the nested loops stay within the reachable protocol states and end where the protocol says; it never fails with one of the nine phone errors, nor because SignIn said PHONE_CODE_INVALID |
| `Login.HttpAuthenticator.Run` | internal/bridge/bridge.go:145-149 | the final status is authorized without error or error with the failure, it is the last publication of a reachable log, and no failure is one of the nine phone errors |
| `Base64Url.RoundTrip` | internal/bridge/media.go:141-146 | decoding undoes unpadded base64url for all bytes, and the text has ceil(4n/3) characters |
| `Base64Url.AlphabetExactly` | internal/bridge/media.go:141 | the 64 characters in the order of the URL-safe alphabet, with - and _ last, and no others |
| `Base64Url.BlockIsBigEndian` | internal/bridge/media.go:141 | three bytes are four sextets with the same bits, most significant first, wherever the block stands |
| `Base64Url.LastBlock` | internal/bridge/media.go:141 | a short last block has its bits first and zeros behind them |
| `Base64Url.DecodesExactly` | internal/bridge/media.go:146-149 | exactly the strings that, newlines aside, are alphabet characters and not one too many decode |
| `Base64Url.SplitJoin` | internal/bridge/media.go:141-149 | encoding what sextets decode to gives the sextets back with the surplus bits of a short last block cleared |
| `Base64Url.DecodesAlike` | internal/bridge/media.go:145-149 | two decodable strings decode to the same bytes if and only if they differ in newlines and in surplus bits only |
| `Base64Url.CanonicalExactly` | internal/bridge/media.go:141-149 | a decodable string is the encoding of its bytes if and only if it has no newline and no surplus bit set |
| `Base64Url.DecodingIsLenient` | internal/bridge/media.go:146 | three strings for one byte: one with a surplus bit, one with a newline |
| `MediaId.Int64RoundTrip` | internal/bridge/media.go:168-170 | two's complement through eight big-endian bytes loses nothing |
| `MediaId.BigEndianByte` | internal/bridge/media.go:168-173 | byte i of a number has the weight of its place, most significant first |
| `MediaId.MarshalLayout` | internal/bridge/media.go:163-179 | where each field lies and which bytes it has, lengths truncated to two bytes and one byte |
| `MediaId.PrefixFree` | internal/bridge/media.go:164-206 | two in-bounds refs whose bytes start the same input are equal |
| `MediaId.UnmarshalMediaRef` | internal/bridge/media.go:181-206 | succeeds with r if and only if the input is the bytes of r and any rest, r in bounds; no index goes out of range |
| `MediaId.MarshalMediaRef` | internal/bridge/media.go:164-179 | the buffer built field by field has the layout of MarshalLayout |
| `MediaId.EncodeMediaID` | internal/bridge/media.go:133-142 | the id is the text of the payload and the first 16 bytes of the HMAC of exactly this payload |
| `MediaId.IdIsSigned` | internal/bridge/media.go:133-142 | the same of the function that the theorems speak of |
| `MediaId.ForgedIdDenotesNothing` | internal/bridge/media.go:155-159 | a payload with any other 16 bytes behind it than those of its own HMAC denotes nothing |
| `MediaId.DecodeMediaID` | internal/bridge/media.go:145-161 | returns r if and only if the id denotes r; refuses exactly the texts whose last 16 bytes are not those of the HMAC of the bytes before them; what it returns starts the signed payload |
| `MediaId.MediaIdRoundTrip` | internal/bridge/media.go:133-161 | decoding the id of a ref gives the ref back if and only if |FileRef| < 65536 and |ThumbSize| < 256 |
| `MediaId.DenotesOne` | internal/bridge/media.go:145-161 | an id denotes at most one ref |
| `MediaId.IdsInjective` | internal/bridge/media.go:133-179 | distinct in-bounds refs have distinct ids, and no byte form is a prefix of another |
| `MediaId.SecondId` | internal/bridge/media.go:133-161 | the id of every in-bounds ref with a newline at its end is another string that denotes the same ref |
| `MediaId.SpellingsOfId` | internal/bridge/media.go:133-161 | a string decodes to the payload and tag of the id of a ref if and only if it has the sextets of that id, up to newlines and surplus bits |
| `MediaId.OversizedRefIsMisread` | internal/bridge/media.go:172-177 | beyond the bounds the length wraps and the id silently denotes another ref |
| `BrokerProtocol.SendKeepsChan` | internal/bridge/updates.go:55-59 | a non-blocking send keeps received ++ queued equal to what was delivered, and drops only on a full queue |
| `BrokerProtocol.StepInv` | internal/bridge/updates.go:34-61 | every step of every interleaving keeps the invariant |
| `BrokerProtocol.RunInv` | internal/bridge/updates.go:34-61 | the invariant holds in every state of every run |
| `BrokerProtocol.NeverPanics` | internal/bridge/updates.go:40-59 | no send reaches a closed channel and no channel is closed twice, also for repeated unsubscribes |
| `BrokerProtocol.SubscriberStream` | internal/bridge/updates.go:50-61 | received ++ queued is an order-preserving part of the sends, sends = received + queued + dropped, and a drop means exactly bufSize were queued |
| `BrokerProtocol.NothingLost` | internal/bridge/updates.go:50-61 | a subscriber whose queue had room at every send has lost nothing |
| `BrokerProtocol.PublishedToAll` | internal/bridge/updates.go:52-60 | a finished publication was sent exactly once to each subscriber of its start and to nobody else |
| `BrokerProtocol.BurstFits` | internal/bridge/updates.go:50-61 | with q events queued the next bufSize - q are never dropped, whatever happens in between |
| `BrokerProtocol.HandoffExactly` | internal/bridge/updates.go:55-59 | a receiver blocked on the empty channel gets the event at once |
| `BrokerProtocol.NothingAfterUnsubscribe` | internal/bridge/updates.go:40-47 | from its unsubscribe on, nothing is sent to a subscriber and its channel stays closed once |
| `BrokerProtocol.OneEventThrough` | internal/bridge/updates.go:34-61 | subscribe, publish, receive, unsubscribe: a run that ends with the one event received and the channel closed |
| `Broker.Channel.TrySend` | internal/bridge/updates.go:56-59 | the send step of the protocol on one channel |
| `Broker.EventBroker.Subscribe` | internal/bridge/updates.go:34-39 | a fresh empty channel under a new number; the others are untouched |
| `Broker.EventBroker.Unsubscribe` | internal/bridge/updates.go:40-47 | the subscriber is gone and its channel closed once; a second call changes nothing |
| `Broker.EventBroker.Publish` | internal/bridge/updates.go:52-61 | every subscriber gets exactly one send step, in any order of the map |
| `Delivery.ChatAllowed` | internal/bridge/bridge.go:217-231 | whether the first client's list is absent, empty or contains the chat |
| `Delivery.EventAllowed` | internal/httpapi/ws.go:80-90 | whether the own list is absent, empty or contains the chat |
| `Delivery.PermittedExactly` | internal/bridge/bridge.go:217-231 | without a client or with an empty list every chat is permitted, else exactly those listed; the same for the own list |
| `Delivery.DispatchedExactly` | internal/bridge/bridge.go:180-188 | published are exactly the incoming messages of the chats that the list of the first client has, or of all if it is empty |
| `Delivery.EventExactly` | internal/bridge/bridge.go:189-210 | text, ids, time, sender, names, reply and media of an event are those of its message, field by field |
| `MediaSummary.PickSmallestPhotoSize` | internal/bridge/media.go:104-127 | the loop with its running best computes `Picked`, of which the next rows speak |
| `MediaSummary.PickedIsSmallest` | internal/bridge/media.go:104-127 | a size is chosen when there is a downloadable one, and it is the first of the smallest area when no area is negative |
| `MediaSummary.BytesAreOwn` | internal/bridge/media.go:104-127 | the reported bytes are those of the chosen size if and only if it has some, or nothing with bytes had been chosen before it |
| `MediaSummary.StaleBytes` | internal/bridge/media.go:113-122 | a smallest size that is progressive without sizes is reported with the bytes of another picture |
| `MediaSummary.SummarizeMedia` | internal/bridge/media.go:47-85 | the summary of photos, documents and other media, case by case; the rows from `AnnouncedPhotoDecodes` on say what it has |
| `MediaSummary.AnnouncedPhotoDecodes` | internal/bridge/media.go:47-75 | every photo with a downloadable size is announced with an id, and that id denotes kind 1, the id, access hash and file reference of the photo and its chosen size if and only if the lengths fit |
| `MediaSummary.AnnouncedPhotoExactly` | internal/bridge/media.go:47-75 | type, dimensions and bytes of the summary are those of one of the sizes of the photo, of least area when no area is negative; a photo without one is announced by its kind alone |
| `MediaSummary.AnnouncedDocumentExactly` | internal/bridge/media.go:76-99 | a document is announced without an id, as what its first telling attribute says, with its type and size |
| `MediaSummary.AnnouncedOthersExactly` | internal/bridge/media.go:47-85 | what is announced of a photo or document that is gone and of other media |
| `Delivery.DispatchMessage` | internal/bridge/bridge.go:180-212 | exactly the incoming, globally permitted messages are published, as the event of the message with its names and media summary; nothing else changes; where there is room the queue ends with an event that carries the fields of the message |
| `Delivery.DrainEvents` | internal/httpapi/ws.go:45-58 | without a failing write exactly the visible queued events are written in order, and the writes are the visible ones of what was received; with a failing write, a proper prefix, and the one visible event received last is not written |
| `Delivery.WrittenQueuedOrLost` | internal/httpapi/ws.go:45-58 | every wanted event is written, queued or counted as lost on a full queue |
| `Delivery.NothingMissing` | internal/httpapi/ws.go:45-58 | written events and visible queued ones together are exactly those wanted, in order, if and only if every wanted arrival found room |
| `Delivery.LosslessDelivery` | internal/bridge/bridge.go:180-231 | a drained client has been written exactly the incoming messages that both lists permit, in order, if and only if each of them found room in its queue |
| `FanOut.SentToSubscribers` | internal/bridge/updates.go:50-61 | in every interleaving a finished publication was sent, with its own event and once, to exactly the subscribers of its beginning |
| `FanOut.LoopWrites` | internal/httpapi/ws.go:45-58 | in every interleaving what a client has been and will be written is the visible part of what was sent to it, in order, if and only if no visible event met a full queue; each that did is missing once |
| `FanOut.LosslessFanOut` | internal/bridge/updates.go:34-61 | when all publications are finished and the queue is drained, that part is exactly the visible publications that began while the client was subscribed |
| `FanOut.OrderKept` | internal/bridge/updates.go:50-61 | a publication that had ended before another began stands before it in every log that has both |
| `FanOut.FilteredFanOut` | internal/bridge/bridge.go:180-231 | from messages to clients in every interleaving: when all is published and drained, the client has been written, if no visible event met a full queue and only then, the events of exactly the messages that were incoming, permitted by the list of the first client and by its own, and published while it was subscribed |
| `PeerIds.ConventionInverse` | internal/bridge/chats.go:264-278 | the chat id of a regular peer determines the peer |
| `PeerIds.ConventionCovers` | internal/bridge/chats.go:264-278 | every non-zero chat id is that of a regular peer |
| `PeerIds.ConventionExactly` | internal/bridge/chats.go:264-278 | a peer can be read back from its chat id if and only if it is regular or group 0 |
| `PeerIds.ConventionValues` | internal/bridge/chats.go:264-278 | the chat id of each kind of peer, in numbers |
| `PeerIds.ChatIdInjective` | internal/bridge/chats.go:268-278 | regular peers with one chat id are equal |
| `PeerIds.LargeGroupCollides` | internal/bridge/chats.go:268-278 | a group id above 10^12 shares its chat id with a channel |
| `PeerIds.GroupCollidesExactly` | internal/bridge/chats.go:268-278 | a group shares its chat id with some regular channel if and only if its id is above 10^12 |
| `PeerIds.KeyInjective` | internal/bridge/chats.go:229-231 | the printed key identifies both numbers, negative ones included |
| `PeerIds.MsgKeyInjective` | internal/bridge/chats.go:229-231 | the message key identifies the peer and the message id of regular peers |
| `ChatIndex.IndexMessages` | internal/bridge/chats.go:219-227 | for every key the last message with that key, nothing else |
| `ChatIndex.IndexUsers` | internal/bridge/chats.go:233-241 | for every id the last user with that id |
| `ChatIndex.IndexChats` | internal/bridge/chats.go:243-254 | for every raw id the last group or channel with that id |
| `ChatIndex.KeyFindsMessage` | internal/bridge/chats.go:105-110 | the printed key finds the message that a scan for the peer and id finds |
| `Text.TrimSpaceExactly` | internal/bridge/chats.go:80 | trimming a name cuts off white space at both ends, all of it and nothing else |
| `Text.IsSpaceExactly` | internal/bridge/chats.go:80 | white space is that of the Unicode standard |
| `Text.TruncateIsShort` | internal/bridge/chats.go:256-262 | a preview has no newline and at most n + 2 bytes |
| `Text.TruncateExactly` | internal/bridge/chats.go:256-262 | newlines become spaces, and a text that is too long keeps its first n - 1 bytes and gets an ellipsis |
| `Text.CutWellFormed` | internal/bridge/chats.go:256-262 | a cut of well-formed UTF-8 is well formed if and only if it does not fall before a continuation byte |
| `Text.PreviewWellFormed` | internal/bridge/chats.go:256-262 | the preview of well-formed text is well formed if and only if the text fits or the cut does not fall inside a character |
| `Text.PreviewCutsLetter` | internal/bridge/chats.go:107 | Cyrillic text of more than 40 letters is always cut inside a letter |
| `ChatIndex.IndexFindsEntity` | internal/bridge/chats.go:86-100 | a group or channel is described through the shared index as a scan would if and only if it has no name to lose or no object of the other kind with its raw id follows it in the response |
| `ChatIndex.RowAgrees` | internal/bridge/chats.go:66-113 | for regular peers one row equals the row of the scan if and only if nothing hides the name of its chat |
| `ChatIndex.SharedIdHidesGroup` | internal/bridge/chats.go:86-92 | a channel after a group with the same raw id makes the group lose its title and its cached peer |
| `ChatIndex.SharedIdHidesChannel` | internal/bridge/chats.go:93-100 | a group after a channel with the same raw id makes the channel lose its title and its cached peer |
| `ChatIndex.JoinIsScan` | internal/bridge/chats.go:66-113 | for regular peers the hash join equals the plain nested scan if and only if no dialog has its name hidden by a later object with its raw id |
| `ChatIndex.ApartIdsHideNothing` | internal/bridge/chats.go:66-113 | so it equals the scan when no group and channel share a raw id |
| `ChatIndex.PeerBook.Row` | internal/bridge/chats.go:71-111 | the row and the cached peer of one dialog, from the three indexes |
| `ChatIndex.PeerBook.ListChats` | internal/bridge/chats.go:66-113 | the rows in dialog order; for a regular response they are those of the plain nested scan if and only if no name is hidden |
| `ChatIndex.UserRowExactly` | internal/bridge/chats.go:79-111 | the row of a user, field by field: trimmed name, user name, unread count and the 80-byte preview and date of its top message |
| `ChatIndex.ChatRowExactly` | internal/bridge/chats.go:86-111 | the row of a group or channel, field by field |
| `ChatIndex.CachedIsDialogPeer` | internal/bridge/chats.go:77-100 | what a dialog leaves in the cache addresses the peer of the dialog |
| `ChatIndex.CachedUserExactly` | internal/bridge/chats.go:79-85 | the cached peer of a user dialog has the id and access hash of the last user with the id |
| `ChatIndex.CachedChatExactly` | internal/bridge/chats.go:86-100 | the cached peer of a group or channel dialog is that of the last object with the raw id, with the access hash of a channel |
| `ChatIndex.CachedUnlessHidden` | internal/bridge/chats.go:86-100 | a group or channel gets into the cache if and only if it is in the response and no object of the other kind with its raw id follows it |
| `ChatIndex.ListingKeepsCache` | internal/bridge/chats.go:77-103 | any listing keeps every cached peer mapping back to its key; regular dialogs keep it unambiguous |
| `ChatIndex.CacheConsistent` | internal/bridge/chats.go:280-284 | over any run of listings every cached peer maps back to its key and, for regular responses, addresses it |
| `ChatIndex.CacheComesFrom` | internal/bridge/chats.go:280-284 | over any run of listings every cached id and access hash are those of one object of one of the responses |
| `ChatIndex.PeerBook.ResolvePeer` | internal/bridge/chats.go:286-304 | the resolved peer addresses the chat id, from the cache or after one refresh; errors exactly when neither has it; its access hash is the cached one or that of an object of the refresh |
| `ChatIndex.PeerBook.MarkRead` | internal/bridge/chats.go:188-207 | the channel call is used exactly for chat ids below -10^12, and always for the peer of the chat id and with its access hash |

## Left out

- LruStack.StackInclusion: a key must keep its size; the code does not fix it.
- MediaProtocol.DiskAgreement: says nothing about two overlapping calls for one key, which share a temp file, nor about a file evicted after its path was returned, since the code gives no guarantee there.
- MediaProtocol.CleanRestart: claims the set of entries, not their order, which is rebuilt from the directory order.
- MediaCache.MediaCache.Get: returns the file name without the directory; path joining is not modelled, and sizes and totals do not wrap at 64 bits.
- TokenBucket.GreedyOptimal: uses exact reals where the code has float64, so rounding is not modelled.
- Login.HttpAuthenticator.RunAuth: runs against a finite script of outside events and stops where the script ends; unbounded waiting is covered by the transition system.
- Delivery.LosslessDelivery: follows one subscriber and treats one dispatched message as one step of its channel; `FanOut.LosslessFanOut` is the statement for overlapping publications.
- ChatIndex.PeerBook.ListChats: the request and its limit are not modelled; the model starts from the response.
- Text.TrimSpaceExactly: names are sequences of characters, so bytes of a name that are no UTF-8 are not modelled.
- Base64Url.DecodesExactly: the position that Go reports in a decoding error is not modelled.
- Connecting, running and shutting down the Telegram client, its updates manager, session and database files.
- HTTP handlers, routing, JSON, bearer tokens, request logging, WebSocket accept, pings and read loop: plumbing around the parts above.
- waitReady is a flag; it only polls two atomics.
- TLS certificates, creation of the media key, configuration loading and its defaults.
- GetMessages and sending of text beyond peer resolution: single scans or branches without state.
