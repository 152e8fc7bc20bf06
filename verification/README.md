# File service: verified model

A Dafny model of the core of a file storage service. The service keeps bytes in a
storage backend and metadata in an SQL database. Clients upload files whole, in
chunks, or in parallel parts; they list, rename and delete files and directories.
Nothing was executed: every statement here is a proof about the model.

The modules, from the uploads outward:

- `ByteRanges`, `PartLog`, `Multipart`: parallel part uploads, the merged list of
  covered ranges, and what the completion checks are worth.
- `StreamDigest`, `SequentialUpload`: chunked uploads and the running digest.
- `SessionSlots`: the shared counter that limits concurrent sessions.
- `LeaseLock`, `Renewal`: the in-process lease lock and its renewal loop.
- `Recency`, `LruInclusion`, `CleanupEffect`, `LruCache`: the cache, as a list and as
  linked entries behind a map.
- `Dialects`, `Like`, `Paths`, `PathRules`, `Tables`: SQL placeholders, LIKE patterns,
  path normalization and its rules, metadata tables with their UNIQUE column.
- `DirectoryRename`, `Directories`: renaming and deleting whole directories.
- `FileStore`, `FileManager`, `Relocation`, `TreeStore`, `DirectoryObject`,
  `DirectoryService`: bytes and rows together, for single files and for whole directories.
- `Namespace`, `PlainSpace`, `Incidents`: every run of file and directory operations and
  cleanups, with faults at each step, against plain maps; and concrete runs that go wrong.
- `Retention`: names and times in file rows over these runs, and how long deleted rows stay.
- `Listing`: listing queries and pages.
- `AuditWriter`, `RefreshTokens`, `PathLocks`: the batched audit log, single-use
  refresh tokens, and the order of per-path locks.

State that the service updates in place is a class (`Multipart.Session`,
`SequentialUpload.Session`, `LocalLock`, `Cache`, both `Manager`s, both `Service`s).
Behaviour that depends on how threads interleave is a machine of atomic steps, and
its theorems range over every legal run.

Faults are parameters: `Faults`, `Disk`, `commitOk` and the like say how each storage,
database or temporary-file step ends, `filesFault` at which batch the database fails,
`stuck` and `lost` which paths storage cannot remove or move. Clock readings, tokens and
identifiers are parameters too; fresh identifiers stand for generated UUIDs. The digest is
any hash that consumes a byte at a time.

Some expected laws do not hold of the code. Each is given with its exact condition, or
with a law that does hold instead, and with a concrete input:

- SQLite compares LIKE patterns without regard to ASCII case, and the database is
  opened without `case_sensitive_like`. A directory delete or rename touches exactly the
  subtree if and only if no live row matches by case alone (`Directories.WholeSubtree`,
  `Directories.RenamedIffExact`), which is always so on PostgreSQL. Inputs:
  `Directories.DeleteFlagsTwin`, `Directories.RenameMovesTwin`.
- An operation that reports an error may have changed what clients see.
  `Namespace.ErrorSilentIff` says exactly when; inputs: `Incidents.FailedDeleteRemoves`,
  `Incidents.UploadTruncates`.
- Metadata rows can come to describe bytes that are not there. Over every run this is so
  if and only if some step met a fault that nothing makes good
  (`Namespace.SoundThroughout`). A directory rename is such a step even though it reports
  success (`TreeStore.SoundIffAllMoved`; input: `Incidents.LostRename`).
- A cleanup pass selects first and removes later. Overlapping with uploads it keeps rows
  sound if and only if no selected path is live when it is removed, nothing else going
  wrong (`Namespace.CleanupRace`; input: `Incidents.RaceLosesFile`).
- A session's hash check covers what can be read back. What passes is the content's hash
  if and only if the digest shortcut is in use or what can be read has the digest of the
  whole (`SequentialUpload.HashAttestsIff`; input: `SequentialUpload.ShortReadPasses`).
- A file and a directory can have one path. Renaming the directory then takes the file's
  bytes; `DirectoryObject.SoundIffNoneMislaid` says exactly when rows stay sound (input:
  `Incidents.RenameTakesFile`).
- A refresh token is redeemed twice if and only if two trades of it overlap between check
  and store (`RefreshTokens.RedeemedTwiceIff`; input: `RefreshTokens.DoubleRefresh`).
- The session counter is exact if and only if each session that is ended took a slot
  in this process and is ended by one thread at a time (`SessionSlots.ExactIffCareful`;
  input: `SessionSlots.DoubleEndOverAdmits`).
- A token traded for a new pair can be traded again, until it expires, if and only if it is
  not of the refresh kind or has no identifier (`RefreshTokens.TradedAgain`); tokens the
  service issues are of a kind and have one.
- Lease renewal can be on time if and only if the lease is at least two seconds
  (`Renewal.TimelyIffTwoSeconds`; below that `Renewal.ShortLeaseLapses`).
- Path normalization is idempotent if and only if the path does not clean to the root
  (`Paths.NormalIdempotent`; input: `Paths.RootNotIdempotent`). A name and the dot-dot after
  it can be left out if and only if more than the root is left (`PathRules.TakesBackIff`).
- A chunked upload without a client hash completes on a byte count alone; the file is
  then fully written if and only if no two chunks overlapped
  (`SequentialUpload.CountOnlyCoverage`; input: `SequentialUpload.CountOnlyMissesGap`).
- Placeholder translation keeps a query's meaning if and only if no `?` and no `$`
  stands directly before a digit (`Dialects.TranslationKeepsMeaning`; input:
  `Dialects.MarkBeforeDigit`).
- Cache cleanup is never observed if and only if nothing expires or the maximum is at most
  one or none (`CleanupEffect.NeverObservedIff`; a telling run for every other
  configuration: `CleanupEffect.TellingTells`). The first answer it changes is always a
  miss turned into a hit (`CleanupEffect.FirstChangeIsAHit`); after that it can cost a hit
  (`CleanupEffect.HitLost`).
- An audit entry accepted after the drain has ended is never written
  (`AuditWriter.CloseFlushesAll`; input: `AuditWriter.SubmitAfterDrain`).

`docs/design.md` line 220 says the cache evicts the entry that expires first; the code
evicts the least recently used one, and the model follows the code.

## Model

| member | source | states |
|---|---|---|
| ByteRanges.InsertNormal | internal/service/transfer/multipart.go:62-91 | merging a part into the covered ranges keeps them sorted, non-empty, disjoint and non-touching |
| ByteRanges.InsertCovers | internal/service/transfer/multipart.go:62-91 | the merged ranges cover exactly the old bytes and the new ones |
| ByteRanges.NormalUnique | internal/service/transfer/multipart.go:62-91 | a set of bytes has one range list only, so equal coverage means equal lists |
| ByteRanges.CoversAllIsSingleton | internal/service/transfer/multipart.go:95-111 | ranges cover the file exactly when they are the one range from 0 to its size |
| PartLog.RangesCorrect | internal/service/transfer/multipart.go:62-91 | after any parts in any order the range list is the normal form of the bytes they touched |
| PartLog.CarriedVersusTouched | internal/service/transfer/multipart.go:247-251 | the uploaded-byte counter equals the number of distinct bytes touched exactly when no two parts overlap |
| PartLog.StoredByte | internal/service/transfer/multipart.go:223-228 | under disjoint parts each stored byte is the one its only covering part carried |
| PartLog.FileDependsOnPartSet | internal/service/transfer/multipart.go:223-283 | two part sequences that tile the file and have the same non-empty parts store the same bytes |
| PartLog.OrderIrrelevant | internal/service/transfer/multipart.go:247-283 | arrival order changes neither counter, nor ranges, nor whether the parts tile the file |
| Multipart.IsFullyCovered | internal/service/transfer/multipart.go:95-111 | the single scan over the ranges answers yes exactly when every byte of the file, and no other, is covered |
| Multipart.RecordPart | internal/service/transfer/multipart.go:229-247 | every part on record is completed, whichever parts are sent again |
| Multipart.RecordedTotals | internal/service/transfer/multipart.go:229-247 | after any accepted calls a part number is on record exactly if a call used it, with the offset and size of its first call and all the bytes sent under it |
| Multipart.Session.constructor | internal/service/transfer/multipart.go:138-176 | a new session holds no parts over a file of zeros of the declared size |
| Multipart.Session.AddCoveredRange | internal/service/transfer/multipart.go:62-91 | the in-place merge loop yields the list of the recursive merge |
| Multipart.Session.UploadPartData | internal/service/transfer/multipart.go:195-260 | which of the refusals a call meets; the session stays in step with the log of accepted parts (file, counter, ranges, part table); a refused part changes nothing |
| Multipart.Session.Complete | internal/service/transfer/multipart.go:262-326 | completion goes ahead exactly when the accepted parts cut the file into disjoint pieces, the temporary file can be synced and closed, and the client hash, if given, is the digest of what can be read back; every refusal has its exact cause; a hash that passes is that of the content exactly if what can be read has the digest of the whole |
| Multipart.CompletesIffTiles | internal/service/transfer/multipart.go:270-283 | the two completion checks together hold exactly when the parts tile the file |
| Multipart.ReorderingCompletes | internal/service/transfer/multipart.go:262-326 | an upload that completes also completes with its parts in any other order, with the same content |
| Multipart.StepsConserve | internal/service/transfer/multipart.go:219-252 | over every interleaving of the write, count and record steps of concurrent part calls each part is accounted for at every stage |
| Multipart.InterleavedCompletion | internal/service/transfer/multipart.go:219-283 | over every interleaving, once no call is in flight the checks pass exactly when the parts that were written, in the order of their writes, tile the file, and then every stored byte is its part's |
| StreamDigest.AbsorbConcat | internal/service/transfer/service.go:295-307 | feeding a hash in pieces is feeding it the joined bytes |
| StreamDigest.DigestFile | internal/utils/utils.go:32-52 | the digest is that of the bytes that can be read, however the reads are cut; a read that fails ends it without an error |
| SequentialUpload.InOrderPrefix | internal/service/transfer/service.go:279-307 | chunks that arrive in order leave exactly their joined bytes at the start of the file |
| SequentialUpload.InOrderTiles | internal/service/transfer/service.go:295-307 | chunks that arrive in order are disjoint and touch exactly the first bytes of the file |
| SequentialUpload.CountOnlyCoverage | internal/service/transfer/service.go:362-368 | when the byte count equals the declared size, the whole file was written exactly when no two chunks overlapped |
| SequentialUpload.CountOnlyMissesGap | internal/service/transfer/service.go:362-368 | a concrete upload without a client hash passes the count check with a byte never written |
| SequentialUpload.Session.UploadChunk | internal/service/transfer/service.go:214-320 | which of the refusals a call meets; the running digest stays valid exactly while each accepted chunk starts where the last ended; a refused chunk changes nothing |
| SequentialUpload.Session.DigestTracksFile | internal/service/transfer/service.go:295-307 | a digest marked valid has absorbed exactly the file up to the last offset |
| SequentialUpload.Session.Complete | internal/service/transfer/service.go:336-424 | completion is refused as incomplete exactly when the accepted chunks do not carry the declared size, and goes ahead exactly when they do, the temporary file can be synced and closed, and a client hash, if given, is the digest of the file (chunks in order) or of what can be read back (otherwise); the content is what the chunks wrote; a hash that passes is that of the content exactly if the shortcut is in use or what can be read has the digest of the whole |
| SequentialUpload.HashAttestsIff | internal/service/transfer/service.go:391-424 | of a complete file, every client hash that passes is that of the content if and only if the digest shortcut is in use or what can be read back has the digest of the whole |
| SequentialUpload.ShortReadPasses | internal/utils/utils.go:32-52 | a session whose chunks arrive out of order and whose re-read fails at once completes with a hash that is not that of its content |
| SessionSlots.StepKeeps | internal/service/transfer/service.go:114-126 | every atomic step keeps the counter equation and the admission bound |
| SessionSlots.CounterAccounts | internal/service/transfer/service.go:114-126 | over every interleaving the counter is slots held plus threads in transit, less surplus releases |
| SessionSlots.AdmissionBound | internal/service/transfer/service.go:160-212 | over every interleaving the sessions with a slot and the admissions under way exceed the maximum by no more than the surplus releases |
| SessionSlots.CleanIffCareful | internal/service/transfer/service.go:533-561 | a run is free of surplus releases, made or on the way, exactly when each end was of a slotted session no other thread was ending |
| SessionSlots.ExactIffCareful | internal/service/transfer/service.go:336-561 | with no end half done, the counter is exact if and only if every end was careful; then the maximum holds |
| SessionSlots.Admits | internal/service/transfer/service.go:114-126 | an idle thread that finds room gets a slot and changes nothing else |
| SessionSlots.EndsTwice | internal/service/transfer/service.go:533-561 | two overlapping ends of one session take the counter down by two |
| SessionSlots.DoubleEndOverAdmits | internal/service/transfer/service.go:533-561 | a concrete run with a maximum of one ends with two admitted sessions |
| LeaseLock.LocalLock.Lock | internal/distributed/lock.go:113-130 | a key is refused exactly when an entry without expiry or not past it holds it; a grant enters the token with an expiry one ttl from now, or none for no ttl, and changes nothing else |
| LeaseLock.LocalLock.Unlock | internal/distributed/lock.go:132-148 | only the unexpired entry of the same token is removed; the whole new table is given |
| LeaseLock.LocalLock.Extend | internal/distributed/lock.go:150-168 | only the unexpired entry of the same token is extended, to one ttl from now; the whole new table is given |
| LeaseLock.GrantLasts | internal/distributed/lock.go:113-172 | a granted key is refused to everyone up to and including one ttl after the grant and free right after; with no ttl it is refused until the holder gives it up |
| LeaseLock.ExtensionLasts | internal/distributed/lock.go:150-172 | an extended key is refused up to and including one ttl after the extension and free right after |
| LeaseLock.LazyAnswersAsEager | internal/distributed/lock.go:113-172 | lazy expiry answers every call of every run as a table that drops entries the moment they expire |
| LeaseLock.LiveIffHeld | internal/distributed/lock.go:113-172 | a token's lease, computed from the history alone, is live exactly when the table holds the key for it |
| LeaseLock.MutualExclusion | internal/distributed/lock.go:113-172 | over every run no two tokens have live leases on one key |
| LeaseLock.AnswersFollowLeases | internal/distributed/lock.go:113-168 | unlock and extend succeed for the live token alone; lock succeeds exactly when no token is live |
| LeaseLock.LapsedStaysOut | internal/distributed/lock.go:132-168 | a holder whose lease lapsed never gets it back by its later calls, however the others act |
| Renewal.Interval | internal/distributed/lock.go:239-242 | a lease has room for three intervals exactly from six seconds on; the interval is then the whole third, and two seconds below that |
| Renewal.NeverLapses | internal/distributed/lock.go:230-260 | from the call that takes the lock on, for every run of any length, while renewal ticks on time the holder keeps the key with the lease of its last extension |
| Renewal.RenewedAnswers | internal/distributed/lock.go:230-260 | while renewal is on every competing lock is refused and every extension succeeds |
| Renewal.CancelledLeaseRunsOut | internal/distributed/lock.go:230-260 | after cancellation a competitor is refused up to the end of the last lease and granted right after it |
| Renewal.TimelyIffTwoSeconds | internal/distributed/lock.go:230-260 | renewal can be on time at all exactly for a lease of at least two seconds |
| Renewal.ShortLeaseLapses | internal/distributed/lock.go:230-260 | for a shorter lease, over every run of calls by others after the call that takes the lock, the first extension is refused |
| Recency.RunKeeps | internal/cache/cache.go:75-193 | over every run the cache holds one entry per key and never more than its maximum |
| Recency.ActOrder | internal/cache/cache.go:75-177 | a hit or a set brings its key to the front; nothing else is reordered |
| Recency.OrderedByLastUse | internal/cache/cache.go:75-177 | over every run the list is in order of last use |
| Recency.VictimIsLeastRecent | internal/cache/cache.go:98-134 | the key pushed out by a set was used before every key that stays |
| LruInclusion.Inclusion | internal/cache/cache.go:75-134 | for every trace, every ttl and every clock the keys of a smaller cache are the first keys of a larger one |
| LruInclusion.LastAccessFirst | internal/cache/cache.go:75-134 | after any trace the key accessed last is the first in the cache |
| LruInclusion.StaysAhead | internal/cache/cache.go:75-134 | key by key a larger cache is ahead in hits, strictly so while it holds the key with an earlier stamp |
| LruInclusion.MoreCapacityMoreHits | internal/cache/cache.go:75-134 | for every trace with a nondecreasing clock, with or without expiry, a larger cache of the same ttl has at least as many hits |
| LruInclusion.CleanupUnobserved | internal/cache/cache.go:167-177 | a cleanup changes no answer at that moment |
| LruInclusion.CleanupsNeverObserved | internal/cache/cache.go:167-177 | without expiry, without a size limit, or with room for one item, leaving out every cleanup changes no answer of any run |
| CleanupEffect.NeverObservedIff | internal/cache/cache.go:98-177 | no run is ever changed by its cleanups if and only if nothing expires or the maximum is at most one or none |
| CleanupEffect.TellingTells | internal/cache/cache.go:98-177 | for every other configuration a run of that configuration whose last answer its cleanup changes |
| CleanupEffect.FirstChangeIsAHit | internal/cache/cache.go:98-177 | in any cache, over every run, the first answer that cleanups change is a miss turned into a hit |
| CleanupEffect.EntrySpared | internal/cache/cache.go:98-177 | a concrete run of a bounded cache in which a cleanup spares an entry from eviction |
| CleanupEffect.HitLost | internal/cache/cache.go:98-177 | the run continued: the spared entry then costs another one its place, a hit turned into a miss |
| LruCache.Cache.constructor | internal/cache/cache.go:42-52 | a new cache is empty |
| LruCache.Cache.Consult | internal/cache/cache.go:179-193 | the map and the linked list agree on every key |
| LruCache.Cache.Get | internal/cache/cache.go:75-93 | answers as the list of entries does, and leaves the list as the abstract get does |
| LruCache.Cache.Set | internal/cache/cache.go:98-134 | updates in place or inserts, with at most one eviction, as the abstract set does |
| LruCache.Cache.RemoveElement | internal/cache/cache.go:138-141 | an entry leaves map and list together |
| LruCache.Cache.Delete | internal/cache/cache.go:143-149 | exactly the key is gone, the order of the others kept |
| LruCache.Cache.Clear | internal/cache/cache.go:151-156 | nothing is left |
| LruCache.Cache.Cleanup | internal/cache/cache.go:167-177 | a scan of the map in any order leaves exactly the unexpired entries, in their order |
| LruCache.Cache.Probe | internal/cache/cache.go:179-193 | says yes exactly when a get would hit, and moves nothing |
| Dialects.Decimal | internal/database/dialect.go:33-40 | placeholder numbers are decimal text that reads back as the number, without leading zeros |
| Dialects.Translate | internal/database/dialect.go:42-61 | the one-pass builder loop yields the recursive renumbering |
| Dialects.TranslationKeepsMeaning | internal/database/dialect.go:42-61 | the translated query has the same text and holes as the original if and only if no placeholder mark and no dollar sign stands before a digit |
| Dialects.NumberingIsExact | internal/database/dialect.go:42-61 | the holes of a translated query are numbered 1 to k in order of appearance |
| Dialects.MarkBeforeDigit | internal/database/dialect.go:42-61 | a concrete query whose translation means something else: a mark before the digit 1 becomes placeholder 11 |
| Like.ThreePassesAreOne | internal/service/directory/manager.go:18-23 | escaping backslash, percent and underscore in three passes is escaping each character once |
| Like.SameIff | internal/service/filelist/service.go:68-145 | LIKE compares characters as they are, on SQLite without regard to the case of ASCII letters and of nothing else |
| Like.EscapedMatches | internal/service/filelist/service.go:42-47 | an escaped text matches that text and nothing else, whatever pattern follows |
| Like.PrefixPattern | internal/service/filelist/service.go:90-99 | the prefix pattern selects exactly what starts with the prefix, in the sense of the dialect |
| Like.NestedPattern | internal/service/filelist/service.go:90-99 | the nested pattern selects what starts with the prefix and has a further slash |
| Like.PostgresPrefix | internal/service/directory/manager.go:348-348 | for PostgreSQL the prefix is compared literally |
| Like.SQLiteMatchesCaseTwin | internal/database/database.go:89-91 | for SQLite a concrete path in a differently cased directory matches |
| Paths.NormalShape | internal/utils/utils.go:58-64 | a normal form is a canonical path, dot, or empty, and is empty exactly for what cleans to the root |
| Paths.NormalIdempotent | internal/utils/utils.go:58-64 | normalizing twice is normalizing once if and only if the path does not clean to the root |
| Paths.RootNotIdempotent | internal/utils/utils.go:58-64 | the root normalizes to empty, and that to dot |
| Paths.BaseTrims | internal/utils/utils.go:66-68 | the file name of a path ignores a trailing slash, unless the path is nothing but slashes |
| Paths.ValidNameIff | internal/utils/utils.go:126-148 | exactly which names are accepted: up to 255 printing bytes, no slash, no backslash, no two dots in a row, not a lone dot |
| Paths.ValidNameIsName | internal/utils/utils.go:126-148 | an accepted name is a single plain path component |
| Paths.ValidPathIff | internal/utils/utils.go:153-179 | a path is accepted exactly if, leading slashes aside, no component is empty or dot-dot and some component is not a dot |
| Paths.ValidPathComponents | internal/utils/utils.go:153-179 | an accepted path normalizes to the join of its components without the dots, plain names all, at least one, and is then stable |
| PathRules.NormalObeys | internal/utils/utils.go:58-64 | the normal form obeys each rule of path cleaning: dots and empty components go, a dot-dot takes the name before it along or stays at the front, one at the root goes, canonical paths are kept, a leading slash goes |
| PathRules.RulesDetermine | internal/utils/utils.go:58-64 | the rules leave no choice: whatever obeys them is the normal form on every path |
| PathRules.SlashedCanonical | internal/utils/utils.go:58-64 | a rooted path of plain components normalizes to these components |
| PathRules.TakesBackIff | internal/utils/utils.go:58-64 | after any non-empty start, leaving a name and the dot-dot after it out keeps the normal form if and only if more than the root is left |
| Paths.RenamedIsSibling | internal/service/directory/manager.go:339-339 | a rename replaces the last component of a path and no other |
| Paths.RenamedApart | internal/service/directory/manager.go:339-339 | a path and its renamed form are siblings, both ways round |
| Paths.UnderIffDescendant | internal/service/directory/manager.go:348-426 | prefix with a slash means descendant by components, both ways |
| Paths.SiblingsDisjoint | internal/service/directory/manager.go:348-426 | no path lies at or under two siblings |
| Tables.GetByPath | internal/database/metadata.go:294-299 | finds a row exactly when a live one holds the path |
| Tables.SetPath | internal/database/metadata.go:270-278 | an accepted path update keeps all paths unique, deleted rows included |
| DirectoryRename.SelectedIsInside | internal/service/directory/manager.go:348-380 | the query selects at least the contents of a directory, and exactly them if and only if no live row matches by case alone |
| DirectoryRename.ChosenIsSubtree | internal/service/directory/manager.go:368-426 | with the directory's own row the query takes in at least the subtree, and exactly it if and only if no live row matches by case alone |
| DirectoryRename.PostgresExact | internal/service/directory/manager.go:348-380 | on PostgreSQL that condition always holds |
| DirectoryRename.SQLiteNotExact | internal/service/directory/manager.go:348-380 | on SQLite a concrete table violates it |
| DirectoryRename.TargetOfTarget | internal/service/directory/manager.go:405-421 | a target that is itself a selected path is its own target |
| DirectoryRename.InTheWay | internal/service/directory/manager.go:405-426 | whichever rows have moved so far, a row that holds the next target is one the whole move collides with |
| DirectoryRename.UpdatePaths | internal/service/directory/manager.go:405-426 | the row-by-row updates, in any order and for any selection the query can make, all go through if and only if no two rows would share a path afterwards; then all selected rows have moved |
| DirectoryRename.OnlyStayersBlock | internal/service/directory/manager.go:405-426 | rows that lie under the old path by the letter never collide with each other; only a row that stays can be in the way |
| DirectoryRename.TwinsCollide | internal/service/directory/manager.go:405-426 | a concrete SQLite table whose rename fails because two rows differ in case alone |
| DirectoryRename.MoveBack | internal/service/directory/manager.go:405-426 | a row moved there and back has its path again if and only if it lay at or under the old directory by the letter |
| DirectoryRename.RenameBack | internal/service/directory/manager.go:311-454 | renaming back, when the query for the new name found nothing before: it cannot fail if the first query was exact, and it restores the paths of a table if and only if it was |
| Directories.RenameTarget | internal/service/directory/manager.go:339-339 | the target of an accepted rename request is normal, carries the new name, and is the directory itself or a sibling |
| Directories.Manager.RenameDirectory | internal/service/directory/manager.go:311-454 | success if and only if supported, present, target free, no two rows sharing a path afterwards and the commit accepted; then exactly the rows the queries select and the own row have moved; otherwise neither table changes |
| Directories.RenamedIffExact | internal/service/directory/manager.go:348-426 | those rows are the subtree if and only if no row matches by case alone, and then only a row that stays can prevent the rename |
| Directories.RenameMovesTwin | internal/service/directory/manager.go:348-412 | on SQLite a concrete rename of one directory moves a file of another |
| Directories.DeleteFlagsTwin | internal/service/directory/manager.go:186-231 | on SQLite a concrete recursive delete of one directory deletes a file of another |
| Directories.Manager.DeleteDirectory | internal/service/directory/manager.go:134-309 | each error case exactly; on success exactly the selected rows and the own row are deleted, which is the subtree if and only if no row matches by case alone; on failure exactly as many full batches as were committed, files first, never the directory itself |
| Directories.Manager.DeleteEmpty | internal/service/directory/manager.go:147-174 | an empty directory is deleted alone, or nothing changes |
| Directories.WholeSubtree | internal/service/directory/manager.go:183-309 | what a delete flags is the subtree if and only if no row matches by case alone |
| Directories.Manager.DeleteAll | internal/service/directory/manager.go:183-309 | files, then subdirectories, then the directory; success exactly when no batch and not the last update fails; in each case what is deleted |
| Directories.DeleteContents | internal/service/directory/manager.go:186-242 | batches of 500 end with all contents deleted exactly when none fails; otherwise exactly the full batches before the fault are deleted |
| Directories.NothingCommitted | internal/service/directory/manager.go:186-242 | a delete leaves all files exactly when there are none or the first batch fails |
| Directories.DeleteBatch | internal/service/directory/manager.go:186-231 | each committed batch takes exactly its rows out of what is left |
| Directories.BatchesIsCeiling | internal/service/directory/manager.go:183-242 | the number of batches is the row count divided by 500, rounded up |
| FileStore.PutRefines | internal/service/filemanager/manager.go:94-156 | for every fault of its steps: when a put succeeds; that it then sets that one file; what clients see otherwise, a truncated or replaced file included; and exactly when every live row still has bytes of its size and digest |
| FileStore.DeleteRefines | internal/service/filemanager/manager.go:301-326 | for every fault of its steps: when a delete succeeds; that the file is gone as soon as storage removed it; and that rows stay sound unless the row update then fails |
| FileStore.RenameRefines | internal/service/filemanager/manager.go:328-367 | for every fault of its steps: when a rename succeeds; that a failed one changes nothing clients see unless the way back fails or a failed lookup hid a live target; and that this is exactly when a row becomes unsound |
| FileStore.BytesReplaced | internal/storage/local.go:121-139 | replacing the bytes at a path keeps rows sound exactly when a live row there describes them, and is seen exactly when there is one |
| FileStore.CleanupInvisible | internal/database/cleanup.go:52-78 | a cleanup pass that nothing overlaps with takes nothing away that clients see |
| FileStore.ReapRefines | internal/database/cleanup.go:62-75 | one removal by an overlapping pass is harmless exactly if the path is not live again; otherwise that file is gone |
| FileManager.Manager.UploadFile | internal/service/filemanager/manager.go:94-156 | does to rows and storage what the abstract put does, for every fault of its steps; on success a live row and the bytes are there, and a storage error means exactly that the write failed |
| FileManager.Manager.CompleteSession | internal/service/transfer/service.go:461-508 | stores a finished upload as the abstract put does, for every fault of its steps; on success a live row with the session's hash and the bytes are there |
| FileManager.Manager.DeleteFile | internal/service/filemanager/manager.go:301-326 | does what the abstract delete does, for every fault of its steps; each answer has its exact cause |
| FileManager.Manager.RenameFile | internal/service/filemanager/manager.go:328-367 | does what the abstract rename does, for every fault of its steps, with the storage step undone where the code undoes it; each answer has its exact cause |
| FileManager.Manager.DownloadFile | internal/service/filemanager/manager.go:241-254 | returns the content clients see, or nothing for a path without a live file |
| FileManager.Manager.Cleanup | internal/database/cleanup.go:52-78 | visiting aged rows in any order leaves exactly the rows that are live, or not older than the cutoff, or whose bytes or record cannot be removed, and exactly the bytes that no removable aged row names |
| FileManager.SetPathMoves | internal/database/metadata.go:270-278 | an update by id is refused exactly when some row, live or deleted, holds the target |
| TreeStore.RenameObjects | internal/service/directory/manager.go:432-440 | the one-by-one storage renames, in any order and with any of them failing, move exactly the bytes that storage can move, all as if at once |
| TreeStore.SoundIffNoneLost | internal/service/directory/manager.go:423-440 | after the commit, whichever storage renames fail, every live row is sound if and only if each row left behind has fitting bytes at its new path |
| TreeStore.SoundIffAllMoved | internal/service/directory/manager.go:423-440 | with no bytes under the new directory beforehand, every live row is sound if and only if no storage rename of a selected path fails |
| TreeStore.MoveTreeShows | internal/service/directory/manager.go:311-454 | whichever storage renames fail, clients see the files with the prefix exchanged less those that failed, plus any stray bytes that lay at the target of one that failed |
| TreeStore.MoveTreeRekeys | internal/service/directory/manager.go:311-454 | with no bytes under the new directory beforehand, or no storage rename failing, they see exactly the files with the prefix exchanged less those that failed |
| TreeStore.RekeyedBack | internal/service/directory/manager.go:311-454 | renaming back, when the new name had no files, gives clients the files they had if and only if every file that moved lay under the old name by the letter |
| TreeStore.DropHides | internal/service/directory/manager.go:217-285 | however many batches were deleted, whatever bytes stayed and whatever went with physical subdirectories, exactly the deleted files are gone |
| TreeStore.DropSeen | internal/service/directory/manager.go:217-241 | deleting rows of a directory is seen by clients exactly if there are any |
| TreeStore.SubdirectoriesDead | internal/service/directory/manager.go:286-297 | once all files of a directory are deleted, removing its physical subdirectories takes nothing that is live |
| DirectoryObject.SoundIffNoneMislaid | internal/service/directory/manager.go:423-447 | after all storage renames, that of the physical directory included, every live row is sound if and only if no file was taken, replaced or left behind; rows left behind come with the directory if spelled like it |
| DirectoryObject.OwnHidden | internal/service/directory/manager.go:442-447 | the rename of the directory itself changes nothing clients see when no live file is at either path, or no file in the directory |
| DirectoryService.Service.DeleteDirectory | internal/service/directory/manager.go:134-309 | what the directory manager does to file rows and bytes, for every fault of its steps, is a step of the namespace with the same outcome; bytes go exactly with a deleted file row or with the physical directory of a deleted subdirectory row, unless storage keeps them |
| DirectoryService.Service.RenameDirectory | internal/service/directory/manager.go:311-454 | what the directory manager does to file rows and bytes, the physical directory included, for every fault of its steps, is a step of the namespace with the same outcome |
| Namespace.StepSound | internal/service/filemanager/manager.go:94-367 | one file, directory or cleanup step with any fault keeps every live row sound if and only if its fault is one that nothing makes good |
| Namespace.SoundThroughout | internal/service/filemanager/manager.go:94-367 | over every run, with any faults at any steps, rows are sound in every state if and only if no step had such a fault |
| Namespace.StepRefines | internal/service/filemanager/manager.go:94-367 | one step from sound rows, with any fault and any result, does to what clients see what it does to a plain map, partly committed deletes and failed uploads included |
| Namespace.RunRefines | internal/service/filemanager/manager.go:94-367 | over every run of file and directory operations and overlapping cleanups in which no step leaves a row unsound, clients see the plain map on which every operation had its effect |
| PlainSpace.StepAbstracts | internal/service/filemanager/manager.go:94-367 | every step with any fault and any result does to listed paths and bytes what the plain namespace says, and keeps paths unique |
| PlainSpace.EveryRunShows | internal/service/filemanager/manager.go:94-367 | over every run, from any state, with any faults, and going on after rows have become unsound, clients see the bytes of the listed paths of a namespace without rows, ids, sizes or digests |
| Namespace.ErrorSilentIff | internal/service/directory/manager.go:217-309 | exactly when an operation that reports an error has changed nothing clients see; for a recursive delete, when there were no files or the first batch failed |
| Namespace.CleanupRace | internal/database/cleanup.go:52-78 | over every run in which cleanup passes overlap with operations that meet no lasting fault, rows are sound in every state if and only if no selected path is live when it is removed and no directory rename takes a live file |
| Retention.NamesFollowPaths | internal/service/directory/manager.go:405-424 | over every run of uploads, renames of files and directories, and faults, the name column is the last component of the path |
| Retention.StepStamps | internal/service/filemanager/manager.go:94-367 | every row that a step adds or changes carries the time of the step |
| Retention.StepDeletes | internal/service/directory/manager.go:217-285 | only a deletion of its file or of its directory deletes a row, which keeps all else and gets the time of the deletion |
| Retention.SelectsIff | internal/database/cleanup.go:111-114 | a cleanup pass selects a row exactly if it is deleted and was last changed before the cutoff |
| Retention.ReapsIff | internal/database/cleanup.go:61-78 | removing a selected row takes its bytes if storage can, then its record if the database can, and nothing else |
| Retention.CleanupAfterDelete | internal/database/cleanup.go:52-78 | a row just deleted survives a cleanup exactly if the cutoff is not after the deletion or its bytes or record cannot be removed |
| Retention.Retained | internal/database/cleanup.go:52-114 | over every run a deleted row is kept as it was left, as long as no pass has a cutoff after its deletion and no upload takes its path |
| Incidents.RaceLosesFile | internal/database/cleanup.go:56-71 | a concrete run of select, upload and removal, all successful, that leaves a live file without bytes |
| Incidents.FailedDeleteRemoves | internal/service/directory/manager.go:217-308 | a concrete recursive delete that reports an error with the file gone |
| Incidents.LostRename | internal/service/directory/manager.go:432-440 | a concrete directory rename that reports success with the file gone |
| Incidents.RenameTakesFile | internal/service/directory/manager.go:442-447 | a concrete directory rename, every step of it successful, that takes the bytes of a live file with the same path |
| Incidents.UploadTruncates | internal/storage/local.go:121-139 | a concrete upload that reports an error with the old file truncated |
| Listing.ListedIsBelow | internal/service/filelist/service.go:86-105 | a listing selects the paths below the directory by components, all or one level down, compared as the dialect compares |
| Listing.PostgresComparesExactly | internal/service/filelist/service.go:86-105 | for PostgreSQL that comparison is equality |
| Listing.ListPage | internal/service/filelist/service.go:68-145 | page and size default to 1 and 20; a page is its window of the ordered rows, and more is reported exactly when rows follow it |
| Listing.ReadPages | internal/service/filelist/service.go:110-145 | a client that asks for page after page while told there is more is given every row once, in order, for any page size |
| AuditWriter.StepMovesAlong | internal/database/audit_writer.go:70-187 | every step of submitter, loop and closer moves entries along in order; only an accepted submission adds one |
| AuditWriter.NothingLostOrReordered | internal/database/audit_writer.go:70-187 | over every interleaving the accepted entries are, in order, those written, in the batch, pending, in hand and queued |
| AuditWriter.FullBatchIsTaken | internal/database/audit_writer.go:115-135 | over every interleaving, until Close is called fewer entries are pending than make a batch |
| AuditWriter.FlushReachesDatabase | internal/database/audit_writer.go:115-187 | a tick, or the entry that fills a batch, before Close has all that is pending written, whatever else happens meanwhile |
| AuditWriter.FlushesWhenDue | internal/database/audit_writer.go:115-135 | the loop begins to write only before Close is called, and only a full batch or, at a tick, what there is |
| AuditWriter.CloseFlushesAll | internal/database/audit_writer.go:84-154 | once a close has returned without error every accepted entry was attempted once and in order, except exactly those accepted after the drain |
| AuditWriter.SubmitAfterDrain | internal/database/audit_writer.go:70-154 | a concrete run in which an accepted entry is never written although Close returned without error |
| RefreshTokens.Service.ValidateToken | internal/auth/jwt.go:104-128 | each refusal exactly: signature or time first, then the blacklist |
| RefreshTokens.Service.RefreshToken | internal/auth/jwt.go:130-148 | the exact cause of each answer: signature or time, a listed refresh token, an access token; what is issued carries user, role, kinds and expiries; the blacklist gains exactly the traded token, loses exactly what has run out, and changes on no other answer |
| RefreshTokens.TradedAgain | internal/auth/jwt.go:130-148 | a traded token, whatever calls follow, is refused as revoked until it expires if and only if it is a refresh token with an identifier; the blacklist then stays as it was |
| RefreshTokens.Service.CleanupBlacklist | internal/auth/jwt.go:152-160 | a walk in any order leaves exactly the entries that have not run out |
| RefreshTokens.StepGuards | internal/auth/jwt.go:130-160 | blacklist entries outlive the tokens they stand for, however sweeps and stores of several trades mix |
| RefreshTokens.PassingIsUnused | internal/auth/jwt.go:104-128 | a refresh token that passes the checks has not been redeemed before |
| RefreshTokens.RedeemedTwiceIff | internal/auth/jwt.go:104-160 | over every interleaving of checks, stores, sweeps and issues a refresh token is redeemed twice if and only if two trades of it are between check and store at once |
| RefreshTokens.DoubleRefresh | internal/auth/jwt.go:104-148 | a concrete run of two overlapping trades redeems one token twice |
| RefreshTokens.AloneIsRedeem | internal/auth/jwt.go:130-148 | the steps of a trade that nothing comes between do what a refresh call does |
| RefreshTokens.RedeemedAtMostOnce | internal/auth/jwt.go:130-160 | over every interleaving a token whose trades never overlap is redeemed once at most |
| RefreshTokens.RefreshKeepsIdentity | internal/auth/jwt.go:42-148 | over every interleaving user and role are the same along every chain of refreshes |
| PathLocks.PathOrder | internal/storage/local.go:362-385 | an operation that takes two locks takes them in increasing path order |
| PathLocks.LocksBothPaths | internal/storage/local.go:362-385 | a rename locks both its paths, each once, in an order that does not depend on which is the source |
| PathLocks.WorksAlone | internal/storage/local.go:109-385 | over every schedule, from its last lock to its first release a thread is the only one to hold the lock of any path its operation works on, one path or two |
| PathLocks.StepKeeps | internal/storage/local.go:109-385 | every step keeps lock ownership and lock order consistent |
| PathLocks.NoDeadlock | internal/storage/local.go:362-385 | some unfinished thread can always step |
| PathLocks.EveryRunFinishes | internal/storage/local.go:362-385 | any threads, any programs, any schedule: runs are bounded and stop only with every thread finished |

## Left out

- HTTP and gRPC servers, configuration, metrics, logging and protocol buffers: request plumbing without laws of its own.
- Redis, etcd and MinIO clients and the SQL drivers: code outside the repository decides their behaviour.
- Encryption of stored content: the model is of the path without a crypto service.
- Download sessions, upload progress and API keys: lookups and counters without laws across operations.
- Resuming a session on another instance: a restored session appears only in the slot accounting, where it holds no slot.
- Symbolic links and directory creation in local storage; the removal of idle lock entries.
- The retry loop with backoff around `Lock`, and context deadlines.
- A random source that fails while token identifiers are drawn.
- 64-bit wrap-around of page offsets; part and chunk calls assume that offset plus length fits in 64 bits.
- Columns for creation time, storage type and storage location; one clock reading stands for all timestamps of an operation.
- The file name sent with an upload session: rows take the last component of the path, as whole-file uploads do.
- Go's `path.Clean`, `path.Dir` and `path.Base` are modelled from their documentation; case folding in LIKE covers ASCII letters, and `?` inside an SQL string literal is treated as any other.
- Ties under ORDER BY: the ordered rows of a listing are one fixed sequence.
- The slot counter, the audit writer, the path locks, overlapping token trades and concurrent part calls are step machines on values, not classes: a class method cannot be interleaved.
- File and directory operations are atomic in `Namespace`, so a rename that locks only its old path is not interleaved with a write to the new one; only cleanup passes are.
- Empty physical directories: storage is a map from path to bytes, so whether a new physical directory already exists is a parameter (`ownOk`), and a rename of a physical directory goes through only when nothing lies at or under the new path.
- Creating a directory, and cleanup of deleted directory rows: neither touches a file row or its bytes.
- Directories.Manager.RenameDirectory: requires an accepted path and name, because both servers refuse others before the call (`internal/api/grpc/server.go` lines 631-634, `internal/api/http/server.go` lines 1429-1433).
- Multipart.Session.UploadPartData: a failed write leaves the temporary file as it was, because what a write that fails part way leaves in a region another part has filled depends on the file system.
- SequentialUpload.Session.UploadChunk: a failed write leaves the temporary file as it was, for the same reason.
- Multipart.Session.Complete: ends where the content is handed to storage; `FileManager.Manager.CompleteSession` takes it from there.
- SequentialUpload.Session.Complete: ends where the content is handed to storage; `FileManager.Manager.CompleteSession` takes it from there.
- Namespace.RunRefines: a plain map from path to content, for runs in which no step leaves a row unsound or uncovers stray bytes; `PlainSpace.EveryRunShows` has no such condition.
- Namespace.StepRefines: not for a directory rename that uncovers stray bytes or moves a visible file with the physical directory; `PlainSpace.StepAbstracts` has no such condition.
