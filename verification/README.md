# A verified model of WouriFS

WouriFS is a distributed file system: a namenode keeps path metadata in memory, logs every change and
replicates it through Raft; datanodes store chunks, register and send heartbeats; an audit chain records
operations and is replicated to a second node; agencies that lose the namenode queue operations offline; the
master key is split among officers. This project models those cores in Dafny and proves what they promise
over every input, every run and every interleaving.

Everything the program takes from outside is an argument: clock readings, fresh ids, random coefficients,
the order in which Go ranges over a map, the outcome of sends, the size of reads, the JSON codec and the
hash. So a theorem about a function of such arguments is a theorem about every behaviour of the program.

Each core that updates things in place is a class or a loop with a specification function beside it; the
method's `ensures` ties the two together and the theorems are about the specification function. What each operation
does is also said without that function, in terms of keys, fields and bytes alone: the `...Answer` lemmas and their like.

| files | core |
|---|---|
| `Modular`, `Polynomial`, `Shamir` | secret sharing over GF(p) |
| `Paths`, `Files`, `RenameOrder`, `Listing` | namenode metadata as values; directory rename and listing |
| `Log`, `Handlers`, `Answers` | log and handlers: what each request and each log entry does, and the run theorems |
| `Replication`, `Namespaces`, `Interleaving` | Raft leader and followers, namespaces, order of the log |
| `Recovery`, `Idempotence` | the log file over restarts with lost and torn writes; replaying a log twice |
| `MetadataStore`, `Server` | the store with mutable records, replay, state machine and handlers as programs |
| `AuditChain` | hash-chained audit log |
| `Registry`, `Liveness`, `Placement` | datanode registry, health sweep, chunk placement |
| `Replicator`, `OfflineBuffer`, `ChunkStream` | queues and streams |

## How the model reads the code

- Go's `range` over a map that the loop rewrites (directory rename) is a sequence of keys: each key is present
  when it is yielded, every key present at the start is yielded, and keys inserted on the way may be yielded any
  number of times. This allows everything Go allows. A `range` over an unchanged map is any listing of its keys.
- Two stores are compared up to what the log does not carry: `Norms` forgets timestamps and directory modes.
- `Step` is what a log entry means with nothing left open. An entry is `Safe` when at most one record has a chunk
  entry's file id and a directory rename moves no child to a place that is again below the source. Then, and only
  then, every clock and visiting order gives the same store (`DeterministicIff`), which is `Step`'s (`ApplyIsStep`).
  The log theorems go through `Step`.
- A Raft submission that times out and is committed later is one that is not applied, followed by `ApplyEntry`.
- An out-of-range slice, which stops a Go program, is the result `None` of a listing.
- The store's records are heap objects, as in the program, and a chunk list is a slice: the first elements of a
  backing array, appended to in place while the capacity lasts and moved to some larger array otherwise. The
  address list inside a chunk is never written after it is made and is a value.

## Where the code and its documentation differ

- `internal/namenode/server.go:444-445` says that applying an entry twice is safe for all mutation types. It is,
  except for chunks (`ReapplyCallIff`): a Raft leader records every chunk twice (`LeaderIsFollowerDoubled`).
- `WORKFLOW.md:54` says that start-up rebuilds the store from the log. One entry that was written in part, as a
  crash leaves it, keeps the namenode from ever starting again (`TornLogNeverStarts`, `ReadableIff`).
- `WORKFLOW.md:56` says that calling `Replay` twice just overwrites state. It can fail with a rename or a directory
  removal (`RenamedFileReappears`, `RemovedDirReappears`) and, through a rename, with a chunk
  (`TwoRecordsShareTheId`). Every kind of entry has a guard on the final store that says exactly when the second pass
  stays in step with the first (`GuardIff`, `InStepIff`). A second replay of a guarded log gives the same store plus
  the files it could not move away (`SecondResult`), so it changes nothing exactly when nothing is left behind
  (`ReplayingTwiceIff`). Every log without renames and directory removals is of that kind (`UnmovedRunIsGuarded`), and
  so is file rotation (`RotationIsHarmless`).
- `internal/namenode/metadata.go:266` says that implicit directories are detected. A directory whose one record
  below is a file is shown as a file when that record is visited first (`DirectoryShownAsFile`, `KindsRightIff`).
- `internal/datanode/server.go:76` says that only the requested range is read. A limit is honoured in whole
  reads only (`StreamIsPrefix`, `LimitIsExactIff`, `LimitIsExactForAllReadsIff`).
- `internal/audit/log.go:144` says that a corrupt tail is started afresh. Entries appended after one are never
  accepted by `Verify`. Nor is an entry appended after a failed sync, or after the file could not be read, unless the
  chain is reopened first. And `Verify` does not read past a stray closing bracket (`AcceptedIff`,
  `TailIsNeverChecked`).
- `internal/datanode/chunkstore.go:46` says that a write overwrites. A failed overwrite removes the old chunk
  (`KeepsChunksIff`).
- `internal/auditsvc/replication.go:84-85` promises sending or buffering; with a client attached and entries still
  buffered, a push overtakes them (`StepInOrderIff`), and unless entries repeat the order never comes right again
  (`DeliveredInOrderIff`).
- `internal/namenode/server.go:368-369` says that the caller must be authorised for the owning path. The path is
  looked up in one critical section and the chunk added in another; a file that is moved away in between gets the
  chunk where it is then (`AllocateLaterStaysInsideIff`, `MovedAwayMeanwhile`).
- `internal/offline/buffer.go:60` says that `Write` queues an operation for later replay. Queued to a file whose last
  line is incomplete, as a crash leaves it, it merges with that line, and one operation is lost for good
  (`NothingLostIff`). A replay before the first write prevents it.

## Model

| member | source | states |
|---|---|---|
| Modular.InverseModPrime | internal/shamir/shamir.go:78-81 | modulo a prime, the inverse exists exactly for non-zero residues, lies in [0,p) and multiplies to one |
| Modular.PrimeDividesProduct | internal/shamir/shamir.go:71-79 | a prime that divides a product of differences divides one of them, so a product of non-zero differences is invertible |
| Polynomial.FactorTheorem | internal/shamir/shamir.go:94-108 | c(x) - c(r) is (x - r) times the synthetic quotient |
| Polynomial.TooManyRoots | internal/shamir/shamir.go:47-92 | modulo a prime, a coefficient list with at least as many incongruent roots as coefficients is zero |
| Polynomial.LagrangeInterpolates | internal/shamir/shamir.go:53-89 | Lagrange's sum agrees everywhere with every polynomial through the points whose degree is below their number |
| Polynomial.ProductZeroIff | internal/shamir/shamir.go:71-74 | a product of differences vanishes modulo a prime exactly at one of its points |
| Shamir.BytesRoundTrip | internal/shamir/shamir.go:24 | decoding bytes to a number and encoding it again loses exactly the leading zero bytes |
| Shamir.EvalPoly | internal/shamir/shamir.go:96-108 | the running-power loop computes the sum of a_i x^i modulo p |
| Shamir.Split | internal/shamir/shamir.go:16-45 | succeeds exactly for 2 <= k <= n, a non-empty secret below p; share i is the point at i+1 of the polynomial with the secret as constant term; each error has its cause |
| Shamir.LagrangeFactors | internal/shamir/shamir.go:57-75 | the inner loop computes both reduced products over all other shares |
| Shamir.LagrangeTerm | internal/shamir/shamir.go:54-88 | the term is the weighted Lagrange term; its inverse is missing only if two x are equal modulo p |
| Shamir.DenominatorZeroIff | internal/shamir/shamir.go:71-81 | a denominator has no inverse exactly when another share has the same x modulo p |
| Shamir.Combine | internal/shamir/shamir.go:48-92 | fails exactly for fewer than two shares or two equal x modulo p; otherwise returns the constant term of every polynomial of degree below the number of shares that passes through them |
| Shamir.SplitThenCombine | internal/shamir/shamir.go:16-92 | any at least k distinct shares, in any order, give the secret back up to leading zero bytes, and byte for byte exactly when it has none |
| Shamir.SharesFitEverySecretOnce | internal/shamir/shamir.go:29-42 | for any k-1 shares at distinct non-zero points and any candidate secret exactly one coefficient list in [0,p)^k has that secret and gives those shares |
| Shamir.SplitHidesTheSecret | internal/shamir/shamir.go:16-45 | whatever values are seen at any k-1 of the shares, every candidate secret explains them by exactly one list of the random draws that Split makes |
| Paths.AllowedIff | internal/namenode/metadata.go:62-73 | the namespace check is membership in the subtree, never a bare string prefix |
| Paths.CommonDescendant | internal/namenode/metadata.go:58-73 | two directories with a common descendant are nested |
| RenameOrder.RunVisitsPartial | internal/namenode/metadata.go:217-224 | after any legal sequence of visits the loop's state depends only on which children were visited |
| RenameOrder.RenameIsRelocate | internal/namenode/metadata.go:203-232 | if no child is revisited, every visiting order gives the same relocation |
| RenameOrder.RevisitDiffers | internal/namenode/metadata.go:217-224 | if some child lands below the source again, two legal visiting orders give different keys |
| RenameOrder.OrderIndependentIff | internal/namenode/metadata.go:203-232 | a directory rename is independent of map order exactly when no child lands below the source again |
| RenameOrder.CountPreservedIff | internal/namenode/metadata.go:217-230 | the number of entries is preserved exactly when no child's new place is taken |
| RenameOrder.RelocateIsBijective | internal/namenode/metadata.go:203-232 | with a clear destination every entry is found unchanged but for its path (and the directory's mtime) at its new place, nothing else exists, and the count is the same |
| RenameOrder.FreshDestination | internal/namenode/metadata.go:211-224 | an absent destination outside the source with no keys beneath it is always clear and order-independent |
| Listing.ListsEveryNameOnce | internal/namenode/metadata.go:235-294 | for a non-root directory and every map order no slice is out of range, each first component below it is listed exactly once, and each entry describes a record below it |
| Listing.ListingSameIff | internal/namenode/metadata.go:255-292 | the entries shown are the same for every map order exactly when records with a common first component are described alike |
| Listing.KindRightIff | internal/namenode/metadata.go:265-275 | an entry made from a record has the right kind exactly when the record is not a deeper file that is alone below the entry |
| Listing.KindsRightIff | internal/namenode/metadata.go:265-275 | every entry has the right kind in every map order exactly when no file is the only record below an entry |
| Listing.DirectoryShownAsFile | internal/namenode/metadata.go:265-275 | a directory with one file in it can be listed as a file |
| Listing.EntryFields | internal/namenode/metadata.go:277-291 | every entry shows the size and time of a record at its path or below, and its mode or the default of the kind shown |
| Listing.OwnRecordShown | internal/namenode/metadata.go:277-291 | an entry whose own path is a record with nothing below shows exactly that record, in every map order |
| Listing.RemovableIffListsNothing | internal/namenode/metadata.go:128-149 | a non-root directory can be removed exactly when its listing is empty |
| Listing.RootListingSafeIff | internal/namenode/metadata.go:247-268 | listing "/" stays in range for every map order exactly when no file sits directly below the root |
| Listing.ListDirectory | internal/namenode/metadata.go:235-294 | the two nested loops compute the specified listing, a panic being None |
| Files.FindsFirst | internal/namenode/metadata.go:173-183 | the search by id finds the first record with the id in visiting order, or none |
| Log.SameNormsIff | internal/namenode/wal.go:11-21 | stores compare equal exactly when all that is logged is equal: path, id, kind, size, chunks and, for files, mode |
| Log.SameTimelessIff | internal/namenode/wal.go:11-21 | up to timestamps exactly the two times may differ |
| Log.ApplyIsStep | internal/namenode/raft.go:38-81 | a safe entry has its meaning whatever the clock and visiting order, up to timestamps and directory modes |
| Log.DeterministicIff | internal/namenode/wal.go:75-96 | any two environments give the same store, up to timestamps and directory modes, exactly when the entry is safe |
| Log.ReplayIsSteps | internal/namenode/wal.go:59-98 | replaying a safe log gives the meaning of its entries in order |
| Log.SnapshotThenSuffix | internal/namenode/raft.go:83-111 | restoring a snapshot taken at any cut and applying the rest gives, up to timestamps, the store of the whole log, whatever clocks and orders the machines see |
| Log.ReplayEnvsExist | internal/namenode/wal.go:59-98 | every log can be replayed into every store: there is always a lawful visiting order |
| Idempotence.GuardIff | internal/namenode/wal.go:75-96 | while a second replay is in step with the first, the next entry keeps it in step, with one outcome, exactly when its guard holds of the final store |
| Idempotence.MkdirGuardNeeded | internal/namenode/wal.go:87-88 | a directory made where the final store already has a file, or something was left behind, is missing in the second replay |
| Idempotence.RmdirGuardNeeded | internal/namenode/wal.go:89-90 | a directory removed where something early or left behind lies below it stays in the second replay |
| Idempotence.DeleteGuardNeeded | internal/namenode/wal.go:83-84 | a file deleted where the second replay still has a directory of the final store stays |
| Idempotence.TruncateGuardNeeded | internal/namenode/wal.go:93-94 | truncating a file that the second replay already has in its final form spoils its size |
| Idempotence.ChunkGuardNeeded | internal/namenode/wal.go:85-86 | a chunk whose file id an early, final or left-behind record has goes to the wrong record, and if the right one is there too it is ambiguous |
| Idempotence.TakenDestinationDiffers | internal/namenode/wal.go:91-92 | a directory whose destination is already there, or anything moved onto what was left behind, stays where it was in the second replay |
| Idempotence.AheadSourceDiffers | internal/namenode/wal.go:91-92 | moving a file that the second replay already has in its final form takes it away |
| Idempotence.EarlyCargoDiffers | internal/namenode/wal.go:91-92 | a directory rename carries off a record that is early, final or left behind below its source |
| Idempotence.OffCargoDiffers | internal/namenode/wal.go:91-92 | a directory rename carries a directory to a place where its size then differs between the two replays |
| Idempotence.InStepIff | internal/namenode/wal.go:75-96 | over a whole safe log the two replays are in step all the way exactly when every guard holds |
| Idempotence.SecondResult | internal/namenode/wal.go:75-96 | a guarded log, whatever renames and removals it has, replayed into its own result is as safe and gives that result plus exactly what was left behind |
| Idempotence.ReplayTwiceIff | internal/namenode/wal.go:75-96 | a guarded log means the same when replayed into its own result exactly when nothing was left behind |
| Idempotence.ReplayingTwiceIff | internal/namenode/wal.go:59-98 | after every run whose log is guarded a second replay changes nothing exactly when nothing was left behind, whatever clocks and orders it sees |
| Idempotence.UnmovedRunIsGuarded | internal/namenode/wal.go:59-98 | the log of every run that logged no rename and no directory removal is guarded and leaves nothing behind |
| Idempotence.RenamedFileReappears | internal/namenode/wal.go:91-92 | a file created and then renamed is left behind under its old name in a second replay |
| Idempotence.RotationIsHarmless | internal/namenode/wal.go:91-92 | if the old name is created again afterwards a second replay changes nothing |
| Idempotence.RemovedDirReappears | internal/namenode/wal.go:89-90 | a directory removed before a file was created below its path reappears in a second replay |
| Idempotence.RenameOntoUsedNameIsHarmless | internal/namenode/wal.go:91-92 | a rename onto a name that was created and deleted before is guarded and leaves nothing behind |
| Idempotence.TwoRecordsShareTheId | internal/namenode/wal.go:85-92 | a chunk before such a rename is ambiguous in a second replay |
| Answers.Authorised | internal/namenode/server.go:97-407 | no token is Internal, a path outside the namespace PermissionDenied; what is not OK changes and logs nothing, what is OK is logged |
| Answers.CreateAnswer | internal/namenode/server.go:113-124 | an existing path is AlreadyExists; otherwise exactly one record is added, with the new id, size 0, no chunks and the asked mode (0644 for 0), and that is logged |
| Answers.MkdirAnswer | internal/namenode/server.go:232-242 | an existing path is AlreadyExists; otherwise exactly one directory is added with the asked mode (0755 for 0) |
| Answers.DeleteAnswer | internal/namenode/server.go:139-149 | missing is NotFound, a directory Internal; otherwise exactly that file is gone |
| Answers.RmdirAnswer | internal/namenode/server.go:257-267 | missing is NotFound, a file or a directory with keys below Internal; otherwise exactly that directory is gone |
| Answers.TruncateAnswer | internal/namenode/server.go:348-355 | missing is NotFound; otherwise exactly size and modification time of that record change |
| Answers.RenameAnswer | internal/namenode/server.go:286-296 | a missing source is NotFound, a taken destination Internal; a file moves alone and keeps id, size, mode, creation time and chunks |
| Answers.RenameTreeAnswer | internal/namenode/metadata.go:203-232 | a directory moves with everything below it, each record unchanged but for its path, every other record stays and there is nothing else |
| Answers.AllocateMissing | internal/namenode/server.go:370-374 | an unknown file id is NotFound |
| Answers.AllocateAnswer | internal/namenode/server.go:370-406 | a file outside the namespace is PermissionDenied, too few nodes ResourceExhausted; otherwise that file gains one chunk, numbered by position, on the first addresses, and that is logged |
| Answers.Reasons | internal/namenode/metadata.go:83-232 | each mutator of the store refuses with its own reason and for no other: missing, existing, not a directory, not empty |
| Answers.EntryAnswer | internal/namenode/raft.go:48-79 | the effect of each other kind of log entry on any store |
| Answers.ChunkEntryAnswer | internal/namenode/raft.go:59-62 | a chunk entry extends the first record with the id in visiting order and no other |
| Answers.RenameEntryAnswer | internal/namenode/raft.go:71-74 | a rename entry is refused, moves a file alone or moves a directory with all below it |
| Handlers.HandleInv | internal/namenode/server.go:97-407 | every handler call, for any rename and any lawful environment, keeps the store invariant |
| Handlers.RunInv | internal/namenode/server.go:97-407 | in every run: path equals key, ids unique, directories without id or chunks, chunks numbered by position |
| Handlers.CallIsStep | internal/namenode/server.go:97-407 | a call that logs an entry has changed the live store as the entry means, and a call that logs none has changed nothing |
| Handlers.AllocateAddsOneChunk | internal/namenode/server.go:360-407 | succeeds exactly when the file exists in the namespace and enough nodes are available; then one chunk with exactly rf replicas is added to that file, otherwise nothing changes |
| Handlers.RunIsSteps | internal/namenode/server.go:97-443 | after every run the live store is what its log means |
| Handlers.ReplayRebuildsLiveStore | internal/namenode/wal.go:59-98 | replaying the log of any run into an empty store rebuilds the live store in keys, ids, kinds, sizes, file modes and chunk lists |
| Handlers.ReplayExactIff | internal/namenode/wal.go:87-88 | directory modes are rebuilt too exactly when every live directory has mode 0755 |
| Replication.ReapplyCallIff | internal/namenode/server.go:438-451 | applying the entry of a call to the store the call has changed changes nothing but timestamps, directory modes included, exactly when it is not a chunk entry |
| Replication.ReapplyIsNoopIff | internal/namenode/server.go:444-450 | the same for the meaning of a logged entry |
| Replication.LeaderStep | internal/namenode/server.go:438-451 | one leader step (live, then its own entry) on a doubled store is the doubled follower step |
| Replication.LeaderIsFollowerDoubled | internal/namenode/server.go:438-451 | over every run the leader's store is the follower's with every chunk doubled: same keys, ids, kinds, sizes and file modes |
| Replication.ReplicasAgreeIff | internal/namenode/raft.go:59-62 | leader and follower agree exactly as long as no file has a chunk |
| Namespaces.HandleFrame | internal/namenode/server.go:97-407 | an authorised call, for any rename order, creates, changes and removes nothing outside its namespace |
| Namespaces.RunFrame | internal/namenode/server.go:97-407 | so does every run of calls with one token, from any store that satisfies the invariant |
| Namespaces.AllocateStaysInsideIff | internal/namenode/server.go:368-404 | chunk allocation stays inside the namespace in every map order exactly when the id is not empty or there are not directories both inside and outside |
| Namespaces.AllocateLaterStaysInsideIff | internal/namenode/server.go:370-399 | with any calls between lookup and change, a chunk request stays inside the namespace exactly when it was refused or the file, if it still exists, is still inside |
| Namespaces.MovedAwayMeanwhile | internal/namenode/server.go:370-399 | a file that a caller with a wider namespace moves away in between gets the chunk outside |
| Namespaces.StepsCommute | internal/namenode/metadata.go:62-73 | entries of disjoint namespaces commute |
| Namespaces.StepsProject | internal/namenode/wal.go:75-96 | inside one namespace a log means what that namespace's own entries mean |
| Namespaces.SafeProject | internal/namenode/wal.go:75-96 | a log is safe exactly when each namespace's part is |
| Namespaces.InterleavingsAgree | internal/namenode/server.go:438-443 | two logs with the same entries in the same order per namespace mean the same store |
| Interleaving.RunWellTagged | internal/namenode/server.go:360-407 | every entry a run logs belongs to its caller's namespace, including chunks resolved by file id |
| Interleaving.ReplayAnyInterleaving | internal/namenode/server.go:438-443 | replaying any log that agrees with the order of store changes within each namespace rebuilds the live store |
| Recovery.RefusedIff | internal/namenode/wal.go:101-112 | a log file is refused as a whole exactly when something unreadable comes before any stray bracket |
| Recovery.RestartRebuildsLiveStore | cmd/namenode/main.go:54-56 | over every history of calls and restarts in which the log can be written, a further restart succeeds and rebuilds the live store |
| Recovery.LostWriteIsUndone | internal/namenode/server.go:438-443 | a restart undoes a call whose entry was not written, and rebuilds the live store exactly when that call changed nothing that is logged |
| Recovery.ReadableIff | internal/namenode/wal.go:101-112 | over every history, with any writes lost or torn, the log can be read exactly when no entry was written in part |
| Recovery.TornLogNeverStarts | cmd/namenode/main.go:54-56 | after a torn entry no restart succeeds and nothing of the log is applied |
| MetadataStore.FileMeta.Append | internal/namenode/metadata.go:303-307 | appending to the slice, in place or into a larger array, adds one chunk numbered by position |
| MetadataStore.CopyOf | internal/namenode/metadata.go:341-346 | the copy has the same values, a record of its own and an array of its own |
| MetadataStore.NothingShared | internal/namenode/metadata.go:303-307 | the invariant of every store and snapshot keeps records and backing arrays of different paths apart |
| MetadataStore.MetadataStore.constructor | internal/namenode/metadata.go:48-56 | an empty store with replication factor 3 if none is given |
| MetadataStore.MetadataStore.PutFile | internal/namenode/metadata.go:76-80 | the record replaces whatever was at its path |
| MetadataStore.MetadataStore.CreateFile | internal/namenode/metadata.go:83-101 | as specified: fails on an existing path, else adds an empty file |
| MetadataStore.MetadataStore.MakeDir | internal/namenode/metadata.go:104-125 | as specified: fails on an existing path, mode 0 becomes 0755 |
| MetadataStore.MetadataStore.RemoveDir | internal/namenode/metadata.go:128-149 | as specified: missing, not a directory, not empty, or removed |
| MetadataStore.MetadataStore.GetFileByID | internal/namenode/metadata.go:173-183 | the first record in visiting order with the id |
| MetadataStore.MetadataStore.DeleteFile | internal/namenode/metadata.go:186-199 | as specified: missing, a directory, or removed |
| MetadataStore.MetadataStore.MoveChildren | internal/namenode/metadata.go:215-225 | the loop over the map it rewrites computes the specified visits in place and leaves the directory's own record alone |
| MetadataStore.MetadataStore.Rename | internal/namenode/metadata.go:203-232 | in place, on the records themselves, exactly the specified rename for the yielded order |
| MetadataStore.MetadataStore.AddChunk | internal/namenode/metadata.go:297-312 | one chunk appended, through its slice, to the first record with the id and to no other record, or an error |
| MetadataStore.MetadataStore.TruncateFile | internal/namenode/metadata.go:321-332 | size and mtime of the record, or an error |
| MetadataStore.MetadataStore.Snapshot | internal/namenode/metadata.go:335-349 | a copy with the same values whose records and backing arrays are all new and unshared |
| MetadataStore.MetadataStore.Restore | internal/namenode/metadata.go:352-356 | the store's view becomes the snapshot's values |
| Server.ApplyEntry | internal/namenode/raft.go:48-79 | applying one entry in place is the specified application |
| Server.ReadAll | internal/namenode/wal.go:101-112 | the loop gives the entries up to the end or a stray bracket, or fails at the first unreadable one |
| Server.ReplayEntries | internal/namenode/wal.go:75-97 | replaying entries in place is the specified replay |
| Server.Replay | internal/namenode/wal.go:59-98 | succeeds on a missing file and on a readable one, which it replays; otherwise fails and applies nothing |
| Server.SnapshotIsolation | internal/namenode/metadata.go:335-349 | applying any entries after a snapshot leaves the snapshot as taken; store and snapshot share no record and no backing array |
| Server.NameNodeServer.WalAppend | internal/namenode/server.go:438-451 | all, nothing or a part of the entry is in the log, as its write ends, and it is applied to the own store exactly if it was submitted and committed; failures are otherwise ignored |
| Server.NameNodeServer.CreateFile | internal/namenode/server.go:97-125 | answer code, log and store, in place, for every token, path and mode and every fate of the log entry: refusals touch neither store nor log, success logs the id and mode actually stored, and a leader applies the entry again |
| Server.NameNodeServer.DeleteFile | internal/namenode/server.go:127-150 | the same for deletion: missing path and directory get different codes and log nothing |
| Server.NameNodeServer.MakeDirectory | internal/namenode/server.go:220-243 | the same for mkdir: the requested mode is stored and not logged |
| Server.NameNodeServer.RemoveDirectory | internal/namenode/server.go:245-268 | the same for rmdir: a non-empty directory is refused |
| Server.NameNodeServer.RenameFile | internal/namenode/server.go:270-297 | the same for rename, for every order in which the map may be visited: both paths must be in the namespace |
| Server.NameNodeServer.TruncateFile | internal/namenode/server.go:336-356 | the same for truncation |
| Server.NameNodeServer.AllocateChunk | internal/namenode/server.go:360-407 | the same for chunks: lookup by id, namespace of the owner, default factor, the nodes the registry lists, too few of them; the logged addresses are the returned ones |
| AuditChain.LinkBinds | internal/audit/log.go:62-65 | with a sound hash, equal links mean equal entries and equal previous links |
| AuditChain.LastHashBindsFile | internal/audit/log.go:80-125 | two accepted files that end in the same hash are the same in length and every field |
| AuditChain.TamperingIsRejected | internal/audit/log.go:80-125 | any file that differs in what is read and keeps the final hash is rejected |
| AuditChain.TailIsNeverChecked | internal/audit/log.go:90 | whatever follows a stray closing bracket makes no difference to acceptance |
| AuditChain.AcceptedPrefix | internal/audit/log.go:87-122 | every prefix of an accepted file is accepted |
| AuditChain.AppendAnswer | internal/audit/log.go:46-77 | the new entry has the next index, the given fields and the link over the live hash; the index moves on whatever becomes of the write, the live hash only if all went well |
| AuditChain.AppendsAreRecorded | internal/audit/log.go:46-77 | after any run the file has one more record for each append whose write was not lost, in order, with its operation, path, content hash, identity and time |
| AuditChain.ChainComplete | internal/audit/log.go:33-77 | after every run of successful appends and reopenings the file is accepted, indices are 0..n-1, and reopening restores exactly the live hash and index |
| AuditChain.AppendAcceptedIff | internal/audit/log.go:46-77 | an append keeps an accepted file accepted exactly when nothing was written, or the write was not torn and the live hash is the file's; the live hash is the file's afterwards exactly when it was done, or lost and it was before |
| AuditChain.AcceptedIff | internal/audit/log.go:33-149 | for any file and any run of appends, failures and reopenings the result is accepted exactly when the file was and no write was torn and no entry was written between a failed sync, or an opening that could not read a file with entries, and the next good reopening (or the file has a stray bracket, so nothing appended is read) |
| AuditChain.Chain.Open | internal/audit/log.go:33-43 | the opened chain has the recovered hash and index, or those of an empty file if it cannot be read |
| AuditChain.Chain.RecoverState | internal/audit/log.go:133-149 | the loop restores the last hash and index before the end, a stray bracket or the first unreadable record; a file that cannot be opened restores nothing |
| AuditChain.Chain.Append | internal/audit/log.go:46-77 | the new entry, its link and the new state for each way the write may end |
| AuditChain.Chain.Verify | internal/audit/log.go:80-125 | accepts exactly the files that can be opened and are intact as far as they are read |
| Registry.AvailableFacts | internal/domain/namenode/memory_registry.go:73-87 | the listing holds every available node exactly once |
| Registry.SweepMarksTheSilent | internal/domain/namenode/health_monitor.go:134-145 | the sweep's loop over its copy marks exactly the nodes silent for the timeout |
| Registry.InMemoryDataNodeRegistry.RegisterNode | internal/domain/namenode/memory_registry.go:25-41 | rejects a missing node, id or address; else stores an available copy stamped now with derived storage |
| Registry.InMemoryDataNodeRegistry.UpdateHeartbeat | internal/domain/namenode/memory_registry.go:43-58 | unknown node or refreshed and available |
| Registry.InMemoryDataNodeRegistry.Mark | internal/domain/namenode/memory_registry.go:60-71 | unknown node or unavailable, all else unchanged |
| Registry.InMemoryDataNodeRegistry.GetAllAvailable | internal/domain/namenode/memory_registry.go:73-87 | the loop computes the specified listing |
| Registry.InMemoryDataNodeRegistry.Sweep | internal/domain/namenode/health_monitor.go:134-155 | undisturbed, exactly the nodes silent for the timeout become unavailable |
| Liveness.SweepAnswer | internal/domain/namenode/health_monitor.go:134-155 | only a tick moves the clock; a sweep reads it first, copies the available nodes later and looks at the copies one by one |
| Liveness.NeverMarked | internal/domain/namenode/health_monitor.go:134-145 | under every interleaving a node whose heartbeat gaps stay below the timeout is available throughout |
| Liveness.UnavailableWasSilent | internal/domain/namenode/health_monitor.go:134-145 | a node found unavailable had earlier been silent for the timeout |
| Liveness.SilentNodeIsMarked | internal/domain/namenode/health_monitor.go:134-145 | a node silent for the timeout when a sweep begins is unavailable once it ends, and stays so while silent |
| Liveness.LateHeartbeatIsOverruled | internal/domain/namenode/health_monitor.go:135-145 | a heartbeat that arrives after the copy of a silent node does not save it |
| Liveness.HeartbeatHonouredIff | internal/domain/namenode/health_monitor.go:134-145 | in every reachable state an available, recent node stays available in every continuation that keeps it recent exactly when the running sweep holds no copy old enough to condemn it |
| Liveness.HeartbeatRevives | internal/domain/namenode/memory_registry.go:43-58 | in every reachable state the heartbeat of a known node makes it available as of now, with the reported figures, and it is in every listing; that of an unknown node does nothing |
| Liveness.RegistrationRevives | internal/domain/namenode/memory_registry.go:25-41 | so does a registration with an id and an address; any other does nothing |
| Liveness.ServiceChangesIff | internal/domain/namenode/memory_registry.go:25-71 | a node becomes available exactly by its own heartbeat or valid registration, and unavailable exactly when the sweep examines a copy of it that is old enough |
| Placement.ListingLength | internal/domain/namenode/memory_registry.go:73-87 | the listing has as many nodes as are available, no node twice |
| Placement.ReplicasAreDistinctNodes | internal/namenode/server.go:360-407 | a request for a chunk succeeds exactly when the file is in the caller's namespace and as many nodes are available as the factor says; the file then has one more chunk, on exactly that many distinct available nodes |
| Replicator.ClientAnswer | internal/auditsvc/replication.go:65-82 | setting and dropping the client changes just the two flags |
| Replicator.PushAnswer | internal/auditsvc/replication.go:86-106 | sent at once, buffered, or refused by a full buffer; a failed send drops the client |
| Replicator.DrainAnswer | internal/auditsvc/replication.go:110-127 | with a client the buffer is delivered from the front until a send fails, and all of it if none does |
| Replicator.ReconnectDeliversAll | internal/auditsvc/replication.go:65-127 | after any run, a new client and a drain without failure deliver everything that was accepted |
| Replicator.NothingLostOrDuplicated | internal/auditsvc/replication.go:65-127 | over every run and every pattern of failures, delivered plus buffered is exactly what was accepted and the buffer respects its limit |
| Replicator.StepInOrderIff | internal/auditsvc/replication.go:86-106 | an operation keeps the order of acceptance exactly when it does not send past a different buffered entry |
| Replicator.DeliveredInOrder | internal/auditsvc/replication.go:65-127 | as long as no push overtakes, delivered followed by buffer is the accepted sequence |
| Replicator.DeliveredInOrderIff | internal/auditsvc/replication.go:65-127 | over every run that repeats no entry the order is kept exactly when no push overtook |
| Replicator.RepetitionRestoresOrder | internal/auditsvc/replication.go:86-106 | with repeated entries an overtaken order can come right again |
| Replicator.Replicator.constructor | internal/auditsvc/replication.go:54-61 | an empty replicator |
| Replicator.Replicator.SetClient | internal/auditsvc/replication.go:65-71 | the specified step |
| Replicator.Replicator.Disconnect | internal/auditsvc/replication.go:74-82 | the specified step |
| Replicator.Replicator.Push | internal/auditsvc/replication.go:86-106 | the specified step; it is refused exactly when it cannot be sent and the buffer is full |
| Replicator.Replicator.Drain | internal/auditsvc/replication.go:110-127 | the specified step; it reports success exactly when there is no client or everything was sent |
| OfflineBuffer.SplitInvertsJoin | internal/offline/buffer.go:117-130 | splitting gives back the joined lines and an incomplete last one |
| OfflineBuffer.WrittenIsPending | internal/offline/buffer.go:150-164 | a rewritten file holds exactly the operations written, in order |
| OfflineBuffer.WriteAddsIff | internal/offline/buffer.go:61-65 | queueing adds the operation exactly when the file is empty or ends in a newline |
| OfflineBuffer.NothingLostIff | internal/offline/buffer.go:85-115 | over every run of writes, replays and reopenings from any file, what the file holds plus what was applied is what it held plus what was queued exactly when the file ended in a newline or was replayed before anything was queued; then operations of unknown kind, such as wrapped corrupt lines, are never lost |
| OfflineBuffer.NothingLost | internal/offline/buffer.go:85-115 | in particular from every file that ends in a newline; the file always does so afterwards and only known kinds are applied |
| OfflineBuffer.BufferAnswer | internal/offline/buffer.go:52-65 | an open buffer appends one line and a closed one refuses; opening makes it writable and leaves the file alone |
| OfflineBuffer.ReplayKeepsTheRejected | internal/offline/buffer.go:97-115 | after a replay the file holds exactly the operations of unknown kind or rejected by the replayer, and the others are applied, both in file order |
| OfflineBuffer.FileHeld | internal/offline/buffer.go:97-107 | a file holds one operation for each non-empty line, in order: what the line says, or the line itself wrapped as an operation of unknown kind |
| OfflineBuffer.WritableAfterReplayIff | internal/offline/buffer.go:150-164 | after a replay the handle accepts writes exactly when something was kept, or the file was empty and it did before |
| OfflineBuffer.SplitLines | internal/offline/buffer.go:117-130 | the scanning loop computes the specified lines |
| OfflineBuffer.AttemptAll | internal/offline/buffer.go:97-112 | every parsable operation is attempted once in file order; failures and wrapped corrupt lines are kept in order |
| OfflineBuffer.Buffer.Write | internal/offline/buffer.go:61-65 | the operation is appended, or refused on a closed handle |
| OfflineBuffer.Buffer.Replay | internal/offline/buffer.go:85-115 | file, handle and applied operations as specified |
| OfflineBuffer.Buffer.Rewrite | internal/offline/buffer.go:150-164 | the file is the kept operations; the handle is open exactly when there are any |
| ChunkStream.AssembleInvertsSent | internal/datanode/server.go:46-61 | however a chunk is cut into blocks, its bytes are assembled under its id |
| ChunkStream.AssembleMeaning | internal/datanode/server.go:46-61 | a stream that breaks before a last block fails; otherwise the blocks up to the last one, or the end, are the chunk, under the first non-empty id |
| ChunkStream.StreamIsPrefix | internal/datanode/server.go:94-124 | for any short reads the output is a prefix of the rest, covers the amount asked for and overshoots by less than a block |
| ChunkStream.StreamShape | internal/datanode/server.go:99-117 | block indices are consecutive (32-bit) and IsLast is on exactly the final block |
| ChunkStream.UnlimitedReadIsExact | internal/datanode/server.go:77-127 | without a limit exactly the bytes from the offset on are sent |
| ChunkStream.ReadBackWhatWasWritten | internal/datanode/server.go:42-127 | writing in any blocks and reading back gives the bytes from the offset on |
| ChunkStream.LimitIsExactIff | internal/datanode/server.go:94-117 | with full reads a limit is met exactly when it is a multiple of the block size or reaches the end |
| ChunkStream.LimitIsExactForAllReadsIff | internal/datanode/server.go:94-117 | every pattern of short reads meets the limit exactly when the limit reaches the end |
| ChunkStream.KeepsChunksIff | internal/datanode/chunkstore.go:47-64 | a write leaves all chunks that were there alone exactly when its id was new, the file could not be created or the same bytes were stored |
| ChunkStream.WriteAnswer | internal/datanode/chunkstore.go:27-64 | a write is acknowledged exactly for an acceptable id and a disk that stores it all, and the chunk is then exactly the data; otherwise it is as before, or gone if the copy failed; no other chunk is touched |
| ChunkStream.ExistsIff | internal/datanode/chunkstore.go:100-107 | a stored chunk and the data directory itself count as present, nothing else does |
| ChunkStream.ReadAnswer | internal/datanode/server.go:77-127 | a read sends the bytes from the offset on, or a prefix of them that covers the limit and overshoots by less than a block |
| ChunkStream.WriteThenRead | internal/datanode/server.go:42-127 | through the server: what was written in any blocks is acknowledged and read back, and no other chunk changes |
| ChunkStream.ReplicateThenRead | internal/datanode/server.go:77-178 | likewise for a chunk from a peer; one that was there is acknowledged with zero bytes and read back as it was |
| ChunkStream.Server.WriteChunk | internal/datanode/server.go:42-73 | stores the assembled bytes under a valid id; refuses a broken stream, an invalid id and the data directory; a failed copy removes the chunk |
| ChunkStream.Server.ReplicateChunk | internal/datanode/server.go:139-178 | what exists already, the data directory included, is acknowledged with zero bytes; no chunk that was there is ever changed, whatever the disk does |
| ChunkStream.Server.ReadChunk | internal/datanode/server.go:77-127 | the loop sends the specified blocks, or reports a missing chunk |

## Left out

- Raft elections and log replication, BoltDB and TCP transport: one committed log, applied in order, is taken as given.
- gRPC, FUSE, gateway, CLI, configuration, metrics, tracing, JWT, TLS, bcrypt and the AES-GCM keyring: wrappers or plumbing.
- The primality of 2^256-189: secret sharing is stated for any prime.
- JSON, base64 and SHA-256 themselves: parameters, with injectivity or round trips assumed where stated, over valid text.
- Idempotence.ReplayTwiceIff: for guarded logs; a log that falls out of step and happens to end in the same store is not characterised.
- Idempotence.ReplayingTwiceIff: likewise, for runs with guarded logs.
- Concurrent handlers beyond the order of store changes and log appends: each store method is atomic, as its lock makes it.
- `HealthMonitor.Start` and `Stop`, `Replicator.Shutdown`, `LookupFile`, `StatFile`, `ListNodes`, `Pending`: lifecycle and read-only wrappers.
- The roles, port and session count of a datanode: copied and never read by the modelled operations.
