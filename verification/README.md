# ShadowVault, modelled and verified in Dafny

ShadowVault is a deduplicating backup agent: files are cut into chunks, chunks are encrypted into a
content-addressed block store, signed snapshots list the chunks, a collector removes what no snapshot
references, and peers exchange chunks over a gossip topic. This project models that logic and proves what it
keeps, on every input, every run and every interleaving.

`dafny verify dfyconfig.toml` checks the whole project.

## How it is organised

| file | component |
|---|---|
| `Store.dfy` | the block store, its two ways of addressing a block, and what any sequence of writers keeps |
| `Chunker.dfy` | the FNV-1a cut-point scan, and what a whole stream loses |
| `Versioning.dfy`, `Backup.dfy`, `Restore.dfy` | the snapshots bucket, snapshot creation, the restore loop and the round trip |
| `Collector.dfy` | one collector run with arbitrary database failures |
| `CollectorRace.dfy` | collector runs interleaved, transaction by transaction, with backups, peers and other runs |
| `Base64.dfy`, `Messages.dfy`, `ChunkFetcher.dfy` | signed messages, the two message handlers, a transfer between peers |
| `FetchProtocol.dfy`, `FanOut.dfy`, `Sync.dfy` | concurrent chunk fetching: pending map, channels, semaphore, wait group, and when the calls of a sync share a hash |
| `Verifier.dfy` | verification, quick check and repair |
| `CanonicalJson.dfy`, `Utf8.dfy` | the canonical snapshot text, its bytes, and a decoder for them |
| `Scheduler.dfy`, `Shutdown.dfy`, `RateLimit.dfy` | retry machine, shutdown hooks, header parser and memory accounting |
| `GcmFile.dfy` | the encrypted file container |
| `EndToEnd.dfy` | backup, collector and restore put together in one interleaved run |
| `Prelude.dfy`, `Crypto.dfy`, `Decimal.dfy` | shared vocabulary |

Code that updates objects is modelled by classes whose methods are specified by functions of the old state;
concurrent code is modelled by transition systems whose steps are the critical sections and database
transactions of the source. SHA-256, AES-GCM, Ed25519, key derivation, JSON serialisation of records and RFC 3339
parsing are parameters. The laws assumed of the cryptography (`Crypto.Lawful`, `Crypto.Authentic`, `Crypto.KeyPair`,
`Crypto.Separates`, `Crypto.Unforgeable`, and `Crypto.CollisionFree` for the byte strings in play only) are `requires`
clauses of the lemmas that need them; `Crypto.LawsHaveAModel` and `Crypto.UnforgeabilityHasAModel` show that they can be met. Random numbers, the
clock, database failures, what a reader returns and what the scheduler of goroutines does are parameters too,
so every statement holds for all of their behaviours.

## Where the code does less than one would expect

The model follows the code. In these places the code does not meet what its tests, comments or documentation
suggest. The named lemmas show how it fails and, as an if-and-only-if, when it does not.

- Chunking drops the part of a read behind a cut (`Chunker.LossExample`); the chunker's own test expects no loss. It
  gives back the content of a reader exactly when no position before the last byte of a read passes the cut test and no
  empty read without an error comes before further bytes (`Chunker.LosslessIff`, `Restore.BackupLosslessIff`).
- The writes of a backup and the save of its snapshot are separate transactions. A backup that overlaps a sweep can end
  with a dangling reference (`CollectorRace.BackupDuringSweepDangles`), and so can one that has a whole collector run
  between a write and the save (`CollectorRace.CollectionBeforeSaveDangles`). Call a mark blind to a chunk if no stored
  snapshot references the chunk when the run marks. A written chunk survives every future without a blind mark exactly
  when no run in flight threatens it (`CollectorRace.WindowSafeIff`), and a mark starts a threat exactly when it is blind
  (`CollectorRace.MarkThreatensIff`). Once saved, the chunk survives every future in which its snapshot stays exactly when
  no run in flight threatens it (`CollectorRace.SafeForeverIff`), and the whole snapshot restores in every future
  without a response on its hashes exactly when it restores now and none of its chunks is threatened
  (`CollectorRace.RestoresForeverIff`).
- A response on the key of a backed-up chunk must carry the plaintext and replaces the encrypted block, after which the
  chunk no longer reads back (`CollectorRace.ResponseReplacesBlock`). An unthreatened snapshot that restores now still
  restores at the end of a run exactly when no response of the run lands on its hashes (`CollectorRace.RestoresIffQuiet`).
  For a backup inside a run: exactly when each chunk found its key free or holding that chunk at its write, and no
  response has landed on it since (`EndToEnd.SavedBackupRestoresIff`).
- The payload that requests and responses sign joins two fields with a separator that is not escaped, so different
  fields can share a payload (`Messages.FramingAmbiguous`). A request's payload determines its fields exactly when
  neither contains the separator (`Messages.RequestDeterminedIff`); for a response with decodable data, exactly when its
  hash does not (`Messages.ResponseDeterminedIff`).
- Blocks are keyed by their plaintext when backed up, but the verifier and the peers hash the stored bytes. So a fresh
  backup is reported corrupted (`Verifier.FreshBackupReportedCorrupt`); verification after a backup succeeds exactly when
  every chunk was already stored and good before it (`Verifier.VerifiesAfterBackupIff`). Peers do not accept such blocks
  (`ChunkFetcher.BackupBlocksDoNotTransfer`); a block arrives exactly when it hashes to its key (`ChunkFetcher.TransferIff`).
- Every process derives its key with a fresh random salt, the restore program included. Under the key of the backup the
  backup is restored completely exactly when the old blocks were compatible with it; under a key that opens none of that
  key's ciphertexts, exactly when every chunk was already stored readable under that key (`Restore.RestoreKeyIff`).
  So from an empty repository a non-empty snapshot is never restored under such a key (`Restore.FreshRestoreKeyIff`).
- Snapshots taken in the same second replace each other (`EndToEnd.BackupsRemainIff`), against what the integration tests
  expect of several quick backups.
- Two fetches of one hash can lose a wake-up (`FetchProtocol.SharedHashLosesWakeup`); a fetch keeps its entry, and is found
  by a response, exactly as long as no other fetch of its hash registers or exits (`FetchProtocol.EntryKeptIff`,
  `FetchProtocol.ResponseReachesIff`). If no two live fetches ever share a hash, none is lost
  (`FetchProtocol.UniqueFetchIsWoken`). A sync starts one fetch per occurrence of a missing hash, so a snapshot that
  lists a missing hash twice makes two (`FanOut.RepeatedHashSpawnsTwice`); live fetches never share a hash, whatever the
  interleaving, exactly when the hashes fetched are pairwise different (`Sync.UniqueIffDistinct`).
- A tick starts a task again while its previous run is still going (`Scheduler.RunningTaskRestarts`,
  `Scheduler.OverlapBreaksSpacing`). Its starts are spaced exactly when no tick does so within a gap of the latest start
  (`Scheduler.SpacedIff`).
- The shutdown goroutines share one loop variable (the module declares Go 1.21), so a goroutine scheduled after its
  deadline calls a later hook (`Shutdown.LateGoroutineSkipsHook`), and one that is not scheduled before the process exits calls none
  (`Shutdown.UnscheduledGoroutineSkipsHook`). Every hook is called exactly when each goroutine runs in its own iteration
  (`Shutdown.EveryHookCalledIff`).
- A memory request that overflows 64 bits is admitted (`RateLimit.OverflowIsAdmitted`); admission is right exactly when the
  sum stays within 64 bits (`RateLimit.AdmissionExactIff`), and the accounting is always right exactly when no sum of a
  history leaves them (`RateLimit.AccountingExactIff`).
- The encryption tool checks neither its reads nor its writes and reports success all the same; what lies on disk is the
  container of the whole file exactly when every read delivered and every write arrived (`GcmFile.EncryptionCompleteIff`).
- The decryption tool writes the decrypted text before it checks the tag, so a container with an altered tag is rejected
  after its whole plaintext has been written (`GcmFile.AlteredTagLeavesText`). A rejected file leaves text behind exactly
  when it has a proper header, bytes to decrypt and a tag that differs (`GcmFile.RejectedLeavesTextIff`).
- The length of the ciphertext reaches OpenSSL as a 32-bit int, so a plaintext comes back from its container exactly when
  it is shorter than 2^31 bytes (`GcmFile.ContainerRoundTripIff`, and with failing calls `GcmFile.DecryptionCompleteIff`).

## Model

| member | source | states |
|---|---|---|
| Store.Store.Open | internal/storage/store.go:19-27 | a store opens over what the database holds exactly on a 32-byte master key |
| Store.Store.PutChunk | internal/storage/store.go:30-54 | returns the plaintext hash; writes nonce and ciphertext only under an absent key; existing blocks never change; succeeds exactly when the transaction commits and a new block finds randomness, and names which of the two failed |
| Store.Store.GetChunk | internal/storage/store.go:57-78 | decrypts the stored blob after its 12-byte nonce; distinguishes missing, malformed and undecryptable blocks |
| Store.Store.Get | internal/storage/store.go:81-93 | the stored bytes, or not found |
| Store.Store.Put | internal/storage/store.go:96-103 | overwrites unconditionally when the transaction commits |
| Store.Store.Delete | internal/storage/store.go:106-113 | removes exactly the one key when the transaction commits |
| Store.Store.ListAll | internal/storage/store.go:116-126 | every key exactly once, in ascending order |
| Store.Store.Exists | internal/storage/store.go:129-138 | whether the key is present |
| Store.FreshBlockReadsBack | internal/storage/store.go:42-48 | a newly written block reads back as its plaintext and is 28 bytes longer |
| Store.PutChunkReadsBackIff | internal/storage/store.go:36-53 | after a successful write a chunk reads back as itself exactly when its key was free or already held a block that opens to it |
| Store.DualAddressInvariant | internal/storage/store.go:30-113 | over any sequence of backups, accepted responses and deletions, every key stays the hash of the stored blob or of the plaintext it opens to |
| Store.Perform | internal/storage/store.go:30-113 | the three kinds of writers, carried out by the store's own operations, change the bucket as the invariant assumes |
| Store.DualAddressFromEmpty | internal/storage/store.go:30-113 | the same for all runs from an empty store |
| Store.DisciplinesExclude | internal/storage/store.go:42-48 | a block written by a backup is addressed by its plaintext and never also by the hash of its stored bytes |
| Chunker.CutLength | internal/chunker/chunker.go:43-60 | the chunk ends at the least position at or after the minimum whose prefix hashes to 13 zero low bits, else at the end of the read |
| Chunker.CutLengthUnique | internal/chunker/chunker.go:43-60 | that description determines the length |
| Chunker.BoundaryIff | internal/chunker/chunker.go:32-34 | the cut test passes exactly for the hashes that are multiples of 8192 |
| Chunker.FnvVectors | internal/chunker/chunker.go:43-52 | the hash has the published FNV-1a values of "", "a" and "foobar" |
| Chunker.Cut | internal/chunker/chunker.go:50-61 | a chunk is a prefix of its read, longer than the minimum if shorter than the read, and empty only for an empty read |
| Chunker.Chunker.Next | internal/chunker/chunker.go:36-62 | one read is consumed; the incremental loop returns the prefix so described, at most the maximum long, or the reader's error on an empty read |
| Chunker.NothingElseLost | internal/chunker/chunker.go:36-62 | over a stream, chunks and discarded tails pair up to exactly what was read |
| Chunker.CutShortIff | internal/chunker/chunker.go:50-61 | a chunk is shorter than its read exactly when a position before the last byte passes the cut test |
| Chunker.TakenIffNoStall | internal/snapshots/snapshot.go:45-47 | what is taken from a reader is a beginning of its content, and all of it exactly when no empty read without an error comes before further bytes |
| Chunker.TakenLosslessIff | internal/chunker/chunker.go:36-62 | of what is taken nothing is lost exactly when no position before the last byte of a read passes the cut test |
| Chunker.LosslessIff | internal/chunker/chunker_test.go:12-33 | the chunks concatenate to the content of the reader exactly when no position before the last byte of a read passes the cut test and no empty read without an error comes before further bytes |
| Chunker.LossExample | internal/chunker/chunker_test.go:30-32 | a three-byte file within the configured bounds loses its last byte |
| Chunker.WholeExample | internal/chunker/chunker.go:43-61 | a three-byte read without a boundary comes back whole |
| Versioning.SnapshotDB.SaveSnapshot | internal/versioning/version.go:21-30 | stores the record under its ID, replacing any other; records stay keyed by their ID |
| Versioning.SnapshotDB.LoadSnapshot | internal/versioning/version.go:32-46 | the record with that ID, or not found |
| Versioning.SnapshotDB.ListAllSnapshots | internal/versioning/version.go:51-65 | every stored record exactly once, in ascending order of the IDs |
| Versioning.SnapshotDB.DeleteSnapshot | internal/versioning/version.go:68-73 | removes exactly the one ID |
| Versioning.SaveAllContents | internal/versioning/version.go:21-30 | after several saves the IDs present are exactly those saved |
| Versioning.LastSaveWins | internal/versioning/version.go:21-30 | the last record saved under an ID is the one that stays |
| Versioning.AllSavesSurviveIff | internal/versioning/version.go:21-30 | n saves leave n records exactly when the IDs are pairwise different |
| Backup.StoreFile | internal/snapshots/snapshot.go:31-48 | one file: the chunks Next produces are stored in order up to end of file, an error or an empty chunk, and their hashes noted in order; on a store failure exactly the chunks before it are stored |
| Backup.StoreWalk | internal/snapshots/snapshot.go:21-51 | the walk: every regular file in order with its hashes, ending at the first failure |
| Backup.CreateSnapshot | internal/snapshots/snapshot.go:18-70 | succeeds exactly when the walk is readable and every write commits; entry i of the returned record is the hash of chunk i of the walk, and its ID, parent, timestamp, source, key and signature are those of the call; a failure says whether reading or storing failed and leaves exactly the chunks before it stored |
| Backup.RecordContents | internal/snapshots/snapshot.go:56-67 | what a record says, field by field |
| Backup.RecordAnnounces | internal/snapshots/snapshot.go:64-67 | the signature of a created record validates at any peer that serialises records the same way |
| Backup.SuccessOfPrefix | internal/snapshots/snapshot.go:40-44 | if all writes succeed, the writes of every prefix do |
| Restore.Readable | cmd/backup-agent-restore/main.go:61-65 | the restore loop stops exactly at the first unreadable hash |
| Restore.RestoreFile | cmd/backup-agent-restore/main.go:61-69 | writes the decrypted chunks in order and stops at the first unreadable hash or failing write; keeps what was written until then and reports the error |
| Restore.WrittenAllContents | internal/snapshots/snapshot.go:40-44 | a series of writes keeps old blocks and adds only keys that read back as written chunks |
| Restore.ChunksReadBackIff | internal/snapshots/snapshot.go:32-48 | after a complete backup all chunks read back as themselves exactly when the old store was compatible with them |
| Restore.RoundTrip | cmd/backup-agent-restore/main.go:61-69 | after a backup whose writes all succeeded, restoring yields the concatenation of its chunks in order, for any deduplication pattern and compatible old contents |
| Restore.OneKeyStoreIsCompatible | internal/storage/store.go:36-48 | a store whose every block is addressed by its plaintext under one key is compatible with every new backup |
| Restore.LaterBackupsKeepRestores | internal/storage/store.go:38-41 | later backups never change what an earlier snapshot restores to |
| Restore.FileSourceBytes | internal/snapshots/snapshot.go:32-48 | the stored bytes of a readable file are the stream the chunker returned |
| Restore.BackupLosslessIff | internal/snapshots/snapshot.go:21-51 | the stored chunks are the contents of all files exactly when no position before the last byte of a read of any file passes the cut test and none of their readers stalls |
| Restore.RestoreKeyIff | internal/agent/agent.go:44-45 | over any repository, a restore under the key of the backup is complete exactly when the old blocks were compatible; under a key separated from it, exactly when every chunk was already stored readable under that key |
| Restore.ReadsUnderOther | internal/agent/agent.go:44-45 | after a backup, old blocks read under any key as before; a new block reads as its chunk under the key of the backup and fails to decrypt under a key separated from it |
| Restore.FreshRestoreKeyIff | cmd/backup-agent-restore/main.go:43-65 | from an empty repository, all hashes of a non-empty snapshot are readable under the key of the backup, and not even the first under a key separated from it |
| Restore.NewBlocksAreBackups | internal/storage/store.go:42-48 | every block a backup adds to a repository is an encryption of one of its chunks under the plaintext hash |
| Restore.SealedElsewhere | internal/storage/store.go:71-77 | such a block fails to decrypt under a key separated from it |
| Collector.DeleteOldSnapshots | internal/gc/collector.go:117-148 | exactly the records parsed as older than the cutoff whose deletion commits are removed, and counted |
| Collector.FindReferencedChunks | internal/gc/collector.go:151-165 | exactly the hashes some stored snapshot lists |
| Collector.DeleteUnreferencedChunks | internal/gc/collector.go:168-202 | exactly the unreferenced blocks whose size can be read and whose deletion commits are removed; block count and bytes are conserved against the reported numbers |
| Collector.Run | internal/gc/collector.go:74-114 | the three phases in order; the first listing error is reported and leaves the later phases undone; counts and bytes are conserved |
| Collector.DeletedThroughContents | internal/gc/collector.go:128-145 | what the deletion loop leaves after any prefix of the listing |
| Collector.SweptThroughContents | internal/gc/collector.go:180-199 | what the sweep leaves after any prefix of the listing |
| Collector.TotalBytesRemove | internal/gc/collector.go:188-197 | removing a block lowers the total by its size |
| Collector.CollectionIsExact | internal/gc/collector.go:117-202 | without failures: exactly the unexpired or unparseable snapshots, and exactly the blocks they reference, unchanged |
| Collector.CollectionIsIdempotent | internal/gc/collector.go:74-114 | a second run at the same cutoff changes nothing |
| Collector.NoReferenceBroken | internal/gc/collector.go:151-199 | under any failures, a reference of a surviving snapshot that resolved still resolves to the same block |
| Collector.FaultsOnlyDelay | internal/gc/collector.go:138-194 | a clean run after a faulty one ends where a clean run alone would have |
| CollectorRace.StepKeepsChunk | internal/gc/collector.go:151-202 | one transaction of anybody keeps an unthreatened chunk of a stored snapshot present and unthreatened |
| CollectorRace.UnthreatenedStep | internal/gc/collector.go:151-202 | one transaction of anybody, blind marks aside, keeps an unthreatened key unthreatened and its block in place |
| CollectorRace.OthersAreFree | internal/gc/collector.go:81-100 | at any time a run may end early, a backup may write and save, and a matching response may be accepted |
| CollectorRace.MarkThreatensIff | internal/gc/collector.go:151-165 | a mark starts a threat to a key exactly when no stored snapshot references it |
| CollectorRace.StoredSnapshotKeepsChunk | internal/gc/collector.go:151-202 | over any interleaving a snapshot that stays stored keeps every unthreatened chunk, whose block changes only through an accepted response |
| CollectorRace.WindowKeepsChunk | internal/snapshots/snapshot.go:40-44 | between its write and the save of its snapshot an unthreatened chunk keeps its block and stays unthreatened over any interleaving without a blind mark, unless a response replaces the block |
| CollectorRace.StrikeDeletes | internal/gc/collector.go:180-194 | a run that threatens a key deletes it by going on through the sweep in ascending order without a failure, while every snapshot stays stored and nobody marks |
| CollectorRace.WindowSafeIff | internal/gc/collector.go:81-100 | a written chunk, referenced or not, survives every future without a blind mark exactly when no run in flight threatens it |
| CollectorRace.SafeForeverIff | internal/gc/collector.go:81-100 | a stored snapshot's chunk survives every future exactly when no run in flight threatens it |
| CollectorRace.RestoresForeverIff | internal/gc/collector.go:81-100 | a stored snapshot restores in every future in which it stays stored and no response lands on its hashes exactly when it restores now and no run in flight threatens its chunks |
| CollectorRace.MarkedSinceIsMarkedWith | internal/gc/collector.go:151-165 | a run whose mark fell into the time a snapshot has been stored holds references to all its chunks |
| CollectorRace.MarkedRunsKeepRestore | internal/gc/collector.go:168-202 | if the references of every run past its mark include the chunks, the snapshot restores to the same bytes as long as it stays stored and no response lands on its hashes |
| CollectorRace.RestoreUnchanged | internal/gc/collector.go:151-202 | if every run in flight that is past its mark marked while the snapshot was already stored, then as long as it stays stored and no response lands on its hashes it restores to the same bytes |
| CollectorRace.BackupDuringSweepDangles | internal/api/server.go:156-160 | a backup deduplicating against an already listed block ends with a dangling reference |
| CollectorRace.RaceIsReachable | internal/gc/collector.go:81-92 | the starting point of that race is reached by an ordinary run |
| CollectorRace.CollectionBeforeSaveDangles | internal/api/server.go:234-238 | a whole collector run between the write of a chunk and the save of its snapshot leaves the saved snapshot with a dangling reference and no run in flight |
| CollectorRace.ResponseReplacesBlock | internal/p2p/sync.go:134-138 | a response on the key of a chunk can only carry its plaintext, replaces the block by it, and the chunk no longer reads back |
| CollectorRace.ResponseLeavesRaw | internal/p2p/sync.go:134-138 | a response on the key of a stored, unthreatened snapshot's chunk at any point of a run leaves the raw plaintext there at its end |
| CollectorRace.RestoresIffQuiet | internal/p2p/sync.go:127-138 | a stored, unthreatened snapshot that restores now still restores at the end of any run in which it stays stored exactly when no response lands on its hashes |
| CollectorRace.PruneAll | internal/gc/collector.go:128-145 | the deletion transactions, scheduled alone, remove what the sequential loop removes |
| CollectorRace.SweepAll | internal/gc/collector.go:180-199 | the sweep transactions, scheduled alone, remove what the sequential loop removes |
| CollectorRace.UninterruptedRunIsSequential | internal/gc/collector.go:74-114 | the transactions of a run without interference compose to the sequential run with the same deletion and size failures |
| Base64.RoundTrip | internal/p2p/sync.go:121-125 | decoding an encoded byte string gives it back |
| Base64.GroupInverse | internal/p2p/sync.go:176-177 | each padded group of up to three bytes is recovered |
| Base64.DecodableInAlphabet | internal/p2p/sync.go:121-125 | a text that decodes consists of letters of the alphabet, padding and line breaks |
| Base64.Rfc4648Vectors | internal/p2p/sync.go:176-177 | the letters of a group agree with the vectors "f", "fo" and "foo" of section 10 of RFC 4648 |
| Base64.LettersAre | internal/p2p/sync.go:176-177 | the 64 letters are those of table 1 of RFC 4648 |
| Base64.GroupSpells | internal/p2p/sync.go:176-177 | three octets and the four letters of their group spell the same 24-bit number |
| Base64.LineBreaksIgnored | internal/p2p/sync.go:121-125 | a line break anywhere in a text to be decoded makes no difference |
| Messages.SignedValidates | internal/protocol/messages.go:55-69 | a signature made with a key pair validates |
| Messages.ValidationCases | internal/protocol/messages.go:55-69 | validation succeeds, panics or fails to decode exactly under these conditions on what signature and key decode to, success only if the signature verifies |
| Messages.RequestValidIff | internal/protocol/messages.go:55-69 | a request is valid exactly when its signature verifies for its hash and requestor under the key it names |
| Messages.ResponseValidIff | internal/protocol/messages.go:80-94 | a response is valid exactly when its signature verifies for its hash and data under the key it names |
| Messages.AnnouncementValidIff | internal/protocol/messages.go:18-44 | an announcement is valid exactly when its signature verifies for the record without the signature |
| Messages.OwnMessagesValidate | internal/p2p/sync.go:60-70 | every request, response and announcement a node signs passes the peers' validation and carries what it was made for |
| Messages.PayloadInjective | internal/protocol/messages.go:55-94 | among messages whose hashes contain no separator the signed payload determines both fields |
| Messages.FramingAmbiguous | internal/protocol/messages.go:56 | a separator in either field makes two different pairs of fields share a payload |
| Messages.DeterminedIff | internal/protocol/messages.go:56 | a payload determines its fields exactly when neither of them contains a separator |
| Messages.RequestDeterminedIff | internal/protocol/messages.go:55-69 | the payload of a request determines hash and requestor exactly when neither contains a separator |
| Messages.ResponseDeterminedIff | internal/protocol/messages.go:80-94 | the payload of a response with decodable data determines hash and data exactly when the hash contains no separator |
| Messages.DecodableResponsesDetermined | internal/p2p/sync.go:114-125 | among responses whose data decodes the payload always determines both fields |
| Messages.ValidResponseIsGenuine | internal/protocol/messages.go:80-94 | if nothing verifies under a key but what its owner signed, a valid response with decodable data is in hash and data one the owner made, or has the payload of another message the owner signed |
| ChunkFetcher.CheckResponse | internal/p2p/sync.go:114-132 | an accepted response validates and its data hashes to its key |
| ChunkFetcher.PassesIff | internal/p2p/sync.go:114-132 | a response passes the checks exactly when its signature verifies, its data decodes and the data hashes to its key |
| ChunkFetcher.AnsweredIff | internal/p2p/sync.go:158-183 | a request is answered exactly when its signature verifies and the block is stored, with the block under the requested hash; it fails exactly when the signature does not verify |
| ChunkFetcher.Channel.TrySend | internal/p2p/sync.go:142-145 | a full channel keeps its value; an empty one takes the data |
| ChunkFetcher.ChunkFetcher.HandleChunkResponse | internal/p2p/sync.go:111-150 | panics exactly on a signer key of the wrong length; accepted exactly when all checks pass and the write commits, then stored under its hash and offered to the waiting channel; otherwise the first failing check is reported and nothing changes |
| ChunkFetcher.ChunkFetcher.HandleChunkRequest | internal/p2p/sync.go:153-205 | panics exactly on a signer key of the wrong length; answers valid requests for stored blocks, is silent for absent ones |
| ChunkFetcher.TransferIff | internal/p2p/sync.go:111-183 | a transfer leaves the responder's bytes at the requester exactly when they hash to the requested key, and otherwise changes nothing |
| ChunkFetcher.BackupBlocksDoNotTransfer | internal/p2p/sync.go:127-132 | a block keyed by its plaintext is never accepted |
| ChunkFetcher.TransferredBlocksTravelOn | internal/p2p/sync.go:111-183 | a block that did arrive arrives unchanged at a third peer |
| FetchProtocol.StepKeepsPending | internal/p2p/sync.go:82-84 | every step keeps each pending entry owned by a live fetch of its hash |
| FetchProtocol.StepKeepsInv | internal/p2p/sync.go:81-146 | every step of fetches, handlers and other writers keeps the global invariant |
| FetchProtocol.RunKeepsInv | internal/p2p/sync.go:81-146 | so does every run |
| FetchProtocol.DeliverySafety | internal/p2p/sync.go:97-100 | data a fetch takes from its channel hashes to its hash and had been stored under it |
| FetchProtocol.AnswersIff | internal/p2p/sync.go:54-107 | a call answers exactly what settles it in the run: the local block its check found, the value it took from its channel, or failure by a failed publication or a wait given up |
| FetchProtocol.FailsIff | internal/p2p/sync.go:87-107 | in every run a call ends in failure exactly when its publication failed or its wait was given up |
| FetchProtocol.FetchDelivers | internal/p2p/sync.go:45-146 | a call for a missing chunk that a valid response reaches returns its data, stores it and leaves no entry behind |
| FetchProtocol.LocalIsAnswered | internal/p2p/sync.go:54-58 | a stored chunk is answered from the store |
| FetchProtocol.CallNeverStuck | internal/p2p/sync.go:97-107 | a call that is not over can always move and gets closer to its end, a waiting one by giving up |
| FetchProtocol.EnvironmentIsFree | internal/p2p/sync.go:111-150 | at any time other components may write and delete, and any response that passes the checks may arrive |
| FetchProtocol.RunIsStoreOps | internal/p2p/sync.go:134-138 | over any run the store is what the operations of its writers, in the order of the run, make of it |
| FetchProtocol.PendingMapInvariant | internal/p2p/sync.go:82-84 | in every run entries belong to live fetches of their hash; with none live the map is empty |
| FetchProtocol.HandlerNeverBlocks | internal/p2p/sync.go:134-146 | an unfinished handler can always move and gets closer to its end |
| FetchProtocol.FailedCommitEnds | internal/p2p/sync.go:134-138 | a handler whose write fails is done and leaves nothing behind |
| FetchProtocol.HandlerMovesCompose | internal/p2p/sync.go:134-146 | the handler's moves together do what one undisturbed call does |
| FetchProtocol.OwnershipStep | internal/p2p/sync.go:82-84 | one step takes an entry away exactly when another call for the hash registers or exits |
| FetchProtocol.EntryKeptIff | internal/p2p/sync.go:82-84 | a fetch in flight owns its entry exactly as long as no other call for its hash registered or exited |
| FetchProtocol.ResponseReachesIff | internal/p2p/sync.go:141-146 | a handler that has stored the hash picks the channel of the fetch exactly when no other call for the hash registered or exited since |
| FetchProtocol.UniqueMeansUndisturbed | internal/p2p/sync.go:82-84 | if no two live fetches share a hash, nobody disturbs a fetch |
| FetchProtocol.WakeStep | internal/p2p/sync.go:141-146 | an undisturbed step keeps the promised wake-up |
| FetchProtocol.NoLostWakeup | internal/p2p/sync.go:97-107 | a response stored while a fetch owns its entry leaves its channel full when the handler is done, if the fetch still waits and no other call for the hash interfered |
| FetchProtocol.UniqueMeansAllOwn | internal/p2p/sync.go:82-84 | if every fetch in flight owns its entry at first and no two live fetches ever share a hash, every fetch in flight keeps owning its entry |
| FetchProtocol.UniqueFetchIsWoken | internal/p2p/sync.go:81-146 | if no two live fetches ever share a hash, any response committed while a fetch is registered has filled its channel once the handler is done, if the fetch still waits |
| FetchProtocol.SharedHashLosesWakeup | internal/p2p/sync.go:83-84 | two live fetches of one hash can lose that wake-up |
| FetchProtocol.SharedHashIsReachable | internal/p2p/sync.go:45-95 | that situation is reached from the initial state |
| FanOut.StepKeepsInv | internal/p2p/sync.go:283-311 | every step keeps semaphore and wait group equal to the goroutines they count |
| FanOut.BoundedFanOut | internal/p2p/sync.go:284-302 | never more goroutines inside a fetch than the semaphore has permits |
| FanOut.StepDecreases | internal/p2p/sync.go:288-311 | every step lowers the work left |
| FanOut.ProgressIff | internal/p2p/sync.go:297-311 | before the caller returns some step is possible exactly when the state is not starved |
| FanOut.SyncCompletes | internal/p2p/sync.go:280-313 | with a permit, every run has at most 4n+1 moves, and one that cannot go on has let the caller return with all goroutines finished |
| FanOut.ZeroPermitsStarve | config/config.go:284-286 | without a permit one missing chunk leads to a starved state; the configuration check demands at least one |
| FanOut.SpawnedFrom | internal/p2p/sync.go:288-308 | goroutines are started for hashes of the list only, and for no hash twice if the list has no repetition |
| FanOut.RepeatedHashSpawnsTwice | internal/p2p/sync.go:288-308 | a missing hash listed twice starts two goroutines |
| Sync.FreshRun | internal/p2p/sync.go:45-108 | a run whose calls are all for different hashes never has two live fetches of one hash |
| Sync.UniqueIffDistinct | internal/p2p/sync.go:288-308 | if at most one call is made per occurrence of the given missing hashes, live fetches never share a hash, whatever the interleaving, exactly when the hashes are pairwise different |
| Sync.SyncHashesDistinct | internal/p2p/sync.go:288-308 | a sync of a list without repetition, none of whose hashes anybody else fetches, asks for different hashes only |
| Sync.DistinctCallsAreWoken | internal/p2p/sync.go:81-146 | in a run whose calls are all for different hashes, any response committed while a call is registered has filled its channel once the handler is done, if the call still waits |
| Verifier.Verifier.VerifyChunk | internal/verification/verifier.go:120-152 | missing, corrupted by hash or decryption, or good |
| Verifier.GoodIff | internal/verification/verifier.go:120-152 | a chunk is good exactly when its bytes hash to the key and are what sealing some text under the store's key gives |
| Verifier.ShortRawIsCorrupt | internal/verification/verifier.go:140-149 | a plaintext shorter than 28 bytes that lies raw under its own hash is reported corrupted |
| Verifier.Verifier.VerifySnapshot | internal/verification/verifier.go:46-117 | lists missing and corrupted chunks in order, counts the verified ones, records one error per bad chunk in order; succeeds exactly when both lists are empty |
| Verifier.Verifier.QuickCheck | internal/verification/verifier.go:176-190 | true exactly when every chunk is present |
| Verifier.Verifier.RepairSnapshot | internal/verification/verifier.go:193-230 | fetches the missing chunks in order and reports on the resulting store |
| Verifier.CountsAddUp | internal/verification/verifier.go:78-91 | every chunk is counted in exactly one class |
| Verifier.ReportTotals | internal/verification/verifier.go:67-96 | verified, missing and corrupted add up to the total, and the errors to what is not verified; success means all verified |
| Verifier.ProblemsExact | internal/verification/verifier.go:78-91 | the errors are the unverified chunks, each with its status, in order, and nothing else |
| Verifier.WithExact | internal/verification/verifier.go:78-91 | the lists of missing and of corrupted chunks are those chunks in order, and nothing else |
| Verifier.QuickCheckAgrees | internal/verification/verifier.go:176-190 | the quick check agrees with "nothing missing" in the full report |
| Verifier.ExtensionEffect | internal/verification/verifier.go:208-214 | adding matching blobs under absent keys only moves chunks out of missing |
| Verifier.RepairMonotone | internal/verification/verifier.go:193-230 | with a fetch function that only adds matching blobs under absent keys, repair never lowers the verified count, shortens the missing list to a subsequence and cures no corrupted chunk |
| Verifier.StatusAfterBackup | internal/verification/verifier.go:120-152 | a complete backup leaves the status of a chunk as it was, except that a missing chunk becomes corrupted |
| Verifier.VerifiesAfterBackupIff | internal/verification/verifier.go:46-108 | after a complete backup over any old contents nothing is missing, and verification succeeds exactly when every chunk was already stored and good before |
| Verifier.FreshBackupReportedCorrupt | internal/verification/verifier.go:129-138 | right after a backup into an empty store every chunk is reported corrupted |
| CanonicalJson.StringInverse | tools/verify_snapshot.rs:74 | an escaped, quoted string is read back, whatever follows, by a reader that refuses raw control characters |
| CanonicalJson.EscapeForms | tools/verify_snapshot.rs:74 | exactly seven characters have a two-character escape, exactly the other control characters a six-character one in lower-case digits, and every other character stands for itself |
| CanonicalJson.PlainIff | tools/verify_snapshot.rs:84-87 | exactly the texts without quotes, backslashes and control characters are printed as they are |
| CanonicalJson.QuoteShortest | tools/verify_snapshot.rs:74 | no text that reads as a string is shorter than its quoted form |
| CanonicalJson.NumberInverse | tools/verify_snapshot.rs:100-102 | a printed number is read back |
| CanonicalJson.PrintHashes | tools/verify_snapshot.rs:105-112 | the inner loop prints the separated hashes |
| CanonicalJson.PrintFile | tools/verify_snapshot.rs:97-114 | one file object, fields in fixed order |
| CanonicalJson.PrintFiles | tools/verify_snapshot.rs:91-115 | the outer loop prints the separated file objects |
| CanonicalJson.CanonicalSnapshot | tools/verify_snapshot.rs:67-123 | the pushes produce the UTF-8 bytes of the canonical text |
| CanonicalJson.ListInverse | tools/verify_snapshot.rs:90-116 | a printed list is read back entry by entry |
| CanonicalJson.FileInverse | tools/verify_snapshot.rs:97-114 | a printed file object is read back |
| CanonicalJson.ParentInverse | tools/verify_snapshot.rs:77-81 | an absent parent and a present one are told apart |
| CanonicalJson.DecodeCanonical | tools/verify_snapshot.rs:67-123 | the decoder recovers every field but the signature |
| CanonicalJson.CanonicalInjective | tools/verify_snapshot.rs:67-123 | equal canonical texts mean equal records up to the signature, and conversely |
| CanonicalJson.DecodeCanonicalBytes | tools/verify_snapshot.rs:67-123 | every field but the signature is recovered from the canonical bytes |
| CanonicalJson.CanonicalBytesInjective | tools/verify_snapshot.rs:67-123 | equal canonical bytes mean equal records up to the signature, and conversely |
| CanonicalJson.SpelledFile | tools/verify_snapshot.rs:97-114 | the text of a file entry of plain strings, spelled out |
| CanonicalJson.SpelledSnapshot | tools/verify_snapshot.rs:67-123 | the text of a snapshot of plain strings without parent and files, spelled out |
| Utf8.RoundTrip | tools/verify_snapshot.rs:122 | every string is recovered from its UTF-8 bytes |
| Utf8.Rfc3629Vectors | tools/verify_snapshot.rs:122 | characters of each length encode as in the examples in section 7 of RFC 3629 |
| Decimal.PrintInjective | internal/snapshots/snapshot.go:57 | different numbers print differently |
| Decimal.NoLeadingZero | tools/verify_snapshot.rs:100-102 | a printed number has no leading zero |
| Scheduler.BackupTask.Complete | internal/scheduler/scheduler.go:192-215 | a failure below the limit retries in five minutes; otherwise the next regular run is scheduled and the count reset |
| Scheduler.NextStart | internal/scheduler/scheduler.go:169-215 | after a completion an enabled task is due exactly later than five minutes after a retried failure, and later than its interval after any other end, which becomes its last run |
| Scheduler.Scheduler.AddTask | internal/scheduler/scheduler.go:50-78 | adds a fresh enabled task with that ID and path, due after one interval, unless the ID is taken |
| Scheduler.Scheduler.RemoveTask | internal/scheduler/scheduler.go:81-92 | removes exactly that task, or reports it missing |
| Scheduler.Scheduler.SetEnabled | internal/scheduler/scheduler.go:95-122 | switches one task and nothing else of its plan |
| Scheduler.Scheduler.TasksToRun | internal/scheduler/scheduler.go:164-179 | a tick starts exactly the enabled tasks whose time has passed, running or not |
| Scheduler.RetryCountBounded | internal/scheduler/scheduler.go:195-215 | over any completions the retry count stays below the larger of one and the limit |
| Scheduler.FailuresDivMod | internal/scheduler/scheduler.go:195-209 | n failures after a reset leave n mod M retries and n div M regular reschedules |
| Scheduler.StartsAfterEnd | internal/scheduler/scheduler.go:164-216 | the end of the only run in progress decides which tick starts the task next |
| Scheduler.StartsAfterSwitch | internal/scheduler/scheduler.go:95-122 | a tick after a task was switched on or off starts it exactly if it is on and its time has passed |
| Scheduler.DisabledNeverStarts | internal/scheduler/scheduler.go:110-122 | a disabled task is not started until it is enabled again |
| Scheduler.SpacingInvariant | internal/scheduler/scheduler.go:164-216 | over any events in time order, once no run is in progress the next start lies at least a gap after the latest one |
| Scheduler.SpacedIff | internal/scheduler/scheduler.go:164-216 | consecutive starts are more than a gap apart exactly when no tick starts the task within a gap of its latest start while a run is in progress |
| Scheduler.StartsAreSpaced | internal/scheduler/scheduler.go:164-216 | without overlapping runs, starts i and j are more than j - i gaps apart, the gap being the smaller of interval and five minutes |
| Scheduler.StartsInWindow | internal/scheduler/scheduler.go:164-216 | without overlapping runs a window of length L holds at most L div gap + 1 starts, and n > 1 of them only if n - 1 gaps are shorter than L |
| Scheduler.RunningTaskRestarts | internal/scheduler/scheduler.go:168-178 | while a run is in progress every later tick starts the task again |
| Scheduler.OverlapBreaksSpacing | internal/scheduler/scheduler.go:168-178 | so an hourly task can start twice within a minute |
| Shutdown.Manager.RegisterHook | internal/shutdown/manager.go:49-78 | the loop inserts before the first hook of higher priority value; hooks stay sorted |
| Shutdown.InsertAt | internal/shutdown/manager.go:60-72 | insertion at the found position is the ordered insertion |
| Shutdown.RegistrationIsStableSort | internal/shutdown/manager.go:60-72 | any registrations end sorted by priority with ties in registration order |
| Shutdown.StableSortUnique | internal/shutdown/manager.go:60-72 | that order is unique |
| Shutdown.Manager.Shutdown | internal/shutdown/manager.go:96-150 | a second call panics on the closed channel and does nothing; otherwise runs the iterations in order under nested deadlines, collecting errors and the hooks really called, and closes both channels |
| Shutdown.WaitIsBounded | internal/shutdown/manager.go:99-138 | the wait is at most the shutdown timeout and at most the sum of the hook timeouts |
| Shutdown.WaitIsAttained | internal/shutdown/manager.go:99-138 | that bound is attained when no hook returns in time |
| Shutdown.IterationOutcome | internal/shutdown/manager.go:116-137 | a hook that returns before its own timeout and the remaining budget is not reported as timed out, one that has not returned when either is over is, and the loop goes on at that moment |
| Shutdown.BadTurns | internal/shutdown/manager.go:124-135 | exactly the iterations that fail or run out of time, in order |
| Shutdown.OneErrorPerBadHook | internal/shutdown/manager.go:124-135 | the errors are, in order, one per iteration that failed or ran out of time, with its hook name and of the right kind, and no other |
| Shutdown.EveryHookCalledIff | internal/shutdown/manager.go:112-122 | every hook is called exactly when each goroutine runs and reads its own iteration's hook |
| Shutdown.OnTimeCallsInOrder | internal/shutdown/manager.go:112-138 | whenever every hook is called, in particular if every goroutine is scheduled in time, the calls are the hooks once each, in order |
| Shutdown.LateGoroutineSkipsHook | internal/shutdown/manager.go:120-122 | a goroutine scheduled after its deadline skips its hook and calls the next one a second time |
| Shutdown.UnscheduledGoroutineSkipsHook | internal/shutdown/manager.go:120-138 | a goroutine that never runs before the process exits does not call its hook at all |
| RateLimit.TrimBlanks | internal/ratelimit/limiter.go:191-201 | the two loops compute the trimmed text |
| RateLimit.TrimCutsBlanks | internal/ratelimit/limiter.go:191-201 | trimming removes blanks at both ends and nothing else |
| RateLimit.TrimPadded | internal/ratelimit/limiter.go:191-201 | padding around a trimmed text is what trimming removes |
| RateLimit.SplitAndTrim | internal/ratelimit/limiter.go:177-188 | the fields, trimmed, without one after a final separator |
| RateLimit.ParseXff | internal/ratelimit/limiter.go:166-174 | the non-empty ones of those |
| RateLimit.ParsesFields | internal/ratelimit/limiter.go:166-188 | which is ordinary splitting, trimming and dropping of empty fields |
| RateLimit.HeaderRoundTrip | internal/ratelimit/limiter.go:166-201 | any list of non-empty, trimmed, comma-free items is recovered from its padded, comma-joined header |
| RateLimit.PlainHeaderRoundTrip | internal/ratelimit/limiter.go:166-201 | items without comma, space and tab, padded with spaces and tabs, are recovered |
| RateLimit.ResourceLimiter.AllocateMemory | internal/ratelimit/limiter.go:231-240 | admits and records in 64-bit arithmetic |
| RateLimit.ResourceLimiter.ReleaseMemory | internal/ratelimit/limiter.go:243-250 | subtracts and clamps at zero |
| RateLimit.AdmissionExactIff | internal/ratelimit/limiter.go:235-237 | the limit is enforced as intended exactly when the sum stays within 64 bits |
| RateLimit.AccountingIsExact | internal/ratelimit/limiter.go:231-250 | over any history of allocations and of releases of what is held in which no sum overflows, the counter ends as the sum held and within the limit |
| RateLimit.ServeBalancedIff | internal/ratelimit/limiter.go:231-250 | one request keeps the books right exactly when its sum stays within 64 bits |
| RateLimit.AccountingExactIff | internal/ratelimit/limiter.go:231-250 | over any such history the counter is the sum held and within the limit at every point exactly when no sum leaves the 64-bit range |
| RateLimit.OverflowIsAdmitted | internal/ratelimit/limiter.go:235-238 | an overflowing request is admitted and makes the counter negative |
| GcmFile.EncryptFile | tools/aesgcm_file.cpp:51-160 | reports success exactly when no checked call fails; then header, one-shot GCTR ciphertext and tag of what was read have been written, as far as the writes arrived; otherwise a beginning of that without the tag |
| GcmFile.EncryptionCompleteIff | tools/aesgcm_file.cpp:116-155 | after reported success the container of the whole file is on disk exactly when every read delivered and every write arrived |
| GcmFile.DecryptFile | tools/aesgcm_file.cpp:162-269 | the checks and fallible calls in order, the ciphertext length cut to a 32-bit int, the text written as far as the write arrives before the tag is checked, success exactly on a matching tag |
| GcmFile.GctrAt | tools/aesgcm_file.cpp:119-134 | each byte of block-wise GCTR is masked by the key stream at its position |
| GcmFile.CiphertextAt | tools/aesgcm_file.cpp:119-134 | byte i of a ciphertext is masked by byte i mod 16 of the counter block 2 + i div 16, counted in 32 bits |
| GcmFile.ContainerLayout | tools/aesgcm_file.cpp:102-155 | the container byte for byte: magic, version, salt, nonce, ciphertext, tag over header and ciphertext |
| GcmFile.ReadsIff | tools/aesgcm_file.cpp:119-134 | read number i delivers something exactly when the file is longer than i buffers of 4096 bytes |
| GcmFile.StreamIsGctr | tools/aesgcm_file.cpp:119-134 | the byte stream of the context is the GCTR function of section 6.5 of NIST SP 800-38D |
| GcmFile.GctrInverse | tools/aesgcm_file.cpp:239-247 | applying it twice gives the text back |
| GcmFile.ContainerRoundTripIff | tools/aesgcm_file.cpp:174-265 | decrypting a container gives its plaintext and no error exactly when the plaintext is shorter than 2^31 bytes |
| GcmFile.DecryptionCompleteIff | tools/aesgcm_file.cpp:162-269 | decrypting a container leaves its plaintext on disk and reports success exactly when it is shorter than 2^31 bytes, it fits on the disk and no call fails |
| GcmFile.AcceptedIff | tools/aesgcm_file.cpp:249-262 | a file is accepted exactly when it is the container of some plaintext with a multiple of 2^32 bytes inserted before the tag; a file shorter than 2^32 bytes, exactly when it is a container |
| GcmFile.AlteredTagLeavesText | tools/aesgcm_file.cpp:240-262 | a container with an altered tag is rejected after its whole plaintext has been written |
| GcmFile.RejectedLeavesTextIff | tools/aesgcm_file.cpp:239-262 | a rejected file leaves text behind exactly when magic and version match, the library is given bytes to decrypt, and the tag over header and those bytes differs from the last 16 bytes |
| EndToEnd.SavedBackupRestores | internal/agent/agent.go:266-283 | in any interleaving of the writes and the save of a backup with collector runs, other backups and responses, a snapshot that stays stored restores to its chunks, if each was written unthreatened, no mark was blind to it before the save and no response lands on its hashes |
| EndToEnd.SavedBackupRestoresIff | internal/agent/agent.go:266-283 | in any such interleaving, other backups and responses included, the backup restores at the end exactly when each chunk found its key free or holding that chunk at its write and no response has landed on it since |
| EndToEnd.ChunkReadsBackIff | internal/storage/store.go:36-53 | the same for a single chunk |
| EndToEnd.WriteThenSave | internal/agent/agent.go:271-283 | a write while no run threatens the key, followed by the save, is such a run |
| EndToEnd.OpensAlways | internal/storage/store.go:36-53 | whoever writes during a run, the block under the key of a chunk keeps opening to the chunk |
| EndToEnd.WrittenChunkStays | internal/snapshots/snapshot.go:40-44 | a chunk written and saved in that way is present at the end of the run |
| EndToEnd.SavedBackupIsFilesIff | cmd/backup-agent-restore/main.go:61-69 | and the restored bytes are the contents of the files exactly when no position before the last byte of a read passes the cut test and no reader stalls |
| EndToEnd.SameIdIffSameSecond | internal/snapshots/snapshot.go:57 | two snapshots get the same ID exactly when taken in the same second |
| EndToEnd.BackupThenRestore | cmd/backup-agent-restore/main.go:61-69 | creating a snapshot and restoring the very record returned gives the chunks of the walk in order, which are the contents of the files exactly when chunking lost nothing |
| EndToEnd.BackupsRemainIff | tests/integration_test.go:130-152 | of n saved backups all n remain listed exactly when no two were taken in the same second |

## Left out

- libp2p host, DHT, bootstrap, HTTP handlers, CLI wiring, metrics, logging and configuration loading: I/O plumbing without logic of its own.
- bbolt, SHA-256, AES, Ed25519, Argon2, PBKDF2 and Go's JSON encoder: foreign libraries, present only as parameters or as maps.
- GcmFile.DecryptFile: that OpenSSL refuses a negative length is an assumption of the model; a read error is modelled as a shorter file, which is how the source sees it.
- Shutdown.Manager.RegisterHook: the slice is modelled as a value; the backing array that `append` reuses is not.
- Scheduler.Scheduler.TasksToRun: the order in which Go iterates over the task map is not fixed.
- `GetVerificationReport` and `VerifyAllSnapshots`: sums over the reports proved here, plus a floating-point percentage.
- `PeerAdd` and `PeerRemove` messages, the ACL, identity files and the compression wrapper: the same validation pattern again, or thin wrappers.
- Disk and goroutine counters of the resource limiter and the token buckets of the rate limiter: the first repeat the memory counter, the second are a foreign library.
