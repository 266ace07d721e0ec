# Encrypted file storage: a verified model

A model of the file storage service in Dafny 4.11, with proofs of what its encrypted
container, its upload pipeline, its worker pool, its directory tree and its tokens keep.
`dafny verify dfyconfig.toml` checks the whole project.

| file | what it models |
|---|---|
| Bytes.dfy, Lists.dfy | bytes, 64-bit counters, exclusive or; sequences without duplicates |
| Nonce.dfy | the nonce of each chunk: base nonce xor chunk counter |
| Container.dfy | the container format as a printer and a parser over an abstract cipher |
| Streams.dfy | readers that split at will, writers that stop, streaming encryption and decryption |
| Upload.dfy | one upload as interleaved steps: encryptor, pipe, storage client, worker, request |
| Pool.dfy | the worker pool as interleaved steps, and as an object |
| Server.dfy | uploads running as jobs of the pool, and what stopping it then means |
| Tables.dfy | directories and files tables under interleaved requests |
| Listing.dfy, Directories.dfy | recursive listing, cascade, and the directory service over one database |
| Files.dfy | concurrent uploads into storage and table, deletions, downloads |
| Tokens.dfy, Auth.dfy | issued tokens and blacklist under one clock; the service and the access check |

## How the model is built

The cipher is any pair of functions where sealing under a nonce adds 16 bytes and opening
accepts exactly what sealing produced under that nonce (`Container.Lawful`). Nothing else is
assumed of AES-GCM; the distinct nonces it needs within one file (section 8 of
NIST SP 800-38D) are proved.

A `Reader` carries a plan that decides how many bytes each `Read` returns, so a statement
about all plans is a statement about all ways of splitting. Readers end by `Eof`, by
`UnexpectedEof` or by another error. A `Writer` accepts a bounded or unbounded number of
bytes, takes the part of a write that fits, and then fails.

Where several goroutines or requests work at once, the model is a transition system
(`Enabled`, `Next`, `Run`) and the theorems range over all runs. The pool, the repositories,
the services, the readers and the writers are classes whose methods are tied to functions of
the old state.

Assumed of the surroundings: a storage client that reports success has read its source to
the end and stored what it read; UUIDs are fresh and contain no slash; one clock that never
goes back; a token store that was there when the server started, with exact TTLs; only
tokens signed by the server carry a valid signature; `crypto/rand` delivers 12 bytes (when it does not, `EncryptStream` is
proved to fail without writing, and the upload model starts after that point).

## Where the code does something else than its documentation says

* A refresh token is documented as usable once. `ExchangedOnceExactly`: over all runs no token
  is exchanged twice if and only if refresh tokens are never valid at all, or no two Refreshes
  of one token overlap, no Refresh checks the blacklist after the expiry of its token, and no
  Logout sets its 20-minute entry on a refresh token (this last only matters when refresh
  tokens live longer than 20 minutes; the default is 7 days). Other requests may overlap at
  will. Under the same condition `AcceptableNeverOutnumberLogins` holds. The code enforces
  none of the three; `OverlappingRefreshes`, `RefreshAcrossExpiry` and `RefreshAfterFallback`
  give the runs, and `SpentStaysRevoked` says what holds in every run.
* Logout is documented as immediate and final. The access check validates the token and only
  then looks its jti up. `LogoutPermanentExactly`: no request with a logged-out token is let
  through if and only if access tokens are never valid at all, or every lookup is answered,
  every lookup comes before the expiry of its token, and access tokens live at most 20 minutes,
  the TTL of the fallback entry (the default is 15 minutes). The code enforces neither of the
  first two. `LateLookup` gives the run across the expiry, `LongTokensComeBack` the one with a
  shortened entry; a lookup that fails lets the request through (`JwtAuth`).
* `encrypt=false` is documented to mean that the bytes are stored as they are. The job
  encrypts in both cases and only the row differs, so the download of such a file is the
  container (`DownloadUploaded`).
* A source that ends with `UnexpectedEof` counts as complete: `EncryptStream` and
  `DecryptStream` then succeed on what was delivered (`CleanEnd`).
* A container cut between two chunks decrypts without an error to the shorter file
  (`CutContainer`), and one sealed empty chunk may follow whole chunks (`AcceptedExactly`).
* The directory delete lists the files first, and announces what it listed. The cascade
  removes other users' files too (`ListingCoversCascade`, `OthersFileTaken`). With other
  requests between listing and cascade, what is announced is what the cascade takes of the caller's live files if and
  only if none of these was added in between and no listed one was deleted in between
  (`AnnouncedExactly`, per file `ListedLater`); both occur (`InterleavedFileMissed`,
  `InterleavedFileDeleted`).
* `Stop` is documented to wait for the current jobs. A worker can stay blocked on the result
  channel for ever (`QuiescentExactly`, `WorkerCanBlock`). Left to itself the server comes to
  rest after a bounded number of steps; then either every Stop call has returned and all jobs
  have finished, or some worker holds an abandoned upload and no call has returned
  (`StopOutcome`). The second case is reachable (`StopCanHang`) and final (`StuckForever`).

## Model

| member | source | states |
|---|---|---|
| Nonce.FillChunkNonce | pkg/encrypt/aes.go:126-133 | the in-place loop computes the nonce function below for every base and counter |
| Nonce.ChunkNonceIsXor | pkg/encrypt/aes.go:124-133 | first 4 bytes kept; the last 8, read as a big-endian number, are the base's number xor the counter |
| Bytes.XorBitAt | pkg/encrypt/aes.go:130 | a bit of the exclusive or is set if and only if that bit of the operands differs |
| Nonce.ChunkNonceBits | pkg/encrypt/aes.go:126-133 | each bit of the last 8 bytes is the base's, flipped if and only if the bit of the same weight in the counter is set; the first 4 bytes are the base's |
| Nonce.ChunkNonceZero | pkg/encrypt/aes.go:126-133 | under counter 0 the nonce is the base |
| Nonce.ChunkNonceInvolution | pkg/encrypt/aes.go:126-133 | applying the same counter twice gives the base back |
| Nonce.ChunkNonceInjective | pkg/encrypt/aes.go:126-133 | equal nonces for one base if and only if equal counters, over all 2^64 of them |
| Container.NoncesDistinct | pkg/encrypt/aes.go:58-64 | with the wrapping counter, the chunks of one file have pairwise different nonces if and only if there are at most 2^64 |
| Container.SealedAt | pkg/encrypt/aes.go:57-68 | chunk i is the i-th 32768-byte piece sealed under nonce i |
| Container.BodyLength | pkg/encrypt/aes.go:57-76 | one chunk per started 32768 bytes, 16 bytes more for each |
| Container.ContainerLength | internal/model/file.go:10 | container size in terms of the file size; at most 3200 chunks for the largest file taken |
| Container.OpenBody | pkg/encrypt/aes.go:57-120 | parsing what was printed gives the plaintext back, accepted |
| Container.OpenConcat | pkg/encrypt/aes.go:100-120 | behind whole chunks the parser continues with the next counter on whatever follows |
| Container.CanonicalOpens | pkg/encrypt/aes.go:96-120 | both canonical forms of p are accepted and yield p |
| Container.OpensOnlyCanonical | pkg/encrypt/aes.go:96-120 | whatever is accepted is one of the two canonical forms of what it yields |
| Container.AcceptedExactly | pkg/encrypt/aes.go:96-120 | the two together, as an equivalence |
| Container.BodySplit | pkg/encrypt/aes.go:57-76 | the container of a longer file starts with the chunks of its whole-chunk prefixes |
| Container.CutContainer | pkg/encrypt/aes.go:100-121 | a container cut anywhere delivers exactly the complete chunks before the cut; it is accepted if and only if it was cut between chunks or the piece that is left opens by itself |
| Container.RefusedChunk | pkg/encrypt/aes.go:104-112 | behind whole chunks, a chunk that does not open ends the delivery exactly there, whatever follows |
| Streams.Reader.Read | pkg/encrypt/aes.go:101-103 | hands over a prefix of the rest into the buffer, of any length the plan says, and its end only when nothing is left |
| Streams.ReadFull | pkg/encrypt/aes.go:61-74 | fills the buffer or takes all there is; Eof only for nothing, UnexpectedEof for a part, other errors as they are; independent of the splits |
| Streams.EncryptingStep | pkg/encrypt/aes.go:60-68 | one more chunk written, or the destination stopped inside it with a prefix of the whole |
| Streams.EncryptChunks | pkg/encrypt/aes.go:57-76 | the loop with its wrapping counter writes the body of the format, chunk by chunk |
| Streams.EncryptStream | pkg/encrypt/aes.go:39-77 | destination gets the container of what was delivered, cut where it stopped; the error is determined; independent of the splits |
| Streams.DecryptingStep | pkg/encrypt/aes.go:100-113 | one more chunk opened and written, refused, or cut by the destination |
| Streams.DecryptChunks | pkg/encrypt/aes.go:96-121 | the loop writes the plaintext up to the first chunk that does not open |
| Streams.DecryptStream | pkg/encrypt/aes.go:81-122 | the same for the whole call, with its error in every case; independent of the splits |
| Streams.DecryptAcceptsExactly | pkg/encrypt/aes.go:81-122 | decryption succeeds with p exactly on nonce plus container of p, or that and one sealed empty chunk after whole chunks |
| Streams.RoundTrip | pkg/encrypt/aes.go:39-122 | encrypt, store, decrypt returns the plaintext for all plaintexts, nonces and splits |
| Upload.NextPipe | internal/worker/file_processor.go:41-58 | every step keeps: received, pending and unwritten bytes together are the container |
| Upload.NextInv | internal/worker/file_processor.go:41-64 | every step keeps the pipe, close and result-channel invariants |
| Upload.StoredIsComplete | internal/worker/file_processor.go:41-58 | in every reachable state a stored object is the complete container and the source ended cleanly; an encryption error never reads as end of stream |
| Upload.StoredExactly | internal/worker/file_processor.go:45-58 | a storage client that reads to the end stores the whole container if and only if the source ended cleanly, and nothing otherwise |
| Upload.SurroundingsAreFree | internal/service/file.go:72-79 | a waiting request can give up at any time and receives the first value as soon as one was sent; the insert can go either way |
| Upload.ResultChannel | internal/service/file.go:56-77 | at most two values sent, the second only after a failure; the request sees the first; success implies row and complete object |
| Upload.QuiescentExactly | internal/worker/file_processor.go:45-64 | when nothing can move, the request has its answer or was cancelled; the worker is blocked if and only if the request was cancelled, the object stored and the row refused; the encryptor is blocked if and only if the storage client stopped before it had read the whole container |
| Upload.AnswerAtRest | internal/service/file.go:56-79 | at rest a request that was not cancelled knows what happened: saved if and only if the row was inserted, and so for both errors; an unclean source always shows |
| Upload.NextDecreases | internal/worker/file_processor.go:38-69 | every step decreases a measure |
| Upload.RunsEnd | internal/worker/file_processor.go:38-69 | every run of an upload is finite, with a bound |
| Upload.Effects | internal/worker/file_processor.go:54-64 | the object appears only at the end of stream and once, the row only at a successful insert and once |
| Upload.CanSucceed | internal/service/file.go:56-92 | for every file whose source ends cleanly, a run ends with the request told of success, the row inserted and the complete object stored |
| Upload.CanBeRefused | internal/worker/file_processor.go:60-64 | for every such file, a run ends with the request told of the refused row and the worker free |
| Upload.WorkerCanBlock | internal/service/file.go:56-77 | for every such file, a run ends with the worker blocked on the channel |
| Upload.EncryptorCanBlock | internal/worker/file_processor.go:45-58 | for every file and every end of its source, a run ends with the encrypting goroutine blocked on the pipe and the request told of the failure |
| Pool.NextInv | internal/worker/pool.go:41-62 | every step keeps order, bounds, wait-group count, and workers leaving only a closed empty queue |
| Pool.NextBalanced | internal/worker/pool.go:54-62 | every step keeps: each start of a job is in hand or finished, once |
| Pool.Conservation | internal/worker/pool.go:28-62 | in every reachable state accepted = queued + in hand + finished for every job, at most 10 queued a worker, starts in order of acceptance |
| Pool.RunAccepts | internal/worker/pool.go:41-43 | what a run has accepted are the jobs of its Submit calls, in their order, and no others |
| Pool.EverySubmitKept | internal/worker/pool.go:41-62 | in every run each job is queued, in hand or finished, in all as often as it was submitted, and jobs start in the order of the Submit calls |
| Pool.RunStops | internal/worker/pool.go:46-52 | the Stop calls made are those pending or returned |
| Pool.RunPanics | internal/worker/pool.go:41-43 | the process is dead exactly after a Submit on the closed channel, which is the last step |
| Pool.StopDrains | internal/worker/pool.go:46-62 | once any Stop has returned, all workers left and every accepted job has finished exactly as often as it was accepted |
| Pool.RunningJobHoldsStop | internal/worker/pool.go:46-62 | while a job is in hand no Stop has returned |
| Pool.InternalDecreases | internal/worker/pool.go:46-62 | every step of the pool itself decreases a measure |
| Pool.StopProgress | internal/worker/pool.go:46-62 | while a Stop call is pending some internal step is enabled |
| Pool.StopReturns | internal/worker/pool.go:46-62 | internal runs are bounded and can only end with every Stop returned and all jobs finished |
| Pool.WorkerPool.constructor | internal/worker/pool.go:28-39 | the loop starts `size` idle workers and counts them |
| Pool.WorkerPool.TrySubmit | internal/worker/pool.go:41-43 | sends when there is room, waits when full, panics when closed |
| Pool.WorkerPool.WorkerTurn | internal/worker/pool.go:54-62 | one turn of a worker is its step of the transition system, and when it waits |
| Pool.WorkerPool.StopTurn | internal/worker/pool.go:46-52 | one turn of a Stop caller is its step of the transition system, and when it waits |
| Pool.NoNewJobs | internal/worker/pool.go:41-62 | only a submit brings a job into queue or hands |
| Server.NextInv | internal/worker/file_processor.go:28-70 | every step of the server is a step of the pool, of one upload, or both, and every job in the pool has its upload; the encrypting goroutine may outlive its job |
| Server.BlockedJob | internal/service/file.go:56-77 | at rest, a job still in hand belongs to a request that went away, with the object stored and the row refused |
| Server.EveryJobAtRest | internal/service/file.go:56-77 | at rest no request waits, and every upload's job has finished, or is in hand and abandoned, or is queued while every worker holds an abandoned one |
| Server.StopHangsExactly | internal/worker/pool.go:46-62 | at rest after Stop was called, some Stop call is still waiting if and only if some worker holds such a job |
| Server.InternalDecreases | internal/worker/file_processor.go:28-70 | every step taken inside the server, of the pool or of any upload, decreases a measure |
| Server.ComesToRest | internal/worker/file_processor.go:28-70 | from every state the server can come to rest by itself |
| Server.StopOutcome | internal/worker/pool.go:46-62 | after a call of Stop, runs without new calls are bounded and end either with every Stop call returned and every accepted job finished, or with a worker holding an abandoned upload and no call returned |
| Server.StuckForever | internal/worker/pool.go:46-62 | a worker whose upload is blocked stays so in every run, and no Stop call returns |
| Server.StopCanHang | internal/service/file.go:56-77 | with any number of workers but none, a state at rest with a waiting Stop call is reachable |
| Tables.InsertDirKeeps | internal/repository/directory.go:22-27 | inserting under a parent of the same owner keeps forest and uniqueness |
| Tables.CascadeKeeps | migration/002_create_directories.up.sql:4 | cascading keeps forest, foreign keys and uniqueness |
| Tables.NextInv | internal/service/directory.go:26-56 | every step keeps them, with the parent check and the insert of Create as separate steps |
| Tables.ForestAlways | migration/002_create_directories.up.sql:1-9 | in every run parents exist, chains of parents have one owner, no repetition, and at most as many members as the table |
| Tables.PathUnique | migration/002_create_directories.up.sql:8 | below one root different directories have different paths of names |
| Tables.CreateRun | internal/service/directory.go:26-56 | from any state a Create inserts exactly its row if the parent is the owner's and has no such child, and changes nothing otherwise |
| Tables.AddStep | internal/repository/file.go:22-36 | a file insert adds exactly its row if the directory is there |
| Tables.DirGone | migration/002_create_directories.up.sql:4 | in every run a directory goes if and only if its owner deletes it or one above it |
| Tables.FileKept | internal/repository/file.go:106-118 | in every run a file row stays if and only if its directory does, as it was up to the deletion mark, which it has if and only if it had it or its owner deleted the file |
| Tables.RootsCanShareName | migration/002_create_directories.up.sql:4-8 | two roots of one user with the same name are reachable |
| Listing.WalkOnce | internal/repository/file.go:77-102 | the simple walk meets every listed file of the subtree once and nothing else |
| Listing.NextRound | internal/repository/file.go:124-130 | every round of the recursion keeps: new directories only, all of them, no duplicates |
| Listing.RoundsComplete | internal/repository/file.go:124-130 | when a round adds nothing, the whole subtree was found |
| Listing.ListingIsWalk | internal/repository/file.go:122-156 | a duplicate-free exact listing has the multiplicities of the walk |
| Listing.CascadeAgrees | internal/service/directory.go:138-147 | the cascade removes exactly the subtree, all of the caller's, with exactly the files in it, and leaves every other row as it is; of the caller's live files it takes exactly the listed ones |
| Listing.ListingCoversCascade | internal/service/directory.go:138-147 | the listing covers every live file removed if and only if no other user has one there |
| Listing.OthersFileTaken | internal/service/file.go:44-68 | from any state, one upload by another user below the directory gives a file that is taken and not listed |
| Tables.LaterRun | migration/003_create_files.up.sql:1-12 | in every run rows keep what they had when inserted, deletion marks stay, removed ids stay away, and a file row goes only with its directory |
| Tables.NewFileAdded | internal/repository/file.go:22-36 | a file that is there was not there before if and only if it was added in between |
| Tables.DeletedForGood | internal/repository/file.go:106-118 | a file once deleted can never be deleted again: of all deletions of one file at most one succeeds |
| Listing.ListedLater | internal/service/directory.go:138-147 | for every run between listing and cascade: a file taken was listed if and only if it was not added in between, and a listed file is taken if and only if it is still there and live |
| Listing.AnnouncedExactly | internal/service/directory.go:138-147 | the announced files are the caller's live files the cascade takes if and only if none of these was added and no listed one deleted in between |
| Listing.InterleavedFileMissed | internal/service/directory.go:138-147 | from any state, one insert in between, anywhere in the subtree, gives a file that is taken unlisted |
| Listing.InterleavedFileDeleted | internal/service/directory.go:138-147 | from any state, one deletion in between gives a listed file that is not taken live |
| Directories.Database.ListSubDirs | internal/repository/directory.go:58-68 | exactly the caller's direct subdirectories, once each |
| Directories.Database.ListByDirectory | internal/repository/file.go:77-102 | exactly the caller's live files of the directory, once each |
| Directories.Database.SubDirs | internal/repository/file.go:124-130 | the recursion ends and finds exactly the subtree, without duplicates |
| Directories.Database.ListAllRecursive | internal/repository/file.go:122-156 | exactly the caller's live files below the directory; as a multiset the simple walk |
| Directories.Database.CreateDirectory | internal/service/directory.go:26-56 | when each error occurs and the new table otherwise, with any other requests between the check and the insert |
| Directories.Database.GetDirectory | internal/service/directory.go:59-106 | only the owner gets the direct subdirectories and the live files, each as its own query finds them, with any other requests between check and queries |
| Directories.Database.DeleteDirectory | internal/service/directory.go:127-158 | cascade of the whole subtree as found; announced are exactly the caller's live files as listed, with any other requests between check, listing and cascade; without any, exactly what was taken |
| Files.StorageKeyInjective | internal/storage/storage.go:22-24 | equal keys if and only if same user and same file, for slash-free user ids |
| Files.AdvanceInv | internal/service/file.go:44-68 | a step of one upload keeps every upload's object and row in place |
| Files.RowImpliesObject | internal/worker/file_processor.go:54-64 | in every reachable state every row has at its key the complete container of the uploaded bytes |
| Files.SavedHasRow | internal/service/file.go:70-92 | a request told of success has its row, as uploaded up to the deletion mark, if and only if its directory is still there |
| Files.UploadSucceeds | internal/service/file.go:39-92 | from any state an upload into an existing directory, of any file whose source ends cleanly, can end with the request told of success and its live row in the table |
| Files.NothingBarred | internal/service/file.go:44-68 | an upload can take each of its steps at any time, except inserting a row where its directory is gone, and its fresh id is there when it does; other requests can change the tables at any time |
| Files.DownloadReturnsUpload | internal/service/file.go:96-116 | the stored object decrypts to the uploaded bytes, and copied as it is it is the container of stated length |
| Files.DownloadUploaded | internal/service/file.go:96-116 | in every reachable state the owner's download succeeds and gives the uploaded bytes if and only if the upload asked for encryption |
| Files.Copy | internal/service/file.go:114-115 | everything that fits is copied whatever the splits; only Eof ends without error, and every other end is reported as it is |
| Files.FileService.Download | internal/service/file.go:96-116 | when each refusal occurs, and what a stream writes and returns |
| Files.FileService.Delete | internal/service/file.go:131-152 | when each refusal occurs, also when the file goes between read and update; otherwise the row is marked and no object is touched |
| Tokens.NextInv | internal/service/auth.go:63-106 | every step of overlapping Logins, Logouts and Refreshes, which may fail anywhere, keeps the token invariant |
| Tokens.LogoutPermanentExactly | internal/middleware/auth.go:39-54 | for every choice of cases ruled out in the access check: no request with a logged-out access token is let through in any run if and only if the choice suffices for the lifetime of access tokens |
| Tokens.OnlySetsBlacklist | internal/repository/redis/token_store.go:74-87 | a blacklist lookup changes its answer only through a SET for its jti, which decides from then on |
| Tokens.PairIssued | pkg/jwt/jwt.go:58-84 | a Login or an answered Refresh adds two tokens, an access and a refresh token of that user with their own lifetimes, and touches no other |
| Tokens.OwnersLoggedIn | internal/service/auth.go:46-91 | in every run every token belongs to somebody who has logged in, or who had a token before |
| Tokens.RunCounts | internal/service/auth.go:46-91 | the histories count the Logins and the answered Refreshes of a run |
| Tokens.LateLookup | internal/middleware/auth.go:39-54 | for every positive lifetime, a logged-out token validated before its expiry is let through by a lookup at the expiry |
| Tokens.LongTokensComeBack | internal/service/auth.go:97-104 | for every lifetime above 20 minutes, a second Logout without a valid signature brings a logged-out token back |
| Tokens.LogoutCompletes | internal/service/auth.go:95-106 | from any state a Logout of an unexpired access token can complete |
| Tokens.SpentStaysRevoked | internal/service/auth.go:63-106 | a spent refresh token is found revoked or expired, unless a fallback Logout of it ran 20 minutes before |
| Tokens.OverlappingRefreshes | internal/service/auth.go:69-90 | from any state, two overlapping Refreshes of one token can both succeed, also where the other two cases are ruled out |
| Tokens.RefreshAcrossExpiry | internal/service/auth.go:64-90 | from any state, a spent token can be exchanged again across its expiry, also where the other two cases are ruled out |
| Tokens.RefreshAfterFallback | internal/service/auth.go:97-104 | from any state, a spent token can be exchanged again 20 minutes after a Logout of it, also where the other two cases are ruled out |
| Tokens.DifferentTokensOverlap | internal/service/auth.go:63-78 | whatever cases are ruled out, Refreshes of different tokens overlap |
| Tokens.AcceptableMeans | internal/service/auth.go:63-75 | acceptable are exactly the tokens with which a Refresh beginning now gets past its blacklist check |
| Tokens.OnceNext | internal/service/auth.go:63-106 | without those cases every step keeps: refresh tokens and Refreshes about to issue together are at most logins and spent tokens, and no token is held, spent or exchanged twice |
| Tokens.AcceptableNeverOutnumberLogins | internal/service/auth.go:63-106 | without those cases no token is exchanged twice and acceptable refresh tokens never outnumber successful logins, however requests overlap |
| Tokens.ExchangedOnceExactly | internal/service/auth.go:63-106 | for every choice of cases ruled out: no token is exchanged twice in any run if and only if the choice suffices for the lifetime of refresh tokens |
| Tokens.ExpiryBound | pkg/jwt/jwt.go:72-84 | the signed expiry is the whole second within the last second before now plus TTL |
| Auth.TokenStore.Blacklist | internal/repository/redis/token_store.go:74-107 | afterwards the jti is found blacklisted exactly until now plus TTL whatever entry it had, no other jti is affected, and a TTL that is not positive changes nothing |
| Auth.AuthService.GeneratePair | pkg/jwt/jwt.go:58-70 | an access and a refresh token of that user with the fresh ids, each expiring at the whole second before its own clock reading plus TTL |
| Auth.AuthService.Login | internal/service/auth.go:46-61 | tokens of the user found, exactly when the password matches; unknown user and wrong password are refused alike, other lookup errors are returned; the access token is accepted until it expires |
| Auth.AuthService.Logout | internal/service/auth.go:95-106 | an accepted token is refused by every later lookup up to its expiry, and by the lookup alone exactly until its entry ends; any other token that parses is blacklisted for exactly 20 minutes; garbage changes nothing |
| Auth.AuthService.Refresh | internal/service/auth.go:63-91 | when it succeeds and exactly when it fails with each error, in terms of signature, kind, expiry and entry; the new tokens are the old one's user's, and it is blacklisted until it expires |
| Auth.AuthService.JwtAuth | internal/middleware/auth.go:27-61 | lets a request through exactly for a bearer token that is signed, an access token and not expired, and has no entry at the later lookup, if that is answered, as that token's user |
| Auth.LoginThenLogout | internal/service/auth.go:46-106 | whoever logs in is let through as himself until the access token expires, and after Logout up to that instant is not |
| Auth.RefreshTwice | internal/service/auth.go:63-91 | of two Refreshes of one token, one after the other and before its expiry, the first answers with tokens of its user and the second finds it revoked |

## Left out

- AES, GCM, bcrypt, hex decoding, HMAC signatures and UUID generation: only the laws above are used.
- PostgreSQL, Redis, MinIO and Kafka clients, connections, migrations as such, configuration and logging: input and output.
- Files.DownloadReturnsUpload: storage that answers to the end is assumed; a broken or missing object is covered by FileService.Download.
- Directories.Database.ListSubDirs: the order of the rows (by name, under the database's collation) is not modelled.
- Directories.Database.ListByDirectory: the order of the rows (by creation time, which the model has no column for) is not modelled.
- Upload.RunsEnd: the time a step takes is not modelled, and the insert is a single step that may fail for any reason.
- Pool.StopReturns: jobs in hand are taken to finish (Server.StopOutcome drops that); a send on the closed channel is a panic that ends the process.
- Auth.TokenStore.Blacklist: a store that is down when the server starts ignores every entry without an error, so Logout and Refresh then blacklist nothing.
- Bcrypt and the e-mail claim: the lookup says whether the password matches, and tokens carry the user only.
- TTLs are exact; Redis rounds them to milliseconds.
- GetMeta, List, GetRoot, Register, response copies, field validation and trimming: single branches or field copies.
- DecryptAndDownloadJob: nothing calls it; Download decrypts directly.
- Kafka publishing after an upload or delete, and the cleanup of objects its consumer does not do.
- HTTP handlers, routing, rate limiting, metrics, audit, health checks, cache operations and IncrCounter.
