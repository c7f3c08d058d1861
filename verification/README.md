# Credential encryption, load balancing and document indexing of the Dify API

A Dafny model of the stateful and arithmetic parts of the Python API, with proofs about
whole runs and all inputs. `dafny verify dfyconfig.toml` checks all of it.

Each source file is modelled in its own form. Where the code updates fields, rows or keys,
there is a class or a method with a loop, proved equal to a function of the old state; the
lemmas are about these functions. Where several clients or workers interleave, there is a
step model with one step for each command the shared store sees. A property that turned out
not to hold of the code as it stands is stated as an if-and-only-if with the condition under
which it does, or is accompanied by a run that shows why its hypothesis is there.

| module | about |
|---|---|
| `Wrappers` | the option and result datatypes |
| `NumberTheory` | powers modulo n, Fermat's little theorem, and that the two exponents of an RSA key undo each other |
| `Bytes` | octets, OS2IP and I2OSP (section 4 of RFC 3447), bitwise exclusive or |
| `Oaep` | the RSA-OAEP cipher of section 7.1 of RFC 3447 as the code has it |
| `HybridEnvelope` | prefix, RSA block, nonce, tag and ciphertext, and their parser |
| `UuidV7` | layout, reader and order of version 7 UUIDs (section 5.7 of RFC 9562) |
| `Rotation` | arithmetic of the round-robin counter and its wrap-around |
| `LbClients` | any number of clients that share the counter, step by step |
| `LbConfigs` | the list a load balancing manager is built on |
| `LoadBalancer` | one manager over a store with expiring keys |
| `Failover` | the retry loop above the manager |
| `IndexingRows` | segment rows, groups of nodes, and what updates do to them |
| `IndexingSteps` | a document with any number of workers, pauses, failures and crashes, step by step |
| `IndexingStarts` | which starts of a worker are safe, and what the others lead to |
| `IndexingRunner` | the methods of the indexing runner, one call after the other |
| `RecyclableVars` | the context variables with two counters |
| `RateLimits` | the sliding window over a sorted set |
| `Tokens` | tokens and the account keys that name them |
| `TokenSteps` | any number of callers of the token manager, command by command |
| `SignContent` | the splice of signed URLs into a segment's text |
| `ModelCredentials` | credentials dealt out to models, and the configurations handed to the manager |

Where the code does less than its names or documents promise:

- The ciphertext is never compared with the modulus, which step 1 of RSADP in section 5.1.2 of
  RFC 3447 asks for; a ciphertext from the modulus up decrypts like its remainder
  (`Oaep.DecryptsTheRemainder`).
- When the counter wraps at 10,000,000, one call can miss configurations and say that nothing is
  available although something is. This happens for some state of the cooldowns exactly when the
  wrap falls inside the call at a place where the rotation does not continue
  (`LoadBalancer.UnavailableMeansAll`).
- Recovering a paused document starts a second worker without asking whether the first is still
  alive, and a worker that is transforming checks no pause. Both then build the document, and it can
  end up "completed" for good with a segment that is not (`IndexingStarts.RecoveredBesideWorker`); so
  it can after any build from scratch beside a live worker (`IndexingStarts.SafeExactly`).
- A crash between the two commits of `_load_segments` leads to a document that is "completed" with a
  segment that is still "waiting" (`IndexingSteps.CrashBetweenCommits`).
- The first increment of the recycle counter only initialises it, so a value set before the first
  request survives into it (`RecyclableVars.ClearedAtEveryRequestExactly`).
- The spans of the three URL patterns are listed pattern after pattern. A text without queries is
  spliced wrongly as soon as the list does not go from left to right (`SignContent.UnsignedContents`).
- The pause column is read before a status is committed, not with it: a pause that falls in between does
  not stop the commit (`IndexingSteps.PausedAdvancesExactly`, `IndexingSteps.PauseAfterCheck`).
- Two generations of a token for one account that overlap, or one that stops between its two writes,
  can leave the account with two live tokens (`TokenSteps.SafeExactly`).
- The rate limiter counts the seconds in which attempts were made, not the attempts
  (`RateLimits.CountsAttemptsExactly`).
- A list of model records extended by itself offers every credential twice as often
  (`ModelCredentials.SelfExtendedRecordsDouble`).

## Model

| member | source | states |
|---|---|---|
| `NumberTheory.Euclid` | api/libs/gmpy2_pkcs10aep_cipher.py:139 | a prime that divides a product divides a factor; the ground Fermat's theorem stands on |
| `NumberTheory.Fermat` | api/libs/gmpy2_pkcs10aep_cipher.py:139 | Fermat's little theorem, proved from the permutation of the nonzero residues |
| `NumberTheory.PowIdentityModPrime` | api/libs/gmpy2_pkcs10aep_cipher.py:172 | an exponent that is 1 modulo p - 1 changes no number modulo the prime p, multiples of p included |
| `NumberTheory.RsaInverse` | api/libs/gmpy2_pkcs10aep_cipher.py:139-172 | for n = p*q with different primes and e*d of remainder 1 by p - 1 and by q - 1, raising to e and to d undo each other, in both orders, on every integer below n |
| `Bytes.I2ospOs2ip` | api/libs/gmpy2_pkcs10aep_cipher.py:137-141 | an octet string comes back from its integer |
| `Bytes.Os2ipI2osp` | api/libs/gmpy2_pkcs10aep_cipher.py:169-174 | an integer comes back from its k octets whenever it is below 256^k |
| `Bytes.Os2ipBound` | api/libs/gmpy2_pkcs10aep_cipher.py:137 | k octets stay below 256^k |
| `Bytes.XorUndo` | api/libs/gmpy2_pkcs10aep_cipher.py:129-133 | masking twice with one mask gives the original back, bit by bit |
| `Bytes.XorZero` | api/libs/gmpy2_pkcs10aep_cipher.py:195-197 | an exclusive or is all zero exactly for equal strings, which is what the digest comparison relies on |
| `Bytes.XorBitsAt` | api/libs/gmpy2_pkcs10aep_cipher.py:129-133 | each bit of the exclusive or is set exactly when the two bits differ |
| `Bytes.Os2ipOne` | api/libs/gmpy2_pkcs10aep_cipher.py:137 | the integer of one octet is the octet, and of none is zero |
| `Bytes.Os2ipAppend` | api/libs/gmpy2_pkcs10aep_cipher.py:137 | the integer of a concatenation: the most significant octets come first |
| `Oaep.ModulusOctets` | api/libs/gmpy2_pkcs10aep_cipher.py:109-110 | the octet count computed from the bit length is the exact one: 256^(k-1) <= n < 256^k |
| `Oaep.EncodedBelowModulus` | api/libs/gmpy2_pkcs10aep_cipher.py:135-137 | an encoded block of k octets with a leading zero is an integer below the modulus |
| `Oaep.Encode` | api/libs/gmpy2_pkcs10aep_cipher.py:114-135 | encoding fails exactly on messages above k - 2 hLen - 2 octets; otherwise it gives k octets, the first of them zero |
| `Oaep.DecodeEncode` | api/libs/gmpy2_pkcs10aep_cipher.py:175-203 | the printed block parses back to its message, for every seed and every amount of padding |
| `Oaep.EncodeDecode` | api/libs/gmpy2_pkcs10aep_cipher.py:175-203 | what the parser accepts is the printed form of its answer under the seed it unmasks: padding, separator and digest leave no other choice |
| `Oaep.Decrypt` | api/libs/gmpy2_pkcs10aep_cipher.py:144-203 | the two loops that accumulate `invalid` accept exactly the blocks with leading zero, right digest, and nothing but zeros before the first one octet; the error of each rejected input is the one the code raises |
| `Oaep.RoundTrip` | api/libs/gmpy2_pkcs10aep_cipher.py:90-203 | for every key, seed and message: encryption fails exactly on messages that are too long, gives an integer below the modulus, and decryption returns the message |
| `Oaep.AcceptsExactly` | api/libs/gmpy2_pkcs10aep_cipher.py:144-203 | a ciphertext below the modulus decrypts to a message if and only if some seed encrypts that message to exactly that ciphertext |
| `Oaep.EncryptionMeans` | api/libs/gmpy2_pkcs10aep_cipher.py:108-142 | what encryption raises to the public exponent is a zero octet, the masked seed and the masked block of digest, zeros, a one and the message, with the masks in the order of the standard |
| `Oaep.DecryptionMeans` | api/libs/gmpy2_pkcs10aep_cipher.py:161-203 | a ciphertext decrypts to a message exactly when, raised to the private exponent, it is such a block with that message |
| `Oaep.EncryptionErrors` | api/libs/gmpy2_pkcs10aep_cipher.py:114-133 | which error encryption raises, and exactly when |
| `Oaep.DecryptionErrors` | api/libs/gmpy2_pkcs10aep_cipher.py:166-201 | which error decryption raises: a wrong length, digests that cannot be compared, and the one error for everything else |
| `Oaep.DecryptsTheRemainder` | api/libs/gmpy2_pkcs10aep_cipher.py:166-174 | why the hypothesis above is there: a ciphertext from the modulus up gives the answer of its remainder |
| `Oaep.OtherDigestSize` | api/libs/gmpy2_pkcs10aep_cipher.py:119-129 | the digest is always SHA-1 of the label: with a hash object of another size nothing encrypts and nothing decrypts |
| `HybridEnvelope.SizesAgree` | api/libs/rsa.py:72 | the key's own octet count is the one the cipher computes, for every modulus |
| `HybridEnvelope.ParseJoined` | api/libs/rsa.py:72-75 | the four slices fall on the seams of the concatenation |
| `HybridEnvelope.JoinParsed` | api/libs/rsa.py:72-75 | data with a whole tag is the concatenation of its slices, so the parser loses nothing |
| `HybridEnvelope.EnvelopeRoundTrip` | api/libs/rsa.py:30-84 | encryption fails exactly when the modulus has no room for the AES key; every envelope decrypts to its text, whatever the key size, nonce and seed |
| `HybridEnvelope.EnvelopeAcceptsExactly` | api/libs/rsa.py:68-84 | prefixed data whose RSA block is below the modulus and holds a 16-octet key decrypts to a text if and only if some key, nonce and seed encrypt that text to that data |
| `HybridEnvelope.BareBlock` | api/libs/rsa.py:81-84 | a block from before the envelope still decrypts if and only if it does not happen to start with the prefix |
| `HybridEnvelope.BareAcceptsExactly` | api/libs/rsa.py:81-84 | data without the prefix, below the modulus, decrypts to a text if and only if some seed encrypts that text to it |
| `HybridEnvelope.BareOutcome` | api/libs/rsa.py:81-84 | how data without the prefix ends: with the cipher's own error, with a decoding error or with the text |
| `HybridEnvelope.BareLength` | api/libs/rsa.py:81-84 | data without the prefix and of another length than the modulus raises |
| `HybridEnvelope.EnvelopeOutcome` | api/libs/rsa.py:69-84 | how an envelope ends, by the octets of its four parts: the cipher's error for the block, an AEAD error when the rest does not open under the key, a decoding error, or the text |
| `HybridEnvelope.CutShort` | api/libs/rsa.py:69-80 | an envelope cut short within the block or the tag ends in an error |
| `HybridEnvelope.EnvelopeLayout` | api/libs/rsa.py:34-46 | what stands at which octet of an envelope, prefix included, and that making one fails exactly when the RSA encryption of the key does |
| `UuidV7.CreateBytes` | api/libs/uuid_utils.py:51-74 | the buffer filled in place is the big-endian low 48 bits of the time, version 7, 12 random bits, variant 10 and 62 random bits; it fails exactly on timestamps outside 64 bits |
| `UuidV7.PackedTimestamp` | api/libs/uuid_utils.py:55 | the last six of the eight packed octets are the timestamp modulo 2^48 |
| `UuidV7.TimestampOfLayout` | api/libs/uuid_utils.py:136-150 | reading a built id gives the timestamp modulo 2^48 |
| `UuidV7.AcceptsExactlyLayouts` | api/libs/uuid_utils.py:136-150 | the reader accepts an id if and only if some timestamp and random octets build it |
| `UuidV7.RejectsWithVersion` | api/libs/uuid_utils.py:136-138 | any other id is rejected with the version it has, or none when it is not of variant 10 |
| `UuidV7.LayoutInjective` | api/libs/uuid_utils.py:51-74 | two ids are equal if and only if their 48 time bits and their 74 unmasked random bits are |
| `UuidV7.LayoutFields` | api/libs/uuid_utils.py:51-74 | time, version, variant and random bits of a built id, field by field |
| `UuidV7.BoundaryOrder` | api/libs/uuid_utils.py:153-164 | a boundary is at most an id, as 128-bit integers, exactly when its millisecond is |
| `UuidV7.RangeOfBoundaries` | api/libs/uuid_utils.py:153-164 | the range between two boundaries holds exactly the ids of the milliseconds between them |
| `UuidV7.BoundaryIsLeast` | api/libs/uuid_utils.py:153-164 | a boundary is a well-formed id of its millisecond, and the least one |
| `UuidV7.EarlierIsSmaller` | api/libs/uuid_utils.py:51-164 | an earlier 48-bit timestamp gives an id below the boundary of a later one, whatever the random octets |
| `Rotation.PicksRoundRobin` | api/core/model_manager.py:607-614 | reduction by the length, minus one, the guard against large indices and Python's index -1 together pick element (slot - 1) mod N, for every slot and every N |
| `Rotation.CoversExactly` | api/core/model_manager.py:599-614 | N increments reach every one of N elements if and only if they stay clear of the wrap, or the rotation continues across it |
| `Rotation.EvenlyPicked` | api/core/model_manager.py:599-614 | M consecutive slots pick every element floor(M/N) times or once more, from any start |
| `LbClients.StepKeepsInv` | api/core/model_manager.py:599-635 | every single command of any client keeps the bound on the counter, the range of slots and the bound on increments |
| `LbClients.RunsKeepInv` | api/core/model_manager.py:599-659 | over every run of any number of interleaved clients and key expiries: the counter is at most 9,999,999 plus the clients that have passed it and not set it back; every slot used lies in 1 to 9,999,999; a call makes at most N increments, and finds nothing only after N |
| `LbClients.BoundsFromTheStart` | api/core/model_manager.py:599-659 | these bounds hold in every run that starts without clients and without a counter |
| `LbClients.FairWithoutWrap` | api/core/model_manager.py:599-614 | over any wrap-free run of any interleaving, starting anywhere, any two elements are picked equally often up to one |
| `LbClients.FairAcrossWraps` | api/core/model_manager.py:602-604 | the same over any number of wraps, when N divides 9,999,999 and nobody increments while the counter is being set back |
| `LbClients.WrapIsUnfair` | api/core/model_manager.py:602-614 | for every other N, one client alone picks element 0 twice and element N - 1 never when it starts where the last whole turn ends |
| `LbClients.FairExactly` | api/core/model_manager.py:599-614 | serial runs are fair, whatever their length, start and interleaving, if and only if N divides 9,999,999 |
| `LbClients.FairUpToRestarts` | api/core/model_manager.py:599-614 | over every run of any interleaving, expiries and unserialised wraps included, the picks of any two elements differ by at most one, and one more for each time the counter starts again |
| `LbClients.LonelyCallSeesAll` | api/core/model_manager.py:596-645 | a call during which nobody else moves the counter and that finds nothing has looked at every element if and only if it met no bad wrap, whatever the other clients do meanwhile |
| `LbClients.WrapContinuesRotation` | api/core/model_manager.py:602-614 | the slot after the last one is the next in the rotation if and only if N divides 9,999,999 |
| `LbClients.UnserialisedWrapIsUnfair` | api/core/model_manager.py:602-604 | a run in which two clients set the counter back and one element is picked two times more than another, though N divides 9,999,999 |
| `LbClients.InterferenceHidesElements` | api/core/model_manager.py:599-622 | a run in which a client finds nothing without having looked at every element, because another increments in between |
| `LbConfigs.Prepare` | api/core/model_manager.py:578-584 | removing from the list while going over its copy leaves the list without its inheriting entries, in order; with credentials to lend, every inheriting entry has them and the others are untouched |
| `LbConfigs.PreparedMeans` | api/core/model_manager.py:578-584 | who stays on the list, and which fields of whom lending changes |
| `LbConfigs.WithoutInheritInOrder` | api/core/model_manager.py:578-582 | those that stay keep their order |
| `LbConfigs.NothingLeft` | api/core/model_manager.py:578-584 | a manager has no configuration left exactly when it had none, or nothing is lent and all of them inherit |
| `LoadBalancer.LBModelManager.constructor` | api/core/model_manager.py:554-584 | the manager works on the prepared list |
| `LoadBalancer.LBModelManager.Cooldown` | api/core/model_manager.py:661-672 | the configuration's key, and no other, expires after the given time |
| `LoadBalancer.LBModelManager.FetchNext` | api/core/model_manager.py:586-659 | the loop ends within N increments and renews the counter's expiry; it returns the first configuration in rotation order that is neither cooling nor has a credential the policy refuses, every one it passes over is cooling or refused, it says unavailable only after looking at N candidates, and fails by division by zero exactly on an empty list |
| `LoadBalancer.NthCounts` | api/core/model_manager.py:600-604 | the counter counts up to 9,999,999 and starts again at 1 |
| `LoadBalancer.CoveredUnavailable` | api/core/model_manager.py:616-645 | undisturbed, "unavailable" means that every configuration is cooling or refused |
| `LoadBalancer.UnavailableMeansAll` | api/core/model_manager.py:599-645 | that holds for every state of cooldowns and policy if and only if the counter is undisturbed by the wrap |
| `Failover.ModelInstance.RoundRobinInvoke` | api/core/model_manager.py:416-460 | the loop ends; no configuration is tried twice or while cooling; each round takes the first available one of the rotation; a reply or an unknown error ends the call at once; otherwise the last recoverable error is raised, or the not-initialised error if nothing was invoked; cooldowns are 60 seconds for rate limits and refusals, 10 for the other recoverable errors; unless the wrap disturbs the first N increments, a call that gives up has accounted for every configuration within 2N increments, and any other call makes at most N |
| `Failover.SweptByRounds` | api/core/model_manager.py:416-460 | whatever the rounds have passed over or tried is unavailable for the rest of the call |
| `Failover.TriesWithinOneTurn` | api/core/model_manager.py:416-460 | all tries of a call fall within its first N increments, if the wrap does not disturb these |
| `Failover.FreshTriesOnce` | api/core/model_manager.py:416-460 | configurations tried while not cooling are different ones, since each is put to cooling |
| `Failover.FreshBound` | api/core/model_manager.py:416-460 | at most N rounds |
| `Failover.PenalisedCools` | api/core/model_manager.py:433-455 | cooling after the rounds is exactly what was cooling before and what was tried |
| `Failover.RoundsCoolDown` | api/core/model_manager.py:433-456 | the cooldowns a call leaves: 60 seconds from now for configurations refused or rate limited, 10 for failed authorization or connection, and every other one as it was |
| `Failover.LastFailureReplies` | api/core/model_manager.py:416-424 | a call that gives up raises the error of its last invocation, or the not-initialised error if it invoked nothing |
| `Failover.ExhaustedAccounts` | api/core/model_manager.py:416-424 | failover is complete: when the loop gives up, every configuration was cooling at the start, refused by the policy, or tried in this call |
| `Failover.CompleteExactly` | api/core/model_manager.py:416-460 | it is so for all cooldowns, policies and failures if and only if the first N increments are undisturbed by the wrap |
| `IndexingRows.GroupMembers` | api/core/indexing_runner.py:602-608 | a node is in the group of its content's hash and in no other |
| `IndexingRows.GroupInOrder` | api/core/indexing_runner.py:602-608 | the group is the hash of the content modulo ten, and keeps the order of the nodes |
| `IndexingRows.RemainingMembers` | api/core/indexing_runner.py:222-230 | the nodes a resume works on are those of the segments not completed |
| `IndexingRows.RemainingInOrder` | api/core/indexing_runner.py:220-247 | in the order of the rows |
| `IndexingRows.AddedRow` | api/core/rag/docstore/dataset_docstore.py:87-178 | saving one more node keeps every row waiting and named after a node |
| `IndexingRows.AddNodeMeans` | api/core/rag/docstore/dataset_docstore.py:87-178 | a node with a known id changes the content of its segment and nothing else, any other gets a waiting segment, not enabled, at the end |
| `IndexingRows.AddNodesMeans` | api/core/rag/docstore/dataset_docstore.py:87-178 | nodes are saved one after the other, in order |
| `IndexingRows.AddedRows` | api/core/indexing_runner.py:783-790 | saving nodes for an empty document leaves only waiting segments with ids of these nodes |
| `IndexingRows.TokensConserved` | api/core/indexing_runner.py:602-626 | distribution over the groups neither loses nor doubles a token |
| `IndexingRows.TokenSumMeans` | api/core/indexing_runner.py:674-677 | the tokens of a list are those of the single contents, added up |
| `IndexingSteps.StepKeepsInv` | api/core/indexing_runner.py:552-811 | every step, a status check and its commit taken apart, keeps the invariant: whoever is loading still has a pending chunk for every segment not completed |
| `IndexingSteps.RunsKeepInv` | api/core/indexing_runner.py:67-262 | the invariant holds after every orderly run |
| `IndexingSteps.CompletedMeansAllCompleted` | api/core/indexing_runner.py:637-646 | over every run of starts, chunk failures, crashes, pauses, retries and resumes, a document marked completed has only completed segments, if it is built from scratch only when no worker is alive and a resume finds no waiting segment |
| `IndexingSteps.CrashBetweenCommits` | api/core/indexing_runner.py:793-811 | a run that shows the hypothesis on resumes is needed: a crash between the status commit and the segment commit ends in a completed document with a waiting segment |
| `IndexingSteps.PausedStep` | api/core/indexing_runner.py:720-732 | a step under a pause lets no further worker pass the check, and brings the document to splitting, indexing or completed only if a worker that has passed it was about to |
| `IndexingSteps.PausedRun` | api/core/indexing_runner.py:713-732 | the same over every run during which the document stays paused |
| `IndexingSteps.PausedAdvancesExactly` | api/core/indexing_runner.py:713-732 | a paused document can still reach one of these statuses while it stays paused if and only if some worker has passed the check for exactly that commit |
| `IndexingSteps.PauseAfterCheck` | api/core/indexing_runner.py:720-732 | a run from the start that ends paused and from which the document still reaches splitting |
| `IndexingSteps.PausedDoesNotAdvance` | api/core/indexing_runner.py:713-732 | once no worker is between check and commit, no run brings a document that stays paused to splitting, indexing or completed |
| `IndexingSteps.FlaggedRun` | api/core/indexing_runner.py:671-672 | while the pause flag is set no segment is completed, once the chunks that had already checked it are through |
| `IndexingSteps.ResumeReloadsUnfinished` | api/core/indexing_runner.py:222-230 | after any subset of chunk commits a resume loads exactly the unfinished segments, never a completed one |
| `IndexingSteps.StuckMeansDone` | api/core/indexing_runner.py:609-646 | a resume that is left alone has nothing more to do exactly when the document is completed |
| `IndexingSteps.ResumeCompletes` | api/core/indexing_runner.py:194-262 | whatever happened before and whoever else is at work: every resume that is left alone, in whatever order its chunks check and commit, takes at most 22 steps, can go on until the document is completed, and then every segment is completed if and only if none was waiting when it began |
| `IndexingStarts.SafeExactly` | api/tasks/recover_document_indexing_task.py:33-40 | the hypotheses of the safety theorem are exact: after any orderly history, for every step that can be taken, all orderly continuations are safe if and only if the step is no build from scratch beside a live worker and no resume with a segment waiting; otherwise the document can end up completed for good with an unfinished segment |
| `IndexingStarts.StartBesideWorkerBreaks` | api/core/indexing_runner.py:127-192 | beside any worker, whatever it is at, a build from scratch can break the document: the other fails late, the document is retried, and what the new worker has saved is taken for old segments |
| `IndexingStarts.ResumeOfWaitingBreaks` | api/core/indexing_runner.py:194-262 | a resume with a segment waiting can complete the document and leave that segment waiting |
| `IndexingStarts.RecoveredBesideWorker` | api/services/dataset_service.py:1432-1462 | a pause and a recovery while the worker transforms, without failure or crash: the document ends up completed for good, one worker's segment completed and the other's not, for any two pieces with different ids |
| `IndexingRunner.LoadRowsExactly` | api/core/indexing_runner.py:682-704 | after all chunks, exactly the indexing segments of groups that did not fail are completed and enabled, and every other row is as before |
| `IndexingRunner.ResumeCompletesExactly` | api/core/indexing_runner.py:194-255 | an undisturbed resume completes every segment if and only if none was waiting |
| `IndexingRunner.BuildCompletesExactly` | api/core/indexing_runner.py:778-811 | an undisturbed build completes every segment if and only if every segment there was before has the id of a new node: earlier segments are marked but not loaded |
| `IndexingRunner.Runner.UpdateDocumentIndexStatus` | api/core/indexing_runner.py:713-732 | raises and changes nothing if the document is paused, else sets the status |
| `IndexingRunner.Runner.ProcessChunk` | api/core/indexing_runner.py:660-704 | counts the tokens of the chunk and completes its indexing segments, or changes no row when paused or failing |
| `IndexingRunner.Runner.Distribute` | api/core/indexing_runner.py:602-608 | the ten groups filled in place hold, in input order, the nodes with that hash remainder |
| `IndexingRunner.Runner.RunChunks` | api/core/indexing_runner.py:609-623 | all chunks run to their end whatever the others do, and their effects on the rows combine |
| `IndexingRunner.Runner.Load` | api/core/indexing_runner.py:552-646 | the document is completed exactly when nothing is paused and no chunk fails; the result is then the token count of all nodes, in whatever groups they are; the rows of surviving chunks are completed even when another chunk fails |
| `IndexingRunner.Runner.CollectRemaining` | api/core/indexing_runner.py:215-247 | collects the nodes of the unfinished segments in row order |
| `IndexingRunner.Runner.RunInIndexingStatus` | api/core/indexing_runner.py:194-262 | a resume ends completed, failed or raised exactly as the chunks and the pause decide; when completed, all segments are completed if and only if none was waiting |
| `IndexingRunner.Runner.LoadSegments` | api/core/indexing_runner.py:778-811 | segments are saved before the pause check, and marked as indexing only after it |
| `IndexingRunner.Runner.Run` | api/core/indexing_runner.py:67-125 | how a build ends for every combination of failing extraction, failing transformation, pause and failing chunks, the rows it leaves in each case, and when completed means all segments completed |
| `IndexingRunner.Runner.RunInSplittingStatus` | api/core/indexing_runner.py:127-192 | deletes earlier segments first, so that completed always means all segments completed |
| `RecyclableVars.ThreadRecycles.Increment` | api/contexts/wrapper.py:25-30 | the first call only sets the counter to zero |
| `RecyclableVars.RecyclableContextVar.Get` | api/contexts/wrapper.py:36-50 | the stored value, the default or a lookup error, the error also when the counter is ahead of an unset variable, and the new counter of the variable |
| `RecyclableVars.RecyclableContextVar.Set` | api/contexts/wrapper.py:52-65 | the variable holds the value and is ahead of the thread |
| `RecyclableVars.StepRepresents` | api/contexts/wrapper.py:24-65 | no variable runs more than one ahead of the thread, it holds its value exactly when it does, and none is ever ahead while unset, on any number of variables |
| `RecyclableVars.ClearedByAllButFirst` | api/contexts/wrapper.py:24-65 | over all sequences of operations the code answers like variables that every increment but the first clears |
| `RecyclableVars.ClearedAtEveryRequestExactly` | api/contexts/wrapper.py:14-65 | it answers like variables cleared at every request, for every continuation, if and only if nothing was set before the first request |
| `RateLimits.RateLimiter.IsRateLimited` | api/libs/helper.py:385-395 | answers yes exactly when the different seconds inside the window, in the full history of attempts, are at least as many as the limit, and for a limit of zero or less when there is one; keeps store and history in agreement |
| `RateLimits.RateLimiter.IncrementRateLimit` | api/libs/helper.py:397-402 | the history gains one attempt and the store still agrees with it; of the live keys only this one changes, by the present second, and it lives for twice the window |
| `RateLimits.CountedIsLive` | api/libs/helper.py:388-402 | an attempt that still counts is never lost to the expiry |
| `RateLimits.SlidingWindow` | api/libs/helper.py:385-402 | for every window and every interleaving of attempts and queries on any number of keys, with a clock that does not go back, all answers are those of counting the different seconds of the full history inside the window |
| `RateLimits.FromTheStart` | api/libs/helper.py:376-402 | the same for a limiter that starts with an empty store |
| `RateLimits.LimitReachedExactly` | api/libs/helper.py:385-402 | from an empty store, after attempts in different seconds of one window a query in it answers yes exactly when they reach the limit: the limit itself counts, one fewer does not |
| `RateLimits.SecondsCount` | api/libs/helper.py:397-402 | the different seconds are at most as many as the attempts, and as many only if no two that count share one |
| `RateLimits.CountsAttemptsExactly` | api/libs/helper.py:385-402 | the answers are those of counting attempts, for every limit, if and only if no two attempts in the window fall into one second |
| `Tokens.TokenManager.GenerateToken` | api/libs/helper.py:300-336 | for an account, whether an email is given or not: the token its account key named is dead, its only live token is the new one, which holds the id and email of the account and lives for the minutes configured, and the account key names it; without an account the token holds the email given and no account key changes; the two ways to fail; all other tokens stay |
| `Tokens.GeneratedStore` | api/libs/helper.py:311-334 | the same for any moments at which the call reads and writes |
| `Tokens.TokenManager.RevokeToken` | api/libs/helper.py:342-345 | the token is dead, all other token keys and all account keys are as they were, and live tokens are still the ones their account keys name |
| `Tokens.TokenManager.GetTokenData` | api/libs/helper.py:347-355 | the data of a live token, and nothing for any other |
| `Tokens.RunsKeepNamed` | api/libs/helper.py:299-373 | over every sequential run, a live token of an account is the one its account key names, and that key does not expire before the token |
| `Tokens.SingleLiveToken` | api/libs/helper.py:299-373 | at no time are two tokens of one account and type alive |
| `Tokens.GenerationReplaces` | api/libs/helper.py:314-334 | after a generation exactly the new token is alive, if the call was not so slow that it has expired already |
| `TokenSteps.StepKeepsInv` | api/libs/helper.py:314-334 | every orderly command keeps what each generation under way knows of its account's tokens, and that the account keys of all others name their live tokens and outlast them |
| `TokenSteps.OrderlyRunsAreSafe` | api/libs/helper.py:299-373 | over every run of any number of callers, interleaved command by command on whatever accounts and types, no account has two live tokens of a type, if generations for one account and type do not overlap and none stops between its two writes |
| `TokenSteps.SafeExactly` | api/libs/helper.py:314-334 | these hypotheses are exact: after any orderly history, a command is safe however it goes on in order if and only if it neither reads the account key while another generation of the account and type is between its read and its last write, nor leaves a live token that the account key does not name and outlast |
| `SignContent.ReplaceAll` | api/models/dataset.py:862-868 | the loop with the running offset, and where on ascending spans each gap and each URL ends up |
| `SignContent.ReplacedIsSpliced` | api/models/dataset.py:862-868 | at every round the offset is the change of length so far and the rest of the text is untouched |
| `SignContent.SplicedPieces` | api/models/dataset.py:862-868 | every gap of the text and every URL stands in the result, moved by the lengths that were exchanged before it, and the result has room for nothing else |
| `SignContent.AscendingSplice` | api/models/dataset.py:862-868 | for every text and every ascending list of spans without overlap, the result is gap, URL, gap, URL and so on to the last gap |
| `SignContent.NeverWritten` | api/models/dataset.py:862-868 | a place that all rounds still to come write beyond keeps its character to the end of the loop |
| `SignContent.SortedIsUnique` | api/models/dataset.py:806-860 | matches that are not empty have only one order from left to right |
| `SignContent.InOrderExactly` | api/models/dataset.py:806-868 | any number of matches, in whatever order the patterns list them, on any text in which each overtaken match can be told from its URL: the result is right if and only if the list goes from left to right |
| `SignContent.UnsignedContents` | api/models/dataset.py:806-868 | so it is on every content whose matches have no query yet, when the query that is added is longer than the matches it overtakes |
| `SignContent.RightForAllTextsExactly` | api/models/dataset.py:862-868 | a list of spans is replaced rightly on all texts of a length if and only if it goes from left to right |
| `ModelCredentials.Group` | api/core/provider_manager.py:752-754 | the loop over the default dictionary builds the grouping the next two rows are about |
| `ModelCredentials.GroupedMeans` | api/core/provider_manager.py:752-754 | grouping keeps keys apart, keeps input order within a key, and has a group, never an empty one, for every key that occurs |
| `ModelCredentials.GroupsInOrder` | api/core/provider_manager.py:756-766 | groups stand in the order in which their keys first occur |
| `ModelCredentials.LookupIsFilter` | api/core/provider_manager.py:785-798 | looking a model up in the grouping gives its credentials in input order |
| `ModelCredentials.FilterInOrder` | api/core/provider_manager.py:785-798 | a model's credentials are those with its name and type, in input order |
| `ModelCredentials.GetCanAddedModels` | api/core/provider_manager.py:738-766 | the models to add are those that have credentials and no record, none twice, each with all its credentials in input order |
| `ModelCredentials.GetCustomModelConfigurations` | api/core/provider_manager.py:768-836 | a model for every record, with its credentials, and then the models to add |
| `ModelCredentials.OfferedExactly` | api/core/provider_manager.py:738-836 | whatever the records, a credential is offered once for each record of its model, and once if there is none |
| `ModelCredentials.ConservedExactly` | api/core/provider_manager.py:738-836 | the lists hold every input credential exactly once if and only if no model that has credentials is recorded twice |
| `ModelCredentials.SelfExtendedRecordsDouble` | api/core/provider_manager.py:120-176 | records extended by themselves offer each of their credentials twice as often |
| `ModelCredentials.UnaddedAreNotRecorded` | api/core/provider_manager.py:742-749 | no model to add has a record |
| `ModelCredentials.LoadBalancingConfigs` | api/core/provider_manager.py:1086-1163 | the configurations of all enabled rows of the model that inherit or have readable credentials, with which fields, in row order; nothing at all when there is only one |
| `ModelCredentials.ManagerHasConfigs` | api/core/provider_manager.py:1155-1163 | a list handed on never leaves the manager empty when at most one row of the model inherits, lent credentials or not |

## Left out

- SHA-1, MGF1, AES in EAX mode, UTF-8 and all random values are parameters; AES and UTF-8 come with the laws that opening accepts exactly what sealing makes and decoding accepts exactly what encoding makes.
- Key generation, PEM import, storage of private keys and their two-minute cache.
- `PKCS1OAepCipher` construction: defaults for hash, mask generation and randomness, and the unused label.
- Malformed UTF-16 surrogates in a text, on which Python's encoder raises.
- The UUID generator's own clock and randomness; the two are parameters of the layout.
- JSON extraction from Markdown (`api/libs/json_in_md_parser.py`): two searches for delimiters, of less depth than the rest.
- LoadBalancer.LBModelManager.FetchNext: one client alone; what interference does is stated in `LbClients`, over runs.
- Failover.ModelInstance.RoundRobinInvoke: the clock stands still during a call, and each configuration has one fixed outcome and policy answer; a model without load balancing, which is invoked directly, and the arguments of the call are not modelled.
- LbConfigs.Prepare: the list is a value, so several managers that share one list object and lend credentials into its elements are not captured.
- The remaining time of a cooldown (`get_config_in_cooldown_and_ttl`) and the formats of the cache keys.
- IndexingSteps.CompletedMeansAllCompleted: for one document with the high-quality technique; economy indexing fills segments in a keyword thread whose failure nobody observes, and parent-child documents with economy indexing are completed without either.
- IndexingRunner.Runner.Run: extraction and splitting are one outcome each, as are the lookups of dataset, rule and account that can raise; several documents in one call, deleted documents and child chunks are left out.
- IndexingRunner.Runner.RunChunks: the chunks run one after the other here, interleaved in `IndexingSteps`; a chunk's work other than the pause check and the commit is one outcome.
- IndexingRunner.Runner.Load: the token count it writes is its result here; across resumes the code overwrites the count with that of the remaining nodes, which is not modelled.
- The vector index itself, and the columns of rows that only record times, counts and users.
- RecyclableVars.ClearedAtEveryRequestExactly: within one context; copying a context into another thread, which can lower the recycle counter, is left out.
- RateLimits.SlidingWindow: each call takes one instant; two commands of one call on either side of a second are left out.
- Tokens.SingleLiveToken: lifetimes are whole minutes, and the additional data of a token is left out (it could overwrite the account id); calls that overlap or break off are in `TokenSteps`.
- The regular expressions and signatures of `get_sign_content`; the spans they give are parameters.
- SignContent.InOrderExactly: for matches that do not overlap; a URL in the query of a tool file's URL overlaps it and has no place of its own in the result. A content signed before, where the text after a match can happen to be what the new URL has there, may come out right in the wrong order.
- Decryption and caching of model credentials, model types that do not exist, hosting and system configurations of providers.
- Everything else of the repository: controllers, workflows, plugins, ORM columns, web front end and SDKs.
