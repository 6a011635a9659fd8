# Andromeda: a Dafny model of its hard core

Andromeda is a database written in Rust with Python tooling. This project models the parts of it
whose correctness depends on whole runs, on exact arithmetic or on the interplay of several
functions, and proves what they promise for every input.

| module | what it models |
|---|---|
| `LockTable`, `LockManager` | lock modes, the queue of one resource, and the lock manager's acquire, release and release-all over a table of queues |
| `LockRuns` | what every run of these operations keeps: the strength of locks, the requests, and their order |
| `WaitGraphs` | wait-for graphs: cycles, sets that wait within themselves, and the first cycle by ascending ids |
| `SearchReadings`, `CycleSearch` | the depth-first search for a cycle under a deadline, and how many readings of the clock it takes |
| `DeadlockDetection` | building the graph of a snapshot, the choice of a victim and the answer of the detector |
| `Deadlocks`, `DeadlockWitnesses` | which requests of a lock table hold each other up, and which of these deadlocks the detector sees |
| `TableDetection` | detection on a whole lock table: snapshot, graph, search and victim together |
| `DeadlockRuns` | what becomes of a deadlock: which requests nobody else can ever help, what a release frees, and how often a victim has to be chosen |
| `ClockEviction` | the buffer pool's clock sweep over an array of frames |
| `DirtyTracking` | the dirty-page table, the flush order and the fence that keeps data behind the log |
| `WalArchive` | the WAL segment chain check, the recovery window, finalisation and retention |
| `IoScheduler` | the backup scheduler that splits a physical plan into bounded read tasks |
| `BackupCheckpoint` | the checksum of resumed backups and the integrity value of checkpoints |
| `AuditLog`, `AuditRetention`, `AuditQuery` | audit records, compaction with archive proofs, and paged queries |
| `WrappingHash` | the multiply-and-add hash modulo a power of two that both checksums use |
| `NodeCodec` | the binary layout of a B-tree node page |
| `KeySearch` | the sorted key index: lower bound with its comparisons, and range scan |
| `BitWords`, `FrameCrc` | machine words as bits, and the CRC-32 of RPC frame headers, bit by bit |
| `FrameHeaders` | the layout of frame headers, the decoder's header checks, and the seed generator |
| `Records`, `FrameCodec` | self-delimiting records one behind the other, and the frame codec with its batch scanner |
| `Lexemes`, `SourceMasker` | where Rust comments, strings and character literals end, the scanner that blanks them, and the line numbers computed from its result |
| `LiteralMasking` | which single quotes open a character literal in Rust, and on which texts the scanner masks exactly what the language says |
| `Common` | options, results, machine integers, little-endian bytes and prefix lemmas |

Code that updates objects or variables step by step is modelled by classes, arrays and loops; its
methods are proved against the functions and relations about which the lemmas speak. Fixed-width
integers are explicit: every checked, wrapping and saturating operation is written out.

## Main results

- **Locks.** In every run of acquire, release and release-all from the empty table no two
  transactions hold conflicting locks, no transaction has two holder records, queues are in request
  order, and the front of every queue is kept out by a lock of somebody else: no wakeup is lost. While a
  request waits, nobody gets a lock that conflicts with it unless it was asked for earlier. The queue, the
  counter and the request determine every answer (`AnswerIsDetermined`), and the supported conversions are
  exactly those to a stronger mode of the same kind (`UpgradesExactly`).
- **Promotion can loosen a lock.** A transaction that queues two different modes on one resource can be
  promoted to the first and then be left with the weaker second (`LockIsLostInARun`).
  `PromotionLoosensExactly` says exactly which promotions weaken a lock. A transaction is called firm on a
  resource when no request it queues there loosens what it holds or asked for earlier; in every run
  in which it stays firm it keeps what it holds until it gives it up, and a request of it is waiting or
  answered with at least the mode it asked for.
- **Deadlocks.** The answer of the search is determined by the graph and the clock (`OutcomeIsUnique`): it
  times out if and only if one of the readings it takes has expired, and otherwise finds the first cycle,
  the one that is met on the way from the least transaction that reaches a cycle through least blockers
  that do. Detection on a lock table reports, defers or denies accordingly. What it reports is a deadlock,
  but it need not last: one call of a transaction outside can dissolve it (`DeadlockCanDissolve`).
  `DeadlockLastsExactly` says which deadlocks do: in every run of the others all requests keep waiting if
  and only if they are deadlocked once everybody else has gone. The detector releases nothing itself; a
  caller that releases the victims of successive reports ends, after at most as many rounds as there are
  transactions, with a table without a cycle. The detector is blind to queues: a reader that asks to
  upgrade behind a waiting writer is deadlocked at once and no cycle is reported (`DeadlockIsMissed`).
  `CoverageIsExact` says exactly which queues it can see through: those in which whoever stands behind a
  request of another transaction has a request that the same locks, or the locks of that transaction, keep
  out.
- **Clock.** One call finds the first frame that a two-round sweep reaches with its usage bit clear, and
  reports failure exactly when no frame is eligible; a run of calls returns every eligible frame once.
- **Write-ahead logging.** After any history the dirty table holds the least and the greatest LSN since the
  last clean, and in every fenced run a page is written only when each of its marks is durable.
- **WAL archives.** The one-pass chain check accepts exactly the archives whose segments tile their range. The
  window check accepts targets that cannot be replayed; the exact condition is stated.
- **Backup scheduling.** Tasks tile every unit, every page is read once, tiers are in order, bytes are
  conserved, and a schedule comes back exactly on a stated set of plans.
- **Checksums.** Both folding checksums are polynomials modulo a power of two; single changes are detected, and
  the changes that are missed are characterised. Any change within four octets changes the CRC-32, and the
  changes that reach into the checksum field and pass are characterised. Every message followed by its CRC-32
  leaves the residue of the standard, whatever the message (`ResidueIsFixed`).
- **Frames.** The scanner finds a frame exactly where one is held, frames need no separators, a batch is read in
  one way only, and a batch of encoded frames comes back as those frames up to the limit of 4096. Decoding and
  encoding again changes nothing if and only if no transaction id is stored without its marker.
- **Codec.** Decode answers with a node exactly when the page represents it; encoding and decoding are inverse
  to each other.
- **Masking.** The scanner's tokens are exactly those of a grammar: nested comments as trees, raw strings by
  their markers, quoted text up to the first quote that is not escaped. The result keeps every newline in
  place, leaves nothing to mask behind and does not change when it is masked again. It is the mask of the
  language if and only if the scanner's guard is right about every single quote at which a token of the
  language starts (`MaskIsRightExactly`); code behind a lifetime, an underscore literal or a long Unicode
  escape can be masked by mistake (`LifetimeHidesCode`, `MissedLiteralHidesCode`).

## Where the code and its documentation disagree

- `crates/andromeda-backup/src/wal_archive_integration.rs` says at the top that the recovery window starts at
  the catalog snapshot. The code starts it at the base checkpoint of the snapshot; the model follows
  the code, and `FinalizedWindow` says what follows from it.
- `crates/andromeda-locking/src/manager_core.rs` names shared-to-exclusive and intent upgrades only. The
  code also upgrades schema-shared to schema-exclusive; the model follows the code.

## Model

| member | source | states |
|---|---|---|
| `LockTable.MatrixMeans` | crates/andromeda-locking/src/mode.rs:37-57 | two modes go together if and only if neither is exclusive or schema-exclusive and they are not shared with intent-exclusive; the matrix is symmetric |
| `LockTable.AnswersAreSound` | crates/andromeda-locking/src/mode.rs:60-78 | a covering mode keeps out at least what the covered one does, and an upgrade keeps out strictly more |
| `LockTable.UpgradesExactly` | crates/andromeda-locking/src/mode.rs:71-78 | an upgrade is supported if and only if the modes are of one kind and the requested one is strictly stronger |
| `LockTable.CoversExactly` | crates/andromeda-locking/src/mode.rs:60-69 | covered are exactly the strictly weaker modes of the same kind, and all intentions under a data lock that is compatible with nothing |
| `LockTable.BlockersAreInOrder` | crates/andromeda-locking/src/manager_core.rs:121-191 | the blockers of a request come in the order of the holders |
| `LockTable.HoldKeepsPlaces` | crates/andromeda-locking/src/entry.rs:79-95 | a promotion leaves all other holder records as and where they are, and puts a new one last |
| `LockTable.UpgradePassesNobody` | crates/andromeda-locking/src/manager_core.rs:121-139 | an upgrade that is applied at once finds an empty queue: whatever it may pass would have been promoted earlier |
| `LockTable.PromotionIsSafe` | crates/andromeda-locking/src/entry.rs:57-95 | promotion keeps one record per transaction and pairwise compatible modes, and stops only in front of a waiter that a lock of another transaction keeps out |
| `LockTable.PromotionTakesAPrefix` | crates/andromeda-locking/src/entry.rs:57-69 | the waiters that remain are the end of the queue: nobody is dropped, added or overtaken |
| `LockTable.PromotionConserves` | crates/andromeda-locking/src/entry.rs:79-95 | after promotion exactly the former holders and the promoted waiters hold |
| `LockTable.ReleaseKeepsEntryOk` | crates/andromeda-locking/src/manager_core.rs:300-315 | a release leaves a queue that is safe, in request order and with its front blocked |
| `LockTable.ReleasedIsGone` | crates/andromeda-locking/src/manager_core.rs:270-275 | after its release a transaction has no holder and no waiter record on the resource |
| `LockTable.PromotionKeepsStrength` | crates/andromeda-locking/src/entry.rs:79-89 | converting a held lock keeps out everything it kept out if and only if the pair of modes is not one of the listed loosening pairs |
| `LockTable.PromotionWeakensNobody` | crates/andromeda-locking/src/entry.rs:57-95 | promotion of a whole queue leaves a transaction at least what it held, if none of its requests loosens what it holds or asked for earlier |
| `LockTable.PromotedHoldWhatTheyAskedFor` | crates/andromeda-locking/src/entry.rs:57-95 | a waiter of a firm transaction still waits after a promotion or holds at least the mode it asked for |
| `LockTable.PromotionConverts` | crates/andromeda-locking/src/entry.rs:57-95 | what promotion of a whole queue leaves to each transaction: what it held, converted by those of its requests that are promoted, in their order |
| `LockTable.PromotionWeakensExactly` | crates/andromeda-locking/src/entry.rs:57-95 | a transaction ends with at least a given mode if and only if that conversion does |
| `LockTable.PromotionLoosensExactly` | crates/andromeda-locking/src/entry.rs:79-95 | one promotion leaves every lock at least as strong as it was if and only if the pair of held and requested mode is not a loosening one |
| `LockTable.PromotedLockCanBeLost` | crates/andromeda-locking/src/entry.rs:85-88 | a queue in good order in which a release promotes a transaction to exclusive and then leaves it with schema-shared |
| `LockManager.AcquireKeepsEntryOk` | crates/andromeda-locking/src/manager_core.rs:93-206 | every answer of acquire leaves the queue safe, in request order and with its front blocked |
| `LockManager.StepKeepsStateOk` | crates/andromeda-locking/src/manager_core.rs:93-406 | each of the three operations keeps the whole table in good order and the request counter from falling |
| `LockManager.EveryRunIsSafe` | crates/andromeda-locking/src/manager_core.rs:17-26 | in every run from the empty table every state has safe holders, queues in request order and no lost wakeup |
| `LockManager.NoQueueIsLeftEmpty` | crates/andromeda-locking/src/manager_core.rs:93-406 | in every run no resource keeps a queue without holders and waiters |
| `LockManager.LockIsLostInARun` | crates/andromeda-locking/src/entry.rs:57-95 | a run of three acquires and one release after which a transaction that was promoted to exclusive holds schema-shared only |
| `LockManager.LockManager.constructor` | crates/andromeda-locking/src/manager_core.rs:39-44 | a new manager has an empty table in good order |
| `LockManager.LockManager.Acquire` | crates/andromeda-locking/src/manager_core.rs:93-206 | zero identifiers are refused without effect; otherwise the answer, the new queue and the counter are related as the answer says, and all other queues are unchanged |
| `LockManager.LockManager.AcquireIn` | crates/andromeda-locking/src/manager_core.rs:104-205 | granted or upgraded exactly when no lock of another transaction and no waiter conflicts; repeated and covered requests change nothing; unsupported conversions and counter overflow change nothing |
| `LockManager.AnswerIsDetermined` | crates/andromeda-locking/src/manager_core.rs:104-205 | queue, counter and request determine the answer, the new queue and the new counter |
| `LockManager.LockManager.Enqueue` | crates/andromeda-locking/src/manager_core.rs:141-156 | the number of the request already queued, or a new record at the end under the next number, or nothing when the counter is exhausted |
| `LockManager.LockManager.Release` | crates/andromeda-locking/src/manager_core.rs:276-332 | the table after one release, whether anything was released, and the promoted waiters: followed by the remaining ones they are the other transactions' waiters in order |
| `LockManager.LockManager.ReleaseAll` | crates/andromeda-locking/src/manager_core.rs:347-406 | the table after everything is given up, the counts of touched queues, held resources and removed requests, and the waiters promoted on each touched resource |
| `LockManager.ReleaseEverywhere` | crates/andromeda-locking/src/manager_core.rs:361-405 | the loop over all queues gives every queue its release, drops those it emptied and no others, counts, and lists the promoted waiters, in any order of iteration |
| `LockManager.ReleaseIn` | crates/andromeda-locking/src/manager_core.rs:372-392 | the queue after one release with the number of removed records of each kind; zero of both exactly when the transaction is not in the queue |
| `LockManager.PromoteCompatibleWaiters` | crates/andromeda-locking/src/entry.rs:57-69 | the loop computes the promoted queue, and promoted plus remaining waiters are the old ones |
| `LockRuns.FirmInEveryState` | crates/andromeda-locking/src/manager_core.rs:93-406 | a transaction that never asks for a mode that loosens, or is loosened by, one it has waiting on the resource is firm in every state of the run |
| `LockRuns.OneModeAtATimeIsFirm` | crates/andromeda-locking/src/manager_core.rs:166-206 | asking for a resource on which no other mode of the transaction is waiting is asking firmly |
| `LockRuns.LocksAreKept` | crates/andromeda-locking/src/manager_core.rs:79-92 | in every run in which a transaction asks firmly and does not give up a resource, it goes on holding at least what it held |
| `LockRuns.RequestsAreServed` | crates/andromeda-locking/src/manager_core.rs:270-275 | in every such run a request is waiting or its transaction holds at least the mode it asked for |
| `LockRuns.NobodyOvertakes` | crates/andromeda-locking/src/manager_core.rs:17-26 | in every run, while a request waits, whoever holds a conflicting lock held it when the wait began or asked for it earlier |
| `DeadlockDetection.AddWaiter` | crates/andromeda-locking/src/deadlock_detection/graph.rs:41-55 | adds exactly the edges from one request to the other transactions whose locks conflict with it; fails exactly on a zero holder id |
| `DeadlockDetection.AddEntry` | crates/andromeda-locking/src/deadlock_detection/graph.rs:38-56 | adds exactly the conflicts between requests and locks of one queue |
| `DeadlockDetection.FromLockTableSnapshot` | crates/andromeda-locking/src/deadlock_detection/graph.rs:32-59 | the edges are exactly the conflicts in the snapshot, the detector accepts the graph, and building it fails exactly on zero ids |
| `CycleSearch.Ascending` | crates/andromeda-locking/src/deadlock_detection/graph.rs:131-169 | the members of a set, each once, least first |
| `CycleSearch.DfsCycleFrom` | crates/andromeda-locking/src/deadlock_detection/cycle.rs:53-100 | entering a transaction: what is entered, looked at and done, in how many readings, until the first cycle is found, the time is up, or everything reachable is done, and then the stack is restored |
| `CycleSearch.VisitBlockers` | crates/andromeda-locking/src/deadlock_detection/cycle.rs:68-95 | the same for the loop over the blockers of the transaction on top of the stack, least first |
| `CycleSearch.FindFirstCycle` | crates/andromeda-locking/src/deadlock_detection/cycle.rs:20-47 | a timeout if and only if one of the readings that the search takes has expired; otherwise the first cycle, and none if and only if no transaction waits within a set |
| `DeadlockDetection.SelectVictim` | crates/andromeda-locking/src/deadlock_detection/victim.rs:69-97 | the members in order, and the one with the greatest start order and id, the greatest id or the least id, as the policy says; fails exactly on short cycles, zero ids and missing start orders |
| `DeadlockDetection.SelectYoungest` | crates/andromeda-locking/src/deadlock_detection/victim.rs:105-124 | the loop finds the greatest start order, with the greatest id among equals, and stops exactly when one is missing |
| `DeadlockDetection.DetectInGraph` | crates/andromeda-locking/src/deadlock_detection/detector.rs:63-113 | the exact error cases of policy, deadline and graph, and the answer that graph, start orders and clock determine: timeout, denial, deferral for a missing start order, or the first cycle with its members in order and the victim of the policy |
| `WaitGraphs.NoTrap` | crates/andromeda-locking/src/deadlock_detection/cycle.rs:97-99 | a finishing order that lists everybody behind those it waits for excludes every set of transactions that waits within itself |
| `WaitGraphs.ClosedWalkIsTrap` | crates/andromeda-locking/src/deadlock_detection/cycle.rs:74-82 | the members of a closed walk all wait within it |
| `WaitGraphs.CyclicMeansReachingACycle` | crates/andromeda-locking/src/deadlock_detection/cycle.rs:53-100 | a transaction is in a set that waits within itself if and only if a walk from it reaches a cycle |
| `WaitGraphs.FirstCycleIsCycle` | crates/andromeda-locking/src/deadlock_detection/cycle.rs:74-82 | the first cycle is a simple cycle, of at least two transactions where nobody waits for itself |
| `WaitGraphs.FirstCycleIsUnique` | crates/andromeda-locking/src/deadlock_detection/cycle.rs:20-47 | there is only one first cycle |
| `WaitGraphs.ClosingExists` | crates/andromeda-locking/src/deadlock_detection/cycle.rs:20-47 | there is one as soon as some transaction is in a set that waits within itself |
| `SearchReadings.ReadingsAreUnique` | crates/andromeda-locking/src/deadlock_detection/cycle.rs:20-100 | the transactions started, entered and looked at, and so the number of readings, follow from the graph |
| `CycleSearch.OutcomeIsUnique` | crates/andromeda-locking/src/deadlock_detection/cycle.rs:20-47 | graph and clock determine the outcome of the search |
| `DeadlockDetection.AnswerIsUnique` | crates/andromeda-locking/src/deadlock_detection/detector.rs:63-113 | policy, graph, start orders and clock determine the answer |
| `Deadlocks.StepKeepsDeadlock` | crates/andromeda-locking/src/manager_core.rs:93-406 | no call of a transaction outside ends a firm deadlock, whatever other requests its members have |
| `Deadlocks.DeadlockLasts` | crates/andromeda-locking/src/manager_core.rs:93-406 | in every run in which its owners make no call a firm deadlock stays one and every request of it keeps waiting |
| `Deadlocks.PromotionKeepsHeldUp` | crates/andromeda-locking/src/entry.rs:57-95 | no promotion grants or frees a request that is firmly held up |
| `Deadlocks.PromotionFreesExactly` | crates/andromeda-locking/src/entry.rs:57-95 | one promotion frees a request that locks of a set of transactions keep out if and only if it loosens the one lock that does, to a mode compatible with the request |
| `Deadlocks.ReportedDeadlockLasts` | crates/andromeda-locking/src/deadlock_detection/cycle.rs:74-82 | a reported cycle whose members are firm stays a deadlock in every run of the others |
| `Deadlocks.TrapIsDeadlock` | crates/andromeda-locking/src/deadlock_detection/graph.rs:23-31 | transactions that wait within themselves in the graph have deadlocked requests, each of them one, however many they have queued |
| `Deadlocks.CoveredDeadlockIsTrap` | crates/andromeda-locking/src/deadlock_detection/graph.rs:23-31 | where whoever stands behind a request of another transaction is kept out, with one of its requests, by what keeps out that request or by its transaction, every deadlock is one in the graph |
| `Deadlocks.CoverageIsExact` | crates/andromeda-locking/src/deadlock_detection/graph.rs:23-59 | a queue is covered if and only if, in every table in good order that has it and whose other queues are covered, the owners of every deadlock wait within themselves in the graph |
| `Deadlocks.EntangledIsTrap` | crates/andromeda-locking/src/deadlock_detection/graph.rs:38-56 | transactions wait within themselves in the graph if and only if each of them is kept out by a lock of one of them |
| `TableDetection.Snapshot` | crates/andromeda-locking/src/manager_core.rs:61-77 | lists exactly the resources of the table with their entries, in the order of kind and ids |
| `TableDetection.SnapshotIsUnique` | crates/andromeda-locking/src/manager_core.rs:61-77 | contents and order determine the list |
| `TableDetection.ResourcesComeByKind` | crates/andromeda-locking/src/resource.rs:10-33 | the order of resources: schemas, objects, tables, pages, rows, and within a kind the first id that differs |
| `TableDetection.TableGraphIsUnique` | crates/andromeda-locking/src/deadlock_detection/graph.rs:32-59 | a table has one graph only |
| `TableDetection.GraphOfTable` | crates/andromeda-locking/src/deadlock_detection/graph.rs:61-65 | the graph of the manager's table, or an error exactly on zero ids |
| `TableDetection.Detect` | crates/andromeda-locking/src/deadlock_detection/detector.rs:63-113 | snapshot, graph, search and victim together, with the exact error cases: deferred only under the start-order policy and for a report with a member without one; reported transactions keep each other out and have deadlocked requests; a denial means that nobody keeps each other out and covered queues have no deadlock; and a report whenever some do, nobody lacks what the policy asks for and no reading has expired |
| `Deadlocks.UpgradeBehindItsOwnLock` | crates/andromeda-locking/src/manager_core.rs:128-163 | an upgrade queued behind a request that its own lock keeps out is a deadlock at once, and no cycle goes through it unless another lock keeps its owner out |
| `DeadlockRuns.PromotionKeepsRemainder` | crates/andromeda-locking/src/entry.rs:57-95 | a promotion among all transactions does not change what would be left of the queue without some of them |
| `DeadlockRuns.RunKeepsRemainder` | crates/andromeda-locking/src/manager_core.rs:93-406 | no run of the others changes what would be left of a queue without them |
| `DeadlockRuns.OthersLeave` | crates/andromeda-locking/src/manager_core.rs:347-406 | one run of the others, in which each gives up everything, leaves exactly that |
| `DeadlockRuns.WaitsForEverExactly` | crates/andromeda-locking/src/manager_core.rs:93-406 | a request keeps waiting in every run of the others if and only if it still waits when they have all gone |
| `DeadlockRuns.DeadlockLastsExactly` | crates/andromeda-locking/src/manager_core.rs:93-406 | requests keep waiting in every run in which their transactions make no call if and only if they belong to a deadlock of these transactions once everybody else has gone |
| `DeadlockRuns.ReleaseFreesExactly` | crates/andromeda-locking/src/manager_core.rs:300-315 | a release frees a request that is still waiting of the locks of some transactions if and only if none of them ends, with its promoted requests on top of what it held, in a conflicting mode |
| `DeadlockRuns.VictimsRunOut` | crates/andromeda-locking/src/manager_core.rs:347-406 | whichever victims are chosen and released, each round leaves fewer transactions in the table |
| `DeadlockRuns.VictimsResolve` | crates/andromeda-locking/src/manager_core.rs:347-406 | any rounds so far can be continued, to at most as many as there are transactions, until no transactions keep each other out |
| `DeadlockWitnesses.DeadlockIsMissed` | crates/andromeda-locking/src/manager_core.rs:141-163 | a run of three acquires on one resource that ends in a firm deadlock whose graph has no cycle |
| `DeadlockWitnesses.DeadlockCanDissolve` | crates/andromeda-locking/src/entry.rs:79-95 | a run in which the graph has a cycle and one release of a transaction outside leaves none |
| `ClockEviction.ConsumeClockUsage` | crates/andromeda-buffer-pool/src/frame.rs:274-281 | returns the old usage bit and clears it; fails exactly on a free frame |
| `ClockEviction.ClockEvictionPolicy.constructor` | crates/andromeda-buffer-pool/src/clock.rs:24-26 | a new policy starts at frame zero |
| `ClockEviction.ClockEvictionPolicy.Advance` | crates/andromeda-buffer-pool/src/clock.rs:65-67 | moves the cursor to the next frame, around the end, from any cursor |
| `ClockEviction.ClockEvictionPolicy.SelectVictim` | crates/andromeda-buffer-pool/src/clock.rs:32-63 | the answer, every frame and the cursor afterwards: the first eligible frame met with a clear bit, bits cleared exactly on the eligible frames met before it; a victim is resident, unpinned and clean, and each failure says what all frames are |
| `ClockEviction.VictimExistsAndIsUnique` | crates/andromeda-buffer-pool/src/clock.rs:41-62 | two rounds find a victim exactly when some frame is eligible, and it is unique |
| `ClockEviction.DrainTakesEachOnce` | crates/andromeda-buffer-pool/src/clock.rs:32-63 | in every run that pins each victim the victims are distinct and are exactly the frames that stopped being eligible |
| `ClockEviction.DrainStopsWhenEmpty` | crates/andromeda-buffer-pool/src/clock.rs:108-116 | such a run ends exactly when every initially eligible frame was returned, and the failing call changes no frame |
| `DirtyTracking.DirtyTracker.constructor` | crates/andromeda-buffer-pool/src/dirty.rs:28-32 | a new tracker is empty |
| `DirtyTracking.DirtyTracker.MarkDirty` | crates/andromeda-buffer-pool/src/dirty.rs:42-63 | the errors and the new table: the entry's interval grows to the LSN, all other entries stay |
| `DirtyTracking.DirtyTracker.MarkClean` | crates/andromeda-buffer-pool/src/dirty.rs:65-68 | removes the entry, tells whether there was one, refuses page zero |
| `DirtyTracking.DirtyTracker.FlushCandidates` | crates/andromeda-buffer-pool/src/dirty.rs:106-118 | every entry once, ordered by first LSN and page |
| `DirtyTracking.FlushOrderIsUnique` | crates/andromeda-buffer-pool/src/dirty.rs:106-118 | that order determines the list |
| `DirtyTracking.TrackerRefinesHistory` | crates/andromeda-buffer-pool/src/dirty.rs:42-68 | after any history a page is dirty exactly when it was marked since its last clean, with the least and greatest of those LSNs |
| `DirtyTracking.ReadyMeansEveryMarkIsDurable` | crates/andromeda-buffer-pool/src/flush.rs:57-74 | a candidate is ready only if, and with a consistent observer exactly if, every mark since the last clean is durable; a blocked one is reported with the least and greatest of those marks |
| `DirtyTracking.WalBeforeData` | crates/andromeda-buffer-pool/src/flush.rs:57-74 | in every run whose cleans pass the fence each mark that a clean writes out is durable at that moment |
| `WalArchive.ValidateWalSegmentChain` | crates/andromeda-backup/src/plan.rs:53-100 | the one-pass loop accepts exactly the linked chains: valid segments with distinct ids, each naming the LSN before it, from the start to the end of the range |
| `WalArchive.ChainCheckMeansTiling` | crates/andromeda-backup/src/plan.rs:53-100 | acceptance means exactly that each LSN of the range is in one segment, in order, and that each segment names the LSN before it |
| `WalArchive.AcceptedTargetsAreReplayable` | crates/andromeda-backup/src/wal_archive_integration.rs:303-350 | every accepted target can be replayed if and only if the archive starts no later than the WAL the snapshot requires, or nothing is required |
| `WalArchive.ManifestCheckLeavesAGap` | crates/andromeda-backup/src/artifacts.rs:218-249 | a valid manifest and an accepted chain with an accepted target that cannot be replayed |
| `WalArchive.TargetIsAcceptedExactly` | crates/andromeda-backup/src/wal_archive_integration.rs:303-350 | targets of a valid manifest are accepted from the base checkpoint, which is not zero, to the end of the archive |
| `WalArchive.FinalizedExactly` | crates/andromeda-backup/src/wal_archive_integration.rs:191-300 | when finalisation succeeds, and every field of the manifest and the event |
| `WalArchive.FinalizedWindow` | crates/andromeda-backup/src/wal_archive_integration.rs:243-300 | the announced window is exactly the set of accepted targets, the archive holds the catalog snapshot, and accepted targets are archived exactly when the base checkpoint is |
| `WalArchive.FinalizeLeavesAGap` | crates/andromeda-backup/src/wal_archive_integration.rs:191-300 | finalisation can succeed although required WAL is missing from the archive |
| `WalArchive.RequiredExactly` | crates/andromeda-backup/src/retention.rs:48-72 | the retention check answers for every proper range and policy, and says whether range and window have an LSN in common |
| `WalArchive.KeptMeansMeetsWindow` | crates/andromeda-backup/src/retention.rs:48-72 | on an accepted chain the retention check answers for every segment and keeps exactly those that meet the protected window |
| `WalArchive.RetentionKeepsWindow` | crates/andromeda-backup/src/retention.rs:21-72 | the kept segments form one slice that tiles all of the window that is archived |
| `WalArchive.KeptSliceIsAChainOnlyFromTheStart` | crates/andromeda-backup/src/plan.rs:60-100 | a kept slice tiles its own range, but the chain check accepts it again if and only if nothing was dropped in front |
| `IoScheduler.ValidatePlan` | crates/andromeda-backup/src/physical_plan.rs:122-179 | the loop accepts exactly the valid plans |
| `IoScheduler.ScanUnit` | crates/andromeda-backup/src/scheduler.rs:161-200 | the splitting loop returns exactly the unit's tasks and counters, or nothing exactly when a counter would overflow or the maximum is zero |
| `IoScheduler.SegmentIsBlock` | crates/andromeda-backup/src/scheduler.rs:153-247 | in the place of each plan segment stand its extents in order, 256 pages each on tier 0 and numbered from one, or the cold segment on tier 1 |
| `IoScheduler.SchedulePageScan` | crates/andromeda-backup/src/scheduler.rs:137-268 | when a schedule comes back, its tasks, byte total and duration, and the greater of the two throughputs |
| `IoScheduler.UnitIsTiled` | crates/andromeda-backup/src/scheduler.rs:153-247 | each unit gets one block of consecutive tasks that tile its pages, as many as its pages divided by the maximum, rounded up |
| `IoScheduler.PageIsReadOnce` | crates/andromeda-backup/src/scheduler.rs:153-247 | every page of every unit is read by exactly one task of its block |
| `IoScheduler.TasksAreProper` | crates/andromeda-backup/src/scheduler.rs:153-247 | ids are consecutive, tasks are nonempty and bounded, have their tier and its estimate, and together they read as many pages as the units have |
| `IoScheduler.TasksFollowTierOrder` | crates/andromeda-backup/src/scheduler.rs:152-247 | all NVMe tasks precede all HDD tasks |
| `IoScheduler.BytesAreConserved` | crates/andromeda-backup/src/scheduler.rs:168-253 | the byte total is pages times page size, except for a single task whose product saturates |
| `IoScheduler.ScheduleIsCounted` | crates/andromeda-backup/src/scheduler.rs:153-247 | the number of tasks is the sum over extents and cold segments of their pages divided by the maximum, rounded up |
| `IoScheduler.WhenAScheduleIsReturned` | crates/andromeda-backup/src/scheduler.rs:137-268 | the exact set of schedulers and plans for which a schedule comes back, in terms of the plan's extents and pages: the sum of pages over the maximum, rounded up per unit, and 256 pages for each extent |
| `BackupCheckpoint.ComputeDataChecksum` | crates/andromeda-backup/src/checkpoint_manager.rs:178-184 | the loop computes the wrapped fold over the bytes |
| `BackupCheckpoint.ValidateChecksumAfterResumption` | crates/andromeda-backup/src/checkpoint_manager.rs:152-166 | accepts exactly the expected checksum |
| `BackupCheckpoint.ChecksumIsPolynomial` | crates/andromeda-backup/src/checkpoint_manager.rs:178-184 | the checksum is the complement of a polynomial in 31 over the bytes modulo 2^32 |
| `BackupCheckpoint.ResumeDetectsOneByte` | crates/andromeda-backup/src/checkpoint_manager.rs:152-184 | every change of one byte is detected |
| `BackupCheckpoint.ResumeMissesNeighbours` | crates/andromeda-backup/src/checkpoint_manager.rs:152-184 | a change of two neighbouring bytes is missed if and only if 31 times the first plus the second stays the same |
| `BackupCheckpoint.ComputeCheckpointCrc` | crates/andromeda-backup/src/checkpoint_manager.rs:168-176 | together with phase number, page, checksum and epoch the integrity value is a multiple of 2^32 |
| `BackupCheckpoint.PersistBackupCheckpoint` | crates/andromeda-backup/src/checkpoint_manager.rs:114-134 | staging succeeds if and only if the checkpoint and the backup id are valid and the field sum is no multiple of 2^32 |
| `BackupCheckpoint.ValidCheckpointCanBeRefused` | crates/andromeda-backup/src/checkpoint_manager.rs:51-71 | there is a valid checkpoint whose integrity value is zero and which is refused |
| `AuditRetention.ReportFromRecords` | crates/andromeda-audit/src/durable_audit.rs:238-278 | succeeds exactly on logs no longer than what was scanned; counts add up, first and last LSN, and the evidence of the kept records |
| `AuditRetention.EvidenceIsPolynomial` | crates/andromeda-audit/src/durable_audit.rs:249-264 | the evidence is a polynomial over checksum plus LSN modulo 2^64 |
| `AuditRetention.EvidenceDetectsReplacement` | crates/andromeda-audit/src/durable_audit.rs:249-264 | replacing one record shows if and only if checksum plus LSN changes modulo 2^64 |
| `AuditRetention.ArchiveProofFor` | crates/andromeda-audit/src/durable_journal/compaction.rs:103-119 | the first proof that matches range and checksum, else the first that covers the range, and none exactly when none does |
| `AuditRetention.Compact` | crates/andromeda-audit/src/durable_journal/compaction.rs:26-101 | succeeds exactly when policy and proofs are valid, every record it looks at is, and what stays is a log, which holds on every log; the result is exactly the records that stay, and the report gives the number of those dropped, the first and last LSN, which is that of the log, and the evidence |
| `AuditRetention.DroppedAreTheRest` | crates/andromeda-audit/src/durable_journal/compaction.rs:26-101 | kept and dropped records are all records |
| `AuditRetention.CompactionIsSafe` | crates/andromeda-audit/src/durable_audit.rs:352-398 | every retained record and the newest one are kept, dropped ones are WAL-segment records that an archive proves, and the result is a log |
| `AuditRetention.CompactionIsIdempotent` | crates/andromeda-audit/src/durable_journal/compaction.rs:26-101 | compacting twice is compacting once |
| `AuditQuery.Add` | crates/andromeda-audit/src/durable_query.rs:177-192 | one more matching row keeps count, order flag and page those of all rows so far |
| `AuditQuery.Inspect` | crates/andromeda-audit/src/durable_query.rs:157-208 | when it answers, and that the page, total, truncation and order flag are those of the list of all matches |
| `AuditQuery.MatchingIsExact` | crates/andromeda-audit/src/durable_query.rs:157-208 | the matches are the rows at all places that match, in log order |
| `AuditQuery.PagesCoverEverything` | crates/andromeda-audit/src/durable_query.rs:157-208 | pages from an offset concatenate to all matches behind it, each once, and all but the last are full |
| `AuditQuery.InspectAll` | crates/andromeda-audit/src/durable_query.rs:157-208 | reading on until a page is not truncated gives every match once, in order |
| `WrappingHash.OneTermChanged` | crates/andromeda-backup/src/checkpoint_manager.rs:178-184 | replacing one term changes the hash if and only if the terms differ modulo the modulus |
| `WrappingHash.FoldIsPolynomial` | crates/andromeda-backup/src/checkpoint_manager.rs:178-184 | wrapping at every step computes the residue of the unbounded polynomial |
| `NodeCodec.PushLen` | crates/andromeda-bench/src/btree_node_codec_benchmark.rs:162-166 | appends the two-byte length, or fails exactly when it does not fit |
| `NodeCodec.PushBytes` | crates/andromeda-bench/src/btree_node_codec_benchmark.rs:168-172 | appends a length-prefixed field |
| `NodeCodec.Encode` | crates/andromeda-bench/src/btree_node_codec_benchmark.rs:66-85 | succeeds exactly when the node fits on a page; the page represents the node and is zero behind it |
| `NodeCodec.ReadU16` | crates/andromeda-bench/src/btree_node_codec_benchmark.rs:184-193 | the number whose two bytes stand at the offset |
| `NodeCodec.ReadU64` | crates/andromeda-bench/src/btree_node_codec_benchmark.rs:174-182 | the number whose eight bytes stand at the offset |
| `NodeCodec.ReadBytes` | crates/andromeda-bench/src/btree_node_codec_benchmark.rs:195-203 | the field that stands at the offset; fails exactly where none does, for texts of any length |
| `NodeCodec.ReadAll` | crates/andromeda-bench/src/btree_node_codec_benchmark.rs:97-104 | the fields that stand at the offset; fails only where no such list starts |
| `NodeCodec.Decode` | crates/andromeda-bench/src/btree_node_codec_benchmark.rs:87-112 | answers with a node if and only if the page represents it |
| `NodeCodec.RepresentationIsUnique` | crates/andromeda-bench/src/btree_node_codec_benchmark.rs:66-112 | no page represents two nodes |
| `NodeCodec.PageLayout` | crates/andromeda-bench/src/btree_node_codec_benchmark.rs:66-112 | the page size, the magic, and which bytes hold ids, counts and lists |
| `NodeCodec.FieldStandsAt` | crates/andromeda-bench/src/btree_node_codec_benchmark.rs:168-172 | where each field of a list stands |
| `NodeCodec.RoundTrip` | crates/andromeda-bench/src/btree_node_codec_benchmark.rs:66-112 | decoding an encoded node gives it back whenever it fits on a page |
| `NodeCodec.Reencode` | crates/andromeda-bench/src/btree_node_codec_benchmark.rs:66-112 | encoding a decoded page gives its canonical form |
| `KeySearch.NewIndex` | crates/andromeda-bench/src/btree_benchmark.rs:40-47 | the little-endian keys of all numbers below the size, sorted, each once |
| `KeySearch.FirstDifferenceDecides` | crates/andromeda-bench/src/btree_benchmark.rs:40-86 | the first byte that differs decides, and a proper prefix comes first |
| `KeySearch.LowerBoundWithComparisons` | crates/andromeda-bench/src/btree_benchmark.rs:69-86 | the lower bound, with the number of comparisons of the search: between the logarithm of one more than the size, rounded down, and one more than the logarithm of the size |
| `KeySearch.RangeScan` | crates/andromeda-bench/src/btree_benchmark.rs:54-67 | the cost is the number of comparisons of the search for the start plus the number of keys in the range |
| `KeySearch.EmptyRange` | crates/andromeda-bench/src/btree_benchmark.rs:54-67 | a range that ends at or before its start holds no key |
| `FrameCrc.RpcFrameCrc32` | fuzz/generators/generate_seed_corpus.py:884-891 | the loop with its mask computes the checksum defined by bit steps, which `PolynomialBits` and `ResidueIsFixed` tie to the standard |
| `FrameCrc.PolynomialBits` | crates/andromeda-rpc-protocol/src/frame_codec.rs:230-242 | the polynomial is that of the standard: its exponents are 32, 26, 23, 22, 16, 12, 11, 10, 8, 7, 5, 4, 2, 1 and 0 |
| `FrameCrc.ResidueIsFixed` | crates/andromeda-rpc-protocol/src/frame_codec.rs:230-242 | every message followed by its checksum, low octet first, leaves the state 0xDEBB20E3 |
| `FrameCrc.WindowActsAsOneWord` | crates/andromeda-rpc-protocol/src/frame_codec.rs:230-242 | up to four octets act like one word that is added at once and then stepped through |
| `FrameCrc.BurstChangesCrc` | crates/andromeda-rpc-protocol/src/frame_codec.rs:230-242 | every change within four neighbouring octets changes the checksum |
| `FrameHeaders.BurstIsRejected` | crates/andromeda-rpc-protocol/src/frame_codec.rs:133-181 | such a change before the checksum field turns no accepted header into another accepted one |
| `FrameHeaders.ChangedFieldIsRejected` | crates/andromeda-rpc-protocol/src/frame_codec.rs:133-181 | no change of the checksum field alone is accepted |
| `FrameHeaders.StraddlingBurstPasses` | crates/andromeda-rpc-protocol/src/frame_codec.rs:133-181 | a change of the last field octets passes together with exactly one change of the checksum field, the linear image of the first one |
| `FrameHeaders.OneOctetIsRejected` | crates/andromeda-rpc-protocol/src/frame_codec.rs:133-181 | no header that differs from an accepted one in one octet is accepted |
| `FrameHeaders.SealedHeaderIsAccepted` | crates/andromeda-rpc-protocol/src/frame_codec.rs:107-181 | fields sealed with their checksum are accepted if and only if they have the fixed values, a known frame type and a transaction marker of zero or one |
| `FrameHeaders.HeaderIsAcceptedExactly` | crates/andromeda-rpc-protocol/src/frame_codec.rs:133-181 | the decoder in numbers: lengths, version, types, marker, reserved octets, and the order of the checksum octets |
| `FrameHeaders.RpcProtocolFrameSeed` | fuzz/generators/generate_seed_corpus.py:863-881 | which octets of the frame hold which number, the checksum behind them and then the payload; the decoder accepts the header if and only if the type is 1 to 9 or 100 |
| `FrameCodec.Encode` | crates/andromeda-rpc-protocol/src/frame_codec.rs:27-39 | succeeds exactly without flags and with at most 16 MiB of payload |
| `FrameCodec.EncodedIsHeld` | crates/andromeda-rpc-protocol/src/frame_codec.rs:27-39 | what is encoded holds the frame |
| `FrameCodec.ScansWhatIsHeld` | crates/andromeda-rpc-protocol/src/frame_codec.rs:50-73 | the scanner answers with a frame and a length if and only if that many octets hold the frame |
| `FrameCodec.FramesAreSelfDelimiting` | crates/andromeda-rpc-protocol/src/frame_codec.rs:50-73 | of two frames none is the beginning of the other |
| `FrameCodec.ScanAll` | crates/andromeda-rpc-protocol/src/frame_codec.rs:75-95 | answers with frames if and only if the batch is those frames and they are at most 4096; out of resources if and only if 4096 frames are followed by more octets |
| `FrameCodec.RoundTrip` | crates/andromeda-rpc-protocol/src/frame_codec.rs:27-95 | a batch of encoded frames comes back as those frames, and runs out of resources beyond 4096 |
| `FrameCodec.ReencodedExactly` | crates/andromeda-rpc-protocol/src/frame_codec.rs:27-73 | decoding and encoding again changes nothing if and only if no transaction id is stored without its marker |
| `Records.SplitsAgree` | crates/andromeda-rpc-protocol/src/frame_codec.rs:75-95 | of two lists of records that start a buffer the shorter one starts the longer one |
| `Records.ScanRecords` | crates/andromeda-rpc-protocol/src/frame_codec.rs:75-95 | the loop, for every self-delimiting code and every scanner of it |
| `Lexemes.ScanRawString` | tools/testing/unsafe_inventory.py:102-117 | a raw string starts exactly at a prefix, hashes and a quote, and ends with the first quote followed by as many hashes, or with the text |
| `Lexemes.ScanQuoted` | tools/testing/unsafe_inventory.py:120-130 | the end of the first quote behind an even number of backslashes, or of the text if there is none |
| `Lexemes.ScanBlockComment` | tools/testing/unsafe_inventory.py:133-147 | the end of the one nested comment that starts here, or of the text if it is not closed |
| `Lexemes.FindMarker` | tools/testing/unsafe_inventory.py:113-113 | the first occurrence of the marker |
| `Lexemes.FindFromIsFirst` | tools/testing/unsafe_inventory.py:113-113 | nothing at or after the start of the search comes before the occurrence found |
| `Lexemes.RawStringMeans` | tools/testing/unsafe_inventory.py:102-117 | where raw strings start and end, in terms of prefix, hashes and marker |
| `Lexemes.QuotedEndMeans` | tools/testing/unsafe_inventory.py:120-130 | skipping what a backslash hides finds the first quote that is not escaped |
| `Lexemes.LoopRefinesParser` | tools/testing/unsafe_inventory.py:133-147 | the loop with its depth counter does what a recursive-descent parser does |
| `Lexemes.ParserIsSound` | tools/testing/unsafe_inventory.py:133-147 | what that parser reads is a clean comment body and its closer |
| `Lexemes.ParserIsComplete` | tools/testing/unsafe_inventory.py:133-147 | every clean comment body with its closer is read |
| `Lexemes.BlockCommentMeans` | tools/testing/unsafe_inventory.py:133-147 | the scanner's end is that of the one balanced comment, and the text's end if and only if there is none |
| `SourceMasker.ScanToken` | tools/testing/unsafe_inventory.py:155-193 | the token at the cursor, by what opens there: raw string, line comment, nested comment, string or near character literal with its end, and one kept character exactly where nothing opens |
| `SourceMasker.TokenIsUnique` | tools/testing/unsafe_inventory.py:153-193 | the scanner's token is the only one that fits this description |
| `SourceMasker.StripCommentsAndStrings` | tools/testing/unsafe_inventory.py:150-194 | the loop computes the masked text |
| `SourceMasker.PositionsAreKept` | tools/testing/unsafe_inventory.py:98-99 | newlines stay exactly where they are, every other character is unchanged or a space |
| `SourceMasker.NothingIsLeftToOpen` | tools/testing/unsafe_inventory.py:150-194 | the result holds no double quote and no comment opener |
| `SourceMasker.StripIsIdempotent` | tools/testing/unsafe_inventory.py:150-194 | masking the result changes nothing |
| `SourceMasker.LineFor` | tools/testing/unsafe_inventory.py:203-204 | how many line starts are at most the offset |
| `SourceMasker.ReportedLine` | tools/testing/unsafe_inventory.py:197-204 | the line computed from the masked text is one more than the number of newlines before the offset in the original |
| `LiteralMasking.QuoteIsTakenForChar` | tools/testing/unsafe_inventory.py:185-190 | a single quote is masked if and only if no underscore follows and the next quote that is not escaped, or the end of the text, is at most eight characters on; of the literals of the language the underscore and those longer than eight characters are missed |
| `LiteralMasking.MasksAgreeExactly` | tools/testing/unsafe_inventory.py:150-194 | two ways of reading tokens give the same masked text if and only if they agree at every token start of one of them |
| `LiteralMasking.MaskIsRightExactly` | tools/testing/unsafe_inventory.py:150-194 | the result is the mask of the language if and only if, at every quote that starts a token of the language, the guard takes it for a literal exactly when it opens one |
| `LiteralMasking.LifetimeHidesCode` | tools/testing/unsafe_inventory.py:185-190 | behind a lifetime and the literal of a double quote, code is masked that the language keeps, for every such code |
| `LiteralMasking.MissedLiteralHidesCode` | tools/testing/unsafe_inventory.py:185-190 | behind every literal that is missed the same happens |
| `LiteralMasking.UnderscoreHidesCode` | tools/testing/unsafe_inventory.py:185-190 | in particular behind the literal of the underscore |

## Left out

- Deadlocks.CoveredDeadlockIsTrap: one direction for one given table; the condition is exact for each queue over all tables that have it (`CoverageIsExact`).
- Deadlocks.DeadlockLasts: one direction, for firm deadlocks; the exact condition is `DeadlockRuns.DeadlockLastsExactly`.
- LockTable.PromotionWeakensNobody: one direction, for firm transactions; the exact condition is `LockTable.PromotionWeakensExactly`.
- Tokens of the language other than character literals: comments, strings and raw strings are those of the scanner, which also reads a raw string behind the last letters of a longer word; a byte literal is a kept prefix and a character literal.
- Lock manager: poisoned mutexes, the atomic counter's retry loop, the trace records, and the two helpers that store a holder or a waiter without any check.
- Deadlock detector: elapsed times in its answers, and the registration of start orders; the clock is a function from the number of the reading.
- Order in which release-all visits the resources: any, and the promoted waiters are a map from the resource; the table and the counts do not depend on it.
- IoScheduler.SchedulePageScan: the floating-point estimate of a task's duration is a parameter, and the sum of durations is unbounded.
- Error messages and reasons: a failing operation answers with an error value only, or with none.
- Record fields that the modelled code does not look at, and checks on texts, which are parameters.
- Artifact checks of a manifest other than the WAL chain, the range and the hashes.
- Sample builders and timing of the two B-tree benchmarks.
- Frame families, stream roles, payloads that must not be empty, and lengths that do not fit the platform.
- Reading and writing of files and directories, and the command lines of the Python tools.
- Widths of lengths and counts of things in memory, which are unbounded here.
