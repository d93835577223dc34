# Viewstamped Replication replica bookkeeping, in Dafny

This project models the local state of one replica in a Viewstamped Replication group, and what that replica does with a client request. The model covers:

- **Configuration.** A fixed, ordered list of replica addresses.
- **Identity.** The replica's index in that list.
- **View and primary.** The view number picks the primary: it is the replica at index `view_number mod len(configuration)`.
- **Remaining state.** A lifecycle status, the operation number, the append-only log, the commit number, and the client table. The client table maps each client to its last request number and cached result.

`process_request` has four possible outcomes:

1. A backup (a replica that is not the primary) rejects the request with `NotPrimary(view)`.
2. The primary answers a retransmission of a client's last request from the client table.
3. The primary rejects a stale request with `OpNumberMismatch { expected: last + 1, actual }`.
4. Otherwise the primary admits the request. It assigns the next operation number, appends a log entry, and records the request and its result in the client table.

Rejections change nothing. An admission changes the operation number, the log and the client table in one step.

`replica.dfy` holds module `ReplicaCore` in three layers:

- **Data model.** `Status`, `ReplicaError`, `LogEntry`, `ClientRecord`, and the bytes `EXECUTED`.
- **Value-level specification.**
  - `ReplicaState` is the replica as a value. `Step` is one call of `process_request`, and `Run` is a sequence of calls.
  - `TableOf(log)` is the client table a log determines.
  - `Consistent` is the invariant of every state reachable by these calls. It requires:
    - a non-empty configuration;
    - one log entry per operation number;
    - `client_table == TableOf(log)`;
    - each client's entries in strictly increasing request-number order;
    - every entry has a result;
    - `commit_number <= op_number`.
- **The class `Replica`.** Its fields mirror the source's struct. `ProcessRequest` updates them in place, and its contract equates each call with `Step`.

`scenarios.dfy` (module `ReplicaScenarios`) restates the unit tests' scenarios as client methods. They use a three-address configuration and rely only on the class's contracts.

Three points where a stricter reading is possible; the model follows the code:

- `process_request` never reads `status`. The model therefore admits requests in every status, not only in `Normal`.
- `new` does not check that `replica_number < len(configuration)`. The model accepts any replica number, and `OutOfRangeNeverPrimary` shows that a replica outside the range is never primary.
- One case is a deduplication gap: a recorded request number with no result, when resubmitted, falls into the stale branch. The model keeps that behaviour as written (`Step`, `StaleRequestRejected`). `LatestRequestAlwaysCached` proves the gap cannot arise in states reachable through `new` and `process_request`, because such states never hold a missing result.

## Model

| member | source | states |
|---|---|---|
| ReplicaCore.PrimaryIndex | src/replica.rs:67 | the primary index of a view is below the group size |
| ReplicaCore.IsPrimaryFor | src/replica.rs:67-68 | definition: a replica is primary when its number equals `view mod len(configuration)`; used by `Step` and the class, and the subject of `ExactlyOnePrimary` and `PrimaryAddressIdentifiesPrimary` |
| ReplicaCore.PrimaryAddressFor | src/replica.rs:71-74 | the primary's address is one of the configured addresses |
| ReplicaCore.ExactlyOnePrimary | src/replica.rs:66-69 | for a fixed view, the set of indices in `[0, len(configuration))` that are primary is exactly `{view mod len(configuration)}`, so it has one element |
| ReplicaCore.OutOfRangeNeverPrimary | src/replica.rs:66-69 | a replica number outside the configuration is never primary |
| ReplicaCore.PrimaryRotates | src/replica.rs:67 | the next view's primary is the next index, wrapping from the last index to 0 |
| ReplicaCore.EveryReplicaLeadsWithinGroupSize | src/replica.rs:67 | each index of the group is primary in one of any `len(configuration)` consecutive views |
| ReplicaCore.PrimaryAddressIdentifiesPrimary | src/replica.rs:66-74 | with distinct addresses, a replica is primary iff the primary address is its own address (both directions) |
| ReplicaCore.TableOf | src/replica.rs:112-119 | the client table a log determines has exactly the log's client ids as keys, and each record is the request number and result of an entry of that client |
| ReplicaCore.TableIsLatest | src/replica.rs:119 | the table's record for a client is the request number and result of that client's last log entry |
| ReplicaCore.TableOfAppend | src/replica.rs:112-119 | appending an entry replaces that client's record with the entry's request number and result, and changes no other record |
| ReplicaCore.OrderedAppend | src/replica.rs:112-117 | appending an entry whose request number exceeds all of its client's earlier ones keeps each client's entries strictly increasing |
| ReplicaCore.TableBoundsEntry | src/replica.rs:84-96 | in a per-client-ordered log, every entry's client is in the table, and its request number is at most that client's recorded last request number |
| ReplicaCore.Initial | src/replica.rs:54-63 | definition: the state `new` builds, with view 0, `Normal`, operation number 0, an empty log, commit number 0 and an empty client table |
| ReplicaCore.IsCachedDuplicate | src/replica.rs:85 | definition: the table records exactly this request number for the client, with a result present |
| ReplicaCore.IsStale | src/replica.rs:90 | definition: the table records a request number at least as large, and the request is not a cached duplicate |
| ReplicaCore.IsAdmissible | src/replica.rs:84-97 | definition: the client is absent from the table, or its recorded request number is smaller; this is the fall-through to admission |
| ReplicaCore.AdmittedEntry | src/replica.rs:112-117 | definition: the entry pushed on admission, holding the client id, the request number, the operation and `Some(EXECUTED)` |
| ReplicaCore.Step | src/replica.rs:76-122 | `process_request` never changes configuration, identity, view, status or commit number; an error changes nothing; the log only grows at its end, by at most one entry; the operation number grows by exactly as much as the log |
| ReplicaCore.NotPrimaryChangesNothing | src/replica.rs:79-81 | a backup returns `NotPrimary(view_number)` and leaves the whole state unchanged |
| ReplicaCore.CachedDuplicateChangesNothing | src/replica.rs:84-88 | the primary answers `(n, Some(r))` with request number `n` by `Ok(r)`, and leaves the whole state unchanged |
| ReplicaCore.StaleRequestRejected | src/replica.rs:90-96 | when the recorded last request number is `>=` the request's, and the request is not a cached duplicate (this includes a recorded `None` result), the primary returns `OpNumberMismatch{last + 1, request_number}` and leaves the whole state unchanged |
| ReplicaCore.AdmissionAppends | src/replica.rs:108-121 | when the client is absent or its last request number is smaller, the primary returns `Ok(EXECUTED)`. The operation number grows by 1, the log gains exactly the new entry at its end, and the client's record becomes `(request_number, Some(EXECUTED))`. Nothing else changes |
| ReplicaCore.PrimaryCasesPartition | src/replica.rs:84-97 | on the primary, exactly one of three cases applies to any request: cached duplicate, stale, or admissible |
| ReplicaCore.InitialIsConsistent | src/replica.rs:53-64 | the state `new` builds satisfies the invariant, in particular `len(log) == op_number` |
| ReplicaCore.StepPreservesConsistent | src/replica.rs:108-119 | `process_request` preserves the invariant: `len(log) == op_number`, table determined by the log, per-client order, results present, `commit_number <= op_number` |
| ReplicaCore.StepKeepsClientProgress | src/replica.rs:119 | no client disappears from the table and no client's last request number decreases. Only the calling client's record can change |
| ReplicaCore.RetransmissionIsIdempotent | src/replica.rs:84-88 | after a call returns `Ok(r)`, the same client and request number (any payload) returns `Ok(r)` again and leaves the state the first call produced |
| ReplicaCore.LatestRequestAlwaysCached | src/replica.rs:84-96 | in a consistent state, resubmitting a client's last request is always a cached duplicate, answered with its result and no change; the mismatch branch is never taken for it |
| ReplicaCore.RunPreservesConsistent | src/replica.rs:76-122 | any sequence of `process_request` calls preserves the invariant |
| ReplicaCore.RunAppendOnly | src/replica.rs:108-119 | over any sequence of calls: the old log is a prefix of the new one; the operation number counts the appended entries; no client's last request number decreases; configuration, identity, view, status and commit number are unchanged |
| ReplicaCore.BackupNeverChanges | src/replica.rs:79-81 | a backup's state is unchanged by any sequence of requests |
| ReplicaCore.AtMostOnceFromNew | src/replica.rs:84-119 | starting from `new`, after any sequence of requests: `len(log) == op_number`, the table is the one the log determines, each client's entries strictly increase, and no client and request number pair appears twice |
| ReplicaCore.Replica.constructor | src/replica.rs:53-64 | `new` sets the given configuration and identity, view 0, `Normal`, operation number 0, empty log, commit number 0 and an empty client table; with a non-empty configuration the invariant holds |
| ReplicaCore.Replica.IsPrimary | src/replica.rs:66-69 | the replica is primary iff its number equals `view_number mod len(configuration)` |
| ReplicaCore.Replica.GetPrimaryAddress | src/replica.rs:71-74 | the primary address is `configuration[view_number mod len(configuration)]` |
| ReplicaCore.Replica.ProcessRequest | src/replica.rs:76-122 | the new fields and the reply are exactly what `Step` gives for the old fields, and the invariant is kept |

## Left out

- Integer widths. Operation, request, view and commit numbers are unbounded `nat`s.
  - `op_number += 1` (src/replica.rs:108) and `last_req + 1` (src/replica.rs:93) would overflow at `u64::MAX`. The model does not capture that overflow.
  - The `view_number as usize` cast is the identity on 64-bit targets.
- ReplicaCore.Replica.ProcessRequest: requires a non-empty configuration. With an empty one, the source's `%` by zero panics, and the model does not capture that panic.
- ReplicaCore.Replica.IsPrimary and ReplicaCore.Replica.GetPrimaryAddress: they require a non-empty configuration for the same reason.
- Generated code from the `Serialize`/`Deserialize` derives and the error display strings. `ReplicaError` is a plain datatype.
- `InvalidViewNumber` is only a constructor, because nothing raises it.
- The quorum steps, real execution and commit advancement:
  - The PREPARE/PREPAREOK quorum steps (src/replica.rs:99-106) are only a comment in the source.
  - Real execution of the operation is absent. The result is always the constant bytes `EXECUTED` (src/replica.rs:111).
  - The commit number is never advanced.
- View change, recovery and status transitions. The source implements none of them. The view number and status are fields that no operation changes.
- `HashMap` hashing, `Vec` growth and the clones of strings and byte vectors. Dafny's `map` and `seq` are values.
- Concurrency and locking around a replica. The source takes `&mut self` and is sequential.

