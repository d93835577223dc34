/**
  The single-replica bookkeeping of a Viewstamped Replication replica:
  primary selection by view number, operation numbering, the append-only
  log and the client table that deduplicates resubmitted requests.

  The module has three layers:
  - the data model (Status, ReplicaError, LogEntry, ClientRecord);
  - a value-level specification: the replica's state as a datatype,
    `Step` (one call of process_request as a function of the state) and
    `Run` (a sequence of calls), with the invariant `Consistent` and the
    lemmas about them;
  - the class `Replica`, whose fields are updated in place by
    `ProcessRequest` and whose contract ties each call to `Step`.
 */
module ReplicaCore {

  datatype Option<T> = None | Some(value: T)

  datatype Result<T, E> = Ok(value: T) | Err(error: E)

  /** An octet of an operation payload or a result. */
  newtype byte = x: int | 0 <= x < 256

  type Bytes = seq<byte>

  /** The placeholder result of every executed operation: the ASCII bytes of "EXECUTED". */
  const EXECUTED: Bytes := [69, 88, 69, 67, 85, 84, 69, 68]

  /** The lifecycle phase of a replica; only Normal is ever set by this core. */
  datatype Status = Normal | ViewChange | Recovering | Transitioning

  datatype ReplicaError =
    | InvalidViewNumber(expected: nat, actual: nat)
    | NotPrimary(view: nat)
    | OpNumberMismatch(expected: nat, actual: nat)

  /** One client operation in the log, with its outcome. */
  datatype LogEntry = LogEntry(clientId: string, requestNumber: nat, operation: Bytes, result: Option<Bytes>)

  /** What the client table remembers of a client: its last request number and the cached result. */
  datatype ClientRecord = ClientRecord(lastRequestNumber: nat, lastResult: Option<Bytes>)

  type ClientTable = map<string, ClientRecord>

  // ---------------------------------------------------------------------------
  // Primary selection
  // ---------------------------------------------------------------------------

  /** The index of the primary of view `viewNumber` in a group of `groupSize` replicas. */
  function PrimaryIndex(viewNumber: nat, groupSize: nat): (i: nat)
    requires groupSize > 0
    ensures i < groupSize
  {
    viewNumber % groupSize
  }

  predicate IsPrimaryFor(viewNumber: nat, configuration: seq<string>, replicaNumber: nat)
    requires |configuration| > 0
  {
    PrimaryIndex(viewNumber, |configuration|) == replicaNumber
  }

  function PrimaryAddressFor(viewNumber: nat, configuration: seq<string>): (address: string)
    requires |configuration| > 0
    ensures address in configuration
  {
    configuration[PrimaryIndex(viewNumber, |configuration|)]
  }

  /** A positive multiple of `n` is at least `n`. */
  lemma MultipleAtLeast(k: int, n: nat)
    requires k >= 1
    ensures k * n >= n
  {
  }

  /** If `x` is `q` groups of `n` plus a remainder `r` below `n`, then `x % n` is `r`. */
  lemma ModOfDecomposition(x: nat, n: nat, q: int, r: int)
    requires n > 0 && 0 <= r < n && x == q * n + r
    ensures x % n == r && x / n == q
  {
    var q0, r0 := x / n, x % n;
    assert x == q0 * n + r0;
    var d := q - q0;
    assert d * n == q * n - q0 * n;
    assert d * n == r0 - r;
    if d > 0 {
      MultipleAtLeast(d, n);
    } else if d < 0 {
      MultipleAtLeast(-d, n);
    }
  }

  /** For a fixed view, exactly one index of the group is the primary. */
  lemma ExactlyOnePrimary(viewNumber: nat, configuration: seq<string>)
    requires |configuration| > 0
    ensures (set i | 0 <= i < |configuration| && IsPrimaryFor(viewNumber, configuration, i)) == {PrimaryIndex(viewNumber, |configuration|)}
    ensures |set i | 0 <= i < |configuration| && IsPrimaryFor(viewNumber, configuration, i)| == 1
  {
  }

  /** A replica whose number lies outside the configuration is never the primary. */
  lemma OutOfRangeNeverPrimary(viewNumber: nat, configuration: seq<string>, replicaNumber: nat)
    requires |configuration| > 0 && replicaNumber >= |configuration|
    ensures !IsPrimaryFor(viewNumber, configuration, replicaNumber)
  {
  }

  /** The primary rotates round-robin: the next view's primary is the next index, wrapping to 0. */
  lemma PrimaryRotates(viewNumber: nat, groupSize: nat)
    requires groupSize > 0
    ensures var i := PrimaryIndex(viewNumber, groupSize);
            PrimaryIndex(viewNumber + 1, groupSize) == if i + 1 < groupSize then i + 1 else 0
  {
    var q, i := viewNumber / groupSize, viewNumber % groupSize;
    if i + 1 < groupSize {
      ModOfDecomposition(viewNumber + 1, groupSize, q, i + 1);
    } else {
      assert viewNumber + 1 == (q + 1) * groupSize + 0;
      ModOfDecomposition(viewNumber + 1, groupSize, q + 1, 0);
    }
  }

  /** Among any `groupSize` consecutive views, each index of the group is primary in one of them. */
  lemma EveryReplicaLeadsWithinGroupSize(viewNumber: nat, groupSize: nat, replicaNumber: nat)
    requires replicaNumber < groupSize
    ensures exists v :: viewNumber <= v < viewNumber + groupSize && PrimaryIndex(v, groupSize) == replicaNumber
  {
    var q, i := viewNumber / groupSize, viewNumber % groupSize;
    var d: nat;
    if i <= replicaNumber {
      d := replicaNumber - i;
      ModOfDecomposition(viewNumber + d, groupSize, q, replicaNumber);
    } else {
      d := groupSize - i + replicaNumber;
      assert viewNumber + d == (q + 1) * groupSize + replicaNumber;
      ModOfDecomposition(viewNumber + d, groupSize, q + 1, replicaNumber);
    }
    assert PrimaryIndex(viewNumber + d, groupSize) == replicaNumber;
  }

  /**
    When the configuration lists every address once, the replica is primary exactly when the
    primary address is its own address.
   */
  lemma PrimaryAddressIdentifiesPrimary(viewNumber: nat, configuration: seq<string>, replicaNumber: nat)
    requires |configuration| > 0 && replicaNumber < |configuration|
    requires forall i, j :: 0 <= i < j < |configuration| ==> configuration[i] != configuration[j]
    ensures IsPrimaryFor(viewNumber, configuration, replicaNumber)
            <==> PrimaryAddressFor(viewNumber, configuration) == configuration[replicaNumber]
  {
  }

  // ---------------------------------------------------------------------------
  // The log and the client table it determines
  // ---------------------------------------------------------------------------

  /** Entries of the same client appear with strictly increasing request numbers. */
  ghost predicate ClientOrdered(log: seq<LogEntry>) {
    forall i, j :: 0 <= i < j < |log| && log[i].clientId == log[j].clientId ==>
      log[i].requestNumber < log[j].requestNumber
  }

  /**
    The client table that the log determines: each client that has an entry,
    mapped to the request number and result of its latest entry.
   */
  function TableOf(log: seq<LogEntry>): (t: ClientTable)
    ensures forall c :: c in t <==> exists i :: 0 <= i < |log| && log[i].clientId == c
    ensures forall c :: c in t ==>
      exists i :: 0 <= i < |log| && log[i].clientId == c && t[c] == ClientRecord(log[i].requestNumber, log[i].result)
    decreases |log|
  {
    if log == [] then map[]
    else
      var e := log[|log| - 1];
      TableOf(log[..|log| - 1])[e.clientId := ClientRecord(e.requestNumber, e.result)]
  }

  /** Appending an entry replaces its client's record by the entry's request number and result. */
  lemma TableOfAppend(log: seq<LogEntry>, e: LogEntry)
    ensures TableOf(log + [e]) == TableOf(log)[e.clientId := ClientRecord(e.requestNumber, e.result)]
  {
  }

  /** The table's record for a client is the request number and result of that client's last entry. */
  lemma {:induction false} TableIsLatest(log: seq<LogEntry>, i: nat)
    requires i < |log|
    requires forall j :: i < j < |log| ==> log[j].clientId != log[i].clientId
    ensures log[i].clientId in TableOf(log)
    ensures TableOf(log)[log[i].clientId] == ClientRecord(log[i].requestNumber, log[i].result)
    decreases |log|
  {
    var n := |log| - 1;
    var prefix, e := log[..n], log[n];
    assert log == prefix + [e];
    TableOfAppend(prefix, e);
    if i < n {
      assert prefix[i] == log[i];
      TableIsLatest(prefix, i);
    }
  }

  /** An ordered log stays ordered when the new entry's request number exceeds all of its client's. */
  lemma OrderedAppend(log: seq<LogEntry>, e: LogEntry)
    requires ClientOrdered(log)
    requires forall i :: 0 <= i < |log| && log[i].clientId == e.clientId ==> log[i].requestNumber < e.requestNumber
    ensures ClientOrdered(log + [e])
  {
  }

  /** Every prefix of an ordered log is ordered. */
  lemma OrderedPrefix(log: seq<LogEntry>, k: nat)
    requires ClientOrdered(log) && k <= |log|
    ensures ClientOrdered(log[..k])
  {
  }

  /** In an ordered log, the table's request number for a client bounds each of that client's entries. */
  lemma {:induction false} TableBoundsEntry(log: seq<LogEntry>, i: nat)
    requires ClientOrdered(log) && i < |log|
    ensures log[i].clientId in TableOf(log)
    ensures log[i].requestNumber <= TableOf(log)[log[i].clientId].lastRequestNumber
    decreases |log|
  {
    var n := |log| - 1;
    var prefix, e := log[..n], log[n];
    assert log == prefix + [e];
    TableOfAppend(prefix, e);
    if i < n && log[i].clientId != e.clientId {
      OrderedPrefix(log, n);
      TableBoundsEntry(prefix, i);
      assert prefix[i] == log[i];
    }
  }

  // ---------------------------------------------------------------------------
  // The replica's state and process_request as a state transition
  // ---------------------------------------------------------------------------

  datatype ReplicaState = ReplicaState(
    configuration: seq<string>,
    replicaNumber: nat,
    viewNumber: nat,
    status: Status,
    opNumber: nat,
    log: seq<LogEntry>,
    commitNumber: nat,
    clientTable: ClientTable)

  /** The state and the reply that one call of process_request produces. */
  datatype Outcome = Outcome(state: ReplicaState, reply: Result<Bytes, ReplicaError>)

  /** The state `new` builds: view 0, Normal, no operations, empty log and client table. */
  function Initial(configuration: seq<string>, replicaNumber: nat): ReplicaState {
    ReplicaState(configuration, replicaNumber, 0, Normal, 0, [], 0, map[])
  }

  /** The table holds exactly this request number for the client, with a result: a retransmission. */
  predicate IsCachedDuplicate(table: ClientTable, clientId: string, requestNumber: nat) {
    clientId in table && table[clientId].lastRequestNumber == requestNumber && table[clientId].lastResult.Some?
  }

  /** The table holds a request number at least as large, and the request is no retransmission. */
  predicate IsStale(table: ClientTable, clientId: string, requestNumber: nat) {
    clientId in table && table[clientId].lastRequestNumber >= requestNumber
    && !IsCachedDuplicate(table, clientId, requestNumber)
  }

  /** The entry an admitted request appends to the log. */
  function AdmittedEntry(clientId: string, requestNumber: nat, operation: Bytes): LogEntry {
    LogEntry(clientId, requestNumber, operation, Some(EXECUTED))
  }

  /**
    One call of process_request. It never touches the configuration, the identity, the view,
    the status or the commit number; an error leaves the state as it was; the log only grows,
    by at most one entry, and the operation number grows with it.
   */
  function Step(s: ReplicaState, clientId: string, requestNumber: nat, operation: Bytes): (r: Outcome)
    requires |s.configuration| > 0
    ensures r.state.configuration == s.configuration && r.state.replicaNumber == s.replicaNumber
    ensures r.state.viewNumber == s.viewNumber && r.state.status == s.status
    ensures r.state.commitNumber == s.commitNumber
    ensures r.reply.Err? ==> r.state == s
    ensures s.log <= r.state.log && |r.state.log| <= |s.log| + 1
    ensures r.state.opNumber - s.opNumber == |r.state.log| - |s.log|
  {
    if !IsPrimaryFor(s.viewNumber, s.configuration, s.replicaNumber) then
      Outcome(s, Err(NotPrimary(s.viewNumber)))
    else if clientId in s.clientTable && s.clientTable[clientId].lastRequestNumber == requestNumber
            && s.clientTable[clientId].lastResult.Some? then
      Outcome(s, Ok(s.clientTable[clientId].lastResult.value))
    else if clientId in s.clientTable && s.clientTable[clientId].lastRequestNumber >= requestNumber then
      Outcome(s, Err(OpNumberMismatch(s.clientTable[clientId].lastRequestNumber + 1, requestNumber)))
    else
      var admitted := s.(
        opNumber := s.opNumber + 1,
        log := s.log + [AdmittedEntry(clientId, requestNumber, operation)],
        clientTable := s.clientTable[clientId := ClientRecord(requestNumber, Some(EXECUTED))]);
      Outcome(admitted, Ok(EXECUTED))
  }

  /**
    The invariant of every state reachable from `new` by process_request: one log entry per
    operation number, the client table is the one the log determines, each client's entries are
    in increasing request-number order, every entry has its result, and commits never run ahead.
   */
  ghost predicate Consistent(s: ReplicaState) {
    && |s.configuration| > 0
    && |s.log| == s.opNumber
    && s.commitNumber <= s.opNumber
    && s.clientTable == TableOf(s.log)
    && ClientOrdered(s.log)
    && (forall i :: 0 <= i < |s.log| ==> s.log[i].result.Some?)
  }

  lemma InitialIsConsistent(configuration: seq<string>, replicaNumber: nat)
    requires |configuration| > 0
    ensures Consistent(Initial(configuration, replicaNumber))
  {
  }

  /** A backup rejects with its view number and changes nothing. */
  lemma NotPrimaryChangesNothing(s: ReplicaState, clientId: string, requestNumber: nat, operation: Bytes)
    requires |s.configuration| > 0 && !IsPrimaryFor(s.viewNumber, s.configuration, s.replicaNumber)
    ensures Step(s, clientId, requestNumber, operation) == Outcome(s, Err(NotPrimary(s.viewNumber)))
  {
  }

  /** The primary answers a retransmission with the cached result and changes nothing. */
  lemma CachedDuplicateChangesNothing(s: ReplicaState, clientId: string, requestNumber: nat, operation: Bytes)
    requires |s.configuration| > 0 && IsPrimaryFor(s.viewNumber, s.configuration, s.replicaNumber)
    requires IsCachedDuplicate(s.clientTable, clientId, requestNumber)
    ensures Step(s, clientId, requestNumber, operation) == Outcome(s, Ok(s.clientTable[clientId].lastResult.value))
  {
  }

  /** The primary rejects a stale request, naming the next expected request number, and changes nothing. */
  lemma StaleRequestRejected(s: ReplicaState, clientId: string, requestNumber: nat, operation: Bytes)
    requires |s.configuration| > 0 && IsPrimaryFor(s.viewNumber, s.configuration, s.replicaNumber)
    requires IsStale(s.clientTable, clientId, requestNumber)
    ensures Step(s, clientId, requestNumber, operation)
            == Outcome(s, Err(OpNumberMismatch(s.clientTable[clientId].lastRequestNumber + 1, requestNumber)))
  {
  }

  /**
    The primary admits a request from a new client, or one with a larger request number: the
    operation gets the next number, the entry is appended, the client's record is replaced and
    nothing else changes.
   */
  lemma AdmissionAppends(s: ReplicaState, clientId: string, requestNumber: nat, operation: Bytes)
    requires |s.configuration| > 0 && IsPrimaryFor(s.viewNumber, s.configuration, s.replicaNumber)
    requires IsAdmissible(s.clientTable, clientId, requestNumber)
    ensures var r := Step(s, clientId, requestNumber, operation);
            && r.reply == Ok(EXECUTED)
            && r.state.opNumber == s.opNumber + 1
            && r.state.log == s.log + [AdmittedEntry(clientId, requestNumber, operation)]
            && r.state.clientTable == s.clientTable[clientId := ClientRecord(requestNumber, Some(EXECUTED))]
            && r.state == s.(opNumber := r.state.opNumber, log := r.state.log, clientTable := r.state.clientTable)
  {
  }

  /** Whether the request is admissible: a new client, or a larger request number than recorded. */
  predicate IsAdmissible(table: ClientTable, clientId: string, requestNumber: nat) {
    clientId !in table || table[clientId].lastRequestNumber < requestNumber
  }

  /** On the primary, every request is exactly one of: a cached duplicate, stale, or admissible. */
  lemma PrimaryCasesPartition(table: ClientTable, clientId: string, requestNumber: nat)
    ensures IsCachedDuplicate(table, clientId, requestNumber)
            || IsStale(table, clientId, requestNumber)
            || IsAdmissible(table, clientId, requestNumber)
    ensures !(IsCachedDuplicate(table, clientId, requestNumber) && IsStale(table, clientId, requestNumber))
    ensures !(IsCachedDuplicate(table, clientId, requestNumber) && IsAdmissible(table, clientId, requestNumber))
    ensures !(IsStale(table, clientId, requestNumber) && IsAdmissible(table, clientId, requestNumber))
  {
  }

  /** process_request preserves the invariant. */
  lemma StepPreservesConsistent(s: ReplicaState, clientId: string, requestNumber: nat, operation: Bytes)
    requires Consistent(s)
    ensures Consistent(Step(s, clientId, requestNumber, operation).state)
  {
    var t := Step(s, clientId, requestNumber, operation).state;
    if t != s {
      var e := AdmittedEntry(clientId, requestNumber, operation);
      assert t.log == s.log + [e];
      TableOfAppend(s.log, e);
      forall i | 0 <= i < |s.log| && s.log[i].clientId == clientId
        ensures s.log[i].requestNumber < requestNumber
      {
        TableBoundsEntry(s.log, i);
      }
      OrderedAppend(s.log, e);
    }
  }

  /** No client's last request number ever decreases, and only the caller's record can change. */
  lemma StepKeepsClientProgress(s: ReplicaState, clientId: string, requestNumber: nat, operation: Bytes)
    requires |s.configuration| > 0
    ensures var t := Step(s, clientId, requestNumber, operation).state.clientTable;
            && s.clientTable.Keys <= t.Keys
            && (forall c :: c in s.clientTable ==> s.clientTable[c].lastRequestNumber <= t[c].lastRequestNumber)
            && (forall c :: c in t && c != clientId ==> c in s.clientTable && t[c] == s.clientTable[c])
  {
  }

  /** Resubmitting a request that succeeded gives the same reply and leaves the state as the first call left it. */
  lemma RetransmissionIsIdempotent(s: ReplicaState, clientId: string, requestNumber: nat, operation: Bytes, resent: Bytes)
    requires |s.configuration| > 0
    requires Step(s, clientId, requestNumber, operation).reply.Ok?
    ensures var first := Step(s, clientId, requestNumber, operation);
            Step(first.state, clientId, requestNumber, resent) == first
  {
  }

  /**
    In a consistent state the table never holds a missing result, so a resubmission of a
    client's latest request is always answered from the cache, never rejected as stale.
   */
  lemma LatestRequestAlwaysCached(s: ReplicaState, clientId: string, operation: Bytes)
    requires Consistent(s) && IsPrimaryFor(s.viewNumber, s.configuration, s.replicaNumber)
    requires clientId in s.clientTable
    ensures var n := s.clientTable[clientId].lastRequestNumber;
            IsCachedDuplicate(s.clientTable, clientId, n)
            && Step(s, clientId, n, operation) == Outcome(s, Ok(s.clientTable[clientId].lastResult.value))
  {
    var rec := s.clientTable[clientId];
    var i :| 0 <= i < |s.log| && s.log[i].clientId == clientId && rec == ClientRecord(s.log[i].requestNumber, s.log[i].result);
    assert s.log[i].result.Some?;
  }

  // ---------------------------------------------------------------------------
  // Sequences of requests
  // ---------------------------------------------------------------------------

  datatype Request = Request(clientId: string, requestNumber: nat, operation: Bytes)

  /** The state after the requests are processed in order. */
  function Run(s: ReplicaState, requests: seq<Request>): ReplicaState
    requires |s.configuration| > 0
    decreases |requests|
  {
    if requests == [] then s
    else
      var q := requests[0];
      Run(Step(s, q.clientId, q.requestNumber, q.operation).state, requests[1..])
  }

  /** Over any sequence of requests the invariant is kept. */
  lemma {:induction false} RunPreservesConsistent(s: ReplicaState, requests: seq<Request>)
    requires Consistent(s)
    ensures Consistent(Run(s, requests))
    decreases |requests|
  {
    if requests != [] {
      var q := requests[0];
      StepPreservesConsistent(s, q.clientId, q.requestNumber, q.operation);
      RunPreservesConsistent(Step(s, q.clientId, q.requestNumber, q.operation).state, requests[1..]);
    }
  }

  /**
    Over any sequence of requests the log only grows at its end, the operation number counts
    the appended entries, no client's last request number decreases, and the configuration,
    identity, view, status and commit number stay as they were.
   */
  lemma {:induction false} RunAppendOnly(s: ReplicaState, requests: seq<Request>)
    requires |s.configuration| > 0
    ensures var t := Run(s, requests);
            && s.log <= t.log
            && t.opNumber - s.opNumber == |t.log| - |s.log|
            && t.configuration == s.configuration && t.replicaNumber == s.replicaNumber
            && t.viewNumber == s.viewNumber && t.status == s.status && t.commitNumber == s.commitNumber
            && s.clientTable.Keys <= t.clientTable.Keys
            && (forall c :: c in s.clientTable ==> s.clientTable[c].lastRequestNumber <= t.clientTable[c].lastRequestNumber)
    decreases |requests|
  {
    if requests != [] {
      var q := requests[0];
      var mid := Step(s, q.clientId, q.requestNumber, q.operation).state;
      StepKeepsClientProgress(s, q.clientId, q.requestNumber, q.operation);
      RunAppendOnly(mid, requests[1..]);
    }
  }

  /** A backup's state never changes, whatever it is sent. */
  lemma {:induction false} BackupNeverChanges(s: ReplicaState, requests: seq<Request>)
    requires |s.configuration| > 0 && !IsPrimaryFor(s.viewNumber, s.configuration, s.replicaNumber)
    ensures Run(s, requests) == s
    decreases |requests|
  {
    if requests != [] {
      var q := requests[0];
      NotPrimaryChangesNothing(s, q.clientId, q.requestNumber, q.operation);
      BackupNeverChanges(s, requests[1..]);
    }
  }

  /**
    At-most-once execution: starting from `new`, whatever requests arrive, the log holds one
    entry per operation number, never two entries for the same client and request number, and
    each client's entries in increasing request-number order.
   */
  lemma AtMostOnceFromNew(configuration: seq<string>, replicaNumber: nat, requests: seq<Request>)
    requires |configuration| > 0
    ensures var t := Run(Initial(configuration, replicaNumber), requests);
            && |t.log| == t.opNumber
            && t.clientTable == TableOf(t.log)
            && ClientOrdered(t.log)
            && (forall i, j :: 0 <= i < j < |t.log| ==>
                  t.log[i].clientId != t.log[j].clientId || t.log[i].requestNumber != t.log[j].requestNumber)
  {
    InitialIsConsistent(configuration, replicaNumber);
    RunPreservesConsistent(Initial(configuration, replicaNumber), requests);
  }

  // ---------------------------------------------------------------------------
  // The replica object
  // ---------------------------------------------------------------------------

  class Replica {
    /** The group's addresses, fixed for the replica's lifetime. */
    const configuration: seq<string>
    /** This replica's index in the configuration. */
    const replicaNumber: nat
    var viewNumber: nat
    var status: Status
    /** The operation number assigned to the most recently admitted request. */
    var opNumber: nat
    /** The admitted operations in their assigned order. */
    var log: seq<LogEntry>
    /** The operation number of the most recently committed operation. */
    var commitNumber: nat
    var clientTable: ClientTable

    /** The replica's fields as a value. */
    ghost function State(): ReplicaState
      reads this
    {
      ReplicaState(configuration, replicaNumber, viewNumber, status, opNumber, log, commitNumber, clientTable)
    }

    ghost predicate Valid()
      reads this
    {
      Consistent(State())
    }

    constructor (configuration: seq<string>, replicaNumber: nat)
      ensures this.configuration == configuration && this.replicaNumber == replicaNumber
      ensures viewNumber == 0 && status == Normal && opNumber == 0 && commitNumber == 0
      ensures log == [] && clientTable == map[]
      ensures State() == Initial(configuration, replicaNumber)
      ensures |configuration| > 0 ==> Valid()
    {
      this.configuration := configuration;
      this.replicaNumber := replicaNumber;
      viewNumber := 0;
      status := Normal;
      opNumber := 0;
      log := [];
      commitNumber := 0;
      clientTable := map[];
    }

    function IsPrimary(): (b: bool)
      reads this
      requires |configuration| > 0
      ensures b <==> replicaNumber == PrimaryIndex(viewNumber, |configuration|)
    {
      IsPrimaryFor(viewNumber, configuration, replicaNumber)
    }

    function GetPrimaryAddress(): (address: string)
      reads this
      requires |configuration| > 0
      ensures address == configuration[PrimaryIndex(viewNumber, |configuration|)]
    {
      PrimaryAddressFor(viewNumber, configuration)
    }

    /**
      Decides whether to answer from the client table, reject or admit the request, exactly as
      `Step` describes, and keeps the invariant.
     */
    method ProcessRequest(clientId: string, requestNumber: nat, operation: Bytes)
      returns (r: Result<Bytes, ReplicaError>)
      requires |configuration| > 0
      modifies this
      ensures Outcome(State(), r) == Step(old(State()), clientId, requestNumber, operation)
      ensures old(Valid()) ==> Valid()
    {
      ghost var before := State();
      if !IsPrimary() {
        return Err(NotPrimary(viewNumber));
      }
      if clientId in clientTable {
        var record := clientTable[clientId];
        if record.lastRequestNumber == requestNumber && record.lastResult.Some? {
          return Ok(record.lastResult.value);
        }
        if record.lastRequestNumber >= requestNumber {
          return Err(OpNumberMismatch(record.lastRequestNumber + 1, requestNumber));
        }
      }
      opNumber := opNumber + 1;
      var result := EXECUTED;
      log := log + [LogEntry(clientId, requestNumber, operation, Some(result))];
      clientTable := clientTable[clientId := ClientRecord(requestNumber, Some(result))];
      r := Ok(result);
      if Consistent(before) {
        StepPreservesConsistent(before, clientId, requestNumber, operation);
      }
    }
  }
}
