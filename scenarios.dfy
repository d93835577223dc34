/**
  The replica's unit-test scenarios as client code: each method uses only the
  contracts of `Replica` to establish what the scenario expects.
 */
module ReplicaScenarios {
  import opened ReplicaCore

  const THREE_ADDRESSES: seq<string> := ["127.0.0.1:7000", "127.0.0.1:7001", "127.0.0.1:7002"]

  /** The bytes of "SET key1 value1". */
  const SET_KEY1: Bytes := [83, 69, 84, 32, 107, 101, 121, 49, 32, 118, 97, 108, 117, 101, 49]

  /** Replica 0 starts as the primary of view 0 at the first address; replica 1 is a backup. */
  method InitializationScenario() {
    var primary := new Replica(THREE_ADDRESSES, 0);
    assert primary.viewNumber == 0 && primary.status == Normal;
    assert primary.IsPrimary();
    assert primary.GetPrimaryAddress() == "127.0.0.1:7000";
    var backup := new Replica(THREE_ADDRESSES, 1);
    assert !backup.IsPrimary();
  }

  /** The primary admits a first request, then answers its retransmission from the cache. */
  method PrimaryScenario() {
    var replica := new Replica(THREE_ADDRESSES, 0);
    var first := replica.ProcessRequest("client-1", 1, SET_KEY1);
    assert first == Ok(EXECUTED);
    assert replica.opNumber == 1 && |replica.log| == 1;
    var second := replica.ProcessRequest("client-1", 1, SET_KEY1);
    assert second == first;
    assert replica.opNumber == 1 && |replica.log| == 1;
    var stale := replica.ProcessRequest("client-1", 0, SET_KEY1);
    assert stale == Err(OpNumberMismatch(2, 0));
    assert replica.Valid();
  }

  /** A backup rejects a request with its view number and keeps its log empty. */
  method BackupScenario() {
    var replica := new Replica(THREE_ADDRESSES, 1);
    var result := replica.ProcessRequest("client-1", 1, SET_KEY1);
    assert result == Err(NotPrimary(0));
    assert replica.log == [] && replica.opNumber == 0;
  }
}
