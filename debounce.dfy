/**
 The per-key cooldown gate of the log viewer (`LogcatActivity.DebounceManager`).

 The gate remembers, for each key, the clock reading at which it last let an
 event through, and lets a new event through only when more than
 `DebounceDuration` milliseconds have passed since then. A key it has never
 seen counts as last accepted at time 0 (the epoch). The clock is not read
 here: every call receives the current time as `now`.
 */
module Debounce {

  /** The cooldown window, in milliseconds. */
  const DebounceDuration: int := 5000

  /** When `key` was last let through, or 0 if never. */
  function LastProcessTime(table: map<string, int>, key: string): int
  {
    if key in table then table[key] else 0
  }

  /** The outcome of one gate call: whether the event passes, and the new table. */
  datatype Decision = Decision(accepted: bool, table: map<string, int>)

  /** One call of `shouldProcess(key)` at time `now`, as a value. */
  function Gate(table: map<string, int>, key: string, now: int): (d: Decision)
    ensures d.accepted <==> now - LastProcessTime(table, key) > DebounceDuration
    ensures d.accepted ==> key in d.table && d.table[key] == now
    ensures !d.accepted ==> d.table == table
  {
    if now - LastProcessTime(table, key) > DebounceDuration then
      Decision(true, table[key := now])
    else
      Decision(false, table)
  }

  /** The gate object; `debounceMap` is the table of last acceptance times. */
  class DebounceManager {
    var debounceMap: map<string, int>

    constructor ()
      ensures debounceMap == map[]
    {
      debounceMap := map[];
    }

    /** Lets the event for `key` through when the cooldown has passed, and records `now` if so. */
    method ShouldProcess(key: string, now: int) returns (accepted: bool)
      modifies this
      ensures accepted == Gate(old(debounceMap), key, now).accepted
      ensures debounceMap == Gate(old(debounceMap), key, now).table
      ensures accepted <==> now - LastProcessTime(old(debounceMap), key) > DebounceDuration
      ensures accepted ==> debounceMap == old(debounceMap)[key := now]
      ensures !accepted ==> debounceMap == old(debounceMap)
    {
      var lastProcessTime := if key in debounceMap then debounceMap[key] else 0;
      if now - lastProcessTime > DebounceDuration {
        debounceMap := debounceMap[key := now];
        accepted := true;
      } else {
        accepted := false;
      }
    }

    /** Forgets `key`, so that it counts as never accepted. */
    method Reset(key: string)
      modifies this
      ensures debounceMap == old(debounceMap) - {key}
      ensures key !in debounceMap
      ensures forall k :: k != key ==> (k in debounceMap <==> k in old(debounceMap))
      ensures forall k :: k != key && k in old(debounceMap) ==> debounceMap[k] == old(debounceMap)[k]
    {
      debounceMap := debounceMap - {key};
    }
  }

  /** Two calls for one key, the first accepted: the second passes exactly when more than 5000 ms separate them. */
  lemma SecondCallAfterAcceptance(table: map<string, int>, key: string, t1: int, t2: int)
    requires Gate(table, key, t1).accepted
    ensures Gate(Gate(table, key, t1).table, key, t2).accepted <==> t2 - t1 > DebounceDuration
  {
  }

  /** An elapsed time of exactly 5000 ms is still inside the window. */
  lemma BoundaryIsRejected(table: map<string, int>, key: string)
    ensures !Gate(table, key, LastProcessTime(table, key) + DebounceDuration).accepted
  {
  }

  /** A rejected call changes nothing, so repeating it at the same time is rejected again. */
  lemma RejectionIsStable(table: map<string, int>, key: string, now: int)
    requires !Gate(table, key, now).accepted
    ensures Gate(table, key, now).table == table
    ensures !Gate(Gate(table, key, now).table, key, now).accepted
  {
  }

  /** If the gate would pass a key at time t, it also passes it at any later time. */
  lemma AcceptanceIsMonotonicInTime(table: map<string, int>, key: string, t: int, t': int)
    requires t <= t'
    requires Gate(table, key, t).accepted
    ensures Gate(table, key, t').accepted
  {
  }

  /** A call for one key leaves the entry of every other key as it was. */
  lemma GateKeepsOtherKeys(table: map<string, int>, key: string, now: int, other: string)
    requires other != key
    ensures other in Gate(table, key, now).table <==> other in table
    ensures other in table ==> Gate(table, key, now).table[other] == table[other]
  {
  }

  /** Calls for one key neither read nor change the entry of another key. */
  lemma KeysAreIndependent(table: map<string, int>, key: string, other: string, now: int, t: int)
    requires key != other
    ensures Gate(Gate(table, key, now).table, other, t).accepted == Gate(table, other, t).accepted
  {
  }

  /** After `reset(key)` the key is accepted at any time later than 5000 ms past the epoch. */
  lemma ResetThenAccepted(table: map<string, int>, key: string, now: int)
    requires now > DebounceDuration
    ensures Gate(table - {key}, key, now).accepted
    ensures Gate(table - {key}, key, now).table == table[key := now]
  {
  }
}
