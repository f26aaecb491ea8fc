/** The in-memory replay guard: per-device high-water marks and a bounded, age-limited nonce list
    with an index. */
module ReplayGuard {
  import opened Wrappers

  datatype NonceEntry = NonceEntry(key: string, seen: int)

  datatype GuardError = BadMaxAge | BadCapacity | MissingArgument | SeqNotPositive

  function NonceKey(deviceId: string, nonce: string): string {
    deviceId + "\0" + nonce
  }

  // ---- The guard on values --------------------------------------------------------------

  /** Drops entries from the front until one is fresh. */
  function EvictExpired(order: seq<NonceEntry>, cutoff: int): (r: seq<NonceEntry>)
    ensures |r| <= |order| && r == order[|order| - |r|..]
    ensures forall i :: 0 <= i < |order| - |r| ==> order[i].seen <= cutoff
    ensures r != [] ==> r[0].seen > cutoff
  {
    if order != [] && order[0].seen <= cutoff then EvictExpired(order[1..], cutoff) else order
  }

  lemma EvictStep(order: seq<NonceEntry>, cutoff: int)
    ensures EvictExpired(order, cutoff)
      == if order != [] && order[0].seen <= cutoff then EvictExpired(order[1..], cutoff) else order
  {
  }

  predicate Holds(order: seq<NonceEntry>, key: string) {
    exists i :: 0 <= i < |order| && order[i].key == key
  }

  function Suffix<T>(s: seq<T>, n: int): seq<T> {
    if n <= 0 then [] else if n >= |s| then s else s[|s| - n..]
  }

  lemma SuffixDropsFront<T>(s: seq<T>, n: int)
    ensures s != [] && n < |s| ==> Suffix(s, n) == Suffix(s[1..], n)
    ensures n >= |s| ==> Suffix(s, n) == s
  {
  }

  /** One `SeenNonce` call: age eviction, then the answer, then the record and the capacity bound. */
  function SeenStep(order: seq<NonceEntry>, key: string, now: int, maxAge: int, capacity: int): (bool, seq<NonceEntry>) {
    var kept := EvictExpired(order, now - maxAge);
    if Holds(kept, key) then (true, kept)
    else (false, Suffix(kept + [NonceEntry(key, now)], capacity))
  }

  /** One `AdvanceSeq` call on the marks. */
  function AdvanceStep(marks: map<string, int>, deviceId: string, seqNo: int): (bool, map<string, int>) {
    if deviceId in marks && seqNo <= marks[deviceId] then (false, marks)
    else (true, marks[deviceId := seqNo])
  }

  ghost predicate DistinctKeys(order: seq<NonceEntry>) {
    forall i, j :: 0 <= i < j < |order| ==> order[i].key != order[j].key
  }

  /** `nonces` maps exactly the keys in the list, each to its own entry. */
  ghost predicate Indexed(order: seq<NonceEntry>, nonces: map<string, NonceEntry>) {
    && DistinctKeys(order)
    && (forall i :: 0 <= i < |order| ==> order[i].key in nonces && nonces[order[i].key] == order[i])
    && (forall k :: k in nonces ==> Holds(order, k))
  }

  lemma IndexFinds(order: seq<NonceEntry>, nonces: map<string, NonceEntry>, key: string)
    requires Indexed(order, nonces)
    ensures key in nonces <==> Holds(order, key)
  {
  }

  lemma IndexedPopFront(order: seq<NonceEntry>, nonces: map<string, NonceEntry>)
    requires Indexed(order, nonces) && order != []
    ensures Indexed(order[1..], nonces - {order[0].key})
  {
    var m := nonces - {order[0].key};
    forall k | k in m
      ensures Holds(order[1..], k)
    {
      var i :| 0 <= i < |order| && order[i].key == k;
      assert order[1..][i - 1].key == k;
    }
  }

  lemma IndexedPushBack(order: seq<NonceEntry>, nonces: map<string, NonceEntry>, e: NonceEntry)
    requires Indexed(order, nonces) && e.key !in nonces
    ensures Indexed(order + [e], nonces[e.key := e])
  {
    var r, m := order + [e], nonces[e.key := e];
    forall k | k in m
      ensures Holds(r, k)
    {
      if k == e.key {
        assert r[|order|].key == k;
      } else {
        var i :| 0 <= i < |order| && order[i].key == k;
        assert r[i].key == k;
      }
    }
  }

  // ---- The guard ------------------------------------------------------------------------

  class MemoryReplayGuard {
    const maxAge: int
    const capacity: int
    var lastSeq: map<string, int>
    var nonces: map<string, NonceEntry>
    var order: seq<NonceEntry>

    ghost predicate Valid()
      reads this
    {
      maxAge > 0 && capacity > 0 && Indexed(order, nonces) && |order| <= capacity
    }

    constructor (maxAge: int, capacity: int)
      requires maxAge > 0 && capacity > 0
      ensures Valid() && lastSeq == map[] && order == []
      ensures this.maxAge == maxAge && this.capacity == capacity
    {
      this.maxAge := maxAge;
      this.capacity := capacity;
      lastSeq := map[];
      nonces := map[];
      order := [];
    }

    /** Drops expired entries from the front of the list. */
    method EvictExpiredLocked(now: int)
      requires Valid()
      modifies this`order, this`nonces
      ensures Valid() && order == EvictExpired(old(order), now - maxAge)
    {
      hide Indexed, EvictExpired;
      var cutoff := now - maxAge;
      while order != []
        invariant Valid()
        invariant EvictExpired(order, cutoff) == EvictExpired(old(order), cutoff)
        decreases |order|
      {
        EvictStep(order, cutoff);
        var entry := order[0];
        if entry.seen > cutoff {
          return;
        }
        IndexedPopFront(order, nonces);
        order := order[1..];
        nonces := nonces - {entry.key};
      }
      EvictStep(order, cutoff);
    }

    method DropOldestLocked()
      requires Indexed(order, nonces)
      modifies this`order, this`nonces
      ensures Indexed(order, nonces)
      ensures order == if old(order) == [] then [] else old(order)[1..]
    {
      if order == [] {
        return;
      }
      var entry := order[0];
      IndexedPopFront(order, nonces);
      order := order[1..];
      nonces := nonces - {entry.key};
    }

    /** Reports whether the nonce was already accepted for the device, recording it when not. */
    method SeenNonce(deviceId: string, nonce: string, now: int) returns (r: Result<bool, GuardError>)
      requires Valid()
      modifies this`order, this`nonces
      ensures Valid()
      ensures r.Err? <==> deviceId == "" || nonce == ""
      ensures r.Err? ==> r.error == MissingArgument
      ensures r.Err? ==> order == old(order) && nonces == old(nonces)
      ensures r.Ok? ==> (r.value, order) == SeenStep(old(order), NonceKey(deviceId, nonce), now, maxAge, capacity)
    {
      if deviceId == "" || nonce == "" {
        return Err(MissingArgument);
      }
      hide Indexed, EvictExpired, Holds, Suffix;
      EvictExpiredLocked(now);
      var key := NonceKey(deviceId, nonce);
      IndexFinds(order, nonces, key);
      if key in nonces {
        return Ok(true);
      }
      var entry := NonceEntry(key, now);
      IndexedPushBack(order, nonces, entry);
      order := order + [entry];
      nonces := nonces[key := entry];
      ghost var full := order;
      while |order| > capacity
        invariant Indexed(order, nonces)
        invariant Suffix(order, capacity) == Suffix(full, capacity)
        decreases |order|
      {
        SuffixDropsFront(order, capacity);
        DropOldestLocked();
      }
      SuffixDropsFront(order, capacity);
      r := Ok(false);
    }

    /** Accepts `seqNo` only above the stored mark, and stores it. */
    method AdvanceSeq(deviceId: string, seqNo: int) returns (r: Result<bool, GuardError>)
      modifies this`lastSeq
      ensures r.Err? <==> deviceId == "" || seqNo <= 0
      ensures r.Err? ==> r.error == if deviceId == "" then MissingArgument else SeqNotPositive
      ensures r.Err? ==> lastSeq == old(lastSeq)
      ensures r.Ok? ==> (r.value, lastSeq) == AdvanceStep(old(lastSeq), deviceId, seqNo)
    {
      if deviceId == "" {
        return Err(MissingArgument);
      }
      if seqNo <= 0 {
        return Err(SeqNotPositive);
      }
      if deviceId in lastSeq && seqNo <= lastSeq[deviceId] {
        return Ok(false);
      }
      lastSeq := lastSeq[deviceId := seqNo];
      r := Ok(true);
    }

    /** The stored mark, zero for a device never seen. */
    method LastSeq(deviceId: string) returns (mark: int)
      ensures mark == if deviceId in lastSeq then lastSeq[deviceId] else 0
    {
      mark := if deviceId in lastSeq then lastSeq[deviceId] else 0;
    }

    method NonceCount() returns (n: nat)
      requires Valid()
      ensures n == |nonces| == |order|
    {
      IndexedSize(order, nonces);
      n := |order|;
    }
  }

  lemma {:induction false} IndexedSize(order: seq<NonceEntry>, nonces: map<string, NonceEntry>)
    requires Indexed(order, nonces)
    ensures |nonces| == |order|
  {
    if order == [] {
      assert forall k :: k in nonces ==> Holds(order, k);
      assert nonces.Keys == {};
    } else {
      IndexedPopFront(order, nonces);
      IndexedSize(order[1..], nonces - {order[0].key});
      assert nonces.Keys == (nonces - {order[0].key}).Keys + {order[0].key};
    }
  }

  /** `NewMemoryReplayGuard`: an undersized guard is a construction error. */
  method NewMemoryReplayGuard(maxAge: int, capacity: int) returns (r: Result<MemoryReplayGuard, GuardError>)
    ensures r.Ok? <==> maxAge > 0 && capacity > 0
    ensures r.Err? ==> r.error == if maxAge <= 0 then BadMaxAge else BadCapacity
    ensures r.Ok? ==> fresh(r.value) && r.value.Valid() && r.value.order == [] && r.value.lastSeq == map[]
    ensures r.Ok? ==> r.value.maxAge == maxAge && r.value.capacity == capacity
  {
    if maxAge <= 0 {
      return Err(BadMaxAge);
    }
    if capacity <= 0 {
      return Err(BadCapacity);
    }
    var g := new MemoryReplayGuard(maxAge, capacity);
    r := Ok(g);
  }
}
