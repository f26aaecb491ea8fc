/** The replay guard against its history: what the bounded list answers, in terms of everything
    that was ever recorded. */
module ReplayHistory {
  import opened ReplayGuard

  datatype Query = Query(key: string, now: int)

  /** `history` is every entry ever recorded, oldest first; `answers` has one entry per query. */
  datatype Run = Run(order: seq<NonceEntry>, history: seq<NonceEntry>, answers: seq<bool>)

  function Step(r: Run, q: Query, maxAge: int, capacity: int): Run {
    var (seen, order) := SeenStep(r.order, q.key, q.now, maxAge, capacity);
    Run(order, if seen then r.history else r.history + [NonceEntry(q.key, q.now)], r.answers + [seen])
  }

  function RunQueries(qs: seq<Query>, maxAge: int, capacity: int): Run {
    if qs == [] then Run([], [], [])
    else Step(RunQueries(qs[..|qs| - 1], maxAge, capacity), qs[|qs| - 1], maxAge, capacity)
  }

  predicate ClockNeverGoesBack(qs: seq<Query>) {
    forall i, j :: 0 <= i < j < |qs| ==> qs[i].now <= qs[j].now
  }

  /** How many recorded entries are younger than `maxAge` at `now`. */
  function Unexpired(history: seq<NonceEntry>, now: int, maxAge: int): (n: nat)
    ensures n <= |history|
  {
    if history == [] then 0
    else
      Unexpired(history[..|history| - 1], now, maxAge)
      + if now - history[|history| - 1].seen < maxAge then 1 else 0
  }

  function Min(a: int, b: int): int {
    if a <= b then a else b
  }

  /** What the guard should remember at `now`: the newest unexpired entries, up to the capacity. */
  function Retained(history: seq<NonceEntry>, now: int, maxAge: int, capacity: int): seq<NonceEntry> {
    Suffix(history, Min(capacity, Unexpired(history, now, maxAge)))
  }

  ghost predicate SortedBySeen(h: seq<NonceEntry>) {
    forall i, j :: 0 <= i < j < |h| ==> h[i].seen <= h[j].seen
  }

  // ---- Suffixes -------------------------------------------------------------------------

  lemma SuffixOfSuffix<T>(s: seq<T>, m: int, n: int)
    ensures Suffix(Suffix(s, m), n) == Suffix(s, Min(m, n))
  {
  }

  lemma SuffixPush<T>(s: seq<T>, n: int, e: T)
    requires n >= 0
    ensures Suffix(s, n) + [e] == Suffix(s + [e], n + 1)
  {
  }

  lemma SuffixLength<T>(s: seq<T>, n: nat)
    ensures |Suffix(s, n)| == Min(|s|, n) && Suffix(s, n) == s[|s| - Min(|s|, n)..]
    ensures forall i :: 0 <= i < |Suffix(s, n)| ==> Suffix(s, n)[i] == s[|s| - |Suffix(s, n)| + i]
  {
  }

  /** Eviction leaves a suffix. */
  lemma EvictedIsSuffix(order: seq<NonceEntry>, cutoff: int)
    ensures EvictExpired(order, cutoff) == Suffix(order, |EvictExpired(order, cutoff)|)
  {
  }

  lemma DistinctSuffix(order: seq<NonceEntry>, n: int)
    requires DistinctKeys(order)
    ensures DistinctKeys(Suffix(order, n))
  {
  }

  lemma DistinctPush(order: seq<NonceEntry>, e: NonceEntry)
    requires DistinctKeys(order) && !Holds(order, e.key)
    ensures DistinctKeys(order + [e])
  {
  }

  // ---- Any clock ------------------------------------------------------------------------

  /** The list is a suffix of the history, within capacity, with distinct keys. */
  ghost predicate IsTail(order: seq<NonceEntry>, history: seq<NonceEntry>, capacity: int) {
    && |order| <= capacity && |order| <= |history| && order == Suffix(history, |order|) && DistinctKeys(order)
  }

  lemma StepKeepsTail(r: Run, q: Query, maxAge: int, capacity: int)
    requires capacity > 0 && IsTail(r.order, r.history, capacity)
    ensures var n := Step(r, q, maxAge, capacity); IsTail(n.order, n.history, capacity)
  {
    hide EvictExpired, Holds, DistinctKeys, Suffix;
    var kept, e := EvictExpired(r.order, q.now - maxAge), NonceEntry(q.key, q.now);
    EvictedIsSuffix(r.order, q.now - maxAge);
    SuffixOfSuffix(r.history, |r.order|, |kept|);
    DistinctSuffix(r.order, |kept|);
    if !Holds(kept, q.key) {
      PushKeepsTail(kept, r.history, e, capacity);
    }
  }

  lemma PushKeepsTail(kept: seq<NonceEntry>, h: seq<NonceEntry>, e: NonceEntry, capacity: int)
    requires capacity > 0 && IsTail(kept, h, capacity) && !Holds(kept, e.key)
    ensures IsTail(Suffix(kept + [e], capacity), h + [e], capacity)
  {
    hide Holds, DistinctKeys, Suffix;
    DistinctPush(kept, e);
    SuffixPush(h, |kept|, e);
    SuffixOfSuffix(h + [e], |kept| + 1, capacity);
    SuffixLength(kept + [e], capacity);
    DistinctSuffix(kept + [e], capacity);
  }

  /** Whatever the clock does, the list is a suffix of the history, within capacity, with distinct
      keys; and there is one answer per query. */
  lemma {:induction false} ListIsSuffixOfHistory(qs: seq<Query>, maxAge: int, capacity: int)
    requires capacity > 0
    ensures var r := RunQueries(qs, maxAge, capacity); IsTail(r.order, r.history, capacity) && |r.answers| == |qs|
  {
    if qs == [] {
      DistinctNothing();
    } else {
      hide IsTail;
      ListIsSuffixOfHistory(qs[..|qs| - 1], maxAge, capacity);
      StepKeepsTail(RunQueries(qs[..|qs| - 1], maxAge, capacity), qs[|qs| - 1], maxAge, capacity);
    }
  }

  lemma DistinctNothing()
    ensures DistinctKeys([])
  {
  }

  // ---- A clock that never goes back -----------------------------------------------------

  lemma {:induction false} UnexpiredIsSuffix(h: seq<NonceEntry>, now: int, maxAge: int)
    requires SortedBySeen(h)
    ensures var n := Unexpired(h, now, maxAge);
      forall i :: 0 <= i < |h| ==> (now - h[i].seen < maxAge <==> i >= |h| - n)
  {
    if h != [] {
      var p, last := h[..|h| - 1], h[|h| - 1];
      UnexpiredIsSuffix(p, now, maxAge);
      assert p != [] ==> p[|p| - 1].seen <= last.seen;
      assert forall i :: 0 <= i < |p| ==> h[i] == p[i];
    }
  }

  /** On a sorted history, evicting from the front of a suffix keeps exactly its unexpired part. */
  lemma EvictSuffix(h: seq<NonceEntry>, k: nat, now: int, maxAge: int)
    requires SortedBySeen(h)
    ensures EvictExpired(Suffix(h, k), now - maxAge) == Suffix(h, Min(k, Unexpired(h, now, maxAge)))
  {
    hide EvictExpired, Suffix, SortedBySeen, Unexpired;
    var order := Suffix(h, k);
    var kept := |EvictExpired(order, now - maxAge)|;
    EvictedIsSuffix(order, now - maxAge);
    SuffixOfSuffix(h, k, kept);
    EvictedCount(h, k, now, maxAge);
    SuffixCapped(h, k, Unexpired(h, now, maxAge));
  }

  lemma EvictedCount(h: seq<NonceEntry>, k: nat, now: int, maxAge: int)
    requires SortedBySeen(h)
    ensures |EvictExpired(Suffix(h, k), now - maxAge)| == Min(Min(|h|, k), Unexpired(h, now, maxAge))
  {
    var order := Suffix(h, k);
    var kept := EvictExpired(order, now - maxAge);
    SuffixLength(h, k);
    hide EvictExpired, Suffix, SortedBySeen, Unexpired;
    KeptCount(h, order, |kept|, now, maxAge);
  }

  lemma SuffixCapped<T>(s: seq<T>, k: nat, n: nat)
    requires n <= |s|
    ensures Suffix(s, Min(k, Min(Min(|s|, k), n))) == Suffix(s, Min(k, n))
  {
  }

  lemma KeptCount(h: seq<NonceEntry>, order: seq<NonceEntry>, kept: nat, now: int, maxAge: int)
    requires SortedBySeen(h) && |order| <= |h| && order == h[|h| - |order|..] && kept <= |order|
    requires forall i :: 0 <= i < |order| - kept ==> order[i].seen <= now - maxAge
    requires kept > 0 ==> order[|order| - kept].seen > now - maxAge
    ensures kept == Min(|order|, Unexpired(h, now, maxAge))
  {
    UnexpiredIsSuffix(h, now, maxAge);
    if kept > 0 {
      assert order[|order| - kept] == h[|h| - kept];
    }
    if kept < |order| {
      assert order[|order| - kept - 1] == h[|h| - kept - 1];
    }
  }

  /** The state of the refinement after a run. */
  ghost predicate Refines(r: Run, now: int, maxAge: int, capacity: int) {
    && SortedBySeen(r.history)
    && (r.history != [] ==> r.history[|r.history| - 1].seen <= now)
    && r.order == Retained(r.history, now, maxAge, capacity)
  }

  lemma FewerUnexpiredLater(h: seq<NonceEntry>, now: int, later: int, maxAge: int)
    requires now <= later
    ensures Unexpired(h, later, maxAge) <= Unexpired(h, now, maxAge)
  {
    if h != [] {
      FewerUnexpiredLater(h[..|h| - 1], now, later, maxAge);
    }
  }

  lemma LaterEviction(h: seq<NonceEntry>, now: int, later: int, maxAge: int, capacity: int)
    requires SortedBySeen(h) && now <= later && capacity > 0
    ensures EvictExpired(Retained(h, now, maxAge, capacity), later - maxAge) == Retained(h, later, maxAge, capacity)
  {
    hide EvictExpired, Suffix, SortedBySeen, Unexpired;
    FewerUnexpiredLater(h, now, later, maxAge);
    EvictSuffix(h, Min(capacity, Unexpired(h, now, maxAge)), later, maxAge);
  }

  lemma RecordRefines(h: seq<NonceEntry>, e: NonceEntry, maxAge: int, capacity: int)
    requires maxAge > 0 && capacity > 0
    ensures Suffix(Retained(h, e.seen, maxAge, capacity) + [e], capacity) == Retained(h + [e], e.seen, maxAge, capacity)
  {
    hide Suffix;
    var n := Unexpired(h, e.seen, maxAge);
    assert (h + [e])[..|h|] == h;
    assert Unexpired(h + [e], e.seen, maxAge) == n + 1;
    SuffixPush(h, Min(capacity, n), e);
    SuffixOfSuffix(h + [e], Min(capacity, n) + 1, capacity);
    assert Min(Min(capacity, n) + 1, capacity) == Min(capacity, n + 1);
  }

  lemma SortedPush(h: seq<NonceEntry>, e: NonceEntry)
    requires SortedBySeen(h) && (h != [] ==> h[|h| - 1].seen <= e.seen)
    ensures SortedBySeen(h + [e])
  {
  }

  lemma StepRefines(r: Run, q: Query, now: int, maxAge: int, capacity: int)
    requires maxAge > 0 && capacity > 0 && now <= q.now && Refines(r, now, maxAge, capacity)
    ensures Refines(Step(r, q, maxAge, capacity), q.now, maxAge, capacity)
    ensures Step(r, q, maxAge, capacity).answers
      == r.answers + [Holds(Retained(r.history, q.now, maxAge, capacity), q.key)]
  {
    hide EvictExpired, Retained, Suffix, Holds, SortedBySeen;
    var e := NonceEntry(q.key, q.now);
    LaterEviction(r.history, now, q.now, maxAge, capacity);
    RecordRefines(r.history, e, maxAge, capacity);
    SortedPush(r.history, e);
  }

  /** Under a clock that never goes back, after every query the list is exactly the retained part
      of the history, and each answer says whether the key was in the part retained at that time. */
  lemma {:induction false} GuardRefinesHistory(qs: seq<Query>, maxAge: int, capacity: int)
    requires maxAge > 0 && capacity > 0 && qs != [] && ClockNeverGoesBack(qs)
    ensures var now := qs[|qs| - 1].now;
      Refines(RunQueries(qs, maxAge, capacity), now, maxAge, capacity)
    ensures var p, q := RunQueries(qs[..|qs| - 1], maxAge, capacity), qs[|qs| - 1];
      RunQueries(qs, maxAge, capacity).answers
      == p.answers + [Holds(Retained(p.history, q.now, maxAge, capacity), q.key)]
  {
    var init, q := qs[..|qs| - 1], qs[|qs| - 1];
    var p := RunQueries(init, maxAge, capacity);
    if init == [] {
      StepRefines(p, q, q.now, maxAge, capacity);
    } else {
      GuardRefinesHistory(init, maxAge, capacity);
      StepRefines(p, q, init[|init| - 1].now, maxAge, capacity);
    }
  }

  // ---- Sizing the capacity --------------------------------------------------------------

  /** No window of length `maxAge` holds more than `capacity` records. */
  ghost predicate FitsCapacity(h: seq<NonceEntry>, maxAge: int, capacity: int) {
    forall i, j :: 0 <= i < j < |h| && j - i >= capacity ==> h[j].seen - h[i].seen >= maxAge
  }

  lemma FitsMeansRoom(h: seq<NonceEntry>, now: int, maxAge: int, capacity: int)
    requires capacity > 0 && SortedBySeen(h) && FitsCapacity(h, maxAge, capacity)
    requires h != [] ==> h[|h| - 1].seen <= now
    ensures Unexpired(h, now, maxAge) <= capacity
    ensures Retained(h, now, maxAge, capacity) == Suffix(h, Unexpired(h, now, maxAge))
  {
    UnexpiredIsSuffix(h, now, maxAge);
    var i := |h| - Unexpired(h, now, maxAge);
    if i < |h| {
      UnexpiredIsRecent(h, i, now, maxAge, capacity);
    }
  }

  lemma UnexpiredIsRecent(h: seq<NonceEntry>, i: nat, now: int, maxAge: int, capacity: int)
    requires capacity > 0 && FitsCapacity(h, maxAge, capacity) && i < |h|
    requires h[|h| - 1].seen <= now && now - h[i].seen < maxAge
    ensures |h| - i <= capacity
  {
  }

  ghost predicate NoRepeatWithin(h: seq<NonceEntry>, maxAge: int) {
    forall i, j :: 0 <= i < j < |h| && h[i].key == h[j].key ==> h[j].seen - h[i].seen >= maxAge
  }

  /** If the capacity fits the traffic, capacity eviction never forgets an unexpired nonce, and no
      key is recorded twice less than `maxAge` apart. */
  lemma {:induction false} NoEarlyRepeat(qs: seq<Query>, maxAge: int, capacity: int)
    requires maxAge > 0 && capacity > 0 && ClockNeverGoesBack(qs)
    requires FitsCapacity(RunQueries(qs, maxAge, capacity).history, maxAge, capacity)
    ensures var r := RunQueries(qs, maxAge, capacity);
      && (qs != [] ==> r.order == Suffix(r.history, Unexpired(r.history, qs[|qs| - 1].now, maxAge)))
      && NoRepeatWithin(r.history, maxAge)
  {
    hide EvictExpired, Suffix, Holds, FitsCapacity, SortedBySeen, NoRepeatWithin;
    if qs == [] {
      NothingRepeats(maxAge);
    } else {
      var init, q := qs[..|qs| - 1], qs[|qs| - 1];
      var p, r := RunQueries(init, maxAge, capacity), RunQueries(qs, maxAge, capacity);
      GuardRefinesHistory(qs, maxAge, capacity);
      FitsMeansRoom(r.history, q.now, maxAge, capacity);
      assert p.history == r.history[..|p.history|];
      FitsPrefix(r.history, |p.history|, maxAge, capacity);
      NoEarlyRepeat(init, maxAge, capacity);
      HistoryBefore(qs, maxAge, capacity);
      FitsMeansRoom(p.history, q.now, maxAge, capacity);
      if r.history != p.history {
        AnswerWasNo(qs, maxAge, capacity);
        FreshKeyKeepsGap(p.history, q, maxAge);
      }
    }
  }

  lemma NothingRepeats(maxAge: int)
    ensures NoRepeatWithin([], maxAge)
  {
  }

  lemma FitsPrefix(h: seq<NonceEntry>, n: nat, maxAge: int, capacity: int)
    requires n <= |h| && FitsCapacity(h, maxAge, capacity)
    ensures FitsCapacity(h[..n], maxAge, capacity)
  {
  }

  lemma HistoryBefore(qs: seq<Query>, maxAge: int, capacity: int)
    requires maxAge > 0 && capacity > 0 && qs != [] && ClockNeverGoesBack(qs)
    ensures var h := RunQueries(qs[..|qs| - 1], maxAge, capacity).history;
      SortedBySeen(h) && (h != [] ==> h[|h| - 1].seen <= qs[|qs| - 1].now)
  {
    var init := qs[..|qs| - 1];
    if init != [] {
      GuardRefinesHistory(init, maxAge, capacity);
    }
  }

  /** A query that recorded was not answered from the retained part. */
  lemma AnswerWasNo(qs: seq<Query>, maxAge: int, capacity: int)
    requires maxAge > 0 && capacity > 0 && qs != [] && ClockNeverGoesBack(qs)
    requires var p := RunQueries(qs[..|qs| - 1], maxAge, capacity);
      RunQueries(qs, maxAge, capacity).history != p.history
    ensures var p, q := RunQueries(qs[..|qs| - 1], maxAge, capacity), qs[|qs| - 1];
      !Holds(Retained(p.history, q.now, maxAge, capacity), q.key)
  {
    hide EvictExpired, Suffix, Holds, Retained;
    GuardRefinesHistory(qs, maxAge, capacity);
    var p, r := RunQueries(qs[..|qs| - 1], maxAge, capacity), RunQueries(qs, maxAge, capacity);
    assert r.answers[|p.answers|] == false;
  }

  lemma FreshKeyKeepsGap(h: seq<NonceEntry>, q: Query, maxAge: int)
    requires SortedBySeen(h) && NoRepeatWithin(h, maxAge)
    requires !Holds(Suffix(h, Unexpired(h, q.now, maxAge)), q.key)
    ensures NoRepeatWithin(h + [NonceEntry(q.key, q.now)], maxAge)
  {
    UnexpiredIsSuffix(h, q.now, maxAge);
    var n := Unexpired(h, q.now, maxAge);
    var kept := Suffix(h, n);
    forall i | |h| - n <= i < |h|
      ensures h[i].key != q.key
    {
      assert h[i] == kept[i - (|h| - n)];
    }
  }

  /** The queries for the given keys, all at one instant. */
  function Burst(keys: seq<string>, now: int): seq<Query> {
    seq(|keys|, i requires 0 <= i < |keys| => Query(keys[i], now))
  }

  function Records(keys: seq<string>, now: int): seq<NonceEntry> {
    seq(|keys|, i requires 0 <= i < |keys| => NonceEntry(keys[i], now))
  }

  /** No key returns before `capacity` others have come between. */
  ghost predicate FarApart(keys: seq<string>, capacity: int) {
    forall i, j :: 0 <= i < j < |keys| && j - i <= capacity ==> keys[i] != keys[j]
  }

  /** The bound is tight: with one record more than fits in the window, the oldest nonce is
      forgotten while still fresh, and is accepted a second time. */
  lemma OverflowForgets(key: string, others: seq<string>, now: int, maxAge: int)
    requires maxAge > 0 && others != [] && key !in others
    requires forall i, j :: 0 <= i < j < |others| ==> others[i] != others[j]
    ensures RunQueries(Burst([key] + others + [key], now), maxAge, |others|).answers
      == seq(|others| + 2, _ => false)
  {
    BurstIsAllNew([key] + others + [key], now, maxAge, |others|);
  }

  lemma {:induction false} BurstIsAllNew(keys: seq<string>, now: int, maxAge: int, capacity: int)
    requires maxAge > 0 && capacity > 0 && FarApart(keys, capacity)
    ensures var r := RunQueries(Burst(keys, now), maxAge, capacity);
      && r.answers == seq(|keys|, _ => false)
      && r.history == Records(keys, now)
      && r.order == Suffix(Records(keys, now), capacity)
  {
    hide *;
    if keys == [] {
      BurstOfNothing(now, maxAge, capacity);
    } else {
      var init := keys[..|keys| - 1];
      FarApartInit(keys, capacity);
      BurstIsAllNew(init, now, maxAge, capacity);
      BurstInit(keys, now);
      RunLast(Burst(keys, now), maxAge, capacity);
      BurstStep(RunQueries(Burst(init, now), maxAge, capacity), keys, now, maxAge, capacity);
      assert seq(|init|, _ => false) + [false] == seq(|keys|, _ => false);
    }
  }

  lemma BurstOfNothing(now: int, maxAge: int, capacity: int)
    ensures RunQueries(Burst([], now), maxAge, capacity) == Run([], [], [])
    ensures Records([], now) == [] && Suffix<NonceEntry>([], capacity) == []
  {
  }

  lemma RunLast(qs: seq<Query>, maxAge: int, capacity: int)
    requires qs != []
    ensures RunQueries(qs, maxAge, capacity)
      == Step(RunQueries(qs[..|qs| - 1], maxAge, capacity), qs[|qs| - 1], maxAge, capacity)
  {
  }

  lemma FarApartInit(keys: seq<string>, capacity: int)
    requires FarApart(keys, capacity) && keys != []
    ensures FarApart(keys[..|keys| - 1], capacity)
  {
  }

  lemma BurstInit(keys: seq<string>, now: int)
    requires keys != []
    ensures var init, q := keys[..|keys| - 1], Query(keys[|keys| - 1], now);
      && |Burst(keys, now)| == |keys|
      && Burst(keys, now)[..|keys| - 1] == Burst(init, now) && Burst(keys, now)[|keys| - 1] == q
      && Records(keys, now) == Records(init, now) + [NonceEntry(keys[|keys| - 1], now)]
  {
  }

  lemma BurstStep(p: Run, keys: seq<string>, now: int, maxAge: int, capacity: int)
    requires maxAge > 0 && capacity > 0 && keys != [] && FarApart(keys, capacity)
    requires p.history == Records(keys[..|keys| - 1], now) && p.order == Suffix(p.history, capacity)
    ensures var r, e := Step(p, Query(keys[|keys| - 1], now), maxAge, capacity), NonceEntry(keys[|keys| - 1], now);
      && r.answers == p.answers + [false]
      && r.history == p.history + [e]
      && r.order == Suffix(p.history + [e], capacity)
  {
    hide EvictExpired, Suffix;
    var m := |keys| - 1;
    SuffixLength(p.history, capacity);
    forall i | 0 <= i < |p.order|
      ensures p.order[i].key != keys[m] && p.order[i].seen == now
    {
      assert p.order[i] == p.history[m - |p.order| + i];
    }
    NothingExpired(p.order, now - maxAge);
    assert !Holds(p.order, keys[m]);
    var e := NonceEntry(keys[m], now);
    SuffixPush(p.history, capacity, e);
    SuffixOfSuffix(p.history + [e], capacity + 1, capacity);
  }

  lemma NothingExpired(order: seq<NonceEntry>, cutoff: int)
    requires forall i :: 0 <= i < |order| ==> order[i].seen > cutoff
    ensures EvictExpired(order, cutoff) == order
  {
  }

  // ---- Device and nonce -----------------------------------------------------------------

  /** The pairing of device and nonce is ambiguous exactly when one device id continues the other
      past a NUL and the nonces make up the difference. */
  lemma NonceKeyCollidesIff(d: string, n: string, e: string, m: string)
    requires |d| <= |e|
    ensures NonceKey(d, n) == NonceKey(e, m)
      <==> (d == e && n == m) || (exists t: string :: e == d + "\0" + t && n == t + "\0" + m)
  {
    var x, y := NonceKey(d, n), NonceKey(e, m);
    if x == y {
      assert d == x[..|d|] && n == x[|d| + 1..] && e == y[..|e|] && m == y[|e| + 1..];
      if |d| < |e| {
        assert x[|d|] == '\0' && y[|e|] == '\0';
        var t := e[|d| + 1..];
        assert e == d + "\0" + t;
        assert n == t + "\0" + m;
      }
    }
    if t: string :| e == d + "\0" + t && n == t + "\0" + m {
      assert x == d + "\0" + (t + "\0" + m);
      assert y == d + "\0" + t + "\0" + m;
    }
  }

  /** So for device ids without NUL the key identifies the pair. */
  lemma NonceKeyInjective(d: string, n: string, e: string, m: string)
    requires '\0' !in d && '\0' !in e && NonceKey(d, n) == NonceKey(e, m)
    ensures d == e && n == m
  {
    if |d| <= |e| {
      NonceKeyCollidesIff(d, n, e, m);
    } else {
      NonceKeyCollidesIff(e, m, d, n);
    }
  }
}
