/** Whole runs of the verifier: envelopes arriving at any times, keys and bundles changing, and
    restarts that forget the replay state. */
module VerifyRuns {
  import opened Wrappers
  import opened EnvelopeErrors
  import opened Numbers
  import opened Utf8
  import opened Envelope
  import opened Parse
  import opened ReplayGuard
  import opened Verify
  import ReplayHistory

  datatype Event =
    | Arrive(raw: Raw, clock: Readings)
    | SetBundle(digest: string)
    | SetKey(deviceId: string, key: Bytes)
    | Restart

  /** What an event answers; only an arrival has a verdict. */
  type Verdict = Option<Result<Verified, Error>>

  ghost function Apply(cfg: Config, st: State, ev: Event): (State, Verdict) {
    match ev
    case Arrive(raw, clock) =>
      var (next, verdict) := VerifyStep(cfg, st, raw, clock);
      (next, Some(verdict))
    case SetBundle(digest) => (st.(digest := digest), None)
    case SetKey(deviceId, key) => (st.(keys := st.keys[deviceId := key]), None)
    case Restart => (st.(marks := map[], order := []), None)
  }

  ghost function Final(cfg: Config, st: State, evs: seq<Event>): State {
    if evs == [] then st
    else Apply(cfg, Final(cfg, st, evs[..|evs| - 1]), evs[|evs| - 1]).0
  }

  ghost function Verdicts(cfg: Config, st: State, evs: seq<Event>): (vs: seq<Verdict>)
    ensures |vs| == |evs|
  {
    if evs == [] then []
    else
      var init := evs[..|evs| - 1];
      Verdicts(cfg, st, init) + [Apply(cfg, Final(cfg, st, init), evs[|evs| - 1]).1]
  }

  lemma PrefixOfPrefix<T>(s: seq<T>, m: nat, n: nat)
    requires m <= n <= |s|
    ensures s[..n][..m] == s[..m]
  {
  }

  lemma Slices<T>(s: seq<T>, i: nat, j: nat)
    requires i <= j <= |s|
    ensures s[..j] == s[..i] + s[i..j]
  {
  }

  lemma {:induction false} VerdictAt(cfg: Config, st: State, evs: seq<Event>, i: nat)
    requires i < |evs|
    ensures Verdicts(cfg, st, evs)[i] == Apply(cfg, Final(cfg, st, evs[..i]), evs[i]).1
  {
    if i < |evs| - 1 {
      VerdictAt(cfg, st, evs[..|evs| - 1], i);
      assert evs[..|evs| - 1][..i] == evs[..i];
    }
  }

  lemma FinalStep(cfg: Config, st: State, evs: seq<Event>, i: nat)
    requires i < |evs|
    ensures Final(cfg, st, evs[..i + 1]) == Apply(cfg, Final(cfg, st, evs[..i]), evs[i]).0
  {
    assert evs[..i + 1][..i] == evs[..i];
  }

  ghost predicate Accepted(v: Verdict) {
    v.Some? && v.value.Ok?
  }

  // ---- Rejected input does not interfere ------------------------------------------------

  /** Rejected at schema, freshness, signature, policy binding or ordering. */
  ghost predicate RejectedEarly(v: Verdict) {
    v.Some? && v.value.Err? && v.value.error != ErrReplayNonce
  }

  /** The events (or verdicts) that `keep` selects. */
  function Select<T>(s: seq<T>, keep: seq<bool>): seq<T>
    requires |keep| == |s|
  {
    if s == [] then []
    else
      var n := |s| - 1;
      Select(s[..n], keep[..n]) + if keep[n] then [s[n]] else []
  }

  lemma RejectedEarlyChangesNothing(cfg: Config, st: State, ev: Event)
    requires RejectedEarly(Apply(cfg, st, ev).1)
    ensures Apply(cfg, st, ev).0 == st
  {
    RejectionEffect(cfg, st, ev.raw, ev.clock);
  }

  /** Erasing any of the envelopes rejected before uniqueness changes no other verdict of the run,
      and leaves the same state. */
  lemma {:induction false} ErasingRejectedInput(cfg: Config, st: State, evs: seq<Event>, keep: seq<bool>)
    requires |keep| == |evs|
    requires forall i :: 0 <= i < |evs| && !keep[i] ==> RejectedEarly(Verdicts(cfg, st, evs)[i])
    ensures Verdicts(cfg, st, Select(evs, keep)) == Select(Verdicts(cfg, st, evs), keep)
    ensures Final(cfg, st, Select(evs, keep)) == Final(cfg, st, evs)
  {
    if evs != [] {
      hide *;
      var n := |evs| - 1;
      var vs := Verdicts(cfg, st, evs);
      RunStep(cfg, st, evs);
      forall i | 0 <= i < n && !keep[..n][i]
        ensures RejectedEarly(Verdicts(cfg, st, evs[..n])[i])
      {
        assert !keep[i] && vs[i] == vs[..n][i];
      }
      ErasingRejectedInput(cfg, st, evs[..n], keep[..n]);
      SelectStep(evs, keep);
      SelectStep(vs, keep);
      if keep[n] {
        RunPush(cfg, st, Select(evs[..n], keep[..n]), evs[n]);
      } else {
        RejectedEarlyChangesNothing(cfg, Final(cfg, st, evs[..n]), evs[n]);
      }
    }
  }

  lemma SelectStep<T>(s: seq<T>, keep: seq<bool>)
    requires |keep| == |s| > 0
    ensures var n := |s| - 1;
      Select(s, keep) == if keep[n] then Select(s[..n], keep[..n]) + [s[n]] else Select(s[..n], keep[..n])
  {
  }

  lemma RunStep(cfg: Config, st: State, evs: seq<Event>)
    requires evs != []
    ensures var n := |evs| - 1;
      && Verdicts(cfg, st, evs)[..n] == Verdicts(cfg, st, evs[..n])
      && Verdicts(cfg, st, evs)[n] == Apply(cfg, Final(cfg, st, evs[..n]), evs[n]).1
      && Final(cfg, st, evs) == Apply(cfg, Final(cfg, st, evs[..n]), evs[n]).0
  {
    hide Apply;
  }

  lemma RunPush(cfg: Config, st: State, evs: seq<Event>, ev: Event)
    ensures Verdicts(cfg, st, evs + [ev]) == Verdicts(cfg, st, evs) + [Apply(cfg, Final(cfg, st, evs), ev).1]
    ensures Final(cfg, st, evs + [ev]) == Apply(cfg, Final(cfg, st, evs), ev).0
  {
    hide Apply;
    assert (evs + [ev])[..|evs|] == evs;
  }

  // ---- Marks ----------------------------------------------------------------------------

  /** The mark of a device, zero when it has none. */
  function Mark(st: State, deviceId: string): int {
    if deviceId in st.marks then st.marks[deviceId] else 0
  }

  predicate PositiveMarks(st: State) {
    forall d :: d in st.marks ==> st.marks[d] > 0
  }

  ghost predicate ArrivesFor(ev: Event, deviceId: string) {
    ev.Arrive? && ParseOf(ev.raw).Ok? && ParseOf(ev.raw).value.deviceId == deviceId
  }

  /** One event: marks only grow, only for the device of the envelope, and an accepted envelope
      raises its device's mark to its own number. */
  lemma MarkStep(cfg: Config, st: State, ev: Event, d: string)
    requires !ev.Restart? && PositiveMarks(st)
    ensures var (next, verdict) := Apply(cfg, st, ev);
      && PositiveMarks(next)
      && Mark(next, d) >= Mark(st, d)
      && (!ArrivesFor(ev, d) ==> Mark(next, d) == Mark(st, d))
      && (Accepted(verdict) ==>
        var e := verdict.value.value.env;
        ArrivesFor(ev, e.deviceId) && ParseOf(ev.raw) == Ok(e)
        && e.seqNo > Mark(st, e.deviceId) && Mark(next, e.deviceId) == e.seqNo)
  {
    hide FreshnessFault, SignatureCheck, BindingFault, SeenStep, ParseOf;
    if ev.Arrive? && ParseOf(ev.raw).Ok? {
      ParsedFitsTheGuard(ev.raw);
    }
  }

  /** Without restarts the marks of a run only grow; a device's mark is untouched by the others. */
  lemma {:induction false} MarksGrow(cfg: Config, st: State, evs: seq<Event>, d: string)
    requires PositiveMarks(st) && forall i :: 0 <= i < |evs| ==> !evs[i].Restart?
    ensures PositiveMarks(Final(cfg, st, evs)) && Mark(Final(cfg, st, evs), d) >= Mark(st, d)
    ensures (forall i :: 0 <= i < |evs| ==> !ArrivesFor(evs[i], d)) ==> Mark(Final(cfg, st, evs), d) == Mark(st, d)
  {
    if evs != [] {
      hide Apply, ArrivesFor, Mark, PositiveMarks;
      var init := evs[..|evs| - 1];
      MarksGrow(cfg, st, init, d);
      MarkStep(cfg, Final(cfg, st, init), evs[|evs| - 1], d);
    }
  }

  lemma {:induction false} FinalConcat(cfg: Config, st: State, a: seq<Event>, b: seq<Event>)
    ensures Final(cfg, st, a + b) == Final(cfg, Final(cfg, st, a), b)
  {
    if b == [] {
      assert a + b == a;
    } else {
      var n := |b| - 1;
      assert (a + b)[..|a| + n] == a + b[..n];
      FinalConcat(cfg, st, a, b[..n]);
    }
  }

  lemma PositiveMarksThroughout(cfg: Config, st: State, evs: seq<Event>)
    requires PositiveMarks(st)
    ensures PositiveMarks(Final(cfg, st, evs))
  {
    if evs != [] {
      var init := evs[..|evs| - 1];
      PositiveMarksThroughout(cfg, st, init);
      var s := Final(cfg, st, init);
      if !evs[|evs| - 1].Restart? {
        MarkStep(cfg, s, evs[|evs| - 1], "");
      }
    }
  }

  /** An accepted envelope exceeds its device's mark before it and is the mark after it. */
  lemma AcceptedRaisesTheMark(cfg: Config, st: State, evs: seq<Event>, i: nat)
    requires PositiveMarks(st) && i < |evs| && Accepted(Verdicts(cfg, st, evs)[i])
    ensures !evs[i].Restart? && PositiveMarks(Final(cfg, st, evs[..i + 1]))
    ensures var e := Verdicts(cfg, st, evs)[i].value.value.env;
      && e.seqNo > Mark(Final(cfg, st, evs[..i]), e.deviceId)
      && Mark(Final(cfg, st, evs[..i + 1]), e.deviceId) == e.seqNo
  {
    VerdictAt(cfg, st, evs, i);
    FinalStep(cfg, st, evs, i);
    PositiveMarksThroughout(cfg, st, evs[..i]);
    var before := Final(cfg, st, evs[..i]);
    assert !evs[i].Restart? by {
      assert Apply(cfg, before, evs[i]).1.Some?;
    }
    hide Apply, Mark, PositiveMarks, Verdicts, Final;
    MarkStep(cfg, before, evs[i], Verdicts(cfg, st, evs)[i].value.value.env.deviceId);
  }

  /** For any interleaving, any clock, any bundle and key changes: between restarts the accepted
      numbers of a device strictly increase. */
  lemma AcceptedNumbersIncrease(cfg: Config, st: State, evs: seq<Event>, i: nat, j: nat)
    requires PositiveMarks(st) && i < j < |evs|
    requires forall k :: i < k < j ==> !evs[k].Restart?
    requires Accepted(Verdicts(cfg, st, evs)[i]) && Accepted(Verdicts(cfg, st, evs)[j])
    requires Verdicts(cfg, st, evs)[i].value.value.env.deviceId == Verdicts(cfg, st, evs)[j].value.value.env.deviceId
    ensures Verdicts(cfg, st, evs)[i].value.value.env.seqNo < Verdicts(cfg, st, evs)[j].value.value.env.seqNo
  {
    var d := Verdicts(cfg, st, evs)[i].value.value.env.deviceId;
    AcceptedRaisesTheMark(cfg, st, evs, i);
    AcceptedRaisesTheMark(cfg, st, evs, j);
    MarksGrowBetween(cfg, st, evs, i + 1, j, d);
    hide Verdicts, Final, Mark, PositiveMarks;
  }

  lemma MarksGrowBetween(cfg: Config, st: State, evs: seq<Event>, i: nat, j: nat, d: string)
    requires i <= j <= |evs| && PositiveMarks(Final(cfg, st, evs[..i]))
    requires forall k :: i <= k < j ==> !evs[k].Restart?
    ensures Mark(Final(cfg, st, evs[..i]), d) <= Mark(Final(cfg, st, evs[..j]), d)
  {
    hide *;
    var between := evs[i..j];
    Slices(evs, i, j);
    FinalConcat(cfg, st, evs[..i], between);
    MarksGrow(cfg, Final(cfg, st, evs[..i]), between, d);
  }

  // ---- Restarts -------------------------------------------------------------------------

  /** An envelope is accepted only within the window around its `not_after`. */
  lemma AcceptedWithinWindow(cfg: Config, st: State, evs: seq<Event>, i: nat)
    requires MIN_INT64 <= cfg.maxAge + cfg.clockSkew < MAX_INT64
    requires i < |evs| && Accepted(Verdicts(cfg, st, evs)[i])
    ensures evs[i].Arrive?
    ensures var e, now := Verdicts(cfg, st, evs)[i].value.value.env, evs[i].clock.atCheck;
      e.notAfter * 1_000_000_000 - cfg.maxAge - cfg.clockSkew <= now <= e.notAfter * 1_000_000_000 + cfg.clockSkew
  {
    VerdictAt(cfg, st, evs, i);
    var s := Final(cfg, st, evs[..i]);
    AcceptedResult(cfg, s, evs[i].raw, evs[i].clock);
    AcceptedIsFreshAndSafe(cfg, s, evs[i].raw, evs[i].clock);
    hide Verdicts, FreshnessFault;
    FreshnessIsTheWindow(cfg, ParseOf(evs[i].raw).value.notAfter, evs[i].clock.atCheck);
  }

  lemma AcceptedIsFreshAndSafe(cfg: Config, st: State, raw: Raw, clock: Readings)
    requires VerifyStep(cfg, st, raw, clock).1.Ok?
    ensures ParseOf(raw).Ok? && Safe(ParseOf(raw).value.notAfter)
    ensures FreshnessFault(cfg, ParseOf(raw).value.notAfter, clock.atCheck).None?
  {
    AcceptedResult(cfg, st, raw, clock);
    CheckedIsSafe(cfg, st.keys, ParseOf(raw).value);
  }

  lemma CheckedIsSafe(cfg: Config, keys: map<string, Bytes>, e: Envelope)
    requires SignatureCheck(cfg, keys, e).Ok?
    ensures Safe(e.notAfter)
  {
    CanonicalisableIff(e.(signature := ""));
  }

  /** However often the agent restarts, all acceptances of one envelope (one device and number, one
      `not_after`) fit in `maxAge + 2 * clockSkew`, and between two of them lies a restart. */
  lemma RestartBound(cfg: Config, st: State, evs: seq<Event>, i: nat, j: nat)
    requires MIN_INT64 <= cfg.maxAge + cfg.clockSkew < MAX_INT64
    requires PositiveMarks(st) && i < j < |evs|
    requires Accepted(Verdicts(cfg, st, evs)[i]) && Accepted(Verdicts(cfg, st, evs)[j])
    requires Verdicts(cfg, st, evs)[i].value.value.env == Verdicts(cfg, st, evs)[j].value.value.env
    ensures evs[i].Arrive? && evs[j].Arrive?
    ensures -(cfg.maxAge + 2 * cfg.clockSkew) <= evs[j].clock.atCheck - evs[i].clock.atCheck <= cfg.maxAge + 2 * cfg.clockSkew
    ensures exists k :: i < k < j && evs[k].Restart?
  {
    AcceptedWithinWindow(cfg, st, evs, i);
    AcceptedWithinWindow(cfg, st, evs, j);
    if forall k :: i < k < j ==> !evs[k].Restart? {
      AcceptedNumbersIncrease(cfg, st, evs, i, j);
    }
  }

  // ---- The nonce list over a run --------------------------------------------------------

  /** The nonce queries of a run: one per envelope that reaches the uniqueness check. */
  ghost function Queries(cfg: Config, st: State, evs: seq<Event>): seq<ReplayHistory.Query> {
    if evs == [] then []
    else
      var init, ev := evs[..|evs| - 1], evs[|evs| - 1];
      Queries(cfg, st, init)
      + if ev.Arrive? && ReachesUniqueness(cfg, Final(cfg, st, init), ev.raw, ev.clock)
        then [ReplayHistory.Query(KeyOf(ev), ev.clock.atGuard)] else []
  }

  ghost function KeyOf(ev: Event): string
    requires ev.Arrive? && ParseOf(ev.raw).Ok?
  {
    NonceKey(ParseOf(ev.raw).value.deviceId, ParseOf(ev.raw).value.nonce)
  }

  /** The entry an accepted envelope leaves in the guard. */
  ghost function RecordOf(ev: Event): NonceEntry
    requires ev.Arrive? && ParseOf(ev.raw).Ok?
  {
    NonceEntry(KeyOf(ev), ev.clock.atGuard)
  }

  /** The entries of the accepted envelopes of a run, in order. */
  ghost function AcceptedRecords(cfg: Config, st: State, evs: seq<Event>): seq<NonceEntry> {
    if evs == [] then []
    else
      var init, ev := evs[..|evs| - 1], evs[|evs| - 1];
      AcceptedRecords(cfg, st, init)
      + if Accepted(Apply(cfg, Final(cfg, st, init), ev).1) && ev.Arrive? && ParseOf(ev.raw).Ok? then [RecordOf(ev)] else []
  }

  ghost predicate GuardSees(cfg: Config, st: State, evs: seq<Event>) {
    var r := ReplayHistory.RunQueries(Queries(cfg, st, evs), cfg.guardMaxAge, cfg.guardCapacity);
    r.order == Final(cfg, st, evs).order && r.history == AcceptedRecords(cfg, st, evs)
  }

  /** One event, as the guard sees it. */
  lemma GuardStep(cfg: Config, st: State, ev: Event)
    requires !ev.Restart?
    ensures var (next, verdict) := Apply(cfg, st, ev);
      if ev.Arrive? && ReachesUniqueness(cfg, st, ev.raw, ev.clock) then
        var (seen, order) := SeenStep(st.order, KeyOf(ev), ev.clock.atGuard, cfg.guardMaxAge, cfg.guardCapacity);
        next.order == order && Accepted(verdict) == !seen
      else next.order == st.order && !Accepted(verdict)
  {
    hide FreshnessFault, SignatureCheck, BindingFault, SeenStep, ParseOf;
  }

  /** In a run without restarts from an empty list, the guard's list and history are those of its
      queries, and the history is the record of the accepted envelopes. */
  lemma {:induction false} GuardSeesTheRun(cfg: Config, st: State, evs: seq<Event>)
    requires st.order == [] && forall i :: 0 <= i < |evs| ==> !evs[i].Restart?
    ensures GuardSees(cfg, st, evs)
  {
    if evs != [] {
      var init, ev := evs[..|evs| - 1], evs[|evs| - 1];
      GuardSeesTheRun(cfg, st, init);
      hide Apply, ReachesUniqueness, SeenStep, Accepted, ParseOf;
      GuardStep(cfg, Final(cfg, st, init), ev);
      var qs := Queries(cfg, st, init);
      if ev.Arrive? && ReachesUniqueness(cfg, Final(cfg, st, init), ev.raw, ev.clock) {
        var q := ReplayHistory.Query(KeyOf(ev), ev.clock.atGuard);
        assert (qs + [q])[..|qs|] == qs;
        ReachingParses(cfg, Final(cfg, st, init), ev);
      } else {
        assert qs + [] == qs;
        assert AcceptedRecords(cfg, st, init) + [] == AcceptedRecords(cfg, st, init);
      }
    }
  }

  lemma ReachingParses(cfg: Config, st: State, ev: Event)
    requires ev.Arrive? && ReachesUniqueness(cfg, st, ev.raw, ev.clock)
    ensures ParseOf(ev.raw).Ok?
  {
  }

  /** The guard's clock never goes back over the arrivals of a run. */
  ghost predicate GuardClockNeverGoesBack(evs: seq<Event>) {
    forall i, j :: 0 <= i < j < |evs| && evs[i].Arrive? && evs[j].Arrive? ==>
      evs[i].clock.atGuard <= evs[j].clock.atGuard
  }

  /** The guard reads `t` at some arrival. */
  ghost predicate Reads(evs: seq<Event>, t: int) {
    exists i :: 0 <= i < |evs| && evs[i].Arrive? && t == evs[i].clock.atGuard
  }

  /** Every query carries the guard's reading of some arrival. */
  ghost predicate TimedBy(qs: seq<ReplayHistory.Query>, evs: seq<Event>) {
    forall k :: 0 <= k < |qs| ==> Reads(evs, qs[k].now)
  }

  lemma ReadsBefore(evs: seq<Event>, t: int)
    requires evs != [] && Reads(evs[..|evs| - 1], t)
    ensures Reads(evs, t)
    ensures GuardClockNeverGoesBack(evs) && evs[|evs| - 1].Arrive? ==> t <= evs[|evs| - 1].clock.atGuard
  {
    var init := evs[..|evs| - 1];
    var i :| 0 <= i < |init| && init[i].Arrive? && t == init[i].clock.atGuard;
    assert evs[i].Arrive?;
  }

  lemma QueriesStep(cfg: Config, st: State, evs: seq<Event>)
    requires evs != []
    ensures var qs, all, ev := Queries(cfg, st, evs[..|evs| - 1]), Queries(cfg, st, evs), evs[|evs| - 1];
      all == qs || (ev.Arrive? && |all| == |qs| + 1 && all == qs + [all[|qs|]] && all[|qs|].now == ev.clock.atGuard)
  {
    hide ReachesUniqueness, KeyOf, Final;
  }

  lemma TimedPush(qs: seq<ReplayHistory.Query>, q: ReplayHistory.Query, evs: seq<Event>)
    requires evs != [] && GuardClockNeverGoesBack(evs) && TimedBy(qs, evs[..|evs| - 1])
    requires ReplayHistory.ClockNeverGoesBack(qs) && evs[|evs| - 1].Arrive? && q.now == evs[|evs| - 1].clock.atGuard
    ensures ReplayHistory.ClockNeverGoesBack(qs + [q]) && Reads(evs, q.now)
  {
    forall k | 0 <= k < |qs|
      ensures qs[k].now <= q.now
    {
      ReadsBefore(evs, qs[k].now);
    }
    assert evs[|evs| - 1].Arrive? && q.now == evs[|evs| - 1].clock.atGuard;
  }

  lemma TimedMore(qs: seq<ReplayHistory.Query>, evs: seq<Event>)
    requires evs != [] && TimedBy(qs, evs[..|evs| - 1])
    ensures TimedBy(qs, evs)
  {
    hide Reads;
    forall k | 0 <= k < |qs|
      ensures Reads(evs, qs[k].now)
    {
      ReadsBefore(evs, qs[k].now);
    }
  }

  lemma TimedWith(qs: seq<ReplayHistory.Query>, q: ReplayHistory.Query, evs: seq<Event>)
    requires TimedBy(qs, evs) && Reads(evs, q.now)
    ensures TimedBy(qs + [q], evs)
  {
    hide Reads;
  }

  lemma GuardClockOfInit(evs: seq<Event>)
    requires evs != [] && GuardClockNeverGoesBack(evs)
    ensures GuardClockNeverGoesBack(evs[..|evs| - 1])
  {
  }

  lemma {:induction false} QueriesInOrder(cfg: Config, st: State, evs: seq<Event>)
    requires GuardClockNeverGoesBack(evs)
    ensures ReplayHistory.ClockNeverGoesBack(Queries(cfg, st, evs)) && TimedBy(Queries(cfg, st, evs), evs)
  {
    if evs != [] {
      hide *;
      var init := evs[..|evs| - 1];
      var qs, all := Queries(cfg, st, init), Queries(cfg, st, evs);
      GuardClockOfInit(evs);
      QueriesInOrder(cfg, st, init);
      QueriesStep(cfg, st, evs);
      TimedMore(qs, evs);
      if all != qs {
        TimedPush(qs, all[|qs|], evs);
        TimedWith(qs, all[|qs|], evs);
      }
    }
  }

  /** Where the record of an accepted envelope stands in the history. */
  lemma {:induction false} RecordPosition(cfg: Config, st: State, evs: seq<Event>, i: nat, j: nat) returns (a: nat, b: nat)
    requires i < j < |evs| && evs[i].Arrive? && evs[j].Arrive?
    requires ParseOf(evs[i].raw).Ok? && ParseOf(evs[j].raw).Ok?
    requires Accepted(Verdicts(cfg, st, evs)[i]) && Accepted(Verdicts(cfg, st, evs)[j])
    ensures a < b < |AcceptedRecords(cfg, st, evs)|
    ensures AcceptedRecords(cfg, st, evs)[a] == RecordOf(evs[i])
    ensures AcceptedRecords(cfg, st, evs)[b] == RecordOf(evs[j])
  {
    a := RecordIndex(cfg, st, evs, i);
    b := RecordIndex(cfg, st, evs, j);
    RecordsGrow(cfg, st, evs, i + 1, j);
  }

  /** The record of the `i`-th event is the last one of the run up to it. */
  lemma RecordIndex(cfg: Config, st: State, evs: seq<Event>, i: nat) returns (a: nat)
    requires i < |evs| && evs[i].Arrive? && ParseOf(evs[i].raw).Ok? && Accepted(Verdicts(cfg, st, evs)[i])
    ensures a == |AcceptedRecords(cfg, st, evs[..i])| < |AcceptedRecords(cfg, st, evs)|
    ensures a + 1 == |AcceptedRecords(cfg, st, evs[..i + 1])|
    ensures AcceptedRecords(cfg, st, evs)[a] == RecordOf(evs[i])
  {
    hide *;
    VerdictAt(cfg, st, evs, i);
    a := |AcceptedRecords(cfg, st, evs[..i])|;
    RecordIsLast(cfg, st, evs, i);
    RecordsGrow(cfg, st, evs, i + 1, |evs|);
    assert evs[..|evs|] == evs;
    assert AcceptedRecords(cfg, st, evs[..i + 1])[a] == RecordOf(evs[i]);
  }

  lemma RecordIsLast(cfg: Config, st: State, evs: seq<Event>, i: nat)
    requires i < |evs| && evs[i].Arrive? && ParseOf(evs[i].raw).Ok?
    requires Accepted(Apply(cfg, Final(cfg, st, evs[..i]), evs[i]).1)
    ensures AcceptedRecords(cfg, st, evs[..i + 1]) == AcceptedRecords(cfg, st, evs[..i]) + [RecordOf(evs[i])]
  {
    hide Apply, Accepted, ParseOf, RecordOf, Final;
    assert evs[..i + 1][..i] == evs[..i];
  }

  lemma RecordsOfOneMore(cfg: Config, st: State, evs: seq<Event>)
    requires evs != []
    ensures AcceptedRecords(cfg, st, evs[..|evs| - 1]) <= AcceptedRecords(cfg, st, evs)
  {
    hide Apply, Accepted, ParseOf, RecordOf, Final;
  }

  lemma {:induction false} RecordsGrow(cfg: Config, st: State, evs: seq<Event>, m: nat, n: nat)
    requires m <= n <= |evs|
    ensures AcceptedRecords(cfg, st, evs[..m]) <= AcceptedRecords(cfg, st, evs[..n])
    decreases n
  {
    hide *;
    if m < n {
      RecordsGrow(cfg, st, evs, m, n - 1);
      PrefixOfPrefix(evs, n - 1, n);
      RecordsOfOneMore(cfg, st, evs[..n]);
    }
  }

  /** If the capacity fits the traffic and the guard's clock never goes back, no device has the same
      nonce accepted twice less than the guard's age apart. */
  lemma NoncesAreUniqueWithinTheAge(cfg: Config, st: State, evs: seq<Event>, i: nat, j: nat)
    requires cfg.guardMaxAge > 0 && cfg.guardCapacity > 0
    requires st.order == [] && forall k :: 0 <= k < |evs| ==> !evs[k].Restart?
    requires GuardClockNeverGoesBack(evs)
    requires ReplayHistory.FitsCapacity(AcceptedRecords(cfg, st, evs), cfg.guardMaxAge, cfg.guardCapacity)
    requires i < j < |evs| && Accepted(Verdicts(cfg, st, evs)[i]) && Accepted(Verdicts(cfg, st, evs)[j])
    requires var e, f := Verdicts(cfg, st, evs)[i].value.value.env, Verdicts(cfg, st, evs)[j].value.value.env;
      e.deviceId == f.deviceId && e.nonce == f.nonce
    ensures evs[i].Arrive? && evs[j].Arrive?
    ensures evs[j].clock.atGuard - evs[i].clock.atGuard >= cfg.guardMaxAge
  {
    AcceptedParses(cfg, st, evs, i);
    AcceptedParses(cfg, st, evs, j);
    hide Verdicts, Accepted, ParseOf, GuardClockNeverGoesBack;
    GuardSeesTheRun(cfg, st, evs);
    QueriesInOrder(cfg, st, evs);
    ReplayHistory.NoEarlyRepeat(Queries(cfg, st, evs), cfg.guardMaxAge, cfg.guardCapacity);
    var a, b := RecordPosition(cfg, st, evs, i, j);
    var h := AcceptedRecords(cfg, st, evs);
    assert h[a].key == h[b].key;
  }

  lemma AcceptedParses(cfg: Config, st: State, evs: seq<Event>, i: nat)
    requires i < |evs| && Accepted(Verdicts(cfg, st, evs)[i])
    ensures evs[i].Arrive? && ParseOf(evs[i].raw) == Ok(Verdicts(cfg, st, evs)[i].value.value.env)
  {
    VerdictAt(cfg, st, evs, i);
    AcceptedResult(cfg, Final(cfg, st, evs[..i]), evs[i].raw, evs[i].clock);
  }

  /** The record that an entry of the list is: of an accepted arrival, with no restart after it. */
  ghost predicate Source(cfg: Config, st: State, evs: seq<Event>, i: nat, entry: NonceEntry) {
    && i < |evs| && evs[i].Arrive? && ParseOf(evs[i].raw).Ok? && Accepted(Verdicts(cfg, st, evs)[i])
    && RecordOf(evs[i]) == entry
    && forall k :: i < k < |evs| ==> !evs[k].Restart?
  }

  /** An entry of the list after an event was there before, or is the record of the event. */
  lemma EntryStep(cfg: Config, st: State, ev: Event, entry: NonceEntry)
    requires entry in Apply(cfg, st, ev).0.order
    ensures !ev.Restart?
    ensures entry in st.order
      || (ev.Arrive? && ParseOf(ev.raw).Ok? && Accepted(Apply(cfg, st, ev).1) && RecordOf(ev) == entry)
  {
    hide FreshnessFault, SignatureCheck, BindingFault, SeenStep, ParseOf;
    assert !ev.Restart?;
    GuardStep(cfg, st, ev);
    if ev.Arrive? && ReachesUniqueness(cfg, st, ev.raw, ev.clock) {
      SeenStepAdds(st.order, KeyOf(ev), ev.clock.atGuard, cfg.guardMaxAge, cfg.guardCapacity, entry);
    }
  }

  lemma SeenStepAdds(order: seq<NonceEntry>, key: string, now: int, maxAge: int, capacity: int, entry: NonceEntry)
    requires entry in SeenStep(order, key, now, maxAge, capacity).1
    ensures entry in order || (entry == NonceEntry(key, now) && !SeenStep(order, key, now, maxAge, capacity).0)
  {
    hide EvictExpired, Holds;
    var kept := EvictExpired(order, now - maxAge);
    assert kept == order[|order| - |kept|..];
    assert forall e :: e in kept ==> e in order;
  }

  lemma VerdictOfPrefix(cfg: Config, st: State, evs: seq<Event>, n: nat, i: nat)
    requires i < n <= |evs|
    ensures Verdicts(cfg, st, evs[..n])[i] == Verdicts(cfg, st, evs)[i]
  {
    VerdictAt(cfg, st, evs[..n], i);
    VerdictAt(cfg, st, evs, i);
    hide *;
    assert evs[..n][..i] == evs[..i] && evs[..n][i] == evs[i];
  }

  lemma SourceStays(cfg: Config, st: State, evs: seq<Event>, i: nat, entry: NonceEntry)
    requires evs != [] && !evs[|evs| - 1].Restart? && Source(cfg, st, evs[..|evs| - 1], i, entry)
    ensures Source(cfg, st, evs, i, entry)
  {
    VerdictOfPrefix(cfg, st, evs, |evs| - 1, i);
    hide Verdicts, Accepted, ParseOf, RecordOf;
    assert forall k :: 0 <= k < |evs| - 1 ==> evs[..|evs| - 1][k] == evs[k];
  }

  /** Over any run, with any clock and any restarts, every entry of the list has its source. */
  lemma {:induction false} EntryHasSource(cfg: Config, st: State, evs: seq<Event>, entry: NonceEntry) returns (i: nat)
    requires st.order == [] && entry in Final(cfg, st, evs).order
    ensures Source(cfg, st, evs, i, entry)
  {
    assert evs != [];
    var n := |evs| - 1;
    var init, ev := evs[..n], evs[n];
    hide Apply, Accepted, ParseOf, RecordOf;
    EntryStep(cfg, Final(cfg, st, init), ev, entry);
    VerdictAt(cfg, st, evs, n);
    hide Final, Verdicts;
    if entry in Final(cfg, st, init).order {
      i := EntryHasSource(cfg, st, init, entry);
      hide Source;
      SourceStays(cfg, st, evs, i, entry);
    } else {
      i := n;
    }
  }

  lemma ReplayIsHeld(cfg: Config, st: State, raw: Raw, clock: Readings)
    requires VerifyStep(cfg, st, raw, clock).1 == Err(ErrReplayNonce)
    ensures ParseOf(raw).Ok?
    ensures Holds(st.order, NonceKey(ParseOf(raw).value.deviceId, ParseOf(raw).value.nonce))
  {
    EarlyErrors(cfg, st, raw, clock);
    hide FreshnessFault, SignatureCheck, BindingFault, ParseOf, EvictExpired, Holds;
    if ParseOf(raw).Ok? {
      var e := ParseOf(raw).value;
      KeptWasHeld(st.order, clock.atGuard - cfg.guardMaxAge, NonceKey(e.deviceId, e.nonce));
    }
  }

  lemma KeptWasHeld(order: seq<NonceEntry>, cutoff: int, key: string)
    ensures Holds(EvictExpired(order, cutoff), key) ==> Holds(order, key)
  {
    hide EvictExpired;
    var kept := EvictExpired(order, cutoff);
    var gone := |order| - |kept|;
    assert kept == order[gone..];
    if Holds(kept, key) {
      var k :| 0 <= k < |kept| && kept[k].key == key;
      assert order[gone + k].key == key;
    }
  }

  /** Over any run from an empty guard, with any clock and any restarts: if no device id holds a NUL,
      an envelope is refused as a replay only because the same device had the same nonce accepted
      earlier, since the last restart. */
  lemma ReplayHasACause(cfg: Config, st: State, evs: seq<Event>, j: nat) returns (i: nat)
    requires st.order == [] && j < |evs| && Verdicts(cfg, st, evs)[j] == Some(Err(ErrReplayNonce))
    requires forall k :: 0 <= k < |evs| && evs[k].Arrive? && ParseOf(evs[k].raw).Ok? ==>
      '\0' !in ParseOf(evs[k].raw).value.deviceId
    ensures i < j && evs[i].Arrive? && evs[j].Arrive? && ParseOf(evs[i].raw).Ok? && ParseOf(evs[j].raw).Ok?
    ensures Accepted(Verdicts(cfg, st, evs)[i]) && forall k :: i < k < j ==> !evs[k].Restart?
    ensures ParseOf(evs[i].raw).value.deviceId == ParseOf(evs[j].raw).value.deviceId
    ensures ParseOf(evs[i].raw).value.nonce == ParseOf(evs[j].raw).value.nonce
  {
    ReplayAt(cfg, st, evs, j);
    var order := Final(cfg, st, evs[..j]).order;
    hide Final, Verdicts, Accepted, ParseOf;
    var a :| 0 <= a < |order| && order[a].key == KeyOf(evs[j]);
    i := EntryHasSource(cfg, st, evs[..j], order[a]);
    VerdictOfPrefix(cfg, st, evs, j, i);
    assert forall k :: 0 <= k < j ==> evs[..j][k] == evs[k];
    hide KeyOf;
    RecordsIdentifyThePair(evs[i], evs[j]);
  }

  lemma ReplayAt(cfg: Config, st: State, evs: seq<Event>, j: nat)
    requires j < |evs| && Verdicts(cfg, st, evs)[j] == Some(Err(ErrReplayNonce))
    ensures evs[j].Arrive? && ParseOf(evs[j].raw).Ok? && Holds(Final(cfg, st, evs[..j]).order, KeyOf(evs[j]))
  {
    VerdictAt(cfg, st, evs, j);
    assert evs[j].Arrive?;
    hide Verdicts, Final, VerifyStep, ParseOf, Holds;
    ReplayIsHeld(cfg, Final(cfg, st, evs[..j]), evs[j].raw, evs[j].clock);
  }

  /** Two records with the same key come from the same device and nonce when no device id holds a
      NUL, so under that condition the guard never confuses two devices. */
  lemma RecordsIdentifyThePair(ev: Event, other: Event)
    requires ev.Arrive? && other.Arrive? && ParseOf(ev.raw).Ok? && ParseOf(other.raw).Ok?
    requires '\0' !in ParseOf(ev.raw).value.deviceId && '\0' !in ParseOf(other.raw).value.deviceId
    requires KeyOf(ev) == KeyOf(other)
    ensures ParseOf(ev.raw).value.deviceId == ParseOf(other.raw).value.deviceId
    ensures ParseOf(ev.raw).value.nonce == ParseOf(other.raw).value.nonce
  {
    hide ParseOf;
    ReplayHistory.NonceKeyInjective(ParseOf(ev.raw).value.deviceId, ParseOf(ev.raw).value.nonce,
                                    ParseOf(other.raw).value.deviceId, ParseOf(other.raw).value.nonce);
  }
}
