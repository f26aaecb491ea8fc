/** How long an envelope can be accepted, against how long the guard remembers its nonce. */
module FreshnessLimits {
  import opened Numbers
  import opened Envelope
  import opened Parse
  import opened ReplayGuard
  import opened Verify
  import opened VerifyRuns
  import opened SignThenVerify
  import ReplayHistory

  /** A call during which the clock stands still. */
  function At(t: int): Readings {
    Readings(t, t, t)
  }

  /** The first and the last instant at which an envelope is fresh. */
  function Earliest(cfg: Config, e: Envelope): int {
    e.notAfter * 1_000_000_000 - cfg.maxAge - cfg.clockSkew
  }

  function Latest(cfg: Config, e: Envelope): int {
    e.notAfter * 1_000_000_000 + cfg.clockSkew
  }

  lemma EdgesAreFresh(cfg: Config, e: Envelope)
    requires MIN_INT64 <= cfg.maxAge + cfg.clockSkew < MAX_INT64 && cfg.maxAge + 2 * cfg.clockSkew >= 0
    requires Safe(e.notAfter)
    ensures FreshnessFault(cfg, e.notAfter, Earliest(cfg, e)).None?
    ensures FreshnessFault(cfg, e.notAfter, Latest(cfg, e)).None?
    ensures Latest(cfg, e) - Earliest(cfg, e) == cfg.maxAge + 2 * cfg.clockSkew
  {
    FreshnessIsTheWindow(cfg, e.notAfter, Earliest(cfg, e));
    FreshnessIsTheWindow(cfg, e.notAfter, Latest(cfg, e));
  }

  /** The arrival of `e`, signed, while the clock shows `t`. */
  ghost function Arrival(cfg: Config, st: State, e: Envelope, t: int): Event
    requires Signable(st, e)
  {
    Arrive(SignedDocument(cfg, st, e), At(t))
  }

  /** An acceptable envelope is accepted; what the state is afterwards. */
  lemma ArrivalIsAccepted(cfg: Config, st: State, e: Envelope, t: int)
    requires Signable(st, e) && Acceptable(cfg, st, e, At(t))
    ensures var (next, verdict) := Apply(cfg, st, Arrival(cfg, st, e, t));
      && Accepted(verdict) && verdict.value.value.env == Signed(cfg, st, e)
      && next.keys == st.keys && next.digest == st.digest && next.marks == st.marks[e.deviceId := e.seqNo]
      && next.order == SeenStep(st.order, NonceKey(e.deviceId, e.nonce), t, cfg.guardMaxAge, cfg.guardCapacity).1
  {
    SignedIsAcceptedIff(cfg, st, e, At(t));
    AfterAcceptance(cfg, st, e, At(t));
    AcceptedResult(cfg, st, SignedDocument(cfg, st, e), At(t));
    SignedParsesToItself(cfg, st, e);
    hide VerifyStep, SignedDocument, Signed, SeenStep, Acceptable, Signable;
  }

  /** The document depends on the state only through the keys. */
  lemma SameDocument(cfg: Config, st: State, other: State, e: Envelope)
    requires Signable(st, e) && other.keys == st.keys
    ensures Signable(other, e) && SignedDocument(cfg, other, e) == SignedDocument(cfg, st, e)
    ensures Signed(cfg, other, e) == Signed(cfg, st, e)
  {
  }

  // ---- The restart bound is attained ----------------------------------------------------

  /** One envelope arriving at both ends of its window, with a restart between. */
  ghost function AcrossARestart(cfg: Config, st: State, e: Envelope): seq<Event>
    requires Signable(st, e)
  {
    [Arrival(cfg, st, e, Earliest(cfg, e)), Restart, Arrival(cfg, st, e, Latest(cfg, e))]
  }

  /** The bound on a captured envelope is attained: whatever envelope is acceptable at the start of
      its window is accepted again after one restart, `maxAge + 2 * clockSkew` later. */
  lemma RestartBoundIsTight(cfg: Config, st: State, e: Envelope)
    requires MIN_INT64 <= cfg.maxAge + cfg.clockSkew < MAX_INT64
    requires Signable(st, e) && Acceptable(cfg, st, e, At(Earliest(cfg, e)))
    ensures var evs := AcrossARestart(cfg, st, e);
      var vs := Verdicts(cfg, st, evs);
      && Accepted(vs[0]) && Accepted(vs[2]) && vs[0].value.value.env == vs[2].value.value.env
      && evs[2].clock.atCheck - evs[0].clock.atCheck == cfg.maxAge + 2 * cfg.clockSkew
  {
    var evs := AcrossARestart(cfg, st, e);
    hide Apply, Acceptable, Signable, SignedDocument, Signed, Accepted, Verdicts, FreshnessFault;
    WindowIsNotEmpty(cfg, e, At(Earliest(cfg, e)), st);
    EdgesAreFresh(cfg, e);
    ArrivalIsAccepted(cfg, st, e, Earliest(cfg, e));
    var after := Apply(cfg, Apply(cfg, st, evs[0]).0, Restart).0;
    RestartForgets(cfg, Apply(cfg, st, evs[0]).0);
    SameDocument(cfg, st, after, e);
    AcceptableAfterRestart(cfg, st, after, e, At(Earliest(cfg, e)), At(Latest(cfg, e)));
    ArrivalIsAccepted(cfg, after, e, Latest(cfg, e));
    ThreeVerdicts(cfg, st, evs[0], Restart, evs[2]);
  }

  lemma RestartForgets(cfg: Config, st: State)
    ensures var after := Apply(cfg, st, Restart).0;
      after.keys == st.keys && after.digest == st.digest && after.marks == map[] && after.order == []
  {
  }

  lemma AcceptableAfterRestart(cfg: Config, st: State, after: State, e: Envelope, clock: Readings, later: Readings)
    requires Acceptable(cfg, st, e, clock) && FreshnessFault(cfg, e.notAfter, later.atCheck).None?
    requires after.keys == st.keys && after.digest == st.digest && after.marks == map[] && after.order == []
    ensures Acceptable(cfg, after, e, later)
  {
    hide FreshnessFault;
  }

  lemma WindowIsNotEmpty(cfg: Config, e: Envelope, clock: Readings, st: State)
    requires MIN_INT64 <= cfg.maxAge + cfg.clockSkew < MAX_INT64
    requires Signable(st, e) && Acceptable(cfg, st, e, clock)
    ensures Safe(e.notAfter) && cfg.maxAge + 2 * cfg.clockSkew >= 0
  {
    FreshnessIsTheWindow(cfg, e.notAfter, clock.atCheck);
  }

  lemma TwoVerdicts(cfg: Config, st: State, a: Event, b: Event)
    ensures Verdicts(cfg, st, [a, b])[0] == Apply(cfg, st, a).1
    ensures Verdicts(cfg, st, [a, b])[1] == Apply(cfg, Apply(cfg, st, a).0, b).1
  {
    var evs := [a, b];
    VerdictAt(cfg, st, evs, 0);
    VerdictAt(cfg, st, evs, 1);
    FinalStep(cfg, st, evs, 0);
    hide Apply, Verdicts;
    assert evs[..0] == [] && evs[..1] == [a];
  }

  lemma ThreeVerdicts(cfg: Config, st: State, a: Event, b: Event, c: Event)
    ensures var vs, mid := Verdicts(cfg, st, [a, b, c]), Apply(cfg, st, a).0;
      && vs[0] == Apply(cfg, st, a).1 && vs[1] == Apply(cfg, mid, b).1
      && vs[2] == Apply(cfg, Apply(cfg, mid, b).0, c).1
  {
    var evs := [a, b, c];
    VerdictAt(cfg, st, evs, 0);
    VerdictAt(cfg, st, evs, 1);
    VerdictAt(cfg, st, evs, 2);
    FinalStep(cfg, st, evs, 0);
    FinalStep(cfg, st, evs, 1);
    hide Apply, Verdicts;
    assert evs[..0] == [];
  }

  // ---- A nonce against its envelope -----------------------------------------------------

  /** A run without restarts from an empty guard, whose two checks read the same clock, which never
      goes back, and whose accepted nonces the capacity holds. */
  ghost predicate Steady(cfg: Config, st: State, evs: seq<Event>) {
    && st.order == [] && (forall k :: 0 <= k < |evs| ==> !evs[k].Restart?)
    && GuardClockNeverGoesBack(evs)
    && (forall k :: 0 <= k < |evs| && evs[k].Arrive? ==> evs[k].clock.atGuard == evs[k].clock.atCheck)
    && ReplayHistory.FitsCapacity(AcceptedRecords(cfg, st, evs), cfg.guardMaxAge, cfg.guardCapacity)
  }

  /** A device's nonce is accepted a second time while the envelope that carried it first is fresh. */
  ghost predicate RepeatsWhileFresh(cfg: Config, st: State, evs: seq<Event>, i: nat, j: nat) {
    && i < j < |evs| && Accepted(Verdicts(cfg, st, evs)[i]) && Accepted(Verdicts(cfg, st, evs)[j])
    && var e, f := Verdicts(cfg, st, evs)[i].value.value.env, Verdicts(cfg, st, evs)[j].value.value.env;
    && e.deviceId == f.deviceId && e.nonce == f.nonce
    && evs[j].Arrive? && FreshnessFault(cfg, e.notAfter, evs[j].clock.atCheck).None?
  }

  /** What the guard's documentation asks for: no nonce is forgotten while its envelope is fresh. */
  ghost predicate NoncesOutliveTheirEnvelopes(cfg: Config) {
    forall st, evs, i: nat, j: nat :: Steady(cfg, st, evs) ==> !RepeatsWhileFresh(cfg, st, evs, i, j)
  }

  /** A guard whose age exceeds the whole window keeps every nonce long enough. */
  lemma LongAgeSuffices(cfg: Config, st: State, evs: seq<Event>, i: nat, j: nat)
    requires cfg.guardMaxAge > 0 && cfg.guardCapacity > 0 && MIN_INT64 <= cfg.maxAge + cfg.clockSkew < MAX_INT64
    requires cfg.guardMaxAge > cfg.maxAge + 2 * cfg.clockSkew && Steady(cfg, st, evs)
    ensures !RepeatsWhileFresh(cfg, st, evs, i, j)
  {
    hide Verdicts, FreshnessFault, AcceptedRecords, GuardClockNeverGoesBack;
    if RepeatsWhileFresh(cfg, st, evs, i, j) {
      NoncesAreUniqueWithinTheAge(cfg, st, evs, i, j);
      AcceptedWithinWindow(cfg, st, evs, i);
      AcceptedIsSafe(cfg, st, evs, i);
      FreshnessIsTheWindow(cfg, Verdicts(cfg, st, evs)[i].value.value.env.notAfter, evs[j].clock.atCheck);
    }
  }

  lemma AcceptedIsSafe(cfg: Config, st: State, evs: seq<Event>, i: nat)
    requires i < |evs| && Accepted(Verdicts(cfg, st, evs)[i])
    ensures Safe(Verdicts(cfg, st, evs)[i].value.value.env.notAfter)
  {
    AcceptedParses(cfg, st, evs, i);
    VerdictAt(cfg, st, evs, i);
    hide Verdicts;
    AcceptedIsFreshAndSafe(cfg, Final(cfg, st, evs[..i]), evs[i].raw, evs[i].clock);
  }

  /** `e` at the start of its window, and at the end its nonce under the number `seqNo`. */
  ghost function WindowEnds(cfg: Config, st: State, e: Envelope, seqNo: int64): seq<Event>
    requires Signable(st, e) && Safe(seqNo)
  {
    RenumberedIsCanonicalisable(e, seqNo);
    [Arrival(cfg, st, e, Earliest(cfg, e)), Arrival(cfg, st, e.(seqNo := seqNo), Latest(cfg, e))]
  }

  /** A guard whose age does not exceed the window forgets: whatever envelope is in order, its nonce
      is accepted again under a higher number at the end of the same window. */
  lemma ShortAgeForgets(cfg: Config, st: State, e: Envelope, seqNo: int64)
    requires cfg.guardMaxAge > 0 && cfg.guardCapacity > 0 && MIN_INT64 <= cfg.maxAge + cfg.clockSkew < MAX_INT64
    requires cfg.guardMaxAge <= cfg.maxAge + 2 * cfg.clockSkew
    requires st.order == [] && Signable(st, e) && InOrder(st, e) && e.seqNo < seqNo && Safe(seqNo)
    ensures Steady(cfg, st, WindowEnds(cfg, st, e, seqNo))
    ensures RepeatsWhileFresh(cfg, st, WindowEnds(cfg, st, e, seqNo), 0, 1)
  {
    var evs, f := WindowEnds(cfg, st, e, seqNo), e.(seqNo := seqNo);
    BothEndsAreAccepted(cfg, st, e, seqNo);
    EdgesAreFresh(cfg, e);
    TwoVerdicts(cfg, st, evs[0], evs[1]);
    hide Apply, Accepted, Signable, InOrder, SignedDocument, Verdicts, FreshnessFault, Steady;
    TwoAreSteady(cfg, st, evs[0], evs[1]);
    assert Signed(cfg, st, e).nonce == e.nonce && Signed(cfg, st, e).deviceId == e.deviceId;
  }

  lemma BothEndsAreAccepted(cfg: Config, st: State, e: Envelope, seqNo: int64)
    requires cfg.guardMaxAge > 0 && cfg.guardCapacity > 0 && MIN_INT64 <= cfg.maxAge + cfg.clockSkew < MAX_INT64
    requires cfg.guardMaxAge <= cfg.maxAge + 2 * cfg.clockSkew
    requires st.order == [] && Signable(st, e) && InOrder(st, e) && e.seqNo < seqNo && Safe(seqNo)
    ensures var evs := WindowEnds(cfg, st, e, seqNo);
      var (mid, first) := Apply(cfg, st, evs[0]);
      var second := Apply(cfg, mid, evs[1]).1;
      && Accepted(first) && first.value.value.env == Signed(cfg, st, e)
      && Accepted(second) && second.value.value.env.deviceId == e.deviceId && second.value.value.env.nonce == e.nonce
  {
    var evs, f := WindowEnds(cfg, st, e, seqNo), e.(seqNo := seqNo);
    var t, u := Earliest(cfg, e), Latest(cfg, e);
    hide FreshnessFault, EvictExpired, Holds, Canonicalisable, Apply, Arrival, Acceptable, Accepted, SeenStep, InOrder,
      Signed;
    EdgesAreFresh(cfg, e);
    FirstIsAcceptable(cfg, st, e, At(t));
    ArrivalIsAccepted(cfg, st, e, t);
    var mid := Apply(cfg, st, evs[0]).0;
    RenumberedIsCanonicalisable(e, seqNo);
    SameArrival(cfg, st, mid, f, u);
    SecondIsAcceptable(cfg, st, mid, e, seqNo, t, u);
    ArrivalIsAccepted(cfg, mid, f, u);
    SignedKeepsTheNonce(cfg, mid, f);
  }

  lemma FirstIsAcceptable(cfg: Config, st: State, e: Envelope, clock: Readings)
    requires InOrder(st, e) && st.order == [] && FreshnessFault(cfg, e.notAfter, clock.atCheck).None?
    ensures Acceptable(cfg, st, e, clock)
  {
    hide FreshnessFault, InOrder;
    NothingHeld(NonceKey(e.deviceId, e.nonce), clock.atGuard - cfg.guardMaxAge);
  }

  lemma SecondIsAcceptable(cfg: Config, st: State, mid: State, e: Envelope, seqNo: int64, t: int, u: int)
    requires cfg.guardCapacity > 0 && u - t >= cfg.guardMaxAge
    requires st.order == [] && InOrder(st, e) && e.seqNo < seqNo && FreshnessFault(cfg, e.notAfter, u).None?
    requires mid.digest == st.digest && mid.marks == st.marks[e.deviceId := e.seqNo]
    requires mid.order == SeenStep([], NonceKey(e.deviceId, e.nonce), t, cfg.guardMaxAge, cfg.guardCapacity).1
    ensures Acceptable(cfg, mid, e.(seqNo := seqNo), At(u))
  {
    hide FreshnessFault, SeenStep;
    OneIsForgotten(NonceKey(e.deviceId, e.nonce), t, u, cfg.guardMaxAge, cfg.guardCapacity);
    hide Holds, EvictExpired;
  }

  lemma NothingHeld(key: string, cutoff: int)
    ensures !Holds(EvictExpired([], cutoff), key)
  {
  }

  lemma OneIsForgotten(key: string, t: int, u: int, maxAge: int, capacity: int)
    requires capacity > 0 && u - t >= maxAge
    ensures !Holds(EvictExpired(SeenStep([], key, t, maxAge, capacity).1, u - maxAge), key)
  {
    var kept := SeenStep([], key, t, maxAge, capacity).1;
    assert kept == [NonceEntry(key, t)];
  }

  lemma SameArrival(cfg: Config, st: State, other: State, e: Envelope, t: int)
    requires Signable(st, e) && other.keys == st.keys
    ensures Signable(other, e) && Arrival(cfg, other, e, t) == Arrival(cfg, st, e, t)
  {
    SameDocument(cfg, st, other, e);
  }

  lemma SignedKeepsTheNonce(cfg: Config, st: State, e: Envelope)
    requires Signable(st, e)
    ensures Signed(cfg, st, e).deviceId == e.deviceId && Signed(cfg, st, e).nonce == e.nonce
    ensures Signed(cfg, st, e).notAfter == e.notAfter
  {
  }

  /** Two acceptances far enough apart make a steady run, whatever the capacity. */
  lemma TwoAreSteady(cfg: Config, st: State, a: Event, b: Event)
    requires cfg.guardCapacity > 0 && st.order == [] && a.Arrive? && b.Arrive?
    requires a.clock.atGuard == a.clock.atCheck && b.clock.atGuard == b.clock.atCheck
    requires b.clock.atGuard - a.clock.atGuard >= cfg.guardMaxAge > 0
    ensures Steady(cfg, st, [a, b])
  {
    TwoRecords(cfg, st, a, b);
    TwoFit(AcceptedRecords(cfg, st, [a, b]), cfg.guardMaxAge, cfg.guardCapacity);
    TwoInOrder(a, b);
    hide AcceptedRecords, ReplayHistory.FitsCapacity, GuardClockNeverGoesBack;
  }

  lemma TwoInOrder(a: Event, b: Event)
    requires a.Arrive? && b.Arrive? && a.clock.atGuard <= b.clock.atGuard
    ensures GuardClockNeverGoesBack([a, b])
  {
  }

  lemma TwoFit(h: seq<NonceEntry>, maxAge: int, capacity: int)
    requires capacity > 0 && |h| <= 2 && (|h| == 2 ==> h[1].seen - h[0].seen >= maxAge)
    ensures ReplayHistory.FitsCapacity(h, maxAge, capacity)
  {
  }

  lemma TwoRecords(cfg: Config, st: State, a: Event, b: Event)
    requires a.Arrive? && b.Arrive?
    ensures var h := AcceptedRecords(cfg, st, [a, b]);
      && |h| <= 2 && (|h| == 2 ==> h[0].seen == a.clock.atGuard && h[1].seen == b.clock.atGuard)
  {
    hide Apply, Accepted, ParseOf, KeyOf;
    assert [a, b][..1] == [a] && [a][..0] == [];
    assert |AcceptedRecords(cfg, st, [a])| <= 1;
  }

  /** Nonces are remembered as long as their envelopes are fresh exactly when the guard's age exceeds
      the width of the window. */
  lemma NoncesOutliveTheirEnvelopesIff(cfg: Config)
    requires cfg.guardMaxAge > 0 && cfg.guardCapacity > 0 && MIN_INT64 <= cfg.maxAge + cfg.clockSkew < MAX_INT64
    ensures NoncesOutliveTheirEnvelopes(cfg) <==> cfg.guardMaxAge > cfg.maxAge + 2 * cfg.clockSkew
  {
    if cfg.guardMaxAge > cfg.maxAge + 2 * cfg.clockSkew {
      forall st, evs, i: nat, j: nat | Steady(cfg, st, evs)
        ensures !RepeatsWhileFresh(cfg, st, evs, i, j)
      {
        LongAgeSuffices(cfg, st, evs, i, j);
      }
    } else {
      SampleIsInOrder();
      hide Steady, RepeatsWhileFresh;
      ShortAgeForgets(cfg, SAMPLE_STATE, SAMPLE, 2);
    }
  }

  const SAMPLE := Envelope("1", "c", "d", "o", Absent, "", PolicyContext("b", ""), "n", 1, 1, "")
  const SAMPLE_STATE := State(map[], [], map["d" := [1]], "b")

  lemma SampleIsInOrder()
    ensures Signable(SAMPLE_STATE, SAMPLE) && InOrder(SAMPLE_STATE, SAMPLE)
  {
  }

  const DEPLOYED_MAX_AGE: int := 300_000_000_000
  const DEPLOYED_CLOCK_SKEW: int := 60_000_000_000

  /** The agent gives the guard the verifier's own age, so with any tolerance for skew, and at the
      default values in particular, nonces are forgotten too early: after 300 of 420 seconds. */
  lemma DeployedGuardForgets(cfg: Config)
    requires cfg.maxAge == cfg.guardMaxAge == DEPLOYED_MAX_AGE && cfg.clockSkew == DEPLOYED_CLOCK_SKEW
    requires cfg.guardCapacity == 8192
    ensures cfg.maxAge + 2 * cfg.clockSkew == 420_000_000_000
    ensures !NoncesOutliveTheirEnvelopes(cfg)
  {
    hide NoncesOutliveTheirEnvelopes;
    NoncesOutliveTheirEnvelopesIff(cfg);
  }
}
