/** Verifier and executor together: whole runs of an agent, where only what the verifier accepted
    reaches the executor, and a restart forgets the state of both. */
module AgentRuns {
  import opened Wrappers
  import opened Parse
  import opened Verify
  import opened Operations
  import opened Secrets
  import opened Dispatcher
  import Base64Url
  import Domain
  import VerifyRuns
  import ExecutorRuns

  /** What happens at the verifier, whether the session would hand an accepted envelope on (not when
      it is an approval response, or when the agent's bundle is stale), the answer the evaluator would
      give, and the result of the parts of the body outside this model. */
  datatype Event = Event(at: VerifyRuns.Event, dispatched: bool, opinion: Opinion, outside: Outcome)

  datatype Agent = Agent(verifier: State, executor: AgentState)

  /** The command an event makes, if the verifier accepts and the session hands it on. */
  ghost function CommandOf(cfg: Config, st: State, ev: Event): Option<Command> {
    var verdict := VerifyRuns.Apply(cfg, st, ev.at).1;
    if VerifyRuns.Accepted(verdict) && ev.dispatched then Some(Command(Some(verdict.value.value), ev.opinion, ev.outside))
    else None
  }

  ghost function Step(cfg: Config, w: Wiring, s: Agent, ev: Event): Agent {
    var next := VerifyRuns.Apply(cfg, s.verifier, ev.at).0;
    if ev.at.Restart? then Agent(next, ExecutorRuns.EMPTY)
    else
      match CommandOf(cfg, s.verifier, ev)
      case None => Agent(next, s.executor)
      case Some(c) => Agent(next, ExecuteStep(w, s.executor, c).0)
  }

  ghost function Final(cfg: Config, w: Wiring, s: Agent, evs: seq<Event>): Agent {
    if evs == [] then s else Step(cfg, w, Final(cfg, w, s, evs[..|evs| - 1]), evs[|evs| - 1])
  }

  /** The run as the verifier sees it. */
  function Frames(evs: seq<Event>): seq<VerifyRuns.Event> {
    seq(|evs|, i requires 0 <= i < |evs| => evs[i].at)
  }

  /** The commands handed to the executor since the last restart. */
  ghost function Commands(cfg: Config, st: State, evs: seq<Event>): seq<Command> {
    if evs == [] then []
    else
      var init, ev := evs[..|evs| - 1], evs[|evs| - 1];
      if ev.at.Restart? then []
      else
        match CommandOf(cfg, VerifyRuns.Final(cfg, st, Frames(init)), ev)
        case None => Commands(cfg, st, init)
        case Some(c) => Commands(cfg, st, init) + [c]
  }

  lemma FramesInit(evs: seq<Event>)
    requires evs != []
    ensures Frames(evs)[..|evs| - 1] == Frames(evs[..|evs| - 1])
  {
  }

  /** The verifier's part of a run is a run of the verifier, and the executor's part is a run of the
      executor over the commands handed on since the last restart. */
  lemma {:induction false} RunSplits(cfg: Config, w: Wiring, st: State, evs: seq<Event>)
    ensures var end := Final(cfg, w, Agent(st, ExecutorRuns.EMPTY), evs);
      && end.verifier == VerifyRuns.Final(cfg, st, Frames(evs))
      && end.executor == ExecutorRuns.Final(w, ExecutorRuns.EMPTY, Commands(cfg, st, evs))
  {
    if evs != [] {
      var init, ev := evs[..|evs| - 1], evs[|evs| - 1];
      RunSplits(cfg, w, st, init);
      FramesInit(evs);
      hide VerifyRuns.Apply, CommandOf, ExecuteStep;
      var cs := Commands(cfg, st, init);
      var made := CommandOf(cfg, VerifyRuns.Final(cfg, st, Frames(init)), ev);
      if !ev.at.Restart? && made.Some? {
        assert (cs + [made.value])[..|cs|] == cs;
      }
    }
  }

  // ---- Which bodies run -----------------------------------------------------------------

  /** The verifier's state when the `i`-th event happens. */
  ghost function Before(cfg: Config, st: State, evs: seq<Event>, i: nat): State
    requires i <= |evs|
  {
    VerifyRuns.Final(cfg, st, Frames(evs[..i]))
  }

  /** The `i`-th event makes the command `c`, whose body runs. */
  ghost predicate BodyRuns(cfg: Config, w: Wiring, st: State, evs: seq<Event>, i: nat, c: Command) {
    && i < |evs| && CommandOf(cfg, Before(cfg, st, evs, i), evs[i]) == Some(c) && ExecutorRuns.Runs(w, c)
  }

  /** The arriving envelope carries the text `Sign` makes for it with the device's key at that time,
      names the bundle loaded then, and lies in its window. */
  ghost predicate Authentic(cfg: Config, st: State, at: VerifyRuns.Event) {
    && at.Arrive? && ParseOf(at.raw).Ok?
    && var e := ParseOf(at.raw).value;
    && e.deviceId in st.keys && st.keys[e.deviceId] != []
    && var signature := Domain.SignatureOf(cfg.crypto, cfg.domainPrefix, e, st.keys[e.deviceId]);
    && signature == Ok(Base64Url.TrimRight(e.signature))
    && st.digest == e.policyContext.bundleDigest
    && FreshnessFault(cfg, e.notAfter, at.clock.atCheck).None?
  }

  lemma AcceptedIsAuthentic(cfg: Config, st: State, at: VerifyRuns.Event)
    requires VerifyRuns.Accepted(VerifyRuns.Apply(cfg, st, at).1)
    ensures Authentic(cfg, st, at) && ParseOf(at.raw) == Ok(VerifyRuns.Apply(cfg, st, at).1.value.value.env)
  {
    assert at.Arrive?;
    AcceptsIff(cfg, st, at.raw, at.clock);
    AcceptedResult(cfg, st, at.raw, at.clock);
    hide VerifyStep, ParseOf, FreshnessFault, SignatureCheck, Domain.SignatureOf, Base64Url.TrimRight;
  }

  /** Whatever the traffic, clocks, keys, bundles and restarts: a body that runs was asked for, by its
      own name, by an arriving envelope that is authentic; a mutating one also carried an approval, and
      the agent's own evaluator, when wired, allowed it. */
  lemma EveryBodyWasSignedFor(cfg: Config, w: Wiring, st: State, evs: seq<Event>, i: nat, c: Command)
    requires BodyRuns(cfg, w, st, evs, i, c)
    ensures Authentic(cfg, Before(cfg, st, evs, i), evs[i].at)
    ensures c.v.Some? && ParseOf(evs[i].at.raw) == Ok(c.v.value.env)
    ensures c.v.value.env.operation == Name(Running(w, c))
    ensures Row(Running(w, c)).mutating ==> c.v.value.env.approvalId != ""
    ensures w.policy ==> OpinionAllows(evs[i].opinion)
  {
    CommandIsVerified(cfg, Before(cfg, st, evs, i), evs[i], c);
    hide CommandOf, ExecutorRuns.Runs, Authentic, ParseOf, VerifyRuns.Apply, VerifyRuns.Accepted, Running,
      OpinionAllows, Before;
    AcceptedIsAuthentic(cfg, Before(cfg, st, evs, i), evs[i].at);
    ExecutorRuns.MutatingBodyWasApproved(w, c);
  }

  lemma CommandIsVerified(cfg: Config, st: State, ev: Event, c: Command)
    requires CommandOf(cfg, st, ev) == Some(c)
    ensures VerifyRuns.Accepted(VerifyRuns.Apply(cfg, st, ev.at).1) && ev.dispatched
    ensures c == Command(Some(VerifyRuns.Apply(cfg, st, ev.at).1.value.value), ev.opinion, ev.outside)
  {
    hide VerifyRuns.Apply;
  }

  lemma BeforeIsPrefix(cfg: Config, st: State, evs: seq<Event>, i: nat)
    requires i < |evs|
    ensures Frames(evs)[..i] == Frames(evs[..i]) && Frames(evs)[i] == evs[i].at
    ensures VerifyRuns.Verdicts(cfg, st, Frames(evs))[i] == VerifyRuns.Apply(cfg, Before(cfg, st, evs, i), evs[i].at).1
  {
    VerifyRuns.VerdictAt(cfg, st, Frames(evs), i);
    hide VerifyRuns.Apply, VerifyRuns.Verdicts, VerifyRuns.Final;
    assert Frames(evs)[..i] == Frames(evs[..i]);
  }

  /** Between restarts no number of a device drives two bodies; the later one has the higher number. */
  lemma OneBodyPerNumber(cfg: Config, w: Wiring, st: State, evs: seq<Event>, i: nat, c: Command, j: nat, d: Command)
    requires VerifyRuns.PositiveMarks(st) && i < j
    requires BodyRuns(cfg, w, st, evs, i, c) && BodyRuns(cfg, w, st, evs, j, d)
    requires forall k :: i < k < j ==> !evs[k].at.Restart?
    ensures c.v.Some? && d.v.Some?
    ensures c.v.value.env.deviceId == d.v.value.env.deviceId ==> c.v.value.env.seqNo < d.v.value.env.seqNo
  {
    BeforeIsPrefix(cfg, st, evs, i);
    BeforeIsPrefix(cfg, st, evs, j);
    hide VerifyRuns.Apply, VerifyRuns.Verdicts, ExecutorRuns.Runs, Before;
    if c.v.value.env.deviceId == d.v.value.env.deviceId {
      VerifyRuns.AcceptedNumbersIncrease(cfg, st, Frames(evs), i, j);
    }
  }

  // ---- Where a secret comes from --------------------------------------------------------

  /** The event that made a command still in force. */
  ghost predicate Made(cfg: Config, st: State, evs: seq<Event>, i: nat, c: Command) {
    && i < |evs| && CommandOf(cfg, Before(cfg, st, evs, i), evs[i]) == Some(c)
    && forall k :: i < k < |evs| ==> !evs[k].at.Restart?
  }

  lemma {:induction false} CommandIsMade(cfg: Config, st: State, evs: seq<Event>, c: Command) returns (i: nat)
    requires c in Commands(cfg, st, evs)
    ensures Made(cfg, st, evs, i, c)
  {
    hide CommandOf;
    var n := |evs| - 1;
    var init := evs[..n];
    if c in Commands(cfg, st, init) {
      i := CommandIsMade(cfg, st, init, c);
      assert init[..i] == evs[..i] && init[i] == evs[i];
      assert forall k :: 0 <= k < n ==> init[k] == evs[k];
    } else {
      i := n;
    }
  }

  /** Whatever an agent holds for a variable was put there, since the last restart, by an authentic
      envelope that named the injection, carried an approval and stated that value for that project. */
  lemma HeldSecretWasSignedFor(cfg: Config, w: Wiring, st: State, evs: seq<Event>, p: string, name: string, x: string)
    returns (i: nat)
    requires ExecutorRuns.Holds(Final(cfg, w, Agent(st, ExecutorRuns.EMPTY), evs).executor.secrets, p, name, x)
    ensures i < |evs| && Authentic(cfg, Before(cfg, st, evs, i), evs[i].at)
    ensures forall k :: i < k < |evs| ==> !evs[k].at.Restart?
    ensures var e := ParseOf(evs[i].at.raw).value;
      && e.operation == Name(SecretsInject) && e.approvalId != ""
      && exists values: map<string, string> :: StatesInjection(e.args, p, values) && name in values && values[name] == x
  {
    var cs := Commands(cfg, st, evs);
    RunSplits(cfg, w, st, evs);
    hide *;
    ExecutorRuns.HeldIsTheLastWrite(w, cs, p, name, x);
    var c, values := LastInjection(w, cs, p, name, x);
    i := CommandIsMade(cfg, st, evs, c);
    InjectionWasSignedFor(cfg, w, st, evs, i, c, p, values);
  }

  lemma LastInjection(w: Wiring, cs: seq<Command>, p: string, name: string, x: string)
    returns (c: Command, values: map<string, string>)
    requires ExecutorRuns.HasLastWrite(w, cs, p, name, x)
    ensures c in cs && ExecutorRuns.Injects(w, c, p, values) && name in values && values[name] == x
  {
    hide ExecutorRuns.Injects, ExecutorRuns.Touches;
    var j: nat :| ExecutorRuns.LastWrite(w, cs, j, p, name, x);
    c := cs[j];
    values :| ExecutorRuns.Injects(w, c, p, values) && name in values && values[name] == x;
  }

  lemma InjectionWasSignedFor(cfg: Config, w: Wiring, st: State, evs: seq<Event>, i: nat, c: Command, p: string,
                              values: map<string, string>)
    requires Made(cfg, st, evs, i, c) && ExecutorRuns.Injects(w, c, p, values)
    ensures i < |evs| && Authentic(cfg, Before(cfg, st, evs, i), evs[i].at)
    ensures forall k :: i < k < |evs| ==> !evs[k].at.Restart?
    ensures var e := ParseOf(evs[i].at.raw).value;
      && e.operation == Name(SecretsInject) && e.approvalId != ""
      && StatesInjection(e.args, p, values)
  {
    hide CommandOf, Authentic, ParseOf, Before, DecodeInject, StatesInjection, ExecutorRuns.Runs, Running, NameAllowed, Name;
    EveryBodyWasSignedFor(cfg, w, st, evs, i, c);
    DecodeInjectIff(c.v.value.env.args, p, values);
  }
}
