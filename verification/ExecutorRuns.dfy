/** Whole runs of the executor: what the agent's own policy changes, which bodies run, and what the
    registry and the secret environment hold afterwards. */
module ExecutorRuns {
  import opened Wrappers
  import opened Json
  import opened Envelope
  import opened Operations
  import opened KeyOrder
  import opened Secrets
  import opened Registry
  import opened Dispatcher
  import GoStrings
  import Verify

  ghost function Final(w: Wiring, st: AgentState, cs: seq<Command>): AgentState {
    if cs == [] then st else ExecuteStep(w, Final(w, st, cs[..|cs| - 1]), cs[|cs| - 1]).0
  }

  const EMPTY := AgentState({}, map[])

  // ---- The agent's own policy only narrows ----------------------------------------------

  /** The body of the command runs. */
  predicate Runs(w: Wiring, c: Command) {
    Refusal(w, c).None?
  }

  /** A refused command changes nothing. */
  lemma RefusedChangesNothing(w: Wiring, st: AgentState, c: Command)
    requires !Runs(w, c)
    ensures ExecuteStep(w, st, c).0 == st && ExecuteStep(w, st, c).1.Err?
  {
  }

  /** The code of a refusal names the guard: no verified envelope, a name outside the catalogue, a
      mutation without an approval, and otherwise the agent's own policy. */
  lemma RefusalCode(w: Wiring, c: Command)
    requires !Runs(w, c)
    ensures var code := Operations.Code(Refusal(w, c).value);
      && (code == "envelope-signature-invalid" <==> c.v.None?)
      && (c.v.Some? ==>
        var e := c.v.value.env;
        && (code == "operation-unknown" <==> forall op :: Name(op) != e.operation)
        && (code == "approval-required" <==> exists op :: Name(op) == e.operation && Row(op).mutating && e.approvalId == "")
        && (code == "operation-failed" ==> w.policy && !OpinionAllows(c.opinion)))
      && code in {"envelope-signature-invalid", "operation-unknown", "approval-required", "operation-failed"}
  {
    CodesDiffer();
    if c.v.Some? {
      forall op
        ensures Lookup(c.v.value.env.operation) == Some(op) <==> c.v.value.env.operation == Name(op)
      {
        LookupIff(c.v.value.env.operation, op);
      }
    }
    hide Lookup, Name;
  }

  lemma CodesDiffer()
    ensures |"envelope-signature-invalid"| == 26 && |"operation-unknown"| == 17 && |"approval-required"| == 17
    ensures |"operation-failed"| == 16 && "operation-unknown"[0] != "approval-required"[0]
  {
  }

  /** Wiring an evaluator removes exactly the commands it does not allow, and adds none. */
  lemma PolicyRemovesExactly(w: Wiring, c: Command)
    requires !w.policy
    ensures Runs(w.(policy := true), c) <==> Runs(w, c) && OpinionAllows(c.opinion)
    ensures Runs(w.(policy := true), c) ==>
      forall st :: ExecuteStep(w.(policy := true), st, c) == ExecuteStep(w, st, c)
  {
    hide Lookup, DecodeProject, DecodeInject, Put, Held;
  }

  /** The commands the evaluator allows, in order. */
  function Allowed(cs: seq<Command>): seq<Command> {
    if cs == [] then []
    else Allowed(cs[..|cs| - 1]) + if OpinionAllows(cs[|cs| - 1].opinion) then [cs[|cs| - 1]] else []
  }

  /** The commands of a run whose body runs, each with its outcome, in order. */
  ghost function Executed(w: Wiring, st: AgentState, cs: seq<Command>): seq<(Command, Outcome)> {
    if cs == [] then []
    else
      var init, c := cs[..|cs| - 1], cs[|cs| - 1];
      Executed(w, st, init) + if Runs(w, c) then [(c, ExecuteStep(w, Final(w, st, init), c).1)] else []
  }

  /** For any sequence of commands and any answers of the evaluator, the bodies that run with it,
      their outcomes and the state they leave are those of the run without it over the commands it
      allows. */
  lemma {:induction false} PolicyOnlyNarrows(w: Wiring, st: AgentState, cs: seq<Command>)
    requires !w.policy
    ensures Executed(w.(policy := true), st, cs) == Executed(w, st, Allowed(cs))
    ensures Final(w.(policy := true), st, cs) == Final(w, st, Allowed(cs))
  {
    if cs != [] {
      hide ExecuteStep, Runs, OpinionAllows;
      var p := w.(policy := true);
      var init, c := cs[..|cs| - 1], cs[|cs| - 1];
      PolicyOnlyNarrows(w, st, init);
      PolicyRemovesExactly(w, c);
      var a := Allowed(init);
      var s := Final(p, st, init);
      if !Runs(p, c) {
        RefusedChangesNothing(p, s, c);
      }
      if OpinionAllows(c.opinion) {
        assert (a + [c])[..|a|] == a;
        if !Runs(w, c) {
          RefusedChangesNothing(w, s, c);
        }
      } else {
        assert a + [] == a;
        assert Executed(p, st, init) + [] == Executed(p, st, init);
      }
    }
  }

  /** A body that runs was asked for by its own name and, when an evaluator is wired, was allowed; a
      mutating one also carried an approval. */
  lemma MutatingBodyWasApproved(w: Wiring, c: Command)
    requires Runs(w, c)
    ensures c.v.Some? && c.v.value.env.operation == Name(Running(w, c))
    ensures Row(Running(w, c)).mutating ==> c.v.value.env.approvalId != ""
    ensures w.policy ==> OpinionAllows(c.opinion)
  {
    hide Lookup, Name;
    LookupIff(c.v.value.env.operation, Running(w, c));
  }

  /** The model lets only the three bookkeeping operations change what the agent remembers: that the
      other bodies leave it alone is an assumption about them. */
  lemma OnlyThreeOperationsChangeState(w: Wiring, st: AgentState, c: Command)
    requires ExecuteStep(w, st, c).0 != st
    ensures Runs(w, c)
    ensures Running(w, c) == ProjectRegister || Running(w, c) == ProjectUnregister || Running(w, c) == SecretsInject
  {
    hide Lookup, DecodeProject, DecodeInject, Put, Held;
  }

  // ---- Secrets over runs ----------------------------------------------------------------

  /** A command that was executed as an injection for `p`, with these values. */
  predicate Injects(w: Wiring, c: Command, p: string, values: map<string, string>) {
    && Runs(w, c) && Running(w, c) == SecretsInject
    && DecodeInject(c.v.value.env.args) == Ok(InjectArgs(p, values))
  }

  predicate Unregisters(w: Wiring, c: Command, p: string) {
    && Runs(w, c) && Running(w, c) == ProjectUnregister
    && DecodeProject(c.v.value.env.args) == Ok(p)
  }

  predicate Registers(w: Wiring, c: Command, p: string) {
    && Runs(w, c) && Running(w, c) == ProjectRegister
    && DecodeProject(c.v.value.env.args) == Ok(p)
  }

  /** The command sets variable `name` of project `p` to `x`. */
  ghost predicate Writes(w: Wiring, c: Command, p: string, name: string, x: string) {
    exists values: map<string, string> :: Injects(w, c, p, values) && name in values && values[name] == x
  }

  /** The command overwrites or drops variable `name` of project `p`. */
  ghost predicate Touches(w: Wiring, c: Command, p: string, name: string) {
    Unregisters(w, c, p) || exists x :: Writes(w, c, p, name, x)
  }

  /** Command `j` is the last to touch the variable, and set it to `x`. */
  ghost predicate LastWrite(w: Wiring, cs: seq<Command>, j: nat, p: string, name: string, x: string) {
    && j < |cs| && Writes(w, cs[j], p, name, x)
    && forall k :: j < k < |cs| ==> !Touches(w, cs[k], p, name)
  }

  ghost predicate HasLastWrite(w: Wiring, cs: seq<Command>, p: string, name: string, x: string) {
    exists j: nat :: LastWrite(w, cs, j, p, name, x)
  }

  /** The project holds that value for that variable. */
  predicate Holds(s: Store, p: string, name: string, x: string) {
    name in Held(s, p) && Held(s, p)[name] == x
  }

  /** What one command does to one variable. */
  lemma VariableStep(w: Wiring, st: AgentState, c: Command, p: string, name: string, x: string)
    ensures Holds(ExecuteStep(w, st, c).0.secrets, p, name, x) <==>
      if Touches(w, c, p, name) then Writes(w, c, p, name, x) else Holds(st.secrets, p, name, x)
  {
    hide Lookup, DecodeProject, DecodeInject, Holds;
    if !Runs(w, c) {
      RefusedChangesNothing(w, st, c);
    } else {
      match Running(w, c)
      case SecretsInject => InjectStep(w, st, c, p, name, x);
      case ProjectUnregister => UnregisterStep(w, st, c, p, name, x);
      case _ =>
    }
  }

  lemma InjectStep(w: Wiring, st: AgentState, c: Command, p: string, name: string, x: string)
    requires Runs(w, c) && Running(w, c) == SecretsInject
    ensures Holds(ExecuteStep(w, st, c).0.secrets, p, name, x) <==>
      if Touches(w, c, p, name) then Writes(w, c, p, name, x) else Holds(st.secrets, p, name, x)
  {
    InjectWrites(w, c, p, name, x);
    InjectState(w, st, c);
    hide Runs, Running, DecodeInject, ExecuteStep, Touches, Writes, Holds, Put;
    var decoded := DecodeInject(c.v.value.env.args);
    if decoded.Ok? {
      PutHolds(st.secrets, decoded.value.projectId, decoded.value.values, p, name, x);
    }
  }

  lemma PutHolds(s: Store, q: string, values: map<string, string>, p: string, name: string, x: string)
    ensures Holds(Put(s, q, values), p, name, x) <==>
      if p == q && name in values then values[name] == x else Holds(s, p, name, x)
  {
  }

  lemma InjectState(w: Wiring, st: AgentState, c: Command)
    requires Runs(w, c) && Running(w, c) == SecretsInject
    ensures var decoded := DecodeInject(c.v.value.env.args);
      ExecuteStep(w, st, c).0.secrets
      == if decoded.Err? then st.secrets else Put(st.secrets, decoded.value.projectId, decoded.value.values)
  {
    hide Lookup, DecodeInject, Put, Held;
  }

  /** Which variables an injection touches and what it writes. */
  lemma InjectWrites(w: Wiring, c: Command, p: string, name: string, x: string)
    requires Runs(w, c) && Running(w, c) == SecretsInject
    ensures var decoded := DecodeInject(c.v.value.env.args);
      var hit := decoded.Ok? && decoded.value.projectId == p && name in decoded.value.values;
      (Touches(w, c, p, name) <==> hit) && (Writes(w, c, p, name, x) <==> hit && decoded.value.values[name] == x)
  {
    hide Lookup, DecodeInject;
    var decoded := DecodeInject(c.v.value.env.args);
    if decoded.Ok? && decoded.value.projectId == p && name in decoded.value.values {
      assert Injects(w, c, p, decoded.value.values);
      assert Writes(w, c, p, name, decoded.value.values[name]);
    }
  }

  lemma UnregisterStep(w: Wiring, st: AgentState, c: Command, p: string, name: string, x: string)
    requires Runs(w, c) && Running(w, c) == ProjectUnregister
    ensures Holds(ExecuteStep(w, st, c).0.secrets, p, name, x) <==>
      if Touches(w, c, p, name) then Writes(w, c, p, name, x) else Holds(st.secrets, p, name, x)
  {
    hide Lookup, DecodeProject;
    assert forall y :: !Writes(w, c, p, name, y);
  }

  /** After any run a project holds a value exactly when the last executed command that touched that
      variable, by injecting it or by unregistering the project, set it to that value. In particular
      no other project's commands matter. */
  lemma {:induction false} HeldIsTheLastWrite(w: Wiring, cs: seq<Command>, p: string, name: string, x: string)
    ensures Holds(Final(w, EMPTY, cs).secrets, p, name, x) <==> HasLastWrite(w, cs, p, name, x)
  {
    if cs != [] {
      hide ExecuteStep, Touches, Writes, Holds, HasLastWrite;
      var n := |cs| - 1;
      var init, c := cs[..n], cs[n];
      HeldIsTheLastWrite(w, init, p, name, x);
      VariableStep(w, Final(w, EMPTY, init), c, p, name, x);
      WriteTouches(w, c, p, name, x);
      LastWriteStep(w, cs, p, name, x);
    }
  }

  lemma WriteTouches(w: Wiring, c: Command, p: string, name: string, x: string)
    ensures Writes(w, c, p, name, x) ==> Touches(w, c, p, name)
  {
    hide Writes;
  }

  lemma LastWriteStep(w: Wiring, cs: seq<Command>, p: string, name: string, x: string)
    requires cs != []
    requires Writes(w, cs[|cs| - 1], p, name, x) ==> Touches(w, cs[|cs| - 1], p, name)
    ensures HasLastWrite(w, cs, p, name, x) <==>
      if Touches(w, cs[|cs| - 1], p, name) then Writes(w, cs[|cs| - 1], p, name, x)
      else HasLastWrite(w, cs[..|cs| - 1], p, name, x)
  {
    hide Touches, Writes;
    var n := |cs| - 1;
    var init, c := cs[..n], cs[n];
    if Writes(w, c, p, name, x) {
      assert LastWrite(w, cs, n, p, name, x);
    }
    if j: nat :| LastWrite(w, init, j, p, name, x) && !Touches(w, c, p, name) {
      assert LastWrite(w, cs, j, p, name, x);
    }
    if j: nat :| LastWrite(w, cs, j, p, name, x) {
      if j < n {
        assert LastWrite(w, init, j, p, name, x);
      }
    }
  }

  /** Every variable ever held obeys the rules for names. */
  lemma HeldNamesAreAllowed(w: Wiring, cs: seq<Command>, p: string, name: string)
    requires name in Held(Final(w, EMPTY, cs).secrets, p)
    ensures NameAllowed(name)
  {
    hide NameAllowed, ExecuteStep, DecodeInject;
    var x := Held(Final(w, EMPTY, cs).secrets, p)[name];
    HeldIsTheLastWrite(w, cs, p, name, x);
    var j: nat :| LastWrite(w, cs, j, p, name, x);
    var values: map<string, string> :| Injects(w, cs[j], p, values) && name in values && values[name] == x;
  }

  /** An injection reports its names sorted, and as replaced exactly those that were already held. */
  lemma InjectionReport(w: Wiring, st: AgentState, c: Command, p: string, values: map<string, string>)
    requires Injects(w, c, p, values)
    ensures ExecuteStep(w, st, c).1.Ok? && ExecuteStep(w, st, c).1.value.Injection?
    ensures var report := ExecuteStep(w, st, c).1.value;
      && report.projectId == p && report.count == |report.injected| == |values|
      && StrictlySorted(ByteOrder, report.injected) && StrictlySorted(ByteOrder, report.replaced)
      && (forall name :: name in report.injected <==> name in values)
      && (forall name :: name in report.replaced <==> name in values && name in Held(st.secrets, p))
  {
    hide Lookup, DecodeInject, StrictlySorted;
    SortedSize(ByteOrder, values.Keys);
    var report := ExecuteStep(w, st, c).1.value;
    assert forall name :: name in report.injected <==> name in Elements(report.injected);
    assert forall name :: name in report.replaced <==> name in Elements(report.replaced);
  }

  // ---- The registry over runs -----------------------------------------------------------

  /** Command `j` is the last to register or unregister the project, and registers it. */
  ghost predicate LastRegisters(w: Wiring, cs: seq<Command>, j: nat, p: string) {
    && j < |cs| && Registers(w, cs[j], p)
    && forall k :: j < k < |cs| ==> !Registers(w, cs[k], p) && !Unregisters(w, cs[k], p)
  }

  ghost predicate HasLastRegistration(w: Wiring, cs: seq<Command>, p: string) {
    exists j: nat :: LastRegisters(w, cs, j, p)
  }

  lemma ProjectStep(w: Wiring, st: AgentState, c: Command, p: string)
    ensures p in ExecuteStep(w, st, c).0.projects
      <==> Registers(w, c, p) || (p in st.projects && !Unregisters(w, c, p))
  {
    hide Lookup, DecodeProject, DecodeInject;
  }

  lemma LastRegistrationStep(w: Wiring, cs: seq<Command>, p: string)
    requires cs != []
    ensures HasLastRegistration(w, cs, p) <==>
      Registers(w, cs[|cs| - 1], p)
      || (HasLastRegistration(w, cs[..|cs| - 1], p) && !Unregisters(w, cs[|cs| - 1], p))
  {
    NotBoth(w, cs[|cs| - 1], p);
    hide Registers, Unregisters, HasLastRegistration;
    if Registers(w, cs[|cs| - 1], p) {
      NewRegistrationIsLast(w, cs, p);
    } else {
      OldRegistrationStays(w, cs, p);
    }
  }

  lemma NewRegistrationIsLast(w: Wiring, cs: seq<Command>, p: string)
    requires cs != [] && Registers(w, cs[|cs| - 1], p)
    ensures HasLastRegistration(w, cs, p)
  {
    hide Registers, Unregisters;
    assert LastRegisters(w, cs, |cs| - 1, p);
  }

  lemma OldRegistrationStays(w: Wiring, cs: seq<Command>, p: string)
    requires cs != [] && !Registers(w, cs[|cs| - 1], p)
    ensures HasLastRegistration(w, cs, p)
      <==> HasLastRegistration(w, cs[..|cs| - 1], p) && !Unregisters(w, cs[|cs| - 1], p)
  {
    hide Registers, Unregisters;
    var init := cs[..|cs| - 1];
    if HasLastRegistration(w, cs, p) {
      var j: nat :| LastRegisters(w, cs, j, p);
      assert LastRegisters(w, init, j, p);
    }
    if HasLastRegistration(w, init, p) && !Unregisters(w, cs[|cs| - 1], p) {
      var j: nat :| LastRegisters(w, init, j, p);
      assert LastRegisters(w, cs, j, p);
    }
  }

  /** A project is served exactly when the last executed command about it registered it. */
  lemma {:induction false} ServedIsTheLastRegistration(w: Wiring, cs: seq<Command>, p: string)
    ensures p in Final(w, EMPTY, cs).projects <==> HasLastRegistration(w, cs, p)
  {
    if cs != [] {
      hide ExecuteStep, Registers, Unregisters, HasLastRegistration;
      ServedIsTheLastRegistration(w, cs[..|cs| - 1], p);
      ProjectStep(w, Final(w, EMPTY, cs[..|cs| - 1]), cs[|cs| - 1], p);
      LastRegistrationStep(w, cs, p);
    }
  }

  lemma NotBoth(w: Wiring, c: Command, p: string)
    ensures !(Registers(w, c, p) && Unregisters(w, c, p))
  {
  }

  // ---- What is advertised ---------------------------------------------------------------

  /** The collaborator an operation needs is wired. */
  predicate Wired(w: Wiring, op: Op) {
    match op
    case ScanFull | ScanIncremental => w.indexer
    case GitBranchCommitPush | GitOpenPR => w.git
    case _ => true
  }

  /** A command whose collaborator is missing never succeeds and changes nothing. */
  lemma UnwiredNeverSucceeds(w: Wiring, st: AgentState, c: Command)
    requires Runs(w, c) && !Wired(w, Running(w, c))
    ensures ExecuteStep(w, st, c).0 == st
    ensures ExecuteStep(w, st, c).1
      == Err(if Running(w, c) in {GitBranchCommitPush, GitOpenPR} then ErrNoGitClient else ErrNoIndexer)
  {
    hide Lookup, Refusal;
  }

  /** A run of the operation's body that succeeds. */
  ghost predicate Succeeds(w: Wiring, st: AgentState, c: Command, op: Op) {
    Runs(w, c) && Running(w, c) == op && ExecuteStep(w, st, c).1.Ok?
  }

  /** The operation can run: in some state some command for it succeeds. */
  ghost predicate CanSucceed(w: Wiring, op: Op) {
    exists st, c :: Succeeds(w, st, c, op)
  }

  /** A command that names `op`, carries an approval, is allowed by the evaluator, and has arguments
      that suit every operation of this model. */
  function PlainCommand(op: Op): Command {
    var args := Obj(map["project_id" := Str("p"), "values" := Obj(map["A" := Str("x")])]);
    var env := Envelope("1", "c", "d", Name(op), Decoded(args), "approval", PolicyContext("b", "allow"), "n", 1, 1, "s");
    Command(Some(Verify.Verified(env, 0, "")), Decision(Some("allow")), Ok(Opaque("", "")))
  }

  lemma PlainNames()
    ensures GoStrings.TrimSpace("p") == "p" && GoStrings.TrimSpace("A") == "A" && NameAllowed("A")
  {
    assert GoStrings.ToUpper("A") == "A";
    assert forall k :: k in REFUSED_SECRET_KEYS ==> |k| > 1;
  }

  lemma PlainArgumentsDecode(op: Op)
    ensures var args := PlainCommand(op).v.value.env.args; DecodeProject(args).Ok? && DecodeInject(args).Ok?
  {
    PlainNames();
    hide NameAllowed, GoStrings.TrimSpace, Name;
    var m := PlainCommand(op).v.value.env.args.value.members;
    assert m["project_id"] == Str("p") && m["values"] == Obj(map["A" := Str("x")]);
    var values := m["values"].members;
    assert values.Keys == {"A"} && values["A"] == Str("x");
    var decoded := ValuesField(m, "values").value;
    assert decoded.Keys == {"A"} && decoded["A"] == "x";
  }

  lemma PlainCommandRuns(w: Wiring, op: Op)
    ensures Runs(w, PlainCommand(op)) && Running(w, PlainCommand(op)) == op
  {
    LookupIff(Name(op), op);
    hide Lookup, Name;
  }

  lemma WiredSucceeds(w: Wiring, st: AgentState, op: Op)
    requires Wired(w, op)
    ensures Succeeds(w, st, PlainCommand(op), op)
  {
    PlainCommandRuns(w, op);
    PlainArgumentsDecode(op);
    hide DecodeProject, DecodeInject, Running, Refusal, Put, Held, Name;
  }

  /** An operation can run exactly when its collaborator is wired. So what is advertised as
      implemented is what can run, except for the two forge operations of an agent without a git
      client: those are advertised and cannot run. */
  lemma AdvertisedIsRunnableIff(w: Wiring, op: Op)
    ensures CanSucceed(w, op) <==> Wired(w, op)
    ensures (Implemented(w, op) <==> CanSucceed(w, op)) <==> w.git || op !in {GitBranchCommitPush, GitOpenPR}
    ensures CanSucceed(w, op) ==> Implemented(w, op)
  {
    if Wired(w, op) {
      WiredSucceeds(w, EMPTY, op);
    } else {
      forall st, c
        ensures !Succeeds(w, st, c, op)
      {
        if Succeeds(w, st, c, op) {
          UnwiredNeverSucceeds(w, st, c);
        }
      }
    }
  }

  /** The failing calls: without a git client both forge operations are advertised, and every command
      for them that passes the guards is refused by name; such commands exist. */
  lemma UnwiredForgeIsAdvertisedAndRefused(w: Wiring, op: Op)
    requires !w.git && op in {GitBranchCommitPush, GitOpenPR}
    ensures Implemented(w, op)
    ensures exists c :: Runs(w, c) && Running(w, c) == op
    ensures forall st, c :: Runs(w, c) && Running(w, c) == op ==> ExecuteStep(w, st, c) == (st, Err(ErrNoGitClient))
  {
    PlainCommandRuns(w, op);
    forall st, c | Runs(w, c) && Running(w, c) == op
      ensures ExecuteStep(w, st, c) == (st, Err(ErrNoGitClient))
    {
      UnwiredNeverSucceeds(w, st, c);
    }
  }
}
