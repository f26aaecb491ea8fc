/** Executing one verified command: the guards in order, then the body. */
module Dispatcher {
  import opened Wrappers
  import opened Envelope
  import opened Operations
  import opened KeyOrder
  import opened KeySort
  import opened Secrets
  import opened Registry
  import Verify

  // ---- Commands and results -------------------------------------------------------------

  /** What the agent's own evaluator answers: a failure, or a decision document whose `result`
      member may be missing. */
  datatype Opinion = NoEvaluation | Decision(verdict: Option<string>)

  datatype Output =
    | Registration(projectId: string, workspace: string, registered: seq<string>, changed: bool)
    | Injection(projectId: string, injected: seq<string>, count: int, replaced: seq<string>)
    | Opaque(status: string, text: string)

  type Outcome = Result<Output, ExecError>

  /** A command: the verified envelope (or none), the evaluator's answer to it, and what the parts of
      its body that lie outside this model answer. */
  datatype Command = Command(v: Option<Verify.Verified>, opinion: Opinion, outside: Outcome)

  /** Which collaborators are wired, and the workspace root. */
  datatype Wiring = Wiring(root: string, policy: bool, git: bool, indexer: bool)

  datatype AgentState = AgentState(projects: set<string>, secrets: Store)

  // ---- The guards -----------------------------------------------------------------------

  predicate OpinionAllows(opinion: Opinion) {
    opinion == Decision(Some("allow")) || opinion == Decision(Some("require_approval"))
  }

  /** `evaluateIndependently`: without an evaluator there is nothing to disagree with; with one,
      only the two permissive verdicts let a command pass. */
  function PolicyFault(w: Wiring, opinion: Opinion): Option<ExecError> {
    if !w.policy then None
    else
      match opinion
      case NoEvaluation => Some(ErrPolicyDisagreement)
      case Decision(verdict) =>
        if verdict == Some("allow") || verdict == Some("require_approval") then None
        else Some(ErrPolicyDisagreement)
  }

  /** The guards of `Execute`, in order; none means the body runs. */
  function Refusal(w: Wiring, c: Command): Option<ExecError> {
    match c.v
    case None => Some(ErrNoAuthority)
    case Some(v) =>
      match Lookup(v.env.operation)
      case None => Some(ErrUnknownOperation)
      case Some(op) =>
        if Row(op).requiresApproval && v.env.approvalId == "" then Some(ErrApprovalRequired)
        else PolicyFault(w, c.opinion)
  }

  /** The operation whose body runs. */
  function Running(w: Wiring, c: Command): Op
    requires Refusal(w, c).None?
  {
    Lookup(c.v.value.env.operation).value
  }

  // ---- The bodies -----------------------------------------------------------------------

  ghost function Body(w: Wiring, st: AgentState, op: Op, c: Command): (AgentState, Outcome)
    requires c.v.Some?
  {
    var args := c.v.value.env.args;
    match op
    case ProjectRegister =>
      (match DecodeProject(args)
       case Err(error) => (st, Err(error))
       case Ok(p) =>
         var projects := st.projects + {p};
         (st.(projects := projects),
          Ok(Registration(p, w.root, SortedKeys(ByteOrder, projects), p !in st.projects))))
    case ProjectUnregister =>
      (match DecodeProject(args)
       case Err(error) => (st, Err(error))
       case Ok(p) =>
         var projects := st.projects - {p};
         (AgentState(projects, st.secrets - {p}),
          Ok(Registration(p, w.root, SortedKeys(ByteOrder, projects), p in st.projects))))
    case SecretsInject =>
      (match DecodeInject(args)
       case Err(error) => (st, Err(error))
       case Ok(a) =>
         (st.(secrets := Put(st.secrets, a.projectId, a.values)),
          Ok(Injection(a.projectId, SortedKeys(ByteOrder, a.values.Keys), |a.values|,
                       SortedKeys(ByteOrder, Held(st.secrets, a.projectId).Keys * a.values.Keys)))))
    case ScanFull | ScanIncremental => (st, if w.indexer then c.outside else Err(ErrNoIndexer))
    case GitBranchCommitPush | GitOpenPR => (st, if w.git then c.outside else Err(ErrNoGitClient))
    case _ => (st, c.outside)
  }

  /** One `Execute` call as a step. */
  ghost function ExecuteStep(w: Wiring, st: AgentState, c: Command): (AgentState, Outcome) {
    var refusal := Refusal(w, c);
    if refusal.Some? then (st, Err(refusal.value)) else Body(w, st, Running(w, c), c)
  }

  // ---- The dispatcher -------------------------------------------------------------------

  datatype OperationInfo = OperationInfo(op: Op, mutating: bool, requiresApproval: bool, timeout: int, implemented: bool)

  /** `implemented`: the two scans depend on the wiring, the rest on the table. */
  function Implemented(w: Wiring, op: Op): bool {
    match op
    case ScanFull | ScanIncremental => w.indexer
    case _ => Row(op).implemented
  }

  function InfoOf(w: Wiring, op: Op): OperationInfo {
    OperationInfo(op, Row(op).mutating, Row(op).requiresApproval, Row(op).timeout, Implemented(w, op))
  }

  class Dispatcher {
    const wiring: Wiring
    const projects: ProjectRegistry
    const secrets: SecretEnvironment

    constructor (wiring: Wiring)
      ensures this.wiring == wiring && fresh(projects) && fresh(secrets)
      ensures Abstract() == AgentState({}, map[])
    {
      this.wiring := wiring;
      this.projects := new ProjectRegistry();
      this.secrets := new SecretEnvironment();
    }

    ghost function Abstract(): AgentState
      reads projects, secrets
    {
      AgentState(projects.known, secrets.byProject)
    }

    /** Runs one command. */
    method Execute(c: Command) returns (r: Outcome)
      modifies projects, secrets
      ensures (Abstract(), r) == ExecuteStep(wiring, old(Abstract()), c)
    {
      hide Lookup, DecodeProject, DecodeInject, Put, Held;
      if c.v.None? {
        return Err(ErrNoAuthority);
      }
      var op := Lookup(c.v.value.env.operation);
      if op.None? {
        return Err(ErrUnknownOperation);
      }
      if Row(op.value).requiresApproval && c.v.value.env.approvalId == "" {
        return Err(ErrApprovalRequired);
      }
      var err := EvaluateIndependently(c.opinion);
      if err.Some? {
        return Err(err.value);
      }
      match op.value
      case ProjectRegister => r := RunRegister(c.v.value.env.args);
      case ProjectUnregister => r := RunUnregister(c.v.value.env.args);
      case SecretsInject => r := RunInject(c.v.value.env.args);
      case ScanFull | ScanIncremental => r := if wiring.indexer then c.outside else Err(ErrNoIndexer);
      case GitBranchCommitPush | GitOpenPR => r := if wiring.git then c.outside else Err(ErrNoGitClient);
      case _ => r := c.outside;
    }

    method EvaluateIndependently(opinion: Opinion) returns (err: Option<ExecError>)
      ensures err == PolicyFault(wiring, opinion)
      ensures err.None? <==> !wiring.policy || OpinionAllows(opinion)
    {
      if !wiring.policy {
        return None;
      }
      if opinion.NoEvaluation? {
        return Some(ErrPolicyDisagreement);
      }
      if opinion.verdict == Some("allow") || opinion.verdict == Some("require_approval") {
        return None;
      }
      err := Some(ErrPolicyDisagreement);
    }

    method RunRegister(args: RawArgs) returns (r: Outcome)
      modifies projects
      ensures DecodeProject(args).Err? ==> r == Err(DecodeProject(args).error) && projects.known == old(projects.known)
      ensures DecodeProject(args).Ok? ==>
        var p := DecodeProject(args).value;
        && projects.known == old(projects.known) + {p}
        && r == Ok(Registration(p, wiring.root, SortedKeys(ByteOrder, projects.known), p !in old(projects.known)))
    {
      var decoded := DecodeProject(args);
      if decoded.Err? {
        return Err(decoded.error);
      }
      var changed := projects.Add(decoded.value);
      var list := projects.List();
      r := Ok(Registration(decoded.value, wiring.root, list, changed));
    }

    method RunUnregister(args: RawArgs) returns (r: Outcome)
      modifies projects, secrets
      ensures DecodeProject(args).Err? ==> r == Err(DecodeProject(args).error) && Abstract() == old(Abstract())
      ensures DecodeProject(args).Ok? ==>
        var p := DecodeProject(args).value;
        && projects.known == old(projects.known) - {p} && secrets.byProject == old(secrets.byProject) - {p}
        && r == Ok(Registration(p, wiring.root, SortedKeys(ByteOrder, projects.known), p in old(projects.known)))
    {
      var decoded := DecodeProject(args);
      if decoded.Err? {
        return Err(decoded.error);
      }
      var changed := projects.Remove(decoded.value);
      secrets.Forget(decoded.value);
      var list := projects.List();
      r := Ok(Registration(decoded.value, wiring.root, list, changed));
    }

    method RunInject(args: RawArgs) returns (r: Outcome)
      modifies secrets
      ensures DecodeInject(args).Err? ==> r == Err(DecodeInject(args).error) && secrets.byProject == old(secrets.byProject)
      ensures DecodeInject(args).Ok? ==>
        var a := DecodeInject(args).value;
        && secrets.byProject == Put(old(secrets.byProject), a.projectId, a.values)
        && r == Ok(Injection(a.projectId, SortedKeys(ByteOrder, a.values.Keys), |a.values|,
                             SortedKeys(ByteOrder, Held(old(secrets.byProject), a.projectId).Keys * a.values.Keys)))
    {
      var decoded := DecodeInject(args);
      if decoded.Err? {
        return Err(decoded.error);
      }
      var a := decoded.value;
      ghost var already := Held(secrets.byProject, a.projectId).Keys * a.values.Keys;
      var names := secrets.PutValues(a.projectId, a.values);
      var keys := KeysInOrder(ByteOrder, a.values.Keys);
      var replaced := SortList(ByteOrder, names, already);
      SortedSize(ByteOrder, a.values.Keys);
      r := Ok(Injection(a.projectId, keys[..], keys.Length, replaced[..]));
    }

    /** The catalogue this agent advertises, in catalogue order. */
    method Operations() returns (infos: seq<OperationInfo>)
      ensures |infos| == |ALL_OPERATIONS|
      ensures forall i :: 0 <= i < |infos| ==> infos[i] == InfoOf(wiring, ALL_OPERATIONS[i])
    {
      infos := [];
      var index := 0;
      while index < |ALL_OPERATIONS|
        invariant index <= |ALL_OPERATIONS| && |infos| == index
        invariant forall i :: 0 <= i < index ==> infos[i] == InfoOf(wiring, ALL_OPERATIONS[i])
      {
        var op := ALL_OPERATIONS[index];
        var row := Row(op);
        infos := infos + [OperationInfo(op, row.mutating, row.requiresApproval, row.timeout, Implemented(wiring, op))];
        index := index + 1;
      }
    }
  }

  lemma {:induction false} StrictlySortedSize(o: Order, q: seq<string>)
    requires StrictlySorted(o, q)
    ensures |q| == |Elements(q)|
  {
    if q != [] {
      TailElements(o, q);
      StrictlySortedSize(o, q[1..]);
      assert q[0] in Elements(q);
      assert Elements(q) == Elements(q[1..]) + {q[0]};
    }
  }

  lemma SortedSize(o: Order, s: set<string>)
    ensures |SortedKeys(o, s)| == |s|
  {
    StrictlySortedSize(o, SortedKeys(o, s));
  }
}
