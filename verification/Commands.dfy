/** What one command does, in terms of the wire names and argument members a sender writes. */
module Commands {
  import opened Wrappers
  import opened Envelope
  import opened Operations
  import opened KeyOrder
  import opened Secrets
  import opened Registry
  import opened Dispatcher

  // ---- The catalogue --------------------------------------------------------------------

  predicate IsOperation(name: string) {
    name in {
      "project.register", "project.unregister", "scan.full", "scan.incremental", "validate.compose", "validate.k8s",
      "validate.tofu", "validate.helm", "validate.yaml", "validate.trivy", "readiness.inventory", "secretscan.run",
      "changeset.apply", "changeset.revert", "git.branch_commit_push", "git.open_pr", "secrets.inject"}
  }

  predicate NeedsApproval(name: string) {
    name in {"changeset.apply", "changeset.revert", "git.branch_commit_push", "git.open_pr", "secrets.inject"}
  }

  /** The catalogue, name by name. */
  lemma CatalogueIs(name: string)
    ensures Lookup("project.register") == Some(ProjectRegister)
    ensures Lookup("project.unregister") == Some(ProjectUnregister)
    ensures Lookup("scan.full") == Some(ScanFull)
    ensures Lookup("scan.incremental") == Some(ScanIncremental)
    ensures Lookup("validate.compose") == Some(ValidateCompose)
    ensures Lookup("validate.k8s") == Some(ValidateK8s)
    ensures Lookup("validate.tofu") == Some(ValidateTofu)
    ensures Lookup("validate.helm") == Some(ValidateHelm)
    ensures Lookup("validate.yaml") == Some(ValidateYAML)
    ensures Lookup("validate.trivy") == Some(ValidateTrivy)
    ensures Lookup("readiness.inventory") == Some(ReadinessInventory)
    ensures Lookup("secretscan.run") == Some(SecretScanRun)
    ensures Lookup("changeset.apply") == Some(ChangeSetApply)
    ensures Lookup("changeset.revert") == Some(ChangeSetRevert)
    ensures Lookup("git.branch_commit_push") == Some(GitBranchCommitPush)
    ensures Lookup("git.open_pr") == Some(GitOpenPR)
    ensures Lookup("secrets.inject") == Some(SecretsInject)
    ensures Lookup(name).Some? <==> IsOperation(name)
  {
    hide Lookup;
    LookupIff("project.register", ProjectRegister);
    LookupIff("project.unregister", ProjectUnregister);
    LookupIff("scan.full", ScanFull);
    LookupIff("scan.incremental", ScanIncremental);
    LookupIff("validate.compose", ValidateCompose);
    LookupIff("validate.k8s", ValidateK8s);
    LookupIff("validate.tofu", ValidateTofu);
    LookupIff("validate.helm", ValidateHelm);
    LookupIff("validate.yaml", ValidateYAML);
    LookupIff("validate.trivy", ValidateTrivy);
    LookupIff("readiness.inventory", ReadinessInventory);
    LookupIff("secretscan.run", SecretScanRun);
    LookupIff("changeset.apply", ChangeSetApply);
    LookupIff("changeset.revert", ChangeSetRevert);
    LookupIff("git.branch_commit_push", GitBranchCommitPush);
    LookupIff("git.open_pr", GitOpenPR);
    LookupIff("secrets.inject", SecretsInject);
    if Lookup(name).Some? {
      LookupIff(name, Lookup(name).value);
    }
  }

  lemma ApprovalIs(name: string)
    requires Lookup(name).Some?
    ensures Row(Lookup(name).value).requiresApproval <==> NeedsApproval(name)
    ensures Row(Lookup(name).value).mutating <==> NeedsApproval(name)
  {
    var op := Lookup(name).value;
    LookupIff(name, op);
    hide Lookup, NeedsApproval, Name;
    if Row(op).mutating {
      MutatingNeedsApproval(op);
    } else {
      ReadingNeedsNone(op);
    }
  }

  lemma MutatingNeedsApproval(op: Op)
    requires Row(op).mutating
    ensures NeedsApproval(Name(op)) && Row(op).requiresApproval
  {
  }

  lemma ReadingNeedsNone(op: Op)
    requires !Row(op).mutating
    ensures !NeedsApproval(Name(op)) && !Row(op).requiresApproval
  {
  }

  /** What is advertised for each operation: whether it mutates and so needs an approval, its bound in
      seconds, and whether it is implemented. */
  lemma AdvertisedIs(w: Wiring, op: Op)
    ensures var info := InfoOf(w, op);
      && info.op == op
      && (info.mutating <==> op in {ChangeSetApply, ChangeSetRevert, GitBranchCommitPush, GitOpenPR, SecretsInject})
      && info.requiresApproval == info.mutating
      && info.timeout == (
        if op in {ProjectRegister, ProjectUnregister, SecretsInject} then 30
        else if op in {ChangeSetApply, ChangeSetRevert} then 120
        else if op in {GitBranchCommitPush, GitOpenPR} then 180
        else if op in {ScanFull, ScanIncremental, ReadinessInventory, SecretScanRun} then 900
        else 300)
      && (info.implemented <==> (op in {ScanFull, ScanIncremental} ==> w.indexer))
  {
  }

  /** The order of the catalogue. */
  lemma CatalogueOrder()
    ensures ALL_OPERATIONS == [
      ProjectRegister, ProjectUnregister, ScanFull, ScanIncremental, ValidateCompose, ValidateK8s, ValidateTofu,
      ValidateHelm, ValidateYAML, ValidateTrivy, ReadinessInventory, SecretScanRun, ChangeSetApply, ChangeSetRevert,
      GitBranchCommitPush, GitOpenPR, SecretsInject]
  {
  }

  // ---- Which commands are refused -------------------------------------------------------

  /** Every command is refused for the first of these reasons, or its body runs. */
  lemma RefusalIs(w: Wiring, c: Command)
    ensures Refusal(w, c)
      == if c.v.None? then Some(ErrNoAuthority)
         else if !IsOperation(c.v.value.env.operation) then Some(ErrUnknownOperation)
         else if NeedsApproval(c.v.value.env.operation) && c.v.value.env.approvalId == "" then Some(ErrApprovalRequired)
         else if w.policy && c.opinion != Decision(Some("allow")) && c.opinion != Decision(Some("require_approval"))
         then Some(ErrPolicyDisagreement)
         else None
  {
    if c.v.Some? {
      CatalogueIs(c.v.value.env.operation);
      hide Lookup, IsOperation, NeedsApproval;
      if Lookup(c.v.value.env.operation).Some? {
        ApprovalIs(c.v.value.env.operation);
      }
    }
  }

  /** A refused command changes nothing and answers with that reason. */
  lemma RefusedAnswers(w: Wiring, st: AgentState, c: Command)
    requires Refusal(w, c).Some?
    ensures ExecuteStep(w, st, c) == (st, Err(Refusal(w, c).value))
  {
  }

  // ---- What the bodies do ---------------------------------------------------------------

  /** The body of the command runs, and the command has that name and those arguments. */
  predicate Asks(w: Wiring, c: Command, name: string, args: RawArgs) {
    Refusal(w, c).None? && c.v.value.env.operation == name && c.v.value.env.args == args
  }

  /** The report of a registration: the project, the workspace, every project served, sorted, and
      whether the set changed. */
  ghost predicate ReportsProjects(w: Wiring, before: AgentState, after: AgentState, p: string, r: Outcome) {
    && r.Ok? && r.value.Registration?
    && r.value.projectId == p && r.value.workspace == w.root
    && StrictlySorted(ByteOrder, r.value.registered)
    && (forall q :: q in r.value.registered <==> q in after.projects)
    && (r.value.changed <==> after.projects != before.projects)
  }

  lemma ListedProjects(projects: set<string>)
    ensures StrictlySorted(ByteOrder, SortedKeys(ByteOrder, projects))
    ensures forall q :: q in SortedKeys(ByteOrder, projects) <==> q in projects
  {
    hide StrictlySorted;
    var listed := SortedKeys(ByteOrder, projects);
    assert forall q :: q in listed <==> q in Elements(listed);
  }

  lemma RunningIs(w: Wiring, st: AgentState, c: Command, name: string, args: RawArgs, op: Op)
    requires Asks(w, c, name, args) && Lookup(name) == Some(op)
    ensures c.v.Some? && c.v.value.env.args == args && ExecuteStep(w, st, c) == Body(w, st, op, c)
  {
    hide Lookup, DecodeProject, DecodeInject, Put, Held;
  }

  /** `project.register` serves the project named by its arguments from then on, and touches nothing
      else; arguments that name none are an error and change nothing. */
  lemma RegisterDoes(w: Wiring, st: AgentState, c: Command, args: RawArgs, p: string)
    requires Asks(w, c, "project.register", args)
    ensures var (next, r) := ExecuteStep(w, st, c);
      && (StatesProject(args, p) ==>
        && next == AgentState(st.projects + {p}, st.secrets) && ReportsProjects(w, st, next, p, r))
      && ((forall q :: !StatesProject(args, q)) ==> next == st && r == Err(ErrFailed))
  {
    CatalogueIs("");
    hide *;
    RunningIs(w, st, c, "project.register", args, ProjectRegister);
    RegisterBody(w, st, c, args);
    DecodeProjectIff(args, p);
    if DecodeProject(args).Ok? {
      DecodeProjectIff(args, DecodeProject(args).value);
    }
  }

  lemma RegisterBody(w: Wiring, st: AgentState, c: Command, args: RawArgs)
    requires c.v.Some? && c.v.value.env.args == args
    ensures DecodeProject(args).Err? ==> Body(w, st, ProjectRegister, c) == (st, Err(DecodeProject(args).error))
    ensures DecodeProject(args).Ok? ==>
      var p, (next, r) := DecodeProject(args).value, Body(w, st, ProjectRegister, c);
      next == AgentState(st.projects + {p}, st.secrets) && ReportsProjects(w, st, next, p, r)
  {
    hide DecodeProject, StrictlySorted;
    if DecodeProject(args).Ok? {
      ListedProjects(st.projects + {DecodeProject(args).value});
    }
  }

  /** `project.unregister` ends serving the project and forgets its secrets, and touches no other. */
  lemma UnregisterDoes(w: Wiring, st: AgentState, c: Command, args: RawArgs, p: string)
    requires Asks(w, c, "project.unregister", args)
    ensures var (next, r) := ExecuteStep(w, st, c);
      && (StatesProject(args, p) ==>
        && next.projects == st.projects - {p} && p !in next.secrets
        && (forall q :: q != p ==> Held(next.secrets, q) == Held(st.secrets, q))
        && ReportsProjects(w, st, next, p, r))
      && ((forall q :: !StatesProject(args, q)) ==> next == st && r == Err(ErrFailed))
  {
    CatalogueIs("");
    hide *;
    RunningIs(w, st, c, "project.unregister", args, ProjectUnregister);
    UnregisterBody(w, st, c, args);
    DecodeProjectIff(args, p);
    if DecodeProject(args).Ok? {
      DecodeProjectIff(args, DecodeProject(args).value);
    }
  }

  lemma UnregisterBody(w: Wiring, st: AgentState, c: Command, args: RawArgs)
    requires c.v.Some? && c.v.value.env.args == args
    ensures DecodeProject(args).Err? ==> Body(w, st, ProjectUnregister, c) == (st, Err(DecodeProject(args).error))
    ensures DecodeProject(args).Ok? ==>
      var p, (next, r) := DecodeProject(args).value, Body(w, st, ProjectUnregister, c);
      && next.projects == st.projects - {p} && p !in next.secrets
      && (forall q :: q != p ==> Held(next.secrets, q) == Held(st.secrets, q))
      && ReportsProjects(w, st, next, p, r)
  {
    hide DecodeProject, StrictlySorted;
    if DecodeProject(args).Ok? {
      ListedProjects(st.projects - {DecodeProject(args).value});
    }
  }

  /** `secrets.inject` writes the stated values over those held for the project, keeps the others and
      every other project, and reports the names injected and those that had a value before. */
  lemma InjectDoes(w: Wiring, st: AgentState, c: Command, args: RawArgs, p: string, values: map<string, string>)
    requires Asks(w, c, "secrets.inject", args)
    ensures var (next, r) := ExecuteStep(w, st, c);
      && (StatesInjection(args, p, values) ==>
        && next.projects == st.projects
        && Held(next.secrets, p).Keys == Held(st.secrets, p).Keys + values.Keys
        && (forall k :: k in Held(next.secrets, p) ==>
          Held(next.secrets, p)[k] == if k in values then values[k] else Held(st.secrets, p)[k])
        && (forall q :: q != p ==> Held(next.secrets, q) == Held(st.secrets, q))
        && ReportsInjection(st, p, values, r))
      && ((forall q, v :: !StatesInjection(args, q, v)) ==> next == st && r == Err(ErrFailed))
  {
    CatalogueIs("");
    hide *;
    RunningIs(w, st, c, "secrets.inject", args, SecretsInject);
    InjectBody(w, st, c, args);
    DecodeInjectIff(args, p, values);
    DecodeInjectFails(args);
    if DecodeInject(args).Ok? {
      DecodeInjectIff(args, DecodeInject(args).value.projectId, DecodeInject(args).value.values);
    }
  }

  lemma InjectBody(w: Wiring, st: AgentState, c: Command, args: RawArgs)
    requires c.v.Some? && c.v.value.env.args == args
    ensures DecodeInject(args).Err? ==> Body(w, st, SecretsInject, c) == (st, Err(DecodeInject(args).error))
    ensures DecodeInject(args).Ok? ==>
      var InjectArgs(p, values) := DecodeInject(args).value;
      var (next, r) := Body(w, st, SecretsInject, c);
      && next.projects == st.projects
      && Held(next.secrets, p).Keys == Held(st.secrets, p).Keys + values.Keys
      && (forall k :: k in Held(next.secrets, p) ==>
        Held(next.secrets, p)[k] == if k in values then values[k] else Held(st.secrets, p)[k])
      && (forall q :: q != p ==> Held(next.secrets, q) == Held(st.secrets, q))
      && ReportsInjection(st, p, values, r)
  {
    hide DecodeInject, StrictlySorted, Put, Held, ReportsInjection;
    if DecodeInject(args).Ok? {
      var a := DecodeInject(args).value;
      PutDoes(st.secrets, a.projectId, a.values);
      InjectionReported(st, a.projectId, a.values);
    }
  }

  lemma PutDoes(s: Store, p: string, values: map<string, string>)
    ensures var next := Put(s, p, values);
      && Held(next, p).Keys == Held(s, p).Keys + values.Keys
      && (forall k :: k in Held(next, p) ==> Held(next, p)[k] == if k in values then values[k] else Held(s, p)[k])
      && (forall q :: q != p ==> Held(next, q) == Held(s, q))
  {
  }

  lemma InjectionReported(st: AgentState, p: string, values: map<string, string>)
    ensures ReportsInjection(st, p, values,
              Ok(Injection(p, SortedKeys(ByteOrder, values.Keys), |values|,
                           SortedKeys(ByteOrder, Held(st.secrets, p).Keys * values.Keys))))
  {
    hide StrictlySorted, Held;
    ListedProjects(values.Keys);
    ListedProjects(Held(st.secrets, p).Keys * values.Keys);
  }

  ghost predicate ReportsInjection(before: AgentState, p: string, values: map<string, string>, r: Outcome) {
    && r.Ok? && r.value.Injection?
    && r.value.projectId == p && r.value.count == |values|
    && StrictlySorted(ByteOrder, r.value.injected) && StrictlySorted(ByteOrder, r.value.replaced)
    && (forall k :: k in r.value.injected <==> k in values)
    && (forall k :: k in r.value.replaced <==> k in values && k in Held(before.secrets, p))
  }

  /** Every other operation leaves registry and secrets alone, and fails by name exactly when its
      collaborator is missing. */
  lemma OthersDo(w: Wiring, st: AgentState, c: Command, name: string, args: RawArgs)
    requires Asks(w, c, name, args)
    requires name !in {"project.register", "project.unregister", "secrets.inject"}
    ensures ExecuteStep(w, st, c).0 == st
    ensures ExecuteStep(w, st, c).1
      == if name in {"scan.full", "scan.incremental"} && !w.indexer then Err(ErrNoIndexer)
         else if name in {"git.branch_commit_push", "git.open_pr"} && !w.git then Err(ErrNoGitClient)
         else c.outside
  {
    RefusalIs(w, c);
    CatalogueIs(name);
    hide *;
    var op := LookedUp(w, c, name, args);
    RunningIs(w, st, c, name, args, op);
    LookupIff(name, op);
    CollaboratorNames(op);
    OtherBody(w, st, op, c);
  }

  lemma LookedUp(w: Wiring, c: Command, name: string, args: RawArgs) returns (op: Op)
    requires Asks(w, c, name, args)
    ensures Lookup(name) == Some(op)
  {
    op := Lookup(name).value;
  }

  lemma CollaboratorNames(op: Op)
    ensures Name(op) in {"scan.full", "scan.incremental"} <==> op in {ScanFull, ScanIncremental}
    ensures Name(op) in {"git.branch_commit_push", "git.open_pr"} <==> op in {GitBranchCommitPush, GitOpenPR}
    ensures Name(op) in {"project.register", "project.unregister", "secrets.inject"}
      <==> op in {ProjectRegister, ProjectUnregister, SecretsInject}
  {
    hide Name;
    CatalogueIs(Name(op));
    LookupIff(Name(op), op);
    hide Lookup;
  }

  lemma OtherBody(w: Wiring, st: AgentState, op: Op, c: Command)
    requires c.v.Some? && op !in {ProjectRegister, ProjectUnregister, SecretsInject}
    ensures Body(w, st, op, c).0 == st
    ensures Body(w, st, op, c).1
      == if op in {ScanFull, ScanIncremental} && !w.indexer then Err(ErrNoIndexer)
         else if op in {GitBranchCommitPush, GitOpenPR} && !w.git then Err(ErrNoGitClient)
         else c.outside
  {
    hide DecodeProject, DecodeInject, Put, Held;
  }

  /** The code reported for each error. */
  lemma CodesAre(e: ExecError)
    ensures Operations.Code(e) == "operation-unknown" <==> e == ErrUnknownOperation
    ensures Operations.Code(e) == "operation-unimplemented" <==> e == ErrUnimplemented
    ensures Operations.Code(e) == "approval-required" <==> e == ErrApprovalRequired
    ensures Operations.Code(e) == "envelope-signature-invalid" <==> e == ErrNoAuthority
    ensures Operations.Code(e) == "envelope-malformed" <==> e == ErrBadArgs
    ensures Operations.Code(e) == "operation-failed"
      <==> e in {ErrPolicyDisagreement, ErrNoGitClient, ErrNoIndexer, ErrFailed}
  {
    CodeLengths();
  }

  lemma CodeLengths()
    ensures |"operation-unknown"| == 17 && |"operation-unimplemented"| == 23 && |"approval-required"| == 17
    ensures |"envelope-signature-invalid"| == 26 && |"envelope-malformed"| == 18 && |"operation-failed"| == 16
    ensures "operation-unknown"[0] != "approval-required"[0]
  {
  }
}
