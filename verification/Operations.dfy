/** The closed catalogue of operations and what each requires. */
module Operations {
  import opened Wrappers

  datatype ExecError =
    | ErrUnknownOperation
    | ErrApprovalRequired
    | ErrUnimplemented
    | ErrNoAuthority
    | ErrBadArgs
    | ErrPolicyDisagreement
    | ErrNoGitClient
    | ErrNoIndexer
    | ErrFailed

  /** The `agent.error` suffix of an error. */
  function Code(e: ExecError): string {
    match e
    case ErrUnknownOperation => "operation-unknown"
    case ErrUnimplemented => "operation-unimplemented"
    case ErrApprovalRequired => "approval-required"
    case ErrNoAuthority => "envelope-signature-invalid"
    case ErrBadArgs => "envelope-malformed"
    case _ => "operation-failed"
  }

  datatype Op =
    | ProjectRegister | ProjectUnregister
    | ScanFull | ScanIncremental
    | ValidateCompose | ValidateK8s | ValidateTofu | ValidateHelm | ValidateYAML | ValidateTrivy
    | ReadinessInventory | SecretScanRun
    | ChangeSetApply | ChangeSetRevert | GitBranchCommitPush | GitOpenPR | SecretsInject

  const ALL_OPERATIONS: seq<Op> := [
    ProjectRegister, ProjectUnregister,
    ScanFull, ScanIncremental,
    ValidateCompose, ValidateK8s, ValidateTofu, ValidateHelm, ValidateYAML, ValidateTrivy,
    ReadinessInventory, SecretScanRun,
    ChangeSetApply, ChangeSetRevert, GitBranchCommitPush, GitOpenPR, SecretsInject]

  /** The wire name of an operation. */
  function Name(op: Op): string {
    match op
    case ProjectRegister => "project.register"
    case ProjectUnregister => "project.unregister"
    case ScanFull => "scan.full"
    case ScanIncremental => "scan.incremental"
    case ValidateCompose => "validate.compose"
    case ValidateK8s => "validate.k8s"
    case ValidateTofu => "validate.tofu"
    case ValidateHelm => "validate.helm"
    case ValidateYAML => "validate.yaml"
    case ValidateTrivy => "validate.trivy"
    case ReadinessInventory => "readiness.inventory"
    case SecretScanRun => "secretscan.run"
    case ChangeSetApply => "changeset.apply"
    case ChangeSetRevert => "changeset.revert"
    case GitBranchCommitPush => "git.branch_commit_push"
    case GitOpenPR => "git.open_pr"
    case SecretsInject => "secrets.inject"
  }

  function LookupFrom(name: string, ops: seq<Op>): Option<Op> {
    if ops == [] then None else if Name(ops[0]) == name then Some(ops[0]) else LookupFrom(name, ops[1..])
  }

  /** The row key a wire name selects, if any. */
  function Lookup(name: string): Option<Op> {
    LookupFrom(name, ALL_OPERATIONS)
  }

  const TIMEOUT_WRITE := 120
  const TIMEOUT_SCAN := 900
  const TIMEOUT_VALIDATE := 300
  const TIMEOUT_NETWORK := 180
  const TIMEOUT_QUICK := 30

  datatype Entry = Entry(mutating: bool, requiresApproval: bool, timeout: int, implemented: bool)

  /** The dispatch table. */
  function Row(op: Op): Entry {
    match op
    case ProjectRegister | ProjectUnregister => Entry(false, false, TIMEOUT_QUICK, true)
    case ScanFull | ScanIncremental => Entry(false, false, TIMEOUT_SCAN, false)
    case ValidateCompose | ValidateK8s | ValidateTofu | ValidateHelm | ValidateYAML | ValidateTrivy =>
      Entry(false, false, TIMEOUT_VALIDATE, true)
    case ReadinessInventory | SecretScanRun => Entry(false, false, TIMEOUT_SCAN, true)
    case ChangeSetApply | ChangeSetRevert => Entry(true, true, TIMEOUT_WRITE, true)
    case GitBranchCommitPush | GitOpenPR => Entry(true, true, TIMEOUT_NETWORK, true)
    case SecretsInject => Entry(true, true, TIMEOUT_QUICK, true)
  }

  lemma {:induction false} LookupFromFinds(name: string, ops: seq<Op>, i: nat)
    requires i < |ops| && Name(ops[i]) == name
    ensures LookupFrom(name, ops).Some?
  {
    hide Name;
    if Name(ops[0]) != name {
      LookupFromFinds(name, ops[1..], i - 1);
    }
  }

  lemma {:induction false} LookupFromIsNamed(name: string, ops: seq<Op>)
    ensures LookupFrom(name, ops).Some? ==> Name(LookupFrom(name, ops).value) == name && LookupFrom(name, ops).value in ops
  {
    hide Name;
    if ops != [] {
      LookupFromIsNamed(name, ops[1..]);
    }
  }

  /** Where an operation stands in the catalogue. */
  function Position(op: Op): (i: nat)
    ensures i < |ALL_OPERATIONS| && ALL_OPERATIONS[i] == op
  {
    match op
    case ProjectRegister => 0 case ProjectUnregister => 1
    case ScanFull => 2 case ScanIncremental => 3
    case ValidateCompose => 4 case ValidateK8s => 5 case ValidateTofu => 6
    case ValidateHelm => 7 case ValidateYAML => 8 case ValidateTrivy => 9
    case ReadinessInventory => 10 case SecretScanRun => 11
    case ChangeSetApply => 12 case ChangeSetRevert => 13
    case GitBranchCommitPush => 14 case GitOpenPR => 15 case SecretsInject => 16
  }

  /** The catalogue is closed and its names are unambiguous: a name selects an operation exactly when
      it is that operation's name. */
  lemma LookupIff(name: string, op: Op)
    ensures Lookup(name) == Some(op) <==> name == Name(op)
  {
    LookupFromIsNamed(name, ALL_OPERATIONS);
    LookupFromFinds(Name(op), ALL_OPERATIONS, Position(op));
    LookupFromIsNamed(Name(op), ALL_OPERATIONS);
    NamesDiffer(op, Lookup(Name(op)).value);
  }

  lemma NamesDiffer(a: Op, b: Op)
    requires Name(a) == Name(b)
    ensures a == b
  {
    if |Name(a)| == |Name(b)| {
      assert Name(a)[0] == Name(b)[0];
      assert Name(a)[|Name(a)| - 1] == Name(b)[|Name(b)| - 1];
      assert Name(a)[|Name(a)| - 2] == Name(b)[|Name(b)| - 2];
    }
  }
}
