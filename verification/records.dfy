/** The simulation-manager record the daemon keeps a snapshot of, and the
    nine fields the update encoder compares, in the order it compares them. */
module Records {

  /** One simulation job as the management service describes it; every field
      is a string.  `id` names the record in the update URL and is never
      compared. */
  datatype SmRecord = SmRecord(
    id: string,
    state: string,
    resourceStatus: string,
    cmdToExecute: string,
    cmdToExecuteCode: string,
    errorLog: string,
    jobId: string,
    pid: string,
    vmId: string,
    resId: string)

  /** The nine tracked fields. */
  datatype Field =
    | State | ResourceStatus | CmdToExecute | CmdToExecuteCode | ErrorLog
    | JobId | Pid | VmId | ResId

  /** The key under which a field is written in an update. */
  function Name(f: Field): string {
    match f
    case State => "state"
    case ResourceStatus => "resource_status"
    case CmdToExecute => "cmd_to_execute"
    case CmdToExecuteCode => "cmd_to_execute_code"
    case ErrorLog => "error_log"
    case JobId => "job_id"
    case Pid => "pid"
    case VmId => "vm_id"
    case ResId => "res_id"
  }

  /** The value of a tracked field in a record. */
  function Get(r: SmRecord, f: Field): string {
    match f
    case State => r.state
    case ResourceStatus => r.resourceStatus
    case CmdToExecute => r.cmdToExecute
    case CmdToExecuteCode => r.cmdToExecuteCode
    case ErrorLog => r.errorLog
    case JobId => r.jobId
    case Pid => r.pid
    case VmId => r.vmId
    case ResId => r.resId
  }

  /** The order in which the encoder visits the fields. */
  const FieldOrder: seq<Field> :=
    [State, ResourceStatus, CmdToExecute, CmdToExecuteCode, ErrorLog, JobId, Pid, VmId, ResId]

  /** Position of a field in `FieldOrder`. */
  function Rank(f: Field): (k: nat)
    ensures k < |FieldOrder| && FieldOrder[k] == f
  {
    match f
    case State => 0
    case ResourceStatus => 1
    case CmdToExecute => 2
    case CmdToExecuteCode => 3
    case ErrorLog => 4
    case JobId => 5
    case Pid => 6
    case VmId => 7
    case ResId => 8
  }

  /** Every field is visited exactly once, and distinct fields are written
      under distinct keys. */
  lemma FieldOrderComplete()
    ensures forall f: Field :: f in FieldOrder
    ensures forall i, j :: 0 <= i < j < |FieldOrder| ==> FieldOrder[i] != FieldOrder[j]
    ensures forall f, g: Field :: f != g ==> Name(f) != Name(g)
  {
    forall f: Field ensures f in FieldOrder {
      assert FieldOrder[Rank(f)] == f;
    }
  }

  /** Records that agree on all nine tracked fields (whatever their ids). */
  predicate SameTracked(a: SmRecord, b: SmRecord) {
    forall f: Field :: Get(a, f) == Get(b, f)
  }
}
