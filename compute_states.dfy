/**
 * The instance record the compute manager reads from and writes to its
 * database, reduced to the fields its decisions use.  The power, VM and task
 * state constants are only distinguished where the code compares with them.
 */
module ComputeStates {
  import opened Wrappers

  /** `power_state`: `NOSTATE`, `RUNNING`, and the hypervisor's other codes. */
  datatype PowerState = NoState | Running | OtherPowerState(code: nat)

  /** `vm_states`: the ones the code sets or tests, and any other. */
  datatype VmState = Active | Error | SoftDelete | Deleted | OtherVmState(name: string)

  /** `task_states`: the ones the code sets, and any other. */
  datatype TaskState = ImageSnapshot | ImageBackup | OtherTaskState(name: string)

  type InstanceId = nat

  /** A row of the instances table; `deletedAt` is a time in seconds. */
  datatype Instance = Instance(
    id: InstanceId,
    name: string,
    host: string,
    powerState: PowerState,
    vmState: VmState,
    taskState: Option<TaskState>,
    deletedAt: int,
    locked: bool)
}
