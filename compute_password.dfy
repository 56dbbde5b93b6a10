/**
 * The retry loop of `set_admin_password`: up to ten tries, each re-reading
 * the instance's power state and calling the driver.  The power state read
 * on try `i` and what the driver does on its `i`-th call are parameters;
 * the one-second sleep between tries is not modelled.
 */
module ComputePassword {
  import opened Wrappers
  import opened ComputeStates

  const MAX_TRIES: nat := 10

  /** What `driver.set_admin_password` does: returns, raises
      `NotImplementedError`, or raises anything else. */
  datatype DriverOutcome = PasswordSet | NotImplemented | DriverFailed

  datatype PasswordError =
    | InstanceNotRunning   // Error("Instance is not running")
    | InternalError        // Error("Internal error")

  /** The instance updates the loop issues. */
  datatype PasswordUpdate = ClearTaskState | SetVmError

  /** The error raised, if any, the number of driver calls, and the updates. */
  datatype PasswordRun = PasswordRun(raised: Option<PasswordError>, driverCalls: nat, updates: seq<PasswordUpdate>)

  /** The tries from try `i` on, after `i` tries that reached a failing driver. */
  function Attempts(powerAt: nat -> PowerState, driverAt: nat -> DriverOutcome, i: nat): PasswordRun
    requires i < MAX_TRIES
    decreases MAX_TRIES - i
  {
    if powerAt(i) != Running then PasswordRun(Some(InstanceNotRunning), i, [ClearTaskState])
    else if driverAt(i) != DriverFailed then PasswordRun(None, i + 1, [ClearTaskState])
    else if i == MAX_TRIES - 1 then PasswordRun(Some(InternalError), i + 1, [SetVmError])
    else Attempts(powerAt, driverAt, i + 1)
  }

  /** `set_admin_password` after the lock check and the password choice. */
  method SetAdminPassword(powerAt: nat -> PowerState, driverAt: nat -> DriverOutcome) returns (run: PasswordRun)
    ensures run == Attempts(powerAt, driverAt, 0)
  {
    var driverCalls := 0;
    var i := 0;
    while true
      invariant i < MAX_TRIES && driverCalls == i
      invariant Attempts(powerAt, driverAt, 0) == Attempts(powerAt, driverAt, i)
      decreases MAX_TRIES - i
    {
      if powerAt(i) != Running {
        return PasswordRun(Some(InstanceNotRunning), driverCalls, [ClearTaskState]);
      }
      var outcome := driverAt(i);
      driverCalls := driverCalls + 1;
      if outcome == PasswordSet || outcome == NotImplemented {
        return PasswordRun(None, driverCalls, [ClearTaskState]);
      }
      if i == MAX_TRIES - 1 {
        return PasswordRun(Some(InternalError), driverCalls, [SetVmError]);
      }
      i := i + 1;
    }
  }

  /** The driver is called at most ten times; a try that finds the instance
      not running raises without calling it; every driver call but the last
      failed, so success or `NotImplementedError` ends the loop at that call;
      the instance is put in ERROR, with "Internal error", exactly when every
      one of the ten tries found it running and the driver failed, and
      otherwise only the task state is cleared. */
  lemma {:induction false} AttemptsFacts(powerAt: nat -> PowerState, driverAt: nat -> DriverOutcome, i: nat)
    requires i < MAX_TRIES
    ensures var r := Attempts(powerAt, driverAt, i);
      i <= r.driverCalls <= MAX_TRIES
      && (forall j :: i <= j < r.driverCalls ==> powerAt(j) == Running)
      && (r.raised == Some(InstanceNotRunning) ==> r.driverCalls < MAX_TRIES && powerAt(r.driverCalls) != Running)
      && ((r.raised == Some(InternalError)) <==>
            (forall j :: i <= j < MAX_TRIES ==> powerAt(j) == Running && driverAt(j) == DriverFailed))
      && (r.raised == Some(InternalError) ==> r.driverCalls == MAX_TRIES)
      && (r.updates == [SetVmError] <==> r.raised == Some(InternalError))
      && (r.raised != Some(InternalError) ==> r.updates == [ClearTaskState])
      && (r.raised == None ==> driverAt(r.driverCalls - 1) != DriverFailed)
      && (forall j :: i <= j < r.driverCalls - 1 ==> driverAt(j) == DriverFailed)
      && (r.raised == Some(InstanceNotRunning) ==>
            forall j :: i <= j < r.driverCalls ==> driverAt(j) == DriverFailed)
    decreases MAX_TRIES - i
  {
    if powerAt(i) == Running && driverAt(i) == DriverFailed && i < MAX_TRIES - 1 {
      AttemptsFacts(powerAt, driverAt, i + 1);
    }
  }

  /** The same, for the whole loop. */
  lemma SetAdminPasswordFacts(powerAt: nat -> PowerState, driverAt: nat -> DriverOutcome)
    ensures var r := Attempts(powerAt, driverAt, 0);
      r.driverCalls <= MAX_TRIES
      && (powerAt(0) != Running ==> r == PasswordRun(Some(InstanceNotRunning), 0, [ClearTaskState]))
      && ((r.raised == Some(InternalError)) <==>
            (forall j :: 0 <= j < MAX_TRIES ==> powerAt(j) == Running && driverAt(j) == DriverFailed))
      && (SetVmError in r.updates <==> r.raised == Some(InternalError))
      && (forall j :: 0 <= j < r.driverCalls - 1 ==> driverAt(j) == DriverFailed)
      && (r.raised == None ==> r.driverCalls >= 1 && driverAt(r.driverCalls - 1) != DriverFailed)
      && (r.raised == Some(InstanceNotRunning) ==>
            forall j :: 0 <= j < r.driverCalls ==> driverAt(j) == DriverFailed)
  {
    AttemptsFacts(powerAt, driverAt, 0);
  }
}
