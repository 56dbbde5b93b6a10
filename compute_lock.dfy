/**
 * The `checks_instance_lock` decorator: a non-admin caller cannot act on a
 * locked instance.  The wrapped method is a function of an abstract state
 * that also returns a value; `get_lock` reads the `locked` column.
 */
module ComputeLock {
  import opened Wrappers
  import opened ComputeStates

  datatype LockError = InstanceNotFound(uuid: string)

  /** `get_lock`: the `locked` column of the instance with this uuid; the
      lookup raises when there is none. */
  function GetLock(db: map<string, Instance>, uuid: string): Result<bool, LockError> {
    if uuid in db then Ok(db[uuid].locked) else Err(InstanceNotFound(uuid))
  }

  /** What the decorated method leaves behind: the state, and what it
      returns, `None` (Python's None) or `Some(false)`. */
  datatype Outcome<S> = Outcome(state: S, returned: Option<bool>)

  function CheckedCall<S, R>(db: map<string, Instance>, uuid: string, isAdmin: bool,
                             action: S -> (S, R), state: S): Result<Outcome<S>, LockError>
  {
    match GetLock(db, uuid)
    case Err(e) => Err(e)
    case Ok(locked) =>
      if isAdmin || !locked then Ok(Outcome(action(state).0, None))
      else Ok(Outcome(state, Some(false)))
  }

  /** The wrapped method runs exactly when the caller is an admin or the
      instance is unlocked; then the decorator returns None whatever the
      method returned, and otherwise it returns False and changes nothing. */
  lemma CheckedCallGate<S, R>(db: map<string, Instance>, uuid: string, isAdmin: bool,
                              action: S -> (S, R), state: S)
    requires uuid in db
    ensures var r := CheckedCall(db, uuid, isAdmin, action, state);
      r.Ok?
      && (r.value.returned == None <==> isAdmin || !db[uuid].locked)
      && (r.value.returned != None ==> r.value.returned == Some(false) && r.value.state == state)
      && (r.value.returned == None ==> r.value.state == action(state).0)
  {
  }

  /** The wrapped method's own result is discarded: two methods with the same
      effect on the state give the same outcome. */
  lemma ResultDiscarded<S, R>(db: map<string, Instance>, uuid: string, isAdmin: bool,
                              f: S -> (S, R), g: S -> (S, R), state: S)
    requires f(state).0 == g(state).0
    ensures CheckedCall(db, uuid, isAdmin, f, state) == CheckedCall(db, uuid, isAdmin, g, state)
  {
  }

  /** An unknown instance raises before anything runs. */
  lemma CheckedCallUnknown<S, R>(db: map<string, Instance>, uuid: string, isAdmin: bool,
                                 action: S -> (S, R), state: S)
    requires uuid !in db
    ensures CheckedCall(db, uuid, isAdmin, action, state) == Err(InstanceNotFound(uuid))
  {
  }
}
