/**
 * The "poetry.lock is not found / out of date" notification shown when a
 * module's `pyproject.toml` changes, and the per-module flag that keeps a
 * second one from appearing while the first is shown.
 */
module LockNotification {
  import opened Wrappers

  /** The notification title: `poetry.lock is not found` without a lock file, `poetry.lock is out of date` with one. */
  function LockTitle(lockPresent: bool): (r: string)
    ensures r == "poetry.lock is not found" <==> !lockPresent
    ensures r == "poetry.lock is out of date" <==> lockPresent
  {
    "poetry.lock is " + (if lockPresent then "out of date" else "not found")
  }

  /** The notification body, with its two links. */
  const LockContent := "Run <a href='#lock'>poetry lock</a> or <a href='#update'>poetry update</a>"

  /** The command a link runs in the background and the task title shown, or nothing for an unknown link. */
  function LinkAction(description: string): (r: Option<(seq<string>, string)>)
    ensures r.Some? <==> description == "#lock" || description == "#update"
    ensures description == "#lock" ==> r == Some((["lock"], "Locking poetry.lock"))
    ensures description == "#update" ==> r == Some((["update"], "Updating Poetry environment"))
  {
    if description == "#lock" then Some((["lock"], "Locking poetry.lock"))
    else if description == "#update" then Some((["update"], "Updating Poetry environment"))
    else None
  }

  /** A module's `notificationActive` user data (`None` is null) and the title of the notification shown, if any. */
  datatype NotifyStep = NotifyStep(active: Option<bool>, shown: Option<string>)

  /** `notifyPyProjectTomlChanged`: nothing while a notification is active; otherwise one is shown and marked active. */
  function Notify(active: Option<bool>, lockPresent: bool): NotifyStep
  {
    if active == Some(true) then NotifyStep(active, None)
    else NotifyStep(Some(true), Some(LockTitle(lockPresent)))
  }

  /**
   * A notification is shown exactly when none is active, and after it one is
   * active, so a second change is silent until the first notification
   * expires or one of its links is followed.
   */
  lemma NotifySuppression(active: Option<bool>, lockPresent: bool, lockPresent2: bool)
    ensures Notify(active, lockPresent).shown.Some? <==> active != Some(true)
    ensures Notify(active, lockPresent).active == Some(true)
    ensures Notify(Notify(active, lockPresent).active, lockPresent2).shown == None
    ensures Notify(None, lockPresent).shown == Some(LockTitle(lockPresent))
  {
  }

  /** The notification state of one module. */
  class ModuleNotifications {
    var notificationActive: Option<bool>

    constructor ()
      ensures notificationActive == None
    {
      notificationActive := None;
    }

    /** `notifyPyProjectTomlChanged(module)`: the title shown, if one is. */
    method NotifyPyProjectTomlChanged(lockPresent: bool) returns (shown: Option<string>)
      modifies this
      ensures var step := Notify(old(notificationActive), lockPresent);
        notificationActive == step.active && shown == step.shown
    {
      if notificationActive == Some(true) {
        return None;
      }
      var what := if lockPresent then "out of date" else "not found";
      var title := "poetry.lock is " + what;
      notificationActive := Some(true);
      shown := Some(title);
    }

    /** The notification expires: the flag is cleared. */
    method Expired()
      modifies this
      ensures notificationActive == None
    {
      notificationActive := None;
    }

    /** A link of the notification is followed: it expires, the flag is cleared, and the link's command is started. */
    method LinkFollowed(description: string) returns (action: Option<(seq<string>, string)>)
      modifies this
      ensures notificationActive == None && action == LinkAction(description)
    {
      notificationActive := None;
      if description == "#lock" {
        action := Some((["lock"], "Locking poetry.lock"));
      } else if description == "#update" {
        action := Some((["update"], "Updating Poetry environment"));
      } else {
        action := None;
      }
    }
  }
}
