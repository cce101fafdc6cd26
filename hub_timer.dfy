/**
 * The one-shot timer a dashboard hub runs while clients are connected, with
 * the running flag that guards it: a client connecting starts the timer at
 * once when it is not running, the last client leaving stops it, and each
 * elapsed callback re-arms it with the hub's frequency while the flag is set.
 */
module HubTimer {
  /** `Timeout.Infinite`: the timer is disabled. */
  const Disabled: int := -1

  class TimerFlag {
    var running: bool
    /** The due time of the last `Change`, in milliseconds; `Disabled` when stopped. */
    var dueMs: int
    const frequencyMs: nat

    /** The flag and the timer agree: a running timer is scheduled, a stopped one disabled. */
    ghost predicate Valid()
      reads this
    {
      running <==> dueMs != Disabled
    }

    constructor (frequencyMs: nat)
      ensures Valid() && !running && dueMs == Disabled && this.frequencyMs == frequencyMs
    {
      this.frequencyMs := frequencyMs;
      running := false;
      dueMs := Disabled;
    }

    /** A client connected: start the timer immediately unless it is already running. */
    method OnConnected()
      requires Valid()
      modifies this
      ensures Valid() && running
      ensures !old(running) ==> dueMs == 0
      ensures old(running) ==> dueMs == old(dueMs)
    {
      if !running {
        dueMs := 0;
        running := true;
      }
    }

    /** A client disconnected: stop the timer when no client is left and it is running. */
    method OnDisconnected(clientCount: nat)
      requires Valid()
      modifies this
      ensures Valid()
      ensures clientCount == 0 ==> !running && dueMs == Disabled
      ensures clientCount > 0 ==> running == old(running) && dueMs == old(dueMs)
    {
      if clientCount == 0 {
        if running {
          dueMs := Disabled;
          running := false;
        }
      }
    }

    /** The end of an elapsed callback: re-arm with the hub's frequency if still running. */
    method Rearm()
      requires Valid()
      modifies this
      ensures Valid() && running == old(running)
      ensures running ==> dueMs == frequencyMs
      ensures !running ==> dueMs == old(dueMs)
    {
      if running {
        dueMs := frequencyMs;
      }
    }
  }
}
