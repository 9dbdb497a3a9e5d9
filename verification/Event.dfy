/** The event primitive (source/sosal/event.c, POSIX branch): a flag under a
    mutex, with a condition variable to sleep on.

    A wait is two atomic steps with a sleep between them: what happens before
    the thread sleeps, and what happens once the condition variable has let it
    go and the mutex is held again.  Other threads may do anything to the flag
    during the sleep, and the sleep may end for no reason at all.
 */
module Event {

  // What the condition variable reports when it ends a sleep.
  datatype Wakeup = Woken | TimedOut | Failed

  class Event {
    const autoreset: bool
    var isSet: bool

    constructor (autoreset: bool)
      ensures !isSet && this.autoreset == autoreset
    {
      this.autoreset := autoreset;
      isSet := false;
    }

    method Set()
      modifies this`isSet
      ensures isSet
    {
      isSet := true;
    }

    method Reset()
      modifies this`isSet
      ensures !isSet
    {
      isSet := false;
    }

    // The start of a wait.  Whoever finds a manual event set is let through without
    // sleeping; an auto-reset event that is already set makes a new waiter sleep all
    // the same.
    method BeginWait() returns (passed: bool)
      ensures passed <==> !autoreset && isSet
    {
      passed := false;
      if !autoreset {
        if isSet {
          passed := true;
        }
      }
    }

    // What a sleep is worth: the flag decides, unless the sleep failed.
    method AfterSleep(wakeup: Wakeup) returns (ret: bool)
      ensures ret <==> isSet && !wakeup.Failed?
    {
      if wakeup == TimedOut && !isSet {
        ret := false;
      } else if wakeup == TimedOut && isSet {
        ret := true;
      } else if wakeup == Woken && !isSet {
        ret := false;
      } else if wakeup == Woken && isSet {
        ret := true;
      } else {
        ret := false;
      }
    }

    // The end of a wait that slept.  A true return means the flag was set at
    // this very moment; an auto-reset event is consumed by it.
    method EndWait(wakeup: Wakeup) returns (ret: bool)
      modifies this`isSet
      ensures ret <==> old(isSet) && !wakeup.Failed?
      ensures isSet == (old(isSet) && !(autoreset && ret))
    {
      ret := AfterSleep(wakeup);
      if autoreset {
        if ret && isSet {
          isSet := false;
        } else if ret && !isSet {
          ret := false;
        }
      }
    }

    // A whole wait; `meanwhile` is the flag as the other threads have left it
    // when the sleep ends.
    method Wait(meanwhile: bool, wakeup: Wakeup) returns (ret: bool)
      modifies this`isSet
      ensures ret <==> (!autoreset && old(isSet)) || (meanwhile && !wakeup.Failed?)
      ensures isSet <==> (!autoreset && old(isSet)) || (meanwhile && !(autoreset && ret))
    {
      ret := BeginWait();
      if !ret {
        isSet := meanwhile;
        ret := EndWait(wakeup);
      }
    }
  }
}
