/** The two deadline loops of src-tauri/src/backend.rs, `terminate` and `wait_until_ready`,
    against a clock that runs while they sleep. */
module Polling {

  datatype Event = Term(at: nat) | Kill(at: nat)

  /** A moment that may never come. */
  datatype Moment = Never | At(time: nat) {
    predicate By(now: nat) {
      At? && time <= now
    }
  }

  /** A spawned process and the clock its parent reads. */
  class Child {
    /** When the process is seen to have exited. */
    const exits: Moment
    /** How long a look and a sleep of `step` started at a given time really take: some time,
        no less than `step`, and at most `slack` more. */
    const naps: (nat, nat) -> nat
    const slack: nat
    var clock: nat
    /** The signals sent, and when anything was looked at. */
    ghost var sent: seq<Event>
    ghost var looks: seq<nat>

    ghost predicate Valid() {
      forall t: nat, step: nat :: naps(t, step) > 0 && step <= naps(t, step) <= step + slack
    }

    constructor (exits: Moment, naps: (nat, nat) -> nat, slack: nat)
      requires forall t: nat, step: nat :: naps(t, step) > 0 && step <= naps(t, step) <= step + slack
      ensures Valid() && clock == 0 && sent == [] && looks == []
      ensures this.exits == exits && this.slack == slack && this.naps == naps
    {
      this.exits := exits;
      this.naps := naps;
      this.slack := slack;
      clock := 0;
      sent := [];
      looks := [];
    }

    predicate HasExited()
      reads this
    {
      exits.By(clock)
    }

    /** Looks that begin at once, are one sleep of `step` apart and all come before the deadline. */
    ghost predicate Paced(ls: seq<nat>, start: nat, deadline: nat, step: nat) {
      && (ls != [] ==> ls[0] == start)
      && (forall i | 0 <= i < |ls| - 1 :: ls[i + 1] == ls[i] + naps(ls[i], step))
      && (forall i | 0 <= i < |ls| :: ls[i] < deadline)
    }

    /** The time one sleep after the last look, or at the start when there was none. */
    ghost function AfterLast(ls: seq<nat>, start: nat, step: nat): nat {
      if ls == [] then start else ls[|ls| - 1] + naps(ls[|ls| - 1], step)
    }

    /** Only the last look sees the moment, when the outcome is that it did. */
    ghost predicate LastSees(ls: seq<nat>, moment: Moment, seen: bool) {
      forall i | 0 <= i < |ls| :: (moment.At? && moment.time <= ls[i]) <==> (seen && i == |ls| - 1)
    }

    lemma PacedStep(ls: seq<nat>, start: nat, deadline: nat, step: nat)
      requires Paced(ls, start, deadline, step) && AfterLast(ls, start, step) < deadline
      ensures Paced(ls + [AfterLast(ls, start, step)], start, deadline, step)
    {
      var t := AfterLast(ls, start, step);
      var more := ls + [t];
      assert forall i | 0 <= i < |ls| :: more[i] == ls[i];
      assert more[|ls|] == t;
    }

    /** Looking once more settles the outcome of the looks so far. */
    lemma SeesStep(ls: seq<nat>, t: nat, moment: Moment)
      requires LastSees(ls, moment, false)
      ensures LastSees(ls + [t], moment, moment.At? && moment.time <= t)
    {
      var more := ls + [t];
      assert forall i | 0 <= i < |ls| :: more[i] == ls[i];
    }

    /** A moment more than one sleep before the deadline is seen by some look. */
    lemma SeenInTime(ls: seq<nat>, start: nat, deadline: nat, step: nat, moment: Moment)
      requires Valid() && Paced(ls, start, deadline, step) && AfterLast(ls, start, step) >= deadline && start < deadline
      requires LastSees(ls, moment, false)
      ensures moment.At? ==> moment.time + step + slack >= deadline
    {
      var last := ls[|ls| - 1];
      assert !(moment.At? && moment.time <= last);
      assert naps(last, step) <= step + slack;
    }

    lemma NextLook(ls: seq<nat>, start: nat, step: nat)
      requires ls != []
      ensures AfterLast(ls, start, step) == ls[|ls| - 1] + naps(ls[|ls| - 1], step)
    {
    }

    lemma EndsSoon(ls: seq<nat>, start: nat, deadline: nat, step: nat)
      requires Valid() && Paced(ls, start, deadline, step)
      ensures AfterLast(ls, start, step) <= start || AfterLast(ls, start, step) < deadline + step + slack
    {
      if ls != [] {
        var last := ls[|ls| - 1];
        assert naps(last, step) <= step + slack;
      }
    }

    /** Ask, look at once and every 100 milliseconds, and kill when the grace is over. The
        return is at the first look that sees the exit, and without a kill; otherwise no look
        did, and the kill comes at the first wakening past the grace. So a process that exits
        more than one sleep before the deadline is never killed. */
    method Terminate(grace: nat) returns (graceful: bool)
      requires Valid()
      modifies this
      ensures old(looks) <= looks
      ensures var ls := looks[|old(looks)|..];
              && Paced(ls, old(clock), old(clock) + grace, 100)
              && LastSees(ls, exits, graceful)
              && (graceful ==> ls != [] && clock == ls[|ls| - 1])
              && (!graceful ==> clock == AfterLast(ls, old(clock), 100) && clock >= old(clock) + grace)
      ensures sent == old(sent) + [Term(old(clock))] + if graceful then [] else [Kill(clock)]
      ensures old(clock) <= clock < old(clock) + grace + 100 + slack + 1
      ensures grace > 0 && exits.At? && exits.time + 100 + slack < old(clock) + grace ==> graceful
    {
      sent := sent + [Term(clock)];
      var deadline := clock + grace;
      ghost var ls := [];
      while clock < deadline
        invariant looks == old(looks) + ls && Paced(ls, old(clock), deadline, 100) && LastSees(ls, exits, false)
        invariant clock == AfterLast(ls, old(clock), 100) && old(clock) <= clock
        invariant sent == old(sent) + [Term(old(clock))]
        decreases deadline - clock
      {
        hide Paced, AfterLast, LastSees;
        PacedStep(ls, old(clock), deadline, 100);
        SeesStep(ls, clock, exits);
        EndsSoon(ls, old(clock), deadline, 100);
        ls := ls + [clock];
        looks := looks + [clock];
        assert looks[|old(looks)|..] == ls;
        if HasExited() {
          return true;
        }
        NextLook(ls, old(clock), 100);
        clock := clock + naps(clock, 100);
      }
      assert looks[|old(looks)|..] == ls;
      if old(clock) < deadline {
        SeenInTime(ls, old(clock), deadline, 100, exits);
      }
      EndsSoon(ls, old(clock), deadline, 100);
      sent := sent + [Kill(clock)];
      graceful := false;
    }

    /** Try a port that opens at some moment at once and every `interval`, or give up when the
        timeout is over. Success is at the first try that finds it open; giving up means that
        none did. So a port that opens more than one sleep before the deadline is found. */
    method WaitUntilReady(opens: Moment, timeout: nat, interval: nat) returns (ready: bool)
      requires Valid()
      modifies this`clock, this`looks
      ensures old(looks) <= looks
      ensures var ls := looks[|old(looks)|..];
              && Paced(ls, old(clock), old(clock) + timeout, interval)
              && LastSees(ls, opens, ready)
              && (ready ==> ls != [] && clock == ls[|ls| - 1])
              && (!ready ==> clock == AfterLast(ls, old(clock), interval) && clock >= old(clock) + timeout)
      ensures old(clock) <= clock < old(clock) + timeout + interval + slack + 1
      ensures timeout > 0 && opens.At? && opens.time + interval + slack < old(clock) + timeout ==> ready
    {
      var deadline := clock + timeout;
      ghost var ls := [];
      while clock < deadline
        invariant looks == old(looks) + ls && Paced(ls, old(clock), deadline, interval) && LastSees(ls, opens, false)
        invariant clock == AfterLast(ls, old(clock), interval) && old(clock) <= clock
        decreases deadline - clock
      {
        hide Paced, AfterLast, LastSees;
        PacedStep(ls, old(clock), deadline, interval);
        SeesStep(ls, clock, opens);
        EndsSoon(ls, old(clock), deadline, interval);
        ls := ls + [clock];
        looks := looks + [clock];
        assert looks[|old(looks)|..] == ls;
        if opens.By(clock) {
          return true;
        }
        NextLook(ls, old(clock), interval);
        clock := clock + naps(clock, interval);
      }
      assert looks[|old(looks)|..] == ls;
      if old(clock) < deadline {
        SeenInTime(ls, old(clock), deadline, interval, opens);
      }
      EndsSoon(ls, old(clock), deadline, interval);
      ready := false;
    }
  }
}
