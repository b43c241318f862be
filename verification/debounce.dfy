/**
 * The `debounce` helper of the map component (src/App.tsx:45-56).
 *
 * Each debounced instance owns one timer slot (`timeoutId`). A call clears
 * whatever the slot holds and schedules the wrapped function to run with the
 * call's arguments `delay` time units later. Time is an explicit clock that
 * only moves when `Elapsed` is applied; a scheduled run whose deadline has
 * been reached runs then, and is recorded in the list of runs.
 */
module Debounce {
  import opened Wrappers

  /** A scheduled run of the wrapped function: its arguments and when it is due. */
  datatype Pending<A> = Pending(args: A, deadline: nat)

  /** A run of the wrapped function: the arguments it received and when it ran. */
  datatype Run<A> = Run(args: A, at: nat)

  /**
   * One debounced instance: the fixed delay, the current time, the single
   * timer slot and the runs of the wrapped function so far.
   */
  datatype State<A> = State(delay: nat, clock: nat, pending: Option<Pending<A>>, runs: seq<Run<A>>)

  /**
   * Runs are recorded in time order and never in the future; a scheduled run
   * is due no earlier than now and no later than one delay from now.
   */
  ghost predicate Timely<A>(s: State<A>) {
    && (forall i, j :: 0 <= i < j < |s.runs| ==> s.runs[i].at <= s.runs[j].at)
    && (forall i :: 0 <= i < |s.runs| ==> s.runs[i].at <= s.clock)
    && (s.pending.Some? ==> s.clock <= s.pending.value.deadline <= s.clock + s.delay)
  }

  /** The scheduled run is due once the clock has reached its deadline. */
  predicate Due<A>(s: State<A>, now: nat) {
    s.pending.Some? && s.pending.value.deadline <= now
  }

  /**
   * A call of the debounced function with `args`: the pending run, if any, is
   * cancelled and a run with `args` is scheduled one delay from now. The
   * wrapped function does not run inside the call.
   */
  function Triggered<A>(s: State<A>, args: A): (t: State<A>)
    ensures Timely(s) ==> Timely(t)
    ensures t.pending == Some(Pending(args, s.clock + s.delay))
    ensures t.runs == s.runs && t.clock == s.clock && t.delay == s.delay
  {
    s.(pending := Some(Pending(args, s.clock + s.delay)))
  }

  /**
   * `elapsed` time units pass: a scheduled run that falls due in that time
   * runs, at its deadline, and empties the slot; otherwise nothing happens.
   */
  function Elapsed<A>(s: State<A>, elapsed: nat): (t: State<A>)
    ensures Timely(s) ==> Timely(t)
    ensures t.delay == s.delay && t.clock == s.clock + elapsed
    ensures Due(s, s.clock + elapsed) ==>
              && t.pending == None
              && t.runs == s.runs + [Run(s.pending.value.args, s.pending.value.deadline)]
    ensures !Due(s, s.clock + elapsed) ==> t.pending == s.pending && t.runs == s.runs
  {
    var now := s.clock + elapsed;
    if Due(s, now) then
      s.(clock := now, pending := None, runs := s.runs + [Run(s.pending.value.args, s.pending.value.deadline)])
    else
      s.(clock := now)
  }

  /** A call of the debounced function, `wait` time units after the previous one. */
  datatype Call<A> = Call(wait: nat, args: A)

  /** A sequence of calls, each preceded by its wait. */
  function Replay<A>(s: State<A>, calls: seq<Call<A>>): (t: State<A>)
    ensures Timely(s) ==> Timely(t)
    ensures t.delay == s.delay
    ensures |s.runs| <= |t.runs| && t.runs[..|s.runs|] == s.runs
    ensures calls != [] ==> t.pending == Some(Pending(calls[|calls| - 1].args, t.clock + t.delay))
    decreases |calls|
  {
    if calls == [] then s
    else
      var last := calls[|calls| - 1];
      var u := Replay(s, calls[..|calls| - 1]);
      var t := Triggered(Elapsed(u, last.wait), last.args);
      assert t.runs[..|s.runs|] == u.runs[..|s.runs|];
      t
  }

  /**
   * Each call accounts for at most one run: the runs and the scheduled run
   * together grow by no more than the number of calls.
   */
  lemma {:induction false} RunsBounded<A>(s: State<A>, calls: seq<Call<A>>)
    ensures var t := Replay(s, calls);
            |t.runs| + (if t.pending.Some? then 1 else 0)
              <= |s.runs| + (if s.pending.Some? then 1 else 0) + |calls|
  {
    if calls != [] {
      RunsBounded(s, calls[..|calls| - 1]);
    }
  }

  /**
   * A burst: starting idle, calls that follow each other by less than the
   * delay never run the wrapped function; the slot holds the last call's
   * arguments.
   */
  lemma {:induction false} Burst<A>(s: State<A>, calls: seq<Call<A>>)
    requires s.pending == None && calls != []
    requires forall i :: 1 <= i < |calls| ==> calls[i].wait < s.delay
    ensures Replay(s, calls).runs == s.runs
    ensures Replay(s, calls).pending.value.args == calls[|calls| - 1].args
  {
    var pre := calls[..|calls| - 1];
    if pre != [] {
      forall i | 1 <= i < |pre| ensures pre[i].wait < s.delay {
        assert pre[i] == calls[i];
      }
      Burst(s, pre);
    }
  }

  /**
   * After a burst, once one delay has passed without calls, the wrapped
   * function has run exactly once, with the arguments of the last call, and
   * the slot is empty.
   */
  lemma {:induction false} BurstRunsOnce<A>(s: State<A>, calls: seq<Call<A>>)
    requires s.pending == None && calls != []
    requires forall i :: 1 <= i < |calls| ==> calls[i].wait < s.delay
    ensures var t := Elapsed(Replay(s, calls), s.delay);
            && |t.runs| == |s.runs| + 1
            && t.runs[..|s.runs|] == s.runs
            && t.runs[|s.runs|].args == calls[|calls| - 1].args
            && t.pending == None
  {
    Burst(s, calls);
  }

  /**
   * Calls spaced by at least the delay: every call but the last has run, in
   * order, with its own arguments; the last one is still scheduled.
   */
  lemma {:induction false} Spaced<A>(s: State<A>, calls: seq<Call<A>>)
    requires s.pending == None && calls != []
    requires forall i :: 1 <= i < |calls| ==> calls[i].wait >= s.delay
    ensures var t := Replay(s, calls);
            && |t.runs| == |s.runs| + |calls| - 1
            && t.runs[..|s.runs|] == s.runs
            && (forall i :: 0 <= i < |calls| - 1 ==> t.runs[|s.runs| + i].args == calls[i].args)
            && t.pending.value.args == calls[|calls| - 1].args
  {
    var pre := calls[..|calls| - 1];
    if pre != [] {
      forall i | 1 <= i < |pre| ensures pre[i].wait >= s.delay {
        assert pre[i] == calls[i];
      }
      Spaced(s, pre);
      var u := Replay(s, pre);
      var v := Elapsed(u, calls[|calls| - 1].wait);
      assert Due(u, u.clock + calls[|calls| - 1].wait);
      assert v.runs == u.runs + [Run(pre[|pre| - 1].args, u.pending.value.deadline)];
      forall i | 0 <= i < |calls| - 1
        ensures v.runs[|s.runs| + i].args == calls[i].args
      {
        if i < |pre| - 1 {
          assert v.runs[|s.runs| + i] == u.runs[|s.runs| + i];
          assert pre[i] == calls[i];
        }
      }
      assert v.runs[..|s.runs|] == u.runs[..|s.runs|];
    }
  }

  /**
   * Calls spaced by at least the delay, followed by one quiet delay: the
   * wrapped function has run once per call, in order, each time with that
   * call's arguments.
   */
  lemma {:induction false} SpacedRunsEach<A>(s: State<A>, calls: seq<Call<A>>)
    requires s.pending == None && calls != []
    requires forall i :: 1 <= i < |calls| ==> calls[i].wait >= s.delay
    ensures var t := Elapsed(Replay(s, calls), s.delay);
            && |t.runs| == |s.runs| + |calls|
            && t.runs[..|s.runs|] == s.runs
            && (forall i :: 0 <= i < |calls| ==> t.runs[|s.runs| + i].args == calls[i].args)
            && t.pending == None
  {
    Spaced(s, calls);
    var u := Replay(s, calls);
    var t := Elapsed(u, s.delay);
    assert t.runs == u.runs + [Run(calls[|calls| - 1].args, u.pending.value.deadline)];
    forall i | 0 <= i < |calls| ensures t.runs[|s.runs| + i].args == calls[i].args {
      if i < |calls| - 1 {
        assert t.runs[|s.runs| + i] == u.runs[|s.runs| + i];
      }
    }
    assert t.runs[..|s.runs|] == u.runs[..|s.runs|];
  }

  /**
   * One debounced instance as the closure keeps it: `timer` is the captured
   * `timeoutId`, `runs` records what the wrapped function has been called
   * with.
   */
  class Debouncer<A> {
    const delay: nat
    var clock: nat
    var timer: Option<Pending<A>>
    var runs: seq<Run<A>>

    /** The instance as a State value. */
    function Model(): State<A>
      reads this
    {
      State(delay, clock, timer, runs)
    }

    /**
     * The timing invariant of the instance. Every constructor and method
     * establishes or keeps it; the scenario lemmas on State values do not
     * depend on it, so it is a stated invariant only.
     */
    ghost predicate Valid()
      reads this
    {
      Timely(Model())
    }

    /** `debounce(func, delay)`: a fresh instance with an empty slot. */
    constructor (delay: nat)
      ensures Valid()
      ensures Model() == State(delay, 0, None, [])
    {
      this.delay := delay;
      clock := 0;
      timer := None;
      runs := [];
    }

    /** A call of the returned closure. */
    method Trigger(args: A)
      requires Valid()
      modifies this
      ensures Valid()
      ensures Model() == Triggered(old(Model()), args)
    {
      timer := None;                                // clearTimeout(timeoutId)
      timer := Some(Pending(args, clock + delay));  // timeoutId = setTimeout(...)
    }

    /** The event loop lets `elapsed` time units pass, running the timer if it falls due. */
    method Advance(elapsed: nat)
      requires Valid()
      modifies this
      ensures Valid()
      ensures Model() == Elapsed(old(Model()), elapsed)
    {
      var now := clock + elapsed;
      if timer.Some? && timer.value.deadline <= now {
        runs := runs + [Run(timer.value.args, timer.value.deadline)];
        timer := None;
      }
      clock := now;
    }
  }
}
