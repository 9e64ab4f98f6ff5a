/**
 * The decision logic of the button task, one button at a time.
 *
 * Each button controls one task through a two-state machine {Active, Suspended}
 * whose state is the button task's suspension flag. A poll samples the button's
 * electrical level once; the button is wired to a pull-up, so a low level
 * (`false`) means pressed. Pressing while Active asks the scheduler to suspend
 * the controlled task, releasing while Suspended asks it to resume the task, and
 * every other combination asks nothing.
 */
module ButtonTask {

  /** What one branch of a poll asks of the scheduler for the controlled task. */
  datatype Call = NoCall | SuspendCall | ResumeCall

  /** The scheduler's run-state of a controlled task. */
  datatype RunState = Ready | Suspended

  /** Delay between two polls, in milliseconds. */
  const PollIntervalMs: nat := 100

  /** Active-low button: an electrically low sample is a press. */
  predicate Pressed(level: bool) {
    !level
  }

  /** The flag mirrors the controlled task's run-state. */
  predicate InSync(suspended: bool, run: RunState) {
    suspended <==> run == Suspended
  }

  /**
   * The call one poll makes, from the suspension flag before the poll and the
   * sampled level. A call is made exactly when the flag disagrees with the
   * button; a suspend only ever leaves Active and a resume only ever leaves
   * Suspended.
   */
  function Decide(suspended: bool, level: bool): (c: Call)
    ensures c != NoCall <==> suspended != Pressed(level)
    ensures c == SuspendCall ==> !suspended && Pressed(level)
    ensures c == ResumeCall ==> suspended && !Pressed(level)
  {
    if Pressed(level) && !suspended then SuspendCall
    else if !Pressed(level) && suspended then ResumeCall
    else NoCall
  }

  /**
   * The suspension flag after a poll. Whatever it was before, it afterwards
   * records whether the button was pressed at the sample.
   */
  function FlagAfter(suspended: bool, level: bool): (f: bool)
    ensures f == Pressed(level)
  {
    match Decide(suspended, level)
    case SuspendCall => true
    case ResumeCall => false
    case NoCall => suspended
  }

  /** What the scheduler does to a run-state on each call. */
  function Apply(run: RunState, c: Call): RunState {
    match c
    case SuspendCall => Suspended
    case ResumeCall => Ready
    case NoCall => run
  }

  /** The scheduler invocations a decision amounts to. */
  function Issued(c: Call): seq<Call> {
    if c == NoCall then [] else [c]
  }

  /**
   * The scheduler calls made by consecutive polls of one button over the
   * sampled `levels`, starting with the flag `suspended`.
   */
  function Calls(suspended: bool, levels: seq<bool>): (cs: seq<Call>)
    ensures |cs| <= |levels|
    ensures NoCall !in cs
    decreases |levels|
  {
    if |levels| == 0 then []
    else Issued(Decide(suspended, levels[0])) + Calls(FlagAfter(suspended, levels[0]), levels[1..])
  }

  /** The flag after polling all of `levels`, starting from `suspended`. */
  function LastFlag(suspended: bool, levels: seq<bool>): bool {
    if |levels| == 0 then suspended else Pressed(levels[|levels| - 1])
  }

  /** The `i`-th call of an alternating run that starts from the flag `suspended`. */
  function Alternating(suspended: bool, i: nat): Call {
    if (i % 2 == 0) != suspended then SuspendCall else ResumeCall
  }

  /** The first `n` calls of an alternating run that starts from Active: suspend, resume, suspend, ... */
  function AlternatingLog(n: nat): (cs: seq<Call>)
    ensures |cs| == n
  {
    if n == 0 then [] else AlternatingLog(n - 1) + [Alternating(false, n - 1)]
  }

  /** A log of calls on one task handle that starts from Active and never repeats a call. */
  predicate Alternates(cs: seq<Call>) {
    cs == AlternatingLog(|cs|)
  }

  /**
   * A poll keeps a handle's call log alternating, and keeps the flag set exactly
   * when the log ends with a suspend (an odd number of calls).
   */
  lemma PollKeepsAlternating(cs: seq<Call>, suspended: bool, level: bool)
    requires Alternates(cs) && (suspended <==> |cs| % 2 == 1)
    ensures Alternates(cs + Issued(Decide(suspended, level)))
    ensures FlagAfter(suspended, level) <==> |cs + Issued(Decide(suspended, level))| % 2 == 1
  {
  }

  /**
   * What the button task keeps true of one controlled task: the flag mirrors
   * the run-state; the calls on the task's handle alternate, starting with a
   * suspend, so the flag is set exactly when the last call was a suspend; and
   * while the task is suspended its outputs are off (`off`).
   */
  predicate Coherent(suspended: bool, run: RunState, calls: seq<Call>, off: bool) {
    && InSync(suspended, run)
    && Alternates(calls) && (suspended <==> |calls| % 2 == 1)
    && (run == Suspended ==> off)
  }

  /**
   * A poll keeps a controlled task coherent, provided a suspend forces its
   * outputs off; afterwards the task is suspended exactly when the button is
   * pressed.
   */
  lemma PollKeepsCoherent(suspended: bool, run: RunState, calls: seq<Call>, off: bool, level: bool)
    requires Coherent(suspended, run, calls, off)
    ensures Coherent(FlagAfter(suspended, level), Apply(run, Decide(suspended, level)),
                     calls + Issued(Decide(suspended, level)),
                     Decide(suspended, level) == SuspendCall || off)
    ensures Apply(run, Decide(suspended, level)) == if Pressed(level) then Suspended else Ready
  {
    PollKeepsAlternating(calls, suspended, level);
  }

  /** Number of samples whose pressed state differs from the one before; the first is compared with `wasPressed`. */
  function Edges(wasPressed: bool, levels: seq<bool>): nat
    decreases |levels|
  {
    if |levels| == 0 then 0
    else (if Pressed(levels[0]) != wasPressed then 1 else 0) + Edges(Pressed(levels[0]), levels[1..])
  }

  /** Polling one more sample appends exactly the call of that poll. */
  lemma {:induction false} CallsExtend(suspended: bool, levels: seq<bool>, level: bool)
    ensures Calls(suspended, levels + [level])
         == Calls(suspended, levels) + Issued(Decide(LastFlag(suspended, levels), level))
    decreases |levels|
  {
    var all := levels + [level];
    if |levels| == 0 {
      assert all[1..] == [];
    } else {
      var first := Issued(Decide(suspended, levels[0]));
      var next := FlagAfter(suspended, levels[0]);
      var last := Issued(Decide(LastFlag(next, levels[1..]), level));
      assert all[0] == levels[0] && all[1..] == levels[1..] + [level];
      assert LastFlag(next, levels[1..]) == LastFlag(suspended, levels);
      calc {
        Calls(suspended, all);
        first + Calls(next, levels[1..] + [level]);
        { CallsExtend(next, levels[1..], level); }
        first + (Calls(next, levels[1..]) + last);
        (first + Calls(next, levels[1..])) + last;
        Calls(suspended, levels) + last;
      }
    }
  }

  /**
   * Progress of a run of polls over `levels` that started with the log
   * `log0` and the flag `flag0`: after the first `i` samples the log is `log`
   * and the flag is `flag`, and the calls still due from sample `i` on
   * complete the run's calls.
   */
  predicate OnTrack(log0: seq<Call>, flag0: bool, levels: seq<bool>, i: int, log: seq<Call>, flag: bool) {
    && 0 <= i <= |levels|
    && log0 + Calls(flag0, levels) == log + Calls(flag, levels[i..])
    && flag == if i == 0 then flag0 else Pressed(levels[i - 1])
  }

  /** Polling sample `i` keeps a run on track. */
  lemma TrackStep(log0: seq<Call>, flag0: bool, levels: seq<bool>, i: int, log: seq<Call>, flag: bool)
    requires OnTrack(log0, flag0, levels, i, log, flag) && i < |levels|
    ensures OnTrack(log0, flag0, levels, i + 1, log + Issued(Decide(flag, levels[i])), FlagAfter(flag, levels[i]))
  {
    assert levels[i..][0] == levels[i] && levels[i..][1..] == levels[i + 1..];
  }

  /** A run that has polled every sample has made exactly the run's calls and ends with the flag of the last sample. */
  lemma TrackDone(log0: seq<Call>, flag0: bool, levels: seq<bool>, log: seq<Call>, flag: bool)
    requires OnTrack(log0, flag0, levels, |levels|, log, flag)
    ensures log == log0 + Calls(flag0, levels)
    ensures flag == LastFlag(flag0, levels)
  {
  }

  /**
   * Since `log0`, the calls appended to a handle's log have included a suspend
   * exactly when the task's outputs were forced off (`off`); otherwise they are
   * as they were (`same`).
   */
  predicate ForcedOff(log0: seq<Call>, log: seq<Call>, off: bool, same: bool) {
    && |log0| <= |log| && log[..|log0|] == log0
    && if SuspendCall in log[|log0|..] then off else same
  }

  /**
   * A poll keeps `ForcedOff`, provided its suspend forces the outputs off and
   * any other call leaves them alone.
   */
  lemma ForcedOffStep(log0: seq<Call>, log: seq<Call>, c: Call, off: bool, same: bool, off': bool, same': bool)
    requires ForcedOff(log0, log, off, same)
    requires c == SuspendCall ==> off'
    requires c != SuspendCall ==> off' == off && same' == same
    ensures ForcedOff(log0, log + Issued(c), off', same')
  {
    var log' := log + Issued(c);
    assert log'[..|log0|] == log0 by {
      assert log'[..|log0|] == log[..|log0|];
    }
    assert log'[|log0|..] == log[|log0|..] + Issued(c);
  }

  /**
   * Calls on a handle strictly alternate: from Active they run suspend, resume,
   * suspend, ...; from Suspended they run resume, suspend, ... So no poll
   * sequence ever suspends twice without a resume in between, or vice versa.
   */
  lemma {:induction false} CallsAlternate(suspended: bool, levels: seq<bool>)
    ensures forall i :: 0 <= i < |Calls(suspended, levels)| ==>
              Calls(suspended, levels)[i] == Alternating(suspended, i)
    decreases |levels|
  {
    if |levels| > 0 {
      var next := FlagAfter(suspended, levels[0]);
      var rest := Calls(next, levels[1..]);
      var c := Decide(suspended, levels[0]);
      CallsAlternate(next, levels[1..]);
      if c == NoCall {
        assert next == suspended;
        assert Calls(suspended, levels) == rest;
      } else {
        assert next == !suspended;
        var cs := Calls(suspended, levels);
        assert cs == [c] + rest;
        forall i | 0 <= i < |cs|
          ensures cs[i] == Alternating(suspended, i)
        {
          if i > 0 {
            assert cs[i] == rest[i - 1];
            assert Alternating(next, i - 1) == Alternating(suspended, i);
          }
        }
      }
    }
  }

  /** One call per edge of the sampled button: a suspend per press, a resume per release. */
  lemma {:induction false} OneCallPerEdge(suspended: bool, levels: seq<bool>)
    ensures |Calls(suspended, levels)| == Edges(suspended, levels)
    decreases |levels|
  {
    if |levels| > 0 {
      OneCallPerEdge(FlagAfter(suspended, levels[0]), levels[1..]);
    }
  }

  /** Number of samples pressed after a sample (or a start, `wasPressed`) that was not. */
  function Presses(wasPressed: bool, levels: seq<bool>): nat
    decreases |levels|
  {
    if |levels| == 0 then 0
    else (if Pressed(levels[0]) && !wasPressed then 1 else 0) + Presses(Pressed(levels[0]), levels[1..])
  }

  /** Number of samples released after a sample (or a start, `wasPressed`) that was pressed. */
  function Releases(wasPressed: bool, levels: seq<bool>): nat
    decreases |levels|
  {
    if |levels| == 0 then 0
    else (if !Pressed(levels[0]) && wasPressed then 1 else 0) + Releases(Pressed(levels[0]), levels[1..])
  }

  /** Exactly one suspend per press and exactly one resume per release. */
  lemma {:induction false} OneSuspendPerPress(suspended: bool, levels: seq<bool>)
    ensures multiset(Calls(suspended, levels))[SuspendCall] == Presses(suspended, levels)
    ensures multiset(Calls(suspended, levels))[ResumeCall] == Releases(suspended, levels)
    decreases |levels|
  {
    if |levels| > 0 {
      var next := FlagAfter(suspended, levels[0]);
      OneSuspendPerPress(next, levels[1..]);
      assert Calls(suspended, levels) == Issued(Decide(suspended, levels[0])) + Calls(next, levels[1..]);
    }
  }

  /** Polls whose samples agree with the flag (pressed while Suspended, released while Active) call nothing. */
  lemma {:induction false} SteadyIsSilent(suspended: bool, levels: seq<bool>)
    requires forall i :: 0 <= i < |levels| ==> Pressed(levels[i]) == suspended
    ensures Calls(suspended, levels) == []
    decreases |levels|
  {
    if |levels| > 0 {
      SteadyIsSilent(FlagAfter(suspended, levels[0]), levels[1..]);
    }
  }

  /** Holding a button down across any number of polls suspends its task exactly once. */
  lemma HeldPressSuspendsOnce(levels: seq<bool>)
    requires levels != []
    requires forall i :: 0 <= i < |levels| ==> Pressed(levels[i])
    ensures Calls(false, levels) == [SuspendCall]
  {
    SteadyIsSilent(true, levels[1..]);
  }

  /** Keeping a button released across any number of polls resumes its suspended task exactly once. */
  lemma HeldReleaseResumesOnce(levels: seq<bool>)
    requires levels != []
    requires forall i :: 0 <= i < |levels| ==> !Pressed(levels[i])
    ensures Calls(true, levels) == [ResumeCall]
  {
    SteadyIsSilent(false, levels[1..]);
  }
}
