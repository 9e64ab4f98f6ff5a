/**
 * The program's state as the three tasks see it: the four output lines, the
 * scheduler run-states of the two controlled tasks, the calls the button task
 * has made on their handles, the button task's two suspension flags, the LED
 * task's colour index and the buzzer task's position in its cycle. One method
 * per loop iteration of each task; each runs atomically.
 */
module Firmware {
  import opened ButtonTask
  import opened LedTask
  import opened BuzzerTask

  class Board {
    // Output lines.
    var red: bool
    var green: bool
    var blue: bool
    var buzzer: bool

    // Scheduler run-states of the LED and buzzer tasks.
    var ledRun: RunState
    var buzzerRun: RunState

    // Every suspend and resume call made on each task handle, in order.
    var ledCalls: seq<Call>
    var buzzerCalls: seq<Call>

    // The button task's suspension flags.
    var ledSuspended: bool
    var buzzerSuspended: bool

    // The LED task's index into the pin table.
    var currentLed: int

    // The buzzer task's next phase in its cycle.
    var buzzerPhase: int

    /** The three LED lines together. */
    function Leds(): Rgb
      reads this
    {
      Rgb(red, green, blue)
    }

    /**
     * The invariant the three tasks keep: the indices are in range, each flag
     * mirrors its task's run-state, the calls on each handle alternate starting
     * with a suspend, and a suspended task's outputs are off.
     */
    ghost predicate Valid()
      reads this
    {
      && 0 <= currentLed < |LedPins|
      && 0 <= buzzerPhase < |Cycle|
      && Coherent(ledSuspended, ledRun, ledCalls, Leds() == Dark)
      && Coherent(buzzerSuspended, buzzerRun, buzzerCalls, !buzzer)
    }

    /**
     * Start-up: both controlled tasks created ready, both flags clear, the LED
     * index at red and the buzzer at the start of its cycle. The output lines
     * keep whatever levels they had.
     */
    constructor (red0: bool, green0: bool, blue0: bool, buzzer0: bool)
      ensures Valid()
      ensures ledRun == Ready && buzzerRun == Ready
      ensures !ledSuspended && !buzzerSuspended
      ensures currentLed == 0 && LedPins[currentLed] == Red
      ensures buzzerPhase == 0 && Cycle[buzzerPhase].level
      ensures ledCalls == [] && buzzerCalls == []
      ensures Leds() == Rgb(red0, green0, blue0) && buzzer == buzzer0
    {
      red, green, blue, buzzer := red0, green0, blue0, buzzer0;
      ledRun, buzzerRun := Ready, Ready;
      ledCalls, buzzerCalls := [], [];
      ledSuspended, buzzerSuspended := false, false;
      currentLed := 0;
      buzzerPhase := 0;
    }

    /** Writes one LED line. */
    method PutLed(c: Color, v: bool)
      modifies this`red, this`green, this`blue
      ensures Leds() == Put(old(Leds()), c, v)
      ensures red == (if c == Red then v else old(red))
      ensures green == (if c == Green then v else old(green))
      ensures blue == (if c == Blue then v else old(blue))
    {
      match c
      case Red => red := v;
      case Green => green := v;
      case Blue => blue := v;
    }

    /**
     * One activation of the LED task: exactly the colour at the current index
     * is lit, and the index moves to the next colour. Returns the hold time.
     */
    method LedStep() returns (holdMs: nat)
      requires Valid() && ledRun == Ready
      modifies this`red, this`green, this`blue, this`currentLed
      ensures Valid()
      ensures Leds() == Show(LedPins[old(currentLed)])
      ensures currentLed == NextIndex(old(currentLed))
      ensures holdMs == LedTask.HoldMs
    {
      PutLed(Red, false);
      PutLed(Green, false);
      PutLed(Blue, false);
      PutLed(LedPins[currentLed], true);
      currentLed := NextIndex(currentLed);
      holdMs := LedTask.HoldMs;
    }

    /**
     * `n` uninterrupted activations of the LED task, and the time they take:
     * activation `k` starts after `k` holds.
     */
    method LedTaskRun(n: nat) returns (elapsedMs: nat)
      requires Valid() && ledRun == Ready
      modifies this`red, this`green, this`blue, this`currentLed
      ensures Valid()
      ensures currentLed == IndexAfter(old(currentLed), n)
      ensures n == 0 ==> Leds() == old(Leds())
      ensures n > 0 ==> Leds() == Show(LedPins[IndexAfter(old(currentLed), n - 1)])
      ensures elapsedMs == n * LedTask.HoldMs
    {
      var k := 0;
      elapsedMs := 0;
      while k < n
        invariant 0 <= k <= n
        invariant Valid() && ledRun == Ready
        invariant currentLed == IndexAfter(old(currentLed), k)
        invariant k == 0 ==> Leds() == old(Leds())
        invariant k > 0 ==> Leds() == Show(LedPins[IndexAfter(old(currentLed), k - 1)])
        invariant elapsedMs == k * LedTask.HoldMs
      {
        var holdMs := LedStep();
        elapsedMs := elapsedMs + holdMs;
        k := k + 1;
      }
    }

    /**
     * One phase of the buzzer task: the line is driven to the level of the
     * current phase, which is then held for its duration; the task moves on to
     * the other phase.
     */
    method BuzzerStep() returns (holdMs: nat)
      requires Valid() && buzzerRun == Ready
      modifies this`buzzer, this`buzzerPhase
      ensures Valid()
      ensures buzzer == Cycle[old(buzzerPhase)].level
      ensures holdMs == Cycle[old(buzzerPhase)].holdMs
      ensures buzzerPhase == NextPhase(old(buzzerPhase))
    {
      buzzer := Cycle[buzzerPhase].level;
      holdMs := Cycle[buzzerPhase].holdMs;
      buzzerPhase := (buzzerPhase + 1) % |Cycle|;
    }

    /**
     * `n` uninterrupted phases of the buzzer task: phase `k` of the run writes
     * and holds the entry of the cycle `k` places on from where it started.
     */
    method BuzzerTaskRun(n: nat) returns (phases: seq<Phase>)
      requires Valid() && buzzerRun == Ready
      modifies this`buzzer, this`buzzerPhase
      ensures Valid()
      ensures |phases| == n
      ensures forall k :: 0 <= k < n ==> phases[k] == Cycle[(old(buzzerPhase) + k) % |Cycle|]
      ensures buzzerPhase == (old(buzzerPhase) + n) % |Cycle|
      ensures n == 0 ==> buzzer == old(buzzer)
      ensures n > 0 ==> buzzer == phases[n - 1].level
    {
      phases := [];
      var k := 0;
      while k < n
        invariant 0 <= k <= n
        invariant Valid() && buzzerRun == Ready
        invariant |phases| == k
        invariant forall j :: 0 <= j < k ==> phases[j] == Cycle[(old(buzzerPhase) + j) % |Cycle|]
        invariant buzzerPhase == (old(buzzerPhase) + k) % |Cycle|
        invariant k == 0 ==> buzzer == old(buzzer)
        invariant k > 0 ==> buzzer == phases[k - 1].level
      {
        var holdMs := BuzzerStep();
        phases := phases + [Phase(buzzer, holdMs)];
        k := k + 1;
      }
    }

    /**
     * Button A's half of a poll: a press while Active suspends the LED task and
     * forces the three LED lines low; a release while Suspended resumes it and
     * leaves the lines alone; anything else changes nothing.
     */
    method PollLed(levelA: bool)
      requires Valid()
      modifies this`ledRun, this`ledSuspended, this`ledCalls, this`red, this`green, this`blue
      ensures Valid()
      ensures ledSuspended == Pressed(levelA)
      ensures ledRun == Apply(old(ledRun), Decide(old(ledSuspended), levelA))
      ensures ledCalls == old(ledCalls) + Issued(Decide(old(ledSuspended), levelA))
      ensures Leds() == if Decide(old(ledSuspended), levelA) == SuspendCall then Dark else old(Leds())
    {
      ghost var c := Decide(ledSuspended, levelA);
      PollKeepsCoherent(ledSuspended, ledRun, ledCalls, Leds() == Dark, levelA);
      if Pressed(levelA) && !ledSuspended {
        assert c == SuspendCall;
        ledRun := Suspended;
        ledCalls := ledCalls + [SuspendCall];
        ledSuspended := true;
        PutLed(Red, false);
        PutLed(Green, false);
        PutLed(Blue, false);
        assert Leds() == Dark;
      } else if !Pressed(levelA) && ledSuspended {
        assert c == ResumeCall;
        ledRun := Ready;
        ledCalls := ledCalls + [ResumeCall];
        ledSuspended := false;
      } else {
        assert c == NoCall;
      }
    }

    /**
     * Button B's half of a poll: a press while Active suspends the buzzer task
     * and forces its line low; a release while Suspended resumes it and leaves
     * the line alone; anything else changes nothing.
     */
    method PollBuzzer(levelB: bool)
      requires Valid()
      modifies this`buzzerRun, this`buzzerSuspended, this`buzzerCalls, this`buzzer
      ensures Valid()
      ensures buzzerSuspended == Pressed(levelB)
      ensures buzzerRun == Apply(old(buzzerRun), Decide(old(buzzerSuspended), levelB))
      ensures buzzerCalls == old(buzzerCalls) + Issued(Decide(old(buzzerSuspended), levelB))
      ensures buzzer == if Decide(old(buzzerSuspended), levelB) == SuspendCall then false else old(buzzer)
    {
      ghost var c := Decide(buzzerSuspended, levelB);
      PollKeepsCoherent(buzzerSuspended, buzzerRun, buzzerCalls, !buzzer, levelB);
      if Pressed(levelB) && !buzzerSuspended {
        assert c == SuspendCall;
        buzzerRun := Suspended;
        buzzerCalls := buzzerCalls + [SuspendCall];
        buzzerSuspended := true;
        buzzer := false;
      } else if !Pressed(levelB) && buzzerSuspended {
        assert c == ResumeCall;
        buzzerRun := Ready;
        buzzerCalls := buzzerCalls + [ResumeCall];
        buzzerSuspended := false;
      } else {
        assert c == NoCall;
      }
    }

    /**
     * One poll of the button task, with one sampled level per button. Each
     * button acts on its own task only; the LED index and the buzzer phase are
     * never touched. Returns the delay before the next poll.
     */
    method Poll(levelA: bool, levelB: bool) returns (holdMs: nat)
      requires Valid()
      modifies this`ledRun, this`ledSuspended, this`ledCalls, this`red, this`green, this`blue
      modifies this`buzzerRun, this`buzzerSuspended, this`buzzerCalls, this`buzzer
      ensures Valid()
      ensures ledSuspended == Pressed(levelA) && buzzerSuspended == Pressed(levelB)
      ensures ledRun == Apply(old(ledRun), Decide(old(ledSuspended), levelA))
      ensures buzzerRun == Apply(old(buzzerRun), Decide(old(buzzerSuspended), levelB))
      ensures ledCalls == old(ledCalls) + Issued(Decide(old(ledSuspended), levelA))
      ensures buzzerCalls == old(buzzerCalls) + Issued(Decide(old(buzzerSuspended), levelB))
      ensures Leds() == if Decide(old(ledSuspended), levelA) == SuspendCall then Dark else old(Leds())
      ensures buzzer == if Decide(old(buzzerSuspended), levelB) == SuspendCall then false else old(buzzer)
      ensures holdMs == PollIntervalMs
    {
      PollLed(levelA);
      PollBuzzer(levelB);
      holdMs := PollIntervalMs;
    }

    /**
     * What a run of polls over `levelsA` and `levelsB` has done by sample `i`:
     * each handle's calls and flag are on track, and each task's outputs are
     * off if the run has suspended it, and as they were otherwise.
     */
    ghost predicate RunSoFar(levelsA: seq<bool>, levelsB: seq<bool>, i: int, flagA: bool, flagB: bool,
                             logA: seq<Call>, logB: seq<Call>, leds0: Rgb, buzzer0: bool)
      reads this
    {
      && Valid()
      && OnTrack(logA, flagA, levelsA, i, ledCalls, ledSuspended)
      && OnTrack(logB, flagB, levelsB, i, buzzerCalls, buzzerSuspended)
      && ForcedOff(logA, ledCalls, Leds() == Dark, Leds() == leds0)
      && ForcedOff(logB, buzzerCalls, !buzzer, buzzer == buzzer0)
    }

    /** Poll sample `i` of a run, keeping the run's progress. */
    method TrackedPoll(levelsA: seq<bool>, levelsB: seq<bool>, i: int, ghost flagA: bool, ghost flagB: bool,
                       ghost logA: seq<Call>, ghost logB: seq<Call>, ghost leds0: Rgb, ghost buzzer0: bool)
      requires RunSoFar(levelsA, levelsB, i, flagA, flagB, logA, logB, leds0, buzzer0)
      requires i < |levelsA| && i < |levelsB|
      modifies this`ledRun, this`ledSuspended, this`ledCalls, this`red, this`green, this`blue
      modifies this`buzzerRun, this`buzzerSuspended, this`buzzerCalls, this`buzzer
      ensures RunSoFar(levelsA, levelsB, i + 1, flagA, flagB, logA, logB, leds0, buzzer0)
    {
      TrackStep(logA, flagA, levelsA, i, ledCalls, ledSuspended);
      TrackStep(logB, flagB, levelsB, i, buzzerCalls, buzzerSuspended);
      ghost var callsA, callsB := ledCalls, buzzerCalls;
      ghost var cA, cB := Decide(ledSuspended, levelsA[i]), Decide(buzzerSuspended, levelsB[i]);
      ghost var offA, sameA := Leds() == Dark, Leds() == leds0;
      ghost var offB, sameB := !buzzer, buzzer == buzzer0;
      var _ := Poll(levelsA[i], levelsB[i]);
      ForcedOffStep(logA, callsA, cA, offA, sameA, Leds() == Dark, Leds() == leds0);
      ForcedOffStep(logB, callsB, cB, offB, sameB, !buzzer, buzzer == buzzer0);
    }

    /**
     * Consecutive polls of the button task over sampled levels of the two
     * buttons: each handle receives exactly the calls the trace of its own
     * button determines, and each task's outputs have been forced off if and
     * only if that trace suspended it at least once.
     */
    method ButtonTaskRun(levelsA: seq<bool>, levelsB: seq<bool>)
      requires Valid() && |levelsA| == |levelsB|
      modifies this`ledRun, this`ledSuspended, this`ledCalls, this`red, this`green, this`blue
      modifies this`buzzerRun, this`buzzerSuspended, this`buzzerCalls, this`buzzer
      ensures Valid()
      ensures ledCalls == old(ledCalls) + Calls(old(ledSuspended), levelsA)
      ensures buzzerCalls == old(buzzerCalls) + Calls(old(buzzerSuspended), levelsB)
      ensures ledSuspended == LastFlag(old(ledSuspended), levelsA)
      ensures buzzerSuspended == LastFlag(old(buzzerSuspended), levelsB)
      ensures Leds() == if SuspendCall in Calls(old(ledSuspended), levelsA) then Dark else old(Leds())
      ensures buzzer == if SuspendCall in Calls(old(buzzerSuspended), levelsB) then false else old(buzzer)
    {
      ghost var flagA, flagB := ledSuspended, buzzerSuspended;
      ghost var logA, logB := ledCalls, buzzerCalls;
      ghost var leds0, buzzer0 := Leds(), buzzer;
      var i := 0;
      while i < |levelsA|
        invariant RunSoFar(levelsA, levelsB, i, flagA, flagB, logA, logB, leds0, buzzer0)
      {
        TrackedPoll(levelsA, levelsB, i, flagA, flagB, logA, logB, leds0, buzzer0);
        i := i + 1;
      }
      TrackDone(logA, flagA, levelsA, ledCalls, ledSuspended);
      TrackDone(logB, flagB, levelsB, buzzerCalls, buzzerSuspended);
      assert ledCalls[|logA|..] == Calls(flagA, levelsA);
      assert buzzerCalls[|logB|..] == Calls(flagB, levelsB);
    }
  }

  /**
   * Press button A and release it again: the LED task is suspended and resumed
   * once each, and it resumes with the colour index it had reached.
   */
  method PressAndReleaseA(b: Board, levelB: bool)
    requires b.Valid() && !b.ledSuspended
    modifies b
    ensures b.Valid()
    ensures b.currentLed == old(b.currentLed) && b.ledRun == Ready
    ensures b.ledCalls == old(b.ledCalls) + [SuspendCall, ResumeCall]
    ensures b.Leds() == Dark
    ensures b.buzzerPhase == old(b.buzzerPhase)
    ensures b.buzzerCalls == old(b.buzzerCalls) + Calls(old(b.buzzerSuspended), [levelB, levelB])
    ensures b.buzzerSuspended == Pressed(levelB)
    ensures b.buzzerRun == if Pressed(levelB) then Suspended else Ready
    ensures b.buzzer == if Pressed(levelB) && !old(b.buzzerSuspended) then false else old(b.buzzer)
  {
    var _ := b.Poll(false, levelB);
    assert b.Leds() == Dark;
    var _ := b.Poll(true, levelB);
  }
}
