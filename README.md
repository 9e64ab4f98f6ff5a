# RGB LED, buzzer and button controller on FreeRTOS: a Dafny model

The firmware runs three tasks on a Raspberry Pi Pico under FreeRTOS:

- **LED task** (`led_task`): cycles an RGB LED through red, green and blue. It holds each colour for 500 ms.
- **Buzzer task** (`buzzer_task`): beeps for 100 ms once every second.
- **Button task** (`button_task`): polls two active-low buttons every 100 ms.
  - Button A suspends and resumes the LED task.
  - Button B suspends and resumes the buzzer task.
  - A suspend also forces the suspended task's outputs low.

This project models one loop iteration of each task as one atomic step acting on shared state. It proves the properties that matter:

- each suspension flag agrees with its task's run-state;
- each press makes exactly one suspend call and each release exactly one resume call;
- a suspended task's outputs are off;
- the two buttons act independently;
- the colour cycle and the buzzer waveform are correct.

Files:

- `button_task.dfy` (module `ButtonTask`): the per-button two-state machine {Active, Suspended}, stated as pure functions.
  - `Decide` is the call one poll makes; `FlagAfter` is the new flag; `Apply` is the scheduler's effect on the run-state.
  - `Calls` gives the suspend/resume calls made over a sampled trace of levels.
  - Lemmas: calls alternate, there is one call per edge, a held button makes exactly one call, and the invariant `Coherent` is preserved.
- `led_task.dfy` (module `LedTask`): the pin table `[Red, Green, Blue]`, the LED line levels (`Rgb`), the index arithmetic and the colour sequence.
- `buzzer_task.dfy` (module `BuzzerTask`): the buzzer cycle as two phases, (high, 100 ms) and (low, 900 ms), and the waveform they produce.
- `firmware.dfy` (module `Firmware`): class `Board`, one object for the whole program state.
  - Fields: the four output lines, the scheduler run-state of the LED and buzzer tasks, a log of the suspend/resume calls made on each task handle, the button task's two flags, the LED task's `current_led` and the buzzer task's next phase.
  - Methods: one per loop iteration (`LedStep`, `BuzzerStep`, `Poll`, with `PollLed` and `PollBuzzer` for the two halves of a poll). `LedTaskRun`, `BuzzerTaskRun` and `ButtonTaskRun` run those loops over a finite number of iterations.
  - `Valid()` is the invariant every step keeps.

Modelling decisions:

- Button levels are electrical levels: `true` is high, which means released because of the pull-up. Each poll samples each button once.
- `vTaskSuspend` and `vTaskResume` set the run-state of the handle's task. They also append `SuspendCall` or `ResumeCall` to that handle's log, so "exactly one call" can be stated.
- The scheduler only runs a task that is not suspended. So `LedStep`, `LedTaskRun`, `BuzzerStep` and `BuzzerTaskRun` require their task's run-state to be `Ready`.
- Delays are not modelled as time. Each step returns its hold time in milliseconds: 500 for the LED, 100 or 900 for the buzzer, 100 for a poll.
- The lines' levels before the first write are left open: the constructor takes them as parameters.

What happens when the buzzer is resumed:

- One might expect the buzzer to start a fresh 100 ms / 900 ms cycle after it is resumed. The code does not. In `buzzer_task` (main.c:52-57) the task was blocked in one of its two delays when it was suspended, and after resuming it carries on with the statement after that delay. The model keeps the next phase in `buzzerPhase`, which the button task never touches. If the buzzer was suspended during its 100 ms beep, its first action after resuming is to write the line low.

## Model

| member | source | states |
|---|---|---|
| ButtonTask.Decide | main.c:72-84 | A poll calls the scheduler exactly when the suspension flag disagrees with the sampled button state. A suspend only happens when the button is pressed and the flag is clear. A resume only happens when the button is released and the flag is set. |
| ButtonTask.FlagAfter | main.c:72-84 | Whatever the flag was before, after a poll it records whether the button was pressed at that sample. |
| ButtonTask.PollKeepsAlternating | main.c:72-84 | One poll keeps a handle's call log alternating (suspend, resume, suspend, ...). The flag stays set exactly when the log has an odd length, that is, when it ends with a suspend. |
| ButtonTask.PollKeepsCoherent | main.c:72-84 | One poll keeps the flag equal to "task suspended" and keeps the call log alternating. It keeps a suspended task's outputs off, provided a suspend forces them off. Afterwards the task is suspended exactly when the button is pressed. |
| ButtonTask.Calls | main.c:69-102 | Over consecutive polls, the calls made on a handle are never more than the number of polls, and every entry is a real suspend or resume. |
| ButtonTask.CallsExtend | main.c:69-102 | Polling one more sample appends exactly that poll's call to the calls made so far. |
| ButtonTask.ForcedOffStep | main.c:72-84 | One poll keeps this fact: since the start of a run, a task's outputs are off if a suspend has been logged on its handle, and unchanged otherwise. |
| ButtonTask.CallsAlternate | main.c:72-84 | For any trace of samples, the calls on a handle strictly alternate. From Active they start with a suspend, from Suspended with a resume. There are never two suspends or two resumes in a row. |
| ButtonTask.OneCallPerEdge | main.c:72-84 | The total number of calls equals the number of changes in the sampled pressed state. |
| ButtonTask.OneSuspendPerPress | main.c:72-84 | The number of suspends equals the number of presses, and the number of resumes equals the number of releases. Both counts are taken over the samples alone. |
| ButtonTask.SteadyIsSilent | main.c:72-84 | Pressed while already suspended, or released while active, makes no call over any number of polls. |
| ButtonTask.HeldPressSuspendsOnce | main.c:72-78 | Starting from Active, holding the button down for any number of polls makes exactly one call, a suspend. |
| ButtonTask.HeldReleaseResumesOnce | main.c:81-84 | Starting from Suspended, keeping the button released for any number of polls makes exactly one call, a resume. |
| LedTask.Put | main.c:32-37 | Writing a level to one LED line sets that line and leaves the other two unchanged. |
| LedTask.Show | main.c:32-37 | After an activation, the line of the selected colour is high and the other two are low. |
| LedTask.NextIndex | main.c:40 | The advanced index stays in [0, 3) and moves red to green, green to blue and blue to red. |
| LedTask.IndexAfter | main.c:30-44 | The index after any number of activations stays in [0, 3). |
| LedTask.IndexAfterIsModular | main.c:40 | After n activations the index has advanced by n modulo 3. |
| LedTask.ThreeStepsReturn | main.c:40 | Three activations bring the index back to its starting value. |
| LedTask.ColourAtActivation | main.c:27-43 | From the initial index 0, activation n shows red, green, blue in turn according to n mod 3. Activation n follows n holds of `HoldMs` = 500 ms; `Firmware.Board.LedTaskRun` proves that n activations take n times 500 ms. |
| BuzzerTask.HighTime | main.c:52-57 | The time a phase list drives the line high never exceeds its total duration. |
| BuzzerTask.NextPhase | main.c:52-57 | The task's position stays within its two phases and moves to the other phase on each step. |
| BuzzerTask.LevelDuringPhase | main.c:52-57 | Throughout phase k, from the end of the earlier phases to the end of its own hold, the line has the level that phase k wrote. |
| BuzzerTask.CycleTiming | main.c:53-56 | The cycle lasts 1000 ms, and the line is high for 100 ms of it: a 10% duty cycle. |
| BuzzerTask.Waveform | main.c:52-57 | Repeated forever, the cycle keeps the line high for the first 100 ms of every 1000 ms window and low for the rest. |
| Firmware.Board.constructor | main.c:19-121 | At start-up both flags are clear (main.c:66-67). The LED index is 0, which is red (main.c:28). Both controlled tasks are created ready (main.c:120-121). The buzzer starts with its high phase. Both call logs are empty. The state is valid. |
| Firmware.Board.PutLed | main.c:32-34 | Writing one LED line changes only that line. |
| Firmware.Board.LedStep | main.c:31-43 | One LED activation lights exactly the colour at the pre-step index and advances the index to the next colour. It keeps the invariant and returns the 500 ms hold. |
| Firmware.Board.LedTaskRun | main.c:30-44 | n uninterrupted activations leave the index at `IndexAfter(start, n)` with the colour of activation n-1 lit. With n = 0 the lines are unchanged. The activations take n times 500 ms in total. |
| Firmware.Board.BuzzerStep | main.c:52-57 | One buzzer phase writes that phase's level, returns its hold time (100 or 900 ms) and moves to the other phase. |
| Firmware.Board.BuzzerTaskRun | main.c:52-57 | n uninterrupted phases write and hold, in order, the cycle entries from the starting phase on: entry k of the run is `Cycle[(start + k) % 2]`. The line ends at the level of the last phase, or unchanged when n = 0. The phase ends at `(start + n) % 2`. |
| Firmware.Board.PollLed | main.c:70-84 | Button A's half of a poll. A press while Active suspends the LED task, logs one suspend, sets the flag and drives all three LED lines low. A release while Suspended resumes it, logs one resume, clears the flag and leaves the lines alone. Anything else changes nothing. The flag ends equal to "A pressed". |
| Firmware.Board.PollBuzzer | main.c:86-98 | Button B's half of a poll, the mirror of button A on the buzzer task and its single line. |
| Firmware.Board.Poll | main.c:69-101 | A whole poll keeps the invariant. Each button changes only its own task's run-state, flag, log and outputs. The LED index and the buzzer phase are never touched. Returns the 100 ms poll interval. |
| Firmware.Board.TrackedPoll | main.c:69-102 | One poll of a run keeps the run's progress: calls and flags on track for both buttons, and each task's outputs off if the run has suspended it, as before the run otherwise. |
| Firmware.Board.ButtonTaskRun | main.c:69-102 | Over any trace of samples, each handle receives exactly `Calls(flag, own trace)` and each flag ends as the last sample of its own button. The LED lines end dark if the trace of A made a suspend, and as they were otherwise; the buzzer line likewise for B. |
| Firmware.PressAndReleaseA | main.c:72-84 | Pressing and then releasing button A suspends and resumes the LED task once each. The LED task comes back with the colour index it had reached. The LED lines stay dark after the resume: they are forced low on the suspend and not driven again on the resume. The buzzer phase is untouched. The buzzer half depends only on button B's level, polled twice: its calls are `Calls(flag, [levelB, levelB])`, its flag and run-state follow B, and its line goes low only if B's press suspends it. |

The invariant `Firmware.Board.Valid` holds before and after every step. It says:

- both indices are in range;
- for each controlled task, `ButtonTask.Coherent` holds: the flag matches the run-state, the call log alternates starting with a suspend, the flag is set exactly when the log has odd length, and while the task is suspended its outputs are off.

## Left out

- FreeRTOS scheduling is not modelled: preemption, round-robin among equal priorities, ticks, the blocking in `vTaskDelay` and the `pdMS_TO_TICKS` conversion (main.c:43, 54, 56, 101, 126). Delays appear only as the hold times the steps return.
- Interleaving between tasks is not modelled. Each task iteration and each poll is atomic, so a suspend that lands in the middle of the LED task's four writes is not covered.
- The source reads each button twice per poll, once in the `if` and once in the `else if` (main.c:72/81 and 88/95). The model takes one sampled level per button per poll, and this loses nothing. With the flag clear, the `else if` is false whatever its read returns, so only the `if` read (main.c:72/88) matters. With the flag set, the `if` is false whatever its read returns, so only the `else if` read (main.c:81/95) matters. The single sample stands for whichever read decides.
- The task handles (main.c:19-20) are not separate objects. Each handle is represented by its task's run-state field and call log in `Board`. The handles' `NULL` values before the tasks are created are not modelled.
- Board bring-up is not modelled: `stdio_init_all`, `gpio_init`, `gpio_set_dir`, `gpio_pull_up`, the pin numbers, and the stack sizes, priorities and names passed to `xTaskCreate` (main.c:106-122).
- The endless loop after `vTaskStartScheduler` (main.c:126-132) is not modelled, because it is unreachable.
- GPIO writes and reads are assumed always to succeed, as the hardware layer gives them no failure path.
