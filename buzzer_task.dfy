/**
 * The pulse of the buzzer task: an endless repetition of phases, each of which
 * writes the buzzer line and then holds it for a fixed time.
 */
module BuzzerTask {

  /** One write of the buzzer line followed by a delay of `holdMs` milliseconds. */
  datatype Phase = Phase(level: bool, holdMs: nat)

  /** One cycle of the task: high for 100 ms, then low for 900 ms. */
  const Cycle: seq<Phase> := [Phase(true, 100), Phase(false, 900)]

  /** Total time taken by `ps`. */
  function Duration(ps: seq<Phase>): nat
    decreases |ps|
  {
    if |ps| == 0 then 0 else ps[0].holdMs + Duration(ps[1..])
  }

  /** Time during which `ps` drives the line high; never more than the total time. */
  function HighTime(ps: seq<Phase>): (h: nat)
    ensures h <= Duration(ps)
    decreases |ps|
  {
    if |ps| == 0 then 0 else (if ps[0].level then ps[0].holdMs else 0) + HighTime(ps[1..])
  }

  /** The level of the line `t` milliseconds after the start of `ps`. */
  function LevelAt(ps: seq<Phase>, t: nat): bool
    requires t < Duration(ps)
    decreases |ps|
  {
    if t < ps[0].holdMs then ps[0].level else LevelAt(ps[1..], t - ps[0].holdMs)
  }

  /** The phase after phase `p`: it stays in range and the two phases alternate. */
  function NextPhase(p: int): (q: int)
    requires 0 <= p < |Cycle|
    ensures 0 <= q < |Cycle| && q != p
  {
    (p + 1) % |Cycle|
  }

  /**
   * Throughout phase `k` the line holds the level that phase writes: phase `k`
   * starts once the phases before it have elapsed and lasts its own hold time.
   */
  lemma {:induction false} LevelDuringPhase(ps: seq<Phase>, k: nat, t: nat)
    requires k < |ps|
    requires Duration(ps[..k]) <= t < Duration(ps[..k]) + ps[k].holdMs
    ensures t < Duration(ps) && LevelAt(ps, t) == ps[k].level
    decreases k
  {
    if k == 0 {
      assert ps[..0] == [];
    } else {
      assert ps[..k][0] == ps[0] && ps[..k][1..] == ps[1..][..k - 1];
      LevelDuringPhase(ps[1..], k - 1, t - ps[0].holdMs);
    }
  }

  /** The cycle lasts 1000 ms, of which 100 ms are high: a 10% duty cycle. */
  lemma CycleTiming()
    ensures Duration(Cycle) == 1000 && HighTime(Cycle) == 100
  {
    assert Cycle[1..][1..] == [];
  }

  /** Repeated forever, the cycle keeps the line high for the first 100 ms of every 1000 ms window and low otherwise. */
  lemma Waveform(t: nat)
    ensures Duration(Cycle) == 1000 && (LevelAt(Cycle, t % 1000) <==> t % 1000 < 100)
  {
    CycleTiming();
    assert Cycle[..0] == [] && Cycle[..1] == [Cycle[0]];
    assert Duration(Cycle[..1]) == 100 by {
      assert Cycle[..1][1..] == [];
    }
    if t % 1000 < 100 {
      LevelDuringPhase(Cycle, 0, t % 1000);
    } else {
      LevelDuringPhase(Cycle, 1, t % 1000);
    }
  }
}
