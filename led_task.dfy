/**
 * The colour cycle of the LED task. The task keeps an index into the table of
 * LED pins (red, green, blue); each activation drives the three lines low,
 * drives the line at the index high, and advances the index modulo 3.
 */
module LedTask {

  datatype Color = Red | Green | Blue

  /** The LED pin table, in the order the task cycles through it. */
  const LedPins: seq<Color> := [Red, Green, Blue]

  /** How long each colour is held, in milliseconds. */
  const HoldMs: nat := 500

  /** The levels of the three LED output lines. */
  datatype Rgb = Rgb(red: bool, green: bool, blue: bool)

  /** All three lines low: the LED is dark. */
  const Dark: Rgb := Rgb(false, false, false)

  /** The level of the line of colour `c`. */
  function Level(lines: Rgb, c: Color): bool {
    match c
    case Red => lines.red
    case Green => lines.green
    case Blue => lines.blue
  }

  /** Writing `v` to the line of colour `c` sets that line and leaves the other two alone. */
  function Put(lines: Rgb, c: Color, v: bool): (r: Rgb)
    ensures Level(r, c) == v
    ensures forall d: Color :: d != c ==> Level(r, d) == Level(lines, d)
  {
    match c
    case Red => lines.(red := v)
    case Green => lines.(green := v)
    case Blue => lines.(blue := v)
  }

  /** The lines after one activation that shows colour `c`: that line high and only that one. */
  function Show(c: Color): (r: Rgb)
    ensures Level(r, c)
    ensures forall d: Color :: d != c ==> !Level(r, d)
  {
    Put(Dark, c, true)
  }

  /** The index after one activation: it stays in range and moves red to green, green to blue, blue to red. */
  function NextIndex(i: int): (j: int)
    requires 0 <= i < |LedPins|
    ensures 0 <= j < |LedPins|
    ensures LedPins[j] == match LedPins[i] case Red => Green case Green => Blue case Blue => Red
  {
    (i + 1) % 3
  }

  /** The index after `n` activations starting from `i`. */
  function IndexAfter(i: int, n: nat): (j: int)
    requires 0 <= i < |LedPins|
    ensures 0 <= j < |LedPins|
    decreases n
  {
    if n == 0 then i else NextIndex(IndexAfter(i, n - 1))
  }

  /** After `n` activations the index has advanced by `n` modulo 3. */
  lemma {:induction false} IndexAfterIsModular(i: int, n: nat)
    requires 0 <= i < |LedPins|
    ensures IndexAfter(i, n) == (i + n) % 3
    decreases n
  {
    if n > 0 {
      IndexAfterIsModular(i, n - 1);
    }
  }

  /** Three activations bring the index back to where it started. */
  lemma ThreeStepsReturn(i: int)
    requires 0 <= i < |LedPins|
    ensures IndexAfter(i, 3) == i
  {
    IndexAfterIsModular(i, 3);
  }

  /**
   * From the initial index 0, activation `n` (the one at `n` times the hold
   * time) shows red, green, blue, red, ... in that order.
   */
  lemma ColourAtActivation(n: nat)
    ensures LedPins[IndexAfter(0, n)] == [Red, Green, Blue][n % 3]
  {
    IndexAfterIsModular(0, n);
  }
}
