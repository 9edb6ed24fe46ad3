/** The `unsigned short` loop counters of dataframe_assign_column, set against
    the `unsigned long` number of values they count up to. The counter wraps
    from 65535 to 0, so for more than 65535 values the guard `i < length`
    never fails. DataFrame.WidenRows and DataFrame.WriteColumn model the
    intended loops, whose counter reaches any length. */
module UShortCounter {
  import opened TableSpec

  /** `i++` on an `unsigned short`. */
  function Increment(i: nat): (next: nat)
    requires i <= MaxUShort
    ensures next == (i + 1) % (MaxUShort + 1)
  {
    if i == MaxUShort then 0 else i + 1
  }

  /** The counter after `steps` passes of a loop that starts it at 0. */
  function CounterAfter(steps: nat): (i: nat)
    ensures i <= MaxUShort
  {
    if steps == 0 then 0 else Increment(CounterAfter(steps - 1))
  }

  /** Up to 65535 passes, the counter holds the number of passes. */
  lemma {:induction false} CounterCountsUp(steps: nat)
    requires steps <= MaxUShort
    ensures CounterAfter(steps) == steps
  {
    if steps > 0 {
      CounterCountsUp(steps - 1);
    }
  }

  /** After 65536 passes the counter is back at 0. */
  lemma CounterWraps()
    ensures CounterAfter(MaxUShort + 1) == 0
  {
    CounterCountsUp(MaxUShort);
  }

  /** The counter repeats every 65536 passes. */
  lemma {:induction false} CounterIsPeriodic(steps: nat)
    ensures CounterAfter(steps + MaxUShort + 1) == CounterAfter(steps)
  {
    if steps == 0 {
      CounterWraps();
    } else {
      CounterIsPeriodic(steps - 1);
    }
  }

  /** As written: for a column of more than 65535 values, the loop guard still
      holds after any number of passes, so the loop never ends. */
  lemma LoopNeverExits(length: nat, steps: nat)
    requires length > MaxUShort
    ensures CounterAfter(steps) < length
  {
  }
}
