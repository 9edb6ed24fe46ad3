/** The failure flags of dataframe_take and dataframe_filter as the source
    declares them: `static`, so a value set by one call survives into every
    later call. Both functions set the flag on failure and never clear it;
    these definitions follow a series of calls and compare it with the per-call
    flag that Table.Take and Table.Filter use. */
module StaticFlags {
  import opened Wrappers
  import opened TableSpec

  /** Which calls of a series return NULL when each call ORs its own failure
      into a flag that starts at `flag` and is never reset. */
  function Sticky(fails: seq<bool>, flag: bool): (nulls: seq<bool>)
    ensures |nulls| == |fails|
    ensures forall k :: 0 <= k < |fails| ==>
              (nulls[k] <==> flag || exists j :: 0 <= j <= k && fails[j])
    decreases |fails|
  {
    if |fails| == 0 then []
    else
      var now := flag || fails[0];
      var rest := Sticky(fails[1..], now);
      [now] + rest
  }

  /** Which of a series of dataframe_take calls on a table of nEntries rows
      fail on their own indices: the NULL results of Table.Take. Slice and
      filter reach the same flag through the take they call, each with the
      indices it passes, so a series may mix all three. */
  function TakeFailures(nEntries: nat, calls: seq<seq<nat>>): seq<bool>
  {
    seq(|calls|, k requires 0 <= k < |calls| => !AllBelow(calls[k], nEntries))
  }

  /** Which of a series of dataframe_filter calls with a known label on a table
      of nEntries rows fail on their own condition: the NULL results of
      Table.Filter. */
  function FilterFailures(nEntries: nat, checksums: seq<nat>): seq<bool>
  {
    seq(|checksums|, k requires 0 <= k < |checksums| => nEntries > 0 && Decode(checksums[k]).None?)
  }

  /** As written, a take with an out-of-range index makes every later take
      return NULL: on a one-row table, taking row 5 and then row 0 gives NULL
      twice, where the second call should succeed. */
  lemma StickyTakeCounterexample()
    ensures Sticky(TakeFailures(1, [[5], [0]]), false) == [true, true]
    ensures TakeFailures(1, [[5], [0]]) == [true, false]
  {
    var calls: seq<seq<nat>> := [[5], [0]];
    assert calls[0][0] == 5;
    assert !AllBelow(calls[0], 1);
  }

  /** As written, a filter with an invalid condition on a table with a row
      makes every later filter return NULL: checksum 0 and then 120 ("<<")
      give NULL twice, where the second call should succeed. */
  lemma StickyFilterCounterexample()
    ensures Sticky(FilterFailures(1, [0, 120]), false) == [true, true]
    ensures FilterFailures(1, [0, 120]) == [true, false]
  {
  }
}
