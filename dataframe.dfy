/** The DATAFRAME object: a row-major matrix of values with one label per
    column, and the functions that create, read, grow, release and subsample it.
    Each C function is a method of Table (or, for the two static helpers of the
    engine, a method of this module) whose contract ties its result or the new
    state of the table to the specification functions of TableSpec. */
module DataFrame {
  import opened Wrappers
  import opened TableSpec

  /** The status codes returned by the two writers. */
  datatype Status = Success | UnknownLabel | IndexOutOfRange | LengthMismatch {

    /** The `unsigned short` the C function returns for this outcome. */
    function Code(): nat {
      match this
      case Success => 0
      case UnknownLabel => 1
      case IndexOutOfRange => 2
      case LengthMismatch => 1
    }
  }

  /** The sum of an array of non-negative integers (integer_sum). */
  method IntegerSum(input: seq<nat>) returns (sum: nat)
    ensures sum == Sum(input)
  {
    sum := 0;
    for i := 0 to |input|
      invariant sum == Sum(input[..i])
    {
      assert input[..i + 1][..i] == input[..i];
      sum := sum + input[i];
    }
    assert input[..|input|] == input;
  }

  /** The last loop of dataframe_filter: the positions of the set flags, in
      ascending order. */
  method AcceptedIndices(accept: seq<nat>) returns (selected: seq<nat>)
    ensures selected == SelectIndices(accept)
  {
    selected := [];
    for i := 0 to |accept|
      invariant selected == SelectIndices(accept[..i])
    {
      assert accept[..i + 1][..i] == accept[..i];
      if accept[i] != 0 {
        selected := selected + [i];
      }
    }
    assert accept[..|accept|] == accept;
  }

  /** The last loop of dataframe_assign_row: writes values[k] into column
      cols[k] of the row, for k in order. */
  method WriteRow(row: Row, cols: seq<nat>, values: seq<real>) returns (written: Row)
    requires |cols| == |values| && AllBelow(cols, |row|)
    ensures written == WriteCells(row, cols, values)
  {
    written := row;
    for i := 0 to |cols|
      invariant written == WriteCells(row, cols[..i], values[..i])
    {
      assert cols[..i + 1][..i] == cols[..i] && values[..i + 1][..i] == values[..i];
      written := written[cols[i] := values[i]];
    }
    assert cols[..|cols|] == cols && values[..|values|] == values;
  }

  /** The loop of the empty-table regime of dataframe_assign_column: one
      single-cell row per value. */
  method SingleColumn(values: seq<real>) returns (built: seq<Row>)
    ensures |built| == |values|
    ensures forall i :: 0 <= i < |values| ==> built[i] == [values[i]]
  {
    built := [];
    for i := 0 to |values|
      invariant |built| == i
      invariant forall k :: 0 <= k < i ==> built[k] == [values[k]]
    {
      built := built + [[values[i]]];
    }
  }

  /** The realloc loop of dataframe_assign_column: every row grows by one
      cell whose value is not yet defined. */
  method WidenRows(rows: seq<Row>) returns (widened: seq<Row>)
    ensures |widened| == |rows|
    ensures forall i :: 0 <= i < |rows| ==>
              |widened[i]| == |rows[i]| + 1 && widened[i][..|rows[i]|] == rows[i]
  {
    widened := [];
    for i := 0 to |rows|
      invariant |widened| == i
      invariant forall k :: 0 <= k < i ==>
                  |widened[k]| == |rows[k]| + 1 && widened[k][..|rows[k]|] == rows[k]
    {
      widened := widened + [rows[i] + [0.0]];
    }
  }

  /** The write loop of dataframe_assign_column: row i gets values[i] in
      column `index`. */
  method WriteColumn(rows: seq<Row>, index: nat, values: seq<real>) returns (written: seq<Row>)
    requires HasColumn(rows, index) && |values| == |rows|
    ensures |written| == |rows|
    ensures forall i :: 0 <= i < |rows| ==> written[i] == rows[i][index := values[i]]
  {
    written := rows;
    for i := 0 to |rows|
      invariant |written| == |rows|
      invariant forall k :: 0 <= k < |rows| ==>
                  written[k] == if k < i then rows[k][index := values[k]] else rows[k]
    {
      written := written[i := written[i][index := values[i]]];
    }
  }

  /** A DATAFRAME: `rows` is `data` (n_entries rows), `labels` is `labels`
      (n_labels strings), and `nThreads` is `n_threads`, which only sets how
      many workers the parallel loops use. */
  class Table {
    var rows: seq<Row>
    var labels: seq<Label>
    var nThreads: nat

    /** Every row has one cell per label, and every label fits MAX_LABEL_SIZE. */
    ghost predicate Valid()
      reads this
    {
      Rectangular(rows, |labels|) && LabelsFit(labels)
    }

    /** The state that dataframe_assign_column treats as the empty table. */
    predicate IsEmpty()
      reads this
    {
      |rows| == 0 && |labels| == 0
    }

    /** dataframe_empty: no rows, no columns, one thread. */
    constructor Empty()
      ensures Valid() && IsEmpty()
      ensures rows == [] && labels == [] && nThreads == 1
    {
      rows, labels, nThreads := [], [], 1;
    }

    /** dataframe_initialize: copies the first |columnLabels| values of every
        input row and every label; NULL when some label is longer than
        MAX_LABEL_SIZE. */
    static method Initialize(data: seq<Row>, columnLabels: seq<Label>, nThreads: nat)
      returns (df: Table?)
      requires forall i :: 0 <= i < |data| ==> |columnLabels| <= |data[i]|
      ensures df == null <==> !LabelsFit(columnLabels)
      ensures df != null ==> fresh(df) && df.Valid()
      ensures df != null ==> df.labels == columnLabels && df.nThreads == nThreads
      ensures df != null ==> |df.rows| == |data|
      ensures df != null ==> forall i :: 0 <= i < |data| ==> df.rows[i] == data[i][..|columnLabels|]
    {
      var copied: seq<Row> := [];
      for i := 0 to |data|
        invariant |copied| == i
        invariant forall k :: 0 <= k < i ==> copied[k] == data[k][..|columnLabels|]
      {
        var row: Row := [];
        for j := 0 to |columnLabels|
          invariant row == data[i][..j]
        {
          row := row + [data[i][j]];
        }
        copied := copied + [row];
      }
      var kept: seq<Label> := [];
      for i := 0 to |columnLabels|
        invariant kept == columnLabels[..i]
        invariant LabelsFit(kept)
      {
        if |columnLabels[i]| <= MaxLabelSize {
          kept := kept + [columnLabels[i]];
        } else {
          return null;
        }
      }
      df := new Table.Empty();
      df.rows, df.labels, df.nThreads := copied, kept, nThreads;
    }

    /** dataframe_free: releases the storage and resets both counts to zero. */
    method Free()
      modifies this
      ensures Valid() && IsEmpty()
      ensures rows == [] && labels == [] && nThreads == old(nThreads)
    {
      rows, labels := [], [];
    }

    /** column_index: the first column whose label is `name`, or -1. */
    method ColumnIndex(name: Label) returns (index: int)
      ensures index == IndexOf(labels, name)
      ensures index == -1 <==> name !in labels
      ensures index >= 0 ==> labels[index] == name
      ensures index >= 0 ==> forall j :: 0 <= j < index ==> labels[j] != name
    {
      for i := 0 to |labels|
        invariant name !in labels[..i]
      {
        if labels[i] == name {
          return i;
        }
      }
      return -1;
    }

    /** dataframe_get_row: a copy of row `index`; NULL when there is no such row. */
    method GetRow(index: nat) returns (copy: Option<Row>)
      requires Valid()
      ensures copy.None? <==> index >= |rows|
      ensures copy.Some? ==> copy.value == rows[index]
    {
      if index < |rows| {
        var cells: Row := [];
        for i := 0 to |labels|
          invariant cells == rows[index][..i]
        {
          cells := cells + [rows[index][i]];
        }
        return Some(cells);
      } else {
        return None;
      }
    }

    /** dataframe_get_column: a copy of the column labelled `name`, one cell
        per row; NULL when no column has that label. */
    method GetColumn(name: Label) returns (copy: Option<seq<real>>)
      requires Valid()
      ensures copy.None? <==> name !in labels
      ensures copy.Some? ==> |copy.value| == |rows|
      ensures copy.Some? ==> forall i :: 0 <= i < |rows| ==> copy.value[i] == rows[i][IndexOf(labels, name)]
    {
      var index := ColumnIndex(name);
      if 0 <= index < |labels| {
        var cells: seq<real> := [];
        for i := 0 to |rows|
          invariant |cells| == i
          invariant forall k :: 0 <= k < i ==> cells[k] == rows[k][index]
        {
          cells := cells + [rows[i][index]];
        }
        return Some(cells);
      } else {
        return None;
      }
    }

    /** The first loop of dataframe_assign_row: the column of every name, or
        None as soon as one name is not a label. */
    method ResolveLabels(names: seq<Label>) returns (cols: Option<seq<nat>>)
      ensures cols.None? <==> !AllKnown(labels, names)
      ensures cols.Some? ==> cols.value == ResolveColumns(labels, names)
    {
      var found: seq<nat> := [];
      for i := 0 to |names|
        invariant |found| == i
        invariant forall k :: 0 <= k < i ==> names[k] in labels && found[k] == IndexOf(labels, names[k])
      {
        var c := ColumnIndex(names[i]);
        if c == -1 {
          return None;
        }
        found := found + [c];
      }
      return Some(found);
    }

    /** dataframe_assign_row: writes values[k] into column names[k] of row
        `index`, later names winning over earlier ones. Every name is resolved
        before anything is written; an unknown name rejects the whole call, and
        is checked before the index. `index == n_entries` appends a row, whose
        cells that no name writes are left unspecified. */
    method AssignRow(index: nat, names: seq<Label>, values: seq<real>) returns (status: Status)
      requires Valid()
      requires |names| == |values|
      modifies this
      ensures Valid() && labels == old(labels) && nThreads == old(nThreads)
      ensures status == UnknownLabel <==> !AllKnown(labels, names)
      ensures status == IndexOutOfRange <==> AllKnown(labels, names) && index > old(|rows|)
      ensures status == Success <==> AllKnown(labels, names) && index <= old(|rows|)
      ensures status.Code() == if !AllKnown(labels, names) then 1 else if index > old(|rows|) then 2 else 0
      ensures status != Success ==> rows == old(rows)
      ensures status == Success && index < old(|rows|) ==>
                rows == old(rows)[index := WriteCells(old(rows)[index], ResolveColumns(labels, names), values)]
      ensures status == Success && index == old(|rows|) ==>
                |rows| == old(|rows|) + 1 && rows[..index] == old(rows)
      ensures status == Success && index == old(|rows|) ==>
                forall j :: 0 <= j < |labels| && LastWrite(ResolveColumns(labels, names), j) != -1 ==>
                  rows[index][j] == values[LastWrite(ResolveColumns(labels, names), j)]
    {
      var resolved := ResolveLabels(names);
      if resolved.None? {
        return UnknownLabel;
      }
      var cols := resolved.value;

      if index == |rows| {
        var blank: Row := seq(|labels|, _ => 0.0);
        var row := WriteRow(blank, cols, values);
        forall j | 0 <= j < |labels|
          ensures row[j] == if LastWrite(cols, j) == -1 then blank[j] else values[LastWrite(cols, j)]
        {
          WriteCellsAt(blank, cols, values, j);
        }
        rows := rows + [row];
      } else if index > |rows| {
        return IndexOutOfRange;
      } else {
        var row := WriteRow(rows[index], cols, values);
        rows := rows[index := row];
      }
      return Success;
    }

    /** dataframe_assign_column. On the empty table the call defines the row
        count and the only column. Otherwise the number of values must equal
        the row count; then an existing label has its column overwritten and a
        new label adds a last column. */
    method AssignColumn(name: Label, values: seq<real>) returns (status: Status)
      requires Valid()
      requires IsEmpty() || (|values| == |rows| && name !in labels) ==> |name| <= MaxLabelSize
      modifies this
      ensures Valid() && nThreads == old(nThreads)
      ensures status.Code() == if !old(IsEmpty()) && |values| != old(|rows|) then 1 else 0
      ensures old(IsEmpty()) ==>
                status == Success && labels == [name] && |rows| == |values| &&
                forall i :: 0 <= i < |values| ==> rows[i] == [values[i]]
      ensures !old(IsEmpty()) && |values| != old(|rows|) ==>
                status == LengthMismatch && rows == old(rows) && labels == old(labels)
      ensures !old(IsEmpty()) && |values| == old(|rows|) && name in old(labels) ==>
                status == Success && labels == old(labels) && |rows| == old(|rows|) &&
                forall i :: 0 <= i < |rows| ==> rows[i] == old(rows[i])[IndexOf(labels, name) := values[i]]
      ensures !old(IsEmpty()) && |values| == old(|rows|) && name !in old(labels) ==>
                status == Success && labels == old(labels) + [name] && |rows| == old(|rows|) &&
                forall i :: 0 <= i < |rows| ==> rows[i] == old(rows[i]) + [values[i]]
      ensures status == Success ==> name in labels && Column(rows, IndexOf(labels, name)) == values
      ensures status == Success ==>
                forall j :: 0 <= j < old(|labels|) && j != IndexOf(labels, name) ==>
                  Column(rows, j) == old(Column(rows, j))
      ensures old(Distinct(labels)) ==> Distinct(labels)
    {
      if |rows| == 0 && |labels| == 0 {
        rows := SingleColumn(values);
        labels := [name];
        return Success;
      } else if |values| == |rows| {
        var index := ColumnIndex(name);
        ghost var before := rows;
        if index == -1 {
          index := |labels|;
          labels := labels + [name];
          var widened := WidenRows(rows);
          rows := WriteColumn(widened, index, values);
          forall i | 0 <= i < |rows|
            ensures rows[i] == before[i] + [values[i]]
          {
            assert |widened[i]| == |before[i]| + 1;
          }
          AppendColumnReads(before, rows, values, index);
          assert IndexOf(labels, name) == index;
        } else {
          rows := WriteColumn(rows, index, values);
          OverwriteColumnReads(before, rows, index, values);
        }
        return Success;
      } else {
        return LengthMismatch;
      }
    }

    /** dataframe_take: a new table whose row k is a copy of row indices[k],
        keeping order and repetitions, with the same labels and thread count;
        NULL when some index is not a row. */
    method Take(indices: seq<nat>) returns (subsample: Table?)
      requires Valid()
      ensures subsample == null <==> !AllBelow(indices, |rows|)
      ensures subsample != null ==> fresh(subsample) && subsample.Valid()
      ensures subsample != null ==>
                subsample.rows == Gather(rows, indices) &&
                subsample.labels == labels && subsample.nThreads == nThreads
    {
      var failed := false;
      var copied: seq<Row> := [];
      for i := 0 to |indices|
        invariant |copied| == i
        invariant failed <==> !AllBelow(indices[..i], |rows|)
        invariant forall k :: 0 <= k < i && indices[k] < |rows| ==> copied[k] == rows[indices[k]]
      {
        var row := GetRow(indices[i]);
        match row
        case Some(cells) =>
          copied := copied + [cells];
        case None =>
          copied := copied + [[]];
          failed := true;
      }
      assert indices[..|indices|] == indices;
      if failed {
        return null;
      }
      subsample := Initialize(copied, labels, nThreads);
      assert forall k :: 0 <= k < |indices| ==> subsample.rows[k] == rows[indices[k]];
    }

    /** dataframe_slice: rows start .. stop - 1 when start < stop, and the single
        row `start` when start == stop, through dataframe_take. */
    method Slice(start: nat, stop: nat) returns (slice: Table?)
      requires Valid()
      requires start <= stop
      ensures slice == null <==> if start < stop then |rows| < stop else |rows| <= start
      ensures slice != null ==> fresh(slice) && slice.Valid()
      ensures slice != null ==> slice.labels == labels && slice.nThreads == nThreads
      ensures slice != null && start < stop ==> slice.rows == rows[start..stop]
      ensures slice != null && start == stop ==> slice.rows == [rows[start]]
    {
      var indices: seq<nat>;
      if start < stop {
        indices := [];
        for i := start to stop
          invariant indices == Range(start, i)
        {
          indices := indices + [i];
        }
        assert indices[stop - 1 - start] == stop - 1;
      } else {
        indices := [start];
        assert indices[0] == start;
      }
      slice := Take(indices);
      if start < stop && slice != null {
        GatherRange(rows, start, stop);
      }
    }

    /** The first loop of dataframe_filter: the accept flag of every row for
        the relation that `checksum` selects, and whether the switch met a
        checksum that is not a condition (which it can only do on some row). */
    method EvaluateCondition(index: nat, checksum: nat, value: real) returns (accept: seq<nat>, invalid: bool)
      requires Valid() && index < |labels|
      ensures |accept| == |rows| && IsFlags(accept)
      ensures invalid <==> |rows| > 0 && Decode(checksum).None?
      ensures Decode(checksum).Some? ==> accept == AcceptFlags(rows, index, Decode(checksum).value, value)
    {
      accept := [];
      invalid := false;
      for i := 0 to |rows|
        invariant |accept| == i && IsFlags(accept)
        invariant invalid <==> i > 0 && Decode(checksum).None?
        invariant Decode(checksum).Some? ==> forall k :: 0 <= k < i ==>
                    accept[k] == if Holds(Decode(checksum).value, rows[k][index], value) then 1 else 0
      {
        if checksum == 120 {
          accept := accept + [if rows[i][index] < value then 1 else 0];
        } else if checksum == 121 {
          accept := accept + [if rows[i][index] <= value then 1 else 0];
        } else if checksum == 122 {
          accept := accept + [if rows[i][index] == value then 1 else 0];
        } else if checksum == 123 {
          accept := accept + [if rows[i][index] >= value then 1 else 0];
        } else if checksum == 124 {
          accept := accept + [if rows[i][index] > value then 1 else 0];
        } else {
          accept := accept + [0];
          invalid := true;
        }
      }
    }

    /** dataframe_filter: the rows whose cell in column `name` satisfies
        `cell rel value`, in their original order, where the relation is
        decoded from the sum of the two condition characters. NULL when the
        label is unknown, or when the condition is not one of the five and
        the table has a row to test it on. */
    method Filter(name: Label, condition: seq<CChar>, value: real) returns (filtered: Table?)
      requires Valid()
      requires |condition| >= 2
      ensures filtered == null <==>
                name !in labels || (|rows| > 0 && Decode(Checksum(condition[0], condition[1])).None?)
      ensures filtered != null ==> fresh(filtered) && filtered.Valid()
      ensures filtered != null ==> filtered.labels == labels && filtered.nThreads == nThreads
      ensures filtered != null && |rows| == 0 ==> filtered.rows == []
      ensures filtered != null && |rows| > 0 ==>
                filtered.rows == Gather(rows, Matching(rows, IndexOf(labels, name),
                                          Decode(Checksum(condition[0], condition[1])).value, value))
      ensures filtered != null && |rows| > 0 ==>
                |filtered.rows| == Sum(AcceptFlags(rows, IndexOf(labels, name),
                                         Decode(Checksum(condition[0], condition[1])).value, value))
    {
      var index := ColumnIndex(name);
      if index == -1 {
        return null;
      }
      var checksum := Checksum(condition[0], condition[1]);
      var accept, invalid := EvaluateCondition(index, checksum, value);
      if invalid {
        return null;
      }

      var nPass := IntegerSum(accept);
      var selected := AcceptedIndices(accept);
      SelectedCount(accept);
      assert selected[..nPass] == selected;
      filtered := Take(selected[..nPass]);
      if |rows| > 0 {
        ghost var rel := Decode(checksum).value;
        assert accept == AcceptFlags(rows, index, rel, value);
        assert selected == Matching(rows, index, rel, value);
      }
    }
  }
}
