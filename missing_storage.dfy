/** How much storage a C dataframe holds, next to the counts it declares. A
    later call reads `data[i]` for every i below n_entries and `labels[j]`
    for every j below n_labels, so the counts must not run ahead of what was
    allocated or stored. Two growth paths of the source let them run ahead;
    Table.AssignRow and Table.AssignColumn model the intended behaviour, which
    keeps Table.Valid. */
module MissingStorage {

  /** Declared counts (n_entries, n_labels) and how many row buffers and label
      strings are actually in place. */
  datatype Layout = Layout(nEntries: nat, nLabels: nat, rowsStored: nat, labelsStored: nat)

  /** Every row and every label a later call may read is in place. */
  predicate Sound(l: Layout) {
    l.rowsStored == l.nEntries && l.labelsStored == l.nLabels
  }

  /** dataframe_empty: nothing declared, nothing stored. */
  function EmptyLayout(): Layout {
    Layout(0, 0, 0, 0)
  }

  /** dataframe_assign_column on an empty table, as written: one row buffer
      per value and n_labels set to one, but the label is never copied in. */
  function AssignColumnIntoEmpty(l: Layout, length: nat): Layout
    requires l.nEntries == 0 && l.nLabels == 0
  {
    Layout(length, 1, length, l.labelsStored)
  }

  /** The append branch of dataframe_assign_row, as written: n_entries grows
      by one and the row-pointer array is enlarged, but no buffer is
      allocated for the new row. */
  function AppendRowAsWritten(l: Layout): Layout {
    Layout(l.nEntries + 1, l.nLabels, l.rowsStored, l.labelsStored)
  }

  /** Assigning a column to an empty table declares a label it never stores,
      whatever the number of values. */
  lemma AssignColumnIntoEmptyLosesLabel(length: nat)
    ensures !Sound(AssignColumnIntoEmpty(EmptyLayout(), length))
    ensures AssignColumnIntoEmpty(EmptyLayout(), length).labelsStored <
            AssignColumnIntoEmpty(EmptyLayout(), length).nLabels
  {
  }

  /** Appending a row to any sound table declares a row it never allocates. */
  lemma AppendRowLosesRow(l: Layout)
    requires Sound(l)
    ensures !Sound(AppendRowAsWritten(l))
    ensures AppendRowAsWritten(l).rowsStored < AppendRowAsWritten(l).nEntries
  {
  }
}
