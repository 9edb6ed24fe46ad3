/** Values and specification functions of the table engine: what a label
    lookup, a gather of rows, a row write, a column read and a filter produce,
    stated on sequences, with the lemmas that give them their meaning. The
    methods of DataFrame.Table are proved against these functions. */
module TableSpec {
  import opened Wrappers

  /** One data vector, a value per column. The source stores doubles and only
      copies and compares them, so they are modelled as reals. */
  type Row = seq<real>

  /** A column label: the bytes of a C string, without its terminator. Each
      `char` stands for one C `char` (one byte), so the length of a label is
      its `strlen`; labels are compared byte by byte, as `strcmp` does. */
  type Label = string

  /** MAX_LABEL_SIZE: the longest label a table accepts. */
  const MaxLabelSize: nat := 100

  /** The largest value of an `unsigned short`. */
  const MaxUShort: nat := 65535

  /** Every row has exactly `width` cells. */
  predicate Rectangular(rows: seq<Row>, width: nat) {
    forall i :: 0 <= i < |rows| ==> |rows[i]| == width
  }

  /** No label is longer than MAX_LABEL_SIZE. */
  predicate LabelsFit(labels: seq<Label>) {
    forall k :: 0 <= k < |labels| ==> |labels[k]| <= MaxLabelSize
  }

  /** No label occurs twice. */
  predicate Distinct(labels: seq<Label>) {
    forall a, b :: 0 <= a < b < |labels| ==> labels[a] != labels[b]
  }

  // ---------------------------------------------------------------------
  // Label lookup

  /** The offset of the first label equal to `name`, or -1 when there is none. */
  function IndexOf(labels: seq<Label>, name: Label): (r: int)
    ensures -1 <= r < |labels|
    ensures r == -1 <==> name !in labels
    ensures r >= 0 ==> labels[r] == name && forall j :: 0 <= j < r ==> labels[j] != name
  {
    if |labels| == 0 then -1
    else if labels[0] == name then 0
    else
      var r := IndexOf(labels[1..], name);
      if r == -1 then -1 else r + 1
  }

  /** In a table whose labels are distinct, each label is found at its own offset. */
  lemma IndexOfDistinct(labels: seq<Label>, k: nat)
    requires Distinct(labels) && k < |labels|
    ensures IndexOf(labels, labels[k]) == k
  {
  }

  /** Every name of the batch is the label of some column. */
  predicate AllKnown(labels: seq<Label>, names: seq<Label>) {
    forall k :: 0 <= k < |names| ==> names[k] in labels
  }

  /** The column offset each name of the batch resolves to. */
  function ResolveColumns(labels: seq<Label>, names: seq<Label>): (cols: seq<nat>)
    requires AllKnown(labels, names)
    ensures |cols| == |names|
    ensures forall k :: 0 <= k < |names| ==> cols[k] == IndexOf(labels, names[k]) && cols[k] < |labels|
  {
    seq(|names|, k requires 0 <= k < |names| => IndexOf(labels, names[k]) as nat)
  }

  // ---------------------------------------------------------------------
  // Gathering rows

  /** Every index of the list is below `n`. */
  predicate AllBelow(indices: seq<nat>, n: nat) {
    forall k :: 0 <= k < |indices| ==> indices[k] < n
  }

  /** The rows at the given indices, in the order of the list. */
  function Gather(rows: seq<Row>, indices: seq<nat>): seq<Row>
    requires AllBelow(indices, |rows|)
  {
    seq(|indices|, k requires 0 <= k < |indices| => rows[indices[k]])
  }

  /** The indices start, start + 1, ..., stop - 1. */
  function Range(start: nat, stop: nat): seq<nat>
    requires start <= stop
  {
    seq(stop - start, k requires 0 <= k < stop - start => start + k)
  }

  /** Gathering a range of indices is taking the contiguous slice. */
  lemma GatherRange(rows: seq<Row>, start: nat, stop: nat)
    requires start <= stop <= |rows|
    ensures AllBelow(Range(start, stop), |rows|)
    ensures Gather(rows, Range(start, stop)) == rows[start..stop]
  {
  }

  /** Gathering keeps the width of the rows. */
  lemma GatherRectangular(rows: seq<Row>, indices: seq<nat>, width: nat)
    requires Rectangular(rows, width) && AllBelow(indices, |rows|)
    ensures Rectangular(Gather(rows, indices), width)
  {
  }

  // ---------------------------------------------------------------------
  // Writing cells of one row

  /** The row after writing values[k] into column cols[k], for k in order. */
  function WriteCells(row: Row, cols: seq<nat>, values: seq<real>): (r: Row)
    requires |cols| == |values| && AllBelow(cols, |row|)
    ensures |r| == |row|
    decreases |cols|
  {
    if |cols| == 0 then row
    else
      var n := |cols| - 1;
      WriteCells(row, cols[..n], values[..n])[cols[n] := values[n]]
  }

  /** The position of the last write to column `j`, or -1 when no write goes there. */
  function LastWrite(cols: seq<nat>, j: nat): (k: int)
    ensures -1 <= k < |cols|
    ensures k == -1 <==> j !in cols
    ensures k >= 0 ==> cols[k] == j && forall m :: k < m < |cols| ==> cols[m] != j
    decreases |cols|
  {
    if |cols| == 0 then -1
    else if cols[|cols| - 1] == j then |cols| - 1
    else LastWrite(cols[..|cols| - 1], j)
  }

  /** A cell keeps its value unless some write goes to its column, and then
      holds the value of the last such write. */
  lemma {:induction false} WriteCellsAt(row: Row, cols: seq<nat>, values: seq<real>, j: nat)
    requires |cols| == |values| && AllBelow(cols, |row|) && j < |row|
    ensures WriteCells(row, cols, values)[j] ==
              if LastWrite(cols, j) == -1 then row[j] else values[LastWrite(cols, j)]
    decreases |cols|
  {
    if |cols| > 0 {
      var n := |cols| - 1;
      if cols[n] != j {
        WriteCellsAt(row, cols[..n], values[..n], j);
      }
    }
  }

  /** Writing every column of a row its own value leaves the row as it was. */
  lemma WriteOwnValues(row: Row, cols: seq<nat>)
    requires |cols| == |row| && forall k :: 0 <= k < |cols| ==> cols[k] == k
    ensures WriteCells(row, cols, row) == row
  {
    forall j | 0 <= j < |row|
      ensures WriteCells(row, cols, row)[j] == row[j]
    {
      WriteCellsAt(row, cols, row, j);
      assert cols[j] == j;
    }
  }

  /** Writing back a copied row under its table's own (distinct) labels is a
      no-op: the round trip of a row read followed by a row assignment. */
  lemma RowRoundTrip(row: Row, labels: seq<Label>)
    requires Distinct(labels) && |row| == |labels|
    ensures AllKnown(labels, labels)
    ensures WriteCells(row, ResolveColumns(labels, labels), row) == row
  {
    assert AllKnown(labels, labels);
    var cols := ResolveColumns(labels, labels);
    forall k | 0 <= k < |cols|
      ensures cols[k] == k
    {
      IndexOfDistinct(labels, k);
    }
    WriteOwnValues(row, cols);
  }

  // ---------------------------------------------------------------------
  // Columns

  /** Every row has a cell in column `j`. */
  predicate HasColumn(rows: seq<Row>, j: nat) {
    forall i :: 0 <= i < |rows| ==> j < |rows[i]|
  }

  /** The cells of column `j`, top to bottom. */
  function Column(rows: seq<Row>, j: nat): seq<real>
    requires HasColumn(rows, j)
  {
    seq(|rows|, i requires 0 <= i < |rows| => rows[i][j])
  }

  /** After column j is overwritten, reading it gives the new values and
      every other column reads as before. */
  lemma OverwriteColumnReads(rows: seq<Row>, written: seq<Row>, j: nat, values: seq<real>)
    requires HasColumn(rows, j) && |written| == |rows| == |values|
    requires forall i :: 0 <= i < |rows| ==> written[i] == rows[i][j := values[i]]
    ensures HasColumn(written, j) && Column(written, j) == values
    ensures forall c :: HasColumn(rows, c) && c != j ==>
              HasColumn(written, c) && Column(written, c) == Column(rows, c)
  {
  }

  /** After a column is appended at offset `width`, reading it gives the new
      values and every earlier column reads as before. */
  lemma AppendColumnReads(rows: seq<Row>, written: seq<Row>, values: seq<real>, width: nat)
    requires Rectangular(rows, width) && |written| == |rows| == |values|
    requires forall i :: 0 <= i < |rows| ==> written[i] == rows[i] + [values[i]]
    ensures Rectangular(written, width + 1)
    ensures HasColumn(written, width) && Column(written, width) == values
    ensures forall c :: 0 <= c < width ==> HasColumn(written, c) && Column(written, c) == Column(rows, c)
  {
  }

  // ---------------------------------------------------------------------
  // Sums and selections of accept flags

  /** The additive sum of the entries. */
  function Sum(xs: seq<nat>): nat
    decreases |xs|
  {
    if |xs| == 0 then 0 else Sum(xs[..|xs| - 1]) + xs[|xs| - 1]
  }

  /** Every entry is 0 or 1, as an accept flag of the filter. */
  predicate IsFlags(xs: seq<nat>) {
    forall k :: 0 <= k < |xs| ==> xs[k] <= 1
  }

  /** The strictly increasing list of positions whose flag is set. */
  function SelectIndices(flags: seq<nat>): (r: seq<nat>)
    ensures forall k :: 0 <= k < |r| ==> r[k] < |flags| && flags[r[k]] != 0
    ensures forall i :: 0 <= i < |flags| && flags[i] != 0 ==> i in r
    ensures forall k, m :: 0 <= k < m < |r| ==> r[k] < r[m]
    decreases |flags|
  {
    if |flags| == 0 then []
    else
      var n := |flags| - 1;
      var front := SelectIndices(flags[..n]);
      assert forall k :: 0 <= k < |front| ==> front[k] < n && flags[front[k]] == flags[..n][front[k]];
      assert forall i :: 0 <= i < n ==> flags[i] == flags[..n][i];
      var last := if flags[n] != 0 then [n] else [];
      front + last
  }

  /** As many positions are selected as the flags add up to. */
  lemma {:induction false} SelectedCount(flags: seq<nat>)
    requires IsFlags(flags)
    ensures |SelectIndices(flags)| == Sum(flags)
    decreases |flags|
  {
    if |flags| > 0 {
      var n := |flags| - 1;
      assert IsFlags(flags[..n]);
      SelectedCount(flags[..n]);
    }
  }

  // ---------------------------------------------------------------------
  // Filter conditions

  /** The five comparisons a filter applies as `cell rel value`. */
  datatype Relation = Less | LessOrEqual | Equal | GreaterOrEqual | Greater

  function Holds(rel: Relation, cell: real, value: real): bool {
    match rel
    case Less => cell < value
    case LessOrEqual => cell <= value
    case Equal => cell == value
    case GreaterOrEqual => cell >= value
    case Greater => cell > value
  }

  /** A C `char`, signed as on the usual targets. */
  newtype CChar = x: int | -128 <= x < 128

  /** The characters '<', '=' and '>'. */
  const LessSign: CChar := 60
  const EqualsSign: CChar := 61
  const GreaterSign: CChar := 62

  /** The sum of the two condition characters, each converted to
      `unsigned short`, stored in an `unsigned short`. */
  function Checksum(c0: CChar, c1: CChar): nat {
    ((c0 as int % 65536) + (c1 as int % 65536)) % 65536
  }

  /** The relation a checksum selects; no other checksum is a condition. */
  function Decode(checksum: nat): Option<Relation> {
    if checksum == 120 then Some(Less)
    else if checksum == 121 then Some(LessOrEqual)
    else if checksum == 122 then Some(Equal)
    else if checksum == 123 then Some(GreaterOrEqual)
    else if checksum == 124 then Some(Greater)
    else None
  }

  /** The documented condition strings decode to the documented relations. */
  lemma DocumentedConditions()
    ensures Decode(Checksum(LessSign, LessSign)) == Some(Less)
    ensures Decode(Checksum(LessSign, EqualsSign)) == Some(LessOrEqual)
    ensures Decode(Checksum(EqualsSign, EqualsSign)) == Some(Equal)
    ensures Decode(Checksum(GreaterSign, EqualsSign)) == Some(GreaterOrEqual)
    ensures Decode(Checksum(GreaterSign, GreaterSign)) == Some(Greater)
  {
  }

  /** Only the sum counts: the order of the characters never matters, and
      "<>" and "><" mean exactly equal, like "==". */
  lemma ConditionIsASum(c0: CChar, c1: CChar)
    ensures Decode(Checksum(c0, c1)) == Decode(Checksum(c1, c0))
    ensures Decode(Checksum(LessSign, GreaterSign)) == Some(Equal)
  {
  }

  /** The accept flag of every row: 1 when its cell in column `col` satisfies
      `cell rel value`, 0 otherwise. */
  function AcceptFlags(rows: seq<Row>, col: nat, rel: Relation, value: real): (flags: seq<nat>)
    requires HasColumn(rows, col)
  {
    seq(|rows|, i requires 0 <= i < |rows| => if Holds(rel, rows[i][col], value) then 1 else 0)
  }

  /** The indices of the rows that pass the filter, in ascending order. */
  function Matching(rows: seq<Row>, col: nat, rel: Relation, value: real): seq<nat>
    requires HasColumn(rows, col)
  {
    SelectIndices(AcceptFlags(rows, col, rel, value))
  }

  /** The filter keeps exactly the rows whose cell satisfies the relation, in
      ascending original order, and keeps as many as the accept flags add up to. */
  lemma MatchingSpec(rows: seq<Row>, col: nat, rel: Relation, value: real)
    requires HasColumn(rows, col)
    ensures AllBelow(Matching(rows, col, rel, value), |rows|)
    ensures forall i :: 0 <= i < |rows| ==>
              (i in Matching(rows, col, rel, value) <==> Holds(rel, rows[i][col], value))
    ensures forall k, m :: 0 <= k < m < |Matching(rows, col, rel, value)| ==>
              Matching(rows, col, rel, value)[k] < Matching(rows, col, rel, value)[m]
    ensures |Matching(rows, col, rel, value)| == Sum(AcceptFlags(rows, col, rel, value))
  {
    var flags := AcceptFlags(rows, col, rel, value);
    var r := Matching(rows, col, rel, value);
    assert IsFlags(flags);
    SelectedCount(flags);
    forall i | 0 <= i < |rows| && i in r
      ensures Holds(rel, rows[i][col], value)
    {
      var k :| 0 <= k < |r| && r[k] == i;
      assert flags[r[k]] != 0;
    }
  }

  /** Strict less, equal and strict greater split the rows into three disjoint
      groups that cover them all, and the non-strict relations are the unions. */
  lemma RelationsPartition(rows: seq<Row>, col: nat, value: real)
    requires HasColumn(rows, col)
    ensures forall i :: 0 <= i < |rows| ==>
              var lt := i in Matching(rows, col, Less, value);
              var eq := i in Matching(rows, col, Equal, value);
              var gt := i in Matching(rows, col, Greater, value);
              (lt || eq || gt) && !(lt && eq) && !(lt && gt) && !(eq && gt)
    ensures forall i :: 0 <= i < |rows| ==>
              (i in Matching(rows, col, LessOrEqual, value) <==>
                 i in Matching(rows, col, Less, value) || i in Matching(rows, col, Equal, value))
    ensures forall i :: 0 <= i < |rows| ==>
              (i in Matching(rows, col, GreaterOrEqual, value) <==>
                 i in Matching(rows, col, Greater, value) || i in Matching(rows, col, Equal, value))
  {
    MatchingSpec(rows, col, Less, value);
    MatchingSpec(rows, col, LessOrEqual, value);
    MatchingSpec(rows, col, Equal, value);
    MatchingSpec(rows, col, GreaterOrEqual, value);
    MatchingSpec(rows, col, Greater, value);
  }
}
