/** The `casbin_rule` table as the adapter sees it through Medoo: an ordered
    sequence of rows with a `ptype` column and six nullable positional
    columns `v0`..`v5`, an insert that fills the listed columns and leaves
    the rest NULL, and a delete that drops every row satisfying an AND of
    column equalities. */
module Table {

  datatype Option<T> = None | Some(value: T)

  /** A nullable VARCHAR cell; None is SQL NULL. */
  type Cell = Option<string>

  /** Number of positional columns, v0..v5. */
  const Width: nat := 6

  /** A column name: `ptype`, or `v<i>`. */
  datatype Column = PType | V(i: nat)

  /** The columns the table was created with. */
  predicate ValidColumn(c: Column) {
    c.PType? || c.i < Width
  }

  type Cells = s: seq<Cell> | |s| == Width witness [None, None, None, None, None, None]

  datatype Row = Row(ptype: Cell, v: Cells)

  /** The value a row holds in column `c`. */
  function At(row: Row, c: Column): Cell
    requires ValidColumn(c)
  {
    if c.PType? then row.ptype else row.v[c.i]
  }

  /** A column-to-value array as Medoo takes it, both for the data of an
      insert and for the equalities of an AND where clause. */
  type Data = map<Column, string>

  /** Every key names an existing column (any other key is a storage error). */
  predicate ValidData(d: Data) {
    forall c :: c in d ==> ValidColumn(c)
  }

  function Lookup(d: Data, c: Column): Cell {
    if c in d then Some(d[c]) else None
  }

  /** The row Medoo's insert stores for `d`: the listed columns hold their
      values and every column not listed is NULL. */
  function Insert(d: Data): (row: Row)
    requires ValidData(d)
    ensures forall c :: ValidColumn(c) ==> At(row, c) == Lookup(d, c)
  {
    Row(Lookup(d, PType),
        [Lookup(d, V(0)), Lookup(d, V(1)), Lookup(d, V(2)),
         Lookup(d, V(3)), Lookup(d, V(4)), Lookup(d, V(5))])
  }

  /** The SQL condition `c1 = 'x1' AND c2 = 'x2' ...`; a NULL cell equals
      no string, so it never satisfies an equality. */
  predicate Matches(row: Row, w: Data)
    requires ValidData(w)
  {
    forall c :: c in w ==> At(row, c) == Some(w[c])
  }

  /** Medoo's delete with an AND where clause: the rows that do not satisfy
      it, in table order. */
  function Delete(table: seq<Row>, w: Data): (r: seq<Row>)
    requires ValidData(w)
    ensures |r| <= |table|
  {
    if |table| == 0 then []
    else
      var rest := Delete(table[1..], w);
      if Matches(table[0], w) then rest else [table[0]] + rest
  }

  /** Exactly the rows that do not satisfy the where clause survive. */
  lemma {:induction false} DeleteMembers(table: seq<Row>, w: Data)
    requires ValidData(w)
    ensures forall row :: row in Delete(table, w) <==> row in table && !Matches(row, w)
    decreases |table|
  {
    if |table| > 0 {
      var head, tail := table[0], table[1..];
      DeleteMembers(tail, w);
      assert table == [head] + tail;
      assert Delete(table, w) == (if Matches(head, w) then [] else [head]) + Delete(tail, w);
    }
  }

  /** The rows a delete with `w` removes, in table order. */
  function Selected(table: seq<Row>, w: Data): (r: seq<Row>)
    requires ValidData(w)
    ensures forall row :: row in r <==> row in table && Matches(row, w)
  {
    if |table| == 0 then []
    else
      var rest := Selected(table[1..], w);
      if Matches(table[0], w) then [table[0]] + rest else rest
  }

  /** Every row is either kept or selected for removal: the two counts add
      up to the table's size. */
  lemma {:induction false} DeleteCount(table: seq<Row>, w: Data)
    requires ValidData(w)
    ensures |Delete(table, w)| + |Selected(table, w)| == |table|
    decreases |table|
  {
    if |table| > 0 {
      DeleteCount(table[1..], w);
    }
  }

  /** Deleting from a concatenation deletes from each part: the surviving
      rows keep their relative order. */
  lemma {:induction false} DeleteAppend(a: seq<Row>, b: seq<Row>, w: Data)
    requires ValidData(w)
    ensures Delete(a + b, w) == Delete(a, w) + Delete(b, w)
    decreases |a|
  {
    if |a| > 0 {
      var head, tail := a[0], a[1..];
      var kept := if Matches(head, w) then [] else [head];
      assert Delete(a + b, w) == kept + Delete(tail + b, w) by {
        assert (a + b)[0] == head && (a + b)[1..] == tail + b;
      }
      assert Delete(a, w) == kept + Delete(tail, w);
      DeleteAppend(tail, b, w);
    } else {
      assert a + b == b;
    }
  }

  /** Nothing else changes: every row is either kept or removed, never both,
      never lost and never duplicated. */
  lemma {:induction false} DeletePartition(table: seq<Row>, w: Data)
    requires ValidData(w)
    ensures multiset(Delete(table, w)) + multiset(Selected(table, w)) == multiset(table)
    ensures |Delete(table, w)| + |Selected(table, w)| == |table|
    decreases |table|
  {
    if |table| > 0 {
      var head, tail := table[0], table[1..];
      DeletePartition(tail, w);
      assert table == [head] + tail;
      if Matches(head, w) {
        assert Delete(table, w) == Delete(tail, w);
        assert Selected(table, w) == [head] + Selected(tail, w);
      } else {
        assert Delete(table, w) == [head] + Delete(tail, w);
        assert Selected(table, w) == Selected(tail, w);
      }
    }
  }

  /** A delete that matches no row leaves the table as it was. */
  lemma {:induction false} DeleteNoMatch(table: seq<Row>, w: Data)
    requires ValidData(w)
    requires forall k :: 0 <= k < |table| ==> !Matches(table[k], w)
    ensures Delete(table, w) == table
    decreases |table|
  {
    if |table| > 0 {
      var head, tail := table[0], table[1..];
      assert !Matches(head, w);
      assert forall k :: 0 <= k < |tail| ==> tail[k] == table[k + 1];
      DeleteNoMatch(tail, w);
      assert table == [head] + tail;
    }
  }

  /** Repeating a delete changes nothing. */
  lemma DeleteIdempotent(table: seq<Row>, w: Data)
    requires ValidData(w)
    ensures Delete(Delete(table, w), w) == Delete(table, w)
  {
    var r := Delete(table, w);
    DeleteMembers(table, w);
    assert forall k :: 0 <= k < |r| ==> r[k] in r;
    DeleteNoMatch(r, w);
  }
}
