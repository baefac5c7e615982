/** The two directions of the rule codec: a rule tuple becomes the column
    array `savePolicyLine` inserts, and a stored row becomes the text line
    `loadPolicy` hands to the policy engine. */
module Codec {
  import opened Text
  import opened Table

  /** The column array `savePolicyLine` builds: the foreach over the rule
      sets `v<key>` to each value in turn. `ptype` is never set. */
  function EncodeRule(rule: seq<string>): (d: Data)
    requires |rule| <= Width
    ensures ValidData(d)
    ensures PType !in d
    ensures forall c :: c in d <==> c.V? && c.i < |rule|
    ensures forall i :: 0 <= i < |rule| ==> V(i) in d && d[V(i)] == rule[i]
  {
    map i | 0 <= i < |rule| :: V(i) := rule[i]
  }

  /** The array_filter callback: a cell survives when it is neither NULL nor
      the empty string (PHP's loose `'' != $val` treats both alike). */
  predicate Present(c: Cell) {
    c.Some? && c.value != ""
  }

  /** The values of the present cells, in column order. */
  function Kept(cells: seq<Cell>): (r: seq<string>)
    ensures |r| <= |cells|
    ensures forall x :: x in r <==> Some(x) in cells && x != ""
  {
    if |cells| == 0 then []
    else
      var rest := Kept(cells[1..]);
      if Present(cells[0]) then [cells[0].value] + rest else rest
  }

  /** The columns `loadPolicy` selects, in the order it lists them. */
  function Columns(row: Row): seq<Cell> {
    [row.ptype] + row.v
  }

  /** The fields of the line a row decodes to. */
  function Values(row: Row): seq<string> {
    Kept(Columns(row))
  }

  /** The line `loadPolicy` builds from one row: the present values joined
      by ", " and trimmed. The line has clean ends, and a row with no
      present value yields the empty line. */
  function DecodeRow(row: Row): (line: string)
    ensures Trimmed(line)
    ensures (forall k :: 0 <= k < |Columns(row)| ==> !Present(Columns(row)[k])) ==> line == ""
  {
    var xs := Values(row);
    assert xs != [] ==> xs[0] in xs;
    Trim(Join(xs))
  }

  /** Keeping distributes over concatenation: a skipped cell leaves no
      placeholder between the cells around it. */
  lemma {:induction false} KeptAppend(a: seq<Cell>, b: seq<Cell>)
    ensures Kept(a + b) == Kept(a) + Kept(b)
    decreases |a|
  {
    if |a| > 0 {
      assert (a + b)[1..] == a[1..] + b;
      KeptAppend(a[1..], b);
    } else {
      assert a + b == b;
    }
  }

  /** NULL and the empty string are the same absence. */
  function Normal(c: Cell): Cell {
    if Present(c) then c else None
  }

  /** Cells that agree up to NULL versus empty string keep the same values. */
  lemma {:induction false} KeptIgnoresNullVersusEmpty(a: seq<Cell>, b: seq<Cell>)
    requires |a| == |b|
    requires forall k :: 0 <= k < |a| ==> Normal(a[k]) == Normal(b[k])
    ensures Kept(a) == Kept(b)
    decreases |a|
  {
    if |a| > 0 {
      KeptIgnoresNullVersusEmpty(a[1..], b[1..]);
    }
  }

  /** Two rows that differ only in NULL versus empty-string cells decode to
      the same line. */
  lemma DecodeIgnoresNullVersusEmpty(x: Row, y: Row)
    requires Normal(x.ptype) == Normal(y.ptype)
    requires forall k :: 0 <= k < Width ==> Normal(x.v[k]) == Normal(y.v[k])
    ensures DecodeRow(x) == DecodeRow(y)
  {
    KeptIgnoresNullVersusEmpty(Columns(x), Columns(y));
  }

  /** Cells that are all present keep all their values. */
  lemma {:induction false} KeptAllPresent(cells: seq<Cell>)
    requires forall k :: 0 <= k < |cells| ==> Present(cells[k])
    ensures |Kept(cells)| == |cells|
    ensures forall k :: 0 <= k < |cells| ==> Some(Kept(cells)[k]) == cells[k]
    decreases |cells|
  {
    if |cells| > 0 {
      KeptAllPresent(cells[1..]);
    }
  }

  /** Cells none of which is present keep nothing. */
  lemma {:induction false} KeptNonePresent(cells: seq<Cell>)
    requires forall k :: 0 <= k < |cells| ==> !Present(cells[k])
    ensures Kept(cells) == []
    decreases |cells|
  {
    if |cells| > 0 {
      KeptNonePresent(cells[1..]);
    }
  }

  /** A field that can travel through a line unchanged: non-empty, no comma,
      no trim character at either end. */
  predicate Plain(x: string) {
    x != "" && ',' !in x && Trimmed(x)
  }

  /** The line loses nothing: splitting it at the separators gives back the
      present values in column order, whenever those values are plain. */
  lemma DecodeRoundTrip(row: Row)
    requires forall x :: x in Values(row) ==> Plain(x)
    ensures Split(DecodeRow(row)) == Values(row)
  {
    var xs := Values(row);
    assert forall k :: 0 <= k < |xs| ==> xs[k] in xs;
    JoinTrimmed(xs);
    SplitJoin(xs);
  }

  /** The round trip for a row whose present values are known to be `xs`. */
  lemma DecodeRoundTripOf(row: Row, xs: seq<string>)
    requires Values(row) == xs
    requires forall k :: 0 <= k < |xs| ==> Plain(xs[k])
    ensures Split(DecodeRow(row)) == xs
  {
    DecodeRoundTrip(row);
  }

  /** The cells `Some(x)` for the rule's values, in order. */
  function Somes(rule: seq<string>): (cells: seq<Cell>)
    ensures |cells| == |rule|
    ensures forall k :: 0 <= k < |rule| ==> cells[k] == Some(rule[k])
  {
    seq(|rule|, k requires 0 <= k < |rule| => Some(rule[k]))
  }

  /** `n` NULL cells. */
  function Nones(n: nat): (cells: seq<Cell>)
    ensures |cells| == n
    ensures forall k :: 0 <= k < n ==> cells[k] == None
  {
    seq(n, k => None)
  }

  /** The positional cells stored for a rule: its values, then NULLs. */
  lemma EncodedCellsLayout(rule: seq<string>)
    requires |rule| <= Width
    ensures Insert(EncodeRule(rule)).v == Somes(rule) + Nones(Width - |rule|)
  {
    var d := EncodeRule(rule);
    var row := Insert(d);
    var cells := Somes(rule) + Nones(Width - |rule|);
    forall i | 0 <= i < Width
      ensures row.v[i] == cells[i]
    {
      assert row.v[i] == At(row, V(i)) == Lookup(d, V(i));
      if i >= |rule| {
        assert cells[i] == Nones(Width - |rule|)[i - |rule|];
      }
    }
  }

  /** The non-empty strings of `xs`, in order: what survives the
      array_filter once the values sit in cells. */
  function NonEmpty(xs: seq<string>): (r: seq<string>)
    ensures |r| <= |xs|
    ensures forall x :: x in r <==> x in xs && x != ""
  {
    if |xs| == 0 then []
    else (if xs[0] != "" then [xs[0]] else []) + NonEmpty(xs[1..])
  }

  /** Values none of which is empty all survive. */
  lemma {:induction false} NonEmptyAll(xs: seq<string>)
    requires forall k :: 0 <= k < |xs| ==> xs[k] != ""
    ensures NonEmpty(xs) == xs
    decreases |xs|
  {
    if |xs| > 0 {
      NonEmptyAll(xs[1..]);
      assert xs == [xs[0]] + xs[1..];
    }
  }

  /** The cells of a rule's values keep exactly its non-empty values. */
  lemma {:induction false} KeptSomes(rule: seq<string>)
    ensures Kept(Somes(rule)) == NonEmpty(rule)
    decreases |rule|
  {
    if |rule| > 0 {
      var cells := Somes(rule);
      assert cells[1..] == Somes(rule[1..]);
      KeptSomes(rule[1..]);
    }
  }

  /** The positional cells of the row stored for a rule, read back in column
      order, give the rule's non-empty values: an empty value leaves no
      field, so the values after it move one place to the left. */
  lemma {:induction false} EncodedCellsRoundTrip(rule: seq<string>)
    requires |rule| <= Width
    ensures Kept(Insert(EncodeRule(rule)).v) == NonEmpty(rule)
  {
    var somes, nones := Somes(rule), Nones(Width - |rule|);
    EncodedCellsLayout(rule);
    assert Kept(somes + nones) == Kept(somes) + Kept(nones) by {
      KeptAppend(somes, nones);
    }
    assert Kept(somes) == NonEmpty(rule) by {
      KeptSomes(rule);
    }
    assert Kept(nones) == [] by {
      KeptNonePresent(nones);
    }
  }

  /** A row whose type cell is `ptype` and whose positional cells come from
      the rule decodes to the type (when present) followed by the rule's
      non-empty values. */
  lemma ValuesOfEncoded(ptype: Cell, rule: seq<string>)
    requires |rule| <= Width
    ensures Values(Row(ptype, Insert(EncodeRule(rule)).v))
            == (if Present(ptype) then [ptype.value] else []) + NonEmpty(rule)
  {
    var v := Insert(EncodeRule(rule)).v;
    EncodedCellsRoundTrip(rule);
    KeptAppend([ptype], v);
  }

  /** A row whose present values are plain loads as exactly their join:
      the trim() removes nothing. */
  lemma DecodeIsJoin(row: Row)
    requires forall x :: x in Values(row) ==> Plain(x)
    ensures DecodeRow(row) == Join(Values(row))
  {
    var xs := Values(row);
    assert forall k :: 0 <= k < |xs| ==> xs[k] in xs;
    JoinTrimmed(xs);
  }

  /** A row whose present values are the plain fields `xs` loads as their
      join, and that line splits back into `xs`. */
  lemma LoadsAsJoin(row: Row, xs: seq<string>)
    requires Values(row) == xs
    requires forall k :: 0 <= k < |xs| ==> Plain(xs[k])
    ensures DecodeRow(row) == Join(xs)
    ensures Split(DecodeRow(row)) == xs
  {
    DecodeRoundTripOf(row, xs);
    DecodeIsJoin(row);
  }
}
