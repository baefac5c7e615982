/** The where clauses the two removal operations build: an exact match on a
    whole rule for `removePolicy`, and a positional patch over a window of
    columns for `removeFilteredPolicy`. */
module Filters {
  import opened Table
  import opened Codec

  /** `removePolicy`'s where array: `ptype` equals the rule type and `v<i>`
      equals `rule[i]` for every position of the rule; the columns past the
      rule's end are not mentioned. It is the same array as the rule's
      column array with `ptype` added. */
  function ExactWhere(ptype: string, rule: seq<string>): (w: Data)
    requires |rule| <= Width
    ensures ValidData(w)
    ensures forall c :: c in w <==> c == PType || (c.V? && c.i < |rule|)
    ensures PType in w && w[PType] == ptype
    ensures forall i :: 0 <= i < |rule| ==> V(i) in w && w[V(i)] == rule[i]
  {
    EncodeRule(rule)[PType := ptype]
  }

  /** A row holds the rule: its type is `ptype` and its first |rule|
      positional cells hold the rule's values; later cells are free. */
  predicate HoldsRule(row: Row, ptype: string, rule: seq<string>)
    requires |rule| <= Width
  {
    row.ptype == Some(ptype) && forall i :: 0 <= i < |rule| ==> row.v[i] == Some(rule[i])
  }

  /** A row satisfies the exact filter iff it holds the rule. */
  lemma ExactWhereMatches(row: Row, ptype: string, rule: seq<string>)
    requires |rule| <= Width
    ensures Matches(row, ExactWhere(ptype, rule)) <==> HoldsRule(row, ptype, rule)
  {
    var w := ExactWhere(ptype, rule);
    if HoldsRule(row, ptype, rule) {
      forall c | c in w
        ensures At(row, c) == Some(w[c])
      {
        if c.V? {
          assert row.v[c.i] == Some(rule[c.i]);
        }
      }
    }
    if Matches(row, w) {
      assert At(row, PType) == Some(ptype);
      forall i | 0 <= i < |rule|
        ensures row.v[i] == Some(rule[i])
      {
        assert At(row, V(i)) == Some(w[V(i)]);
      }
    }
  }

  /** Whether `removeFilteredPolicy` puts an equality on `v<i>`: the position
      is one of v0..v5, it lies in the window that starts at `fieldIndex`
      and is |fieldValues| wide, and the value for it is not empty. */
  predicate Constrains(fieldIndex: int, fieldValues: seq<string>, i: int) {
    0 <= i < Width && fieldIndex <= i < fieldIndex + |fieldValues| && fieldValues[i - fieldIndex] != ""
  }

  /** The where array once the loop over range(0, 5) has visited the
      positions below `k`. */
  function FilterUpTo(ptype: string, fieldIndex: int, fieldValues: seq<string>, k: nat): (w: Data)
    requires k <= Width
    ensures ValidData(w)
    ensures PType in w && w[PType] == ptype
    ensures forall c :: c in w && c.V? ==> c.i < k && Constrains(fieldIndex, fieldValues, c.i)
    ensures forall i :: 0 <= i < k && Constrains(fieldIndex, fieldValues, i) ==>
              V(i) in w && w[V(i)] == fieldValues[i - fieldIndex]
  {
    if k == 0 then map[PType := ptype]
    else
      var w := FilterUpTo(ptype, fieldIndex, fieldValues, k - 1);
      var i := k - 1;
      if fieldIndex <= i && i < fieldIndex + |fieldValues| && fieldValues[i - fieldIndex] != "" then
        w[V(i) := fieldValues[i - fieldIndex]]
      else
        w
  }

  /** `removeFilteredPolicy`'s where array. `ptype` is always constrained;
      `v<i>` is constrained exactly when `Constrains` holds, and then to the
      value at its place in the window. Values that fall outside v0..v5 and
      empty values are dropped without an error. */
  function FilteredWhere(ptype: string, fieldIndex: int, fieldValues: seq<string>): (w: Data)
    ensures ValidData(w)
    ensures PType in w && w[PType] == ptype
    ensures forall c :: c in w && c.V? ==> Constrains(fieldIndex, fieldValues, c.i)
    ensures forall i :: Constrains(fieldIndex, fieldValues, i) ==>
              V(i) in w && w[V(i)] == fieldValues[i - fieldIndex]
  {
    FilterUpTo(ptype, fieldIndex, fieldValues, Width)
  }

  /** A row lies in the filter window: its type is `ptype` and it holds the
      window's value at every position the filter constrains. */
  predicate InWindow(row: Row, ptype: string, fieldIndex: int, fieldValues: seq<string>) {
    row.ptype == Some(ptype)
    && forall i :: 0 <= i < Width && Constrains(fieldIndex, fieldValues, i) ==> row.v[i] == Some(fieldValues[i - fieldIndex])
  }

  /** A row satisfies the positional filter iff it lies in the window. */
  lemma FilteredWhereMatches(row: Row, ptype: string, fieldIndex: int, fieldValues: seq<string>)
    ensures Matches(row, FilteredWhere(ptype, fieldIndex, fieldValues))
            <==> InWindow(row, ptype, fieldIndex, fieldValues)
  {
    var w := FilteredWhere(ptype, fieldIndex, fieldValues);
    if Matches(row, w) {
      assert At(row, PType) == Some(ptype);
      forall i | Constrains(fieldIndex, fieldValues, i)
        ensures row.v[i] == Some(fieldValues[i - fieldIndex])
      {
        assert At(row, V(i)) == Some(w[V(i)]);
      }
    }
  }

  /** With no non-empty value inside v0..v5 the filter is the type alone. */
  lemma FilteredWhereTypeOnly(ptype: string, fieldIndex: int, fieldValues: seq<string>)
    requires forall i :: !Constrains(fieldIndex, fieldValues, i)
    ensures FilteredWhere(ptype, fieldIndex, fieldValues) == map[PType := ptype]
  {
    var w := FilteredWhere(ptype, fieldIndex, fieldValues);
    assert forall c :: c in w ==> c == PType;
  }

  /** A window of non-empty values starting at v0 is the exact filter of
      the same rule: the two removal paths agree on a full rule. */
  lemma FilteredWhereFromZeroIsExact(ptype: string, rule: seq<string>)
    requires |rule| <= Width
    requires forall k :: 0 <= k < |rule| ==> rule[k] != ""
    ensures FilteredWhere(ptype, 0, rule) == ExactWhere(ptype, rule)
  {
    var f := FilteredWhere(ptype, 0, rule);
    var e := ExactWhere(ptype, rule);
    forall c | c in f
      ensures c in e && f[c] == e[c]
    {
      if c.V? {
        assert Constrains(0, rule, c.i);
      }
    }
    forall c | c in e
      ensures c in f
    {
      if c.V? {
        assert Constrains(0, rule, c.i);
      }
    }
  }
}
