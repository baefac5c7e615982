/** The Medoo adapter's operations on the rule table: saving one rule line,
    adding a rule, saving a whole model, loading every row as a line for the
    policy engine, and the two removals. The table is a value passed in and
    returned; the engine is the consumer of the lines `LoadPolicy` returns. */
module Adapter {
  import opened Text
  import opened Table
  import opened Codec
  import opened Filters
  import opened Seqs

  /** A policy rule: its positional values v0, v1, ... */
  type Rule = seq<string>

  /** Every rule fits in the six positional columns. */
  predicate Storable(rules: seq<Rule>) {
    forall k :: 0 <= k < |rules| ==> |rules[k]| <= Width
  }

  /** One `$ptype => $ast` entry of `$model->model[$sec]`: a policy type and
      its rules in the order the engine holds them. */
  datatype Assertion = Assertion(ptype: string, policy: seq<Rule>)

  /** The two sections `savePolicy` reads: `p` (policies) and `g` (roles). */
  datatype Model = Model(p: seq<Assertion>, g: seq<Assertion>)

  /** The row Medoo stores for a rule's column array: rule[i] in v<i>, NULL
      in the remaining positional columns and NULL in `ptype`. */
  function RuleRow(rule: Rule): (row: Row)
    requires |rule| <= Width
    ensures row.ptype == None
    ensures forall i :: 0 <= i < Width ==> row.v[i] == (if i < |rule| then Some(rule[i]) else None)
  {
    var d := EncodeRule(rule);
    assert forall i :: 0 <= i < Width ==> Insert(d).v[i] == At(Insert(d), V(i));
    assert Insert(d).ptype == At(Insert(d), PType);
    Insert(d)
  }

  /** `savePolicyLine`: appends the row Medoo stores for the rule's column
      array. The `$ptype` argument is unused, so the row has no type. */
  function SavePolicyLine(table: seq<Row>, ptype: string, rule: Rule): (r: seq<Row>)
    requires |rule| <= Width
    ensures |r| == |table| + 1 && r[..|table|] == table
    ensures r[|table|].ptype == None
    ensures forall i :: 0 <= i < Width ==> r[|table|].v[i] == (if i < |rule| then Some(rule[i]) else None)
  {
    table + [Insert(EncodeRule(rule))]
  }

  /** `addPolicy`: the same append as `savePolicyLine`. */
  function AddPolicy(table: seq<Row>, sec: string, ptype: string, rule: Rule): (r: seq<Row>)
    requires |rule| <= Width
    ensures |r| == |table| + 1 && r[..|table|] == table
    ensures r[|table|].ptype == None
    ensures forall i :: 0 <= i < Width ==> r[|table|].v[i] == (if i < |rule| then Some(rule[i]) else None)
  {
    SavePolicyLine(table, ptype, rule)
  }

  /** The row `addPolicy` appends depends on the rule alone: neither the
      section nor the policy type changes it. */
  lemma AddPolicyIgnoresSectionAndType(table: seq<Row>, sec1: string, ptype1: string,
                                       sec2: string, ptype2: string, rule: Rule)
    requires |rule| <= Width
    ensures AddPolicy(table, sec1, ptype1, rule) == AddPolicy(table, sec2, ptype2, rule)
    ensures AddPolicy(table, sec1, ptype1, rule) == table + [RuleRow(rule)]
  {
  }

  /** The rules of a section in the order `savePolicy` visits them: each
      policy type's rules in turn. */
  function Rules(secs: seq<Assertion>): seq<Rule> {
    if |secs| == 0 then [] else secs[0].policy + Rules(secs[1..])
  }

  /** The rows one `savePolicyLine` per rule appends, in rule order. */
  function Stored(rules: seq<Rule>): (rows: seq<Row>)
    requires Storable(rules)
    ensures |rows| == |rules|
    ensures forall k :: 0 <= k < |rules| ==> rows[k] == RuleRow(rules[k])
  {
    Map(RuleRow, rules)
  }

  /** Storing a concatenation stores each part in turn. */
  lemma StoredAppend(a: seq<Rule>, b: seq<Rule>)
    requires Storable(a) && Storable(b)
    ensures Storable(a + b)
    ensures Stored(a + b) == Stored(a) + Stored(b)
  {
    MapAppend(RuleRow, a, b);
  }

  /** Both parts of a storable concatenation are storable. */
  lemma StorableSplit(a: seq<Rule>, b: seq<Rule>)
    requires Storable(a + b)
    ensures Storable(a) && Storable(b)
  {
    assert forall k :: 0 <= k < |a| ==> a[k] == (a + b)[k];
    assert forall k :: 0 <= k < |b| ==> b[k] == (a + b)[|a| + k];
  }

  /** Every row appended by saving two rule lists after a table has no
      type. */
  lemma SavedRowsUntyped(table: seq<Row>, ps: seq<Rule>, gs: seq<Rule>)
    requires Storable(ps) && Storable(gs)
    ensures forall k :: |table| <= k < |table| + |ps| + |gs| ==> (table + Stored(ps) + Stored(gs))[k].ptype == None
  {
    var b, c := Stored(ps), Stored(gs);
    var r := table + b + c;
    forall k | |table| <= k < |r|
      ensures r[k].ptype == None
    {
      if k < |table| + |b| {
        assert r[k] == b[k - |table|];
      } else {
        assert r[k] == c[k - |table| - |b|];
      }
    }
  }

  /** A list of sections can be stored iff each of its sections can. */
  lemma {:induction false} RulesStorable(secs: seq<Assertion>)
    ensures Storable(Rules(secs)) <==> forall s :: 0 <= s < |secs| ==> Storable(secs[s].policy)
    decreases |secs|
  {
    if |secs| > 0 {
      RulesStorable(secs[1..]);
      var head := secs[0].policy;
      var tail := Rules(secs[1..]);
      assert Rules(secs) == head + tail;
      assert Storable(head + tail) <==> Storable(head) && Storable(tail) by {
        if Storable(head + tail) {
          StorableSplit(head, tail);
        }
      }
      assert forall s :: 1 <= s < |secs| ==> secs[s] == secs[1..][s - 1];
    }
  }

  /** Storing one more rule appends its row. */
  lemma StoredSnoc(rules: seq<Rule>, j: nat)
    requires Storable(rules) && j < |rules|
    ensures Storable(rules[..j]) && Storable(rules[..j + 1])
    ensures Stored(rules[..j + 1]) == Stored(rules[..j]) + [RuleRow(rules[j])]
  {
    assert rules[..j + 1] == rules[..j] + [rules[j]];
    StorableSplit(rules[..j], [rules[j]]);
    StoredAppend(rules[..j], [rules[j]]);
  }

  /** The inner foreach of `savePolicy`: one `savePolicyLine` per rule of
      one policy type, in order. The type is passed on to every line. */
  method SaveRules(table: seq<Row>, ptype: string, rules: seq<Rule>) returns (r: seq<Row>)
    requires Storable(rules)
    ensures r == table + Stored(rules)
  {
    r := table;
    var j := 0;
    assert Stored(rules[..0]) == [];
    while j < |rules|
      invariant 0 <= j <= |rules|
      invariant Storable(rules[..j])
      invariant r == table + Stored(rules[..j])
    {
      StoredSnoc(rules, j);
      ghost var before := r;
      r := SavePolicyLine(r, ptype, rules[j]);
      assert r == table + (Stored(rules[..j]) + [RuleRow(rules[j])]) by {
        assert r == before + [RuleRow(rules[j])];
      }
      j := j + 1;
    }
    assert rules[..j] == rules;
  }

  /** Storing a list of sections stores the first section's rules and then
      those of the remaining sections. */
  lemma FirstSection(table: seq<Row>, secs: seq<Assertion>)
    requires |secs| > 0
    requires Storable(Rules(secs))
    ensures Storable(secs[0].policy) && Storable(Rules(secs[1..]))
    ensures forall next :: next == table + Stored(secs[0].policy) ==>
              next + Stored(Rules(secs[1..])) == table + Stored(Rules(secs))
  {
    var policy, later := secs[0].policy, Rules(secs[1..]);
    StorableSplit(policy, later);
    StoredAppend(policy, later);
  }

  /** One of the two outer foreach loops of `savePolicy`: the rules of the
      first policy type, then those of the remaining ones. */
  method SaveSections(table: seq<Row>, secs: seq<Assertion>) returns (r: seq<Row>)
    requires Storable(Rules(secs))
    ensures r == table + Stored(Rules(secs))
    decreases |secs|
  {
    if |secs| == 0 {
      return table;
    }
    FirstSection(table, secs);
    var next := SaveRules(table, secs[0].ptype, secs[0].policy);
    r := SaveSections(next, secs[1..]);
  }

  /** `savePolicy`: one row per rule, all rules of the `p` section first and
      then all rules of the `g` section, each in iteration order, every row
      without a type; it always reports success. */
  method SavePolicy(table: seq<Row>, m: Model) returns (r: seq<Row>, ok: bool)
    requires Storable(Rules(m.p)) && Storable(Rules(m.g))
    ensures ok
    ensures r == table + Stored(Rules(m.p)) + Stored(Rules(m.g))
    ensures forall k :: |table| <= k < |r| ==> r[k].ptype == None
  {
    var afterP := SaveSections(table, m.p);
    r := SaveSections(afterP, m.g);
    SavedRowsUntyped(table, Rules(m.p), Rules(m.g));
    ok := true;
  }

  /** `loadPolicy`: one line per row, in storage order, each the row's
      decoding; the lines go to the engine in this order. */
  method LoadPolicy(table: seq<Row>) returns (lines: seq<string>)
    ensures |lines| == |table|
    ensures forall k :: 0 <= k < |table| ==> lines[k] == DecodeRow(table[k])
    ensures forall k :: 0 <= k < |lines| ==> Trimmed(lines[k])
  {
    lines := [];
    for k := 0 to |table|
      invariant |lines| == k
      invariant forall j :: 0 <= j < k ==> lines[j] == DecodeRow(table[j])
    {
      lines := lines + [DecodeRow(table[k])];
    }
  }

  /** `removePolicy`: deletes exactly the rows that hold the rule and keeps
      every other row. */
  function RemovePolicy(table: seq<Row>, sec: string, ptype: string, rule: Rule): (r: seq<Row>)
    requires |rule| <= Width
    ensures |r| <= |table|
    ensures forall row :: row in r <==> row in table && !HoldsRule(row, ptype, rule)
  {
    var w := ExactWhere(ptype, rule);
    assert forall row :: Matches(row, w) <==> HoldsRule(row, ptype, rule) by {
      forall row
        ensures Matches(row, w) <==> HoldsRule(row, ptype, rule)
      {
        ExactWhereMatches(row, ptype, rule);
      }
    }
    DeleteMembers(table, w);
    Delete(table, w)
  }

  /** The surviving rows of `removePolicy` keep their relative order. */
  lemma RemovePolicyKeepsOrder(a: seq<Row>, b: seq<Row>, sec: string, ptype: string, rule: Rule)
    requires |rule| <= Width
    ensures RemovePolicy(a + b, sec, ptype, rule) == RemovePolicy(a, sec, ptype, rule) + RemovePolicy(b, sec, ptype, rule)
  {
    DeleteAppend(a, b, ExactWhere(ptype, rule));
  }

  /** The rows that do not hold the rule, in table order: a reference
      definition of `removePolicy` that never builds a where array. */
  function WithoutRule(table: seq<Row>, ptype: string, rule: Rule): seq<Row>
    requires |rule| <= Width
  {
    if |table| == 0 then []
    else (if HoldsRule(table[0], ptype, rule) then [] else [table[0]]) + WithoutRule(table[1..], ptype, rule)
  }

  /** `removePolicy` keeps exactly the rows that do not hold the rule, in
      their original order. */
  lemma {:induction false} RemovePolicyIsWithoutRule(table: seq<Row>, sec: string, ptype: string, rule: Rule)
    requires |rule| <= Width
    ensures RemovePolicy(table, sec, ptype, rule) == WithoutRule(table, ptype, rule)
    decreases |table|
  {
    if |table| > 0 {
      var head, tail := table[0], table[1..];
      assert table == [head] + tail;
      ExactWhereMatches(head, ptype, rule);
      RemovePolicyIsWithoutRule(tail, sec, ptype, rule);
    }
  }

  /** `removeFilteredPolicy`: deletes exactly the rows in the filter window
      and keeps every other row. */
  function RemoveFilteredPolicy(table: seq<Row>, sec: string, ptype: string,
                                fieldIndex: int, fieldValues: seq<string>): (r: seq<Row>)
    ensures |r| <= |table|
    ensures forall row :: row in r <==> row in table && !InWindow(row, ptype, fieldIndex, fieldValues)
  {
    var w := FilteredWhere(ptype, fieldIndex, fieldValues);
    assert forall row :: Matches(row, w) <==> InWindow(row, ptype, fieldIndex, fieldValues) by {
      forall row
        ensures Matches(row, w) <==> InWindow(row, ptype, fieldIndex, fieldValues)
      {
        FilteredWhereMatches(row, ptype, fieldIndex, fieldValues);
      }
    }
    DeleteMembers(table, w);
    Delete(table, w)
  }

  /** The surviving rows of `removeFilteredPolicy` keep their relative order. */
  lemma RemoveFilteredPolicyKeepsOrder(a: seq<Row>, b: seq<Row>, sec: string, ptype: string,
                                       fieldIndex: int, fieldValues: seq<string>)
    ensures RemoveFilteredPolicy(a + b, sec, ptype, fieldIndex, fieldValues)
            == RemoveFilteredPolicy(a, sec, ptype, fieldIndex, fieldValues)
               + RemoveFilteredPolicy(b, sec, ptype, fieldIndex, fieldValues)
  {
    DeleteAppend(a, b, FilteredWhere(ptype, fieldIndex, fieldValues));
  }

  /** The filtered removal decides row by row: the first row goes iff it
      is in the window, and the rest are filtered the same way. */
  lemma RemoveFilteredStep(row: Row, rest: seq<Row>, sec: string, ptype: string,
                           fieldIndex: int, fieldValues: seq<string>)
    ensures RemoveFilteredPolicy([row] + rest, sec, ptype, fieldIndex, fieldValues)
            == (if InWindow(row, ptype, fieldIndex, fieldValues) then [] else [row])
               + RemoveFilteredPolicy(rest, sec, ptype, fieldIndex, fieldValues)
  {
    assert ([row] + rest)[1..] == rest;
    FilteredWhereMatches(row, ptype, fieldIndex, fieldValues);
  }

  /** The rows outside the filter window, in table order: a reference
      definition of the filtered removal that never builds a where array. */
  function OutsideWindow(table: seq<Row>, ptype: string, fieldIndex: int, fieldValues: seq<string>): seq<Row> {
    if |table| == 0 then []
    else (if InWindow(table[0], ptype, fieldIndex, fieldValues) then [] else [table[0]])
         + OutsideWindow(table[1..], ptype, fieldIndex, fieldValues)
  }

  /** The filtered removal keeps exactly the rows outside the window, in
      their original order. */
  lemma {:induction false} RemoveFilteredIsOutsideWindow(table: seq<Row>, sec: string, ptype: string,
                                                        fieldIndex: int, fieldValues: seq<string>)
    ensures RemoveFilteredPolicy(table, sec, ptype, fieldIndex, fieldValues)
            == OutsideWindow(table, ptype, fieldIndex, fieldValues)
    decreases |table|
  {
    if |table| > 0 {
      var head, tail := table[0], table[1..];
      assert table == [head] + tail;
      RemoveFilteredStep(head, tail, sec, ptype, fieldIndex, fieldValues);
      RemoveFilteredIsOutsideWindow(tail, sec, ptype, fieldIndex, fieldValues);
    }
  }

  /** When every supplied value is empty, or none is supplied, the filtered
      removal deletes every row of the type and nothing else. */
  lemma RemoveFilteredAllEmpty(table: seq<Row>, sec: string, ptype: string,
                               fieldIndex: int, fieldValues: seq<string>)
    requires forall j :: 0 <= j < |fieldValues| ==> fieldValues[j] == ""
    ensures RemoveFilteredPolicy(table, sec, ptype, fieldIndex, fieldValues) == Delete(table, map[PType := ptype])
    ensures forall row :: row in RemoveFilteredPolicy(table, sec, ptype, fieldIndex, fieldValues)
                          <==> row in table && row.ptype != Some(ptype)
  {
    assert forall i :: !Constrains(fieldIndex, fieldValues, i);
    FilteredWhereTypeOnly(ptype, fieldIndex, fieldValues);
    assert forall row :: Matches(row, map[PType := ptype]) <==> row.ptype == Some(ptype) by {
      forall row
        ensures Matches(row, map[PType := ptype]) <==> row.ptype == Some(ptype)
      {
        assert At(row, PType) == row.ptype;
      }
    }
  }

  /** Positions outside v0..v5 never matter: a window that lies wholly
      outside them removes every row of the type, without an error. */
  lemma RemoveFilteredOutOfRange(table: seq<Row>, sec: string, ptype: string,
                                 fieldIndex: int, fieldValues: seq<string>)
    requires fieldIndex >= Width || fieldIndex + |fieldValues| <= 0
    ensures forall row :: row in RemoveFilteredPolicy(table, sec, ptype, fieldIndex, fieldValues)
                          <==> row in table && row.ptype != Some(ptype)
  {
    assert forall i :: !Constrains(fieldIndex, fieldValues, i);
  }
}
