/** `savePolicyLine` takes the policy type but never puts it in the column
    array, so every row written by `addPolicy` and `savePolicy` has a NULL
    `ptype`. This module shows what that does to the rest of the adapter and
    gives the evidently intended encoding, which also writes `ptype`, with
    the properties it restores. */
module Findings {
  import opened Text
  import opened Table
  import opened Codec
  import opened Filters
  import opened Adapter

  /** As written: the row `addPolicy` stores for a rule survives a
      `removePolicy` of the very same rule, because a NULL type never equals
      the type in the where clause. */
  lemma AddedRuleEscapesRemovePolicy(table: seq<Row>, sec: string, ptype: string, rule: Rule)
    requires |rule| <= Width
    ensures var added := AddPolicy(table, sec, ptype, rule);
            added[|table|] in RemovePolicy(added, sec, ptype, rule)
  {
    var added := AddPolicy(table, sec, ptype, rule);
    assert added[|table|] in added;
  }

  /** As written: the line loaded back from the stored row is the join of
      the rule's values and carries no type, so the engine sees the first
      value where it expects the type. */
  lemma AddedRuleLoadsWithoutType(table: seq<Row>, sec: string, ptype: string, rule: Rule)
    requires |rule| <= Width
    requires forall k :: 0 <= k < |rule| ==> Plain(rule[k])
    ensures DecodeRow(AddPolicy(table, sec, ptype, rule)[|table|]) == Join(rule)
    ensures Split(DecodeRow(AddPolicy(table, sec, ptype, rule)[|table|])) == rule
  {
    var row := AddPolicy(table, sec, ptype, rule)[|table|];
    assert Values(row) == rule by {
      assert row == Row(None, Insert(EncodeRule(rule)).v);
      ValuesOfEncoded(None, rule);
      NonEmptyAll(rule);
    }
    LoadsAsJoin(row, rule);
  }

  /** The add-then-delete sequence of the adapter's removal test, on an
      empty table: the row is still there afterwards. */
  lemma AddThenRemoveExample()
    ensures var added := AddPolicy([], "p", "p", ["alice", "data5", "read"]);
            RemovePolicy(added, "p", "p", ["alice", "data5", "read"]) == added
  {
    var rule := ["alice", "data5", "read"];
    var added := AddPolicy([], "p", "p", rule);
    var w := ExactWhere("p", rule);
    assert At(added[0], PType) != Some(w[PType]);
    assert !Matches(added[0], w);
    assert added == [added[0]];
    DeleteNoMatch(added, w);
  }

  /** The same added row reads back as alice, data5, read: the engine
      would take `alice` for the policy type. */
  lemma AddThenLoadExample()
    ensures Split(DecodeRow(AddPolicy([], "p", "p", ["alice", "data5", "read"])[0]))
            == ["alice", "data5", "read"]
  {
    var rule := ["alice", "data5", "read"];
    assert Plain(rule[0]) && Plain(rule[1]) && Plain(rule[2]);
    AddedRuleLoadsWithoutType([], "p", "p", rule);
  }

  /** As written: a stored rule of three plain values loads as exactly
      those values joined, with no type in front. */
  lemma AddedRuleLine(table: seq<Row>, sec: string, ptype: string, a: string, b: string, c: string)
    requires Plain(a) && Plain(b) && Plain(c)
    ensures DecodeRow(AddPolicy(table, sec, ptype, [a, b, c])[|table|])
            == (a + Separator) + ((b + Separator) + c)
  {
    var rule := [a, b, c];
    assert DecodeRow(AddPolicy(table, sec, ptype, rule)[|table|]) == Join(rule) by {
      AddedRuleLoadsWithoutType(table, sec, ptype, rule);
    }
    JoinThree(a, b, c);
  }

  /** The added row loads as the line alice, data5, read. */
  lemma AddThenLoadLine()
    ensures DecodeRow(AddPolicy([], "p", "p", ["alice", "data5", "read"])[0])
            == ("alice" + Separator) + (("data5" + Separator) + "read")
  {
    assert Plain("alice") && Plain("data5") && Plain("read");
    AddedRuleLine([], "p", "p", "alice", "data5", "read");
  }

  /** Corrected `savePolicyLine`: the column array also sets `ptype`. It is
      then the same array `removePolicy` uses as its where clause. */
  function SavePolicyLineTyped(table: seq<Row>, ptype: string, rule: Rule): (r: seq<Row>)
    requires |rule| <= Width
    ensures |r| == |table| + 1 && r[..|table|] == table
    ensures r[|table|].ptype == Some(ptype)
    ensures forall i :: 0 <= i < Width ==> r[|table|].v[i] == (if i < |rule| then Some(rule[i]) else None)
  {
    table + [Insert(ExactWhere(ptype, rule))]
  }

  /** Corrected `addPolicy`, delegating to the corrected line encoder. */
  function AddPolicyTyped(table: seq<Row>, sec: string, ptype: string, rule: Rule): (r: seq<Row>)
    requires |rule| <= Width
    ensures |r| == |table| + 1 && r[..|table|] == table
    ensures HoldsRule(r[|table|], ptype, rule)
  {
    SavePolicyLineTyped(table, ptype, rule)
  }

  /** Corrected: removing a rule right after adding it leaves the table as a
      removal alone would. */
  lemma TypedRuleRemovedByRemovePolicy(table: seq<Row>, sec: string, ptype: string, rule: Rule)
    requires |rule| <= Width
    ensures RemovePolicy(AddPolicyTyped(table, sec, ptype, rule), sec, ptype, rule)
            == RemovePolicy(table, sec, ptype, rule)
  {
    var added := AddPolicyTyped(table, sec, ptype, rule);
    var row := added[|table|];
    assert added == table + [row];
    RemovePolicyKeepsOrder(table, [row], sec, ptype, rule);
    var gone := RemovePolicy([row], sec, ptype, rule);
    assert |gone| == 0;
  }

  /** The row the corrected `addPolicy` appends: the type, then the same
      positional cells as the encoder as written. */
  lemma TypedRow(table: seq<Row>, sec: string, ptype: string, rule: Rule)
    requires |rule| <= Width
    ensures AddPolicyTyped(table, sec, ptype, rule)[|table|] == Row(Some(ptype), RuleRow(rule).v)
  {
    var row := AddPolicyTyped(table, sec, ptype, rule)[|table|];
    var v := RuleRow(rule).v;
    forall i | 0 <= i < Width
      ensures row.v[i] == v[i]
    {
    }
  }

  /** A typed row of non-empty values reads back as the type and the values. */
  lemma TypedRowValues(ptype: string, rule: Rule)
    requires |rule| <= Width
    requires ptype != ""
    requires forall k :: 0 <= k < |rule| ==> rule[k] != ""
    ensures Values(Row(Some(ptype), RuleRow(rule).v)) == [ptype] + rule
  {
    ValuesOfEncoded(Some(ptype), rule);
    NonEmptyAll(rule);
  }

  /** Putting a plain type in front of plain values keeps every field plain. */
  lemma PlainPrepend(ptype: string, rule: Rule)
    requires Plain(ptype)
    requires forall k :: 0 <= k < |rule| ==> Plain(rule[k])
    ensures forall k :: 0 <= k < |[ptype] + rule| ==> Plain(([ptype] + rule)[k])
  {
    var xs := [ptype] + rule;
    assert forall k :: 1 <= k < |xs| ==> xs[k] == rule[k - 1];
  }

  /** Corrected: the line loaded back from the stored row is the type
      followed by the rule's values, which is what the engine parses. */
  lemma TypedRuleLoadsWithType(table: seq<Row>, sec: string, ptype: string, rule: Rule)
    requires |rule| <= Width
    requires Plain(ptype)
    requires forall k :: 0 <= k < |rule| ==> Plain(rule[k])
    ensures Split(DecodeRow(AddPolicyTyped(table, sec, ptype, rule)[|table|])) == [ptype] + rule
  {
    TypedRow(table, sec, ptype, rule);
    TypedRowValues(ptype, rule);
    PlainPrepend(ptype, rule);
    DecodeRoundTripOf(Row(Some(ptype), RuleRow(rule).v), [ptype] + rule);
  }
}
