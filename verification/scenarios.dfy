/** The rows the adapter's tests seed the table with, and what the adapter
    does to them: the lines it loads and the three filtered removals the
    removal test performs in turn. */
module Scenarios {
  import opened Text
  import opened Table
  import opened Codec
  import opened Filters
  import opened Adapter

  function P(v0: string, v1: string, v2: string): Row {
    Row(Some("p"), [Some(v0), Some(v1), Some(v2), None, None, None])
  }

  /** The column arrays the tests insert, in order. The role array's null
      v2 is written as an absent key, which `Insert` stores as NULL. */
  function SeedData(): seq<Data> {
    [ map[PType := "p", V(0) := "alice", V(1) := "data1", V(2) := "read"],
      map[PType := "p", V(0) := "bob", V(1) := "data2", V(2) := "write"],
      map[PType := "p", V(0) := "data2_admin", V(1) := "data2", V(2) := "read"],
      map[PType := "p", V(0) := "data2_admin", V(1) := "data2", V(2) := "write"],
      map[PType := "g", V(0) := "alice", V(1) := "data2_admin"] ]
  }

  /** The seed rows, in insertion order; the role row stores NULL in v2. */
  function Seed(): seq<Row> {
    [ P("alice", "data1", "read"),
      P("bob", "data2", "write"),
      P("data2_admin", "data2", "read"),
      P("data2_admin", "data2", "write"),
      Row(Some("g"), [Some("alice"), Some("data2_admin"), None, None, None, None]) ]
  }

  /** The seed rows are what Medoo stores for the tests' column arrays, one
      row per array in insertion order. */
  lemma SeedInserted()
    ensures |Seed()| == |SeedData()|
    ensures forall k :: 0 <= k < |Seed()| ==> ValidData(SeedData()[k]) && Seed()[k] == Insert(SeedData()[k])
  {
    var rows := Seed();
    forall k | 0 <= k < |rows|
      ensures ValidData(SeedData()[k]) && rows[k] == Insert(SeedData()[k])
    {
      var d := SeedData()[k];
      assert ValidData(d);
      assert rows[k].v == Insert(d).v;
    }
  }

  /** The seed's values can travel through a line unchanged. */
  lemma SeedRoleValuesPlain()
    ensures Plain("g") && Plain("alice") && Plain("data2_admin")
  {
  }

  /** The seed's values that the filters tell apart are different strings. */
  lemma SeedValuesDistinct()
    ensures "p" != "g" && "data1" != "data2" && "read" != "write"
  {
    assert "p"[0] != "g"[0];
    assert "data1"[4] != "data2"[4];
    assert "read"[0] != "write"[0];
  }

  /** A role row (type and two values, NULL after them) decodes to its
      three values. */
  lemma RoleRowValues(ptype: string, a: string, b: string)
    requires ptype != "" && a != "" && b != ""
    ensures Values(Row(Some(ptype), [Some(a), Some(b), None, None, None, None])) == [ptype, a, b]
  {
    var row := Row(Some(ptype), [Some(a), Some(b), None, None, None, None]);
    var present: seq<Cell> := [Some(ptype), Some(a), Some(b)];
    var absent: seq<Cell> := [None, None, None, None];
    assert Kept(present) == [ptype, a, b] by {
      KeptAllPresent(present);
    }
    assert Kept(absent) == [] by {
      KeptNonePresent(absent);
    }
    assert Values(row) == Kept(present) + Kept(absent) by {
      assert Columns(row) == present + absent;
      KeptAppend(present, absent);
    }
  }

  /** The role row's present values, in column order. */
  lemma SeedRoleRowValues()
    ensures Values(Seed()[4]) == ["g", "alice", "data2_admin"]
  {
    RoleRowValues("g", "alice", "data2_admin");
  }

  /** The role row reads back as its three fields. */
  lemma SeedRoleRowLoads()
    ensures Split(DecodeRow(Seed()[4])) == ["g", "alice", "data2_admin"]
  {
    SeedRoleValuesPlain();
    RoleRowLoads("g", "alice", "data2_admin");
  }

  /** The role row loads as the line g, alice, data2_admin: the NULL in v2
      leaves no trailing separator. */
  lemma SeedRoleRowLine()
    ensures DecodeRow(Seed()[4]) == ("g" + Separator) + (("alice" + Separator) + "data2_admin")
  {
    SeedRoleValuesPlain();
    RoleRowLine("g", "alice", "data2_admin");
  }

  /** A role row with plain values loads as a line that reads back as its
      type and its two values. */
  lemma RoleRowLoads(ptype: string, a: string, b: string)
    requires Plain(ptype) && Plain(a) && Plain(b)
    ensures Split(DecodeRow(Row(Some(ptype), [Some(a), Some(b), None, None, None, None]))) == [ptype, a, b]
  {
    RoleRowValues(ptype, a, b);
    DecodeRoundTripOf(Row(Some(ptype), [Some(a), Some(b), None, None, None, None]), [ptype, a, b]);
  }

  /** A role row with plain values loads as its type and its two values
      with one separator between neighbours. */
  lemma RoleRowLine(ptype: string, a: string, b: string)
    requires Plain(ptype) && Plain(a) && Plain(b)
    ensures DecodeRow(Row(Some(ptype), [Some(a), Some(b), None, None, None, None]))
            == (ptype + Separator) + ((a + Separator) + b)
  {
    var row := Row(Some(ptype), [Some(a), Some(b), None, None, None, None]);
    RoleRowValues(ptype, a, b);
    LoadsAsJoin(row, [ptype, a, b]);
    JoinThree(ptype, a, b);
  }

  /** A stored rule with an empty middle value loses that value on load:
      the line holds the other two, so the third value takes the second's
      place. */
  lemma EmptyValueShiftsLeft(table: seq<Row>, sec: string, ptype: string, a: string, c: string)
    requires Plain(a) && Plain(c)
    ensures Values(AddPolicy(table, sec, ptype, [a, "", c])[|table|]) == [a, c]
    ensures DecodeRow(AddPolicy(table, sec, ptype, [a, "", c])[|table|]) == (a + Separator) + c
  {
    var rule, xs := [a, "", c], [a, c];
    var row := AddPolicy(table, sec, ptype, rule)[|table|];
    assert Values(row) == NonEmpty(rule) by {
      assert row == Row(None, Insert(EncodeRule(rule)).v);
      ValuesOfEncoded(None, rule);
    }
    assert NonEmpty(rule) == xs by {
      NonEmptyDropsMiddle(a, c);
    }
    assert DecodeRow(row) == Join(xs) by {
      PlainPair(a, c);
      LoadsAsJoin(row, xs);
    }
    JoinTwo(a, c);
  }

  /** Two plain values make a list of plain fields. */
  lemma PlainPair(a: string, c: string)
    requires Plain(a) && Plain(c)
    ensures forall k :: 0 <= k < |[a, c]| ==> Plain([a, c][k])
  {
    var xs := [a, c];
    forall k | 0 <= k < |xs|
      ensures Plain(xs[k])
    {
      if k == 0 {
        assert xs[k] == a;
      } else {
        assert xs[k] == c;
      }
    }
  }

  /** Of three values, an empty middle one is the one dropped. */
  lemma NonEmptyDropsMiddle(a: string, c: string)
    requires a != "" && c != ""
    ensures NonEmpty([a, "", c]) == [a, c]
  {
    var rule := [a, "", c];
    assert rule[1..] == ["", c];
    assert rule[1..][1..] == [c];
    assert NonEmpty([c]) == [c] + NonEmpty([]);
  }

  /** The rule alice, "", read is stored and loads as the line alice, read. */
  lemma EmptyValueExample()
    ensures DecodeRow(AddPolicy([], "p", "p", ["alice", "", "read"])[0]) == ("alice" + Separator) + "read"
  {
    assert Plain("alice") && Plain("read");
    EmptyValueShiftsLeft([], "p", "p", "alice", "read");
  }

  /** The filter (1, "data1") constrains v1 alone. */
  lemma WindowData1(row: Row)
    ensures InWindow(row, "p", 1, ["data1"]) <==> row.ptype == Some("p") && row.v[1] == Some("data1")
  {
    assert forall i :: Constrains(1, ["data1"], i) <==> i == 1;
  }

  /** The filter (1, "data2", "read") constrains v1 and v2. */
  lemma WindowData2Read(row: Row)
    ensures InWindow(row, "p", 1, ["data2", "read"])
            <==> row.ptype == Some("p") && row.v[1] == Some("data2") && row.v[2] == Some("read")
  {
    assert forall i :: Constrains(1, ["data2", "read"], i) <==> i == 1 || i == 2;
  }

  /** The filter (2, "write") constrains v2 alone. */
  lemma WindowWrite(row: Row)
    ensures InWindow(row, "p", 2, ["write"]) <==> row.ptype == Some("p") && row.v[2] == Some("write")
  {
    assert forall i :: Constrains(2, ["write"], i) <==> i == 2;
  }

  /** Five rows of which only the first lies in the window. */
  lemma OnlyFirstInWindow(a: Row, b: Row, c: Row, d: Row, e: Row,
                          ptype: string, fieldIndex: int, fieldValues: seq<string>)
    requires InWindow(a, ptype, fieldIndex, fieldValues) && !InWindow(b, ptype, fieldIndex, fieldValues)
    requires !InWindow(c, ptype, fieldIndex, fieldValues) && !InWindow(d, ptype, fieldIndex, fieldValues)
    requires !InWindow(e, ptype, fieldIndex, fieldValues)
    ensures OutsideWindow([a, b, c, d, e], ptype, fieldIndex, fieldValues) == [b, c, d, e]
  {
    assert [e][1..] == [];
    assert OutsideWindow([e], ptype, fieldIndex, fieldValues) == [e];
    assert [d, e][1..] == [e];
    assert OutsideWindow([d, e], ptype, fieldIndex, fieldValues) == [d, e];
    assert [c, d, e][1..] == [d, e];
    assert OutsideWindow([c, d, e], ptype, fieldIndex, fieldValues) == [c, d, e];
    assert [b, c, d, e][1..] == [c, d, e];
    assert OutsideWindow([b, c, d, e], ptype, fieldIndex, fieldValues) == [b, c, d, e];
    assert [a, b, c, d, e][1..] == [b, c, d, e];
  }

  /** Four rows of which only the second lies in the window. */
  lemma OnlySecondInWindow(a: Row, b: Row, c: Row, d: Row, ptype: string, fieldIndex: int, fieldValues: seq<string>)
    requires !InWindow(a, ptype, fieldIndex, fieldValues) && InWindow(b, ptype, fieldIndex, fieldValues)
    requires !InWindow(c, ptype, fieldIndex, fieldValues) && !InWindow(d, ptype, fieldIndex, fieldValues)
    ensures OutsideWindow([a, b, c, d], ptype, fieldIndex, fieldValues) == [a, c, d]
  {
    assert [d][1..] == [];
    assert OutsideWindow([d], ptype, fieldIndex, fieldValues) == [d];
    assert [c, d][1..] == [d];
    assert OutsideWindow([c, d], ptype, fieldIndex, fieldValues) == [c, d];
    assert [b, c, d][1..] == [c, d];
    assert OutsideWindow([b, c, d], ptype, fieldIndex, fieldValues) == [c, d];
    assert [a, b, c, d][1..] == [b, c, d];
    assert [a] + [c, d] == [a, c, d];
  }

  /** Three rows of which all but the last lie in the window. */
  lemma OnlyLastOutsideWindow(a: Row, b: Row, c: Row, ptype: string, fieldIndex: int, fieldValues: seq<string>)
    requires InWindow(a, ptype, fieldIndex, fieldValues) && InWindow(b, ptype, fieldIndex, fieldValues)
    requires !InWindow(c, ptype, fieldIndex, fieldValues)
    ensures OutsideWindow([a, b, c], ptype, fieldIndex, fieldValues) == [c]
  {
    assert [c][1..] == [];
    assert OutsideWindow([c], ptype, fieldIndex, fieldValues) == [c];
    assert [b, c][1..] == [c];
    assert OutsideWindow([b, c], ptype, fieldIndex, fieldValues) == [c];
    assert [a, b, c][1..] == [b, c];
  }

  /** Removing (1, "data1") from the seed removes only alice's data1 row. */
  lemma RemoveData1()
    ensures RemoveFilteredPolicy(Seed(), "p", "p", 1, ["data1"]) == Seed()[1..]
  {
    var t := Seed();
    SeedValuesDistinct();
    WindowData1(t[0]); WindowData1(t[1]); WindowData1(t[2]); WindowData1(t[3]); WindowData1(t[4]);
    assert t == [t[0], t[1], t[2], t[3], t[4]] && t[1..] == [t[1], t[2], t[3], t[4]];
    RemoveFilteredIsOutsideWindow(t, "p", "p", 1, ["data1"]);
    OnlyFirstInWindow(t[0], t[1], t[2], t[3], t[4], "p", 1, ["data1"]);
  }

  /** Then removing (1, "data2", "read") removes only data2_admin's read row. */
  lemma RemoveData2Read()
    ensures RemoveFilteredPolicy(Seed()[1..], "p", "p", 1, ["data2", "read"])
            == [Seed()[1], Seed()[3], Seed()[4]]
  {
    var t := Seed();
    SeedValuesDistinct();
    WindowData2Read(t[1]); WindowData2Read(t[2]); WindowData2Read(t[3]); WindowData2Read(t[4]);
    assert t[1..] == [t[1], t[2], t[3], t[4]];
    RemoveFilteredIsOutsideWindow(t[1..], "p", "p", 1, ["data2", "read"]);
    OnlySecondInWindow(t[1], t[2], t[3], t[4], "p", 1, ["data2", "read"]);
  }

  /** Then removing (2, "write") removes both write rows and keeps the role
      row. */
  lemma RemoveWrite()
    ensures RemoveFilteredPolicy([Seed()[1], Seed()[3], Seed()[4]], "p", "p", 2, ["write"]) == [Seed()[4]]
  {
    var t := Seed();
    SeedValuesDistinct();
    WindowWrite(t[1]); WindowWrite(t[3]); WindowWrite(t[4]);
    RemoveFilteredIsOutsideWindow([t[1], t[3], t[4]], "p", "p", 2, ["write"]);
    OnlyLastOutsideWindow(t[1], t[3], t[4], "p", 2, ["write"]);
  }
}
