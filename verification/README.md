# Medoo adapter for the Casbin policy engine: a Dafny model

The adapter stores authorization rules in one relational table,
`casbin_rule`. The table has a `ptype` column and six nullable positional
columns `v0`..`v5`. Its PHP class (`src/Adapter.php`) translates between
the engine's rules and that table through the Medoo query builder.

This project models the pure core of that class:

- **Encoding** (`savePolicyLine`). A rule becomes the column array
  `v<i> => rule[i]`. This is `Codec.EncodeRule`, inserted as one row
  (`Adapter.SavePolicyLine`, `Adapter.RuleRow`).
- **Decoding** (the body of `loadPolicy`). A row's seven cells are
  filtered so that NULL and the empty string drop out. They are then joined
  with `", "` and trimmed (`Codec.DecodeRow`). This uses a model of PHP's
  `implode` and default-character `trim` (`Text.Join`, `Text.Trim`).
- **Saving.** `addPolicy` delegates to the encoder (`Adapter.AddPolicy`).
  `savePolicy` runs the encoder for every rule of every `p` assertion, then
  of every `g` assertion, and returns true (`Adapter.SavePolicy`).
- **Removing.** `removePolicy` builds an exact where array: `ptype` plus
  every value of the rule (`Filters.ExactWhere`). `removeFilteredPolicy`
  builds a positional window over `v0..v5` that skips empty values
  (`Filters.FilteredWhere`). Both run Medoo's `delete` with an AND of
  equalities (`Table.Delete`).

The table is an immutable sequence of rows. Each operation returns the new
table.

Medoo's semantics are modelled explicitly:

- An insert leaves unlisted columns NULL (`Table.Insert`).
- A where clause is a conjunction of column equalities.
- SQL NULL equals no string (`Table.Matches`).

Every operation has a partner:

- The decoder is paired with a splitter that inverts the join
  (`Text.SplitJoin`, `Codec.DecodeRoundTrip`).
- The encoder is paired with the decoder (`Codec.EncodedCellsRoundTrip`).
- Each removal is paired with an independent reference filter over rows
  (`Adapter.WithoutRule`, `Adapter.OutsideWindow`).
- `savePolicy` is paired with the list of rows one insert per rule produces
  (`Adapter.Stored`).

`Scenarios` replays the fixture rows and the filtered-removal sequence of
`tests/AdapterTest.php`.

`removePolicy`'s where clause (`src/Adapter.php:151`) and `loadPolicy`'s
first selected column (`src/Adapter.php:93`) both rely on a row's `ptype`,
but `savePolicyLine` never writes it (see Findings). The `Adapter` module
keeps the behaviour as written, so a row the adapter writes itself loads
back without a type. Rows whose `ptype` is set, such as the test fixture
rows, load back with it (`Scenarios.SeedRoleRowLine`). The corrected
encoder and the properties it restores are in `Findings`.

## Model

| member | source | states |
|---|---|---|
| Text.Trim | src/Adapter.php:98 | trim() leaves a string whose ends are not space, tab, newline, carriage return, NUL or vertical tab. It leaves a string with clean ends unchanged. It removes only such characters, and only from the two ends. |
| Text.Join | src/Adapter.php:95 | implode(', ') of no fields is the empty string. The first field begins the line and the last field ends it. |
| Text.SplitJoin | src/Adapter.php:95 | Splitting the joined line at its separators gives back exactly the fields, whenever no field contains a comma and the list is not the single empty field. |
| Text.JoinTrimmed | src/Adapter.php:95-98 | When every field is non-empty and has clean ends, trim() does not change the joined line. |
| Table.Insert | src/Adapter.php:83 | The inserted row holds the listed value in every listed column and NULL in every column the array does not list. |
| Table.Delete | src/Adapter.php:157 | Medoo's delete never adds a row. Which rows it keeps, how many, and in what order are stated by the lemmas in the rows below. |
| Table.DeleteCount | src/Adapter.php:157 | Every row is either kept or selected by the where clause: the two counts add up to the table's size. |
| Table.DeleteMembers | src/Adapter.php:157 | A delete with an AND where array keeps exactly the rows that fail some equality, and removes every row that satisfies all of them. |
| Table.DeletePartition | src/Adapter.php:157 | Nothing else changes: the kept rows and the removed rows together are the original table as a multiset, so no row is lost or duplicated. |
| Table.DeleteAppend | src/Adapter.php:157 | A delete decides row by row, so the surviving rows keep their relative order. |
| Table.DeleteNoMatch | src/Adapter.php:157 | A delete that no row satisfies leaves the table unchanged. |
| Table.DeleteIdempotent | src/Adapter.php:157 | Repeating a delete changes nothing. |
| Codec.EncodeRule | src/Adapter.php:78-81 | The column array has exactly the keys v0..v(n-1) for a rule of n values. It maps v<i> to rule[i] and has no `ptype` key. |
| Codec.Kept | src/Adapter.php:95-97 | The array_filter keeps a value iff some cell holds it and it is not the empty string. |
| Codec.DecodeRow | src/Adapter.php:93-98 | The line has clean ends. A row with no present cell gives the empty line. |
| Codec.DecodeIgnoresNullVersusEmpty | src/Adapter.php:96 | Rows that differ only by NULL versus empty string in some cells decode to the same line. |
| Codec.DecodeRoundTrip | src/Adapter.php:93-98 | When the present values are non-empty, comma-free and have clean ends, splitting the decoded line gives back the row's present values in column order. A skipped cell leaves no placeholder. |
| Codec.EncodedCellsLayout | src/Adapter.php:78-83 | The positional cells stored for a rule are its values in order, followed by NULLs up to v5. |
| Codec.EncodedCellsRoundTrip | src/Adapter.php:76-98 | Reading back the positional cells stored for any rule gives its non-empty values in order. An empty value leaves no field, so the values after it move one place left; a rule with no empty value comes back whole. |
| Codec.NonEmptyAll | src/Adapter.php:96 | A list with no empty value passes the filter unchanged. |
| Codec.ValuesOfEncoded | src/Adapter.php:76-98 | For any rule, a stored row with type cell `t` yields the value of `t` (when present) followed by the rule's non-empty values. |
| Codec.DecodeIsJoin | src/Adapter.php:95-98 | When the present values are plain, the loaded line is exactly their implode(', '): trim() removes nothing. |
| Codec.LoadsAsJoin | src/Adapter.php:95-98 | A row whose present values are the plain fields `xs` loads as their implode(', '), and that line splits back into `xs`. |
| Filters.ExactWhere | src/Adapter.php:151-155 | The removePolicy where array has keys `ptype` and v0..v(n-1) and nothing else. It maps `ptype` to the given type and v<i> to rule[i]. |
| Filters.ExactWhereMatches | src/Adapter.php:151-157 | A row satisfies the exact filter iff it holds the rule (`HoldsRule`): its type is the given type and its first n positional cells hold the rule's values. |
| Filters.FilteredWhere | src/Adapter.php:173-181 | The removeFilteredPolicy where array always holds `ptype`. It holds v<i> iff i is in 0..5, inside the window, and its value is non-empty. Then it maps v<i> to that value. |
| Filters.FilteredWhereMatches | src/Adapter.php:173-183 | A row satisfies the window filter iff it lies in the window (`InWindow`): its type matches and it holds the window's value at every constrained position. |
| Filters.FilteredWhereTypeOnly | src/Adapter.php:175-181 | With no non-empty value inside v0..v5 the filter reduces to the type alone. |
| Filters.FilteredWhereFromZeroIsExact | src/Adapter.php:173-181 | A window of non-empty values starting at v0 builds the same where array as removePolicy of that rule. |
| Adapter.RuleRow | src/Adapter.php:76-84 | The row stored for a rule holds rule[i] in v<i>, NULL after the rule's end, and NULL in `ptype`. |
| Adapter.SavePolicyLine | src/Adapter.php:76-84 | Exactly one row is appended and the old rows are kept. The new row has no type and holds the rule's values by position, with NULL after the rule's end. |
| Adapter.AddPolicy | src/Adapter.php:135-138 | addPolicy appends the same single row as savePolicyLine and keeps every existing row. |
| Adapter.AddPolicyIgnoresSectionAndType | src/Adapter.php:135-138 | The appended row depends on the rule alone. Neither the section nor the policy type changes it. |
| Adapter.RulesStorable | src/Adapter.php:109-123 | A list of assertions can be saved iff every rule of every assertion fits in the six positional columns. |
| Adapter.SaveRules | src/Adapter.php:112-114 | The inner foreach calls savePolicyLine with the assertion's policy type for each rule and so appends one stored row per rule, in rule order, after the existing rows. |
| Adapter.SaveSections | src/Adapter.php:111-115 | An outer foreach appends the rows of every assertion's rules, assertion after assertion, after the existing rows. |
| Adapter.SavePolicy | src/Adapter.php:109-123 | savePolicy reports success. The table becomes the old rows, then one row per `p` rule, then one row per `g` rule, and no new row has a type. |
| Adapter.LoadPolicy | src/Adapter.php:91-100 | There is one line per row, in storage order. Each line is that row's decoding and has clean ends. |
| Adapter.RemovePolicy | src/Adapter.php:149-158 | removePolicy deletes exactly the rows that hold the rule, meaning the type matches and the first n cells hold its values. Every other row stays. |
| Adapter.RemovePolicyKeepsOrder | src/Adapter.php:157 | The rows removePolicy keeps stay in their relative order. |
| Adapter.RemovePolicyIsWithoutRule | src/Adapter.php:149-158 | removePolicy equals the reference filter that keeps the rows not holding the rule, in order. |
| Adapter.RemoveFilteredPolicy | src/Adapter.php:171-184 | removeFilteredPolicy deletes exactly the rows inside the window and keeps every other row. |
| Adapter.RemoveFilteredPolicyKeepsOrder | src/Adapter.php:183 | The rows removeFilteredPolicy keeps stay in their relative order. |
| Adapter.RemoveFilteredIsOutsideWindow | src/Adapter.php:171-184 | removeFilteredPolicy equals the reference filter that keeps the rows outside the window, in order. |
| Adapter.RemoveFilteredAllEmpty | src/Adapter.php:175-181 | When every supplied value is empty, or none is supplied, the removal deletes every row of the type and nothing else. |
| Adapter.RemoveFilteredOutOfRange | src/Adapter.php:175-176 | A window wholly outside v0..v5 removes every row of the type, without an error. |
| Findings.AddedRuleEscapesRemovePolicy | src/Adapter.php:76-84 | As written, the row addPolicy stores for a rule survives a removePolicy of the same rule. |
| Findings.AddedRuleLoadsWithoutType | src/Adapter.php:76-84 | As written, a stored rule of plain values (non-empty, comma-free, clean ends) loads as the implode(', ') of its values alone, without the policy type, and splits back into those values. |
| Findings.AddedRuleLine | src/Adapter.php:76-98 | As written, a stored rule a, b, c of plain values loads as exactly a, ", ", b, ", ", c. |
| Findings.AddThenRemoveExample | tests/AdapterTest.php:105-113 | Adding the rule alice, data5, read and then removing it leaves the added row in the table. |
| Findings.AddThenLoadExample | tests/AdapterTest.php:109 | The line loaded for the added rule alice, data5, read splits into the fields alice, data5, read, with no type. |
| Findings.AddThenLoadLine | tests/AdapterTest.php:109 | The added rule alice, data5, read loads as the line "alice" + ", " + "data5" + ", " + "read", with no type. |
| Findings.SavePolicyLineTyped | src/Adapter.php:76-84 | The corrected encoder appends one row that holds the type in `ptype` and the rule by position. |
| Findings.AddPolicyTyped | src/Adapter.php:135-138 | The corrected addPolicy appends a row that holds the rule under its type. |
| Findings.TypedRuleRemovedByRemovePolicy | src/Adapter.php:149-158 | With the corrected encoder, removing a rule right after adding it leaves the table as the removal alone would. |
| Findings.TypedRuleLoadsWithType | src/Adapter.php:91-100 | With the corrected encoder, a stored rule with a plain type and plain values (non-empty, comma-free, clean ends) loads back as its type followed by its values. |
| Scenarios.SeedInserted | tests/AdapterTest.php:33-41 | The fixture rows are exactly what Medoo's insert stores for the five column arrays, in order; the null `v2` of the role row is written as an absent key, which `Insert` stores as NULL. |
| Scenarios.SeedRoleRowValues | tests/AdapterTest.php:38 | The fixture role row, with NULL in v2, has present values g, alice, data2_admin. |
| Scenarios.SeedRoleRowLoads | tests/AdapterTest.php:38 | The line loaded for the fixture role row splits into the fields g, alice, data2_admin. |
| Scenarios.SeedRoleRowLine | tests/AdapterTest.php:38 | The fixture role row loads as the line "g" + ", " + "alice" + ", " + "data2_admin", with no trailing separator for the NULL cell. |
| Scenarios.RoleRowLoads | src/Adapter.php:93-98 | Any row with a plain type, two plain values (non-empty, comma-free, clean ends) and NULLs after them loads as a line that reads back as exactly those three fields. |
| Scenarios.RoleRowLine | src/Adapter.php:93-98 | Such a row, with a plain type and two plain values, loads as its type and two values with one ", " between neighbours and nothing for the NULL cells. |
| Scenarios.EmptyValueShiftsLeft | src/Adapter.php:76-98 | For plain `a` and `c` (non-empty, comma-free, clean ends), a stored rule a, "", c keeps only a and c on load, so the line is a, ", ", c and c takes the second value's place. |
| Scenarios.EmptyValueExample | src/Adapter.php:76-98 | The added rule alice, "", read loads as the line "alice" + ", " + "read". |
| Scenarios.WindowData1 | tests/AdapterTest.php:119 | The filter at index 1 with value data1 constrains the type and v1 only. |
| Scenarios.RemoveData1 | tests/AdapterTest.php:115-120 | Removing (1, data1) from the fixture removes alice's data1 row and nothing else. |
| Scenarios.RemoveData2Read | tests/AdapterTest.php:126-130 | Then removing (1, data2, read) removes data2_admin's read row and nothing else. |
| Scenarios.RemoveWrite | tests/AdapterTest.php:132-135 | Then removing (2, write) removes both write rows and keeps the role row. |

## Left out

- Connecting to the database, the constructor, `newAdapter`, `getDatabase` and the `CREATE TABLE` in `initTable` are left out. These are I/O and configuration. Only the schema, `ptype` and `v0`..`v5`, is modelled, as `Table.Row`.
- Medoo's return values (the PDO statements of `insert` and `delete`) are not modelled. The operations return the new table instead.
- `loadPolicyLine` and the engine's parsing of a line belong to the policy engine and are left out. `Adapter.LoadPolicy` returns the lines it would hand over.
- Adapter.SavePolicyLine: requires at most six values. A longer rule would name a `v6` column, which the source leaves to the database to reject, so that error path is not modelled. The same bound applies to `Adapter.AddPolicy`, `Adapter.SavePolicy` and `Adapter.RemovePolicy`.
- Table.Matches: uses exact string equality. MySQL's default collation compares case-insensitively and ignores trailing spaces, and `VARCHAR(255)` truncates longer values. Neither is modelled.
- Filters.FilteredWhere: the filter values are strings. PHP's loose `'' != $val` also skips a `null` value, and non-string values compare loosely. Only the string case is modelled.
- Text.Trim: works on characters, whereas PHP strings are bytes. The six characters PHP strips are all single bytes, so only the encoding differs.
- The assertion maps of the `p` and `g` sections are modelled as sequences in PHP's insertion order. Each array key (the policy type) is passed to the line encoder, which ignores it, as in the source.
- Batch add/remove, update, filtered loading with its "filtered" flag, and transactions do not appear in this version of `src/Adapter.php`, so they are not modelled.

## Findings

| source | as written | input that shows it | evidently intended | confidence | as-written member | corrected member |
|---|---|---|---|---|---|---|
| src/Adapter.php:76-84 | `savePolicyLine($ptype, $rule)` never puts `$ptype` in the column array, so every row written by `addPolicy` and `savePolicy` has a NULL `ptype`. | `addPolicy("p", "p", ["alice", "data5", "read"])` followed by `removePolicy("p", "p", ["alice", "data5", "read"])`. The delete's `ptype = 'p'` never matches NULL, so the row stays. It also loads back as `alice, data5, read`, with `alice` where the type belongs. | The column array also sets `ptype => $ptype`. It is then the same array `removePolicy` uses as its where clause, and the row loads back as `p, alice, data5, read`. | not executed | Findings.AddThenRemoveExample | Findings.TypedRuleRemovedByRemovePolicy |
