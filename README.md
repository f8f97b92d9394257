# casbin-mssql-adapter, modelled in Dafny

This project models `CasbinMssqlAdapter`, the Casbin policy adapter that
keeps policy rules in one SQL Server table. The model covers what the SQL
statements mean on an abstract table, not how they are sent. The table is a
sequence of rows `(ptype, v0..v5)`. Each column is an `Option<string>`, where
`None` is SQL NULL. The composite unique index over all seven columns is the
invariant that every operation keeps.

The project has one module per concern:

- `RuleCodec` (`rule_codec.dfy`) covers `#dataFromPolicyRule`, which puts a
  rule into the six nullable columns, and `#lineFromRecord`, which turns a
  row into the line `"ptype, a, b, …"`. The module also has a splitter at
  `", "`, used to state the round trip.
- `Matching` (`matching.dfy`) holds the two WHERE-clause policies and the
  lemmas that keep them apart:
  - the wildcard-NULL match of removePolicy and of the updatePolicy CTE;
  - the fixed-index exact match of removeFilteredPolicy and
    loadFilteredPolicy.

  Both use SQL three-valued `=`.
- `PolicyTable` (`policy_table.dfy`) gives each statement its meaning as a
  function on the table:
  - DELETE by rule, filtered DELETE and batch DELETE;
  - the COALESCE-merge UPDATE;
  - bulk insert rows;
  - the lines of a full or filtered load.

  The lemmas about these functions are here too.
- `TableIdentifier` (`table_identifier.dfy`) builds the bracket-quoted
  identifier `[schema].[table]` or `[table]`. A parser for it is used to
  prove that the identifier is injective.
- `Adapter` (`adapter.dfy`) holds the stateful parts:
  - the class `CasbinMssqlAdapter`, with the table rows, the `#filtered`
    flag and whether `db` holds a connection as fields, and one method per
    adapter operation; the operations that send a statement require the
    connection;
  - the class `ConstructionGuard`, for the static `#isInternalConstructing`
    flag;
  - the factory and the guarded constructor.

  Each method's contract ties the new rows to the `PolicyTable` function of
  that statement.

Modelling choices:

- **Missing columns are errors, not preconditions.** A statement that names
  a column outside v0..v5 is rejected by the store. Examples are a
  removeFilteredPolicy with `fieldIndex + |values| > 6`, and a
  loadFilteredPolicy value sequence of more than six values. The model
  returns the error `InvalidColumn` for these instead of requiring callers
  to avoid them.
- **The unique index rejects a statement whole.** An INSERT, UPDATE or bulk
  copy that would create a duplicate row returns `ConstraintViolation` and
  leaves the table as it was.
- **The construction guard is never lowered.** The static flag is raised by
  `newAdapter` and never reset. So direct construction is refused only until
  the first factory call, and the model keeps this behaviour.

## Model

| member | source | states |
|---|---|---|
| RuleCodec.Encode | src/adapter.mjs:237-247 | ptype is stored unchanged; column v_i holds rule[i] for i < 6 (null stays NULL, '' stays ''); positions past the rule's end are NULL |
| RuleCodec.EncodeKeepsFirstSix | src/adapter.mjs:237-247 | elements of a rule past the sixth are not stored: the row equals that of the rule's first six elements |
| RuleCodec.PresentAllKept | src/adapter.mjs:250 | when no value is NULL or '', the line keeps every value, in column order |
| RuleCodec.PresentNoneKept | src/adapter.mjs:250 | when every value is NULL or '', nothing is emitted |
| RuleCodec.PresentAppend | src/adapter.mjs:250 | the filter keeps values column by column: the kept values of a concatenation are the concatenation of the kept values |
| RuleCodec.PresentStrings | src/adapter.mjs:250 | a sequence of non-empty strings passes the filter unchanged |
| RuleCodec.NullAndEmptyReadAlike | src/adapter.mjs:250 | replacing a stored '' with NULL does not change the line |
| RuleCodec.SplitJoin | src/adapter.mjs:251 | joining comma-free parts with ", " and splitting at ", " gives back the parts |
| RuleCodec.EncodedPresent | src/adapter.mjs:237-251 | the values kept from a stored rule of non-empty strings are exactly ptype followed by the rule |
| RuleCodec.LineRoundTrip | src/adapter.mjs:249-252 | a rule of at most six non-empty, comma-free strings reads back as the line "ptype, rule[0], …", which splits into ptype followed by the rule |
| RuleCodec.InteriorEmptyIsDropped | src/adapter.mjs:249-252 | the rule [a, '', c] reads back as [a, c]: an interior '' does not round-trip by position |
| Matching.WildcardMatchMeaning | src/adapter.mjs:96-103 | a row matches by wildcard exactly when its ptype equals the rule's and each column whose parameter is set holds that value (a stored NULL never equals a set parameter) |
| Matching.EncodedRowMatchesItsRule | src/adapter.mjs:93-114 | the row stored for a rule is matched by that rule, whatever NULLs it holds |
| Matching.UnsetMatchesAnything | src/adapter.mjs:98-103 | a column whose parameter is NULL does not affect the match, whatever is stored in it, NULL included |
| Matching.StoredNullNeverMatchesExactly | src/adapter.mjs:118-122 | under the exact policy a stored NULL in a constrained column never matches |
| Matching.ExactAgreesWithWildcard | src/adapter.mjs:116-125 | an exact match on v0..v(n-1) with present values holds if and only if the wildcard match of the rule made of those values holds |
| Matching.NullAsymmetry | src/adapter.mjs:116-125 | with column v_k NULL, the wildcard rule that leaves v_k unset finds the row, while no exact filter on v_k does |
| PolicyTable.SelectCounts | src/adapter.mjs:96-104 | a DELETE or SELECT keeps each selected row as often as it occurs in the table, and no other row |
| PolicyTable.SelectUnique | src/adapter.mjs:49 | selecting rows from a table on which the unique index holds keeps the index holding |
| PolicyTable.RemovePolicyRows | src/adapter.mjs:93-114 | removePolicy deletes exactly the rows the encoded rule matches by wildcard (none, one or many); every other row stays as often as it was; the index keeps holding |
| PolicyTable.RemoveSameArity | src/adapter.mjs:93-114 | when every row was stored from a rule of strings of the same length, removePolicy removes exactly the row of that rule |
| PolicyTable.RemoveFilteredRows | src/adapter.mjs:116-125 | removeFilteredPolicy deletes exactly the rows whose ptype is equal and whose columns from v_fieldIndex on hold the values exactly; other columns are unconstrained; the index keeps holding |
| PolicyTable.FilteredDeleteWithoutValues | src/adapter.mjs:116-125 | with no values, every row of the ptype is deleted and every other row stays, whatever the index |
| PolicyTable.UpdatePolicyRows | src/adapter.mjs:129-171 | the row count is unchanged; the targets are the rows of the table before the update that match oldRule by wildcard; each target keeps its ptype, takes newRule's value in every column it sets and keeps its own value elsewhere, and is then matched by newRule; other rows are unchanged |
| PolicyTable.UpdateFanOut | src/adapter.mjs:144-153 | all targets get the same value in every column newRule sets |
| PolicyTable.UpdateCannotShorten | src/adapter.mjs:144-151 | the merge never clears a column: updating [a, b, c] to [x, y] gives [x, y, c] |
| PolicyTable.RemoveBatch | src/adapter.mjs:195-199 | removePolicy applied to each rule in list order only deletes rows and keeps the index holding |
| PolicyTable.RemoveBatchClears | src/adapter.mjs:195-199 | when every row of the ptype is the encoding of some rule of the batch, no row of that ptype is left |
| PolicyTable.BatchKeepsOtherPtypes | src/adapter.mjs:195-199 | removePolicies never deletes a row of another ptype |
| PolicyTable.AddThenRemoveBatch | src/adapter.mjs:175-199 | adding a batch and then removing the same batch leaves no row of the ptype and keeps every earlier row, when the ptype had no rows before |
| PolicyTable.AllLinesPermutation | src/adapter.mjs:58-69 | two orderings of the same rows give the same multiset of lines, so the order in which the store returns rows does not matter up to permutation |
| PolicyTable.QueriesSelectable | src/adapter.mjs:206-215 | every SELECT of a filtered load names existing columns exactly when every value sequence of the filter has at most six values |
| PolicyTable.FilteredLinesAppend | src/adapter.mjs:206-226 | the lines of a run of SELECTs are the lines of each part, concatenated without removing duplicates |
| TableIdentifier.IdentifierRoundTrip | src/adapter.mjs:26-28 | the identifier parses back into the schema that took effect (only when it is truthy) and the table name, when neither holds a ']' |
| TableIdentifier.IdentifierInjective | src/adapter.mjs:26-28 | two identifiers are equal only when the table names and effective schemas are |
| Adapter.CasbinMssqlAdapter.constructor | src/adapter.mjs:20-29 | table defaults to casbin_rule, identifier built from schema and table, flag not set, no connection, index holding |
| Adapter.CasbinMssqlAdapter.LoadPolicy | src/adapter.mjs:58-69 | the lines handed over are those of the table's rows, one per row |
| Adapter.CasbinMssqlAdapter.LinesOf | src/adapter.mjs:65-68 | the forEach over a record set produces one line per record, in record order |
| Adapter.CasbinMssqlAdapter.SavePolicy | src/adapter.mjs:71-74 | always refused |
| Adapter.CasbinMssqlAdapter.AddPolicy | src/adapter.mjs:76-91 | fails with a constraint violation exactly when the encoded row is already stored; otherwise adds exactly that row; the index keeps holding |
| Adapter.CasbinMssqlAdapter.RemovePolicy | src/adapter.mjs:93-114 | the new rows are those of RemovePolicyRows; never an error; the index keeps holding |
| Adapter.CasbinMssqlAdapter.RemoveFilteredPolicy | src/adapter.mjs:116-125 | succeeds exactly when every named column exists, and then deletes as RemoveFilteredRows; otherwise nothing changes |
| Adapter.CasbinMssqlAdapter.UpdatePolicy | src/adapter.mjs:129-171 | succeeds exactly when the merged table keeps the index, and then the rows are those of UpdatePolicyRows; otherwise nothing changes |
| Adapter.CasbinMssqlAdapter.AddPolicies | src/adapter.mjs:175-193 | succeeds exactly when the table plus one encoded row per rule, in list order, keeps the index, and then appends those rows; otherwise nothing changes |
| Adapter.CasbinMssqlAdapter.RemovePolicies | src/adapter.mjs:195-199 | the rows are those of removePolicy applied to each rule in list order |
| Adapter.CasbinMssqlAdapter.SelectLines | src/adapter.mjs:209-225 | one SELECT returns the lines of exactly the rows of the ptype whose columns from v0 on hold the values |
| Adapter.CasbinMssqlAdapter.LoadEntry | src/adapter.mjs:207-226 | the value sequences of one ptype run in order; it stops at the first one with more than six values, keeping the lines of those before it |
| Adapter.CasbinMssqlAdapter.LoadFilteredPolicy | src/adapter.mjs:203-229 | succeeds exactly when every SELECT names existing columns, and then returns the lines of every (ptype, values) pair in filter order, without removing duplicates, and sets the flag; otherwise it stops at the first bad value sequence with the earlier lines and leaves the flag as it was |
| Adapter.CasbinMssqlAdapter.IsFiltered | src/adapter.mjs:231-233 | returns the flag |
| Adapter.LoadStop | src/adapter.mjs:206-226 | a value sequence with more than six values means the filter is not selectable, and the lines so far are those of every earlier SELECT |
| Adapter.NewAdapter | src/adapter.mjs:11-17 | raises the static flag and returns a fresh, connected adapter built from the options, with the flag unset and the index holding |
| Adapter.Construct | src/adapter.mjs:20-21 | direct construction succeeds exactly when the static flag is raised, else NotConstructable; the adapter it returns has no connection |
| Adapter.GuardLifecycle | src/adapter.mjs:9-21 | direct construction is refused on a fresh guard and accepted after one factory call, since the flag is never lowered |

## Left out

- The connection pool, `connect`, `dispose` and `options.pool` are left out. They are network I/O through the `mssql` driver.
- The DDL and the `OBJECT_ID` existence check are left out, except for the unique index they create, which is the invariant `Unique`. The race between two adapters checking and creating the table is a concurrency issue. The table that `newAdapter` reaches is a parameter: empty, or any table on which the index holds.
- `Helper.loadPolicyLine` is a call into casbin. The loads return the lines they would feed it instead. `SplitLine` only splits at `", "` to state what a line carries; it is not casbin's parser.
- The `sec` argument is left out because the source ignores it. The `model` argument of loadPolicy and loadFilteredPolicy is replaced by the returned lines.
- The surrogate `id` column is left out. The CTE's join on it selects exactly the rows the CTE matched, which the model states directly.
- Collation, padding, `varchar(255)` truncation and nvarchar/varchar typing are left out. String equality is exact.
- Row order is not modelled. Loads return rows in table order, and `AllLinesPermutation` states that any other order gives the same lines up to permutation.
- The async scheduling and the string assembly of parameter names and predicates are left out. Only the meaning of each predicate is modelled.
- Store errors other than a missing column and a unique-index violation are left out, such as a lost connection or a timeout. So removePolicies cannot fail part-way in the model.
- Adapter.Construct: an adapter built directly has no `db`, and every operation that sends a statement throws a TypeError in the source. The model does not model that TypeError; instead those methods require `connected`, which only `NewAdapter` sets.
- Tables shared between adapters are not modelled. Each adapter holds its own rows, while in the source two adapters with equal identifiers read and write the same table.
- Adapter.CasbinMssqlAdapter.AddPolicies: the bulk copy is modelled as all-or-nothing. How the driver and store treat partial success is store-defined.
- TableIdentifier.IdentifierRoundTrip: stated only for names without `]`. The adapter does not escape brackets, so such names give ambiguous identifiers.
- PolicyTable.AddThenRemoveBatch: stated for a table with no row of the ptype beforehand. RemoveBatchClears states the general condition.
