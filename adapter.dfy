/**
 * CasbinMssqlAdapter: the policy adapter's state and operations. The rows
 * of the policy table are a field of the adapter that the operations
 * reassign; each operation's contract ties the new rows to the table
 * functions of module PolicyTable, and the composite unique index is the
 * invariant every operation keeps.
 */
module Adapter {
  import opened Wrappers
  import opened RuleCodec
  import opened Matching
  import opened PolicyTable
  import opened TableIdentifier
  import opened Sequences

  /**
   * The errors the adapter raises or lets through from the store. The first
   * two are both a JavaScript SyntaxError, told apart only by the message
   * ('NOT_CONSTRUCTABLE', and the sentence savePolicy throws); the other two
   * are errors of the store.
   */
  datatype AdapterError =
    | NotConstructable      // direct construction before any factory call
    | UnsupportedOperation  // savePolicy, always
    | ConstraintViolation   // the composite unique index would be violated
    | InvalidColumn         // a statement names a column past v5 (or before v0)

  /** The construction options that matter to the model (the pool is left out). */
  datatype Options = Options(table: Option<string>, schema: Option<string>)

  /** The table name used when no option gives one. */
  const DefaultTable: string := "casbin_rule"

  /** `options.table ?? 'casbin_rule'`. */
  function TableName(options: Options): string {
    options.table.GetOr(DefaultTable)
  }

  /** The class-wide `#isInternalConstructing` flag. */
  class ConstructionGuard {
    var isInternalConstructing: bool

    constructor ()
      ensures !isInternalConstructing
    {
      isInternalConstructing := false;
    }
  }

  class CasbinMssqlAdapter {
    const tableName: string
    const schema: Option<string>
    /** The quoted name used in every statement; fixed at construction. */
    const identifier: string
    /** The rows of the policy table, as the store holds them. */
    var rows: seq<Row>
    /** `#filtered`: set by loadFilteredPolicy and never cleared. */
    var filtered: bool
    /**
     * Whether `db` holds a connection: only newAdapter connects. On an
     * adapter built directly `db` is undefined, so every operation that
     * sends a statement throws before reaching the store.
     */
    var connected: bool

    /** The composite unique index holds, and the identifier is built from the options. */
    ghost predicate Valid()
      reads this
    {
      Unique(rows) && identifier == Identifier(schema, tableName)
    }

    /**
     * The body of the JavaScript constructor after its guard. `stored` stands
     * for the table the connection of newAdapter reaches: empty when it was
     * just created, and on which the unique index holds otherwise.
     */
    constructor (options: Options, stored: seq<Row>)
      requires Unique(stored)
      ensures Valid()
      ensures tableName == TableName(options) && schema == options.schema
      ensures identifier == Identifier(options.schema, TableName(options))
      ensures rows == stored && !filtered && !connected
    {
      tableName := TableName(options);
      schema := options.schema;
      identifier := Identifier(options.schema, TableName(options));
      rows := stored;
      filtered := false;
      connected := false;
    }

    /**
     * loadPolicy: `SELECT ptype, v0, …, v5` and one line per record, fed to
     * the model in record order. The model reads the records in table
     * order; AllLinesPermutation shows that any other order the store picks
     * yields the same lines up to permutation.
     */
    method LoadPolicy() returns (lines: seq<string>)
      requires connected
      ensures lines == AllLines(rows)
    {
      lines := LinesOf(rows);
    }

    /** The forEach over a record set: each record's line, in order. */
    static method LinesOf(recordset: seq<Row>) returns (lines: seq<string>)
      ensures |lines| == |recordset|
      ensures forall i :: 0 <= i < |recordset| ==> lines[i] == Line(recordset[i])
    {
      lines := [];
      var i := 0;
      while i < |recordset|
        invariant 0 <= i <= |recordset|
        invariant |lines| == i
        invariant forall k :: 0 <= k < i ==> lines[k] == Line(recordset[k])
      {
        lines := lines + [Line(recordset[i])];
        i := i + 1;
      }
    }

    /** savePolicy: always refused, whatever the model holds; the table is untouched. */
    method SavePolicy() returns (r: Outcome<AdapterError>)
      ensures r == Fail(UnsupportedOperation)
    {
      r := Fail(UnsupportedOperation);
    }

    /** addPolicy: INSERT of the encoded rule, refused by the index when the same row exists. */
    method AddPolicy(ptype: string, rule: seq<Value>) returns (r: Outcome<AdapterError>)
      requires Valid()
      requires connected
      modifies this`rows
      ensures Valid()
      ensures r.Fail? <==> Encode(ptype, rule) in old(rows)
      ensures r.Fail? ==> r.error == ConstraintViolation && rows == old(rows)
      ensures r.Pass? ==> rows == old(rows) + [Encode(ptype, rule)]
    {
      var row := Encode(ptype, rule);
      if row in rows {
        return Fail(ConstraintViolation);
      }
      UniqueAppend(rows, row);
      rows := rows + [row];
      r := Pass;
    }

    /** removePolicy: DELETE of every row the rule matches by wildcard; never an error. */
    method RemovePolicy(ptype: string, rule: seq<Value>)
      requires Valid()
      requires connected
      modifies this`rows
      ensures Valid()
      ensures rows == RemovePolicyRows(old(rows), ptype, rule)
    {
      rows := RemovePolicyRows(rows, ptype, rule);
    }

    /**
     * removeFilteredPolicy: DELETE of the rows that match the values exactly
     * from column v`fieldIndex` on. A statement naming a column outside
     * v0..v5 is rejected by the store and deletes nothing.
     */
    method RemoveFilteredPolicy(ptype: string, fieldIndex: int, fieldValues: seq<Value>) returns (r: Outcome<AdapterError>)
      requires Valid()
      requires connected
      modifies this`rows
      ensures Valid()
      ensures r.Pass? <==> ValidColumns(fieldIndex, |fieldValues|)
      ensures r.Pass? ==> rows == RemoveFilteredRows(old(rows), ptype, fieldIndex, fieldValues)
      ensures r.Fail? ==> r.error == InvalidColumn && rows == old(rows)
    {
      if !ValidColumns(fieldIndex, |fieldValues|) {
        return Fail(InvalidColumn);
      }
      rows := RemoveFilteredRows(rows, ptype, fieldIndex, fieldValues);
      r := Pass;
    }

    /**
     * updatePolicy: one statement that merges the new rule into every row the
     * old rule matches. When the merged table would hold two equal rows the
     * index rejects the whole statement and nothing changes.
     */
    method UpdatePolicy(ptype: string, oldRule: seq<Value>, newRule: seq<Value>) returns (r: Outcome<AdapterError>)
      requires Valid()
      requires connected
      modifies this`rows
      ensures Valid()
      ensures r.Pass? <==> Unique(UpdatePolicyRows(old(rows), ptype, oldRule, newRule))
      ensures r.Pass? ==> rows == UpdatePolicyRows(old(rows), ptype, oldRule, newRule)
      ensures r.Fail? ==> r.error == ConstraintViolation && rows == old(rows)
    {
      var updated := UpdatePolicyRows(rows, ptype, oldRule, newRule);
      if !Unique(updated) {
        return Fail(ConstraintViolation);
      }
      rows := updated;
      r := Pass;
    }

    /**
     * addPolicies: one bulk copy of the encoded rules, in list order. The
     * bulk copy is taken as all-or-nothing: a row that repeats an existing
     * row or another row of the batch rejects the whole batch.
     */
    method AddPolicies(ptype: string, rules: seq<seq<Value>>) returns (r: Outcome<AdapterError>)
      requires Valid()
      requires connected
      modifies this`rows
      ensures Valid()
      ensures r.Pass? <==> Unique(old(rows) + EncodeAll(ptype, rules))
      ensures r.Pass? ==> rows == old(rows) + EncodeAll(ptype, rules)
      ensures r.Fail? ==> r.error == ConstraintViolation && rows == old(rows)
    {
      var batch: seq<Row> := [];
      for i := 0 to |rules|
        invariant |batch| == i
        invariant forall k :: 0 <= k < i ==> batch[k] == Encode(ptype, rules[k])
      {
        batch := batch + [Encode(ptype, rules[i])];
      }
      assert batch == EncodeAll(ptype, rules);
      if !Unique(rows + batch) {
        return Fail(ConstraintViolation);
      }
      rows := rows + batch;
      r := Pass;
    }

    /** removePolicies: removePolicy for each rule, one after the other. */
    method RemovePolicies(ptype: string, rules: seq<seq<Value>>)
      requires Valid()
      requires connected
      modifies this`rows
      ensures Valid()
      ensures rows == RemoveBatch(old(rows), ptype, rules)
    {
      for i := 0 to |rules|
        invariant Valid()
        invariant RemoveBatch(rows, ptype, rules[i..]) == RemoveBatch(old(rows), ptype, rules)
      {
        assert rules[i..][1..] == rules[i + 1..];
        RemovePolicy(ptype, rules[i]);
      }
      assert rules[|rules|..] == [];
    }

    /**
     * One SELECT of loadFilteredPolicy: the lines of the rows whose columns
     * from v0 on hold exactly the given values.
     */
    method SelectLines(ptype: string, values: seq<Value>) returns (lines: seq<string>)
      requires connected
      requires |values| <= Width
      ensures lines == QueryLines(rows, Selection(ptype, values))
    {
      var recordset := Select(rows, x => ExactMatch(ptype, 0, values, x));
      lines := LinesOf(recordset);
    }

    /**
     * The inner loop of loadFilteredPolicy, over the value sequences of one
     * ptype: one SELECT each, in order, until a sequence names a column that
     * does not exist. `ok` tells whether all of them ran.
     */
    method LoadEntry(entry: FilterEntry) returns (lines: seq<string>, ok: bool, ghost stop: nat)
      requires connected
      ensures ok <==> AllSelectable(Expand(entry))
      ensures ok ==> lines == FilteredLines(rows, Expand(entry))
      ensures !ok ==>
        && stop < |entry.constraints|
        && |entry.constraints[stop]| > Width
        && AllSelectable(Expand(entry)[..stop])
        && lines == FilteredLines(rows, Expand(entry)[..stop])
    {
      var ptype, constraints := entry.ptype, entry.constraints;
      ghost var queries := Expand(entry);
      lines := [];
      var c := 0;
      while c < |constraints|
        invariant 0 <= c <= |constraints|
        invariant AllSelectable(queries[..c])
        invariant lines == FilteredLines(rows, queries[..c])
      {
        var values := constraints[c];
        if |values| > Width {
          assert !Selectable(queries[c]);
          return lines, false, c;
        }
        var part := SelectLines(ptype, values);
        PrefixSnoc(queries, c);
        FilteredLinesStep(rows, queries[..c], queries[c]);
        lines := lines + part;
        c := c + 1;
      }
      assert queries[..c] == queries;
      ok, stop := true, c;
    }

    /**
     * loadFilteredPolicy: for each ptype of the filter and each of its value
     * sequences, one SELECT; all lines are fed to the model, without
     * removing duplicates, and `#filtered` is set at the end. A value
     * sequence longer than six names a column that does not exist: the store
     * rejects that SELECT, the lines of the earlier ones stay loaded, and the
     * flag is left as it was.
     */
    method LoadFilteredPolicy(filter: Filter) returns (lines: seq<string>, r: Outcome<AdapterError>)
      requires connected
      modifies this`filtered
      ensures r.Pass? <==> AllSelectable(Queries(filter))
      ensures r.Pass? ==> filtered && AllSelectable(Queries(filter)) && lines == FilteredLines(rows, Queries(filter))
      ensures r.Fail? ==>
        && r.error == InvalidColumn
        && filtered == old(filtered)
        && exists p, c :: StoppedAt(rows, filter, p, c, lines)
    {
      lines := [];
      var p := 0;
      while p < |filter|
        invariant 0 <= p <= |filter|
        invariant filtered == old(filtered)
        invariant AllSelectable(Queries(filter[..p]))
        invariant lines == FilteredLines(rows, Queries(filter[..p]))
      {
        var part, ok, c := LoadEntry(filter[p]);
        if !ok {
          LoadStop(rows, filter, p, c);
          lines := lines + part;
          r := Fail(InvalidColumn);
          return;
        }
        LoadStep(rows, filter, p);
        lines := lines + part;
        p := p + 1;
      }
      r := Pass;
      LoadComplete(rows, filter, lines);
      filtered := true;
    }

    /** isFiltered: the flag, false until the first filtered load completes. */
    method IsFiltered() returns (f: bool)
      ensures f == filtered
    {
      f := filtered;
    }
  }

  /** The selections of the first p + 1 entries: those of the first p, then those of entry p. */
  lemma QueriesStep(filter: Filter, p: nat)
    requires p < |filter|
    ensures Queries(filter[..p + 1]) == Queries(filter[..p]) + Expand(filter[p])
  {
    var f := filter[..p + 1];
    assert f[..|f| - 1] == filter[..p];
    assert f[|f| - 1] == filter[p];
  }

  /** One more ptype of the filter, all of whose value sequences ran. */
  lemma LoadStep(t: seq<Row>, filter: Filter, p: nat)
    requires p < |filter|
    requires AllSelectable(Queries(filter[..p])) && AllSelectable(Expand(filter[p]))
    ensures AllSelectable(Queries(filter[..p + 1]))
    ensures FilteredLines(t, Queries(filter[..p + 1]))
         == FilteredLines(t, Queries(filter[..p])) + FilteredLines(t, Expand(filter[p]))
  {
    QueriesStep(filter, p);
    FilteredLinesAppend(t, Queries(filter[..p]), Expand(filter[p]));
  }

  /** Once every ptype of the filter ran, the load is complete. */
  lemma LoadComplete(t: seq<Row>, filter: Filter, lines: seq<string>)
    requires AllSelectable(Queries(filter[..|filter|]))
    requires lines == FilteredLines(t, Queries(filter[..|filter|]))
    ensures FilterSelectable(filter) && AllSelectable(Queries(filter))
    ensures lines == FilteredLines(t, Queries(filter))
  {
    assert filter[..|filter|] == filter;
    QueriesSelectable(filter);
  }

  /**
   * A filtered load that stopped at value sequence `c` of ptype `p`, which
   * names a missing column: `lines` are those of every SELECT before it.
   */
  ghost predicate StoppedAt(t: seq<Row>, filter: Filter, p: int, c: int, lines: seq<string>) {
    && 0 <= p < |filter| && 0 <= c < |filter[p].constraints|
    && |filter[p].constraints[c]| > Width
    && AllSelectable(Queries(filter[..p]) + Expand(filter[p])[..c])
    && lines == FilteredLines(t, Queries(filter[..p]) + Expand(filter[p])[..c])
  }

  /** A value sequence that names a missing column stops the load there. */
  lemma LoadStop(t: seq<Row>, filter: Filter, p: nat, c: nat)
    requires p < |filter| && c < |filter[p].constraints|
    requires |filter[p].constraints[c]| > Width
    requires AllSelectable(Queries(filter[..p])) && AllSelectable(Expand(filter[p])[..c])
    ensures !FilterSelectable(filter) && !AllSelectable(Queries(filter))
    ensures StoppedAt(t, filter, p, c,
                      FilteredLines(t, Queries(filter[..p])) + FilteredLines(t, Expand(filter[p])[..c]))
  {
    FilteredLinesAppend(t, Queries(filter[..p]), Expand(filter[p])[..c]);
    QueriesSelectable(filter);
  }

  /**
   * The static factory without its I/O: raises the class-wide flag, which
   * is never lowered again, then constructs the adapter.
   */
  method NewAdapter(guard: ConstructionGuard, options: Options, stored: seq<Row>) returns (adapter: CasbinMssqlAdapter)
    requires Unique(stored)
    modifies guard
    ensures guard.isInternalConstructing
    ensures fresh(adapter) && adapter.Valid()
    ensures adapter.identifier == Identifier(options.schema, TableName(options))
    ensures adapter.rows == stored && !adapter.filtered && adapter.connected
  {
    guard.isInternalConstructing := true;
    var r := Construct(guard, options, stored);
    adapter := r.value;
    adapter.connected := true;
  }

  /**
   * `new CasbinMssqlAdapter(config, options)`: refused unless the class-wide
   * flag is raised. Since the factory never lowers it, direct construction
   * is refused only until the first factory call.
   */
  method Construct(guard: ConstructionGuard, options: Options, stored: seq<Row>) returns (r: Result<CasbinMssqlAdapter, AdapterError>)
    requires Unique(stored)
    ensures r.Success? <==> guard.isInternalConstructing
    ensures r.Failure? ==> r.error == NotConstructable
    ensures r.Success? ==> && fresh(r.value) && r.value.Valid()
                           && r.value.identifier == Identifier(options.schema, TableName(options))
                           && r.value.rows == stored && !r.value.filtered
                           && !r.value.connected
  {
    if !guard.isInternalConstructing {
      return Failure(NotConstructable);
    }
    var adapter := new CasbinMssqlAdapter(options, stored);
    r := Success(adapter);
  }

  /**
   * The guard's life: direct construction is refused on a fresh guard and
   * accepted once the factory has run, since the flag is never reset.
   */
  method GuardLifecycle(options: Options) returns (before: bool, after: bool)
    ensures !before && after
  {
    var guard := new ConstructionGuard();
    var first := Construct(guard, options, []);
    before := first.Success?;
    var made := NewAdapter(guard, options, []);
    var second := Construct(guard, options, []);
    after := second.Success?;
  }
}
