/**
 * The meaning of the adapter's SQL statements over the abstract policy
 * table: a sequence of rows on which the composite unique index over
 * (ptype, v0..v5) holds.
 */
module PolicyTable {
  import opened Wrappers
  import opened RuleCodec
  import opened Matching
  import opened Sequences

  /**
   * The composite unique index over all seven columns. SQL Server treats
   * NULLs as equal in a unique index, so two rows clash exactly when they
   * are equal values.
   */
  predicate Unique(t: seq<Row>) {
    forall i, j | 0 <= i < j < |t| :: t[i] != t[j]
  }

  lemma UniqueAppend(t: seq<Row>, x: Row)
    requires Unique(t) && x !in t
    ensures Unique(t + [x])
  {
    var u := t + [x];
    forall i, j | 0 <= i < j < |u|
      ensures u[i] != u[j]
    {
      if j == |t| {
        assert u[i] == t[i];
      }
    }
  }

  lemma UniqueCons(x: Row, t: seq<Row>)
    requires Unique(t) && x !in t
    ensures Unique([x] + t)
  {
    var u := [x] + t;
    forall i, j | 0 <= i < j < |u|
      ensures u[i] != u[j]
    {
      if i == 0 {
        assert u[j] == t[j - 1];
      } else {
        assert u[i] == t[i - 1] && u[j] == t[j - 1];
      }
    }
  }

  /** The rows of `t` that `keep` selects, in table order: a SELECT, or the survivors of a DELETE. */
  function Select(t: seq<Row>, keep: Row -> bool): (r: seq<Row>)
    ensures |r| <= |t|
  {
    if t == [] then []
    else (if keep(t[0]) then [t[0]] else []) + Select(t[1..], keep)
  }

  /** A selected row occurs as often as in the table; any other row not at all. */
  lemma {:induction false} SelectCounts(t: seq<Row>, keep: Row -> bool)
    ensures forall x :: multiset(Select(t, keep))[x] == if keep(x) then multiset(t)[x] else 0
  {
    if t != [] {
      assert t == [t[0]] + t[1..];
      SelectCounts(t[1..], keep);
    }
  }

  /** Selecting from a table on which the index holds keeps the index holding. */
  lemma {:induction false} SelectUnique(t: seq<Row>, keep: Row -> bool)
    requires Unique(t)
    ensures Unique(Select(t, keep))
  {
    if t != [] {
      assert Unique(t[1..]);
      SelectUnique(t[1..], keep);
      SelectCounts(t[1..], keep);
      var rest := Select(t[1..], keep);
      if keep(t[0]) {
        assert t[0] !in t[1..];
        assert multiset(t[1..])[t[0]] == 0;
        UniqueCons(t[0], rest);
      } else {
        assert Select(t, keep) == rest;
      }
    }
  }

  /**
   * removePolicy: `DELETE … WHERE` the wildcard match of the encoded rule.
   * Exactly the matching rows go (there may be none, one or many); every
   * other row stays, as often as it was there.
   */
  function RemovePolicyRows(t: seq<Row>, ptype: string, rule: seq<Value>): (r: seq<Row>)
    ensures forall x :: multiset(r)[x] == if WildcardMatch(Encode(ptype, rule), x) then 0 else multiset(t)[x]
    ensures forall x :: x in r <==> x in t && !WildcardMatch(Encode(ptype, rule), x)
    ensures Unique(t) ==> Unique(r)
  {
    var pattern := Encode(ptype, rule);
    var r := Select(t, x => !WildcardMatch(pattern, x));
    SelectCounts(t, x => !WildcardMatch(pattern, x));
    if Unique(t) then SelectUnique(t, x => !WildcardMatch(pattern, x)); r else r
  }

  /**
   * removeFilteredPolicy: `DELETE … WHERE` the exact match of `values` on
   * the columns from v`fieldIndex` on; only those columns are constrained.
   */
  function RemoveFilteredRows(t: seq<Row>, ptype: string, fieldIndex: int, values: seq<Value>): (r: seq<Row>)
    requires ValidColumns(fieldIndex, |values|)
    ensures forall x :: multiset(r)[x] == if ExactMatch(ptype, fieldIndex, values, x) then 0 else multiset(t)[x]
    ensures forall x :: x in r <==> x in t && !ExactMatch(ptype, fieldIndex, values, x)
    ensures Unique(t) ==> Unique(r)
  {
    var r := Select(t, x => !ExactMatch(ptype, fieldIndex, values, x));
    SelectCounts(t, x => !ExactMatch(ptype, fieldIndex, values, x));
    if Unique(t) then SelectUnique(t, x => !ExactMatch(ptype, fieldIndex, values, x)); r else r
  }

  /** With no values, removeFilteredPolicy deletes every row of the ptype, whatever the index. */
  lemma FilteredDeleteWithoutValues(t: seq<Row>, ptype: string, fieldIndex: int)
    ensures forall x :: x in RemoveFilteredRows(t, ptype, fieldIndex, []) <==> x in t && x.ptype != Some(ptype)
  {
  }

  /**
   * When every row was stored from a rule of the same length as `rule`, all
   * of present strings, removePolicy(rule) removes exactly the row of that
   * rule: no other row matches it by wildcard.
   */
  lemma {:induction false} RemoveSameArity(t: seq<Row>, ptype: string, rules: seq<seq<string>>, rule: seq<string>)
    requires |rule| <= Width && |rules| == |t|
    requires forall j :: 0 <= j < |t| ==> |rules[j]| == |rule| && t[j] == Encode(ptype, Strings(rules[j]))
    ensures forall x ::
              multiset(RemovePolicyRows(t, ptype, Strings(rule)))[x] ==
              if x == Encode(ptype, Strings(rule)) then 0 else multiset(t)[x]
  {
    var pattern := Encode(ptype, Strings(rule));
    forall x | x in t && WildcardMatch(pattern, x)
      ensures x == pattern
    {
      var j :| 0 <= j < |t| && t[j] == x;
      forall i | 0 <= i < |rule|
        ensures rules[j][i] == rule[i]
      {
        assert pattern.fields[i] == Some(rule[i]);
        assert x.fields[i] == Some(rules[j][i]);
      }
      assert rules[j] == rule;
    }
  }

  /** COALESCE(next, current): the new value when it is not NULL, else the current one. */
  function Coalesce(next: Value, current: Value): Value {
    if next.Some? then next else current
  }

  /** The SET list of updatePolicy: each column becomes COALESCE(@next_col, t.col). */
  function Merge(next: Row, current: Row): Row {
    Row(Coalesce(next.ptype, current.ptype),
        seq(Width, i requires 0 <= i < Width => Coalesce(next.fields[i], current.fields[i])))
  }

  /**
   * updatePolicy: the targets are the rows of the table BEFORE the update that
   * match `oldRule` by wildcard (the CTE); each of them is merged with the
   * encoded `newRule`, and every other row stays as it was.
   */
  function UpdatePolicyRows(t: seq<Row>, ptype: string, oldRule: seq<Value>, newRule: seq<Value>): (r: seq<Row>)
    ensures |r| == |t|
    ensures forall i :: 0 <= i < |t| && !WildcardMatch(Encode(ptype, oldRule), t[i]) ==> r[i] == t[i]
    ensures forall i :: 0 <= i < |t| && WildcardMatch(Encode(ptype, oldRule), t[i]) ==>
      && r[i].ptype == t[i].ptype
      && WildcardMatch(Encode(ptype, newRule), r[i])
      && forall c :: 0 <= c < Width ==>
           r[i].fields[c] == if c < |newRule| && newRule[c].Some? then newRule[c] else t[i].fields[c]
  {
    var prev, next := Encode(ptype, oldRule), Encode(ptype, newRule);
    seq(|t|, i requires 0 <= i < |t| => if WildcardMatch(prev, t[i]) then Merge(next, t[i]) else t[i])
  }

  /**
   * When oldRule matches several rows, all of them receive the same value in
   * every column newRule sets.
   */
  lemma UpdateFanOut(t: seq<Row>, ptype: string, oldRule: seq<Value>, newRule: seq<Value>, i: nat, j: nat, c: nat)
    requires i < |t| && j < |t| && c < Width && c < |newRule| && newRule[c].Some?
    requires WildcardMatch(Encode(ptype, oldRule), t[i]) && WildcardMatch(Encode(ptype, oldRule), t[j])
    ensures UpdatePolicyRows(t, ptype, oldRule, newRule)[i].fields[c] == UpdatePolicyRows(t, ptype, oldRule, newRule)[j].fields[c]
  {
  }

  /**
   * The merge never clears a column: updating [a, b, c] to the shorter rule
   * [x, y] leaves c in v2, so the row becomes [x, y, c] rather than [x, y].
   */
  lemma UpdateCannotShorten(ptype: string, a: string, b: string, c: string, x: string, y: string)
    ensures UpdatePolicyRows([Encode(ptype, Strings([a, b, c]))], ptype, Strings([a, b, c]), Strings([x, y]))
      == [Encode(ptype, Strings([x, y, c]))]
  {
    var stored := Encode(ptype, Strings([a, b, c]));
    assert WildcardMatch(stored, stored);
    var r := UpdatePolicyRows([stored], ptype, Strings([a, b, c]), Strings([x, y]));
    assert r[0].fields == Encode(ptype, Strings([x, y, c])).fields;
  }

  /** The rows addPolicies bulk-inserts: one encoded row per rule, in list order. */
  function EncodeAll(ptype: string, rules: seq<seq<Value>>): (rows: seq<Row>)
    ensures |rows| == |rules|
    ensures forall i :: 0 <= i < |rules| ==> rows[i] == Encode(ptype, rules[i])
  {
    seq(|rules|, i requires 0 <= i < |rules| => Encode(ptype, rules[i]))
  }

  /** removePolicies: removePolicy applied to each rule in list order. */
  function RemoveBatch(t: seq<Row>, ptype: string, rules: seq<seq<Value>>): (r: seq<Row>)
    ensures Unique(t) ==> Unique(r)
    ensures forall x :: x in r ==> x in t
    decreases |rules|
  {
    if rules == [] then t
    else RemoveBatch(RemovePolicyRows(t, ptype, rules[0]), ptype, rules[1..])
  }

  /**
   * When every row of `ptype` in the table is the encoding of one of the
   * rules, removing the batch of those rules leaves no row of that ptype.
   */
  lemma {:induction false} RemoveBatchClears(t: seq<Row>, ptype: string, rules: seq<seq<Value>>)
    requires forall x :: x in t && x.ptype == Some(ptype) ==>
      exists j :: 0 <= j < |rules| && x == Encode(ptype, rules[j])
    ensures forall x :: x in RemoveBatch(t, ptype, rules) ==> x.ptype != Some(ptype)
    decreases |rules|
  {
    if rules != [] {
      var t' := RemovePolicyRows(t, ptype, rules[0]);
      forall x | x in t' && x.ptype == Some(ptype)
        ensures exists j :: 0 <= j < |rules[1..]| && x == Encode(ptype, rules[1..][j])
      {
        var j :| 0 <= j < |rules| && x == Encode(ptype, rules[j]);
        if j == 0 {
          EncodedRowMatchesItsRule(ptype, rules[0]);
          assert false;
        }
        assert x == Encode(ptype, rules[1..][j - 1]);
      }
      RemoveBatchClears(t', ptype, rules[1..]);
    }
  }

  /**
   * addPolicies followed by removePolicies of the same batch: starting from
   * a table with no row of `ptype`, no row of `ptype` remains, and the rows
   * of other ptypes are untouched.
   */
  lemma AddThenRemoveBatch(t: seq<Row>, ptype: string, rules: seq<seq<Value>>)
    requires forall x :: x in t ==> x.ptype != Some(ptype)
    ensures forall x :: x in RemoveBatch(t + EncodeAll(ptype, rules), ptype, rules) ==> x.ptype != Some(ptype)
    ensures forall x :: x in t ==> x in RemoveBatch(t + EncodeAll(ptype, rules), ptype, rules)
  {
    var added := EncodeAll(ptype, rules);
    forall x | x in t + added && x.ptype == Some(ptype)
      ensures exists j :: 0 <= j < |rules| && x == Encode(ptype, rules[j])
    {
      var k :| 0 <= k < |added| && added[k] == x;
    }
    RemoveBatchClears(t + added, ptype, rules);
    BatchKeepsOtherPtypes(t + added, ptype, rules);
  }

  /** removePolicies never touches a row of another ptype. */
  lemma {:induction false} BatchKeepsOtherPtypes(t: seq<Row>, ptype: string, rules: seq<seq<Value>>)
    ensures forall x :: x in t && x.ptype != Some(ptype) ==> x in RemoveBatch(t, ptype, rules)
    decreases |rules|
  {
    if rules != [] {
      BatchKeepsOtherPtypes(RemovePolicyRows(t, ptype, rules[0]), ptype, rules[1..]);
    }
  }

  /** The lines #lineFromRecord makes of a record set, one per row, in its order. */
  function AllLines(t: seq<Row>): (lines: seq<string>)
    ensures |lines| == |t|
  {
    seq(|t|, i requires 0 <= i < |t| => Line(t[i]))
  }

  lemma AllLinesAppend(a: seq<Row>, b: seq<Row>)
    ensures AllLines(a + b) == AllLines(a) + AllLines(b)
  {
  }

  /**
   * The store returns rows in no particular order: any permutation of the
   * table yields the same multiset of lines.
   */
  lemma {:induction false} AllLinesPermutation(a: seq<Row>, b: seq<Row>)
    requires multiset(a) == multiset(b)
    ensures multiset(AllLines(a)) == multiset(AllLines(b))
    decreases |a|
  {
    if a == [] {
      assert |b| == |multiset(b)| == 0;
    } else {
      var n := |a| - 1;
      assert a[n] in multiset(b);
      var j :| 0 <= j < |b| && b[j] == a[n];
      CancelLast(a, b, j);
      AllLinesPermutation(a[..n], b[..j] + b[j + 1..]);
      AllLinesRemoveAt(b, j);
      AllLinesSnoc(a);
    }
  }

  /** The lines of a table are those of all but its last row, then the last row's. */
  lemma AllLinesSnoc(t: seq<Row>)
    requires |t| > 0
    ensures multiset(AllLines(t)) == multiset(AllLines(t[..|t| - 1])) + multiset{Line(t[|t| - 1])}
  {
    assert t == t[..|t| - 1] + [t[|t| - 1]];
    AllLinesAppend(t[..|t| - 1], [t[|t| - 1]]);
    assert AllLines([t[|t| - 1]]) == [Line(t[|t| - 1])];
  }

  /** Equal multisets stay equal when one occurrence of a row leaves both. */
  lemma CancelLast(a: seq<Row>, b: seq<Row>, j: nat)
    requires |a| > 0 && j < |b| && b[j] == a[|a| - 1]
    requires multiset(a) == multiset(b)
    ensures multiset(a[..|a| - 1]) == multiset(b[..j] + b[j + 1..])
  {
    var x, init, rest := b[j], a[..|a| - 1], b[..j] + b[j + 1..];
    assert a == init + [x];
    assert b == b[..j] + [x] + b[j + 1..];
    assert multiset(b) == multiset(rest) + multiset{x};
    assert multiset(init) == multiset(a) - multiset{x};
    assert multiset(rest) == multiset(b) - multiset{x};
  }

  /** Taking one row out of a table takes its line out of the lines. */
  lemma AllLinesRemoveAt(b: seq<Row>, j: nat)
    requires j < |b|
    ensures multiset(AllLines(b)) == multiset(AllLines(b[..j] + b[j + 1..])) + multiset{Line(b[j])}
  {
    var left, right := b[..j], b[j + 1..];
    assert b == left + [b[j]] + right;
    AllLinesAppend(left + [b[j]], right);
    AllLinesAppend(left, [b[j]]);
    AllLinesAppend(left, right);
    assert AllLines([b[j]]) == [Line(b[j])];
  }

  /** One entry of a loadFilteredPolicy filter: a ptype and its value sequences. */
  datatype FilterEntry = FilterEntry(ptype: string, constraints: seq<seq<Value>>)

  /**
   * A filter object, as its keys are enumerated by `for … in`: each ptype
   * with the value sequences to select by.
   */
  type Filter = seq<FilterEntry>

  /** One SELECT of loadFilteredPolicy: a ptype and values anchored at v0. */
  datatype Selection = Selection(ptype: string, values: seq<Value>)

  /** Whether every value of the selection names an existing column (v0..v5). */
  predicate Selectable(s: Selection) {
    |s.values| <= Width
  }

  /** Whether every selection of a run names existing columns only. */
  predicate AllSelectable(qs: seq<Selection>) {
    forall j :: 0 <= j < |qs| ==> Selectable(qs[j])
  }

  /** The selections of one filter entry, in order. */
  function Expand(e: FilterEntry): (qs: seq<Selection>)
    ensures |qs| == |e.constraints|
    ensures forall c :: 0 <= c < |qs| ==> qs[c] == Selection(e.ptype, e.constraints[c])
  {
    seq(|e.constraints|, c requires 0 <= c < |e.constraints| => Selection(e.ptype, e.constraints[c]))
  }

  /** Whether every value sequence of the filter names existing columns only. */
  predicate FilterSelectable(filter: Filter) {
    forall p, c :: 0 <= p < |filter| && 0 <= c < |filter[p].constraints| ==> |filter[p].constraints[c]| <= Width
  }

  /** The selections loadFilteredPolicy issues for a filter, in the order of its loops. */
  function Queries(filter: Filter): seq<Selection>
    decreases |filter|
  {
    if filter == [] then []
    else Queries(filter[..|filter| - 1]) + Expand(filter[|filter| - 1])
  }

  /** The selections of a filter all name existing columns exactly when its value sequences do. */
  lemma {:induction false} QueriesSelectable(filter: Filter)
    ensures AllSelectable(Queries(filter)) <==> FilterSelectable(filter)
    decreases |filter|
  {
    if filter != [] {
      var init, last := filter[..|filter| - 1], filter[|filter| - 1];
      QueriesSelectable(init);
      AllSelectableAppend(Queries(init), Expand(last));
      assert AllSelectable(Expand(last)) <==> forall c :: 0 <= c < |last.constraints| ==> |last.constraints[c]| <= Width;
      assert forall p :: 0 <= p < |init| ==> init[p] == filter[p];
    }
  }

  lemma AllSelectableAppend(a: seq<Selection>, b: seq<Selection>)
    ensures AllSelectable(a + b) <==> AllSelectable(a) && AllSelectable(b)
  {
    if AllSelectable(a) && AllSelectable(b) {
      forall j | 0 <= j < |a + b|
        ensures Selectable((a + b)[j])
      {
        if j >= |a| {
          assert (a + b)[j] == b[j - |a|];
        }
      }
    }
    if AllSelectable(a + b) {
      forall j | 0 <= j < |a|
        ensures Selectable(a[j])
      {
        assert (a + b)[j] == a[j];
      }
      forall j | 0 <= j < |b|
        ensures Selectable(b[j])
      {
        assert (a + b)[|a| + j] == b[j];
      }
    }
  }

  /** The lines of the rows one selection returns. */
  function QueryLines(t: seq<Row>, s: Selection): seq<string>
    requires Selectable(s)
  {
    AllLines(Select(t, x => ExactMatch(s.ptype, 0, s.values, x)))
  }

  /** The lines of a run of selections, concatenated without removing duplicates. */
  function FilteredLines(t: seq<Row>, qs: seq<Selection>): seq<string>
    requires AllSelectable(qs)
    decreases |qs|
  {
    if qs == [] then [] else FilteredLines(t, qs[..|qs| - 1]) + QueryLines(t, qs[|qs| - 1])
  }

  lemma {:induction false} FilteredLinesAppend(t: seq<Row>, a: seq<Selection>, b: seq<Selection>)
    requires AllSelectable(a) && AllSelectable(b)
    ensures AllSelectable(a + b)
    ensures FilteredLines(t, a + b) == FilteredLines(t, a) + FilteredLines(t, b)
    decreases |b|
  {
    if b == [] {
      assert a + b == a;
    } else {
      var init, last := b[..|b| - 1], b[|b| - 1];
      SnocSplit(a, b);
      SelectableInit(b);
      FilteredLinesAppend(t, a, init);
      FilteredLinesStep(t, a + init, last);
      FilteredLinesStep(t, init, last);
      ConcatAssociative(FilteredLines(t, a), FilteredLines(t, init), QueryLines(t, last));
    }
  }

  /** All but the last of a run of selections naming existing columns name existing columns. */
  lemma SelectableInit(b: seq<Selection>)
    requires |b| > 0
    requires AllSelectable(b)
    ensures AllSelectable(b[..|b| - 1]) && Selectable(b[|b| - 1])
  {
  }

  lemma FilteredLinesStep(t: seq<Row>, qs: seq<Selection>, q: Selection)
    requires AllSelectable(qs) && Selectable(q)
    ensures AllSelectable(qs + [q])
    ensures FilteredLines(t, qs + [q]) == FilteredLines(t, qs) + QueryLines(t, q)
  {
    assert (qs + [q])[..|qs|] == qs;
  }
}
