/**
 * The two matching policies of the adapter's WHERE clauses. They must stay
 * distinct: an unset parameter is a wildcard in the first, while in the
 * second a stored NULL never satisfies an equality.
 */
module Matching {
  import opened Wrappers
  import opened RuleCodec

  /**
   * SQL `a = b` under three-valued logic, taken as satisfied only when it is
   * TRUE: a NULL on either side makes it UNKNOWN. Strings compare exactly
   * (collation and padding rules are not modelled).
   */
  predicate SqlEquals(a: Value, b: Value) {
    a.Some? && b.Some? && a.value == b.value
  }

  /**
   * Wildcard-null match, the WHERE clause of removePolicy and of the CTE in
   * updatePolicy: `ptype = @ptype AND (@vi IS NULL OR vi = @vi)` for
   * i = 0..5, with the parameters taken from `pattern`.
   */
  predicate WildcardMatch(pattern: Row, row: Row) {
    && SqlEquals(row.ptype, pattern.ptype)
    && forall i :: 0 <= i < Width ==> pattern.fields[i].None? || SqlEquals(row.fields[i], pattern.fields[i])
  }

  /**
   * Whether `count` consecutive columns starting at v`start` all exist. With
   * no values no column is named at all, so any start is accepted.
   */
  predicate ValidColumns(start: int, count: nat) {
    count == 0 || (0 <= start && start + count <= Width)
  }

  /**
   * Fixed-index exact match, the WHERE clause of removeFilteredPolicy (any
   * `start`) and of each query of loadFilteredPolicy (`start` 0):
   * `ptype = @ptype AND v{start+i} = @v{start+i}` for each given value, and
   * no constraint at all on the other columns.
   */
  predicate ExactMatch(ptype: string, start: int, values: seq<Value>, row: Row)
    requires ValidColumns(start, |values|)
  {
    && SqlEquals(row.ptype, Some(ptype))
    && forall i :: 0 <= i < |values| ==> SqlEquals(row.fields[start + i], values[i])
  }

  /**
   * What a wildcard match means column by column: the ptype is equal and not
   * NULL, and each column whose parameter is set holds exactly that value.
   */
  lemma WildcardMatchMeaning(pattern: Row, row: Row)
    requires pattern.ptype.Some?
    ensures WildcardMatch(pattern, row) <==>
      && row.ptype == pattern.ptype
      && forall i :: 0 <= i < Width && pattern.fields[i].Some? ==> row.fields[i] == pattern.fields[i]
  {
  }

  /** A row encoded from a rule is found by that same rule, whatever NULLs it holds. */
  lemma EncodedRowMatchesItsRule(ptype: string, rule: seq<Value>)
    ensures WildcardMatch(Encode(ptype, rule), Encode(ptype, rule))
  {
  }

  /** Under the wildcard policy an unset parameter accepts anything stored, a NULL included. */
  lemma UnsetMatchesAnything(pattern: Row, row: Row, k: nat, stored: Value)
    requires k < Width && pattern.fields[k] == None
    ensures WildcardMatch(pattern, row) <==> WildcardMatch(pattern, row.(fields := row.fields[k := stored]))
  {
    var row' := row.(fields := row.fields[k := stored]);
    assert forall i :: 0 <= i < Width && i != k ==> row'.fields[i] == row.fields[i];
  }

  /** Under the exact policy a stored NULL in a constrained column never matches, whatever the value. */
  lemma StoredNullNeverMatchesExactly(ptype: string, start: int, values: seq<Value>, row: Row, i: nat)
    requires ValidColumns(start, |values|)
    requires i < |values| && row.fields[start + i] == None
    ensures !ExactMatch(ptype, start, values, row)
  {
    assert !SqlEquals(row.fields[start + i], values[i]);
  }

  /**
   * The two policies agree exactly when every anchored value is present:
   * an exact match on the prefix v0..v(n-1) is the wildcard match of the rule
   * made of those values.
   */
  lemma ExactAgreesWithWildcard(ptype: string, values: seq<string>, row: Row)
    requires |values| <= Width
    ensures ExactMatch(ptype, 0, Strings(values), row) <==> WildcardMatch(Encode(ptype, Strings(values)), row)
  {
  }

  /**
   * The asymmetry between the policies: with column v`k` NULL in the stored
   * row, the wildcard rule that leaves v`k` unset still finds the row, while
   * no exact filter on v`k` does.
   */
  lemma NullAsymmetry(ptype: string, rule: seq<Value>, k: nat, v: Value)
    requires k < Width && |rule| <= k
    requires forall i :: 0 <= i < |rule| ==> rule[i].Some?
    ensures var row := Encode(ptype, rule);
      row.fields[k] == None && WildcardMatch(row, row) && !ExactMatch(ptype, k, [v], row)
  {
    var row := Encode(ptype, rule);
    assert !SqlEquals(row.fields[k + 0], [v][0]);
  }
}
