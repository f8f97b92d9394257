/**
 * The bracket-quoted name the adapter uses in every statement:
 * `[schema].[table]` when the schema option is truthy, else `[table]`.
 */
module TableIdentifier {
  import opened Wrappers

  /** JavaScript truthiness of the schema option: present and not ''. */
  predicate Truthy(schema: Option<string>) {
    schema.Some? && schema.value != ""
  }

  /** The schema as it takes effect in the identifier. */
  function EffectiveSchema(schema: Option<string>): Option<string> {
    if Truthy(schema) then schema else None
  }

  function Identifier(schema: Option<string>, table: string): string {
    if Truthy(schema) then "[" + schema.value + "].[" + table + "]" else "[" + table + "]"
  }

  /** The position of the first `c` in `s` at or after `from`, or |s| when there is none. */
  function IndexOf(s: string, c: char, from: nat): (k: nat)
    requires from <= |s|
    ensures from <= k <= |s|
    ensures k < |s| ==> s[k] == c
    ensures forall i :: from <= i < k ==> s[i] != c
    decreases |s| - from
  {
    if from == |s| then |s|
    else if s[from] == c then from
    else IndexOf(s, c, from + 1)
  }

  /** Reads a bracket-quoted identifier back into its schema and table name. */
  function ParseIdentifier(id: string): Option<(Option<string>, string)> {
    if |id| < 2 || id[0] != '[' || id[|id| - 1] != ']' then None
    else
      var k := IndexOf(id, ']', 1);
      if k == |id| - 1 then Some((None, id[1..k]))
      else if k + 3 <= |id| - 1 && id[k + 1] == '.' && id[k + 2] == '[' then
        Some((Some(id[1..k]), id[k + 3..|id| - 1]))
      else None
  }

  /** In `[` + name + `]` + rest, the first `]` closes the name when the name holds none. */
  lemma FirstClosingBracket(name: string, rest: string)
    requires ']' !in name
    ensures var id := "[" + name + "]" + rest; IndexOf(id, ']', 1) == |name| + 1
  {
    var id := "[" + name + "]" + rest;
    var k := IndexOf(id, ']', 1);
    assert id[|name| + 1] == ']';
  }

  /**
   * The identifier determines the schema that took effect and the table
   * name, provided neither holds a `]` (the adapter does not escape them).
   */
  lemma IdentifierRoundTrip(schema: Option<string>, table: string)
    requires ']' !in table
    requires schema.Some? ==> ']' !in schema.value
    ensures ParseIdentifier(Identifier(schema, table)) == Some((EffectiveSchema(schema), table))
  {
    var id := Identifier(schema, table);
    if Truthy(schema) {
      var tail := ".[" + table + "]";
      assert id == "[" + schema.value + "]" + tail;
      FirstClosingBracket(schema.value, tail);
      var k := |schema.value| + 1;
      assert id[1..k] == schema.value;
      assert id[k + 3..|id| - 1] == table;
    } else {
      assert id == "[" + table + "]" + "";
      FirstClosingBracket(table, "");
      assert id[1..|table| + 1] == table;
    }
  }

  /** Two adapters share an identifier only when they name the same table under the same effective schema. */
  lemma IdentifierInjective(s1: Option<string>, t1: string, s2: Option<string>, t2: string)
    requires ']' !in t1 && ']' !in t2
    requires s1.Some? ==> ']' !in s1.value
    requires s2.Some? ==> ']' !in s2.value
    requires Identifier(s1, t1) == Identifier(s2, t2)
    ensures t1 == t2 && EffectiveSchema(s1) == EffectiveSchema(s2)
  {
    IdentifierRoundTrip(s1, t1);
    IdentifierRoundTrip(s2, t2);
  }
}
