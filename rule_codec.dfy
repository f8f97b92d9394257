/**
 * The rule codec of the adapter: how a policy rule of variable length is put
 * into the six nullable columns v0..v5 (#dataFromPolicyRule), and how a
 * stored row becomes the text line handed to the policy engine
 * (#lineFromRecord).
 */
module RuleCodec {
  import opened Wrappers
  import opened Sequences

  /** The number of rule columns, v0..v5. */
  const Width: nat := 6

  /** The separator #lineFromRecord joins the kept column values with. */
  const Separator: string := ", "

  /** A nullable column value: None is SQL NULL (a JavaScript null or undefined). */
  type Value = Option<string>

  /** The six rule columns v0..v5 of one row, in column order. */
  type Fields = s: seq<Value> | |s| == Width witness [None, None, None, None, None, None]

  /** One row of the policy table: the ptype column and v0..v5. The surrogate id is not modelled. */
  datatype Row = Row(ptype: Value, fields: Fields)

  /** `n` NULLs. */
  function Nulls(n: nat): seq<Value> {
    seq(n, _ => None)
  }

  /** A rule all of whose elements are present strings. */
  function Strings(ss: seq<string>): (vs: seq<Value>)
    ensures |vs| == |ss|
    ensures forall i :: 0 <= i < |ss| ==> vs[i] == Some(ss[i])
  {
    seq(|ss|, i requires 0 <= i < |ss| => Some(ss[i]))
  }

  /**
   * #dataFromPolicyRule: ptype is stored unchanged, rule[i] goes into v_i,
   * and a position past the rule's end becomes NULL (`rule[i] ?? null`).
   * Elements past the sixth are not stored.
   */
  function Encode(ptype: string, rule: seq<Value>): (row: Row)
    ensures row.ptype == Some(ptype)
    ensures forall i :: 0 <= i < Width ==> row.fields[i] == if i < |rule| then rule[i] else None
  {
    Row(Some(ptype), if |rule| >= Width then rule[..Width] else rule + Nulls(Width - |rule|))
  }

  /** Whether #lineFromRecord keeps a column value: it drops NULL, undefined and ''. */
  predicate Kept(v: Value) {
    v.Some? && v.value != ""
  }

  /** The values #lineFromRecord keeps, in column order. */
  function Present(vs: seq<Value>): (ps: seq<string>)
    ensures |ps| <= |vs|
    ensures forall p :: p in ps ==> p != ""
  {
    if vs == [] then []
    else (if Kept(vs[0]) then [vs[0].value] else []) + Present(vs[1..])
  }

  /** When every value is kept, the line carries all of them, in order. */
  lemma {:induction false} PresentAllKept(vs: seq<Value>)
    requires forall i :: 0 <= i < |vs| ==> Kept(vs[i])
    ensures |Present(vs)| == |vs|
    ensures forall i :: 0 <= i < |vs| ==> Some(Present(vs)[i]) == vs[i]
    decreases |vs|
  {
    if vs != [] {
      PresentAllKept(vs[1..]);
    }
  }

  /** When no value is kept, nothing is emitted. */
  lemma {:induction false} PresentNoneKept(vs: seq<Value>)
    requires forall i :: 0 <= i < |vs| ==> !Kept(vs[i])
    ensures Present(vs) == []
    decreases |vs|
  {
    if vs != [] {
      PresentNoneKept(vs[1..]);
    }
  }

  /** Array.prototype.join with Separator. */
  function Join(parts: seq<string>): string {
    if |parts| == 0 then ""
    else if |parts| == 1 then parts[0]
    else parts[0] + Separator + Join(parts[1..])
  }

  /** #lineFromRecord: the row's columns in SELECT order (ptype, v0..v5), kept values joined. */
  function Line(row: Row): string {
    Join(Present([row.ptype] + row.fields))
  }

  /**
   * The inverse of Join used to state what a line carries: `s` cut at every
   * Separator, with `current` the part read so far.
   */
  function SplitFrom(s: string, current: string): (parts: seq<string>)
    ensures |parts| > 0
    decreases |s|
  {
    if |s| == 0 then [current]
    else if |s| >= 2 && s[..2] == Separator then [current] + SplitFrom(s[2..], "")
    else SplitFrom(s[1..], current + [s[0]])
  }

  /** A line cut at every Separator. */
  function SplitLine(line: string): seq<string> {
    SplitFrom(line, "")
  }

  lemma {:induction false} PresentAppend(a: seq<Value>, b: seq<Value>)
    ensures Present(a + b) == Present(a) + Present(b)
    decreases |a|
  {
    if a == [] {
      assert a + b == b;
    } else {
      assert (a + b)[0] == a[0];
      assert (a + b)[1..] == a[1..] + b;
      PresentAppend(a[1..], b);
      var head := if Kept(a[0]) then [a[0].value] else [];
      ConcatAssociative(head, Present(a[1..]), Present(b));
    }
  }

  /** Text without a comma passes through the splitter into the current part. */
  lemma {:induction false} SplitPlain(a: string, t: string, current: string)
    requires ',' !in a
    ensures SplitFrom(a + t, current) == SplitFrom(t, current + a)
    decreases |a|
  {
    if a == [] {
      assert a + t == t;
      assert current + a == current;
    } else {
      var s := a + t;
      assert s[0] == a[0] && s[0] != ',';
      assert s[1..] == a[1..] + t;
      SplitPlain(a[1..], t, current + [a[0]]);
      assert current + [a[0]] + a[1..] == current + a;
    }
  }

  /** Splitting a joined line gives back its parts, when no part holds a comma. */
  lemma {:induction false} SplitJoin(parts: seq<string>)
    requires |parts| > 0
    requires forall p :: p in parts ==> ',' !in p
    ensures SplitLine(Join(parts)) == parts
    decreases |parts|
  {
    if |parts| == 1 {
      SplitPlain(parts[0], "", "");
      assert parts[0] + "" == parts[0];
      assert "" + parts[0] == parts[0];
    } else {
      var rest := Join(parts[1..]);
      assert Join(parts) == parts[0] + (Separator + rest);
      SplitPlain(parts[0], Separator + rest, "");
      assert "" + parts[0] == parts[0];
      var s := Separator + rest;
      assert |s| >= 2 && s[..2] == Separator && s[2..] == rest;
      SplitJoin(parts[1..]);
      assert parts == [parts[0]] + parts[1..];
    }
  }

  /** The columns of an encoded rule of present strings: ptype, the rule, then NULLs. */
  lemma EncodedColumns(ptype: string, rule: seq<string>)
    requires |rule| <= Width
    ensures var row := Encode(ptype, Strings(rule));
      [row.ptype] + row.fields == ([Some(ptype)] + Strings(rule)) + Nulls(Width - |rule|)
  {
  }

  /** The values kept from an encoded rule of non-empty strings are ptype and the rule. */
  lemma EncodedPresent(ptype: string, rule: seq<string>)
    requires |rule| <= Width
    requires ptype != ""
    requires forall s :: s in rule ==> s != ""
    ensures var row := Encode(ptype, Strings(rule));
      Present([row.ptype] + row.fields) == [ptype] + rule
  {
    var head := [Some(ptype)] + Strings(rule);
    EncodedColumns(ptype, rule);
    PresentAppend(head, Nulls(Width - |rule|));
    PresentAppend([Some(ptype)], Strings(rule));
    assert Present([Some(ptype)]) == [ptype] by {
      assert [Some(ptype)][1..] == [];
    }
    PresentStrings(rule);
    PresentNoneKept(Nulls(Width - |rule|));
  }

  /** Non-empty strings are all kept, in order. */
  lemma {:induction false} PresentStrings(ss: seq<string>)
    requires forall s :: s in ss ==> s != ""
    ensures Present(Strings(ss)) == ss
    decreases |ss|
  {
    if ss != [] {
      assert Strings(ss)[1..] == Strings(ss[1..]);
      assert forall s :: s in ss[1..] ==> s in ss;
      PresentStrings(ss[1..]);
      assert Kept(Strings(ss)[0]) by {
        assert ss[0] in ss;
      }
      assert ss == [ss[0]] + ss[1..];
    }
  }

  /**
   * Round trip of the codec: a rule of at most six non-empty strings, stored
   * under a non-empty ptype and read back, yields the line
   * "ptype, rule[0], …", which splits into ptype followed by the rule.
   */
  lemma LineRoundTrip(ptype: string, rule: seq<string>)
    requires |rule| <= Width
    requires ptype != "" && ',' !in ptype
    requires forall s :: s in rule ==> s != "" && ',' !in s
    ensures Line(Encode(ptype, Strings(rule))) == Join([ptype] + rule)
    ensures SplitLine(Line(Encode(ptype, Strings(rule)))) == [ptype] + rule
  {
    EncodedPresent(ptype, rule);
    SplitJoin([ptype] + rule);
  }

  /**
   * An interior '' does not round-trip by position: it is dropped from the
   * line, so the rule [a, '', c] reads back as [a, c] and c moves from v2 to
   * the place of v1.
   */
  lemma InteriorEmptyIsDropped(ptype: string, a: string, c: string)
    requires ptype != "" && a != "" && c != ""
    requires ',' !in ptype && ',' !in a && ',' !in c
    ensures SplitLine(Line(Encode(ptype, [Some(a), Some(""), Some(c)]))) == [ptype, a, c]
  {
    InteriorEmptyPresent(ptype, a, c);
    SplitJoin([ptype, a, c]);
  }

  lemma InteriorEmptyPresent(ptype: string, a: string, c: string)
    requires ptype != "" && a != "" && c != ""
    ensures var row := Encode(ptype, [Some(a), Some(""), Some(c)]);
      Present([row.ptype] + row.fields) == [ptype, a, c]
  {
    var row := Encode(ptype, [Some(a), Some(""), Some(c)]);
    var front, back := [Some(ptype), Some(a)], [Some(c)] + Nulls(3);
    assert [row.ptype] + row.fields == front + ([Some("")] + back);
    PresentAppend(front, [Some("")] + back);
    PresentAppend([Some("")], back);
    PresentAppend([Some(c)], Nulls(3));
    PresentNoneKept([Some("")]);
    PresentNoneKept(Nulls(3));
  }

  /** NULL and '' are indistinguishable once a row is turned into a line. */
  lemma {:induction false} NullAndEmptyReadAlike(vs: seq<Value>, k: nat)
    requires k < |vs| && vs[k] == Some("")
    ensures Present(vs[k := None]) == Present(vs)
    decreases |vs|
  {
    if k > 0 {
      assert vs[k := None][1..] == vs[1..][k - 1 := None];
      NullAndEmptyReadAlike(vs[1..], k - 1);
    }
  }

  /** Only the first six elements of a rule are stored. */
  lemma EncodeKeepsFirstSix(ptype: string, rule: seq<Value>)
    requires |rule| > Width
    ensures Encode(ptype, rule) == Encode(ptype, rule[..Width])
  {
  }
}
