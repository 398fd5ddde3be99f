/** Parsed JSON documents as `json.load` hands them to the scripts. */
module JsonData {
  import opened Wrappers
  import opened Strings

  /**
   * A JSON value. An object keeps its members in document order; a float is
   * kept as its Python rendering because no script computes with one.
   */
  datatype Json =
    | JNull
    | JBool(b: bool)
    | JInt(i: int)
    | JFloat(repr: string)
    | JStr(s: string)
    | JList(items: seq<Json>)
    | JObj(fields: seq<(string, Json)>)

  type Fields = seq<(string, Json)>

  /** The keys of an object. */
  function Keys(fields: Fields): set<string> {
    set i | 0 <= i < |fields| :: fields[i].0
  }

  lemma KeysAppend(a: Fields, b: Fields)
    ensures Keys(a + b) == Keys(a) + Keys(b)
  {
    forall k | k in Keys(a + b) ensures k in Keys(a) + Keys(b) {
      var j :| 0 <= j < |a + b| && (a + b)[j].0 == k;
      if j >= |a| { assert b[j - |a|].0 == k; }
    }
    forall k | k in Keys(a) + Keys(b) ensures k in Keys(a + b) {
      if k in Keys(b) {
        var j :| 0 <= j < |b| && b[j].0 == k;
        assert (a + b)[j + |a|].0 == k;
      } else {
        var j :| 0 <= j < |a| && a[j].0 == k;
        assert (a + b)[j].0 == k;
      }
    }
  }

  /** `d.get(k)`: `json.load` keeps the last of repeated keys, so the last binding wins. */
  function Lookup(fields: Fields, k: string): (r: Option<Json>)
    ensures r.Some? <==> k in Keys(fields)
    ensures r.Some? ==> exists i :: 0 <= i < |fields| && fields[i] == (k, r.value)
    decreases |fields|
  {
    if |fields| == 0 then None
    else if fields[|fields| - 1].0 == k then Some(fields[|fields| - 1].1)
    else
      var r := Lookup(fields[..|fields| - 1], k);
      assert Keys(fields) == Keys(fields[..|fields| - 1]) + {fields[|fields| - 1].0} by {
        assert fields == fields[..|fields| - 1] + [fields[|fields| - 1]];
      }
      assert r.Some? ==> fields[..|fields| - 1][0] == fields[0];
      r
  }

  /** One key of an updated object: the new value under the updated key, the old binding under any other. */
  lemma UpdateAt(fields: Fields, k: string, v: Json, k': string)
    ensures Lookup(Update(fields, k, v), k') == if k' == k then Some(v) else Lookup(fields, k')
  {
  }

  /** `d[k] = v` on an object loaded from a file: every binding of `k` now holds `v`, or `k` is appended. */
  function Update(fields: Fields, k: string, v: Json): (r: Fields)
    ensures Keys(r) == Keys(fields) + {k}
    ensures Lookup(r, k) == Some(v)
    ensures forall k' :: k' != k ==> Lookup(r, k') == Lookup(fields, k')
  {
    if k in Keys(fields) then
      ReplaceBindingsLookup(fields, k, v);
      ReplaceBindings(fields, k, v)
    else
      var r := fields + [(k, v)];
      assert r[..|r| - 1] == fields;
      assert Keys(r) == Keys(fields) + {k} by {
        forall x | x in Keys(r) ensures x in Keys(fields) + {k} {
          var i :| 0 <= i < |r| && r[i].0 == x;
          if i < |fields| { assert fields[i] == r[i]; }
        }
        forall x | x in Keys(fields) ensures x in Keys(r) {
          var i :| 0 <= i < |fields| && fields[i].0 == x;
          assert r[i] == fields[i];
        }
        assert r[|fields|].0 == k;
      }
      r
  }

  function ReplaceBindings(fields: Fields, k: string, v: Json): (r: Fields)
    ensures |r| == |fields|
    ensures forall i :: 0 <= i < |r| ==> r[i].0 == fields[i].0
    ensures forall i :: 0 <= i < |r| ==> r[i].1 == if fields[i].0 == k then v else fields[i].1
  {
    seq(|fields|, i requires 0 <= i < |fields| => if fields[i].0 == k then (k, v) else fields[i])
  }

  lemma {:induction false} ReplaceBindingsLookup(fields: Fields, k: string, v: Json)
    ensures Keys(ReplaceBindings(fields, k, v)) == Keys(fields)
    ensures k in Keys(fields) ==> Lookup(ReplaceBindings(fields, k, v), k) == Some(v)
    ensures forall k' :: k' != k ==> Lookup(ReplaceBindings(fields, k, v), k') == Lookup(fields, k')
    decreases |fields|
  {
    var r := ReplaceBindings(fields, k, v);
    assert Keys(r) == Keys(fields) by {
      forall x | x in Keys(r) ensures x in Keys(fields) {
        var i :| 0 <= i < |r| && r[i].0 == x;
      }
      forall x | x in Keys(fields) ensures x in Keys(r) {
        var i :| 0 <= i < |fields| && fields[i].0 == x;
        assert r[i].0 == x;
      }
    }
    if |fields| > 0 {
      var init := fields[..|fields| - 1];
      ReplaceBindingsLookup(init, k, v);
      assert r[..|r| - 1] == ReplaceBindings(init, k, v);
    }
  }

  /** Python's `isinstance(v, int)`, which also holds for `True` and `False`. */
  predicate IsPyInt(j: Json) {
    j.JInt? || j.JBool?
  }

  /** The integer a Python `int` (or `bool`) stands for. */
  function PyIntValue(j: Json): int
    requires IsPyInt(j)
  {
    match j
    case JInt(i) => i
    case JBool(b) => if b then 1 else 0
  }

  /** Python truthiness: `None`, `False`, zero, and empty strings, lists and dictionaries are false. */
  predicate Truthy(j: Json) {
    match j
    case JNull => false
    case JBool(b) => b
    case JInt(i) => i != 0
    case JFloat(r) => r != "0.0" && r != "-0.0"
    case JStr(s) => |s| > 0
    case JList(items) => |items| > 0
    case JObj(fields) => |fields| > 0
  }

  /** `str(v)` of a loaded JSON value; strings inside containers are quoted without escaping. */
  function Str(j: Json): string
    decreases j, 1
  {
    match j
    case JNull => "None"
    case JBool(b) => if b then "True" else "False"
    case JInt(i) => IntToString(i)
    case JFloat(r) => r
    case JStr(s) => s
    case JList(items) =>
      "[" + Join(seq(|items|, k requires 0 <= k < |items| => Repr(items[k])), ", ") + "]"
    case JObj(fields) =>
      "{" + Join(seq(|fields|, k requires 0 <= k < |fields| =>
        "'" + fields[k].0 + "': " + Repr(fields[k].1)), ", ") + "}"
  }

  /** `repr(v)`: strings in quotes, everything else as `str`. */
  function Repr(j: Json): string
    decreases j, 2
  {
    if j.JStr? then "'" + j.s + "'" else Str(j)
  }
}
