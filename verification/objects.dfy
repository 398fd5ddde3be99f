/**
 * The unpickled experiment arguments as the scripts walk them with `safe_extract`: objects
 * with attributes, dictionaries with keys, and plain values.
 *
 * An object's attributes are the ones it was built with; the attribute names the scripts
 * follow (`env_args`, `task_name`, `chat_model_args`, ...) are never names of built-in
 * methods, so a dictionary or plain value has none of them.
 */
module PyObjects {
  import opened Wrappers
  import opened Strings
  import opened JsonData

  datatype Value =
    | Obj(attrs: seq<(string, Value)>)
    | Dict(entries: seq<(string, Value)>)
    | Leaf(j: Json)

  /** The value bound to `k`; the last binding wins, as in a dictionary built binding by binding. */
  function Get(bindings: seq<(string, Value)>, k: string): (r: Option<Value>)
    ensures r.None? <==> forall i :: 0 <= i < |bindings| ==> bindings[i].0 != k
    ensures r.Some? ==> exists i :: 0 <= i < |bindings| && bindings[i] == (k, r.value)
    decreases |bindings|
  {
    var n := |bindings|;
    if n == 0 then None
    else if bindings[n - 1].0 == k then Some(bindings[n - 1].1)
    else
      var r := Get(bindings[..n - 1], k);
      assert forall i :: 0 <= i < n - 1 ==> bindings[..n - 1][i] == bindings[i];
      r
  }

  /**
   * One segment of `safe_extract`: the attribute of that name, or, when `keysToo`, the
   * dictionary entry of that key.
   */
  function Follow(v: Value, seg: string, keysToo: bool): (r: Option<Value>)
    ensures r.Some? <==>
      (v.Obj? && Get(v.attrs, seg).Some?) || (keysToo && v.Dict? && Get(v.entries, seg).Some?)
  {
    if v.Obj? && Get(v.attrs, seg).Some? then Get(v.attrs, seg)
    else if keysToo && v.Dict? then Get(v.entries, seg)
    else None
  }

  /** Following the segments one after the other; `None` at the first one that is missing. */
  function Walk(v: Value, segs: seq<string>, keysToo: bool): Option<Value>
    decreases |segs|
  {
    if |segs| == 0 then Some(v)
    else
      var next := Follow(v, segs[0], keysToo);
      if next.None? then None else Walk(next.value, segs[1..], keysToo)
  }

  /**
   * `safe_extract(obj, path, default)`: the value at the end of the dotted path, or
   * `default` as soon as a segment is missing. `keysToo` selects the variant that also
   * looks into dictionaries.
   */
  function SafeExtract(v: Value, path: string, default: Value, keysToo: bool): (r: Value)
    ensures Walk(v, Split(path, '.'), keysToo).None? ==> r == default
    ensures Walk(v, Split(path, '.'), keysToo).Some? ==> r == Walk(v, Split(path, '.'), keysToo).value
  {
    Walk(v, Split(path, '.'), keysToo).GetOr(default)
  }

  /** A walk along `a + b` is the walk along `a`, continued along `b` from where it ended. */
  lemma {:induction false} WalkAppend(v: Value, a: seq<string>, b: seq<string>, keysToo: bool)
    ensures Walk(v, a + b, keysToo) ==
      if Walk(v, a, keysToo).None? then None else Walk(Walk(v, a, keysToo).value, b, keysToo)
    decreases |a|
  {
    if |a| == 0 {
      assert a + b == b;
    } else {
      assert (a + b)[0] == a[0] && (a + b)[1..] == a[1..] + b;
      var next := Follow(v, a[0], keysToo);
      if next.Some? {
        WalkAppend(next.value, a[1..], b, keysToo);
      }
    }
  }

  /** Once segment `i` is missing from where the first `i` segments led, the whole path is missing. */
  lemma MissingSegment(v: Value, segs: seq<string>, i: nat, keysToo: bool)
    requires i < |segs|
    requires Walk(v, segs[..i], keysToo).Some?
    requires Follow(Walk(v, segs[..i], keysToo).value, segs[i], keysToo).None?
    ensures Walk(v, segs, keysToo).None?
  {
    assert segs == segs[..i] + segs[i..];
    WalkAppend(v, segs[..i], segs[i..], keysToo);
  }

  /** Whatever the attribute-only walk finds, the walk that also reads dictionary keys finds too. */
  lemma {:induction false} AttributesFirst(v: Value, segs: seq<string>)
    ensures Walk(v, segs, false).Some? ==> Walk(v, segs, true) == Walk(v, segs, false)
    decreases |segs|
  {
    if |segs| > 0 {
      var next := Follow(v, segs[0], false);
      if next.Some? {
        AttributesFirst(next.value, segs[1..]);
      }
    }
  }
}
