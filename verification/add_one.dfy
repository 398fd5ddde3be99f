/**
 * The one-off fix of the saved info files: every top-level `*.json` file whose document
 * has an integer `input_step` is rewritten with that step increased by one.
 *
 * A file is what `json.load` made of it, or a failure to read it; whether rewriting it
 * succeeds is an input. A failure on one file is reported and the loop goes on.
 */
module AddOne {
  import opened Wrappers
  import opened Strings
  import opened JsonData

  datatype Content = Unreadable | Loaded(doc: Json)

  /** A directory entry: its name and what reading it gives. */
  datatype Entry = Entry(name: string, content: Content)

  datatype Outcome = Rewritten(doc: Fields) | Skipped | Failed

  /**
   * `"input_step" in data and isinstance(data["input_step"], int)`. On a list or a string
   * the membership test either fails or leads to an indexing error, and on any other
   * value it raises, so only an object can pass.
   */
  predicate HasIntStep(doc: Json) {
    doc.JObj? && Lookup(doc.fields, "input_step").Some? && IsPyInt(Lookup(doc.fields, "input_step").value)
  }

  /** Whether the test raises instead of answering: on a non-container, or on a list or string that holds `"input_step"`. */
  predicate TestRaises(doc: Json) {
    match doc
    case JList(items) => JStr("input_step") in items
    case JStr(s) => Contains(s, "input_step")
    case JObj(_) => false
    case _ => true
  }

  /** The document with `input_step` increased by one (`True` counts as 1). */
  function Bumped(doc: Json): (r: Fields)
    requires HasIntStep(doc)
    ensures Lookup(r, "input_step") == Some(JInt(PyIntValue(Lookup(doc.fields, "input_step").value) + 1))
    ensures Keys(r) == Keys(doc.fields)
    ensures forall k :: k != "input_step" ==> Lookup(r, k) == Lookup(doc.fields, k)
  {
    Update(doc.fields, "input_step", JInt(PyIntValue(Lookup(doc.fields, "input_step").value) + 1))
  }

  /** One file of the loop. */
  function ProcessFile(e: Entry, canWrite: string -> bool): (r: Outcome)
    ensures r.Rewritten? <==> e.content.Loaded? && HasIntStep(e.content.doc) && canWrite(e.name)
    ensures r.Rewritten? ==> r.doc == Bumped(e.content.doc)
    ensures r.Skipped? <==> e.content.Loaded? && !HasIntStep(e.content.doc) && !TestRaises(e.content.doc)
  {
    if e.content.Unreadable? then Failed
    else
      var doc := e.content.doc;
      if HasIntStep(doc) then (if canWrite(e.name) then Rewritten(Bumped(doc)) else Failed)
      else if TestRaises(doc) then Failed
      else Skipped
  }

  /** `folder_path.glob("*.json")`: the entries whose name ends in `.json`. */
  function JsonEntries(entries: seq<Entry>): (r: seq<Entry>)
    ensures forall e :: e in r <==> e in entries && EndsWith(e.name, ".json")
    decreases |entries|
  {
    if |entries| == 0 then []
    else
      var rest := JsonEntries(entries[1..]);
      assert forall e :: e in entries <==> e == entries[0] || e in entries[1..];
      (if EndsWith(entries[0].name, ".json") then [entries[0]] else []) + rest
  }

  /** The script: every matching file in order, each handled on its own. */
  function AddOneAll(entries: seq<Entry>, canWrite: string -> bool): (r: seq<(string, Outcome)>)
    ensures |r| == |JsonEntries(entries)|
    ensures forall i :: 0 <= i < |r| ==>
      r[i] == (JsonEntries(entries)[i].name, ProcessFile(JsonEntries(entries)[i], canWrite))
  {
    var js := JsonEntries(entries);
    seq(|js|, i requires 0 <= i < |js| => (js[i].name, ProcessFile(js[i], canWrite)))
  }

  /** A file not named `*.json` is never opened, and every rewritten document is a file named `*.json` with its step bumped. */
  lemma OnlyJsonRewritten(entries: seq<Entry>, canWrite: string -> bool)
    ensures forall i :: 0 <= i < |AddOneAll(entries, canWrite)| ==> EndsWith(AddOneAll(entries, canWrite)[i].0, ".json")
    ensures forall i :: 0 <= i < |AddOneAll(entries, canWrite)| && AddOneAll(entries, canWrite)[i].1.Rewritten? ==>
      exists e :: e in entries && e.name == AddOneAll(entries, canWrite)[i].0 && e.content.Loaded? && HasIntStep(e.content.doc)
  {
    var r := AddOneAll(entries, canWrite);
    var js := JsonEntries(entries);
    forall i | 0 <= i < |r| ensures EndsWith(r[i].0, ".json") {
      assert js[i] in js;
    }
    forall i | 0 <= i < |r| && r[i].1.Rewritten?
      ensures exists e :: e in entries && e.name == r[i].0 && e.content.Loaded? && HasIntStep(e.content.doc)
    {
      assert js[i] in js;
    }
  }
}
