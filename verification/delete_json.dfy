/**
 * The two clean-up scripts that walk a results tree and delete JSON files: the Webarena
 * one removes every JSON file whose name does not start with `summary` or `truncate`,
 * the WorkArena one every file whose lower-cased name contains `__s` and ends with
 * `.json`, except `summary_info.json`. Both return the number of files removed.
 *
 * The tree is a value; whether removing a file succeeds is an input, and a failure is
 * skipped without stopping the walk.
 */
module DeleteJson {
  import opened Strings
  import opened Sorting

  /** A directory: its name, its files and its subdirectories. */
  datatype Tree = Tree(name: string, files: seq<string>, subdirs: seq<Tree>)

  /** A visited file: the directory path it sits in, and its name. */
  type Visit = (string, string)

  /** `os.walk(root)`, top-down: the directory's own files, then each subdirectory's walk in order. */
  function Walk(t: Tree, root: string): seq<Visit>
    decreases t, 1
  {
    seq(|t.files|, i requires 0 <= i < |t.files| => (root, t.files[i])) + WalkAll(t.subdirs, root)
  }

  function WalkAll(ts: seq<Tree>, root: string): seq<Visit>
    decreases ts, 0
  {
    if |ts| == 0 then [] else Walk(ts[0], PathJoin(root, ts[0].name)) + WalkAll(ts[1..], root)
  }

  /** The walk meets every file of the directory itself. */
  lemma WalkOwnFiles(t: Tree, root: string)
    ensures forall f :: f in t.files ==> (root, f) in Walk(t, root)
  {
    var own := seq(|t.files|, i requires 0 <= i < |t.files| => (root, t.files[i]));
    forall f | f in t.files ensures (root, f) in Walk(t, root) {
      var i :| 0 <= i < |t.files| && t.files[i] == f;
      assert Walk(t, root)[i] == own[i];
    }
  }

  /** The walk of a directory meets everything the walk of each of its subdirectories meets, so no subdirectory is skipped. */
  lemma {:induction false} WalkVisitsSubdirs(t: Tree, root: string)
    ensures forall j, v :: 0 <= j < |t.subdirs| && v in Walk(t.subdirs[j], PathJoin(root, t.subdirs[j].name)) ==> v in Walk(t, root)
  {
    forall j, v | 0 <= j < |t.subdirs| && v in Walk(t.subdirs[j], PathJoin(root, t.subdirs[j].name)) ensures v in Walk(t, root) {
      WalkAllVisits(t.subdirs, root, j, v);
    }
  }

  lemma {:induction false} WalkAllVisits(ts: seq<Tree>, root: string, j: nat, v: Visit)
    requires j < |ts| && v in Walk(ts[j], PathJoin(root, ts[j].name))
    ensures v in WalkAll(ts, root)
    decreases j
  {
    var head := Walk(ts[0], PathJoin(root, ts[0].name));
    var rest := WalkAll(ts[1..], root);
    assert WalkAll(ts, root) == head + rest;
    if j == 0 {
      InLeft(head, rest, v);
    } else {
      assert ts[1..][j - 1] == ts[j];
      WalkAllVisits(ts[1..], root, j - 1, v);
      InRight(head, rest, v);
    }
  }

  lemma InLeft<T>(a: seq<T>, b: seq<T>, x: T)
    requires x in a
    ensures x in a + b
  {
  }

  lemma InRight<T>(a: seq<T>, b: seq<T>, x: T)
    requires x in b
    ensures x in a + b
  {
  }

  /** `delete_non_summary_json_files`: a JSON file whose name starts with neither `summary` nor `truncate`. */
  predicate WebarenaDoomed(name: string) {
    EndsWith(name, ".json") && !(StartsWith(name, "summary") || StartsWith(name, "truncate"))
  }

  /** `delete_info_json_files`: `__s` in the lower-cased name, a lower-cased `.json` ending, and not the summary. */
  predicate WorkArenaDoomed(name: string) {
    Contains(Lower(name), "__s") && EndsWith(Lower(name), ".json") && name != "summary_info.json"
  }

  datatype Script = Webarena | WorkArena

  predicate Doomed(script: Script, name: string) {
    match script
    case Webarena => WebarenaDoomed(name)
    case WorkArena => WorkArenaDoomed(name)
  }

  /** Neither script touches a file whose name does not end in `.json` (in any case, for the WorkArena one). */
  lemma NonJsonKept(name: string)
    ensures !EndsWith(name, ".json") ==> !WebarenaDoomed(name)
    ensures !EndsWith(Lower(name), ".json") ==> !WorkArenaDoomed(name)
    ensures StartsWith(name, "summary") || StartsWith(name, "truncate") ==> !WebarenaDoomed(name)
    ensures !WorkArenaDoomed("summary_info.json")
  {
  }

  /** The WorkArena test ignores case: two names that differ only in letter case, neither the summary, are treated alike. */
  lemma WorkArenaCaseless(a: string, b: string)
    requires Lower(a) == Lower(b)
    requires a != "summary_info.json" && b != "summary_info.json"
    ensures WorkArenaDoomed(a) <==> WorkArenaDoomed(b)
  {
  }

  /** The visits whose file the script deletes and whose removal succeeds, in walk order. */
  function Removed(script: Script, visits: seq<Visit>, canRemove: Visit -> bool): seq<Visit>
    decreases |visits|
  {
    var n := |visits|;
    if n == 0 then []
    else
      var last := visits[n - 1];
      Removed(script, visits[..n - 1], canRemove) + (if Doomed(script, last.1) && canRemove(last) then [last] else [])
  }

  /** Exactly the doomed visits whose removal succeeds are removed, and no more of them than were visited. */
  lemma {:induction false} RemovedMembers(script: Script, visits: seq<Visit>, canRemove: Visit -> bool)
    ensures |Removed(script, visits, canRemove)| <= |visits|
    ensures forall v :: v in Removed(script, visits, canRemove) <==> v in visits && Doomed(script, v.1) && canRemove(v)
    decreases |visits|
  {
    var n := |visits|;
    if n > 0 {
      var init := visits[..n - 1];
      var last := visits[n - 1];
      RemovedMembers(script, init, canRemove);
      SplitLast(visits);
    }
  }

  /** One more visit is appended to the removals exactly when its file is doomed and its removal succeeds. */
  lemma RemovedStep(script: Script, visits: seq<Visit>, i: nat, canRemove: Visit -> bool)
    requires i < |visits|
    ensures Removed(script, visits[..i + 1], canRemove) ==
      Removed(script, visits[..i], canRemove) + (if Doomed(script, visits[i].1) && canRemove(visits[i]) then [visits[i]] else [])
  {
    assert visits[..i + 1][..i] == visits[..i] && visits[..i + 1][i] == visits[i];
  }

  /** The deletion loop over the walk: every doomed file is attempted, and the count is the number of removals that succeeded. */
  method DeleteFiles(script: Script, visits: seq<Visit>, canRemove: Visit -> bool) returns (count: nat, removed: seq<Visit>)
    ensures removed == Removed(script, visits, canRemove)
    ensures count == |removed|
  {
    count := 0;
    removed := [];
    var i := 0;
    while i < |visits|
      invariant 0 <= i <= |visits|
      invariant removed == Removed(script, visits[..i], canRemove)
      invariant count == |removed|
    {
      var v := visits[i];
      RemovedStep(script, visits, i, canRemove);
      if Doomed(script, v.1) && canRemove(v) {
        removed := removed + [v];
        count := count + 1;
      } else {
        assert removed + [] == removed;
      }
      i := i + 1;
    }
    TakeAll(visits);
  }

  /** Either script on a whole tree: the walk, then the deletions, returning the count. */
  method DeleteInTree(script: Script, t: Tree, root: string, canRemove: Visit -> bool) returns (count: nat)
    ensures count == |Removed(script, Walk(t, root), canRemove)|
  {
    var removed;
    count, removed := DeleteFiles(script, Walk(t, root), canRemove);
  }
}
