/**
 * The sorting of generated input files into per-risk directories: for each experiment
 * folder, its first JSON file other than the summary is moved to
 * `{destination}/{risk}/{file}`, where the risk is the first risk type the file name
 * contains, unless a file of that name is already there.
 *
 * The destination is the set of `(risk, file)` paths that exist in it; moves succeed.
 */
module MoveInputJson {
  import opened Wrappers
  import opened Strings

  const RiskTypes: seq<string> :=
    ["ambiguity", "human_in_loop", "missinginfo", "unreachable", "misleading", "unachievable_original"]

  /** `find_risk_type`: the first risk type, in list order, that occurs in the name as written. */
  function FindRiskType(name: string): (r: Option<string>)
    ensures r.None? <==> forall i :: 0 <= i < |RiskTypes| ==> !Contains(name, RiskTypes[i])
    ensures r.Some? ==>
      exists k :: (0 <= k < |RiskTypes| && r.value == RiskTypes[k] && Contains(name, RiskTypes[k]) &&
                   forall i :: 0 <= i < k ==> !Contains(name, RiskTypes[i]))
  {
    var k := FirstKeyword(RiskTypes, name, false);
    if k < |RiskTypes| then Some(RiskTypes[k]) else None
  }

  /** A listed name that may be moved: a `.json` name other than the summary. */
  predicate IsInputJson(name: string) {
    EndsWith(name, ".json") && name != "summary_info.json"
  }

  /** The position of the first movable name in a folder listing; `|files|` when there is none. */
  function FirstInputJson(files: seq<string>): (r: nat)
    ensures r <= |files|
    ensures r < |files| ==> IsInputJson(files[r])
    ensures forall i :: 0 <= i < r ==> !IsInputJson(files[i])
    decreases |files|
  {
    if |files| == 0 then 0
    else if IsInputJson(files[0]) then 0
    else 1 + FirstInputJson(files[1..])
  }

  /** An entry of the source directory. */
  datatype Folder = Folder(name: string, isDir: bool, files: seq<string>)

  /** What happened to one entry of the source directory. */
  datatype Decision =
    | NotAFolder
    | NoInputJson
    | NoRiskType(file: string)
    | AlreadyThere(risk: string, file: string)
    | Moved(risk: string, file: string)

  /** The decision for one folder against the paths already in the destination. */
  function Decide(f: Folder, existing: set<(string, string)>): (d: Decision)
    ensures d.Moved? <==>
      f.isDir && FirstInputJson(f.files) < |f.files| && FindRiskType(f.files[FirstInputJson(f.files)]).Some? &&
      (FindRiskType(f.files[FirstInputJson(f.files)]).value, f.files[FirstInputJson(f.files)]) !in existing
    ensures d.Moved? ==>
      && d.file == f.files[FirstInputJson(f.files)]
      && d.risk == FindRiskType(d.file).value
      && (d.risk, d.file) !in existing
  {
    if !f.isDir then NotAFolder
    else
      var k := FirstInputJson(f.files);
      if k == |f.files| then NoInputJson
      else
        var file := f.files[k];
        var risk := FindRiskType(file);
        if risk.None? then NoRiskType(file)
        else if (risk.value, file) in existing then AlreadyThere(risk.value, file)
        else Moved(risk.value, file)
  }

  /** The destination paths of the moves among the decisions. */
  function MovedPaths(ds: seq<Decision>): set<(string, string)>
    decreases |ds|
  {
    if |ds| == 0 then {}
    else (if ds[0].Moved? then {(ds[0].risk, ds[0].file)} else {}) + MovedPaths(ds[1..])
  }

  /** `main`: every entry in listing order; each move adds its destination to the existing paths. */
  function MoveAll(folders: seq<Folder>, existing: set<(string, string)>): (r: (seq<Decision>, set<(string, string)>))
    ensures |r.0| == |folders|
    ensures r.1 == existing + MovedPaths(r.0)
    decreases |folders|
  {
    if |folders| == 0 then ([], existing)
    else
      var d := Decide(folders[0], existing);
      var now := if d.Moved? then existing + {(d.risk, d.file)} else existing;
      var rest := MoveAll(folders[1..], now);
      assert ([d] + rest.0)[1..] == rest.0;
      ([d] + rest.0, rest.1)
  }

  /** The moves among the decisions write only paths outside `existing`. */
  predicate MovesFresh(ds: seq<Decision>, existing: set<(string, string)>) {
    forall i :: 0 <= i < |ds| && ds[i].Moved? ==> (ds[i].risk, ds[i].file) !in existing
  }

  /** No two moves among the decisions write the same path. */
  predicate MovesDistinct(ds: seq<Decision>) {
    forall i, j :: 0 <= i < j < |ds| && ds[i].Moved? && ds[j].Moved? ==> (ds[i].risk, ds[i].file) != (ds[j].risk, ds[j].file)
  }

  /** One decision in front of later ones that avoid both the old paths and its own destination. */
  lemma MovesCons(d: Decision, rest: seq<Decision>, existing: set<(string, string)>, now: set<(string, string)>)
    requires d.Moved? ==> (d.risk, d.file) !in existing && (d.risk, d.file) in now
    requires existing <= now
    requires MovesFresh(rest, now) && MovesDistinct(rest)
    ensures MovesFresh([d] + rest, existing) && MovesDistinct([d] + rest)
  {
    var ds := [d] + rest;
    forall i | 0 <= i < |ds| && ds[i].Moved? ensures (ds[i].risk, ds[i].file) !in existing {
      if i > 0 {
        assert ds[i] == rest[i - 1];
      }
    }
    forall i, j | 0 <= i < j < |ds| && ds[i].Moved? && ds[j].Moved?
      ensures (ds[i].risk, ds[i].file) != (ds[j].risk, ds[j].file)
    {
      assert ds[j] == rest[j - 1];
      if i > 0 {
        assert ds[i] == rest[i - 1];
      }
    }
  }

  /**
   * No move overwrites: every destination a move writes was free when the run started,
   * and no two moves of the run write the same destination.
   */
  lemma {:induction false} NoOverwrite(folders: seq<Folder>, existing: set<(string, string)>)
    ensures MovesFresh(MoveAll(folders, existing).0, existing)
    ensures MovesDistinct(MoveAll(folders, existing).0)
    decreases |folders|
  {
    if |folders| > 0 {
      var d := Decide(folders[0], existing);
      var now := if d.Moved? then existing + {(d.risk, d.file)} else existing;
      NoOverwrite(folders[1..], now);
      var rest := MoveAll(folders[1..], now).0;
      MovesCons(d, rest, existing, now);
      assert MoveAll(folders, existing).0 == [d] + rest;
    }
  }

  /** A folder is skipped, without a move, when it holds no movable name or its first one names no risk type. */
  lemma SkippedFolders(f: Folder, existing: set<(string, string)>)
    requires f.isDir
    ensures FirstInputJson(f.files) == |f.files| ==> Decide(f, existing) == NoInputJson
    ensures FirstInputJson(f.files) < |f.files| && FindRiskType(f.files[FirstInputJson(f.files)]).None? ==>
      Decide(f, existing) == NoRiskType(f.files[FirstInputJson(f.files)])
  {
  }
}
