/**
 * The clean-up of one result subfolder: every JSON file other than the summary and the
 * `simulated_failed_input_FS*.json` candidates is deleted, and a single candidate is then
 * renamed after the subfolder.
 *
 * A subfolder is its listing of entries. Whether deleting a file or renaming the candidate
 * succeeds is an input; a failure leaves that entry as it was and the run goes on.
 */
module CleanupRename {
  import opened Wrappers
  import opened Strings
  import Sorting

  const SummaryName: string := "summary_info.json"
  const CandidatePrefix: string := "simulated_failed_input_FS"

  /** An entry of a subfolder: its name and whether it is a regular file. */
  datatype Item = Item(name: string, isFile: bool)

  /** The names of the entries, in listing order. */
  function Names(items: seq<Item>): (r: seq<string>)
    ensures |r| == |items|
    ensures forall i :: 0 <= i < |items| ==> r[i] == items[i].name
  {
    seq(|items|, i requires 0 <= i < |items| => items[i].name)
  }

  /**
   * The glob `simulated_failed_input_FS*.json`: the prefix, then anything, then the
   * extension, without the two overlapping. The glob does not ask for a regular file.
   */
  predicate IsCandidate(name: string) {
    StartsWith(name, CandidatePrefix) && EndsWith(name, ".json") && |name| >= |CandidatePrefix| + |".json"|
  }

  /** The names of the entries the glob matches, in listing order. */
  function Candidates(items: seq<Item>): (r: seq<string>)
    ensures forall n :: n in r ==> IsCandidate(n) && n in Names(items)
    ensures forall i :: 0 <= i < |items| && IsCandidate(items[i].name) ==> items[i].name in r
    decreases |items|
  {
    if |items| == 0 then []
    else
      var rest := Candidates(items[1..]);
      assert forall i :: 1 <= i < |items| ==> items[i] == items[1..][i - 1];
      assert forall n :: n in Names(items[1..]) ==> n in Names(items);
      (if IsCandidate(items[0].name) then [items[0].name] else []) + rest
  }

  /** An entry the first pass schedules for deletion, given the candidates' names. */
  predicate Scheduled(item: Item, candidates: seq<string>) {
    item.isFile && EndsWith(item.name, ".json") && item.name != SummaryName && item.name !in candidates
  }

  /** The names of the entries scheduled for deletion, in listing order. */
  function ScheduledNames(items: seq<Item>, candidates: seq<string>): (r: seq<string>)
    ensures forall n :: n in r <==> exists i :: 0 <= i < |items| && items[i].name == n && Scheduled(items[i], candidates)
    decreases |items|
  {
    if |items| == 0 then []
    else
      var rest := ScheduledNames(items[1..], candidates);
      assert forall i :: 1 <= i < |items| ==> items[i] == items[1..][i - 1];
      (if Scheduled(items[0], candidates) then [items[0].name] else []) + rest
  }

  /**
   * The deletion plan: the summary and every candidate are kept, every other regular
   * JSON file is scheduled, and nothing that is not a JSON file is.
   */
  lemma DeletionPlan(items: seq<Item>)
    ensures SummaryName !in ScheduledNames(items, Candidates(items))
    ensures forall n :: IsCandidate(n) ==> n !in ScheduledNames(items, Candidates(items))
    ensures forall n :: !EndsWith(n, ".json") ==> n !in ScheduledNames(items, Candidates(items))
    ensures forall i :: (0 <= i < |items| && items[i].isFile && EndsWith(items[i].name, ".json") &&
                         items[i].name != SummaryName && !IsCandidate(items[i].name)) ==>
      items[i].name in ScheduledNames(items, Candidates(items))
  {
    var cands := Candidates(items);
    forall n | IsCandidate(n) ensures n !in ScheduledNames(items, cands) {
      forall i | 0 <= i < |items| && items[i].name == n ensures !Scheduled(items[i], cands) {
        assert n in cands;
      }
    }
  }

  /** The names among `names` whose deletion succeeds. */
  function Succeeded(names: seq<string>, canDelete: string -> bool): (r: seq<string>)
    ensures forall n :: n in r <==> n in names && canDelete(n)
    decreases |names|
  {
    if |names| == 0 then []
    else
      var rest := Succeeded(names[1..], canDelete);
      assert forall n :: n in names <==> n == names[0] || n in names[1..];
      (if canDelete(names[0]) then [names[0]] else []) + rest
  }

  /** The listing once the entries named in `gone` have been removed. */
  function Without(items: seq<Item>, gone: seq<string>): (r: seq<Item>)
    ensures forall x :: x in r <==> x in items && x.name !in gone
    decreases |items|
  {
    if |items| == 0 then []
    else
      var rest := Without(items[1..], gone);
      assert forall x :: x in items <==> x == items[0] || x in items[1..];
      (if items[0].name in gone then [] else [items[0]]) + rest
  }

  /** The listing after `from` has been renamed to `to`. */
  function RenameItem(items: seq<Item>, from: string, to: string): (r: seq<Item>)
    ensures |r| == |items|
    ensures forall i :: 0 <= i < |items| ==> r[i] == if items[i].name == from then items[i].(name := to) else items[i]
  {
    seq(|items|, i requires 0 <= i < |items| => if items[i].name == from then items[i].(name := to) else items[i])
  }

  /** What processing a subfolder did: the listing it left, the files it deleted, and the rename it made. */
  datatype Outcome = Outcome(after: seq<Item>, deleted: seq<string>, renamed: Option<(string, string)>)

  /** The rename the third step attempts: only for a single candidate, not already so named, whose target is not present. */
  function PlannedRename(subfolder: string, candidates: seq<string>, present: seq<Item>): Option<(string, string)> {
    var target := subfolder + ".json";
    if |candidates| == 1 && candidates[0] != target && target !in Names(present) then Some((candidates[0], target))
    else None
  }

  /**
   * `process_subfolder`: deletions first (none in a dry run), then the rename (none in a
   * dry run), checked against the listing the deletions left.
   */
  function ProcessSubfolder(subfolder: string, items: seq<Item>, dryRun: bool,
                            canDelete: string -> bool, canRename: (string, string) -> bool): (r: Outcome)
    ensures dryRun ==> r == Outcome(items, [], None)
    ensures forall n :: n in r.deleted ==> n in ScheduledNames(items, Candidates(items))
    ensures r.renamed.Some? ==>
      var cands := Candidates(items);
      && |cands| == 1
      && r.renamed.value == (cands[0], subfolder + ".json")
      && cands[0] != subfolder + ".json"
      && subfolder + ".json" !in Names(Without(items, r.deleted))
  {
    var cands := Candidates(items);
    var deleted := if dryRun then [] else Succeeded(ScheduledNames(items, cands), canDelete);
    var kept := Without(items, deleted);
    assert dryRun ==> kept == items by {
      if dryRun { WithoutNothing(items, deleted); }
    }
    var plan := PlannedRename(subfolder, cands, kept);
    if plan.Some? && !dryRun && canRename(plan.value.0, plan.value.1) then
      Outcome(RenameItem(kept, plan.value.0, plan.value.1), deleted, plan)
    else
      Outcome(kept, deleted, None)
  }

  lemma {:induction false} WithoutNothing(items: seq<Item>, gone: seq<string>)
    requires gone == []
    ensures Without(items, gone) == items
    decreases |items|
  {
    if |items| > 0 {
      WithoutNothing(items[1..], gone);
      assert items == [items[0]] + items[1..];
    }
  }

  /** A rename of `from` leaves every entry of another name where it was. */
  lemma RenameKeeps(items: seq<Item>, from: string, to: string, x: Item)
    requires x in items && x.name != from
    ensures x in RenameItem(items, from, to)
  {
    var j :| 0 <= j < |items| && items[j] == x;
    assert RenameItem(items, from, to)[j] == x;
  }

  /** The summary is not a candidate, so it is never the entry renamed. */
  lemma SummaryNotCandidate()
    ensures !IsCandidate(SummaryName)
  {
    assert |SummaryName| < |CandidatePrefix|;
  }

  /**
   * Entries that are not JSON files, and the summary, come through a run unchanged: they
   * are neither deleted nor renamed.
   */
  lemma UntouchedEntries(subfolder: string, items: seq<Item>, dryRun: bool,
                         canDelete: string -> bool, canRename: (string, string) -> bool)
    ensures var r := ProcessSubfolder(subfolder, items, dryRun, canDelete, canRename);
      forall x :: x in items && (!EndsWith(x.name, ".json") || x.name == SummaryName) ==> x in r.after
  {
    var r := ProcessSubfolder(subfolder, items, dryRun, canDelete, canRename);
    var cands := Candidates(items);
    DeletionPlan(items);
    SummaryNotCandidate();
    var kept := Without(items, r.deleted);
    assert r.renamed.None? ==> r.after == kept;
    assert r.renamed.Some? ==> r.after == RenameItem(kept, cands[0], subfolder + ".json");
    forall x | x in items && (!EndsWith(x.name, ".json") || x.name == SummaryName) ensures x in r.after {
      assert x.name !in r.deleted;
      assert x in kept;
      if r.renamed.Some? {
        assert IsCandidate(cands[0]);
        RenameKeeps(kept, cands[0], subfolder + ".json", x);
      }
    }
  }

  /**
   * Outside a dry run the rename is made exactly when there is one candidate, it is not
   * already named after the subfolder, no entry left after the deletions has the target
   * name, and the rename succeeds.
   */
  lemma RenameWhen(subfolder: string, items: seq<Item>, canDelete: string -> bool, canRename: (string, string) -> bool)
    ensures var r := ProcessSubfolder(subfolder, items, false, canDelete, canRename);
      var cands := Candidates(items);
      var target := subfolder + ".json";
      r.renamed.Some? <==>
        |cands| == 1 && cands[0] != target && target !in Names(Without(items, r.deleted)) && canRename(cands[0], target)
  {
  }

  /** A subfolder of the parent directory: its name and its listing. */
  datatype Entry = Entry(name: string, isDir: bool, items: seq<Item>)

  /** The top-level loop: every directory among the parent's entries is processed once, in listing order. */
  function ProcessParent(entries: seq<Entry>, dryRun: bool, canDelete: string -> bool,
                         canRename: (string, string) -> bool): (r: seq<(string, Outcome)>)
    ensures |r| <= |entries|
    ensures forall i :: 0 <= i < |r| ==>
      exists j :: (0 <= j < |entries| && entries[j].isDir && entries[j].name == r[i].0 &&
                   r[i].1 == ProcessSubfolder(entries[j].name, entries[j].items, dryRun, canDelete, canRename))
    decreases |entries|
  {
    if |entries| == 0 then []
    else
      var e := entries[0];
      var rest := ProcessParent(entries[1..], dryRun, canDelete, canRename);
      assert forall j :: 1 <= j < |entries| ==> entries[j] == entries[1..][j - 1];
      (if e.isDir then [Visited(e, dryRun, canDelete, canRename)] else []) + rest
  }

  /** A subfolder's name with the outcome of processing it. */
  function Visited(e: Entry, dryRun: bool, canDelete: string -> bool, canRename: (string, string) -> bool): (string, Outcome) {
    (e.name, ProcessSubfolder(e.name, e.items, dryRun, canDelete, canRename))
  }

  predicate IsDir(e: Entry) {
    e.isDir
  }

  /**
   * The loop visits exactly the directory entries, each once, in listing order: its result
   * is the visit of every entry the `is_dir` filter keeps.
   */
  lemma {:induction false} ProcessParentInOrder(entries: seq<Entry>, dryRun: bool, canDelete: string -> bool,
                                                canRename: (string, string) -> bool)
    ensures ProcessParent(entries, dryRun, canDelete, canRename) ==
      Sorting.MapSeq(Sorting.Filter(entries, IsDir), e => Visited(e, dryRun, canDelete, canRename))
    decreases |entries|
  {
    if |entries| > 0 {
      var e := entries[0];
      var tail := Sorting.Filter(entries[1..], IsDir);
      ProcessParentInOrder(entries[1..], dryRun, canDelete, canRename);
      if IsDir(e) {
        assert Sorting.Filter(entries, IsDir) == [e] + tail;
        assert ([e] + tail)[1..] == tail;
      } else {
        assert Sorting.Filter(entries, IsDir) == tail;
      }
    }
  }

  /** The number of subfolders processed is the number of directory entries. */
  function DirCount(entries: seq<Entry>): nat
    decreases |entries|
  {
    if |entries| == 0 then 0 else (if entries[0].isDir then 1 else 0) + DirCount(entries[1..])
  }

  lemma {:induction false} ProcessParentCount(entries: seq<Entry>, dryRun: bool, canDelete: string -> bool,
                                              canRename: (string, string) -> bool)
    ensures |ProcessParent(entries, dryRun, canDelete, canRename)| == DirCount(entries)
    decreases |entries|
  {
    if |entries| > 0 {
      ProcessParentCount(entries[1..], dryRun, canDelete, canRename);
    }
  }
}
