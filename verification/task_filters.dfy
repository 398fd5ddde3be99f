/**
 * Two filters over a Webarena task file, a list of task objects: the tasks that run on
 * the shopping site alone (projected onto three keys and named `webarena.{task_id}`),
 * and the infeasible tasks, whose only reference answer is a fuzzy match against `N/A`.
 */
module TaskFilters {
  import opened Wrappers
  import opened JsonData
  import opened Sorting

  // ---------------------------------------------------------------------------------
  // Shopping-only tasks

  /** `task.get("sites") == ["shopping"]` */
  predicate ShoppingOnly(task: Fields) {
    Lookup(task, "sites") == Some(JList([JStr("shopping")]))
  }

  /** The record kept for a selected task; a missing key reads as `None`. */
  function Project(task: Fields): (r: Fields)
    ensures Keys(r) == {"task_id", "intent", "sites"}
    ensures Lookup(r, "task_id") == Some(Lookup(task, "task_id").GetOr(JNull))
    ensures Lookup(r, "intent") == Some(Lookup(task, "intent").GetOr(JNull))
    ensures Lookup(r, "sites") == Some(Lookup(task, "sites").GetOr(JNull))
  {
    var r := [("task_id", Lookup(task, "task_id").GetOr(JNull)),
              ("intent", Lookup(task, "intent").GetOr(JNull)),
              ("sites", Lookup(task, "sites").GetOr(JNull))];
    assert r[..2] == [r[0], r[1]] && r[..2][..1] == [r[0]];
    assert Keys(r) == {"task_id", "intent", "sites"} by {
      assert r[0].0 == "task_id" && r[1].0 == "intent" && r[2].0 == "sites";
      forall k | k in Keys(r) ensures k in {"task_id", "intent", "sites"} {
        var i :| 0 <= i < |r| && r[i].0 == k;
      }
    }
    r
  }

  function ProjectAll(tasks: seq<Fields>): (r: seq<Fields>)
    ensures |r| == |tasks|
    ensures forall i :: 0 <= i < |r| ==> r[i] == Project(tasks[i])
  {
    seq(|tasks|, i requires 0 <= i < |tasks| => Project(tasks[i]))
  }

  /**
   * `find_shopping_only_tasks`: the records of the shopping-only tasks in file order, or
   * none when the file could not be read.
   */
  function ShoppingOnlyTasks(file: Option<seq<Fields>>): (r: seq<Fields>)
    ensures file.None? ==> r == []
    ensures file.Some? ==> |r| <= |file.value|
    ensures forall i :: 0 <= i < |r| ==> Keys(r[i]) == {"task_id", "intent", "sites"}
    ensures forall i :: 0 <= i < |r| ==> Lookup(r[i], "sites") == Some(JList([JStr("shopping")]))
  {
    if file.None? then []
    else
      var kept := Filter(file.value, ShoppingOnly);
      FilterMembers(file.value, ShoppingOnly);
      ProjectAll(kept)
  }

  /** Every shopping-only task contributes its record. */
  lemma ShoppingSelected(tasks: seq<Fields>, i: nat)
    requires i < |tasks| && ShoppingOnly(tasks[i])
    ensures Project(tasks[i]) in ShoppingOnlyTasks(Some(tasks))
  {
    var kept := Filter(tasks, ShoppingOnly);
    FilterMembers(tasks, ShoppingOnly);
    var j :| 0 <= j < |kept| && kept[j] == tasks[i];
    assert ProjectAll(kept)[j] == Project(tasks[i]);
  }

  /** Every record is the record of a shopping-only task; with the lemma above, a task is selected exactly when it is shopping-only. */
  lemma ShoppingRecordOrigin(tasks: seq<Fields>, j: nat)
    requires j < |ShoppingOnlyTasks(Some(tasks))|
    ensures exists i :: 0 <= i < |tasks| && ShoppingOnly(tasks[i]) && ShoppingOnlyTasks(Some(tasks))[j] == Project(tasks[i])
  {
    var kept := Filter(tasks, ShoppingOnly);
    FilterMembers(tasks, ShoppingOnly);
    assert ShoppingOnlyTasks(Some(tasks))[j] == Project(kept[j]);
    assert kept[j] in tasks && ShoppingOnly(kept[j]);
    var i :| 0 <= i < |tasks| && tasks[i] == kept[j];
  }

  /** The task names printed by `main`: `webarena.{task_id}` for each record, in order. */
  function TaskNames(records: seq<Fields>): (r: seq<string>)
    ensures |r| == |records|
    ensures forall i :: 0 <= i < |r| ==> r[i] == "webarena." + Str(Lookup(records[i], "task_id").GetOr(JNull))
  {
    seq(|records|, i requires 0 <= i < |records| => "webarena." + Str(Lookup(records[i], "task_id").GetOr(JNull)))
  }

  /** Each name is built from the id of the shopping-only task it stands for (`None` when the task has none). */
  lemma TaskNameOfId(tasks: seq<Fields>, i: nat)
    requires i < |ShoppingOnlyTasks(Some(tasks))|
    ensures exists t :: (0 <= t < |tasks| && ShoppingOnly(tasks[t]) &&
                         TaskNames(ShoppingOnlyTasks(Some(tasks)))[i] == "webarena." + Str(Lookup(tasks[t], "task_id").GetOr(JNull)))
  {
    ShoppingRecordOrigin(tasks, i);
  }

  // ---------------------------------------------------------------------------------
  // Infeasible tasks

  /** `reference_answers == {"fuzzy_match": "N/A"}`: an object with that one key bound to that string. */
  predicate IsNotAvailableAnswer(answers: Json) {
    answers.JObj? && Keys(answers.fields) == {"fuzzy_match"} && Lookup(answers.fields, "fuzzy_match") == Some(JStr("N/A"))
  }

  /**
   * The reading of one task: `Ok(true)` when kept, `Ok(false)` when not, and an error
   * when `eval` is present but not an object, which `.get` cannot be called on.
   */
  function InfeasibleVerdict(task: Fields): (r: Result<bool>)
    ensures r.Err? <==> Lookup(task, "eval").Some? && !Lookup(task, "eval").value.JObj?
    ensures r == Ok(true) <==>
      Lookup(task, "eval").Some? && Lookup(task, "eval").value.JObj? &&
      Lookup(Lookup(task, "eval").value.fields, "reference_answers").Some? &&
      IsNotAvailableAnswer(Lookup(Lookup(task, "eval").value.fields, "reference_answers").value)
  {
    var evalInfo := Lookup(task, "eval").GetOr(JObj([]));
    if !evalInfo.JObj? then Err("eval is not an object")
    else
      var answers := Lookup(evalInfo.fields, "reference_answers");
      Ok(answers.Some? && IsNotAvailableAnswer(answers.value))
  }

  predicate Infeasible(task: Fields) {
    InfeasibleVerdict(task) == Ok(true)
  }

  /** The script's loop: the kept tasks in order, or the error of the first task it cannot read. */
  function FilterInfeasible(tasks: seq<Fields>): (r: Result<seq<Fields>>)
    ensures r.Ok? <==> forall i :: 0 <= i < |tasks| ==> InfeasibleVerdict(tasks[i]).Ok?
    ensures r.Ok? ==> r.value == Filter(tasks, Infeasible)
    decreases |tasks|
  {
    if |tasks| == 0 then Ok([])
    else
      var v := InfeasibleVerdict(tasks[0]);
      if v.Err? then Err(v.msg)
      else
        var rest := FilterInfeasible(tasks[1..]);
        assert forall i :: 1 <= i < |tasks| ==> tasks[i] == tasks[1..][i - 1];
        if rest.Err? then rest
        else Ok((if v.value then [tasks[0]] else []) + rest.value)
  }

  /**
   * The output holds the kept tasks unchanged and in input order, no more of them than
   * the input holds; a task without `eval` or without `reference_answers` is not kept.
   */
  lemma FilterInfeasibleKept(tasks: seq<Fields>)
    requires FilterInfeasible(tasks).Ok?
    ensures |FilterInfeasible(tasks).value| <= |tasks|
    ensures forall i :: 0 <= i < |tasks| && Infeasible(tasks[i]) ==> tasks[i] in FilterInfeasible(tasks).value
    ensures forall x :: x in FilterInfeasible(tasks).value ==> x in tasks && Infeasible(x)
    ensures forall i :: 0 <= i < |tasks| && Lookup(tasks[i], "eval").None? ==> !Infeasible(tasks[i])
  {
    FilterMembers(tasks, Infeasible);
    forall x | x in FilterInfeasible(tasks).value ensures x in tasks && Infeasible(x) {
      var j :| 0 <= j < |FilterInfeasible(tasks).value| && FilterInfeasible(tasks).value[j] == x;
    }
  }
}
