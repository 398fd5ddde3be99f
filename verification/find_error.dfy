/**
 * Environment-error analysis over recorded trajectories.
 *
 * A step is reported when the `last_action_error` of its observation is non-empty and is
 * not the ignorable 500 ms click timeout. Each report pairs the erroring step with the
 * action and thought of the step before it. Reported steps are collected per task name
 * into `error_transition_map`, and a task with an error may be copied, once, into a
 * curated directory.
 */
module FindError {
  import opened Wrappers
  import opened Strings
  import opened Sorting
  import opened JsonData
  import opened Trajectory

  /** The error text that is not worth reporting. */
  const ClickTimeout: string := "TimeoutError: Locator.click: Timeout 500ms exceeded."

  /** The observation key holding the error of the previous action. */
  const ErrorKey: string := "last_action_error"

  /**
   * `step_info.obs.get("last_action_error", "")`, or `None` when the step has no
   * observation dictionary (the call raises and the step is skipped).
   */
  function LastActionError(step: StepInfo): (r: Option<Json>)
    ensures r.None? <==> step.obs.None?
    ensures step.obs.Some? && ErrorKey !in Keys(step.obs.value) ==> r == Some(JStr(""))
    ensures step.obs.Some? && ErrorKey in Keys(step.obs.value) ==> r == Lookup(step.obs.value, ErrorKey)
  {
    if step.obs.None? then None
    else Some(Lookup(step.obs.value, ErrorKey).GetOr(JStr("")))
  }

  /**
   * Whether an error value is reported: it must not contain the click timeout (`in`) and
   * must be truthy. For a list `in` is membership and for an object it is a key test;
   * for any other non-string value `in` raises and the step is skipped.
   */
  predicate Reported(err: Json) {
    match err
    case JStr(s) => !Contains(s, ClickTimeout) && |s| > 0
    case JList(items) => JStr(ClickTimeout) !in items && |items| > 0
    case JObj(fields) => ClickTimeout !in Keys(fields) && |fields| > 0
    case _ => false
  }

  /** The error a step file reports, if any. */
  function ErrorOf(f: StepFile): (r: Option<Json>)
    ensures r.Some? ==> f.load.Info? && Reported(r.value) && LastActionError(f.load.info) == Some(r.value)
    ensures f.load.Info? && LastActionError(f.load.info).Some? && Reported(LastActionError(f.load.info).value) ==> r.Some?
    ensures !f.load.Info? ==> r.None?
  {
    if !f.load.Info? then None
    else
      var err := LastActionError(f.load.info);
      if err.Some? && Reported(err.value) then err else None
  }

  /**
   * For a loaded step whose error is a string: the step is reported exactly when the
   * string is non-empty and does not contain the click timeout. A step without the key
   * is never reported.
   */
  lemma StringErrorReported(f: StepFile, s: string)
    requires f.load.Info? && f.load.info.obs.Some?
    requires Lookup(f.load.info.obs.value, ErrorKey) == Some(JStr(s))
    ensures ErrorOf(f).Some? <==> |s| > 0 && !Contains(s, ClickTimeout)
    ensures ErrorOf(f).Some? ==> ErrorOf(f).value == JStr(s)
  {
  }

  lemma MissingErrorNotReported(f: StepFile)
    requires f.load.Info? && f.load.info.obs.Some? && ErrorKey !in Keys(f.load.info.obs.value)
    ensures ErrorOf(f).None?
  {
    assert !Reported(JStr(""));
  }

  /** One report: `previous_step_*` describe the step before `current_step`. */
  datatype ErrorEntry = ErrorEntry(
    task: string,
    currentStep: string,
    error: Json,
    prevAction: Json,
    prevThought: Json,
    curAction: Json,
    curThought: Json)

  /**
   * The action and thought of step `num - 1`: both `None` when `num` is 0, when that step
   * file is missing, fails to load, is not a `StepInfo`, or has no `action` (reading it
   * raises before the thought is read).
   */
  function Previous(all: Listing, num: nat): (r: (Json, Json))
    ensures num == 0 ==> r == (JNull, JNull)
    ensures (num > 0 && FindByNum(all, num - 1).Some? && FindByNum(all, num - 1).value.Info? &&
             FindByNum(all, num - 1).value.info.action.Some?) ==>
      r == (FindByNum(all, num - 1).value.info.action.value, Thought(FindByNum(all, num - 1).value.info))
  {
    if num == 0 then (JNull, JNull)
    else
      var prev := FindByNum(all, num - 1);
      if prev.Some? && prev.value.Info? && prev.value.info.action.Some? then
        (prev.value.info.action.value, Thought(prev.value.info))
      else (JNull, JNull)
  }

  /** Whatever `Previous` reports comes from a listed `StepInfo` numbered one lower that has an action. */
  lemma PreviousSource(all: Listing, num: nat)
    ensures var r := Previous(all, num);
      r != (JNull, JNull) ==>
        num > 0 && exists i :: (0 <= i < |all| && all[i].num == num - 1 && all[i].load.Info? &&
          all[i].load.info.action == Some(r.0) && r.1 == Thought(all[i].load.info))
    ensures num > 0 && (forall i :: 0 <= i < |all| ==> all[i].num != num - 1) ==> Previous(all, num) == (JNull, JNull)
  {
    if num > 0 {
      var prev := FindByNum(all, num - 1);
      if prev.Some? {
        var i :| 0 <= i < |all| && all[i] == StepFile(num - 1, prev.value);
      }
    }
  }

  /** The report for one step file, if it has a reportable error. */
  function EntryAt(name: string, all: Listing, f: StepFile): (r: Option<ErrorEntry>)
    ensures r.Some? <==> ErrorOf(f).Some?
    ensures r.Some? ==> r.value.task == name && r.value.currentStep == StepLabel(f.num) && r.value.error == ErrorOf(f).value
    ensures r.Some? ==> r.value.curAction == f.load.info.action.GetOr(JNull) && r.value.curThought == Thought(f.load.info)
    ensures r.Some? ==> (r.value.prevAction, r.value.prevThought) == Previous(all, f.num)
  {
    var err := ErrorOf(f);
    if err.None? then None
    else
      var prev := Previous(all, f.num);
      Some(ErrorEntry(name, StepLabel(f.num), err.value, prev.0, prev.1,
                      f.load.info.action.GetOr(JNull), Thought(f.load.info)))
  }

  /** The reports for the files of `part`, in order; `all` is the whole task directory. */
  function ErrorsIn(name: string, all: Listing, part: Listing): seq<ErrorEntry>
    decreases |part|
  {
    if |part| == 0 then []
    else ErrorsIn(name, all, part[..|part| - 1]) + OptSeq(EntryAt(name, all, part[|part| - 1]))
  }

  /** The numbers of the reported files of `part`, in order. */
  function ErrorNums(part: Listing): seq<nat>
    decreases |part|
  {
    if |part| == 0 then []
    else
      var last := part[|part| - 1];
      ErrorNums(part[..|part| - 1]) + (if ErrorOf(last).Some? then [last.num] else [])
  }

  /** The reports of one task directory, in step order. */
  function TaskErrors(task: TaskDir): seq<ErrorEntry> {
    var all := Ordered(task.files);
    ErrorsIn(task.name, all, all)
  }

  /** `task_has_error` */
  predicate HasError(task: TaskDir) {
    |TaskErrors(task)| > 0
  }

  /** The reports of `part` are, one for one, the reported step numbers, labelled `step_N`. */
  lemma {:induction false} ErrorsInNums(name: string, all: Listing, part: Listing)
    ensures |ErrorsIn(name, all, part)| == |ErrorNums(part)|
    ensures forall i :: 0 <= i < |ErrorNums(part)| ==>
      ErrorsIn(name, all, part)[i].task == name && ErrorsIn(name, all, part)[i].currentStep == StepLabel(ErrorNums(part)[i])
    decreases |part|
  {
    if |part| > 0 {
      ErrorsInNums(name, all, part[..|part| - 1]);
    }
  }

  /** A number is reported exactly when a file of `part` with that number has a reportable error. */
  lemma {:induction false} ErrorNumsMembers(part: Listing, n: nat)
    ensures n in ErrorNums(part) <==> exists j :: 0 <= j < |part| && part[j].num == n && ErrorOf(part[j]).Some?
    decreases |part|
  {
    if |part| > 0 {
      var init := part[..|part| - 1];
      ErrorNumsMembers(init, n);
      assert forall j :: 0 <= j < |init| ==> init[j] == part[j];
    }
  }

  predicate Ascending(s: seq<nat>) {
    forall i, j :: 0 <= i < j < |s| ==> s[i] <= s[j]
  }

  /** Over files in step order, the reported step numbers come out in ascending order. */
  lemma {:induction false} ErrorNumsAscending(part: Listing)
    requires SortedBy(part, NumKey)
    ensures Ascending(ErrorNums(part))
    decreases |part|
  {
    if |part| > 0 {
      var init := part[..|part| - 1];
      var last := part[|part| - 1];
      assert SortedBy(init, NumKey) by {
        forall i, j | 0 <= i < j < |init| ensures NumKey(init[i]) <= NumKey(init[j]) {
          assert init[i] == part[i] && init[j] == part[j];
        }
      }
      ErrorNumsAscending(init);
      var ns := ErrorNums(init);
      forall i | 0 <= i < |ns| ensures ns[i] <= last.num {
        ErrorNumsMembers(init, ns[i]);
        var j :| 0 <= j < |init| && init[j].num == ns[i] && ErrorOf(init[j]).Some?;
        assert NumKey(part[j]) <= NumKey(part[|part| - 1]);
      }
    }
  }

  /** A task directory's reports name its erroring steps in ascending step order. */
  lemma TaskErrorsOrdered(task: TaskDir)
    ensures var es := TaskErrors(task);
      var ns := ErrorNums(Ordered(task.files));
      && |es| == |ns|
      && Ascending(ns)
      && (forall i :: 0 <= i < |es| ==> es[i].task == task.name && es[i].currentStep == StepLabel(ns[i]))
  {
    var all := Ordered(task.files);
    ErrorsInNums(task.name, all, all);
    ErrorNumsAscending(all);
  }

  // ---------------------------------------------------------------------------
  // error_transition_map

  /** A dictionary from task name to a list, in insertion order. */
  type ListMap<V> = seq<(string, seq<V>)>

  ghost predicate DistinctNames<V>(m: ListMap<V>) {
    forall i, j :: 0 <= i < j < |m| ==> m[i].0 != m[j].0
  }

  /** The position of `name` in `m`, or `|m|` when it is absent. */
  function Find<V>(m: ListMap<V>, name: string): (r: nat)
    ensures r <= |m|
    ensures r < |m| ==> m[r].0 == name
    ensures forall i :: 0 <= i < r ==> m[i].0 != name
    decreases |m|
  {
    if |m| == 0 then 0
    else if m[0].0 == name then 0
    else 1 + Find(m[1..], name)
  }

  /** `m.get(name, [])` */
  function Get<V>(m: ListMap<V>, name: string): seq<V> {
    var i := Find(m, name);
    if i < |m| then m[i].1 else []
  }

  /** `if name not in m: m[name] = []` followed by `m[name].append(v)`. */
  function Append<V>(m: ListMap<V>, name: string, v: V): (r: ListMap<V>)
    ensures Find(m, name) < |m| ==> |r| == |m|
    ensures Find(m, name) == |m| ==> r == m + [(name, [v])]
  {
    var i := Find(m, name);
    if i < |m| then m[i := (name, m[i].1 + [v])] else m + [(name, [v])]
  }

  /** The map built by appending `v` under `name` for each `(name, v)` in order. */
  function MapOf<V>(hits: seq<(string, V)>): ListMap<V>
    decreases |hits|
  {
    if |hits| == 0 then []
    else
      var last := hits[|hits| - 1];
      Append(MapOf(hits[..|hits| - 1]), last.0, last.1)
  }

  /** The values appended under `name`, in order. */
  function ValuesFor<V>(hits: seq<(string, V)>, name: string): seq<V>
    decreases |hits|
  {
    if |hits| == 0 then []
    else
      var last := hits[|hits| - 1];
      ValuesFor(hits[..|hits| - 1], name) + (if last.0 == name then [last.1] else [])
  }

  /** The sum of the lengths of the lists. */
  function TotalLength<V>(m: ListMap<V>): nat
    decreases |m|
  {
    if |m| == 0 then 0 else TotalLength(m[..|m| - 1]) + |m[|m| - 1].1|
  }

  lemma {:induction false} TotalLengthAppend<V>(a: ListMap<V>, b: ListMap<V>)
    ensures TotalLength(a + b) == TotalLength(a) + TotalLength(b)
    decreases |b|
  {
    if |b| == 0 {
      assert a + b == a;
    } else {
      assert (a + b)[..|a + b| - 1] == a + b[..|b| - 1];
      TotalLengthAppend(a, b[..|b| - 1]);
    }
  }

  lemma TotalLengthUpdate<V>(m: ListMap<V>, i: nat, name: string, v: V)
    requires i < |m|
    ensures TotalLength(m[i := (name, m[i].1 + [v])]) == TotalLength(m) + 1
  {
    var m' := m[i := (name, m[i].1 + [v])];
    assert m == m[..i] + [m[i]] + m[i + 1..];
    assert m' == m[..i] + [(name, m[i].1 + [v])] + m[i + 1..];
    TotalLengthAppend(m[..i] + [m[i]], m[i + 1..]);
    TotalLengthAppend(m[..i], [m[i]]);
    TotalLengthAppend(m[..i] + [(name, m[i].1 + [v])], m[i + 1..]);
    TotalLengthAppend(m[..i], [(name, m[i].1 + [v])]);
    assert [m[i]][..0] == [];
    assert [(name, m[i].1 + [v])][..0] == [];
  }

  /** Every appended value lands in exactly one list: the lengths add up to the number of appends. */
  lemma {:induction false} MapOfTotal<V>(hits: seq<(string, V)>)
    ensures TotalLength(MapOf(hits)) == |hits|
    decreases |hits|
  {
    if |hits| > 0 {
      var prev := MapOf(hits[..|hits| - 1]);
      var last := hits[|hits| - 1];
      MapOfTotal(hits[..|hits| - 1]);
      var i := Find(prev, last.0);
      if i < |prev| {
        TotalLengthUpdate(prev, i, last.0, last.1);
      } else {
        TotalLengthAppend(prev, [(last.0, [last.1])]);
        assert [(last.0, [last.1])][..0] == [];
      }
    }
  }

  /** `Find` only looks at names. */
  lemma {:induction false} FindSameNames<V>(a: ListMap<V>, b: ListMap<V>, name: string)
    requires |a| == |b| && forall i :: 0 <= i < |a| ==> a[i].0 == b[i].0
    ensures Find(a, name) == Find(b, name)
    decreases |a|
  {
    if |a| > 0 && a[0].0 != name {
      FindSameNames(a[1..], b[1..], name);
    }
  }

  lemma {:induction false} FindAppended<V>(m: ListMap<V>, n: string, vs: seq<V>, name: string)
    requires Find(m, n) == |m|
    ensures var m' := m + [(n, vs)];
      Find(m', name) == if name == n then |m| else if Find(m, name) < |m| then Find(m, name) else |m'|
    decreases |m|
  {
    var m' := m + [(n, vs)];
    if |m| > 0 && m[0].0 != name {
      assert m'[1..] == m[1..] + [(n, vs)];
      FindAppended(m[1..], n, vs, name);
    }
  }

  /** Appending keeps every other name where it was, and adds `n` at the end when it is new. */
  lemma AppendFind<V>(m: ListMap<V>, n: string, v: V, name: string)
    ensures var r := Append(m, n, v);
      if Find(m, name) < |m| then Find(r, name) == Find(m, name)
      else if name == n then Find(r, name) == |m| < |r|
      else Find(r, name) == |r|
  {
    var i := Find(m, n);
    if i < |m| {
      FindSameNames(m, m[i := (n, m[i].1 + [v])], name);
    } else {
      FindAppended(m, n, [v], name);
    }
  }

  /** Appending `v` under `n` extends the list of `n` by `v` and leaves every other list alone. */
  lemma AppendGet<V>(m: ListMap<V>, n: string, v: V, name: string)
    requires DistinctNames(m)
    ensures DistinctNames(Append(m, n, v))
    ensures Get(Append(m, n, v), name) == Get(m, name) + (if name == n then [v] else [])
  {
    AppendFind(m, n, v, name);
    var r := Append(m, n, v);
    var i := Find(m, n);
    if i < |m| {
      assert r == m[i := (n, m[i].1 + [v])];
      forall a, b | 0 <= a < b < |r| ensures r[a].0 != r[b].0 {
        assert r[a].0 == m[a].0 && r[b].0 == m[b].0;
      }
      if name == n {
        assert Find(m, name) == i;
      } else if Find(m, name) < |m| {
        assert Find(m, name) != i;
      }
    } else {
      assert r == m + [(n, [v])];
      forall a, b | 0 <= a < b < |r| ensures r[a].0 != r[b].0 {
        if b == |m| { assert r[a] == m[a]; } else { assert r[a] == m[a] && r[b] == m[b]; }
      }
      if Find(m, name) < |m| {
        assert r[Find(m, name)] == m[Find(m, name)];
      }
    }
  }

  /** The map has each name once, and the list of a name holds the values appended under it, in order. */
  lemma {:induction false} MapOfGet<V>(hits: seq<(string, V)>, name: string)
    ensures DistinctNames(MapOf(hits))
    ensures Get(MapOf(hits), name) == ValuesFor(hits, name)
    decreases |hits|
  {
    if |hits| > 0 {
      var last := hits[|hits| - 1];
      MapOfGet(hits[..|hits| - 1], name);
      AppendGet(MapOf(hits[..|hits| - 1]), last.0, last.1, name);
    }
  }

  /** A name is a key exactly when something was appended under it. */
  lemma {:induction false} MapOfKeys<V>(hits: seq<(string, V)>, name: string)
    ensures Find(MapOf(hits), name) < |MapOf(hits)| <==> exists i :: 0 <= i < |hits| && hits[i].0 == name
    decreases |hits|
  {
    if |hits| > 0 {
      var init := hits[..|hits| - 1];
      var last := hits[|hits| - 1];
      MapOfKeys(init, name);
      AppendFind(MapOf(init), last.0, last.1, name);
      if exists i :: 0 <= i < |hits| && hits[i].0 == name {
        var i :| 0 <= i < |hits| && hits[i].0 == name;
        if i < |init| { assert init[i] == hits[i]; }
      }
      if exists i :: 0 <= i < |init| && init[i].0 == name {
        var i :| 0 <= i < |init| && init[i].0 == name;
        assert hits[i] == init[i];
      }
    }
  }

  // ---------------------------------------------------------------------------
  // The whole run

  /** The `(task name, step number)` pair of each report of a task directory, in order. */
  function TaskHits(task: TaskDir): (r: seq<(string, nat)>)
    ensures |r| == |ErrorNums(Ordered(task.files))|
    ensures forall i :: 0 <= i < |r| ==> r[i] == (task.name, ErrorNums(Ordered(task.files))[i])
  {
    var ns := ErrorNums(Ordered(task.files));
    seq(|ns|, i requires 0 <= i < |ns| => (task.name, ns[i]))
  }

  function AllHits(tasks: seq<TaskDir>): seq<(string, nat)>
    decreases |tasks|
  {
    if |tasks| == 0 then [] else AllHits(tasks[..|tasks| - 1]) + TaskHits(tasks[|tasks| - 1])
  }

  /** All reports, task directory by task directory. */
  function AllErrors(tasks: seq<TaskDir>): seq<ErrorEntry>
    decreases |tasks|
  {
    if |tasks| == 0 then [] else AllErrors(tasks[..|tasks| - 1]) + TaskErrors(tasks[|tasks| - 1])
  }

  /** `step_N` for each number. */
  function Labelled(hits: seq<(string, nat)>): (r: seq<(string, string)>)
    ensures |r| == |hits|
    ensures forall i :: 0 <= i < |hits| ==> r[i] == (hits[i].0, StepLabel(hits[i].1))
  {
    seq(|hits|, i requires 0 <= i < |hits| => (hits[i].0, StepLabel(hits[i].1)))
  }

  /** The `(task_name, current_step)` pair of each report, in order. */
  function Pairs(rs: seq<ErrorEntry>): seq<(string, string)> {
    seq(|rs|, i requires 0 <= i < |rs| => (rs[i].task, rs[i].currentStep))
  }

  /** One more report adds its pair to the map. */
  lemma MapOfSnoc(rs: seq<ErrorEntry>, e: ErrorEntry)
    ensures MapOf(Pairs(rs + [e])) == Append(MapOf(Pairs(rs)), e.task, e.currentStep)
  {
    var ps := Pairs(rs + [e]);
    assert ps[..|ps| - 1] == Pairs(rs);
  }

  /** `error_transition_map` as the code builds it: the `step_N` label of each report, under its task name. */
  function ErrorMapOf(tasks: seq<TaskDir>): ListMap<string> {
    MapOf(Pairs(AllErrors(tasks)))
  }

  lemma {:induction false} AllErrorsHits(tasks: seq<TaskDir>)
    ensures |AllErrors(tasks)| == |AllHits(tasks)|
    ensures forall i :: 0 <= i < |AllHits(tasks)| ==>
      AllErrors(tasks)[i].task == AllHits(tasks)[i].0 &&
      AllErrors(tasks)[i].currentStep == StepLabel(AllHits(tasks)[i].1)
    decreases |tasks|
  {
    if |tasks| > 0 {
      var last := tasks[|tasks| - 1];
      AllErrorsHits(tasks[..|tasks| - 1]);
      var all := Ordered(last.files);
      ErrorsInNums(last.name, all, all);
    }
  }

  /** The pairs of the reports are the labelled hits. */
  lemma PairsAreLabelledHits(tasks: seq<TaskDir>)
    ensures Pairs(AllErrors(tasks)) == Labelled(AllHits(tasks))
  {
    AllErrorsHits(tasks);
    var rs := AllErrors(tasks);
    assert Pairs(rs) == Labelled(AllHits(tasks));
  }

  /**
   * `error_transition_map[name]` lists `current_step` of every report of a task called
   * `name`, in report order; a name is a key exactly when it has a report; and the list
   * lengths add up to the number of reports.
   */
  lemma ErrorMapMeaning(tasks: seq<TaskDir>, name: string)
    ensures var m := ErrorMapOf(tasks);
      var rs := AllErrors(tasks);
      && DistinctNames(m)
      && (Find(m, name) < |m| <==> exists i :: 0 <= i < |rs| && rs[i].task == name)
      && Get(m, name) == ValuesFor(Pairs(rs), name)
      && TotalLength(m) == |rs|
  {
    PairsMapMeaning(AllErrors(tasks), name);
  }

  /** The map built from any sequence of reports, as stated above. */
  lemma PairsMapMeaning(rs: seq<ErrorEntry>, name: string)
    ensures var m := MapOf(Pairs(rs));
      && DistinctNames(m)
      && (Find(m, name) < |m| <==> exists i :: 0 <= i < |rs| && rs[i].task == name)
      && Get(m, name) == ValuesFor(Pairs(rs), name)
      && TotalLength(m) == |rs|
  {
    var ps := Pairs(rs);
    MapOfGet(ps, name);
    MapOfKeys(ps, name);
    MapOfTotal(ps);
    if exists i :: 0 <= i < |ps| && ps[i].0 == name {
      var i :| 0 <= i < |ps| && ps[i].0 == name;
      assert rs[i].task == name;
    }
    if exists i :: 0 <= i < |rs| && rs[i].task == name {
      var i :| 0 <= i < |rs| && rs[i].task == name;
      assert ps[i].0 == name;
    }
  }

  /** The reports of a task directory are labelled with its erroring steps, in ascending order. */
  lemma ErrorMapTask(tasks: seq<TaskDir>, name: string)
    ensures ValuesFor(Pairs(AllErrors(tasks)), name) == LabelsOf(ValuesFor(AllHits(tasks), name))
  {
    PairsAreLabelledHits(tasks);
    ValuesForLabelled(AllHits(tasks), name);
  }

  /** `step_N` for each step number. */
  function LabelsOf(ns: seq<nat>): (r: seq<string>)
    ensures |r| == |ns|
    ensures forall i :: 0 <= i < |ns| ==> r[i] == StepLabel(ns[i])
  {
    seq(|ns|, i requires 0 <= i < |ns| => StepLabel(ns[i]))
  }

  lemma {:induction false} ValuesForLabelled(hits: seq<(string, nat)>, name: string)
    ensures ValuesFor(Labelled(hits), name) == LabelsOf(ValuesFor(hits, name))
    decreases |hits|
  {
    if |hits| > 0 {
      var init := hits[..|hits| - 1];
      ValuesForLabelled(init, name);
      var l := Labelled(hits);
      assert l[..|l| - 1] == Labelled(init);
    }
  }

  // ---------------------------------------------------------------------------
  // Copy-once sink

  /**
   * The copy bookkeeping: existing paths, `moved_tasks`, the names copied so far, in order,
   * and the names whose copy failed part-way, leaving their target directory behind.
   */
  datatype Sink = Sink(existing: set<string>, moved: set<string>, copied: seq<string>, left: seq<string>)

  /**
   * What `shutil.copytree` does: it copies the whole tree, or it fails before it creates
   * the target, or it fails after creating the target, which then stays behind.
   */
  datatype CopyOutcome = Copied | FailedBeforeTarget | FailedAfterTarget

  /** Whether `moveTo/name` may be copied to: an erroring task, a destination, a name not yet moved and a free target. */
  predicate CopyEligible(s: Sink, moveTo: string, name: string, hasError: bool) {
    hasError && |moveTo| > 0 && name !in s.moved && PathJoin(moveTo, name) !in s.existing
  }

  /**
   * The copy decision for one task: a task with an error is copied to `moveTo/name` when a
   * destination is given, the name is not in `moved_tasks` and the target does not exist.
   * `ok` is the outcome of `copytree`. A successful copy records the name in `moved_tasks`.
   * A failure records nothing in `moved_tasks`, but a failure after the target was created
   * leaves that target in place.
   */
  function CopyTask(s: Sink, moveTo: string, name: string, hasError: bool, ok: CopyOutcome): (r: Sink)
    ensures !CopyEligible(s, moveTo, name, hasError) || ok.FailedBeforeTarget? ==> r == s
    ensures CopyEligible(s, moveTo, name, hasError) && ok.Copied? ==>
      r == Sink(s.existing + {PathJoin(moveTo, name)}, s.moved + {name}, s.copied + [name], s.left)
    ensures CopyEligible(s, moveTo, name, hasError) && ok.FailedAfterTarget? ==>
      r == Sink(s.existing + {PathJoin(moveTo, name)}, s.moved, s.copied, s.left + [name])
  {
    var target := PathJoin(moveTo, name);
    if !CopyEligible(s, moveTo, name, hasError) then s
    else
      match ok
      case Copied => Sink(s.existing + {target}, s.moved + {name}, s.copied + [name], s.left)
      case FailedBeforeTarget => s
      case FailedAfterTarget => Sink(s.existing + {target}, s.moved, s.copied, s.left + [name])
  }

  /**
   * A copy that fails after creating its target blocks every later copy under that name:
   * the target exists, so a later task with the same name, erroring or not, is not copied.
   */
  lemma PartialCopyBlocks(s: Sink, moveTo: string, name: string, hasError: bool, later: bool, ok: CopyOutcome)
    requires CopyEligible(s, moveTo, name, hasError)
    ensures var r := CopyTask(s, moveTo, name, hasError, FailedAfterTarget);
      name !in r.moved && CopyTask(r, moveTo, name, later, ok) == r
  {
  }

  /** One copy decision to make: the task name, whether the task had an error, and what `copytree` does. */
  datatype CopyJob = CopyJob(name: string, hasError: bool, ok: CopyOutcome)

  /** The copy jobs of the task directories; `ok[t]` is the outcome of copying task `t`. */
  function Jobs(tasks: seq<TaskDir>, ok: seq<CopyOutcome>): seq<CopyJob>
    requires |ok| == |tasks|
  {
    seq(|tasks|, t requires 0 <= t < |tasks| => CopyJob(tasks[t].name, HasError(tasks[t]), ok[t]))
  }

  /** The sink after the copy jobs in order. */
  function SinkAfter(jobs: seq<CopyJob>, moveTo: string, s0: Sink): Sink
    decreases |jobs|
  {
    if |jobs| == 0 then s0
    else
      var j := jobs[|jobs| - 1];
      CopyTask(SinkAfter(jobs[..|jobs| - 1], moveTo, s0), moveTo, j.name, j.hasError, j.ok)
  }

  /** The names in `copied`. */
  function NameSet(copied: seq<string>): set<string>
    decreases |copied|
  {
    if |copied| == 0 then {} else NameSet(copied[..|copied| - 1]) + {copied[|copied| - 1]}
  }

  /** The copy targets of the names in `copied`. */
  function TargetSet(moveTo: string, copied: seq<string>): set<string>
    decreases |copied|
  {
    if |copied| == 0 then {} else TargetSet(moveTo, copied[..|copied| - 1]) + {PathJoin(moveTo, copied[|copied| - 1])}
  }

  lemma {:induction false} NameSetMembers(copied: seq<string>, x: string)
    ensures x in NameSet(copied) <==> x in copied
    decreases |copied|
  {
    if |copied| > 0 {
      NameSetMembers(copied[..|copied| - 1], x);
      assert copied == copied[..|copied| - 1] + [copied[|copied| - 1]];
    }
  }

  /**
   * The sink's bookkeeping is consistent with the names it copied, and no copied name was
   * moved before, landed on a path that existed before, or was copied twice.
   */
  ghost predicate SinkSafe(s0: Sink, moveTo: string, s: Sink) {
    && s.moved == s0.moved + NameSet(s.copied)
    && s.existing == s0.existing + TargetSet(moveTo, s.copied) + TargetSet(moveTo, s.left)
    && (forall i :: 0 <= i < |s.copied| ==> PathJoin(moveTo, s.copied[i]) !in s0.existing && s.copied[i] !in s0.moved)
    && (forall i, j :: 0 <= i < j < |s.copied| ==> s.copied[i] != s.copied[j])
  }

  /** One copy decision keeps the sink safe. */
  lemma CopyTaskSafe(s0: Sink, moveTo: string, s: Sink, name: string, hasError: bool, ok: CopyOutcome)
    requires SinkSafe(s0, moveTo, s)
    ensures SinkSafe(s0, moveTo, CopyTask(s, moveTo, name, hasError, ok))
  {
    if CopyEligible(s, moveTo, name, hasError) && ok.Copied? {
      CopiedSafe(s0, moveTo, s, name);
    } else if CopyEligible(s, moveTo, name, hasError) && ok.FailedAfterTarget? {
      var r := CopyTask(s, moveTo, name, hasError, ok);
      assert r.left[..|r.left| - 1] == s.left && r.left[|r.left| - 1] == name;
      assert TargetSet(moveTo, r.left) == TargetSet(moveTo, s.left) + {PathJoin(moveTo, name)};
    }
  }

  /** A successful copy of an eligible task keeps the sink safe. */
  lemma CopiedSafe(s0: Sink, moveTo: string, s: Sink, name: string)
    requires SinkSafe(s0, moveTo, s)
    requires name !in s.moved && PathJoin(moveTo, name) !in s.existing
    ensures SinkSafe(s0, moveTo, Sink(s.existing + {PathJoin(moveTo, name)}, s.moved + {name}, s.copied + [name], s.left))
  {
    var copied := s.copied + [name];
    assert copied[..|copied| - 1] == s.copied && copied[|copied| - 1] == name;
    NameSetMembers(s.copied, name);
    assert NameSet(copied) == NameSet(s.copied) + {name};
    assert TargetSet(moveTo, copied) == TargetSet(moveTo, s.copied) + {PathJoin(moveTo, name)};
    forall i | 0 <= i < |s.copied| ensures s.copied[i] != name {
      assert s.copied[i] in s.copied;
    }
  }

  /**
   * Over a run that starts with nothing moved: no copy lands on a path that existed
   * before the run, and no name is copied twice.
   */
  lemma {:induction false} CopyOnce(jobs: seq<CopyJob>, moveTo: string, s0: Sink)
    requires s0.copied == [] && s0.left == []
    ensures SinkSafe(s0, moveTo, SinkAfter(jobs, moveTo, s0))
    decreases |jobs|
  {
    if |jobs| > 0 {
      var j := jobs[|jobs| - 1];
      CopyOnce(jobs[..|jobs| - 1], moveTo, s0);
      CopyTaskSafe(s0, moveTo, SinkAfter(jobs[..|jobs| - 1], moveTo, s0), j.name, j.hasError, j.ok);
    } else {
      assert NameSet(s0.copied) == {} && TargetSet(moveTo, s0.copied) == {} && TargetSet(moveTo, s0.left) == {};
    }
  }

  /** Every copied name belongs to a job whose task had an error and whose copy succeeded. */
  lemma {:induction false} CopiedHadError(jobs: seq<CopyJob>, moveTo: string, s0: Sink)
    requires s0.copied == []
    ensures forall i :: 0 <= i < |SinkAfter(jobs, moveTo, s0).copied| ==>
      exists t :: 0 <= t < |jobs| && jobs[t].name == SinkAfter(jobs, moveTo, s0).copied[i] && jobs[t].hasError && jobs[t].ok.Copied?
    decreases |jobs|
  {
    if |jobs| > 0 {
      var n := |jobs| - 1;
      var init := jobs[..n];
      var p := SinkAfter(init, moveTo, s0);
      CopiedHadError(init, moveTo, s0);
      var s := SinkAfter(jobs, moveTo, s0);
      forall i | 0 <= i < |s.copied|
        ensures exists t :: 0 <= t < |jobs| && jobs[t].name == s.copied[i] && jobs[t].hasError && jobs[t].ok.Copied?
      {
        if i < |p.copied| {
          assert s.copied[i] == p.copied[i];
          var t :| 0 <= t < |init| && init[t].name == p.copied[i] && init[t].hasError && init[t].ok.Copied?;
          assert jobs[t] == init[t];
        } else {
          assert jobs[n].name == s.copied[i] && jobs[n].hasError && jobs[n].ok.Copied?;
        }
      }
      assert s == SinkAfter(jobs, moveTo, s0);
      assert forall i :: 0 <= i < |SinkAfter(jobs, moveTo, s0).copied| ==>
        exists t :: 0 <= t < |jobs| && jobs[t].name == SinkAfter(jobs, moveTo, s0).copied[i] && jobs[t].hasError && jobs[t].ok.Copied?;
    } else {
      assert SinkAfter(jobs, moveTo, s0) == s0;
    }
  }

  /**
   * In terms of task directories: every copied name is the name of a task directory that
   * had an error and whose copy succeeded, no copy lands on a path that existed before the
   * run, and no name is copied twice.
   */
  lemma CopyOnceTasks(tasks: seq<TaskDir>, moveTo: string, existing: set<string>, ok: seq<CopyOutcome>)
    requires |ok| == |tasks|
    ensures var s := SinkAfter(Jobs(tasks, ok), moveTo, Sink(existing, {}, [], []));
      && (forall i :: 0 <= i < |s.copied| ==> PathJoin(moveTo, s.copied[i]) !in existing)
      && (forall i, j :: 0 <= i < j < |s.copied| ==> s.copied[i] != s.copied[j])
      && (forall i :: 0 <= i < |s.copied| ==>
            exists t :: 0 <= t < |tasks| && tasks[t].name == s.copied[i] && HasError(tasks[t]) && ok[t].Copied?)
  {
    var s0 := Sink(existing, {}, [], []);
    CopyOnce(Jobs(tasks, ok), moveTo, s0);
    var s := SinkAfter(Jobs(tasks, ok), moveTo, s0);
    forall i | 0 <= i < |s.copied|
      ensures exists t :: 0 <= t < |tasks| && tasks[t].name == s.copied[i] && HasError(tasks[t]) && ok[t].Copied?
    {
      CopiedFromTasks(tasks, moveTo, s0, ok, i);
    }
  }

  /** A copied name is that of a task directory that had an error and whose copy succeeded. */
  lemma CopiedFromTasks(tasks: seq<TaskDir>, moveTo: string, s0: Sink, ok: seq<CopyOutcome>, i: nat)
    requires |ok| == |tasks| && s0.copied == []
    requires i < |SinkAfter(Jobs(tasks, ok), moveTo, s0).copied|
    ensures exists t ::
      0 <= t < |tasks| && tasks[t].name == SinkAfter(Jobs(tasks, ok), moveTo, s0).copied[i] && HasError(tasks[t]) && ok[t].Copied?
  {
    var jobs := Jobs(tasks, ok);
    CopiedHadError(jobs, moveTo, s0);
    var name := SinkAfter(jobs, moveTo, s0).copied[i];
    assert exists t :: 0 <= t < |jobs| && jobs[t].name == name && jobs[t].hasError && jobs[t].ok.Copied?;
    var t :| 0 <= t < |jobs| && jobs[t].name == name && jobs[t].hasError && jobs[t].ok.Copied?;
    assert tasks[t].name == name && HasError(tasks[t]) && ok[t].Copied?;
  }

  /**
   * `find_env_errors`: the reports of every task directory in order, `error_transition_map`,
   * and the copy bookkeeping. `ok[t]` stands for the outcome of copying task directory `t`.
   */
  method FindEnvErrors(tasks: seq<TaskDir>, moveTo: string, existing: set<string>, ok: seq<CopyOutcome>)
    returns (results: seq<ErrorEntry>, errorMap: ListMap<string>, sink: Sink)
    requires |ok| == |tasks|
    ensures results == AllErrors(tasks)
    ensures errorMap == ErrorMapOf(tasks)
    ensures sink == SinkAfter(Jobs(tasks, ok), moveTo, Sink(existing, {}, [], []))
  {
    ghost var jobs := Jobs(tasks, ok);
    var s0 := Sink(existing, {}, [], []);
    results := [];
    errorMap := [];
    sink := s0;
    var t := 0;
    while t < |tasks|
      invariant 0 <= t <= |tasks|
      invariant results == AllErrors(tasks[..t])
      invariant errorMap == MapOf(Pairs(results))
      invariant sink == SinkAfter(jobs[..t], moveTo, s0)
    {
      var task := tasks[t];
      RunStep(tasks, t);
      SinkStep(jobs, t, moveTo, s0);
      var all := Ordered(task.files);
      var hasError;
      results, errorMap, hasError := ScanTask(task.name, all, results, errorMap);
      sink := CopyTask(sink, moveTo, task.name, hasError, ok[t]);
      t := t + 1;
    }
    TakeAll(tasks);
    TakeAll(jobs);
  }

  /** One more task directory appends its reports. */
  lemma RunStep(tasks: seq<TaskDir>, t: nat)
    requires t < |tasks|
    ensures AllErrors(tasks[..t + 1]) == AllErrors(tasks[..t]) + TaskErrors(tasks[t])
  {
    assert tasks[..t + 1][..t] == tasks[..t] && tasks[..t + 1][t] == tasks[t];
  }

  /** One more copy job makes its copy decision on the sink the earlier jobs left. */
  lemma SinkStep(jobs: seq<CopyJob>, t: nat, moveTo: string, s0: Sink)
    requires t < |jobs|
    ensures SinkAfter(jobs[..t + 1], moveTo, s0) ==
      CopyTask(SinkAfter(jobs[..t], moveTo, s0), moveTo, jobs[t].name, jobs[t].hasError, jobs[t].ok)
  {
    assert jobs[..t + 1][..t] == jobs[..t] && jobs[..t + 1][t] == jobs[t];
  }

  /** The scan of one task directory's sorted step files: append its reports and record them in the map. */
  method ScanTask(name: string, all: Listing, results0: seq<ErrorEntry>, map0: ListMap<string>)
    returns (results: seq<ErrorEntry>, errorMap: ListMap<string>, hasError: bool)
    requires map0 == MapOf(Pairs(results0))
    ensures results == results0 + ErrorsIn(name, all, all)
    ensures errorMap == MapOf(Pairs(results))
    ensures hasError <==> |ErrorsIn(name, all, all)| > 0
  {
    results, errorMap, hasError := results0, map0, false;
    var j := 0;
    ScanNothing(name, all, results0);
    while j < |all|
      invariant 0 <= j <= |all|
      invariant results == results0 + ErrorsIn(name, all, all[..j])
      invariant errorMap == MapOf(Pairs(results))
      invariant hasError <==> |results| > |results0|
    {
      var entry := EntryAt(name, all, all[j]);
      ScanStep(name, all, j, results0, results);
      if entry.Some? {
        hasError := true;
        var e := entry.value;
        MapOfSnoc(results, e);
        errorMap := Append(errorMap, e.task, e.currentStep);
        results := results + [e];
      }
      j := j + 1;
    }
    TakeAll(all);
  }

  lemma ScanNothing(name: string, all: Listing, results0: seq<ErrorEntry>)
    ensures results0 + ErrorsIn(name, all, all[..0]) == results0
  {
    assert results0 + [] == results0;
  }

  /** One more step file appends its report, if it has one, to what the earlier files reported. */
  lemma ScanStep(name: string, all: Listing, j: nat, results0: seq<ErrorEntry>, results: seq<ErrorEntry>)
    requires j < |all| && results == results0 + ErrorsIn(name, all, all[..j])
    ensures var entry := EntryAt(name, all, all[j]);
      (if entry.Some? then results + [entry.value] else results) == results0 + ErrorsIn(name, all, all[..j + 1])
  {
    var part := all[..j + 1];
    assert part[..j] == all[..j] && part[j] == all[j];
    var entry := EntryAt(name, all, all[j]);
    AppendAfter(results, results0, ErrorsIn(name, all, all[..j]), OptSeq(entry));
    if entry.None? {
      assert results + [] == results;
    }
  }
}
