/**
 * The error-transition map on its way from the scanner that builds it to the two scripts
 * that read it back. The scanner saves, under each task name, the `step_N` labels of the
 * task's erroring steps; both readers expect step numbers. The labels saved as written,
 * and what each reader then does with them, are stated next to a map of numbers, which
 * the readers consume as intended.
 */
module ErrorMapHandoff {
  import opened Wrappers
  import opened JsonData
  import opened Sorting
  import opened Trajectory
  import FindError
  import CopiedObservation
  import GenerateErrorInfo

  function StrValue(s: string): Json {
    JStr(s)
  }

  function IntValue(n: nat): Json {
    JInt(n)
  }

  function EncodeAll<V>(vs: seq<V>, enc: V -> Json): (r: seq<Json>)
    ensures |r| == |vs|
    ensures forall i :: 0 <= i < |vs| ==> r[i] == enc(vs[i])
  {
    seq(|vs|, i requires 0 <= i < |vs| => enc(vs[i]))
  }

  /** `json.dump` of a dictionary of lists, as `json.load` reads it back: one field per name, in insertion order. */
  function MapJson<V>(m: FindError.ListMap<V>, enc: V -> Json): (r: Fields)
    ensures |r| == |m|
    ensures forall i :: 0 <= i < |m| ==> r[i] == (m[i].0, JList(EncodeAll(m[i].1, enc)))
  {
    seq(|m|, i requires 0 <= i < |m| => (m[i].0, JList(EncodeAll(m[i].1, enc))))
  }

  /** Read back, a key's field is its encoded list, and a name that is not a key has no field. */
  lemma MapJsonLookup<V>(m: FindError.ListMap<V>, enc: V -> Json, name: string)
    requires FindError.DistinctNames(m)
    ensures Lookup(MapJson(m, enc), name) ==
      if FindError.Find(m, name) < |m| then Some(JList(EncodeAll(FindError.Get(m, name), enc))) else None
  {
    var r := MapJson(m, enc);
    var f := FindError.Find(m, name);
    if f < |m| {
      assert r[f].0 == name;
      assert name in Keys(r);
      var l := Lookup(r, name);
      var i :| 0 <= i < |r| && r[i] == (name, l.value);
      assert m[i].0 == name;
      assert i == f;
    } else {
      forall i | 0 <= i < |r| ensures r[i].0 != name {
        assert r[i].0 == m[i].0;
      }
      assert name !in Keys(r);
    }
  }

  // ---------------------------------------------------------------------------------
  // The map as the scanner saves it

  /** The saved `error_transition_map`: under each task name, the `step_N` labels of its reports. */
  function WrittenErrorMap(tasks: seq<TaskDir>): Fields {
    MapJson(FindError.ErrorMapOf(tasks), StrValue)
  }

  /** A task name has a field exactly when it has a report, and the field lists the labels of its erroring steps in order. */
  lemma WrittenErrorMapMeaning(tasks: seq<TaskDir>, name: string)
    ensures var rs := FindError.AllErrors(tasks);
      Lookup(WrittenErrorMap(tasks), name).Some? <==> exists i :: 0 <= i < |rs| && rs[i].task == name
    ensures Lookup(WrittenErrorMap(tasks), name).Some? ==>
      Lookup(WrittenErrorMap(tasks), name).value ==
        JList(EncodeAll(FindError.LabelsOf(FindError.ValuesFor(FindError.AllHits(tasks), name)), StrValue))
  {
    FindError.ErrorMapMeaning(tasks, name);
    FindError.ErrorMapTask(tasks, name);
    MapJsonLookup(FindError.ErrorMapOf(tasks), StrValue, name);
  }

  /** A JSON string that cannot name a step file: its first character is not a digit. */
  predicate NonNumericTag(x: Json) {
    x.JStr? && |x.s| > 0 && !('0' <= x.s[0] <= '9')
  }

  lemma LabelsNonNumeric(tasks: seq<TaskDir>, name: string)
    requires Lookup(WrittenErrorMap(tasks), name).Some?
    ensures Lookup(WrittenErrorMap(tasks), name).value.JList?
    ensures forall x :: x in Lookup(WrittenErrorMap(tasks), name).value.items ==> NonNumericTag(x)
  {
    WrittenErrorMapMeaning(tasks, name);
    var labels := FindError.LabelsOf(FindError.ValuesFor(FindError.AllHits(tasks), name));
    var items := EncodeAll(labels, StrValue);
    forall x | x in items ensures NonNumericTag(x) {
      var j :| 0 <= j < |items| && items[j] == x;
      assert labels[j][0] == 's';
    }
  }

  /**
   * The copied-observation generator accepts only non-negative integers, so it makes no
   * attempt for any name of the saved map, even for a task that has reports.
   */
  lemma WrittenMapStarvesCopiedObservation(tasks: seq<TaskDir>, name: string, files: Listing, base: Fields,
                                           goal: CopiedObservation.Goal, outputFilename: string, canWrite: string -> bool)
    ensures var rs := FindError.AllErrors(tasks);
      Lookup(WrittenErrorMap(tasks), name).Some? <==> exists i :: 0 <= i < |rs| && rs[i].task == name
    ensures CopiedObservation.FailSteps(Lookup(WrittenErrorMap(tasks), name)) == []
    ensures CopiedObservation.GenerateAll(name, files, WrittenErrorMap(tasks), base, goal, outputFilename, canWrite) ==
      CopiedObservation.Completed(0, [])
  {
    WrittenErrorMapMeaning(tasks, name);
    var e := Lookup(WrittenErrorMap(tasks), name);
    if e.Some? {
      LabelsNonNumeric(tasks, name);
      var items := e.value.items;
      forall i | 0 <= i < |items| ensures !CopiedObservation.ValidFailStep(items[i]) {
        assert NonNumericTag(items[i]);
      }
      FilterNone(items, CopiedObservation.ValidFailStep);
    }
  }

  /** The tag `str(step)` of a saved label names no step file, so the step has neither action nor input. */
  lemma NonNumericTagUnreadable(files: Listing, x: Json)
    requires NonNumericTag(x)
    ensures GenerateErrorInfo.ActionOfStep(files, Str(x)).None?
    ensures GenerateErrorInfo.InputOfStep(files, Str(x)).Err?
  {
    assert Str(x) == x.s;
    FindNamedNonNumeric(files, x.s);
  }

  /**
   * Labels that all fail to name a step sort without error, every label has the same
   * (missing) action, so at most two survive the filter, and each survivor is a label.
   */
  lemma NonNumericSelected(files: Listing, items: seq<Json>)
    requires forall x :: x in items ==> NonNumericTag(x)
    ensures GenerateErrorInfo.SortSteps(items).Ok?
    ensures var selected := GenerateErrorInfo.Selected(files, GenerateErrorInfo.SortSteps(items).value);
      && |selected| <= 2
      && forall j :: 0 <= j < |selected| ==> NonNumericTag(selected[j])
  {
    assert forall i :: 0 <= i < |items| ==> items[i].JStr? by {
      forall i | 0 <= i < |items| ensures items[i].JStr? {
        assert NonNumericTag(items[i]);
      }
    }
    var sorted := GenerateErrorInfo.SortSteps(items).value;
    forall j | 0 <= j < |sorted| ensures NonNumericTag(sorted[j]) {
      assert sorted[j] in multiset(items);
    }
    var keys := seq(|sorted|, i requires 0 <= i < |sorted| => GenerateErrorInfo.ActionOfStep(files, Str(sorted[i])));
    forall i | 0 <= i < |keys| ensures keys[i] == None {
      NonNumericTagUnreadable(files, sorted[i]);
    }
    GenerateErrorInfo.ThinnedConstant(sorted, keys);
  }

  /**
   * The error-info generator sorts the saved labels as strings, finds no step file for
   * any of them, so every label has the same (missing) action and at most two survive
   * the filter; none of the documents it writes carries an input of its own.
   */
  lemma WrittenMapStarvesErrorInfo(tasks: seq<TaskDir>, name: string, files: Listing, base: Fields,
                                   goal: Option<string>, outputFilename: string, canWrite: string -> bool)
    ensures var r := GenerateErrorInfo.GenerateInfo(name, files, WrittenErrorMap(tasks), base, goal, outputFilename, canWrite);
      && r.Ok?
      && |r.value.attempts| <= 2
      && forall i :: 0 <= i < |r.value.attempts| ==> Lookup(r.value.attempts[i].doc, "input") == Lookup(base, "input")
  {
    var e := Lookup(WrittenErrorMap(tasks), name);
    if e.Some? {
      LabelsNonNumeric(tasks, name);
      var items := e.value.items;
      NonNumericSelected(files, items);
      if |base| > 0 {
        var selected := GenerateErrorInfo.Selected(files, GenerateErrorInfo.SortSteps(items).value);
        GenerateErrorInfo.ListEntryAttempts(name, files, WrittenErrorMap(tasks), base, goal, outputFilename, canWrite, items);
        UnreadableAttemptsKeepInput(files, base, goal, outputFilename, selected);
      }
    }
  }

  /** Attempts for steps that name no step file add no input: each keeps the base document's. */
  lemma UnreadableAttemptsKeepInput(files: Listing, base: Fields, goal: Option<string>, outputFilename: string, steps: seq<Json>)
    requires forall j :: 0 <= j < |steps| ==> NonNumericTag(steps[j])
    ensures forall i :: 0 <= i < |steps| ==>
      Lookup(GenerateErrorInfo.ListAttempts(files, base, goal, outputFilename, steps)[i].doc, "input") == Lookup(base, "input")
  {
    var attempts := GenerateErrorInfo.ListAttempts(files, base, goal, outputFilename, steps);
    forall i | 0 <= i < |steps| ensures Lookup(attempts[i].doc, "input") == Lookup(base, "input") {
      NonNumericTagUnreadable(files, steps[i]);
    }
  }

  // ---------------------------------------------------------------------------------
  // The map the readers expect

  /** The intended map: under each task name, the numbers of its erroring steps. */
  function StepErrorMap(tasks: seq<TaskDir>): Fields {
    MapJson(FindError.MapOf(FindError.AllHits(tasks)), IntValue)
  }

  /** A task name has an erroring step exactly when it has a report. */
  lemma HitsAreReports(tasks: seq<TaskDir>, name: string)
    ensures var hits := FindError.AllHits(tasks);
      var rs := FindError.AllErrors(tasks);
      (exists i :: 0 <= i < |hits| && hits[i].0 == name) <==> (exists i :: 0 <= i < |rs| && rs[i].task == name)
  {
    var hits := FindError.AllHits(tasks);
    var rs := FindError.AllErrors(tasks);
    FindError.AllErrorsHits(tasks);
    if exists i :: 0 <= i < |hits| && hits[i].0 == name {
      var i :| 0 <= i < |hits| && hits[i].0 == name;
      assert rs[i].task == name;
    }
    if exists i :: 0 <= i < |rs| && rs[i].task == name {
      var i :| 0 <= i < |rs| && rs[i].task == name;
      assert hits[i].0 == name;
    }
  }

  /** The map of numbers has the same keys as the saved map. */
  lemma StepErrorMapKeys(tasks: seq<TaskDir>, name: string)
    ensures Lookup(StepErrorMap(tasks), name).Some? <==> Lookup(WrittenErrorMap(tasks), name).Some?
  {
    var hits := FindError.AllHits(tasks);
    FindError.MapOfGet(hits, name);
    FindError.MapOfKeys(hits, name);
    MapJsonLookup(FindError.MapOf(hits), IntValue, name);
    WrittenErrorMapMeaning(tasks, name);
    HitsAreReports(tasks, name);
  }

  /** The saved labels spell, in order, the numbers the map of numbers lists. */
  lemma StepErrorMapLabels(tasks: seq<TaskDir>, name: string)
    ensures FindError.Get(FindError.ErrorMapOf(tasks), name) ==
      FindError.LabelsOf(FindError.ValuesFor(FindError.AllHits(tasks), name))
    ensures FindError.Get(FindError.MapOf(FindError.AllHits(tasks)), name) == FindError.ValuesFor(FindError.AllHits(tasks), name)
  {
    FindError.ErrorMapMeaning(tasks, name);
    FindError.ErrorMapTask(tasks, name);
    FindError.MapOfGet(FindError.AllHits(tasks), name);
  }

  /** Under each name, the map of numbers holds the numbers of the task's erroring steps, all of which the copied-observation generator accepts. */
  lemma StepErrorMapFailSteps(tasks: seq<TaskDir>, name: string)
    ensures CopiedObservation.FailSteps(Lookup(StepErrorMap(tasks), name)) ==
      EncodeAll(FindError.ValuesFor(FindError.AllHits(tasks), name), IntValue)
  {
    var hits := FindError.AllHits(tasks);
    FindError.MapOfGet(hits, name);
    MapJsonLookup(FindError.MapOf(hits), IntValue, name);
    var m := FindError.MapOf(hits);
    if FindError.Find(m, name) < |m| {
      FailStepsOfNumbers(FindError.Get(m, name));
    } else {
      assert FindError.ValuesFor(hits, name) == FindError.Get(m, name);
    }
  }

  /** A list of encoded step numbers is read back whole: every number is a valid step. */
  lemma FailStepsOfNumbers(vs: seq<nat>)
    ensures CopiedObservation.FailSteps(Some(JList(EncodeAll(vs, IntValue)))) == EncodeAll(vs, IntValue)
  {
    var items := EncodeAll(vs, IntValue);
    assert forall i :: 0 <= i < |items| ==> CopiedObservation.ValidFailStep(items[i]) by {
      forall i | 0 <= i < |items| ensures CopiedObservation.ValidFailStep(items[i]) {
        assert items[i] == JInt(vs[i]);
      }
    }
    FilterAll(items, CopiedObservation.ValidFailStep);
  }

  /**
   * The copied-observation generator reads, under each name of the map of numbers, every
   * erroring step of the task, in order, and makes one attempt for each.
   */
  lemma StepErrorMapFeedsCopiedObservation(tasks: seq<TaskDir>, name: string, files: Listing, base: Fields,
                                           goal: CopiedObservation.Goal, outputFilename: string, canWrite: string -> bool)
    ensures CopiedObservation.FailSteps(Lookup(StepErrorMap(tasks), name)) ==
      EncodeAll(FindError.ValuesFor(FindError.AllHits(tasks), name), IntValue)
    ensures var run := CopiedObservation.GenerateAll(name, files, StepErrorMap(tasks), base, goal, outputFilename, canWrite);
      var steps := EncodeAll(FindError.ValuesFor(FindError.AllHits(tasks), name), IntValue);
      && (run.Completed? <==> forall i :: 0 <= i < |steps| ==> !CopiedObservation.Raises(files, steps[i]))
      && (run.Completed? ==> |run.attempts| == |steps|)
      && forall i :: 0 <= i < |run.attempts| ==> Lookup(run.attempts[i].doc, "input_step") == Some(steps[i])
  {
    StepErrorMapFailSteps(tasks, name);
  }
}
