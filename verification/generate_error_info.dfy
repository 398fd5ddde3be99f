/**
 * The consumer of the error-transition truncate map: for every step the map names, an
 * info file holding the prompt the agent saw at that step (the chat cut before the first
 * assistant message). A list of steps is thinned first, so that no more than two steps
 * in a row with the same action are kept.
 *
 * Experiment arguments, the goal object and whether a write succeeds are inputs; the
 * JSON encoding of the written document is not modelled.
 */
module GenerateErrorInfo {
  import opened Wrappers
  import opened Strings
  import opened JsonData
  import opened Sorting
  import opened Trajectory
  import opened InfoFiles

  /** The chat up to, not including, its first assistant message; the whole chat when there is none. */
  function CutAtFirstAssistant(chat: seq<Fields>): (r: seq<Fields>)
    ensures r <= chat
    ensures forall i :: 0 <= i < |r| ==> !HasRole(r[i], "assistant")
    ensures |r| < |chat| ==> HasRole(chat[|r|], "assistant")
    decreases |chat|
  {
    if |chat| == 0 || HasRole(chat[0], "assistant") then []
    else [chat[0]] + CutAtFirstAssistant(chat[1..])
  }

  /**
   * The input of step `tag` (the text the file name `step_{tag}.pkl.gz` is built from):
   * an error when the file is missing or cannot be loaded, or when the loaded object,
   * whatever its class, has no `agent_info.chat_messages` list; otherwise the cut chat.
   */
  function InputOfStep(files: Listing, tag: string): (r: Result<seq<Fields>>)
    ensures r.Ok? <==> AttributesAt(files, tag).Some? && ChatOf(AttributesAt(files, tag).value).ChatList?
    ensures r.Ok? ==> r.value == CutAtFirstAssistant(ChatOf(AttributesAt(files, tag).value).msgs)
  {
    var found := AttributesAt(files, tag);
    if found.None? then Err("step file missing or cannot be loaded")
    else
      var chat := ChatOf(found.value);
      if chat.NoChat? then Err("error extracting input: no chat_messages")
      else if chat.NullChat? then Err("error extracting input: chat_messages is None")
      else Ok(CutAtFirstAssistant(chat.msgs))
  }

  /**
   * `str(action)` of step `tag`, or `None` when the step file is missing, cannot be loaded,
   * or the loaded object, whatever its class, has no `action` attribute or its action is
   * `None`.
   */
  function ActionOfStep(files: Listing, tag: string): (r: Option<string>)
    ensures r.Some? <==>
      AttributesAt(files, tag).Some? && AttributesAt(files, tag).value.action.Some? &&
      AttributesAt(files, tag).value.action.value != JNull
    ensures r.Some? ==> r.value == Str(AttributesAt(files, tag).value.action.value)
  {
    var found := AttributesAt(files, tag);
    if found.Some? && found.value.action.Some? && found.value.action.value != JNull
    then Some(Str(found.value.action.value))
    else None
  }

  // ---------------------------------------------------------------------------------
  // The at-most-two-in-a-row filter

  /** What the filter compares: `str(action)`, or `None` when a step has no action. */
  type ActionKey = Option<string>

  /**
   * How far the last key is into its run of equal keys: 1 for a key that differs from
   * the one before it, one more than the previous position otherwise.
   */
  function RunPos(keys: seq<ActionKey>): (r: nat)
    requires |keys| > 0
    ensures 1 <= r
    decreases |keys|
  {
    var n := |keys|;
    if n >= 2 && keys[n - 2] == keys[n - 1] then 1 + RunPos(keys[..n - 1]) else 1
  }

  /** A run cannot be longer than the keys. */
  lemma {:induction false} RunPosBound(keys: seq<ActionKey>)
    requires |keys| > 0
    ensures RunPos(keys) <= |keys|
    decreases |keys|
  {
    var n := |keys|;
    if n >= 2 && keys[n - 2] == keys[n - 1] {
      RunPosBound(keys[..n - 1]);
    }
  }

  /** `RunPos` is the length of the longest suffix of equal keys: the last `r` keys agree and the one before differs. */
  lemma {:induction false} RunPosMeaning(keys: seq<ActionKey>)
    requires |keys| > 0
    ensures RunPos(keys) <= |keys|
    ensures forall j :: |keys| - RunPos(keys) <= j < |keys| ==> keys[j] == keys[|keys| - 1]
    ensures |keys| - RunPos(keys) > 0 ==> keys[|keys| - RunPos(keys) - 1] != keys[|keys| - 1]
    decreases |keys|
  {
    var n := |keys|;
    RunPosBound(keys);
    if n >= 2 && keys[n - 2] == keys[n - 1] {
      var init := keys[..n - 1];
      RunPosMeaning(init);
      assert forall j :: 0 <= j < n - 1 ==> init[j] == keys[j];
    }
  }

  /** A position beyond 2 is exactly the third (or later) of three equal keys in a row. */
  lemma RunPosAboveTwo(keys: seq<ActionKey>)
    requires |keys| > 0
    ensures RunPos(keys) > 2 <==>
      (|keys| >= 3 && keys[|keys| - 3] == keys[|keys| - 2] && keys[|keys| - 2] == keys[|keys| - 1])
  {
    var n := |keys|;
    if n >= 2 && keys[n - 2] == keys[n - 1] {
      var init := keys[..n - 1];
      assert RunPos(keys) == 1 + RunPos(init);
      if n >= 3 {
        assert init[n - 3] == keys[n - 3] && init[n - 2] == keys[n - 2];
      }
    }
  }

  /** The reference definition of the filter: a step is kept iff it is at most second in its run of equal actions. */
  function Thinned<T>(steps: seq<T>, keys: seq<ActionKey>): seq<T>
    requires |steps| == |keys|
    decreases |steps|
  {
    var n := |steps|;
    if n == 0 then []
    else Thinned(steps[..n - 1], keys[..n - 1]) + (if RunPos(keys) <= 2 then [steps[n - 1]] else [])
  }

  /** The filter never adds steps. */
  lemma {:induction false} ThinnedLength<T>(steps: seq<T>, keys: seq<ActionKey>)
    requires |steps| == |keys|
    ensures |Thinned(steps, keys)| <= |steps|
    decreases |steps|
  {
    var n := |steps|;
    if n > 0 {
      ThinnedLength(steps[..n - 1], keys[..n - 1]);
      ThinnedLast(steps, keys);
    }
  }

  /** One step of the reference filter: the last step is kept exactly when it is at most second in its run. */
  lemma ThinnedLast<T>(steps: seq<T>, keys: seq<ActionKey>)
    requires |steps| == |keys| && |steps| > 0
    ensures Thinned(steps, keys) ==
      Thinned(steps[..|steps| - 1], keys[..|keys| - 1]) + (if RunPos(keys) <= 2 then [steps[|steps| - 1]] else [])
  {
  }

  /**
   * The loop over the sorted steps as written: `last` starts as `None` and `count` at 0,
   * so a first step whose action is `None` counts as a repeat of nothing and is kept.
   */
  method ThinSteps<T>(steps: seq<T>, keys: seq<ActionKey>) returns (filtered: seq<T>)
    requires |steps| == |keys|
    ensures filtered == Thinned(steps, keys)
  {
    filtered := [];
    var last: ActionKey := None;
    var count := 0;
    var i := 0;
    while i < |steps|
      invariant 0 <= i <= |steps|
      invariant filtered == Thinned(steps[..i], keys[..i])
      invariant i == 0 ==> last == None && count == 0
      invariant i > 0 ==> last == keys[i - 1] && count == RunPos(keys[..i])
    {
      var key := keys[i];
      var ks := keys[..i + 1];
      assert ks[..i] == keys[..i];
      assert steps[..i + 1][..i] == steps[..i];
      assert ks[i] == key;
      if key == last {
        count := count + 1;
        if count <= 2 {
          filtered := filtered + [steps[i]];
        }
      } else {
        count := 1;
        filtered := filtered + [steps[i]];
      }
      last := key;
      i := i + 1;
    }
    assert steps[..i] == steps && keys[..i] == keys;
  }

  /** `idx` lists, in increasing order, the positions of `b` that `a` is made of. */
  ghost predicate SubsequenceAt<T>(a: seq<T>, b: seq<T>, idx: seq<nat>) {
    |idx| == |a| &&
    (forall j :: 0 <= j < |idx| ==> idx[j] < |b| && a[j] == b[idx[j]]) &&
    (forall j :: 0 < j < |idx| ==> idx[j - 1] < idx[j])
  }

  /** The positions that are first or second in their run of equal actions, in increasing order. */
  function KeptIdx(keys: seq<ActionKey>): seq<nat>
    decreases |keys|
  {
    if |keys| == 0 then []
    else KeptIdx(keys[..|keys| - 1]) + (if RunPos(keys) <= 2 then [|keys| - 1] else [])
  }

  /** The kept positions are exactly the positions at most second in their run. */
  lemma {:induction false} KeptIdxRuns(keys: seq<ActionKey>)
    ensures forall j :: 0 <= j < |KeptIdx(keys)| ==> KeptIdx(keys)[j] < |keys| && RunPos(keys[..KeptIdx(keys)[j] + 1]) <= 2
    ensures forall i :: 0 <= i < |keys| && RunPos(keys[..i + 1]) <= 2 ==> i in KeptIdx(keys)
    decreases |keys|
  {
    var n := |keys|;
    if n > 0 {
      var kInit := keys[..n - 1];
      var prev := KeptIdx(kInit);
      KeptIdxRuns(kInit);
      forall j | 0 <= j < |prev| ensures RunPos(keys[..prev[j] + 1]) <= 2 {
        PrefixOfInit(keys, prev[j] + 1);
      }
      forall i | 0 <= i < n - 1 && RunPos(keys[..i + 1]) <= 2 ensures i in prev {
        PrefixOfInit(keys, i + 1);
      }
      assert keys[..n] == keys;
      ThinnedRunsStep(keys, prev, KeptIdx(keys));
    }
  }

  /** The reference filter keeps the steps at the kept positions, in order. */
  lemma {:induction false} KeptIdxSub<T>(steps: seq<T>, keys: seq<ActionKey>)
    requires |steps| == |keys|
    ensures SubsequenceAt(Thinned(steps, keys), steps, KeptIdx(keys))
    decreases |steps|
  {
    var n := |steps|;
    if n > 0 {
      var sInit := steps[..n - 1];
      var kInit := keys[..n - 1];
      KeptIdxSub(sInit, kInit);
      ThinnedLast(steps, keys);
      SubsequenceExtend(Thinned(sInit, kInit), steps, KeptIdx(kInit));
    }
  }

  /**
   * The kept steps are a subsequence of the sorted steps, made of exactly the positions
   * that are first or second in their run of equal actions.
   */
  lemma ThinnedPositions<T>(steps: seq<T>, keys: seq<ActionKey>) returns (idx: seq<nat>)
    requires |steps| == |keys|
    ensures SubsequenceAt(Thinned(steps, keys), steps, idx)
    ensures forall j :: 0 <= j < |idx| ==> RunPos(keys[..idx[j] + 1]) <= 2
    ensures forall i :: 0 <= i < |steps| && RunPos(keys[..i + 1]) <= 2 ==> i in idx
  {
    idx := KeptIdx(keys);
    KeptIdxSub(steps, keys);
    KeptIdxRuns(keys);
  }

  /** The kept positions before the last, extended by the last when it is first or second in its run, are all the kept positions. */
  lemma ThinnedRunsStep(keys: seq<ActionKey>, prev: seq<nat>, idx: seq<nat>)
    requires |keys| > 0
    requires forall j :: 0 <= j < |prev| ==> prev[j] < |keys| - 1 && RunPos(keys[..prev[j] + 1]) <= 2
    requires forall i :: 0 <= i < |keys| - 1 && RunPos(keys[..i + 1]) <= 2 ==> i in prev
    requires idx == if RunPos(keys[..|keys|]) <= 2 then prev + [|keys| - 1] else prev
    ensures forall j :: 0 <= j < |idx| ==> idx[j] < |keys| && RunPos(keys[..idx[j] + 1]) <= 2
    ensures forall i :: 0 <= i < |keys| && RunPos(keys[..i + 1]) <= 2 ==> i in idx
  {
  }

  lemma PrefixOfInit<T>(s: seq<T>, m: nat)
    requires 0 < |s| && m <= |s| - 1
    ensures s[..|s| - 1][..m] == s[..m]
  {
  }

  /** Positions of a prefix of `b` are positions of `b`, and the last position of `b` may follow them. */
  lemma SubsequenceExtend<T>(a: seq<T>, b: seq<T>, idx: seq<nat>)
    requires |b| > 0
    requires SubsequenceAt(a, b[..|b| - 1], idx)
    ensures SubsequenceAt(a, b, idx)
    ensures SubsequenceAt(a + [b[|b| - 1]], b, idx + [|b| - 1])
  {
    var c := a + [b[|b| - 1]];
    var ix := idx + [|b| - 1];
    forall j | 0 <= j < |ix| ensures ix[j] < |b| && c[j] == b[ix[j]] {
      if j < |idx| {
        assert b[..|b| - 1][idx[j]] == b[idx[j]];
      }
    }
  }

  /** The first sorted step is always kept, whatever its action. */
  lemma {:induction false} ThinnedKeepsFirst<T>(steps: seq<T>, keys: seq<ActionKey>)
    requires |steps| == |keys| && |steps| > 0
    ensures |Thinned(steps, keys)| > 0 && Thinned(steps, keys)[0] == steps[0]
    decreases |steps|
  {
    var n := |steps|;
    if n > 1 {
      ThinnedKeepsFirst(steps[..n - 1], keys[..n - 1]);
    }
  }

  /** When every key is the same, each step is as far into the run as its position. */
  lemma {:induction false} RunPosConstant(keys: seq<ActionKey>)
    requires |keys| > 0
    requires forall i :: 0 <= i < |keys| ==> keys[i] == keys[0]
    ensures RunPos(keys) == |keys|
    decreases |keys|
  {
    var n := |keys|;
    if n >= 2 {
      var init := keys[..n - 1];
      assert forall i :: 0 <= i < n - 1 ==> init[i] == keys[i];
      RunPosConstant(init);
    }
  }

  /** Steps that all share one action are cut down to the first two. */
  lemma {:induction false} ThinnedConstant<T>(steps: seq<T>, keys: seq<ActionKey>)
    requires |steps| == |keys|
    requires forall i :: 0 <= i < |keys| ==> keys[i] == keys[0]
    ensures Thinned(steps, keys) == if |steps| <= 2 then steps else steps[..2]
    decreases |steps|
  {
    var n := |steps|;
    if n > 0 {
      var sInit := steps[..n - 1];
      var kInit := keys[..n - 1];
      assert forall i :: 0 <= i < n - 1 ==> kInit[i] == keys[0];
      ThinnedConstant(sInit, kInit);
      RunPosConstant(keys);
      ThinnedLast(steps, keys);
      var prev := Thinned(sInit, kInit);
      if n <= 2 {
        assert Thinned(steps, keys) == prev + [steps[n - 1]] && prev == sInit;
        SplitLast(steps);
      } else {
        assert Thinned(steps, keys) == prev;
        assert prev == sInit[..2] by {
          if n == 3 {
            assert sInit[..2] == sInit;
          }
        }
        assert sInit[..2] == steps[..2];
      }
    }
  }

  ghost predicate NoThreeInARow(keys: seq<ActionKey>) {
    forall i :: 2 <= i < |keys| ==> !(keys[i - 2] == keys[i - 1] && keys[i - 1] == keys[i])
  }

  /** Nothing is dropped exactly when no three adjacent sorted steps share an action. */
  lemma {:induction false} ThinnedKeepsAll<T>(steps: seq<T>, keys: seq<ActionKey>)
    requires |steps| == |keys|
    ensures Thinned(steps, keys) == steps <==> NoThreeInARow(keys)
    decreases |steps|
  {
    var n := |steps|;
    if n > 0 {
      var sInit := steps[..n - 1];
      var kInit := keys[..n - 1];
      ThinnedKeepsAll(sInit, kInit);
      NoThreeSnoc(keys);
      ThinnedLast(steps, keys);
      var prev := Thinned(sInit, kInit);
      if RunPos(keys) <= 2 {
        SnocEqual(prev, sInit, steps[n - 1]);
        SplitLast(steps);
      } else {
        ThinnedLength(sInit, kInit);
        assert |Thinned(steps, keys)| < n;
      }
    }
  }

  /** One more key keeps the property exactly when the shorter sequence has it and the new key is at most second in its run. */
  lemma NoThreeSnoc(keys: seq<ActionKey>)
    requires |keys| > 0
    ensures NoThreeInARow(keys) <==> NoThreeInARow(keys[..|keys| - 1]) && RunPos(keys) <= 2
  {
    var n := |keys|;
    var init := keys[..n - 1];
    RunPosAboveTwo(keys);
    assert forall i :: 0 <= i < n - 1 ==> init[i] == keys[i];
  }

  lemma SnocEqual<T>(a: seq<T>, b: seq<T>, x: T)
    ensures a + [x] == b + [x] <==> a == b
  {
    if a + [x] == b + [x] {
      assert a == (a + [x])[..|a|];
    }
  }

  /** In particular, when no two adjacent sorted steps share an action, every step is kept. */
  lemma NoRepeatsKeepsAll<T>(steps: seq<T>, keys: seq<ActionKey>)
    requires |steps| == |keys|
    requires forall i :: 0 < i < |keys| ==> keys[i - 1] != keys[i]
    ensures Thinned(steps, keys) == steps
  {
    ThinnedKeepsAll(steps, keys);
  }

  // ---------------------------------------------------------------------------------
  // Writing the info files

  /** The output file name for a step suffix: every `_info.json` gains the suffix in front; no suffix, no change. */
  function OutputName(outputFilename: string, suffix: string): string {
    if suffix != "" then ReplaceAll(outputFilename, "_info.json", suffix + "_info.json") else outputFilename
  }

  /** The default name `info.json` has no `_info.json` in it, so every step would write the same file. */
  lemma DefaultNameUnsuffixed(suffix: string)
    ensures OutputName("info.json", suffix) == "info.json"
  {
    ContainsAt("info.json", "_info.json");
    if suffix != "" {
      ReplaceAbsent("info.json", "_info.json", suffix + "_info.json");
    }
  }

  /** A name ending in its only `_info.json` gets the suffix just before it. */
  lemma TrailingNameSuffixed(base: string, suffix: string)
    requires !Contains(base + "_info.jso", "_info.json")
    requires suffix != ""
    ensures OutputName(base + "_info.json", suffix) == base + suffix + "_info.json"
  {
    assert "_info.json"[..9] == "_info.jso";
    ReplaceTrailing(base, "_info.json", suffix + "_info.json");
  }

  /** The suffix of a step: `_S` followed by the step as Python formats it. */
  function StepSuffix(step: Json): string {
    "_S" + Str(step)
  }

  /**
   * The document for one step: the extracted experiment information `base`, the goal
   * when one was loaded, `input_step`, and `input` only when the step's input is a
   * non-empty chat.
   */
  function StepDoc(base: Fields, goal: Option<string>, step: Json, input: Result<seq<Fields>>): (r: Fields)
    ensures Lookup(r, "input_step") == Some(step)
    ensures goal.Some? ==> Lookup(r, "goal") == Some(JStr(goal.value))
    ensures input.Ok? && |input.value| > 0 ==> Lookup(r, "input") == Some(Messages(input.value))
    ensures !(input.Ok? && |input.value| > 0) ==> Lookup(r, "input") == Lookup(base, "input")
    ensures forall k :: k !in {"goal", "input_step", "input"} ==> Lookup(r, k) == Lookup(base, k)
  {
    var withGoal := if goal.Some? then Update(base, "goal", JStr(goal.value)) else base;
    var withStep := Update(withGoal, "input_step", step);
    if input.Ok? && |input.value| > 0 then Update(withStep, "input", Messages(input.value)) else withStep
  }

  /** What `generate_info_json` does for one task directory: the files it tries to write and its verdict. */
  datatype Outcome = Outcome(success: bool, attempts: seq<Written>)

  function AttemptFor(files: Listing, base: Fields, goal: Option<string>, outputFilename: string, step: Json, suffix: string): Written {
    Written(OutputName(outputFilename, suffix), StepDoc(base, goal, step, InputOfStep(files, Str(step))))
  }

  function IntKey(j: Json): int {
    if IsPyInt(j) then PyIntValue(j) else 0
  }

  /**
   * `sorted(steps)`: numbers by value (stably), strings in code-point order, and a list of
   * at most one element as it is. Any other list is refused. That is what Python does
   * for a string against a number, or for `None` or dictionaries; lists that hold floats
   * or nested lists, which Python can order, are refused too.
   */
  function SortSteps(steps: seq<Json>): (r: Result<seq<Json>>)
    ensures r.Ok? ==> multiset(r.value) == multiset(steps)
    ensures r.Ok? && (forall i :: 0 <= i < |steps| ==> IsPyInt(steps[i])) ==>
      forall i, j :: 0 <= i < j < |r.value| ==> IntKey(r.value[i]) <= IntKey(r.value[j])
    ensures (forall i :: 0 <= i < |steps| ==> IsPyInt(steps[i])) ==> r.Ok?
    ensures (forall i :: 0 <= i < |steps| ==> steps[i].JStr?) ==> r.Ok?
  {
    if forall i :: 0 <= i < |steps| ==> IsPyInt(steps[i]) then
      SortByMeaning(steps, IntKey);
      Ok(SortBy(steps, IntKey))
    else if forall i :: 0 <= i < |steps| ==> steps[i].JStr? then
      var names := SortLex(seq(|steps|, i requires 0 <= i < |steps| => steps[i].s));
      var r := Wrap(names);
      assert multiset(r) == multiset(steps) by { StrMultiset(steps, names); }
      Ok(r)
    else if |steps| <= 1 then Ok(steps)
    else Err("TypeError: '<' not supported between a number and a string")
  }

  /** Strings as JSON string values, one for one. */
  function Wrap(a: seq<string>): (r: seq<Json>)
    ensures |r| == |a|
    ensures forall i :: 0 <= i < |a| ==> r[i] == JStr(a[i])
  {
    seq(|a|, i requires 0 <= i < |a| => JStr(a[i]))
  }

  lemma StrMultiset(steps: seq<Json>, names: seq<string>)
    requires forall i :: 0 <= i < |steps| ==> steps[i].JStr?
    requires multiset(names) == multiset(seq(|steps|, i requires 0 <= i < |steps| => steps[i].s))
    ensures multiset(Wrap(names)) == multiset(steps)
  {
    var strs := seq(|steps|, i requires 0 <= i < |steps| => steps[i].s);
    assert steps == Wrap(strs);
    WrapMultiset(names, strs);
  }

  /** Wrapping keeps multiplicities: a string value occurs as often as its string, anything else never. */
  lemma {:induction false} WrapCount(a: seq<string>, x: Json)
    ensures multiset(Wrap(a))[x] == if x.JStr? then multiset(a)[x.s] else 0
    decreases |a|
  {
    if |a| == 0 {
      assert Wrap(a) == [];
    } else {
      WrapCount(a[1..], x);
      WrapCons(a);
      MultisetCons(a);
      MultisetCons(Wrap(a));
    }
  }

  lemma WrapCons(a: seq<string>)
    requires |a| > 0
    ensures Wrap(a)[0] == JStr(a[0]) && Wrap(a)[1..] == Wrap(a[1..])
  {
  }

  lemma MultisetCons<T>(s: seq<T>)
    requires |s| > 0
    ensures multiset(s) == multiset{s[0]} + multiset(s[1..])
  {
    assert s == [s[0]] + s[1..];
  }

  lemma WrapMultiset(a: seq<string>, b: seq<string>)
    requires multiset(a) == multiset(b)
    ensures multiset(Wrap(a)) == multiset(Wrap(b))
  {
    forall x: Json ensures multiset(Wrap(a))[x] == multiset(Wrap(b))[x] {
      WrapCount(a, x);
      WrapCount(b, x);
    }
  }

  /** The steps of a list entry that get a file: sorted, then thinned by their actions. */
  function Selected(files: Listing, sorted: seq<Json>): (r: seq<Json>)
    ensures |r| <= |sorted|
  {
    var keys := seq(|sorted|, i requires 0 <= i < |sorted| => ActionOfStep(files, Str(sorted[i])));
    ThinnedLength(sorted, keys);
    Thinned(sorted, keys)
  }

  /** The attempt for each selected step of a list entry, named with the step's suffix. */
  function ListAttempts(files: Listing, base: Fields, goal: Option<string>, outputFilename: string, steps: seq<Json>): (r: seq<Written>)
    ensures |r| == |steps|
    ensures forall i :: 0 <= i < |r| ==> r[i] == AttemptFor(files, base, goal, outputFilename, steps[i], StepSuffix(steps[i]))
  {
    seq(|steps|, i requires 0 <= i < |steps| => AttemptFor(files, base, goal, outputFilename, steps[i], StepSuffix(steps[i])))
  }

  /**
   * `generate_info_json` for the task directory `name`. `canWrite` says whether the info
   * file of a given name can be saved (in full or in the simplified form); `base` is what
   * the experiment arguments yield, and an empty one makes every step fail.
   */
  function GenerateInfo(name: string, files: Listing, truncateMap: Fields, base: Fields, goal: Option<string>,
                        outputFilename: string, canWrite: string -> bool): (r: Result<Outcome>)
    ensures Lookup(truncateMap, name).None? || Lookup(truncateMap, name) == Some(JNull) ==> r == Ok(Outcome(false, []))
    ensures r.Ok? ==> (r.value.success <==> exists i :: 0 <= i < |r.value.attempts| && canWrite(r.value.attempts[i].name))
    ensures r.Err? ==>
      (Lookup(truncateMap, name).Some? && Lookup(truncateMap, name).value.JList? &&
       SortSteps(Lookup(truncateMap, name).value.items).Err?)
  {
    var entry := Lookup(truncateMap, name);
    if entry.None? || entry.value == JNull then Ok(Outcome(false, []))
    else if entry.value.JList? then
      var sorted := SortSteps(entry.value.items);
      if sorted.Err? then Err(sorted.msg)
      else
        var attempts := if |base| == 0 then [] else ListAttempts(files, base, goal, outputFilename, Selected(files, sorted.value));
        Ok(Outcome(CountWritten(attempts, canWrite) > 0, attempts))
    else
      if |base| == 0 then Ok(Outcome(false, []))
      else
        var attempt := AttemptFor(files, base, goal, outputFilename, entry.value, "");
        var attempts := [attempt];
        assert attempts[0] == attempt;
        Ok(Outcome(canWrite(attempt.name), attempts))
  }

  /**
   * A list entry whose steps can be sorted: one attempt per selected step, in sorted order,
   * each holding its step as `input_step` and named with the step's `_S` suffix. The
   * selected steps are entries of the list, no more of them than the list holds, and the
   * smallest step is always among them.
   */
  lemma GenerateInfoList(name: string, files: Listing, truncateMap: Fields, base: Fields, goal: Option<string>,
                         outputFilename: string, canWrite: string -> bool, items: seq<Json>)
    requires Lookup(truncateMap, name) == Some(JList(items))
    requires SortSteps(items).Ok? && |base| > 0
    ensures var r := GenerateInfo(name, files, truncateMap, base, goal, outputFilename, canWrite);
      var sel := Selected(files, SortSteps(items).value);
      && r.Ok? && |r.value.attempts| == |sel| <= |items|
      && (forall i :: 0 <= i < |sel| ==>
            && r.value.attempts[i].name == OutputName(outputFilename, StepSuffix(sel[i]))
            && Lookup(r.value.attempts[i].doc, "input_step") == Some(sel[i])
            && sel[i] in items)
      && (|items| > 0 ==> |sel| > 0 && sel[0] == SortSteps(items).value[0])
  {
    var sorted := SortSteps(items).value;
    var sel := Selected(files, sorted);
    ListEntryAttempts(name, files, truncateMap, base, goal, outputFilename, canWrite, items);
    AttemptsHoldSteps(files, base, goal, outputFilename, sel);
    SelectedFromSorted(files, sorted);
    forall i | 0 <= i < |sel| ensures sel[i] in items {
      assert sel[i] in multiset(sorted);
    }
  }

  /** For a sortable list, the attempts are those of the selected steps. */
  lemma ListEntryAttempts(name: string, files: Listing, truncateMap: Fields, base: Fields, goal: Option<string>,
                          outputFilename: string, canWrite: string -> bool, items: seq<Json>)
    requires Lookup(truncateMap, name) == Some(JList(items))
    requires SortSteps(items).Ok? && |base| > 0
    ensures GenerateInfo(name, files, truncateMap, base, goal, outputFilename, canWrite).Ok?
    ensures GenerateInfo(name, files, truncateMap, base, goal, outputFilename, canWrite).value.attempts ==
      ListAttempts(files, base, goal, outputFilename, Selected(files, SortSteps(items).value))
  {
  }

  /** Each attempt for a list of steps is named with its step's suffix and holds that step as `input_step`. */
  lemma AttemptsHoldSteps(files: Listing, base: Fields, goal: Option<string>, outputFilename: string, steps: seq<Json>)
    ensures forall i :: 0 <= i < |steps| ==>
      && ListAttempts(files, base, goal, outputFilename, steps)[i].name == OutputName(outputFilename, StepSuffix(steps[i]))
      && Lookup(ListAttempts(files, base, goal, outputFilename, steps)[i].doc, "input_step") == Some(steps[i])
  {
  }

  /** The selected steps are steps of the sorted list, and the first sorted step is always selected. */
  lemma SelectedFromSorted(files: Listing, sorted: seq<Json>)
    ensures forall i :: 0 <= i < |Selected(files, sorted)| ==> Selected(files, sorted)[i] in sorted
    ensures |sorted| > 0 ==> |Selected(files, sorted)| > 0 && Selected(files, sorted)[0] == sorted[0]
  {
    var keys := seq(|sorted|, i requires 0 <= i < |sorted| => ActionOfStep(files, Str(sorted[i])));
    var idx := ThinnedPositions(sorted, keys);
    if |sorted| > 0 {
      ThinnedKeepsFirst(sorted, keys);
    }
  }

  /**
   * Any other entry is a single step: one attempt, under the output name itself, holding
   * the entry as its `input_step`, which succeeds exactly when that file can be saved.
   */
  lemma GenerateInfoSingle(name: string, files: Listing, truncateMap: Fields, base: Fields, goal: Option<string>,
                           outputFilename: string, canWrite: string -> bool, step: Json)
    requires Lookup(truncateMap, name) == Some(step)
    requires !step.JList? && step != JNull && |base| > 0
    ensures var r := GenerateInfo(name, files, truncateMap, base, goal, outputFilename, canWrite);
      && r.Ok? && |r.value.attempts| == 1
      && r.value.attempts[0].name == outputFilename
      && Lookup(r.value.attempts[0].doc, "input_step") == Some(step)
      && (r.value.success <==> canWrite(outputFilename))
  {
  }
}
