/**
 * The info-file generator of the Webarena results: for a task directory, a document with
 * the experiment information and, when the truncate map names the directory, the step it
 * names and the user message the agent saw at that step, saved under a name that carries
 * the directory's risk type.
 *
 * The experiment information `base`, the goal text and whether a file can be saved are
 * inputs; messages are dictionaries (message objects with a `type` attribute are not
 * modelled).
 */
module WebarenaInfo {
  import opened Wrappers
  import opened Strings
  import opened JsonData
  import opened Trajectory
  import opened InfoFiles

  const RiskKeywords: seq<string> :=
    ["unreachable", "misleading", "ambiguity", "missinginfo", "human_in_loop", "unexpected_transition"]

  /** The observation keys tried, in order, when the chat has no user message. */
  const ObsKeys: seq<string> := ["goal_object", "task_description", "prompt"]

  /**
   * The tag of the step file read for a requested step: a request for step 1 (or `True`, or
   * the float `1.0`, both of which equal 1) reads `step_0`.
   */
  function StepTag(step: Json): string {
    if (IsPyInt(step) && PyIntValue(step) == 1) || step == JFloat("1.0") then "0" else Str(step)
  }

  /** For a step number, the file read is the one numbered `n`, except that 1 reads 0. */
  lemma StepTagNumbers(files: Listing, n: nat)
    ensures FindNamed(files, StepTag(JInt(n))) == FindByNum(files, if n == 1 then 0 else n)
  {
    assert n == 1 ==> StepTag(JInt(n)) == NatToString(0);
    FindNamedNum(files, if n == 1 then 0 else n);
  }

  /** The position of the first of `keys` present in `obs`; `|keys|` when none is. */
  function FirstPresent(obs: Fields, keys: seq<string>): (r: nat)
    ensures r <= |keys|
    ensures r < |keys| ==> keys[r] in Keys(obs)
    ensures forall i :: 0 <= i < r ==> keys[i] !in Keys(obs)
    decreases |keys|
  {
    if |keys| == 0 then 0
    else if keys[0] in Keys(obs) then 0
    else 1 + FirstPresent(obs, keys[1..])
  }

  /** The messages `get_input_from_step` searches: the list when there is one, else none. */
  function MessagesOf(c: Chat): seq<Fields> {
    if c.ChatList? then c.msgs else []
  }

  /**
   * `get_input_from_step`: the content of the last user message of the step's chat, or,
   * when there is none, the first of `goal_object`, `task_description` and `prompt` that
   * the observation holds. A `chat_messages` attribute that is present but `None` makes
   * `len` raise, which is reported as an error without looking at the observation.
   */
  function InputOfStep(files: Listing, step: Json): (r: Result<Json>)
    ensures AttributesAt(files, StepTag(step)).None? ==> r.Err?
    ensures AttributesAt(files, StepTag(step)).Some? && ChatOf(AttributesAt(files, StepTag(step)).value).NullChat? ==> r.Err?
    ensures forall s ::
      (AttributesAt(files, StepTag(step)) == Some(s) && !ChatOf(s).NullChat? && LastWith(MessagesOf(ChatOf(s)), "user").Some?) ==>
      r == Ok(Lookup(MessagesOf(ChatOf(s))[LastWith(MessagesOf(ChatOf(s)), "user").value], "content").GetOr(JNull))
    ensures forall s ::
      (AttributesAt(files, StepTag(step)) == Some(s) && !ChatOf(s).NullChat? && LastWith(MessagesOf(ChatOf(s)), "user").None?) ==>
      (r.Ok? <==> s.obs.Some? && exists i :: 0 <= i < |ObsKeys| && ObsKeys[i] in Keys(s.obs.value)) &&
      (r.Ok? ==> r == Ok(Lookup(s.obs.value, ObsKeys[FirstPresent(s.obs.value, ObsKeys)]).value))
  {
    var found := AttributesAt(files, StepTag(step));
    if found.None? then Err("step file missing or cannot be loaded")
    else
      var s := found.value;
      if ChatOf(s).NullChat? then Err("error extracting input: chat_messages is None")
      else
        var chat := MessagesOf(ChatOf(s));
        var user := LastWith(chat, "user");
        if user.Some? then Ok(Lookup(chat[user.value], "content").GetOr(JNull))
        else if s.obs.Some? && FirstPresent(s.obs.value, ObsKeys) < |ObsKeys| then
          Ok(Lookup(s.obs.value, ObsKeys[FirstPresent(s.obs.value, ObsKeys)]).value)
        else Err("no input data found in the step")
  }

  /** A request for step 1 reads the same file, and so finds the same input, as a request for step 0. */
  lemma StepOneReadsZero(files: Listing)
    ensures InputOfStep(files, JInt(1)) == InputOfStep(files, JInt(0))
  {
    assert StepTag(JInt(1)) == StepTag(JInt(0));
  }

  /**
   * The document of a task directory: the experiment information, the goal when there is
   * one, and, when the directory is a key of the truncate map, `input_step` and (when the
   * step yields a truthy input) `input`.
   */
  function InfoDoc(base: Fields, goal: Option<string>, dirName: string, truncateMap: Fields, files: Listing): Fields {
    var entry := Lookup(truncateMap, dirName);
    WithInput(WithGoal(base, goal), entry, if entry.Some? then InputOfStep(files, entry.value) else Err(""))
  }

  /** The experiment information with the goal set, when one is given. */
  function WithGoal(base: Fields, goal: Option<string>): Fields {
    if goal.Some? then Update(base, "goal", JStr(goal.value)) else base
  }

  /** The map's step, when there is one, and then that step's input, when it reads as true. */
  function WithInput(doc: Fields, entry: Option<Json>, input: Result<Json>): Fields {
    if entry.None? then doc
    else
      var withStep := Update(doc, "input_step", entry.value);
      if input.Ok? && Truthy(input.value) then Update(withStep, "input", input.value) else withStep
  }

  /** Any key other than the three the document may set keeps the experiment information's binding. */
  lemma InfoDocOther(base: Fields, goal: Option<string>, entry: Option<Json>, input: Result<Json>, k: string)
    requires k != "goal" && k != "input_step" && k != "input"
    ensures Lookup(WithInput(WithGoal(base, goal), entry, input), k) == Lookup(base, k)
  {
    var withGoal := WithGoal(base, goal);
    if goal.Some? { UpdateAt(base, "goal", JStr(goal.value), k); }
    if entry.Some? {
      var withStep := Update(withGoal, "input_step", entry.value);
      UpdateAt(withGoal, "input_step", entry.value, k);
      if input.Ok? && Truthy(input.value) {
        UpdateAt(withStep, "input", input.value, k);
      }
    }
  }

  /** The three keys the document may set, for a given step entry and input. */
  lemma InfoDocSet(base: Fields, goal: Option<string>, entry: Option<Json>, input: Result<Json>)
    ensures var r := WithInput(WithGoal(base, goal), entry, input);
      && Lookup(r, "goal") == (if goal.Some? then Some(JStr(goal.value)) else Lookup(base, "goal"))
      && Lookup(r, "input_step") == (if entry.Some? then entry else Lookup(base, "input_step"))
      && Lookup(r, "input") == (if entry.Some? && input.Ok? && Truthy(input.value) then Some(input.value) else Lookup(base, "input"))
  {
    var withGoal := WithGoal(base, goal);
    if goal.Some? {
      UpdateAt(base, "goal", JStr(goal.value), "input_step");
      UpdateAt(base, "goal", JStr(goal.value), "input");
    }
    if entry.Some? {
      var withStep := Update(withGoal, "input_step", entry.value);
      UpdateAt(withGoal, "input_step", entry.value, "goal");
      UpdateAt(withGoal, "input_step", entry.value, "input");
      if input.Ok? && Truthy(input.value) {
        UpdateAt(withStep, "input", input.value, "goal");
        UpdateAt(withStep, "input", input.value, "input_step");
      }
    }
  }

  /**
   * The document carries the goal when one is given, the map's step and that step's input
   * when the directory is a key, and every other field of the experiment information as it was.
   */
  lemma InfoDocMeaning(base: Fields, goal: Option<string>, dirName: string, truncateMap: Fields, files: Listing)
    ensures var r := InfoDoc(base, goal, dirName, truncateMap, files);
      && (goal.Some? ==> Lookup(r, "goal") == Some(JStr(goal.value)))
      && (goal.None? ==> Lookup(r, "goal") == Lookup(base, "goal"))
      && (dirName in Keys(truncateMap) ==> Lookup(r, "input_step") == Lookup(truncateMap, dirName))
      && (dirName !in Keys(truncateMap) ==>
            Lookup(r, "input_step") == Lookup(base, "input_step") && Lookup(r, "input") == Lookup(base, "input"))
      && (dirName in Keys(truncateMap) ==>
            var input := InputOfStep(files, Lookup(truncateMap, dirName).value);
            if input.Ok? && Truthy(input.value) then Lookup(r, "input") == Some(input.value)
            else Lookup(r, "input") == Lookup(base, "input"))
    ensures forall k :: k !in {"goal", "input_step", "input"} ==>
      Lookup(InfoDoc(base, goal, dirName, truncateMap, files), k) == Lookup(base, k)
  {
    var entry := Lookup(truncateMap, dirName);
    var input := if entry.Some? then InputOfStep(files, entry.value) else Err("");
    assert InfoDoc(base, goal, dirName, truncateMap, files) == WithInput(WithGoal(base, goal), entry, input);
    InfoDocSet(base, goal, entry, input);
    forall k | k !in {"goal", "input_step", "input"}
      ensures Lookup(WithInput(WithGoal(base, goal), entry, input), k) == Lookup(base, k)
    {
      InfoDocOther(base, goal, entry, input, k);
    }
  }

  /**
   * The file name: `{risk}_{dirName}.json` for the first risk keyword, in list order,
   * that occurs in the directory name exactly as written, and `{dirName}.json` when none does.
   */
  function OutputName(dirName: string): (r: string)
    ensures (forall i :: 0 <= i < |RiskKeywords| ==> !Contains(dirName, RiskKeywords[i])) ==> r == dirName + ".json"
    ensures forall k ::
      (0 <= k < |RiskKeywords| && Contains(dirName, RiskKeywords[k]) &&
       (forall i :: 0 <= i < k ==> !Contains(dirName, RiskKeywords[i]))) ==>
      r == RiskKeywords[k] + "_" + dirName + ".json"
  {
    var k := FirstKeyword(RiskKeywords, dirName, false);
    if k < |RiskKeywords| then RiskKeywords[k] + "_" + dirName + ".json" else dirName + ".json"
  }

  /** `generate_info_json`: the file it saves, and whether saving it (in full or in the simplified form) succeeded. */
  function GenerateInfoJson(base: Fields, goal: Option<string>, dirName: string, truncateMap: Fields, files: Listing,
                            canWrite: string -> bool): (bool, Written)
  {
    var w := Written(OutputName(dirName), InfoDoc(base, goal, dirName, truncateMap, files));
    (canWrite(w.name), w)
  }

  /** The truncate-map file as `load_truncate_map` finds it. */
  datatype MapFile = Missing | Unreadable | Parsed(fields: Fields)

  /** A missing or unreadable map is the empty map. */
  function LoadTruncateMap(file: MapFile): Fields {
    if file.Parsed? then file.fields else []
  }

  /**
   * Without a readable map no directory is a key, so every document keeps the
   * experiment information's `input_step` and `input`.
   */
  lemma NoMapNoInput(file: MapFile, base: Fields, goal: Option<string>, dirName: string, files: Listing,
                     canWrite: string -> bool)
    requires !file.Parsed?
    ensures var doc := GenerateInfoJson(base, goal, dirName, LoadTruncateMap(file), files, canWrite).1.doc;
      Lookup(doc, "input_step") == Lookup(base, "input_step") && Lookup(doc, "input") == Lookup(base, "input")
  {
    assert Keys(LoadTruncateMap(file)) == {};
    InfoDocMeaning(base, goal, dirName, LoadTruncateMap(file), files);
  }

  /** The document is saved under the risk-prefixed name, and the outcome is whether that name could be written. */
  lemma GenerateInfoJsonWrites(base: Fields, goal: Option<string>, dirName: string, truncateMap: Fields, files: Listing,
                               canWrite: string -> bool)
    ensures var r := GenerateInfoJson(base, goal, dirName, truncateMap, files, canWrite);
      && EndsWith(r.1.name, dirName + ".json")
      && r.0 == canWrite(r.1.name)
      && (dirName in Keys(truncateMap) ==> Lookup(r.1.doc, "input_step") == Lookup(truncateMap, dirName))
  {
    InfoDocMeaning(base, goal, dirName, truncateMap, files);
    OutputNameSuffix(dirName);
  }

  /** Whatever its prefix, the file name ends with the directory name and `.json`. */
  lemma OutputNameSuffix(dirName: string)
    ensures EndsWith(OutputName(dirName), dirName + ".json")
  {
    var k := FirstKeyword(RiskKeywords, dirName, false);
    var pre := if k < |RiskKeywords| then RiskKeywords[k] + "_" else "";
    assert OutputName(dirName) == pre + (dirName + ".json");
    assert (pre + (dirName + ".json"))[|pre|..] == dirName + ".json";
  }
}
