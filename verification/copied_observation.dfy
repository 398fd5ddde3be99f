/**
 * The generator of simulated-failure inputs: for each step a truncate map names, a single
 * user message that repeats the observation the agent saw before acting at that step and
 * whose interaction history already contains that step's thought and action, as if the
 * action had been executed and the page had not changed.
 *
 * Experiment arguments, the goal object and whether a write succeeds are inputs; message
 * texts of errors are paraphrased.
 */
module CopiedObservation {
  import opened Wrappers
  import opened Strings
  import opened JsonData
  import opened Sorting
  import opened Trajectory
  import opened InfoFiles

  const HistoryMarker: string := "# History of interaction with the task:"

  /** The heading of a history block the script creates when the prompt has none. */
  const NewHistoryIntro: string := "\n# History of interaction with the task:"

  const RiskKeywords: seq<string> := ["unreachable", "misleading", "ambiguity", "missinginfo", "human_in_loop"]

  function StepHeader(tag: string): string {
    "\n\n## step " + tag + "\n\n"
  }

  /** A dictionary content: its thought (`think`, else `thought`, else empty) and its action, each in its tag. */
  function ThinkAction(content: Fields): string {
    var think := Lookup(content, "think").GetOr(Lookup(content, "thought").GetOr(JStr("")));
    var act := Lookup(content, "action").GetOr(JStr(""));
    "<think>\n" + Str(think) + "\n</think>" + "\n\n" + "<action>\n" + Str(act) + "\n</action>"
  }

  /**
   * The history entry for an assistant message's content at step `tag`: a non-empty
   * string or any dictionary gives the step header followed by the text; anything else
   * gives the empty string.
   */
  function FormatForHistory(content: Json, tag: string): (r: string)
    ensures r != "" <==> (content.JStr? && content.s != "") || content.JObj?
    ensures r != "" ==> StartsWith(r, StepHeader(tag))
    ensures content.JStr? && content.s != "" ==> r == StepHeader(tag) + content.s
    ensures content.JObj? ==> r == StepHeader(tag) + ThinkAction(content.fields)
  {
    var text := if content.JStr? then content.s else if content.JObj? then ThinkAction(content.fields) else "";
    if text != "" then StepHeader(tag) + text else ""
  }

  // ---------------------------------------------------------------------------------
  // Content blocks

  /** `block.get("text", "")`, which must be a string for `lstrip` to apply. */
  function BlockText(block: Fields): Result<string> {
    var t := Lookup(block, "text");
    if t.None? then Ok("")
    else if t.value.JStr? then Ok(t.value.s)
    else Err("AttributeError: block text is not a string")
  }

  /**
   * `dict(block)`: a dictionary is copied, and the empty string and the empty list give
   * an empty dictionary. Anything else yields nothing here: a number, `None` or a
   * non-empty string raises.
   */
  function AsDict(block: Json): (r: Option<Fields>)
    ensures block.JObj? ==> r == Some(block.fields)
    ensures block.JStr? ==> (r.Some? <==> block.s == "")
    ensures r.Some? ==> block.JObj? || block == JStr("") || block == JList([])
  {
    if block.JObj? then Some(block.fields)
    else if block == JStr("") || block == JList([]) then Some([])
    else None
  }

  /** A block is readable when `dict` converts it and its text, if any, is a string. */
  predicate Readable(block: Json) {
    AsDict(block).Some? && BlockText(AsDict(block).value).Ok?
  }

  /** A block whose left-stripped text starts with the history marker. */
  predicate IsHistory(block: Json)
    requires Readable(block)
  {
    StartsWith(LStrip(BlockText(AsDict(block).value).value), HistoryMarker)
  }

  /** A history block with the step's entry appended to its right-stripped text. */
  function Extended(block: Json, formatted: string): Json
    requires Readable(block)
  {
    JObj(Update(AsDict(block).value, "text", JStr(RStrip(BlockText(AsDict(block).value).value) + formatted)))
  }

  /** One block after the rewrite: a history block is extended, any other block is kept as its dictionary copy. */
  function Rewritten(block: Json, formatted: string): (r: Json)
    requires Readable(block)
    ensures block.JObj? && !IsHistory(block) ==> r == block
    ensures !block.JObj? ==> r == JObj([])
  {
    if IsHistory(block) then Extended(block, formatted) else JObj(AsDict(block).value)
  }

  function TextBlock(text: string): Json {
    JObj([("type", JStr("text")), ("text", JStr(text))])
  }

  /**
   * The loop over the user message's content blocks: history blocks are extended, the
   * others copied; the flag says whether some block was a history block. A block that
   * is not a dictionary, or whose text is not a string, raises.
   */
  function RewriteBlocks(blocks: seq<Json>, formatted: string): (r: Result<(seq<Json>, bool)>)
    ensures r.Ok? <==> AllReadable(blocks)
    decreases |blocks|
  {
    var n := |blocks|;
    if n == 0 then Ok(([], false))
    else
      var prev := RewriteBlocks(blocks[..n - 1], formatted);
      var b := blocks[n - 1];
      ReadableSplit(blocks);
      if prev.Err? then Err(prev.msg)
      else if !Readable(b) then Err("TypeError: content block is not a dict with a text")
      else Ok((prev.value.0 + [Rewritten(b, formatted)], prev.value.1 || IsHistory(b)))
  }

  predicate AllReadable(blocks: seq<Json>) {
    forall i :: 0 <= i < |blocks| ==> Readable(blocks[i])
  }

  /** Every block is readable exactly when all but the last are and the last one is. */
  lemma ReadableSplit(blocks: seq<Json>)
    requires |blocks| > 0
    ensures AllReadable(blocks) <==> AllReadable(blocks[..|blocks| - 1]) && Readable(blocks[|blocks| - 1])
  {
    assert forall i :: 0 <= i < |blocks| - 1 ==> blocks[..|blocks| - 1][i] == blocks[i];
  }

  /** One step of the rewrite: the blocks before the last are rewritten as before, and the last one is appended. */
  lemma RewriteBlocksStep(blocks: seq<Json>, formatted: string)
    requires |blocks| > 0
    requires AllReadable(blocks)
    ensures RewriteBlocks(blocks[..|blocks| - 1], formatted).Ok?
    ensures RewriteBlocks(blocks, formatted) ==
      Ok((RewriteBlocks(blocks[..|blocks| - 1], formatted).value.0 + [Rewritten(blocks[|blocks| - 1], formatted)],
          RewriteBlocks(blocks[..|blocks| - 1], formatted).value.1 || IsHistory(blocks[|blocks| - 1])))
  {
    assert forall i :: 0 <= i < |blocks| - 1 ==> blocks[..|blocks| - 1][i] == blocks[i];
  }

  /** The rewrite gives one block per block. */
  lemma {:induction false} RewriteBlocksLength(blocks: seq<Json>, formatted: string)
    ensures RewriteBlocks(blocks, formatted).Ok? ==> |RewriteBlocks(blocks, formatted).value.0| == |blocks|
    decreases |blocks|
  {
    if |blocks| > 0 && RewriteBlocks(blocks, formatted).Ok? {
      RewriteBlocksStep(blocks, formatted);
      RewriteBlocksLength(blocks[..|blocks| - 1], formatted);
    }
  }

  /** Block by block: every history block is extended with the step's entry, every other block is copied unchanged and in place. */
  lemma {:induction false} RewriteBlocksMeaning(blocks: seq<Json>, formatted: string)
    requires AllReadable(blocks)
    ensures RewriteBlocks(blocks, formatted).Ok?
    ensures |RewriteBlocks(blocks, formatted).value.0| == |blocks|
    ensures forall i :: 0 <= i < |blocks| ==> RewriteBlocks(blocks, formatted).value.0[i] == Rewritten(blocks[i], formatted)
    decreases |blocks|
  {
    RewriteBlocksLength(blocks, formatted);
    var n := |blocks|;
    if n > 0 {
      var init := blocks[..n - 1];
      assert forall i :: 0 <= i < n - 1 ==> init[i] == blocks[i];
      RewriteBlocksStep(blocks, formatted);
      RewriteBlocksMeaning(init, formatted);
      var prev := RewriteBlocks(init, formatted).value.0;
      var r := RewriteBlocks(blocks, formatted).value.0;
      SnocPointwise(prev, Rewritten(blocks[n - 1], formatted), r);
      forall i | 0 <= i < n ensures r[i] == Rewritten(blocks[i], formatted) {
        if i < n - 1 {
          assert r[i] == prev[i] && init[i] == blocks[i];
        }
      }
    }
  }

  /** A sequence that extends `prev` by `x` agrees with `prev` below its last index. */
  lemma SnocPointwise<T>(prev: seq<T>, x: T, r: seq<T>)
    requires r == prev + [x]
    ensures forall i :: 0 <= i < |prev| ==> r[i] == prev[i]
    ensures r[|prev|] == x
  {
  }

  /** The rewrite reports a history block iff some block was one. */
  lemma {:induction false} RewriteBlocksFlag(blocks: seq<Json>, formatted: string)
    requires forall i :: 0 <= i < |blocks| ==> Readable(blocks[i])
    ensures RewriteBlocks(blocks, formatted).Ok?
    ensures RewriteBlocks(blocks, formatted).value.1 <==> exists i :: 0 <= i < |blocks| && IsHistory(blocks[i])
    decreases |blocks|
  {
    var n := |blocks|;
    if n > 0 {
      var init := blocks[..n - 1];
      assert forall i :: 0 <= i < n - 1 ==> init[i] == blocks[i];
      RewriteBlocksStep(blocks, formatted);
      RewriteBlocksFlag(init, formatted);
      var prev := RewriteBlocks(init, formatted).value.1;
      if prev {
        var i :| 0 <= i < n - 1 && IsHistory(init[i]);
        assert IsHistory(blocks[i]);
      }
      if !RewriteBlocks(blocks, formatted).value.1 {
        forall i | 0 <= i < n ensures !IsHistory(blocks[i]) {
          if i < n - 1 {
            assert init[i] == blocks[i];
          }
        }
      }
    }
  }

  /**
   * The new content of the user message. A list of blocks is rewritten, and when no
   * block was a history block but the step has an entry, one new history block is
   * appended. Any other content becomes one text block: the string itself (or its `str`)
   * followed by the entry.
   */
  function UserContent(content: Json, formatted: string): (r: Result<seq<Json>>)
    ensures !content.JList? ==>
      r == Ok([TextBlock((if content.JStr? then content.s else Str(content)) + formatted)])
    ensures content.JList? ==> (r.Ok? <==> RewriteBlocks(content.items, formatted).Ok?)
    ensures content.JList? && r.Ok? ==>
      |r.value| >= |content.items| && r.value[..|content.items|] == RewriteBlocks(content.items, formatted).value.0
    ensures content.JList? && r.Ok? ==>
      if !RewriteBlocks(content.items, formatted).value.1 && formatted != "" then
        |r.value| == |content.items| + 1 && r.value[|content.items|] == TextBlock(NewHistoryIntro + formatted)
      else |r.value| == |content.items|
  {
    if content.JList? then
      var rewritten := RewriteBlocks(content.items, formatted);
      RewriteBlocksLength(content.items, formatted);
      if rewritten.Err? then Err(rewritten.msg)
      else if !rewritten.value.1 && formatted != "" then
        Ok(rewritten.value.0 + [TextBlock(NewHistoryIntro + formatted)])
      else Ok(rewritten.value.0)
    else
      Ok([TextBlock((if content.JStr? then content.s else Str(content)) + formatted)])
  }

  /** The prompt of the step (the chat without a trailing assistant message) and that message, if any. */
  function SplitAction(chat: seq<Fields>): (r: (seq<Fields>, Option<Fields>))
    requires |chat| > 0
    ensures r.1.Some? <==> HasRole(chat[|chat| - 1], "assistant")
    ensures r.1.Some? ==> r.0 + [r.1.value] == chat
    ensures r.1.None? ==> r.0 == chat
  {
    if HasRole(chat[|chat| - 1], "assistant") then (chat[..|chat| - 1], Some(chat[|chat| - 1]))
    else (chat, None)
  }

  function UserMessage(blocks: seq<Json>): Fields {
    [("role", JStr("user")), ("content", JList(blocks))]
  }

  /**
   * The chat recorded at step `tag`: the `agent_info.chat_messages` of whatever object the
   * step file holds, when that attribute is a non-empty list.
   */
  function ChatAt(files: Listing, tag: string): (r: Result<seq<Fields>>)
    ensures r.Ok? <==>
      AttributesAt(files, tag).Some? && ChatOf(AttributesAt(files, tag).value).ChatList? &&
      |ChatOf(AttributesAt(files, tag).value).msgs| > 0
    ensures r.Ok? ==> r.value == ChatOf(AttributesAt(files, tag).value).msgs
  {
    var found := AttributesAt(files, tag);
    if found.None? then Err("target step file step_" + tag + ".pkl.gz missing or cannot be loaded")
    else
      var chat := ChatOf(found.value);
      if !chat.ChatList? || |chat.msgs| == 0
      then Err("agent_info.chat_messages of step " + tag + " unavailable or empty")
      else Ok(chat.msgs)
  }

  /**
   * What `get_trajectory_and_simulate_failure` does for a step: it returns the simulated
   * input, returns an error message, or raises.
   */
  datatype Simulated = Input(messages: seq<Fields>) | Failed(msg: string) | Raised(msg: string)

  /** The content of message `i`, `None` when it has none. */
  function ContentAt(msgs: seq<Fields>, i: nat): Json
    requires i < |msgs|
  {
    Lookup(msgs[i], "content").GetOr(JNull)
  }

  /** The history entry for the step's own action: the formatted content of a trailing assistant message, if there is one. */
  function EntryOf(chat: seq<Fields>, tag: string): (r: string)
    requires |chat| > 0
    ensures r != "" ==> HasRole(chat[|chat| - 1], "assistant")
  {
    var split := SplitAction(chat);
    if split.1.Some? then FormatForHistory(Lookup(split.1.value, "content").GetOr(JNull), tag) else ""
  }

  /**
   * The simulation on a non-empty chat: the first system message of the prompt, if any,
   * followed by one user message built from the prompt's last user message, whose history
   * now carries the step's own thought and action. A prompt without a user message is a
   * returned error; a content block the loop cannot read raises.
   */
  function Simulate(chat: seq<Fields>, tag: string): (r: Simulated)
    requires |chat| > 0
    ensures var p := SplitAction(chat).0;
      r.Failed? <==> forall i :: 0 <= i < |p| ==> !HasRole(p[i], "user")
    ensures var p := SplitAction(chat).0; var u := LastWith(p, "user");
      r.Raised? <==> u.Some? && ContentAt(p, u.value).JList? && !AllReadable(ContentAt(p, u.value).items)
    ensures var p := SplitAction(chat).0; var u := LastWith(p, "user"); var sys := FirstWith(p, "system");
      r.Input? ==>
        && u.Some?
        && UserContent(ContentAt(p, u.value), EntryOf(chat, tag)).Ok?
        && r.messages == (if sys.Some? then [p[sys.value]] else []) +
                         [UserMessage(UserContent(ContentAt(p, u.value), EntryOf(chat, tag)).value)]
  {
    var prompt := SplitAction(chat).0;
    var system := FirstWith(prompt, "system");
    var user := LastWith(prompt, "user");
    if user.None? then Failed("no user message in the prompt of step " + tag)
    else
      var content := UserContent(ContentAt(prompt, user.value), EntryOf(chat, tag));
      if content.Err? then Raised(content.msg)
      else Input((if system.Some? then [prompt[system.value]] else []) + [UserMessage(content.value)])
  }

  /**
   * The simulated input without reference to the search functions: a system message comes
   * first exactly when the prompt has one, and it is the prompt's first; the user message
   * comes last and holds the rewritten content of a user message after which the prompt
   * has none.
   */
  lemma SimulatedInputMeaning(chat: seq<Fields>, tag: string)
    requires |chat| > 0
    requires Simulate(chat, tag).Input?
    ensures var p := SplitAction(chat).0; var m := Simulate(chat, tag).messages;
      && (|m| == 2 <==> exists i :: 0 <= i < |p| && HasRole(p[i], "system"))
      && |m| >= 1
      && (|m| == 2 ==>
            exists i :: 0 <= i < |p| && m[0] == p[i] && HasRole(p[i], "system") &&
                        forall j :: 0 <= j < i ==> !HasRole(p[j], "system"))
      && HasRole(m[|m| - 1], "user")
      && exists i :: 0 <= i < |p| && HasRole(p[i], "user") && (forall j :: i < j < |p| ==> !HasRole(p[j], "user")) &&
                     UserContent(ContentAt(p, i), EntryOf(chat, tag)).Ok? &&
                     m[|m| - 1] == UserMessage(UserContent(ContentAt(p, i), EntryOf(chat, tag)).value)
  {
    var p := SplitAction(chat).0;
    var m := Simulate(chat, tag).messages;
    var u := LastWith(p, "user").value;
    var sys := FirstWith(p, "system");
    var last := UserMessage(UserContent(ContentAt(p, u), EntryOf(chat, tag)).value);
    assert HasRole(last, "user");
    assert m[|m| - 1] == last;
    if sys.Some? {
      assert m[0] == p[sys.value];
    }
  }

  /** A user message whose content list holds a non-empty plain string raises, as `dict("x")` does. */
  lemma StringBlockRaises(tag: string)
    ensures Simulate([UserMessage([JStr("x")])], tag).Raised?
  {
    var chat := [UserMessage([JStr("x")])];
    assert HasRole(chat[0], "user");
    assert !Readable(JStr("x"));
  }

  /** An empty-string block is copied as an empty dictionary, as `dict("")` gives `{}`, and the simulation goes on. */
  lemma EmptyStringBlockKept(tag: string)
    ensures Simulate([UserMessage([JStr("")])], tag).Input?
    ensures Simulate([UserMessage([JStr("")])], tag).messages ==
      [UserMessage([JObj([])])]
  {
    var chat := [UserMessage([JStr("")])];
    assert HasRole(chat[0], "user");
    assert !HasRole(chat[0], "assistant");
    assert Readable(JStr(""));
    assert !IsHistory(JStr(""));
    assert AllReadable([JStr("")]);
    RewriteBlocksMeaning([JStr("")], "");
    assert Rewritten(JStr(""), "") == JObj([]);
    assert RewriteBlocks([JStr("")], "").value.0 == [JObj([])];
    assert SplitAction(chat).0 == chat;
    assert EntryOf(chat, tag) == "";
    assert FirstWith(chat, "system").None?;
    assert LastWith(chat, "user") == Some(0);
    assert ContentAt(chat, 0) == JList([JStr("")]);
    assert UserContent(JList([JStr("")]), "") == Ok([JObj([])]);
  }

  /**
   * `get_trajectory_and_simulate_failure` for step `tag`: a step file without a readable,
   * non-empty chat, or a prompt without a user message, is a returned error; a content
   * block that is not a dictionary with string text raises; otherwise the simulated input.
   */
  function SimulateFailure(files: Listing, tag: string): (r: Simulated)
    ensures r.Failed? <==>
      ChatAt(files, tag).Err? || forall i :: 0 <= i < |SplitAction(ChatAt(files, tag).value).0| ==>
                                   !HasRole(SplitAction(ChatAt(files, tag).value).0[i], "user")
    ensures !r.Failed? ==> ChatAt(files, tag).Ok? && r == Simulate(ChatAt(files, tag).value, tag)
  {
    var chat := ChatAt(files, tag);
    if chat.Err? then Failed(chat.msg) else Simulate(chat.value, tag)
  }

  /** The outcome the caller sees when nothing was raised: the input, or the returned error message. */
  function Returned(s: Simulated): (r: Result<seq<Fields>>)
    requires !s.Raised?
    ensures r.Ok? <==> s.Input?
    ensures r.Ok? ==> r.value == s.messages
  {
    if s.Input? then Ok(s.messages) else Err(s.msg)
  }

  // ---------------------------------------------------------------------------------
  // Map entries and output files

  /** `isinstance(x, int) and x >= 0`; a bool passes too. */
  predicate ValidFailStep(x: Json) {
    IsPyInt(x) && PyIntValue(x) >= 0
  }

  /**
   * The steps a truncate-map entry asks for: a list gives its valid entries in order, a
   * valid number gives itself, and anything else, or no entry, gives nothing.
   */
  function FailSteps(entry: Option<Json>): (r: seq<Json>)
    ensures forall i :: 0 <= i < |r| ==> ValidFailStep(r[i])
    ensures entry.None? ==> r == []
  {
    if entry.None? then []
    else if entry.value.JList? then
      FilterMembers(entry.value.items, ValidFailStep);
      Filter(entry.value.items, ValidFailStep)
    else if ValidFailStep(entry.value) then [entry.value]
    else []
  }

  /** A list entry yields exactly its valid members, in their order; a number yields itself iff it is valid. */
  lemma FailStepsMeaning(entry: Json)
    ensures entry.JList? ==> FailSteps(Some(entry)) == Filter(entry.items, ValidFailStep)
    ensures entry.JList? ==> forall x :: x in entry.items && ValidFailStep(x) ==> x in FailSteps(Some(entry))
    ensures entry.JList? ==> forall x :: x in FailSteps(Some(entry)) ==> x in entry.items
    ensures !entry.JList? ==> FailSteps(Some(entry)) == if ValidFailStep(entry) then [entry] else []
  {
    if entry.JList? {
      FilterMembers(entry.items, ValidFailStep);
    }
  }

  /** How the goal field is filled. */
  datatype Goal = NotIncluded | NotLoaded | Loaded(text: string)

  function GoalText(goal: Goal): string {
    match goal
    case NotIncluded => "Goal not included by user option."
    case NotLoaded => "Goal object could not be loaded."
    case Loaded(t) => t
  }

  /**
   * The document for one failed step: the experiment information `base`, `input_step`,
   * the goal, and either the simulated `input` or an `input_error` saying why there is none.
   */
  function FailedStepDoc(base: Fields, goal: Goal, step: Json, input: Result<seq<Fields>>): (r: Fields)
    ensures Lookup(r, "input_step") == Some(step)
    ensures Lookup(r, "goal") == Some(JStr(GoalText(goal)))
    ensures input.Ok? && |input.value| > 0 ==> Lookup(r, "input") == Some(Messages(input.value))
    ensures input.Err? ==> Lookup(r, "input_error").Some? && Lookup(r, "input") == Lookup(base, "input")
    ensures forall k :: k !in {"input_step", "goal", "input", "input_error"} ==> Lookup(r, k) == Lookup(base, k)
  {
    var info := Update(Update(base, "input_step", step), "goal", JStr(GoalText(goal)));
    if input.Ok? && |input.value| > 0 then
      StackedUpdates(base, step, JStr(GoalText(goal)), "input", Messages(input.value));
      Update(info, "input", Messages(input.value))
    else
      var detail := if input.Err? && input.msg != "" then input.msg else "unknown error";
      var error := JStr("failed to get trajectory (step " + Str(step) + "): " + detail);
      StackedUpdates(base, step, JStr(GoalText(goal)), "input_error", error);
      Update(info, "input_error", error)
  }

  /** Setting `input_step`, `goal` and then `input` or `input_error` leaves every other key as it was. */
  lemma StackedUpdates(base: Fields, step: Json, goal: Json, key: string, v: Json)
    requires key == "input" || key == "input_error"
    ensures var r := Update(Update(Update(base, "input_step", step), "goal", goal), key, v);
      && Lookup(r, "input_step") == Some(step)
      && Lookup(r, "goal") == Some(goal)
      && Lookup(r, key) == Some(v)
      && (key == "input_error" ==> Lookup(r, "input") == Lookup(base, "input"))
      && forall k :: k !in {"input_step", "goal", "input", "input_error"} ==> Lookup(r, k) == Lookup(base, k)
  {
    var a := Update(base, "input_step", step);
    var b := Update(a, "goal", goal);
    UpdateAt(b, key, v, "input_step");
    UpdateAt(b, key, v, "goal");
    UpdateAt(a, "goal", goal, "input_step");
    if key == "input_error" {
      UpdateAt(b, key, v, "input");
      UpdateAt(a, "goal", goal, "input");
      UpdateAt(base, "input_step", step, "input");
    }
    forall k | k !in {"input_step", "goal", "input", "input_error"}
      ensures Lookup(Update(b, key, v), k) == Lookup(base, k)
    {
      UpdateAt(b, key, v, k);
      UpdateAt(a, "goal", goal, k);
      UpdateAt(base, "input_step", step, k);
    }
  }

  /**
   * The file name for step `tag` of directory `dirName`: `_FS{tag}` before the extension,
   * prefixed with the first risk keyword found in the directory name, ignoring case.
   */
  function OutputFileName(outputFilename: string, tag: string, dirName: string): string {
    var parts := SplitExt(outputFilename);
    var named := parts.0 + "_FS" + tag + parts.1;
    var k := FirstKeyword(RiskKeywords, dirName, true);
    if k < |RiskKeywords| then RiskKeywords[k] + "_" + named else named
  }

  /** The default name gains the step before `.json`. */
  lemma DefaultOutputName(tag: string, dirName: string)
    ensures var k := FirstKeyword(RiskKeywords, dirName, true);
      var named := "simulated_failed_input" + "_FS" + tag + ".json";
      OutputFileName("simulated_failed_input.json", tag, dirName) ==
        if k < |RiskKeywords| then RiskKeywords[k] + "_" + named else named
  {
    assert "simulated_failed_input.json" == "simulated_failed_input" + ".json";
    assert ".json"[1..] == "json";
    assert "simulated_failed_input"[0] != '.';
    SplitExtOf("simulated_failed_input", ".json");
  }

  /** A step for which `get_trajectory_and_simulate_failure` raises. */
  predicate Raises(files: Listing, step: Json) {
    SimulateFailure(files, Str(step)).Raised?
  }

  /** `_generate_single_json_for_failed_step` for a step that does not raise: the file it tries to write. */
  function Attempt(files: Listing, base: Fields, goal: Goal, outputFilename: string, dirName: string, step: Json): Written
    requires !Raises(files, step)
  {
    var tag := Str(step);
    Written(OutputFileName(outputFilename, tag, dirName), FailedStepDoc(base, goal, step, Returned(SimulateFailure(files, tag))))
  }

  /**
   * What happens in one task directory: the loop completes with the number of files
   * written, or a step raises and the exception ends the whole run after the attempts
   * made before it.
   */
  datatype DirRun = Completed(count: nat, attempts: seq<Written>) | Aborted(attempts: seq<Written>, error: string)

  /**
   * `generate_all_info_jsons_for_exp` for the task directory `dirName`: one attempt per
   * step its entry asks for, in order, until a step raises.
   */
  function GenerateAll(dirName: string, files: Listing, truncateMap: Fields, base: Fields, goal: Goal,
                       outputFilename: string, canWrite: string -> bool): (r: DirRun)
    ensures var steps := FailSteps(Lookup(truncateMap, dirName));
      r.Aborted? <==> exists i :: 0 <= i < |steps| && Raises(files, steps[i])
    ensures var steps := FailSteps(Lookup(truncateMap, dirName));
      && |r.attempts| <= |steps|
      && forall i :: 0 <= i < |r.attempts| ==>
           !Raises(files, steps[i]) && r.attempts[i] == Attempt(files, base, goal, outputFilename, dirName, steps[i])
    ensures var steps := FailSteps(Lookup(truncateMap, dirName));
      r.Aborted? ==> |r.attempts| < |steps| && Raises(files, steps[|r.attempts|])
    ensures var steps := FailSteps(Lookup(truncateMap, dirName));
      r.Completed? ==>
        (&& |r.attempts| == |steps|
         && r.count <= |r.attempts|
         && (r.count > 0 <==> exists i :: 0 <= i < |r.attempts| && canWrite(r.attempts[i].name)))
  {
    var steps := FailSteps(Lookup(truncateMap, dirName));
    var k := FirstRaise(files, steps);
    var attempts := AttemptsBefore(files, base, goal, outputFilename, dirName, steps, k);
    if k < |steps| then Aborted(attempts, SimulateFailure(files, Str(steps[k])).msg)
    else Completed(CountWritten(attempts, canWrite), attempts)
  }

  /** One attempt for each of the first `k` steps, none of which raises. */
  function AttemptsBefore(files: Listing, base: Fields, goal: Goal, outputFilename: string, dirName: string,
                          steps: seq<Json>, k: nat): (r: seq<Written>)
    requires k <= |steps|
    requires forall i :: 0 <= i < k ==> !Raises(files, steps[i])
    ensures |r| == k
    ensures forall i :: 0 <= i < k ==> r[i] == Attempt(files, base, goal, outputFilename, dirName, steps[i])
  {
    seq(k, i requires 0 <= i < k => Attempt(files, base, goal, outputFilename, dirName, steps[i]))
  }

  /** The position of the first step that raises, or the number of steps when none does. */
  function FirstRaise(files: Listing, steps: seq<Json>): (k: nat)
    ensures k <= |steps|
    ensures forall i :: 0 <= i < k ==> !Raises(files, steps[i])
    ensures k < |steps| ==> Raises(files, steps[k])
    decreases |steps|
  {
    if |steps| == 0 then 0
    else if Raises(files, steps[0]) then 0
    else
      var k := FirstRaise(files, steps[1..]);
      assert forall i :: 1 <= i <= k ==> steps[1..][i - 1] == steps[i];
      k + 1
  }
}
