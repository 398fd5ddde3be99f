# Trajectory analysis for hallucination data, modelled in Dafny

This project models the trajectory-analysis scripts of a web-agent hallucination
dataset. A *task directory* holds the agent's recorded steps (`step_N.pkl.gz`, each an
`StepInfo` with `action`, `obs` and `agent_info` once unpickled).

The two analysis engines scan these directories.

- `find_repetitive_actions` reports every step whose action is the 3rd to 10th
  occurrence of that action in the task. The reports are grouped into per-rank buckets.
  The earliest step of each bucket becomes that task's *truncation point* for the rank.
  The other steps of the bucket become *exclusion records*.
- `find_env_errors` reports every step whose observation carries a non-empty
  `last_action_error` other than the click timeout. It also builds the *error transition
  map* (task name to erroring steps) and copies each erroring task directory once.

Around them sit the scripts that consume or prepare their output:

- the info-file generators that read a truncate map and write one prompt document per
  selected step: the error-info generator (with its at-most-two-in-a-row action filter),
  the copied-observation generator (which simulates the failed step's prompt), and the
  Webarena generator;
- `determine_n`, which derives a truncate map from `experiment.log` files;
- the clean-up and renaming scripts (subfolder clean-up, folder renaming, moving input
  files into per-risk directories, the two recursive JSON deleters, and the `input_step`
  fix);
- the two task-file filters;
- the chat helper that folds the system message into the first user message.

Every script's file-system effects, unpickling and JSON parsing are inputs or values here.
A directory is a listing and a loaded file is a datatype. Whether a write, move, delete or
copy succeeds is a parameter.

The modules follow the source files:

| module | models |
|---|---|
| `Trajectory` | step records, step-file listings, numbering, task-directory discovery |
| `JsonData`, `PyObjects` | loaded JSON values with Python's `get`/`in`/`str`; attribute walks (`safe_extract`) |
| `FindRepetitive` | `find_repetitive.py` |
| `FindError` | `find_error.py` |
| `GenerateErrorInfo` | the error-info generator |
| `CopiedObservation` | the copied-observation generator |
| `WebarenaInfo` | the Webarena info generator |
| `ErrorMapHandoff` | the error transition map as written and as its readers consume it |
| `DetermineN`, `CleanupRename`, `RenameFolders`, `MoveInputJson`, `DeleteJson`, `AddOne`, `TaskFilters`, `HfUtils` | the helper scripts, one module each |
| `Wrappers`, `Strings`, `Sorting`, `InfoFiles` | shared helpers |

## Notes on the code

- `find_repetitive.py` counts the occurrences of an action over the whole task, not over
  unbroken runs (lines 64-99): a step is reported when its action has occurred two to nine
  times before it anywhere in the task. The only run-length logic in these scripts is the
  at-most-two-in-a-row filter of the error-info generator
  (`generate_error_info.py` lines 249-266).
- The key of an action is `str(action)` (`find_repetitive.py` lines 78-83), so a step whose
  `action` is `None` is counted under the key `"None"` like any other action
  (`FindRepetitive.ActionKey`).
- The three info generators read a step object by `hasattr` and never test its class, so
  an unpickled object of another class is read through the same attributes. The two
  analysis engines skip any object that is not a `StepInfo` (`find_repetitive.py` line 71,
  `find_error.py` line 69).

## Model

| member | source | states |
|---|---|---|
| Trajectory.StepFileNameParses | src/agentlab/agents/find_repetitive.py:65 | the number read back from `step_N.pkl.gz` (field 1 of the `_` split, up to the dot) is `N` |
| Trajectory.Ordered | src/agentlab/agents/find_repetitive.py:53-55 | the processing order is a permutation of the listing, sorted by step number |
| Trajectory.FindByNum | src/agentlab/agents/find_error.py:100-104 | looking up `step_{n}` finds a listed file numbered `n`, and finds nothing exactly when no such file is listed |
| Trajectory.FindNamedNum | hallucination_traj_sample/Webarena_unexpected_transition/generate_error_info.py:90 | looking a step up by its rendered number finds the same file as looking it up by number |
| Trajectory.FindNamedNonNumeric | hallucination_traj_sample/Webarena_unexpected_transition/generate_error_info.py:90-92 | a tag with a non-digit character names no step file |
| Trajectory.FirstWith | hallucination_traj_sample/Webarena_unexpected_transition/generate_error_info.py:101-105 | the first message with a role: it has the role, none before it has, and there is none exactly when no message has it |
| Trajectory.LastWith | hallucination_traj_sample/Webarena_unexpected_transition/generate_input_add_copied_observation.py:148-152 | the last message with a role: it has the role, none after it has, and there is none exactly when no message has it |
| Trajectory.Thought | src/agentlab/agents/find_repetitive.py:107-115 | a step's thought is `agent_info.think` when present, and `None` otherwise |
| Trajectory.DiscoverTaskDirs | src/agentlab/agents/find_repetitive.py:28-40 | every discovered path is a visible non-benchmark directory, or a visible sub-directory of `WorkArena`/`Webarena` |
| Trajectory.DiscoverComplete | src/agentlab/agents/find_error.py:28-39 | every such directory is discovered: no task directory is missed |
| PyObjects.SafeExtract | hallucination_traj_sample/Webarena_unexpected_transition/generate_error_info.py:135-146 | the result is the value at the end of the dotted path, or the default as soon as a segment is missing |
| PyObjects.MissingSegment | hallucination_traj_sample/Webarena/generate_info.py:105-113 | once one segment is missing, the whole path yields the default |
| PyObjects.AttributesFirst | hallucination_traj_sample/Webarena_unexpected_transition/generate_input_add_copied_observation.py:224-234 | the variant that also reads dictionary keys finds whatever the attribute-only variant finds |
| PyObjects.WalkAppend | hallucination_traj_sample/Webarena_unexpected_transition/generate_input_add_copied_observation.py:227-233 | walking a path in two parts is walking the first part, then the second from where it ended |
| JsonData.Lookup | src/agentlab/agents/find_error.py:74 | `d.get(k)`: the value of the last binding of `k`, and none exactly when `k` is not a key |
| JsonData.Update | hallucination_traj_sample/Webarena_unexpected_transition/add_1.py:18 | `d[k] = v`: `k` now holds `v` and every other key keeps its value |
| FindRepetitive.IndexOf | src/agentlab/agents/find_repetitive.py:99 | `list.index`: the first position holding the number, which exists when the number is in the list |
| FindRepetitive.RankIsEarlierCount | src/agentlab/agents/find_repetitive.py:93-99 | when the sorted step numbers are distinct, a step's occurrence rank is one more than the number of earlier steps with the same action key, and the occurrences before it are exactly those steps |
| FindRepetitive.EntryFor | src/agentlab/agents/find_repetitive.py:102-130 | a report exists only for a counted step of rank 3 to 10, and names the task, the step and its action |
| FindRepetitive.EntryMeaning | src/agentlab/agents/find_repetitive.py:118-130 | when the sorted step numbers are distinct, a report's `repetition_count` is its rank, and `repeat_steps` are the earlier occurrences of its action, ascending and before the step |
| FindRepetitive.Emit | src/agentlab/agents/find_repetitive.py:93-132 | every report of a task has a rank in the window and the task's name |
| FindRepetitive.CountKeyStep | src/agentlab/agents/find_repetitive.py:99-104 | when the sorted step numbers are distinct, one more step adds a report for its key exactly when it is that key's 3rd to 10th occurrence |
| FindRepetitive.EntriesPerKey | src/agentlab/agents/find_repetitive.py:102-132 | when no two step files of the task read as the same number, an action seen `n` times yields exactly `max(0, min(n, 10) - 2)` reports |
| FindRepetitive.DuplicateNumberRank | src/agentlab/agents/find_repetitive.py:93-99 | two counted steps with the same key and the same number (`step_3` and `step_03`) share a rank, and the later one's rank is at most its number of earlier occurrences, so the conditions above are needed |
| FindRepetitive.UncountedStepsIgnored | src/agentlab/agents/find_repetitive.py:67-87 | steps that fail to load, are not `StepInfo` records or lack an action change no report |
| FindRepetitive.OccurrencesIncreasing | src/agentlab/agents/find_repetitive.py:84 | over step files in increasing order, the occurrence lists are strictly increasing |
| FindRepetitive.BucketRanks | src/agentlab/agents/find_repetitive.py:135 | the buckets of a task, one per distinct rank |
| FindRepetitive.BucketRanksSpec | src/agentlab/agents/find_repetitive.py:135 | a rank has a bucket exactly when some report has that rank |
| FindRepetitive.SortedBucket | src/agentlab/agents/find_repetitive.py:145 | a bucket sorted by step number is a permutation of the bucket |
| FindRepetitive.BucketSelection | src/agentlab/agents/find_repetitive.py:142-163 | the selected step is the smallest step number in the bucket; the other entries give `len - 1` exclusions, each naming the selected step and one excluded entry |
| FindRepetitive.SetAt | src/agentlab/agents/find_repetitive.py:149 | `truncate_maps[k][name] = step` sets that cell |
| FindRepetitive.SetAtOther | src/agentlab/agents/find_repetitive.py:149 | setting one cell leaves every other cell as it was |
| FindRepetitive.AssignCell | src/agentlab/agents/find_repetitive.py:142-149 | recording a task's truncation points defines a cell exactly when one of them has that rank, with the last such step |
| FindRepetitive.TaskTruncationsLast | src/agentlab/agents/find_repetitive.py:142-149 | the truncation point recorded for a rank is the selected step of that rank's bucket |
| FindRepetitive.AssignAllMeaning | src/agentlab/agents/find_repetitive.py:44-149 | after several tasks, a cell is defined exactly when one of them sets it, and it holds what the last such task recorded |
| FindRepetitive.RecordSets | src/agentlab/agents/find_repetitive.py:142-149 | a task directory sets a cell exactly when it has a bucket for that rank, and the cell holds that bucket's selected step |
| FindRepetitive.TruncateMapsMeaning | src/agentlab/agents/find_repetitive.py:142-149 | `truncate_maps[k][name]` exists exactly when a task called `name` has a rank-`k` bucket, and holds the smallest step of the last such task |
| FindRepetitive.FindRepetitiveActions | src/agentlab/agents/find_repetitive.py:44-187 | the results are all reports in task order; `repetition_counts[k]` is the number of reports of rank `k`, present exactly when positive; the exclusions and truncation maps are those of the tasks |
| FindRepetitive.CountEntries | src/agentlab/agents/find_repetitive.py:132-135 | appending a task's reports keeps the per-rank counts equal to the number of reports of each rank |
| FindRepetitive.RecordBuckets | src/agentlab/agents/find_repetitive.py:142-163 | the bucket loop records each bucket's selected step and appends its exclusion records |
| FindError.LastActionError | src/agentlab/agents/find_error.py:74 | `obs.get("last_action_error", "")`: the value when the key is present, `""` when it is absent, and no value without an observation dictionary |
| FindError.ErrorOf | src/agentlab/agents/find_error.py:69-81 | a step reports an error only when it is a `StepInfo` whose error is reportable, and always then |
| FindError.StringErrorReported | src/agentlab/agents/find_error.py:76-81 | a string error is reported exactly when it is non-empty and does not contain the click timeout |
| FindError.MissingErrorNotReported | src/agentlab/agents/find_error.py:74-81 | a step without the key reports nothing |
| FindError.Previous | src/agentlab/agents/find_error.py:99-128 | the previous action and thought are `None` for step 0, and otherwise come from the listed `StepInfo` numbered one lower, when it has an action |
| FindError.PreviousSource | src/agentlab/agents/find_error.py:99-128 | whatever is reported as previous comes from a listed `StepInfo` numbered one lower; a missing file gives `None` |
| FindError.EntryAt | src/agentlab/agents/find_error.py:80-143 | a report exists exactly when the step has a reportable error, and carries the task name, `step_N`, the error, the current action and thought, and the previous ones |
| FindError.ErrorsInNums | src/agentlab/agents/find_error.py:59-143 | the reports of a task are, one for one, its erroring step numbers labelled `step_N` |
| FindError.ErrorNumsMembers | src/agentlab/agents/find_error.py:59-81 | a step number is reported exactly when a file with that number has a reportable error |
| FindError.ErrorNumsAscending | src/agentlab/agents/find_error.py:52-59 | over sorted step files the reported numbers ascend |
| FindError.TaskErrorsOrdered | src/agentlab/agents/find_error.py:43-147 | a task's reports name its erroring steps in ascending step order |
| FindError.Find | src/agentlab/agents/find_error.py:94 | the first position of a name in the insertion-ordered map, or none when it is not a key |
| FindError.Append | src/agentlab/agents/find_error.py:94-96 | appending under a new name adds one list at the end; under a known name the map keeps its length |
| FindError.AppendGet | src/agentlab/agents/find_error.py:94-96 | appending extends the list of that name by the value and leaves every other list alone |
| FindError.AppendFind | src/agentlab/agents/find_error.py:94-96 | appending keeps every other name where it was |
| FindError.MapOfGet | src/agentlab/agents/find_error.py:94-96 | the map has each name once, and the list of a name holds the values appended under it, in order |
| FindError.MapOfKeys | src/agentlab/agents/find_error.py:94-96 | a name is a key exactly when something was appended under it |
| FindError.MapOfTotal | src/agentlab/agents/find_error.py:94-96 | the list lengths add up to the number of appends |
| FindError.ErrorMapMeaning | src/agentlab/agents/find_error.py:94-96 | `error_transition_map[name]` lists `current_step` of every report of a task called `name`, in order; a name is a key exactly when it has a report; the lengths add up to the number of reports |
| FindError.ErrorMapTask | src/agentlab/agents/find_error.py:85-96 | the labels under a name are `step_N` of that name's erroring steps |
| FindError.PairsAreLabelledHits | src/agentlab/agents/find_error.py:83-96 | the `(task_name, current_step)` pairs of the reports are the labelled erroring steps |
| FindError.CopyTask | src/agentlab/agents/find_error.py:150-163 | a task is copied exactly when it had an error, a destination is given, the name was not moved before, the target does not exist and `copytree` succeeds; a `copytree` that fails after creating the target leaves that target behind without recording the name; otherwise nothing changes |
| FindError.PartialCopyBlocks | src/agentlab/agents/find_error.py:150-163 | after a copy that failed part-way, the name is not in `moved_tasks` but a later task of the same name is not copied, because its target exists |
| FindError.CopyTaskSafe | src/agentlab/agents/find_error.py:150-163 | one copy decision keeps the copy bookkeeping consistent (existing paths are the old ones plus the targets of copies and part-way failures) and free of repeats |
| FindError.CopyOnce | src/agentlab/agents/find_error.py:150-163 | over a run, no copy lands on a path that existed before and no name is copied twice |
| FindError.CopiedHadError | src/agentlab/agents/find_error.py:150-158 | every copied name belongs to a task that had an error and whose copy succeeded |
| FindError.CopyOnceTasks | src/agentlab/agents/find_error.py:43-163 | the same in terms of task directories |
| FindError.FindEnvErrors | src/agentlab/agents/find_error.py:11-183 | the results are all reports in task order, the map is built from them, and the copy bookkeeping is that of the copy decisions in order |
| FindError.ScanTask | src/agentlab/agents/find_error.py:59-147 | scanning one task appends its reports, records them in the map, and flags the task exactly when it had a report |
| FindError.RunStep | src/agentlab/agents/find_error.py:43-163 | one more task appends its reports and makes its copy decision |
| GenerateErrorInfo.CutAtFirstAssistant | hallucination_traj_sample/Webarena_unexpected_transition/generate_error_info.py:100-109 | the input is the longest prefix of the chat without an assistant message |
| GenerateErrorInfo.InputOfStep | hallucination_traj_sample/Webarena_unexpected_transition/generate_error_info.py:88-113 | the input exists exactly when the step file exists, loads, and the loaded object, of whatever class, has an `agent_info.chat_messages` list; it is then that list cut before its first assistant message; an absent or `None` attribute is an error |
| GenerateErrorInfo.ActionOfStep | hallucination_traj_sample/Webarena_unexpected_transition/generate_error_info.py:116-132 | the compared key exists exactly when the step file loads to an object, of whatever class, whose `action` attribute is present and not `None`, and it is then `str(action)` (also lines 255-256) |
| GenerateErrorInfo.RunPosMeaning | hallucination_traj_sample/Webarena_unexpected_transition/generate_error_info.py:258-264 | the loop's counter is the length of the current run of equal keys |
| GenerateErrorInfo.RunPosAboveTwo | hallucination_traj_sample/Webarena_unexpected_transition/generate_error_info.py:258-261 | the counter passes 2 exactly at the third of three equal keys in a row |
| GenerateErrorInfo.ThinSteps | hallucination_traj_sample/Webarena_unexpected_transition/generate_error_info.py:249-266 | the filter loop as written (starting from `None` with count 0) computes the reference filter |
| GenerateErrorInfo.ThinnedPositions | hallucination_traj_sample/Webarena_unexpected_transition/generate_error_info.py:249-266 | the kept steps are a subsequence of the sorted steps, made of exactly the steps at most second in their run |
| GenerateErrorInfo.ThinnedKeepsFirst | hallucination_traj_sample/Webarena_unexpected_transition/generate_error_info.py:262-264 | the first sorted step is always kept |
| GenerateErrorInfo.ThinnedConstant | hallucination_traj_sample/Webarena_unexpected_transition/generate_error_info.py:258-261 | steps that all share one action are cut down to the first two |
| GenerateErrorInfo.ThinnedKeepsAll | hallucination_traj_sample/Webarena_unexpected_transition/generate_error_info.py:249-266 | nothing is dropped exactly when no three adjacent sorted steps share an action |
| GenerateErrorInfo.NoRepeatsKeepsAll | hallucination_traj_sample/Webarena_unexpected_transition/generate_error_info.py:262-264 | when no two adjacent steps share an action, every step is kept |
| GenerateErrorInfo.DefaultNameUnsuffixed | hallucination_traj_sample/Webarena_unexpected_transition/generate_error_info.py:201-202 | the default output name `info.json` contains no `_info.json`, so the suffix is never added (also lines 308-310) |
| GenerateErrorInfo.TrailingNameSuffixed | hallucination_traj_sample/Webarena_unexpected_transition/generate_error_info.py:201-202 | a name ending in its only `_info.json` gets the suffix just before it |
| GenerateErrorInfo.StepDoc | hallucination_traj_sample/Webarena_unexpected_transition/generate_error_info.py:177-199 | the document carries `input_step`, the goal when loaded, and `input` only when the step's input is a non-empty chat; every other key is the extracted information's |
| GenerateErrorInfo.SortSteps | hallucination_traj_sample/Webarena_unexpected_transition/generate_error_info.py:254 | `sorted`: a permutation; integers come out ascending; a list of integers or of strings always sorts (floats are not ordered, see Left out) |
| GenerateErrorInfo.GenerateInfo | hallucination_traj_sample/Webarena_unexpected_transition/generate_error_info.py:235-289 | no entry gives no file and failure; success means some attempted file was written; an error only for a list entry that `SortSteps` refuses, which in the script aborts the whole run |
| GenerateErrorInfo.GenerateInfoList | hallucination_traj_sample/Webarena_unexpected_transition/generate_error_info.py:246-285 | a sortable list gives one attempt per selected step, in sorted order, each holding that step as `input_step` and named with its `_S` suffix; the selected steps are list entries, at most as many, and include the smallest |
| GenerateErrorInfo.GenerateInfoSingle | hallucination_traj_sample/Webarena_unexpected_transition/generate_error_info.py:286-289 | any other entry gives exactly one attempt, named `outputFilename` itself, whose `input_step` is the entry, and success exactly when that file can be written |
| CopiedObservation.FormatForHistory | hallucination_traj_sample/Webarena_unexpected_transition/generate_input_add_copied_observation.py:84-100 | the history entry is non-empty exactly for a non-empty string or a dictionary, and is then the step header followed by the text or the think/action pair |
| CopiedObservation.RewriteBlocks | hallucination_traj_sample/Webarena_unexpected_transition/generate_input_add_copied_observation.py:192-203 | the block loop succeeds exactly when `dict` converts every block (a dictionary, the empty string or the empty list) and each text, if there is one, is a string; it then gives one block per block |
| CopiedObservation.RewriteBlocksMeaning | hallucination_traj_sample/Webarena_unexpected_transition/generate_input_add_copied_observation.py:193-203 | each block is rewritten on its own and in place: history blocks are extended, other dictionaries are kept unchanged, and an empty string or list becomes `{}` |
| CopiedObservation.RewriteBlocksFlag | hallucination_traj_sample/Webarena_unexpected_transition/generate_input_add_copied_observation.py:192-200 | the history flag is set exactly when some block is a history block |
| CopiedObservation.UserContent | hallucination_traj_sample/Webarena_unexpected_transition/generate_input_add_copied_observation.py:157-211 | non-list content becomes one text block with the entry appended; a list keeps its rewritten blocks and gains one new history block only when none was found and the entry is non-empty |
| CopiedObservation.SplitAction | hallucination_traj_sample/Webarena_unexpected_transition/generate_input_add_copied_observation.py:133-138 | a trailing assistant message is split off from the prompt; otherwise the prompt is the whole chat |
| CopiedObservation.ChatAt | hallucination_traj_sample/Webarena_unexpected_transition/generate_input_add_copied_observation.py:112-127 | the chat exists exactly when the step file loads to an object, of whatever class, whose `agent_info.chat_messages` is a non-empty list, and it is then that list |
| CopiedObservation.SimulateFailure | hallucination_traj_sample/Webarena_unexpected_transition/generate_input_add_copied_observation.py:103-155 | a returned error exactly when the step has no readable, non-empty chat or its prompt has no user message; otherwise the simulation of that chat, which may raise |
| CopiedObservation.Simulate | hallucination_traj_sample/Webarena_unexpected_transition/generate_input_add_copied_observation.py:129-221 | a returned error exactly when the prompt has no user message; a raise exactly when the last user message's content is a list holding a block that `dict` does not convert or whose text is not a string; otherwise the prompt's first system message, if it has one, followed by one user message whose content is `UserContent` of the last user message with the step's own history entry (also lines 103-111) |
| CopiedObservation.SimulatedInputMeaning | hallucination_traj_sample/Webarena_unexpected_transition/generate_input_add_copied_observation.py:140-221 | the input has a system message exactly when the prompt has one, and it is the prompt's first; it ends with a user message built from a user message after which the prompt has none |
| CopiedObservation.StringBlockRaises | hallucination_traj_sample/Webarena_unexpected_transition/generate_input_add_copied_observation.py:193-194 | a chat whose user message holds a plain string among its content blocks makes the simulation raise |
| CopiedObservation.EmptyStringBlockKept | hallucination_traj_sample/Webarena_unexpected_transition/generate_input_add_copied_observation.py:193-203 | an empty-string block does not raise: it is copied as `{}` and the simulated input is built |
| CopiedObservation.FailSteps | hallucination_traj_sample/Webarena_unexpected_transition/generate_input_add_copied_observation.py:340-354 | the steps asked for are all non-negative integers, and none without an entry |
| CopiedObservation.FailStepsMeaning | hallucination_traj_sample/Webarena_unexpected_transition/generate_input_add_copied_observation.py:340-352 | a list yields exactly its valid members in order; a number yields itself exactly when it is valid |
| CopiedObservation.FailedStepDoc | hallucination_traj_sample/Webarena_unexpected_transition/generate_input_add_copied_observation.py:265-287 | the document carries `input_step`, the goal text, and either the simulated `input` or an `input_error` |
| CopiedObservation.DefaultOutputName | hallucination_traj_sample/Webarena_unexpected_transition/generate_input_add_copied_observation.py:289-301 | the default name becomes `simulated_failed_input_FS{step}.json`: the step goes just before `.json`, and the first risk keyword found in the directory name, ignoring case, comes in front with an underscore |
| CopiedObservation.GenerateAll | hallucination_traj_sample/Webarena_unexpected_transition/generate_input_add_copied_observation.py:333-355 | the run in a directory is aborted exactly when some step asked for raises; the attempts are one per step, in order, up to the first raising step, which gets none; a completed run makes one attempt per step, and its count is at most the attempts and positive exactly when some attempt was written (also lines 194, 198 and 281) |
| CopiedObservation.FirstRaise | hallucination_traj_sample/Webarena_unexpected_transition/generate_input_add_copied_observation.py:341-347 | the loop reaches the first step that raises, or the end when none does; every step before it returns |
| WebarenaInfo.StepTagNumbers | hallucination_traj_sample/Webarena/generate_info.py:75-78 | a request for step 1 reads `step_0`; any other step number reads its own file |
| WebarenaInfo.StepOneReadsZero | hallucination_traj_sample/Webarena/generate_info.py:75-76 | a request for step 1 finds the same input as one for step 0 |
| WebarenaInfo.FirstPresent | hallucination_traj_sample/Webarena/generate_info.py:97-99 | the first of the observation keys present, and none before it |
| WebarenaInfo.InputOfStep | hallucination_traj_sample/Webarena/generate_info.py:74-103 | a missing or unloadable file, or a `chat_messages` that is present but `None`, gives an error; otherwise the input is the content of the last user message of the chat, or else the first present of `goal_object`, `task_description`, `prompt` in the observation; the object may be of any class |
| WebarenaInfo.InfoDocMeaning | hallucination_traj_sample/Webarena/generate_info.py:186-207 | the document carries the goal, `input_step` exactly when the directory is in the map, and `input` only for a truthy input |
| WebarenaInfo.OutputName | hallucination_traj_sample/Webarena/generate_info.py:210-218 | the file is named `{risk}_{dir}.json` for the first risk keyword in the directory name, else `{dir}.json` |
| WebarenaInfo.NoMapNoInput | hallucination_traj_sample/Webarena/generate_info.py:65-72 | a missing or unreadable map adds neither `input_step` nor `input` |
| WebarenaInfo.GenerateInfoJsonWrites | hallucination_traj_sample/Webarena/generate_info.py:220-242 | the document goes to the directory-named file, the result is whether it could be written, and `input_step` is the map's entry |
| ErrorMapHandoff.MapJsonLookup | src/agentlab/agents/find_error.py:176-178 | the dumped map, read back, holds each name's list under its name and nothing else |
| ErrorMapHandoff.WrittenErrorMapMeaning | src/agentlab/agents/find_error.py:94-96 | the saved map has a field exactly for the names with reports, holding their `step_N` labels in order (also lines 176-178) |
| ErrorMapHandoff.LabelsNonNumeric | src/agentlab/agents/find_error.py:61 | every saved value is a string that starts with a letter (also line 96) |
| ErrorMapHandoff.NonNumericTagUnreadable | hallucination_traj_sample/Webarena_unexpected_transition/generate_error_info.py:90-92 | such a string names no step file, so it has neither input nor action (also lines 118-120) |
| ErrorMapHandoff.NonNumericSelected | hallucination_traj_sample/Webarena_unexpected_transition/generate_error_info.py:254-266 | a list of such strings sorts, and at most two of them survive the filter |
| ErrorMapHandoff.WrittenMapStarvesCopiedObservation | hallucination_traj_sample/Webarena_unexpected_transition/generate_input_add_copied_observation.py:340-347 | the copied-observation generator completes with no attempt for any name of the saved map |
| ErrorMapHandoff.WrittenMapStarvesErrorInfo | hallucination_traj_sample/Webarena_unexpected_transition/generate_error_info.py:246-285 | the error-info generator writes at most two documents for a name of the saved map, none with an input of its own |
| ErrorMapHandoff.HitsAreReports | src/agentlab/agents/find_error.py:80-96 | a task name has an erroring step exactly when it has a report |
| ErrorMapHandoff.StepErrorMapKeys | src/agentlab/agents/find_error.py:94-96 | the map of step numbers has the same keys as the saved map |
| ErrorMapHandoff.StepErrorMapLabels | src/agentlab/agents/find_error.py:61 | the saved labels spell the numbers the map of numbers lists, in order (also line 96) |
| ErrorMapHandoff.StepErrorMapFeedsCopiedObservation | hallucination_traj_sample/Webarena_unexpected_transition/generate_input_add_copied_observation.py:340-347 | the copied-observation generator reads every erroring step of the task from the map of numbers; it completes exactly when none of them raises, then with one attempt per step, and attempt i carries the i-th erroring step as `input_step` |
| DetermineN.ActionFlags | hallucination_traj_sample/Webarena_original_infeasible/determine_n.py:34-35 | one flag per log line, set exactly on the lines that strip to `action:` |
| DetermineN.FirstMarked | hallucination_traj_sample/Webarena_original_infeasible/determine_n.py:37-42 | the first action header whose next line contains `send_msg_to_user` |
| DetermineN.TruncationIndexMeaning | hallucination_traj_sample/Webarena_original_infeasible/determine_n.py:28-50 | the number is the count of action headers before the first marked one, or `max(total - 1, 0)` when none is marked |
| DetermineN.HeadersSpaced | hallucination_traj_sample/Webarena_original_infeasible/determine_n.py:43-44 | after an action header the scan skips a line, so two headers are at least two lines apart |
| DetermineN.HeadersSkipNext | hallucination_traj_sample/Webarena_original_infeasible/determine_n.py:44 | the line after an action header is never itself taken as a header |
| DetermineN.HeadersIncrease | hallucination_traj_sample/Webarena_original_infeasible/determine_n.py:33-46 | the headers are met in increasing line order |
| DetermineN.ScanLog | hallucination_traj_sample/Webarena_original_infeasible/determine_n.py:28-50 | the scan loop computes that number, which is never negative |
| DetermineN.TruncateMap | hallucination_traj_sample/Webarena_original_infeasible/determine_n.py:14-22 | every directory with a log gets a non-negative step (also line 40, line 50) |
| DetermineN.TruncateMapKeys | hallucination_traj_sample/Webarena_original_infeasible/determine_n.py:14-22 | the map's keys are exactly the directories that have a log |
| DetermineN.DetermineAll | hallucination_traj_sample/Webarena_original_infeasible/determine_n.py:11-50 | the loop over the directories builds that map |
| CleanupRename.Candidates | hallucination_traj_sample/Webarena_unexpected_transition/cleanup_and_rename.py:17-18 | the candidates are exactly the entries matching `simulated_failed_input_FS*.json` |
| CleanupRename.ScheduledNames | hallucination_traj_sample/Webarena_unexpected_transition/cleanup_and_rename.py:24-35 | a name is scheduled exactly when its entry is a regular JSON file, not the summary and not a candidate |
| CleanupRename.DeletionPlan | hallucination_traj_sample/Webarena_unexpected_transition/cleanup_and_rename.py:24-35 | the summary, every candidate and every non-JSON name are kept; every other regular JSON file is scheduled |
| CleanupRename.Succeeded | hallucination_traj_sample/Webarena_unexpected_transition/cleanup_and_rename.py:40-45 | exactly the scheduled names whose deletion succeeds are gone |
| CleanupRename.ProcessSubfolder | hallucination_traj_sample/Webarena_unexpected_transition/cleanup_and_rename.py:6-86 | a dry run changes nothing; only scheduled files are deleted; a rename needs exactly one candidate not already so named, and a target absent after the deletions |
| CleanupRename.UntouchedEntries | hallucination_traj_sample/Webarena_unexpected_transition/cleanup_and_rename.py:24-79 | non-JSON entries and the summary come through unchanged |
| CleanupRename.RenameWhen | hallucination_traj_sample/Webarena_unexpected_transition/cleanup_and_rename.py:53-79 | outside a dry run the rename is made exactly when there is one candidate, it is not the target, the target is absent, and the rename succeeds |
| CleanupRename.ProcessParent | hallucination_traj_sample/Webarena_unexpected_transition/cleanup_and_rename.py:114-118 | each result names a directory entry of the parent together with the outcome of processing it, and there are no more results than entries |
| CleanupRename.ProcessParentInOrder | hallucination_traj_sample/Webarena_unexpected_transition/cleanup_and_rename.py:114-118 | the results are exactly the directory entries, each processed once, in listing order |
| CleanupRename.ProcessParentCount | hallucination_traj_sample/Webarena_unexpected_transition/cleanup_and_rename.py:114-117 | the number processed is the number of directory entries |
| HfUtils.FirstRole | src/agentlab/llm/huggingface_utils.py:136-140 | the first message with the role, and none before it |
| HfUtils.PrependSystem | src/agentlab/llm/huggingface_utils.py:127-152 | without a system or a human message the list is unchanged; otherwise the first system message is removed, every other message keeps its order, and the first human message is prefixed with the system text and a newline |
| HfUtils.PrependSystemAt | src/agentlab/llm/huggingface_utils.py:143-150 | the merge is one update of the first human message, then one deletion of the first system message |
| HfUtils.OnlyFirstSystemRemoved | src/agentlab/llm/huggingface_utils.py:143-150 | as multisets, the result loses the first system message and the old human message, and gains the prefixed one |
| HfUtils.HumanRoleSystem | src/agentlab/llm/huggingface_utils.py:143-150 | when the human role is `system`, the system message is removed with its prefix (also line 131) |
| RenameFolders.Folders | src/agentlab/agents/test_results_webarena_original_infeasible/change_name_and_filter_json.py:11 | exactly the directory entries are taken |
| RenameFolders.BaseName | src/agentlab/agents/test_results_webarena_original_infeasible/change_name_and_filter_json.py:24-25 | one trailing `_89` is dropped, and nothing else changes |
| RenameFolders.NewNameIndex | src/agentlab/agents/test_results_webarena_original_infeasible/change_name_and_filter_json.py:28 | the 1-based index reads back from after the new name's last dash |
| RenameFolders.NewNamesDistinct | src/agentlab/agents/test_results_webarena_original_infeasible/change_name_and_filter_json.py:20-28 | folders at different positions get different names |
| RenameFolders.NewFolderNames | src/agentlab/agents/test_results_webarena_original_infeasible/change_name_and_filter_json.py:11-37 | the saved list names each folder, in sorted order, numbered from 1 |
| RenameFolders.NewFolderNamesDistinct | src/agentlab/agents/test_results_webarena_original_infeasible/change_name_and_filter_json.py:37-41 | the saved list has no duplicates |
| RenameFolders.NewNameShape | src/agentlab/agents/test_results_webarena_original_infeasible/change_name_and_filter_json.py:21-28 | the new name starts with the folder's name, less any trailing `_89` |
| MoveInputJson.FindRiskType | hallucination_traj_sample/Webarena_original_infeasible/move_input_json.py:16-20 | the first risk type in list order that occurs in the name, and none exactly when none occurs |
| MoveInputJson.FirstInputJson | hallucination_traj_sample/Webarena_original_infeasible/move_input_json.py:33-45 | the first `.json` name other than the summary |
| MoveInputJson.Decide | hallucination_traj_sample/Webarena_original_infeasible/move_input_json.py:26-63 | a folder's file is moved exactly when it is a directory with a movable file with a risk type whose destination is free |
| MoveInputJson.MoveAll | hallucination_traj_sample/Webarena_original_infeasible/move_input_json.py:26-63 | the destination afterwards holds the old paths and every moved path |
| MoveInputJson.NoOverwrite | hallucination_traj_sample/Webarena_original_infeasible/move_input_json.py:53-63 | no move overwrites: each destination was free at the start and no two moves share one |
| MoveInputJson.SkippedFolders | hallucination_traj_sample/Webarena_original_infeasible/move_input_json.py:38-50 | a folder without a movable file, or whose file names no risk type, is skipped |
| DeleteJson.WalkOwnFiles | hallucination_traj_sample/Webarena/delete.py:15-16 | the walk meets every file of the directory itself |
| DeleteJson.WalkVisitsSubdirs | hallucination_traj_sample/WorkArena/delete.py:17-18 | the walk meets everything in every subdirectory |
| DeleteJson.RemovedMembers | hallucination_traj_sample/Webarena/delete.py:15-24 | exactly the doomed files whose removal succeeds are removed, and no more than were visited |
| DeleteJson.DeleteFiles | hallucination_traj_sample/Webarena/delete.py:14-26 | the deletion loop removes those files and counts exactly them (also hallucination_traj_sample/WorkArena/delete.py lines 16-32) |
| DeleteJson.DeleteInTree | hallucination_traj_sample/Webarena/delete.py:4-26 | the count for a tree is the number of doomed files of its walk that were removed (also hallucination_traj_sample/WorkArena/delete.py lines 6-32) |
| AddOne.Bumped | hallucination_traj_sample/Webarena_unexpected_transition/add_1.py:18 | `input_step` grows by one (a bool counts as an int) and every other key is kept |
| AddOne.ProcessFile | hallucination_traj_sample/Webarena_unexpected_transition/add_1.py:13-29 | a file is rewritten exactly when it loads, has an integer `input_step` and can be written; it is skipped exactly when the test answers no without raising |
| AddOne.JsonEntries | hallucination_traj_sample/Webarena_unexpected_transition/add_1.py:11 | exactly the entries named `*.json` are visited |
| AddOne.AddOneAll | hallucination_traj_sample/Webarena_unexpected_transition/add_1.py:11-29 | every visited file is handled on its own, in order |
| AddOne.OnlyJsonRewritten | hallucination_traj_sample/Webarena_unexpected_transition/add_1.py:11-22 | only `*.json` files are touched, and a rewritten one had an integer step |
| TaskFilters.Project | hallucination_traj_sample/webarena_popup/shopping/find_shopping_only_tasks.py:29-35 | the record has exactly the three keys, each the task's value or `None` |
| TaskFilters.ShoppingOnlyTasks | hallucination_traj_sample/webarena_popup/shopping/find_shopping_only_tasks.py:16-37 | an unreadable file gives no records; every record has the three keys and the sites `["shopping"]` |
| TaskFilters.ShoppingSelected | hallucination_traj_sample/webarena_popup/shopping/find_shopping_only_tasks.py:25-35 | every shopping-only task contributes its record |
| TaskFilters.ShoppingRecordOrigin | hallucination_traj_sample/webarena_popup/shopping/find_shopping_only_tasks.py:25-35 | every record is that of a shopping-only task |
| TaskFilters.TaskNames | hallucination_traj_sample/webarena_popup/shopping/find_shopping_only_tasks.py:54-56 | the printed names are `webarena.{task_id}` in order |
| TaskFilters.TaskNameOfId | hallucination_traj_sample/webarena_popup/shopping/find_shopping_only_tasks.py:54-56 | each name is built from the id of a shopping-only task |
| TaskFilters.InfeasibleVerdict | src/agentlab/agents/filter_infeasible_webarena.py:16-18 | a task fails exactly when `eval` is present and not an object, and is kept exactly when its reference answers are exactly `{"fuzzy_match": "N/A"}` |
| TaskFilters.FilterInfeasible | src/agentlab/agents/filter_infeasible_webarena.py:15-19 | the run succeeds exactly when every task can be read, and then keeps the infeasible tasks in order |
| TaskFilters.FilterInfeasibleKept | src/agentlab/agents/filter_infeasible_webarena.py:15-19 | the output holds the kept tasks unchanged, nothing else, and no task without `eval` |

## Left out

- Unpickling, gzip, reading and writing JSON, `os`/`shutil` calls and printing: the loaded values and each operation's success are inputs.
- Command-line parsing, `__main__` blocks, the hard-coded paths and the popup and message generators under `webarena_popup`: they are set-up, not analysis.
- The experiment runners and agent classes, including `HFBaseChatModel` around the chat helper: they call language models.
- The extraction of experiment arguments and the goal object: the extracted information is the parameter `base`, and the goal is an optional string. The simplified fallback document written after a failed save is not modelled; a save counts as written or not.
- JSON encoding details (`ensure_ascii`, indentation, `CustomEncoder`) and floats, which are kept as their Python rendering and never computed with. The one float comparison a script makes is modelled by that rendering: `WebarenaInfo.StepTag` reads `step_0` for the float `1.0`, which equals 1 (`generate_info.py` line 75).
- `str()` and `repr()` of loaded values: strings inside containers are quoted without escaping, and `str` of an arbitrary action object is modelled only for JSON values.
- `lower()` covers ASCII letters only.
- Messages of the chat helper carry string content. Content lists and `column_remap` keys other than the human role are not modelled.
- Chat messages given as objects with a `type` attribute (Webarena generator, hallucination_traj_sample/Webarena/generate_info.py:93-94) are not modelled: messages are dictionaries.
- Task files whose top level or whose tasks are not objects are not modelled: the filters take a list of objects.
- The error messages of the generators are paraphrased; only whether there is an error is stated.
- `RenameFolders.NewFolderNames`: does not model a rename that collides with an existing folder; the script would fail on it.
- `MoveInputJson.MoveAll`: every move succeeds; a failing `shutil.move` would stop the script.
- `GenerateErrorInfo.SortSteps`: a list that holds a float (all floats, or floats mixed with integers, such as `[1, 2.5]`) is refused, although Python sorts it, because floats are kept as their text and never compared. A list of two or more nested lists that Python can compare element by element, such as `[[2], [1]]`, is refused too, although `sorted` orders it and the loop goes on with tags such as `[1]`; lexicographic list order is not modelled. A list mixing numbers and strings is refused as a whole. Which pair Python compares first, and the order of mixed int/bool lists beyond their values, are not modelled.
- `CopiedObservation.GenerateAll`: a raising step ends the whole run (nothing catches it at lines 281, 346 or 461), so later directories are not processed; the loop over directories is not modelled, and the aborted run is reported per directory.
- `CopiedObservation.RewriteBlocks`, `CopiedObservation.Simulate`: `dict` (line 194) also converts a non-empty list of key-value pairs, such as `[["text", "x"]]` or `["ab"]`; the model treats such a block as raising. The empty string and the empty list, which `dict` turns into `{}`, are modelled.
- `GenerateErrorInfo.GenerateInfo`: its `Err` stands for the `TypeError` of `sorted`, which nothing in the script catches, so the whole run stops at that directory and later directories are not processed; the loop over directories is not modelled.
- `FindError.Previous`, `GenerateErrorInfo.InputOfStep`, `GenerateErrorInfo.ActionOfStep`, `CopiedObservation.ChatAt`, `CopiedObservation.SimulateFailure`, `WebarenaInfo.InputOfStep`: a file name is assumed to render its number canonically (`step_7`, not `step_07`). All of them find a step file by its number, while the scripts test for the exact name `step_{n}.pkl.gz` (`find_error.py` lines 100-101, `generate_error_info.py` lines 90-91 and 118-119, `generate_input_add_copied_observation.py` lines 112-114, `generate_info.py` lines 78-80). For a listing that holds `step_07.pkl.gz`, the model finds that file for step 7, but the script reports it missing.
- `FindRepetitive.FindRepetitiveActions`: the output files are not modelled, only the returned values.
- `FindRepetitive.FindRepetitiveActions`: step files are given by their numbers. A matched name whose number does not parse as an integer (`step_final.pkl.gz`) makes the sort key raise `ValueError` outside any `try`, which aborts the whole run, and a name such as `step_-1.pkl.gz` reads as a negative number. Neither is modelled, because a listing holds natural numbers.
- `FindError.FindEnvErrors`: the same holds for its sort key and step-number parsing (`find_error.py` lines 51-60): an unparseable name aborts the run, and negative numbers are not modelled.
- `FindRepetitive.RankIsEarlierCount`, `FindRepetitive.EntryMeaning`, `FindRepetitive.CountKeyStep`, `FindRepetitive.EntriesPerKey`: proved only when no two step files of a task read as the same number. Names such as `step_3.pkl.gz` and `step_03.pkl.gz` both read as 3, and `.index` then gives them one rank (`FindRepetitive.DuplicateNumberRank`).
- `HfUtils.PrependSystem`: the source edits the caller's list in place (`del messages[system_index]` and the content update); the model returns the new list, and the aliasing is not modelled.

## Findings

| source | as written | input that shows it | evidently intended | confidence | as-written member | corrected member |
|---|---|---|---|---|---|---|
| src/agentlab/agents/find_error.py:94-96 | the error transition map stores `step_N` strings, such as `"step_5"`, under each task name | any task with one erroring step, say step 5 | integer step numbers, which both readers expect: the copied-observation generator takes only non-negative integers (hallucination_traj_sample/Webarena_unexpected_transition/generate_input_add_copied_observation.py:342), and the error-info generator sorts the entries and builds `step_{n}.pkl.gz` from them (hallucination_traj_sample/Webarena_unexpected_transition/generate_error_info.py:254-255) | not executed | ErrorMapHandoff.WrittenMapStarvesCopiedObservation, ErrorMapHandoff.WrittenMapStarvesErrorInfo | ErrorMapHandoff.StepErrorMapFeedsCopiedObservation, ErrorMapHandoff.StepErrorMapKeys |
