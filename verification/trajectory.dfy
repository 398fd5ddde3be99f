/**
 * Step records of a recorded agent trajectory, as the analysis scripts see them after
 * unpickling, and the layout of a results directory.
 *
 * A task directory holds files `step_N.pkl.gz`; loading one yields a `StepInfo`, some
 * other object, or an error. Loading is not modelled: a listing carries, for each step
 * file, its number and the outcome of loading it.
 */
module Trajectory {
  import opened Wrappers
  import opened Strings
  import opened JsonData
  import opened Sorting

  /** A `chat_messages` attribute: absent, present but `None`, or a list of messages. */
  datatype Chat = NoChat | NullChat | ChatList(msgs: seq<Fields>)

  /** The agent's bookkeeping for a step. `think` is `None` when the attribute is absent. */
  datatype AgentInfo = AgentInfo(think: Option<Json>, chatMessages: Chat)

  /**
   * The attributes the scripts read off an unpickled step object. `action` and `obs` are
   * `None` when the attribute is absent; `agentInfo` is `None` when it is absent or `None`,
   * which every reader treats alike.
   */
  datatype StepInfo = StepInfo(action: Option<Json>, agentInfo: Option<AgentInfo>, obs: Option<Fields>)

  /**
   * The outcome of unpickling one step file: a failure, an object of some other class
   * (which still has whatever attributes it has), or a `StepInfo`.
   */
  datatype Loaded = LoadFailed | Foreign(attrs: StepInfo) | Info(info: StepInfo)

  /** The attributes of what loading produced, whatever its class; `None` when loading failed. */
  function Attributes(l: Loaded): (r: Option<StepInfo>)
    ensures r.None? <==> l.LoadFailed?
    ensures l.Info? ==> r == Some(l.info)
    ensures l.Foreign? ==> r == Some(l.attrs)
  {
    match l
    case LoadFailed => None
    case Foreign(attrs) => Some(attrs)
    case Info(info) => Some(info)
  }

  /**
   * The object the generators read at step `tag`: the attributes of whatever the file
   * `step_{tag}.pkl.gz` unpickles to, or `None` when there is no such file or it cannot be
   * loaded. These scripts test attributes with `hasattr` and never the class.
   */
  function AttributesAt(files: Listing, tag: string): (r: Option<StepInfo>)
    ensures r.Some? <==> FindNamed(files, tag).Some? && !FindNamed(files, tag).value.LoadFailed?
  {
    var found := FindNamed(files, tag);
    if found.None? then None else Attributes(found.value)
  }

  /** The `chat_messages` of a step object; absent when `agent_info` is. */
  function ChatOf(s: StepInfo): Chat {
    if s.agentInfo.Some? then s.agentInfo.value.chatMessages else NoChat
  }

  /** One `step_N.pkl.gz` file of a task directory. */
  datatype StepFile = StepFile(num: nat, load: Loaded)

  /** The step files of one task directory, in directory-listing order. */
  type Listing = seq<StepFile>

  /** A task directory: its base name and its step files. */
  datatype TaskDir = TaskDir(name: string, files: Listing)

  function StepFileName(n: nat): string {
    "step_" + NatToString(n) + ".pkl.gz"
  }

  /** The tag a step carries in reports and maps: `step_N`. */
  function StepLabel(n: nat): string {
    "step_" + NatToString(n)
  }

  /** The number the analysis scripts read off a step file name: field 1 of the `_` split, up to the first dot. */
  function ParseStepNum(name: string): Option<nat> {
    var parts := Split(name, '_');
    if |parts| < 2 then None
    else
      var digits := Split(parts[1], '.')[0];
      if |digits| > 0 && forall i :: 0 <= i < |digits| ==> '0' <= digits[i] <= '9'
      then Some(ParseNat(digits))
      else None
  }

  /** Reading the number back from a step file's name gives the number it was written with. */
  lemma StepFileNameParses(n: nat)
    ensures ParseStepNum(StepFileName(n)) == Some(n)
  {
    var digits := NatToString(n);
    StepFileNameSplit(digits);
    DigitsBeforeDot(digits);
    assert StepFileName(n) == "step" + ['_'] + (digits + ".pkl.gz");
    ParseNatToString(n);
  }

  /** A name `step_` followed by a separator-free rest splits on `_` into `step` and the rest. */
  lemma StepFileNameSplit(digits: string)
    requires '_' !in digits
    ensures Split("step" + ['_'] + (digits + ".pkl.gz"), '_') == ["step", digits + ".pkl.gz"]
  {
    var rest := digits + ".pkl.gz";
    assert '_' !in rest by {
      assert forall i :: 0 <= i < |digits| ==> rest[i] == digits[i];
      assert forall i :: |digits| <= i < |rest| ==> rest[i] == ".pkl.gz"[i - |digits|];
    }
    SplitFirst("step", '_', rest);
    SplitNoSep(rest, '_');
  }

  /** The field before the first dot of `{digits}.pkl.gz` is the digits. */
  lemma DigitsBeforeDot(digits: string)
    requires '.' !in digits
    ensures Split(digits + ".pkl.gz", '.')[0] == digits
  {
    assert digits + ".pkl.gz" == digits + ['.'] + "pkl.gz";
    SplitFirst(digits, '.', "pkl.gz");
  }

  function NumKey(f: StepFile): int {
    f.num
  }

  /** The step files in the order they are processed: sorted by the number in their name. */
  function Ordered(files: Listing): (r: Listing)
    ensures SortedBy(r, NumKey)
    ensures multiset(r) == multiset(files)
  {
    SortByMeaning(files, NumKey);
    SortBy(files, NumKey)
  }

  /** The element of an optional value, as a sequence of length 0 or 1. */
  function OptSeq<T>(o: Option<T>): seq<T> {
    if o.Some? then [o.value] else []
  }

  /** `os.path.exists` and load of `step_{n}.pkl.gz`: the first listed file with number `n`. */
  function FindByNum(files: Listing, n: nat): (r: Option<Loaded>)
    ensures r.None? <==> forall i :: 0 <= i < |files| ==> files[i].num != n
    ensures r.Some? ==> exists i :: 0 <= i < |files| && files[i] == StepFile(n, r.value)
  {
    if |files| == 0 then None
    else if files[0].num == n then Some(files[0].load)
    else FindByNum(files[1..], n)
  }

  /** Load of `step_{tag}.pkl.gz` for an arbitrary tag: the first file whose number renders as `tag`. */
  function FindNamed(files: Listing, tag: string): Option<Loaded> {
    if |files| == 0 then None
    else if NatToString(files[0].num) == tag then Some(files[0].load)
    else FindNamed(files[1..], tag)
  }

  /** Looking a step up by its rendered number finds the same file as looking it up by number. */
  lemma {:induction false} FindNamedNum(files: Listing, n: nat)
    ensures FindNamed(files, NatToString(n)) == FindByNum(files, n)
  {
    if |files| > 0 {
      NatToStringInjective(files[0].num, n);
      FindNamedNum(files[1..], n);
    }
  }

  /** A tag that is not a decimal rendering names no step file. */
  lemma {:induction false} FindNamedNonNumeric(files: Listing, tag: string)
    requires exists i :: 0 <= i < |tag| && !('0' <= tag[i] <= '9')
    ensures FindNamed(files, tag).None?
  {
    if |files| > 0 {
      FindNamedNonNumeric(files[1..], tag);
    }
  }

  /** A chat message whose `role` is `role`. */
  predicate HasRole(msg: Fields, role: string) {
    Lookup(msg, "role") == Some(JStr(role))
  }

  /** The position of the first message with `role`. */
  function FirstWith(msgs: seq<Fields>, role: string): (r: Option<nat>)
    ensures r.None? <==> forall i :: 0 <= i < |msgs| ==> !HasRole(msgs[i], role)
    ensures r.Some? ==>
      (r.value < |msgs| && HasRole(msgs[r.value], role) &&
       forall i :: 0 <= i < r.value ==> !HasRole(msgs[i], role))
    decreases |msgs|
  {
    if |msgs| == 0 then None
    else if HasRole(msgs[0], role) then Some(0)
    else
      var r := FirstWith(msgs[1..], role);
      if r.None? then None else Some(r.value + 1)
  }

  /** The position of the last message with `role`. */
  function LastWith(msgs: seq<Fields>, role: string): (r: Option<nat>)
    ensures r.None? <==> forall i :: 0 <= i < |msgs| ==> !HasRole(msgs[i], role)
    ensures r.Some? ==>
      (r.value < |msgs| && HasRole(msgs[r.value], role) &&
       forall i :: r.value < i < |msgs| ==> !HasRole(msgs[i], role))
    decreases |msgs|
  {
    var n := |msgs|;
    if n == 0 then None
    else if HasRole(msgs[n - 1], role) then Some(n - 1)
    else
      assert forall i :: 0 <= i < n - 1 ==> msgs[..n - 1][i] == msgs[i];
      LastWith(msgs[..n - 1], role)
  }

  /**
   * The thought of a step: `agent_info.think` when the step has a truthy `agent_info`
   * carrying one, otherwise `None`. The record stands for both ways the script reads it:
   * a `think` attribute, or a `think` key when `agent_info` is a dictionary.
   */
  function Thought(step: StepInfo): (r: Json)
    ensures r != JNull ==> step.agentInfo.Some? && step.agentInfo.value.think == Some(r)
    ensures step.agentInfo.Some? && step.agentInfo.value.think.Some? ==> r == step.agentInfo.value.think.value
  {
    if step.agentInfo.Some? && step.agentInfo.value.think.Some? then step.agentInfo.value.think.value
    else JNull
  }

  /** An entry of a results directory: its name, whether it is a directory, and (for a directory) its entries. */
  datatype DirEntry = DirEntry(name: string, isDir: bool, children: seq<(string, bool)>)

  /** The two benchmark folders whose sub-directories are task directories themselves. */
  predicate IsBenchmarkFolder(name: string) {
    name == "WorkArena" || name == "Webarena"
  }

  predicate Visible(name: string) {
    !StartsWith(name, ".")
  }

  /**
   * The task directories of a results directory, as paths relative to it: every visible
   * sub-directory, except that `WorkArena` and `Webarena` are replaced by their visible
   * sub-directories.
   */
  function DiscoverTaskDirs(root: seq<DirEntry>): (r: seq<string>)
    ensures forall p :: p in r ==>
      (exists i :: 0 <= i < |root| && root[i].isDir && Visible(root[i].name) &&
        ((!IsBenchmarkFolder(root[i].name) && p == root[i].name) ||
         (IsBenchmarkFolder(root[i].name) &&
          (exists j :: 0 <= j < |root[i].children| &&
            root[i].children[j].1 && Visible(root[i].children[j].0) &&
            p == PathJoin(root[i].name, root[i].children[j].0)))))
  {
    if |root| == 0 then []
    else
      var e := root[0];
      var here := if !e.isDir || !Visible(e.name) then []
        else if IsBenchmarkFolder(e.name) then Inner(e.name, e.children)
        else [e.name];
      here + DiscoverTaskDirs(root[1..])
  }

  function Inner(parent: string, children: seq<(string, bool)>): (r: seq<string>)
    ensures forall p :: p in r ==>
      (exists j :: 0 <= j < |children| &&
        children[j].1 && Visible(children[j].0) && p == PathJoin(parent, children[j].0))
    ensures forall j :: 0 <= j < |children| && children[j].1 && Visible(children[j].0) ==>
      PathJoin(parent, children[j].0) in r
  {
    if |children| == 0 then []
    else
      var c := children[0];
      (if c.1 && Visible(c.0) then [PathJoin(parent, c.0)] else []) + Inner(parent, children[1..])
  }

  /** Every visible non-benchmark directory, and every visible sub-directory of a benchmark folder, is discovered. */
  lemma {:induction false} DiscoverComplete(root: seq<DirEntry>)
    ensures forall i :: 0 <= i < |root| && root[i].isDir && Visible(root[i].name) && !IsBenchmarkFolder(root[i].name) ==>
      root[i].name in DiscoverTaskDirs(root)
    ensures forall i, j ::
      (0 <= i < |root| && root[i].isDir && Visible(root[i].name) && IsBenchmarkFolder(root[i].name) &&
       0 <= j < |root[i].children| && root[i].children[j].1 && Visible(root[i].children[j].0)) ==>
      PathJoin(root[i].name, root[i].children[j].0) in DiscoverTaskDirs(root)
  {
    if |root| > 0 {
      DiscoverComplete(root[1..]);
      var r := DiscoverTaskDirs(root);
      forall i | 0 < i < |root| ensures root[i] == root[1..][i - 1] { }
    }
  }
}
