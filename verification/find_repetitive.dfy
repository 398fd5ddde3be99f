/**
 * Repetition analysis over recorded trajectories.
 *
 * Within a task, each step's action is keyed by `str(action)`; a step whose action is the
 * 3rd to 10th occurrence of its key (over the whole task, in step order) is reported.
 * Reported steps are grouped per occurrence rank; the earliest step of each group becomes
 * the task's truncation point for that rank and the others are recorded as exclusions.
 */
module FindRepetitive {
  import opened Wrappers
  import opened Strings
  import opened Sorting
  import opened JsonData
  import opened Trajectory

  /** The window of occurrence ranks that are reported. */
  const FirstRank: nat := 3
  const LastRank: nat := 10

  /** How much of the action key is kept for display. */
  const ShownKeyLength: nat := 100

  /** `str(action)`: the key under which repetitions are counted. */
  function ActionKey(a: Json): string {
    Str(a)
  }

  /** The first `n` characters of `s` (Python's `s[:n]`). */
  function Take(s: string, n: nat): (r: string)
    ensures |r| == if |s| < n then |s| else n
    ensures r == s[..|r|]
  {
    if |s| <= n then s else s[..n]
  }

  /** A step that takes part in counting: it loaded as a `StepInfo` that has an `action`. */
  predicate Counted(f: StepFile) {
    f.load.Info? && f.load.info.action.Some?
  }

  function KeyOf(f: StepFile): string
    requires Counted(f)
  {
    ActionKey(f.load.info.action.value)
  }

  /** `action_steps[key]`: the numbers of the counted steps with action key `key`, in processing order. */
  function Occurrences(steps: Listing, key: string): seq<nat>
    decreases |steps|
  {
    if |steps| == 0 then []
    else
      var last := steps[|steps| - 1];
      Occurrences(steps[..|steps| - 1], key) + (if Counted(last) && KeyOf(last) == key then [last.num] else [])
  }

  /** Python's `list.index`: the first position of `x`, or the length when `x` is absent. */
  function IndexOf(s: seq<nat>, x: nat): (r: nat)
    ensures r <= |s|
    ensures r < |s| ==> s[r] == x
    ensures x !in s[..r]
    ensures x in s ==> r < |s|
  {
    if |s| == 0 then 0
    else if s[0] == x then 0
    else
      var r := 1 + IndexOf(s[1..], x);
      assert s[..r] == [s[0]] + s[1..][..r - 1];
      r
  }

  /** The occurrence rank of a counted step: `action_steps[key].index(step_num) + 1`. */
  function Rank(all: Listing, f: StepFile): nat
    requires Counted(f)
  {
    IndexOf(Occurrences(all, KeyOf(f)), f.num) + 1
  }

  /** One reported repetition. `repeatSteps` holds the numbers behind the `step_N` labels. */
  datatype Entry = Entry(
    task: string,
    stepNum: nat,
    thought: Json,
    action: Json,
    actionStr: string,
    repeatSteps: seq<nat>,
    count: nat)

  /** The `current_step` label of an entry. */
  function CurrentStep(e: Entry): string {
    StepLabel(e.stepNum)
  }

  /** The report for one step, if its rank falls in the window. */
  function EntryFor(task: string, all: Listing, f: StepFile): (r: Option<Entry>)
    ensures r.Some? ==> Counted(f) && FirstRank <= r.value.count <= LastRank
    ensures r.Some? ==> r.value.task == task && r.value.stepNum == f.num && r.value.action == f.load.info.action.value
  {
    if !Counted(f) then None
    else
      var key := KeyOf(f);
      var occ := Occurrences(all, key);
      var rank := Rank(all, f);
      if FirstRank <= rank <= LastRank then
        Some(Entry(task, f.num, Thought(f.load.info), f.load.info.action.value,
                   Take(key, ShownKeyLength), occ[..rank - 1], rank))
      else None
  }

  /** The reports for the steps of `part`, in order, ranks taken over `all`. */
  function Emit(task: string, all: Listing, part: Listing): (r: seq<Entry>)
    ensures forall i :: 0 <= i < |r| ==> FirstRank <= r[i].count <= LastRank && r[i].task == task
    decreases |part|
  {
    if |part| == 0 then []
    else Emit(task, all, part[..|part| - 1]) + OptSeq(EntryFor(task, all, part[|part| - 1]))
  }

  /** The reports of one task directory. */
  function TaskEntries(task: TaskDir): seq<Entry> {
    var all := Ordered(task.files);
    Emit(task.name, all, all)
  }

  // ---------------------------------------------------------------------------
  // Ranks are occurrence counts

  lemma {:induction false} OccurrencesAppend(a: Listing, b: Listing, key: string)
    ensures Occurrences(a + b, key) == Occurrences(a, key) + Occurrences(b, key)
    decreases |b|
  {
    if |b| == 0 {
      assert a + b == a;
    } else {
      var b' := b[..|b| - 1];
      OccurrencesAppend(a, b', key);
      DropLastAppend(a, b);
    }
  }

  /** Only numbers of listed steps occur. */
  lemma {:induction false} OccurrencesBelow(steps: Listing, key: string, n: nat)
    requires forall i :: 0 <= i < |steps| ==> steps[i].num < n
    ensures forall x :: x in Occurrences(steps, key) ==> x < n
    decreases |steps|
  {
    if |steps| > 0 {
      OccurrencesBelow(steps[..|steps| - 1], key, n);
    }
  }

  /** Occurrences of a strictly increasing listing are strictly increasing. */
  lemma {:induction false} OccurrencesIncreasing(steps: Listing, key: string)
    requires StrictlySortedBy(steps, NumKey)
    ensures forall i, j :: 0 <= i < j < |Occurrences(steps, key)| ==>
      Occurrences(steps, key)[i] < Occurrences(steps, key)[j]
    decreases |steps|
  {
    if |steps| > 0 {
      var init := steps[..|steps| - 1];
      var last := steps[|steps| - 1];
      assert StrictlySortedBy(init, NumKey);
      OccurrencesIncreasing(init, key);
      assert forall i :: 0 <= i < |init| ==> init[i].num < last.num by {
        forall i | 0 <= i < |init| ensures init[i].num < last.num {
          assert NumKey(steps[i]) < NumKey(steps[|steps| - 1]);
        }
      }
      OccurrencesBelow(init, key, last.num);
      var o := Occurrences(init, key);
      var r := Occurrences(steps, key);
      if Counted(last) && KeyOf(last) == key {
        assert r == o + [last.num];
        forall i, j | 0 <= i < j < |r| ensures r[i] < r[j] {
          if j < |o| {
            assert r[i] == o[i] && r[j] == o[j];
          } else {
            assert r[i] == o[i] && o[i] in o;
          }
        }
      } else {
        assert r == o;
      }
    }
  }

  /** The first position holding `x` is where `.index` finds it. */
  lemma {:induction false} IndexOfFirst(s: seq<nat>, x: nat, i: nat)
    requires i < |s| && s[i] == x && x !in s[..i]
    ensures IndexOf(s, x) == i
    decreases i
  {
    if i > 0 {
      assert s[0] in s[..i];
      assert s[1..][..i - 1] == s[1..i];
      assert s[..i] == [s[0]] + s[1..i];
      IndexOfFirst(s[1..], x, i - 1);
    }
  }

  /**
   * In a listing with increasing step numbers, a counted step's rank is one more than the
   * number of earlier counted steps with the same key, and the steps before it in its
   * occurrence list are exactly those earlier steps, in ascending order.
   */
  lemma RankIsEarlierCount(all: Listing, i: nat)
    requires StrictlySortedBy(all, NumKey)
    requires i < |all| && Counted(all[i])
    ensures Rank(all, all[i]) == |Occurrences(all[..i], KeyOf(all[i]))| + 1
    ensures Occurrences(all, KeyOf(all[i]))[..Rank(all, all[i]) - 1] == Occurrences(all[..i], KeyOf(all[i]))
  {
    var key := KeyOf(all[i]);
    var p := Occurrences(all[..i], key);
    var q := Occurrences(all[i + 1..], key);
    OccurrencesAround(all, i);
    assert forall j :: 0 <= j < i ==> all[..i][j].num < all[i].num by {
      forall j | 0 <= j < i ensures all[..i][j].num < all[i].num {
        assert NumKey(all[j]) < NumKey(all[i]);
      }
    }
    OccurrencesBelow(all[..i], key, all[i].num);
    var s := p + [all[i].num] + q;
    assert s[..|p|] == p;
    IndexOfFirst(s, all[i].num, |p|);
  }

  /** A counted step splits the occurrences of its key into those before it, its own number, and those after it. */
  lemma OccurrencesAround(all: Listing, i: nat)
    requires i < |all| && Counted(all[i])
    ensures Occurrences(all, KeyOf(all[i])) ==
      Occurrences(all[..i], KeyOf(all[i])) + [all[i].num] + Occurrences(all[i + 1..], KeyOf(all[i]))
  {
    var key := KeyOf(all[i]);
    var before := all[..i];
    var after := all[i + 1..];
    SplitAround(all, i);
    OccurrencesAppend(before + [all[i]], after, key);
    OccurrencesAppend(before, [all[i]], key);
    OccurrencesOne(all[i]);
  }

  /** A counted step on its own occurs once under its key. */
  lemma OccurrencesOne(f: StepFile)
    requires Counted(f)
    ensures Occurrences([f], KeyOf(f)) == [f.num]
  {
    assert [f][..0] == [];
  }

  /**
   * Without distinct step numbers a rank is no occurrence count. Two names such as
   * `step_3.pkl.gz` and `step_03.pkl.gz` both read as 3; when both steps are counted under
   * one key, `.index` finds the first of them for both, so they share a rank, and the later
   * one's rank does not exceed the number of earlier steps with its key.
   */
  lemma DuplicateNumberRank(all: Listing, i: nat, j: nat)
    requires i < j < |all| && Counted(all[i]) && Counted(all[j])
    requires KeyOf(all[i]) == KeyOf(all[j]) && all[i].num == all[j].num
    ensures Rank(all, all[j]) == Rank(all, all[i])
    ensures Rank(all, all[j]) <= |Occurrences(all[..j], KeyOf(all[j]))|
  {
    var key := KeyOf(all[j]);
    var p := Occurrences(all[..j], key);
    OccurrencesAround(all, j);
    assert all[..j][i] == all[i];
    OccurrencesAround(all[..j], i);
    assert all[i].num in p;
    var s := Occurrences(all, key);
    assert s == p + ([all[j].num] + Occurrences(all[j + 1..], key));
    IndexOfPrefix(s, p, all[i].num);
  }

  /** `.index` of a value in a prefix of the list finds it within that prefix. */
  lemma IndexOfPrefix(s: seq<nat>, p: seq<nat>, x: nat)
    requires p <= s && x in p
    ensures IndexOf(s, x) < |p|
  {
    var m :| 0 <= m < |p| && p[m] == x;
    assert s[m] == x;
  }

  /** What a reported entry says about its step. */
  lemma EntryMeaning(task: string, all: Listing, i: nat)
    requires StrictlySortedBy(all, NumKey)
    requires i < |all| && EntryFor(task, all, all[i]).Some?
    ensures var e := EntryFor(task, all, all[i]).value;
      && e.count == |Occurrences(all[..i], KeyOf(all[i]))| + 1
      && e.repeatSteps == Occurrences(all[..i], KeyOf(all[i]))
      && |e.repeatSteps| == e.count - 1
      && (forall j :: 0 <= j < |e.repeatSteps| ==> e.repeatSteps[j] < e.stepNum)
      && (forall j, k :: 0 <= j < k < |e.repeatSteps| ==> e.repeatSteps[j] < e.repeatSteps[k])
      && e.actionStr == Take(KeyOf(all[i]), ShownKeyLength)
  {
    RankIsEarlierCount(all, i);
    var key := KeyOf(all[i]);
    assert StrictlySortedBy(all[..i], NumKey);
    OccurrencesIncreasing(all[..i], key);
    assert forall j :: 0 <= j < i ==> all[..i][j].num < all[i].num by {
      forall j | 0 <= j < i ensures all[..i][j].num < all[i].num {
        assert NumKey(all[j]) < NumKey(all[i]);
      }
    }
    OccurrencesBelow(all[..i], key, all[i].num);
    var e := EntryFor(task, all, all[i]).value;
    forall j | 0 <= j < |e.repeatSteps| ensures e.repeatSteps[j] < e.stepNum {
      assert e.repeatSteps[j] in Occurrences(all[..i], key);
    }
  }

  // ---------------------------------------------------------------------------
  // How many entries a key yields

  /** The number of entries whose action has key `key`. */
  function CountKey(entries: seq<Entry>, key: string): nat
    decreases |entries|
  {
    if |entries| == 0 then 0
    else CountKey(entries[..|entries| - 1], key) + (if ActionKey(entries[|entries| - 1].action) == key then 1 else 0)
  }

  lemma {:induction false} CountKeyAppend(a: seq<Entry>, b: seq<Entry>, key: string)
    ensures CountKey(a + b, key) == CountKey(a, key) + CountKey(b, key)
    decreases |b|
  {
    if |b| == 0 {
      assert a + b == a;
    } else {
      CountKeyAppend(a, b[..|b| - 1], key);
      assert (a + b)[..|a + b| - 1] == a + b[..|b| - 1];
    }
  }

  /** Entries per key for an action seen `n` times: `max(0, min(n, 10) - 2)`. */
  function Expected(n: nat): nat {
    var m := if n < LastRank then n else LastRank;
    if m < FirstRank - 1 then 0 else m - (FirstRank - 1)
  }

  lemma {:induction false} CountKeyPrefix(task: string, all: Listing, m: nat, key: string)
    requires StrictlySortedBy(all, NumKey)
    requires m <= |all|
    ensures CountKey(Emit(task, all, all[..m]), key) == Expected(|Occurrences(all[..m], key)|)
    decreases m
  {
    if m > 0 {
      CountKeyPrefix(task, all, m - 1, key);
      CountKeyStep(task, all, m, key);
      var n := |Occurrences(all[..m - 1], key)|;
      ExpectedStep(n);
    }
  }

  lemma ExpectedStep(n: nat)
    ensures Expected(n + 1) == Expected(n) + (if FirstRank <= n + 1 <= LastRank then 1 else 0)
  {
  }

  /** Adding one step adds one entry for `key` exactly when that step is the 3rd to 10th occurrence of `key`. */
  lemma CountKeyStep(task: string, all: Listing, m: nat, key: string)
    requires StrictlySortedBy(all, NumKey)
    requires 0 < m <= |all|
    ensures var n := |Occurrences(all[..m - 1], key)|;
      var hit := Counted(all[m - 1]) && KeyOf(all[m - 1]) == key;
      && |Occurrences(all[..m], key)| == n + (if hit then 1 else 0)
      && CountKey(Emit(task, all, all[..m]), key) ==
         CountKey(Emit(task, all, all[..m - 1]), key) + (if hit && FirstRank <= n + 1 <= LastRank then 1 else 0)
  {
    var f := all[m - 1];
    assert all[..m][..m - 1] == all[..m - 1];
    assert all[..m][m - 1] == f;
    var opt := EntryFor(task, all, f);
    assert Emit(task, all, all[..m]) == Emit(task, all, all[..m - 1]) + OptSeq(opt);
    CountKeyAppend(Emit(task, all, all[..m - 1]), OptSeq(opt), key);
    if Counted(f) && KeyOf(f) == key {
      RankIsEarlierCount(all, m - 1);
    }
    if opt.Some? {
      assert OptSeq(opt)[..0] == [];
      assert CountKey(OptSeq(opt), key) == if KeyOf(f) == key then 1 else 0;
    }
  }

  /** An action whose key occurs `n` times in a task yields exactly `max(0, min(n, 10) - 2)` entries. */
  lemma EntriesPerKey(task: TaskDir, key: string)
    requires DistinctKeys(task.files, NumKey)
    ensures CountKey(TaskEntries(task), key) == Expected(|Occurrences(Ordered(task.files), key)|)
  {
    var all := Ordered(task.files);
    assert all[..|all|] == all;
    SortByMeaning(task.files, NumKey);
    CountKeyPrefix(task.name, all, |all|, key);
  }

  // ---------------------------------------------------------------------------
  // Steps that are not counted do not matter

  lemma {:induction false} OccurrencesFilter(steps: Listing, key: string)
    ensures Occurrences(Filter(steps, Counted), key) == Occurrences(steps, key)
    decreases |steps|
  {
    if |steps| > 0 {
      var init := steps[..|steps| - 1];
      var last := steps[|steps| - 1];
      SplitLast(steps);
      OccurrencesFilter(init, key);
      FilterAppend(init, [last], Counted);
      OccurrencesAppend(Filter(init, Counted), Filter([last], Counted), key);
      OccurrencesAppend(init, [last], key);
      OccurrencesFilterOne(last, key);
    }
  }

  lemma OccurrencesFilterOne(f: StepFile, key: string)
    ensures Occurrences(Filter([f], Counted), key) == Occurrences([f], key)
  {
    assert [f][1..] == [];
    assert [f][..0] == [];
  }

  lemma {:induction false} EmitFilter(task: string, all: Listing, part: Listing)
    ensures Emit(task, all, Filter(part, Counted)) == Emit(task, all, part)
    decreases |part|
  {
    if |part| > 0 {
      var init := part[..|part| - 1];
      var last := part[|part| - 1];
      assert part == init + [last];
      EmitFilter(task, all, init);
      FilterAppend(init, [last], Counted);
      assert [last][1..] == [];
      EmitAppend(task, all, Filter(init, Counted), Filter([last], Counted));
      if Counted(last) {
        assert [last][..0] == [];
      }
    }
  }

  lemma {:induction false} EmitAppend(task: string, all: Listing, a: Listing, b: Listing)
    ensures Emit(task, all, a + b) == Emit(task, all, a) + Emit(task, all, b)
    decreases |b|
  {
    if |b| == 0 {
      assert a + b == a;
    } else {
      EmitAppend(task, all, a, b[..|b| - 1]);
      DropLastAppend(a, b);
    }
  }

  lemma {:induction false} EmitSameOccurrences(task: string, a1: Listing, a2: Listing, part: Listing)
    requires forall key :: Occurrences(a1, key) == Occurrences(a2, key)
    ensures Emit(task, a1, part) == Emit(task, a2, part)
    decreases |part|
  {
    if |part| > 0 {
      EmitSameOccurrences(task, a1, a2, part[..|part| - 1]);
      EntryForSameOccurrences(task, a1, a2, part[|part| - 1]);
    }
  }

  lemma EntryForSameOccurrences(task: string, a1: Listing, a2: Listing, f: StepFile)
    requires forall key :: Occurrences(a1, key) == Occurrences(a2, key)
    ensures EntryFor(task, a1, f) == EntryFor(task, a2, f)
  {
    if Counted(f) {
      assert Occurrences(a1, KeyOf(f)) == Occurrences(a2, KeyOf(f));
    }
  }

  /**
   * Steps that fail to load, are not `StepInfo` records, or have no action are neither
   * counted nor reported: dropping them from the directory leaves the reports unchanged.
   */
  lemma UncountedStepsIgnored(task: TaskDir)
    ensures TaskEntries(TaskDir(task.name, Filter(task.files, Counted))) == TaskEntries(task)
  {
    var all := Ordered(task.files);
    var fa := Filter(all, Counted);
    FilterSortBy(task.files, NumKey, Counted);
    assert Ordered(Filter(task.files, Counted)) == fa;
    forall key ensures Occurrences(fa, key) == Occurrences(all, key) {
      OccurrencesFilter(all, key);
    }
    EmitSameOccurrences(task.name, fa, all, fa);
    EmitFilter(task.name, all, all);
  }

  // ---------------------------------------------------------------------------
  // Per-rank buckets of a task

  /** The occurrence ranks present in `entries`, in order of first appearance (the bucket dict's order). */
  function BucketRanks(entries: seq<Entry>): (r: seq<nat>)
    ensures forall i, j :: 0 <= i < j < |r| ==> r[i] != r[j]
    decreases |entries|
  {
    if |entries| == 0 then []
    else
      var r0 := BucketRanks(entries[..|entries| - 1]);
      var k := entries[|entries| - 1].count;
      if k in r0 then r0 else r0 + [k]
  }

  /** The buckets are exactly the ranks that occur. */
  lemma {:induction false} BucketRanksSpec(entries: seq<Entry>, k: nat)
    ensures k in BucketRanks(entries) <==> exists i :: 0 <= i < |entries| && entries[i].count == k
    decreases |entries|
  {
    if |entries| > 0 {
      var init := entries[..|entries| - 1];
      BucketRanksSpec(init, k);
      if exists i :: 0 <= i < |init| && init[i].count == k {
        var i :| 0 <= i < |init| && init[i].count == k;
        assert entries[i] == init[i];
      }
      if exists i :: 0 <= i < |entries| && entries[i].count == k {
        var i :| 0 <= i < |entries| && entries[i].count == k;
        if i < |init| { assert init[i] == entries[i]; }
      }
    }
  }

  predicate HasCount(k: nat, e: Entry) {
    e.count == k
  }

  /** The bucket of rank `k`, in the order the entries were reported. */
  function Bucket(entries: seq<Entry>, k: nat): seq<Entry> {
    Filter(entries, e => HasCount(k, e))
  }

  function StepNumKey(e: Entry): int {
    e.stepNum
  }

  /** The bucket of rank `k` sorted by step number; its head is the selected entry. */
  function SortedBucket(entries: seq<Entry>, k: nat): (r: seq<Entry>)
    ensures SortedBy(r, StepNumKey)
    ensures multiset(r) == multiset(Bucket(entries, k))
  {
    SortByMeaning(Bucket(entries, k), StepNumKey);
    SortBy(Bucket(entries, k), StepNumKey)
  }

  /** An exclusion record: a later entry of a bucket, pointing at the bucket's selected entry. */
  datatype Exclusion = Exclusion(
    task: string,
    count: nat,
    selectedStep: nat,
    selectedAction: string,
    excludedStep: nat,
    excludedAction: string)

  /** The exclusion records of one sorted bucket. */
  function BucketExclusions(task: string, k: nat, sorted: seq<Entry>): (r: seq<Exclusion>)
    ensures |sorted| > 0 ==> |r| == |sorted| - 1
  {
    if |sorted| == 0 then []
    else
      seq(|sorted| - 1, i requires 0 <= i < |sorted| - 1 =>
        Exclusion(task, k, sorted[0].stepNum, sorted[0].actionStr, sorted[i + 1].stepNum, sorted[i + 1].actionStr))
  }

  /** Each exclusion record of a sorted bucket pairs the bucket's first entry with one later entry, in order. */
  lemma BucketExclusionsAt(task: string, k: nat, sorted: seq<Entry>)
    ensures var r := BucketExclusions(task, k, sorted);
      forall i :: 0 <= i < |r| ==>
        (i + 1 < |sorted| &&
         r[i] == Exclusion(task, k, sorted[0].stepNum, sorted[0].actionStr, sorted[i + 1].stepNum, sorted[i + 1].actionStr))
  {
  }

  lemma BucketNonEmpty(entries: seq<Entry>, k: nat)
    requires k in BucketRanks(entries)
    ensures |Bucket(entries, k)| > 0
  {
    BucketRanksSpec(entries, k);
    var i :| 0 <= i < |entries| && entries[i].count == k;
    FilterMembers(entries, e => HasCount(k, e));
    assert entries[i] in Bucket(entries, k);
  }

  /** The step a bucket selects: the smallest step number among the bucket's entries. */
  function Earliest(entries: seq<Entry>, k: nat): nat {
    var s := SortedBucket(entries, k);
    if |s| == 0 then 0 else s[0].stepNum
  }

  /** The truncation points of a task: for each bucket, in bucket order, its rank and its selected step. */
  function TaskTruncations(entries: seq<Entry>, ranks: seq<nat>): seq<(nat, nat)>
    decreases |ranks|
  {
    if |ranks| == 0 then []
    else
      var k := ranks[|ranks| - 1];
      TaskTruncations(entries, ranks[..|ranks| - 1]) + [(k, Earliest(entries, k))]
  }

  /** The exclusion records of a task, bucket by bucket. */
  function TaskExclusions(task: string, entries: seq<Entry>, ranks: seq<nat>): seq<Exclusion>
    decreases |ranks|
  {
    if |ranks| == 0 then []
    else
      var k := ranks[|ranks| - 1];
      TaskExclusions(task, entries, ranks[..|ranks| - 1]) + BucketExclusions(task, k, SortedBucket(entries, k))
  }

  /**
   * The selected step of a bucket is the smallest step number in it, and the bucket's other
   * entries each yield one exclusion that points at the selected step.
   */
  lemma BucketSelection(task: string, entries: seq<Entry>, k: nat)
    requires k in BucketRanks(entries)
    ensures |SortedBucket(entries, k)| > 0
    ensures var b := Bucket(entries, k);
      var s := SortedBucket(entries, k);
      && s[0] in b
      && Earliest(entries, k) == s[0].stepNum
      && (forall e :: e in b ==> s[0].stepNum <= e.stepNum)
      && multiset(s[1..]) == multiset(b) - multiset{s[0]}
    ensures var b := Bucket(entries, k);
      var s := SortedBucket(entries, k);
      var x := BucketExclusions(task, k, s);
      && |x| == |b| - 1
      && (forall i :: 0 <= i < |x| ==>
            x[i].selectedStep == s[0].stepNum && x[i].count == k && x[i].task == task &&
            x[i].excludedStep == s[i + 1].stepNum && x[i].excludedAction == s[i + 1].actionStr)
  {
    BucketNonEmpty(entries, k);
    var b := Bucket(entries, k);
    var s := SortedBucket(entries, k);
    BucketExclusionsAt(task, k, s);
    SortedHead(s);
    forall e | e in b ensures s[0].stepNum <= e.stepNum {
      assert e in multiset(b);
    }
  }

  /** The head of a bucket sorted by step number has the smallest step number, and the tail holds the rest. */
  lemma SortedHead(s: seq<Entry>)
    requires SortedBy(s, StepNumKey) && |s| > 0
    ensures s[0] in multiset(s)
    ensures forall e :: e in multiset(s) ==> s[0].stepNum <= e.stepNum
    ensures multiset(s[1..]) == multiset(s) - multiset{s[0]}
  {
    forall e | e in multiset(s) ensures s[0].stepNum <= e.stepNum {
      var j :| 0 <= j < |s| && s[j] == e;
      if j > 0 { assert StepNumKey(s[0]) <= StepNumKey(s[j]); }
    }
    assert s == [s[0]] + s[1..];
  }

  // ---------------------------------------------------------------------------
  // The whole run

  /** The number of entries with occurrence rank `k` (`repetition_counts[k]`). */
  function CountRank(entries: seq<Entry>, k: nat): nat
    decreases |entries|
  {
    if |entries| == 0 then 0
    else CountRank(entries[..|entries| - 1], k) + (if entries[|entries| - 1].count == k then 1 else 0)
  }

  /** All reports, task directory by task directory. */
  function AllEntries(tasks: seq<TaskDir>): seq<Entry>
    decreases |tasks|
  {
    if |tasks| == 0 then []
    else AllEntries(tasks[..|tasks| - 1]) + TaskEntries(tasks[|tasks| - 1])
  }

  function TaskExclusionsOf(task: TaskDir): seq<Exclusion> {
    var es := TaskEntries(task);
    TaskExclusions(task.name, es, BucketRanks(es))
  }

  /** All exclusion records, task directory by task directory. */
  function AllExclusions(tasks: seq<TaskDir>): seq<Exclusion>
    decreases |tasks|
  {
    if |tasks| == 0 then []
    else AllExclusions(tasks[..|tasks| - 1]) + TaskExclusionsOf(tasks[|tasks| - 1])
  }

  /** `truncate_maps`: rank, then task name, to the selected step. */
  type TruncateMaps = map<nat, map<string, nat>>

  /** `truncate_maps[k][name] = step` */
  function SetAt(m: TruncateMaps, k: nat, name: string, step: nat): (r: TruncateMaps)
    ensures k in r && name in r[k] && r[k][name] == step
  {
    m[k := (if k in m then m[k] else map[])[name := step]]
  }

  /** Setting one cell of the truncation maps leaves every other cell as it was. */
  lemma SetAtOther(m: TruncateMaps, k: nat, name: string, step: nat, k': nat, n': string)
    requires k' != k || n' != name
    ensures var r := SetAt(m, k, name, step);
      && ((k' in r && n' in r[k']) <==> (k' in m && n' in m[k']))
      && (k' in m && n' in m[k'] ==> r[k'][n'] == m[k'][n'])
  {
  }

  /** Record a task's truncation points, in order. */
  function Assign(m: TruncateMaps, name: string, truncs: seq<(nat, nat)>): TruncateMaps
    decreases |truncs|
  {
    if |truncs| == 0 then m
    else
      var t := truncs[|truncs| - 1];
      SetAt(Assign(m, name, truncs[..|truncs| - 1]), t.0, name, t.1)
  }

  function TaskTruncationsOf(task: TaskDir): seq<(nat, nat)> {
    var es := TaskEntries(task);
    TaskTruncations(es, BucketRanks(es))
  }

  /** Each task directory's name and truncation points, in order. */
  function Records(tasks: seq<TaskDir>): seq<(string, seq<(nat, nat)>)>
    decreases |tasks|
  {
    if |tasks| == 0 then []
    else Records(tasks[..|tasks| - 1]) + [(tasks[|tasks| - 1].name, TaskTruncationsOf(tasks[|tasks| - 1]))]
  }

  lemma {:induction false} RecordsAt(tasks: seq<TaskDir>, t: nat)
    requires t < |tasks|
    ensures |Records(tasks)| == |tasks|
    ensures Records(tasks)[t] == (tasks[t].name, TaskTruncationsOf(tasks[t]))
    decreases |tasks|
  {
    if t < |tasks| - 1 {
      RecordsAt(tasks[..|tasks| - 1], t);
    } else if t > 0 {
      RecordsAt(tasks[..|tasks| - 1], t - 1);
    }
  }

  /** Record the truncation points of several task directories, in order. */
  function AssignAll(recs: seq<(string, seq<(nat, nat)>)>): TruncateMaps
    decreases |recs|
  {
    if |recs| == 0 then map[]
    else
      var last := recs[|recs| - 1];
      Assign(AssignAll(recs[..|recs| - 1]), last.0, last.1)
  }

  /** The truncation maps after processing `tasks` in order. */
  function TruncateMapsOf(tasks: seq<TaskDir>): TruncateMaps {
    AssignAll(Records(tasks))
  }

  /**
   * `find_repetitive_actions`: the reports of every task directory in order, the number of
   * reports per rank, the exclusion records and the per-rank truncation maps. Task
   * directories without step files contribute nothing.
   */
  method FindRepetitiveActions(tasks: seq<TaskDir>)
    returns (results: seq<Entry>, counts: map<nat, nat>, excluded: seq<Exclusion>, truncateMaps: TruncateMaps)
    ensures results == AllEntries(tasks)
    ensures forall k :: k in counts <==> CountRank(results, k) > 0
    ensures forall k :: k in counts ==> counts[k] == CountRank(results, k)
    ensures forall i :: 0 <= i < |results| ==> FirstRank <= results[i].count <= LastRank
    ensures excluded == AllExclusions(tasks)
    ensures truncateMaps == TruncateMapsOf(tasks)
  {
    results := [];
    counts := map[];
    excluded := [];
    truncateMaps := map[];
    var t := 0;
    while t < |tasks|
      invariant 0 <= t <= |tasks|
      invariant results == AllEntries(tasks[..t])
      invariant forall k :: k in counts <==> CountRank(results, k) > 0
      invariant forall k :: k in counts ==> counts[k] == CountRank(results, k)
      invariant forall i :: 0 <= i < |results| ==> FirstRank <= results[i].count <= LastRank
      invariant excluded == AllExclusions(tasks[..t])
      invariant truncateMaps == TruncateMapsOf(tasks[..t])
    {
      var task := tasks[t];
      TasksStep(tasks, t);
      var es := TaskEntries(task);
      results, counts := CountEntries(es, results, counts);
      truncateMaps, excluded := RecordBuckets(task.name, es, BucketRanks(es), truncateMaps, excluded);
      t := t + 1;
    }
    assert tasks[..t] == tasks;
  }

  /** Processing one more task directory appends its reports and exclusions and records its truncation points. */
  lemma TasksStep(tasks: seq<TaskDir>, t: nat)
    requires t < |tasks|
    ensures AllEntries(tasks[..t + 1]) == AllEntries(tasks[..t]) + TaskEntries(tasks[t])
    ensures AllExclusions(tasks[..t + 1]) == AllExclusions(tasks[..t]) + TaskExclusionsOf(tasks[t])
    ensures TruncateMapsOf(tasks[..t + 1]) == Assign(TruncateMapsOf(tasks[..t]), tasks[t].name, TaskTruncationsOf(tasks[t]))
  {
    var pre := tasks[..t + 1];
    assert pre[..t] == tasks[..t] && pre[t] == tasks[t];
    AssignAllSnoc(Records(tasks[..t]), (tasks[t].name, TaskTruncationsOf(tasks[t])));
  }

  lemma AssignAllSnoc(recs: seq<(string, seq<(nat, nat)>)>, x: (string, seq<(nat, nat)>))
    ensures AssignAll(recs + [x]) == Assign(AssignAll(recs), x.0, x.1)
  {
    assert (recs + [x])[..|recs|] == recs;
  }

  /** The first pass's bookkeeping for one task's reports: append them and count them by rank. */
  method CountEntries(es: seq<Entry>, results0: seq<Entry>, counts0: map<nat, nat>)
    returns (results: seq<Entry>, counts: map<nat, nat>)
    requires forall k :: k in counts0 <==> CountRank(results0, k) > 0
    requires forall k :: k in counts0 ==> counts0[k] == CountRank(results0, k)
    requires forall i :: 0 <= i < |results0| ==> FirstRank <= results0[i].count <= LastRank
    requires forall i :: 0 <= i < |es| ==> FirstRank <= es[i].count <= LastRank
    ensures results == results0 + es
    ensures forall k :: k in counts <==> CountRank(results, k) > 0
    ensures forall k :: k in counts ==> counts[k] == CountRank(results, k)
    ensures forall i :: 0 <= i < |results| ==> FirstRank <= results[i].count <= LastRank
  {
    results, counts := results0, counts0;
    var j := 0;
    while j < |es|
      invariant 0 <= j <= |es|
      invariant results == results0 + es[..j]
      invariant forall k :: k in counts <==> CountRank(results, k) > 0
      invariant forall k :: k in counts ==> counts[k] == CountRank(results, k)
      invariant forall i :: 0 <= i < |results| ==> FirstRank <= results[i].count <= LastRank
    {
      var e := es[j];
      CountsStep(results, counts, e);
      counts := counts[e.count := (if e.count in counts then counts[e.count] else 0) + 1];
      results := results + [e];
      assert es[..j + 1] == es[..j] + [e];
      j := j + 1;
    }
    assert es[..j] == es;
  }

  /** Recording one more report keeps each rank's count equal to the number of reports of that rank. */
  lemma CountsStep(results: seq<Entry>, counts: map<nat, nat>, e: Entry)
    requires forall k :: k in counts <==> CountRank(results, k) > 0
    requires forall k :: k in counts ==> counts[k] == CountRank(results, k)
    ensures var c := counts[e.count := (if e.count in counts then counts[e.count] else 0) + 1];
      && (forall k :: k in c <==> CountRank(results + [e], k) > 0)
      && (forall k :: k in c ==> c[k] == CountRank(results + [e], k))
  {
    assert (results + [e])[..|results|] == results;
  }

  /** One bucket of the second pass: set its cell to its selected step and append its exclusion records. */
  function RecordBucket(name: string, es: seq<Entry>, k: nat, acc: (TruncateMaps, seq<Exclusion>)): (TruncateMaps, seq<Exclusion>) {
    (SetAt(acc.0, k, name, Earliest(es, k)), acc.1 + BucketExclusions(name, k, SortedBucket(es, k)))
  }

  /** The truncation maps and exclusion records once the buckets `ranks` of a task are recorded. */
  function RecordedAfter(name: string, es: seq<Entry>, ranks: seq<nat>, maps0: TruncateMaps, excluded0: seq<Exclusion>)
    : (TruncateMaps, seq<Exclusion>)
  {
    (Assign(maps0, name, TaskTruncations(es, ranks)), excluded0 + TaskExclusions(name, es, ranks))
  }

  /** Before the first bucket nothing is recorded. */
  lemma RecordedNothing(name: string, es: seq<Entry>, ranks: seq<nat>, maps0: TruncateMaps, excluded0: seq<Exclusion>)
    ensures RecordedAfter(name, es, ranks[..0], maps0, excluded0) == (maps0, excluded0)
  {
    assert ranks[..0] == [];
    assert excluded0 + [] == excluded0;
  }

  /** Recording one more bucket extends what the earlier buckets recorded. */
  lemma RecordStep(name: string, es: seq<Entry>, ranks: seq<nat>, b: nat, maps0: TruncateMaps, excluded0: seq<Exclusion>)
    requires b < |ranks|
    ensures RecordBucket(name, es, ranks[b], RecordedAfter(name, es, ranks[..b], maps0, excluded0)) ==
      RecordedAfter(name, es, ranks[..b + 1], maps0, excluded0)
  {
    var k := ranks[b];
    TruncationsStep(es, ranks, b);
    AssignSnoc(maps0, name, TaskTruncations(es, ranks[..b]), (k, Earliest(es, k)));
    ExclusionsStep(name, es, ranks, b);
    AppendAfter(excluded0 + TaskExclusions(name, es, ranks[..b]), excluded0, TaskExclusions(name, es, ranks[..b]),
                BucketExclusions(name, k, SortedBucket(es, k)));
  }

  /** The second pass over one task's buckets: record each selected step and the exclusions. */
  method RecordBuckets(name: string, es: seq<Entry>, ranks: seq<nat>, maps0: TruncateMaps, excluded0: seq<Exclusion>)
    returns (maps: TruncateMaps, excluded: seq<Exclusion>)
    ensures maps == Assign(maps0, name, TaskTruncations(es, ranks))
    ensures excluded == excluded0 + TaskExclusions(name, es, ranks)
  {
    var acc := (maps0, excluded0);
    var b := 0;
    RecordedNothing(name, es, ranks, maps0, excluded0);
    while b < |ranks|
      invariant 0 <= b <= |ranks|
      invariant acc == RecordedAfter(name, es, ranks[..b], maps0, excluded0)
    {
      RecordStep(name, es, ranks, b, maps0, excluded0);
      acc := RecordBucket(name, es, ranks[b], acc);
      b := b + 1;
    }
    TakeAll(ranks);
    maps, excluded := acc.0, acc.1;
  }

  /** Recording one more truncation point sets its cell on top of the earlier ones. */
  lemma AssignSnoc(m: TruncateMaps, name: string, truncs: seq<(nat, nat)>, t: (nat, nat))
    ensures Assign(m, name, truncs + [t]) == SetAt(Assign(m, name, truncs), t.0, name, t.1)
  {
    assert (truncs + [t])[..|truncs|] == truncs;
  }

  lemma TruncationsStep(es: seq<Entry>, ranks: seq<nat>, b: nat)
    requires b < |ranks|
    ensures TaskTruncations(es, ranks[..b + 1]) == TaskTruncations(es, ranks[..b]) + [(ranks[b], Earliest(es, ranks[b]))]
  {
    var pre := ranks[..b + 1];
    assert pre[..|pre| - 1] == ranks[..b];
  }

  lemma ExclusionsStep(name: string, es: seq<Entry>, ranks: seq<nat>, b: nat)
    requires b < |ranks|
    ensures TaskExclusions(name, es, ranks[..b + 1]) ==
      TaskExclusions(name, es, ranks[..b]) + BucketExclusions(name, ranks[b], SortedBucket(es, ranks[b]))
  {
    var pre := ranks[..b + 1];
    assert pre[..|pre| - 1] == ranks[..b];
  }

  /** The task directory `task` selects a step for rank `k` under the name `name`. */
  predicate Selects(task: TaskDir, k: nat, name: string) {
    task.name == name && k in BucketRanks(TaskEntries(task))
  }

  /** The step the last truncation point for rank `k` records, if any. */
  function LastFor(truncs: seq<(nat, nat)>, k: nat): (r: Option<nat>)
    ensures r.None? <==> forall i :: 0 <= i < |truncs| ==> truncs[i].0 != k
    decreases |truncs|
  {
    if |truncs| == 0 then None
    else if truncs[|truncs| - 1].0 == k then Some(truncs[|truncs| - 1].1)
    else LastFor(truncs[..|truncs| - 1], k)
  }

  /**
   * Recording a task's truncation points defines the cell `[k][name]` exactly when one of
   * them has rank `k`, with the step of the last such point, and leaves every other cell
   * as it was.
   */
  lemma {:induction false} AssignCell(m: TruncateMaps, name: string, truncs: seq<(nat, nat)>, k: nat, n: string)
    ensures var a := Assign(m, name, truncs);
      if n == name && LastFor(truncs, k).Some? then k in a && n in a[k] && a[k][n] == LastFor(truncs, k).value
      else ((k in a && n in a[k]) <==> (k in m && n in m[k])) && (k in m && n in m[k] ==> a[k][n] == m[k][n])
    decreases |truncs|
  {
    if |truncs| > 0 {
      var init := truncs[..|truncs| - 1];
      var t := truncs[|truncs| - 1];
      AssignCell(m, name, init, k, n);
      if t.0 != k || n != name {
        SetAtOther(Assign(m, name, init), t.0, name, t.1, k, n);
      }
    }
  }

  /** Every truncation point of a task records the selected step of its bucket. */
  lemma {:induction false} TaskTruncationsLast(es: seq<Entry>, ranks: seq<nat>, k: nat)
    ensures LastFor(TaskTruncations(es, ranks), k) == if k in ranks then Some(Earliest(es, k)) else None
    decreases |ranks|
  {
    if |ranks| > 0 {
      var init := ranks[..|ranks| - 1];
      var last := ranks[|ranks| - 1];
      TaskTruncationsLast(es, init, k);
      LastForSnoc(TaskTruncations(es, init), (last, Earliest(es, last)), k);
      SplitLast(ranks);
    }
  }

  /** The last truncation point for `k` after one more point: the new one when it has rank `k`, the old answer otherwise. */
  lemma LastForSnoc(truncs: seq<(nat, nat)>, t: (nat, nat), k: nat)
    ensures LastFor(truncs + [t], k) == if t.0 == k then Some(t.1) else LastFor(truncs, k)
  {
    assert (truncs + [t])[..|truncs|] == truncs;
  }

  /** Record `rec` sets a rank-`k` cell under `name`. */
  predicate Sets(rec: (string, seq<(nat, nat)>), k: nat, name: string) {
    rec.0 == name && LastFor(rec.1, k).Some?
  }

  /** The position of the last record that sets `[k][name]`, if any does. */
  function LastSetter(recs: seq<(string, seq<(nat, nat)>)>, k: nat, name: string): Option<nat>
    decreases |recs|
  {
    if |recs| == 0 then None
    else if Sets(recs[|recs| - 1], k, name) then Some(|recs| - 1)
    else LastSetter(recs[..|recs| - 1], k, name)
  }

  /** The last setter sets the cell and no later record does; without one, no record sets it. */
  lemma {:induction false} LastSetterMeaning(recs: seq<(string, seq<(nat, nat)>)>, k: nat, name: string)
    ensures LastSetter(recs, k, name).Some? ==> LastSetter(recs, k, name).value < |recs|
    ensures LastSetter(recs, k, name).Some? ==>
      var t := LastSetter(recs, k, name).value;
      t < |recs| && Sets(recs[t], k, name) && forall u :: t < u < |recs| ==> !Sets(recs[u], k, name)
    ensures LastSetter(recs, k, name).None? ==> forall t :: 0 <= t < |recs| ==> !Sets(recs[t], k, name)
    decreases |recs|
  {
    if |recs| > 0 && !Sets(recs[|recs| - 1], k, name) {
      var init := recs[..|recs| - 1];
      LastSetterMeaning(init, k, name);
      assert forall u :: 0 <= u < |init| ==> init[u] == recs[u];
    }
  }

  /** The cell `[k][name]` after several records is defined exactly when some record sets it, and holds the last setter's step. */
  lemma {:induction false} AssignAllCell(recs: seq<(string, seq<(nat, nat)>)>, k: nat, name: string)
    ensures var m := AssignAll(recs);
      (k in m && name in m[k]) <==> LastSetter(recs, k, name).Some?
    ensures var m := AssignAll(recs);
      var t := LastSetter(recs, k, name);
      t.Some? && t.value < |recs| ==> k in m && name in m[k] && Some(m[k][name]) == LastFor(recs[t.value].1, k)
    decreases |recs|
  {
    if |recs| > 0 {
      var init := recs[..|recs| - 1];
      var last := recs[|recs| - 1];
      AssignAllCell(init, k, name);
      AssignCell(AssignAll(init), last.0, last.1, k, name);
      LastSetterMeaning(init, k, name);
      assert AssignAll(recs) == Assign(AssignAll(init), last.0, last.1);
      assert LastSetter(recs, k, name) == if Sets(last, k, name) then Some(|recs| - 1) else LastSetter(init, k, name);
      var t := LastSetter(init, k, name);
      if t.Some? {
        assert init[t.value] == recs[t.value];
      }
    }
  }

  /**
   * After recording several task directories, the cell `[k][name]` is defined exactly when
   * one of them sets it, and holds what the last such one recorded.
   */
  lemma AssignAllMeaning(recs: seq<(string, seq<(nat, nat)>)>, k: nat, name: string)
    ensures var m := AssignAll(recs);
      (k in m && name in m[k]) <==> exists t :: 0 <= t < |recs| && Sets(recs[t], k, name)
    ensures var m := AssignAll(recs);
      k in m && name in m[k] ==>
        exists t :: 0 <= t < |recs| && Sets(recs[t], k, name) &&
          m[k][name] == LastFor(recs[t].1, k).value &&
          forall u :: t < u < |recs| ==> !Sets(recs[u], k, name)
  {
    LastSetterMeaning(recs, k, name);
    AssignAllCell(recs, k, name);
    var t := LastSetter(recs, k, name);
    if t.Some? {
      assert Sets(recs[t.value], k, name);
    }
  }

  /** A task directory's record sets `[k][name]` exactly when the directory selects a step for it. */
  lemma RecordSets(task: TaskDir, k: nat, name: string)
    ensures Sets((task.name, TaskTruncationsOf(task)), k, name) <==> Selects(task, k, name)
    ensures Selects(task, k, name) ==> LastFor(TaskTruncationsOf(task), k) == Some(Earliest(TaskEntries(task), k))
  {
    var es := TaskEntries(task);
    TaskTruncationsLast(es, BucketRanks(es), k);
  }

  /**
   * `truncate_maps[k][name]` is defined exactly when some task directory called `name`
   * has a rank-`k` bucket, and then holds the selected (smallest) step of the last such
   * directory processed: a later directory with the same base name overwrites an earlier one.
   */
  lemma TruncateMapsMeaning(tasks: seq<TaskDir>, k: nat, name: string)
    ensures var m := TruncateMapsOf(tasks);
      (k in m && name in m[k]) <==> exists t :: 0 <= t < |tasks| && Selects(tasks[t], k, name)
    ensures var m := TruncateMapsOf(tasks);
      k in m && name in m[k] ==>
        exists t :: 0 <= t < |tasks| && Selects(tasks[t], k, name) &&
          m[k][name] == Earliest(TaskEntries(tasks[t]), k) &&
          forall u :: t < u < |tasks| ==> !Selects(tasks[u], k, name)
  {
    var recs := Records(tasks);
    if |tasks| > 0 {
      RecordsAt(tasks, 0);
    }
    AssignAllMeaning(recs, k, name);
    forall t | 0 <= t < |tasks| ensures Sets(recs[t], k, name) <==> Selects(tasks[t], k, name) {
      RecordsAt(tasks, t);
      RecordSets(tasks[t], k, name);
    }
    var m := TruncateMapsOf(tasks);
    if k in m && name in m[k] {
      var t :| 0 <= t < |recs| && Sets(recs[t], k, name) &&
        m[k][name] == LastFor(recs[t].1, k).value &&
        forall u :: t < u < |recs| ==> !Sets(recs[u], k, name);
      RecordsAt(tasks, t);
      RecordSets(tasks[t], k, name);
    }
  }
}
