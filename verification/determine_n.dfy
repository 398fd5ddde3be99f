/**
 * The truncate map of the original infeasible Webarena tasks: for each task directory
 * with an `experiment.log`, the index of the action at which the agent first messaged
 * the user, or its last action when it never did.
 *
 * A log is its sequence of lines. After every line that reads `action:` (once stripped)
 * the scan skips the line that follows, which holds the action itself.
 */
module DetermineN {
  import opened Wrappers
  import opened Strings
  import opened JsonData

  const Marker: string := "send_msg_to_user"

  predicate IsActionLine(line: string) {
    Strip(line) == "action:"
  }

  /** Which lines read `action:`. */
  function ActionFlags(lines: seq<string>): (r: seq<bool>)
    ensures |r| == |lines|
    ensures forall i :: 0 <= i < |lines| ==> r[i] == IsActionLine(lines[i])
  {
    seq(|lines|, i requires 0 <= i < |lines| => IsActionLine(lines[i]))
  }

  /** The positions of the `action:` lines the scan meets from line `i` on, given which lines read `action:`. */
  function Headers(acts: seq<bool>, i: nat): seq<nat>
    decreases |acts| - i
  {
    if i >= |acts| then []
    else if acts[i] then [i] + Headers(acts, i + 2)
    else Headers(acts, i + 1)
  }

  /** The header at `h` is followed by a line that mentions `send_msg_to_user`. */
  predicate Marked(lines: seq<string>, h: nat) {
    h + 1 < |lines| && Contains(Strip(lines[h + 1]), Marker)
  }

  /** Which lines are headers followed by a marked line. */
  function MarkFlags(lines: seq<string>): (r: seq<bool>)
    ensures |r| == |lines|
    ensures forall h :: 0 <= h < |lines| ==> r[h] == Marked(lines, h)
  {
    seq(|lines|, h requires 0 <= h < |lines| => Marked(lines, h))
  }

  predicate MarkedIn(marks: seq<bool>, h: nat) {
    h < |marks| && marks[h]
  }

  /** The position, among the headers, of the first marked one; `|hs|` when none is. */
  function FirstMarked(marks: seq<bool>, hs: seq<nat>): (r: nat)
    ensures r <= |hs|
    ensures r < |hs| ==> MarkedIn(marks, hs[r])
    ensures forall j :: 0 <= j < r ==> !MarkedIn(marks, hs[j])
    decreases |hs|
  {
    if |hs| == 0 then 0
    else if MarkedIn(marks, hs[0]) then 0
    else 1 + FirstMarked(marks, hs[1..])
  }

  /**
   * The reference value of a log: the index of the first marked action among the scanned
   * `action:` lines, or the index of the last one (0 when there is none).
   */
  function TruncationIndex(lines: seq<string>): nat {
    var hs := Headers(ActionFlags(lines), 0);
    var k := FirstMarked(MarkFlags(lines), hs);
    if k < |hs| then k else if |hs| == 0 then 0 else |hs| - 1
  }

  /**
   * When some `action:` line is followed by a marked line, the index is the rank of the
   * first such line among the scanned headers; otherwise it is the rank of the last header.
   */
  lemma TruncationIndexMeaning(lines: seq<string>)
    ensures var hs := Headers(ActionFlags(lines), 0);
      var n := TruncationIndex(lines);
      && ((exists j :: 0 <= j < |hs| && Marked(lines, hs[j])) ==>
            n < |hs| && Marked(lines, hs[n]) && forall j :: 0 <= j < n ==> !Marked(lines, hs[j]))
      && ((forall j :: 0 <= j < |hs| ==> !Marked(lines, hs[j])) ==> n == if |hs| == 0 then 0 else |hs| - 1)
  {
    var hs := Headers(ActionFlags(lines), 0);
    var marks := MarkFlags(lines);
    HeadersSpaced(ActionFlags(lines), 0);
    var k := FirstMarked(marks, hs);
    assert forall j :: 0 <= j < |hs| ==> (MarkedIn(marks, hs[j]) <==> Marked(lines, hs[j]));
  }

  /** Every header from line `i` on lies at or after `i`, and consecutive headers are at least two lines apart. */
  lemma {:induction false} HeadersSpaced(acts: seq<bool>, i: nat)
    ensures forall j :: 0 <= j < |Headers(acts, i)| ==> i <= Headers(acts, i)[j] < |acts|
    ensures forall j :: 0 < j < |Headers(acts, i)| ==> Headers(acts, i)[j - 1] + 2 <= Headers(acts, i)[j]
    decreases |acts| - i
  {
    if i < |acts| {
      if acts[i] {
        HeadersSpaced(acts, i + 2);
        var rest := Headers(acts, i + 2);
        assert Headers(acts, i) == [i] + rest;
        forall j | 0 < j < |Headers(acts, i)| ensures Headers(acts, i)[j - 1] + 2 <= Headers(acts, i)[j] {
          assert Headers(acts, i)[j] == rest[j - 1];
          if j > 1 { assert Headers(acts, i)[j - 1] == rest[j - 2]; }
        }
      } else {
        HeadersSpaced(acts, i + 1);
      }
    }
  }

  /** The line right after an `action:` line is never taken for an `action:` line itself. */
  lemma HeadersSkipNext(acts: seq<bool>)
    ensures var hs := Headers(acts, 0);
      forall j :: 0 <= j < |hs| ==> hs[j] + 1 !in hs
  {
    var hs := Headers(acts, 0);
    HeadersSpaced(acts, 0);
    forall j | 0 <= j < |hs| ensures hs[j] + 1 !in hs {
      forall m | 0 <= m < |hs| ensures hs[m] != hs[j] + 1 {
        HeadersIncrease(hs, m, j);
      }
    }
  }

  /** In a sequence whose neighbours are two apart, any two entries are at least two apart. */
  lemma {:induction false} HeadersIncrease(hs: seq<nat>, m: nat, j: nat)
    requires m < |hs| && j < |hs|
    requires forall k :: 0 < k < |hs| ==> hs[k - 1] + 2 <= hs[k]
    ensures m < j ==> hs[m] + 2 <= hs[j]
    ensures j < m ==> hs[j] + 2 <= hs[m]
    decreases if m < j then j - m else m - j
  {
    if m + 1 < j {
      HeadersIncrease(hs, m, j - 1);
    } else if j + 1 < m {
      HeadersIncrease(hs, j, m - 1);
    }
  }

  /** The scan of one log as the script runs it: it stops at the first marked action. */
  method ScanLog(lines: seq<string>) returns (n: int)
    ensures n == TruncationIndex(lines)
    ensures n >= 0
  {
    ghost var acts := ActionFlags(lines);
    ghost var marks := MarkFlags(lines);
    ghost var hs := Headers(acts, 0);
    ghost var seen: seq<nat> := [];
    var actionCount := 0;
    var found := false;
    var totalActions := 0;
    var i := 0;
    n := 0;
    while i < |lines|
      invariant 0 <= i <= |lines| + 1
      invariant hs == seen + Headers(acts, i)
      invariant |seen| == actionCount == totalActions
      invariant forall j :: 0 <= j < |seen| ==> !MarkedIn(marks, seen[j])
      invariant !found
      decreases |lines| - i
    {
      if IsActionLine(lines[i]) {
        assert acts[i];
        totalActions := totalActions + 1;
        if Marked(lines, i) {
          n := actionCount;
          found := true;
          assert MarkedIn(marks, i);
          HeadersAtAction(acts, i);
          MarkedAfter(marks, hs, seen, i, Headers(acts, i + 2));
          return;
        }
        assert !MarkedIn(marks, i);
        ScanPastAction(acts, marks, hs, seen, i);
        seen := seen + [i];
        actionCount := actionCount + 1;
        i := i + 2;
      } else {
        assert !acts[i];
        HeadersAtOther(acts, i);
        i := i + 1;
      }
    }
    assert Headers(acts, i) == [];
    assert hs == seen;
    FirstMarkedNone(marks, hs);
    n := if totalActions - 1 > 0 then totalActions - 1 else 0;
  }

  lemma HeadersAtAction(acts: seq<bool>, i: nat)
    requires i < |acts| && acts[i]
    ensures Headers(acts, i) == [i] + Headers(acts, i + 2)
  {
  }

  lemma HeadersAtOther(acts: seq<bool>, i: nat)
    requires i < |acts| && !acts[i]
    ensures Headers(acts, i) == Headers(acts, i + 1)
  {
  }

  /** An unmarked header joins the headers already seen, and the scan resumes two lines on. */
  lemma ScanPastAction(acts: seq<bool>, marks: seq<bool>, hs: seq<nat>, seen: seq<nat>, i: nat)
    requires i < |acts| && acts[i] && !MarkedIn(marks, i)
    requires hs == seen + Headers(acts, i)
    requires forall j :: 0 <= j < |seen| ==> !MarkedIn(marks, seen[j])
    ensures hs == (seen + [i]) + Headers(acts, i + 2)
    ensures forall j :: 0 <= j < |seen + [i]| ==> !MarkedIn(marks, (seen + [i])[j])
  {
    HeadersAtAction(acts, i);
  }

  /** The first marked header, met after unmarked ones. */
  lemma MarkedAfter(marks: seq<bool>, hs: seq<nat>, seen: seq<nat>, i: nat, rest: seq<nat>)
    requires hs == seen + ([i] + rest)
    requires forall j :: 0 <= j < |seen| ==> !MarkedIn(marks, seen[j])
    requires MarkedIn(marks, i)
    ensures FirstMarked(marks, hs) == |seen|
  {
    assert hs[|seen|] == i;
    assert forall j :: 0 <= j < |seen| ==> hs[j] == seen[j];
    FirstMarkedAt(marks, hs, |seen|);
  }

  lemma {:induction false} FirstMarkedAt(marks: seq<bool>, hs: seq<nat>, k: nat)
    requires k < |hs| && MarkedIn(marks, hs[k])
    requires forall j :: 0 <= j < k ==> !MarkedIn(marks, hs[j])
    ensures FirstMarked(marks, hs) == k
    decreases k
  {
    if k > 0 {
      FirstMarkedAt(marks, hs[1..], k - 1);
    }
  }

  lemma {:induction false} FirstMarkedNone(marks: seq<bool>, hs: seq<nat>)
    requires forall j :: 0 <= j < |hs| ==> !MarkedIn(marks, hs[j])
    ensures FirstMarked(marks, hs) == |hs|
    decreases |hs|
  {
    if |hs| > 0 {
      FirstMarkedNone(marks, hs[1..]);
    }
  }

  /** An entry of the target directory: its name, whether it is a directory, and its `experiment.log` if it has one. */
  datatype Subdir = Subdir(name: string, isDir: bool, log: Option<seq<string>>)

  predicate HasLog(e: Subdir) {
    e.isDir && e.log.Some?
  }

  /** The map entry of a directory with a log. */
  function Entry(e: Subdir): (string, Json)
    requires HasLog(e)
  {
    (e.name, JInt(TruncationIndex(e.log.value)))
  }

  /** The truncate map: one entry per directory with a log, in listing order. */
  function TruncateMap(entries: seq<Subdir>): (r: Fields)
    ensures forall i :: 0 <= i < |r| ==> r[i].1.JInt? && r[i].1.i >= 0
    decreases |entries|
  {
    if |entries| == 0 then []
    else
      var e := entries[0];
      (if HasLog(e) then [Entry(e)] else []) + TruncateMap(entries[1..])
  }

  /** A directory has an entry exactly when it has a log. */
  lemma {:induction false} TruncateMapKeys(entries: seq<Subdir>, name: string)
    ensures name in Keys(TruncateMap(entries)) <==>
      exists i :: 0 <= i < |entries| && HasLog(entries[i]) && entries[i].name == name
    decreases |entries|
  {
    if |entries| > 0 {
      var e := entries[0];
      var head: Fields := if HasLog(e) then [Entry(e)] else [];
      TruncateMapKeys(entries[1..], name);
      KeysAppend(head, TruncateMap(entries[1..]));
      assert head != [] ==> head[0].0 == e.name;
      if exists i :: 0 <= i < |entries| && HasLog(entries[i]) && entries[i].name == name {
        var i :| 0 <= i < |entries| && HasLog(entries[i]) && entries[i].name == name;
        if i > 0 { assert entries[1..][i - 1] == entries[i]; }
      }
      if exists i :: 0 <= i < |entries| - 1 && HasLog(entries[1..][i]) && entries[1..][i].name == name {
        var i :| 0 <= i < |entries| - 1 && HasLog(entries[1..][i]) && entries[1..][i].name == name;
        assert entries[i + 1] == entries[1..][i];
      }
    }
  }

  /** The top-level loop over the entries, each log scanned as the script does; the map it builds is the reference map. */
  method DetermineAll(entries: seq<Subdir>) returns (m: Fields)
    ensures m == TruncateMap(entries)
  {
    m := [];
    var i := |entries|;
    while i > 0
      invariant 0 <= i <= |entries|
      invariant m == TruncateMap(entries[i..])
    {
      i := i - 1;
      var e := entries[i];
      assert entries[i..][1..] == entries[i + 1..];
      if e.isDir && e.log.Some? {
        var n := ScanLog(e.log.value);
        m := [(e.name, JInt(n))] + m;
      }
    }
  }
}
