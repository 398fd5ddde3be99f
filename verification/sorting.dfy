/**
 * Python's `sorted`: a stable sort by an integer key (step numbers), and the
 * code-point order Python uses when it sorts a list of strings.
 */
module Sorting {

  ghost predicate SortedBy<T>(s: seq<T>, key: T -> int) {
    forall i, j :: 0 <= i < j < |s| ==> key(s[i]) <= key(s[j])
  }

  ghost predicate StrictlySortedBy<T>(s: seq<T>, key: T -> int) {
    forall i, j :: 0 <= i < j < |s| ==> key(s[i]) < key(s[j])
  }

  ghost predicate DistinctKeys<T>(s: seq<T>, key: T -> int) {
    forall i, j :: 0 <= i < j < |s| ==> key(s[i]) != key(s[j])
  }

  ghost function KeySet<T>(s: seq<T>, key: T -> int): set<int> {
    set i | 0 <= i < |s| :: key(s[i])
  }

  lemma KeySetCons<T>(y: T, s: seq<T>, key: T -> int)
    ensures KeySet([y] + s, key) == {key(y)} + KeySet(s, key)
  {
    var t := [y] + s;
    forall k | k in KeySet(t, key) ensures k in {key(y)} + KeySet(s, key) {
      var i :| 0 <= i < |t| && key(t[i]) == k;
      if i > 0 { assert t[i] == s[i - 1]; }
    }
    forall k | k in KeySet(s, key) ensures k in KeySet(t, key) {
      var i :| 0 <= i < |s| && key(s[i]) == k;
      assert t[i + 1] == s[i];
    }
    assert t[0] == y;
  }

  lemma KeySetSnoc<T>(s: seq<T>, y: T, key: T -> int)
    ensures KeySet(s + [y], key) == KeySet(s, key) + {key(y)}
  {
    var t := s + [y];
    forall k | k in KeySet(t, key) ensures k in KeySet(s, key) + {key(y)} {
      var i :| 0 <= i < |t| && key(t[i]) == k;
      if i < |s| { assert t[i] == s[i]; }
    }
    forall k | k in KeySet(s, key) ensures k in KeySet(t, key) {
      var i :| 0 <= i < |s| && key(s[i]) == k;
      assert t[i] == s[i];
    }
    assert t[|s|] == y;
  }

  /** Every key of `rest` is bounded below by `lo` when every key it was built from is. */
  lemma KeysAbove<T>(rest: seq<T>, keys: set<int>, lo: int, strict: bool, key: T -> int)
    requires KeySet(rest, key) == keys
    requires forall k | k in keys :: if strict then lo < k else lo <= k
    ensures forall i | 0 <= i < |rest| :: if strict then lo < key(rest[i]) else lo <= key(rest[i])
  {
    forall i | 0 <= i < |rest|
      ensures if strict then lo < key(rest[i]) else lo <= key(rest[i])
    {
      assert key(rest[i]) in KeySet(rest, key);
    }
  }

  /** Inserts `x` after every element whose key is not larger, which keeps the sort stable. */
  function InsertBy<T>(x: T, s: seq<T>, key: T -> int): (r: seq<T>)
    ensures |r| == |s| + 1
    decreases |s|
  {
    if |s| == 0 || key(x) < key(s[0]) then [x] + s
    else [s[0]] + InsertBy(x, s[1..], key)
  }

  lemma {:induction false} InsertByKeys<T>(x: T, s: seq<T>, key: T -> int)
    ensures KeySet(InsertBy(x, s, key), key) == KeySet(s, key) + {key(x)}
    decreases |s|
  {
    if |s| == 0 || key(x) < key(s[0]) {
      KeySetCons(x, s, key);
    } else {
      InsertByKeys(x, s[1..], key);
      assert s == [s[0]] + s[1..];
      KeySetCons(s[0], s[1..], key);
      KeySetCons(s[0], InsertBy(x, s[1..], key), key);
    }
  }

  lemma {:induction false} InsertByMultiset<T>(x: T, s: seq<T>, key: T -> int)
    ensures multiset(InsertBy(x, s, key)) == multiset(s) + multiset{x}
    decreases |s|
  {
    if |s| > 0 && key(x) >= key(s[0]) {
      InsertByMultiset(x, s[1..], key);
      assert s == [s[0]] + s[1..];
    }
  }

  /** Every key in `s[1..]` is bounded below by the head's key (strictly when `strict`). */
  lemma TailKeysAbove<T>(s: seq<T>, key: T -> int, strict: bool)
    requires |s| > 0
    requires if strict then StrictlySortedBy(s, key) else SortedBy(s, key)
    ensures forall k | k in KeySet(s[1..], key) :: if strict then key(s[0]) < k else key(s[0]) <= k
  {
    forall k | k in KeySet(s[1..], key)
      ensures if strict then key(s[0]) < k else key(s[0]) <= k
    {
      var j :| 0 <= j < |s[1..]| && key(s[1..][j]) == k;
      assert s[j + 1] == s[1..][j];
    }
  }

  lemma {:induction false} InsertBySorted<T>(x: T, s: seq<T>, key: T -> int, strict: bool)
    requires if strict then StrictlySortedBy(s, key) && key(x) !in KeySet(s, key) else SortedBy(s, key)
    ensures if strict then StrictlySortedBy(InsertBy(x, s, key), key) else SortedBy(InsertBy(x, s, key), key)
    decreases |s|
  {
    if |s| > 0 && key(x) >= key(s[0]) {
      SortedTail(s, key, strict);
      KeySetCons(s[0], s[1..], key);
      assert s == [s[0]] + s[1..];
      InsertBySorted(x, s[1..], key, strict);
      InsertBySortedStep(x, s, key, strict);
    }
  }

  /** The tail of a sorted sequence is sorted. */
  lemma SortedTail<T>(s: seq<T>, key: T -> int, strict: bool)
    requires |s| > 0
    requires if strict then StrictlySortedBy(s, key) else SortedBy(s, key)
    ensures if strict then StrictlySortedBy(s[1..], key) else SortedBy(s[1..], key)
  {
    assert forall i | 0 <= i < |s| - 1 :: s[1..][i] == s[i + 1];
  }

  /** Inserting behind the head: the head stays in front of the sorted insertion into the tail. */
  lemma InsertBySortedStep<T>(x: T, s: seq<T>, key: T -> int, strict: bool)
    requires |s| > 0 && key(x) >= key(s[0])
    requires if strict then StrictlySortedBy(s, key) && key(x) !in KeySet(s, key) else SortedBy(s, key)
    requires if strict then StrictlySortedBy(InsertBy(x, s[1..], key), key) else SortedBy(InsertBy(x, s[1..], key), key)
    ensures if strict then StrictlySortedBy(InsertBy(x, s, key), key) else SortedBy(InsertBy(x, s, key), key)
  {
    var rest := InsertBy(x, s[1..], key);
    assert InsertBy(x, s, key) == [s[0]] + rest;
    assert forall i | 0 <= i < |rest| :: if strict then key(s[0]) < key(rest[i]) else key(s[0]) <= key(rest[i]) by {
      InsertByKeys(x, s[1..], key);
      TailKeysAbove(s, key, strict);
      assert strict ==> key(x) != key(s[0]) by {
        KeySetCons(s[0], s[1..], key);
        assert s == [s[0]] + s[1..];
      }
      KeysAbove(rest, KeySet(s[1..], key) + {key(x)}, key(s[0]), strict, key);
    }
    ConsSorted(s[0], rest, key, strict);
  }

  /** A sorted sequence stays sorted behind an element whose key bounds all of its keys from below. */
  lemma ConsSorted<T>(y: T, rest: seq<T>, key: T -> int, strict: bool)
    requires if strict then StrictlySortedBy(rest, key) else SortedBy(rest, key)
    requires forall i | 0 <= i < |rest| :: if strict then key(y) < key(rest[i]) else key(y) <= key(rest[i])
    ensures if strict then StrictlySortedBy([y] + rest, key) else SortedBy([y] + rest, key)
  {
    var t := [y] + rest;
    assert forall i | 0 < i < |t| :: t[i] == rest[i - 1];
  }

  /** `sorted(s, key=key)`: stable insertion sort. */
  function SortBy<T>(s: seq<T>, key: T -> int): seq<T>
    decreases |s|
  {
    if |s| == 0 then [] else InsertBy(s[|s| - 1], SortBy(s[..|s| - 1], key), key)
  }

  /** The result is ordered by key, a permutation of the input, and strictly ordered when the keys are distinct. */
  lemma {:induction false} SortByMeaning<T>(s: seq<T>, key: T -> int)
    ensures |SortBy(s, key)| == |s|
    ensures SortedBy(SortBy(s, key), key)
    ensures multiset(SortBy(s, key)) == multiset(s)
    ensures KeySet(SortBy(s, key), key) == KeySet(s, key)
    ensures DistinctKeys(s, key) ==> StrictlySortedBy(SortBy(s, key), key)
    decreases |s|
  {
    if |s| > 0 {
      var init := s[..|s| - 1];
      var last := s[|s| - 1];
      var sortedInit := SortBy(init, key);
      SortByMeaning(init, key);
      assert s == init + [last];
      KeySetSnoc(init, last, key);
      InsertBySorted(last, sortedInit, key, false);
      InsertByMultiset(last, sortedInit, key);
      InsertByKeys(last, sortedInit, key);
      if DistinctKeys(s, key) {
        assert DistinctKeys(init, key) && key(last) !in KeySet(init, key) by {
          forall i | 0 <= i < |init| ensures key(init[i]) != key(last) {
            assert init[i] == s[i];
          }
        }
        InsertBySorted(last, sortedInit, key, true);
      }
    }
  }

  /** `f` applied to every element, in order. */
  function MapSeq<A, B>(s: seq<A>, f: A -> B): (r: seq<B>)
    ensures |r| == |s|
    ensures forall i :: 0 <= i < |s| ==> r[i] == f(s[i])
    decreases |s|
  {
    if |s| == 0 then []
    else
      var rest := MapSeq(s[1..], f);
      assert forall i :: 1 <= i < |s| ==> s[1..][i - 1] == s[i];
      [f(s[0])] + rest
  }

  /** The elements satisfying `p`, in their original order. */
  function Filter<T>(s: seq<T>, p: T -> bool): (r: seq<T>)
    ensures |r| <= |s|
    decreases |s|
  {
    if |s| == 0 then []
    else (if p(s[0]) then [s[0]] else []) + Filter(s[1..], p)
  }

  /** `Filter` keeps exactly the elements that satisfy `p`. */
  lemma {:induction false} FilterMembers<T>(s: seq<T>, p: T -> bool)
    ensures forall i :: 0 <= i < |Filter(s, p)| ==> Filter(s, p)[i] in s && p(Filter(s, p)[i])
    ensures forall i :: 0 <= i < |s| && p(s[i]) ==> s[i] in Filter(s, p)
    decreases |s|
  {
    if |s| > 0 {
      FilterMembers(s[1..], p);
      var r := Filter(s, p);
      var tail := Filter(s[1..], p);
      assert r == (if p(s[0]) then [s[0]] else []) + tail;
      forall i | 0 <= i < |r| ensures r[i] in s && p(r[i]) {
        if !p(s[0]) || i > 0 {
          var j := if p(s[0]) then i - 1 else i;
          assert r[i] == tail[j];
        }
      }
      forall i | 0 < i < |s| && p(s[i]) ensures s[i] in r {
        assert s[i] == s[1..][i - 1];
      }
    }
  }

  /** A filter every element passes keeps the whole sequence. */
  lemma {:induction false} FilterAll<T>(s: seq<T>, p: T -> bool)
    requires forall i :: 0 <= i < |s| ==> p(s[i])
    ensures Filter(s, p) == s
    decreases |s|
  {
    if |s| > 0 {
      FilterAll(s[1..], p);
      assert s == [s[0]] + s[1..];
    }
  }

  /** A filter no element passes keeps nothing. */
  lemma {:induction false} FilterNone<T>(s: seq<T>, p: T -> bool)
    requires forall i :: 0 <= i < |s| ==> !p(s[i])
    ensures Filter(s, p) == []
    decreases |s|
  {
    if |s| > 0 {
      FilterNone(s[1..], p);
    }
  }

  /** A non-empty sequence is its prefix followed by its last element. */
  lemma SplitLast<T>(s: seq<T>)
    requires |s| > 0
    ensures s == s[..|s| - 1] + [s[|s| - 1]]
  {
  }

  /** Appending to a sequence that extends `prefix` by `done` extends `prefix` by `done` and the addition. */
  lemma AppendAfter<X>(acc: seq<X>, prefix: seq<X>, done: seq<X>, more: seq<X>)
    requires acc == prefix + done
    ensures acc + more == prefix + (done + more)
  {
  }

  /** The prefix of full length is the whole sequence. */
  lemma SplitAround<T>(s: seq<T>, i: nat)
    requires i < |s|
    ensures s == s[..i] + [s[i]] + s[i + 1..]
  {
  }

  lemma TakeAll<T>(s: seq<T>)
    ensures s[..|s|] == s
  {
  }

  /** Dropping the last element of a concatenation with a non-empty right part drops it from that part. */
  lemma DropLastAppend<T>(a: seq<T>, b: seq<T>)
    requires |b| > 0
    ensures (a + b)[..|a + b| - 1] == a + b[..|b| - 1]
    ensures (a + b)[|a + b| - 1] == b[|b| - 1]
  {
  }

  lemma {:induction false} FilterAppend<T>(a: seq<T>, b: seq<T>, p: T -> bool)
    ensures Filter(a + b, p) == Filter(a, p) + Filter(b, p)
    decreases |a|
  {
    if |a| > 0 {
      FilterAppend(a[1..], b, p);
      assert (a + b)[1..] == a[1..] + b;
    } else {
      assert a + b == b;
    }
  }

  /** Filtering after a stable insertion is inserting into the filtered sequence. */
  lemma {:induction false} FilterInsertBy<T>(x: T, s: seq<T>, key: T -> int, p: T -> bool)
    requires SortedBy(s, key)
    ensures Filter(InsertBy(x, s, key), p) == if p(x) then InsertBy(x, Filter(s, p), key) else Filter(s, p)
    decreases |s|
  {
    if |s| == 0 {
    } else if key(x) < key(s[0]) {
      FilterInsertFront(x, s, key, p);
    } else {
      assert SortedBy(s[1..], key);
      FilterInsertBy(x, s[1..], key, p);
      FilterInsertBack(x, s, key, p);
    }
  }

  lemma FilterInsertBack<T>(x: T, s: seq<T>, key: T -> int, p: T -> bool)
    requires |s| > 0 && !(key(x) < key(s[0]))
    requires Filter(InsertBy(x, s[1..], key), p) ==
      if p(x) then InsertBy(x, Filter(s[1..], p), key) else Filter(s[1..], p)
    ensures Filter(InsertBy(x, s, key), p) == if p(x) then InsertBy(x, Filter(s, p), key) else Filter(s, p)
  {
    var s0 := s[0];
    var f1 := Filter(s[1..], p);
    var ins := InsertBy(x, s[1..], key);
    assert InsertBy(x, s, key) == [s0] + ins;
    FilterCons(s0, ins, p);
    FilterHead(s, p);
    if p(s0) && p(x) {
      InsertByCons(x, s0, f1, key);
    }
  }

  lemma FilterCons<T>(y: T, t: seq<T>, p: T -> bool)
    ensures Filter([y] + t, p) == if p(y) then [y] + Filter(t, p) else Filter(t, p)
  {
    assert ([y] + t)[0] == y && ([y] + t)[1..] == t;
  }

  lemma InsertByCons<T>(x: T, y: T, t: seq<T>, key: T -> int)
    requires !(key(x) < key(y))
    ensures InsertBy(x, [y] + t, key) == [y] + InsertBy(x, t, key)
  {
    assert ([y] + t)[0] == y && ([y] + t)[1..] == t;
  }

  lemma FilterHead<T>(s: seq<T>, p: T -> bool)
    requires |s| > 0
    ensures Filter(s, p) == if p(s[0]) then [s[0]] + Filter(s[1..], p) else Filter(s[1..], p)
  {
  }

  lemma FilterInsertFront<T>(x: T, s: seq<T>, key: T -> int, p: T -> bool)
    requires SortedBy(s, key) && |s| > 0 && key(x) < key(s[0])
    ensures Filter(InsertBy(x, s, key), p) == if p(x) then InsertBy(x, Filter(s, p), key) else Filter(s, p)
  {
    var fs := Filter(s, p);
    assert InsertBy(x, s, key) == [x] + s;
    FilterCons(x, s, p);
    if p(x) && |fs| > 0 {
      assert key(x) < key(fs[0]) by {
        FilterMembers(s, p);
        assert fs[0] in s;
        var j :| 0 <= j < |s| && s[j] == fs[0];
        assert key(s[0]) <= key(s[j]);
      }
      assert InsertBy(x, fs, key) == [x] + fs;
    }
  }

  /** Stable sorting commutes with filtering: dropping elements before or after the sort gives the same sequence. */
  lemma {:induction false} FilterSortBy<T>(s: seq<T>, key: T -> int, p: T -> bool)
    ensures Filter(SortBy(s, key), p) == SortBy(Filter(s, p), key)
    decreases |s|
  {
    if |s| > 0 {
      var init := s[..|s| - 1];
      var last := s[|s| - 1];
      SplitLast(s);
      FilterSortBy(init, key, p);
      SortByMeaning(init, key);
      FilterInsertBy(last, SortBy(init, key), key, p);
      FilterAppend(init, [last], p);
      FilterOne(last, p);
      var fi := Filter(init, p);
      if p(last) {
        SortBySnoc(fi, last, key);
      } else {
        assert fi + [] == fi;
      }
    }
  }

  lemma FilterOne<T>(x: T, p: T -> bool)
    ensures Filter([x], p) == if p(x) then [x] else []
  {
    assert [x][1..] == [];
  }

  /** Sorting one more element inserts it into the sorted rest. */
  lemma SortBySnoc<T>(s: seq<T>, x: T, key: T -> int)
    ensures SortBy(s + [x], key) == InsertBy(x, SortBy(s, key), key)
  {
    assert (s + [x])[..|s|] == s;
  }

  /** Python's string order: code point by code point, a proper prefix first. */
  predicate LexLe(a: string, b: string)
    decreases |a|
  {
    |a| == 0 || (|b| > 0 && (a[0] < b[0] || (a[0] == b[0] && LexLe(a[1..], b[1..]))))
  }

  /** Any two strings are comparable. */
  lemma {:induction false} LexLeTotal(a: string, b: string)
    ensures LexLe(a, b) || LexLe(b, a)
    decreases |a|
  {
    if |a| > 0 && |b| > 0 && a[0] == b[0] {
      LexLeTotal(a[1..], b[1..]);
    }
  }

  /** Adjacent elements are in order; for a total preorder that is the whole order. */
  predicate SortedLex(s: seq<string>) {
    forall i :: 0 < i < |s| ==> LexLe(s[i - 1], s[i])
  }

  function InsertLex(x: string, s: seq<string>): (r: seq<string>)
    requires SortedLex(s)
    ensures SortedLex(r)
    ensures multiset(r) == multiset(s) + multiset{x}
    ensures |r| == |s| + 1
    ensures |r| > 0 && (r[0] == x || (|s| > 0 && r[0] == s[0]))
    decreases |s|
  {
    if |s| == 0 then [x]
    else if !LexLe(s[0], x) then
      LexLeTotal(s[0], x);
      [x] + s
    else
      var rest := InsertLex(x, s[1..]);
      assert s == [s[0]] + s[1..];
      [s[0]] + rest
  }

  /** `sorted(names)` for a list of strings. */
  function SortLex(s: seq<string>): (r: seq<string>)
    ensures SortedLex(r)
    ensures multiset(r) == multiset(s)
    ensures |r| == |s|
    decreases |s|
  {
    if |s| == 0 then []
    else
      assert s == s[..|s| - 1] + [s[|s| - 1]];
      InsertLex(s[|s| - 1], SortLex(s[..|s| - 1]))
  }
}
