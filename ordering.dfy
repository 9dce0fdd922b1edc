/**
  The order `save_danmaku_xml` in main.py writes danmaku in: Python's
  `list.sort(key=lambda x: x.progress)`, a stable sort by playback position.

  `SortByProgress` is insertion sort taking the records in their original
  order and placing each after every record whose progress is not greater, so
  it is stable. The lemmas state what a stable sort promises: the result is
  ordered, is a permutation of the input, and the records of any one progress
  value keep their relative order.
 */
module Ordering {
  import opened Danmaku

  predicate Sorted(s: seq<Danmaku>)
  {
    forall i, j :: 0 <= i < j < |s| ==> s[i].progress <= s[j].progress
  }

  /** `x` placed after the leading records of `s` whose progress is at most its own. */
  function Insert(x: Danmaku, s: seq<Danmaku>): (r: seq<Danmaku>)
    ensures |r| == |s| + 1
    decreases |s|
  {
    if s == [] then [x]
    else if x.progress < s[0].progress then [x] + s
    else [s[0]] + Insert(x, s[1..])
  }

  /** The sorted list: the records inserted one by one in their original order. */
  function SortByProgress(s: seq<Danmaku>): (r: seq<Danmaku>)
    ensures |r| == |s|
    decreases |s|
  {
    if s == [] then [] else Insert(s[|s| - 1], SortByProgress(s[..|s| - 1]))
  }

  /** The records of `s` whose progress is `p`, in their order. */
  function WithProgress(p: nat, s: seq<Danmaku>): seq<Danmaku>
    decreases |s|
  {
    if s == [] then []
    else (if s[0].progress == p then [s[0]] else []) + WithProgress(p, s[1..])
  }

  // ---------------------------------------------------------------------------
  // Insertion

  lemma {:induction false} InsertSorted(x: Danmaku, s: seq<Danmaku>)
    requires Sorted(s)
    ensures Sorted(Insert(x, s))
    decreases |s|
  {
    if s != [] && x.progress >= s[0].progress {
      var rest := Insert(x, s[1..]);
      InsertSorted(x, s[1..]);
      InsertPermutes(x, s[1..]);
      forall y | y in rest
        ensures s[0].progress <= y.progress
      {
        assert y in multiset(rest);
        assert y == x || y in s[1..];
      }
      PrependSmallest(s[0], rest);
    }
  }

  lemma PrependSmallest(x: Danmaku, s: seq<Danmaku>)
    requires Sorted(s) && forall y | y in s :: x.progress <= y.progress
    ensures Sorted([x] + s)
  {
    var r := [x] + s;
    forall i, j | 0 <= i < j < |r|
      ensures r[i].progress <= r[j].progress
    {
      assert r[j] == s[j - 1];
      if i > 0 {
        assert r[i] == s[i - 1];
      }
    }
  }

  lemma {:induction false} InsertPermutes(x: Danmaku, s: seq<Danmaku>)
    ensures multiset(Insert(x, s)) == multiset(s) + multiset{x}
    decreases |s|
  {
    if s != [] && x.progress >= s[0].progress {
      InsertPermutes(x, s[1..]);
      assert s == [s[0]] + s[1..];
    }
  }

  /** Inserting into a sorted list appends `x` to the records of its own progress. */
  lemma {:induction false} InsertKeepsOrder(p: nat, x: Danmaku, s: seq<Danmaku>)
    requires Sorted(s)
    ensures WithProgress(p, Insert(x, s)) == WithProgress(p, s) + (if x.progress == p then [x] else [])
    decreases |s|
  {
    if s == [] {
      assert [x][1..] == [];
    } else if x.progress < s[0].progress {
      var r := [x] + s;
      assert r[1..] == s;
      if x.progress == p {
        NoneWithProgress(p, s);
      }
    } else {
      InsertKeepsOrder(p, x, s[1..]);
      var r := [s[0]] + Insert(x, s[1..]);
      assert r[0] == s[0] && r[1..] == Insert(x, s[1..]);
    }
  }

  lemma {:induction false} NoneWithProgress(p: nat, s: seq<Danmaku>)
    requires forall i :: 0 <= i < |s| ==> s[i].progress > p
    ensures WithProgress(p, s) == []
    decreases |s|
  {
    if s != [] {
      NoneWithProgress(p, s[1..]);
    }
  }

  lemma {:induction false} WithProgressAppend(p: nat, a: seq<Danmaku>, b: seq<Danmaku>)
    ensures WithProgress(p, a + b) == WithProgress(p, a) + WithProgress(p, b)
    decreases |a|
  {
    if a != [] {
      WithProgressAppend(p, a[1..], b);
      assert (a + b)[0] == a[0] && (a + b)[1..] == a[1..] + b;
    } else {
      assert a + b == b;
    }
  }

  // ---------------------------------------------------------------------------
  // The sort

  /** The result is ordered by progress. */
  lemma {:induction false} SortSorted(s: seq<Danmaku>)
    ensures Sorted(SortByProgress(s))
    decreases |s|
  {
    if s != [] {
      SortSorted(s[..|s| - 1]);
      InsertSorted(s[|s| - 1], SortByProgress(s[..|s| - 1]));
    }
  }

  /** The result holds the same records, each as often. */
  lemma {:induction false} SortPermutes(s: seq<Danmaku>)
    ensures multiset(SortByProgress(s)) == multiset(s)
    decreases |s|
  {
    if s != [] {
      SortPermutes(s[..|s| - 1]);
      InsertPermutes(s[|s| - 1], SortByProgress(s[..|s| - 1]));
      assert s == s[..|s| - 1] + [s[|s| - 1]];
    }
  }

  /** Stability: records with the same progress stay in their original order. */
  lemma {:induction false} SortStable(p: nat, s: seq<Danmaku>)
    ensures WithProgress(p, SortByProgress(s)) == WithProgress(p, s)
    decreases |s|
  {
    if s != [] {
      var init, x := s[..|s| - 1], s[|s| - 1];
      SortStable(p, init);
      SortSorted(init);
      InsertKeepsOrder(p, x, SortByProgress(init));
      assert s == init + [x];
      WithProgressAppend(p, init, [x]);
      assert [x][1..] == [];
    }
  }

  /** An already ordered list is left as it is. */
  lemma {:induction false} SortOfSorted(s: seq<Danmaku>)
    requires Sorted(s)
    ensures SortByProgress(s) == s
    decreases |s|
  {
    if s != [] {
      var init, x := s[..|s| - 1], s[|s| - 1];
      SortOfSorted(init);
      AppendLargest(x, init);
      assert init + [x] == s;
    }
  }

  lemma {:induction false} AppendLargest(x: Danmaku, s: seq<Danmaku>)
    requires forall i :: 0 <= i < |s| ==> s[i].progress <= x.progress
    ensures Insert(x, s) == s + [x]
    decreases |s|
  {
    if s != [] {
      AppendLargest(x, s[1..]);
      assert s == [s[0]] + s[1..];
    }
  }
}
