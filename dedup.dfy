/**
  Removing duplicate danmaku by fingerprint, as `merge_danmaku_in_place` and
  the final merge of `get_complete_danmaku_js_style` in main.py do: a record is
  kept when its fingerprint is neither in the pool of fingerprints already seen
  nor that of a record kept before it, and its fingerprint then joins the pool.

  `Absorb` follows the source's loop, one record at a time from the front,
  written as a function of the records processed so far; `FirstSeen` is an
  independent definition by recursion on the first record, and the two agree.
 */
module Dedup {
  import opened Danmaku

  /** The fingerprints of a list of records. */
  function Fps(keying: Keying, xs: seq<Danmaku>): set<Fingerprint>
  {
    set x | x in xs :: UniqueId(keying, x)
  }

  /** The records the loop appends, having seen `xs` with the fingerprints in `pool` already known. */
  function Absorb(keying: Keying, pool: set<Fingerprint>, xs: seq<Danmaku>): seq<Danmaku>
    decreases |xs|
  {
    if xs == [] then []
    else
      var init, x := xs[..|xs| - 1], xs[|xs| - 1];
      Absorb(keying, pool, init) + if UniqueId(keying, x) in pool + Fps(keying, init) then [] else [x]
  }

  /** Reference definition: keep the first record of each fingerprint outside `pool`, in order. */
  function FirstSeen(keying: Keying, pool: set<Fingerprint>, xs: seq<Danmaku>): seq<Danmaku>
    decreases |xs|
  {
    if xs == [] then []
    else if UniqueId(keying, xs[0]) in pool then FirstSeen(keying, pool, xs[1..])
    else [xs[0]] + FirstSeen(keying, pool + {UniqueId(keying, xs[0])}, xs[1..])
  }

  /** No two records share a fingerprint. */
  predicate Distinct(keying: Keying, xs: seq<Danmaku>)
  {
    forall i, j :: 0 <= i < j < |xs| ==> UniqueId(keying, xs[i]) != UniqueId(keying, xs[j])
  }

  /** `a` is `b` with some records left out, the rest in their order. */
  predicate Subsequence(a: seq<Danmaku>, b: seq<Danmaku>)
    decreases |b|
  {
    if a == [] then true
    else if b == [] then false
    else if a[0] == b[0] then Subsequence(a[1..], b[1..])
    else Subsequence(a, b[1..])
  }

  // ---------------------------------------------------------------------------
  // Fingerprint sets

  lemma FpsAppend(keying: Keying, xs: seq<Danmaku>, ys: seq<Danmaku>)
    ensures Fps(keying, xs + ys) == Fps(keying, xs) + Fps(keying, ys)
  {
    forall f | f in Fps(keying, xs + ys)
      ensures f in Fps(keying, xs) + Fps(keying, ys)
    {
      var x :| x in xs + ys && UniqueId(keying, x) == f;
    }
  }

  lemma FpsCons(keying: Keying, xs: seq<Danmaku>)
    requires xs != []
    ensures Fps(keying, xs) == {UniqueId(keying, xs[0])} + Fps(keying, xs[1..])
  {
    assert xs == [xs[0]] + xs[1..];
    FpsAppend(keying, [xs[0]], xs[1..]);
  }

  lemma FpsSnoc(keying: Keying, xs: seq<Danmaku>)
    requires xs != []
    ensures Fps(keying, xs) == Fps(keying, xs[..|xs| - 1]) + {UniqueId(keying, xs[|xs| - 1])}
  {
    assert xs == xs[..|xs| - 1] + [xs[|xs| - 1]];
    FpsAppend(keying, xs[..|xs| - 1], [xs[|xs| - 1]]);
  }

  // ---------------------------------------------------------------------------
  // The loop and the reference definition agree

  /** Processing one more record at the end of the list, by the reference definition. */
  lemma FirstSeenSnoc(keying: Keying, pool: set<Fingerprint>, xs: seq<Danmaku>, x: Danmaku)
    ensures FirstSeen(keying, pool, xs + [x]) ==
      FirstSeen(keying, pool, xs) + if UniqueId(keying, x) in pool + Fps(keying, xs) then [] else [x]
  {
    FirstSeenAppend(keying, pool, xs, [x]);
    FirstSeenOne(keying, pool + Fps(keying, xs), x);
  }

  lemma FirstSeenOne(keying: Keying, pool: set<Fingerprint>, x: Danmaku)
    ensures FirstSeen(keying, pool, [x]) == if UniqueId(keying, x) in pool then [] else [x]
  {
    assert [x][1..] == [];
  }

  /** What the loop appends is exactly the reference selection. */
  lemma {:induction false} AbsorbIsFirstSeen(keying: Keying, pool: set<Fingerprint>, xs: seq<Danmaku>)
    ensures Absorb(keying, pool, xs) == FirstSeen(keying, pool, xs)
    decreases |xs|
  {
    if xs != [] {
      var init, x := xs[..|xs| - 1], xs[|xs| - 1];
      AbsorbIsFirstSeen(keying, pool, init);
      FirstSeenSnoc(keying, pool, init, x);
      assert init + [x] == xs;
    }
  }

  /** One more round of the loop: the step the source takes for record `xs[i]`. */
  lemma AbsorbStep(keying: Keying, pool: set<Fingerprint>, xs: seq<Danmaku>, i: nat)
    requires i < |xs|
    ensures Absorb(keying, pool, xs[..i + 1]) ==
      Absorb(keying, pool, xs[..i]) + if UniqueId(keying, xs[i]) in pool + Fps(keying, xs[..i]) then [] else [xs[i]]
    ensures Fps(keying, xs[..i + 1]) == Fps(keying, xs[..i]) + {UniqueId(keying, xs[i])}
  {
    assert xs[..i + 1][..i] == xs[..i];
    FpsSnoc(keying, xs[..i + 1]);
  }

  /** The source's loop keeps record `xs[i]`: its fingerprint is new, so it is appended and joins the pool. */
  lemma AbsorbKeeps(keying: Keying, pool: set<Fingerprint>, xs: seq<Danmaku>, i: nat, seen: set<Fingerprint>)
    requires i < |xs| && seen == pool + Fps(keying, xs[..i]) && UniqueId(keying, xs[i]) !in seen
    ensures Absorb(keying, pool, xs[..i + 1]) == Absorb(keying, pool, xs[..i]) + [xs[i]]
    ensures pool + Fps(keying, xs[..i + 1]) == seen + {UniqueId(keying, xs[i])}
  {
    AbsorbStep(keying, pool, xs, i);
  }

  /** The source's loop skips record `xs[i]`: its fingerprint is already in the pool. */
  lemma AbsorbSkips(keying: Keying, pool: set<Fingerprint>, xs: seq<Danmaku>, i: nat, seen: set<Fingerprint>)
    requires i < |xs| && seen == pool + Fps(keying, xs[..i]) && UniqueId(keying, xs[i]) in seen
    ensures Absorb(keying, pool, xs[..i + 1]) == Absorb(keying, pool, xs[..i])
    ensures pool + Fps(keying, xs[..i + 1]) == seen
  {
    AbsorbStep(keying, pool, xs, i);
  }

  /** Selecting from `xs` then `ys` keeps what `xs` gives, then what `ys` gives with `xs`'s fingerprints known. */
  lemma {:induction false} FirstSeenAppend(keying: Keying, pool: set<Fingerprint>, xs: seq<Danmaku>, ys: seq<Danmaku>)
    ensures FirstSeen(keying, pool, xs + ys) == FirstSeen(keying, pool, xs) + FirstSeen(keying, pool + Fps(keying, xs), ys)
    decreases |xs|
  {
    if xs == [] {
      assert xs + ys == ys;
      assert pool + Fps(keying, xs) == pool;
    } else {
      var x, rest := xs[0], xs[1..];
      var id := UniqueId(keying, x);
      assert (xs + ys)[0] == x && (xs + ys)[1..] == rest + ys;
      FpsCons(keying, xs);
      if id in pool {
        FirstSeenAppend(keying, pool, rest, ys);
        assert pool + Fps(keying, xs) == pool + Fps(keying, rest);
      } else {
        FirstSeenAppend(keying, pool + {id}, rest, ys);
        assert pool + Fps(keying, xs) == pool + {id} + Fps(keying, rest);
      }
    }
  }

  // ---------------------------------------------------------------------------
  // What the selection keeps

  /** Every kept record is new to the pool. */
  lemma {:induction false} FirstSeenFresh(keying: Keying, pool: set<Fingerprint>, xs: seq<Danmaku>)
    ensures forall i :: 0 <= i < |FirstSeen(keying, pool, xs)| ==> UniqueId(keying, FirstSeen(keying, pool, xs)[i]) !in pool
    decreases |xs|
  {
    if xs != [] {
      if UniqueId(keying, xs[0]) in pool {
        FirstSeenFresh(keying, pool, xs[1..]);
      } else {
        FirstSeenFresh(keying, pool + {UniqueId(keying, xs[0])}, xs[1..]);
      }
    }
  }

  /** No two kept records share a fingerprint. */
  lemma {:induction false} FirstSeenDistinct(keying: Keying, pool: set<Fingerprint>, xs: seq<Danmaku>)
    ensures Distinct(keying, FirstSeen(keying, pool, xs))
    decreases |xs|
  {
    if xs != [] {
      if UniqueId(keying, xs[0]) in pool {
        FirstSeenDistinct(keying, pool, xs[1..]);
      } else {
        var pool' := pool + {UniqueId(keying, xs[0])};
        FirstSeenDistinct(keying, pool', xs[1..]);
        FirstSeenFresh(keying, pool', xs[1..]);
      }
    }
  }

  /** The kept records are records of the list, in the list's order. */
  lemma {:induction false} FirstSeenSubsequence(keying: Keying, pool: set<Fingerprint>, xs: seq<Danmaku>)
    ensures Subsequence(FirstSeen(keying, pool, xs), xs)
    decreases |xs|
  {
    if xs != [] {
      if UniqueId(keying, xs[0]) in pool {
        FirstSeenSubsequence(keying, pool, xs[1..]);
        SubsequenceDrop(FirstSeen(keying, pool, xs[1..]), xs);
      } else {
        FirstSeenSubsequence(keying, pool + {UniqueId(keying, xs[0])}, xs[1..]);
      }
    }
  }

  /** A subsequence of the tail of `b` is a subsequence of `b`. */
  lemma {:induction false} SubsequenceDrop(a: seq<Danmaku>, b: seq<Danmaku>)
    requires b != [] && Subsequence(a, b[1..])
    ensures Subsequence(a, b)
    decreases |b|, 0
  {
    if a != [] && a[0] == b[0] {
      SubsequenceShrink(a, b[1..]);
    }
  }

  /** Leaving out the first record of a subsequence keeps it a subsequence. */
  lemma {:induction false} SubsequenceShrink(a: seq<Danmaku>, c: seq<Danmaku>)
    requires a != [] && Subsequence(a, c)
    ensures Subsequence(a[1..], c)
    decreases |c|, 1
  {
    if a[0] == c[0] {
      SubsequenceDrop(a[1..], c);
    } else {
      SubsequenceShrink(a, c[1..]);
      SubsequenceDrop(a[1..], c);
    }
  }

  /** After the loop, the pool holds the fingerprint of every record seen, kept or not. */
  lemma {:induction false} FirstSeenCovers(keying: Keying, pool: set<Fingerprint>, xs: seq<Danmaku>)
    ensures pool + Fps(keying, FirstSeen(keying, pool, xs)) == pool + Fps(keying, xs)
    decreases |xs|
  {
    if xs != [] {
      FpsCons(keying, xs);
      var f := UniqueId(keying, xs[0]);
      if f in pool {
        FirstSeenCovers(keying, pool, xs[1..]);
      } else {
        var r := FirstSeen(keying, pool + {f}, xs[1..]);
        FirstSeenCovers(keying, pool + {f}, xs[1..]);
        FpsCons(keying, [xs[0]] + r);
        assert ([xs[0]] + r)[1..] == r;
      }
    }
  }

  /** The first record of each fingerprint outside the pool is the one kept. */
  lemma {:induction false} FirstOccurrenceKept(keying: Keying, pool: set<Fingerprint>, xs: seq<Danmaku>, i: nat)
    requires i < |xs| && UniqueId(keying, xs[i]) !in pool
    requires forall j :: 0 <= j < i ==> UniqueId(keying, xs[j]) != UniqueId(keying, xs[i])
    ensures xs[i] in FirstSeen(keying, pool, xs)
    decreases |xs|
  {
    if i == 0 {
    } else if UniqueId(keying, xs[0]) in pool {
      FirstOccurrenceKept(keying, pool, xs[1..], i - 1);
    } else {
      FirstOccurrenceKept(keying, pool + {UniqueId(keying, xs[0])}, xs[1..], i - 1);
    }
  }

  /** Records whose fingerprints are all known are all dropped. */
  lemma {:induction false} FirstSeenKnown(keying: Keying, pool: set<Fingerprint>, xs: seq<Danmaku>)
    requires Fps(keying, xs) <= pool
    ensures FirstSeen(keying, pool, xs) == []
    decreases |xs|
  {
    if xs != [] {
      FpsCons(keying, xs);
      FirstSeenKnown(keying, pool, xs[1..]);
    }
  }

  /** Records with distinct fingerprints, none of them known, are all kept. */
  lemma {:induction false} FirstSeenKeepsNew(keying: Keying, pool: set<Fingerprint>, xs: seq<Danmaku>)
    requires Distinct(keying, xs) && Fps(keying, xs) !! pool
    ensures FirstSeen(keying, pool, xs) == xs
    decreases |xs|
  {
    if xs != [] {
      var f := UniqueId(keying, xs[0]);
      FpsCons(keying, xs);
      forall x | x in xs[1..]
        ensures UniqueId(keying, x) != f
      {
        var j :| 0 <= j < |xs[1..]| && xs[1..][j] == x;
        assert xs[j + 1] == x;
      }
      FirstSeenKeepsNew(keying, pool + {f}, xs[1..]);
      assert [xs[0]] + xs[1..] == xs;
    }
  }

  // ---------------------------------------------------------------------------
  // `merge_danmaku_in_place`: the list grows by the new records of `xs`

  /**
    A merge appends `Absorb(pool + Fps(target), xs)` and adds `Fps(target)` and
    `Fps(xs)` to the pool. Merging the same list again appends nothing.
   */
  lemma MergeIdempotent(keying: Keying, pool: set<Fingerprint>, target: seq<Danmaku>, xs: seq<Danmaku>)
    ensures
      var pool' := pool + Fps(keying, target) + Fps(keying, xs);
      var target' := target + Absorb(keying, pool + Fps(keying, target), xs);
      Absorb(keying, pool' + Fps(keying, target'), xs) == []
  {
    var pool' := pool + Fps(keying, target) + Fps(keying, xs);
    var target' := target + Absorb(keying, pool + Fps(keying, target), xs);
    AbsorbIsFirstSeen(keying, pool' + Fps(keying, target'), xs);
    FirstSeenKnown(keying, pool' + Fps(keying, target'), xs);
  }

  /** A merge into a list without duplicate fingerprints leaves it without duplicates. */
  lemma MergeKeepsDistinct(keying: Keying, pool: set<Fingerprint>, target: seq<Danmaku>, xs: seq<Danmaku>)
    requires Distinct(keying, target)
    ensures Distinct(keying, target + Absorb(keying, pool + Fps(keying, target), xs))
  {
    var known := pool + Fps(keying, target);
    var added := Absorb(keying, known, xs);
    AbsorbIsFirstSeen(keying, known, xs);
    FirstSeenDistinct(keying, known, xs);
    FirstSeenFresh(keying, known, xs);
    var r := target + added;
    forall i, j | 0 <= i < j < |r|
      ensures UniqueId(keying, r[i]) != UniqueId(keying, r[j])
    {
      if j >= |target| && i < |target| {
        assert r[i] in target;
        assert UniqueId(keying, r[i]) in known;
        assert r[j] == added[j - |target|];
      } else if i >= |target| {
        assert r[i] == added[i - |target|] && r[j] == added[j - |target|];
      }
    }
  }
}
