/**
  What the downloader of main.py fetches, as functions of what the server
  answers: the live-segment loop of `get_segmented_danmaku`, the history walk
  of `get_history_danmaku_js_style`, the estimate of
  `get_current_danmaku_info` and the final merge of
  `get_complete_danmaku_js_style`. The methods of the `Downloader` class are
  proved equal to these functions; the lemmas here state what the loops
  promise.

  The network is an oracle: `live(i)` is the reply to the request for live
  segment `i`, `history(d)` the reply to the request for the local day number
  `d`. The loops are specified over the records each reply gives once decoded
  (`Batch`), passed as oracles of their own. Times are seconds; a local time is the
  epoch time plus `utcOffset`.
 */
module Crawl {
  import opened Wrappers
  import opened Wire
  import opened Danmaku
  import opened Dedup
  import opened Decoder

  /** The reply to a request: an exception raised by the HTTP session, or a status and a body. */
  datatype Reply = Failed | Reply(status: int, body: seq<byte>)

  /** `segment_index <= 100`: the most live segments requested. */
  const MAX_SEGMENTS: nat := 100
  /** Seconds in a day. */
  const DAY: nat := 86400
  /** The estimate used when the first segment gives none, and the cap on the density threshold. */
  const DEFAULT_TOTAL: nat := 5000
  /** The assumed number of live segments the estimate multiplies by. */
  const SEGMENTS_GUESS: nat := 20

  // ---------------------------------------------------------------------------
  // merge_danmaku_in_place, as a function of the list and pool before it

  /** The list after the merge: the batch's records with unseen fingerprints appended. */
  function MergeItems(keying: Keying, pool: set<Fingerprint>, items: seq<Danmaku>, batch: seq<Danmaku>): seq<Danmaku>
  {
    items + Absorb(keying, pool + Fps(keying, items), batch)
  }

  /** The pool after the merge: it has gained the fingerprints of the list and of the batch. */
  function MergePool(keying: Keying, pool: set<Fingerprint>, items: seq<Danmaku>, batch: seq<Danmaku>): set<Fingerprint>
  {
    pool + Fps(keying, items) + Fps(keying, batch)
  }

  /** The records of a reply the loops accept: status 200 and a non-empty body, decoded. */
  function Batch(reply: Reply): seq<Danmaku>
  {
    if reply.Reply? && reply.status == 200 && reply.body != [] then ResponseOf(reply.body) else []
  }

  /*
    The decoded oracles: `records` gives the records of each reply. The link is
    stated under a quantifier triggered by the reply alone, so that the decoder
    is unfolded only where a reply is actually read.
   */

  ghost predicate DecodedSegments(replies: nat -> Reply, records: nat -> seq<Danmaku>)
  {
    forall i: nat {:trigger replies(i)} :: records(i) == Batch(replies(i))
  }

  ghost predicate DecodedDays(replies: int -> Reply, records: int -> seq<Danmaku>)
  {
    forall d: int {:trigger replies(d)} :: records(d) == Batch(replies(d))
  }

  ghost predicate DecodedReply(reply: Reply, records: seq<Danmaku>)
  {
    forall r: Reply {:trigger Batch(r)} :: r == reply ==> records == Batch(r)
  }

  // ---------------------------------------------------------------------------
  // get_current_danmaku_info

  /** The estimated total: twenty times the records of live segment 1, or 5000 when it gives none. */
  function EstimateTotal(first: seq<Danmaku>): (n: nat)
    ensures n >= SEGMENTS_GUESS && n % SEGMENTS_GUESS == 0
    ensures first != [] <==> n == SEGMENTS_GUESS * |first|
    ensures first == [] ==> n == DEFAULT_TOTAL
  {
    if first != [] then SEGMENTS_GUESS * |first| else DEFAULT_TOTAL
  }

  // ---------------------------------------------------------------------------
  // get_segmented_danmaku

  /** The list, the pool and the segment indices requested, at the end of a loop. */
  datatype Live = Live(items: seq<Danmaku>, pool: set<Fingerprint>, requests: seq<nat>)

  /** The live loop from segment `index` on, with the list and pool it has so far. */
  function LiveFrom(keying: Keying, live: nat -> seq<Danmaku>, index: nat, items: seq<Danmaku>, pool: set<Fingerprint>): Live
    decreases MAX_SEGMENTS + 1 - index
  {
    if index > MAX_SEGMENTS then Live(items, pool, [])
    else
      var batch := live(index);
      if batch == [] then Live(items, pool, [index])
      else
        var items', pool' := MergeItems(keying, pool, items, batch), MergePool(keying, pool, items, batch);
        if |items'| == |items| then Live(items', pool', [index])
        else
          var rest := LiveFrom(keying, live, index + 1, items', pool');
          Live(rest.items, rest.pool, [index] + rest.requests)
  }

  /**
    The loop requests segments `index`, `index + 1`, ... in order, at least
    one and at most up to segment 100 when `index <= 100`, none after it.
   */
  lemma {:induction false} LiveRequests(keying: Keying, live: nat -> seq<Danmaku>, index: nat, items: seq<Danmaku>, pool: set<Fingerprint>)
    ensures ConsecutiveRequests(index, LiveFrom(keying, live, index, items, pool).requests)
    decreases MAX_SEGMENTS + 1 - index
  {
    if LiveStops(keying, live, index, items, pool) {
      LiveLastRequest(keying, live, index, items, pool);
    } else {
      var batch := live(index);
      var items', pool' := MergeItems(keying, pool, items, batch), MergePool(keying, pool, items, batch);
      LiveRequests(keying, live, index + 1, items', pool');
      var rest := LiveFrom(keying, live, index + 1, items', pool');
      assert LiveFrom(keying, live, index, items, pool) == Live(rest.items, rest.pool, [index] + rest.requests);
      ConsecutiveCons(index, rest.requests);
    }
  }

  /** The loop stops at segment `index`: past segment 100, no records, or nothing new. */
  predicate LiveStops(keying: Keying, live: nat -> seq<Danmaku>, index: nat, items: seq<Danmaku>, pool: set<Fingerprint>)
  {
    index > MAX_SEGMENTS || live(index) == [] || |MergeItems(keying, pool, items, live(index))| == |items|
  }

  /** When the loop stops at `index`, that request, if made, is the last. */
  lemma LiveLastRequest(keying: Keying, live: nat -> seq<Danmaku>, index: nat, items: seq<Danmaku>, pool: set<Fingerprint>)
    requires LiveStops(keying, live, index, items, pool)
    ensures ConsecutiveRequests(index, LiveFrom(keying, live, index, items, pool).requests)
    ensures index <= MAX_SEGMENTS ==> LiveFrom(keying, live, index, items, pool).requests == [index]
    ensures index > MAX_SEGMENTS ==> LiveFrom(keying, live, index, items, pool).requests == []
  {
    if index > MAX_SEGMENTS {
      assert LiveFrom(keying, live, index, items, pool).requests == [];
    } else {
      assert LiveFrom(keying, live, index, items, pool).requests == [index];
    }
  }

  /**
    The requests made from segment `index` on are `index`, `index + 1`, ...: at
    least one and none beyond segment 100 when `index <= 100`, none after it.
   */
  predicate ConsecutiveRequests(index: nat, requests: seq<nat>)
  {
    (forall i :: 0 <= i < |requests| ==> requests[i] == index + i) &&
    (index <= MAX_SEGMENTS ==> 1 <= |requests| <= MAX_SEGMENTS + 1 - index) &&
    (index > MAX_SEGMENTS ==> requests == [])
  }

  lemma ConsecutiveCons(index: nat, rest: seq<nat>)
    requires index <= MAX_SEGMENTS && ConsecutiveRequests(index + 1, rest)
    ensures ConsecutiveRequests(index, [index] + rest)
  {
    var r := [index] + rest;
    forall i | 0 <= i < |r|
      ensures r[i] == index + i
    {
      if i > 0 {
        assert r[i] == rest[i - 1];
      }
    }
  }

  // The live loop as the source runs it: `LiveUpTo` holds between rounds; the
  // lemmas below are the three ways a round ends and the end of the segments.

  /**
    The segment the live loop requests next. `LiveUpTo` is stated for it under
    a quantifier, so that the rest of the loop is unfolded only where one of
    the lemmas below names it, never in the proof of the loop itself.
   */
  function NextSegment(index: nat): nat
  {
    index
  }

  /** The whole run `target` is what the requests so far and the rest of the loop from `index` make. */
  predicate LiveUpTo(keying: Keying, live: nat -> seq<Danmaku>, target: Live, index: nat,
                     items: seq<Danmaku>, pool: set<Fingerprint>, requests: seq<nat>)
  {
    forall i: nat {:trigger NextSegment(i)} :: i == index ==>
      var rest := LiveFrom(keying, live, i, items, pool);
      target == Live(rest.items, rest.pool, requests + rest.requests)
  }

  lemma LiveEmptyStop(keying: Keying, live: nat -> seq<Danmaku>, target: Live, index: nat,
                      items: seq<Danmaku>, pool: set<Fingerprint>, requests: seq<nat>)
    requires LiveUpTo(keying, live, target, index, items, pool, requests)
    requires index <= MAX_SEGMENTS && live(index) == []
    ensures target == Live(items, pool, requests + [index])
  {
    assert NextSegment(index) == index;
    assert LiveFrom(keying, live, index, items, pool) == Live(items, pool, [index]);
  }

  lemma LiveNothingNew(keying: Keying, live: nat -> seq<Danmaku>, target: Live, index: nat,
                       items: seq<Danmaku>, pool: set<Fingerprint>, requests: seq<nat>)
    requires LiveUpTo(keying, live, target, index, items, pool, requests)
    requires index <= MAX_SEGMENTS && live(index) != []
    requires |MergeItems(keying, pool, items, live(index))| == |items|
    ensures target == Live(MergeItems(keying, pool, items, live(index)), MergePool(keying, pool, items, live(index)),
                           requests + [index])
  {
    assert NextSegment(index) == index;
    assert LiveFrom(keying, live, index, items, pool) ==
      Live(MergeItems(keying, pool, items, live(index)), MergePool(keying, pool, items, live(index)), [index]);
  }

  lemma LiveNext(keying: Keying, live: nat -> seq<Danmaku>, target: Live, index: nat,
                 items: seq<Danmaku>, pool: set<Fingerprint>, requests: seq<nat>)
    requires LiveUpTo(keying, live, target, index, items, pool, requests)
    requires index <= MAX_SEGMENTS && live(index) != []
    requires |MergeItems(keying, pool, items, live(index))| != |items|
    ensures LiveUpTo(keying, live, target, index + 1, MergeItems(keying, pool, items, live(index)),
                     MergePool(keying, pool, items, live(index)), requests + [index])
  {
    assert NextSegment(index) == index;
    assert NextSegment(index + 1) == index + 1;
    var items', pool' := MergeItems(keying, pool, items, live(index)), MergePool(keying, pool, items, live(index));
    var rest := LiveFrom(keying, live, index + 1, items', pool');
    assert LiveFrom(keying, live, index, items, pool) == Live(rest.items, rest.pool, [index] + rest.requests);
    assert requests + ([index] + rest.requests) == (requests + [index]) + rest.requests;
  }

  lemma LiveLastSegment(keying: Keying, live: nat -> seq<Danmaku>, target: Live, index: nat,
                        items: seq<Danmaku>, pool: set<Fingerprint>, requests: seq<nat>)
    requires LiveUpTo(keying, live, target, index, items, pool, requests)
    requires index > MAX_SEGMENTS
    ensures target == Live(items, pool, requests)
  {
    assert NextSegment(index) == index;
    assert LiveFrom(keying, live, index, items, pool) == Live(items, pool, []);
    assert requests + [] == requests;
  }

  /**
    One round of the live loop: `items'` and `pool'` are the list and pool
    after segment `index` was read and merged (unchanged when it gave no
    records), and `stop` says that the segment was empty or added nothing.
    Hidden behind `NextSegment` like `LiveUpTo`.
   */
  predicate LiveStep(keying: Keying, live: nat -> seq<Danmaku>, index: nat,
                     items: seq<Danmaku>, pool: set<Fingerprint>, items': seq<Danmaku>, pool': set<Fingerprint>, stop: bool)
  {
    forall i: nat {:trigger NextSegment(i)} :: i == index ==>
      (live(i) == [] ==> items' == items && pool' == pool) &&
      (live(i) != [] ==> items' == MergeItems(keying, pool, items, live(i)) && pool' == MergePool(keying, pool, items, live(i))) &&
      (stop <==> live(i) == [] || |items'| == |items|)
  }

  /**
    One round of the live loop, whatever its outcome. When it stops the loop,
    the run is complete; otherwise the invariant holds for the next segment.
   */
  lemma LiveRound(keying: Keying, live: nat -> seq<Danmaku>, target: Live, index: nat,
                  items: seq<Danmaku>, pool: set<Fingerprint>, requests: seq<nat>,
                  items': seq<Danmaku>, pool': set<Fingerprint>, stop: bool)
    requires LiveUpTo(keying, live, target, index, items, pool, requests) && index <= MAX_SEGMENTS
    requires LiveStep(keying, live, index, items, pool, items', pool', stop)
    ensures stop ==> target == Live(items', pool', requests + [index])
    ensures !stop ==> LiveUpTo(keying, live, target, index + 1, items', pool', requests + [index])
  {
    assert NextSegment(index) == index;
    if live(index) == [] {
      LiveEmptyStop(keying, live, target, index, items, pool, requests);
    } else if |items'| == |items| {
      LiveNothingNew(keying, live, target, index, items, pool, requests);
    } else {
      LiveNext(keying, live, target, index, items, pool, requests);
    }
  }

  /** Before any round from `index` on, the invariant holds for the run from there. */
  lemma LiveStart(keying: Keying, live: nat -> seq<Danmaku>, index: nat, items: seq<Danmaku>, pool: set<Fingerprint>)
    ensures LiveUpTo(keying, live, LiveFrom(keying, live, index, items, pool), index, items, pool, [])
  {
    var rest := LiveFrom(keying, live, index, items, pool);
    assert [] + rest.requests == rest.requests;
    assert NextSegment(index) == index;
  }

  /**
    The loop only appends and the pool only grows; every request but the last
    added at least one record.
   */
  lemma {:induction false} LiveGrows(keying: Keying, live: nat -> seq<Danmaku>, index: nat, items: seq<Danmaku>, pool: set<Fingerprint>)
    ensures var r := LiveFrom(keying, live, index, items, pool);
      |items| <= |r.items| && r.items[..|items|] == items && pool <= r.pool &&
      |r.items| + 1 >= |items| + |r.requests|
    decreases MAX_SEGMENTS + 1 - index
  {
    if index > MAX_SEGMENTS {
      assert LiveFrom(keying, live, index, items, pool) == Live(items, pool, []);
    } else if live(index) == [] {
      assert LiveFrom(keying, live, index, items, pool) == Live(items, pool, [index]);
    } else {
      var batch := live(index);
      var items', pool' := MergeItems(keying, pool, items, batch), MergePool(keying, pool, items, batch);
      assert items'[..|items|] == items;
      if |items'| == |items| {
        assert LiveFrom(keying, live, index, items, pool) == Live(items', pool', [index]);
      } else {
        LiveGrows(keying, live, index + 1, items', pool');
        var rest := LiveFrom(keying, live, index + 1, items', pool');
        assert LiveFrom(keying, live, index, items, pool) == Live(rest.items, rest.pool, [index] + rest.requests);
        assert rest.items[..|items|] == rest.items[..|items'|][..|items|];
      }
    }
  }

  /**
    Started from a list without duplicate fingerprints, all of them in the
    pool, the loop ends with such a list, every record new to the initial pool.
   */
  lemma {:induction false} LiveDistinct(keying: Keying, live: nat -> seq<Danmaku>, index: nat, items: seq<Danmaku>, pool: set<Fingerprint>)
    requires Distinct(keying, items) && Fps(keying, items) <= pool
    ensures var r := LiveFrom(keying, live, index, items, pool);
      Distinct(keying, r.items) && Fps(keying, r.items) <= r.pool &&
      forall i :: |items| <= i < |r.items| ==> UniqueId(keying, r.items[i]) !in pool
    decreases MAX_SEGMENTS + 1 - index
  {
    if index > MAX_SEGMENTS {
      assert LiveFrom(keying, live, index, items, pool) == Live(items, pool, []);
    } else if live(index) == [] {
      assert LiveFrom(keying, live, index, items, pool) == Live(items, pool, [index]);
    } else {
      var batch := live(index);
      var items', pool' := MergeItems(keying, pool, items, batch), MergePool(keying, pool, items, batch);
      MergeInvariant(keying, pool, items, batch);
      if |items'| == |items| {
        assert LiveFrom(keying, live, index, items, pool) == Live(items', pool', [index]);
      } else {
        LiveDistinct(keying, live, index + 1, items', pool');
        LiveGrows(keying, live, index + 1, items', pool');
        var rest := LiveFrom(keying, live, index + 1, items', pool');
        assert LiveFrom(keying, live, index, items, pool) == Live(rest.items, rest.pool, [index] + rest.requests);
        forall i | |items| <= i < |rest.items|
          ensures UniqueId(keying, rest.items[i]) !in pool
        {
          if i < |items'| {
            assert rest.items[i] == items'[i];
          }
        }
      }
    }
  }

  /**
    One merge keeps a list without duplicate fingerprints, all in the pool, so;
    it appends only records new to the pool.
   */
  lemma MergeInvariant(keying: Keying, pool: set<Fingerprint>, items: seq<Danmaku>, batch: seq<Danmaku>)
    requires Distinct(keying, items) && Fps(keying, items) <= pool
    ensures var items' := MergeItems(keying, pool, items, batch);
      Distinct(keying, items') && Fps(keying, items') <= MergePool(keying, pool, items, batch) &&
      items'[..|items|] == items &&
      forall i :: |items| <= i < |items'| ==> UniqueId(keying, items'[i]) !in pool
  {
    var known := pool + Fps(keying, items);
    assert known == pool;
    var added := Absorb(keying, pool, batch);
    MergeKeepsDistinct(keying, pool, items, batch);
    AbsorbIsFirstSeen(keying, pool, batch);
    FirstSeenFresh(keying, pool, batch);
    FirstSeenCovers(keying, pool, batch);
    FpsAppend(keying, items, added);
    var items' := items + added;
    assert items'[..|items|] == items;
    forall i | |items| <= i < |items'|
      ensures UniqueId(keying, items'[i]) !in pool
    {
      assert items'[i] == added[i - |items|];
    }
  }

  // ---------------------------------------------------------------------------
  // get_history_danmaku_js_style

  /** `min(d.ctime for d in ldanmu)` */
  function MinCtime(batch: seq<Danmaku>): (m: nat)
    requires batch != []
    ensures forall i :: 0 <= i < |batch| ==> m <= batch[i].ctime
    ensures exists i :: 0 <= i < |batch| && m == batch[i].ctime
  {
    if |batch| == 1 then batch[0].ctime
    else
      var m := MinCtime(batch[1..]);
      assert forall i :: 1 <= i < |batch| ==> batch[i] == batch[1..][i - 1];
      if batch[0].ctime <= m then batch[0].ctime else m
  }

  /** The new `first_date` after a batch whose earliest record was sent at `minCtime`. */
  function Retarget(firstDate: int, minCtime: int): int
  {
    if firstDate != 0 && firstDate - minCtime < DAY then minCtime - DAY else minCtime
  }

  /** After a first batch, the walk moves back by at least a day whenever the batch reaches back to the boundary. */
  lemma RetargetMovesBack(firstDate: int, minCtime: int)
    requires firstDate != 0 && minCtime <= firstDate
    ensures Retarget(firstDate, minCtime) <= firstDate - DAY
    ensures Retarget(firstDate, minCtime) == minCtime || Retarget(firstDate, minCtime) == minCtime - DAY
  {
  }

  /** `min(target_count, 5000)`: twice the last batch's size must reach it for the walk to go on. */
  function Threshold(target: int): int
  {
    if target < DEFAULT_TOTAL then target else DEFAULT_TOTAL
  }

  /** The state of the walk between rounds: `aldanmu`, `ldanmu`, `first_date`, `current_date`, the pool, the days requested. */
  datatype Walk = Walk(items: seq<Danmaku>, last: seq<Danmaku>, firstDate: int, current: int,
                       pool: set<Fingerprint>, requests: seq<int>)

  /** `current_date.strftime('%Y-%m-%d')`: the local day of a local time. */
  function DayOf(local: int): int
  {
    local / DAY
  }

  /** 0001-01-01 00:00:00 and 9999-12-31 23:59:59 as local seconds: the range of `datetime`. */
  const MIN_LOCAL: int := -62135596800
  const MAX_LOCAL: int := 253402300799

  /** `datetime.fromtimestamp` returns for a local time in this range and raises outside it. */
  predicate InDatetimeRange(local: int)
  {
    MIN_LOCAL <= local <= MAX_LOCAL
  }

  /**
    One history request: the reply for the day of `current`, merged, and
    `first_date` retargeted after a batch. The walk moves to the new
    `first_date` when that is a date; otherwise `fromtimestamp` raises, and
    the handler empties the last batch and leaves the current date as it was.
   */
  function Query(keying: Keying, history: int -> seq<Danmaku>, utcOffset: int, w: Walk): Walk
  {
    var day := DayOf(w.current);
    var batch := history(day);
    var w1 := w.(requests := w.requests + [day]);
    if batch == [] then w1.(last := [])
    else
      var t := Retarget(w.firstDate, MinCtime(batch));
      var w2 := w1.(items := MergeItems(keying, w.pool, w.items, batch), pool := MergePool(keying, w.pool, w.items, batch),
                    firstDate := t);
      if InDatetimeRange(t + utcOffset) then w2.(last := batch, current := t + utcOffset)
      else w2.(last := [])
  }

  /** A request is made when `first_date == 0` or the last batch was dense enough. */
  predicate Gate(threshold: int, w: Walk)
  {
    w.firstDate == 0 || 2 * |w.last| >= threshold
  }

  /**
    The archive hypothesis under which the source's walk is proved to end:
    the earliest record of a non-empty reply for day `d` was sent no later
    than the end of local day `d`.
   */
  ghost predicate Honest(history: int -> seq<Danmaku>, utcOffset: int)
  {
    forall day: int :: history(day) != [] ==> MinCtime(history(day)) + utcOffset < (day + 1) * DAY
  }

  /** While `first_date` is set, the walk stands at its local time. */
  predicate Coherent(utcOffset: int, w: Walk)
  {
    w.firstDate != 0 ==> w.current == w.firstDate + utcOffset
  }

  /** Twice the days left before `start`, plus one while `first_date` is 0: every round lowers it. */
  function Measure(start: int, w: Walk): nat
  {
    if w.current < start then 0
    else 2 * (DayOf(w.current) - DayOf(start)) + (if w.firstDate == 0 then 1 else 0) + 1
  }

  /** The walk's state after the round that starts at `w`, when it does not stop there. */
  function Advance(w: Walk): Walk
  {
    if w.firstDate == 0 then w.(current := w.current - DAY) else w
  }

  /** The walk from state `w` to its end. */
  function HistoryFrom(keying: Keying, history: int -> seq<Danmaku>, start: int, threshold: int, utcOffset: int, w: Walk): Walk
    requires threshold > 0 && Honest(history, utcOffset) && Coherent(utcOffset, w)
    decreases Measure(start, w)
  {
    if w.current < start then w
    else
      var w1 := if Gate(threshold, w) then Query(keying, history, utcOffset, w) else w;
      if 2 * |w1.last| < threshold then w1
      else
        MeasureDecreases(keying, history, start, threshold, utcOffset, w);
        HistoryFrom(keying, history, start, threshold, utcOffset, Advance(w1))
  }

  /** The state after the request of a round, if the gate lets it through. */
  function Round(keying: Keying, history: int -> seq<Danmaku>, threshold: int, utcOffset: int, w: Walk): Walk
  {
    if Gate(threshold, w) then Query(keying, history, utcOffset, w) else w
  }

  /** A round after which the density check fails ends the walk. */
  lemma HistoryStops(keying: Keying, history: int -> seq<Danmaku>, start: int, threshold: int, utcOffset: int, w: Walk)
    requires threshold > 0 && Honest(history, utcOffset) && Coherent(utcOffset, w) && w.current >= start
    requires 2 * |Round(keying, history, threshold, utcOffset, w).last| < threshold
    ensures HistoryFrom(keying, history, start, threshold, utcOffset, w) == Round(keying, history, threshold, utcOffset, w)
  {
  }

  /** A round after which the density check passes goes on from the advanced state. */
  lemma HistoryGoesOn(keying: Keying, history: int -> seq<Danmaku>, start: int, threshold: int, utcOffset: int, w: Walk)
    requires threshold > 0 && Honest(history, utcOffset) && Coherent(utcOffset, w) && w.current >= start
    requires 2 * |Round(keying, history, threshold, utcOffset, w).last| >= threshold
    ensures Coherent(utcOffset, Advance(Round(keying, history, threshold, utcOffset, w)))
    ensures Measure(start, Advance(Round(keying, history, threshold, utcOffset, w))) < Measure(start, w)
    ensures HistoryFrom(keying, history, start, threshold, utcOffset, w) ==
      HistoryFrom(keying, history, start, threshold, utcOffset, Advance(Round(keying, history, threshold, utcOffset, w)))
  {
    MeasureDecreases(keying, history, start, threshold, utcOffset, w);
  }

  // The history loop as the source runs it: `WalkUpTo` holds between rounds.

  /**
    The state the history loop stands at. `WalkUpTo` is stated for it under a
    quantifier, so that the rest of the walk is unfolded only where one of the
    lemmas below names it.
   */
  function Standing(w: Walk): Walk
  {
    w
  }

  /** The whole walk `target` is what the rest of the walk from `w` makes. */
  ghost predicate WalkUpTo(keying: Keying, history: int -> seq<Danmaku>, start: int, threshold: int, utcOffset: int,
                           target: Walk, w: Walk)
  {
    threshold > 0 && Honest(history, utcOffset) && Coherent(utcOffset, w) &&
    forall v {:trigger Standing(v)} :: v == w ==>
      Coherent(utcOffset, v) && target == HistoryFrom(keying, history, start, threshold, utcOffset, v)
  }

  lemma WalkStart(keying: Keying, history: int -> seq<Danmaku>, start: int, threshold: int, utcOffset: int, w: Walk)
    requires threshold > 0 && Honest(history, utcOffset) && Coherent(utcOffset, w)
    ensures WalkUpTo(keying, history, start, threshold, utcOffset, HistoryFrom(keying, history, start, threshold, utcOffset, w), w)
  {
    assert Standing(w) == w;
  }

  /**
    One round of the history loop: `r` is the state after its request. The
    walk ends there when the batch is too thin; otherwise it goes on from the
    advanced state, which is closer to its end.
   */
  lemma WalkRound(keying: Keying, history: int -> seq<Danmaku>, start: int, threshold: int, utcOffset: int,
                  target: Walk, w: Walk, r: Walk)
    requires WalkUpTo(keying, history, start, threshold, utcOffset, target, w) && w.current >= start
    requires r == Round(keying, history, threshold, utcOffset, w)
    ensures 2 * |r.last| < threshold ==> target == r
    ensures 2 * |r.last| >= threshold ==>
      WalkUpTo(keying, history, start, threshold, utcOffset, target, Advance(r)) && Measure(start, Advance(r)) < Measure(start, w)
  {
    assert Standing(w) == w;
    if 2 * |r.last| < threshold {
      HistoryStops(keying, history, start, threshold, utcOffset, w);
    } else {
      HistoryGoesOn(keying, history, start, threshold, utcOffset, w);
      assert Standing(Advance(r)) == Advance(r);
    }
  }

  lemma WalkDone(keying: Keying, history: int -> seq<Danmaku>, start: int, threshold: int, utcOffset: int,
                 target: Walk, w: Walk)
    requires WalkUpTo(keying, history, start, threshold, utcOffset, target, w) && w.current < start
    ensures target == w
  {
    assert Standing(w) == w;
    HistoryDone(keying, history, start, threshold, utcOffset, w);
  }

  /** A walk that stands before `start` is over. */
  lemma HistoryDone(keying: Keying, history: int -> seq<Danmaku>, start: int, threshold: int, utcOffset: int, w: Walk)
    requires threshold > 0 && Honest(history, utcOffset) && Coherent(utcOffset, w) && w.current < start
    ensures HistoryFrom(keying, history, start, threshold, utcOffset, w) == w
  {
  }

  /** Each round that does not stop lowers the measure, and keeps the walk coherent. */
  lemma MeasureDecreases(keying: Keying, history: int -> seq<Danmaku>, start: int, threshold: int, utcOffset: int, w: Walk)
    requires threshold > 0 && Honest(history, utcOffset) && Coherent(utcOffset, w)
    requires w.current >= start
    requires var w1 := if Gate(threshold, w) then Query(keying, history, utcOffset, w) else w;
      2 * |w1.last| >= threshold
    ensures var w1 := if Gate(threshold, w) then Query(keying, history, utcOffset, w) else w;
      Coherent(utcOffset, Advance(w1)) && Measure(start, Advance(w1)) < Measure(start, w)
  {
    assert Gate(threshold, w);
    var day := DayOf(w.current);
    var batch := history(day);
    assert batch != [];
    var m := MinCtime(batch);
    assert m + utcOffset < (day + 1) * DAY;
    var t := Retarget(w.firstDate, m);
    var w2 := Advance(Query(keying, history, utcOffset, w));
    DayBelow(m + utcOffset, day);
    DayOfMonotone(start, w.current);
    if w.firstDate != 0 && w.firstDate - m < DAY {
      DayShift(t + utcOffset + DAY);
      DayShift(t + utcOffset);
    } else if w.firstDate != 0 {
      DayOfMonotone(t + utcOffset, w.current - DAY);
      DayShift(w.current);
      DayShift(t + utcOffset);
    } else {
      DayShift(t + utcOffset);
    }
    if w2.current >= start {
      DayOfMonotone(start, w2.current);
    }
  }

  lemma DayBelow(x: int, d: int)
    requires x < (d + 1) * DAY
    ensures DayOf(x) <= d
  {
  }

  lemma DayShift(x: int)
    ensures DayOf(x - DAY) == DayOf(x) - 1
  {
  }

  lemma DayOfMonotone(x: int, y: int)
    requires x <= y
    ensures DayOf(x) <= DayOf(y)
  {
  }

  // The walk as written need not end: nothing moves it back past the day it
  // has just requested. The lemmas below show it standing still; the
  // corrected walk `HistoryFixed` steps back a day where it would.

  /**
    As written, a batch for the current day whose only record was sent a day
    after `first_date` retargets the walk to `first_date` itself: the walk
    stays on that day, with the same dense batch, and asks for it again.
   */
  lemma WalkRepeatsDay(keying: Keying, history: int -> seq<Danmaku>, threshold: int, utcOffset: int, w: Walk, x: Danmaku)
    requires threshold <= 2 && w.firstDate != 0 && Coherent(utcOffset, w) && |w.last| >= 1
    requires InDatetimeRange(w.current)
    requires history(DayOf(w.current)) == [x] && x.ctime == w.firstDate + DAY
    ensures var r := Advance(Round(keying, history, threshold, utcOffset, w));
      r.firstDate == w.firstDate && r.current == w.current && r.last == [x] &&
      r.requests == w.requests + [DayOf(w.current)] && 2 * |r.last| >= threshold
  {
    assert Gate(threshold, w);
    assert MinCtime([x]) == x.ctime;
  }

  /**
    As written, with `target_count` 0 every batch is dense enough, so once
    `first_date` is set an empty day is asked for again and again.
   */
  lemma ZeroTargetRepeatsDay(keying: Keying, history: int -> seq<Danmaku>, threshold: int, utcOffset: int, w: Walk)
    requires threshold <= 0 && w.firstDate != 0 && history(DayOf(w.current)) == []
    ensures var r := Advance(Round(keying, history, threshold, utcOffset, w));
      r.firstDate == w.firstDate && r.current == w.current && r.last == [] &&
      r.requests == w.requests + [DayOf(w.current)] && 2 * |r.last| >= threshold
  {
  }

  /** The loop of the source run for `n` rounds that pass the density check, without its stopping test. */
  function Rounds(keying: Keying, history: int -> seq<Danmaku>, threshold: int, utcOffset: int, w: Walk, n: nat): Walk
    decreases n
  {
    if n == 0 then w
    else Rounds(keying, history, threshold, utcOffset, Advance(Round(keying, history, threshold, utcOffset, w)), n - 1)
  }

  /**
    In either case the walk as written never ends: after any number of rounds
    it still stands at the same date, has asked for the same day once per
    round, and its next batch passes the density check again.
   */
  lemma {:induction false} WalkNeverEnds(keying: Keying, history: int -> seq<Danmaku>, threshold: int, utcOffset: int,
                                         w: Walk, x: Danmaku, n: nat)
    requires w.firstDate != 0 && Coherent(utcOffset, w) && InDatetimeRange(w.current)
    requires (threshold <= 2 && |w.last| >= 1 && history(DayOf(w.current)) == [x] && x.ctime == w.firstDate + DAY) ||
             (threshold <= 0 && history(DayOf(w.current)) == [])
    ensures var r := Rounds(keying, history, threshold, utcOffset, w, n);
      r.firstDate == w.firstDate && r.current == w.current &&
      |r.requests| == |w.requests| + n && 2 * |Round(keying, history, threshold, utcOffset, r).last| >= threshold
    decreases n
  {
    var next := Advance(Round(keying, history, threshold, utcOffset, w));
    if threshold <= 2 && |w.last| >= 1 && history(DayOf(w.current)) == [x] && x.ctime == w.firstDate + DAY {
      WalkRepeatsDay(keying, history, threshold, utcOffset, w, x);
    } else {
      ZeroTargetRepeatsDay(keying, history, threshold, utcOffset, w);
    }
    if n > 0 {
      WalkNeverEnds(keying, history, threshold, utcOffset, next, x, n - 1);
    }
  }

  /**
    The step of the corrected walk after a dense batch: the source's next
    state when that lies closer to the end, or else that state moved back one
    day from the day just requested. Only the current date can differ.
   */
  function BackOff(start: int, w: Walk, next: Walk): (r: Walk)
    requires w.current >= start
    ensures Measure(start, r) < Measure(start, w)
    ensures Measure(start, next) < Measure(start, w) ==> r == next
    ensures r == next.(current := r.current)
  {
    if Measure(start, next) < Measure(start, w) then next
    else
      DayShift(w.current);
      assert w.current - DAY >= start ==> DayOf(start) <= DayOf(w.current - DAY) by {
        if w.current - DAY >= start {
          DayOfMonotone(start, w.current - DAY);
        }
      }
      next.(current := w.current - DAY)
  }

  /**
    The history walk as evidently intended: the source's rounds, except that
    every dense round moves the walk back at least one day, so the walk ends
    for every archive and every `target_count`.
   */
  function HistoryFixed(keying: Keying, history: int -> seq<Danmaku>, start: int, threshold: int, utcOffset: int, w: Walk): Walk
    decreases Measure(start, w)
  {
    if w.current < start then w
    else
      var w1 := Round(keying, history, threshold, utcOffset, w);
      if 2 * |w1.last| < threshold then w1
      else HistoryFixed(keying, history, start, threshold, utcOffset, BackOff(start, w, Advance(w1)))
  }

  /** With a positive target and an `Honest` archive, the corrected walk is the source's walk. */
  lemma {:induction false} FixedAgrees(keying: Keying, history: int -> seq<Danmaku>, start: int, threshold: int, utcOffset: int, w: Walk)
    requires threshold > 0 && Honest(history, utcOffset) && Coherent(utcOffset, w)
    ensures HistoryFixed(keying, history, start, threshold, utcOffset, w) == HistoryFrom(keying, history, start, threshold, utcOffset, w)
    decreases Measure(start, w)
  {
    if w.current >= start {
      var w1 := Round(keying, history, threshold, utcOffset, w);
      if 2 * |w1.last| >= threshold {
        HistoryGoesOn(keying, history, start, threshold, utcOffset, w);
        assert BackOff(start, w, Advance(w1)) == Advance(w1);
        FixedAgrees(keying, history, start, threshold, utcOffset, Advance(w1));
      }
    }
  }

  /**
    A request is skipped only after a sparse batch, and then the density check
    ends the walk in that same round.
   */
  lemma SkipOnlyWhenStopping(threshold: int, w: Walk)
    requires !Gate(threshold, w)
    ensures 2 * |w.last| < threshold
  {
  }

  /**
    Outside `Honest` the source's walk can end differently from the corrected
    one: with only day 10 holding a record, sent on day 11, the source asks
    for days 10 and 11 and stops, while the corrected walk asks for 10 and 9.
   */
  lemma FixedDiffers(keying: Keying, x: Danmaku, pool: set<Fingerprint>)
    requires x.ctime == 11 * DAY + 5
    ensures var history := (d: int) => if d == 10 then [x] else [];
      var w := Walk([], [], 0, 10 * DAY, pool, []);
      var source := Round(keying, history, 1, 0, Advance(Round(keying, history, 1, 0, w)));
      source.requests == [10, 11] && 2 * |source.last| < 1 &&
      HistoryFixed(keying, history, 9 * DAY, 1, 0, w).requests == [10, 9]
  {
    var history := (d: int) => if d == 10 then [x] else [];
    var w := Walk([], [], 0, 10 * DAY, pool, []);
    assert MinCtime([x]) == x.ctime;
    var w1 := Round(keying, history, 1, 0, w);
    assert w1.current == 11 * DAY + 5 && w1.requests == [10];
    var w2 := BackOff(9 * DAY, w, Advance(w1));
    assert w2.current == 9 * DAY;
  }

  /**
    A batch whose retargeted `first_date` is not a date: its records are
    merged and `first_date` set, but the handler empties the batch and the
    current date stays, so with a positive threshold the walk ends there.
   */
  lemma UndatableStops(keying: Keying, history: int -> seq<Danmaku>, start: int, threshold: int, utcOffset: int, w: Walk)
    requires threshold > 0 && w.current >= start && Gate(threshold, w)
    requires var batch := history(DayOf(w.current));
      batch != [] && !InDatetimeRange(Retarget(w.firstDate, MinCtime(batch)) + utcOffset)
    ensures var batch := history(DayOf(w.current));
      var r := HistoryFixed(keying, history, start, threshold, utcOffset, w);
      r.current == w.current && r.last == [] && r.firstDate == Retarget(w.firstDate, MinCtime(batch)) &&
      r.items == MergeItems(keying, w.pool, w.items, batch) && r.pool == MergePool(keying, w.pool, w.items, batch) &&
      r.requests == w.requests + [DayOf(w.current)]
  {
    var w1 := Round(keying, history, threshold, utcOffset, w);
    assert w1 == Query(keying, history, utcOffset, w);
    assert w1.last == [];
    assert HistoryFixed(keying, history, start, threshold, utcOffset, w) == w1;
  }

  /**
    The walk with no publication date, or else from yesterday back to
    `start_days` after publication, as the corrected walk `HistoryFixed`
    runs it. With a positive target and an `Honest` archive the two are the
    same walk (`FixedAgrees`).
   */
  function History(keying: Keying, history: int -> seq<Danmaku>, pool: set<Fingerprint>, videoDate: Option<int>,
                   startDays: int, target: int, now: int, utcOffset: int): Walk
  {
    if videoDate.None? then Walk([], [], 0, 0, pool, [])
    else
      HistoryFixed(keying, history, videoDate.value + startDays * DAY, Threshold(target), utcOffset,
                   Walk([], [], 0, now - DAY, pool, []))
  }

  /** With a positive target and an `Honest` archive, `History` is the source's walk from yesterday. */
  lemma HistoryAgrees(keying: Keying, history: int -> seq<Danmaku>, pool: set<Fingerprint>, videoDate: Option<int>,
                      startDays: int, target: int, now: int, utcOffset: int)
    requires videoDate.Some? && target > 0 && Honest(history, utcOffset)
    ensures History(keying, history, pool, videoDate, startDays, target, now, utcOffset) ==
      HistoryFrom(keying, history, videoDate.value + startDays * DAY, Threshold(target), utcOffset, Walk([], [], 0, now - DAY, pool, []))
  {
    FixedAgrees(keying, history, videoDate.value + startDays * DAY, Threshold(target), utcOffset, Walk([], [], 0, now - DAY, pool, []));
  }

  /** No fingerprint occurs twice in `items`, and none of them is in `pool`. */
  predicate FreshIn(keying: Keying, items: seq<Danmaku>, pool: set<Fingerprint>)
  {
    Distinct(keying, items) && forall i :: 0 <= i < |items| ==> UniqueId(keying, items[i]) !in pool
  }

  /** The records the walk returns have no fingerprint twice and none in the pool it was given. */
  lemma HistoryFresh(keying: Keying, history: int -> seq<Danmaku>, pool: set<Fingerprint>, videoDate: Option<int>,
                     startDays: int, target: int, now: int, utcOffset: int)
    ensures FreshIn(keying, History(keying, history, pool, videoDate, startDays, target, now, utcOffset).items, pool)
  {
    if videoDate.Some? {
      var start, threshold := videoDate.value + startDays * DAY, Threshold(target);
      var w0 := Walk([], [], 0, now - DAY, pool, []);
      WalkFresh(keying, history, start, threshold, utcOffset, w0);
      assert History(keying, history, pool, videoDate, startDays, target, now, utcOffset) ==
        HistoryFixed(keying, history, start, threshold, utcOffset, w0);
    }
  }

  /** A walk started with an empty list gives records with no fingerprint twice and none in its first pool. */
  lemma WalkFresh(keying: Keying, history: int -> seq<Danmaku>, start: int, threshold: int, utcOffset: int, w: Walk)
    requires w.items == []
    ensures FreshIn(keying, HistoryFixed(keying, history, start, threshold, utcOffset, w).items, w.pool)
  {
    HistoryDistinct(keying, history, start, threshold, utcOffset, w);
  }

  /** Without a publication date nothing is requested and nothing is returned. */
  lemma NoDateNoRequests(keying: Keying, history: int -> seq<Danmaku>, pool: set<Fingerprint>, startDays: int, target: int, now: int, utcOffset: int)
    ensures var r := History(keying, history, pool, None, startDays, target, now, utcOffset);
      r.items == [] && r.requests == [] && r.pool == pool
  {
  }

  /**
    The walk makes at most as many requests as its measure allows: at most
    two per day between its start and `start_date`, and one more.
   */
  lemma {:induction false} HistoryRequests(keying: Keying, history: int -> seq<Danmaku>, start: int, threshold: int, utcOffset: int, w: Walk)
    ensures var r := HistoryFixed(keying, history, start, threshold, utcOffset, w);
      |w.requests| <= |r.requests| <= |w.requests| + Measure(start, w) && r.requests[..|w.requests|] == w.requests
    decreases Measure(start, w)
  {
    if w.current >= start {
      var w1 := Round(keying, history, threshold, utcOffset, w);
      if 2 * |w1.last| >= threshold {
        var w2 := BackOff(start, w, Advance(w1));
        HistoryRequests(keying, history, start, threshold, utcOffset, w2);
        var r := HistoryFixed(keying, history, start, threshold, utcOffset, w2);
        assert Gate(threshold, w);
        assert r.requests[..|w.requests|] == r.requests[..|w1.requests|][..|w.requests|];
      }
    }
  }

  /**
    The walk keeps its list free of duplicate fingerprints, all in the pool,
    and appends only records new to the pool it started with: with the pool
    shared with the live phase, nothing seen live is fetched again.
   */
  lemma {:induction false} HistoryDistinct(keying: Keying, history: int -> seq<Danmaku>, start: int, threshold: int, utcOffset: int, w: Walk)
    requires Distinct(keying, w.items) && Fps(keying, w.items) <= w.pool
    ensures var r := HistoryFixed(keying, history, start, threshold, utcOffset, w);
      Distinct(keying, r.items) && Fps(keying, r.items) <= r.pool && w.pool <= r.pool &&
      |w.items| <= |r.items| && r.items[..|w.items|] == w.items &&
      forall i :: |w.items| <= i < |r.items| ==> UniqueId(keying, r.items[i]) !in w.pool
    decreases Measure(start, w)
  {
    if w.current >= start {
      var w1 := Round(keying, history, threshold, utcOffset, w);
      RoundInvariant(keying, history, threshold, utcOffset, w);
      if 2 * |w1.last| >= threshold {
        var w2 := BackOff(start, w, Advance(w1));
        assert w2.items == w1.items && w2.pool == w1.pool;
        HistoryDistinct(keying, history, start, threshold, utcOffset, w2);
        var r := HistoryFixed(keying, history, start, threshold, utcOffset, w2);
        assert r.items[..|w.items|] == r.items[..|w1.items|][..|w.items|];
        forall i | |w.items| <= i < |r.items|
          ensures UniqueId(keying, r.items[i]) !in w.pool
        {
          if i < |w1.items| {
            assert r.items[i] == w1.items[i];
          }
        }
      }
    }
  }

  /** One round of the walk keeps the list free of duplicates and in the pool, and appends only records new to it. */
  lemma RoundInvariant(keying: Keying, history: int -> seq<Danmaku>, threshold: int, utcOffset: int, w: Walk)
    requires Distinct(keying, w.items) && Fps(keying, w.items) <= w.pool
    ensures var w1 := Round(keying, history, threshold, utcOffset, w);
      Distinct(keying, w1.items) && Fps(keying, w1.items) <= w1.pool && w.pool <= w1.pool &&
      |w.items| <= |w1.items| && w1.items[..|w.items|] == w.items &&
      forall i :: |w.items| <= i < |w1.items| ==> UniqueId(keying, w1.items[i]) !in w.pool
  {
    var batch := history(DayOf(w.current));
    if Gate(threshold, w) && batch != [] {
      MergeInvariant(keying, w.pool, w.items, batch);
    } else {
      assert w.items[..|w.items|] == w.items;
    }
  }

  // ---------------------------------------------------------------------------
  // The final merge of get_complete_danmaku_js_style

  /** The lists the final merge goes through: the live list and the history list, each only if not empty. */
  function Lists(liveItems: seq<Danmaku>, historyItems: seq<Danmaku>): seq<seq<Danmaku>>
  {
    (if liveItems != [] then [liveItems] else []) + (if historyItems != [] then [historyItems] else [])
  }

  function Flatten(lists: seq<seq<Danmaku>>): seq<Danmaku>
  {
    if lists == [] then [] else lists[0] + Flatten(lists[1..])
  }

  lemma {:induction false} FlattenSnoc(lists: seq<seq<Danmaku>>, i: nat)
    requires i < |lists|
    ensures Flatten(lists[..i + 1]) == Flatten(lists[..i]) + lists[i]
    decreases i
  {
    if i == 0 {
      assert lists[..1] == [lists[0]] && lists[..1][1..] == [];
      assert lists[0] + [] == lists[0];
    } else {
      FlattenSnoc(lists[1..], i - 1);
      assert lists[..i + 1][1..] == lists[1..][..i];
      assert lists[..i][1..] == lists[1..][..i - 1];
      assert lists[1..][i - 1] == lists[i];
    }
  }

  /** The merged list: the first record of each fingerprint across the lists, earlier lists first. */
  function FinalMerge(keying: Keying, lists: seq<seq<Danmaku>>): seq<Danmaku>
  {
    FirstSeen(keying, {}, Flatten(lists))
  }

  /** The lists the final merge goes through hold the live records, then the history records. */
  lemma ListsFlatten(liveItems: seq<Danmaku>, historyItems: seq<Danmaku>)
    ensures Flatten(Lists(liveItems, historyItems)) == liveItems + historyItems
  {
    var lists := Lists(liveItems, historyItems);
    if liveItems != [] && historyItems != [] {
      assert lists == [liveItems, historyItems];
      assert lists[1..] == [historyItems];
      assert lists[1..][1..] == [];
      assert Flatten(lists[1..]) == historyItems + [];
    } else if liveItems != [] {
      assert lists == [liveItems];
      assert liveItems + [] == liveItems;
    } else if historyItems != [] {
      assert lists == [historyItems];
      assert historyItems + [] == historyItems;
    }
  }

  /**
    `get_complete_danmaku_js_style`, on the records each request gives: the
    estimate from `first`, the live loop from segment 1, the history walk with
    the estimate as its target when there is a publication date (the estimate
    is never 0), all sharing the downloader's pool, then the final merge with a
    fresh pool.
   */
  function Complete(keying: Keying, first: seq<Danmaku>, live: nat -> seq<Danmaku>, history: int -> seq<Danmaku>,
                    pool: set<Fingerprint>, videoDate: Option<int>, startDays: int, now: int, utcOffset: int): seq<Danmaku>
  {
    var liveRun := LiveFrom(keying, live, 1, [], pool);
    var walk := History(keying, history, liveRun.pool, videoDate, startDays, EstimateTotal(first), now, utcOffset);
    FinalMerge(keying, Lists(liveRun.items, walk.items))
  }

  /**
    A run's final merge drops nothing: the live list and the history list
    share the downloader's pool, so they already have no fingerprint in common
    and none twice, and the merged list is the live list followed by the
    history list, whose records are all new to the pool the live loop left.
   */
  lemma FinalMergeKeepsAll(keying: Keying, first: seq<Danmaku>, live: nat -> seq<Danmaku>, history: int -> seq<Danmaku>,
                           pool: set<Fingerprint>, videoDate: Option<int>, startDays: int, now: int, utcOffset: int)
    ensures var liveRun := LiveFrom(keying, live, 1, [], pool);
      var walk := History(keying, history, liveRun.pool, videoDate, startDays, EstimateTotal(first), now, utcOffset);
      Complete(keying, first, live, history, pool, videoDate, startDays, now, utcOffset) == liveRun.items + walk.items &&
      forall i :: |liveRun.items| <= i < |liveRun.items| + |walk.items| ==>
        UniqueId(keying, (liveRun.items + walk.items)[i]) !in liveRun.pool
  {
    var liveRun := LiveFrom(keying, live, 1, [], pool);
    LiveDistinct(keying, live, 1, [], pool);
    var walk := History(keying, history, liveRun.pool, videoDate, startDays, EstimateTotal(first), now, utcOffset);
    HistoryFresh(keying, history, liveRun.pool, videoDate, startDays, EstimateTotal(first), now, utcOffset);
    ListsFlatten(liveRun.items, walk.items);
    DisjointConcat(keying, liveRun.pool, liveRun.items, walk.items);
    FirstSeenKeepsNew(keying, {}, liveRun.items + walk.items);
  }

  /** Two lists without duplicates, the first one's fingerprints in `pool` and none of the second's, joined. */
  lemma DisjointConcat(keying: Keying, pool: set<Fingerprint>, a: seq<Danmaku>, b: seq<Danmaku>)
    requires Distinct(keying, a) && Fps(keying, a) <= pool
    requires Distinct(keying, b) && forall i :: 0 <= i < |b| ==> UniqueId(keying, b[i]) !in pool
    ensures Distinct(keying, a + b)
    ensures forall i :: |a| <= i < |a + b| ==> UniqueId(keying, (a + b)[i]) !in pool
  {
    var all := a + b;
    forall i | |a| <= i < |all|
      ensures UniqueId(keying, all[i]) !in pool
    {
      assert all[i] == b[i - |a|];
    }
    forall i, j | 0 <= i < j < |all|
      ensures UniqueId(keying, all[i]) != UniqueId(keying, all[j])
    {
      if i < |a| && j >= |a| {
        assert all[i] == a[i];
        assert UniqueId(keying, all[i]) in Fps(keying, a);
      } else if i >= |a| {
        assert all[i] == b[i - |a|] && all[j] == b[j - |a|];
      } else {
        assert all[i] == a[i] && all[j] == a[j];
      }
    }
  }
}
