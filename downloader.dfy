/**
  `BilibiliDanmakuDownloader` of main.py: the pool of fingerprints it keeps
  across calls, the in-place merge, the live-segment loop, the history walk,
  the complete download and the sort before saving.

  Each method is proved equal to the function of module `Crawl` (or `Dedup`)
  that specifies it; what those functions promise is proved there. Requests go
  to oracles: `live(i)` answers segment `i`, `history(d)` the local day `d`,
  `first` the estimate's request. Waiting, printing and the XML text are not
  modelled.
 */
module Downloader {
  import opened Wrappers
  import opened Wire
  import opened Danmaku
  import opened Dedup
  import opened Decoder
  import opened Crawl
  import opened Ordering

  /** A Python list of records that the downloader appends to in place. */
  class DanmakuList {
    var items: seq<Danmaku>

    constructor (items: seq<Danmaku>)
      ensures this.items == items
    {
      this.items := items;
    }
  }

  class Downloader {
    /** Text length and hash the fingerprints use (see `Danmaku.Keying`). */
    const keying: Keying
    /** `self.id_pool`: every fingerprint merged so far, shared by all merges. */
    var idPool: set<Fingerprint>

    constructor (keying: Keying)
      ensures this.keying == keying && idPool == {}
    {
      this.keying := keying;
      idPool := {};
    }

    /**
      `merge_danmaku_in_place`: the target's own fingerprints join the pool
      (a plain list never carries an `id_pool` attribute), then each new record
      whose fingerprint is not in the pool is appended and its fingerprint added.
     */
    method MergeInPlace(target: DanmakuList, newList: seq<Danmaku>)
      modifies this, target
      ensures target.items == MergeItems(keying, old(idPool), old(target.items), newList)
      ensures idPool == MergePool(keying, old(idPool), old(target.items), newList)
    {
      var items := target.items;
      var i := 0;
      while i < |items|
        invariant 0 <= i <= |items| && target.items == items
        invariant idPool == old(idPool) + Fps(keying, items[..i])
      {
        AbsorbStep(keying, {}, items, i);
        idPool := idPool + {UniqueId(keying, items[i])};
        i := i + 1;
      }
      assert items[..i] == items;
      // The loop over `new_list` is the one the final merge runs on each list.
      target.items, idPool := MergeList(target.items, idPool, newList);
    }

    /**
      `get_current_danmaku_info`: twenty times the records of live segment 1,
      or 5000 when the request fails or gives none; the list of current records
      is always empty.
     */
    method GetCurrentDanmakuInfo(first: Reply, ghost records: seq<Danmaku>) returns (estimate: nat, current: seq<Danmaku>)
      requires DecodedReply(first, records)
      ensures estimate == EstimateTotal(records) && current == []
    {
      assert records == Batch(first);
      current := [];
      if first.Reply? && first.status == 200 && |first.body| > 0 {
        var firstSegment := DecodeResponse(first.body);
        if firstSegment != [] {
          estimate := |firstSegment| * SEGMENTS_GUESS;
          return;
        }
      }
      estimate := DEFAULT_TOTAL;
    }

    /** The records of a reply as the loops read them: none for a failed request, a status other than 200 or an empty body. */
    method ReadReply(reply: Reply) returns (batch: seq<Danmaku>)
      ensures batch == Batch(reply)
    {
      batch := [];
      if reply.Failed? || reply.status != 200 || |reply.body| == 0 {
        return;
      }
      batch := DecodeResponse(reply.body);
    }

    method ReadSegment(live: nat -> Reply, ghost segments: nat -> seq<Danmaku>, index: nat) returns (batch: seq<Danmaku>)
      requires DecodedSegments(live, segments)
      ensures batch == segments(index)
    {
      batch := ReadReply(live(index));
    }

    method ReadDay(history: int -> Reply, ghost days: int -> seq<Danmaku>, day: int) returns (batch: seq<Danmaku>)
      requires DecodedDays(history, days)
      ensures batch == days(day)
    {
      batch := ReadReply(history(day));
    }

    /**
      One round of `get_segmented_danmaku`: the request for segment `index`,
      merged into `result`; it tells the loop to stop when the segment gives
      no records or none of them is new.
     */
    method SegmentRound(result: DanmakuList, live: nat -> Reply, ghost segments: nat -> seq<Danmaku>, index: nat)
      returns (stop: bool)
      requires DecodedSegments(live, segments)
      modifies this, result
      ensures LiveStep(keying, segments, index, old(result.items), old(idPool), result.items, idPool, stop)
    {
      assert NextSegment(index) == index;
      var segment := ReadSegment(live, segments, index);
      if segment == [] {
        return true;
      }
      var oldCount := |result.items|;
      MergeInPlace(result, segment);
      var newCount := |result.items| - oldCount;
      stop := newCount == 0;
    }

    /**
      `get_segmented_danmaku`: segments 1 to 100 in order, merged into a new
      list, until a request fails, gives no records or adds none.
     */
    method GetSegmentedDanmaku(live: nat -> Reply, ghost segments: nat -> seq<Danmaku>)
      returns (result: DanmakuList, ghost requests: seq<nat>)
      requires DecodedSegments(live, segments)
      modifies this
      ensures fresh(result)
      ensures var r := LiveFrom(keying, segments, 1, [], old(idPool));
        result.items == r.items && idPool == r.pool && requests == r.requests
    {
      LiveStart(keying, segments, 1, [], idPool);
      result, requests := SegmentLoop(live, segments, LiveFrom(keying, segments, 1, [], idPool));
    }

    /** The loop of `get_segmented_danmaku`, run towards the whole run `target`. */
    method SegmentLoop(live: nat -> Reply, ghost segments: nat -> seq<Danmaku>, ghost target: Live)
      returns (result: DanmakuList, ghost requests: seq<nat>)
      requires DecodedSegments(live, segments)
      requires LiveUpTo(keying, segments, target, 1, [], idPool, [])
      modifies this
      ensures fresh(result)
      ensures target == Live(result.items, idPool, requests)
    {
      result := new DanmakuList([]);
      requests := [];
      var index: nat := 1;
      while index <= MAX_SEGMENTS
        invariant 1 <= index <= MAX_SEGMENTS + 1 && fresh(result)
        invariant LiveUpTo(keying, segments, target, index, result.items, idPool, requests)
        decreases MAX_SEGMENTS + 1 - index
      {
        ghost var items, pool, before := result.items, idPool, requests;
        requests := requests + [index];
        var stop := SegmentRound(result, live, segments, index);
        LiveRound(keying, segments, target, index, items, pool, before, result.items, idPool, stop);
        if stop {
          break;
        }
        index := index + 1;
      }
      if index > MAX_SEGMENTS {
        LiveLastSegment(keying, segments, target, index, result.items, idPool, requests);
      }
    }

    /**
      The request of one round of `get_history_danmaku_js_style`, when the
      gate lets it through (`first_date` still 0, or the last batch dense
      enough): the day of `current` is requested, its batch merged, and the
      walk jumps to the earliest record's time, a day further back when that
      is less than a day before the previous `first_date`. When that time is
      not a date, `fromtimestamp` raises: the batch stays merged and
      `first_date` set, but the handler empties the batch and the current
      date stays.
     */
    method HistoryRequest(result: DanmakuList, history: int -> Reply, ghost days: int -> seq<Danmaku>,
                          threshold: int, utcOffset: int,
                          last: seq<Danmaku>, firstDate: int, current: int, ghost requests: seq<int>)
      returns (last': seq<Danmaku>, firstDate': int, current': int, ghost requests': seq<int>)
      requires DecodedDays(history, days)
      modifies this, result
      ensures Walk(result.items, last', firstDate', current', idPool, requests') ==
        Round(keying, days, threshold, utcOffset, Walk(old(result.items), last, firstDate, current, old(idPool), requests))
    {
      ghost var w := Walk(result.items, last, firstDate, current, idPool, requests);
      last', firstDate', current', requests' := last, firstDate, current, requests;
      if firstDate == 0 || 2 * |last| >= threshold {
        var day := DayOf(current);
        requests' := requests + [day];
        last' := ReadDay(history, days, day);
        if last' != [] {
          MergeInPlace(result, last');
          var minCtime := MinCtime(last');
          if firstDate != 0 && firstDate - minCtime < DAY {
            firstDate' := minCtime - DAY;
          } else {
            firstDate' := minCtime;
          }
          if InDatetimeRange(firstDate' + utcOffset) {
            current' := firstDate' + utcOffset;
          } else {
            last' := [];
          }
        }
        assert Walk(result.items, last', firstDate', current', idPool, requests') == Query(keying, days, utcOffset, w);
      }
    }

    /**
      `get_history_danmaku_js_style`: nothing without a publication date;
      otherwise from yesterday back to `start_days` days after publication,
      a day at a time until a batch gives the earliest record's time to jump
      to, while each batch holds at least half of `min(target_count, 5000)`.
     */
    method GetHistoryDanmaku(history: int -> Reply, ghost days: int -> seq<Danmaku>, videoDate: Option<int>,
                             startDays: int, targetCount: int, now: int, utcOffset: int)
      returns (result: DanmakuList, ghost requests: seq<int>)
      requires DecodedDays(history, days)
      requires videoDate.Some? ==> targetCount > 0 && Honest(days, utcOffset)
      modifies this
      ensures fresh(result)
      ensures var w := History(keying, days, old(idPool), videoDate, startDays, targetCount, now, utcOffset);
        result.items == w.items && idPool == w.pool && requests == w.requests
    {
      if videoDate.None? {
        result := new DanmakuList([]);
        requests := [];
        return;
      }
      var threshold := Threshold(targetCount);
      var start := videoDate.value + startDays * DAY;
      ghost var w0 := Walk([], [], 0, now - DAY, idPool, []);
      HistoryAgrees(keying, days, idPool, videoDate, startDays, targetCount, now, utcOffset);
      WalkStart(keying, days, start, threshold, utcOffset, w0);
      result, requests := DayLoop(history, days, start, threshold, now, utcOffset,
                                  HistoryFrom(keying, days, start, threshold, utcOffset, w0));
    }

    /** The loop of `get_history_danmaku_js_style`, run towards the whole walk `target`. */
    method DayLoop(history: int -> Reply, ghost days: int -> seq<Danmaku>, start: int, threshold: int,
                   now: int, utcOffset: int, ghost target: Walk)
      returns (result: DanmakuList, ghost requests: seq<int>)
      requires DecodedDays(history, days)
      requires WalkUpTo(keying, days, start, threshold, utcOffset, target, Walk([], [], 0, now - DAY, idPool, []))
      modifies this
      ensures fresh(result)
      ensures result.items == target.items && idPool == target.pool && requests == target.requests
    {
      result := new DanmakuList([]);
      requests := [];
      var last: seq<Danmaku> := [];
      var firstDate := 0;
      var current := now - DAY;
      while current >= start
        invariant fresh(result)
        invariant WalkUpTo(keying, days, start, threshold, utcOffset, target,
                           Walk(result.items, last, firstDate, current, idPool, requests))
        decreases Measure(start, Walk(result.items, last, firstDate, current, idPool, requests))
      {
        ghost var w := Walk(result.items, last, firstDate, current, idPool, requests);
        last, firstDate, current, requests :=
          HistoryRequest(result, history, days, threshold, utcOffset, last, firstDate, current, requests);
        ghost var r := Walk(result.items, last, firstDate, current, idPool, requests);
        WalkRound(keying, days, start, threshold, utcOffset, target, w, r);
        if 2 * |last| < threshold {
          return;
        }
        if firstDate == 0 {
          current := current - DAY;
        }
        assert Walk(result.items, last, firstDate, current, idPool, requests) == Advance(r);
      }
      WalkDone(keying, days, start, threshold, utcOffset, target, Walk(result.items, last, firstDate, current, idPool, requests));
    }

    /**
      The final merge of `get_complete_danmaku_js_style`: the lists in order,
      each record kept when its fingerprint is new to a pool of its own.
     */
    method MergeLists(lists: seq<seq<Danmaku>>) returns (merged: seq<Danmaku>)
      ensures merged == FinalMerge(keying, lists)
    {
      merged := [];
      var seen: set<Fingerprint> := {};
      var i := 0;
      while i < |lists|
        invariant 0 <= i <= |lists|
        invariant merged == FirstSeen(keying, {}, Flatten(lists[..i]))
        invariant seen == {} + Fps(keying, Flatten(lists[..i]))
      {
        ghost var done, known := Flatten(lists[..i]), seen;
        merged, seen := MergeList(merged, seen, lists[i]);
        AbsorbIsFirstSeen(keying, known, lists[i]);
        FirstSeenAppend(keying, {}, done, lists[i]);
        FpsAppend(keying, done, lists[i]);
        FlattenSnoc(lists, i);
        i := i + 1;
      }
      assert lists[..i] == lists;
    }

    /** The inner loop of the final merge: the records of `list` whose fingerprints are not in `seen`, appended. */
    method MergeList(merged: seq<Danmaku>, seen: set<Fingerprint>, list: seq<Danmaku>)
      returns (merged': seq<Danmaku>, seen': set<Fingerprint>)
      ensures merged' == merged + Absorb(keying, seen, list) && seen' == seen + Fps(keying, list)
    {
      merged', seen' := merged, seen;
      var j := 0;
      assert list[..j] == [];
      while j < |list|
        invariant 0 <= j <= |list|
        invariant merged' == merged + Absorb(keying, seen, list[..j])
        invariant seen' == seen + Fps(keying, list[..j])
      {
        var d := list[j];
        if UniqueId(keying, d) !in seen' {
          AbsorbKeeps(keying, seen, list, j, seen');
          seen' := seen' + {UniqueId(keying, d)};
          merged' := merged' + [d];
        } else {
          AbsorbSkips(keying, seen, list, j, seen');
        }
        j := j + 1;
      }
      assert list[..j] == list;
    }

    /**
      `get_complete_danmaku_js_style`: the estimate, the live segments, the
      history walk when the video has a publication date (the estimate is
      never 0), then the lists that are not empty merged with a fresh pool.
      The downloader's own pool ends as the history walk leaves it.
     */
    method GetCompleteDanmaku(first: Reply, live: nat -> Reply, history: int -> Reply,
                              ghost firstRecords: seq<Danmaku>, ghost segments: nat -> seq<Danmaku>,
                              ghost days: int -> seq<Danmaku>,
                              videoDate: Option<int>, startDays: int, now: int, utcOffset: int)
      returns (merged: seq<Danmaku>)
      requires DecodedReply(first, firstRecords) && DecodedSegments(live, segments) && DecodedDays(history, days)
      requires videoDate.Some? ==> Honest(days, utcOffset)
      modifies this
      ensures merged == Complete(keying, firstRecords, segments, days, old(idPool), videoDate, startDays, now, utcOffset)
      ensures var liveRun := LiveFrom(keying, segments, 1, [], old(idPool));
        idPool == History(keying, days, liveRun.pool, videoDate, startDays, EstimateTotal(firstRecords), now, utcOffset).pool
    {
      ghost var pool := idPool;
      var maxlimit, current := GetCurrentDanmakuInfo(first, firstRecords);
      var lists: seq<seq<Danmaku>> := [];
      if current != [] {
        lists := lists + [current];
      }
      var segmented;
      ghost var liveRequests;
      segmented, liveRequests := GetSegmentedDanmaku(live, segments);
      if segmented.items != [] {
        lists := lists + [segmented.items];
      }
      ghost var livePool := idPool;
      var historyItems: seq<Danmaku> := [];
      if videoDate.Some? && maxlimit > 0 {
        var historyList;
        ghost var historyRequests;
        historyList, historyRequests := GetHistoryDanmaku(history, days, videoDate, startDays, maxlimit, now, utcOffset);
        historyItems := historyList.items;
      } else {
        assert History(keying, days, livePool, videoDate, startDays, maxlimit, now, utcOffset).items == [];
      }
      if historyItems != [] {
        lists := lists + [historyItems];
      }
      assert lists == Lists(segmented.items, historyItems);
      merged := MergeLists(lists);
    }

    /**
      The sort of `save_danmaku_xml`: Python's stable `list.sort` by
      progress, in place. The list ends ordered, with the same records, and
      records of equal progress in their former order.
     */
    method SortForSave(list: DanmakuList)
      modifies list
      ensures list.items == SortByProgress(old(list.items))
      ensures Sorted(list.items) && multiset(list.items) == multiset(old(list.items))
      ensures forall p: nat :: WithProgress(p, list.items) == WithProgress(p, old(list.items))
    {
      var items := list.items;
      SortSorted(items);
      SortPermutes(items);
      forall p: nat
        ensures WithProgress(p, SortByProgress(items)) == WithProgress(p, items)
      {
        SortStable(p, items);
      }
      list.items := SortByProgress(items);
    }
  }
}
