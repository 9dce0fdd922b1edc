# Bilibili danmaku downloader: a verified model of its crawl core

This project models the core of a Bilibili danmaku (bullet-comment) downloader. It covers:

- **decoding** the Protocol Buffers segment replies of the danmaku API into records;
- **deduplication** of records by a lossy fingerprint;
- **the live-segment crawl**: segments 1 to 100, until a segment gives nothing new;
- **the adaptive history walk**: it goes back from yesterday, day by day, and jumps to the earliest time seen in each batch, while the batches stay dense enough;
- **the final merge** of the live and history lists;
- **the sort by playback time** applied before saving;
- **the AV/BV video-id codec**.

The model is in Dafny, and the properties below are proved about it.

Modules, in dependency order:

- `Wrappers`: `Option` and `Result`.
- `Bits`: bitwise OR, AND and XOR on unbounded naturals, written out bit by bit, with the lemmas the codecs need.
- `AvBv`: `av2bv` and `bv2av` from `utils/common_tools.py`. They appear as functions and as the source's loops, with the round trip, the error cases and the source's own example.
- `Wire`: varints and the field scan of the wire format. The format is the one described in sections "Base 128 Varints" and "Message Structure" of the Protocol Buffers encoding guide. The module also has an encoder and round trips for it.
- `Danmaku`: the record `DanmakuElement`, its construction from the attribute dictionary with defaults, and the fingerprint `get_unique_id`.
- `Decoder`: `decode_danmaku_element` and `decode_danmaku_response`. Each is written as the source's loop and proved equal to a specification over `Wire.Scan`.
- `Dedup`: the merge loop (`Absorb`) and an independent definition, "keep the first record of each new fingerprint" (`FirstSeen`), proved equal. The lemmas say what the merge keeps.
- `Crawl`: the live loop, the history walk, the estimate and the final merge, as functions of what the server answers. The lemmas say what each loop guarantees: requests in order, termination, no duplicates, and the final merge dropping nothing.
- `Ordering`: Python's stable sort by `progress`, as insertion sort. It is proved sorted, a permutation and stable.
- `Downloader`: the `BilibiliDanmakuDownloader` class, with the fingerprint pool `id_pool` as a field and one method per source method. Each method's loop is proved equal to the `Crawl` or `Dedup` function that specifies it.

The network is an oracle:

- `live(i)` is the reply for live segment `i`;
- `history(d)` is the reply for local day number `d`;
- `first` is the reply for the estimate's request.

A reply is either `Failed`, which stands for an exception raised by the HTTP session, or a status and a body. Every failure the source handles yields an empty batch: an exception, a status other than 200 (including 304 and 412), an empty body, or a body that decodes to nothing. The model folds them into `Crawl.Batch`.

Times are integer seconds. A local time is the epoch time plus a fixed `utcOffset`, and the date of a local time is its day number.

Behaviours of main.py that show through in the model:

- A plain list never carries an `id_pool` attribute (main.py:160). The merge therefore always adds the target's own fingerprints to the pool first.
- `get_current_danmaku_info` always returns an empty list of current records. The final merge therefore only ever sees the live list and the history list.
- When the history walk skips a request, the density check always ends the walk in that same round (`Crawl.SkipOnlyWhenStopping`). Two skips in a row cannot happen.
- A length-delimited field whose length runs past the end of the message keeps the bytes that are there as its value, because Python slicing clamps, and then the loop ends (main.py:92-94, 124-128).
- As written, the history walk need not end (see Findings). `Crawl.History` is the corrected walk. With a positive target and `Crawl.Honest` the two walks are the same (`Crawl.FixedAgrees`).

## Model

| member | source | states |
|---|---|---|
| Wire.Take | main.py:85 | Slicing past the end clamps: the prefix of the requested length, or the whole string when it is shorter. |
| Wire.ReadVarint | main.py:47-61 | A varint read never consumes more bytes than there are, and consumes none exactly when there are none. |
| Wire.DecodeVarint | main.py:47-61 | `decode_varint` returns the varint value at `offset` and the position just after it. Inside the data it consumes at least one byte and stops at the end. At or past the end it returns 0 and `offset` unchanged. |
| Wire.VarintIsLittleEndianSum | main.py:53-59 | The value is the sum of the seven-bit groups of the bytes read, least significant group first. |
| Wire.ContinuationBytes | main.py:57-58 | Every byte read before the last has its top bit set. The last is below 0x80 unless the data ran out. |
| Wire.VarintRunsOut | main.py:53 | A varint cut short by the end of the data reads every remaining byte as a group. |
| Wire.OrNextGroup | main.py:56 | ORing in a group shifted by 7k adds it, because it lands above every bit already set. |
| Wire.VarintRoundTrip | main.py:47-61 | Reading the standard encoding of `n`, whatever follows, gives `n` and consumes exactly the encoding. |
| Wire.Scan | main.py:77-96 | Definition: the fields both decoders' loops visit, in order. Each is a tag, then a varint for wire type 0, or a length and that many bytes (fewer at the end of the data) for wire type 2. The scan stops at the end of the data or at any other wire type. |
| Wire.ScanEncodeFields | main.py:77-96 | Scanning the encoding of a list of fields, followed by anything, gives that list first. |
| Wire.ScanEncoded | main.py:77-96 | The encoding of a list of fields scans back to exactly that list. |
| Decoder.ElementOf | main.py:104-134 | Definition: the dictionary built by applying the scanned fields in order, or None when it is empty. |
| Decoder.ResponseOf | main.py:72-101 | Definition: the records of the scanned field-1 messages whose dictionaries are not empty, in order. |
| Decoder.ScanStep | main.py:79-96 | How a field is read: for wire type 0, a tag and a varint; for wire type 2, a tag, a length and that many bytes (clamped). Any other wire type ends the scan. |
| Decoder.ScanNumber | main.py:90-91 | A varint field is followed by the fields after its value. |
| Decoder.ScanBytes | main.py:92-94 | A length-delimited field is followed by the fields after its payload. |
| Decoder.UnknownWireStops | main.py:129-130 | A wire type other than 0 and 2 ends the element loop with nothing more read. |
| Decoder.StoreNumber | main.py:115-120 | The dictionary update for a varint field sets the attribute `field_map` names, or nothing for an unmapped number. |
| Decoder.StoreBytes | main.py:122-128 | The dictionary update for a length-delimited field sets the attribute `string_map` names, or nothing. |
| Decoder.ElementStep | main.py:109-128 | Each round of the element loop keeps "the dictionary so far, updated by the remaining fields, is the final dictionary". |
| Decoder.DecodeElement | main.py:104-134 | `decode_danmaku_element` returns the dictionary the message's fields build, or None when it is empty. |
| Decoder.ResponseNumberStep | main.py:90-91 | Skipping a varint field keeps the reply loop's invariant. |
| Decoder.ResponseBytesStep | main.py:92-94 | Skipping a length-delimited field other than field 1 keeps the reply loop's invariant. |
| Decoder.ResponseElementStep | main.py:83-88 | Decoding a field-1 message and appending its record keeps the reply loop's invariant. |
| Decoder.ResponseOtherStop | main.py:95-96 | Stopping at an unknown wire type returns exactly the reply's records. |
| Decoder.ResponseEnd | main.py:77 | Reaching the end of the data returns exactly the reply's records. |
| Decoder.RecordOfElement | main.py:85-87 | A field-1 message gives one record built from its dictionary, or none when the dictionary is empty. |
| Decoder.DecodeResponse | main.py:72-101 | `decode_danmaku_response` returns the records of the reply's field-1 messages whose dictionaries are not empty, in order. |
| Decoder.AssignAllKeys | main.py:117-127 | An attribute is in the dictionary if and only if some field maps to it. |
| Decoder.LaterFieldWins | main.py:117-127 | When a field repeats, its last occurrence decides the attribute's value. |
| Decoder.Untouched | main.py:117-127 | Fields that map elsewhere leave an attribute as it was. |
| Decoder.ElementNoneIff | main.py:134 | The element decoder returns None exactly when no field of the message maps to an attribute. |
| Decoder.AssignAllEmpty | main.py:134 | The dictionary stays empty exactly when no field maps to an attribute. |
| Decoder.ElementWellTyped | main.py:115-128 | Number attributes always hold numbers and text attributes always hold bytes. |
| Decoder.FromFullElement | main.py:19-29 | A dictionary with every attribute builds exactly the record those attributes describe. |
| Decoder.ElementRoundTrip | main.py:104-134 | Decoding an encoded record gives a dictionary that builds that same record back. |
| Decoder.RecordOfEncoded | main.py:83-87 | The field-1 message encoding a record yields exactly that record. |
| Decoder.RecordsOfAppend | main.py:77-101 | The records of consecutive fields are the records of each part, in order. |
| Decoder.ResponseRoundTrip | main.py:72-101 | Decoding an encoded reply gives back its records, in order. |
| Decoder.ResponseStopsAtOtherWire | main.py:95-96 | Everything from a tag of an unknown wire type on is ignored by the reply decoder. |
| Decoder.ElementStopsAtOtherWire | main.py:129-130 | Everything from a tag of an unknown wire type on is ignored by the element decoder. |
| Decoder.OtherFieldsSkipped | main.py:89-94 | Fields that are not field-1 messages yield no records. |
| Danmaku.FromElement | main.py:19-29 | Definition: each attribute of the record is taken from the dictionary, or else from its default. |
| Danmaku.DefaultsOnly | main.py:19-29 | A dictionary holding only `idStr` builds the all-defaults record: mode 1, font size 25, colour 16777215, every other attribute 0 or empty. |
| Danmaku.UniqueId | main.py:37-40 | The fingerprint's progress is at least 1, equal to the record's progress or 1 when that is 0. Its length is the content's length, and its hash part is below 2^32. |
| Danmaku.FingerprintIgnores | main.py:40 | Records that agree on progress (0 counting as 1), content length and sender hash are duplicates, however else they differ. |
| Danmaku.FingerprintSeparates | main.py:40 | Records with equal fingerprints agree on progress (0 ~ 1), content length and the sender hash modulo 2^32. |
| Dedup.Absorb | main.py:158-170 | Definition: the records the merge loop appends after seeing a list. A record is appended when its fingerprint is neither in the pool nor on an earlier record. |
| Dedup.FirstSeen | main.py:166-170 | Reference definition: the first record of each fingerprint outside the pool, in order. |
| Dedup.AbsorbIsFirstSeen | main.py:166-170 | The records the merge loop appends are exactly the first record of each fingerprint outside the pool, in order. |
| Dedup.AbsorbStep | main.py:166-170 | Each round of the merge loop appends the record exactly when its fingerprint is new, and adds its fingerprint to the pool. |
| Dedup.AbsorbKeeps | main.py:167-170 | A record with a fingerprint not yet seen is appended and its fingerprint joins the pool. |
| Dedup.AbsorbSkips | main.py:167-168 | A record whose fingerprint was seen is skipped and the pool is unchanged. |
| Dedup.FirstSeenAppend | main.py:391-399 | Selecting from two lists in a row keeps the first list's selection, then the second's with the first's fingerprints known. |
| Dedup.FirstSeenFresh | main.py:166-170 | No kept record's fingerprint was in the pool. |
| Dedup.FirstSeenDistinct | main.py:166-170 | No two kept records share a fingerprint. |
| Dedup.FirstSeenSubsequence | main.py:166-170 | The kept records are records of the input, in the input's order. |
| Dedup.FirstSeenCovers | main.py:166-170 | Afterwards the pool holds the fingerprint of every record seen, whether it was kept or not. |
| Dedup.FirstOccurrenceKept | main.py:166-170 | The first record of each fingerprint outside the pool is kept. |
| Dedup.FirstSeenKnown | main.py:166-170 | Records whose fingerprints are all known add nothing. |
| Dedup.FirstSeenKeepsNew | main.py:166-170 | Records with distinct fingerprints, none of them known, are all kept, in order. |
| Dedup.MergeIdempotent | main.py:158-170 | Merging the same list a second time appends nothing. |
| Dedup.MergeKeepsDistinct | main.py:158-170 | Merging into a list without duplicate fingerprints leaves it without duplicates. |
| Crawl.EstimateTotal | main.py:181-190 | The estimate is twenty times the size of segment 1 when that segment has records, and 5000 otherwise. It is never 0. |
| Crawl.LiveFrom | main.py:196-239 | Definition: the live loop from a segment on. An empty segment, a segment that adds nothing and segment 100 each end it; otherwise it moves to the next segment. |
| Crawl.LiveRequests | main.py:199-239 | The live loop requests segments 1, 2, 3, … in order: at least one and at most 100. |
| Crawl.LiveLastRequest | main.py:209-237 | The request of the segment at which the loop stops is its last: from there the requests are exactly that segment within the first 100, and none past segment 100. |
| Crawl.LiveEmptyStop | main.py:209-226 | A segment that gives no records ends the loop with the list and pool unchanged. |
| Crawl.LiveNothingNew | main.py:228-237 | A segment that adds no record ends the loop after its merge. |
| Crawl.LiveNext | main.py:228-239 | A segment that adds records moves the loop on to the next segment. |
| Crawl.LiveLastSegment | main.py:203 | After segment 100 the loop ends. |
| Crawl.LiveRound | main.py:206-239 | One round either ends the run with its result or keeps the invariant for the next segment. |
| Crawl.LiveStart | main.py:198-199 | Before the first round, the invariant holds for the whole run. |
| Crawl.LiveGrows | main.py:199-239 | The live list only grows at its end and the pool only grows. Every request but the last added at least one record. |
| Crawl.LiveDistinct | main.py:199-239 | The live list has no fingerprint twice, all of them are in the pool, and every record was new to the initial pool. |
| Crawl.MergeInvariant | main.py:158-170 | One merge keeps the list duplicate-free and within the pool, and appends only records new to the pool. |
| Crawl.Query | main.py:290-339 | Definition: one history request. It asks for the current day and merges the batch. After a non-empty batch it retargets `first_date` and moves the current date to that time. When that time is outside `datetime`'s range (years 1 to 9999), `fromtimestamp` raises and the handler empties the batch, keeping the current date. An empty batch only clears the last batch. |
| Crawl.Retarget | main.py:315-321 | Definition: the new `first_date` is a day before the earliest record when `first_date` was set and lies less than a day after it; otherwise it is the earliest record's time. |
| Crawl.Gate | main.py:289 | Definition: a request is made when `first_date` is 0 or the last batch held at least half of `min(target, 5000)`. |
| Crawl.Advance | main.py:346-348 | Definition: after a dense round, the current date moves back a day only while `first_date` is 0. |
| Crawl.HistoryFrom | main.py:283-348 | Definition: the source's walk, under the hypotheses on which it ends. It stops before `start_date` or after a sparse batch; otherwise it goes on from the advanced state. |
| Crawl.MinCtime | main.py:313 | The minimum `ctime` of a batch is at most every record's `ctime` and is some record's `ctime`. |
| Crawl.RetargetMovesBack | main.py:315-321 | After a first batch, the new `first_date` is the minimum `ctime` or a day before it, and lies at least a day back. |
| Crawl.HistoryStops | main.py:342-344 | A round whose batch holds fewer than half of `min(target, 5000)` ends the walk. |
| Crawl.HistoryGoesOn | main.py:283-348 | A dense enough round continues from the advanced state, which is strictly closer to the end. |
| Crawl.MeasureDecreases | main.py:283-348 | Every round that does not stop lowers the walk's measure (twice the days left before the start date, plus one while `first_date` is 0), so the walk ends; the current date stays `first_date`'s local time. |
| Crawl.SkipOnlyWhenStopping | main.py:289 | A request is skipped only after a sparse batch, and then the density check at main.py:342 ends the walk. |
| Crawl.WalkRound | main.py:288-348 | One round either ends the walk with its result, or keeps the invariant and lowers the measure. |
| Crawl.WalkDone | main.py:283 | Once the walk stands before the start date, it is over. |
| Crawl.HistoryDone | main.py:283 | A walk that stands before the start date makes no further request. |
| Crawl.NoDateNoRequests | main.py:253-255 | Without a publication date nothing is requested and nothing is returned. |
| Crawl.HistoryRequests | main.py:283-348 | The corrected walk makes at most two requests per day between yesterday and the start date, plus one, for every archive and target. The earlier requests stay a prefix. |
| Crawl.HistoryDistinct | main.py:283-348 | The corrected walk's history list has no fingerprint twice, all in the pool, and only records new to the pool the walk started with. |
| Crawl.WalkRepeatsDay | main.py:313-322 | As written, with a target of 1 or 2, a day whose only record was sent a day after `first_date` retargets the walk to `first_date` itself. The next round asks for the same day again, with a batch that passes the density check. |
| Crawl.ZeroTargetRepeatsDay | main.py:289-348 | As written, with a target of 0, an empty day once `first_date` is set passes the density check, and the walk asks for the same day again. |
| Crawl.WalkNeverEnds | main.py:283-348 | In either case, after any number of rounds the source's walk stands on the same date, has made one request per round, and passes the density check again: it never ends. |
| Crawl.BackOff | main.py:346-348 | The corrected step after a dense round is the source's next state when that lies closer to the end, and otherwise the same state one day before the day just requested. It always lowers the measure. |
| Crawl.HistoryFixed | main.py:283-348 | Definition: the corrected walk. It makes the source's rounds, but every dense round moves it back at least a day (`Crawl.BackOff`), so it ends for every archive and target. |
| Crawl.UndatableStops | main.py:309-344 | A batch whose new `first_date` is not a representable date is still merged and `first_date` is set, but the handler empties the batch, the current date stays, and with a positive threshold the walk ends in that round. |
| Crawl.History | main.py:253-283 | Definition: no request without a publication date; otherwise the corrected walk from yesterday back to `start_date`, with `min(target, 5000)` as its threshold. |
| Crawl.FixedAgrees | main.py:283-348 | With a positive target and an archive whose batches do not reach past their day, the corrected walk is exactly the source's walk. |
| Crawl.FixedDiffers | main.py:313-344 | Outside `Crawl.Honest` the source's walk can end and still differ from the corrected one: on the archive where only day 10 holds a record, sent on day 11, the source asks for days 10 and 11 and stops, and the corrected walk asks for days 10 and 9. |
| Crawl.HistoryAgrees | main.py:263-283 | With a publication date, a positive target and such an archive, `History` is the source's walk from yesterday back to `start_date`, with empty lists and `first_date` 0. |
| Crawl.RoundInvariant | main.py:288-323 | One history round keeps the list duplicate-free and within the pool, and appends only new records. |
| Crawl.HistoryFresh | main.py:249-351 | The history walk returns records with no fingerprint twice and none in the pool it was given. |
| Crawl.FinalMerge | main.py:386-399 | Definition: the first record of each fingerprint across the lists, earlier lists first, starting from an empty pool. |
| Crawl.Complete | main.py:353-405 | Definition: the estimate, then the live loop from segment 1, then the history walk with the estimate as its target, all sharing the pool. Last comes the final merge of the live list and the history list. |
| Crawl.ListsFlatten | main.py:368-384 | The lists the final merge goes through hold the live records, then the history records. |
| Crawl.FinalMergeKeepsAll | main.py:353-405 | The final merge drops nothing: its result is the live list followed by the history list, and no history record's fingerprint was seen live. |
| Ordering.SortByProgress | main.py:410 | Definition: each record is inserted after every record of progress at most its own, in the list's order. The result has the input's length. |
| Ordering.SortSorted | main.py:410 | The sorted list is ordered by `progress`. |
| Ordering.SortPermutes | main.py:410 | The sorted list holds the same records, each as often. |
| Ordering.SortStable | main.py:410 | Records with equal `progress` keep their original order. |
| Ordering.SortOfSorted | main.py:410 | An already ordered list is left unchanged. |
| Ordering.InsertKeepsOrder | main.py:410 | Inserting a record into an ordered list places it after the records of its own progress. |
| Downloader.Downloader.constructor | main.py:140-156 | A new downloader starts with an empty fingerprint pool. |
| Downloader.Downloader.MergeInPlace | main.py:158-170 | `merge_danmaku_in_place` appends the new records with unseen fingerprints. The pool gains the target's fingerprints and the new list's. |
| Downloader.Downloader.GetCurrentDanmakuInfo | main.py:172-194 | The estimate is that of the first segment's records, and the list of current records is always empty. |
| Downloader.Downloader.ReadReply | main.py:207-226 | A reply yields its decoded records only for status 200 with a non-empty body, and no records otherwise. |
| Downloader.Downloader.ReadSegment | main.py:204-222 | The request for a segment gives that segment's records. |
| Downloader.Downloader.ReadDay | main.py:290-305 | The request for a day gives that day's records. |
| Downloader.Downloader.SegmentRound | main.py:206-239 | One live round: an empty segment changes nothing and stops. Otherwise the segment is merged, and the round stops when nothing was added. |
| Downloader.Downloader.SegmentLoop | main.py:199-244 | The live loop ends with the list, pool and requests of the whole run. |
| Downloader.Downloader.GetSegmentedDanmaku | main.py:196-247 | `get_segmented_danmaku` returns a new list: the live run from segment 1 with the current pool. The pool ends as the run leaves it. |
| Downloader.Downloader.HistoryRequest | main.py:288-339 | One gated history request is exactly `Crawl.Round`: query the current day, merge its batch, retarget `first_date`, and move the current date there unless `fromtimestamp` would raise, in which case the batch is emptied. |
| Downloader.Downloader.DayLoop | main.py:283-348 | The loop of `get_history_danmaku_js_style` ends with the records, the pool and the days requested of the whole walk. |
| Downloader.Downloader.GetHistoryDanmaku | main.py:249-351 | `get_history_danmaku_js_style` returns a new list: the walk's records, with the pool and the days requested as the walk leaves them. |
| Downloader.Downloader.MergeList | main.py:395-399 | The inner loop of the final merge appends the list's first-seen records and adds all of its fingerprints to the pool. |
| Downloader.Downloader.MergeLists | main.py:386-405 | The final merge keeps the first record of each fingerprint across the lists, earlier lists first. |
| Downloader.Downloader.GetCompleteDanmaku | main.py:353-405 | `get_complete_danmaku_js_style` returns the final merge of the live run and the history walk. The downloader's pool ends as the history walk leaves it. |
| Downloader.Downloader.SortForSave | main.py:407-410 | The list is sorted by `progress` in place: ordered, a permutation of the old list, and stable. |
| Bits.XorBelow | utils/common_tools.py:19 | The XOR of two numbers below 2^n is below 2^n. |
| Bits.XorCancel | utils/common_tools.py:19-34 | XORing with the same number twice gives back the original. |
| Bits.OrHighBit | utils/common_tools.py:19 | Setting bit n of a number below 2^n adds 2^n. |
| Bits.XorHighBit | utils/common_tools.py:19 | XOR against a number below 2^n keeps bit n. |
| Bits.AndMaskHighBit | utils/common_tools.py:34 | Masking with 2^n - 1 clears bit n of a number below 2^(n+1). |
| Bits.AndAtMost | utils/common_tools.py:34 | `a & m` never exceeds `m`. |
| AvBv.Encode | utils/common_tools.py:17-23 | Definition: "BV1" followed by the nine slots of the scrambled id's base-58 digits, placed as ENCODE_MAP says. |
| AvBv.Decode | utils/common_tools.py:26-34 | Definition: the prefix error, the error of the digit loop, or the digits read in DECODE_MAP order, unmasked and XORed with XOR_CODE. |
| AvBv.EncodeMapIsPermutation | utils/common_tools.py:9 | ENCODE_MAP is a permutation of 0..8, so every slot is written exactly once. |
| AvBv.DecodeMapIsReversal | utils/common_tools.py:10 | DECODE_MAP is ENCODE_MAP reversed. |
| AvBv.DigitValueInvertsAlphabet | utils/common_tools.py:8-12 | The alphabet has 58 characters, each with its own position as its digit value. |
| AvBv.AlphabetDistinct | utils/common_tools.py:8 | No character occurs twice in the alphabet. |
| AvBv.IndexOfFindsFirst | utils/common_tools.py:32 | `index` finds the first occurrence, and fails exactly on a character that does not occur. |
| AvBv.IndexOfDigit | utils/common_tools.py:32 | Looking up a digit's character gives back the digit. |
| AvBv.HornerErrorSticks | utils/common_tools.py:31-33 | Once a round of `bv2av`'s loop raises, the outcome is that error. |
| AvBv.ScrambledSplits | utils/common_tools.py:19 | For an id below 2^51, the scrambled number is bit 51 plus the id XOR XOR_CODE. |
| AvBv.SlotsWritten | utils/common_tools.py:20-22 | After k rounds, slot ENCODE_MAP[i] holds digit i for each earlier round, and the other slots are empty. |
| AvBv.EncodeBody | utils/common_tools.py:17-23 | `av2bv` gives "BV1" plus nine characters, where position ENCODE_MAP[i] holds base-58 digit i of the scrambled number. |
| AvBv.EncodeShape | utils/common_tools.py:17-23 | `av2bv` returns 12 characters: the prefix "BV1", then nine alphabet characters. |
| AvBv.Av2Bv | utils/common_tools.py:17-23 | The loop writes the scrambled number's base-58 digits into the slots ENCODE_MAP names. |
| AvBv.Bv2Av | utils/common_tools.py:26-34 | The loop reads the digits in DECODE_MAP order, or fails on a bad prefix, a short string or a non-digit. |
| AvBv.HornerRebuilds | utils/common_tools.py:31-33 | Reading back the digits `av2bv` wrote, most significant first, rebuilds the scrambled number. |
| AvBv.DecodeEncode | utils/common_tools.py:17-34 | `bv2av(av2bv(aid)) == aid` for every id below 2^51. |
| AvBv.DecodeBelowMaxAid | utils/common_tools.py:34 | Every id `bv2av` returns is below 2^51. |
| AvBv.HornerOkIff | utils/common_tools.py:31-33 | The digit loop succeeds if and only if every position it reads exists and holds an alphabet character. |
| AvBv.DecodeOkIff | utils/common_tools.py:26-34 | `bv2av` succeeds if and only if the string starts with "BV1" and its next nine characters are digits. It fails with the prefix error if and only if the prefix is wrong. |
| AvBv.EncodeExample | utils/common_tools.py:38-39 | The source's example: id 111298867365120 is written "BV1L9Uoa9EUx", and that string reads back to it. |
| AvBv.ExampleXor | utils/common_tools.py:19 | 123609093261787 XOR XOR_CODE is 111298867365120, the id of the example. |
| Bits.XorConcat | utils/common_tools.py:19 | XOR acts on the high part and on the low n bits of two numbers separately. |

## Left out

- HTTP and the session: cookies, headers, timeouts and the URLs are not modelled. Each request is an oracle, and an exception is the reply `Failed`.
- Printing and the waits between requests (`time.sleep`) are not modelled. They do not affect any result.
- The status codes 304, 412 and the rest are not told apart. Like an empty body or an undecodable one, each ends as an empty batch, and the messages that tell them apart are only printed.
- The decoders' `except` handlers are left out. No statement inside their loops can raise: varint reads stop at the end of the data, and slices clamp.
- Lenient UTF-8 decoding (`decode_string`) is not modelled. Text attributes are kept as the raw bytes of the field.
- Python's per-process salted `hash` is not modelled either. The fingerprint uses the two functions of `Danmaku.Keying`: the character length of the decoded text, and its hash.
- `to_xml_element`, the XML text and the file writing of `save_danmaku_xml` are left out, because they format and write rather than decide anything. Only the sort that precedes them is modelled.
- Python's list sort algorithm is not modelled. The sort is specified by a stable insertion sort on values, which fixes the same result.
- Dates: `datetime.now()` is the parameter `now`, and local time is epoch time plus a fixed `utcOffset`, so daylight-saving changes are not modelled. The date string of a local time is its day number `DayOf`.
- The density test `len >= min(t, 5000) * 0.5` uses floating point. It is modelled as the exact integer test `2 * len >= min(t, 5000)`, which is equivalent.
- `end_days` is left out, because both of its branches in the history walk start from yesterday.
- Downloader.Downloader.GetHistoryDanmaku: requires `target_count > 0` and an archive in which the earliest record of a day's batch is not after that day ends (`Crawl.Honest`), because the method is the source's loop and the loop is proved to end only under these. Outside them the source's walk may never end (see Findings) or may end differently from `Crawl.History`: with `utcOffset` 0, threshold 1, yesterday on day 10, start on day 9 and only day 10 holding one record sent at 11 days + 5 seconds, the source asks for days 10 and 11, while the corrected walk asks for days 10 and 9 (`Crawl.FixedDiffers`). The complete download always passes an estimate of at least 20.
- Downloader.Downloader.GetCompleteDanmaku: requires the same archive hypothesis as the history walk when a publication date is given, for the same reason. `Crawl.Complete` uses the corrected walk and needs no hypothesis.
- The loops' requests are recorded in ghost out-parameters. The records each reply decodes to are passed as ghost oracles tied to the replies (`Crawl.DecodedSegments`, `Crawl.DecodedDays`, `Crawl.DecodedReply`). Neither exists in the source; both serve only to state the contracts.
- AvBv.Av2Bv: ids are naturals, so negative Python integers are not modelled. The round trip is stated for ids below 2^51, the source's `MAX_AID` range.
- AvBv.Bv2Av: the `assert` on the prefix, the `IndexError` of a short string and the `ValueError` of `index` become the error values of `DecodeError`.
- Retries: each request is made once. The retrying client in utils/bilibili_api.py is not used by main.py.
- The command-line entry point `main()`, getspace.py and utils/bilibili_api.py are not part of this model.

## Findings

| source | as written | input that shows it | evidently intended | confidence | as-written member | corrected member |
|---|---|---|---|---|---|---|
| main.py:314-348 | After a batch, the walk moves to the earliest record's time, or to a day before it when that time lies less than a day after `first_date`. The current date moves back by itself only while `first_date` is 0. Nothing moves the walk back past the day it just asked for. | `target_count` 1 or 2, `first_date` set, and the current day's only record sent at `first_date` + 86400: the walk retargets to `first_date` and asks for the same day forever. Or `target_count` 0 and an empty day once `first_date` is set. | Every request moves the walk back at least a day, so it ends at `start_date`. | not executed | Crawl.WalkNeverEnds (with Crawl.WalkRepeatsDay, Crawl.ZeroTargetRepeatsDay) | Crawl.HistoryFixed (with Crawl.BackOff, Crawl.HistoryRequests, Crawl.FixedAgrees) |
