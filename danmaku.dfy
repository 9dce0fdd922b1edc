/**
  The danmaku record of main.py (`DanmakuElement`), the attribute dictionary
  the element decoder builds for it, and the fingerprint used to drop
  duplicates.

  Text attributes are kept as the raw bytes read from the wire. Lenient UTF-8
  decoding and Python's per-process salted `hash()` are not modelled; they
  enter only through a `Keying`, the two functions the fingerprint needs.
 */
module Danmaku {
  import opened Wire

  /** The dictionary keys `decode_danmaku_element` may set. */
  datatype Key = Id | Progress | Mode | FontSize | Color | Ctime | Weight | Pool | MidHash | Content | IdStr

  /** A dictionary value: a varint, or the bytes of a string field. */
  datatype Value = Int(n: nat) | Text(bytes: seq<byte>)

  /** The dictionary `decode_danmaku_element` returns. */
  type Element = map<Key, Value>

  datatype Danmaku = Danmaku(
    id: nat, progress: nat, mode: nat, fontsize: nat, color: nat,
    ctime: nat, pool: nat, midHash: seq<byte>, content: seq<byte>, weight: nat)

  const DEFAULT_MODE: nat := 1
  const DEFAULT_FONTSIZE: nat := 25
  const DEFAULT_COLOR: nat := 16777215

  /** `data.get(key, default)` for a number attribute. */
  function IntAttr(m: Element, k: Key, default: nat): nat
  {
    if k in m && m[k].Int? then m[k].n else default
  }

  /** `data.get(key, '')` for a text attribute. */
  function TextAttr(m: Element, k: Key): seq<byte>
  {
    if k in m && m[k].Text? then m[k].bytes else []
  }

  /** `DanmakuElement.__init__`: each attribute from the dictionary, or its default. */
  function FromElement(m: Element): Danmaku
  {
    Danmaku(
      IntAttr(m, Id, 0), IntAttr(m, Progress, 0), IntAttr(m, Mode, DEFAULT_MODE),
      IntAttr(m, FontSize, DEFAULT_FONTSIZE), IntAttr(m, Color, DEFAULT_COLOR),
      IntAttr(m, Ctime, 0), IntAttr(m, Pool, 0),
      TextAttr(m, MidHash), TextAttr(m, Content), IntAttr(m, Weight, 0))
  }

  /** An element with only the identifier string (key `idStr`) builds the all-defaults record. */
  lemma DefaultsOnly(s: seq<byte>)
    ensures FromElement(map[IdStr := Text(s)]) == Danmaku(0, 0, 1, 25, 16777215, 0, 0, [], [], 0)
  {
  }

  // ---------------------------------------------------------------------------
  // Fingerprint

  /**
    The two functions the fingerprint applies to text: the length in
    characters of the lenient UTF-8 decoding, and Python's `hash` of it.
   */
  datatype Keying = Keying(textLength: seq<byte> -> nat, hash: seq<byte> -> int)

  /**
    `get_unique_id`: the string `f"{progress or 1}_{len(content)}_{hash(midHash) % 2**32}"`.
    Three decimal numbers joined by `_` determine each other, so the triple stands for the string.
   */
  datatype Fingerprint = Fingerprint(progress: nat, length: nat, midHash: nat)

  const TWO_POW_32: nat := 0x1_0000_0000

  function UniqueId(keying: Keying, d: Danmaku): (f: Fingerprint)
    ensures f.progress >= 1 && f.midHash < TWO_POW_32
    ensures f.progress == d.progress || (d.progress == 0 && f.progress == 1)
    ensures f.length == keying.textLength(d.content)
  {
    Fingerprint(if d.progress == 0 then 1 else d.progress,
                keying.textLength(d.content),
                keying.hash(d.midHash) % TWO_POW_32)
  }

  /**
    The fingerprint is lossy: only the progress, the content's length and the
    sender hash count, and a progress of 0 is taken as 1. Two records that agree
    on those (and may differ in text, time, colour, ...) are duplicates.
   */
  lemma FingerprintIgnores(keying: Keying, a: Danmaku, b: Danmaku)
    requires a.progress == b.progress || {a.progress, b.progress} == {0, 1}
    requires keying.textLength(a.content) == keying.textLength(b.content)
    requires keying.hash(a.midHash) == keying.hash(b.midHash)
    ensures UniqueId(keying, a) == UniqueId(keying, b)
  {
  }

  /** Records with different fingerprints differ in progress (beyond 0 ~ 1), content length or sender hash. */
  lemma FingerprintSeparates(keying: Keying, a: Danmaku, b: Danmaku)
    requires UniqueId(keying, a) == UniqueId(keying, b)
    ensures a.progress == b.progress || {a.progress, b.progress} == {0, 1}
    ensures keying.textLength(a.content) == keying.textLength(b.content)
    ensures keying.hash(a.midHash) % TWO_POW_32 == keying.hash(b.midHash) % TWO_POW_32
  {
  }
}
