/**
  The Protocol Buffers wire format as the danmaku decoders of main.py read it
  (sections "Base 128 Varints" and "Message Structure" of the Protocol Buffers
  encoding guide). A varint is a little-endian run of seven-bit groups, every
  byte but the last with its top bit set. A field is a varint tag
  `field_number << 3 | wire_type` followed by a varint (wire type 0) or by a
  varint length and that many bytes (wire type 2); the decoders stop at any
  other wire type.
 */
module Wire {
  import opened Bits

  type byte = b: int | 0 <= b < 256

  /** `s[n:]`: Python slicing clamps an index past the end. */
  function Drop(s: seq<byte>, n: nat): (r: seq<byte>)
    ensures |r| <= |s|
    ensures n <= |s| ==> r == s[n..]
    ensures n >= |s| ==> r == []
  {
    if n <= |s| then s[n..] else []
  }

  /** `s[:n]`, clamped. */
  function Take(s: seq<byte>, n: nat): (r: seq<byte>)
    ensures |r| <= |s|
    ensures n <= |s| ==> r == s[..n]
    ensures n >= |s| ==> r == s
  {
    if n <= |s| then s[..n] else s
  }

  // ---------------------------------------------------------------------------
  // Varints

  /** A varint read off the front of a byte string: its value and how many bytes it took. */
  datatype VarintRead = VarintRead(value: nat, size: nat)

  /**
    What `decode_varint` reads at the front of `s`: bytes up to and including
    the first one below 0x80, or all of `s` when every byte has the top bit set.
   */
  function ReadVarint(s: seq<byte>): (r: VarintRead)
    ensures r.size <= |s|
    ensures r.size == 0 <==> s == []
  {
    if s == [] then VarintRead(0, 0)
    else if s[0] < 128 then VarintRead(s[0], 1)
    else
      var tail := ReadVarint(s[1..]);
      VarintRead(s[0] - 128 + 128 * tail.value, tail.size + 1)
  }

  /** The sum of `(s[i] & 0x7F) << 7i` over the first `k` bytes. */
  function LittleEndian(s: seq<byte>, k: nat): nat
    requires k <= |s|
  {
    if k == 0 then 0 else LittleEndian(s, k - 1) + (s[k - 1] % 128) * Pow2(7 * (k - 1))
  }

  lemma {:induction false} LittleEndianBelow(s: seq<byte>, k: nat)
    requires k <= |s|
    ensures LittleEndian(s, k) < Pow2(7 * k)
  {
    if k > 0 {
      LittleEndianBelow(s, k - 1);
      Pow2Times128(k);
      GroupBelow(LittleEndian(s, k - 1), s[k - 1] % 128, Pow2(7 * (k - 1)));
    }
  }

  lemma Pow2Times128(k: nat)
    requires k >= 1
    ensures Pow2(7 * k) == 128 * Pow2(7 * (k - 1))
  {
    Pow2Add(7 * (k - 1), 7);
    assert Pow2(7) == 128;
  }

  lemma GroupBelow(low: nat, d: nat, p: nat)
    requires low < p && d < 128
    ensures low + d * p < 128 * p
  {
    assert d * p <= 127 * p;
  }

  /**
    Past `k` continuation bytes, the varint is their little-endian sum plus
    2^(7k) times the varint that follows them.
   */
  lemma {:induction false} ReadVarintSplit(s: seq<byte>, k: nat)
    requires k <= |s|
    requires forall j :: 0 <= j < k ==> s[j] >= 128
    ensures ReadVarint(s).value == LittleEndian(s, k) + Pow2(7 * k) * ReadVarint(s[k..]).value
    ensures ReadVarint(s).size == k + ReadVarint(s[k..]).size
  {
    if k > 0 {
      ReadVarintSplit(s, k - 1);
      var here := ReadVarint(s[k - 1..]);
      var tail := ReadVarint(s[k..]);
      ContinuationStep(s[k - 1..], s[k..]);
      Pow2Times128(k);
      ShiftGroup(ReadVarint(s).value, LittleEndian(s, k - 1), Pow2(7 * (k - 1)), s[k - 1] % 128, tail.value);
    }
  }

  /** A continuation byte adds its seven bits below the varint that follows it. */
  lemma ContinuationStep(s: seq<byte>, rest: seq<byte>)
    requires s != [] && s[0] >= 128 && rest == s[1..]
    ensures ReadVarint(s).value == s[0] % 128 + 128 * ReadVarint(rest).value
    ensures ReadVarint(s).size == ReadVarint(rest).size + 1
  {
  }

  lemma ShiftGroup(v: nat, low: nat, p: nat, d: nat, t: nat)
    requires v == low + p * (d + 128 * t)
    ensures v == (low + d * p) + (128 * p) * t
  {
  }

  /** The value read is the little-endian sum of the seven-bit groups of the bytes read. */
  lemma VarintIsLittleEndianSum(s: seq<byte>)
    ensures ReadVarint(s).value == LittleEndian(s, ReadVarint(s).size)
  {
    if s != [] {
      var n := ReadVarint(s).size;
      ContinuationBytes(s);
      if s[n - 1] < 128 {
        VarintEndsAt(s, n - 1);
      } else {
        VarintRunsOut(s);
      }
    }
  }

  /** A varint whose first byte below 0x80 is at position k. */
  lemma VarintEndsAt(s: seq<byte>, k: nat)
    requires k < |s| && s[k] < 128
    requires forall j :: 0 <= j < k ==> s[j] >= 128
    ensures ReadVarint(s) == VarintRead(LittleEndian(s, k + 1), k + 1)
  {
    ReadVarintSplit(s, k);
    LastGroup(s[k..]);
    LittleEndianStep(s, k);
  }

  lemma LastGroup(rest: seq<byte>)
    requires rest != [] && rest[0] < 128
    ensures ReadVarint(rest) == VarintRead(rest[0], 1)
  {
  }

  lemma LittleEndianStep(s: seq<byte>, k: nat)
    requires k < |s| && s[k] < 128
    ensures LittleEndian(s, k + 1) == LittleEndian(s, k) + Pow2(7 * k) * s[k]
  {
    var b, p := s[k], Pow2(7 * k);
    assert LittleEndian(s, k + 1) == LittleEndian(s, k) + (b % 128) * p;
    assert b % 128 == b;
    assert (b % 128) * p == p * b;
  }

  /** A varint cut short by the end of the data: every byte read has its top bit set. */
  lemma VarintRunsOut(s: seq<byte>)
    requires forall j :: 0 <= j < |s| ==> s[j] >= 128
    ensures ReadVarint(s) == VarintRead(LittleEndian(s, |s|), |s|)
  {
    ReadVarintSplit(s, |s|);
    assert s[|s|..] == [];
  }

  /** Every byte read before the last one has its top bit set; the last one is below 0x80 unless the input ran out. */
  lemma {:induction false} ContinuationBytes(s: seq<byte>)
    requires s != []
    ensures forall j :: 0 <= j < ReadVarint(s).size - 1 ==> s[j] >= 128
    ensures s[ReadVarint(s).size - 1] < 128 || ReadVarint(s).size == |s|
  {
    if s[0] >= 128 && |s| > 1 {
      ContinuationBytes(s[1..]);
    }
  }

  /**
    `ProtobufDecoder.decode_varint(data, offset)`: ORs the low seven bits of
    each byte into place until a byte without the top bit, or the end of data.
   */
  method DecodeVarint(data: seq<byte>, offset: nat) returns (result: nat, pos: nat)
    ensures result == ReadVarint(Drop(data, offset)).value
    ensures pos == offset + ReadVarint(Drop(data, offset)).size
    ensures offset < |data| ==> offset < pos <= |data|
    ensures offset >= |data| ==> result == 0 && pos == offset
  {
    ghost var s := Drop(data, offset);
    result := 0;
    var shift := 0;
    pos := offset;
    while pos < |data|
      invariant offset <= pos && (pos <= |data| || pos == offset)
      invariant pos - offset <= |s|
      invariant shift == 7 * (pos - offset)
      invariant forall j :: 0 <= j < pos - offset ==> s[j] >= 128
      invariant result == LittleEndian(s, pos - offset)
      decreases |data| - pos
    {
      ghost var k := pos - offset;
      var b := data[pos];
      assert b == s[k];
      pos := pos + 1;
      // `result |= (byte & 0x7F) << shift`
      OrNextGroup(s, k);
      result := Or(result, (b % 128) * Pow2(shift));
      if b < 128 {
        // `(byte & 0x80) == 0`
        VarintEndsAt(s, k);
        return;
      }
      shift := shift + 7;
    }
    VarintRunsOut(s);
  }

  /** The group ORed in at shift 7k lands above every bit already set, so OR adds it. */
  lemma OrNextGroup(s: seq<byte>, k: nat)
    requires k < |s|
    ensures Or(LittleEndian(s, k), (s[k] % 128) * Pow2(7 * k)) == LittleEndian(s, k + 1)
  {
    LittleEndianBelow(s, k);
    OrDisjoint(LittleEndian(s, k), s[k] % 128, 7 * k);
  }

  /** The standard varint encoding: seven bits per byte, least significant group first. */
  function EncodeVarint(n: nat): (r: seq<byte>)
    ensures 1 <= |r|
  {
    if n < 128 then [n] else [n % 128 + 128] + EncodeVarint(n / 128)
  }

  /** Reading the encoding of `n`, whatever follows it, gives back `n` and consumes exactly the encoding. */
  lemma {:induction false} VarintRoundTrip(n: nat, rest: seq<byte>)
    ensures ReadVarint(EncodeVarint(n) + rest) == VarintRead(n, |EncodeVarint(n)|)
  {
    if n >= 128 {
      VarintRoundTrip(n / 128, rest);
      var e := EncodeVarint(n) + rest;
      assert e[1..] == EncodeVarint(n / 128) + rest;
    }
  }

  // ---------------------------------------------------------------------------
  // Fields

  /** The payload of a field: a varint (wire type 0) or a length-delimited byte string (wire type 2). */
  datatype Payload = Number(n: nat) | Bytes(bytes: seq<byte>)

  datatype Field = Field(number: nat, payload: Payload)

  /**
    The fields the decoders' loop visits, in order, from the start of `s`: it
    reads a tag, then a varint for wire type 0 or a length and that many bytes
    for wire type 2 (fewer when the data ends early), and stops at the end of
    the data or at any other wire type.
   */
  function Scan(s: seq<byte>): seq<Field>
    decreases |s|
  {
    if s == [] then []
    else
      var tag := ReadVarint(s);
      var rest := s[tag.size..];
      if tag.value % 8 == 0 then
        var v := ReadVarint(rest);
        [Field(tag.value / 8, Number(v.value))] + Scan(rest[v.size..])
      else if tag.value % 8 == 2 then
        var len := ReadVarint(rest);
        var body := rest[len.size..];
        [Field(tag.value / 8, Bytes(Take(body, len.value)))] + Scan(Drop(body, len.value))
      else []
  }

  /** One step of `Scan` over a varint field, with the two varints it reads named. */
  lemma ScanConsNumber(s: seq<byte>, tag: VarintRead, rest: seq<byte>, arg: VarintRead, body: seq<byte>)
    requires s != [] && tag == ReadVarint(s) && rest == s[tag.size..] && tag.value % 8 == 0
    requires arg == ReadVarint(rest) && body == rest[arg.size..]
    ensures Scan(s) == [Field(tag.value / 8, Number(arg.value))] + Scan(body)
  {
  }

  /** One step of `Scan` over a length-delimited field, with the two varints it reads named. */
  lemma ScanConsBytes(s: seq<byte>, tag: VarintRead, rest: seq<byte>, arg: VarintRead, body: seq<byte>, after: seq<byte>)
    requires s != [] && tag == ReadVarint(s) && rest == s[tag.size..] && tag.value % 8 == 2
    requires arg == ReadVarint(rest) && body == rest[arg.size..] && after == Drop(body, arg.value)
    ensures Scan(s) == [Field(tag.value / 8, Bytes(Take(body, arg.value)))] + Scan(after)
  {
  }

  function WireType(p: Payload): nat
  {
    match p
    case Number(_) => 0
    case Bytes(_) => 2
  }

  /** The bytes of one field as an encoder writes them. */
  function EncodeField(f: Field): seq<byte>
  {
    EncodeVarint(f.number * 8 + WireType(f.payload)) +
    match f.payload
    case Number(n) => EncodeVarint(n)
    case Bytes(b) => EncodeVarint(|b|) + b
  }

  function EncodeFields(fs: seq<Field>): seq<byte>
  {
    if fs == [] then [] else EncodeField(fs[0]) + EncodeFields(fs[1..])
  }

  /** Scanning the encoding of any list of fields, whatever follows it, gives back that list first. */
  lemma {:induction false} ScanEncodeFields(fs: seq<Field>, later: seq<byte>)
    ensures Scan(EncodeFields(fs) + later) == fs + Scan(later)
  {
    if fs == [] {
      assert EncodeFields(fs) + later == later;
    } else {
      ScanEncodeFields(fs[1..], later);
      ScanFirstField(fs, later);
    }
  }

  lemma ScanFirstField(fs: seq<Field>, later: seq<byte>)
    requires fs != []
    requires Scan(EncodeFields(fs[1..]) + later) == fs[1..] + Scan(later)
    ensures Scan(EncodeFields(fs) + later) == fs + Scan(later)
  {
    var x := EncodeFields(fs[1..]) + later;
    assert EncodeFields(fs) + later == EncodeField(fs[0]) + x;
    ScanOneField(fs[0], x);
    ConsAppend(fs, Scan(EncodeFields(fs) + later), Scan(x), Scan(later));
  }

  lemma ConsAppend<T>(xs: seq<T>, a: seq<T>, b: seq<T>, tail: seq<T>)
    requires xs != [] && a == [xs[0]] + b && b == xs[1..] + tail
    ensures a == xs + tail
  {
    assert [xs[0]] + xs[1..] == xs;
  }

  /** The encoding of a list of fields scans back to exactly that list. */
  lemma ScanEncoded(fs: seq<Field>)
    ensures Scan(EncodeFields(fs)) == fs
  {
    ScanEncodeFields(fs, []);
    assert EncodeFields(fs) + [] == EncodeFields(fs);
  }

  /** Scanning one encoded field, whatever follows it, yields that field and goes on with what follows. */
  lemma ScanOneField(f: Field, later: seq<byte>)
    ensures Scan(EncodeField(f) + later) == [f] + Scan(later)
  {
    match f.payload
    case Number(n) => ScanNumberField(f.number, n, later);
    case Bytes(b) => ScanBytesField(f.number, b, later);
  }

  lemma ScanNumberField(number: nat, n: nat, later: seq<byte>)
    ensures Scan(EncodeField(Field(number, Number(n))) + later) == [Field(number, Number(n))] + Scan(later)
  {
    var tag, v := EncodeVarint(number * 8), EncodeVarint(n);
    var e := tag + (v + later);
    assert EncodeField(Field(number, Number(n))) + later == e;
    VarintRoundTrip(number * 8, v + later);
    assert e[|tag|..] == v + later;
    VarintRoundTrip(n, later);
    assert (v + later)[|v|..] == later;
    assert (number * 8) % 8 == 0 && (number * 8) / 8 == number;
  }

  lemma ScanBytesField(number: nat, b: seq<byte>, later: seq<byte>)
    ensures Scan(EncodeField(Field(number, Bytes(b))) + later) == [Field(number, Bytes(b))] + Scan(later)
  {
    var tag, len := EncodeVarint(number * 8 + 2), EncodeVarint(|b|);
    var e := tag + (len + (b + later));
    assert EncodeField(Field(number, Bytes(b))) + later == e;
    VarintRoundTrip(number * 8 + 2, len + (b + later));
    assert e[|tag|..] == len + (b + later);
    VarintRoundTrip(|b|, b + later);
    assert (len + (b + later))[|len|..] == b + later;
    assert Take(b + later, |b|) == b;
    assert Drop(b + later, |b|) == later;
    assert (number * 8 + 2) % 8 == 2 && (number * 8 + 2) / 8 == number;
  }

  /** Concatenated messages scan as the concatenation of their fields. */
  lemma {:induction false} EncodeFieldsAppend(xs: seq<Field>, ys: seq<Field>)
    ensures EncodeFields(xs + ys) == EncodeFields(xs) + EncodeFields(ys)
  {
    if xs == [] {
      assert xs + ys == ys;
    } else {
      assert (xs + ys)[0] == xs[0];
      assert (xs + ys)[1..] == xs[1..] + ys;
      EncodeFieldsAppend(xs[1..], ys);
    }
  }
}
