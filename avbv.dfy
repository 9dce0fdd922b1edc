/**
  The numeric-id <-> "BV" identifier codec of utils/common_tools.py: an id
  below 2^51 is tagged with bit 51, XOR-scrambled, written as nine base-58
  digits in a fixed shuffled order, and prefixed with "BV1".
 */
module AvBv {
  import opened Wrappers
  import opened Bits

  const XOR_CODE: nat := 23442827791579
  const MASK_CODE: nat := 2251799813685247
  const MAX_AID: nat := 2251799813685248  // 1 << 51
  /** The 58-character digit alphabet (written in pieces of eight so that the verifier can index it). */
  const ALPHABET: string := "FcwAPNKT" + "Mug3GV5L" + "j7EJnHpW" + "sx4tb8ha" + "YeviqBz6" + "rkCy12mU" + "SDQX9Rdo" + "Zf"
  const ENCODE_MAP: seq<nat> := [8, 7, 0, 5, 1, 3, 2, 4, 6]
  /** `tuple(reversed(ENCODE_MAP))`; DecodeMapIsReversal checks it. */
  const DECODE_MAP: seq<nat> := [6, 4, 2, 3, 1, 5, 0, 7, 8]
  const BASE: nat := |ALPHABET|
  const PREFIX: string := "BV1"
  const CODE_LEN: nat := |ENCODE_MAP|

  /** Why `bv2av` raises: the prefix assert, an index past the end, or `ALPHABET.index` failing. */
  datatype DecodeError = BadPrefix | IndexOutOfRange(position: nat) | NotInAlphabet(c: char)

  // ---------------------------------------------------------------------------
  // Specification of av2bv

  /** The number whose digits are written: `(MAX_AID | aid) ^ XOR_CODE`. */
  function Scrambled(aid: nat): nat
  {
    Xor(Or(MAX_AID, aid), XOR_CODE)
  }

  /** `t` after `i` floor divisions by BASE. */
  function Shifted(t: nat, i: nat): nat
  {
    if i == 0 then t else Shifted(t, i - 1) / 58
  }

  /** The base-58 digit of `t` at weight 58^i. */
  function Digit(t: nat, i: nat): (d: nat)
    ensures d < |ALPHABET|
  {
    Shifted(t, i) % 58
  }

  /** The list `bvid` after the first `k` rounds of av2bv's loop: slot ENCODE_MAP[i] holds digit i. */
  function Slots(t: nat, k: nat): (slots: seq<string>)
    requires k <= 9
    ensures |slots| == 9
  {
    if k == 0 then seq(9, _ => "")
    else Slots(t, k - 1)[ENCODE_MAP[k - 1] := [ALPHABET[Digit(t, k - 1)]]]
  }

  /** `"".join(parts)` */
  function Join(parts: seq<string>): string
  {
    if parts == [] then "" else parts[0] + Join(parts[1..])
  }

  function Encode(aid: nat): string
  {
    PREFIX + Join(Slots(Scrambled(aid), 9))
  }

  // ---------------------------------------------------------------------------
  // Specification of bv2av

  /** `s.index(c)`: the first position of `c`, or None where Python raises. */
  function IndexOf(s: string, c: char): Option<nat>
  {
    if s == [] then None
    else if s[0] == c then Some(0)
    else match IndexOf(s[1..], c)
      case None => None
      case Some(i) => Some(i + 1)
  }

  /** `index` finds the first occurrence, and fails only on a character that does not occur. */
  lemma {:induction false} IndexOfFindsFirst(s: string, c: char)
    ensures IndexOf(s, c).Some? ==> IndexOf(s, c).value < |s| && s[IndexOf(s, c).value] == c && c !in s[..IndexOf(s, c).value]
    ensures IndexOf(s, c).None? <==> c !in s
  {
    if s != [] && s[0] != c {
      IndexOfFindsFirst(s[1..], c);
      assert s == [s[0]] + s[1..];
    }
  }

  /** The accumulator `tmp` after the first `k` rounds of bv2av's loop over `rest = bvid[3:]`. */
  function Horner(rest: string, k: nat): Result<nat, DecodeError>
    requires k <= 9
  {
    if k == 0 then Ok(0)
    else match Horner(rest, k - 1)
      case Err(e) => Err(e)
      case Ok(tmp) =>
        Read(rest, DECODE_MAP[k - 1], tmp)
  }

  /** One round of bv2av's loop: look up the character at position `p` and fold it into `tmp`. */
  function Read(rest: string, p: nat, tmp: nat): Result<nat, DecodeError>
  {
    if p >= |rest| then Err(IndexOutOfRange(p))
    else match IndexOf(ALPHABET, rest[p])
      case None => Err(NotInAlphabet(rest[p]))
      case Some(idx) => Ok(tmp * 58 + idx)
  }

  /** Once a round of bv2av's loop raises, the loop is over: later rounds do not change the outcome. */
  lemma {:induction false} HornerErrorSticks(rest: string, i: nat, k: nat)
    requires i <= k <= 9 && Horner(rest, i).Err?
    ensures Horner(rest, k) == Horner(rest, i)
    decreases k
  {
    if k > i {
      HornerErrorSticks(rest, i, k - 1);
    }
  }

  function HasPrefix(bvid: string): bool
  {
    |bvid| >= 3 && bvid[..3] == PREFIX
  }

  function Decode(bvid: string): Result<nat, DecodeError>
  {
    if !HasPrefix(bvid) then Err(BadPrefix)
    else match Horner(bvid[3..], 9)
      case Err(e) => Err(e)
      case Ok(tmp) => Ok(Xor(And(tmp, MASK_CODE), XOR_CODE))
  }

  // ---------------------------------------------------------------------------
  // The two functions as the source writes them

  method Av2Bv(aid: nat) returns (bvid: string)
    ensures bvid == Encode(aid)
  {
    var parts := new string[9](_ => "");
    var tmp := Xor(Or(MAX_AID, aid), XOR_CODE);
    ghost var t := tmp;
    for i := 0 to CODE_LEN
      invariant tmp == Shifted(t, i)
      invariant parts[..] == Slots(t, i)
    {
      parts[ENCODE_MAP[i]] := [ALPHABET[tmp % BASE]];
      tmp := tmp / BASE;
    }
    bvid := PREFIX + Join(parts[..]);
  }

  method Bv2Av(bvid: string) returns (r: Result<nat, DecodeError>)
    ensures r == Decode(bvid)
  {
    if !(|bvid| >= 3 && bvid[..3] == PREFIX) {
      return Err(BadPrefix);
    }
    var rest := bvid[3..];
    var tmp := 0;
    for i := 0 to CODE_LEN
      invariant Horner(rest, i) == Ok(tmp)
    {
      var p := DECODE_MAP[i];
      if p >= |rest| {
        HornerErrorSticks(rest, i + 1, 9);
        return Err(IndexOutOfRange(p));
      }
      var idx := IndexOf(ALPHABET, rest[p]);
      if idx.None? {
        HornerErrorSticks(rest, i + 1, 9);
        return Err(NotInAlphabet(rest[p]));
      }
      tmp := tmp * BASE + idx.value;
    }
    r := Ok(Xor(And(tmp, MASK_CODE), XOR_CODE));
  }

  // ---------------------------------------------------------------------------
  // The digit tables

  /** ENCODE_MAP is a permutation of 0..8, so av2bv writes every slot exactly once. */
  lemma EncodeMapIsPermutation()
    ensures |ENCODE_MAP| == CODE_LEN == 9
    ensures forall i :: 0 <= i < 9 ==> ENCODE_MAP[i] < 9
    ensures forall i, j :: 0 <= i < j < 9 ==> ENCODE_MAP[i] != ENCODE_MAP[j]
    ensures forall p :: 0 <= p < 9 ==> p in ENCODE_MAP
  {
  }

  lemma DecodeMapIsReversal()
    ensures |DECODE_MAP| == 9
    ensures forall i :: 0 <= i < 9 ==> DECODE_MAP[i] == ENCODE_MAP[8 - i]
  {
  }

  /** The position of each digit character in ALPHABET, written out; a proof device only. */
  ghost function DigitValue(c: char): int
  {
    match c
      case 'F' => 0
      case 'c' => 1
      case 'w' => 2
      case 'A' => 3
      case 'P' => 4
      case 'N' => 5
      case 'K' => 6
      case 'T' => 7
      case 'M' => 8
      case 'u' => 9
      case 'g' => 10
      case '3' => 11
      case 'G' => 12
      case 'V' => 13
      case '5' => 14
      case 'L' => 15
      case 'j' => 16
      case '7' => 17
      case 'E' => 18
      case 'J' => 19
      case 'n' => 20
      case 'H' => 21
      case 'p' => 22
      case 'W' => 23
      case 's' => 24
      case 'x' => 25
      case '4' => 26
      case 't' => 27
      case 'b' => 28
      case '8' => 29
      case 'h' => 30
      case 'a' => 31
      case 'Y' => 32
      case 'e' => 33
      case 'v' => 34
      case 'i' => 35
      case 'q' => 36
      case 'B' => 37
      case 'z' => 38
      case '6' => 39
      case 'r' => 40
      case 'k' => 41
      case 'C' => 42
      case 'y' => 43
      case '1' => 44
      case '2' => 45
      case 'm' => 46
      case 'U' => 47
      case 'S' => 48
      case 'D' => 49
      case 'Q' => 50
      case 'X' => 51
      case '9' => 52
      case 'R' => 53
      case 'd' => 54
      case 'o' => 55
      case 'Z' => 56
      case 'f' => 57
      case _ => -1
  }

  lemma DigitValueInvertsAlphabet()
    ensures BASE == |ALPHABET| == 58
    ensures forall i :: 0 <= i < 58 ==> DigitValue(ALPHABET[i]) == i
  {
    DigitValuesFrom0();
    DigitValuesFrom8();
    DigitValuesFrom16();
    DigitValuesFrom24();
    DigitValuesFrom32();
    DigitValuesFrom40();
    DigitValuesFrom48();
    DigitValuesFrom56();
  }

  // The table is checked in pieces of eight to keep each proof small.
  lemma DigitValuesFrom0()
    ensures forall i :: 0 <= i < 8 ==> DigitValue(ALPHABET[i]) == i
  {
  }

  lemma DigitValuesFrom8()
    ensures forall i :: 8 <= i < 16 ==> DigitValue(ALPHABET[i]) == i
  {
  }

  lemma DigitValuesFrom16()
    ensures forall i :: 16 <= i < 24 ==> DigitValue(ALPHABET[i]) == i
  {
  }

  lemma DigitValuesFrom24()
    ensures forall i :: 24 <= i < 32 ==> DigitValue(ALPHABET[i]) == i
  {
  }

  lemma DigitValuesFrom32()
    ensures forall i :: 32 <= i < 40 ==> DigitValue(ALPHABET[i]) == i
  {
  }

  lemma DigitValuesFrom40()
    ensures forall i :: 40 <= i < 48 ==> DigitValue(ALPHABET[i]) == i
  {
  }

  lemma DigitValuesFrom48()
    ensures forall i :: 48 <= i < 56 ==> DigitValue(ALPHABET[i]) == i
  {
  }

  lemma DigitValuesFrom56()
    ensures |ALPHABET| == 58
    ensures forall i :: 56 <= i < 58 ==> DigitValue(ALPHABET[i]) == i
  {
  }

  /** No character occurs twice in ALPHABET. */
  lemma AlphabetDistinct()
    ensures forall i, j :: 0 <= i < j < 58 ==> ALPHABET[i] != ALPHABET[j]
  {
    DigitValueInvertsAlphabet();
  }

  /** `ALPHABET.index` inverts digit lookup. */
  lemma IndexOfDigit(d: nat)
    requires d < 58
    ensures IndexOf(ALPHABET, ALPHABET[d]) == Some(d)
  {
    DigitValueInvertsAlphabet();
    IndexOfFindsFirst(ALPHABET, ALPHABET[d]);
    var k := IndexOf(ALPHABET, ALPHABET[d]).value;
    assert DigitValue(ALPHABET[k]) == k;
  }

  // ---------------------------------------------------------------------------
  // Shape of av2bv's output

  /** After `k` rounds, slot ENCODE_MAP[i] holds digit i for each round i < k; other slots are still empty. */
  lemma {:induction false} SlotsWritten(t: nat, k: nat)
    requires k <= 9
    ensures forall i :: 0 <= i < k ==> Slots(t, k)[ENCODE_MAP[i]] == [ALPHABET[Digit(t, i)]]
    ensures forall p :: 0 <= p < 9 && p !in ENCODE_MAP[..k] ==> Slots(t, k)[p] == ""
  {
    if k > 0 {
      SlotsWritten(t, k - 1);
      var written := seq(k, i requires 0 <= i < k => [ALPHABET[Digit(t, i)]]);
      WriteSlot(Slots(t, k - 1), k, written);
    }
  }

  /** Writing round k's digit into slot ENCODE_MAP[k - 1] keeps the earlier rounds' slots and leaves the rest empty. */
  lemma WriteSlot(prev: seq<string>, k: nat, written: seq<string>)
    requires |prev| == 9 && 1 <= k <= 9 && |written| == k
    requires forall i :: 0 <= i < k - 1 ==> prev[ENCODE_MAP[i]] == written[i]
    requires forall p :: 0 <= p < 9 && p !in ENCODE_MAP[..k - 1] ==> prev[p] == ""
    ensures forall i :: 0 <= i < k ==> prev[ENCODE_MAP[k - 1] := written[k - 1]][ENCODE_MAP[i]] == written[i]
    ensures forall p :: 0 <= p < 9 && p !in ENCODE_MAP[..k] ==> prev[ENCODE_MAP[k - 1] := written[k - 1]][p] == ""
  {
    EncodeMapIsPermutation();
    assert ENCODE_MAP[..k] == ENCODE_MAP[..k - 1] + [ENCODE_MAP[k - 1]];
  }

  lemma {:induction false} JoinSingletons(parts: seq<string>)
    requires forall p :: 0 <= p < |parts| ==> |parts[p]| == 1
    ensures |Join(parts)| == |parts|
    ensures forall p :: 0 <= p < |parts| ==> Join(parts)[p] == parts[p][0]
  {
    if parts != [] {
      JoinSingletons(parts[1..]);
    }
  }

  /** The nine characters after the prefix: position ENCODE_MAP[i] carries base-58 digit i. */
  lemma EncodeBody(aid: nat)
    ensures |Encode(aid)| == 12 && Encode(aid)[..3] == PREFIX
    ensures forall i :: 0 <= i < 9 ==> Encode(aid)[3 + ENCODE_MAP[i]] == ALPHABET[Digit(Scrambled(aid), i)]
  {
    var t := Scrambled(aid);
    var slots := Slots(t, 9);
    SlotsWritten(t, 9);
    EncodeMapIsPermutation();
    assert forall p :: 0 <= p < 9 ==> |slots[p]| == 1 by {
      forall p | 0 <= p < 9 ensures |slots[p]| == 1 {
        assert p in ENCODE_MAP;
        var i :| 0 <= i < 9 && ENCODE_MAP[i] == p;
      }
    }
    JoinSingletons(slots);
  }

  /** av2bv returns "BV1" followed by exactly nine characters of ALPHABET, whatever the id. */
  lemma EncodeShape(aid: nat)
    ensures |Encode(aid)| == 12
    ensures HasPrefix(Encode(aid))
    ensures forall j :: 3 <= j < 12 ==> Encode(aid)[j] in ALPHABET
  {
    EncodeBody(aid);
    EncodeMapIsPermutation();
    forall j | 3 <= j < 12 ensures Encode(aid)[j] in ALPHABET {
      assert j - 3 in ENCODE_MAP;
      var i :| 0 <= i < 9 && ENCODE_MAP[i] == j - 3;
    }
  }

  // ---------------------------------------------------------------------------
  // Round trip

  lemma Pow2At51()
    ensures Pow2(51) == MAX_AID
  {
    assert Pow2(10) == 1024;
    Pow2Add(10, 10);
    Pow2Add(20, 10);
    Pow2Add(30, 10);
    Pow2Add(40, 10);
    Pow2Add(50, 1);
  }

  /** For an id below 2^51, the scrambled number is bit 51 plus `aid ^ XOR_CODE`. */
  lemma ScrambledSplits(aid: nat)
    requires aid < MAX_AID
    ensures Xor(aid, XOR_CODE) < MAX_AID
    ensures Scrambled(aid) == MAX_AID + Xor(aid, XOR_CODE)
  {
    Pow2At51();
    XorBelow(aid, XOR_CODE, 51);
    OrHighBit(51, aid);
    XorHighBit(51, aid, XOR_CODE);
  }

  function Pow58(n: nat): nat
  {
    if n == 0 then 1 else 58 * Pow58(n - 1)
  }

  lemma {:induction false} ShiftedBelow(t: nat, m: nat, n: nat)
    requires n <= m && t < Pow58(m)
    ensures Shifted(t, n) < Pow58(m - n)
  {
    if n > 0 {
      ShiftedBelow(t, m, n - 1);
    }
  }

  /** Reading the nine written digits back, most significant first, rebuilds `t / 58^(9-k)`. */
  lemma {:induction false} HornerRebuilds(aid: nat, k: nat)
    requires aid < MAX_AID && k <= 9
    ensures Horner(Encode(aid)[3..], k) == Ok(Shifted(Scrambled(aid), 9 - k))
  {
    if k == 0 {
      ScrambledBelow(aid);
    } else {
      HornerRebuilds(aid, k - 1);
      HornerRound(aid, k);
    }
  }

  /** The scrambled number has nine base-58 digits: nothing is left above them. */
  lemma ScrambledBelow(aid: nat)
    requires aid < MAX_AID
    ensures Shifted(Scrambled(aid), 9) == 0
  {
    ScrambledSplits(aid);
    assert Pow58(9) == 7427658739644928 by {
      assert Pow58(7) == 2207984167552;
    }
    ShiftedBelow(Scrambled(aid), 9, 9);
  }

  /** Round k of bv2av's loop reads digit 9 - k of the scrambled number and folds it in. */
  lemma HornerRound(aid: nat, k: nat)
    requires 1 <= k <= 9
    requires Horner(Encode(aid)[3..], k - 1) == Ok(Shifted(Scrambled(aid), 10 - k))
    ensures Horner(Encode(aid)[3..], k) == Ok(Shifted(Scrambled(aid), 9 - k))
  {
    var t := Scrambled(aid);
    var rest := Encode(aid)[3..];
    var d := Digit(t, 9 - k);
    DigitAtRound(aid, k);
    IndexOfDigit(d);
    assert Read(rest, DECODE_MAP[k - 1], Shifted(t, 10 - k)) == Ok(Shifted(t, 10 - k) * 58 + d);
    BaseStep(Shifted(t, 9 - k));
  }

  /** The position round k of bv2av reads holds the character of digit 9 - k. */
  lemma DigitAtRound(aid: nat, k: nat)
    requires 1 <= k <= 9
    ensures DECODE_MAP[k - 1] < |Encode(aid)[3..]|
    ensures Encode(aid)[3..][DECODE_MAP[k - 1]] == ALPHABET[Digit(Scrambled(aid), 9 - k)]
  {
    EncodeBody(aid);
    DecodeMapIsReversal();
    assert DECODE_MAP[k - 1] == ENCODE_MAP[9 - k];
  }

  lemma BaseStep(x: nat)
    ensures (x / 58) * 58 + x % 58 == x
  {
  }

  /** bv2av inverts av2bv on every id below 2^51. */
  lemma DecodeEncode(aid: nat)
    requires aid < MAX_AID
    ensures Decode(Encode(aid)) == Ok(aid)
  {
    var bvid := Encode(aid);
    EncodeShape(aid);
    HornerRebuilds(aid, 9);
    var x := Xor(aid, XOR_CODE);
    ScrambledSplits(aid);
    Pow2At51();
    AndMaskHighBit(51, x);
    XorCancel(aid, XOR_CODE);
  }

  /** Whatever bv2av returns is below 2^51: the mask drops every higher digit. */
  lemma DecodeBelowMaxAid(bvid: string)
    ensures Decode(bvid).Ok? ==> Decode(bvid).value < MAX_AID
  {
    if Decode(bvid).Ok? {
      var tmp := Horner(bvid[3..], 9).value;
      Pow2At51();
      AndAtMost(tmp, MASK_CODE);
      XorBelow(And(tmp, MASK_CODE), XOR_CODE, 51);
    }
  }

  /** The first `k` rounds of bv2av's loop succeed exactly when each position they read exists and holds a digit. */
  lemma {:induction false} HornerOkIff(rest: string, k: nat)
    requires k <= 9
    ensures Horner(rest, k).Ok? <==> forall i :: 0 <= i < k ==> DECODE_MAP[i] < |rest| && rest[DECODE_MAP[i]] in ALPHABET
    ensures Horner(rest, k).Err? ==> !Horner(rest, k).error.BadPrefix?
  {
    if k > 0 {
      HornerOkIff(rest, k - 1);
      HornerOkStep(rest, k);
    }
  }

  /** Round k of bv2av's loop succeeds iff the rounds before it did and its character is a digit. */
  lemma HornerOkStep(rest: string, k: nat)
    requires 1 <= k <= 9
    ensures Horner(rest, k).Ok? <==>
      Horner(rest, k - 1).Ok? && DECODE_MAP[k - 1] < |rest| && rest[DECODE_MAP[k - 1]] in ALPHABET
    ensures Horner(rest, k - 1).Err? ==> Horner(rest, k) == Horner(rest, k - 1)
    ensures Horner(rest, k).Err? && Horner(rest, k - 1).Ok? ==> !Horner(rest, k).error.BadPrefix?
  {
    var p := DECODE_MAP[k - 1];
    if p < |rest| {
      IndexOfFindsFirst(ALPHABET, rest[p]);
    }
  }

  /**
    bv2av returns a number exactly when the input starts with "BV1" and the nine
    characters after it are digits; characters past the twelfth are ignored.
   */
  lemma DecodeOkIff(bvid: string)
    ensures Decode(bvid).Ok? <==> HasPrefix(bvid) && |bvid| >= 12 && forall j :: 3 <= j < 12 ==> bvid[j] in ALPHABET
    ensures Decode(bvid) == Err(BadPrefix) <==> !HasPrefix(bvid)
  {
    if HasPrefix(bvid) {
      var rest := bvid[3..];
      HornerOkIff(rest, 9);
      DecodeMapIsReversal();
      EncodeMapIsPermutation();
      if Horner(rest, 9).Ok? {
        assert DECODE_MAP[8] == 8;
        forall j | 3 <= j < 12 ensures bvid[j] in ALPHABET {
          assert j - 3 in ENCODE_MAP;
          var i :| 0 <= i < 9 && ENCODE_MAP[i] == j - 3;
          assert rest[DECODE_MAP[8 - i]] == bvid[j];
        }
      }
    }
  }

  /**
    The source's example: the id 111298867365120 is written "BV1L9Uoa9EUx",
    and that string reads back to it.
   */
  lemma EncodeExample()
    ensures 111298867365120 < MAX_AID
    ensures Encode(111298867365120) == "BV1L9Uoa9EUx"
    ensures Decode("BV1L9Uoa9EUx") == Ok(111298867365120)
  {
    ExampleXor();
    var aid := Xor(123609093261787, XOR_CODE);
    Pow2At51();
    XorBelow(123609093261787, XOR_CODE, 51);
    ScrambledSplits(aid);
    XorCancel(123609093261787, XOR_CODE);
    ExampleLayout(aid);
    DecodeEncode(aid);
  }

  /**
    123609093261787 XOR XOR_CODE is 111298867365120, worked out a byte at a
    time from the top and joined by XorConcat.
   */
  lemma ExampleXor()
    ensures Xor(123609093261787, XOR_CODE) == 111298867365120
  {
    ExampleXorFrom8();
    ExampleByte0();
    XorConcat(482848020553, 91573546060, 219, 219, 8);
  }

  /** Bits 8 and up of the example's exclusive or. */
  lemma ExampleXorFrom8()
    ensures Xor(482848020553, 91573546060) == 434761200645
  {
    ExampleXorFrom16();
    ExampleByte1();
    XorConcat(1886125080, 357709164, 73, 76, 8);
  }

  /** Bits 16 and up of the example's exclusive or. */
  lemma ExampleXorFrom16()
    ensures Xor(1886125080, 357709164) == 1698285940
  {
    ExampleXorFrom24();
    ExampleByte2();
    XorConcat(7367676, 1397301, 24, 108, 8);
  }

  /** Bits 24 and up of the example's exclusive or. */
  lemma ExampleXorFrom24()
    ensures Xor(7367676, 1397301) == 6633929
  {
    ExampleXorFrom32();
    ExampleByte3();
    XorConcat(28779, 5458, 252, 53, 8);
  }

  /** Bits 32 and up of the example's exclusive or. */
  lemma ExampleXorFrom32()
    ensures Xor(28779, 5458) == 25913
  {
    ExampleXorFrom40();
    ExampleByte4();
    XorConcat(112, 21, 107, 82, 8);
  }

  /** Bits 40 and up of the example's exclusive or. */
  lemma ExampleXorFrom40()
    ensures Xor(112, 21) == 101
  {
    ExampleByte5();
  }

  /** Byte 0 of the example's exclusive or, bit by bit from the top. */
  lemma ExampleByte0()
    ensures Xor(219, 219) == 0
  {
    assert Xor(1, 1) == 0;
    assert Xor(3, 3) == 0;
    assert Xor(6, 6) == 0;
    assert Xor(13, 13) == 0;
    assert Xor(27, 27) == 0;
    assert Xor(54, 54) == 0;
    assert Xor(109, 109) == 0;
    assert Xor(219, 219) == 0;
  }

  /** Byte 1 of the example's exclusive or, bit by bit from the top. */
  lemma ExampleByte1()
    ensures Xor(73, 76) == 5
  {
    assert Xor(0, 0) == 0;
    assert Xor(1, 1) == 0;
    assert Xor(2, 2) == 0;
    assert Xor(4, 4) == 0;
    assert Xor(9, 9) == 0;
    assert Xor(18, 19) == 1;
    assert Xor(36, 38) == 2;
    assert Xor(73, 76) == 5;
  }

  /** Byte 2 of the example's exclusive or, bit by bit from the top. */
  lemma ExampleByte2()
    ensures Xor(24, 108) == 116
  {
    assert Xor(0, 0) == 0;
    assert Xor(0, 1) == 1;
    assert Xor(0, 3) == 3;
    assert Xor(1, 6) == 7;
    assert Xor(3, 13) == 14;
    assert Xor(6, 27) == 29;
    assert Xor(12, 54) == 58;
    assert Xor(24, 108) == 116;
  }

  /** Byte 3 of the example's exclusive or, bit by bit from the top. */
  lemma ExampleByte3()
    ensures Xor(252, 53) == 201
  {
    assert Xor(1, 0) == 1;
    assert Xor(3, 0) == 3;
    assert Xor(7, 1) == 6;
    assert Xor(15, 3) == 12;
    assert Xor(31, 6) == 25;
    assert Xor(63, 13) == 50;
    assert Xor(126, 26) == 100;
    assert Xor(252, 53) == 201;
  }

  /** Byte 4 of the example's exclusive or, bit by bit from the top. */
  lemma ExampleByte4()
    ensures Xor(107, 82) == 57
  {
    assert Xor(0, 0) == 0;
    assert Xor(1, 1) == 0;
    assert Xor(3, 2) == 1;
    assert Xor(6, 5) == 3;
    assert Xor(13, 10) == 7;
    assert Xor(26, 20) == 14;
    assert Xor(53, 41) == 28;
    assert Xor(107, 82) == 57;
  }

  /** Byte 5 of the example's exclusive or, bit by bit from the top. */
  lemma ExampleByte5()
    ensures Xor(112, 21) == 101
  {
    assert Xor(0, 0) == 0;
    assert Xor(1, 0) == 1;
    assert Xor(3, 0) == 3;
    assert Xor(7, 1) == 6;
    assert Xor(14, 2) == 12;
    assert Xor(28, 5) == 25;
    assert Xor(56, 10) == 50;
    assert Xor(112, 21) == 101;
  }

  /** The digits of the example's scrambled number, placed by ENCODE_MAP. */
  lemma ExampleLayout(aid: nat)
    requires Scrambled(aid) == 2375408906947035
    ensures Encode(aid) == "BV1L9Uoa9EUx"
  {
    var t := Scrambled(aid);
    ExampleDigits();
    EncodeBody(aid);
    var e := Encode(aid);
    assert e[3] == 'L' && e[4] == '9' && e[5] == 'U' && e[6] == 'o' && e[7] == 'a';
    assert e[8] == '9' && e[9] == 'E' && e[10] == 'U' && e[11] == 'x';
  }

  lemma ExampleDigits()
    ensures Digit(2375408906947035, 0) == 25 && Digit(2375408906947035, 1) == 47
    ensures Digit(2375408906947035, 2) == 15 && Digit(2375408906947035, 3) == 52
    ensures Digit(2375408906947035, 4) == 52 && Digit(2375408906947035, 5) == 55
    ensures Digit(2375408906947035, 6) == 47 && Digit(2375408906947035, 7) == 31
    ensures Digit(2375408906947035, 8) == 18
  {
    var t := 2375408906947035;
    assert Shifted(t, 4) == 209906750;
    assert Shifted(t, 8) == 18;
  }
}
