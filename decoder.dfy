/**
  `ProtobufDecoder` of main.py: the per-element decoder, which turns the
  fields of one danmaku message into the attribute dictionary, and the
  top-level decoder, which collects the records of the field-1 sub-messages
  of a segment reply. Both are the loops of the source, proved equal to
  specifications over `Wire.Scan`.
 */
module Decoder {
  import opened Wrappers
  import opened Wire
  import opened Danmaku

  /** `field_map`: varint fields and the attribute each sets. */
  const FIELD_MAP: map<nat, Key> := map[1 := Id, 2 := Progress, 3 := Mode, 4 := FontSize, 5 := Color, 8 := Ctime, 9 := Weight, 11 := Pool]
  /** `string_map`: length-delimited fields and the attribute each sets. */
  const STRING_MAP: map<nat, Key> := map[6 := MidHash, 7 := Content, 12 := IdStr]
  /** The field of a segment reply that holds one danmaku message. */
  const ELEMS_FIELD: nat := 1

  // ---------------------------------------------------------------------------
  // Specification of decode_danmaku_element

  /** The attribute a field sets, if its number is in the map for its wire type. */
  function KeyOf(f: Field): Option<Key>
  {
    match f.payload
    case Number(_) => if f.number in FIELD_MAP then Some(FIELD_MAP[f.number]) else None
    case Bytes(_) => if f.number in STRING_MAP then Some(STRING_MAP[f.number]) else None
  }

  function ValueOf(p: Payload): Value
  {
    match p
    case Number(n) => Int(n)
    case Bytes(b) => Text(b)
  }

  /** One round of the element loop: store the field's value under its attribute, if it has one. */
  function Assign(m: Element, f: Field): Element
  {
    match KeyOf(f)
    case None => m
    case Some(k) => m[k := ValueOf(f.payload)]
  }

  /** The dictionary after the rounds for `fs`, starting from `m`. */
  function AssignAll(m: Element, fs: seq<Field>): Element
    decreases |fs|
  {
    if fs == [] then m else AssignAll(Assign(m, fs[0]), fs[1..])
  }

  /** `decode_danmaku_element(data)`: the dictionary, or None when it is empty. */
  function ElementOf(data: seq<byte>): Option<Element>
  {
    var m := AssignAll(map[], Scan(data));
    if m == map[] then None else Some(m)
  }

  // ---------------------------------------------------------------------------
  // Specification of decode_danmaku_response

  /** The record a field contributes: one for a field-1 message whose dictionary is not empty. */
  function RecordOf(f: Field): seq<Danmaku>
  {
    if f.number == ELEMS_FIELD && f.payload.Bytes? then
      match ElementOf(f.payload.bytes)
      case Some(m) => [FromElement(m)]
      case None => []
    else []
  }

  function RecordsOf(fs: seq<Field>): seq<Danmaku>
  {
    if fs == [] then [] else RecordOf(fs[0]) + RecordsOf(fs[1..])
  }

  function ResponseOf(data: seq<byte>): seq<Danmaku>
  {
    RecordsOf(Scan(data))
  }

  // ---------------------------------------------------------------------------
  // The decoders as the source writes them

  /**
    How the loops of both decoders step: the tag read at `pos` ends at `next`,
    the varint after it ends at `start`.
   */
  lemma ScanStep(data: seq<byte>, pos: nat, next: nat, start: nat, tag: VarintRead, arg: VarintRead)
    requires pos < |data|
    requires tag == ReadVarint(Drop(data, pos)) && next == pos + tag.size
    requires arg == ReadVarint(Drop(data, next)) && start == next + arg.size
    ensures tag.value % 8 == 0 ==>
      Scan(Drop(data, pos)) == [Field(tag.value / 8, Number(arg.value))] + Scan(Drop(data, start))
    ensures tag.value % 8 == 2 ==>
      Scan(Drop(data, pos)) == [Field(tag.value / 8, Bytes(Take(Drop(data, start), arg.value)))] + Scan(Drop(data, start + arg.value))
    ensures tag.value % 8 != 0 && tag.value % 8 != 2 ==> Scan(Drop(data, pos)) == []
  {
    if tag.value % 8 == 0 {
      ScanNumber(data, pos, next, start, tag, arg);
    } else if tag.value % 8 == 2 {
      ScanBytes(data, pos, next, start, tag, arg, Field(tag.value / 8, Bytes(Take(Drop(data, start), arg.value))));
    } else {
      UnknownWireStops(data, pos);
    }
  }

  lemma DropSlice(data: seq<byte>, a: nat, b: nat)
    requires b <= |Drop(data, a)|
    ensures Drop(data, a)[b..] == Drop(data, a + b)
  {
    if b > 0 {
      assert a + b <= |data|;
    }
  }

  lemma DropDrop(data: seq<byte>, a: nat, b: nat)
    ensures Drop(Drop(data, a), b) == Drop(data, a + b)
  {
    if a + b <= |data| {
      assert Drop(data, a) == data[a..];
    }
  }

  /** A varint field read at `pos` is followed by the fields after its value. */
  lemma ScanNumber(data: seq<byte>, pos: nat, next: nat, start: nat, tag: VarintRead, arg: VarintRead)
    requires pos < |data|
    requires tag == ReadVarint(Drop(data, pos)) && next == pos + tag.size && tag.value % 8 == 0
    requires arg == ReadVarint(Drop(data, next)) && start == next + arg.size
    ensures Scan(Drop(data, pos)) == [Field(tag.value / 8, Number(arg.value))] + Scan(Drop(data, start))
  {
    DropSlice(data, pos, tag.size);
    DropSlice(data, next, arg.size);
    ScanConsNumber(Drop(data, pos), tag, Drop(data, next), arg, Drop(data, start));
  }

  /** A length-delimited field read at `pos` is followed by the fields after its payload. */
  lemma ScanBytes(data: seq<byte>, pos: nat, next: nat, start: nat, tag: VarintRead, arg: VarintRead, f: Field)
    requires pos < |data|
    requires tag == ReadVarint(Drop(data, pos)) && next == pos + tag.size && tag.value % 8 == 2
    requires arg == ReadVarint(Drop(data, next)) && start == next + arg.size
    requires f == Field(tag.value / 8, Bytes(Take(Drop(data, start), arg.value)))
    ensures Scan(Drop(data, pos)) == [f] + Scan(Drop(data, start + arg.value))
  {
    DropSlice(data, pos, tag.size);
    DropSlice(data, next, arg.size);
    DropDrop(data, start, arg.value);
    ScanConsBytes(Drop(data, pos), tag, Drop(data, next), arg, Drop(data, start), Drop(data, start + arg.value));
  }

  /** The field read at `pos`, its payload taken from `start` on. */
  function FieldAt(data: seq<byte>, start: nat, tag: VarintRead, arg: VarintRead): Field
  {
    if tag.value % 8 == 0 then Field(tag.value / 8, Number(arg.value))
    else Field(tag.value / 8, Bytes(Take(Drop(data, start), arg.value)))
  }

  /**
    The element loop's invariant survives a field: a varint field is
    stepped over to `start`, a length-delimited one to `start + arg.value`,
    and `m'` is the dictionary after the field's round.
   */
  lemma ElementStep(data: seq<byte>, pos: nat, next: nat, start: nat, end: nat, tag: VarintRead, arg: VarintRead,
                    m: Element, m': Element, target: Element)
    requires pos < |data|
    requires tag == ReadVarint(Drop(data, pos)) && next == pos + tag.size
    requires arg == ReadVarint(Drop(data, next)) && start == next + arg.size
    requires tag.value % 8 == 0 || tag.value % 8 == 2
    requires end == if tag.value % 8 == 0 then start else start + arg.value
    requires m' == Assign(m, FieldAt(data, start, tag, arg))
    requires AssignAll(m, Scan(Drop(data, pos))) == target
    ensures AssignAll(m', Scan(Drop(data, end))) == target
  {
    ScanStep(data, pos, next, start, tag, arg);
    AssignFirst(m, FieldAt(data, start, tag, arg), Scan(Drop(data, end)));
  }

  /** The source's update of the dictionary for a varint field is one round of `Assign`. */
  lemma StoreNumber(m: Element, n: nat, v: nat)
    ensures n in FIELD_MAP ==> m[FIELD_MAP[n] := Int(v)] == Assign(m, Field(n, Number(v)))
    ensures n !in FIELD_MAP ==> m == Assign(m, Field(n, Number(v)))
  {
  }

  /** The source's update of the dictionary for a length-delimited field is one round of `Assign`. */
  lemma StoreBytes(m: Element, n: nat, b: seq<byte>)
    ensures n in STRING_MAP ==> m[STRING_MAP[n] := Text(b)] == Assign(m, Field(n, Bytes(b)))
    ensures n !in STRING_MAP ==> m == Assign(m, Field(n, Bytes(b)))
  {
  }

  lemma AssignFirst(m: Element, f: Field, rest: seq<Field>)
    ensures AssignAll(m, [f] + rest) == AssignAll(Assign(m, f), rest)
  {
    assert ([f] + rest)[1..] == rest;
  }

  /** The element loop stops at a wire type other than 0 and 2: nothing more is read. */
  lemma UnknownWireStops(data: seq<byte>, pos: nat)
    requires pos < |data|
    requires ReadVarint(Drop(data, pos)).value % 8 != 0 && ReadVarint(Drop(data, pos)).value % 8 != 2
    ensures Scan(Drop(data, pos)) == []
  {
    assert Drop(data, pos) != [];
  }

  /** `ProtobufDecoder.decode_danmaku_element` */
  method DecodeElement(data: seq<byte>) returns (r: Option<Element>)
    ensures r == ElementOf(data)
  {
    ghost var target := AssignAll(map[], Scan(data));
    var element: Element := map[];
    var pos := 0;
    assert Drop(data, pos) == data;
    while pos < |data|
      invariant AssignAll(element, Scan(Drop(data, pos))) == target
      decreases |data| - pos
    {
      ghost var here, before := pos, element;
      var fieldTag, next := DecodeVarint(data, pos);
      var fieldNumber, wireType := fieldTag / 8, fieldTag % 8;
      if wireType == 0 {
        var value;
        value, pos := DecodeVarint(data, next);
        StoreNumber(element, fieldNumber, value);
        if fieldNumber in FIELD_MAP {
          element := element[FIELD_MAP[fieldNumber] := Int(value)];
        }
        ElementStep(data, here, next, pos, pos, ReadVarint(Drop(data, here)), ReadVarint(Drop(data, next)), before, element, target);
      } else if wireType == 2 {
        var length, start := DecodeVarint(data, next);
        // `decode_string(data, pos, length)`, kept as bytes
        var stringValue := Take(Drop(data, start), length);
        StoreBytes(element, fieldNumber, stringValue);
        if fieldNumber in STRING_MAP {
          element := element[STRING_MAP[fieldNumber] := Text(stringValue)];
        }
        pos := start + length;
        ElementStep(data, here, next, start, pos, ReadVarint(Drop(data, here)), ReadVarint(Drop(data, next)), before, element, target);
      } else {
        UnknownWireStops(data, pos);
        break;
      }
    }
    r := if element == map[] then None else Some(element);
  }

  function Remaining(pos: nat): nat { pos }

  /**
    The reply loop's invariant: the records collected so far, followed by
    the records of the fields from `pos` on, are the reply's records. The
    quantifier only fires on `Remaining`, so the recursive definitions stay
    folded in the loop's own proof.
   */
  predicate ResponseUpTo(data: seq<byte>, pos: nat, list: seq<Danmaku>)
  {
    forall p: nat {:trigger Remaining(p)} :: p == pos ==> list + RecordsOf(Scan(Drop(data, p))) == ResponseOf(data)
  }

  lemma ResponseStart(data: seq<byte>)
    ensures ResponseUpTo(data, 0, [])
  {
    assert Remaining(0) == 0;
    assert Drop(data, 0) == data;
  }

  /** The loop ends at the end of the reply with every record collected. */
  lemma ResponseEnd(data: seq<byte>, pos: nat, list: seq<Danmaku>)
    requires ResponseUpTo(data, pos, list) && pos >= |data|
    ensures list == ResponseOf(data)
  {
    assert Remaining(pos) == pos;
    assert Drop(data, pos) == [];
  }

  /** The loop stops at a wire type other than 0 and 2 with every record collected. */
  lemma ResponseOtherStop(data: seq<byte>, pos: nat, list: seq<Danmaku>)
    requires ResponseUpTo(data, pos, list) && pos < |data|
    requires ReadVarint(Drop(data, pos)).value % 8 != 0 && ReadVarint(Drop(data, pos)).value % 8 != 2
    ensures list == ResponseOf(data)
  {
    assert Remaining(pos) == pos;
    UnknownWireStops(data, pos);
  }

  /** The reply loop's invariant survives a varint field, which is stepped over to `start`. */
  lemma ResponseNumberStep(data: seq<byte>, pos: nat, next: nat, start: nat, tag: VarintRead, arg: VarintRead, list: seq<Danmaku>)
    requires pos < |data|
    requires tag == ReadVarint(Drop(data, pos)) && next == pos + tag.size && tag.value % 8 == 0
    requires arg == ReadVarint(Drop(data, next)) && start == next + arg.size
    requires ResponseUpTo(data, pos, list)
    ensures ResponseUpTo(data, start, list)
  {
    assert Remaining(pos) == pos;
    assert Remaining(start) == start;
    ScanStep(data, pos, next, start, tag, arg);
    var f := Field(tag.value / 8, Number(arg.value));
    RecordsFirst(list, f, Scan(Drop(data, start)));
    assert list + RecordOf(f) == list;
  }

  /** The reply loop's invariant survives a length-delimited field other than field 1, which is stepped over. */
  lemma ResponseBytesStep(data: seq<byte>, pos: nat, next: nat, start: nat, end: nat, tag: VarintRead, arg: VarintRead, list: seq<Danmaku>)
    requires pos < |data|
    requires tag == ReadVarint(Drop(data, pos)) && next == pos + tag.size && tag.value % 8 == 2
    requires arg == ReadVarint(Drop(data, next)) && start == next + arg.size && end == start + arg.value
    requires tag.value / 8 != ELEMS_FIELD
    requires ResponseUpTo(data, pos, list)
    ensures ResponseUpTo(data, end, list)
  {
    assert Remaining(pos) == pos;
    assert Remaining(end) == end;
    var f := Field(tag.value / 8, Bytes(Take(Drop(data, start), arg.value)));
    ScanBytes(data, pos, next, start, tag, arg, f);
    RecordsFirst(list, f, Scan(Drop(data, end)));
    assert list + RecordOf(f) == list;
  }

  /**
    The reply loop's invariant survives a field-1 message: `list'` is `list`
    with the records `rec` the message gives appended.
   */
  lemma ResponseElementStep(data: seq<byte>, pos: nat, next: nat, start: nat, end: nat, tag: VarintRead, arg: VarintRead,
                            rec: seq<Danmaku>, list: seq<Danmaku>, list': seq<Danmaku>)
    requires pos < |data|
    requires tag == ReadVarint(Drop(data, pos)) && next == pos + tag.size && tag.value % 8 == 2
    requires arg == ReadVarint(Drop(data, next)) && start == next + arg.size && end == start + arg.value
    requires tag.value / 8 == ELEMS_FIELD && rec == RecordOf(Field(ELEMS_FIELD, Bytes(Take(Drop(data, start), arg.value))))
    requires list' == list + rec
    requires ResponseUpTo(data, pos, list)
    ensures ResponseUpTo(data, end, list')
  {
    assert Remaining(pos) == pos;
    assert Remaining(end) == end;
    var f := Field(ELEMS_FIELD, Bytes(Take(Drop(data, start), arg.value)));
    ScanBytes(data, pos, next, start, tag, arg, f);
    RecordsFirst(list, f, Scan(Drop(data, end)));
  }

  /** A field-1 message gives the record of its dictionary, or none when the dictionary is empty. */
  lemma RecordOfElement(body: seq<byte>, r: Option<Element>)
    requires r == ElementOf(body)
    ensures RecordOf(Field(ELEMS_FIELD, Bytes(body))) == if r.Some? then [FromElement(r.value)] else []
  {
  }

  lemma RecordsFirst(list: seq<Danmaku>, f: Field, rest: seq<Field>)
    ensures list + RecordsOf([f] + rest) == (list + RecordOf(f)) + RecordsOf(rest)
  {
    assert ([f] + rest)[1..] == rest;
  }

  /** `ProtobufDecoder.decode_danmaku_response` */
  method DecodeResponse(data: seq<byte>) returns (danmakuList: seq<Danmaku>)
    ensures danmakuList == ResponseOf(data)
  {
    danmakuList := [];
    var pos := 0;
    ResponseStart(data);
    while pos < |data|
      invariant ResponseUpTo(data, pos, danmakuList)
      decreases |data| - pos
    {
      var fieldTag, next := DecodeVarint(data, pos);
      var fieldNumber, wireType := fieldTag / 8, fieldTag % 8;
      if fieldNumber == ELEMS_FIELD && wireType == 2 {
        var length, start := DecodeVarint(data, next);
        var danmakuData := DecodeElement(Take(Drop(data, start), length));
        ghost var before := danmakuList;
        if danmakuData.Some? {
          danmakuList := danmakuList + [FromElement(danmakuData.value)];
        }
        ghost var here := pos;
        pos := start + length;
        RecordOfElement(Take(Drop(data, start), length), danmakuData);
        ResponseElementStep(data, here, next, start, pos, ReadVarint(Drop(data, here)), ReadVarint(Drop(data, next)),
                            RecordOf(Field(ELEMS_FIELD, Bytes(Take(Drop(data, start), length)))), before, danmakuList);
      } else if wireType == 0 {
        var _, start := DecodeVarint(data, next);
        ResponseNumberStep(data, pos, next, start, ReadVarint(Drop(data, pos)), ReadVarint(Drop(data, next)), danmakuList);
        pos := start;
      } else if wireType == 2 {
        var length, start := DecodeVarint(data, next);
        ghost var here := pos;
        pos := start + length;
        ResponseBytesStep(data, here, next, start, pos, ReadVarint(Drop(data, here)), ReadVarint(Drop(data, next)), danmakuList);
      } else {
        ResponseOtherStop(data, pos, danmakuList);
        return;
      }
    }
    ResponseEnd(data, pos, danmakuList);
  }

  // ---------------------------------------------------------------------------
  // What the element decoder promises

  /** An attribute is in the dictionary iff it was there to begin with or some field maps to it. */
  lemma {:induction false} AssignAllKeys(m: Element, fs: seq<Field>, k: Key)
    ensures k in AssignAll(m, fs) <==> k in m || exists i :: 0 <= i < |fs| && KeyOf(fs[i]) == Some(k)
    decreases |fs|
  {
    if fs != [] {
      AssignAllKeys(Assign(m, fs[0]), fs[1..], k);
      if exists i :: 0 <= i < |fs[1..]| && KeyOf(fs[1..][i]) == Some(k) {
        var i :| 0 <= i < |fs[1..]| && KeyOf(fs[1..][i]) == Some(k);
        assert KeyOf(fs[i + 1]) == Some(k);
      }
      if exists i :: 0 <= i < |fs| && KeyOf(fs[i]) == Some(k) {
        var i :| 0 <= i < |fs| && KeyOf(fs[i]) == Some(k);
        if i > 0 {
          assert KeyOf(fs[1..][i - 1]) == Some(k);
        }
      }
    }
  }

  /** A field that no later field overrides decides its attribute's value. */
  lemma {:induction false} LaterFieldWins(m: Element, fs: seq<Field>, i: nat, k: Key)
    requires i < |fs| && KeyOf(fs[i]) == Some(k)
    requires forall j :: i < j < |fs| ==> KeyOf(fs[j]) != Some(k)
    ensures k in AssignAll(m, fs) && AssignAll(m, fs)[k] == ValueOf(fs[i].payload)
    decreases |fs|
  {
    if i == 0 {
      Untouched(Assign(m, fs[0]), fs[1..], k);
    } else {
      LaterFieldWins(Assign(m, fs[0]), fs[1..], i - 1, k);
    }
  }

  /** Fields that map elsewhere leave an attribute as it was. */
  lemma {:induction false} Untouched(m: Element, fs: seq<Field>, k: Key)
    requires forall j :: 0 <= j < |fs| ==> KeyOf(fs[j]) != Some(k)
    ensures k in AssignAll(m, fs) <==> k in m
    ensures k in m ==> AssignAll(m, fs)[k] == m[k]
    decreases |fs|
  {
    if fs != [] {
      Untouched(Assign(m, fs[0]), fs[1..], k);
    }
  }

  /** No field maps to an attribute. */
  predicate NoneMapped(fs: seq<Field>)
  {
    forall i :: 0 <= i < |fs| ==> KeyOf(fs[i]).None?
  }

  /** `decode_danmaku_element` returns None exactly when no field of the message maps to an attribute. */
  lemma ElementNoneIff(data: seq<byte>)
    ensures ElementOf(data).None? <==> NoneMapped(Scan(data))
  {
    AssignAllEmpty(Scan(data));
  }

  lemma AssignAllEmpty(fs: seq<Field>)
    ensures AssignAll(map[], fs) == map[] <==> NoneMapped(fs)
  {
    if NoneMapped(fs) {
      NothingMapped(fs);
    } else {
      var i :| 0 <= i < |fs| && KeyOf(fs[i]).Some?;
      AssignAllKeys(map[], fs, KeyOf(fs[i]).value);
    }
  }

  lemma NothingMapped(fs: seq<Field>)
    requires NoneMapped(fs)
    ensures AssignAll(map[], fs) == map[]
  {
    var m := AssignAll(map[], fs);
    forall k: Key
      ensures k !in m
    {
      AssignAllKeys(map[], fs, k);
    }
    assert m.Keys == {};
  }

  /** The attributes that hold bytes: the sender hash, the content and the identifier string. */
  predicate IsTextKey(k: Key)
  {
    k == MidHash || k == Content || k == IdStr
  }

  /** Number attributes hold numbers and text attributes hold bytes. */
  predicate WellTyped(m: Element)
  {
    forall k :: k in m ==> (m[k].Text? <==> IsTextKey(k))
  }

  lemma {:induction false} AssignAllWellTyped(m: Element, fs: seq<Field>)
    requires WellTyped(m)
    ensures WellTyped(AssignAll(m, fs))
    decreases |fs|
  {
    if fs != [] {
      AssignAllWellTyped(Assign(m, fs[0]), fs[1..]);
    }
  }

  /**
    Every dictionary the element decoder returns is well typed, so the
    record built from it takes each present attribute's value and falls back
    to the default only for absent ones.
   */
  lemma ElementWellTyped(data: seq<byte>)
    ensures ElementOf(data).Some? ==> WellTyped(ElementOf(data).value)
  {
    AssignAllWellTyped(map[], Scan(data));
  }

  // ---------------------------------------------------------------------------
  // Round trips through an encoder

  /** The fields an encoder writes for one record, numbered as the element decoder reads them. */
  function DanmakuFields(d: Danmaku): seq<Field>
  {
    [Field(1, Number(d.id)), Field(2, Number(d.progress)), Field(3, Number(d.mode)), Field(4, Number(d.fontsize)),
     Field(5, Number(d.color)), Field(6, Bytes(d.midHash)), Field(7, Bytes(d.content)), Field(8, Number(d.ctime)),
     Field(9, Number(d.weight)), Field(11, Number(d.pool))]
  }

  /** The dictionary with every attribute of `d` but the identifier string. */
  function FullElement(d: Danmaku): Element
  {
    HeadElement(d)[MidHash := Text(d.midHash)][Content := Text(d.content)][Ctime := Int(d.ctime)]
      [Weight := Int(d.weight)][Pool := Int(d.pool)]
  }

  /** The dictionary after the first five fields of an encoded record. */
  function HeadElement(d: Danmaku): Element
  {
    map[Id := Int(d.id), Progress := Int(d.progress), Mode := Int(d.mode), FontSize := Int(d.fontsize),
        Color := Int(d.color)]
  }

  /** A dictionary with every attribute builds the record those attributes describe. */
  lemma FromFullElement(d: Danmaku)
    ensures FromElement(FullElement(d)) == d
  {
  }

  /** The dictionary the element decoder builds from an encoded record: every attribute, from its own field. */
  lemma EncodedElement(d: Danmaku)
    ensures AssignAll(map[], DanmakuFields(d)) == FullElement(d)
  {
    EncodedHead(d);
    EncodedTail(d);
  }

  lemma EncodedHead(d: Danmaku)
    ensures AssignAll(map[], DanmakuFields(d)) == AssignAll(HeadElement(d), DanmakuFields(d)[5..])
  {
    var fs := DanmakuFields(d);
    var m0: Element := map[];
    var m1 := m0[Id := Int(d.id)];
    var m2 := m1[Progress := Int(d.progress)];
    var m3 := m2[Mode := Int(d.mode)];
    var m4 := m3[FontSize := Int(d.fontsize)];
    AssignAllFrom(m0, fs, 0, Id, Int(d.id));
    AssignAllFrom(m1, fs, 1, Progress, Int(d.progress));
    AssignAllFrom(m2, fs, 2, Mode, Int(d.mode));
    AssignAllFrom(m3, fs, 3, FontSize, Int(d.fontsize));
    AssignAllFrom(m4, fs, 4, Color, Int(d.color));
    assert fs[0..] == fs;
  }

  lemma EncodedTail(d: Danmaku)
    ensures AssignAll(HeadElement(d), DanmakuFields(d)[5..]) == FullElement(d)
  {
    var fs := DanmakuFields(d);
    var m5 := HeadElement(d);
    var m6 := m5[MidHash := Text(d.midHash)];
    var m7 := m6[Content := Text(d.content)];
    var m8 := m7[Ctime := Int(d.ctime)];
    var m9 := m8[Weight := Int(d.weight)];
    AssignAllFrom(m5, fs, 5, MidHash, Text(d.midHash));
    AssignAllFrom(m6, fs, 6, Content, Text(d.content));
    AssignAllFrom(m7, fs, 7, Ctime, Int(d.ctime));
    AssignAllFrom(m8, fs, 8, Weight, Int(d.weight));
    AssignAllFrom(m9, fs, 9, Pool, Int(d.pool));
    assert fs[10..] == [];
  }

  lemma AssignAllFrom(m: Element, fs: seq<Field>, i: nat, k: Key, v: Value)
    requires i < |fs| && KeyOf(fs[i]) == Some(k) && ValueOf(fs[i].payload) == v
    ensures AssignAll(m, fs[i..]) == AssignAll(m[k := v], fs[i + 1..])
  {
    assert fs[i..][1..] == fs[i + 1..];
  }

  /** Decoding an encoded record gives back that record, whatever its attributes. */
  lemma ElementRoundTrip(d: Danmaku)
    ensures ElementOf(EncodeFields(DanmakuFields(d))).Some?
    ensures FromElement(ElementOf(EncodeFields(DanmakuFields(d))).value) == d
  {
    var e := EncodeFields(DanmakuFields(d));
    ScanEncoded(DanmakuFields(d));
    EncodedElement(d);
    assert Id in FullElement(d);
    assert ElementOf(e) == Some(FullElement(d));
    FromFullElement(d);
  }

  /** The reply an encoder writes for a list of records: one field-1 message per record. */
  function ResponseFields(ds: seq<Danmaku>): (fs: seq<Field>)
    ensures |fs| == |ds|
  {
    if ds == [] then [] else [Field(ELEMS_FIELD, Bytes(EncodeFields(DanmakuFields(ds[0]))))] + ResponseFields(ds[1..])
  }

  /** Decoding an encoded reply gives back its records, in order. */
  lemma {:induction false} ResponseRoundTrip(ds: seq<Danmaku>)
    ensures ResponseOf(EncodeFields(ResponseFields(ds))) == ds
  {
    ScanEncoded(ResponseFields(ds));
    RecordsOfResponseFields(ds);
  }

  lemma {:induction false} RecordsOfResponseFields(ds: seq<Danmaku>)
    ensures RecordsOf(ResponseFields(ds)) == ds
  {
    if ds != [] {
      var fs := ResponseFields(ds);
      RecordOfEncoded(ds[0]);
      RecordsOfResponseFields(ds[1..]);
      assert fs[1..] == ResponseFields(ds[1..]);
      assert RecordsOf(fs) == [ds[0]] + ds[1..];
    }
  }

  /** The field-1 message an encoder writes for a record gives back that record. */
  lemma RecordOfEncoded(d: Danmaku)
    ensures RecordOf(Field(ELEMS_FIELD, Bytes(EncodeFields(DanmakuFields(d))))) == [d]
  {
    ElementRoundTrip(d);
  }

  /** The records of consecutive fields are the records of each part, in order. */
  lemma {:induction false} RecordsOfAppend(xs: seq<Field>, ys: seq<Field>)
    ensures RecordsOf(xs + ys) == RecordsOf(xs) + RecordsOf(ys)
  {
    if xs == [] {
      assert xs + ys == ys;
    } else {
      RecordsOfAppend(xs[1..], ys);
      RecordsCons(xs, ys);
      var a, b, c := RecordOf(xs[0]), RecordsOf(xs[1..]), RecordsOf(ys);
      assert a + (b + c) == (a + b) + c;
    }
  }

  lemma RecordsCons(xs: seq<Field>, ys: seq<Field>)
    requires xs != []
    ensures RecordsOf(xs + ys) == RecordOf(xs[0]) + RecordsOf(xs[1..] + ys)
  {
    assert (xs + ys)[0] == xs[0];
    assert (xs + ys)[1..] == xs[1..] + ys;
  }

  /**
    Decoding stops at a tag of another wire type: whatever follows it, only the
    records before it are returned.
   */
  lemma ResponseStopsAtOtherWire(fs: seq<Field>, later: seq<byte>)
    requires later != [] && ReadVarint(later).value % 8 != 0 && ReadVarint(later).value % 8 != 2
    ensures ResponseOf(EncodeFields(fs) + later) == RecordsOf(fs)
  {
    ScanEncodeFields(fs, later);
    assert fs + [] == fs;
  }

  /** The element decoder likewise ignores everything from a tag of another wire type on. */
  lemma ElementStopsAtOtherWire(fs: seq<Field>, later: seq<byte>)
    requires later != [] && ReadVarint(later).value % 8 != 0 && ReadVarint(later).value % 8 != 2
    ensures ElementOf(EncodeFields(fs) + later) == ElementOf(EncodeFields(fs))
  {
    ScanEncodeFields(fs, later);
    ScanEncoded(fs);
    assert fs + [] == fs;
  }

  /** Fields other than field-1 messages yield no records. */
  lemma {:induction false} OtherFieldsSkipped(fs: seq<Field>)
    requires forall i :: 0 <= i < |fs| ==> fs[i].number != ELEMS_FIELD || fs[i].payload.Number?
    ensures RecordsOf(fs) == []
  {
    if fs != [] {
      OtherFieldsSkipped(fs[1..]);
    }
  }
}
