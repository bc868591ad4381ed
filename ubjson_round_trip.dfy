/**
 * Decoding what the writer encodes gives back the value tree, in every compression
 * mode and whatever bytes follow; and what the writer as written does to integers
 * outside the 32-bit range.
 */
module UbjsonRoundTrip {
  import opened UBMarker
  import opened UBTyping
  import opened JsonValue
  import opened BigEndian
  import opened Sequences
  import opened UbjsonWriting
  import opened UbjsonReading

  /** The payload bytes of an integer marker, read back as the decoder reads them, give the value. */
  lemma PayloadRoundTrip(v: int, m: byte)
    requires IsIntMarker(m) && InRange(m, v)
    ensures (if m == U_INT8 then Unsigned(Bytes(v, IntWidth(m))) else Signed(Bytes(v, IntWidth(m)))) == v
  {
    Pow256Values();
    if m == U_INT8 {
      UnsignedRoundTrip(v, 1);
    } else {
      SignedBytes(v, IntWidth(m));
    }
  }

  /** A raw integer payload of a marker whose range holds the value reads back as that value. */
  lemma RawIntRoundTrip(v: Int64, m: byte, tail: seq<byte>)
    requires IsIntMarker(m) && InRange(m, v)
    ensures DecodeInt(Bytes(v, IntWidth(m)) + tail, m) == Ok(v, tail)
  {
    var w := IntWidth(m);
    var s := Bytes(v, w) + tail;
    assert s[..w] == Bytes(v, w) && s[w..] == tail;
    PayloadRoundTrip(v, m);
  }

  /** The same payload read as a value of that marker. */
  lemma RawIntValueRoundTrip(v: Int64, m: byte, tail: seq<byte>)
    requires IsIntMarker(m) && InRange(m, v)
    ensures DecodeValueOf(Bytes(v, IntWidth(m)) + tail, m) == Ok(Int(v), tail)
  {
    RawIntRoundTrip(v, m, tail);
    if m == INT8 {
      var s := Bytes(v, 1) + tail;
      assert [s[0]] == Bytes(v, 1) && s[1..] == tail;
      PayloadRoundTrip(v, m);
    }
  }

  /** `writeInt` followed by `readInt()`. */
  lemma IntRoundTrip(v: Int64, tail: seq<byte>)
    ensures DecodeAnyInt(EncodeInt(v) + tail) == Ok(v, tail)
    ensures DecodeValue(EncodeInt(v) + tail) == Ok(Int(v), tail)
  {
    var m := NumberType(v, v);
    EncodeIntShape(v);
    NumberTypeCovers(v, v, v);
    RawIntRoundTrip(v, m, tail);
    RawIntValueRoundTrip(v, m, tail);
    AppendAssoc([m], Bytes(v, IntWidth(m)), tail);
  }

  /** `writeRawString` followed by `readString()`. */
  lemma StringRoundTrip(bs: seq<byte>, tail: seq<byte>)
    requires |bs| <= INT_32_MAX
    ensures DecodeString(EncodeRawString(bs) + tail) == Ok(bs, tail)
  {
    IntRoundTrip(|bs|, bs + tail);
    AppendAssoc(EncodeInt(|bs|), bs, tail);
    assert (bs + tail)[..|bs|] == bs && (bs + tail)[|bs|..] == tail;
  }

  /** The headline property: decoding an encoded tree gives back the tree and consumes exactly its encoding. */
  lemma {:induction false} ValueRoundTrip(v: Value, t: Typing, tail: seq<byte>)
    requires Encodable(v)
    ensures DecodeValue(EncodeValue(v, t) + tail) == Ok(v, tail)
    decreases v, 1
  {
    match v
    case Null =>
      MarkedValue(NULL, [], tail);
      assert DecodeValueOf([] + tail, NULL) == Ok(Null, tail);
    case Bool(b) =>
      MarkedValue(if b then TRUE else FALSE, [], tail);
      assert DecodeValueOf([] + tail, if b then TRUE else FALSE) == Ok(Bool(b), tail);
    case Int(n) => IntRoundTrip(n, tail);
    case Str(bs) => StrValueRoundTrip(bs, t, tail);
    case Array(es) => ArrayValueRoundTrip(es, t, tail);
    case Object(ms) => ObjectValueRoundTrip(ms, t, tail);
  }

  lemma StrValueRoundTrip(bs: seq<byte>, t: Typing, tail: seq<byte>)
    requires |bs| <= INT_32_MAX
    ensures DecodeValue(EncodeValue(Str(bs), t) + tail) == Ok(Str(bs), tail)
  {
    assert EncodeValue(Str(bs), t) == [STRING] + EncodeRawString(bs);
    StringRoundTrip(bs, tail);
    MarkedValue(STRING, EncodeRawString(bs), tail);
  }

  lemma {:induction false} ArrayValueRoundTrip(es: seq<Value>, t: Typing, tail: seq<byte>)
    requires |es| <= INT_32_MAX && EncodableElems(es)
    ensures DecodeValue(EncodeValue(Array(es), t) + tail) == Ok(Array(es), tail)
    decreases es, 3
  {
    assert EncodeValue(Array(es), t) == [ARRAY_START] + EncodeRawArray(es, t);
    RawArrayRoundTrip(es, t, tail);
    MarkedValue(ARRAY_START, EncodeRawArray(es, t), tail);
  }

  lemma {:induction false} ObjectValueRoundTrip(ms: seq<Member>, t: Typing, tail: seq<byte>)
    requires |ms| <= INT_32_MAX && EncodableMembers(ms)
    ensures DecodeValue(EncodeValue(Object(ms), t) + tail) == Ok(Object(ms), tail)
    decreases ms, 3
  {
    assert EncodeValue(Object(ms), t) == [OBJ_START] + EncodeRawObject(ms, t);
    RawObjectRoundTrip(ms, t, tail);
    MarkedValue(OBJ_START, EncodeRawObject(ms, t), tail);
  }

  /** A marker followed by a body decodes as the body read with that marker. */
  lemma MarkedValue(m: byte, body: seq<byte>, tail: seq<byte>)
    ensures DecodeValue([m] + body + tail) == DecodeValueOf(body + tail, m)
  {
    AppendAssoc([m], body, tail);
    assert ([m] + (body + tail))[1..] == body + tail;
  }

  /** A complete encoding decodes with no input left over. */
  lemma DecodeEncode(v: Value, t: Typing)
    requires Encodable(v)
    ensures DecodeValue(EncodeValue(v, t)) == Ok(v, [])
  {
    ValueRoundTrip(v, t, []);
    assert EncodeValue(v, t) + [] == EncodeValue(v, t);
  }

  /** A payload written for a shared container type reads back with that type as its marker. */
  lemma {:induction false} RawRoundTrip(v: Value, ty: byte, t: Typing, tail: seq<byte>)
    requires Encodable(v) && FitsType(v, ty)
    ensures DecodeValueOf(EncodeRaw(v, ty, t) + tail, ty) == Ok(v, tail)
    decreases v, 1
  {
    if IsIntMarker(ty) {
      RawIntValueRoundTrip(v.n, ty, tail);
    } else if ty == STRING {
      assert EncodeRaw(v, ty, t) == EncodeRawString(v.bytes);
      StringRoundTrip(v.bytes, tail);
    } else if ty == ARRAY_START {
      var body := EncodeRawArray(v.elems, t);
      assert EncodeRaw(v, ty, t) == body;
      assert DecodeValueOf(body + tail, ty) == DecodeArray(body + tail);
      RawArrayRoundTrip(v.elems, t, tail);
    } else if ty == OBJ_START {
      var body := EncodeRawObject(v.members, t);
      assert EncodeRaw(v, ty, t) == body;
      assert DecodeValueOf(body + tail, ty) == DecodeObject(body + tail);
      RawObjectRoundTrip(v.members, t, tail);
    } else {
      assert EncodeRaw(v, ty, t) + tail == tail;
    }
  }

  // Decoder steps: each unfolds one decoding function once, over abstract inputs.

  lemma GenericArrayStep(s: seq<byte>, es: seq<Value>, tail: seq<byte>)
    requires |s| > 0 && s[0] != OPTIMIZED_TYPE && s[0] != OPTIMIZED_SIZE
    requires DecodeGenericElems(s[1..], s[0]) == Ok(es, tail)
    ensures DecodeArray(s) == Ok(Array(es), tail)
  {
  }

  lemma SizedArrayStep(x: seq<byte>, n: int, y: seq<byte>, es: seq<Value>, tail: seq<byte>)
    requires DecodeAnyInt(x) == Ok(n, y) && 0 <= n <= INT_32_MAX
    requires DecodeSizedElems(y, n) == Ok(es, tail)
    ensures DecodeArray([OPTIMIZED_SIZE] + x) == Ok(Array(es), tail)
  {
    assert ([OPTIMIZED_SIZE] + x)[1..] == x;
  }

  lemma OptimizedArrayStep(ty: byte, x: seq<byte>, n: int, y: seq<byte>, es: seq<Value>, tail: seq<byte>)
    requires DecodeAnyInt(x) == Ok(n, y) && 0 <= n <= INT_32_MAX
    requires DecodeOptimizedElems(y, ty, n) == Ok(es, tail)
    ensures DecodeArray([OPTIMIZED_TYPE, ty, OPTIMIZED_SIZE] + x) == Ok(Array(es), tail)
  {
    var s := [OPTIMIZED_TYPE, ty, OPTIMIZED_SIZE] + x;
    assert s[1..][1..][1..] == x;
  }

  lemma GenericElemsStep(s: seq<byte>, v: Value, r: seq<byte>, vs: seq<Value>, tail: seq<byte>)
    requires |s| > 0 && s[0] != ARRAY_END && DecodeValue(s) == Ok(v, r)
    requires |r| > 0 && DecodeGenericElems(r[1..], r[0]) == Ok(vs, tail)
    ensures DecodeGenericElems(s[1..], s[0]) == Ok([v] + vs, tail)
  {
  }

  lemma SizedElemsStep(s: seq<byte>, n: nat, v: Value, r: seq<byte>, vs: seq<Value>, tail: seq<byte>)
    requires n > 0 && DecodeValue(s) == Ok(v, r) && DecodeSizedElems(r, n - 1) == Ok(vs, tail)
    ensures DecodeSizedElems(s, n) == Ok([v] + vs, tail)
  {
  }

  lemma OptimizedElemsStep(s: seq<byte>, ty: byte, n: nat, v: Value, r: seq<byte>, vs: seq<Value>, tail: seq<byte>)
    requires n > 0 && DecodeValueOf(s, ty) == Ok(v, r) && DecodeOptimizedElems(r, ty, n - 1) == Ok(vs, tail)
    ensures DecodeOptimizedElems(s, ty, n) == Ok([v] + vs, tail)
  {
  }

  lemma GenericObjectStep(s: seq<byte>, ms: seq<Member>, tail: seq<byte>)
    requires |s| > 0 && s[0] != OPTIMIZED_TYPE && s[0] != OPTIMIZED_SIZE
    requires DecodeGenericMembers(s[1..], s[0]) == Ok(ms, tail)
    ensures DecodeObject(s) == Ok(Object(ms), tail)
  {
  }

  lemma SizedObjectStep(x: seq<byte>, n: int, y: seq<byte>, ms: seq<Member>, tail: seq<byte>)
    requires DecodeAnyInt(x) == Ok(n, y) && 0 <= n <= INT_32_MAX
    requires DecodeSizedMembers(y, n) == Ok(ms, tail)
    ensures DecodeObject([OPTIMIZED_SIZE] + x) == Ok(Object(ms), tail)
  {
    assert ([OPTIMIZED_SIZE] + x)[1..] == x;
  }

  lemma OptimizedObjectStep(ty: byte, x: seq<byte>, n: int, y: seq<byte>, ms: seq<Member>, tail: seq<byte>)
    requires DecodeAnyInt(x) == Ok(n, y) && 0 <= n <= INT_32_MAX
    requires DecodeOptimizedMembers(y, ty, n) == Ok(ms, tail)
    ensures DecodeObject([OPTIMIZED_TYPE, ty, OPTIMIZED_SIZE] + x) == Ok(Object(ms), tail)
  {
    var s := [OPTIMIZED_TYPE, ty, OPTIMIZED_SIZE] + x;
    assert s[1..][1..][1..] == x;
  }

  lemma GenericMembersStep(s: seq<byte>, key: seq<byte>, x: seq<byte>, v: Value, r: seq<byte>,
                           ms: seq<Member>, tail: seq<byte>)
    requires |s| > 0 && s[0] != OBJ_END && DecodeString(s) == Ok(key, x) && DecodeValue(x) == Ok(v, r)
    requires |r| > 0 && DecodeGenericMembers(r[1..], r[0]) == Ok(ms, tail)
    ensures DecodeGenericMembers(s[1..], s[0]) == Ok([Member(key, v)] + ms, tail)
  {
  }

  lemma SizedMembersStep(s: seq<byte>, n: nat, key: seq<byte>, x: seq<byte>, v: Value, r: seq<byte>,
                         ms: seq<Member>, tail: seq<byte>)
    requires DecodeString(s) == Ok(key, x) && DecodeValue(x) == Ok(v, r)
    requires DecodeSizedMembers(r, n) == Ok(ms, tail)
    ensures DecodeSizedMembers(s, n + 1) == Ok([Member(key, v)] + ms, tail)
  {
  }

  lemma OptimizedMembersStep(s: seq<byte>, ty: byte, n: nat, key: seq<byte>, x: seq<byte>, v: Value,
                             r: seq<byte>, ms: seq<Member>, tail: seq<byte>)
    requires DecodeString(s) == Ok(key, x) && DecodeValueOf(x, ty) == Ok(v, r)
    requires DecodeOptimizedMembers(r, ty, n) == Ok(ms, tail)
    ensures DecodeOptimizedMembers(s, ty, n + 1) == Ok([Member(key, v)] + ms, tail)
  {
  }

  /** `a + b + c + d` regrouped to the right. */
  lemma Regroup(a: seq<byte>, b: seq<byte>, c: seq<byte>, d: seq<byte>)
    ensures a + b + c + d == a + (b + (c + d))
  {
    AppendAssoc(a, b, c);
    AppendAssoc(a, b + c, d);
    AppendAssoc(b, c, d);
  }

  // The encoder's framings, one lemma per framing.

  lemma {:induction false} RawArrayRoundTrip(es: seq<Value>, t: Typing, tail: seq<byte>)
    requires |es| <= INT_32_MAX && EncodableElems(es)
    ensures DecodeArray(EncodeRawArray(es, t) + tail) == Ok(Array(es), tail)
    decreases es, 2
  {
    if |es| == 0 {
      assert ([ARRAY_END] + tail)[1..] == tail;
    } else if t == WEAK || (CompressionType(es, t) == 0 && t == COMPRESSED) {
      GenericElemsRoundTrip(es, t, tail);
      GenericArrayStep(EncodeGenericArray(es, t) + tail, es, tail);
    } else if CompressionType(es, t) == 0 {
      var count, body := EncodeInt(|es|), EncodeValues(es, t);
      Regroup([OPTIMIZED_SIZE], count, body, tail);
      IntRoundTrip(|es|, body + tail);
      SizedElemsRoundTrip(es, t, tail);
      SizedArrayStep(count + (body + tail), |es|, body + tail, es, tail);
    } else {
      var ty := CompressionType(es, t);
      CompressionTypeFits(es, t);
      var count, body := EncodeInt(|es|), EncodeRaws(es, ty, t);
      Regroup([OPTIMIZED_TYPE, ty, OPTIMIZED_SIZE], count, body, tail);
      IntRoundTrip(|es|, body + tail);
      OptimizedElemsRoundTrip(es, ty, t, tail);
      OptimizedArrayStep(ty, count + (body + tail), |es|, body + tail, es, tail);
    }
  }

  lemma {:induction false} GenericElemsRoundTrip(es: seq<Value>, t: Typing, tail: seq<byte>)
    requires EncodableElems(es)
    ensures var s := EncodeValues(es, t) + [ARRAY_END] + tail;
      |s| > 0 && s[0] != OPTIMIZED_TYPE && s[0] != OPTIMIZED_SIZE
      && DecodeGenericElems(s[1..], s[0]) == Ok(es, tail)
    decreases es, 0
  {
    var s := EncodeValues(es, t) + [ARRAY_END] + tail;
    if es == [] {
      assert s == [ARRAY_END] + tail;
      assert s[1..] == tail;
    } else {
      var e, more := EncodeValue(es[0], t), EncodeValues(es[1..], t);
      var r := more + [ARRAY_END] + tail;
      Regroup(e, more, [ARRAY_END], tail);
      AppendAssoc(more, [ARRAY_END], tail);
      EncodeValueHead(es[0], t);
      ValueMarkersAreNotFraming(e[0]);
      ValueRoundTrip(es[0], t, r);
      GenericElemsRoundTrip(es[1..], t, tail);
      GenericElemsStep(s, es[0], r, es[1..], tail);
      assert [es[0]] + es[1..] == es;
    }
  }

  lemma {:induction false} SizedElemsRoundTrip(es: seq<Value>, t: Typing, tail: seq<byte>)
    requires EncodableElems(es)
    ensures DecodeSizedElems(EncodeValues(es, t) + tail, |es|) == Ok(es, tail)
    decreases es, 0
  {
    if es != [] {
      var e, more := EncodeValue(es[0], t), EncodeValues(es[1..], t);
      AppendAssoc(e, more, tail);
      ValueRoundTrip(es[0], t, more + tail);
      SizedElemsRoundTrip(es[1..], t, tail);
      SizedElemsStep(e + (more + tail), |es|, es[0], more + tail, es[1..], tail);
      assert [es[0]] + es[1..] == es;
    }
  }

  lemma {:induction false} OptimizedElemsRoundTrip(es: seq<Value>, ty: byte, t: Typing, tail: seq<byte>)
    requires EncodableElems(es) && forall i :: 0 <= i < |es| ==> FitsType(es[i], ty)
    ensures DecodeOptimizedElems(EncodeRaws(es, ty, t) + tail, ty, |es|) == Ok(es, tail)
    decreases es, 0
  {
    if es != [] {
      var e, more := EncodeRaw(es[0], ty, t), EncodeRaws(es[1..], ty, t);
      AppendAssoc(e, more, tail);
      RawRoundTrip(es[0], ty, t, more + tail);
      OptimizedElemsRoundTrip(es[1..], ty, t, tail);
      OptimizedElemsStep(e + (more + tail), ty, |es|, es[0], more + tail, es[1..], tail);
      assert [es[0]] + es[1..] == es;
    }
  }

  lemma {:induction false} RawObjectRoundTrip(ms: seq<Member>, t: Typing, tail: seq<byte>)
    requires |ms| <= INT_32_MAX && EncodableMembers(ms)
    ensures DecodeObject(EncodeRawObject(ms, t) + tail) == Ok(Object(ms), tail)
    decreases ms, 2
  {
    if |ms| == 0 {
      assert ([OBJ_END] + tail)[1..] == tail;
    } else if t == WEAK || (CompressionType(Values(ms), t) == 0 && t == COMPRESSED) {
      GenericMembersRoundTrip(ms, t, tail);
      GenericObjectStep(EncodeGenericObject(ms, t) + tail, ms, tail);
    } else if CompressionType(Values(ms), t) == 0 {
      var count, body := EncodeInt(|ms|), EncodeMembers(ms, t);
      Regroup([OPTIMIZED_SIZE], count, body, tail);
      IntRoundTrip(|ms|, body + tail);
      SizedMembersRoundTrip(ms, t, tail);
      SizedObjectStep(count + (body + tail), |ms|, body + tail, ms, tail);
    } else {
      var ty := CompressionType(Values(ms), t);
      CompressionTypeFits(Values(ms), t);
      var count, body := EncodeInt(|ms|), EncodeRawMembers(ms, ty, t);
      Regroup([OPTIMIZED_TYPE, ty, OPTIMIZED_SIZE], count, body, tail);
      IntRoundTrip(|ms|, body + tail);
      OptimizedMembersRoundTrip(ms, ty, t, tail);
      OptimizedObjectStep(ty, count + (body + tail), |ms|, body + tail, ms, tail);
    }
  }

  lemma {:induction false} GenericMembersRoundTrip(ms: seq<Member>, t: Typing, tail: seq<byte>)
    requires EncodableMembers(ms)
    ensures var s := EncodeMembers(ms, t) + [OBJ_END] + tail;
      |s| > 0 && s[0] != OPTIMIZED_TYPE && s[0] != OPTIMIZED_SIZE
      && DecodeGenericMembers(s[1..], s[0]) == Ok(ms, tail)
    decreases ms, 1
  {
    var s := EncodeMembers(ms, t) + [OBJ_END] + tail;
    if ms == [] {
      assert s == [OBJ_END] + tail;
      assert s[1..] == tail;
    } else {
      GenericMembersRoundTrip(ms[1..], t, tail);
      GenericMembersFront(ms, t, tail, EncodeMembers(ms[1..], t) + [OBJ_END] + tail, s);
    }
  }

  lemma {:induction false} GenericMembersFront(ms: seq<Member>, t: Typing, tail: seq<byte>, r: seq<byte>, s: seq<byte>)
    requires ms != [] && EncodableMembers(ms)
    requires r == EncodeMembers(ms[1..], t) + [OBJ_END] + tail && s == EncodeMembers(ms, t) + [OBJ_END] + tail
    requires |r| > 0 && DecodeGenericMembers(r[1..], r[0]) == Ok(ms[1..], tail)
    ensures |s| > 0 && s[0] != OPTIMIZED_TYPE && s[0] != OPTIMIZED_SIZE
    ensures DecodeGenericMembers(s[1..], s[0]) == Ok(ms, tail)
    decreases ms, 0
  {
    MembersCons(ms, t);
    GenericMemberCons(ms[0], ms[1..], ms, t, EncodeMembers(ms[1..], t), tail, r, s);
  }

  /** The first member's encoding in front of the rest's. */
  lemma MembersCons(ms: seq<Member>, t: Typing)
    requires ms != [] && EncodableMembers(ms)
    ensures ms == [ms[0]] + ms[1..] && |ms[0].key| <= INT_32_MAX && Encodable(ms[0].value)
    ensures EncodeMembers(ms, t) == EncodeRawString(ms[0].key) + EncodeValue(ms[0].value, t) + EncodeMembers(ms[1..], t)
  {
  }

  /** One more member `m` in front of generic members `rest` that already decode up to the closing marker. */
  lemma {:induction false} GenericMemberCons(m: Member, rest: seq<Member>, ms: seq<Member>, t: Typing,
                                             more: seq<byte>, tail: seq<byte>, r: seq<byte>, s: seq<byte>)
    requires |m.key| <= INT_32_MAX && Encodable(m.value) && ms == [m] + rest
    requires r == more + [OBJ_END] + tail
    requires s == EncodeRawString(m.key) + EncodeValue(m.value, t) + more + [OBJ_END] + tail
    requires |r| > 0 && DecodeGenericMembers(r[1..], r[0]) == Ok(rest, tail)
    ensures |s| > 0 && s[0] != OPTIMIZED_TYPE && s[0] != OPTIMIZED_SIZE
    ensures DecodeGenericMembers(s[1..], s[0]) == Ok(ms, tail)
    decreases m, 0
  {
    var k, v := EncodeRawString(m.key), EncodeValue(m.value, t);
    AppendAssoc(k + v + more, [OBJ_END], tail);
    AppendAssoc(more, [OBJ_END], tail);
    Regroup(k, v, more, [OBJ_END] + tail);
    assert s == k + (v + r);
    EncodeIntShape(|m.key|);
    assert s[0] == NumberType(|m.key|, |m.key|);
    StringRoundTrip(m.key, v + r);
    ValueRoundTrip(m.value, t, r);
    GenericMembersStep(s, m.key, v + r, m.value, r, rest, tail);
  }

  lemma {:induction false} SizedMembersRoundTrip(ms: seq<Member>, t: Typing, tail: seq<byte>)
    requires EncodableMembers(ms)
    ensures DecodeSizedMembers(EncodeMembers(ms, t) + tail, |ms|) == Ok(ms, tail)
    decreases ms, 0
  {
    if ms != [] {
      SizedMembersRoundTrip(ms[1..], t, tail);
      assert [ms[0]] + ms[1..] == ms;
      assert EncodeMembers(ms, t) == EncodeRawString(ms[0].key) + EncodeValue(ms[0].value, t) + EncodeMembers(ms[1..], t);
      SizedMemberCons(ms[0], ms[1..], ms, t, EncodeMembers(ms[1..], t), tail, EncodeMembers(ms, t) + tail, |ms|);
    }
  }

  /** One more member `m` in front of sized members `rest` that already decode. */
  lemma {:induction false} SizedMemberCons(m: Member, rest: seq<Member>, ms: seq<Member>, t: Typing,
                                           more: seq<byte>, tail: seq<byte>, s: seq<byte>, n: nat)
    requires |m.key| <= INT_32_MAX && Encodable(m.value)
    requires ms == [m] + rest && n == |rest| + 1
    requires s == EncodeRawString(m.key) + EncodeValue(m.value, t) + more + tail
    requires DecodeSizedMembers(more + tail, |rest|) == Ok(rest, tail)
    ensures DecodeSizedMembers(s, n) == Ok(ms, tail)
    decreases m, 0
  {
    var k, v := EncodeRawString(m.key), EncodeValue(m.value, t);
    Regroup(k, v, more, tail);
    StringRoundTrip(m.key, v + (more + tail));
    ValueRoundTrip(m.value, t, more + tail);
    SizedMembersStep(s, |rest|, m.key, v + (more + tail), m.value, more + tail, rest, tail);
  }

  lemma {:induction false} OptimizedMembersRoundTrip(ms: seq<Member>, ty: byte, t: Typing, tail: seq<byte>)
    requires EncodableMembers(ms)
    requires forall i :: 0 <= i < |ms| ==> FitsType(ms[i].value, ty)
    ensures DecodeOptimizedMembers(EncodeRawMembers(ms, ty, t) + tail, ty, |ms|) == Ok(ms, tail)
    decreases ms, 1
  {
    if ms != [] {
      AllFitTail(ms, ty);
      OptimizedMembersRoundTrip(ms[1..], ty, t, tail);
      OptimizedMembersFront(ms, ty, t, tail);
    }
  }

  lemma {:induction false} OptimizedMembersFront(ms: seq<Member>, ty: byte, t: Typing, tail: seq<byte>)
    requires ms != [] && EncodableMembers(ms) && FitsType(ms[0].value, ty)
    requires forall i :: 0 <= i < |ms| ==> FitsType(ms[i].value, ty)
    requires forall i :: 0 <= i < |ms[1..]| ==> FitsType(ms[1..][i].value, ty)
    requires DecodeOptimizedMembers(EncodeRawMembers(ms[1..], ty, t) + tail, ty, |ms[1..]|) == Ok(ms[1..], tail)
    ensures DecodeOptimizedMembers(EncodeRawMembers(ms, ty, t) + tail, ty, |ms|) == Ok(ms, tail)
    decreases ms, 0
  {
    RawMembersCons(ms, ty, t);
    OptimizedMemberCons(ms[0], ms[1..], ms, ty, t, EncodeRawMembers(ms[1..], ty, t), tail,
                        EncodeRawMembers(ms, ty, t) + tail, |ms|);
  }

  /** The first member's key and payload in front of the rest's. */
  lemma RawMembersCons(ms: seq<Member>, ty: byte, t: Typing)
    requires ms != [] && EncodableMembers(ms) && FitsType(ms[0].value, ty)
    requires forall i :: 0 <= i < |ms| ==> FitsType(ms[i].value, ty)
    requires forall i :: 0 <= i < |ms[1..]| ==> FitsType(ms[1..][i].value, ty)
    ensures ms == [ms[0]] + ms[1..] && |ms[0].key| <= INT_32_MAX && Encodable(ms[0].value)
    ensures EncodeRawMembers(ms, ty, t)
      == EncodeRawString(ms[0].key) + EncodeRaw(ms[0].value, ty, t) + EncodeRawMembers(ms[1..], ty, t)
  {
  }

  lemma AllFitTail(ms: seq<Member>, ty: byte)
    requires ms != [] && forall i :: 0 <= i < |ms| ==> FitsType(ms[i].value, ty)
    ensures FitsType(ms[0].value, ty)
    ensures forall i :: 0 <= i < |ms[1..]| ==> FitsType(ms[1..][i].value, ty)
  {
    forall i | 0 <= i < |ms[1..]| ensures FitsType(ms[1..][i].value, ty) {
      assert ms[1..][i] == ms[i + 1];
    }
  }

  /** One more member `m` in front of optimized members `rest` that already decode. */
  lemma {:induction false} OptimizedMemberCons(m: Member, rest: seq<Member>, ms: seq<Member>, ty: byte, t: Typing,
                                               more: seq<byte>, tail: seq<byte>, s: seq<byte>, n: nat)
    requires |m.key| <= INT_32_MAX && Encodable(m.value) && FitsType(m.value, ty)
    requires ms == [m] + rest && n == |rest| + 1
    requires s == EncodeRawString(m.key) + EncodeRaw(m.value, ty, t) + more + tail
    requires DecodeOptimizedMembers(more + tail, ty, |rest|) == Ok(rest, tail)
    ensures DecodeOptimizedMembers(s, ty, n) == Ok(ms, tail)
    decreases m, 0
  {
    var k, v := EncodeRawString(m.key), EncodeRaw(m.value, ty, t);
    Regroup(k, v, more, tail);
    StringRoundTrip(m.key, v + (more + tail));
    RawRoundTrip(m.value, ty, t, more + tail);
    OptimizedMembersStep(s, ty, |rest|, m.key, v + (more + tail), m.value, more + tail, rest, tail);
  }
}
