/**
 * The reader's dispatch rules, for any remaining input: what each marker consumes,
 * which markers are refused, and how the byte after '[' or '{' selects the framing.
 */
module UbjsonDecodingRules {
  import opened UBMarker
  import opened JsonValue
  import opened BigEndian
  import opened UbjsonReading

  /** An element list read as the array holding it. */
  function ArrayRead(d: Decoded<seq<Value>>): Decoded<Value>
  {
    match d
    case Fail(e) => Fail(e)
    case Ok(es, rest) => Ok(Array(es), rest)
  }

  /** A member list read as the object holding it. */
  function ObjectRead(d: Decoded<seq<Member>>): Decoded<Value>
  {
    match d
    case Fail(e) => Fail(e)
    case Ok(ms, rest) => Ok(Object(ms), rest)
  }

  /** 'Z', 'T' and 'F' are whole values: they consume no payload. */
  lemma LiteralsReadNoPayload(s: seq<byte>)
    ensures DecodeValueOf(s, NULL) == Ok(Null, s)
    ensures DecodeValueOf(s, TRUE) == Ok(Bool(true), s)
    ensures DecodeValueOf(s, FALSE) == Ok(Bool(false), s)
  {
  }

  /** The payload width of an integer marker, 'C' counted as one signed byte. */
  function PayloadWidth(ty: byte): nat
  {
    if ty == CHAR then 1 else IntWidth(ty)
  }

  /**
   * 'C' and 'i' read one signed byte, 'U' one unsigned byte, and 'I', 'l', 'L' two,
   * four and eight signed big-endian bytes; fewer bytes than that is end of input.
   */
  lemma IntegerPayloads(s: seq<byte>, ty: byte)
    requires ty == CHAR || IsIntMarker(ty)
    ensures var w := PayloadWidth(ty);
      && (|s| < w ==> DecodeValueOf(s, ty) == Fail(EndOfInput))
      && (|s| >= w ==>
            && DecodeValueOf(s, ty).Ok? && DecodeValueOf(s, ty).value.Int? && DecodeValueOf(s, ty).rest == s[w..]
            && DecodeValueOf(s, ty).value.n == if ty == U_INT8 then Unsigned(s[..w]) else Signed(s[..w]))
  {
    if (ty == CHAR || ty == INT8) && |s| >= 1 {
      assert s[..1] == [s[0]];
    }
  }

  /** The range each integer marker's payload can denote. */
  lemma IntegerRanges(s: seq<byte>, ty: byte)
    requires ty == CHAR || IsIntMarker(ty)
    requires DecodeValueOf(s, ty).Ok?
    ensures var v := DecodeValueOf(s, ty).value;
      && v.Int?
      && (ty == U_INT8 ==> 0 <= v.n < 0x100)
      && (ty == CHAR || ty == INT8 ==> -0x80 <= v.n < 0x80)
      && (ty == INT16 ==> -0x8000 <= v.n < 0x8000)
      && (ty == INT32 ==> -0x8000_0000 <= v.n < 0x8000_0000)
      && (ty == INT64 ==> -0x8000_0000_0000_0000 <= v.n < 0x8000_0000_0000_0000)
  {
    IntegerPayloads(s, ty);
    Pow256Values();
  }

  /** Any byte that introduces no value, ']', '}', '$' and '#' among them, is refused by name. */
  lemma UnknownMarkerRefused(s: seq<byte>, m: byte)
    requires !IsValueMarker(m) && m != CHAR && m != FLOAT32 && m != FLOAT64
    ensures DecodeValueOf(s, m) == Fail(UnrecognizedMarker(m))
  {
  }

  /** A length must be introduced by an integer marker. */
  lemma LengthNeedsIntMarker(s: seq<byte>, m: byte)
    requires !IsIntMarker(m)
    ensures DecodeStringOf(s, m) == Fail(NotAnInteger)
    ensures DecodeAnyInt([m] + s) == Fail(NotAnInteger)
    ensures DecodeArray([OPTIMIZED_SIZE, m] + s) == Fail(NotAnInteger)
  {
    assert ([m] + s)[1..] == s;
    assert ([OPTIMIZED_SIZE, m] + s)[1..] == [m] + s;
  }

  /** After '[' '$' and a type, the next byte must be '#'. */
  lemma ArrayTypeNeedsSize(s: seq<byte>, ty: byte, m: byte)
    requires m != OPTIMIZED_SIZE
    ensures DecodeArray([OPTIMIZED_TYPE, ty, m] + s) == Fail(MissingSizeMarker)
  {
    var t := [OPTIMIZED_TYPE, ty, m] + s;
    assert t[1..][1..][1..] == s;
  }

  /** '[' '$' type '#' count: `count` payloads of that type, or an error for a negative count. */
  lemma ArrayOptimizedFraming(s: seq<byte>, ty: byte)
    ensures DecodeAnyInt(s).Fail? ==> DecodeArray([OPTIMIZED_TYPE, ty, OPTIMIZED_SIZE] + s) == Fail(DecodeAnyInt(s).error)
    ensures DecodeAnyInt(s).Ok? ==>
      DecodeArray([OPTIMIZED_TYPE, ty, OPTIMIZED_SIZE] + s)
      == if ToInt32(DecodeAnyInt(s).value) < 0 then Fail(NegativeSize)
         else ArrayRead(DecodeOptimizedElems(DecodeAnyInt(s).rest, ty, ToInt32(DecodeAnyInt(s).value)))
  {
    var t := [OPTIMIZED_TYPE, ty, OPTIMIZED_SIZE] + s;
    assert t[1..][1..][1..] == s;
  }

  /** '[' '#' count: `count` marked values, or an error for a negative count. */
  lemma ArraySizedFraming(s: seq<byte>)
    ensures DecodeAnyInt(s).Fail? ==> DecodeArray([OPTIMIZED_SIZE] + s) == Fail(DecodeAnyInt(s).error)
    ensures DecodeAnyInt(s).Ok? ==>
      DecodeArray([OPTIMIZED_SIZE] + s)
      == if ToInt32(DecodeAnyInt(s).value) < 0 then Fail(NegativeSize)
         else ArrayRead(DecodeSizedElems(DecodeAnyInt(s).rest, ToInt32(DecodeAnyInt(s).value)))
  {
    assert ([OPTIMIZED_SIZE] + s)[1..] == s;
  }

  /** Any other byte after '[' is not put back: it is taken as the first element's own marker. */
  lemma ArrayGenericFraming(s: seq<byte>, m: byte)
    requires m != OPTIMIZED_TYPE && m != OPTIMIZED_SIZE
    ensures DecodeArray([m] + s) == ArrayRead(DecodeGenericElems(s, m))
  {
    assert ([m] + s)[1..] == s;
  }

  /** After '{' '$' and a type, the next byte must be '#'. */
  lemma ObjectTypeNeedsSize(s: seq<byte>, ty: byte, m: byte)
    requires m != OPTIMIZED_SIZE
    ensures DecodeObject([OPTIMIZED_TYPE, ty, m] + s) == Fail(MissingSizeMarker)
  {
    var t := [OPTIMIZED_TYPE, ty, m] + s;
    assert t[1..][1..][1..] == s;
  }

  /** '{' '$' type '#' count: `count` payloads of that type, and none for a negative count. */
  lemma ObjectOptimizedFraming(s: seq<byte>, ty: byte)
    ensures DecodeAnyInt(s).Fail? ==> DecodeObject([OPTIMIZED_TYPE, ty, OPTIMIZED_SIZE] + s) == Fail(DecodeAnyInt(s).error)
    ensures DecodeAnyInt(s).Ok? ==>
      DecodeObject([OPTIMIZED_TYPE, ty, OPTIMIZED_SIZE] + s)
      == if ToInt32(DecodeAnyInt(s).value) < 0 then Ok(Object([]), DecodeAnyInt(s).rest)
         else ObjectRead(DecodeOptimizedMembers(DecodeAnyInt(s).rest, ty, ToInt32(DecodeAnyInt(s).value)))
  {
    var t := [OPTIMIZED_TYPE, ty, OPTIMIZED_SIZE] + s;
    assert t[1..][1..][1..] == s;
  }

  /** '{' '#' count: `count` marked values, and none for a negative count. */
  lemma ObjectSizedFraming(s: seq<byte>)
    ensures DecodeAnyInt(s).Fail? ==> DecodeObject([OPTIMIZED_SIZE] + s) == Fail(DecodeAnyInt(s).error)
    ensures DecodeAnyInt(s).Ok? ==>
      DecodeObject([OPTIMIZED_SIZE] + s)
      == if ToInt32(DecodeAnyInt(s).value) < 0 then Ok(Object([]), DecodeAnyInt(s).rest)
         else ObjectRead(DecodeSizedMembers(DecodeAnyInt(s).rest, ToInt32(DecodeAnyInt(s).value)))
  {
    assert ([OPTIMIZED_SIZE] + s)[1..] == s;
  }

  /** Any other byte after '{' is not put back: it is taken as the first key's length marker. */
  lemma ObjectGenericFraming(s: seq<byte>, m: byte)
    requires m != OPTIMIZED_TYPE && m != OPTIMIZED_SIZE
    ensures DecodeObject([m] + s) == ObjectRead(DecodeGenericMembers(s, m))
  {
    assert ([m] + s)[1..] == s;
  }

  /** In a generic object the byte after '{' is the first key's length marker: anything else is "Not an integer". */
  lemma GenericKeyNeedsIntMarker(s: seq<byte>, m: byte)
    requires !IsIntMarker(m) && m != OPTIMIZED_TYPE && m != OPTIMIZED_SIZE && m != OBJ_END
    ensures DecodeObject([m] + s) == Fail(NotAnInteger)
  {
    ObjectGenericFraming(s, m);
  }

  /** A generic container closes at once on its closer: '[' ']' and '{' '}' are empty. */
  lemma ClosersEndGeneric(s: seq<byte>)
    ensures DecodeArray([ARRAY_END] + s) == Ok(Array([]), s)
    ensures DecodeObject([OBJ_END] + s) == Ok(Object([]), s)
  {
    ArrayGenericFraming(s, ARRAY_END);
    ObjectGenericFraming(s, OBJ_END);
  }
}
