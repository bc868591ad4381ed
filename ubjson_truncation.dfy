/**
 * Appending bytes never changes what the reader makes of its input, except that
 * input which ran out may now go further: a value read stays the same value with
 * the appended bytes left over, and every error other than end of input stays the
 * same error. Hence a strict prefix of any encoding fails with end of input and
 * never yields a partial value.
 */
module UbjsonTruncation {
  import opened UBMarker
  import opened UBTyping
  import opened JsonValue
  import opened UbjsonWriting
  import opened UbjsonReading
  import opened UbjsonRoundTrip

  /** `e`, the decoding of the input with `x` appended, agrees with `d`, the decoding without it. */
  predicate Extends<T(==)>(d: Decoded<T>, e: Decoded<T>, x: seq<byte>)
  {
    && (d.Ok? ==> e == Ok(d.value, d.rest + x))
    && (d.Fail? && d.error != EndOfInput ==> e == d)
  }

  lemma ByteExtends(s: seq<byte>, x: seq<byte>)
    ensures Extends(DecodeByte(s), DecodeByte(s + x), x)
  {
    if |s| > 0 {
      assert (s + x)[1..] == s[1..] + x;
    }
  }

  lemma IntExtends(s: seq<byte>, ty: byte, x: seq<byte>)
    ensures Extends(DecodeInt(s, ty), DecodeInt(s + x, ty), x)
  {
    if IsIntMarker(ty) && |s| >= IntWidth(ty) {
      var w := IntWidth(ty);
      assert (s + x)[..w] == s[..w];
      assert (s + x)[w..] == s[w..] + x;
    }
  }

  lemma AnyIntExtends(s: seq<byte>, x: seq<byte>)
    ensures Extends(DecodeAnyInt(s), DecodeAnyInt(s + x), x)
  {
    ByteExtends(s, x);
    if |s| > 0 {
      IntExtends(s[1..], s[0], x);
    }
  }

  lemma StringOfExtends(s: seq<byte>, ty: byte, x: seq<byte>)
    ensures Extends(DecodeStringOf(s, ty), DecodeStringOf(s + x, ty), x)
  {
    IntExtends(s, ty, x);
    match DecodeInt(s, ty)
    case Fail(_) =>
    case Ok(n, rest) =>
      var size := ToInt32(n);
      if 0 <= size <= |rest| {
        assert (rest + x)[..size] == rest[..size];
        assert (rest + x)[size..] == rest[size..] + x;
      }
  }

  lemma StringExtends(s: seq<byte>, x: seq<byte>)
    ensures Extends(DecodeString(s), DecodeString(s + x), x)
  {
    ByteExtends(s, x);
    if |s| > 0 {
      StringOfExtends(s[1..], s[0], x);
    }
  }

  lemma ValueExtends(s: seq<byte>, x: seq<byte>)
    ensures Extends(DecodeValue(s), DecodeValue(s + x), x)
    decreases |s|, 2, 1
  {
    ByteExtends(s, x);
    if |s| > 0 {
      ValueOfExtends(s[1..], s[0], x);
    }
  }

  lemma ValueOfExtends(s: seq<byte>, ty: byte, x: seq<byte>)
    ensures Extends(DecodeValueOf(s, ty), DecodeValueOf(s + x, ty), x)
    decreases |s|, 2, 0
  {
    if ty == CHAR || ty == INT8 {
      ByteExtends(s, x);
    } else if ty == U_INT8 || ty == INT16 || ty == INT32 || ty == INT64 {
      IntExtends(s, ty, x);
    } else if ty == STRING {
      StringExtends(s, x);
    } else if ty == ARRAY_START {
      ArrayExtends(s, x);
    } else if ty == OBJ_START {
      ObjectExtends(s, x);
    }
  }

  lemma ArrayExtends(s: seq<byte>, x: seq<byte>)
    ensures Extends(DecodeArray(s), DecodeArray(s + x), x)
    decreases |s|, 1, 0
  {
    ByteExtends(s, x);
    if |s| > 0 {
      var marker, s1 := s[0], s[1..];
      if marker == OPTIMIZED_TYPE {
        ByteExtends(s1, x);
        if |s1| > 0 {
          var ty, s2 := s1[0], s1[1..];
          ByteExtends(s2, x);
          if |s2| > 0 && s2[0] == OPTIMIZED_SIZE {
            var s3 := s2[1..];
            AnyIntExtends(s3, x);
            match DecodeAnyInt(s3)
            case Fail(_) =>
            case Ok(n, s4) =>
              if ToInt32(n) >= 0 {
                OptimizedElemsExtends(s4, ty, ToInt32(n), x);
              }
          }
        }
      } else if marker == OPTIMIZED_SIZE {
        AnyIntExtends(s1, x);
        match DecodeAnyInt(s1)
        case Fail(_) =>
        case Ok(n, s2) =>
          if ToInt32(n) >= 0 {
            SizedElemsExtends(s2, ToInt32(n), x);
          }
      } else {
        GenericElemsExtends(s1, marker, x);
      }
    }
  }

  lemma OptimizedElemsExtends(s: seq<byte>, ty: byte, n: nat, x: seq<byte>)
    ensures Extends(DecodeOptimizedElems(s, ty, n), DecodeOptimizedElems(s + x, ty, n), x)
    decreases |s|, 3, n
  {
    if n > 0 {
      ValueOfExtends(s, ty, x);
      match DecodeValueOf(s, ty)
      case Fail(_) =>
      case Ok(_, s1) => OptimizedElemsExtends(s1, ty, n - 1, x);
    }
  }

  lemma SizedElemsExtends(s: seq<byte>, n: nat, x: seq<byte>)
    ensures Extends(DecodeSizedElems(s, n), DecodeSizedElems(s + x, n), x)
    decreases |s|, 3, n
  {
    if n > 0 {
      ValueExtends(s, x);
      match DecodeValue(s)
      case Fail(_) =>
      case Ok(_, s1) => SizedElemsExtends(s1, n - 1, x);
    }
  }

  lemma GenericElemsExtends(s: seq<byte>, ty: byte, x: seq<byte>)
    ensures Extends(DecodeGenericElems(s, ty), DecodeGenericElems(s + x, ty), x)
    decreases |s|, 3, 0
  {
    if ty != ARRAY_END {
      ValueOfExtends(s, ty, x);
      match DecodeValueOf(s, ty)
      case Fail(_) =>
      case Ok(_, s1) =>
        ByteExtends(s1, x);
        if |s1| > 0 {
          GenericElemsExtends(s1[1..], s1[0], x);
        }
    }
  }

  lemma ObjectExtends(s: seq<byte>, x: seq<byte>)
    ensures Extends(DecodeObject(s), DecodeObject(s + x), x)
    decreases |s|, 1, 0
  {
    ByteExtends(s, x);
    if |s| > 0 {
      var marker, s1 := s[0], s[1..];
      if marker == OPTIMIZED_TYPE {
        ByteExtends(s1, x);
        if |s1| > 0 {
          var ty, s2 := s1[0], s1[1..];
          ByteExtends(s2, x);
          if |s2| > 0 && s2[0] == OPTIMIZED_SIZE {
            var s3 := s2[1..];
            AnyIntExtends(s3, x);
            match DecodeAnyInt(s3)
            case Fail(_) =>
            case Ok(n, s4) =>
              var size := ToInt32(n);
              OptimizedMembersExtends(s4, ty, if size < 0 then 0 else size, x);
          }
        }
      } else if marker == OPTIMIZED_SIZE {
        AnyIntExtends(s1, x);
        match DecodeAnyInt(s1)
        case Fail(_) =>
        case Ok(n, s2) =>
          var size := ToInt32(n);
          SizedMembersExtends(s2, if size < 0 then 0 else size, x);
      } else {
        GenericMembersExtends(s1, marker, x);
      }
    }
  }

  lemma OptimizedMembersExtends(s: seq<byte>, ty: byte, n: nat, x: seq<byte>)
    ensures Extends(DecodeOptimizedMembers(s, ty, n), DecodeOptimizedMembers(s + x, ty, n), x)
    decreases |s|, 3, n
  {
    if n > 0 {
      StringExtends(s, x);
      match DecodeString(s)
      case Fail(_) =>
      case Ok(_, s1) =>
        ValueOfExtends(s1, ty, x);
        match DecodeValueOf(s1, ty)
        case Fail(_) =>
        case Ok(_, s2) => OptimizedMembersExtends(s2, ty, n - 1, x);
    }
  }

  lemma SizedMembersExtends(s: seq<byte>, n: nat, x: seq<byte>)
    ensures Extends(DecodeSizedMembers(s, n), DecodeSizedMembers(s + x, n), x)
    decreases |s|, 3, n
  {
    if n > 0 {
      StringExtends(s, x);
      match DecodeString(s)
      case Fail(_) =>
      case Ok(_, s1) =>
        ValueExtends(s1, x);
        match DecodeValue(s1)
        case Fail(_) =>
        case Ok(_, s2) => SizedMembersExtends(s2, n - 1, x);
    }
  }

  lemma GenericMembersExtends(s: seq<byte>, ty: byte, x: seq<byte>)
    ensures Extends(DecodeGenericMembers(s, ty), DecodeGenericMembers(s + x, ty), x)
    decreases |s|, 3, 0
  {
    if ty != OBJ_END {
      StringOfExtends(s, ty, x);
      match DecodeStringOf(s, ty)
      case Fail(_) =>
      case Ok(_, s1) =>
        ValueExtends(s1, x);
        match DecodeValue(s1)
        case Fail(_) =>
        case Ok(_, s2) =>
          ByteExtends(s2, x);
          if |s2| > 0 {
            GenericMembersExtends(s2[1..], s2[0], x);
          }
    }
  }

  /** Every strict prefix of an encoding fails with end of input: no partial value is ever returned. */
  lemma TruncatedEncodingFails(v: Value, t: Typing, k: nat)
    requires Encodable(v) && k < |EncodeValue(v, t)|
    ensures DecodeValue(EncodeValue(v, t)[..k]) == Fail(EndOfInput)
  {
    var b := EncodeValue(v, t);
    var p, x := b[..k], b[k..];
    assert p + x == b;
    ValueExtends(p, x);
    DecodeEncode(v, t);
  }
}
