/**
 * The binary reader: recursive-descent decoding of the remaining input (the
 * `Decode...` functions, each taking the bytes not yet consumed), and the
 * stateful parser whose cursor advances exactly as they say (class `UbjsonParser`).
 */
module UbjsonReading {
  import opened UBMarker
  import opened JsonValue
  import opened BigEndian
  import opened Sequences

  /** Why decoding stopped; each case is an exception the reader throws. */
  datatype DecodeError =
    | EndOfInput              // "Unexpected end of input"
    | NotAnInteger            // "Not an integer"
    | MissingSizeMarker       // "Missing size marker"
    | UnrecognizedMarker(marker: byte)
    | NegativeSize            // a negative size given to an array allocation
    | IndexOutOfBounds        // a bulk read whose offset and length overrun the buffer
    | FloatNotModelled        // a float payload, which this model has no value for

  /** A decoded value with the input that follows it, or the error that stopped decoding. */
  datatype Decoded<T> = Ok(value: T, rest: seq<byte>) | Fail(error: DecodeError)

  /** `read`: one byte, or end of input. */
  function DecodeByte(s: seq<byte>): (r: Decoded<byte>)
    ensures r.Ok? <==> |s| > 0
    ensures r.Ok? ==> [r.value] + r.rest == s
    ensures r.Fail? ==> r.error == EndOfInput
  {
    if |s| == 0 then Fail(EndOfInput) else Ok(s[0], s[1..])
  }

  /** `readInt(type)`: the payload of an integer marker, big-endian; only 'U' is unsigned. */
  function DecodeInt(s: seq<byte>, ty: byte): (r: Decoded<Int64>)
    ensures r.Ok? <==> IsIntMarker(ty) && |s| >= IntWidth(ty)
    ensures r.Ok? ==> r.rest == s[IntWidth(ty)..]
    ensures !IsIntMarker(ty) ==> r == Fail(NotAnInteger)
  {
    if !IsIntMarker(ty) then Fail(NotAnInteger)
    else if |s| < IntWidth(ty) then Fail(EndOfInput)
    else
      var bs := s[..IntWidth(ty)];
      Pow256Values();
      Ok(if ty == U_INT8 then Unsigned(bs) else Signed(bs), s[IntWidth(ty)..])
  }

  /** `readInt()`: an integer marker, then its payload. */
  function DecodeAnyInt(s: seq<byte>): (r: Decoded<Int64>)
    ensures r.Ok? ==> |r.rest| < |s|
  {
    match DecodeByte(s)
    case Fail(e) => Fail(e)
    case Ok(ty, rest) => DecodeInt(rest, ty)
  }

  /** Java's `(int)` cast of a `long`: keep the low 32 bits, two's complement. */
  function ToInt32(x: int): (y: int)
    ensures INT_32_MIN <= y <= INT_32_MAX
    ensures INT_32_MIN <= x <= INT_32_MAX ==> y == x
    ensures (x - y) % 0x1_0000_0000 == 0
  {
    (x - INT_32_MIN) % 0x1_0000_0000 + INT_32_MIN
  }

  /**
   * `readString(sizeType)` with each bulk read asking for the bytes still missing:
   * a length (truncated to `int`) and then exactly that many bytes.
   */
  function DecodeStringOf(s: seq<byte>, sizeType: byte): (r: Decoded<seq<byte>>)
    ensures r.Ok? ==> |r.rest| < |s|
  {
    match DecodeInt(s, sizeType)
    case Fail(e) => Fail(e)
    case Ok(n, rest) =>
      var size := ToInt32(n);
      if size < 0 then Fail(NegativeSize)
      else if |rest| < size then Fail(EndOfInput)
      else Ok(rest[..size], rest[size..])
  }

  /**
   * `readString(sizeType)` as the source has it: every bulk read asks for `size`
   * bytes at the current offset. A stream that delivers at most `chunk` bytes per
   * read serves the first read; if that leaves bytes missing, the second read's
   * offset plus length overruns the buffer.
   */
  function DecodeStringOfAsWritten(s: seq<byte>, sizeType: byte, chunk: nat): Decoded<seq<byte>>
    requires chunk > 0
  {
    match DecodeInt(s, sizeType)
    case Fail(e) => Fail(e)
    case Ok(n, rest) =>
      var size := ToInt32(n);
      if size < 0 then Fail(NegativeSize)
      else if size == 0 then Ok([], rest)
      else if |rest| == 0 then Fail(EndOfInput)
      else if chunk >= size && |rest| >= size then Ok(rest[..size], rest[size..])
      else Fail(IndexOutOfBounds)
  }

  /** `readString()`: a length marker, the length, then the bytes. */
  function DecodeString(s: seq<byte>): (r: Decoded<seq<byte>>)
    ensures r.Ok? ==> |r.rest| < |s|
  {
    match DecodeByte(s)
    case Fail(e) => Fail(e)
    case Ok(ty, rest) => DecodeStringOf(rest, ty)
  }

  /** `readValue()`: a marker, then the value it introduces. */
  function DecodeValue(s: seq<byte>): (r: Decoded<Value>)
    ensures r.Ok? ==> |r.rest| < |s|
    decreases |s|, 2, 0
  {
    match DecodeByte(s)
    case Fail(e) => Fail(e)
    case Ok(ty, rest) => DecodeValueOf(rest, ty)
  }

  /** `readValue(type)`: the value introduced by an already consumed marker. */
  function DecodeValueOf(s: seq<byte>, ty: byte): (r: Decoded<Value>)
    ensures r.Ok? ==> |r.rest| <= |s|
    decreases |s|, 2, 0
  {
    if ty == NULL then Ok(Null, s)
    else if ty == TRUE then Ok(Bool(true), s)
    else if ty == FALSE then Ok(Bool(false), s)
    else if ty == CHAR || ty == INT8 then
      match DecodeByte(s)
      case Fail(e) => Fail(e)
      case Ok(b, rest) => Pow256Values(); Ok(Int(Signed([b])), rest)
    else if ty == U_INT8 || ty == INT16 || ty == INT32 || ty == INT64 then
      match DecodeInt(s, ty)
      case Fail(e) => Fail(e)
      case Ok(n, rest) => Ok(Int(n), rest)
    else if ty == FLOAT32 || ty == FLOAT64 then Fail(FloatNotModelled)
    else if ty == STRING then
      match DecodeString(s)
      case Fail(e) => Fail(e)
      case Ok(bs, rest) => Ok(Str(bs), rest)
    else if ty == ARRAY_START then DecodeArray(s)
    else if ty == OBJ_START then DecodeObject(s)
    else Fail(UnrecognizedMarker(ty))
  }

  /** `readArray`: the framing after '['. */
  function DecodeArray(s: seq<byte>): (r: Decoded<Value>)
    ensures r.Ok? ==> |r.rest| < |s| && r.value.Array?
    decreases |s|, 1, 0
  {
    match DecodeByte(s)
    case Fail(e) => Fail(e)
    case Ok(marker, s1) =>
      if marker == OPTIMIZED_TYPE then
        match DecodeByte(s1)
        case Fail(e) => Fail(e)
        case Ok(ty, s2) =>
          match DecodeByte(s2)
          case Fail(e) => Fail(e)
          case Ok(m, s3) =>
            if m != OPTIMIZED_SIZE then Fail(MissingSizeMarker)
            else
              match DecodeAnyInt(s3)
              case Fail(e) => Fail(e)
              case Ok(n, s4) =>
                var size := ToInt32(n);
                if size < 0 then Fail(NegativeSize)
                else
                  match DecodeOptimizedElems(s4, ty, size)
                  case Fail(e) => Fail(e)
                  case Ok(es, rest) => Ok(Array(es), rest)
      else if marker == OPTIMIZED_SIZE then
        match DecodeAnyInt(s1)
        case Fail(e) => Fail(e)
        case Ok(n, s2) =>
          var size := ToInt32(n);
          if size < 0 then Fail(NegativeSize)
          else
            match DecodeSizedElems(s2, size)
            case Fail(e) => Fail(e)
            case Ok(es, rest) => Ok(Array(es), rest)
      else
        match DecodeGenericElems(s1, marker)
        case Fail(e) => Fail(e)
        case Ok(es, rest) => Ok(Array(es), rest)
  }

  /** `readOptimizedArray`: `n` payloads of type `ty`. */
  function DecodeOptimizedElems(s: seq<byte>, ty: byte, n: nat): (r: Decoded<seq<Value>>)
    ensures r.Ok? ==> |r.rest| <= |s| && |r.value| == n
    decreases |s|, 3, n
  {
    if n == 0 then Ok([], s)
    else
      match DecodeValueOf(s, ty)
      case Fail(e) => Fail(e)
      case Ok(v, s1) =>
        match DecodeOptimizedElems(s1, ty, n - 1)
        case Fail(e) => Fail(e)
        case Ok(vs, rest) => Ok([v] + vs, rest)
  }

  /** `readSizedArray`: `n` values, each with its own marker. */
  function DecodeSizedElems(s: seq<byte>, n: nat): (r: Decoded<seq<Value>>)
    ensures r.Ok? ==> |r.rest| <= |s| && |r.value| == n
    decreases |s|, 3, n
  {
    if n == 0 then Ok([], s)
    else
      match DecodeValue(s)
      case Fail(e) => Fail(e)
      case Ok(v, s1) =>
        match DecodeSizedElems(s1, n - 1)
        case Fail(e) => Fail(e)
        case Ok(vs, rest) => Ok([v] + vs, rest)
  }

  /** `readGenericArray(type)`: values up to ']', the first marker `ty` already consumed. */
  function DecodeGenericElems(s: seq<byte>, ty: byte): (r: Decoded<seq<Value>>)
    ensures r.Ok? ==> |r.rest| <= |s|
    decreases |s|, 3, 0
  {
    if ty == ARRAY_END then Ok([], s)
    else
      match DecodeValueOf(s, ty)
      case Fail(e) => Fail(e)
      case Ok(v, s1) =>
        match DecodeByte(s1)
        case Fail(e) => Fail(e)
        case Ok(next, s2) =>
          match DecodeGenericElems(s2, next)
          case Fail(e) => Fail(e)
          case Ok(vs, rest) => Ok([v] + vs, rest)
  }

  /** `readObject`: the framing after '{'; a negative size reads no member. */
  function DecodeObject(s: seq<byte>): (r: Decoded<Value>)
    ensures r.Ok? ==> |r.rest| < |s| && r.value.Object?
    decreases |s|, 1, 0
  {
    match DecodeByte(s)
    case Fail(e) => Fail(e)
    case Ok(marker, s1) =>
      if marker == OPTIMIZED_TYPE then
        match DecodeByte(s1)
        case Fail(e) => Fail(e)
        case Ok(ty, s2) =>
          match DecodeByte(s2)
          case Fail(e) => Fail(e)
          case Ok(m, s3) =>
            if m != OPTIMIZED_SIZE then Fail(MissingSizeMarker)
            else
              match DecodeAnyInt(s3)
              case Fail(e) => Fail(e)
              case Ok(n, s4) =>
                var size := ToInt32(n);
                match DecodeOptimizedMembers(s4, ty, if size < 0 then 0 else size)
                case Fail(e) => Fail(e)
                case Ok(ms, rest) => Ok(Object(ms), rest)
      else if marker == OPTIMIZED_SIZE then
        match DecodeAnyInt(s1)
        case Fail(e) => Fail(e)
        case Ok(n, s2) =>
          var size := ToInt32(n);
          match DecodeSizedMembers(s2, if size < 0 then 0 else size)
          case Fail(e) => Fail(e)
          case Ok(ms, rest) => Ok(Object(ms), rest)
      else
        match DecodeGenericMembers(s1, marker)
        case Fail(e) => Fail(e)
        case Ok(ms, rest) => Ok(Object(ms), rest)
  }

  /** `readOptimizedObject`: `n` keys, each followed by a payload of type `ty`. */
  function DecodeOptimizedMembers(s: seq<byte>, ty: byte, n: nat): (r: Decoded<seq<Member>>)
    ensures r.Ok? ==> |r.rest| <= |s| && |r.value| == n
    decreases |s|, 3, n
  {
    if n == 0 then Ok([], s)
    else
      match DecodeString(s)
      case Fail(e) => Fail(e)
      case Ok(key, s1) =>
        match DecodeValueOf(s1, ty)
        case Fail(e) => Fail(e)
        case Ok(v, s2) =>
          match DecodeOptimizedMembers(s2, ty, n - 1)
          case Fail(e) => Fail(e)
          case Ok(ms, rest) => Ok([Member(key, v)] + ms, rest)
  }

  /** `readSizedObject`: `n` keys, each followed by a marked value. */
  function DecodeSizedMembers(s: seq<byte>, n: nat): (r: Decoded<seq<Member>>)
    ensures r.Ok? ==> |r.rest| <= |s| && |r.value| == n
    decreases |s|, 3, n
  {
    if n == 0 then Ok([], s)
    else
      match DecodeString(s)
      case Fail(e) => Fail(e)
      case Ok(key, s1) =>
        match DecodeValue(s1)
        case Fail(e) => Fail(e)
        case Ok(v, s2) =>
          match DecodeSizedMembers(s2, n - 1)
          case Fail(e) => Fail(e)
          case Ok(ms, rest) => Ok([Member(key, v)] + ms, rest)
  }

  /** `readGenericObject(type)`: members up to '}'; `ty` is the first key's length marker. */
  function DecodeGenericMembers(s: seq<byte>, ty: byte): (r: Decoded<seq<Member>>)
    ensures r.Ok? ==> |r.rest| <= |s|
    decreases |s|, 3, 0
  {
    if ty == OBJ_END then Ok([], s)
    else
      match DecodeStringOf(s, ty)
      case Fail(e) => Fail(e)
      case Ok(key, s1) =>
        match DecodeValue(s1)
        case Fail(e) => Fail(e)
        case Ok(v, s2) =>
          match DecodeByte(s2)
          case Fail(e) => Fail(e)
          case Ok(next, s3) =>
            match DecodeGenericMembers(s3, next)
            case Fail(e) => Fail(e)
            case Ok(ms, rest) => Ok([Member(key, v)] + ms, rest)
  }

  /** A decoded list with `acc` in front of it; failures pass through. */
  function Prepend<T>(acc: seq<T>, d: Decoded<seq<T>>): (r: Decoded<seq<T>>)
    ensures r.Ok? <==> d.Ok?
    ensures r.Ok? ==> r.value == acc + d.value && r.rest == d.rest
    ensures r.Fail? ==> r.error == d.error
  {
    match d
    case Ok(vs, rest) => Ok(acc + vs, rest)
    case Fail(e) => Fail(e)
  }

  lemma PrependTwice<T>(acc: seq<T>, v: T, d: Decoded<seq<T>>)
    ensures Prepend(acc, Prepend([v], d)) == Prepend(acc + [v], d)
  {
    if d.Ok? {
      AppendAssoc(acc, [v], d.value);
    }
  }

  lemma PrependNothing<T>(d: Decoded<seq<T>>)
    ensures Prepend([], d) == d
  {
    if d.Ok? {
      assert [] + d.value == d.value;
    }
  }

  // One iteration of each reading loop: the value read moves from the decoding still
  // to do into the accumulator (`...Advance`), or its failure is the loop's (`...Stops`).

  lemma OptimizedElemsAdvance(acc: seq<Value>, s: seq<byte>, ty: byte, n: nat, v: Value, s1: seq<byte>)
    requires n > 0 && DecodeValueOf(s, ty) == Ok(v, s1)
    ensures Prepend(acc + [v], DecodeOptimizedElems(s1, ty, n - 1)) == Prepend(acc, DecodeOptimizedElems(s, ty, n))
  {
    PrependTwice(acc, v, DecodeOptimizedElems(s1, ty, n - 1));
  }

  lemma OptimizedElemsStops(s: seq<byte>, ty: byte, n: nat)
    requires n > 0 && DecodeValueOf(s, ty).Fail?
    ensures DecodeOptimizedElems(s, ty, n) == Fail(DecodeValueOf(s, ty).error)
  {
  }

  lemma SizedElemsAdvance(acc: seq<Value>, s: seq<byte>, n: nat, v: Value, s1: seq<byte>)
    requires n > 0 && DecodeValue(s) == Ok(v, s1)
    ensures Prepend(acc + [v], DecodeSizedElems(s1, n - 1)) == Prepend(acc, DecodeSizedElems(s, n))
  {
    PrependTwice(acc, v, DecodeSizedElems(s1, n - 1));
  }

  lemma SizedElemsStops(s: seq<byte>, n: nat)
    requires n > 0 && DecodeValue(s).Fail?
    ensures DecodeSizedElems(s, n) == Fail(DecodeValue(s).error)
  {
  }

  lemma GenericElemsAdvance(acc: seq<Value>, s: seq<byte>, ty: byte, v: Value, s1: seq<byte>, next: byte,
                            s2: seq<byte>)
    requires ty != ARRAY_END && DecodeValueOf(s, ty) == Ok(v, s1) && DecodeByte(s1) == Ok(next, s2)
    ensures Prepend(acc + [v], DecodeGenericElems(s2, next)) == Prepend(acc, DecodeGenericElems(s, ty))
  {
    PrependTwice(acc, v, DecodeGenericElems(s2, next));
  }

  lemma GenericElemsStops(s: seq<byte>, ty: byte)
    requires ty != ARRAY_END
    ensures DecodeValueOf(s, ty).Fail? ==> DecodeGenericElems(s, ty) == Fail(DecodeValueOf(s, ty).error)
    ensures DecodeValueOf(s, ty).Ok? && DecodeValueOf(s, ty).rest == [] ==> DecodeGenericElems(s, ty) == Fail(EndOfInput)
  {
  }

  lemma OptimizedMembersAdvance(acc: seq<Member>, s: seq<byte>, ty: byte, n: nat, key: seq<byte>, s1: seq<byte>,
                                v: Value, s2: seq<byte>)
    requires n > 0 && DecodeString(s) == Ok(key, s1) && DecodeValueOf(s1, ty) == Ok(v, s2)
    ensures Prepend(acc + [Member(key, v)], DecodeOptimizedMembers(s2, ty, n - 1))
         == Prepend(acc, DecodeOptimizedMembers(s, ty, n))
  {
    PrependTwice(acc, Member(key, v), DecodeOptimizedMembers(s2, ty, n - 1));
  }

  lemma OptimizedMembersStops(s: seq<byte>, ty: byte, n: nat)
    requires n > 0
    ensures DecodeString(s).Fail? ==> DecodeOptimizedMembers(s, ty, n) == Fail(DecodeString(s).error)
    ensures DecodeString(s).Ok? && DecodeValueOf(DecodeString(s).rest, ty).Fail? ==>
      DecodeOptimizedMembers(s, ty, n) == Fail(DecodeValueOf(DecodeString(s).rest, ty).error)
  {
  }

  lemma SizedMembersAdvance(acc: seq<Member>, s: seq<byte>, n: nat, key: seq<byte>, s1: seq<byte>,
                            v: Value, s2: seq<byte>)
    requires n > 0 && DecodeString(s) == Ok(key, s1) && DecodeValue(s1) == Ok(v, s2)
    ensures Prepend(acc + [Member(key, v)], DecodeSizedMembers(s2, n - 1)) == Prepend(acc, DecodeSizedMembers(s, n))
  {
    PrependTwice(acc, Member(key, v), DecodeSizedMembers(s2, n - 1));
  }

  lemma SizedMembersStops(s: seq<byte>, n: nat)
    requires n > 0
    ensures DecodeString(s).Fail? ==> DecodeSizedMembers(s, n) == Fail(DecodeString(s).error)
    ensures DecodeString(s).Ok? && DecodeValue(DecodeString(s).rest).Fail? ==>
      DecodeSizedMembers(s, n) == Fail(DecodeValue(DecodeString(s).rest).error)
  {
  }

  lemma GenericMembersAdvance(acc: seq<Member>, s: seq<byte>, ty: byte, key: seq<byte>, s1: seq<byte>,
                              v: Value, s2: seq<byte>, next: byte, s3: seq<byte>)
    requires ty != OBJ_END && DecodeStringOf(s, ty) == Ok(key, s1) && DecodeValue(s1) == Ok(v, s2)
    requires DecodeByte(s2) == Ok(next, s3)
    ensures Prepend(acc + [Member(key, v)], DecodeGenericMembers(s3, next))
         == Prepend(acc, DecodeGenericMembers(s, ty))
  {
    PrependTwice(acc, Member(key, v), DecodeGenericMembers(s3, next));
  }

  lemma GenericMembersStops(s: seq<byte>, ty: byte)
    requires ty != OBJ_END
    ensures DecodeStringOf(s, ty).Fail? ==> DecodeGenericMembers(s, ty) == Fail(DecodeStringOf(s, ty).error)
    ensures DecodeStringOf(s, ty).Ok? && DecodeValue(DecodeStringOf(s, ty).rest).Fail? ==>
      DecodeGenericMembers(s, ty) == Fail(DecodeValue(DecodeStringOf(s, ty).rest).error)
    ensures (DecodeStringOf(s, ty).Ok? && DecodeValue(DecodeStringOf(s, ty).rest).Ok?
             && DecodeValue(DecodeStringOf(s, ty).rest).rest == []) ==> DecodeGenericMembers(s, ty) == Fail(EndOfInput)
  {
  }

  /** What a parser method returns: a value, or the exception it throws. */
  datatype Result<T> = Success(value: T) | Failure(error: DecodeError)

  function Min(a: nat, b: nat): nat
  {
    if a <= b then a else b
  }

  /**
   * `UbjsonParser` over an input stream holding `input`, of which `pos` bytes are
   * consumed; a bulk read delivers at most `chunk` bytes, as a socket or a pipe may.
   */
  class UbjsonParser {
    const input: seq<byte>
    const chunk: nat
    var pos: nat

    ghost predicate Valid()
      reads this
    {
      pos <= |input| && chunk > 0
    }

    /** The bytes the stream has not delivered yet. */
    ghost function Remaining(): seq<byte>
      reads this
      requires Valid()
    {
      input[pos..]
    }

    /** A method's outcome `r` and the new position are the ones decoding gives. */
    ghost predicate Agrees<T>(r: Result<T>, d: Decoded<T>)
      reads this
      requires Valid()
    {
      match d
      case Ok(v, rest) => r == Success(v) && Remaining() == rest
      case Fail(e) => r == Failure(e)
    }

    constructor (input: seq<byte>, chunk: nat)
      requires chunk > 0
      ensures Valid() && Remaining() == input && this.input == input && this.chunk == chunk
    {
      this.input := input;
      this.chunk := chunk;
      pos := 0;
    }

    /** `read()`: the next byte, or "Unexpected end of input". */
    method Read() returns (r: Result<byte>)
      requires Valid()
      modifies this
      ensures Valid() && Agrees(r, DecodeByte(old(Remaining())))
      ensures pos == if r.Success? then old(pos) + 1 else old(pos)
    {
      if pos == |input| {
        return Failure(EndOfInput);
      }
      r := Success(input[pos]);
      pos := pos + 1;
    }

    /**
     * `readUInt8`, `readInt16`, `readInt32`, `readInt64` before their casts: `width`
     * single-byte reads shifted together, most significant first.
     */
    method ReadBigEndian(width: nat) returns (r: Result<nat>)
      requires Valid()
      modifies this
      ensures Valid() && old(pos) <= pos
      ensures var s := old(Remaining());
        if |s| < width then r == Failure(EndOfInput)
        else r == Success(Unsigned(s[..width])) && Remaining() == s[width..]
    {
      var start := pos;
      var acc := 0;
      for i := 0 to width
        invariant Valid() && pos == start + i
        invariant acc == Unsigned(input[start..pos])
      {
        var b := Read();
        if b.Failure? {
          return Failure(EndOfInput);
        }
        assert input[start..pos][..i] == input[start..pos - 1];
        acc := acc * 256 + b.value;
      }
      assert old(Remaining())[..width] == input[start..pos];
      return Success(acc);
    }

    /** `readInt(type)`: the payload of an integer marker; all but 'U' are two's complement. */
    method ReadInt(ty: byte) returns (r: Result<Int64>)
      requires Valid()
      modifies this
      ensures Valid() && old(pos) <= pos && Agrees(r, DecodeInt(old(Remaining()), ty))
    {
      if !IsIntMarker(ty) {
        return Failure(NotAnInteger);
      }
      var w := IntWidth(ty);
      var u := ReadBigEndian(w);
      if u.Failure? {
        return Failure(u.error);
      }
      var x: int := u.value;
      Pow256Values();
      if ty != U_INT8 && 2 * x >= Pow256(w) {
        x := x - Pow256(w);
      }
      return Success(x);
    }

    /** `readInt()`: a marker, then its payload. */
    method ReadAnyInt() returns (r: Result<Int64>)
      requires Valid()
      modifies this
      ensures Valid() && old(pos) <= pos && Agrees(r, DecodeAnyInt(old(Remaining())))
    {
      var ty := Read();
      if ty.Failure? {
        return Failure(ty.error);
      }
      r := ReadInt(ty.value);
    }

    /**
     * `InputStream.read(b, off, len)`: up to `len` bytes into `b` from offset `off`,
     * no more than `chunk`; end of input when none is left; an overrun of `b` is refused.
     */
    method ReadInto(b: array<byte>, off: nat, len: nat) returns (r: Result<nat>)
      requires Valid()
      modifies this, b
      ensures Valid() && old(pos) <= pos
      ensures off + len > b.Length ==> r == Failure(IndexOutOfBounds)
      ensures off + len <= b.Length && len > 0 && old(pos) == |input| ==> r == Failure(EndOfInput)
      ensures off + len <= b.Length && (len == 0 || old(pos) < |input|) ==>
        r == Success(Min(Min(len, chunk), |input| - old(pos))) && pos == old(pos) + r.value
      ensures r.Success? ==> forall q :: 0 <= q < b.Length ==>
        b[q] == if off <= q < off + r.value then input[old(pos) + q - off] else old(b[q])
      ensures r.Failure? ==> pos == old(pos) && b[..] == old(b[..])
    {
      if off + len > b.Length {
        return Failure(IndexOutOfBounds);
      }
      if len > 0 && pos == |input| {
        return Failure(EndOfInput);
      }
      var k := Min(Min(len, chunk), |input| - pos);
      for j := 0 to k
        invariant Valid() && pos == old(pos)
        invariant forall q :: 0 <= q < b.Length ==>
          b[q] == if off <= q < off + j then input[pos + q - off] else old(b[q])
      {
        b[off + j] := input[pos + j];
      }
      pos := pos + k;
      return Success(k);
    }

    /**
     * `readString(sizeType)` with each bulk read asking for the `bytesLeft` still
     * missing: the loop ends with the buffer filled, or at end of input.
     */
    method ReadStringOf(sizeType: byte) returns (r: Result<seq<byte>>)
      requires Valid()
      modifies this
      ensures Valid() && old(pos) <= pos && Agrees(r, DecodeStringOf(old(Remaining()), sizeType))
    {
      var n := ReadInt(sizeType);
      if n.Failure? {
        return Failure(n.error);
      }
      var size := ToInt32(n.value);
      if size < 0 {
        return Failure(NegativeSize);
      }
      ghost var rest := Remaining();
      var start := pos;
      var bytes := new byte[size];
      var bytesLeft := size;
      var offset := 0;
      while bytesLeft > 0
        invariant Valid() && pos == start + offset && offset + bytesLeft == size && 0 <= bytesLeft
        invariant forall q :: 0 <= q < offset ==> bytes[q] == input[start + q]
        decreases bytesLeft
      {
        var got := ReadInto(bytes, offset, bytesLeft);
        if got.Failure? {
          assert got.error == EndOfInput;
          return Failure(EndOfInput);
        }
        bytesLeft := bytesLeft - got.value;
        offset := offset + got.value;
      }
      assert bytes[..] == rest[..size];
      assert Remaining() == rest[size..];
      return Success(bytes[..]);
    }

    /** `readString()`: a length marker, then the string. */
    method ReadString() returns (r: Result<seq<byte>>)
      requires Valid()
      modifies this
      ensures Valid() && old(pos) <= pos && Agrees(r, DecodeString(old(Remaining())))
    {
      var ty := Read();
      if ty.Failure? {
        return Failure(ty.error);
      }
      r := ReadStringOf(ty.value);
    }

    /** `parse()` and `readValue()`: a marker, then the value it introduces. */
    method ReadValue() returns (r: Result<Value>)
      requires Valid()
      modifies this
      ensures Valid() && old(pos) <= pos && Agrees(r, DecodeValue(old(Remaining())))
      decreases |input| - pos, 2
    {
      var ty := Read();
      if ty.Failure? {
        return Failure(ty.error);
      }
      r := ReadValueOf(ty.value);
    }

    /** `readValue(type)`: the value introduced by marker `ty`. */
    method ReadValueOf(ty: byte) returns (r: Result<Value>)
      requires Valid()
      modifies this
      ensures Valid() && old(pos) <= pos && Agrees(r, DecodeValueOf(old(Remaining()), ty))
      decreases |input| - pos, 2
    {
      if ty == NULL {
        r := Success(Null);
      } else if ty == TRUE {
        r := Success(Bool(true));
      } else if ty == FALSE {
        r := Success(Bool(false));
      } else if ty == CHAR || ty == INT8 {
        var b := Read();
        if b.Failure? {
          return Failure(b.error);
        }
        Pow256Values();
        r := Success(Int(Signed([b.value])));
      } else if ty == U_INT8 || ty == INT16 || ty == INT32 || ty == INT64 {
        var n := ReadInt(ty);
        if n.Failure? {
          return Failure(n.error);
        }
        r := Success(Int(n.value));
      } else if ty == FLOAT32 || ty == FLOAT64 {
        r := Failure(FloatNotModelled);
      } else if ty == STRING {
        var bs := ReadString();
        if bs.Failure? {
          return Failure(bs.error);
        }
        r := Success(Str(bs.value));
      } else if ty == ARRAY_START {
        r := ReadArray();
      } else if ty == OBJ_START {
        r := ReadObject();
      } else {
        r := Failure(UnrecognizedMarker(ty));
      }
    }

    /** `readArray()`: the optimized, sized or generic framing after '['. */
    method ReadArray() returns (r: Result<Value>)
      requires Valid()
      modifies this
      ensures Valid() && old(pos) <= pos && Agrees(r, DecodeArray(old(Remaining())))
      decreases |input| - pos, 1
    {
      var marker := Read();
      if marker.Failure? {
        return Failure(marker.error);
      }
      var es: Result<seq<Value>>;
      if marker.value == OPTIMIZED_TYPE {
        var ty := Read();
        if ty.Failure? {
          return Failure(ty.error);
        }
        var m := Read();
        if m.Failure? {
          return Failure(m.error);
        }
        if m.value != OPTIMIZED_SIZE {
          return Failure(MissingSizeMarker);
        }
        var n := ReadAnyInt();
        if n.Failure? {
          return Failure(n.error);
        }
        var size := ToInt32(n.value);
        if size < 0 {
          return Failure(NegativeSize);
        }
        es := ReadOptimizedArray(size, ty.value);
      } else if marker.value == OPTIMIZED_SIZE {
        var n := ReadAnyInt();
        if n.Failure? {
          return Failure(n.error);
        }
        var size := ToInt32(n.value);
        if size < 0 {
          return Failure(NegativeSize);
        }
        es := ReadSizedArray(size);
      } else {
        es := ReadGenericArray(marker.value);
      }
      if es.Failure? {
        return Failure(es.error);
      }
      r := Success(Array(es.value));
    }

    /** `readOptimizedArray(size, type)`: `size` payloads of type `ty`. */
    method ReadOptimizedArray(size: nat, ty: byte) returns (r: Result<seq<Value>>)
      requires Valid()
      modifies this
      ensures Valid() && old(pos) <= pos && Agrees(r, DecodeOptimizedElems(old(Remaining()), ty, size))
      decreases |input| - pos, 3
    {
      var elems: seq<Value> := [];
      ghost var s0 := Remaining();
      PrependNothing(DecodeOptimizedElems(s0, ty, size));
      var left := size;
      while left > 0
        invariant Valid() && old(pos) <= pos
        invariant Prepend(elems, DecodeOptimizedElems(Remaining(), ty, left)) == DecodeOptimizedElems(s0, ty, size)
      {
        ghost var s := Remaining();
        var v := ReadValueOf(ty);
        if v.Failure? {
          OptimizedElemsStops(s, ty, left);
          return Failure(v.error);
        }
        OptimizedElemsAdvance(elems, s, ty, left, v.value, Remaining());
        elems := elems + [v.value];
        left := left - 1;
      }
      assert elems + [] == elems;
      r := Success(elems);
    }

    /** `readSizedArray(size)`: `size` values, each with its own marker. */
    method ReadSizedArray(size: nat) returns (r: Result<seq<Value>>)
      requires Valid()
      modifies this
      ensures Valid() && old(pos) <= pos && Agrees(r, DecodeSizedElems(old(Remaining()), size))
      decreases |input| - pos, 3
    {
      var elems: seq<Value> := [];
      ghost var s0 := Remaining();
      PrependNothing(DecodeSizedElems(s0, size));
      var left := size;
      while left > 0
        invariant Valid() && old(pos) <= pos
        invariant Prepend(elems, DecodeSizedElems(Remaining(), left)) == DecodeSizedElems(s0, size)
      {
        ghost var s := Remaining();
        var v := ReadValue();
        if v.Failure? {
          SizedElemsStops(s, left);
          return Failure(v.error);
        }
        SizedElemsAdvance(elems, s, left, v.value, Remaining());
        elems := elems + [v.value];
        left := left - 1;
      }
      assert elems + [] == elems;
      r := Success(elems);
    }

    /** `readGenericArray(type)`: values up to ']', the first marker already read. */
    method ReadGenericArray(first: byte) returns (r: Result<seq<Value>>)
      requires Valid()
      modifies this
      ensures Valid() && old(pos) <= pos && Agrees(r, DecodeGenericElems(old(Remaining()), first))
      decreases |input| - pos, 3
    {
      var elems: seq<Value> := [];
      ghost var s0 := Remaining();
      PrependNothing(DecodeGenericElems(s0, first));
      var ty := first;
      while ty != ARRAY_END
        invariant Valid() && old(pos) <= pos
        invariant Prepend(elems, DecodeGenericElems(Remaining(), ty)) == DecodeGenericElems(s0, first)
        decreases |input| - pos
      {
        ghost var s := Remaining();
        GenericElemsStops(s, ty);
        var v := ReadValueOf(ty);
        if v.Failure? {
          return Failure(v.error);
        }
        ghost var s1 := Remaining();
        var next := Read();
        if next.Failure? {
          return Failure(next.error);
        }
        GenericElemsAdvance(elems, s, ty, v.value, s1, next.value, Remaining());
        elems := elems + [v.value];
        ty := next.value;
      }
      assert elems + [] == elems;
      r := Success(elems);
    }

    /** `readObject()`: the framing after '{'; a negative size reads no member. */
    method ReadObject() returns (r: Result<Value>)
      requires Valid()
      modifies this
      ensures Valid() && old(pos) <= pos && Agrees(r, DecodeObject(old(Remaining())))
      decreases |input| - pos, 1
    {
      var marker := Read();
      if marker.Failure? {
        return Failure(marker.error);
      }
      var ms: Result<seq<Member>>;
      if marker.value == OPTIMIZED_TYPE {
        var ty := Read();
        if ty.Failure? {
          return Failure(ty.error);
        }
        var m := Read();
        if m.Failure? {
          return Failure(m.error);
        }
        if m.value != OPTIMIZED_SIZE {
          return Failure(MissingSizeMarker);
        }
        var n := ReadAnyInt();
        if n.Failure? {
          return Failure(n.error);
        }
        var size := ToInt32(n.value);
        ms := ReadOptimizedObject(if size < 0 then 0 else size, ty.value);
      } else if marker.value == OPTIMIZED_SIZE {
        var n := ReadAnyInt();
        if n.Failure? {
          return Failure(n.error);
        }
        var size := ToInt32(n.value);
        ms := ReadSizedObject(if size < 0 then 0 else size);
      } else {
        ms := ReadGenericObject(marker.value);
      }
      if ms.Failure? {
        return Failure(ms.error);
      }
      r := Success(Object(ms.value));
    }

    /** `readOptimizedObject(size, type)`: `size` keys, each followed by a payload of type `ty`. */
    method ReadOptimizedObject(size: nat, ty: byte) returns (r: Result<seq<Member>>)
      requires Valid()
      modifies this
      ensures Valid() && old(pos) <= pos && Agrees(r, DecodeOptimizedMembers(old(Remaining()), ty, size))
      decreases |input| - pos, 3
    {
      var members: seq<Member> := [];
      ghost var s0 := Remaining();
      PrependNothing(DecodeOptimizedMembers(s0, ty, size));
      var left := size;
      while left > 0
        invariant Valid() && old(pos) <= pos
        invariant Prepend(members, DecodeOptimizedMembers(Remaining(), ty, left)) == DecodeOptimizedMembers(s0, ty, size)
      {
        ghost var s := Remaining();
        OptimizedMembersStops(s, ty, left);
        var key := ReadString();
        if key.Failure? {
          return Failure(key.error);
        }
        ghost var s1 := Remaining();
        var v := ReadValueOf(ty);
        if v.Failure? {
          return Failure(v.error);
        }
        OptimizedMembersAdvance(members, s, ty, left, key.value, s1, v.value, Remaining());
        members := members + [Member(key.value, v.value)];
        left := left - 1;
      }
      assert members + [] == members;
      r := Success(members);
    }

    /** `readSizedObject(size)`: `size` keys, each followed by a marked value. */
    method ReadSizedObject(size: nat) returns (r: Result<seq<Member>>)
      requires Valid()
      modifies this
      ensures Valid() && old(pos) <= pos && Agrees(r, DecodeSizedMembers(old(Remaining()), size))
      decreases |input| - pos, 3
    {
      var members: seq<Member> := [];
      ghost var s0 := Remaining();
      PrependNothing(DecodeSizedMembers(s0, size));
      var left := size;
      while left > 0
        invariant Valid() && old(pos) <= pos
        invariant Prepend(members, DecodeSizedMembers(Remaining(), left)) == DecodeSizedMembers(s0, size)
      {
        ghost var s := Remaining();
        SizedMembersStops(s, left);
        var key := ReadString();
        if key.Failure? {
          return Failure(key.error);
        }
        ghost var s1 := Remaining();
        var v := ReadValue();
        if v.Failure? {
          return Failure(v.error);
        }
        SizedMembersAdvance(members, s, left, key.value, s1, v.value, Remaining());
        members := members + [Member(key.value, v.value)];
        left := left - 1;
      }
      assert members + [] == members;
      r := Success(members);
    }

    /** `readGenericObject(type)`: members up to '}'; `first` is the first key's length marker. */
    method ReadGenericObject(first: byte) returns (r: Result<seq<Member>>)
      requires Valid()
      modifies this
      ensures Valid() && old(pos) <= pos && Agrees(r, DecodeGenericMembers(old(Remaining()), first))
      decreases |input| - pos, 3
    {
      var members: seq<Member> := [];
      ghost var s0 := Remaining();
      PrependNothing(DecodeGenericMembers(s0, first));
      var ty := first;
      while ty != OBJ_END
        invariant Valid() && old(pos) <= pos
        invariant Prepend(members, DecodeGenericMembers(Remaining(), ty)) == DecodeGenericMembers(s0, first)
        decreases |input| - pos
      {
        ghost var s := Remaining();
        GenericMembersStops(s, ty);
        var key := ReadStringOf(ty);
        if key.Failure? {
          return Failure(key.error);
        }
        ghost var s1 := Remaining();
        var v := ReadValue();
        if v.Failure? {
          return Failure(v.error);
        }
        ghost var s2 := Remaining();
        var next := Read();
        if next.Failure? {
          return Failure(next.error);
        }
        GenericMembersAdvance(members, s, ty, key.value, s1, v.value, s2, next.value, Remaining());
        members := members + [Member(key.value, v.value)];
        ty := next.value;
      }
      assert members + [] == members;
      r := Success(members);
    }
  }
}
