/**
 * The binary writer: a deterministic function from a value tree and a compression
 * mode to bytes (the `Encode...` functions), and the stateful writer that appends
 * exactly those bytes to its output (class `UbjsonWriter`).
 */
module UbjsonWriting {
  import opened UBMarker
  import opened UBTyping
  import opened JsonValue
  import opened BigEndian
  import opened Sequences

  const U_INT_8_MIN: int := 0
  const U_INT_8_MAX: int := 255
  const INT_8_MIN: int := -128
  const INT_8_MAX: int := 127
  const INT_16_MIN: int := -0x8000
  const INT_16_MAX: int := 0x7FFF

  /** Whether `v` lies in the range of the integer marker `m`. */
  predicate InRange(m: byte, v: int)
  {
    if m == U_INT8 then U_INT_8_MIN <= v <= U_INT_8_MAX
    else if m == INT8 then INT_8_MIN <= v <= INT_8_MAX
    else if m == INT16 then INT_16_MIN <= v <= INT_16_MAX
    else if m == INT32 then INT_32_MIN <= v <= INT_32_MAX
    else if m == INT64 then INT_64_MIN <= v <= INT_64_MAX
    else false
  }

  /** The integral branch of `getNumberType(min, max)`: the first type, in preference order, covering both bounds. */
  function NumberType(min: int, max: int): byte
  {
    if min >= U_INT_8_MIN && max <= U_INT_8_MAX then U_INT8
    else if min >= INT_8_MIN && max <= INT_8_MAX then INT8
    else if min >= INT_16_MIN && max <= INT_16_MAX then INT16
    else if min >= INT_32_MIN && max <= INT_32_MAX then INT32
    else INT64
  }

  /** `writeInt`: a marker chosen by range, then the payload of that width. */
  function EncodeInt(v: int): seq<byte>
  {
    if U_INT_8_MIN <= v <= U_INT_8_MAX then [U_INT8] + Bytes(v, 1)
    else if INT_8_MIN <= v <= INT_8_MAX then [INT8] + Bytes(v, 1)
    else if INT_16_MIN <= v <= INT_16_MAX then [INT16] + Bytes(v, 2)
    else if INT_32_MIN <= v <= INT_32_MAX then [INT32] + Bytes(v, 4)
    else [INT64] + Bytes(v, 8)
  }

  /** `writeInt` as the source has it: `writeInt64` emits the INT32 marker before its eight bytes. */
  function EncodeIntAsWritten(v: int): seq<byte>
  {
    if INT_32_MIN <= v <= INT_32_MAX then EncodeInt(v) else [INT32] + Bytes(v, 8)
  }

  predicate IsMarkerOnly(m: byte)
  {
    m == TRUE || m == FALSE || m == NULL
  }

  predicate IsSingleByte(m: byte)
  {
    m == INT8 || m == U_INT8
  }

  /** `getType`: the marker a value is written with. */
  function TypeOf(v: Value): byte
  {
    match v
    case Str(_) => STRING
    case Bool(b) => if b then TRUE else FALSE
    case Array(_) => ARRAY_START
    case Object(_) => OBJ_START
    case Int(n) => NumberType(n, n)
    case Null => NULL
  }

  predicate AllInts(vs: seq<Value>)
  {
    forall i :: 0 <= i < |vs| ==> vs[i].Int?
  }

  function SeqMin(vs: seq<Value>): int
    requires |vs| > 0 && AllInts(vs)
  {
    if |vs| == 1 then vs[0].n
    else var m := SeqMin(vs[..|vs| - 1]); if vs[|vs| - 1].n < m then vs[|vs| - 1].n else m
  }

  function SeqMax(vs: seq<Value>): int
    requires |vs| > 0 && AllInts(vs)
  {
    if |vs| == 1 then vs[0].n
    else var m := SeqMax(vs[..|vs| - 1]); if vs[|vs| - 1].n > m then vs[|vs| - 1].n else m
  }

  /** `getNumberType(container)`: no shared type unless every element is a number. */
  function ContainerNumberType(vs: seq<Value>): byte
    requires |vs| > 0
  {
    if AllInts(vs) then NumberType(SeqMin(vs), SeqMax(vs)) else 0
  }

  /** `getContainerType`: the one type shared by every element, or 0. */
  function ContainerType(vs: seq<Value>): byte
    requires |vs| > 0
  {
    if vs[0].Int? then ContainerNumberType(vs)
    else if IsMarkerOnly(TypeOf(vs[0])) then 0
    else if forall i :: 1 <= i < |vs| ==> TypeOf(vs[i]) == TypeOf(vs[0]) then TypeOf(vs[0])
    else 0
  }

  function MinCompressionSize(t: Typing): nat
  {
    if t == STRONG then 1 else 2
  }

  /** `getCompressionType`: the shared element type used for optimized framing, or 0 for none. */
  function CompressionType(vs: seq<Value>, t: Typing): byte
  {
    if |vs| < MinCompressionSize(t) then 0
    else
      var ty := ContainerType(vs);
      if t != STRONG && IsSingleByte(ty) && |vs| < 5 then 0 else ty
  }

  /** Whether `writeRawValue(v, ty)` can write `v` as a payload of type `ty`. */
  predicate FitsType(v: Value, ty: byte)
  {
    if IsIntMarker(ty) then v.Int? && InRange(ty, v.n)
    else if ty == STRING then v.Str?
    else if ty == ARRAY_START then v.Array?
    else if ty == OBJ_START then v.Object?
    else if ty == NULL then v == Null
    else if ty == TRUE then v == Bool(true)
    else if ty == FALSE then v == Bool(false)
    else false
  }

  /** `writeValue`: a marker, then the payload. */
  function EncodeValue(v: Value, t: Typing): seq<byte>
    decreases v, 0
  {
    match v
    case Null => [NULL]
    case Bool(b) => [if b then TRUE else FALSE]
    case Int(n) => EncodeInt(n)
    case Str(bs) => [STRING] + EncodeRawString(bs)
    case Array(es) => [ARRAY_START] + EncodeRawArray(es, t)
    case Object(ms) => [OBJ_START] + EncodeRawObject(ms, t)
  }

  /** `writeRawValue`: the payload alone, read back by a decoder that already knows the type. */
  function EncodeRaw(v: Value, ty: byte, t: Typing): seq<byte>
    requires FitsType(v, ty)
    decreases v, 0
  {
    if IsIntMarker(ty) then Bytes(v.n, IntWidth(ty))
    else if ty == STRING then EncodeRawString(v.bytes)
    else if ty == ARRAY_START then EncodeRawArray(v.elems, t)
    else if ty == OBJ_START then EncodeRawObject(v.members, t)
    else []
  }

  /** `writeRawString`: the byte length as an integer, then the bytes. */
  function EncodeRawString(bs: seq<byte>): seq<byte>
  {
    EncodeInt(|bs|) + bs
  }

  /** `writeRawArray`: the framing after the opener. */
  function EncodeRawArray(es: seq<Value>, t: Typing): seq<byte>
    decreases es, 2
  {
    if |es| == 0 then [ARRAY_END]
    else if t == WEAK then EncodeGenericArray(es, t)
    else
      var ty := CompressionType(es, t);
      if ty != 0 then CompressionTypeFits(es, t); EncodeOptimizedArray(es, ty, t)
      else if t == COMPRESSED then EncodeGenericArray(es, t)
      else EncodeSizedArray(es, t)
  }

  function EncodeSizedArray(es: seq<Value>, t: Typing): seq<byte>
    decreases es, 1
  {
    [OPTIMIZED_SIZE] + EncodeInt(|es|) + EncodeValues(es, t)
  }

  function EncodeGenericArray(es: seq<Value>, t: Typing): seq<byte>
    decreases es, 1
  {
    EncodeValues(es, t) + [ARRAY_END]
  }

  function EncodeOptimizedArray(es: seq<Value>, ty: byte, t: Typing): seq<byte>
    requires forall i :: 0 <= i < |es| ==> FitsType(es[i], ty)
    decreases es, 1
  {
    [OPTIMIZED_TYPE, ty, OPTIMIZED_SIZE] + EncodeInt(|es|) + EncodeRaws(es, ty, t)
  }

  function EncodeValues(es: seq<Value>, t: Typing): seq<byte>
    decreases es, 0
  {
    if es == [] then [] else EncodeValue(es[0], t) + EncodeValues(es[1..], t)
  }

  function EncodeRaws(es: seq<Value>, ty: byte, t: Typing): seq<byte>
    requires forall i :: 0 <= i < |es| ==> FitsType(es[i], ty)
    decreases es, 0
  {
    if es == [] then [] else EncodeRaw(es[0], ty, t) + EncodeRaws(es[1..], ty, t)
  }

  /** `writeRawObject`: the framing after the opener; keys are always length-prefixed. */
  function EncodeRawObject(ms: seq<Member>, t: Typing): seq<byte>
    decreases ms, 2
  {
    if |ms| == 0 then [OBJ_END]
    else if t == WEAK then EncodeGenericObject(ms, t)
    else
      var ty := CompressionType(Values(ms), t);
      if ty != 0 then CompressionTypeFits(Values(ms), t); EncodeOptimizedObject(ms, ty, t)
      else if t == COMPRESSED then EncodeGenericObject(ms, t)
      else EncodeSizedObject(ms, t)
  }

  function EncodeSizedObject(ms: seq<Member>, t: Typing): seq<byte>
    decreases ms, 1
  {
    [OPTIMIZED_SIZE] + EncodeInt(|ms|) + EncodeMembers(ms, t)
  }

  function EncodeGenericObject(ms: seq<Member>, t: Typing): seq<byte>
    decreases ms, 1
  {
    EncodeMembers(ms, t) + [OBJ_END]
  }

  function EncodeOptimizedObject(ms: seq<Member>, ty: byte, t: Typing): seq<byte>
    requires forall i :: 0 <= i < |ms| ==> FitsType(ms[i].value, ty)
    decreases ms, 1
  {
    [OPTIMIZED_TYPE, ty, OPTIMIZED_SIZE] + EncodeInt(|ms|) + EncodeRawMembers(ms, ty, t)
  }

  function EncodeMembers(ms: seq<Member>, t: Typing): seq<byte>
    decreases ms, 0
  {
    if ms == [] then []
    else EncodeRawString(ms[0].key) + EncodeValue(ms[0].value, t) + EncodeMembers(ms[1..], t)
  }

  function EncodeRawMembers(ms: seq<Member>, ty: byte, t: Typing): seq<byte>
    requires forall i :: 0 <= i < |ms| ==> FitsType(ms[i].value, ty)
    decreases ms, 0
  {
    if ms == [] then []
    else EncodeRawString(ms[0].key) + EncodeRaw(ms[0].value, ty, t) + EncodeRawMembers(ms[1..], ty, t)
  }

  lemma {:induction false} SeqMinMaxBound(vs: seq<Value>, i: nat)
    requires 0 < |vs| && AllInts(vs) && i < |vs|
    ensures SeqMin(vs) <= vs[i].n <= SeqMax(vs)
    decreases |vs|
  {
    if |vs| > 1 && i < |vs| - 1 {
      SeqMinMaxBound(vs[..|vs| - 1], i);
    }
  }

  /** The type chosen for a range covers every integer in the range. */
  lemma NumberTypeCovers(min: int, max: int, v: int)
    requires min <= v <= max && INT_64_MIN <= v <= INT_64_MAX
    ensures IsIntMarker(NumberType(min, max)) && InRange(NumberType(min, max), v)
  {
  }

  /** Every value fits the type it would be written with. */
  lemma TypeOfFits(v: Value)
    ensures FitsType(v, TypeOf(v))
  {
    if v.Int? {
      NumberTypeCovers(v.n, v.n, v.n);
    }
  }

  /**
   * A shared type is never marker-only, and every element of the container can be
   * written as a raw payload of that type.
   */
  lemma CompressionTypeFits(vs: seq<Value>, t: Typing)
    requires CompressionType(vs, t) != 0
    ensures !IsMarkerOnly(CompressionType(vs, t))
    ensures forall i :: 0 <= i < |vs| ==> FitsType(vs[i], CompressionType(vs, t))
  {
    var ty := CompressionType(vs, t);
    if vs[0].Int? {
      forall i | 0 <= i < |vs| ensures FitsType(vs[i], ty) {
        SeqMinMaxBound(vs, i);
        NumberTypeCovers(SeqMin(vs), SeqMax(vs), vs[i].n);
      }
    } else {
      forall i | 0 <= i < |vs| ensures FitsType(vs[i], ty) {
        TypeOfFits(vs[i]);
      }
    }
  }

  /** A scalar integer is written with the narrowest marker whose range holds it, then that many bytes. */
  lemma EncodeIntShape(v: int)
    ensures EncodeInt(v) == [NumberType(v, v)] + Bytes(v, IntWidth(NumberType(v, v)))
    ensures IsIntMarker(NumberType(v, v))
  {
  }

  /** Every encoded value starts with the marker of its type, never a closer or an optimization marker. */
  lemma EncodeValueHead(v: Value, t: Typing)
    ensures |EncodeValue(v, t)| > 0 && EncodeValue(v, t)[0] == TypeOf(v)
    ensures IsValueMarker(EncodeValue(v, t)[0])
  {
    if v.Int? {
      EncodeIntShape(v.n);
    }
  }

  /**
   * `getNumberType(container)` starts its running maximum at INT_32_MIN and its
   * running minimum at INT_32_MAX; the clamped bounds select the same type as the
   * true ones.
   */
  lemma ClampedBoundsSameType(lo: int, hi: int)
    requires lo <= hi
    ensures NumberType(if lo < INT_32_MAX then lo else INT_32_MAX, if hi > INT_32_MIN then hi else INT_32_MIN)
         == NumberType(lo, hi)
  {
  }

  /** The writer: `output` is everything written so far. */
  class UbjsonWriter {
    var output: seq<byte>
    const typing: Typing

    /** A writer with the given compression mode; a file writer defaults to `DefaultFileTyping`. */
    constructor (typing: Typing)
      ensures this.typing == typing && output == []
    {
      this.typing := typing;
      output := [];
    }

    method WriteNull()
      modifies this
      ensures output == old(output) + [NULL]
    {
      output := output + [NULL];
    }

    method WriteBool(b: bool)
      modifies this
      ensures output == old(output) + [if b then TRUE else FALSE]
    {
      output := output + [if b then TRUE else FALSE];
    }

    /** `writeRawInt8` ... `writeRawInt64`: the low `width` bytes of `v`, most significant first. */
    method WriteRawInt(v: int, width: nat)
      modifies this
      ensures output == old(output) + Bytes(v, width)
    {
      var x := v;
      var chunk: seq<byte> := [];
      for i := 0 to width
        invariant Bytes(x, width - i) + chunk == Bytes(v, width)
        invariant output == old(output)
      {
        AppendAssoc(Bytes(x / 256, width - i - 1), [x % 256], chunk);
        chunk := [x % 256] + chunk;
        x := x / 256;
      }
      assert [] + chunk == chunk;
      output := output + chunk;
    }

    method WriteInt(v: int)
      modifies this
      ensures output == old(output) + EncodeInt(v)
    {
      if U_INT_8_MIN <= v <= U_INT_8_MAX {
        output := output + [U_INT8];
        WriteRawInt(v, 1);
        AppendAssoc(old(output), [U_INT8], Bytes(v, 1));
      } else if INT_8_MIN <= v <= INT_8_MAX {
        output := output + [INT8];
        WriteRawInt(v, 1);
        AppendAssoc(old(output), [INT8], Bytes(v, 1));
      } else if INT_16_MIN <= v <= INT_16_MAX {
        output := output + [INT16];
        WriteRawInt(v, 2);
        AppendAssoc(old(output), [INT16], Bytes(v, 2));
      } else if INT_32_MIN <= v <= INT_32_MAX {
        output := output + [INT32];
        WriteRawInt(v, 4);
        AppendAssoc(old(output), [INT32], Bytes(v, 4));
      } else {
        output := output + [INT64];
        WriteRawInt(v, 8);
        AppendAssoc(old(output), [INT64], Bytes(v, 8));
      }
    }

    method WriteRawString(bs: seq<byte>)
      modifies this
      ensures output == old(output) + EncodeRawString(bs)
    {
      WriteInt(|bs|);
      output := output + bs;
      AppendAssoc(old(output), EncodeInt(|bs|), bs);
    }

    method WriteString(bs: seq<byte>)
      modifies this
      ensures output == old(output) + [STRING] + EncodeRawString(bs)
    {
      output := output + [STRING];
      WriteRawString(bs);
    }

    method WriteValue(v: Value)
      modifies this
      ensures output == old(output) + EncodeValue(v, typing)
      decreases v, 0
    {
      match v
      case Int(n) => WriteInt(n);
      case Array(es) => WriteArray(es);
      case Object(ms) => WriteObject(ms);
      case Bool(b) => WriteBool(b);
      case Str(bs) => WriteString(bs);
      case Null => WriteNull();
    }

    method WriteRawValue(v: Value, ty: byte)
      requires FitsType(v, ty)
      modifies this
      ensures output == old(output) + EncodeRaw(v, ty, typing)
      decreases v, 0
    {
      if IsIntMarker(ty) {
        WriteRawInt(v.n, IntWidth(ty));
      } else if ty == STRING {
        WriteRawString(v.bytes);
      } else if ty == ARRAY_START {
        WriteRawArray(v.elems);
      } else if ty == OBJ_START {
        WriteRawObject(v.members);
      }
    }

    method WriteArray(es: seq<Value>)
      modifies this
      ensures output == old(output) + [ARRAY_START] + EncodeRawArray(es, typing)
      decreases es, 3
    {
      output := output + [ARRAY_START];
      WriteRawArray(es);
    }

    method WriteRawArray(es: seq<Value>)
      modifies this
      ensures output == old(output) + EncodeRawArray(es, typing)
      decreases es, 2
    {
      if |es| == 0 {
        output := output + [ARRAY_END];
      } else if typing == WEAK {
        WriteGenericArray(es);
      } else {
        var ty := GetCompressionType(es);
        if ty != 0 {
          CompressionTypeFits(es, typing);
          WriteOptimizedArray(es, ty);
        } else if typing == COMPRESSED {
          WriteGenericArray(es);
        } else {
          WriteSizedArray(es);
        }
      }
    }

    /** The elements written one after another, each with its own marker. */
    method WriteElements(es: seq<Value>)
      modifies this
      ensures output == old(output) + EncodeValues(es, typing)
      decreases es, 0
    {
      for i := 0 to |es|
        invariant output + EncodeValues(es[i..], typing) == old(output) + EncodeValues(es, typing)
      {
        assert es[i..][1..] == es[i + 1..];
        AppendAssoc(output, EncodeValue(es[i], typing), EncodeValues(es[i + 1..], typing));
        WriteValue(es[i]);
      }
    }

    /** The elements written one after another as payloads of type `ty`. */
    method WriteRawElements(es: seq<Value>, ty: byte)
      requires forall i :: 0 <= i < |es| ==> FitsType(es[i], ty)
      modifies this
      ensures output == old(output) + EncodeRaws(es, ty, typing)
      decreases es, 0
    {
      for i := 0 to |es|
        invariant output + EncodeRaws(es[i..], ty, typing) == old(output) + EncodeRaws(es, ty, typing)
      {
        assert es[i..][1..] == es[i + 1..];
        AppendAssoc(output, EncodeRaw(es[i], ty, typing), EncodeRaws(es[i + 1..], ty, typing));
        WriteRawValue(es[i], ty);
      }
    }

    method WriteSizedArray(es: seq<Value>)
      modifies this
      ensures output == old(output) + EncodeSizedArray(es, typing)
      decreases es, 1
    {
      output := output + [OPTIMIZED_SIZE];
      WriteInt(|es|);
      AppendAssoc(old(output), [OPTIMIZED_SIZE], EncodeInt(|es|));
      WriteElements(es);
      AppendAssoc(old(output), [OPTIMIZED_SIZE] + EncodeInt(|es|), EncodeValues(es, typing));
    }

    method WriteGenericArray(es: seq<Value>)
      modifies this
      ensures output == old(output) + EncodeGenericArray(es, typing)
      decreases es, 1
    {
      WriteElements(es);
      output := output + [ARRAY_END];
      AppendAssoc(old(output), EncodeValues(es, typing), [ARRAY_END]);
    }

    method WriteOptimizedArray(es: seq<Value>, ty: byte)
      requires forall i :: 0 <= i < |es| ==> FitsType(es[i], ty)
      modifies this
      ensures output == old(output) + EncodeOptimizedArray(es, ty, typing)
      decreases es, 1
    {
      output := output + [OPTIMIZED_TYPE, ty, OPTIMIZED_SIZE];
      WriteInt(|es|);
      AppendAssoc(old(output), [OPTIMIZED_TYPE, ty, OPTIMIZED_SIZE], EncodeInt(|es|));
      WriteRawElements(es, ty);
      AppendAssoc(old(output), [OPTIMIZED_TYPE, ty, OPTIMIZED_SIZE] + EncodeInt(|es|), EncodeRaws(es, ty, typing));
    }

    method WriteObject(ms: seq<Member>)
      modifies this
      ensures output == old(output) + [OBJ_START] + EncodeRawObject(ms, typing)
      decreases ms, 3
    {
      output := output + [OBJ_START];
      WriteRawObject(ms);
    }

    method WriteRawObject(ms: seq<Member>)
      modifies this
      ensures output == old(output) + EncodeRawObject(ms, typing)
      decreases ms, 2
    {
      if |ms| == 0 {
        output := output + [OBJ_END];
      } else if typing == WEAK {
        WriteGenericObject(ms);
      } else {
        var ty := GetCompressionType(Values(ms));
        if ty != 0 {
          CompressionTypeFits(Values(ms), typing);
          WriteOptimizedObject(ms, ty);
        } else if typing == COMPRESSED {
          WriteGenericObject(ms);
        } else {
          WriteSizedObject(ms);
        }
      }
    }

    /** Each member as its length-prefixed key followed by its marked value. */
    method WriteMembers(ms: seq<Member>)
      modifies this
      ensures output == old(output) + EncodeMembers(ms, typing)
      decreases ms, 0
    {
      for i := 0 to |ms|
        invariant output + EncodeMembers(ms[i..], typing) == old(output) + EncodeMembers(ms, typing)
      {
        assert ms[i..][1..] == ms[i + 1..];
        ghost var key, value := EncodeRawString(ms[i].key), EncodeValue(ms[i].value, typing);
        AppendAssoc(output, key + value, EncodeMembers(ms[i + 1..], typing));
        AppendAssoc(output, key, value);
        WriteRawString(ms[i].key);
        WriteValue(ms[i].value);
      }
    }

    /** Each member as its length-prefixed key followed by its value as a payload of type `ty`. */
    method WriteRawMembers(ms: seq<Member>, ty: byte)
      requires forall i :: 0 <= i < |ms| ==> FitsType(ms[i].value, ty)
      modifies this
      ensures output == old(output) + EncodeRawMembers(ms, ty, typing)
      decreases ms, 0
    {
      for i := 0 to |ms|
        invariant output + EncodeRawMembers(ms[i..], ty, typing) == old(output) + EncodeRawMembers(ms, ty, typing)
      {
        assert ms[i..][1..] == ms[i + 1..];
        ghost var key, value := EncodeRawString(ms[i].key), EncodeRaw(ms[i].value, ty, typing);
        AppendAssoc(output, key + value, EncodeRawMembers(ms[i + 1..], ty, typing));
        AppendAssoc(output, key, value);
        WriteRawString(ms[i].key);
        WriteRawValue(ms[i].value, ty);
      }
    }

    method WriteSizedObject(ms: seq<Member>)
      modifies this
      ensures output == old(output) + EncodeSizedObject(ms, typing)
      decreases ms, 1
    {
      output := output + [OPTIMIZED_SIZE];
      WriteInt(|ms|);
      AppendAssoc(old(output), [OPTIMIZED_SIZE], EncodeInt(|ms|));
      WriteMembers(ms);
      AppendAssoc(old(output), [OPTIMIZED_SIZE] + EncodeInt(|ms|), EncodeMembers(ms, typing));
    }

    method WriteGenericObject(ms: seq<Member>)
      modifies this
      ensures output == old(output) + EncodeGenericObject(ms, typing)
      decreases ms, 1
    {
      WriteMembers(ms);
      output := output + [OBJ_END];
      AppendAssoc(old(output), EncodeMembers(ms, typing), [OBJ_END]);
    }

    method WriteOptimizedObject(ms: seq<Member>, ty: byte)
      requires forall i :: 0 <= i < |ms| ==> FitsType(ms[i].value, ty)
      modifies this
      ensures output == old(output) + EncodeOptimizedObject(ms, ty, typing)
      decreases ms, 1
    {
      output := output + [OPTIMIZED_TYPE, ty, OPTIMIZED_SIZE];
      WriteInt(|ms|);
      AppendAssoc(old(output), [OPTIMIZED_TYPE, ty, OPTIMIZED_SIZE], EncodeInt(|ms|));
      WriteRawMembers(ms, ty);
      AppendAssoc(old(output), [OPTIMIZED_TYPE, ty, OPTIMIZED_SIZE] + EncodeInt(|ms|), EncodeRawMembers(ms, ty, typing));
    }

    method GetCompressionType(vs: seq<Value>) returns (ty: byte)
      ensures ty == CompressionType(vs, typing)
    {
      var minSize := if typing == STRONG then 1 else 2;
      if |vs| < minSize {
        return 0;
      }
      ty := GetContainerType(vs);
      if typing != STRONG {
        if IsSingleByte(ty) && |vs| < 5 {
          return 0;
        }
      }
    }

    method GetContainerType(vs: seq<Value>) returns (ty: byte)
      requires |vs| > 0
      ensures ty == ContainerType(vs)
    {
      if vs[0].Int? {
        ty := GetNumberType(vs);
        return;
      }
      ty := TypeOf(vs[0]);
      if IsMarkerOnly(ty) {
        return 0;
      }
      for i := 1 to |vs|
        invariant forall j :: 1 <= j < i ==> TypeOf(vs[j]) == ty
      {
        if ty != TypeOf(vs[i]) {
          return 0;
        }
      }
    }

    /** `getNumberType(container)`, with its running bounds seeded at the opposite ends of the 32-bit range. */
    method GetNumberType(vs: seq<Value>) returns (ty: byte)
      requires |vs| > 0
      ensures ty == ContainerNumberType(vs)
    {
      var max := INT_32_MIN;
      var min := INT_32_MAX;
      for i := 0 to |vs|
        invariant AllInts(vs[..i])
        invariant i == 0 ==> max == INT_32_MIN && min == INT_32_MAX
        invariant i > 0 ==> max == (if SeqMax(vs[..i]) > INT_32_MIN then SeqMax(vs[..i]) else INT_32_MIN)
        invariant i > 0 ==> min == (if SeqMin(vs[..i]) < INT_32_MAX then SeqMin(vs[..i]) else INT_32_MAX)
      {
        if !vs[i].Int? {
          return 0;
        }
        assert vs[..i + 1][..i] == vs[..i];
        max := if vs[i].n > max then vs[i].n else max;
        min := if vs[i].n < min then vs[i].n else min;
      }
      assert vs[..|vs|] == vs;
      SeqMinMaxBound(vs, 0);
      ClampedBoundsSameType(SeqMin(vs), SeqMax(vs));
      ty := NumberType(min, max);
    }
  }
}
