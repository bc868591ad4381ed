/** The single-byte markers of the binary format (Universal Binary JSON, Draft 12). */
module UBMarker {

  /** One octet of the byte stream, read as an unsigned value. */
  type byte = b: int | 0 <= b < 256

  /** Null value */
  const NULL: byte := 'Z' as int
  /** True literal */
  const TRUE: byte := 'T' as int
  /** False literal */
  const FALSE: byte := 'F' as int
  /** Single character */
  const CHAR: byte := 'C' as int
  /** 8-bit integer */
  const INT8: byte := 'i' as int
  /** Unsigned 8-bit integer */
  const U_INT8: byte := 'U' as int
  /** 16-bit integer */
  const INT16: byte := 'I' as int
  /** 32-bit integer */
  const INT32: byte := 'l' as int
  /** 64-bit integer */
  const INT64: byte := 'L' as int
  /** 32-bit float */
  const FLOAT32: byte := 'd' as int
  /** 64-bit float */
  const FLOAT64: byte := 'D' as int
  /** Character array */
  const STRING: byte := 'S' as int
  /** Array opener */
  const ARRAY_START: byte := '[' as int
  /** Array closer */
  const ARRAY_END: byte := ']' as int
  /** Object opener */
  const OBJ_START: byte := '{' as int
  /** Object closer */
  const OBJ_END: byte := '}' as int
  /** Typed container indicator */
  const OPTIMIZED_TYPE: byte := '$' as int
  /** Container size indicator */
  const OPTIMIZED_SIZE: byte := '#' as int

  /** Every marker, in declaration order. */
  const Markers: seq<byte> := [NULL, TRUE, FALSE, CHAR, INT8, U_INT8, INT16, INT32, INT64,
                               FLOAT32, FLOAT64, STRING, ARRAY_START, ARRAY_END, OBJ_START,
                               OBJ_END, OPTIMIZED_TYPE, OPTIMIZED_SIZE]

  /** The five integer markers. */
  predicate IsIntMarker(m: byte)
  {
    m == U_INT8 || m == INT8 || m == INT16 || m == INT32 || m == INT64
  }

  /** Payload width, in bytes, of an integer marker. */
  function IntWidth(m: byte): nat
  {
    if m == INT8 || m == U_INT8 then 1 else if m == INT16 then 2 else if m == INT32 then 4 else 8
  }

  /** The markers a value written by the encoder can start with. */
  predicate IsValueMarker(m: byte)
  {
    m == NULL || m == TRUE || m == FALSE || m == U_INT8 || m == INT8 || m == INT16
    || m == INT32 || m == INT64 || m == STRING || m == ARRAY_START || m == OBJ_START
  }

  /** The eighteen markers are pairwise distinct, so a decoder can dispatch on one byte. */
  lemma MarkersDistinct()
    ensures |Markers| == 18
    ensures forall i, j :: 0 <= i < j < |Markers| ==> Markers[i] != Markers[j]
  {
  }

  /** A value marker is never a container closer nor one of the two optimization markers. */
  lemma ValueMarkersAreNotFraming(m: byte)
    requires IsValueMarker(m)
    ensures m != ARRAY_END && m != OBJ_END && m != OPTIMIZED_TYPE && m != OPTIMIZED_SIZE
  {
  }
}
