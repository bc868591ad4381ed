/** The value tree that the binary codec writes and reads. */
module JsonValue {
  import opened UBMarker

  const INT_32_MIN: int := -0x8000_0000
  const INT_32_MAX: int := 0x7FFF_FFFF
  const INT_64_MIN: int := -0x8000_0000_0000_0000
  const INT_64_MAX: int := 0x7FFF_FFFF_FFFF_FFFF

  /** A Java `long`: the integral numbers the binary codec writes and reads. */
  type Int64 = n: int | INT_64_MIN <= n <= INT_64_MAX

  /**
   * Null, booleans, integral numbers, strings (as their encoded bytes), arrays and
   * objects (ordered members, in insertion order).
   */
  datatype Value =
    | Null
    | Bool(b: bool)
    | Int(n: Int64)
    | Str(bytes: seq<byte>)
    | Array(elems: seq<Value>)
    | Object(members: seq<Member>)

  datatype Member = Member(key: seq<byte>, value: Value)

  /** The values of an object's members, in order. */
  function Values(ms: seq<Member>): (vs: seq<Value>)
    ensures |vs| == |ms|
    ensures forall i :: 0 <= i < |ms| ==> vs[i] == ms[i].value
  {
    if ms == [] then [] else [ms[0].value] + Values(ms[1..])
  }

  /**
   * Every length the encoder writes fits a Java `int`: byte arrays and
   * containers are indexed by `int`, and the decoder casts each size to `int`.
   */
  ghost predicate Encodable(v: Value)
    decreases v, 1
  {
    match v
    case Str(bs) => |bs| <= INT_32_MAX
    case Array(es) => |es| <= INT_32_MAX && EncodableElems(es)
    case Object(ms) => |ms| <= INT_32_MAX && EncodableMembers(ms)
    case _ => true
  }

  ghost predicate EncodableElems(es: seq<Value>)
    decreases es, 0
  {
    es == [] || (Encodable(es[0]) && EncodableElems(es[1..]))
  }

  /** Every key's byte length and every value meet the bounds, member by member. */
  ghost predicate EncodableMembers(ms: seq<Member>)
    decreases ms, 0
  {
    ms == [] || (|ms[0].key| <= INT_32_MAX && Encodable(ms[0].value) && EncodableMembers(ms[1..]))
  }
}
