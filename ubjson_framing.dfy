/**
 * How the compression mode decides a container's framing, when a container has a
 * shared element type, and the writer's byte fixtures, which the reader's fixtures
 * decode back to the same trees.
 */
module UbjsonFraming {
  import opened UBMarker
  import opened UBTyping
  import opened JsonValue
  import opened BigEndian
  import opened UbjsonWriting
  import opened UbjsonReading
  import opened UbjsonRoundTrip
  import opened Sequences

  /** An empty array or object is its opener followed by its closer, in every mode. */
  lemma EmptyContainers(t: Typing)
    ensures EncodeValue(Array([]), t) == [ARRAY_START, ARRAY_END]
    ensures EncodeValue(Object([]), t) == [OBJ_START, OBJ_END]
  {
  }

  /**
   * The byte after a non-empty array's opener says which framing the mode chose:
   * '$' exactly when a mode other than WEAK found a shared type; '#' exactly when
   * STRONG or BALANCED found none; the first element's own marker exactly under
   * WEAK, or under COMPRESSED with no shared type.
   */
  lemma ArrayFramingByMode(es: seq<Value>, t: Typing)
    requires |es| > 0
    ensures var b := EncodeRawArray(es, t); var ty := CompressionType(es, t);
      && |b| > 0
      && (b[0] == OPTIMIZED_TYPE <==> t != WEAK && ty != 0)
      && (b[0] == OPTIMIZED_TYPE ==> |b| > 1 && b[1] == ty)
      && (b[0] == OPTIMIZED_SIZE <==> (t == STRONG || t == BALANCED) && ty == 0)
      && (IsValueMarker(b[0]) <==> t == WEAK || (t == COMPRESSED && ty == 0))
      && (IsValueMarker(b[0]) ==> b == EncodeValues(es, t) + [ARRAY_END])
  {
    EncodeValueHead(es[0], t);
    ValueMarkersAreNotFraming(EncodeValue(es[0], t)[0]);
    var ty := CompressionType(es, t);
    if t != WEAK && ty != 0 {
      CompressionTypeFits(es, t);
      assert !IsValueMarker(OPTIMIZED_TYPE);
    } else if t == WEAK || t == COMPRESSED {
      assert EncodeValues(es, t)[0] == EncodeValue(es[0], t)[0];
    } else {
      assert !IsValueMarker(OPTIMIZED_SIZE);
    }
  }

  /**
   * The same for a non-empty object, where generic framing starts with the integer
   * marker of the first key's length.
   */
  lemma ObjectFramingByMode(ms: seq<Member>, t: Typing)
    requires |ms| > 0
    ensures var b := EncodeRawObject(ms, t); var ty := CompressionType(Values(ms), t);
      && |b| > 0
      && (b[0] == OPTIMIZED_TYPE <==> t != WEAK && ty != 0)
      && (b[0] == OPTIMIZED_TYPE ==> |b| > 1 && b[1] == ty)
      && (b[0] == OPTIMIZED_SIZE <==> (t == STRONG || t == BALANCED) && ty == 0)
      && (IsIntMarker(b[0]) <==> t == WEAK || (t == COMPRESSED && ty == 0))
      && (IsIntMarker(b[0]) ==> b == EncodeMembers(ms, t) + [OBJ_END])
  {
    var ty := CompressionType(Values(ms), t);
    EncodeIntShape(|ms[0].key|);
    if t != WEAK && ty != 0 {
      CompressionTypeFits(Values(ms), t);
    } else if t == WEAK || t == COMPRESSED {
      assert EncodeMembers(ms, t)[0] == EncodeInt(|ms[0].key|)[0];
    }
  }

  /**
   * A container has a shared type exactly when all its elements are integers, or
   * all are written with one marker that carries a payload.
   */
  lemma SharedTypeRule(vs: seq<Value>)
    requires |vs| > 0
    ensures ContainerType(vs) != 0 <==>
      AllInts(vs) || (!IsMarkerOnly(TypeOf(vs[0])) && forall i :: 0 <= i < |vs| ==> TypeOf(vs[i]) == TypeOf(vs[0]))
    ensures AllInts(vs) ==> ContainerType(vs) == NumberType(SeqMin(vs), SeqMax(vs))
  {
    if vs[0].Int? {
      SharedTypeOfInts(vs);
    } else {
      SharedTypeOfOthers(vs);
    }
  }

  /** With an integer first, the type is shared exactly when every element is an integer. */
  lemma SharedTypeOfInts(vs: seq<Value>)
    requires |vs| > 0 && vs[0].Int?
    ensures ContainerType(vs) == ContainerNumberType(vs)
    ensures ContainerType(vs) != 0 <==> AllInts(vs)
    ensures !AllInts(vs) ==> exists i :: 0 <= i < |vs| && TypeOf(vs[i]) != TypeOf(vs[0])
  {
    if !AllInts(vs) {
      var i :| 0 <= i < |vs| && !vs[i].Int?;
      EncodeIntShape(vs[0].n);
      assert TypeOf(vs[i]) != TypeOf(vs[0]);
    }
  }

  /** With anything else first, the type is shared exactly when every element has the first one's payload-carrying marker. */
  lemma SharedTypeOfOthers(vs: seq<Value>)
    requires |vs| > 0 && !vs[0].Int?
    ensures !AllInts(vs)
    ensures ContainerType(vs) != 0 <==>
      !IsMarkerOnly(TypeOf(vs[0])) && forall i :: 0 <= i < |vs| ==> TypeOf(vs[i]) == TypeOf(vs[0])
  {
    assert TypeOf(vs[0]) != 0;
    if forall i :: 0 <= i < |vs| ==> TypeOf(vs[i]) == TypeOf(vs[0]) {
      assert forall i :: 1 <= i < |vs| ==> TypeOf(vs[i]) == TypeOf(vs[0]);
    }
  }

  /** The type chosen for a range of integers is the narrowest integer type covering both bounds. */
  lemma NumberTypeNarrowest(min: int, max: int, m: byte)
    requires min <= max && IsIntMarker(m) && InRange(m, min) && InRange(m, max)
    ensures IsIntMarker(NumberType(min, max))
    ensures IntWidth(NumberType(min, max)) <= IntWidth(m)
  {
  }

  /**
   * When there is no shared type: fewer elements than the mode's minimum (one
   * under STRONG, two otherwise), no shared type at all, or, outside STRONG, a
   * one-byte integer type with fewer than five elements.
   */
  lemma NoCompressionCases(vs: seq<Value>, t: Typing)
    ensures CompressionType(vs, t) == 0 <==>
      |vs| < (if t == STRONG then 1 else 2)
      || ContainerType(vs) == 0
      || (t != STRONG && (ContainerType(vs) == INT8 || ContainerType(vs) == U_INT8) && |vs| < 5)
  {
  }

  /** STRONG shares the type of a single element, and of a short run of bytes, where the other modes do not. */
  lemma StrongAlwaysHints(vs: seq<Value>, t: Typing)
    requires vs == [Int(1)] && t != STRONG
    ensures CompressionType(vs, STRONG) == U_INT8
    ensures CompressionType(vs, t) == 0 && CompressionType(vs + vs, t) == 0
  {
  }

  /** The smallest and the largest element of an all-integer container are elements of it. */
  lemma {:induction false} SeqMinMaxAttained(vs: seq<Value>)
    requires 0 < |vs| && AllInts(vs)
    ensures exists i :: 0 <= i < |vs| && vs[i].n == SeqMin(vs)
    ensures exists j :: 0 <= j < |vs| && vs[j].n == SeqMax(vs)
    decreases |vs|
  {
    if |vs| == 1 {
      assert SeqMin(vs) == vs[0].n && SeqMax(vs) == vs[0].n;
    } else {
      var init := vs[..|vs| - 1];
      SeqMinMaxAttained(init);
      var i :| 0 <= i < |init| && init[i].n == SeqMin(init);
      var j :| 0 <= j < |init| && init[j].n == SeqMax(init);
      assert vs[i] == init[i] && vs[j] == init[j];
      var last := |vs| - 1;
      if vs[last].n < SeqMin(init) {
        assert SeqMin(vs) == vs[last].n;
      } else {
        assert SeqMin(vs) == vs[i].n;
      }
      if vs[last].n > SeqMax(init) {
        assert SeqMax(vs) == vs[last].n;
      } else {
        assert SeqMax(vs) == vs[j].n;
      }
    }
  }

  /** Elements at `i` and `j` that bound all the others are the container's minimum and maximum. */
  lemma Extrema(vs: seq<Value>, i: nat, j: nat)
    requires 0 < |vs| && AllInts(vs) && i < |vs| && j < |vs|
    requires forall k :: 0 <= k < |vs| ==> vs[i].n <= vs[k].n <= vs[j].n
    ensures SeqMin(vs) == vs[i].n && SeqMax(vs) == vs[j].n
  {
    SeqMinMaxBound(vs, i);
    SeqMinMaxBound(vs, j);
    SeqMinMaxAttained(vs);
  }

  /** Integer values, one per byte. */
  function Ints(ns: seq<byte>): (vs: seq<Value>)
    ensures |vs| == |ns| && forall i :: 0 <= i < |ns| ==> vs[i] == Int(ns[i])
  {
    if ns == [] then [] else [Int(ns[0])] + Ints(ns[1..])
  }

  /** Each byte after the one-byte unsigned marker. */
  function MarkedBytes(ns: seq<byte>): (bs: seq<byte>)
    ensures |bs| == 2 * |ns|
  {
    if ns == [] then [] else [U_INT8, ns[0]] + MarkedBytes(ns[1..])
  }

  /** An integer in `0..255` is the unsigned marker and one byte. */
  lemma ByteInt(n: int)
    requires 0 <= n < 256
    ensures Bytes(n, 1) == [n] && EncodeInt(n) == [U_INT8, n]
  {
    assert n / 256 == 0 && n % 256 == n;
    assert Bytes(n, 1) == Bytes(n / 256, 0) + [n % 256] == [n];
    assert EncodeInt(n) == [U_INT8] + Bytes(n, 1);
  }

  /** Two-byte payloads of -1 and of an integer in `0..255`. */
  lemma ShortBytes(n: int)
    requires 0 <= n < 256
    ensures Bytes(n, 2) == [0, n] && Bytes(-1, 2) == [0xFF, 0xFF]
  {
    ByteInt(n);
    assert Bytes(n, 2) == Bytes(0, 1) + [n];
    assert Bytes(-1, 1) == Bytes(-1, 0) + [0xFF];
    assert Bytes(-1, 2) == Bytes(-1, 1) + [0xFF];
  }

  /** Bytes written as payloads of the one-byte unsigned type are the bytes themselves. */
  lemma {:induction false} ByteRaws(ns: seq<byte>, t: Typing)
    ensures forall i :: 0 <= i < |Ints(ns)| ==> FitsType(Ints(ns)[i], U_INT8)
    ensures EncodeRaws(Ints(ns), U_INT8, t) == ns
    decreases |ns|
  {
    if ns != [] {
      var vs := Ints(ns);
      assert vs[1..] == Ints(ns[1..]);
      ByteInt(ns[0]);
      ByteRaws(ns[1..], t);
      assert [ns[0]] + ns[1..] == ns;
    }
  }

  /** Bytes written as marked values are each byte after the one-byte unsigned marker. */
  lemma {:induction false} ByteValues(ns: seq<byte>, t: Typing)
    ensures EncodeValues(Ints(ns), t) == MarkedBytes(ns)
    decreases |ns|
  {
    if ns != [] {
      var vs := Ints(ns);
      assert vs[1..] == Ints(ns[1..]);
      ByteInt(ns[0]);
      ByteValues(ns[1..], t);
    }
  }

  /** Five bytes or more (one or more under STRONG) share the one-byte unsigned type. */
  lemma BytesShareType(ns: seq<byte>, t: Typing)
    requires |ns| >= (if t == STRONG then 1 else 5)
    ensures CompressionType(Ints(ns), t) == U_INT8
  {
    var vs := Ints(ns);
    assert forall k :: 0 <= k < |vs| ==> vs[k] == Int(ns[k]);
    ByteRangeType(vs);
  }

  /** Integers all within `0..255` share the one-byte unsigned type. */
  lemma ByteRangeType(vs: seq<Value>)
    requires |vs| > 0 && forall k :: 0 <= k < |vs| ==> vs[k].Int? && 0 <= vs[k].n < 256
    ensures ContainerType(vs) == U_INT8
  {
    assert AllInts(vs);
    SeqMinMaxAttained(vs);
    var i :| 0 <= i < |vs| && vs[i].n == SeqMin(vs);
    var j :| 0 <= j < |vs| && vs[j].n == SeqMax(vs);
    assert NumberType(SeqMin(vs), SeqMax(vs)) == U_INT8;
  }

  /**
   * A run of bytes shares the one-byte unsigned type: outside WEAK, five or more
   * (one or more under STRONG) are written as '$' 'U' '#', the count, then the
   * bytes themselves.
   */
  lemma ByteArrayOptimized(ns: seq<byte>, t: Typing)
    requires t != WEAK && |ns| >= (if t == STRONG then 1 else 5)
    ensures EncodeValue(Array(Ints(ns)), t)
         == [ARRAY_START, OPTIMIZED_TYPE, U_INT8, OPTIMIZED_SIZE] + EncodeInt(|ns|) + ns
  {
    var vs := Ints(ns);
    BytesShareType(ns, t);
    ByteRaws(ns, t);
    var h, x := [OPTIMIZED_TYPE, U_INT8, OPTIMIZED_SIZE], EncodeInt(|ns|);
    assert EncodeRawArray(vs, t) == h + x + ns;
    assert EncodeValue(Array(vs), t) == [ARRAY_START] + (h + x + ns);
    AppendAssoc([ARRAY_START], h + x, ns);
    AppendAssoc([ARRAY_START], h, x);
    assert [ARRAY_START] + h == [ARRAY_START, OPTIMIZED_TYPE, U_INT8, OPTIMIZED_SIZE];
  }

  /** Under WEAK a run of bytes is each byte with its marker, then the closer. */
  lemma ByteArrayGeneric(ns: seq<byte>)
    requires |ns| > 0
    ensures EncodeValue(Array(Ints(ns)), WEAK) == [ARRAY_START] + MarkedBytes(ns) + [ARRAY_END]
  {
    var vs := Ints(ns);
    ByteValues(ns, WEAK);
    assert EncodeRawArray(vs, WEAK) == MarkedBytes(ns) + [ARRAY_END];
    assert EncodeValue(Array(vs), WEAK) == [ARRAY_START] + (MarkedBytes(ns) + [ARRAY_END]);
    AppendAssoc([ARRAY_START], MarkedBytes(ns), [ARRAY_END]);
  }

  /** Members with one-byte keys and byte values, in order. */
  function Keyed(ks: seq<byte>, ns: seq<byte>): (ms: seq<Member>)
    requires |ks| == |ns|
    ensures |ms| == |ks| && forall i :: 0 <= i < |ks| ==> ms[i] == Member([ks[i]], Int(ns[i]))
  {
    if ks == [] then [] else [Member([ks[0]], Int(ns[0]))] + Keyed(ks[1..], ns[1..])
  }

  /** Each member as its length-prefixed key and its bare byte. */
  function KeyedPayloads(ks: seq<byte>, ns: seq<byte>): seq<byte>
    requires |ks| == |ns|
  {
    if ks == [] then [] else [U_INT8, 1, ks[0], ns[0]] + KeyedPayloads(ks[1..], ns[1..])
  }

  /** Each member as its length-prefixed key and its marked byte. */
  function KeyedValues(ks: seq<byte>, ns: seq<byte>): seq<byte>
    requires |ks| == |ns|
  {
    if ks == [] then [] else [U_INT8, 1, ks[0], U_INT8, ns[0]] + KeyedValues(ks[1..], ns[1..])
  }

  /** Byte members written with the one-byte unsigned type: each key, then the bare byte. */
  lemma {:induction false} KeyedRaws(ks: seq<byte>, ns: seq<byte>, t: Typing)
    requires |ks| == |ns|
    ensures forall i :: 0 <= i < |ks| ==> FitsType(Keyed(ks, ns)[i].value, U_INT8)
    ensures EncodeRawMembers(Keyed(ks, ns), U_INT8, t) == KeyedPayloads(ks, ns)
    decreases |ks|
  {
    if ks != [] {
      var ms := Keyed(ks, ns);
      assert ms[1..] == Keyed(ks[1..], ns[1..]);
      ByteInt(1);
      ByteInt(ns[0]);
      KeyedRaws(ks[1..], ns[1..], t);
      assert EncodeRawString([ks[0]]) == [U_INT8, 1, ks[0]];
      assert EncodeRaw(Int(ns[0]), U_INT8, t) == [ns[0]];
    }
  }

  /** Byte members written with their own markers: each key, then the marked byte. */
  lemma {:induction false} KeyedMembers(ks: seq<byte>, ns: seq<byte>, t: Typing)
    requires |ks| == |ns|
    ensures EncodeMembers(Keyed(ks, ns), t) == KeyedValues(ks, ns)
    decreases |ks|
  {
    if ks != [] {
      var ms := Keyed(ks, ns);
      assert ms[1..] == Keyed(ks[1..], ns[1..]);
      ByteInt(1);
      ByteInt(ns[0]);
      KeyedMembers(ks[1..], ns[1..], t);
      assert EncodeRawString([ks[0]]) == [U_INT8, 1, ks[0]];
    }
  }

  /** The values of byte members are the bytes as integers. */
  lemma KeyedValuesAreInts(ks: seq<byte>, ns: seq<byte>)
    requires |ks| == |ns|
    ensures Values(Keyed(ks, ns)) == Ints(ns)
  {
  }

  /** Optimized framing of an object: '$', the shared type, '#', the count, then keys and payloads. */
  lemma OptimizedObjectShape(ms: seq<Member>, ty: byte, t: Typing)
    requires |ms| > 0 && t != WEAK && CompressionType(Values(ms), t) == ty && ty != 0
    requires forall i :: 0 <= i < |ms| ==> FitsType(ms[i].value, ty)
    ensures EncodeValue(Object(ms), t)
         == [OBJ_START, OPTIMIZED_TYPE, ty, OPTIMIZED_SIZE] + EncodeInt(|ms|) + EncodeRawMembers(ms, ty, t)
  {
    var h, x, p := [OPTIMIZED_TYPE, ty, OPTIMIZED_SIZE], EncodeInt(|ms|), EncodeRawMembers(ms, ty, t);
    assert EncodeRawObject(ms, t) == h + x + p;
    assert EncodeValue(Object(ms), t) == [OBJ_START] + (h + x + p);
    AppendAssoc([OBJ_START], h + x, p);
    AppendAssoc([OBJ_START], h, x);
    assert [OBJ_START] + h == [OBJ_START, OPTIMIZED_TYPE, ty, OPTIMIZED_SIZE];
  }

  /**
   * Byte members share the one-byte unsigned type: outside WEAK, five or more
   * (one or more under STRONG) are written as '$' 'U' '#', the count, then each
   * length-prefixed key with its bare byte.
   */
  lemma ByteObjectOptimized(ks: seq<byte>, ns: seq<byte>, t: Typing)
    requires |ks| == |ns| && t != WEAK && |ns| >= (if t == STRONG then 1 else 5)
    ensures EncodeValue(Object(Keyed(ks, ns)), t)
         == [OBJ_START, OPTIMIZED_TYPE, U_INT8, OPTIMIZED_SIZE] + EncodeInt(|ns|) + KeyedPayloads(ks, ns)
  {
    KeyedValuesAreInts(ks, ns);
    BytesShareType(ns, t);
    KeyedRaws(ks, ns, t);
    OptimizedObjectShape(Keyed(ks, ns), U_INT8, t);
  }

  /** Under WEAK byte members are each key with its marked byte, then the closer. */
  lemma ByteObjectGeneric(ks: seq<byte>, ns: seq<byte>)
    requires |ks| == |ns| && |ks| > 0
    ensures EncodeValue(Object(Keyed(ks, ns)), WEAK) == [OBJ_START] + KeyedValues(ks, ns) + [OBJ_END]
  {
    var ms := Keyed(ks, ns);
    KeyedMembers(ks, ns, WEAK);
    assert EncodeRawObject(ms, WEAK) == KeyedValues(ks, ns) + [OBJ_END];
    assert EncodeValue(Object(ms), WEAK) == [OBJ_START] + (KeyedValues(ks, ns) + [OBJ_END]);
    AppendAssoc([OBJ_START], KeyedValues(ks, ns), [OBJ_END]);
  }

  // The writer's fixtures, each encoded in the mode its test uses. The reader's
  // fixtures are the same bytes, and `DecodeEncode` reads every encoding back.

  /** [1, 2, 3, 4, 5] in BALANCED: one shared one-byte type and the count, then bare payloads. */
  lemma CompressedArrayFixture(ns: seq<byte>, bytes: seq<byte>)
    requires ns == [1, 2, 3, 4, 5]
    requires bytes == [ARRAY_START, OPTIMIZED_TYPE, U_INT8, OPTIMIZED_SIZE, U_INT8, 5, 1, 2, 3, 4, 5]
    ensures EncodeValue(Array(Ints(ns)), BALANCED) == bytes
  {
    ByteArrayOptimized(ns, BALANCED);
    ByteInt(5);
  }

  /** [1, 2, 3, 4, 5] in WEAK: every element with its marker, then the closer. */
  lemma GenericArrayFixture(ns: seq<byte>, bytes: seq<byte>)
    requires ns == [1, 2, 3, 4, 5]
    requires bytes == [ARRAY_START, U_INT8, 1, U_INT8, 2, U_INT8, 3, U_INT8, 4, U_INT8, 5, ARRAY_END]
    ensures EncodeValue(Array(Ints(ns)), WEAK) == bytes
  {
    ByteArrayGeneric(ns);
    MarkedOneToFive(ns);
  }

  lemma MarkedOneToFive(ns: seq<byte>)
    requires ns == [1, 2, 3, 4, 5]
    ensures MarkedBytes(ns) == [U_INT8, 1, U_INT8, 2, U_INT8, 3, U_INT8, 4, U_INT8, 5]
  {
    assert MarkedBytes([5]) == [U_INT8, 5];
    assert MarkedBytes([4, 5]) == [U_INT8, 4, U_INT8, 5];
    assert MarkedBytes([3, 4, 5]) == [U_INT8, 3] + MarkedBytes([4, 5]);
    assert MarkedBytes([2, 3, 4, 5]) == [U_INT8, 2] + MarkedBytes([3, 4, 5]);
    assert MarkedBytes(ns) == [U_INT8, 1] + MarkedBytes([2, 3, 4, 5]);
  }

  /** [-1, 1, 128] in BALANCED: the shared type is the 16-bit one, covering both -1 and 128. */
  lemma NonUniformArrayFixture(es: seq<Value>, bytes: seq<byte>)
    requires |es| == 3 && es[0] == Int(-1) && es[1] == Int(1) && es[2] == Int(128)
    requires bytes == [ARRAY_START, OPTIMIZED_TYPE, INT16, OPTIMIZED_SIZE, U_INT8, 3, 0xFF, 0xFF, 0, 1, 0, 128]
    ensures EncodeValue(Array(es), BALANCED) == bytes
  {
    NonUniformFraming(es);
  }

  lemma NonUniformFraming(es: seq<Value>)
    requires |es| == 3 && es[0] == Int(-1) && es[1] == Int(1) && es[2] == Int(128)
    ensures EncodeRawArray(es, BALANCED) == [OPTIMIZED_TYPE, INT16, OPTIMIZED_SIZE, U_INT8, 3, 0xFF, 0xFF, 0, 1, 0, 128]
  {
    NonUniformType(es);
    NonUniformPayloads(es);
    ByteInt(3);
    assert EncodeRawArray(es, BALANCED) == [OPTIMIZED_TYPE, INT16, OPTIMIZED_SIZE] + [U_INT8, 3] + [0xFF, 0xFF, 0, 1, 0, 128];
  }

  lemma NonUniformType(es: seq<Value>)
    requires |es| == 3 && es[0] == Int(-1) && es[1] == Int(1) && es[2] == Int(128)
    ensures CompressionType(es, BALANCED) == INT16
    ensures forall i :: 0 <= i < |es| ==> FitsType(es[i], INT16)
  {
    Extrema(es, 0, 2);
    assert ContainerType(es) == NumberType(-1, 128) == INT16;
    CompressionTypeFits(es, BALANCED);
  }

  lemma NonUniformPayloads(es: seq<Value>)
    requires |es| == 3 && es[0] == Int(-1) && es[1] == Int(1) && es[2] == Int(128)
    requires forall i :: 0 <= i < |es| ==> FitsType(es[i], INT16)
    ensures EncodeRaws(es, INT16, BALANCED) == [0xFF, 0xFF, 0, 1, 0, 128]
  {
    ShortBytes(1);
    ShortBytes(128);
    var r1, r2 := es[1..], es[2..];
    assert r1[0] == es[1] && r1[1..] == r2 && r2[0] == es[2] && r2[1..] == [];
    RawsCons(es, INT16, BALANCED);
    RawsCons(r1, INT16, BALANCED);
    RawsCons(r2, INT16, BALANCED);
    IntRaw(es[0], INT16, BALANCED);
    IntRaw(es[1], INT16, BALANCED);
    IntRaw(es[2], INT16, BALANCED);
  }

  /** An integer payload is its big-endian bytes at the marker's width. */
  lemma IntRaw(v: Value, ty: byte, t: Typing)
    requires IsIntMarker(ty) && FitsType(v, ty)
    ensures EncodeRaw(v, ty, t) == Bytes(v.n, IntWidth(ty))
  {
  }

  /** The first payload in front of the rest's. */
  lemma RawsCons(es: seq<Value>, ty: byte, t: Typing)
    requires es != [] && forall i :: 0 <= i < |es| ==> FitsType(es[i], ty)
    ensures forall i :: 0 <= i < |es[1..]| ==> FitsType(es[1..][i], ty)
    ensures EncodeRaws(es, ty, t) == EncodeRaw(es[0], ty, t) + EncodeRaws(es[1..], ty, t)
  {
    assert forall i :: 0 <= i < |es[1..]| ==> es[1..][i] == es[i + 1];
  }

  /** [[1, 2, 3, 4, 5]] in BALANCED: the outer array is sized, the inner one optimized. */
  lemma NestedBalancedFixture(ns: seq<byte>, bytes: seq<byte>)
    requires ns == [1, 2, 3, 4, 5]
    requires bytes == [ARRAY_START, OPTIMIZED_SIZE, U_INT8, 1,
                       ARRAY_START, OPTIMIZED_TYPE, U_INT8, OPTIMIZED_SIZE, U_INT8, 5, 1, 2, 3, 4, 5]
    ensures EncodeValue(Array([Array(Ints(ns))]), BALANCED) == bytes
  {
    var inner := Array(Ints(ns));
    CompressedArrayFixture(ns, bytes[4..]);
    assert EncodeValues([inner], BALANCED) == bytes[4..];
    ByteInt(1);
    assert CompressionType([inner], BALANCED) == 0;
    assert EncodeRawArray([inner], BALANCED) == [OPTIMIZED_SIZE] + [U_INT8, 1] + bytes[4..];
  }

  /** [[1, 2, 3, 4, 5]] in COMPRESSED: the outer array is generic, the inner one optimized. */
  lemma NestedCompressedFixture(ns: seq<byte>, bytes: seq<byte>)
    requires ns == [1, 2, 3, 4, 5]
    requires bytes == [ARRAY_START,
                       ARRAY_START, OPTIMIZED_TYPE, U_INT8, OPTIMIZED_SIZE, U_INT8, 5, 1, 2, 3, 4, 5,
                       ARRAY_END]
    ensures EncodeValue(Array([Array(Ints(ns))]), COMPRESSED) == bytes
  {
    var inner := Array(Ints(ns));
    ByteArrayOptimized(ns, COMPRESSED);
    ByteInt(5);
    assert EncodeValues([inner], COMPRESSED) == bytes[1..12];
    assert CompressionType([inner], COMPRESSED) == 0;
    assert EncodeRawArray([inner], COMPRESSED) == bytes[1..12] + [ARRAY_END];
  }

  /**
   * {"x": {five byte members}} in BALANCED: the outer object has one member, too few
   * to compress, so it is sized with marked values; the inner one is optimized.
   */
  lemma NestedObjectFixture(x: byte, ks: seq<byte>, ns: seq<byte>)
    requires |ks| == 5 && |ns| == 5
    ensures EncodeValue(Object([Member([x], Object(Keyed(ks, ns)))]), BALANCED)
         == [OBJ_START, OPTIMIZED_SIZE, U_INT8, 1, U_INT8, 1, x,
             OBJ_START, OPTIMIZED_TYPE, U_INT8, OPTIMIZED_SIZE, U_INT8, 5] + KeyedPayloads(ks, ns)
  {
    var inner := Object(Keyed(ks, ns));
    SingleMemberSized(x, inner);
    ByteObjectOptimized(ks, ns, BALANCED);
    ByteInt(5);
    var head := [OBJ_START, OPTIMIZED_SIZE, U_INT8, 1, U_INT8, 1, x];
    var opener := [OBJ_START, OPTIMIZED_TYPE, U_INT8, OPTIMIZED_SIZE];
    assert EncodeValue(inner, BALANCED) == opener + [U_INT8, 5] + KeyedPayloads(ks, ns);
    assert head + (opener + [U_INT8, 5] + KeyedPayloads(ks, ns))
        == (head + opener + [U_INT8, 5]) + KeyedPayloads(ks, ns);
  }

  /** A one-member object in BALANCED is too small to compress: sized, with its value marked. */
  lemma SingleMemberSized(x: byte, v: Value)
    ensures EncodeValue(Object([Member([x], v)]), BALANCED)
         == [OBJ_START, OPTIMIZED_SIZE, U_INT8, 1, U_INT8, 1, x] + EncodeValue(v, BALANCED)
  {
    var ms := [Member([x], v)];
    ByteInt(1);
    assert Values(ms) == [v];
    assert CompressionType(Values(ms), BALANCED) == 0;
    assert EncodeRawString([x]) == [U_INT8, 1, x];
    assert EncodeMembers(ms, BALANCED) == EncodeRawString([x]) + EncodeValue(v, BALANCED) by {
      assert ms[1..] == [];
    }
    assert EncodeRawObject(ms, BALANCED) == [OPTIMIZED_SIZE] + EncodeInt(1) + EncodeMembers(ms, BALANCED);
    assert EncodeValue(Object(ms), BALANCED)
        == [OBJ_START] + ([OPTIMIZED_SIZE] + [U_INT8, 1] + ([U_INT8, 1, x] + EncodeValue(v, BALANCED)));
  }

  /** [1, true, 3] in BALANCED: no shared type, so sized framing with marked values. */
  lemma MultiTypeArrayFixture(es: seq<Value>, bytes: seq<byte>)
    requires |es| == 3 && es[0] == Int(1) && es[1] == Bool(true) && es[2] == Int(3)
    requires bytes == [ARRAY_START, OPTIMIZED_SIZE, U_INT8, 3, U_INT8, 1, TRUE, U_INT8, 3]
    ensures EncodeValue(Array(es), BALANCED) == bytes
  {
    MultiTypeFraming(es);
  }

  lemma MultiTypeFraming(es: seq<Value>)
    requires |es| == 3 && es[0] == Int(1) && es[1] == Bool(true) && es[2] == Int(3)
    ensures EncodeRawArray(es, BALANCED) == [OPTIMIZED_SIZE, U_INT8, 3, U_INT8, 1, TRUE, U_INT8, 3]
  {
    assert !es[1].Int?;
    assert ContainerType(es) == 0;
    ByteInt(3);
    MultiTypeValues(es);
    assert EncodeRawArray(es, BALANCED) == [OPTIMIZED_SIZE] + [U_INT8, 3] + [U_INT8, 1, TRUE, U_INT8, 3];
  }

  lemma MultiTypeValues(es: seq<Value>)
    requires |es| == 3 && es[0] == Int(1) && es[1] == Bool(true) && es[2] == Int(3)
    ensures EncodeValues(es, BALANCED) == [U_INT8, 1, TRUE, U_INT8, 3]
  {
    ByteInt(1);
    ByteInt(3);
    var r1, r2 := es[1..], es[2..];
    assert r1[0] == es[1] && r1[1..] == r2 && r2[0] == es[2] && r2[1..] == [];
    assert EncodeValues(r2, BALANCED) == [U_INT8, 3];
    assert EncodeValues(r1, BALANCED) == [TRUE] + [U_INT8, 3];
    assert EncodeValues(es, BALANCED) == [U_INT8, 1] + [TRUE, U_INT8, 3];
  }
}
