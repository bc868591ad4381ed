/**
 * Two places where the codec as written departs from what it evidently intends,
 * each shown on a concrete input next to the corrected definition the model uses.
 */
module UbjsonFindings {
  import opened UBMarker
  import opened JsonValue
  import opened BigEndian
  import opened Sequences
  import opened UbjsonWriting
  import opened UbjsonReading

  /**
   * `writeInt64` as written: the INT32 marker before eight payload bytes. A reader
   * takes the marker at its word, reads four bytes and leaves four behind.
   */
  lemma WrittenInt64Misread()
    ensures EncodeIntAsWritten(0x1_0000_0000) == [INT32, 0, 0, 0, 1, 0, 0, 0, 0]
    ensures DecodeValue(EncodeIntAsWritten(0x1_0000_0000)) == Ok(Int(1), [0, 0, 0, 0])
  {
    var payload: seq<byte> := [0, 0, 0, 1, 0, 0, 0, 0];
    PayloadOfTwoTo32();
    assert EncodeIntAsWritten(0x1_0000_0000) == [INT32] + payload;
    assert ([INT32] + payload)[1..] == payload;
    HighHalfOfTwoTo32(payload);
  }

  lemma PayloadOfTwoTo32()
    ensures Bytes(0x1_0000_0000, 8) == [0, 0, 0, 1, 0, 0, 0, 0]
  {
  }

  lemma HighHalfOfTwoTo32(payload: seq<byte>)
    requires payload == [0, 0, 0, 1, 0, 0, 0, 0]
    ensures DecodeInt(payload, INT32) == Ok(1, [0, 0, 0, 0])
  {
    assert payload[..4] == [0, 0, 0, 1] && payload[4..] == [0, 0, 0, 0];
    assert Unsigned([0, 0, 0, 1]) == 1 by {
      assert [0, 0, 0, 1][..3] == [0, 0, 0];
      assert [0, 0, 0][..2] == [0, 0];
      assert [0, 0][..1] == [0];
      assert [0][..0] == [];
    }
    Pow256Values();
  }

  /** No integer outside the 32-bit range survives the writer as written. */
  lemma WrittenInt64NeverRoundTrips(v: Int64, tail: seq<byte>)
    requires v < INT_32_MIN || INT_32_MAX < v
    ensures DecodeValue(EncodeIntAsWritten(v) + tail) != Ok(Int(v), tail)
  {
    var x := Bytes(v, 8) + tail;
    assert EncodeIntAsWritten(v) == [INT32] + Bytes(v, 8);
    AppendAssoc([INT32], Bytes(v, 8), tail);
    assert ([INT32] + x)[1..] == x;
    Pow256Values();
    var d := DecodeInt(x, INT32);
    assert d.Ok? ==> d.value == Signed(x[..4]);
  }

  /**
   * The writer as written and the corrected one differ exactly on the integers
   * outside the 32-bit range, and there only in the marker byte.
   */
  lemma WrittenIntsAgree(v: Int64)
    ensures EncodeIntAsWritten(v) == EncodeInt(v) <==> INT_32_MIN <= v <= INT_32_MAX
    ensures EncodeIntAsWritten(v)[1..] == EncodeInt(v)[1..]
  {
    if v < INT_32_MIN || INT_32_MAX < v {
      assert EncodeInt(v)[0] == INT64 != INT32 == EncodeIntAsWritten(v)[0];
    }
  }

  /**
   * `readString(sizeType)` as written, on a stream that hands out one byte per bulk
   * read: a two-byte string that is fully present is refused with an out-of-bounds
   * read, while asking only for the missing bytes reads it.
   */
  lemma ChunkedStringMisread()
    ensures DecodeStringOfAsWritten([2, 'a' as byte, 'b' as byte], U_INT8, 1) == Fail(IndexOutOfBounds)
    ensures DecodeStringOf([2, 'a' as byte, 'b' as byte], U_INT8) == Ok(['a' as byte, 'b' as byte], [])
  {
    var s: seq<byte> := [2, 'a' as byte, 'b' as byte];
    assert s[..1] == [2] && s[1..] == ['a' as byte, 'b' as byte];
    assert Unsigned([2]) == 2 by {
      assert [2][..0] == [];
    }
    assert DecodeInt(s, U_INT8) == Ok(2, s[1..]);
    assert ToInt32(2) == 2;
    assert s[1..][..2] == s[1..] && s[1..][2..] == [];
  }

  /**
   * `readString(sizeType)` as written, on a string cut after the first of its two
   * payload bytes: whatever the stream's chunk size, the second bulk read overruns
   * the buffer, so the cut is an out-of-bounds read and not the end of input the
   * corrected read reports.
   */
  lemma CutStringAsWritten(c: nat)
    requires c > 0
    ensures DecodeStringOfAsWritten([2, 'a' as byte], U_INT8, c) == Fail(IndexOutOfBounds)
    ensures DecodeStringOf([2, 'a' as byte], U_INT8) == Fail(EndOfInput)
    ensures DecodeValue([STRING, U_INT8, 2, 'a' as byte]) == Fail(EndOfInput)
  {
    var s: seq<byte> := [2, 'a' as byte];
    var v: seq<byte> := [STRING, U_INT8, 2, 'a' as byte];
    assert v[1..] == [U_INT8] + s && v[2..] == s;
    assert s[..1] == [2] && s[1..] == ['a' as byte];
    assert Unsigned([2]) == 2 by {
      assert [2][..0] == [];
    }
    assert DecodeInt(s, U_INT8) == Ok(2, s[1..]);
    assert ToInt32(2) == 2;
  }

  /**
   * Where the source's string read succeeds it agrees with the corrected one, and
   * the two part only when a string is longer than one bulk read delivers.
   */
  lemma StringReadsAgree(s: seq<byte>, sizeType: byte, chunk: nat)
    requires chunk > 0
    ensures DecodeStringOfAsWritten(s, sizeType, chunk).Ok? ==>
      DecodeStringOfAsWritten(s, sizeType, chunk) == DecodeStringOf(s, sizeType)
    ensures DecodeStringOf(s, sizeType).Ok? && |DecodeStringOf(s, sizeType).value| <= chunk ==>
      DecodeStringOfAsWritten(s, sizeType, chunk) == DecodeStringOf(s, sizeType)
  {
    match DecodeInt(s, sizeType)
    case Fail(_) =>
    case Ok(n, rest) =>
      var size := ToInt32(n);
      if size == 0 {
        assert rest[..0] == [] && rest[0..] == rest;
      }
  }
}
