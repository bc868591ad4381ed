/** Big-endian two's-complement payloads: what the raw integer writers emit and readers accept. */
module BigEndian {
  import opened UBMarker

  function Pow256(n: nat): (p: int)
    ensures p >= 1
  {
    if n == 0 then 1 else 256 * Pow256(n - 1)
  }

  /**
   * The low `n` bytes of `v`, most significant first. Each byte is `(v >> 8k) & 0xFF`,
   * the low eight bits that one `OutputStream.write` of the shifted value keeps.
   */
  function Bytes(v: int, n: nat): (r: seq<byte>)
    ensures |r| == n
    decreases n
  {
    if n == 0 then [] else Bytes(v / 256, n - 1) + [v % 256]
  }

  /** The bytes read as an unsigned big-endian number. */
  function Unsigned(bs: seq<byte>): (u: nat)
    ensures u < Pow256(|bs|)
  {
    if |bs| == 0 then 0 else Unsigned(bs[..|bs| - 1]) * 256 + bs[|bs| - 1]
  }

  /** The bytes read as a two's-complement big-endian number (Java's `byte`, `short`, `int`, `long`). */
  function Signed(bs: seq<byte>): (x: int)
    ensures -Pow256(|bs|) <= 2 * x < Pow256(|bs|)
  {
    var u := Unsigned(bs);
    if 2 * u >= Pow256(|bs|) then u - Pow256(|bs|) else u
  }

  /** Writing `n` low bytes and reading them back unsigned gives `v` modulo 256^n. */
  lemma {:induction false} UnsignedBytes(v: int, n: nat)
    requires -Pow256(n) <= v < Pow256(n)
    ensures Unsigned(Bytes(v, n)) == if v >= 0 then v else v + Pow256(n)
    decreases n
  {
    if n > 0 {
      var q := v / 256;
      UnsignedBytes(q, n - 1);
      assert Bytes(v, n)[..n - 1] == Bytes(q, n - 1);
    }
  }

  /** Every value in the signed range of `n` bytes survives a write and a signed read. */
  lemma SignedBytes(v: int, n: nat)
    requires -Pow256(n) <= 2 * v < Pow256(n)
    ensures Signed(Bytes(v, n)) == v
  {
    UnsignedBytes(v, n);
  }

  /** Every value in the unsigned range of `n` bytes survives a write and an unsigned read. */
  lemma UnsignedRoundTrip(v: int, n: nat)
    requires 0 <= v < Pow256(n)
    ensures Unsigned(Bytes(v, n)) == v
  {
    UnsignedBytes(v, n);
  }

  lemma Pow256Values()
    ensures Pow256(1) == 0x100 && Pow256(2) == 0x1_0000 && Pow256(4) == 0x1_0000_0000
    ensures Pow256(8) == 0x1_0000_0000_0000_0000
  {
    assert Pow256(3) == 0x100_0000;
    assert Pow256(5) == 0x100_0000_0000;
    assert Pow256(6) == 0x1_0000_0000_0000;
    assert Pow256(7) == 0x100_0000_0000_0000;
  }
}
