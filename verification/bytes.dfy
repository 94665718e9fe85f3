/** Fixed-width unsigned integers, raw bytes and the big-endian codec that
    Go's encoding/binary.BigEndian provides to the box reader. */
module Bytes {

  type uint8 = x: int | 0 <= x < 0x100
  type uint32 = x: int | 0 <= x < 0x1_0000_0000
  type uint64 = x: int | 0 <= x < 0x1_0000_0000_0000_0000

  /** A four-character code (box type, brand): four raw bytes, not
      necessarily printable. */
  type FourCC = s: seq<uint8> | |s| == 4 witness [0, 0, 0, 0]

  const Two32: nat := 0x1_0000_0000

  /** 256^k: the number of values a k-byte field can hold. */
  function Pow256(k: nat): (p: nat)
    ensures p > 0
  {
    if k == 0 then 1 else 256 * Pow256(k - 1)
  }

  /** The unsigned value of a byte string read most significant byte first. */
  function BigEndian(s: seq<uint8>): (n: nat)
    ensures n < Pow256(|s|)
  {
    if |s| == 0 then 0
    else
      var hi := BigEndian(s[..|s| - 1]);
      assert hi * 256 + s[|s| - 1] < Pow256(|s|) by {
        assert hi <= Pow256(|s| - 1) - 1;
        assert hi * 256 <= Pow256(|s| - 1) * 256 - 256;
      }
      hi * 256 + s[|s| - 1]
  }

  /** The k-byte big-endian encoding of n. */
  function ToBigEndian(n: nat, k: nat): (s: seq<uint8>)
    requires n < Pow256(k)
    ensures |s| == k
  {
    if k == 0 then []
    else
      assert n / 256 < Pow256(k - 1);
      ToBigEndian(n / 256, k - 1) + [n % 256]
  }

  /** Decoding inverts encoding. */
  lemma {:induction false} BigEndianOfToBigEndian(n: nat, k: nat)
    requires n < Pow256(k)
    ensures BigEndian(ToBigEndian(n, k)) == n
  {
    if k > 0 {
      var s := ToBigEndian(n, k);
      assert s[..k - 1] == ToBigEndian(n / 256, k - 1);
      BigEndianOfToBigEndian(n / 256, k - 1);
    }
  }

  /** Encoding inverts decoding: the codec is a bijection on k-byte strings. */
  lemma {:induction false} ToBigEndianOfBigEndian(s: seq<uint8>)
    ensures ToBigEndian(BigEndian(s), |s|) == s
  {
    if |s| > 0 {
      var k := |s|;
      var n := BigEndian(s);
      assert n / 256 == BigEndian(s[..k - 1]);
      assert n % 256 == s[k - 1];
      ToBigEndianOfBigEndian(s[..k - 1]);
      assert s == s[..k - 1] + [s[k - 1]];
    }
  }

  /** A big-endian string splits into a high and a low part. */
  lemma {:induction false} BigEndianAppend(a: seq<uint8>, b: seq<uint8>)
    ensures BigEndian(a + b) == BigEndian(a) * Pow256(|b|) + BigEndian(b)
  {
    if |b| > 0 {
      var k := |b|;
      assert (a + b)[..|a + b| - 1] == a + b[..k - 1];
      assert (a + b)[|a + b| - 1] == b[k - 1];
      BigEndianAppend(a, b[..k - 1]);
      var hi, lo, p, c := BigEndian(a), BigEndian(b[..k - 1]), Pow256(k - 1), b[k - 1] as int;
      var x, y := BigEndian(a + b), BigEndian(b);
      assert x == BigEndian(a + b[..k - 1]) * 256 + c;
      assert y == lo * 256 + c;
      Distribute256(hi, p, lo, c, x, y, Pow256(k));
    } else {
      assert a + b == a;
    }
  }

  lemma Distribute256(hi: int, p: int, lo: int, c: int, x: int, y: int, q: int)
    requires x == (hi * p + lo) * 256 + c && y == lo * 256 + c && q == p * 256
    ensures x == hi * q + y
  {
  }

  /** binary.BigEndian.Uint32: the first four bytes of b, most significant
      first; a shorter b panics. */
  function Uint32(b: seq<uint8>): (v: uint32)
    requires |b| >= 4
  {
    b[0] as int * 0x100_0000 + b[1] as int * 0x1_0000 + b[2] as int * 0x100 + b[3] as int
  }

  /** binary.BigEndian.Uint64: the first eight bytes of b; a shorter b
      panics. Its high word is Uint32 of b, its low word Uint32 of the
      four bytes after. */
  function Uint64(b: seq<uint8>): (v: uint64)
    requires |b| >= 8
    ensures v == Uint32(b) * Two32 + Uint32(b[4..])
  {
    b[0] as int * 0x100_0000_0000_0000 + b[1] as int * 0x1_0000_0000_0000
    + b[2] as int * 0x100_0000_0000 + b[3] as int * 0x1_0000_0000
    + b[4] as int * 0x100_0000 + b[5] as int * 0x1_0000 + b[6] as int * 0x100 + b[7] as int
  }

  /** Uint32 agrees with the general big-endian reading of four bytes. */
  lemma Uint32IsBigEndian(b: seq<uint8>)
    requires |b| >= 4
    ensures Uint32(b) == BigEndian(b[..4])
  {
    var w := b[..4];
    assert BigEndian(w[..1]) == b[0] by {
      assert w[..1][..0] == [];
    }
    assert BigEndian(w[..2]) == b[0] as int * 0x100 + b[1] by {
      assert w[..2][..1] == w[..1];
    }
    assert BigEndian(w[..3]) == b[0] as int * 0x1_0000 + b[1] as int * 0x100 + b[2] by {
      assert w[..3][..2] == w[..2];
    }
    assert w[..4][..3] == w[..3];
  }

  /** Uint64 agrees with the general big-endian reading of eight bytes. */
  lemma Uint64IsBigEndian(b: seq<uint8>)
    requires |b| >= 8
    ensures Uint64(b) == BigEndian(b[..8])
  {
    BigEndianAppend(b[..4], b[4..8]);
    assert b[..8] == b[..4] + b[4..8];
    Uint32IsBigEndian(b);
    Uint32IsBigEndian(b[4..]);
    assert b[4..][..4] == b[4..8];
    Pow256Widths();
  }

  /** The high half of a 64-bit value is what Uint32 reads from its bytes. */
  lemma Uint32IsHighHalf(b: seq<uint8>)
    requires |b| >= 8
    ensures Uint32(b) == Uint64(b) / Two32
  {
    DivModTwo32(Uint64(b), Uint32(b), Uint32(b[4..]));
  }

  /** Division by 2^32 recovers the high word of a two-word value. */
  lemma DivModTwo32(x: int, q: int, r: int)
    requires 0 <= r < Two32 && x == q * Two32 + r
    ensures x / Two32 == q && x % Two32 == r
  {
  }

  /** Division by 2^16 recovers the high half of a two-halfword value. */
  lemma DivModTwo16(x: int, q: int, r: int)
    requires 0 <= r < 0x1_0000 && x == q * 0x1_0000 + r
    ensures x / 0x1_0000 == q && x % 0x1_0000 == r
  {
  }

  /** The big-endian 32-bit value stored at offset i of s. */
  function BE32At(s: seq<uint8>, i: nat): (v: uint32)
    requires i + 4 <= |s|
  {
    Uint32(s[i..])
  }

  /** The big-endian 64-bit value stored at offset i of s. */
  function BE64At(s: seq<uint8>, i: nat): (v: uint64)
    requires i + 8 <= |s|
  {
    Uint64(s[i..])
  }

  /** Uint32 on any slice that starts at i and holds at least four bytes
      reads exactly the four bytes at i; the rest of the slice is ignored. */
  lemma Uint32OfSlice(s: seq<uint8>, i: nat, j: nat)
    requires i + 4 <= j <= |s|
    ensures Uint32(s[i..j]) == BE32At(s, i)
  {
  }

  /** Likewise for Uint64 and the eight bytes at i. */
  lemma Uint64OfSlice(s: seq<uint8>, i: nat, j: nat)
    requires i + 8 <= j <= |s|
    ensures Uint64(s[i..j]) == BE64At(s, i)
  {
    assert s[i..j][4..] == s[i + 4..j];
    assert s[i..][4..] == s[i + 4..];
  }

  lemma Pow256Widths()
    ensures Pow256(4) == Two32 && Pow256(8) == Two32 * Two32
  {
  }

  /** The four big-endian bytes of a 32-bit value. */
  function Encode32(v: uint32): (s: seq<uint8>)
    ensures |s| == 4 && Uint32(s) == v
  {
    Pow256Widths();
    BigEndianOfToBigEndian(v, 4);
    Uint32IsBigEndian(ToBigEndian(v, 4));
    assert ToBigEndian(v, 4)[..4] == ToBigEndian(v, 4);
    ToBigEndian(v, 4)
  }

  /** The eight big-endian bytes of a 64-bit value. */
  function Encode64(v: uint64): (s: seq<uint8>)
    ensures |s| == 8 && Uint64(s) == v
  {
    Pow256Widths();
    BigEndianOfToBigEndian(v, 8);
    Uint64IsBigEndian(ToBigEndian(v, 8));
    assert ToBigEndian(v, 8)[..8] == ToBigEndian(v, 8);
    ToBigEndian(v, 8)
  }

  /** Four bytes are the encoding of the value Uint32 reads from them. */
  lemma Encode32OfUint32(b: seq<uint8>)
    requires |b| == 4
    ensures Encode32(Uint32(b)) == b
  {
    Uint32IsBigEndian(b);
    assert b[..4] == b;
    ToBigEndianOfBigEndian(b);
  }

  /** Reading a 32-bit field back from where its encoding was placed. */
  lemma BE32AtEncoded(s: seq<uint8>, i: nat, v: uint32)
    requires i + 4 <= |s| && s[i..i + 4] == Encode32(v)
    ensures BE32At(s, i) == v
  {
    assert s[i..][..4] == s[i..i + 4];
  }

  /** Reading a 64-bit field back from where its encoding was placed. */
  lemma BE64AtEncoded(s: seq<uint8>, i: nat, v: uint64)
    requires i + 8 <= |s| && s[i..i + 8] == Encode64(v)
    ensures BE64At(s, i) == v
  {
    assert s[i..][..8] == s[i..i + 8];
  }
}
