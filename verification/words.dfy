/** Machine words of the fingerprint core: bytes, wrapping 32-bit lanes and
    the little-endian conversion between a 32-byte block and eight words. */
module Words {

  /** Number of 32-bit lanes in the accumulator (HASH_SIZE). */
  const HashSize: nat := 8
  /** Bytes per block: HASH_SIZE * 4. */
  const BlockSize: nat := 32
  /** 2^32, the modulus of `Wrapping<u32>` arithmetic. */
  const Modulus: nat := 0x1_0000_0000

  type U8 = x: int | 0 <= x < 0x100
  type U32 = x: int | 0 <= x < 0x1_0000_0000

  /** Eight lanes: the `[u32; HASH_SIZE]` and `[Wrapping<u32>; HASH_SIZE]` values. */
  type Lanes = s: seq<U32> | |s| == 8 witness [0, 0, 0, 0, 0, 0, 0, 0]

  /** A full 32-byte buffer: `[u8; HASH_SIZE * 4]`. */
  type Block = s: seq<U8> | |s| == 32
    witness [0, 0, 0, 0, 0, 0, 0, 0, 0, 0, 0, 0, 0, 0, 0, 0,
             0, 0, 0, 0, 0, 0, 0, 0, 0, 0, 0, 0, 0, 0, 0, 0]

  /** `Wrapping<u32>` addition: the sum reduced modulo 2^32. */
  function WrapAdd(a: U32, b: U32): (r: U32)
    ensures r == (a + b) % Modulus
    ensures r == a + b || r == a + b - Modulus
  {
    if a + b < Modulus then a + b else a + b - Modulus
  }

  /** `u32::from_le_bytes([b0, b1, b2, b3])`. */
  function WordOfBytes(b0: U8, b1: U8, b2: U8, b3: U8): U32
  {
    b0 + 0x100 * b1 + 0x1_0000 * b2 + 0x100_0000 * b3
  }

  /** `u32::to_le_bytes(w)`: least significant byte first. */
  function BytesOfWord(w: U32): seq<U8>
  {
    [w % 0x100, (w / 0x100) % 0x100, (w / 0x1_0000) % 0x100, w / 0x100_0000]
  }

  lemma WordBytesRoundTrip(b0: U8, b1: U8, b2: U8, b3: U8)
    ensures BytesOfWord(WordOfBytes(b0, b1, b2, b3)) == [b0, b1, b2, b3]
  {
    var w := WordOfBytes(b0, b1, b2, b3);
    DivModUnique(w, 0x100, b0, b1 + 0x100 * b2 + 0x1_0000 * b3);
    DivModUnique(w, 0x1_0000, b0 + 0x100 * b1, b2 + 0x100 * b3);
    DivModUnique(w, 0x100_0000, b0 + 0x100 * b1 + 0x1_0000 * b2, b3);
    DivModUnique(w / 0x100, 0x100, b1, b2 + 0x100 * b3);
    DivModUnique(w / 0x1_0000, 0x100, b2, b3);
  }

  lemma BytesWordRoundTrip(w: U32)
    ensures var b := BytesOfWord(w); WordOfBytes(b[0], b[1], b[2], b[3]) == w
  {
    var q1 := w / 0x100;
    var q2 := w / 0x1_0000;
    assert q1 / 0x100 == q2;
    assert q2 / 0x100 == w / 0x100_0000;
  }

  /** If n == m * q + r with 0 <= r < m then n / m == q and n % m == r. */
  lemma DivModUnique(n: int, m: int, r: int, q: int)
    requires 0 < m && 0 <= r < m && n == m * q + r
    ensures n / m == q && n % m == r
  {
    var q' := n / m;
    var r' := n % m;
    assert m * (q - q') == r' - r by {
      assert n == m * q' + r';
      assert m * q - m * q' == m * (q - q');
    }
    if q > q' {
      MulAtLeast(m, q - q');
    } else if q < q' {
      assert m * (q' - q) == -(m * (q - q'));
      MulAtLeast(m, q' - q);
    }
  }

  lemma {:induction false} MulAtLeast(m: int, d: int)
    requires 0 < m && 1 <= d
    ensures m * d >= m
    decreases d
  {
    if d > 1 {
      MulAtLeast(m, d - 1);
      assert m * d == m * (d - 1) + m;
    }
  }

  /** The decoding loop of `plop_file`: word i is bytes 4i..4i+4, little-endian. */
  function Decode(buf: Block): Lanes
  {
    seq(8, i requires 0 <= i < 8 => WordOfBytes(buf[4 * i], buf[4 * i + 1], buf[4 * i + 2], buf[4 * i + 3]))
  }

  /** Word i of a decoded block carries bytes 4i..4i+4 least significant first: its base-256
      digits, lowest first, are those four bytes in buffer order. */
  lemma DecodeLittleEndian(buf: Block, i: nat)
    requires i < HashSize
    ensures Decode(buf)[i] % 0x100 == buf[4 * i]
    ensures (Decode(buf)[i] / 0x100) % 0x100 == buf[4 * i + 1]
    ensures (Decode(buf)[i] / 0x1_0000) % 0x100 == buf[4 * i + 2]
    ensures (Decode(buf)[i] / 0x100_0000) % 0x100 == buf[4 * i + 3]
  {
    var w := Decode(buf)[i];
    WordBytesRoundTrip(buf[4 * i], buf[4 * i + 1], buf[4 * i + 2], buf[4 * i + 3]);
    assert BytesOfWord(w) == [buf[4 * i], buf[4 * i + 1], buf[4 * i + 2], buf[4 * i + 3]];
    DivModUnique(w / 0x100_0000, 0x100, w / 0x100_0000, 0);
  }

  /** The inverse of Decode: each word written out as its four little-endian bytes. */
  function Encode(data: Lanes): (buf: Block)
  {
    seq(32, k requires 0 <= k < 32 => BytesOfWord(data[k / 4])[k % 4])
  }

  lemma {:induction false} EncodeDecode(buf: Block)
    ensures Encode(Decode(buf)) == buf
  {
    var data := Decode(buf);
    forall k | 0 <= k < 32
      ensures Encode(data)[k] == buf[k]
    {
      var i := k / 4;
      WordBytesRoundTrip(buf[4 * i], buf[4 * i + 1], buf[4 * i + 2], buf[4 * i + 3]);
      assert k == 4 * i + k % 4;
    }
  }

  lemma {:induction false} DecodeEncode(data: Lanes)
    ensures Decode(Encode(data)) == data
  {
    var buf := Encode(data);
    forall i | 0 <= i < 8
      ensures Decode(buf)[i] == data[i]
    {
      BytesWordRoundTrip(data[i]);
      assert (4 * i) / 4 == i && (4 * i + 1) / 4 == i && (4 * i + 2) / 4 == i && (4 * i + 3) / 4 == i;
    }
  }

  /** Little-endian decoding is injective: distinct buffers give distinct words. */
  lemma DecodeInjective(a: Block, b: Block)
    requires Decode(a) == Decode(b)
    ensures a == b
  {
    EncodeDecode(a);
    EncodeDecode(b);
  }
}
