/** Encodings the backends and the protocols share: little-endian integers, and lists of 32-byte values. */
module Encoding {
  import opened Types

  type u32 = n: int | 0 <= n < 0x1_0000_0000
  type u64 = n: int | 0 <= n < 0x1_0000_0000_0000_0000

  // ---------------------------------------------------------------- little-endian integers

  /** The `k` low bytes of `n`, least significant first. */
  function ToLe(n: nat, k: nat): (bs: Bytes)
    ensures |bs| == k
  {
    if k == 0 then [] else [n % 256] + ToLe(n / 256, k - 1)
  }

  /** A 16-bit length, least significant byte first. */
  function U16ToLe(n: nat): (bs: Bytes)
    requires n < 0x1_0000
    ensures bs == [n % 256, n / 256]
  {
    assert ToLe(n / 256, 1) == [n / 256];
    ToLe(n, 2)
  }

  function FromLe(bs: Bytes): nat {
    if bs == [] then 0 else bs[0] as int + 256 * FromLe(bs[1..])
  }

  function Pow256(k: nat): nat {
    if k == 0 then 1 else 256 * Pow256(k - 1)
  }

  lemma {:induction false} LeRoundTrip(n: nat, k: nat)
    requires n < Pow256(k)
    ensures FromLe(ToLe(n, k)) == n
  {
    if k > 0 {
      LeRoundTrip(n / 256, k - 1);
      assert ToLe(n, k)[1..] == ToLe(n / 256, k - 1);
    }
  }

  lemma {:induction false} FromLeBound(bs: Bytes)
    ensures FromLe(bs) < Pow256(|bs|)
  {
    if bs != [] {
      FromLeBound(bs[1..]);
    }
  }

  lemma WidthValues()
    ensures Pow256(0) == 1 && Pow256(1) == 0x100 && Pow256(2) == 0x1_0000 && Pow256(3) == 0x100_0000
    ensures Pow256(4) == 0x1_0000_0000
    ensures Pow256(8) == 0x1_0000_0000_0000_0000
  {
    assert Pow256(1) == 256 && Pow256(2) == 0x1_0000 && Pow256(3) == 0x100_0000;
    assert Pow256(4) == 0x1_0000_0000 && Pow256(5) == 0x100_0000_0000 && Pow256(6) == 0x1_0000_0000_0000;
    assert Pow256(7) == 0x100_0000_0000_0000;
  }

  lemma {:induction false} Pow256Positive(k: nat)
    ensures Pow256(k) > 0
  {
    if k > 0 {
      Pow256Positive(k - 1);
    }
  }

  lemma MultiplyBySum(d: nat, a: nat, b: nat)
    ensures d * (a + b) == d * a + d * b
  {
  }

  lemma QuotientIs(n: nat, d: nat, q: nat, r: nat)
    requires d > 0 && n == d * q + r && r < d
    ensures n / d == q
  {
    var q', r' := n / d, n % d;
    assert n == d * q' + r';
    if q' < q {
      MultiplyBySum(d, q', q - q');
      MultiplyBySum(d, 1, q - q' - 1);
    } else if q < q' {
      MultiplyBySum(d, q, q' - q);
      MultiplyBySum(d, 1, q' - q - 1);
    }
  }

  lemma DivideTwice(n: nat, d: nat)
    requires d > 0
    ensures n / 256 / d == n / (256 * d)
  {
    var q, r := n / 256 / d, n / 256 % d;
    assert n / 256 == d * q + r;
    assert n == 256 * (d * q + r) + n % 256;
    assert 256 * (d * q) == 256 * d * q;
    QuotientIs(n, 256 * d, q, 256 * r + n % 256);
  }

  /** Byte `j` is the digit of weight 256 to the `j`: the least significant comes first. */
  lemma {:induction false} ToLeDigit(n: nat, k: nat, j: nat)
    requires j < k
    ensures Pow256(j) > 0 && ToLe(n, k)[j] == n / Pow256(j) % 256
  {
    Pow256Positive(j);
    if j > 0 {
      ToLeDigit(n / 256, k - 1, j - 1);
      DivideTwice(n, Pow256(j - 1));
    }
  }

  lemma FromLe2(bs: Bytes)
    requires |bs| == 2
    ensures FromLe(bs) == bs[0] as int + 0x100 * (bs[1] as int)
  {
    assert bs[1..][1..] == [] && FromLe([]) == 0;
    assert FromLe(bs[1..]) == bs[1] as int + 256 * FromLe(bs[1..][1..]);
  }

  lemma FromLe4(bs: Bytes)
    requires |bs| == 4
    ensures FromLe(bs) ==
            bs[0] as int + 0x100 * (bs[1] as int) + 0x1_0000 * (bs[2] as int) + 0x100_0000 * (bs[3] as int)
  {
    FromLe2(bs[2..]);
    assert bs[1..][1..] == bs[2..];
  }

  lemma FromLe8(bs: Bytes)
    requires |bs| == 8
    ensures FromLe(bs) ==
            bs[0] as int + 0x100 * (bs[1] as int) + 0x1_0000 * (bs[2] as int) + 0x100_0000 * (bs[3] as int)
            + 0x1_0000_0000 * (bs[4] as int) + 0x100_0000_0000 * (bs[5] as int)
            + 0x1_0000_0000_0000 * (bs[6] as int) + 0x100_0000_0000_0000 * (bs[7] as int)
  {
    FromLe4(bs[4..]);
    assert bs[1..][1..] == bs[2..] && bs[2..][1..] == bs[3..] && bs[3..][1..] == bs[4..];
    assert FromLe(bs[2..]) == bs[2] as int + 256 * FromLe(bs[3..]);
    assert FromLe(bs[3..]) == bs[3] as int + 256 * FromLe(bs[4..]);
  }

  // ---------------------------------------------------------------- 32-byte chunks

  function EncodeChunks(chunks: seq<Bytes32>): Bytes {
    if chunks == [] then [] else chunks[0] + EncodeChunks(chunks[1..])
  }

  /** `as_chunks::<32>().0`: whole chunks, without a trailing partial one. */
  function DecodeChunks(raw: Bytes): seq<Bytes32> {
    if |raw| < 32 then [] else [raw[..32]] + DecodeChunks(raw[32..])
  }

  lemma {:induction false} DecodeInvertsEncodeChunks(chunks: seq<Bytes32>, rest: Bytes)
    requires |rest| < 32
    ensures DecodeChunks(EncodeChunks(chunks) + rest) == chunks
    ensures |EncodeChunks(chunks)| == 32 * |chunks|
  {
    if chunks == [] {
      assert EncodeChunks(chunks) + rest == rest;
    } else {
      DecodeInvertsEncodeChunks(chunks[1..], rest);
      var raw := EncodeChunks(chunks) + rest;
      assert raw == chunks[0] + (EncodeChunks(chunks[1..]) + rest);
      assert raw[..32] == chunks[0] && raw[32..] == EncodeChunks(chunks[1..]) + rest;
    }
  }

  lemma ChunksRoundTrip(chunks: seq<Bytes32>)
    ensures DecodeChunks(EncodeChunks(chunks)) == chunks
  {
    DecodeInvertsEncodeChunks(chunks, []);
    assert EncodeChunks(chunks) + [] == EncodeChunks(chunks);
  }

  /** Decoding arbitrary bytes and encoding again loses only the trailing partial chunk. */
  lemma {:induction false} EncodeInvertsDecodeChunks(raw: Bytes)
    ensures EncodeChunks(DecodeChunks(raw)) == raw[..|raw| - |raw| % 32]
  {
    if |raw| >= 32 {
      var tail := raw[32..];
      EncodeInvertsDecodeChunks(tail);
      assert |tail| % 32 == |raw| % 32;
      assert ([raw[..32]] + DecodeChunks(tail))[1..] == DecodeChunks(tail);
      assert raw[..|raw| - |raw| % 32] == raw[..32] + tail[..|tail| - |tail| % 32];
    }
  }

  /** Chunk `i` is the bytes from `32 * i` on; as many as there are whole ones. */
  lemma {:induction false} ChunkAt(raw: Bytes)
    ensures |DecodeChunks(raw)| == |raw| / 32
    ensures forall i :: 0 <= i < |raw| / 32 ==> DecodeChunks(raw)[i] == raw[32 * i..32 * i + 32]
  {
    if |raw| >= 32 {
      var tail := raw[32..];
      ChunkAt(tail);
      assert |tail| / 32 == |raw| / 32 - 1;
      forall i | 0 <= i < |raw| / 32
        ensures DecodeChunks(raw)[i] == raw[32 * i..32 * i + 32]
      {
        if i > 0 {
          assert DecodeChunks(raw)[i] == DecodeChunks(tail)[i - 1];
          assert tail[32 * (i - 1)..32 * (i - 1) + 32] == raw[32 * i..32 * i + 32];
        }
      }
    }
  }

  /** A scan over whole chunks: of the peer ids of a raw row, or of the hashes of a hash sequence. */
  method ContainsChunk(raw: Bytes, chunk: Bytes32) returns (found: bool)
    ensures found <==> chunk in DecodeChunks(raw)
  {
    var at := 0;
    while at + 32 <= |raw|
      invariant at <= |raw|
      invariant chunk in DecodeChunks(raw) <==> chunk in DecodeChunks(raw[at..])
    {
      assert raw[at..][..32] == raw[at..at + 32] && raw[at..][32..] == raw[at + 32..];
      if raw[at..at + 32] == chunk {
        return true;
      }
      at := at + 32;
    }
    return false;
  }
}
