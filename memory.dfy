/**
 * Process memory as a map from address to byte (addresses are integers so
 * that "the 16 bytes below s" needs no side condition), the 16-byte block header
 * `block_header_t` stored in it (LP64 little-endian layout: `address` in the
 * first eight bytes, `size` in the next eight), and `memcpy` / `memset` as
 * updates of that map.
 */
module Memory {
  import opened Bits

  newtype byte = b: int | 0 <= b < 256

  type Mem = map<int, byte>

  /** Bytes in one pointer or `size_t` on LP64. */
  const WordBytes: nat := 8
  /** sizeof (block_header_t): one pointer and one `size_t`. */
  const HeaderBytes: nat := 16

  /** The byte at address a; a byte never written reads as 0. */
  function Read(mem: Mem, a: int): byte
  {
    if a in mem then mem[a] else 0
  }

  /** The n bytes starting at address a. */
  function Load(mem: Mem, a: int, n: nat): (bs: seq<byte>)
    ensures |bs| == n && forall i :: 0 <= i < n ==> bs[i] == Read(mem, a + i)
  {
    seq(n, i requires 0 <= i < n => Read(mem, a + i))
  }

  /** The memory after the bytes bs are written from address a on; nothing outside [a, a + |bs|) changes. */
  function Store(mem: Mem, a: int, bs: seq<byte>): (m: Mem)
    ensures forall k: int :: Read(m, k) == if a <= k < a + |bs| then bs[k - a] else Read(mem, k)
    decreases |bs|
  {
    if bs == [] then mem else Store(mem[a := bs[0]], a + 1, bs[1..])
  }

  /** memcpy (dst, src, n): the n bytes at src, read before any is written, land at dst. */
  function Copy(mem: Mem, dst: int, src: int, n: nat): (m: Mem)
    ensures forall k: int :: dst <= k < dst + n ==> Read(m, k) == Read(mem, src + (k - dst))
    ensures forall k: int :: !(dst <= k < dst + n) ==> Read(m, k) == Read(mem, k)
  {
    Store(mem, dst, Load(mem, src, n))
  }

  /** memset (dst, value, n). */
  function Fill(mem: Mem, dst: int, value: byte, n: nat): (m: Mem)
    ensures forall k: int :: dst <= k < dst + n ==> Read(m, k) == value
    ensures forall k: int :: !(dst <= k < dst + n) ==> Read(m, k) == Read(mem, k)
  {
    Store(mem, dst, seq(n, i => value))
  }

  lemma LoadStore(mem: Mem, a: int, bs: seq<byte>, off: nat, n: nat)
    requires off + n <= |bs|
    ensures Load(Store(mem, a, bs), a + off, n) == bs[off..off + n]
  {
  }

  // ---------------------------------------------------------------------
  // Little-endian words

  /** The n-byte little-endian representation of x (truncated to n bytes). */
  function Encode(x: nat, n: nat): (bs: seq<byte>)
    ensures |bs| == n
  {
    if n == 0 then [] else [(x % 256) as byte] + Encode(x / 256, n - 1)
  }

  /** The value of a little-endian byte string. */
  function Decode(bs: seq<byte>): nat
  {
    if bs == [] then 0 else bs[0] as nat + 256 * Decode(bs[1..])
  }

  /** Decoding undoes encoding for every value that fits in n bytes. */
  lemma {:induction false} DecodeEncode(x: nat, n: nat)
    requires x < Pow2(8 * n)
    ensures Decode(Encode(x, n)) == x
  {
    if n > 0 {
      Pow2Add(8 * (n - 1), 8);
      assert Pow2(8) == 256;
      DivBelow(x, Pow2(8 * (n - 1)), 256);
      DecodeEncode(x / 256, n - 1);
      assert Encode(x, n)[1..] == Encode(x / 256, n - 1);
      DivMod(x, 256);
    } else {
      assert Pow2(0) == 1;
    }
  }

  /** Encoding undoes decoding: n bytes decode to a value below 2^(8n) that encodes back to them. */
  lemma {:induction false} EncodeDecode(bs: seq<byte>)
    ensures Decode(bs) < Pow2(8 * |bs|)
    ensures Encode(Decode(bs), |bs|) == bs
  {
    if bs != [] {
      var n := |bs|;
      EncodeDecode(bs[1..]);
      Pow2Add(8 * (n - 1), 8);
      assert Pow2(8) == 256;
      var d := Decode(bs);
      assert d == bs[0] as nat + 256 * Decode(bs[1..]);
      DivModUnique(d, 256, Decode(bs[1..]), bs[0] as nat);
      assert Decode(bs[1..]) + 1 <= Pow2(8 * (n - 1));
      MulMonotone2(256, Decode(bs[1..]) + 1, Pow2(8 * (n - 1)));
      assert Encode(d, n) == [bs[0]] + Encode(Decode(bs[1..]), n - 1);
    }
  }

  // ---------------------------------------------------------------------
  // Block header

  /** The memory after `block_header_t {address, size}` is written just below the user pointer s. */
  function WriteHeader(mem: Mem, s: int, address: nat, size: nat): Mem
  {
    Store(mem, s - HeaderBytes, Encode(address, WordBytes) + Encode(size, WordBytes))
  }

  /** The `address` field of the header just below s: a pointer, so below 2^64. */
  function HeaderAddress(mem: Mem, s: int): (r: nat)
    ensures r < Word
  {
    EncodeDecode(Load(mem, s - HeaderBytes, WordBytes));
    Pow2Word();
    Decode(Load(mem, s - HeaderBytes, WordBytes))
  }

  /** The `size` field of the header just below s: a `size_t`, so below 2^64. */
  function HeaderSize(mem: Mem, s: int): (r: nat)
    ensures r < Word
  {
    EncodeDecode(Load(mem, s - WordBytes, WordBytes));
    Pow2Word();
    Decode(Load(mem, s - WordBytes, WordBytes))
  }

  /** A header written below s reads back as written, and no byte outside it changes. */
  lemma HeaderRoundTrip(mem: Mem, s: int, address: nat, size: nat)
    requires address < Word && size < Word
    ensures HeaderAddress(WriteHeader(mem, s, address, size), s) == address
    ensures HeaderSize(WriteHeader(mem, s, address, size), s) == size
    ensures forall k: int :: !(s - HeaderBytes <= k < s) ==> Read(WriteHeader(mem, s, address, size), k) == Read(mem, k)
  {
    var bs := Encode(address, WordBytes) + Encode(size, WordBytes);
    var m := WriteHeader(mem, s, address, size);
    LoadStore(mem, s - HeaderBytes, bs, 0, WordBytes);
    LoadStore(mem, s - HeaderBytes, bs, WordBytes, WordBytes);
    assert s - HeaderBytes + WordBytes == s - WordBytes;
    assert Load(m, s - HeaderBytes, WordBytes) == Encode(address, WordBytes);
    assert Load(m, s - WordBytes, WordBytes) == Encode(size, WordBytes);
    Pow2Word();
    DecodeEncode(address, WordBytes);
    DecodeEncode(size, WordBytes);
  }

  /** The header below s depends only on the 16 bytes below s. */
  lemma HeaderFrame(m1: Mem, m2: Mem, s: int)
    requires forall k: int :: s - HeaderBytes <= k < s ==> Read(m1, k) == Read(m2, k)
    ensures HeaderAddress(m1, s) == HeaderAddress(m2, s) && HeaderSize(m1, s) == HeaderSize(m2, s)
  {
    assert Load(m1, s - HeaderBytes, WordBytes) == Load(m2, s - HeaderBytes, WordBytes);
    assert Load(m1, s - WordBytes, WordBytes) == Load(m2, s - WordBytes, WordBytes);
  }
}
