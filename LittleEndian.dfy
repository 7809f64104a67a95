/** Conversions between bytes and the numbers below 256, in a module of their own so that their proofs see nothing else. */
module ByteConversions {
  /** A byte converted from a number below 256 converts back to that number. */
  lemma ByteOfNat(x: nat)
    requires x < 256
    ensures (x as bv8) as nat == x
  {
    var b := ByteWithValue(x);
    NatOfByte(b);
  }

  /** Every number below 256 is the value of some byte: count up from the zero byte. */
  lemma {:induction false} ByteWithValue(x: nat) returns (b: bv8)
    requires x < 256
    ensures b as nat == x
  {
    if x == 0 {
      b := 0;
    } else {
      var a := ByteWithValue(x - 1);
      b := a + 1;
    }
  }

  /** A number below 256 converted from a byte converts back to that byte. */
  lemma NatOfByte(b: bv8)
    ensures (b as nat) < 256 && ((b as nat) as bv8) == b
  {
  }
}

/**
 * Little-endian byte layouts of 32- and 64-bit words, as produced and consumed by a
 * java.nio.ByteBuffer whose order is ByteOrder.LITTLE_ENDIAN.
 */
module LittleEndian {
  import opened ByteConversions

  /** The four bytes of `x`, least significant first (ByteBuffer.putInt). */
  function LE32(x: bv32): (r: seq<bv8>)
    ensures |r| == 4
  {
    [ (x & 0xFF) as bv8, ((x >> 8) & 0xFF) as bv8,
      ((x >> 16) & 0xFF) as bv8, ((x >> 24) & 0xFF) as bv8 ]
  }

  /** The word stored least significant byte first in `s` (ByteBuffer.getInt). */
  function DecodeLE32(s: seq<bv8>): (r: bv32)
    requires |s| == 4
    ensures LE32(r) == s
  {
    (s[0] as bv32) | ((s[1] as bv32) << 8) | ((s[2] as bv32) << 16) | ((s[3] as bv32) << 24)
  }

  /** The number of values a 64-bit word can hold. */
  const TwoTo64: nat := 0x1_0000_0000_0000_0000

  /** 256 to the power `k`. */
  function Pow256(k: nat): (p: nat)
    ensures p >= 1
  {
    if k == 0 then 1 else 256 * Pow256(k - 1)
  }

  /** The `k` bytes of `n`, least significant first. */
  function LEBytes(n: nat, k: nat): (r: seq<bv8>)
    ensures |r| == k
  {
    if k == 0 then [] else [(n % 256) as bv8] + LEBytes(n / 256, k - 1)
  }

  /** The number stored least significant byte first in `s`. */
  function FromLEBytes(s: seq<bv8>): (n: nat)
    ensures n < Pow256(|s|)
  {
    if s == [] then 0 else s[0] as nat + 256 * FromLEBytes(s[1..])
  }

  /** The eight bytes of a 64-bit word holding `n` (ByteBuffer.putLong). */
  function LE64(n: nat): (r: seq<bv8>)
    requires n < TwoTo64
    ensures |r| == 8
  {
    LEBytes(n, 8)
  }

  /** The 64-bit word stored in `s`, read as an unsigned number (ByteBuffer.getLong, before sign). */
  function DecodeLE64(s: seq<bv8>): (n: nat)
    requires |s| == 8
    ensures n < TwoTo64
  {
    Pow256Eight();
    FromLEBytes(s)
  }

  lemma DecodeLE32OfLE32(x: bv32)
    ensures DecodeLE32(LE32(x)) == x
  {
  }

  lemma Pow256Eight()
    ensures Pow256(8) == TwoTo64
  {
    assert Pow256(4) == 0x1_0000_0000;
  }

  /** Splitting `b + 256 * m` into its low byte and the rest. */
  lemma DivModByte(n: nat, b: nat, m: nat)
    requires b < 256 && n == b + 256 * m
    ensures n % 256 == b && n / 256 == m
  {
  }

  lemma {:induction false} FromLEBytesOfLEBytes(n: nat, k: nat)
    requires n < Pow256(k)
    ensures FromLEBytes(LEBytes(n, k)) == n
  {
    if k > 0 {
      var s := LEBytes(n, k);
      var q := n / 256;
      assert n == 256 * q + n % 256;
      assert q < Pow256(k - 1);
      FromLEBytesOfLEBytes(q, k - 1);
      assert s[1..] == LEBytes(q, k - 1);
      ByteOfNat(n % 256);
      assert s[0] as nat == n % 256;
      assert FromLEBytes(s) == s[0] as nat + 256 * FromLEBytes(s[1..]);
    }
  }

  lemma {:induction false} LEBytesOfFromLEBytes(s: seq<bv8>)
    ensures LEBytes(FromLEBytes(s), |s|) == s
  {
    if s != [] {
      var n := FromLEBytes(s);
      var b := s[0] as nat;
      var m := FromLEBytes(s[1..]);
      NatOfByte(s[0]);
      assert n == b + 256 * m;
      DivModByte(n, b, m);
      LEBytesOfFromLEBytes(s[1..]);
      assert (b as bv8) == s[0];
      assert LEBytes(n, |s|) == [(n % 256) as bv8] + LEBytes(n / 256, |s| - 1);
    }
  }

  lemma DecodeLE64OfLE64(n: nat)
    requires n < TwoTo64
    ensures DecodeLE64(LE64(n)) == n
  {
    Pow256Eight();
    FromLEBytesOfLEBytes(n, 8);
  }

  lemma LE64OfDecodeLE64(s: seq<bv8>)
    requires |s| == 8
    ensures LE64(DecodeLE64(s)) == s
  {
    LEBytesOfFromLEBytes(s);
  }
}
