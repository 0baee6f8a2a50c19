/** Bytes, 16-bit words and bit strings.

    A bit string is written most significant bit first.  A machine word is
    modelled by its bits, so that the C operators on words become operations
    on sequences whose effect on each bit can be read off directly. */
module Bits {
  type Byte = b: int | 0 <= b < 256

  const WSIZE := 16

  type Word = w: seq<bool> | |w| == WSIZE witness seq(WSIZE, i => false)

  function Pow2(n: nat): (p: nat)
    ensures p > 0
  {
    if n == 0 then 1 else 2 * Pow2(n - 1)
  }

  /** The low n bits of a value. */
  function ToBits(value: nat, n: nat): (bits: seq<bool>)
    ensures |bits| == n
  {
    if n == 0 then [] else ToBits(value / 2, n - 1) + [value % 2 == 1]
  }

  function FromBits(bits: seq<bool>): (value: nat)
    ensures value < Pow2(|bits|)
  {
    if |bits| == 0 then 0
    else 2 * FromBits(bits[..|bits| - 1]) + if bits[|bits| - 1] then 1 else 0
  }

  lemma {:induction false} FromToBits(value: nat, n: nat)
    requires value < Pow2(n)
    ensures FromBits(ToBits(value, n)) == value
  {
    if n > 0 {
      FromToBits(value / 2, n - 1);
      assert ToBits(value, n)[..n - 1] == ToBits(value / 2, n - 1);
    }
  }

  lemma {:induction false} ToFromBits(bits: seq<bool>)
    ensures ToBits(FromBits(bits), |bits|) == bits
  {
    if |bits| > 0 {
      ToFromBits(bits[..|bits| - 1]);
      assert bits == bits[..|bits| - 1] + [bits[|bits| - 1]];
    }
  }

  /** Fewer bits of a value are the tail of more bits of it. */
  lemma {:induction false} ToBitsTail(value: nat, n: nat, m: nat)
    requires n <= m
    ensures ToBits(value, m)[m - n..] == ToBits(value, n)
  {
    if n > 0 {
      ToBitsTail(value / 2, n - 1, m - 1);
      assert ToBits(value, m)[m - n..] == ToBits(value / 2, m - 1)[m - n..] + [value % 2 == 1];
    }
  }

  /** The bits above the width of a value are clear. */
  lemma {:induction false} ToBitsHead(value: nat, n: nat, m: nat)
    requires n <= m && value < Pow2(n)
    ensures forall i :: 0 <= i < m - n ==> !ToBits(value, m)[i]
  {
    if n > 0 {
      ToBitsHead(value / 2, n - 1, m - 1);
    } else if m > 0 {
      ToBitsHead(value, n, m - 1);
    }
  }

  /** Reading a bit string back as a number ignores leading zeros. */
  lemma {:induction false} FromBitsTail(bits: seq<bool>, k: nat)
    requires k <= |bits| && forall i :: 0 <= i < k ==> !bits[i]
    ensures FromBits(bits) == FromBits(bits[k..])
    decreases |bits|
  {
    if |bits| > k {
      FromBitsTail(bits[..|bits| - 1], k);
      assert bits[k..][..|bits| - k - 1] == bits[..|bits| - 1][k..];
    } else if k > 0 {
      FromBitsTail(bits[..|bits| - 1], k - 1);
      assert bits[k..] == bits[..|bits| - 1][k - 1..] == [];
    }
  }

  /* Words.  Each function is a C operator on an unsigned 16-bit operand. */

  function Shl(w: Word, k: nat): Word requires k <= WSIZE {
    seq(WSIZE, i requires 0 <= i < WSIZE => i + k < WSIZE && w[i + k])
  }

  function Shr(w: Word, k: nat): Word requires k <= WSIZE {
    seq(WSIZE, i requires 0 <= i < WSIZE => i >= k && w[i - k])
  }

  function And(v: Word, w: Word): Word {
    seq(WSIZE, i requires 0 <= i < WSIZE => v[i] && w[i])
  }

  function Or(v: Word, w: Word): Word {
    seq(WSIZE, i requires 0 <= i < WSIZE => v[i] || w[i])
  }

  function Not(w: Word): Word {
    seq(WSIZE, i requires 0 <= i < WSIZE => !w[i])
  }

  /** mask1[k]: the k high bits set. */
  function HighMask(k: nat): Word requires k <= WSIZE {
    seq(WSIZE, i requires 0 <= i < WSIZE => i < k)
  }

  /** mask2[k] and LowOrder(k): the k low bits set. */
  function LowMask(k: nat): Word requires k <= WSIZE {
    seq(WSIZE, i requires 0 <= i < WSIZE => i >= WSIZE - k)
  }

  /** The bits of an array of words, first word first. */
  function Flatten(words: seq<Word>): (bits: seq<bool>)
    ensures |bits| == WSIZE * |words|
  {
    seq(WSIZE * |words|, i requires 0 <= i < WSIZE * |words| => words[i / WSIZE][i % WSIZE])
  }

  /** The bits of a string of bytes. */
  function BitsOf(bytes: seq<Byte>): (bits: seq<bool>)
    ensures |bits| == 8 * |bytes|
  {
    seq(8 * |bytes|, i requires 0 <= i < 8 * |bytes| => ToBits(bytes[i / 8], 8)[i % 8])
  }

  lemma {:induction false} EightBits(bits: seq<bool>)
    requires |bits| == 8
    ensures FromBits(bits) < 256 && ToBits(FromBits(bits), 8) == bits
  {
    ToFromBits(bits);
    assert Pow2(4) == 16 && Pow2(8) == 16 * Pow2(4);
  }

  function ByteOf(bits: seq<bool>): (b: Byte)
    requires |bits| == 8
    ensures ToBits(b, 8) == bits
  {
    EightBits(bits);
    FromBits(bits)
  }

  /** The first count bytes of a bit string. */
  function BytesOf(bits: seq<bool>, count: nat): (bytes: seq<Byte>)
    requires 8 * count <= |bits|
    ensures |bytes| == count
    ensures BitsOf(bytes) == bits[..8 * count]
  {
    var bytes := seq(count, i requires 0 <= i < count => ByteOf(bits[8 * i..8 * i + 8]));
    assert forall k :: 0 <= k < 8 * count ==> BitsOf(bytes)[k] == bits[k] by {
      forall k | 0 <= k < 8 * count ensures BitsOf(bytes)[k] == bits[k] {
        var i := k / 8;
        assert BitsOf(bytes)[k] == ToBits(bytes[i], 8)[k % 8] == bits[8 * i..8 * i + 8][k % 8];
      }
    }
    bytes
  }

  lemma {:induction false} BitsOfConcat(a: seq<Byte>, b: seq<Byte>)
    ensures BitsOf(a + b) == BitsOf(a) + BitsOf(b)
  {
    forall k | 0 <= k < 8 * |a + b|
      ensures BitsOf(a + b)[k] == (BitsOf(a) + BitsOf(b))[k]
    {
      if k >= 8 * |a| {
        BitPlace(|a|, k - 8 * |a|);
      }
    }
  }

  lemma {:induction false} BitPlace(lo: nat, k: nat)
    ensures (8 * lo + k) / 8 == lo + k / 8 && (8 * lo + k) % 8 == k % 8
  {
  }

  lemma {:induction false} BitsOfSlice(bytes: seq<Byte>, lo: nat, hi: nat)
    requires lo <= hi <= |bytes|
    ensures BitsOf(bytes[lo..hi]) == BitsOf(bytes)[8 * lo..8 * hi]
  {
    forall k | 0 <= k < 8 * (hi - lo)
      ensures BitsOf(bytes[lo..hi])[k] == BitsOf(bytes)[8 * lo..8 * hi][k]
    {
      BitPlace(lo, k);
    }
  }

  /* Bytes of words, as the buffer is written and read. */

  /** (w >> 8) & 0xff */
  function HighByte(w: Word): (b: Byte)
    ensures ToBits(b, 8) == w[..8]
  {
    var v := And(Shr(w, 8), LowMask(8));
    FromBitsTail(v, 8);
    assert v[8..] == w[..8];
    EightBits(w[..8]);
    FromBits(v)
  }

  /** w & 0xff */
  function LowByte(w: Word): (b: Byte)
    ensures ToBits(b, 8) == w[8..]
  {
    var v := And(w, LowMask(8));
    FromBitsTail(v, 8);
    assert v[8..] == w[8..];
    EightBits(w[8..]);
    FromBits(v)
  }
}
