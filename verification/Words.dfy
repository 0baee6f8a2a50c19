/** The word operations that put a code into the buffer and take it out again,
    against the bits of the whole buffer. */
module Words {
  import opened Bits
  import opened Packing

  const BUFFER_WORDS := 14

  /** insert_bit where the code does not cross into the next word. */
  function InsertWord(w: Word, wOffset: nat, nBits: nat, code: Word): Word
    requires wOffset + nBits <= WSIZE
  {
    var shift := WSIZE - (wOffset + nBits);
    Or(And(w, Not(Shl(LowMask(nBits), shift))), Shl(code, shift))
  }

  /** insert_bit where it does: the high bits of the code end one word, and the
      low bits, size2 of them, begin the next. */
  function InsertHigh(w: Word, wOffset: nat, size2: nat, code: Word): Word
    requires wOffset <= WSIZE && size2 <= WSIZE
  {
    Or(And(w, HighMask(wOffset)), Shr(code, size2))
  }

  function InsertLow(w: Word, size2: nat, code: Word): Word
    requires size2 <= WSIZE
  {
    Or(And(w, Not(Shl(LowMask(size2), WSIZE - size2))), Shl(code, WSIZE - size2))
  }

  /** Only the low n bits of a code that fits them are set. */
  lemma {:induction false} CodeBits(code: nat, n: nat)
    requires n <= WSIZE && code < Pow2(n)
    ensures var c: Word := ToBits(code, WSIZE);
      (forall i :: 0 <= i < WSIZE - n ==> !c[i]) && (forall i :: 0 <= i < n ==> c[WSIZE - n + i] == ToBits(code, n)[i])
  {
    ToBitsHead(code, n, WSIZE);
    ToBitsTail(code, n, WSIZE);
    var tail := ToBits(code, WSIZE)[WSIZE - n..];
    assert forall i :: 0 <= i < n ==> tail[i] == ToBits(code, WSIZE)[WSIZE - n + i];
  }

  lemma {:induction false} InsertWordBits(w: Word, wOffset: nat, nBits: nat, code: nat, i: nat)
    requires wOffset + nBits <= WSIZE && i < WSIZE && code < Pow2(nBits)
    ensures InsertWord(w, wOffset, nBits, ToBits(code, WSIZE))[i] ==
      if wOffset <= i < wOffset + nBits then ToBits(code, nBits)[i - wOffset] else w[i]
  {
    hide ToBits, Pow2;
    CodeBits(code, nBits);
    var shift := WSIZE - (wOffset + nBits);
    var c: Word := ToBits(code, WSIZE);
    if wOffset <= i < wOffset + nBits {
      assert c[i + shift] == c[WSIZE - nBits + (i - wOffset)];
    }
  }

  lemma {:induction false} InsertHighBits(w: Word, wOffset: nat, nBits: nat, code: nat, i: nat)
    requires wOffset < WSIZE < wOffset + nBits && nBits <= WSIZE && i < WSIZE && code < Pow2(nBits)
    ensures InsertHigh(w, wOffset, wOffset + nBits - WSIZE, ToBits(code, WSIZE))[i] ==
      if i >= wOffset then ToBits(code, nBits)[i - wOffset] else w[i]
  {
    hide ToBits, Pow2;
    CodeBits(code, nBits);
    var size2 := wOffset + nBits - WSIZE;
    var c: Word := ToBits(code, WSIZE);
    if i >= wOffset {
      assert c[i - size2] == c[WSIZE - nBits + (i - wOffset)];
    }
  }

  lemma {:induction false} InsertLowBits(w: Word, wOffset: nat, nBits: nat, code: nat, i: nat)
    requires wOffset < WSIZE < wOffset + nBits && nBits <= WSIZE && i < WSIZE && code < Pow2(nBits)
    ensures
      var size2 := wOffset + nBits - WSIZE;
      InsertLow(w, size2, ToBits(code, WSIZE))[i] ==
      if i < size2 then ToBits(code, nBits)[nBits - size2 + i] else w[i]
  {
    hide ToBits, Pow2;
    CodeBits(code, nBits);
    var size2 := wOffset + nBits - WSIZE;
    var c: Word := ToBits(code, WSIZE);
    if i < size2 {
      assert c[i + (WSIZE - size2)] == c[WSIZE - nBits + (nBits - size2 + i)];
    }
  }

  /** What insert_bit does to the buffer. */
  function InsertWords(words: seq<Word>, offset: nat, nBits: nat, code: Word): (r: seq<Word>)
    requires nBits <= WSIZE && offset + nBits <= WSIZE * |words| && 0 < nBits
    ensures |r| == |words|
  {
    var i, wOffset := offset / WSIZE, offset % WSIZE;
    if wOffset + nBits <= WSIZE then words[i := InsertWord(words[i], wOffset, nBits, code)]
    else
      var size2 := wOffset + nBits - WSIZE;
      words[i := InsertHigh(words[i], wOffset, size2, code)][i + 1 := InsertLow(words[i + 1], size2, code)]
  }

  /** It puts the bits of the code at the offset, and changes no other bit. */
  lemma {:induction false} InsertWordsBits(words: seq<Word>, offset: nat, nBits: nat, code: nat)
    requires 0 < nBits <= WSIZE && offset + nBits <= WSIZE * |words| && code < Pow2(nBits)
    ensures Flatten(InsertWords(words, offset, nBits, ToBits(code, WSIZE))) ==
      Insert(Flatten(words), offset, nBits, code)
  {
    hide ToBits, Pow2, InsertWord, InsertHigh, InsertLow;
    var r := InsertWords(words, offset, nBits, ToBits(code, WSIZE));
    var i, wOffset := offset / WSIZE, offset % WSIZE;
    forall k: nat | k < WSIZE * |words|
      ensures Flatten(r)[k] == Insert(Flatten(words), offset, nBits, code)[k]
    {
      var b := k % WSIZE;
      if wOffset + nBits <= WSIZE {
        InsertWordBits(words[i], wOffset, nBits, code, b);
      } else {
        InsertHighBits(words[i], wOffset, nBits, code, b);
        InsertLowBits(words[i + 1], wOffset, nBits, code, b);
      }
    }
  }

  /** What fetch takes out of one word, or out of two. */
  function FetchOne(w: Word, wOffset: nat, nBits: nat): Word
    requires wOffset + nBits <= WSIZE
  {
    And(Shr(w, WSIZE - (wOffset + nBits)), LowMask(nBits))
  }

  function FetchTwo(w: Word, v: Word, wOffset: nat, nBits: nat): Word
    requires wOffset < WSIZE < wOffset + nBits && nBits <= WSIZE
  {
    var t1 := wOffset + nBits;
    And(Or(Shl(w, t1 - WSIZE), Shr(v, 2 * WSIZE - t1)), LowMask(nBits))
  }

  function FetchWord(words: seq<Word>, offset: nat, nBits: nat): Word
    requires 0 < nBits <= WSIZE && offset + nBits <= WSIZE * |words|
  {
    var i, wOffset := offset / WSIZE, offset % WSIZE;
    if wOffset + nBits <= WSIZE then FetchOne(words[i], wOffset, nBits)
    else FetchTwo(words[i], words[i + 1], wOffset, nBits)
  }

  lemma {:induction false} FlattenAt(words: seq<Word>, i: nat, b: nat)
    requires i < |words| && b < WSIZE
    ensures WSIZE * i + b < WSIZE * |words| && Flatten(words)[WSIZE * i + b] == words[i][b]
  {
    assert (WSIZE * i + b) / WSIZE == i && (WSIZE * i + b) % WSIZE == b;
  }

  lemma {:induction false} FetchBit(words: seq<Word>, offset: nat, nBits: nat, k: nat)
    requires 0 < nBits <= WSIZE && offset + nBits <= WSIZE * |words| && k < WSIZE
    ensures FetchWord(words, offset, nBits)[k] ==
      (k >= WSIZE - nBits && Flatten(words)[offset + k - (WSIZE - nBits)])
  {
    hide Flatten, FetchOne, FetchTwo;
    var i, wOffset := offset / WSIZE, offset % WSIZE;
    var b := wOffset + k - (WSIZE - nBits);
    if wOffset + nBits <= WSIZE {
      FetchOneBit(words[i], wOffset, nBits, k);
    } else {
      FetchTwoBit(words[i], words[i + 1], wOffset, nBits, k);
    }
    if k >= WSIZE - nBits {
      if b < WSIZE {
        FlattenAt(words, i, b);
      } else {
        FlattenAt(words, i + 1, b - WSIZE);
      }
    }
  }

  lemma {:induction false} FetchOneBit(w: Word, wOffset: nat, nBits: nat, k: nat)
    requires wOffset + nBits <= WSIZE && k < WSIZE
    ensures FetchOne(w, wOffset, nBits)[k] == (k >= WSIZE - nBits && w[wOffset + k - (WSIZE - nBits)])
  {
  }

  lemma {:induction false} FetchTwoBit(w: Word, v: Word, wOffset: nat, nBits: nat, k: nat)
    requires wOffset < WSIZE < wOffset + nBits && nBits <= WSIZE && k < WSIZE
    ensures
      var b := wOffset + k - (WSIZE - nBits);
      FetchTwo(w, v, wOffset, nBits)[k] == (k >= WSIZE - nBits && if b < WSIZE then w[b] else v[b - WSIZE])
  {
  }

  lemma {:induction false} FetchBits(words: seq<Word>, offset: nat, nBits: nat)
    requires 0 < nBits <= WSIZE && offset + nBits <= WSIZE * |words|
    ensures FromBits(FetchWord(words, offset, nBits)) == FromBits(Flatten(words)[offset..offset + nBits])
  {
    hide FromBits, FetchWord, Flatten;
    var f := FetchWord(words, offset, nBits);
    forall k: nat | k < WSIZE
      ensures f[k] == (k >= WSIZE - nBits && Flatten(words)[offset + k - (WSIZE - nBits)])
    {
      FetchBit(words, offset, nBits, k);
    }
    assert f[WSIZE - nBits..] == Flatten(words)[offset..offset + nBits];
    FromBitsTail(f, WSIZE - nBits);
  }

  /** (hi << 8) | lo */
  function JoinBytes(hi: Byte, lo: Byte): (w: Word)
    ensures w == ToBits(hi, 8) + ToBits(lo, 8)
  {
    JoinBits(hi, lo);
    Or(Shl(ToBits(hi, WSIZE), 8), ToBits(lo, WSIZE))
  }

  lemma {:induction false} JoinBits(hi: Byte, lo: Byte)
    ensures Or(Shl(ToBits(hi, WSIZE), 8), ToBits(lo, WSIZE)) == ToBits(hi, 8) + ToBits(lo, 8)
  {
    hide ToBits;
    BytePow2();
    CodeBits(hi, 8);
    CodeBits(lo, 8);
  }

  lemma {:induction false} BytePow2()
    ensures Pow2(8) == 256
  {
    assert Pow2(4) == 16 && Pow2(8) == 16 * Pow2(4);
  }

  /** Two bytes a word, as bits. */
  lemma {:induction false} FlattenBytes(words: seq<Word>, bytes: seq<Byte>)
    requires |bytes| == 2 * |words|
    requires forall i :: 0 <= i < |words| ==> words[i] == ToBits(bytes[2 * i], 8) + ToBits(bytes[2 * i + 1], 8)
    ensures Flatten(words) == BitsOf(bytes)
  {
    hide ToBits;
    forall k: nat | k < WSIZE * |words|
      ensures Flatten(words)[k] == BitsOf(bytes)[k]
    {
      var i, b := k / WSIZE, k % WSIZE;
      assert words[i] == ToBits(bytes[2 * i], 8) + ToBits(bytes[2 * i + 1], 8);
      if b < 8 {
        assert k / 8 == 2 * i && k % 8 == b;
      } else {
        assert k / 8 == 2 * i + 1 && k % 8 == b - 8;
      }
    }
  }

  lemma {:induction false} FlattenConcat(a: seq<Word>, b: seq<Word>)
    ensures Flatten(a + b) == Flatten(a) + Flatten(b)
  {
    forall k: nat | k < WSIZE * |a + b|
      ensures Flatten(a + b)[k] == (Flatten(a) + Flatten(b))[k]
    {
      if k >= WSIZE * |a| {
        assert (k - WSIZE * |a|) / WSIZE == k / WSIZE - |a| && (k - WSIZE * |a|) % WSIZE == k % WSIZE;
      }
    }
  }

  /** Words filled two bytes each, and the words after them, are what readbuf
      leaves in the buffer. */
  lemma {:induction false} FilledWords(before: seq<Word>, words: seq<Word>, bytes: seq<Byte>)
    requires |words| == |before| == BUFFER_WORDS && |bytes| <= MAX_BITS
    requires
      var even := if |bytes| % 2 == 1 then bytes + [0] else bytes;
      var n := |even| / 2;
      && (forall i :: 0 <= i < n ==> words[i] == ToBits(even[2 * i], 8) + ToBits(even[2 * i + 1], 8))
      && words[n..] == before[n..]
    ensures Flatten(words) == Fill(Flatten(before), bytes)
  {
    hide ToBits, BitsOf, Flatten;
    var even := if |bytes| % 2 == 1 then bytes + [0] else bytes;
    var n := |even| / 2;
    FlattenBytes(words[..n], even);
    assert words == words[..n] + words[n..] && before == before[..n] + before[n..];
    FlattenConcat(words[..n], words[n..]);
    FlattenConcat(before[..n], before[n..]);
    assert Flatten(before)[WSIZE * n..] == Flatten(before[n..]);
  }

  /** b << 8 */
  lemma {:induction false} ShiftedByte(b: Byte)
    ensures Shl(ToBits(b, WSIZE), 8) == ToBits(b, 8) + ToBits(0, 8)
  {
    hide ToBits;
    BytePow2();
    CodeBits(b, 8);
    CodeBits(0, 8);
    ToBitsHead(0, 0, 8);
  }
}
