/** What the two encodings of BASE and CHECK share: differences from the slot number, and links cut in two. */
module BcUnits {
  import opened Bits
  import opened FreeList

  /** x & 0xFF */
  function LowByte(x: nat): (r: byte)
    ensures r == Low(x, 8)
  {
    LowBound(x, 8);
    Shr8(x);
    AndMask(x, 8);
    And(x, 0xFF)
  }

  lemma XorWord(x: nat, y: nat)
    requires x < WORD_SIZE && y < WORD_SIZE
    ensures Xor(x, y) < WORD_SIZE
  {
    forall k: nat | 64 <= k ensures !Bit(Xor(x, y), k) {
      XorBit(x, y, k);
      WordBits(x, k);
      WordBits(y, k);
    }
    WordFromBits(Xor(x, y));
  }

  lemma LinkFits(x: nat)
    requires x < WORD_SIZE
    ensures Shr(x, 8) < Pow2(63)
  {
    Pow2Values();
    Pow2Mono(56, 63);
    Shr8(x);
  }

  /** The low byte and the rest make up the link again. */
  lemma LinkBytes(x: nat)
    requires x < WORD_SIZE
    ensures Or(Low(x, 8), Shl(Shr(x, 8), 8)) == x
  {
    forall k: nat ensures Bit(Or(Low(x, 8), Shl(Shr(x, 8), 8)), k) == Bit(x, k) {
      OrBit(Low(x, 8), Shl(Shr(x, 8), 8), k);
      LowBit(x, 8, k);
      ShlBit(Shr(x, 8), 8, k);
      if 8 <= k { ShrBit(x, 8, k - 8); }
      if 64 <= k { WordBits(x, k); }
    }
    SameBits(Or(Low(x, 8), Shl(Shr(x, 8), 8)), x);
  }

  /** Which slots carry their own number. */
  function SelfChecked(units: seq<Unit>): seq<bool> {
    seq(|units|, i requires 0 <= i < |units| => units[i].check == i)
  }
}
