/** The named bits of a DTX header's internal flag word (`m_iflags`).
    Each variant of the source's `Flags` enum is `1 << k` for its own bit k. */
module DtxFlags {
  import opened Bytes
  import opened Wrappers

  datatype Flag =
    | DtxFullbrite      // fullbrite colours
    | DtxPrefer16bit    // use 16-bit even in 32-bit mode
    | DtxMipsalloced    // every mipmap has its texture data allocated
    | DtxSectionsfixed  // the section count has been fixed
    | DtxNosyscache     // not saved: keep out of the texture cache list
    | DtxPrefer4444     // in 16-bit mode use a 4444 texture
    | DtxPrefer5551     // in 16-bit mode use 5551
    | Dtx32bitsyscopy   // keep the system copy in 32 bits
    | DtxCubemap        // cube environment map
    | DtxBumpmap        // bump map with 8-bit U and V
    | DtxLumbumpmap     // bump map with luminance, U and V

  /** The shift amount k of the variant's discriminant `1 << k`: a bit
      below 13, and never bit 4 or 5, which no variant uses. */
  function BitIndex(f: Flag): (k: nat)
    ensures k < 13 && k != 4 && k != 5
  {
    match f
    case DtxFullbrite => 0
    case DtxPrefer16bit => 1
    case DtxMipsalloced => 2
    case DtxSectionsfixed => 3
    case DtxNosyscache => 6
    case DtxPrefer4444 => 7
    case DtxPrefer5551 => 8
    case Dtx32bitsyscopy => 9
    case DtxCubemap => 10
    case DtxBumpmap => 11
    case DtxLumbumpmap => 12
  }

  /** 2 to the power k, the value of `1 << k`. */
  function Pow2(k: nat): (r: nat)
    ensures r > 0
  {
    if k == 0 then 1 else 2 * Pow2(k - 1)
  }

  /** Pow2 is strictly increasing. */
  lemma {:induction false} Pow2Increasing(i: nat, j: nat)
    requires i < j
    ensures Pow2(i) < Pow2(j)
  {
    if i + 1 < j {
      Pow2Increasing(i, j - 1);
    }
  }

  /** The discriminant of a variant of `#[repr(u32)] enum Flags`. */
  function Mask(f: Flag): (m: u32)
    ensures m < 0x2000
  {
    Pow2Increasing(BitIndex(f), 13);
    assert Pow2(13) == 0x2000;
    Pow2(BitIndex(f))
  }

  /** Bit k of w (bit 0 is the least significant). */
  function Bit(w: nat, k: nat): bool
  {
    if k == 0 then w % 2 == 1 else Bit(w / 2, k - 1)
  }

  /** Bitwise AND of the low n bits of a and b (`a & b` on n-bit words). */
  function And(a: nat, b: nat, n: nat): (r: nat)
    ensures r < Pow2(n)
  {
    if n == 0 then 0
    else (if a % 2 == 1 && b % 2 == 1 then 1 else 0) + 2 * And(a / 2, b / 2, n - 1)
  }

  /** The flag variant whose bit is k, if any: the inverse of BitIndex. */
  function FlagOfBit(k: nat): (r: Option<Flag>)
    ensures r.Some? ==> BitIndex(r.value) == k
    ensures r.None? <==> k == 4 || k == 5 || k >= 13
  {
    match k
    case 0 => Some(DtxFullbrite)
    case 1 => Some(DtxPrefer16bit)
    case 2 => Some(DtxMipsalloced)
    case 3 => Some(DtxSectionsfixed)
    case 6 => Some(DtxNosyscache)
    case 7 => Some(DtxPrefer4444)
    case 8 => Some(DtxPrefer5551)
    case 9 => Some(Dtx32bitsyscopy)
    case 10 => Some(DtxCubemap)
    case 11 => Some(DtxBumpmap)
    case 12 => Some(DtxLumbumpmap)
    case _ => None
  }

  /** Every variant is found again from its bit. */
  lemma FlagOfBitIndex(f: Flag)
    ensures FlagOfBit(BitIndex(f)) == Some(f)
  {
  }

  /** Pow2(i) has exactly one bit set, bit i. */
  lemma {:induction false} Pow2SingleBit(i: nat, k: nat)
    ensures Bit(Pow2(i), k) <==> i == k
  {
    if k == 0 {
      if i > 0 {
        assert Pow2(i) == 2 * Pow2(i - 1);
      }
    } else if i == 0 {
      ZeroHasNoBits(k - 1);
    } else {
      assert Pow2(i) / 2 == Pow2(i - 1);
      Pow2SingleBit(i - 1, k - 1);
    }
  }

  lemma {:induction false} ZeroHasNoBits(k: nat)
    ensures !Bit(0, k)
  {
    if k > 0 {
      ZeroHasNoBits(k - 1);
    }
  }

  /** Each flag is a single bit: its mask has bit BitIndex(f) set and no other. */
  lemma FlagIsSingleBit(f: Flag, k: nat)
    ensures Bit(Mask(f), k) <==> k == BitIndex(f)
  {
    Pow2SingleBit(BitIndex(f), k);
  }

  /** No two variants share a bit. */
  lemma FlagsDisjoint(f: Flag, g: Flag)
    requires f != g
    ensures BitIndex(f) != BitIndex(g)
    ensures Mask(f) != Mask(g)
    ensures And(Mask(f), Mask(g), 32) == 0
  {
    FlagOfBitIndex(f);
    FlagOfBitIndex(g);
    if Mask(f) == Mask(g) {
      FlagIsSingleBit(f, BitIndex(f));
      FlagIsSingleBit(g, BitIndex(f));
    }
    AndPow2(Mask(f), BitIndex(g), 32);
    FlagIsSingleBit(f, BitIndex(g));
  }

  /** Masking a word with 1 << i keeps bit i alone: the result is 1 << i
      when bit i is set (and i is inside the word) and 0 otherwise. */
  lemma {:induction false} AndPow2(w: nat, i: nat, n: nat)
    ensures And(w, Pow2(i), n) == if i < n && Bit(w, i) then Pow2(i) else 0
  {
    if n == 0 {
    } else if i == 0 {
      AndZero(w / 2, n - 1);
    } else {
      assert Pow2(i) % 2 == 0 && Pow2(i) / 2 == Pow2(i - 1);
      AndPow2(w / 2, i - 1, n - 1);
    }
  }

  lemma {:induction false} AndZero(a: nat, n: nat)
    ensures And(a, 0, n) == 0
  {
    if n > 0 {
      AndZero(a / 2, n - 1);
    }
  }

  /** Whether the internal flag word has flag f set; the word is an `i32`,
      so its bits are those of its two's-complement encoding. */
  function Has(word: i32, f: Flag): bool
  {
    And(FromI32(word), Mask(f), 32) != 0
  }

  /** ANDing the flag word with a flag's mask isolates exactly that flag's bit. */
  lemma HasIsBitTest(word: i32, f: Flag)
    ensures And(FromI32(word), Mask(f), 32) == if Bit(FromI32(word), BitIndex(f)) then Mask(f) else 0
    ensures Has(word, f) <==> Bit(FromI32(word), BitIndex(f))
  {
    AndPow2(FromI32(word), BitIndex(f), 32);
  }
}
