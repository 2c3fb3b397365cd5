/** Single bits of a byte, counted from the most significant one. */
module PackedBits {
  /** The bit 0x80 shifted right i times. */
  function Mask(i: nat): bv8
    requires i < 8
  {
    if i == 0 then 0x80 else Mask(i - 1) >> 1
  }

  predicate Bit(b: bv8, i: nat)
    requires i < 8
  {
    b & Mask(i) != 0
  }

  lemma Masks()
    ensures Mask(0) == 0x80 && Mask(1) == 0x40 && Mask(2) == 0x20 && Mask(3) == 0x10
    ensures Mask(4) == 0x08 && Mask(5) == 0x04 && Mask(6) == 0x02 && Mask(7) == 0x01
  {
    assert Mask(3) == 0x10;
    assert Mask(5) == 4;
  }

  function Weight(v: bool, weight: bv8): bv8 {
    if v then weight else 0
  }

  /** The byte whose bits are those from k on, the first with weight 128; none is set behind the end. */
  function EightBits(bits: seq<bool>, k: nat): bv8 {
    Weight(At(bits, k), 128) | Weight(At(bits, k + 1), 64) | Weight(At(bits, k + 2), 32) | Weight(At(bits, k + 3), 16)
    | Weight(At(bits, k + 4), 8) | Weight(At(bits, k + 5), 4) | Weight(At(bits, k + 6), 2) | Weight(At(bits, k + 7), 1)
  }

  predicate At(bits: seq<bool>, k: nat) {
    k < |bits| && bits[k]
  }

  lemma BitOfEight(bits: seq<bool>, k: nat, j: nat)
    requires j < 8
    ensures Bit(EightBits(bits, k), j) == At(bits, k + j)
  {
    hide Mask;
    Masks();
  }

  /** A byte with one bit replaced. */
  function With(b: bv8, i: nat, v: bool): bv8
    requires i < 8
  {
    (b & !Mask(i)) | (if v then Mask(i) else 0)
  }

  lemma WithBit(b: bv8, i: nat, v: bool, j: nat)
    requires i < 8 && j < 8
    ensures Bit(With(b, i, v), j) == if j == i then v else Bit(b, j)
  {
    hide Mask;
    Masks();
  }

  lemma AddBit(b: bv8, i: nat, v: bool, j: nat)
    requires i < 8 && j < 8 && !Bit(b, i)
    ensures Bit(b | (if v then Mask(i) else 0), j) == if j == i then v else Bit(b, j)
  {
    hide Mask;
    Masks();
  }

  lemma NoBits(j: nat)
    requires j < 8
    ensures !Bit(0, j)
  {
  }

  /** A byte is determined by its bits. */
  lemma SameBits(a: bv8, b: bv8)
    requires forall j :: 0 <= j < 8 ==> Bit(a, j) == Bit(b, j)
    ensures a == b
  {
    hide Mask;
    Masks();
    assert Bit(a, 0) == Bit(b, 0) && Bit(a, 1) == Bit(b, 1) && Bit(a, 2) == Bit(b, 2) && Bit(a, 3) == Bit(b, 3);
    assert Bit(a, 4) == Bit(b, 4) && Bit(a, 5) == Bit(b, 5) && Bit(a, 6) == Bit(b, 6) && Bit(a, 7) == Bit(b, 7);
  }

  /** The p lowest bits: (1 << p) - 1. */
  function UnusedMask(p: nat): bv8
    requires p < 8
  {
    if p == 0 then 0 else (UnusedMask(p - 1) << 1) | 1
  }

  /** 0xFF << p. */
  function UsedMask(p: nat): bv8
    requires p < 8
  {
    if p == 0 then 0xFF else UsedMask(p - 1) << 1
  }

  lemma UnusedMasks()
    ensures UnusedMask(0) == 0 && UnusedMask(1) == 1 && UnusedMask(2) == 3 && UnusedMask(3) == 7
    ensures UnusedMask(4) == 15 && UnusedMask(5) == 31 && UnusedMask(6) == 63 && UnusedMask(7) == 127
  {
    assert UnusedMask(3) == 7;
    assert UnusedMask(5) == 31;
  }

  lemma UsedMasks()
    ensures UsedMask(0) == 255 && UsedMask(1) == 254 && UsedMask(2) == 252 && UsedMask(3) == 248
    ensures UsedMask(4) == 240 && UsedMask(5) == 224 && UsedMask(6) == 192 && UsedMask(7) == 128
  {
    assert UsedMask(3) == 248;
    assert UsedMask(5) == 224;
  }

  /** The mask finds nothing exactly when none of the last p bits is set. */
  lemma UnusedClear(b: bv8, p: nat)
    requires p < 8
    ensures b & UnusedMask(p) == 0 <==> forall j :: 8 - p <= j < 8 ==> !Bit(b, j)
  {
    hide Mask, UnusedMask;
    Masks();
    UnusedMasks();
    if b & UnusedMask(p) != 0 {
      SomeBit(b, p);
    }
  }

  lemma SomeBit(b: bv8, p: nat)
    requires p < 8 && b & UnusedMask(p) != 0
    ensures exists j :: 8 - p <= j < 8 && Bit(b, j)
  {
    hide Mask, UnusedMask;
    Masks();
    UnusedMasks();
    assert p > 0 && (Bit(b, 7) || (p > 1 && (Bit(b, 6) || (p > 2 && (Bit(b, 5) || (p > 3 && (Bit(b, 4)
           || (p > 4 && (Bit(b, 3) || (p > 5 && (Bit(b, 2) || (p > 6 && Bit(b, 1)))))))))))));
  }

  lemma UsedBit(b: bv8, p: nat, j: nat)
    requires p < 8 && j < 8
    ensures Bit(UsedMask(p) & b, j) == (j < 8 - p && Bit(b, j))
  {
    hide Mask, UsedMask;
    Masks();
    UsedMasks();
  }
}
