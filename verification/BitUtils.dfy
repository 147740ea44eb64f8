/** Bit arithmetic of utils/BitUtils.h, and the bit strings in which the codec is specified. */
module BitUtils {
  import opened MachineInts

  // ---- the C operators on unsigned words, one bit position at a time ----

  function Pow2(n: nat): (r: nat)
    ensures r > 0
  {
    if n == 0 then 1 else 2 * Pow2(n - 1)
  }

  /** x << n, before the result is cut to the width of its type. */
  function Shl(x: nat, n: nat): nat {
    if n == 0 then x else 2 * Shl(x, n - 1)
  }

  /** x >> n */
  function Shr(x: nat, n: nat): nat {
    if n == 0 then x else Shr(x / 2, n - 1)
  }

  /** x & bu_truncateMask(n): the low n bits of x. */
  function Truncate(x: nat, n: nat): (r: nat)
    ensures r <= x
  {
    if n == 0 then 0 else 2 * Truncate(x / 2, n - 1) + x % 2
  }

  lemma {:induction false} ShlIsMultiplication(x: nat, n: nat)
    ensures Shl(x, n) == x * Pow2(n)
  {
    if n > 0 {
      ShlIsMultiplication(x, n - 1);
    }
  }

  lemma {:induction false} ShiftAndMaskAreDivMod(x: nat, n: nat)
    ensures x == Shr(x, n) * Pow2(n) + Truncate(x, n)
  {
    if n > 0 {
      ShiftAndMaskAreDivMod(x / 2, n - 1);
      DoubleFactor(Shr(x / 2, n - 1), Pow2(n - 1));
    }
  }

  lemma DoubleFactor(a: nat, p: nat)
    ensures a * (2 * p) == 2 * (a * p)
  {
  }

  lemma {:induction false} TruncateBound(x: nat, n: nat)
    ensures Truncate(x, n) < Pow2(n)
  {
    if n > 0 {
      TruncateBound(x / 2, n - 1);
    }
  }

  lemma {:induction false} TruncateSmall(x: nat, n: nat)
    requires x < Pow2(n)
    ensures Truncate(x, n) == x
  {
    if n > 0 {
      TruncateSmall(x / 2, n - 1);
    }
  }

  lemma {:induction false} Pow2Add(m: nat, n: nat)
    ensures Pow2(m + n) == Pow2(m) * Pow2(n)
  {
    if n > 0 {
      Pow2Add(m, n - 1);
      DoubleFactor(Pow2(m), Pow2(n - 1));
    }
  }

  lemma {:induction false} Pow2Monotone(m: nat, n: nat)
    requires m <= n
    ensures Pow2(m) <= Pow2(n)
    decreases n
  {
    if m < n {
      Pow2Monotone(m, n - 1);
    }
  }

  lemma Pow2Values()
    ensures Pow2(8) == 0x100 && Pow2(16) == 0x1_0000 && Pow2(32) == 0x1_0000_0000
  {
    assert Pow2(8) == 0x100;
    Pow2Add(8, 8);
    Pow2Add(16, 16);
  }

  // ---- sizes ----

  /** The least number of bits that can hold value. */
  function NumBits(value: nat): nat {
    if value == 0 then 0 else 1 + NumBits(value / 2)
  }

  lemma {:induction false} NumBitsIsLeast(value: nat)
    ensures value < Pow2(NumBits(value))
    ensures value > 0 ==> NumBits(value) > 0 && Pow2(NumBits(value) - 1) <= value
  {
    if value > 0 {
      NumBitsIsLeast(value / 2);
    }
  }

  method GetNumBits(value: uint16) returns (numBits: nat)
    ensures numBits == NumBits(value) <= 16
  {
    numBits := 0;
    var v: nat := value;
    while v > 0
      invariant numBits + NumBits(v) == NumBits(value)
      decreases v
    {
      v := v / 2;
      numBits := numBits + 1;
    }
    Pow2Values();
    NumBitsBound(value, 16);
  }

  lemma {:induction false} NumBitsBound(value: nat, w: nat)
    requires value < Pow2(w)
    ensures NumBits(value) <= w
  {
    if w > 0 {
      NumBitsBound(value / 2, w - 1);
    }
  }

  /** bu_getNumBytes: bytes needed for numBits bits. */
  function NumBytes(numBits: nat): (n: nat)
    ensures 8 * n - 7 <= numBits <= 8 * n
  {
    (numBits + 7) / 8
  }

  // ---- bit strings, most significant bit first ----

  /** The low `width` bits of x. Higher bits of x do not matter. */
  function Bits(x: nat, width: nat): (b: seq<bool>)
    ensures |b| == width
  {
    if width == 0 then [] else Bits(x / 2, width - 1) + [x % 2 == 1]
  }

  function FromBits(b: seq<bool>): nat {
    if b == [] then 0
    else 2 * FromBits(b[..|b| - 1]) + (if b[|b| - 1] then 1 else 0)
  }

  lemma {:induction false} FromBitsBound(b: seq<bool>)
    ensures FromBits(b) < Pow2(|b|)
  {
    if b != [] {
      FromBitsBound(b[..|b| - 1]);
    }
  }

  lemma {:induction false} FromBitsOfBits(x: nat, width: nat)
    ensures FromBits(Bits(x, width)) == Truncate(x, width)
  {
    if width > 0 {
      FromBitsOfBits(x / 2, width - 1);
      assert Bits(x, width)[..width - 1] == Bits(x / 2, width - 1);
    }
  }

  lemma {:induction false} BitsOfFromBits(b: seq<bool>)
    ensures Bits(FromBits(b), |b|) == b
  {
    if b != [] {
      BitsOfFromBits(b[..|b| - 1]);
      assert b == b[..|b| - 1] + [b[|b| - 1]];
    }
  }

  /** Splitting a word: its high bits are those of the word shifted right. */
  lemma {:induction false} BitsSplit(x: nat, m: nat, n: nat)
    ensures Bits(x, m + n) == Bits(Shr(x, n), m) + Bits(x, n)
  {
    if n > 0 {
      BitsSplit(x / 2, m, n - 1);
      assert Bits(x, m + n) == Bits(x / 2, m + (n - 1)) + [x % 2 == 1];
    }
  }

  /** Appending a field below: the word moved left by n with value in the free low bits. */
  lemma {:induction false} BitsAppend(x: nat, m: nat, value: nat, n: nat)
    requires value < Pow2(n)
    ensures Bits(Shl(x, n) + value, m + n) == Bits(x, m) + Bits(value, n)
  {
    if n > 0 {
      BitsAppend(x, m, value / 2, n - 1);
      var y := Shl(x, n) + value;
      assert y / 2 == Shl(x, n - 1) + value / 2;
      assert Bits(y, m + n) == Bits(y / 2, m + (n - 1)) + [y % 2 == 1];
    }
  }

  /** Masking keeps every bit inside the mask. */
  lemma {:induction false} BitsOfTruncate(x: nat, width: nat, m: nat)
    requires width <= m
    ensures Bits(Truncate(x, m), width) == Bits(x, width)
  {
    if width > 0 {
      BitsOfTruncate(x / 2, width - 1, m - 1);
    }
  }

  /** Cutting a word to 32 bits keeps its low 32 bits. */
  lemma BitsOfUint32(x: nat, width: nat)
    requires width <= 32
    ensures Bits(ToUint32(x), width) == Bits(x, width)
  {
    Truncate32(x);
    BitsOfTruncate(x, width, 32);
  }

  lemma Truncate32(x: nat)
    ensures Truncate(x, 32) == ToUint32(x)
  {
    Pow2Values();
    hide Truncate, Shr, Pow2;
    TruncateBound(x, 32);
    ShiftAndMaskAreDivMod(x, 32);
  }

  lemma Truncate8(x: nat)
    ensures Truncate(x, 8) == ToUint8(x)
  {
    Pow2Values();
    hide Truncate, Shr, Pow2;
    TruncateBound(x, 8);
    ShiftAndMaskAreDivMod(x, 8);
  }

  lemma Truncate16(x: nat)
    ensures Truncate(x, 16) == ToUint16(x)
  {
    Pow2Values();
    hide Truncate, Shr, Pow2;
    TruncateBound(x, 16);
    ShiftAndMaskAreDivMod(x, 16);
  }
}
