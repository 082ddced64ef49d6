/** Bitwise operators on unsigned words, defined on the word's value digit by digit. */
module Bits {
  /** `x` has at most `width` binary digits. */
  predicate Fits(x: nat, width: nat) {
    x == 0 || (width > 0 && Fits(x / 2, width - 1))
  }

  /** Bit `i` of `x`, bit 0 being the least significant. */
  predicate Bit(x: nat, i: nat) {
    if i == 0 then x % 2 == 1 else Bit(x / 2, i - 1)
  }

  datatype Op = Or | And | Xor {
    predicate Holds(a: bool, b: bool) {
      match this
      case Or => a || b
      case And => a && b
      case Xor => a != b
    }
  }

  function Combine(op: Op, x: nat, y: nat): nat
    decreases x + y
  {
    if x == 0 && y == 0 then 0
    else (if op.Holds(x % 2 == 1, y % 2 == 1) then 1 else 0) + 2 * Combine(op, x / 2, y / 2)
  }

  /** The low `width` bits of `x`. */
  function Low(x: nat, width: nat): (r: nat)
    ensures Fits(r, width)
  {
    if x == 0 || width == 0 then 0 else x % 2 + 2 * Low(x / 2, width - 1)
  }

  /** `x << d` in a word of `width` bits: bits shifted past the top are lost. */
  function Shl(x: nat, d: nat, width: nat): nat
    decreases d
  {
    if d == 0 then x else Shl(Low(2 * x, width), d - 1, width)
  }

  lemma {:induction false} CombineBit(op: Op, x: nat, y: nat, i: nat)
    ensures Bit(Combine(op, x, y), i) == op.Holds(Bit(x, i), Bit(y, i))
    decreases i
  {
    if x == 0 && y == 0 {
      ZeroBit(i);
    } else if i > 0 {
      CombineBit(op, x / 2, y / 2, i - 1);
    }
  }

  lemma {:induction false} ZeroBit(i: nat)
    ensures !Bit(0, i)
  {
    if i > 0 {
      ZeroBit(i - 1);
    }
  }

  lemma {:induction false} OneBit(i: nat)
    ensures Bit(1, i) == (i == 0)
  {
    if i > 0 {
      ZeroBit(i - 1);
    }
  }

  /** The operators stay inside the word. */
  lemma {:induction false} CombineFits(op: Op, x: nat, y: nat, width: nat)
    requires Fits(x, width) && Fits(y, width)
    ensures Fits(Combine(op, x, y), width)
  {
    if width > 0 {
      CombineFits(op, x / 2, y / 2, width - 1);
    }
  }

  lemma {:induction false} ShlFits(x: nat, d: nat, width: nat)
    requires Fits(x, width)
    ensures Fits(Shl(x, d, width), width)
    decreases d
  {
    if d > 0 {
      ShlFits(Low(2 * x, width), d - 1, width);
    }
  }

  /** Shifting moves bit `i - d` to position `i` and fills the low bits with zeros. */
  lemma {:induction false} ShlBit(x: nat, d: nat, width: nat, i: nat)
    requires i < width
    ensures Bit(Shl(x, d, width), i) == (i >= d && Bit(x, i - d))
    decreases d
  {
    if d > 0 {
      var y := Low(2 * x, width);
      ShlBit(y, d - 1, width, i);
      if i >= d - 1 {
        LowBit(2 * x, width, i - (d - 1));
      }
    }
  }

  lemma {:induction false} LowBit(x: nat, width: nat, i: nat)
    requires i < width
    ensures Bit(Low(x, width), i) == Bit(x, i)
    decreases i
  {
    if x == 0 {
      ZeroBit(i);
    } else if i > 0 {
      LowBit(x / 2, width - 1, i - 1);
    }
  }

  /** Exclusive-or with the same word twice gives the word back. */
  lemma {:induction false} XorTwice(x: nat, y: nat)
    ensures Combine(Xor, Combine(Xor, x, y), y) == x
    decreases x + y
  {
    if x != 0 || y != 0 {
      XorTwice(x / 2, y / 2);
    }
  }

  function Pow2(n: nat): nat {
    if n == 0 then 1 else 2 * Pow2(n - 1)
  }

  /** Fitting a word of `width` bits is being below 2^width. */
  lemma {:induction false} FitsIff(x: nat, width: nat)
    ensures Fits(x, width) <==> x < Pow2(width)
  {
    if width > 0 {
      FitsIff(x / 2, width - 1);
    }
  }

  lemma WordSizes()
    ensures Pow2(8) == 0x100 && Pow2(16) == 0x1_0000 && Pow2(32) == 0x1_0000_0000
    ensures Pow2(128) == 0x1_0000_0000_0000_0000_0000_0000_0000_0000
  {
    assert Pow2(4) == 0x10;
    hide *;
    Pow2Sum(4, 4);
    Pow2Sum(8, 8);
    Pow2Sum(16, 16);
    Pow2Sum(32, 32);
    Pow2Sum(64, 64);
  }

  lemma {:induction false} Pow2Sum(m: nat, n: nat)
    ensures Pow2(m + n) == Pow2(m) * Pow2(n)
  {
    if m > 0 {
      Pow2Sum(m - 1, n);
      assert Pow2(m + n) == 2 * (Pow2(m - 1) * Pow2(n));
    }
  }

  lemma CombineDigit(op: Op, x: nat, y: nat, a: nat, b: nat)
    requires a < 2 && b < 2
    ensures Combine(op, 2 * x + a, 2 * y + b) == 2 * Combine(op, x, y) + Combine(op, a, b)
  {
    assert (2 * x + a) / 2 == x && (2 * x + a) % 2 == a;
    assert (2 * y + b) / 2 == y && (2 * y + b) % 2 == b;
    assert a / 2 == 0 && b / 2 == 0 && Combine(op, 0, 0) == 0;
    assert Combine(op, a, b) == if op.Holds(a == 1, b == 1) then 1 else 0;
  }

  lemma OneMoreDigit(op: Op, x: nat, y: nat, u: nat, v: nat, high: nat)
    requires Combine(op, x + u / 2, y + v / 2) == high + Combine(op, u / 2, v / 2)
    ensures Combine(op, 2 * x + u, 2 * y + v) == 2 * high + Combine(op, u, v)
  {
    hide *;
    CombineDigit(op, x + u / 2, y + v / 2, u % 2, v % 2);
    CombineDigit(op, u / 2, v / 2, u % 2, v % 2);
    assert 2 * (x + u / 2) + u % 2 == 2 * x + u && 2 * (y + v / 2) + v % 2 == 2 * y + v;
    assert 2 * (u / 2) + u % 2 == u && 2 * (v / 2) + v % 2 == v;
  }

  /** `x` with `n` more binary digits, all zero. */
  function Up(x: nat, n: nat): nat {
    if n == 0 then x else 2 * Up(x, n - 1)
  }

  /** The operators work on the high and the low digits of a word separately. */
  lemma {:induction false} CombineParts(op: Op, x: nat, y: nat, u: nat, v: nat, width: nat)
    requires Fits(u, width) && Fits(v, width)
    ensures Combine(op, Up(x, width) + u, Up(y, width) + v) == Up(Combine(op, x, y), width) + Combine(op, u, v)
    decreases width
  {
    if width > 0 {
      CombineParts(op, x, y, u / 2, v / 2, width - 1);
      OneMoreDigit(op, Up(x, width - 1), Up(y, width - 1), u, v, Up(Combine(op, x, y), width - 1));
    }
  }

  lemma CombineBytes(op: Op, x: nat, y: nat, u: nat, v: nat)
    requires u < 0x100 && v < 0x100
    ensures Combine(op, 0x100 * x + u, 0x100 * y + v) == 0x100 * Combine(op, x, y) + Combine(op, u, v)
  {
    WordSizes();
    FitsIff(u, 8);
    FitsIff(v, 8);
    CombineParts(op, x, y, u, v, 8);
    UpByte(x);
    UpByte(y);
    UpByte(Combine(op, x, y));
  }

  lemma UpByte(x: nat)
    ensures Up(x, 8) == 0x100 * x
  {
    assert Up(x, 1) == 2 * x;
    assert Up(x, 3) == 4 * Up(x, 1);
    assert Up(x, 5) == 4 * Up(x, 3);
    assert Up(x, 7) == 4 * Up(x, 5);
  }
}
