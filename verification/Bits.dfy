// Unsigned machine words as natural numbers, with the bitwise operators that
// util.h and the containers use defined bit by bit.

module Bits {

  const TWO32: nat := 0x1_0000_0000
  const TWO64: nat := 0x1_0000_0000_0000_0000
  const UINT32_MAX: nat := TWO32 - 1

  function Pow2(k: nat): (r: nat)
    ensures r >= 1
  {
    if k == 0 then 1 else 2 * Pow2(k - 1)
  }

  ghost predicate IsPow2(n: nat) {
    exists k: nat :: n == Pow2(k)
  }

  // ---- Bitwise operators

  function And(x: nat, y: nat): nat {
    if x == 0 || y == 0 then 0
    else (x % 2) * (y % 2) + 2 * And(x / 2, y / 2)
  }

  function Or(x: nat, y: nat): nat {
    if x == 0 then y
    else if y == 0 then x
    else (if x % 2 == 1 || y % 2 == 1 then 1 else 0) + 2 * Or(x / 2, y / 2)
  }

  // x & ~y
  function AndNot(x: nat, y: nat): nat {
    if x == 0 then 0
    else (if x % 2 == 1 && y % 2 == 0 then 1 else 0) + 2 * AndNot(x / 2, y / 2)
  }

  predicate Bit(x: nat, i: nat) {
    if i == 0 then x % 2 == 1 else Bit(x / 2, i - 1)
  }

  function PopCount(x: nat): nat {
    if x == 0 then 0 else x % 2 + PopCount(x / 2)
  }

  // ---- util.h

  predicate IsPower2(n: nat) {
    PopCount(n) == 1
  }

  function AlignSz(value: nat, boundary: nat): nat
    requires value < TWO64 && 1 <= boundary
  {
    (value + And((TWO64 - value) % TWO64, boundary - 1)) % TWO64
  }

  function Choose(a: nat, b: nat, cond: bool): nat {
    var mask := if cond then TWO64 - 1 else 0;
    Or(And(a, mask), And(b, TWO64 - 1 - mask))
  }

  // The multiple of boundary that is nearest to value from above.
  ghost predicate IsRoundUp(r: nat, value: nat, boundary: nat)
    requires 1 <= boundary
  {
    r % boundary == 0 && value <= r < value + boundary
  }

  function RoundUp(value: nat, boundary: nat): (r: nat)
    requires 1 <= boundary
    ensures IsRoundUp(r, value, boundary)
  {
    DivModUnique(value, boundary, value / boundary, value % boundary);
    if value % boundary == 0 then value
    else
      ModAdd(value, boundary);
      value + (boundary - value % boundary)
  }

  // ---- Division

  lemma MulBound(b: nat, k: int)
    ensures k >= 1 ==> b * k >= b
    ensures k <= -1 ==> b * k + b <= 0
  {
  }

  lemma DivModUnique(a: int, b: nat, q: int, r: int)
    requires b >= 1 && a == q * b + r && 0 <= r < b
    ensures a / b == q && a % b == r
  {
    assert b * (q - a / b) == a % b - r;
    MulBound(b, q - a / b);
  }

  lemma ModAdd(v: nat, b: nat)
    requires b >= 1
    ensures (v + (b - v % b)) % b == 0
  {
    DivModUnique(v + (b - v % b), b, v / b + 1, 0);
  }

  // Within c steps no remainder comes twice, and every remainder comes.
  lemma ModDiffers(x: nat, d: nat, c: nat)
    requires 0 < d < c
    ensures (x + d) % c != x % c
  {
    var q, r := x / c, x % c;
    if r + d < c {
      DivModUnique(x + d, c, q, r + d);
    } else {
      DivModUnique(x + d, c, q + 1, r + d - c);
    }
  }

  lemma ModReaches(x: nat, r: nat, c: nat) returns (d: nat)
    requires r < c
    ensures d < c && (x + d) % c == r
  {
    var q, s := x / c, x % c;
    d := if s <= r then r - s else r + c - s;
    DivModUnique(x + d, c, if s <= r then q else q + 1, r);
  }

  // The multiple of b in any half-open window of b numbers is unique.
  lemma RoundUpUnique(r: nat, s: nat, v: nat, b: nat)
    requires b >= 1 && IsRoundUp(r, v, b) && IsRoundUp(s, v, b)
    ensures r == s
  {
    var m, n := r / b, s / b;
    assert r == b * m && s == b * n;
    assert b * (m - n) == r - s;
    MulBound(b, m - n);
  }

  lemma ModModMultiple(x: nat, b: nat, c: nat)
    requires b >= 1 && c >= 1
    ensures b * c >= 1
    ensures (x % (b * c)) % b == x % b
  {
    var m := b * c;
    var q, r := x / m, x % m;
    assert x == m * q + r;
    assert m * q == (c * q) * b;
    DivModUnique(x, b, c * q + r / b, r % b);
  }

  // ---- Powers of two

  lemma {:induction false} Pow2Add(j: nat, k: nat)
    ensures Pow2(j + k) == Pow2(j) * Pow2(k)
  {
    if j == 0 {
    } else {
      Pow2Add(j - 1, k);
    }
  }

  lemma Pow2Words()
    ensures Pow2(3) == 8 && Pow2(6) == 64 && Pow2(32) == TWO32 && Pow2(64) == TWO64
  {
    assert Pow2(3) == 8;
    Pow2Add(3, 3);
    Pow2Add(6, 2);
    assert Pow2(2) == 4;
    Pow2Add(8, 8);
    Pow2Add(16, 16);
    Pow2Add(32, 32);
  }

  lemma {:induction false} Pow2Monotone(j: nat, k: nat)
    requires j <= k
    ensures Pow2(j) <= Pow2(k)
  {
    if j < k {
      Pow2Monotone(j, k - 1);
    }
  }

  // A power of two that is at most another divides it.
  lemma Pow2Divides(b: nat, c: nat) returns (d: nat)
    requires IsPow2(b) && IsPow2(c) && b <= c
    ensures d >= 1 && c == b * d
  {
    var j: nat :| b == Pow2(j);
    var k: nat :| c == Pow2(k);
    if k < j {
      Pow2Monotone(k, j - 1);
    }
    Pow2Add(j, k - j);
    d := Pow2(k - j);
  }

  lemma WordsArePow2()
    ensures IsPow2(8) && IsPow2(64) && IsPow2(TWO32) && IsPow2(TWO64)
  {
    Pow2Words();
    assert IsPow2(Pow2(3)) && IsPow2(Pow2(6)) && IsPow2(Pow2(32)) && IsPow2(Pow2(64));
  }

  // ms_is_power2 counts one bits; it accepts exactly the powers of two.
  lemma {:induction false} IsPower2Correct(n: nat)
    ensures IsPower2(n) <==> IsPow2(n)
  {
    if n == 0 {
    } else if n == 1 {
      assert n == Pow2(0);
    } else {
      IsPower2Correct(n / 2);
      if n % 2 == 0 {
        if IsPow2(n / 2) {
          var k: nat :| n / 2 == Pow2(k);
          assert n == Pow2(k + 1);
        }
        if IsPow2(n) {
          var k: nat :| n == Pow2(k);
          assert n / 2 == Pow2(k - 1);
        }
      } else {
        if PopCount(n / 2) == 0 {
          PopCountZero(n / 2);
        }
        if IsPow2(n) {
          var k: nat :| n == Pow2(k);
          assert n == 2 * Pow2(k - 1);
        }
      }
    }
  }

  lemma {:induction false} PopCountZero(n: nat)
    requires PopCount(n) == 0
    ensures n == 0
  {
    if n > 0 {
      PopCountZero(n / 2);
    }
  }

  // ---- Masks

  lemma ModDouble(x: nat, h: nat)
    requires h >= 1
    ensures x % (2 * h) == x % 2 + 2 * ((x / 2) % h)
  {
    var q, r := (x / 2) / h, (x / 2) % h;
    assert x / 2 == h * q + r;
    assert 2 * (h * q) == q * (2 * h);
    DivModUnique(x, 2 * h, q, x % 2 + 2 * r);
  }

  // Masking with 2^k - 1 is the remainder modulo 2^k.
  lemma {:induction false} AndMask(x: nat, k: nat)
    ensures And(x, Pow2(k) - 1) == x % Pow2(k)
  {
    if k == 0 {
    } else {
      var h := Pow2(k - 1);
      AndMask(x / 2, k - 1);
      ModDouble(x, h);
      assert (2 * h - 1) / 2 == h - 1 && (2 * h - 1) % 2 == 1;
      if x == 0 {
        DivModUnique(0, 2 * h, 0, 0);
      }
    }
  }

  lemma MaskIsMod(x: nat, b: nat)
    requires IsPow2(b)
    ensures b >= 1 && And(x, b - 1) == x % b
  {
    var k: nat :| b == Pow2(k);
    AndMask(x, k);
  }

  lemma MaskWord(x: nat)
    requires x < TWO64
    ensures And(x, TWO64 - 1) == x
  {
    WordsArePow2();
    MaskIsMod(x, TWO64);
  }

  // What the mask adds: the distance from v to the next multiple of b.
  lemma NegMod(v: nat, b: nat, d: nat)
    requires v < TWO64 && b >= 1 && TWO64 == b * d
    ensures ((TWO64 - v) % TWO64) % b == RoundUp(v, b) - v
  {
    var q, r := v / b, v % b;
    assert v == b * q + r;
    var gap := if r == 0 then 0 else b - r;
    var t := if r == 0 then q else q + 1;
    assert b * (d - t) == b * d - b * t;
    assert TWO64 - v == (d - t) * b + gap;
    if v == 0 {
      DivModUnique(0, b, 0, 0);
    } else {
      DivModUnique(TWO64 - v, b, d - t, gap);
    }
  }

  // ms_align_sz, wrap-around included: the exact ceiling, reduced modulo 2^64.
  lemma AlignSzIsRoundUp(v: nat, b: nat)
    requires v < TWO64 && IsPow2(b) && 1 <= b <= TWO64
    ensures AlignSz(v, b) == RoundUp(v, b) % TWO64
  {
    WordsArePow2();
    var d := Pow2Divides(b, TWO64);
    MaskIsMod((TWO64 - v) % TWO64, b);
    NegMod(v, b, d);
  }

  // It returns the ceiling exactly when that fits in a word, and zero otherwise.
  lemma AlignSzExact(v: nat, b: nat)
    requires v < TWO64 && IsPow2(b) && 1 <= b <= TWO64
    ensures AlignSz(v, b) == RoundUp(v, b) <==> v <= TWO64 - b
    ensures v > TWO64 - b ==> AlignSz(v, b) == 0
  {
    AlignSzIsRoundUp(v, b);
    WordsArePow2();
    var d := Pow2Divides(b, TWO64);
    if v > TWO64 - b {
      RoundUpToWord(v, b, d);
    } else {
      RoundUpInWord(v, b, d);
    }
  }

  lemma RoundUpToWord(v: nat, b: nat, d: nat)
    requires b >= 1 && TWO64 == b * d && TWO64 - b < v < TWO64
    ensures RoundUp(v, b) == TWO64
  {
    DivModUnique(TWO64, b, d, 0);
    RoundUpUnique(RoundUp(v, b), TWO64, v, b);
  }

  lemma RoundUpInWord(v: nat, b: nat, d: nat)
    requires b >= 1 && TWO64 == b * d && v <= TWO64 - b
    ensures RoundUp(v, b) < TWO64
  {
    DivModUnique(TWO64 - b, b, d - 1, 0);
    RoundUpMonotone(v, TWO64 - b, b);
  }

  lemma RoundUpMonotone(v: nat, m: nat, b: nat)
    requires b >= 1 && v <= m && m % b == 0
    ensures RoundUp(v, b) <= m
  {
    var r := RoundUp(v, b);
    assert r == b * (r / b) && m == b * (m / b);
    assert b * (r / b - m / b) == r - m;
    MulBound(b, r / b - m / b);
  }

  lemma {:induction false} AndZero(x: nat)
    ensures And(x, 0) == 0 && Or(0, x) == x && Or(x, 0) == x
  {
  }

  // The branch-free selection picks the right operand, for every 64-bit operand.
  lemma ChooseCorrect(a: nat, b: nat, cond: bool)
    requires a < TWO64 && b < TWO64
    ensures Choose(a, b, cond) == if cond then a else b
  {
    MaskWord(a);
    MaskWord(b);
    AndZero(a);
    AndZero(b);
  }

  // ---- Single bits

  lemma {:induction false} BitOfZero(i: nat)
    ensures !Bit(0, i)
  {
    if i > 0 {
      BitOfZero(i - 1);
    }
  }

  lemma {:induction false} BitOr(x: nat, y: nat, i: nat)
    ensures Bit(Or(x, y), i) <==> Bit(x, i) || Bit(y, i)
  {
    BitOfZero(i);
    if x != 0 && y != 0 && i > 0 {
      BitOr(x / 2, y / 2, i - 1);
    }
  }

  lemma {:induction false} BitAndNot(x: nat, y: nat, i: nat)
    ensures Bit(AndNot(x, y), i) <==> Bit(x, i) && !Bit(y, i)
  {
    BitOfZero(i);
    if x != 0 && i > 0 {
      BitAndNot(x / 2, y / 2, i - 1);
    }
  }

  lemma {:induction false} BitPow2(k: nat, i: nat)
    ensures Bit(Pow2(k), i) <==> i == k
  {
    if k == 0 && i > 0 {
      BitOfZero(i - 1);
    } else if k > 0 && i > 0 {
      BitPow2(k - 1, i - 1);
    }
  }

  // The test (word & mask) == mask of ms_test, for a mask with one bit.
  lemma {:induction false} TestBit(x: nat, k: nat)
    ensures And(x, Pow2(k)) == (if Bit(x, k) then Pow2(k) else 0)
  {
    if x == 0 {
      BitOfZero(k);
    } else if k == 0 {
      assert And(x / 2, 0) == 0;
    } else {
      TestBit(x / 2, k - 1);
      assert Pow2(k) / 2 == Pow2(k - 1) && Pow2(k) % 2 == 0;
    }
  }

  // In the word of n ones every bit is set.
  lemma {:induction false} OnesBit(n: nat, i: nat)
    requires i < n
    ensures Bit(Pow2(n) - 1, i)
  {
    var x := Pow2(n) - 1;
    assert x % 2 == 1 && x / 2 == Pow2(n - 1) - 1;
    if i > 0 {
      OnesBit(n - 1, i - 1);
    }
  }

  // Any smaller word has a clear bit; the loop of find_block_offset looks for it.
  lemma {:induction false} ClearBit(x: nat, n: nat) returns (i: nat)
    requires x < Pow2(n) - 1
    ensures i < n && !Bit(x, i)
  {
    if x % 2 == 0 {
      i := 0;
    } else {
      var j := ClearBit(x / 2, n - 1);
      i := j + 1;
    }
  }

  lemma {:induction false} OrBound(x: nat, y: nat, n: nat)
    requires x < Pow2(n) && y < Pow2(n)
    ensures Or(x, y) < Pow2(n)
  {
    if n > 0 {
      OrBound(x / 2, y / 2, n - 1);
    }
  }

  lemma {:induction false} AndNotBound(x: nat, y: nat)
    ensures AndNot(x, y) <= x
  {
    if x > 0 {
      AndNotBound(x / 2, y / 2);
    }
  }
}
