/**
 The fixed-width unsigned operators the codecs are written with, over
 unbounded naturals: `<<` drops what leaves the word, `|` and `&` work bit by
 bit. The lemmas relate them to arithmetic and to the bit sequence a number
 stands for.
 */
module MachineInt {
  import opened Wrappers

  type byte = x: int | 0 <= x < 256

  const U16 := 0x1_0000
  const U64 := 0x1_0000_0000_0000_0000

  function Pow2(n: nat): (p: nat)
    ensures p >= 1
  {
    if n == 0 then 1 else 2 * Pow2(n - 1)
  }

  function Or(x: nat, y: nat): nat {
    if x == 0 && y == 0 then 0
    else 2 * Or(x / 2, y / 2) + (if x % 2 == 1 || y % 2 == 1 then 1 else 0)
  }

  function And(x: nat, y: nat): nat {
    if x == 0 || y == 0 then 0
    else 2 * And(x / 2, y / 2) + (if x % 2 == 1 && y % 2 == 1 then 1 else 0)
  }

  /** `x << n` in a word that holds values below `word`. */
  function Shl(x: nat, n: nat, word: nat): nat
    requires word > 0
  {
    x * Pow2(n) % word
  }

  /** `x >> n`. */
  function Shr(x: nat, n: nat): nat {
    Division(x, Pow2(n));
    x / Pow2(n)
  }

  lemma MulMonotone(x: int, y: int, d: nat)
    requires x <= y
    ensures x * d <= y * d
  {
  }

  lemma Division(x: nat, d: nat)
    requires d > 0
    ensures x / d >= 0
    ensures x == (x / d) * d + x % d
  {
    var q := x / d;
    assert x == q * d + x % d;
    if q < 0 {
      MulMonotone(q, -1, d);
    }
  }

  lemma {:induction false} Pow2Add(m: nat, n: nat)
    ensures Pow2(m + n) == Pow2(m) * Pow2(n)
  {
    if n > 0 {
      Pow2Add(m, n - 1);
    }
  }

  lemma DivModUnique(x: nat, d: nat, q: nat, r: nat)
    requires r < d && x == q * d + r
    ensures x / d == q && x % d == r
  {
    var e := x / d - q;
    assert e * d + x % d == r by {
      assert x == (x / d) * d + x % d;
      assert (x / d) * d - q * d == e * d;
    }
  }

  lemma MulAssoc(x: nat, y: nat, z: nat)
    ensures (x * y) * z == x * (y * z)
  {
  }

  lemma MulAdds(x: nat, y: nat, z: nat)
    ensures (x + y) * z == x * z + y * z
  {
  }

  /** Halving a number halves its remainder modulo an even divisor. */
  lemma ModTwice(x: nat, p: nat)
    requires p > 0
    ensures x % (2 * p) == 2 * ((x / 2) % p) + x % 2
  {
    var q, r := (x / 2) / p, (x / 2) % p;
    MulAssoc(q, 2, p);
    MulAssoc(2, q, p);
    DivModUnique(x, 2 * p, q, 2 * r + x % 2);
  }

  lemma {:induction false} OrZero(x: nat)
    ensures Or(x, 0) == x
  {
    if x > 0 {
      OrZero(x / 2);
    }
  }

  /** Or-ing a small number into the zero low bits left by a shift adds it. */
  lemma {:induction false} OrIsPlus(x: nat, y: nat, n: nat)
    requires y < Pow2(n)
    ensures Or(x * Pow2(n), y) == x * Pow2(n) + y
  {
    if n == 0 {
      OrZero(x);
    } else {
      var t := x * Pow2(n - 1);
      assert x * Pow2(n) == 2 * t;
      OrIsPlus(x, y / 2, n - 1);
    }
  }

  /** Masking with `n` ones keeps the remainder modulo `2^n`. */
  lemma {:induction false} AndIsMod(x: nat, n: nat)
    ensures And(x, Pow2(n) - 1) == x % Pow2(n)
  {
    hide *;
    if n == 0 {
      AndNone(x);
    } else if x == 0 {
      AndNothing(Pow2(n));
    } else {
      Pow2Step(n);
      AndIsMod(x / 2, n - 1);
      AndStep(x, Pow2(n - 1));
      ModTwice(x, Pow2(n - 1));
    }
  }

  lemma Pow2Step(n: nat)
    requires n > 0
    ensures Pow2(n) == 2 * Pow2(n - 1)
  {
  }

  lemma AndNone(x: nat)
    ensures Pow2(0) == 1 && And(x, 0) == 0
  {
  }

  lemma AndNothing(p: nat)
    requires p > 0
    ensures And(0, p - 1) == 0 && 0 % p == 0
  {
    DivModUnique(0, p, 0, 0);
  }

  lemma AndStep(x: nat, p: nat)
    requires x > 0 && p > 0
    ensures And(x, 2 * p - 1) == 2 * And(x / 2, p - 1) + x % 2
  {
    assert (2 * p - 1) / 2 == p - 1 && (2 * p - 1) % 2 == 1;
  }

  lemma {:induction false} OrCommutes(x: nat, y: nat)
    ensures Or(x, y) == Or(y, x)
  {
    if x != 0 || y != 0 {
      OrCommutes(x / 2, y / 2);
    }
  }

  lemma Pow2Of16()
    ensures Pow2(16) == U16
  {
    assert Pow2(8) == 256;
    Pow2Add(8, 8);
  }

  lemma Pow2Of64()
    ensures Pow2(64) == U64
  {
    Pow2Of16();
    Pow2Add(16, 16);
    Pow2Add(32, 32);
  }

  /** Shifting by a factor `p` in a word of `keep * p` values keeps `x % keep` and leaves room for `y`. */
  lemma ShiftArithmetic(x: nat, keep: nat, p: nat, y: nat)
    requires y < p && keep > 0
    ensures (x * p + y) % (keep * p) == (x % keep) * p + y < keep * p
  {
    var q, r := x / keep, x % keep;
    Division(x, keep);
    MulAssoc(q, keep, p);
    MulAdds(q * keep, r, p);
    MulMonotone(r, keep - 1, p);
    MulAdds(keep - 1, 1, p);
    DivModUnique(x * p + y, keep * p, q, r * p + y);
  }

  /** `x << n` in a `w`-bit word keeps the low bits of `x`. */
  lemma ShlKeeps(x: nat, n: nat, w: nat)
    requires n <= w
    ensures Shl(x, n, Pow2(w)) == (x % Pow2(w - n)) * Pow2(n)
  {
    Pow2Add(w - n, n);
    ShiftArithmetic(x, Pow2(w - n), Pow2(n), 0);
  }

  /** `(x << n) | y` in a `w`-bit word, when `y` fits below the shift. */
  lemma ShiftOr(x: nat, n: nat, w: nat, y: nat)
    requires n <= w && y < Pow2(n)
    ensures Or(Shl(x, n, Pow2(w)), y) == (x % Pow2(w - n)) * Pow2(n) + y < Pow2(w)
    ensures Or(Shl(x, n, Pow2(w)), y) == (x * Pow2(n) + y) % Pow2(w)
  {
    hide *;
    Pow2Add(w - n, n);
    ShlKeeps(x, n, w);
    ShiftArithmetic(x, Pow2(w - n), Pow2(n), y);
    OrIsPlus(x % Pow2(w - n), y, n);
  }

  /** The low `n` bits of `x`, most significant first. */
  function Bits(x: nat, n: nat): (b: seq<bool>)
    ensures |b| == n
  {
    if n == 0 then [] else Bits(x / 2, n - 1) + [x % 2 == 1]
  }

  function FromBits(b: seq<bool>): nat {
    if b == [] then 0
    else 2 * FromBits(b[..|b| - 1]) + (if b[|b| - 1] then 1 else 0)
  }

  function Zeros(n: nat): (b: seq<bool>)
    ensures |b| == n
  {
    seq(n, _ => false)
  }

  lemma {:induction false} BitsFromBits(b: seq<bool>)
    ensures FromBits(b) < Pow2(|b|)
    ensures Bits(FromBits(b), |b|) == b
  {
    if b != [] {
      BitsFromBits(b[..|b| - 1]);
    }
  }

  lemma {:induction false} FromBitsBits(x: nat, n: nat)
    requires x < Pow2(n)
    ensures FromBits(Bits(x, n)) == x
  {
    if n > 0 {
      FromBitsBits(x / 2, n - 1);
      assert Bits(x, n)[..n - 1] == Bits(x / 2, n - 1);
    }
  }

  lemma {:induction false} BitsConcat(x: nat, y: nat, n: nat, m: nat)
    requires y < Pow2(m)
    ensures Bits(x * Pow2(m) + y, n + m) == Bits(x, n) + Bits(y, m)
  {
    if m > 0 {
      var p := Pow2(m - 1);
      assert Pow2(m) == 2 * p;
      hide Pow2;
      BitsConcat(x, y / 2, n, m - 1);
      MulAssoc(x, 2, p);
      MulAssoc(2, x, p);
      BitsHalve(x * p, y, n + m);
      Reassociate(Bits(x, n), Bits(y / 2, m - 1), [y % 2 == 1]);
    }
  }

  lemma BitsHalve(t: nat, y: nat, k: nat)
    requires k > 0
    ensures Bits(2 * t + y, k) == Bits(t + y / 2, k - 1) + [y % 2 == 1]
  {
    assert (2 * t + y) / 2 == t + y / 2 && (2 * t + y) % 2 == y % 2;
  }

  /** Reducing modulo a larger power of two keeps the low bits. */
  lemma {:induction false} BitsMod(x: nat, n: nat, k: nat)
    requires n <= k
    ensures Bits(x % Pow2(k), n) == Bits(x, n)
  {
    if n > 0 {
      ModTwice(x, Pow2(k - 1));
      BitsMod(x / 2, n - 1, k - 1);
    }
  }

  /** Splitting a number at bit `m` splits its bits. */
  lemma BitsSplit(x: nat, n: nat, m: nat)
    ensures Bits(x, n + m) == Bits(Shr(x, m), n) + Bits(x, m)
  {
    hide Pow2, Bits;
    Division(x, Pow2(m));
    BitsConcat(x / Pow2(m), x % Pow2(m), n, m);
    BitsMod(x, m, m);
  }

  lemma {:induction false} BitsZero(x: nat, n: nat)
    requires x < Pow2(n)
    ensures Bits(x, n) == Zeros(n) <==> x == 0
  {
    if x == 0 {
      if n > 0 {
        BitsZero(0, n - 1);
      }
      assert Bits(0, n) == Zeros(n);
    } else {
      FromBitsBits(x, n);
      if Bits(x, n) == Zeros(n) {
        BitsZero(0, n);
        FromBitsBits(0, n);
      }
    }
  }
}
