/** C's operators on unsigned words.  A word is the number it denotes, and its bits are read off by halving. */
module Bits {

  type byte = b: int | 0 <= b < 256

  function Pow2(n: nat): (p: nat)
    ensures p >= 1
  {
    if n == 0 then 1 else 2 * Pow2(n - 1)
  }

  function Pow256(n: nat): (p: nat)
    ensures p >= 1
  {
    if n == 0 then 1 else 256 * Pow256(n - 1)
  }

  predicate Bit(w: nat, k: nat) {
    if k == 0 then w % 2 == 1 else Bit(w / 2, k - 1)
  }

  /** w | v */
  function Or(w: nat, v: nat): nat {
    if w == 0 then v else if v == 0 then w
    else (if w % 2 == 1 || v % 2 == 1 then 1 else 0) + 2 * Or(w / 2, v / 2)
  }

  /** w & v */
  function And(w: nat, v: nat): nat {
    if w == 0 || v == 0 then 0
    else (if w % 2 == 1 && v % 2 == 1 then 1 else 0) + 2 * And(w / 2, v / 2)
  }

  /** ~w on `width` bits */
  function Not(w: nat, width: nat): nat
    requires w < Pow2(width)
  {
    Pow2(width) - 1 - w
  }

  /** w << s on `width` bits */
  function Shl(w: nat, s: nat, width: nat): nat { w * Pow2(s) % Pow2(width) }

  /** w >> s */
  function Shr(w: nat, s: nat): nat {
    if s == 0 then w else Shr(w / 2, s - 1)
  }

  lemma {:induction false} NoBits(k: nat)
    ensures !Bit(0, k)
  {
    if k > 0 { NoBits(k - 1); }
  }

  lemma {:induction false} OrBit(w: nat, v: nat, k: nat)
    ensures Bit(Or(w, v), k) <==> Bit(w, k) || Bit(v, k)
    decreases k
  {
    NoBits(k);
    if w != 0 && v != 0 {
      HalfOf(if w % 2 == 1 || v % 2 == 1 then 1 else 0, Or(w / 2, v / 2));
      if k > 0 { OrBit(w / 2, v / 2, k - 1); }
    }
  }

  lemma {:induction false} AndBit(w: nat, v: nat, k: nat)
    ensures Bit(And(w, v), k) <==> Bit(w, k) && Bit(v, k)
    decreases k
  {
    NoBits(k);
    if w != 0 && v != 0 {
      HalfOf(if w % 2 == 1 && v % 2 == 1 then 1 else 0, And(w / 2, v / 2));
      if k > 0 { AndBit(w / 2, v / 2, k - 1); }
    }
  }

  lemma HalfOf(b: nat, h: nat)
    requires b < 2
    ensures (b + 2 * h) / 2 == h && (b + 2 * h) % 2 == b
  {
  }

  lemma {:induction false} OneBit(j: nat, k: nat)
    ensures Bit(Pow2(j), k) <==> j == k
    decreases k
  {
    if j > 0 {
      HalfOf(0, Pow2(j - 1));
      if k > 0 { OneBit(j - 1, k - 1); }
    } else if k > 0 {
      NoBits(k - 1);
    }
  }

  /** Pow2(n) - 1 has exactly the low n bits. */
  lemma {:induction false} LowBits(n: nat, k: nat)
    ensures Bit(Pow2(n) - 1, k) <==> k < n
    decreases k
  {
    if n > 0 {
      assert Pow2(n) - 1 == 1 + 2 * (Pow2(n - 1) - 1);
      HalfOf(1, Pow2(n - 1) - 1);
      if k > 0 { LowBits(n - 1, k - 1); }
    } else {
      NoBits(k);
    }
  }

  lemma {:induction false} NotBit(w: nat, width: nat, k: nat)
    requires w < Pow2(width) && k < width
    ensures Bit(Not(w, width), k) <==> !Bit(w, k)
    decreases k
  {
    var u := Not(w, width);
    assert u == (1 - w % 2) + 2 * (Pow2(width - 1) - 1 - w / 2);
    HalfOf(1 - w % 2, Pow2(width - 1) - 1 - w / 2);
    if k > 0 { NotBit(w / 2, width - 1, k - 1); }
  }

  lemma HalfMod(w: nat, n: nat)
    requires n > 0
    ensures w % Pow2(n) / 2 == w / 2 % Pow2(n - 1)
    ensures w % Pow2(n) % 2 == w % 2
  {
    var p := Pow2(n - 1);
    var q, r := w / 2 / p, w / 2 % p;
    assert w / 2 == p * q + r;
    assert w == 2 * p * q + (2 * r + w % 2);
    Remainder(w, 2 * p, q, 2 * r + w % 2);
    HalfOf(w % 2, r);
  }

  lemma Remainder(v: nat, m: nat, k: nat, r: nat)
    requires r < m && v == m * k + r
    ensures v % m == r
  {
    var e := k - v / m;
    assert m * k == m * (v / m) + m * e;
    Multiple(m, e);
  }

  lemma Quotient(v: nat, m: nat, k: nat, r: nat)
    requires r < m && v == m * k + r
    ensures v / m == k
  {
    Remainder(v, m, k, r);
    var e := k - v / m;
    assert m * k == m * (v / m) + m * e;
    Multiple(m, e);
  }

  lemma DivDiv(v: nat, a: nat, b: nat)
    requires a > 0 && b > 0
    ensures a * b > 0 && v / a / b == v / (a * b)
  {
    var q, r := v / a / b, v / a % b;
    Parts(v, a, b, q, r);
    Quotient(v, a * b, q, a * r + v % a);
  }

  lemma Parts(v: nat, a: nat, b: nat, q: nat, r: nat)
    requires a > 0 && b > 0 && v / a == b * q + r && r < b
    ensures a * b > 0 && v == a * b * q + (a * r + v % a) && a * r + v % a < a * b
  {
    assert v == a * (v / a) + v % a;
    assert a * (b * q + r) == a * b * q + a * r;
    assert a * (r + 1) == a * r + a;
    Scale(a, r + 1, b);
  }

  lemma Scale(a: nat, x: nat, y: nat)
    requires x <= y
    ensures a * x <= a * y
  {
  }

  lemma Multiple(m: int, e: int)
    requires m >= 0
    ensures e >= 1 ==> m * e >= m
    ensures e <= -1 ==> m * e <= -m
  {
  }

  lemma {:induction false} ModBit(w: nat, n: nat, k: nat)
    requires k < n
    ensures Bit(w % Pow2(n), k) <==> Bit(w, k)
    decreases k
  {
    HalfMod(w, n);
    if k > 0 { ModBit(w / 2, n - 1, k - 1); }
  }

  lemma {:induction false} TimesBit(w: nat, s: nat, k: nat)
    ensures Bit(w * Pow2(s), k) <==> k >= s && Bit(w, k - s)
    decreases k
  {
    if s > 0 {
      assert w * Pow2(s) == 2 * (w * Pow2(s - 1));
      HalfOf(0, w * Pow2(s - 1));
      if k > 0 { TimesBit(w, s - 1, k - 1); }
    }
  }

  lemma ShlBit(w: nat, s: nat, width: nat, k: nat)
    requires k < width
    ensures Bit(Shl(w, s, width), k) <==> k >= s && Bit(w, k - s)
  {
    ModBit(w * Pow2(s), width, k);
    TimesBit(w, s, k);
  }

  /** Two words with the same bits are the same. */
  lemma {:induction false} Extensional(w: nat, v: nat, width: nat)
    requires w < Pow2(width) && v < Pow2(width)
    requires forall k :: 0 <= k < width ==> (Bit(w, k) <==> Bit(v, k))
    ensures w == v
  {
    if width > 0 {
      assert Bit(w, 0) <==> Bit(v, 0);
      forall k | 0 <= k < width - 1
        ensures Bit(w / 2, k) <==> Bit(v / 2, k)
      {
        assert Bit(w, k + 1) <==> Bit(v, k + 1);
      }
      Extensional(w / 2, v / 2, width - 1);
    }
  }

  ghost predicate AllSet(w: nat, n: nat) { forall k :: 0 <= k < n ==> Bit(w, k) }

  ghost predicate NoneFrom(w: nat, n: nat, width: nat) { forall k :: n <= k < width ==> !Bit(w, k) }

  /** A word with no bits from n on has all the others exactly when it is the mask of n low bits. */
  lemma MaskComplete(w: nat, n: nat, width: nat)
    requires w < Pow2(width) && n <= width && NoneFrom(w, n, width)
    ensures w == Pow2(n) - 1 <==> AllSet(w, n)
  {
    var v := Pow2(n) - 1;
    PowMonotone(n, width);
    forall k | 0 <= k < width
      ensures Bit(v, k) <==> k < n
    {
      LowBits(n, k);
    }
    assert AllSet(v, n);
    if AllSet(w, n) {
      Extensional(w, v, width);
    }
  }

  lemma {:induction false} OrBound(w: nat, v: nat, width: nat)
    requires w < Pow2(width) && v < Pow2(width)
    ensures Or(w, v) < Pow2(width)
  {
    if w != 0 && v != 0 {
      OrBound(w / 2, v / 2, width - 1);
    }
  }

  /** w & (1 << k) is nonzero exactly when bit k is set. */
  lemma {:induction false} TestBit(w: nat, k: nat)
    ensures And(w, Pow2(k)) != 0 <==> Bit(w, k)
    decreases k
  {
    if w == 0 {
      NoBits(k);
    } else if k == 0 {
      assert Pow2(0) / 2 == 0;
    } else {
      HalfOf(0, Pow2(k - 1));
      TestBit(w / 2, k - 1);
    }
  }

  lemma {:induction false} PowMonotone(a: nat, b: nat)
    requires a <= b
    ensures Pow2(a) <= Pow2(b)
    ensures a < b ==> Pow2(a) < Pow2(b)
    decreases b
  {
    if a < b { PowMonotone(a, b - 1); }
  }

  lemma {:induction false} PowSum(a: nat, b: nat)
    ensures Pow2(a + b) == Pow2(a) * Pow2(b)
  {
    if a > 0 {
      PowSum(a - 1, b);
      assert Pow2(a + b) == 2 * (Pow2(a - 1) * Pow2(b));
    }
  }

  /** Or-ing numbers without common bits adds them. */
  lemma {:induction false} OrPlus(w: nat, v: nat, k: nat)
    requires w < Pow2(k)
    ensures Or(w, v * Pow2(k)) == w + v * Pow2(k)
    decreases k
  {
    if k > 0 && w != 0 && v != 0 {
      var h := v * Pow2(k - 1);
      assert v * Pow2(k) == 2 * h;
      HalfOf(0, h);
      OrPlus(w / 2, v, k - 1);
      Multiple(Pow2(k), v);
    }
  }

  lemma {:induction false} OrCommutes(w: nat, v: nat)
    ensures Or(w, v) == Or(v, w)
    decreases w
  {
    if w != 0 && v != 0 { OrCommutes(w / 2, v / 2); }
  }
}
