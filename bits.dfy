/** Bit-level arithmetic behind bitfields and bitmasks: packing members of
    declared widths into one unsigned container (first member in the least
    significant bits), unpacking them again, and the bitwise AND used by
    reserved-bit masks. */
module Bits {
  import opened Wire

  /** Total width of a list of members. */
  function SumBits(widths: seq<nat>): nat
  {
    if widths == [] then 0 else widths[0] + SumBits(widths[1..])
  }

  /** Every member value fits in its declared width. */
  predicate FitsWidths(widths: seq<nat>, vals: seq<nat>)
  {
    |vals| == |widths| && forall i | 0 <= i < |vals| :: vals[i] < Pow2(widths[i])
  }

  /** The container value holding the members, first member lowest. */
  function Pack(widths: seq<nat>, vals: seq<nat>): nat
    requires |vals| == |widths|
  {
    if widths == [] then 0 else vals[0] + Pow2(widths[0]) * Pack(widths[1..], vals[1..])
  }

  /** The members held in a container value, first member lowest. */
  function Split(widths: seq<nat>, raw: int): (vals: seq<nat>)
    ensures FitsWidths(widths, vals)
  {
    if widths == [] then []
    else
      var p := Pow2(widths[0]);
      DivModBounds(raw, p);
      var rest := Split(widths[1..], raw / p);
      assert forall i | 1 <= i <= |rest| :: ([raw % p] + rest)[i] == rest[i - 1];
      [raw % p] + rest
  }

  lemma DivModBounds(x: int, p: int)
    requires p > 0
    ensures 0 <= x % p < p && (x >= 0 ==> 0 <= x / p)
  {
  }

  /** Integer division by p of a value below p * b stays below b. */
  lemma DivBelow(x: nat, p: nat, b: nat)
    requires p > 0 && x < p * b
    ensures 0 <= x / p < b
  {
    var q := x / p;
    assert p * q <= x;
    if q >= b {
      MulMono(p, b, q);
      assert false;
    }
  }

  lemma MulMono(a: nat, b: nat, c: nat)
    requires b <= c
    ensures a * b <= a * c
  {
  }

  /** Euclidean division is determined by quotient and remainder. */
  lemma DivModUnique(x: int, d: int, q: int, r: int)
    requires d > 0 && 0 <= r < d && x == d * q + r
    ensures x / d == q && x % d == r
  {
    var q', r' := x / d, x % d;
    assert d * q' + r' == x;
    assert d * (q' - q) == r - r';
    if q' > q {
      MulMono(d, 1, q' - q);
      assert false;
    } else if q' < q {
      MulMono(d, 1, q - q');
      assert false;
    }
  }

  lemma {:induction false} PackBound(widths: seq<nat>, vals: seq<nat>)
    requires FitsWidths(widths, vals)
    ensures Pack(widths, vals) < Pow2(SumBits(widths))
  {
    if widths != [] {
      var p, rest := Pow2(widths[0]), Pack(widths[1..], vals[1..]);
      var r := Pow2(SumBits(widths[1..]));
      PackBound(widths[1..], vals[1..]);
      Pow2Add(widths[0], SumBits(widths[1..]));
      PackStepBound(vals[0], p, rest, r);
    }
  }

  /** One member below p and the rest below r fit below p * r. */
  lemma PackStepBound(v: int, p: int, rest: int, r: int)
    requires 0 <= v < p && 0 <= rest < r
    ensures v + p * rest < p * r
  {
    MulMono(p, rest, r - 1);
  }

  /** Unpacking a packed container gives back every member. */
  lemma {:induction false} SplitPack(widths: seq<nat>, vals: seq<nat>)
    requires FitsWidths(widths, vals)
    ensures Split(widths, Pack(widths, vals)) == vals
  {
    if widths != [] {
      var p, rest := Pow2(widths[0]), Pack(widths[1..], vals[1..]);
      DivModUnique(Pack(widths, vals), p, rest, vals[0]);
      SplitPack(widths[1..], vals[1..]);
      assert vals == [vals[0]] + vals[1..];
    }
  }

  /** Packing the members of a container gives back the container. */
  lemma {:induction false} PackSplit(widths: seq<nat>, raw: int)
    requires 0 <= raw < Pow2(SumBits(widths))
    ensures Pack(widths, Split(widths, raw)) == raw
  {
    if widths != [] {
      var p, restBits := Pow2(widths[0]), SumBits(widths[1..]);
      Pow2Add(widths[0], restBits);
      DivBelow(raw, p, Pow2(restBits));
      PackSplit(widths[1..], raw / p);
      PackSplitStep(widths, raw);
    }
  }

  lemma PackSplitStep(widths: seq<nat>, raw: int)
    requires widths != [] && raw >= 0
    requires Pack(widths[1..], Split(widths[1..], raw / Pow2(widths[0]))) == raw / Pow2(widths[0])
    ensures Pack(widths, Split(widths, raw)) == raw
  {
    var p := Pow2(widths[0]);
    var q, low := raw / p, raw % p;
    var parts := Split(widths, raw);
    assert parts[0] == low && parts[1..] == Split(widths[1..], q);
    assert Pack(widths, parts) == low + p * q;
    DivModSum(raw, p);
  }

  lemma DivModSum(x: nat, p: nat)
    requires p > 0
    ensures x % p + p * (x / p) == x
  {
  }

  /** Bitwise AND of two non-negative integers. */
  function Masked(v: int, m: int): nat
  {
    if v <= 0 || m <= 0 then 0
    else 2 * Masked(v / 2, m / 2) + (if v % 2 == 1 && m % 2 == 1 then 1 else 0)
  }

  /** Halving commutes with division and remainder by an even divisor. */
  lemma HalfDivMod(x: nat, q: nat)
    requires q > 0
    ensures x / (2 * q) == (x / 2) / q
    ensures x % (2 * q) == 2 * ((x / 2) % q) + x % 2
  {
    var a, b := x / 2, x % 2;
    var c, d := a / q, a % q;
    assert x == (2 * q) * c + (2 * d + b);
    DivModUnique(x, 2 * q, c, 2 * d + b);
  }

  /** One step of Masked when the mask is odd. */
  lemma MaskedOdd(x: int, m: int)
    requires x > 0 && m > 0 && m % 2 == 1
    ensures Masked(x, m) == 2 * Masked(x / 2, m / 2) + x % 2
  {
  }

  /** One step of Masked when the mask is even. */
  lemma MaskedEven(x: int, m: int)
    requires m >= 0 && m % 2 == 0
    ensures Masked(x, m) == 2 * Masked(x / 2, m / 2)
  {
  }

  /** A mask of the k low bits keeps exactly the value modulo 2^k. */
  lemma {:induction false} MaskLow(x: nat, k: nat)
    ensures Masked(x, Pow2(k) - 1) == x % Pow2(k)
  {
    if k > 0 && x > 0 {
      var q := Pow2(k - 1);
      var m := Pow2(k) - 1;
      assert m == 2 * (q - 1) + 1;
      assert m / 2 == q - 1 && m % 2 == 1;
      MaskedOdd(x, m);
      MaskLow(x / 2, k - 1);
      HalfDivMod(x, q);
      assert Pow2(k) == 2 * q;
      assert Masked(x, m) == 2 * ((x / 2) % q) + x % 2;
      assert x % (2 * q) == Masked(x, m);
    } else if k == 0 {
      assert Pow2(k) == 1;
    } else {
      DivModUnique(0, Pow2(k), 0, 0);
    }
  }

  /** A mask shifted left by k bits selects from the value shifted right. */
  lemma {:induction false} MaskShift(x: nat, m: nat, k: nat)
    ensures Masked(x, m * Pow2(k)) == Pow2(k) * Masked(x / Pow2(k), m)
  {
    if k == 0 {
      assert Pow2(k) == 1;
      assert m * Pow2(k) == m && x / Pow2(k) == x;
    } else {
      var q := Pow2(k - 1);
      MaskShift(x / 2, m, k - 1);
      MaskShiftStep(x, m, q);
      assert Pow2(k) == 2 * q;
    }
  }

  lemma MaskShiftStep(x: int, m: int, q: int)
    requires x >= 0 && m >= 0 && q >= 1
    requires Masked(x / 2, m * q) == q * Masked((x / 2) / q, m)
    ensures Masked(x, m * (2 * q)) == (2 * q) * Masked(x / (2 * q), m)
  {
    var mk := m * q;
    var inner := Masked((x / 2) / q, m);
    DoubleProduct(m, q);
    MaskHalf(x, mk);
    HalfDivMod(x, q);
    DoubleProduct(q, inner);
    calc {
      Masked(x, m * (2 * q));
      Masked(x, 2 * mk);
      2 * Masked(x / 2, mk);
      2 * (q * inner);
      (2 * q) * inner;
      (2 * q) * Masked(x / (2 * q), m);
    }
  }

  /** An even mask selects from the value halved. */
  lemma MaskHalf(x: int, mk: int)
    requires mk >= 0
    ensures Masked(x, 2 * mk) == 2 * Masked(x / 2, mk)
  {
    MaskedEven(x, 2 * mk);
    assert (2 * mk) / 2 == mk;
  }

  lemma DoubleProduct(q: int, n: int)
    ensures 2 * (q * n) == (2 * q) * n == q * (2 * n)
  {
  }

  /** A value of `bits` bits has none of the bits a mask reserves above
      that width. */
  lemma ReservedAboveWidth(v: nat, bits: nat, m: nat)
    requires v < Pow2(bits)
    ensures Masked(v, m * Pow2(bits)) == 0
  {
    MaskShift(v, m, bits);
    DivModUnique(v, Pow2(bits), 0, v);
  }
}
