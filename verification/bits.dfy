/** Unsigned numbers as bit strings: the arithmetic behind `std::bitset`,
    `n & 1`, `n >>= 1` and the windows that `less_4b` and `eq` compare. */
module Bits {

  function Pow2(k: nat): (r: nat)
    ensures r >= 1
  {
    if k == 0 then 1 else 2 * Pow2(k - 1)
  }

  /** `std::bitset<..>(n).test(i)`: bit `i` of `n`. */
  predicate Bit(n: nat, i: nat)
    decreases i
  {
    if i == 0 then n % 2 == 1 else Bit(n / 2, i - 1)
  }

  /** The low `w` bits of `n`. */
  function Low(n: nat, w: nat): nat
    decreases w
  {
    if w == 0 then 0 else 2 * Low(n / 2, w - 1) + n % 2
  }

  /** `n >> k` */
  function ShiftRight(n: nat, k: nat): nat
    decreases k
  {
    if k == 0 then n else ShiftRight(n / 2, k - 1)
  }

  /** Bits `lsb .. lsb + w - 1` of `n`, read as an unsigned number. */
  function Window(n: nat, lsb: nat, w: nat): nat {
    Low(ShiftRight(n, lsb), w)
  }

  /** `std::bitset::set(i, b)`: bit `i` becomes `b`, every other bit stays. */
  function SetBit(n: nat, i: nat, b: bool): (r: nat)
    ensures Bit(r, i) == b
    ensures forall j: nat :: j != i ==> Bit(r, j) == Bit(n, j)
    decreases i
  {
    if i == 0 then
      var r := 2 * (n / 2) + (if b then 1 else 0);
      assert r / 2 == n / 2;
      assert forall j: nat :: j != 0 ==> Bit(r, j) == Bit(r / 2, j - 1);
      r
    else
      var h := SetBit(n / 2, i - 1, b);
      var r := 2 * h + n % 2;
      assert r / 2 == h && r % 2 == n % 2;
      assert forall j: nat :: j != 0 ==> Bit(r, j) == Bit(h, j - 1);
      assert forall j: nat :: j != 0 ==> Bit(n, j) == Bit(n / 2, j - 1);
      r
  }

  lemma {:induction false} BitOfZero(i: nat)
    ensures !Bit(0, i)
    decreases i
  {
    if i > 0 {
      BitOfZero(i - 1);
    }
  }

  lemma {:induction false} BitShiftRight(n: nat, k: nat, i: nat)
    ensures Bit(ShiftRight(n, k), i) == Bit(n, k + i)
    decreases k
  {
    if k > 0 {
      BitShiftRight(n / 2, k - 1, i);
      assert Bit(n, k + i) == Bit(n / 2, k + i - 1);
    }
  }

  lemma {:induction false} BitLow(n: nat, w: nat, i: nat)
    ensures Bit(Low(n, w), i) == (i < w && Bit(n, i))
    decreases w
  {
    if w == 0 {
      BitOfZero(i);
    } else {
      var r := 2 * Low(n / 2, w - 1) + n % 2;
      assert r / 2 == Low(n / 2, w - 1) && r % 2 == n % 2;
      if i > 0 {
        BitLow(n / 2, w - 1, i - 1);
      }
    }
  }

  /** A number is determined by its bits. */
  lemma {:induction false} BitsDetermine(a: nat, b: nat)
    requires forall i: nat :: Bit(a, i) == Bit(b, i)
    ensures a == b
    decreases a + b
  {
    assert Bit(a, 0) == Bit(b, 0);
    if a != 0 || b != 0 {
      forall i: nat
        ensures Bit(a / 2, i) == Bit(b / 2, i)
      {
        assert Bit(a, i + 1) == Bit(b, i + 1);
      }
      BitsDetermine(a / 2, b / 2);
    }
  }

  lemma {:induction false} LowBound(n: nat, w: nat)
    ensures Low(n, w) < Pow2(w)
    decreases w
  {
    if w > 0 {
      LowBound(n / 2, w - 1);
    }
  }

  /** Splitting off the most significant of the `w` low bits. */
  lemma {:induction false} LowTop(n: nat, w: nat)
    requires w > 0
    ensures Low(n, w) == (if Bit(n, w - 1) then Pow2(w - 1) else 0) + Low(n, w - 1)
    decreases w
  {
    if w > 1 {
      LowTop(n / 2, w - 1);
      assert Bit(n, w - 1) == Bit(n / 2, w - 2);
    }
  }

  lemma {:induction false} MulAtLeast(x: nat, d: nat)
    requires x >= 1
    ensures x * d >= d
    decreases x
  {
    if x > 1 {
      MulAtLeast(x - 1, d);
      assert x * d == (x - 1) * d + d;
    }
  }

  /** Euclidean division has exactly one quotient and remainder. */
  lemma ModUnique(n: nat, d: nat, q: nat, r: nat)
    requires d > 0 && n == q * d + r && r < d
    ensures n % d == r && n / d == q
  {
    var q', r' := n / d, n % d;
    assert n == q' * d + r';
    if q' > q {
      MulAtLeast(q' - q, d);
      assert false;
    } else if q' < q {
      MulAtLeast(q - q', d);
      assert false;
    }
  }

  lemma HalveDivMod(n: nat, p: nat)
    requires p > 0
    ensures n == ((n / 2) / p) * (2 * p) + (2 * ((n / 2) % p) + n % 2)
    ensures 2 * ((n / 2) % p) + n % 2 < 2 * p
  {
    var q, r := (n / 2) / p, (n / 2) % p;
    assert n / 2 == q * p + r;
    assert q * (2 * p) == 2 * (q * p);
  }

  lemma StepMod(n: nat, p: nat, low: nat)
    requires p > 0 && low == (n / 2) % p
    ensures 2 * low + n % 2 == n % (2 * p)
  {
    HalveDivMod(n, p);
    ModUnique(n, 2 * p, (n / 2) / p, 2 * low + n % 2);
  }

  /** The low `w` bits of `n` are `n mod 2^w`. */
  lemma {:induction false} LowIsMod(n: nat, w: nat)
    ensures Low(n, w) == n % Pow2(w)
    decreases w
  {
    if w > 0 {
      var p := Pow2(w - 1);
      LowIsMod(n / 2, w - 1);
      LowBound(n / 2, w - 1);
      assert Pow2(w) == 2 * p;
      StepMod(n, p, Low(n / 2, w - 1));
    }
  }

  /** A bit string, most significant bit first, read as an unsigned number. */
  function ToNat(w: seq<bool>): nat
    decreases |w|
  {
    if |w| == 0 then 0 else (if w[0] then Pow2(|w| - 1) else 0) + ToNat(w[1..])
  }

  lemma {:induction false} ToNatBound(w: seq<bool>)
    ensures ToNat(w) < Pow2(|w|)
    decreases |w|
  {
    if |w| > 0 {
      ToNatBound(w[1..]);
    }
  }

  /** The `w` low bits of `n`, most significant first. */
  function BitsMsbFirst(n: nat, w: nat): (r: seq<bool>)
    ensures |r| == w
    ensures forall k :: 0 <= k < w ==> r[k] == Bit(n, w - 1 - k)
  {
    seq(w, k requires 0 <= k < w => Bit(n, w - 1 - k))
  }

  lemma {:induction false} ToNatBitsMsbFirst(n: nat, w: nat)
    ensures ToNat(BitsMsbFirst(n, w)) == Low(n, w)
    decreases w
  {
    if w > 0 {
      var s := BitsMsbFirst(n, w);
      assert s[1..] == BitsMsbFirst(n, w - 1);
      ToNatBitsMsbFirst(n, w - 1);
      LowTop(n, w);
    }
  }

  /** Lexicographic "less" on equal-length bit strings, most significant
      first: the first differing position has 0 on the left, 1 on the right. */
  predicate LexLess(a: seq<bool>, b: seq<bool>)
    requires |a| == |b|
  {
    exists k :: 0 <= k < |a| && !a[k] && b[k] && forall j :: 0 <= j < k ==> a[j] == b[j]
  }

  lemma {:induction false} LexLessIsLess(a: seq<bool>, b: seq<bool>)
    requires |a| == |b|
    ensures LexLess(a, b) <==> ToNat(a) < ToNat(b)
    decreases |a|
  {
    if |a| > 0 {
      ToNatBound(a[1..]);
      ToNatBound(b[1..]);
      if a[0] == b[0] {
        LexLessIsLess(a[1..], b[1..]);
        LexLessTail(a, b);
      } else if !a[0] {
        assert LexLess(a, b) by {
          assert !a[0] && b[0];
        }
      }
    }
  }

  /** Behind an equal first bit, the comparison is decided by the rest. */
  lemma LexLessTail(a: seq<bool>, b: seq<bool>)
    requires |a| == |b| > 0 && a[0] == b[0]
    ensures LexLess(a, b) <==> LexLess(a[1..], b[1..])
  {
    if LexLess(a, b) {
      var k :| 0 <= k < |a| && !a[k] && b[k] && forall j :: 0 <= j < k ==> a[j] == b[j];
      assert k > 0;
      assert !a[1..][k - 1] && b[1..][k - 1];
      assert forall j :: 0 <= j < k - 1 ==> a[1..][j] == b[1..][j];
    }
    if LexLess(a[1..], b[1..]) {
      var k :| 0 <= k < |a| - 1 && !a[1..][k] && b[1..][k] && forall j :: 0 <= j < k ==> a[1..][j] == b[1..][j];
      assert !a[k + 1] && b[k + 1];
      forall j | 0 <= j < k + 1 ensures a[j] == b[j] {
        if j > 0 {
          assert a[j] == a[1..][j - 1] && b[j] == b[1..][j - 1];
        }
      }
    }
  }

  /** Equal-length bit strings with equal values are equal. */
  lemma {:induction false} ToNatInjective(a: seq<bool>, b: seq<bool>)
    requires |a| == |b| && ToNat(a) == ToNat(b)
    ensures a == b
    decreases |a|
  {
    if |a| > 0 {
      ToNatBound(a[1..]);
      ToNatBound(b[1..]);
      assert a[0] == b[0];
      ToNatInjective(a[1..], b[1..]);
      assert a == [a[0]] + a[1..] && b == [b[0]] + b[1..];
    }
  }
}
