/** Strings of `'0'` and `'1'` read as unsigned binary numbers, most
    significant bit first: the form in which the calculator keeps an
    address, a mask, a network and a broadcast address. */
module Bits {
  import opened PyText

  predicate IsBits(s: string)
  {
    IsDigits(s, 2)
  }

  function Pow2(k: nat): nat
  {
    Pow(2, k)
  }

  /** `n` written with exactly `w` binary digits (the low `w` bits of `n`). */
  function FixedWidth(n: nat, w: nat): (r: string)
    ensures |r| == w
    ensures IsBits(r)
  {
    if w == 0 then "" else FixedWidth(n / 2, w - 1) + [if n % 2 == 0 then '0' else '1']
  }

  lemma {:induction false} RepeatSnoc(c: char, n: nat)
    ensures Repeat(c, n + 1) == Repeat(c, n) + [c]
  {
  }

  lemma {:induction false} FixedWidthZero(w: nat)
    ensures FixedWidth(0, w) == Repeat('0', w)
  {
    if w > 0 {
      FixedWidthZero(w - 1);
      RepeatSnoc('0', w - 1);
    }
  }

  /** Reading back a `w`-bit rendering gives the number, when it fits. */
  lemma {:induction false} FromFixedWidth(n: nat, w: nat)
    requires n < Pow2(w)
    ensures FromBase(FixedWidth(n, w), 2) == n
  {
    if w > 0 {
      var s := FixedWidth(n, w);
      assert s[..|s| - 1] == FixedWidth(n / 2, w - 1);
      DivBelow(n, 2, Pow2(w - 1));
      FromFixedWidth(n / 2, w - 1);
    }
  }

  /** Rendering the value of a bit string at its own width gives the string
      back: leading zeros included. */
  lemma {:induction false} FixedWidthOfValue(c: string)
    requires IsBits(c)
    ensures FixedWidth(FromBase(c, 2), |c|) == c
  {
    if |c| > 0 {
      var init := c[..|c| - 1];
      FixedWidthOfValue(init);
      var v := FromBase(c, 2);
      assert v == FromBase(init, 2) * 2 + DigitValue(c[|c| - 1]);
      assert v / 2 == FromBase(init, 2);
      assert c == init + [c[|c| - 1]];
    }
  }

  /** Two bit strings of one width with the same value are equal. */
  lemma ValueInjective(a: string, b: string)
    requires IsBits(a) && IsBits(b) && |a| == |b|
    requires FromBase(a, 2) == FromBase(b, 2)
    ensures a == b
  {
    FixedWidthOfValue(a);
    FixedWidthOfValue(b);
  }

  lemma ZFillSnoc(h: string, c: char, w: nat)
    requires |h| + 1 <= w
    ensures ZFill(h + [c], w) == ZFill(h, w - 1) + [c]
  {
  }

  /** `bin(n)[2:].zfill(w)` is the `w`-bit rendering of `n` when `n` fits
      in `w` bits. */
  lemma {:induction false} ZFillBinary(n: nat, w: nat)
    requires 1 <= w
    requires n < Pow2(w)
    ensures ZFill(ToBase(n, 2), w) == FixedWidth(n, w)
    decreases n
  {
    DivModStep(n, 2);
    if n < 2 {
      FixedWidthZero(w - 1);
      assert FixedWidth(n, w) == FixedWidth(0, w - 1) + [DigitChar(n)];
    } else {
      ToBaseLength(n, 2, w);
      DivBelow(n, 2, Pow2(w - 1));
      var h, c := ToBase(n / 2, 2), DigitChar(n % 2);
      assert ToBase(n, 2) == h + [c];
      ZFillSnoc(h, c, w);
      ZFillBinary(n / 2, w - 1);
    }
  }

  lemma ShiftStep(x: nat, p: nat, b: nat, d: nat)
    ensures (x * p + b) * 2 + d == x * (p * 2) + (b * 2 + d)
  {
  }

  lemma {:induction false} FromBaseConcat(a: string, b: string)
    requires IsBits(a) && IsBits(b)
    ensures IsBits(a + b)
    ensures FromBase(a + b, 2) == FromBase(a, 2) * Pow2(|b|) + FromBase(b, 2)
  {
    if |b| == 0 {
      assert a + b == a;
    } else {
      var b' := b[..|b| - 1];
      var d := DigitValue(b[|b| - 1]);
      assert (a + b)[..|a + b| - 1] == a + b';
      assert FromBase(a + b, 2) == FromBase(a + b', 2) * 2 + d;
      assert FromBase(b, 2) == FromBase(b', 2) * 2 + d;
      FromBaseConcat(a, b');
      assert Pow2(|b|) == Pow2(|b'|) * 2;
      ShiftStep(FromBase(a, 2), Pow2(|b'|), FromBase(b', 2), d);
    }
  }

  lemma {:induction false} FromBaseRepeat(c: char, k: nat)
    requires c == '0' || c == '1'
    ensures IsBits(Repeat(c, k))
    ensures FromBase(Repeat(c, k), 2) == if c == '0' then 0 else Pow2(k) - 1
  {
    if k > 0 {
      RepeatSnoc(c, k - 1);
      assert Repeat(c, k)[..k - 1] == Repeat(c, k - 1);
      FromBaseRepeat(c, k - 1);
      PowPositive(2, k - 1);
    }
  }

  /** Among numbers `h * k + l` with `l < k`, the interval
      `[h0 * k, h0 * k + k - 1]` holds exactly those with `h == h0`. */
  lemma SameBlock(h0: nat, h: nat, l: nat, k: nat, lo: nat, v: nat)
    requires l < k
    requires lo == h0 * k && v == h * k + l
    ensures lo <= v <= lo + k - 1 <==> h == h0
  {
    if h < h0 {
      MulMonotone(h + 1, h0, k);
    } else if h > h0 {
      MulMonotone(h0 + 1, h, k);
    }
  }

  /** The value of a bit string is its first `p` bits shifted left by
      the remaining width, plus the remaining bits. */
  lemma SplitValue(x: string, p: nat)
    requires IsBits(x) && p <= |x|
    ensures IsBits(x[..p]) && IsBits(x[p..])
    ensures FromBase(x, 2) == FromBase(x[..p], 2) * Pow2(|x| - p) + FromBase(x[p..], 2)
    ensures FromBase(x[p..], 2) < Pow2(|x| - p)
  {
    assert x == x[..p] + x[p..];
    FromBaseConcat(x[..p], x[p..]);
    FromBaseBound(x[p..], 2);
  }

  /** The first `p` bits of `y`, then `c` in every later position:
      `y[:p] + (len(y) - p) * c`. */
  function FillAfter(y: string, p: nat, c: char): (r: string)
    requires p <= |y|
    ensures |r| == |y|
    ensures r[..p] == y[..p]
    ensures forall i | p <= i < |r| :: r[i] == c
    ensures IsBits(y) && (c == '0' || c == '1') ==> IsBits(r)
  {
    y[..p] + Repeat(c, |y| - p)
  }

  lemma FillAfterValue(y: string, p: nat, c: char)
    requires IsBits(y) && p <= |y|
    requires c == '0' || c == '1'
    ensures IsBits(FillAfter(y, p, c))
    ensures FromBase(FillAfter(y, p, c), 2)
         == FromBase(y[..p], 2) * Pow2(|y| - p) + (if c == '0' then 0 else Pow2(|y| - p) - 1)
  {
    FromBaseRepeat(c, |y| - p);
    FromBaseConcat(y[..p], Repeat(c, |y| - p));
  }

  /** Clearing, resp. setting, every bit after the first `p` of `y` gives
      the lowest, resp. highest, value of its block: the block holds exactly
      the strings that agree with `y` on the first `p` bits, and has
      `2 ** (|y| - p)` members. */
  lemma BlockBounds(y: string, p: nat, x: string)
    requires IsBits(y) && IsBits(x) && |x| == |y| && p <= |y|
    ensures IsBits(FillAfter(y, p, '0')) && IsBits(FillAfter(y, p, '1'))
    ensures FromBase(FillAfter(y, p, '0'), 2) <= FromBase(y, 2) <= FromBase(FillAfter(y, p, '1'), 2)
    ensures FromBase(FillAfter(y, p, '1'), 2) - FromBase(FillAfter(y, p, '0'), 2) + 1 == Pow2(|y| - p)
    ensures FromBase(FillAfter(y, p, '0'), 2) <= FromBase(x, 2) <= FromBase(FillAfter(y, p, '1'), 2)
        <==> x[..p] == y[..p]
  {
    var K := Pow2(|y| - p);
    SplitValue(y, p);
    SplitValue(x, p);
    var h0, h := FromBase(y[..p], 2), FromBase(x[..p], 2);
    var ly, lx := FromBase(y[p..], 2), FromBase(x[p..], 2);
    FillAfterValue(y, p, '0');
    FillAfterValue(y, p, '1');
    var lo := FromBase(FillAfter(y, p, '0'), 2);
    SameBlock(h0, h0, ly, K, lo, FromBase(y, 2));
    SameBlock(h0, h, lx, K, lo, FromBase(x, 2));
    if h == h0 {
      ValueInjective(x[..p], y[..p]);
    }
  }
}
