/** The few Python string and integer primitives the calculator is built
    from: `sep.join`, `str.split`, `c * n`, `str.count`, `str.zfill`,
    `str.ljust`, `str(n)` / `bin(n)[2:]` and `int(s, base)`. */
module PyText {

  /** `base ** k` */
  function Pow(base: nat, k: nat): nat
  {
    if k == 0 then 1 else base * Pow(base, k - 1)
  }

  lemma {:induction false} PowPositive(base: nat, k: nat)
    requires base >= 1
    ensures Pow(base, k) >= 1
  {
    if k > 0 {
      PowPositive(base, k - 1);
    }
  }

  /** `c * n` for a one-character string `c` */
  function Repeat(c: char, n: nat): (r: string)
    ensures |r| == n
    ensures forall i | 0 <= i < |r| :: r[i] == c
  {
    if n == 0 then "" else [c] + Repeat(c, n - 1)
  }

  /** `s.count(c)` for a one-character string `c` */
  function Count(s: string, c: char): (n: nat)
    ensures n <= |s|
  {
    if |s| == 0 then 0 else (if s[0] == c then 1 else 0) + Count(s[1..], c)
  }

  lemma {:induction false} CountConcat(a: string, b: string, c: char)
    ensures Count(a + b, c) == Count(a, c) + Count(b, c)
  {
    if |a| > 0 {
      assert (a + b)[1..] == a[1..] + b;
      CountConcat(a[1..], b, c);
    } else {
      assert a + b == b;
    }
  }

  lemma {:induction false} CountRepeat(d: char, n: nat, c: char)
    ensures Count(Repeat(d, n), c) == if c == d then n else 0
  {
    if n > 0 {
      assert Repeat(d, n)[1..] == Repeat(d, n - 1);
      CountRepeat(d, n - 1, c);
    }
  }

  /** `s.zfill(width)` on a string without a sign */
  function ZFill(s: string, width: nat): (r: string)
    ensures |r| == if |s| >= width then |s| else width
  {
    if |s| >= width then s else Repeat('0', width - |s|) + s
  }

  /** `s.ljust(width, fill)` */
  function LJust(s: string, width: nat, fill: char): (r: string)
    ensures |r| == if |s| >= width then |s| else width
    decreases width - |s|
  {
    if |s| >= width then s else LJust(s + [fill], width, fill)
  }

  /** `ljust` appends `fill` until the text is `width` long. */
  lemma {:induction false} LJustPads(s: string, width: nat, fill: char)
    ensures LJust(s, width, fill) == s + Repeat(fill, if |s| >= width then 0 else width - |s|)
    decreases width - |s|
  {
    if |s| < width {
      LJustPads(s + [fill], width, fill);
      var n := width - |s|;
      assert Repeat(fill, n) == [fill] + Repeat(fill, n - 1);
      assert s + [fill] + Repeat(fill, n - 1) == s + Repeat(fill, n);
    }
  }

  /** `sep.join(parts)` for a one-character separator */
  function Join(parts: seq<string>, sep: char): string
  {
    if |parts| == 0 then ""
    else if |parts| == 1 then parts[0]
    else parts[0] + [sep] + Join(parts[1..], sep)
  }

  /** `s.split(sep)` for a one-character separator: never empty, and
      `split` of the empty string is `[""]` */
  function Split(s: string, sep: char): (r: seq<string>)
    ensures |r| >= 1
    ensures forall i | 0 <= i < |r| :: sep !in r[i]
  {
    if |s| == 0 then [""]
    else
      var rest := Split(s[1..], sep);
      if s[0] == sep then [""] + rest else [[s[0]] + rest[0]] + rest[1..]
  }

  lemma {:induction false} SplitPrefix(a: string, t: string, sep: char)
    requires sep !in a
    ensures Split(a + t, sep) == [a + Split(t, sep)[0]] + Split(t, sep)[1..]
  {
    if |a| == 0 {
      assert a + t == t;
      assert a + Split(t, sep)[0] == Split(t, sep)[0];
    } else {
      assert (a + t)[1..] == a[1..] + t;
      SplitPrefix(a[1..], t, sep);
      assert [a[0]] + (a[1..] + Split(t, sep)[0]) == a + Split(t, sep)[0];
    }
  }

  /** Splitting what `join` built gives the parts back, as long as no part
      holds the separator. */
  lemma {:induction false} SplitJoin(parts: seq<string>, sep: char)
    requires |parts| >= 1
    requires forall i | 0 <= i < |parts| :: sep !in parts[i]
    ensures Split(Join(parts, sep), sep) == parts
  {
    if |parts| == 1 {
      SplitPrefix(parts[0], "", sep);
      assert parts[0] + "" == parts[0];
    } else {
      var rest := Join(parts[1..], sep);
      SplitJoin(parts[1..], sep);
      SplitPrefix(parts[0], [sep] + rest, sep);
      assert parts[0] + [sep] + rest == parts[0] + ([sep] + rest);
      assert Split([sep] + rest, sep) == [""] + Split(rest, sep);
      assert parts[0] + "" == parts[0];
    }
  }

  /** `s.split(sep)` has one more part than `s` has separators. */
  lemma {:induction false} SplitLength(s: string, sep: char)
    ensures |Split(s, sep)| == Count(s, sep) + 1
  {
    if |s| > 0 {
      SplitLength(s[1..], sep);
    }
  }

  /** Appending a character other than the separator extends the last part. */
  lemma {:induction false} SplitSnoc(s: string, c: char, sep: char)
    requires c != sep
    ensures var parts := Split(s, sep);
            Split(s + [c], sep) == parts[..|parts| - 1] + [parts[|parts| - 1] + [c]]
  {
    if |s| == 0 {
      assert s + [c] == [c];
      assert [c][1..] == "";
      assert Split([c][1..], sep) == [""];
      assert [c] + "" == [c];
      assert Split([c], sep) == [[c]];
    } else {
      var rest := Split(s[1..], sep);
      var parts := Split(s, sep);
      assert (s + [c])[1..] == s[1..] + [c];
      SplitSnoc(s[1..], c, sep);
      var rest' := Split(s[1..] + [c], sep);
      assert rest' == rest[..|rest| - 1] + [rest[|rest| - 1] + [c]];
      var last := rest[|rest| - 1] + [c];
      if s[0] == sep {
        assert parts == [""] + rest;
        assert parts[..|parts| - 1] == [""] + rest[..|rest| - 1];
      } else if |rest| == 1 {
        assert parts == [[s[0]] + rest[0]];
        assert rest' == [last];
        assert Split(s + [c], sep) == [[s[0]] + last];
        assert [s[0]] + last == ([s[0]] + rest[0]) + [c];
      } else {
        var init := rest[..|rest| - 1];
        assert parts == [[s[0]] + rest[0]] + rest[1..];
        assert rest' == init + [last];
        assert rest'[0] == rest[0];
        assert rest'[1..] == init[1..] + [last];
        assert init[1..] == rest[1..|rest| - 1];
        assert parts[..|parts| - 1] == [[s[0]] + rest[0]] + rest[1..|rest| - 1];
      }
    }
  }

  lemma {:induction false} CountAbsent(s: string, c: char)
    requires c !in s
    ensures Count(s, c) == 0
  {
    if |s| > 0 {
      assert c !in s[1..];
      CountAbsent(s[1..], c);
    }
  }

  /** `s` is made of digits of the given base only (`'0'`..`'9'` for 10,
      `'0'` and `'1'` for 2). */
  predicate IsDigits(s: string, base: nat)
  {
    forall i | 0 <= i < |s| :: '0' <= s[i] && (s[i] as int) < ('0' as int) + base
  }

  function DigitChar(d: nat): char
    requires d < 10
  {
    (('0' as int) + d) as char
  }

  function DigitValue(c: char): nat
    requires '0' <= c
  {
    (c as int) - ('0' as int)
  }

  /** `str(n)` for base 10 and `bin(n)[2:]` for base 2: no leading zero */
  function ToBase(n: nat, base: nat): (r: string)
    requires 2 <= base <= 10
    ensures 1 <= |r|
    ensures IsDigits(r, base)
    decreases n
  {
    if n < base then [DigitChar(n)]
    else ToBase(n / base, base) + [DigitChar(n % base)]
  }

  /** `int(s, base)` on a string of digits */
  function FromBase(s: string, base: nat): nat
    requires 2 <= base <= 10
    requires IsDigits(s, base)
  {
    if |s| == 0 then 0
    else FromBase(s[..|s| - 1], base) * base + DigitValue(s[|s| - 1])
  }

  /** The arithmetic step of positional notation: `n` is `n / base`
      shifted by one digit plus its last digit. */
  lemma DivModStep(n: nat, base: nat)
    requires 2 <= base
    ensures (n / base) * base + n % base == n
    ensures n % base < base
    ensures n >= base ==> 1 <= n / base < n
  {
  }

  lemma DivBelow(n: nat, base: nat, m: nat)
    requires 2 <= base
    requires n < base * m
    ensures n / base < m
  {
    DivModStep(n, base);
    if n / base >= m {
      MulMonotone(m, n / base, base);
    }
  }

  lemma MulMonotone(a: nat, b: nat, c: nat)
    requires a <= b
    ensures a * c <= b * c
  {
  }

  /** `int(str(n)) == n` and `int(bin(n)[2:], 2) == n` */
  lemma {:induction false} FromToBase(n: nat, base: nat)
    requires 2 <= base <= 10
    ensures FromBase(ToBase(n, base), base) == n
    decreases n
  {
    if n >= base {
      var q, d := n / base, n % base;
      DivModStep(n, base);
      var init := ToBase(q, base);
      var s := init + [DigitChar(d)];
      assert s == ToBase(n, base);
      assert s[..|s| - 1] == init;
      FromToBase(q, base);
      calc {
        FromBase(s, base);
        FromBase(init, base) * base + DigitValue(DigitChar(d));
        q * base + d;
        n;
      }
    }
  }

  /** A number below `base ** w` has at most `w` digits. */
  lemma {:induction false} ToBaseLength(n: nat, base: nat, w: nat)
    requires 2 <= base <= 10
    requires 1 <= w
    requires n < Pow(base, w)
    ensures |ToBase(n, base)| <= w
    decreases w
  {
    if n >= base {
      DivBelow(n, base, Pow(base, w - 1));
      DivModStep(n, base);
      if w == 1 {
        assert false;
      }
      ToBaseLength(n / base, base, w - 1);
    }
  }

  /** `int(s, base) < base ** len(s)` */
  lemma {:induction false} FromBaseBound(s: string, base: nat)
    requires 2 <= base <= 10
    requires IsDigits(s, base)
    ensures FromBase(s, base) < Pow(base, |s|)
  {
    if |s| > 0 {
      var init := s[..|s| - 1];
      FromBaseBound(init, base);
      var v := FromBase(init, base);
      var d := DigitValue(s[|s| - 1]);
      assert FromBase(s, base) == v * base + d;
      assert v * base + d < v * base + base == (v + 1) * base;
      MulMonotone(v + 1, Pow(base, |s| - 1), base);
    }
  }
}
