/** The three text helpers of `CalcIpv4`: the dotted-quad syntax check
    `_valida_ip`, dotted quad to 32 binary digits `_ip_to_bin`, and back
    `_bin_to_ip`. */
module Ipv4Text {
  import opened PyText
  import opened Bits

  // ---------------------------------------------------------------------
  // _valida_ip: the pattern ^([0-9]{1,3}).([0-9]{1,3}).([0-9]{1,3}).([0-9]{1,3})$

  /** `[0-9]{1,3}`: one to three ASCII digits */
  predicate IsDigitGroup(g: string)
  {
    1 <= |g| <= 3 && IsDigits(g, 10)
  }

  /** The unescaped `.` of the pattern: any character except a line feed. */
  predicate IsAnyChar(c: char)
  {
    c != '\n'
  }

  /** The pattern matches all of `s` with its three separators at `i`, `j`
      and `k`. */
  predicate GroupsAt(s: string, i: int, j: int, k: int)
  {
    && 0 < i < j < k < |s|
    && IsDigitGroup(s[..i]) && IsAnyChar(s[i])
    && IsDigitGroup(s[i + 1..j]) && IsAnyChar(s[j])
    && IsDigitGroup(s[j + 1..k]) && IsAnyChar(s[k])
    && IsDigitGroup(s[k + 1..])
  }

  predicate FullMatch(s: string)
  {
    exists i, j, k | 0 < i < j < k < |s| :: GroupsAt(s, i, j, k)
  }

  /** `_valida_ip`: `re.search` with `^` and `$`, where `$` matches at the
      end of the text and also just before a line feed that ends it. */
  predicate ValidaIp(s: string)
  {
    FullMatch(s) || (|s| > 0 && s[|s| - 1] == '\n' && FullMatch(s[..|s| - 1]))
  }

  // ---------------------------------------------------------------------
  // The blocks `_ip_to_bin` reads with `int()`

  /** A block `int()` reads as a decimal number, as far as a text that
      passed `_valida_ip` can produce one: digits, possibly followed by the
      final line feed that `$` lets through. */
  predicate IsIntText(b: string)
  {
    || (|b| >= 1 && IsDigits(b, 10))
    || (|b| >= 2 && b[|b| - 1] == '\n' && IsDigits(b[..|b| - 1], 10))
  }

  /** `int(b)` */
  function IntValue(b: string): nat
    requires IsIntText(b)
  {
    if IsDigits(b, 10) then FromBase(b, 10) else FromBase(b[..|b| - 1], 10)
  }

  predicate IsOctetText(b: string)
  {
    IsIntText(b) && IntValue(b) <= 255
  }

  /** The texts the conversions turn into 32 binary digits: four blocks
      separated by `'.'`, each an octet value. */
  predicate Convertible(ip: string)
  {
    var blocks := Split(ip, '.');
    |blocks| == 4 && forall n | 0 <= n < 4 :: IsOctetText(blocks[n])
  }

  /** The four numbers a convertible text stands for. */
  function Octets(ip: string): (o: seq<nat>)
    requires Convertible(ip)
    ensures |o| == 4
    ensures forall n | 0 <= n < 4 :: o[n] <= 255
  {
    var blocks := Split(ip, '.');
    [IntValue(blocks[0]), IntValue(blocks[1]), IntValue(blocks[2]), IntValue(blocks[3])]
  }

  /** `'.'.join(str(x) for x in o)`: the canonical dotted quad. */
  function Dotted(o: seq<nat>): string
    requires |o| == 4
  {
    Join([ToBase(o[0], 10), ToBase(o[1], 10), ToBase(o[2], 10), ToBase(o[3], 10)], '.')
  }

  lemma Pow2Of8()
    ensures Pow2(8) == 256
  {
    assert Pow(2, 2) == 4;
    assert Pow(2, 4) == 16 by { assert Pow(2, 3) == 8; }
    assert Pow(2, 6) == 64 by { assert Pow(2, 5) == 32; }
    assert Pow(2, 8) == 256 by { assert Pow(2, 7) == 128; }
  }

  lemma Pow10Of3()
    ensures Pow(10, 3) == 1000
  {
    assert Pow(10, 2) == 100;
  }

  // ---------------------------------------------------------------------
  // _ip_to_bin and _bin_to_ip

  /** `bin(int(b))[2:].zfill(8)`: the octet's eight binary digits. */
  function OctetBits(b: string): (r: string)
    requires IsOctetText(b)
    ensures |r| == 8 && IsBits(r)
  {
    OctetBitsFixed(b);
    ZFill(ToBase(IntValue(b), 2), 8)
  }

  /** The eight digits `_ip_to_bin` gives an octet are its value in binary. */
  lemma OctetBitsFixed(b: string)
    requires IsOctetText(b)
    ensures ZFill(ToBase(IntValue(b), 2), 8) == FixedWidth(IntValue(b), 8)
  {
    Pow2Of8();
    ZFillBinary(IntValue(b), 8);
  }

  /** The comprehension and `''.join` inside `_ip_to_bin`: the binary
      digits of each block, concatenated. */
  function BinaryBlocks(blocks: seq<string>): (r: string)
    requires forall n | 0 <= n < |blocks| :: IsOctetText(blocks[n])
    ensures |r| == 8 * |blocks| && IsBits(r)
  {
    if |blocks| == 0 then "" else OctetBits(blocks[0]) + BinaryBlocks(blocks[1..])
  }

  /** `_ip_to_bin`. */
  function IpToBin(ip: string): (r: string)
    requires Convertible(ip)
    ensures |r| == 32 && IsBits(r)
  {
    BinaryBlocks(Split(ip, '.'))
  }

  /** Each byte of `_ip_to_bin`'s result is the matching octet in binary. */
  lemma IpToBinBytes(ip: string)
    requires Convertible(ip)
    ensures forall n | 0 <= n < 4 :: IpToBin(ip)[8 * n..8 * n + 8] == FixedWidth(Octets(ip)[n], 8)
  {
    var blocks := Split(ip, '.');
    var r := IpToBin(ip);
    var d := seq(4, n requires 0 <= n < 4 => OctetBits(blocks[n]));
    assert BinaryBlocks(blocks[3..]) == d[3] by {
      assert blocks[3..][1..] == [];
    }
    assert BinaryBlocks(blocks[2..]) == d[2] + d[3] by {
      assert blocks[2..][1..] == blocks[3..];
    }
    assert BinaryBlocks(blocks[1..]) == d[1] + d[2] + d[3] by {
      assert blocks[1..][1..] == blocks[2..];
    }
    assert r == d[0] + d[1] + d[2] + d[3];
    forall n | 0 <= n < 4
      ensures r[8 * n..8 * n + 8] == FixedWidth(Octets(ip)[n], 8)
    {
      OctetBitsFixed(blocks[n]);
      assert r[8 * n..8 * n + 8] == d[n];
    }
  }

  /** `_bin_to_ip`: the decimal value of each group of eight bits, joined
      by `'.'`. */
  function BinToIp(b: string): (r: string)
    requires |b| == 32 && IsBits(b)
  {
    Join(DecimalBlocks(b), '.')
  }

  /** The comprehension inside `_bin_to_ip`: the decimal text of each
      block of eight binary digits, from the left. */
  function DecimalBlocks(b: string): (r: seq<string>)
    requires |b| % 8 == 0 && IsBits(b)
    ensures |r| == |b| / 8
    decreases |b|
  {
    if |b| == 0 then [] else [ToBase(FromBase(b[..8], 2), 10)] + DecimalBlocks(b[8..])
  }

  /** `_bin_to_ip` spells the values of the four bytes as a dotted quad. */
  lemma BinToIpDotted(b: string)
    requires |b| == 32 && IsBits(b)
    ensures BinToIp(b) == Dotted([FromBase(b[0..8], 2), FromBase(b[8..16], 2), FromBase(b[16..24], 2), FromBase(b[24..32], 2)])
  {
    assert b[8..][..8] == b[8..16] && b[8..][8..] == b[16..];
    assert b[16..][..8] == b[16..24] && b[16..][8..] == b[24..];
    assert b[24..][..8] == b[24..32] && b[24..][8..] == [];
    assert DecimalBlocks(b[24..]) == [ToBase(FromBase(b[24..32], 2), 10)];
    assert DecimalBlocks(b[16..]) == [ToBase(FromBase(b[16..24], 2), 10)] + DecimalBlocks(b[24..]);
    assert DecimalBlocks(b[8..]) == [ToBase(FromBase(b[8..16], 2), 10)] + DecimalBlocks(b[16..]);
    assert b[..8] == b[0..8];
    var o := [FromBase(b[0..8], 2), FromBase(b[8..16], 2), FromBase(b[16..24], 2), FromBase(b[24..32], 2)];
    assert DecimalBlocks(b) == [ToBase(o[0], 10), ToBase(o[1], 10), ToBase(o[2], 10), ToBase(o[3], 10)];
  }

  // ---------------------------------------------------------------------
  // Properties

  /** `_bin_to_ip` spells 32 bits whose bytes have the values `w` as the
      dotted quad of `w`. */
  lemma BinToIpOfBytes(f: string, w: seq<nat>)
    requires |f| == 32 && IsBits(f) && |w| == 4
    requires forall n | 0 <= n < 4 :: FromBase(f[8 * n..8 * n + 8], 2) == w[n]
    ensures BinToIp(f) == Dotted(w)
  {
    BinToIpDotted(f);
    assert [FromBase(f[0..8], 2), FromBase(f[8..16], 2), FromBase(f[16..24], 2), FromBase(f[24..32], 2)] == w;
  }

  lemma JoinFour(d: seq<string>, sep: char)
    requires |d| == 4
    ensures Join(d, sep) == d[0] + [sep] + d[1] + [sep] + d[2] + [sep] + d[3]
  {
    assert Join(d[3..], sep) == d[3];
    assert Join(d[2..], sep) == d[2] + [sep] + d[3];
    assert Join(d[1..], sep) == d[1] + [sep] + (d[2] + [sep] + d[3]);
  }

  /** Four digit groups joined by a character other than a line feed match
      the pattern. */
  lemma GroupsMatch(d: seq<string>, sep: char)
    requires |d| == 4 && IsAnyChar(sep)
    requires forall n | 0 <= n < 4 :: IsDigitGroup(d[n])
    ensures FullMatch(Join(d, sep))
  {
    JoinFour(d, sep);
    var s := Join(d, sep);
    var i := |d[0]|;
    var j := i + 1 + |d[1]|;
    var k := j + 1 + |d[2]|;
    assert s[..i] == d[0];
    assert s[i + 1..j] == d[1];
    assert s[j + 1..k] == d[2];
    assert s[k + 1..] == d[3];
    assert GroupsAt(s, i, j, k);
  }

  /** A canonical dotted quad of four octets passes `_valida_ip`, splits
      back into its four decimal texts, and stands for the same octets. */
  lemma DottedIsValid(o: seq<nat>)
    requires |o| == 4 && forall n | 0 <= n < 4 :: o[n] <= 255
    ensures ValidaIp(Dotted(o))
    ensures Convertible(Dotted(o)) && Octets(Dotted(o)) == o
  {
    var d := [ToBase(o[0], 10), ToBase(o[1], 10), ToBase(o[2], 10), ToBase(o[3], 10)];
    Pow10Of3();
    forall n | 0 <= n < 4
      ensures IsDigitGroup(d[n]) && '.' !in d[n] && IsOctetText(d[n]) && IntValue(d[n]) == o[n]
    {
      ToBaseLength(o[n], 10, 3);
      FromToBase(o[n], 10);
    }
    SplitJoin(d, '.');
    GroupsMatch(d, '.');
  }

  /** `_bin_to_ip` then `_ip_to_bin` gives back any 32 binary digits. */
  lemma BinToIpRoundTrip(b: string)
    requires |b| == 32 && IsBits(b)
    ensures ValidaIp(BinToIp(b)) && Convertible(BinToIp(b))
    ensures IpToBin(BinToIp(b)) == b
  {
    var o := [FromBase(b[0..8], 2), FromBase(b[8..16], 2), FromBase(b[16..24], 2), FromBase(b[24..32], 2)];
    BinToIpDotted(b);
    DottedBits(b, o);
  }

  /** The dotted quad of the values of the four bytes of `b` converts back to `b`. */
  lemma DottedBits(b: string, o: seq<nat>)
    requires |b| == 32 && IsBits(b)
    requires o == [FromBase(b[0..8], 2), FromBase(b[8..16], 2), FromBase(b[16..24], 2), FromBase(b[24..32], 2)]
    ensures ValidaIp(Dotted(o)) && Convertible(Dotted(o))
    ensures IpToBin(Dotted(o)) == b
  {
    forall n | 0 <= n < 4
      ensures o[n] <= 255 && FixedWidth(o[n], 8) == b[8 * n..8 * n + 8]
    {
      ByteValue(b[8 * n..8 * n + 8]);
    }
    DottedIsValid(o);
    IpToBinBytes(Dotted(o));
    var r := IpToBin(Dotted(o));
    forall n | 0 <= n < 4
      ensures r[8 * n..8 * n + 8] == b[8 * n..8 * n + 8]
    {
      assert r[8 * n..8 * n + 8] == FixedWidth(Octets(Dotted(o))[n], 8);
    }
    ChunksEqual(r, b);
  }

  /** Eight binary digits read as a number are at most 255, and written
      back at width eight they give the same digits. */
  lemma ByteValue(c: string)
    requires |c| == 8 && IsBits(c)
    ensures FromBase(c, 2) <= 255 && FixedWidth(FromBase(c, 2), 8) == c
  {
    Pow2Of8();
    FromBaseBound(c, 2);
    FixedWidthOfValue(c);
  }

  /** Two 32-character texts that agree byte by byte are equal. */
  lemma ChunksEqual(r: string, b: string)
    requires |r| == 32 && |b| == 32
    requires forall n | 0 <= n < 4 :: r[8 * n..8 * n + 8] == b[8 * n..8 * n + 8]
    ensures r == b
  {
    forall i | 0 <= i < 32
      ensures r[i] == b[i]
    {
      var n := i / 8;
      assert r[8 * n..8 * n + 8][i - 8 * n] == b[8 * n..8 * n + 8][i - 8 * n];
    }
  }

  /** `_ip_to_bin` then `_bin_to_ip` gives the canonical spelling of the
      octets: leading zeros and a final line feed are not reproduced. */
  lemma IpToBinCanonical(ip: string)
    requires Convertible(ip)
    ensures BinToIp(IpToBin(ip)) == Dotted(Octets(ip))
  {
    var r := IpToBin(ip);
    var o := Octets(ip);
    IpToBinBytes(ip);
    Pow2Of8();
    forall n | 0 <= n < 4
      ensures FromBase(r[8 * n..8 * n + 8], 2) == o[n]
    {
      FromFixedWidth(o[n], 8);
    }
    BinToIpOfBytes(r, o);
  }

  /** For four canonical decimal octets joined by `'.'`, `_ip_to_bin` gives
      32 binary digits and `_bin_to_ip` maps them back to the same text. */
  lemma DottedRoundTrip(o: seq<nat>)
    requires |o| == 4 && forall n | 0 <= n < 4 :: o[n] <= 255
    ensures Convertible(Dotted(o)) && |IpToBin(Dotted(o))| == 32
    ensures BinToIp(IpToBin(Dotted(o))) == Dotted(o)
  {
    DottedIsValid(o);
    IpToBinCanonical(Dotted(o));
  }

  /** The four digit groups of a text the pattern matches with separators
      at `i`, `j` and `k`. */
  function Groups(t: string, i: nat, j: nat, k: nat): seq<string>
    requires GroupsAt(t, i, j, k)
  {
    [t[..i], t[i + 1..j], t[j + 1..k], t[k + 1..]]
  }

  /** A block `int()` reads as an octet: a digit group of value at most
      255, with the final line feed or without it. */
  lemma OctetBlock(g: string, nl: bool)
    requires IsDigitGroup(g)
    ensures var b := if nl then g + "\n" else g;
            IsOctetText(b) <==> FromBase(g, 10) <= 255
  {
    if nl {
      var b := g + "\n";
      assert b[..|b| - 1] == g;
      assert !IsDigits(b, 10) by { assert b[|b| - 1] == '\n'; }
    }
  }

  /** When all three separators are `'.'`, `split('.')` returns the four
      groups, the last one with the final line feed if there is one. */
  lemma DottedBlocks(s: string, t: string, i: nat, j: nat, k: nat)
    requires GroupsAt(t, i, j, k)
    requires t[i] == '.' && t[j] == '.' && t[k] == '.'
    requires s == t || s == t + "\n"
    ensures var g := Groups(t, i, j, k);
            Split(s, '.') == if s == t then g else g[..3] + [g[3] + "\n"]
  {
    var g := Groups(t, i, j, k);
    JoinFour(g, '.');
    assert t == Join(g, '.');
    SplitJoin(g, '.');
    if s != t {
      SplitSnoc(t, '\n', '.');
    }
  }

  /** Which texts that pass `_valida_ip` the conversions accept: exactly
      those whose three separators are all `'.'` and whose groups are at
      most 255 (with or without the final line feed). Any other separator
      leaves `split('.')` with fewer than four blocks. */
  lemma ValidConvertible(s: string, t: string, i: nat, j: nat, k: nat)
    requires GroupsAt(t, i, j, k)
    requires s == t || s == t + "\n"
    ensures Convertible(s) <==>
              && t[i] == '.' && t[j] == '.' && t[k] == '.'
              && forall n | 0 <= n < 4 :: FromBase(Groups(t, i, j, k)[n], 10) <= 255
  {
    var g := Groups(t, i, j, k);
    if t[i] == '.' && t[j] == '.' && t[k] == '.' {
      DottedBlocks(s, t, i, j, k);
      var blocks := Split(s, '.');
      forall n | 0 <= n < 4
        ensures IsOctetText(blocks[n]) <==> FromBase(g[n], 10) <= 255
      {
        OctetBlock(g[n], n == 3 && s != t);
      }
    } else {
      OtherSeparator(s, t, i, j, k);
    }
  }

  /** A separator other than `'.'` leaves `split('.')` with fewer than
      four blocks. */
  lemma OtherSeparator(s: string, t: string, i: nat, j: nat, k: nat)
    requires GroupsAt(t, i, j, k)
    requires s == t || s == t + "\n"
    requires t[i] != '.' || t[j] != '.' || t[k] != '.'
    ensures |Split(s, '.')| < 4
  {
    var g := Groups(t, i, j, k);
    JoinFour(g, t[i]);
    assert t == g[0] + [t[i]] + g[1] + [t[j]] + g[2] + [t[k]] + g[3];
    DotCount(g, t[i], t[j], t[k]);
    SplitLength(t, '.');
    if s != t {
      SplitSnoc(t, '\n', '.');
    }
  }

  /** Digit groups hold no `'.'`: the dots of the joined text are its
      separators. */
  lemma DotCount(g: seq<string>, c1: char, c2: char, c3: char)
    requires |g| == 4 && forall n | 0 <= n < 4 :: IsDigitGroup(g[n])
    requires c1 != '.' || c2 != '.' || c3 != '.'
    ensures Count(g[0] + [c1] + g[1] + [c2] + g[2] + [c3] + g[3], '.') < 3
  {
    forall n | 0 <= n < 4
      ensures Count(g[n], '.') == 0
    {
      CountAbsent(g[n], '.');
    }
    CountConcat(g[0] + [c1] + g[1] + [c2] + g[2] + [c3], g[3], '.');
    CountConcat(g[0] + [c1] + g[1] + [c2] + g[2], [c3], '.');
    CountConcat(g[0] + [c1] + g[1] + [c2], g[2], '.');
    CountConcat(g[0] + [c1] + g[1], [c2], '.');
    CountConcat(g[0] + [c1], g[1], '.');
    CountConcat(g[0], [c1], '.');
  }

  /** The pattern has no range check, and its `.` is any character. */
  lemma NoRangeCheck()
    ensures ValidaIp("999.1.1.1") && !Convertible("999.1.1.1")
  {
    var s := "999.1.1.1";
    assert GroupsAt(s, 3, 5, 7);
    ValidConvertible(s, s, 3, 5, 7);
    var g := Groups(s, 3, 5, 7)[0];
    assert g == "999";
    assert FromBase("9", 10) == 9 by { assert "9"[..0] == ""; }
    assert FromBase("99", 10) == 99 by { assert "99"[..1] == "9"; }
    assert FromBase(g, 10) == 999 by { assert g[..2] == "99"; }
  }

  lemma AnySeparator()
    ensures ValidaIp("1a2b3c4") && !Convertible("1a2b3c4")
  {
    var s := "1a2b3c4";
    assert GroupsAt(s, 1, 3, 5);
    ValidConvertible(s, s, 1, 3, 5);
  }

  /** `$` lets a final line feed through, and `int()` ignores it: the
      text with the line feed passes `_valida_ip` and converts exactly as the
      text without it. */
  lemma FinalLineFeed(t: string)
    requires FullMatch(t)
    ensures ValidaIp(t + "\n")
    ensures Convertible(t + "\n") <==> Convertible(t)
    ensures Convertible(t) ==> Octets(t + "\n") == Octets(t)
    ensures Convertible(t) ==> IpToBin(t + "\n") == IpToBin(t)
  {
    var s := t + "\n";
    assert s[..|s| - 1] == t;
    var i, j, k :| 0 < i < j < k < |t| && GroupsAt(t, i, j, k);
    ValidConvertible(s, t, i, j, k);
    ValidConvertible(t, t, i, j, k);
    if Convertible(t) {
      DottedBlocks(s, t, i, j, k);
      DottedBlocks(t, t, i, j, k);
      var g3 := Groups(t, i, j, k)[3];
      assert (g3 + "\n")[..|g3|] == g3;
      assert !IsDigits(g3 + "\n", 10) by { assert (g3 + "\n")[|g3|] == '\n'; }
      assert Octets(s) == Octets(t);
      SameOctetsSameBits(s, t);
    }
  }

  /** `_ip_to_bin` depends only on the octets a text stands for. */
  lemma SameOctetsSameBits(s: string, t: string)
    requires Convertible(s) && Convertible(t) && Octets(s) == Octets(t)
    ensures IpToBin(s) == IpToBin(t)
  {
    IpToBinBytes(s);
    IpToBinBytes(t);
    forall n | 0 <= n < 4
      ensures IpToBin(s)[8 * n..8 * n + 8] == IpToBin(t)[8 * n..8 * n + 8]
    {
      assert Octets(s)[n] == Octets(t)[n];
    }
    ChunksEqual(IpToBin(s), IpToBin(t));
  }

  lemma NonDigitRejected()
    ensures !ValidaIp("abc.1.1.1")
  {
    var s := "abc.1.1.1";
    forall i, j, k | 0 < i < j < k < |s|
      ensures !GroupsAt(s, i, j, k)
    {
      assert s[..i][0] == 'a';
    }
  }
}
