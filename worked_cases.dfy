/** Two constructions worked through to their texts: a prefix of 30 given
    alone, and the call in `app.py`, a mask of 28 ones. */
module WorkedCases {
  import opened Wrappers
  import opened PyText
  import opened Bits
  import opened Ipv4Text
  import opened Calc
  import opened SubnetProperties

  /** The four octets `o` as `_ip_to_bin` spells them. */
  function QuadBitsOf(o: seq<nat>): (b: string)
    requires |o| == 4
    ensures |b| == 32 && IsBits(b)
  {
    FixedWidth(o[0], 8) + FixedWidth(o[1], 8) + FixedWidth(o[2], 8) + FixedWidth(o[3], 8)
  }

  /** The dotted form of four octets is valid, `_ip_to_bin` spells it byte
      by byte, and `_bin_to_ip` reads those bits back to it. */
  lemma QuadBits(o: seq<nat>)
    requires |o| == 4 && forall n | 0 <= n < 4 :: o[n] <= 255
    ensures ValidaIp(Dotted(o)) && Convertible(Dotted(o))
    ensures IpToBin(Dotted(o)) == QuadBitsOf(o)
    ensures BinToIp(QuadBitsOf(o)) == Dotted(o)
  {
    var b := FixedWidth(o[0], 8) + FixedWidth(o[1], 8) + FixedWidth(o[2], 8) + FixedWidth(o[3], 8);
    Pow2Of8();
    assert b[0..8] == FixedWidth(o[0], 8);
    assert b[8..16] == FixedWidth(o[1], 8);
    assert b[16..24] == FixedWidth(o[2], 8);
    assert b[24..32] == FixedWidth(o[3], 8);
    FromFixedWidth(o[0], 8);
    FromFixedWidth(o[1], 8);
    FromFixedWidth(o[2], 8);
    FromFixedWidth(o[3], 8);
    DottedBits(b, o);
    BinToIpOfBytes(b, o);
  }

  /** `255` in eight bits is eight ones. */
  lemma AllOnesByte()
    ensures FixedWidth(255, 8) == Repeat('1', 8)
  {
    Pow2Of8();
    FromFixedWidth(255, 8);
    FromBaseRepeat('1', 8);
    ValueInjective(FixedWidth(255, 8), Repeat('1', 8));
  }

  /** Keeping the first `q` bits of the byte `v` and filling the rest with
      `c` gives the first (`'0'`), resp. last (`'1'`), value of the block of
      `k == 2 ** (8 - q)` values that holds `v`: with `v == h * k + l` and
      `l < k`, that is `h * k`, resp. `h * k + k - 1`. */
  lemma ByteFill(v: nat, q: nat, c: char, h: nat, l: nat, last: nat)
    requires v <= 255 && q <= 8 && (c == '0' || c == '1')
    requires v == h * Pow2(8 - q) + l && l < Pow2(8 - q)
    requires last == h * Pow2(8 - q) + (if c == '0' then 0 else Pow2(8 - q) - 1)
    ensures last <= 255
    ensures FillAfter(FixedWidth(v, 8), q, c) == FixedWidth(last, 8)
  {
    var k := Pow2(8 - q);
    var y := FixedWidth(v, 8);
    var fy := FillAfter(y, q, c);
    Pow2Of8();
    FromFixedWidth(v, 8);
    SplitValue(y, q);
    FillAfterValue(y, q, c);
    var h0: nat := FromBase(y[..q], 2);
    MulMonotone(0, h0, k);
    var lo: nat := h0 * k;
    SameBlock(h0, h, l, k, lo, v);
    assert h0 == h;
    assert FromBase(fy, 2) == last;
    FromBaseBound(fy, 2);
    FromFixedWidth(last, 8);
    ValueInjective(fy, FixedWidth(last, 8));
  }

  /** Filling the address bits from bit `p >= 24` on leaves the first
      three bytes alone and replaces the last by the filled last byte. */
  lemma LastByteFill(o: seq<nat>, p: nat, c: char, last: nat)
    requires |o| == 4 && 24 <= p <= 32
    requires FillAfter(FixedWidth(o[3], 8), p - 24, c) == FixedWidth(last, 8)
    ensures FillAfter(QuadBitsOf(o), p, c) == QuadBitsOf([o[0], o[1], o[2], last])
  {
    var q := p - 24;
    var y := FixedWidth(o[3], 8);
    var fy := FixedWidth(last, 8);
    var w := QuadBitsOf([o[0], o[1], o[2], last]);
    var b := QuadBitsOf(o);
    var f := FillAfter(b, p, c);
    forall i | 0 <= i < 32
      ensures f[i] == w[i]
    {
      if i < p {
        assert f[i] == f[..p][i] == b[..p][i];
      }
      if 24 <= i {
        assert w[i] == fy[i - 24];
        if i < p {
          assert fy[i - 24] == fy[..q][i - 24] == y[..q][i - 24];
        }
      }
    }
  }

  /** A prefix of at least 24 bits leaves the first three octets of an
      address spelled as the octets `o` alone and fills the last one: the
      network and broadcast addresses are `o` with its last octet replaced
      by `last`, the filled last byte. */
  lemma LastOctet(ip: string, o: seq<nat>, p: nat, c: char, last: nat)
    requires |o| == 4 && o[0] <= 255 && o[1] <= 255 && o[2] <= 255
    requires Convertible(ip) && IpToBin(ip) == QuadBitsOf(o)
    requires 24 <= p <= 32 && last <= 255
    requires FillAfter(FixedWidth(o[3], 8), p - 24, c) == FixedWidth(last, 8)
    ensures BinToIp(FillAfter(IpToBin(ip), p, c)) == Dotted([o[0], o[1], o[2], last])
  {
    LastByteFill(o, p, c, last);
    QuadBits([o[0], o[1], o[2], last]);
  }

  /** The mask bits of a prefix are the bits of `255.255.255.255` filled
      with zeros from the prefix on. */
  lemma MaskAsFill(p: nat)
    requires p <= 32
    ensures Contiguous(p) == FillAfter(QuadBitsOf([255, 255, 255, 255]), p, '0')
  {
    var b := QuadBitsOf([255, 255, 255, 255]);
    var f := FillAfter(b, p, '0');
    AllOnesByte();
    assert b == Repeat('1', 8) + Repeat('1', 8) + Repeat('1', 8) + Repeat('1', 8);
    forall i | 0 <= i < 32
      ensures Contiguous(p)[i] == f[i]
    {
      if i < p {
        assert f[i] == f[..p][i] == b[..p][i];
      }
    }
  }

  /** The mask of a prefix of at least 24 bits is `255.255.255.x`, `x`
      being the byte of eight ones filled with zeros from bit `p - 24` on. */
  lemma LastMaskOctet(p: nat, last: nat)
    requires 24 <= p <= 32 && last <= 255
    requires FillAfter(FixedWidth(255, 8), p - 24, '0') == FixedWidth(last, 8)
    ensures BinToIp(Contiguous(p)) == Dotted([255, 255, 255, last])
  {
    MaskAsFill(p);
    LastByteFill([255, 255, 255, 255], p, '0', last);
    QuadBits([255, 255, 255, last]);
  }

  /** `10.0.0.5` is the dotted form of its octets. */
  lemma TenZeroZeroFive()
    ensures Dotted([10, 0, 0, 5]) == "10.0.0.5"
  {
    JoinFour([ToBase(10, 10), ToBase(0, 10), ToBase(0, 10), ToBase(5, 10)], '.');
    assert ToBase(10, 10) == "10";
  }

  /** `255.255.255.252` is the dotted form of its octets. */
  lemma MaskThirtyText()
    ensures Dotted([255, 255, 255, 252]) == "255.255.255.252"
  {
    JoinFour([ToBase(255, 10), ToBase(255, 10), ToBase(255, 10), ToBase(252, 10)], '.');
    assert ToBase(255, 10) == "255";
    assert ToBase(252, 10) == "252";
  }

  /** The last bytes of the mask, network and broadcast addresses of a
      prefix of 30 on `....5`. */
  lemma LastBytesOfThirty()
    ensures FillAfter(FixedWidth(255, 8), 6, '0') == FixedWidth(252, 8)
    ensures FillAfter(FixedWidth(5, 8), 6, '0') == FixedWidth(4, 8)
    ensures FillAfter(FixedWidth(5, 8), 6, '1') == FixedWidth(7, 8)
  {
    assert Pow2(2) == 4;
    ByteFill(255, 6, '0', 63, 3, 252);
    ByteFill(5, 6, '0', 1, 1, 4);
    ByteFill(5, 6, '1', 1, 1, 7);
  }

  /** The mask, network and broadcast addresses of `10.0.0.5/30`. */
  lemma BlockOfThirty()
    ensures Convertible(Dotted([10, 0, 0, 5]))
    ensures BinToIp(Contiguous(30)) == Dotted([255, 255, 255, 252])
    ensures BinToIp(FillAfter(IpToBin(Dotted([10, 0, 0, 5])), 30, '0')) == Dotted([10, 0, 0, 4])
    ensures BinToIp(FillAfter(IpToBin(Dotted([10, 0, 0, 5])), 30, '1')) == Dotted([10, 0, 0, 7])
  {
    var o := [10, 0, 0, 5];
    LastBytesOfThirty();
    LastMaskOctet(30, 252);
    QuadBits(o);
    LastOctet(Dotted(o), o, 30, '0', 4);
    LastOctet(Dotted(o), o, 30, '1', 7);
  }

  /** `10.0.0.4` and `10.0.0.7` are the dotted forms of their octets. */
  lemma BlockThirtyText()
    ensures Dotted([10, 0, 0, 4]) == "10.0.0.4"
    ensures Dotted([10, 0, 0, 7]) == "10.0.0.7"
  {
    JoinFour([ToBase(10, 10), ToBase(0, 10), ToBase(0, 10), ToBase(4, 10)], '.');
    JoinFour([ToBase(10, 10), ToBase(0, 10), ToBase(0, 10), ToBase(7, 10)], '.');
    assert ToBase(10, 10) == "10";
  }

  /** A prefix alone: every field of the subnet, in terms of the address
      bits. */
  lemma PrefixAlone(ip: string, n: int)
    requires ValidaIp(ip) && Convertible(ip)
    requires 1 <= n <= 32
    ensures Modelled(ip, None, IntPrefix(n))
    ensures var c := Construct(ip, None, IntPrefix(n));
            && c.Success? && c.value.prefixo == n
            && c.value.mascara == BinToIp(Contiguous(n))
            && c.value.rede == BinToIp(FillAfter(IpToBin(ip), n, '0'))
            && c.value.broadcast == BinToIp(FillAfter(IpToBin(ip), n, '1'))
  {
    MaskFromPrefix(ip, n);
  }

  /** `CalcIpv4(ip='10.0.0.5', prefixo=30)`: mask `255.255.255.252`,
      network `10.0.0.4`, broadcast `10.0.0.7` and four addresses. */
  lemma PrefixThirty()
    ensures Modelled("10.0.0.5", None, IntPrefix(30))
    ensures var c := Construct("10.0.0.5", None, IntPrefix(30));
            && c.Success? && c.value.prefixo == 30
            && c.value.mascara == "255.255.255.252"
            && c.value.rede == "10.0.0.4"
            && c.value.broadcast == "10.0.0.7"
            && Pow2(32 - c.value.prefixo) == 4
  {
    TenZeroZeroFive();
    QuadBits([10, 0, 0, 5]);
    MaskThirtyText();
    BlockOfThirty();
    BlockThirtyText();
    PrefixAlone("10.0.0.5", 30);
  }

  /** A mask alone: every field of the subnet, in terms of the address
      bits and the mask's number of ones. */
  lemma MaskAlone(ip: string, m: string)
    requires ValidaIp(ip) && Convertible(ip)
    requires m != "" && ValidaIp(m) && Convertible(m) && Ones(m) > 0
    ensures Modelled(ip, Some(m), NoPrefix)
    ensures var c := Construct(ip, Some(m), NoPrefix);
            && c.Success? && c.value.prefixo == Ones(m)
            && c.value.mascara == m
            && c.value.rede == BinToIp(FillAfter(IpToBin(ip), Ones(m), '0'))
            && c.value.broadcast == BinToIp(FillAfter(IpToBin(ip), Ones(m), '1'))
  {
    PrefixFromMask(ip, m, NoPrefix);
  }

  /** `255.255.255.184` is the dotted form of its octets. */
  lemma MaskOfAppText()
    ensures Dotted([255, 255, 255, 184]) == "255.255.255.184"
  {
    JoinFour([ToBase(255, 10), ToBase(255, 10), ToBase(255, 10), ToBase(184, 10)], '.');
    assert ToBase(255, 10) == "255";
    assert ToBase(184, 10) == "184";
  }

  /** `184` in eight bits holds four ones. */
  lemma OnesOf184()
    ensures Count(FixedWidth(184, 8), '1') == 4
  {
    assert FixedWidth(184, 8) == "10111000";
  }

  /** `255.255.255.184` passes `_valida_ip` and has 28 ones. */
  lemma MaskOfApp()
    ensures ValidaIp("255.255.255.184") && Convertible("255.255.255.184")
    ensures Ones("255.255.255.184") == 28
  {
    var a := FixedWidth(255, 8);
    MaskOfAppText();
    QuadBits([255, 255, 255, 184]);
    AllOnesByte();
    CountRepeat('1', 8, '1');
    OnesOf184();
    CountConcat(a, a, '1');
    CountConcat(a + a, a, '1');
    CountConcat(a + a + a, FixedWidth(184, 8), '1');
  }

  /** `192.168.0.1` is the dotted form of its octets. */
  lemma AddressOfApp()
    ensures Dotted([192, 168, 0, 1]) == "192.168.0.1"
  {
    JoinFour([ToBase(192, 10), ToBase(168, 10), ToBase(0, 10), ToBase(1, 10)], '.');
    assert ToBase(192, 10) == "192";
    assert ToBase(168, 10) == "168";
  }

  /** The last bytes of the network and broadcast addresses of a prefix
      of 28 on `....1`. */
  lemma LastBytesOfApp()
    ensures FillAfter(FixedWidth(1, 8), 4, '0') == FixedWidth(0, 8)
    ensures FillAfter(FixedWidth(1, 8), 4, '1') == FixedWidth(15, 8)
  {
    assert Pow2(4) == 16;
    ByteFill(1, 4, '0', 0, 1, 0);
    ByteFill(1, 4, '1', 0, 1, 15);
  }

  /** The network and broadcast addresses of `192.168.0.1/28`. */
  lemma BlockOfApp()
    ensures Convertible(Dotted([192, 168, 0, 1]))
    ensures BinToIp(FillAfter(IpToBin(Dotted([192, 168, 0, 1])), 28, '0')) == Dotted([192, 168, 0, 0])
    ensures BinToIp(FillAfter(IpToBin(Dotted([192, 168, 0, 1])), 28, '1')) == Dotted([192, 168, 0, 15])
  {
    var o := [192, 168, 0, 1];
    LastBytesOfApp();
    QuadBits(o);
    LastOctet(Dotted(o), o, 28, '0', 0);
    LastOctet(Dotted(o), o, 28, '1', 15);
  }

  /** `192.168.0.0` and `192.168.0.15` are the dotted forms of their
      octets. */
  lemma BlockOfAppText()
    ensures Dotted([192, 168, 0, 0]) == "192.168.0.0"
    ensures Dotted([192, 168, 0, 15]) == "192.168.0.15"
  {
    JoinFour([ToBase(192, 10), ToBase(168, 10), ToBase(0, 10), ToBase(0, 10)], '.');
    JoinFour([ToBase(192, 10), ToBase(168, 10), ToBase(0, 10), ToBase(15, 10)], '.');
    assert ToBase(192, 10) == "192";
    assert ToBase(168, 10) == "168";
    assert ToBase(15, 10) == "15";
  }

  /** `CalcIpv4(ip='192.168.0.1', mascara='255.255.255.184')`: the mask
      text is kept although its ones are not contiguous, the prefix is its
      28 ones, the network is `192.168.0.0`, the broadcast `192.168.0.15`,
      and the block holds 16 addresses. */
  lemma AppCall()
    ensures Modelled("192.168.0.1", Some("255.255.255.184"), NoPrefix)
    ensures var c := Construct("192.168.0.1", Some("255.255.255.184"), NoPrefix);
            && c.Success? && c.value.prefixo == 28
            && c.value.mascara == "255.255.255.184"
            && c.value.rede == "192.168.0.0"
            && c.value.broadcast == "192.168.0.15"
            && Pow2(32 - c.value.prefixo) == 16
  {
    AddressOfApp();
    QuadBits([192, 168, 0, 1]);
    MaskOfAppText();
    MaskOfApp();
    BlockOfApp();
    BlockOfAppText();
    MaskAlone("192.168.0.1", "255.255.255.184");
  }
}
