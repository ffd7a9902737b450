/** What a successful `CalcIpv4(ip, mascara, prefixo)` holds, and which
    arguments make it fail. */
module SubnetProperties {
  import opened Wrappers
  import opened PyText
  import opened Bits
  import opened Ipv4Text
  import opened Calc

  /** The network and broadcast addresses agree with the address on its
      first `prefixo` bits and have only zeros, resp. only ones, after them.
      Their values enclose the address's value, they are `2 ** (32 -
      prefixo)` apart counting both ends, and a 32-bit address lies
      between them exactly when it shares those first bits. */
  lemma SubnetBlock(ip: string, mascara: Option<string>, prefixo: PrefixArg, x: string)
    requires Modelled(ip, mascara, prefixo)
    requires Construct(ip, mascara, prefixo).Success?
    requires |x| == 32 && IsBits(x)
    ensures var s := Construct(ip, mascara, prefixo).value;
            var p := s.prefixo;
            var net, bcast := FromBase(s.redeBin, 2), FromBase(s.broadcastBin, 2);
            && 1 <= p <= 32
            && s.redeBin[..p] == s.ipBin[..p] && s.broadcastBin[..p] == s.ipBin[..p]
            && (forall i | p <= i < 32 :: s.redeBin[i] == '0' && s.broadcastBin[i] == '1')
            && net <= FromBase(s.ipBin, 2) <= bcast
            && bcast - net + 1 == Pow2(32 - p)
            && (net <= FromBase(x, 2) <= bcast <==> x[..p] == s.ipBin[..p])
  {
    var s := Construct(ip, mascara, prefixo).value;
    BlockBounds(s.ipBin, s.prefixo, x);
  }

  /** The dotted network and broadcast addresses pass `_valida_ip` and
      convert back to the bits they were made from; the address bits are
      those of the address given. */
  lemma SubnetAddresses(ip: string, mascara: Option<string>, prefixo: PrefixArg)
    requires Modelled(ip, mascara, prefixo)
    requires Construct(ip, mascara, prefixo).Success?
    ensures var s := Construct(ip, mascara, prefixo).value;
            && s.ip == ip && ValidaIp(ip) && s.ipBin == IpToBin(ip)
            && ValidaIp(s.rede) && Convertible(s.rede) && IpToBin(s.rede) == s.redeBin
            && ValidaIp(s.broadcast) && Convertible(s.broadcast) && IpToBin(s.broadcast) == s.broadcastBin
  {
    var s := Construct(ip, mascara, prefixo).value;
    BinToIpRoundTrip(s.redeBin);
    BinToIpRoundTrip(s.broadcastBin);
  }

  /** Without a prefix argument, a valid mask with some one bits gives a
      subnet whose prefix is the mask's number of ones and whose stored
      mask bits are that many leading ones; the mask text is kept as given,
      contiguous or not. */
  lemma PrefixFromMask(ip: string, m: string, prefixo: PrefixArg)
    requires ValidaIp(ip) && Convertible(ip)
    requires m != "" && ValidaIp(m) && Convertible(m) && Ones(m) > 0
    requires !IsTruthy(prefixo)
    ensures Modelled(ip, Some(m), prefixo)
    ensures var c := Construct(ip, Some(m), prefixo);
            && c.Success?
            && c.value.prefixo == Count(IpToBin(m), '1')
            && c.value.mascara == m
            && c.value.mascaraBin == Contiguous(c.value.prefixo)
            && Count(c.value.mascaraBin, '1') == Count(IpToBin(m), '1')
  {
    ContiguousOnes(Ones(m));
  }

  /** With a prefix and no mask, the mask is the dotted form of the prefix's
      contiguous bits: it passes `_valida_ip`, converts back to those bits,
      and has exactly the prefix's number of ones. */
  lemma MaskFromPrefix(ip: string, n: int)
    requires ValidaIp(ip) && Convertible(ip)
    requires 1 <= n <= 32
    ensures Modelled(ip, None, IntPrefix(n))
    ensures var c := Construct(ip, None, IntPrefix(n));
            && c.Success? && c.value.prefixo == n
            && c.value.mascaraBin == Contiguous(n)
            && c.value.mascara == BinToIp(Contiguous(n))
            && ValidaIp(c.value.mascara) && Convertible(c.value.mascara)
            && IpToBin(c.value.mascara) == Contiguous(n)
            && Ones(c.value.mascara) == n
  {
    var bits := Contiguous(n);
    var c := Construct(ip, None, IntPrefix(n));
    assert c.Success? && c.value.prefixo == n && c.value.mascaraBin == bits && c.value.mascara == BinToIp(bits);
    BinToIpRoundTrip(bits);
    ContiguousOnes(n);
  }

  /** A valid prefix argument wins over the prefix a valid mask implies,
      whatever that mask's ones are; the mask text is still kept. */
  lemma ExplicitPrefixWins(ip: string, m: string, n: int)
    requires ValidaIp(ip) && Convertible(ip)
    requires m != "" && ValidaIp(m) && Convertible(m)
    requires 1 <= n <= 32
    ensures Modelled(ip, Some(m), IntPrefix(n))
    ensures var c := Construct(ip, Some(m), IntPrefix(n));
            && c.Success? && c.value.prefixo == n
            && c.value.mascara == m && c.value.mascaraBin == Contiguous(n)
  {
  }

  /** With valid arguments and no truthy prefix, construction fails for a
      missing attribute exactly when no mask is given or the mask has no
      one bits. */
  lemma MissingPrefix(ip: string, mascara: Option<string>, prefixo: PrefixArg)
    requires Modelled(ip, mascara, prefixo)
    requires ValidaIp(ip) && (MaskGiven(mascara) ==> ValidaIp(mascara.value))
    requires !IsTruthy(prefixo)
    ensures Construct(ip, mascara, prefixo) == Failure(MissingAttribute)
        <==> !MaskGiven(mascara) || Ones(mascara.value) == 0
  {
  }

  /** The mask `0.0.0.0` has no one bits, so on its own it leaves the
      object without a prefix. */
  lemma ZeroMask(ip: string)
    requires ValidaIp(ip) && Convertible(ip)
    ensures ValidaIp(Dotted([0, 0, 0, 0])) && Convertible(Dotted([0, 0, 0, 0]))
    ensures Modelled(ip, Some(Dotted([0, 0, 0, 0])), NoPrefix)
    ensures Construct(ip, Some(Dotted([0, 0, 0, 0])), NoPrefix) == Failure(MissingAttribute)
  {
    ZeroMaskBits();
    MissingPrefix(ip, Some(Dotted([0, 0, 0, 0])), NoPrefix);
  }

  /** `0.0.0.0` is a valid mask whose bits are all zeros. */
  lemma ZeroMaskBits()
    ensures ValidaIp(Dotted([0, 0, 0, 0])) && Convertible(Dotted([0, 0, 0, 0]))
    ensures IpToBin(Dotted([0, 0, 0, 0])) == Repeat('0', 32)
    ensures Ones(Dotted([0, 0, 0, 0])) == 0
  {
    var z := Repeat('0', 32);
    FromBaseRepeat('0', 8);
    assert z[0..8] == Repeat('0', 8);
    assert z[8..16] == Repeat('0', 8);
    assert z[16..24] == Repeat('0', 8);
    assert z[24..32] == Repeat('0', 8);
    DottedBits(z, [0, 0, 0, 0]);
    CountRepeat('0', 32, '1');
  }

  /** Falsy arguments are no-ops: an empty mask acts as no mask, and a
      prefix of `0`, `False` or any other falsy value acts as no prefix. */
  lemma FalsyIgnored(ip: string, mascara: Option<string>, prefixo: PrefixArg)
    requires Modelled(ip, mascara, prefixo)
    requires !MaskGiven(mascara) && !IsTruthy(prefixo)
    ensures Modelled(ip, None, NoPrefix)
    ensures Construct(ip, mascara, prefixo) == Construct(ip, None, NoPrefix)
  {
  }

  /** The prefix check runs after the address and mask checks: with a
      valid address and mask, a non-integer truthy prefix and a prefix over
      32 are reported, and an invalid address is reported before anything. */
  lemma CheckOrder(ip: string, mascara: Option<string>, prefixo: PrefixArg)
    requires Modelled(ip, mascara, prefixo)
    ensures !ValidaIp(ip) ==> Construct(ip, mascara, prefixo) == Failure(InvalidIp)
    ensures (ValidaIp(ip) && MaskGiven(mascara) && !ValidaIp(mascara.value))
              ==> Construct(ip, mascara, prefixo) == Failure(InvalidMask)
    ensures (ValidaIp(ip) && (MaskGiven(mascara) ==> ValidaIp(mascara.value)) && prefixo == NonIntPrefix(true))
              ==> Construct(ip, mascara, prefixo) == Failure(PrefixNotInteger)
    ensures (ValidaIp(ip) && (MaskGiven(mascara) ==> ValidaIp(mascara.value)) && prefixo.IntPrefix? && prefixo.n > 32)
              ==> Construct(ip, mascara, prefixo) == Failure(PrefixAbove32)
  {
  }

  /** The octets `o` with every octet from the `k`-th on replaced by `fill`. */
  function KeepOctets(o: seq<nat>, k: nat, fill: nat): (r: seq<nat>)
    requires |o| == 4
    ensures |r| == 4
  {
    seq(4, n requires 0 <= n < 4 => if n < k then o[n] else fill)
  }

  /** Clearing, resp. setting, the bits after the first `k` octets turns
      the address into its first `k` octets followed by `0`, resp. `255`. */
  lemma ByteAlignedFill(ip: string, k: nat, c: char)
    requires Convertible(ip)
    requires k <= 4 && (c == '0' || c == '1')
    ensures var f := FillAfter(IpToBin(ip), 8 * k, c);
            IsBits(f) && BinToIp(f) == Dotted(KeepOctets(Octets(ip), k, if c == '0' then 0 else 255))
  {
    IpToBinBytes(ip);
    FilledBytes(IpToBin(ip), Octets(ip), k, c);
  }

  /** The same, for 32 bits whose bytes are the octets `o`. */
  lemma FilledBytes(y: string, o: seq<nat>, k: nat, c: char)
    requires |y| == 32 && IsBits(y) && |o| == 4
    requires forall n | 0 <= n < 4 :: o[n] <= 255 && y[8 * n..8 * n + 8] == FixedWidth(o[n], 8)
    requires k <= 4 && (c == '0' || c == '1')
    ensures var f := FillAfter(y, 8 * k, c);
            IsBits(f) && BinToIp(f) == Dotted(KeepOctets(o, k, if c == '0' then 0 else 255))
  {
    var f := FillAfter(y, 8 * k, c);
    var want := KeepOctets(o, k, if c == '0' then 0 else 255);
    Pow2Of8();
    FromBaseRepeat(c, 8);
    forall n | 0 <= n < 4
      ensures FromBase(f[8 * n..8 * n + 8], 2) == want[n]
    {
      FillChunk(y, k, c, n);
      if n < k {
        FromFixedWidth(o[n], 8);
      }
    }
    BinToIpOfBytes(f, want);
  }

  /** Byte `n` of 32 bits after the first `k` bytes are kept and the rest
      filled with `c`. */
  lemma FillChunk(y: string, k: nat, c: char, n: nat)
    requires |y| == 32 && k <= 4 && n < 4
    ensures var f := FillAfter(y, 8 * k, c);
            f[8 * n..8 * n + 8] == if n < k then y[8 * n..8 * n + 8] else Repeat(c, 8)
  {
    var f := FillAfter(y, 8 * k, c);
    if n < k {
      assert f[8 * n..8 * n + 8] == f[..8 * k][8 * n..8 * n + 8];
      assert y[8 * n..8 * n + 8] == y[..8 * k][8 * n..8 * n + 8];
    } else {
      assert f[8 * n..8 * n + 8] == Repeat(c, 8);
    }
  }

  /** With a prefix that is a whole number `k` of octets, the network
      address is the address's first `k` octets followed by zeros, and the
      broadcast address the same octets followed by 255s. */
  lemma ByteAlignedSubnet(ip: string, mascara: Option<string>, prefixo: PrefixArg)
    requires Modelled(ip, mascara, prefixo)
    ensures var c := Construct(ip, mascara, prefixo);
            c.Success? && c.value.prefixo % 8 == 0 ==>
              && c.value.rede == Dotted(KeepOctets(Octets(ip), c.value.prefixo / 8, 0))
              && c.value.broadcast == Dotted(KeepOctets(Octets(ip), c.value.prefixo / 8, 255))
  {
    var c := Construct(ip, mascara, prefixo);
    if c.Success? && c.value.prefixo % 8 == 0 {
      var k := c.value.prefixo / 8;
      assert 8 * k == c.value.prefixo;
      ByteAlignedFill(ip, k, '0');
      ByteAlignedFill(ip, k, '1');
    }
  }

  /** `255.0.255.0` is a valid mask; its bits alternate between eight ones
      and eight zeros. */
  lemma NonContiguousBits()
    ensures ValidaIp(Dotted([255, 0, 255, 0])) && Convertible(Dotted([255, 0, 255, 0]))
    ensures IpToBin(Dotted([255, 0, 255, 0])) == Repeat('1', 8) + Repeat('0', 8) + Repeat('1', 8) + Repeat('0', 8)
  {
    var b1, b0 := Repeat('1', 8), Repeat('0', 8);
    var z := b1 + b0 + b1 + b0;
    Pow2Of8();
    FromBaseRepeat('1', 8);
    FromBaseRepeat('0', 8);
    assert z[0..8] == b1 && z[8..16] == b0 && z[16..24] == b1 && z[24..32] == b0;
    DottedBits(z, [255, 0, 255, 0]);
  }

  /** Those bits have sixteen ones and are not the sixteen leading ones of
      the prefix 16. */
  lemma AlternatingOnes()
    ensures var z := Repeat('1', 8) + Repeat('0', 8) + Repeat('1', 8) + Repeat('0', 8);
            Count(z, '1') == 16 && z != Contiguous(16)
  {
    var b1, b0 := Repeat('1', 8), Repeat('0', 8);
    var z := b1 + b0 + b1 + b0;
    CountRepeat('1', 8, '1');
    CountRepeat('0', 8, '1');
    CountConcat(b1, b0, '1');
    CountConcat(b1 + b0, b1, '1');
    CountConcat(b1 + b0 + b1, b0, '1');
    assert z[8] == '0' != Contiguous(16)[8];
  }

  /** The mask `255.0.255.0` is not rejected: it gives the prefix 16, its
      text is kept as given, and the stored mask bits are sixteen leading
      ones, which no longer match the text. */
  lemma NonContiguousMask(ip: string)
    requires ValidaIp(ip) && Convertible(ip)
    ensures Modelled(ip, Some(Dotted([255, 0, 255, 0])), NoPrefix)
    ensures var c := Construct(ip, Some(Dotted([255, 0, 255, 0])), NoPrefix);
            && c.Success? && c.value.prefixo == 16
            && c.value.mascara == Dotted([255, 0, 255, 0])
            && c.value.mascaraBin == Contiguous(16)
            && c.value.mascaraBin != IpToBin(Dotted([255, 0, 255, 0]))
  {
    var m := Dotted([255, 0, 255, 0]);
    NonContiguousBits();
    AlternatingOnes();
    PrefixFromMask(ip, m, NoPrefix);
  }
}
