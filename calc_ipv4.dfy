/** The class `CalcIpv4`: an address with a mask or a prefix length, and
    the network address, broadcast address and address count they give. */
module Calc {
  import opened Wrappers
  import opened PyText
  import opened Bits
  import opened Ipv4Text

  /** The exceptions the constructor and the setters raise. */
  datatype Error =
    | InvalidIp          // ValueError('Ip inválido.')
    | InvalidMask        // ValueError('Máscara inválida.')
    | PrefixNotInteger   // TypeError('Prefixo precisa ser inteiro')
    | PrefixAbove32      // ValueError('O prefixo precisa ser abaixo de 32 bits')
    | MissingAttribute   // AttributeError: an attribute read before it was ever set

  /** The `prefixo` argument: `None`, an `int` (a `bool` is the int 0 or 1),
      or a value of any other type, which is falsy or truthy. */
  datatype PrefixArg = NoPrefix | IntPrefix(n: int) | NonIntPrefix(truthy: bool)

  /** `not valor` is false for the `prefixo` argument. */
  predicate IsTruthy(p: PrefixArg)
  {
    match p
    case NoPrefix => false
    case IntPrefix(n) => n != 0
    case NonIntPrefix(truthy) => truthy
  }

  /** `not valor` is false for the `mascara` argument: neither `None` nor `''`. */
  predicate MaskGiven(m: Option<string>)
  {
    m.Some? && m.value != ""
  }

  /** The arguments this model covers: a text that passes `_valida_ip` is
      one the conversions read as four octets, and a prefix is not negative. */
  predicate Modelled(ip: string, mascara: Option<string>, prefixo: PrefixArg)
  {
    && (ValidaIp(ip) ==> Convertible(ip))
    && (MaskGiven(mascara) && ValidaIp(mascara.value) ==> Convertible(mascara.value))
    && (prefixo.IntPrefix? ==> prefixo.n >= 0)
  }

  /** `(valor * '1').ljust(32, '0')`: the mask bits of a prefix length,
      `p` ones and then zeros. */
  function Contiguous(p: nat): (r: string)
    requires p <= 32
    ensures |r| == 32 && IsBits(r)
    ensures forall i | 0 <= i < 32 :: r[i] == if i < p then '1' else '0'
  {
    LJustPads(Repeat('1', p), 32, '0');
    LJust(Repeat('1', p), 32, '0')
  }

  /** The mask bits of a prefix length have exactly that many ones. */
  lemma ContiguousOnes(p: nat)
    requires p <= 32
    ensures Count(Contiguous(p), '1') == p
  {
    LJustPads(Repeat('1', p), 32, '0');
    CountConcat(Repeat('1', p), Repeat('0', 32 - p), '1');
    CountRepeat('1', p, '1');
    CountRepeat('0', 32 - p, '1');
  }

  /** `_ip_to_bin(mascara).count('1')`: the prefix a mask implies. */
  function Ones(mascara: string): (n: nat)
    requires Convertible(mascara)
    ensures n <= 32
  {
    Count(IpToBin(mascara), '1')
  }

  // ---------------------------------------------------------------------
  // The attributes of an object, and what each setter does to them

  /** The private attributes of a `CalcIpv4`; `None` is an attribute that
      was never assigned, which `hasattr` reports as missing. */
  datatype Attrs = Attrs(
    ip: Option<string>, ipBin: Option<string>,
    mascara: Option<string>, mascaraBin: Option<string>,
    prefixo: Option<int>,
    broadcastBin: Option<string>, broadcast: Option<string>,
    redeBin: Option<string>, rede: Option<string>)

  /** An object before `__init__` assigns anything. */
  const Blank := Attrs(None, None, None, None, None, None, None, None, None)

  /** The attributes after a setter, and the exception it raised, if any. */
  datatype Outcome = Outcome(attrs: Attrs, err: Option<Error>)

  /** `_ip` passed `_valida_ip` and `_ip_bin` holds its binary digits. */
  ghost predicate AddressKept(ip: Option<string>, ipBin: Option<string>)
  {
    && (ip.Some? <==> ipBin.Some?)
    && (ip.Some? ==> ValidaIp(ip.value) && Convertible(ip.value) && ipBin.value == IpToBin(ip.value))
  }

  /** `_mascara` passed `_valida_ip`; `_mascara_bin` is 32 binary digits. */
  ghost predicate MaskKept(mascara: Option<string>, mascaraBin: Option<string>)
  {
    && (mascara.Some? ==> ValidaIp(mascara.value) && Convertible(mascara.value))
    && (mascaraBin.Some? ==> |mascaraBin.value| == 32 && IsBits(mascaraBin.value))
  }

  /** A pair of binary and dotted attributes, such as `_rede_bin` and `_rede`. */
  ghost predicate BitsKept(bin: Option<string>, text: Option<string>)
  {
    && (bin.Some? <==> text.Some?)
    && (bin.Some? ==> |bin.value| == 32 && IsBits(bin.value) && text.value == BinToIp(bin.value))
  }

  /** What every setter keeps. */
  ghost predicate Kept(a: Attrs)
  {
    && AddressKept(a.ip, a.ipBin)
    && MaskKept(a.mascara, a.mascaraBin)
    && (a.prefixo.Some? ==> 1 <= a.prefixo.value <= 32)
    && BitsKept(a.broadcastBin, a.broadcast)
    && BitsKept(a.redeBin, a.rede)
  }

  /** The `ip` setter. */
  function IpSetter(a: Attrs, valor: string): (r: Outcome)
    requires Kept(a)
    requires ValidaIp(valor) ==> Convertible(valor)
    ensures Kept(r.attrs)
    ensures r.err.Some? <==> !ValidaIp(valor)
    ensures r.err.Some? ==> r.err == Some(InvalidIp) && r.attrs == a
    ensures r.err.None? ==> r.attrs.ip == Some(valor)
    ensures r.attrs.(ip := a.ip, ipBin := a.ipBin) == a
  {
    if !ValidaIp(valor) then Outcome(a, Some(InvalidIp))
    else Outcome(a.(ip := Some(valor), ipBin := Some(IpToBin(valor))), None)
  }

  /** The `mascara` setter. A mask given while no prefix is stored sets the
      prefix to the number of one bits of the mask, unless that is 0; a
      mask given while a prefix is stored leaves the prefix as it was, even
      when the two disagree. */
  function MaskSetter(a: Attrs, valor: Option<string>): (r: Outcome)
    requires Kept(a)
    requires MaskGiven(valor) && ValidaIp(valor.value) ==> Convertible(valor.value)
    ensures Kept(r.attrs)
    ensures r.err.Some? <==> MaskGiven(valor) && !ValidaIp(valor.value)
    ensures r.err.Some? || !MaskGiven(valor) ==> r.attrs == a
    ensures r.err.Some? ==> r.err == Some(InvalidMask)
    ensures r.attrs.(mascara := a.mascara, mascaraBin := a.mascaraBin, prefixo := a.prefixo) == a
    ensures MaskGiven(valor) && ValidaIp(valor.value) ==> r.attrs.mascara == valor
    ensures MaskGiven(valor) && ValidaIp(valor.value) && a.prefixo.Some? ==>
              r.attrs.prefixo == a.prefixo && r.attrs.mascaraBin == Some(IpToBin(valor.value))
    ensures MaskGiven(valor) && ValidaIp(valor.value) && a.prefixo.None? ==>
              var ones := Ones(valor.value);
              && r.attrs.prefixo == (if ones == 0 then None else Some(ones))
              && r.attrs.mascaraBin == Some(if ones == 0 then IpToBin(valor.value) else Contiguous(ones))
    decreases if a.prefixo.None? then 2 else 0
  {
    if !MaskGiven(valor) then Outcome(a, None)
    else if !ValidaIp(valor.value) then Outcome(a, Some(InvalidMask))
    else
      var b := a.(mascara := valor, mascaraBin := Some(IpToBin(valor.value)));
      if a.prefixo.None? then PrefixSetter(b, IntPrefix(Ones(valor.value)))
      else Outcome(b, None)
  }

  /** The `prefixo` setter. It always rewrites the mask bits, and sets the
      mask text from them only when no mask is stored. */
  function PrefixSetter(a: Attrs, valor: PrefixArg): (r: Outcome)
    requires Kept(a)
    requires valor.IntPrefix? ==> valor.n >= 0
    ensures Kept(r.attrs)
    ensures r.err == if IsTruthy(valor) && !valor.IntPrefix? then Some(PrefixNotInteger)
                     else if valor.IntPrefix? && valor.n > 32 then Some(PrefixAbove32)
                     else None
    ensures r.err.Some? || !IsTruthy(valor) ==> r.attrs == a
    ensures r.attrs.(mascara := a.mascara, mascaraBin := a.mascaraBin, prefixo := a.prefixo) == a
    ensures IsTruthy(valor) && r.err.None? ==>
              && r.attrs.prefixo == Some(valor.n)
              && r.attrs.mascaraBin == Some(Contiguous(valor.n))
              && r.attrs.mascara == if a.mascara.Some? then a.mascara else Some(BinToIp(Contiguous(valor.n)))
    decreases if a.mascara.None? then 1 else 0
  {
    if !IsTruthy(valor) then Outcome(a, None)
    else if !valor.IntPrefix? then Outcome(a, Some(PrefixNotInteger))
    else if valor.n > 32 then Outcome(a, Some(PrefixAbove32))
    else
      var bits := Contiguous(valor.n);
      var b := a.(prefixo := Some(valor.n), mascaraBin := Some(bits));
      if a.mascara.None? then
        BinToIpRoundTrip(bits);
        MaskSetter(b, Some(BinToIp(bits)))
      else Outcome(b, None)
  }

  /** `_set_broadcast`: the address's first `prefixo` bits, then ones. */
  function BroadcastSetter(a: Attrs): (r: Outcome)
    requires Kept(a)
    ensures Kept(r.attrs)
    ensures r.err.Some? <==> a.prefixo.None? || a.ipBin.None?
    ensures r.err.Some? ==> r.err == Some(MissingAttribute) && r.attrs == a
    ensures r.attrs.(broadcastBin := a.broadcastBin, broadcast := a.broadcast) == a
    ensures r.err.None? ==>
              && r.attrs.broadcastBin.Some?
              && var b := r.attrs.broadcastBin.value;
                 var p := a.prefixo.value;
                 b[..p] == a.ipBin.value[..p] && forall i | p <= i < 32 :: b[i] == '1'
  {
    if a.prefixo.None? || a.ipBin.None? then Outcome(a, Some(MissingAttribute))
    else
      var bin := FillAfter(a.ipBin.value, a.prefixo.value, '1');
      Outcome(a.(broadcastBin := Some(bin), broadcast := Some(BinToIp(bin))), None)
  }

  /** `_set_rede`: the address's first `prefixo` bits, then zeros. */
  function RedeSetter(a: Attrs): (r: Outcome)
    requires Kept(a)
    ensures Kept(r.attrs)
    ensures r.err.Some? <==> a.prefixo.None? || a.ipBin.None?
    ensures r.err.Some? ==> r.err == Some(MissingAttribute) && r.attrs == a
    ensures r.attrs.(redeBin := a.redeBin, rede := a.rede) == a
    ensures r.err.None? ==>
              && r.attrs.redeBin.Some?
              && var b := r.attrs.redeBin.value;
                 var p := a.prefixo.value;
                 b[..p] == a.ipBin.value[..p] && forall i | p <= i < 32 :: b[i] == '0'
  {
    if a.prefixo.None? || a.ipBin.None? then Outcome(a, Some(MissingAttribute))
    else
      var bin := FillAfter(a.ipBin.value, a.prefixo.value, '0');
      Outcome(a.(redeBin := Some(bin), rede := Some(BinToIp(bin))), None)
  }

  /** `__init__`: the three setters in order, then `_set_broadcast` and
      `_set_rede`, stopping at the first exception. */
  function Construction(ip: string, mascara: Option<string>, prefixo: PrefixArg): Outcome
    requires Modelled(ip, mascara, prefixo)
  {
    var s1 := IpSetter(Blank, ip);
    if s1.err.Some? then s1 else
    var s2 := MaskSetter(s1.attrs, mascara);
    if s2.err.Some? then s2 else
    var s3 := PrefixSetter(s2.attrs, prefixo);
    if s3.err.Some? then s3 else
    var s4 := BroadcastSetter(s3.attrs);
    if s4.err.Some? then s4 else
    RedeSetter(s4.attrs)
  }

  // ---------------------------------------------------------------------
  // What construction ends with, stated directly

  /** Every attribute a successful construction leaves set. */
  datatype Subnet = Subnet(
    ip: string, ipBin: string,
    mascara: string, mascaraBin: string,
    prefixo: nat,
    broadcastBin: string, broadcast: string,
    redeBin: string, rede: string)

  /** The attributes of an object holding `s`. */
  function Filled(s: Subnet): Attrs
  {
    Attrs(Some(s.ip), Some(s.ipBin), Some(s.mascara), Some(s.mascaraBin), Some(s.prefixo as int),
          Some(s.broadcastBin), Some(s.broadcast), Some(s.redeBin), Some(s.rede))
  }

  /** The outcome of `CalcIpv4(ip, mascara, prefixo)`, described without
      the setters: the first exception in the order the setters raise them, or
      the subnet. An explicit prefix wins over the one a mask implies; the
      mask text is kept as given; with neither, no prefix is ever stored. */
  function Construct(ip: string, mascara: Option<string>, prefixo: PrefixArg): Result<Subnet, Error>
    requires Modelled(ip, mascara, prefixo)
  {
    if !ValidaIp(ip) then Failure(InvalidIp)
    else if MaskGiven(mascara) && !ValidaIp(mascara.value) then Failure(InvalidMask)
    else if IsTruthy(prefixo) && !prefixo.IntPrefix? then Failure(PrefixNotInteger)
    else if prefixo.IntPrefix? && prefixo.n > 32 then Failure(PrefixAbove32)
    else
      var p := if IsTruthy(prefixo) then prefixo.n
               else if MaskGiven(mascara) then Ones(mascara.value)
               else 0;
      if p == 0 then Failure(MissingAttribute)
      else
        var ipBin := IpToBin(ip);
        var maskBin := Contiguous(p);
        var mask := if MaskGiven(mascara) then mascara.value else BinToIp(maskBin);
        var bcast := FillAfter(ipBin, p, '1');
        var net := FillAfter(ipBin, p, '0');
        Success(Subnet(ip, ipBin, mask, maskBin, p, bcast, BinToIp(bcast), net, BinToIp(net)))
  }

  /** Running the setters as `__init__` does ends exactly as `Construct`
      says. */
  lemma ConstructionMatches(ip: string, mascara: Option<string>, prefixo: PrefixArg)
    requires Modelled(ip, mascara, prefixo)
    ensures var c := Construct(ip, mascara, prefixo);
            var o := Construction(ip, mascara, prefixo);
            && (c.Failure? ==> o.err == Some(c.error))
            && (c.Success? ==> o.err.None? && o.attrs == Filled(c.value))
  {
  }

  /** The addresses from the network address to the broadcast address
      number `2 ** (32 - p)`. */
  lemma BlockSize(ipBin: string, p: nat)
    requires p <= 32
    requires |ipBin| == 32 && IsBits(ipBin)
    ensures Pow2(32 - p) == FromBase(FillAfter(ipBin, p, '1'), 2) - FromBase(FillAfter(ipBin, p, '0'), 2) + 1
  {
    BlockBounds(ipBin, p, ipBin);
  }

  // ---------------------------------------------------------------------
  // The class

  /** `CalcIpv4`: each private attribute is a field, `None` until assigned. */
  class CalcIpv4 {
    var ip: Option<string>
    var ipBin: Option<string>
    var mascara: Option<string>
    var mascaraBin: Option<string>
    var prefixo: Option<int>
    var broadcastBin: Option<string>
    var broadcast: Option<string>
    var redeBin: Option<string>
    var rede: Option<string>

    /** The attributes as a value. */
    ghost function State(): Attrs
      reads this
    {
      Attrs(ip, ipBin, mascara, mascaraBin, prefixo, broadcastBin, broadcast, redeBin, rede)
    }

    ghost predicate Valid()
      reads this
    {
      Kept(State())
    }

    /** The `ip` property. */
    function Ip(): (r: Result<string, Error>)
      reads this
      requires Valid()
      ensures r.Failure? <==> ip.None?
      ensures r.Failure? ==> r.error == MissingAttribute
      ensures r.Success? ==> ValidaIp(r.value) && Convertible(r.value) && IpToBin(r.value) == ipBin.value
    {
      if ip.None? then Failure(MissingAttribute) else Success(ip.value)
    }

    /** The `mascara` property. */
    function Mascara(): (r: Result<string, Error>)
      reads this
      requires Valid()
      ensures r.Failure? <==> mascara.None?
      ensures r.Failure? ==> r.error == MissingAttribute
      ensures r.Success? ==> ValidaIp(r.value) && Convertible(r.value)
    {
      if mascara.None? then Failure(MissingAttribute) else Success(mascara.value)
    }

    /** The `prefixo` property. */
    function Prefixo(): (r: Result<int, Error>)
      reads this
      requires Valid()
      ensures r.Failure? <==> prefixo.None?
      ensures r.Failure? ==> r.error == MissingAttribute
      ensures r.Success? ==> 1 <= r.value <= 32
    {
      if prefixo.None? then Failure(MissingAttribute) else Success(prefixo.value)
    }

    /** The `rede` property: the network address, whose dotted text
        converts back to the network bits. */
    function Rede(): (r: Result<string, Error>)
      reads this
      requires Valid()
      ensures r.Failure? <==> rede.None?
      ensures r.Failure? ==> r.error == MissingAttribute
      ensures r.Success? ==> ValidaIp(r.value) && Convertible(r.value) && IpToBin(r.value) == redeBin.value
    {
      if rede.None? then Failure(MissingAttribute)
      else
        BinToIpRoundTrip(redeBin.value);
        Success(rede.value)
    }

    /** The `broadcast` property: the broadcast address, whose dotted text
        converts back to the broadcast bits. */
    function Broadcast(): (r: Result<string, Error>)
      reads this
      requires Valid()
      ensures r.Failure? <==> broadcast.None?
      ensures r.Failure? ==> r.error == MissingAttribute
      ensures r.Success? ==> ValidaIp(r.value) && Convertible(r.value) && IpToBin(r.value) == broadcastBin.value
    {
      if broadcast.None? then Failure(MissingAttribute)
      else
        BinToIpRoundTrip(broadcastBin.value);
        Success(broadcast.value)
    }

    /** The `numero_ips` property, `_get_numero_ips`: the number of
        addresses that share the first `prefixo` bits of the address. */
    function NumeroIps(): (r: Result<nat, Error>)
      reads this
      requires Valid()
      ensures r.Failure? <==> prefixo.None?
      ensures r.Failure? ==> r.error == MissingAttribute
      ensures r.Success? && ipBin.Some? ==>
                var p := prefixo.value;
                r.value == FromBase(FillAfter(ipBin.value, p, '1'), 2) - FromBase(FillAfter(ipBin.value, p, '0'), 2) + 1
    {
      if prefixo.None? then Failure(MissingAttribute)
      else if ipBin.None? then Success(Pow2(32 - prefixo.value))
      else
        BlockSize(ipBin.value, prefixo.value);
        Success(Pow2(32 - prefixo.value))
    }

    /** The object before `__init__` runs. */
    constructor ()
      ensures State() == Blank && Valid()
    {
      ip, ipBin, mascara, mascaraBin, prefixo := None, None, None, None, None;
      broadcastBin, broadcast, redeBin, rede := None, None, None, None;
    }

    /** `__init__`. */
    method Init(ipArg: string, mascaraArg: Option<string>, prefixoArg: PrefixArg) returns (err: Option<Error>)
      requires State() == Blank
      requires Modelled(ipArg, mascaraArg, prefixoArg)
      modifies this
      ensures Outcome(State(), err) == Construction(ipArg, mascaraArg, prefixoArg)
      ensures Valid()
      ensures var c := Construct(ipArg, mascaraArg, prefixoArg);
              && (c.Failure? ==> err == Some(c.error))
              && (c.Success? ==> err.None? && State() == Filled(c.value))
    {
      ConstructionMatches(ipArg, mascaraArg, prefixoArg);
      err := SetIp(ipArg);
      if err.Some? {
        return;
      }
      err := SetMascara(mascaraArg);
      if err.Some? {
        return;
      }
      err := SetPrefixo(prefixoArg);
      if err.Some? {
        return;
      }
      var b := SetBroadcast();
      if b.Failure? {
        return Some(b.error);
      }
      var n := SetRede();
      err := if n.Failure? then Some(n.error) else None;
    }

    /** The `ip` setter. */
    method SetIp(valor: string) returns (err: Option<Error>)
      requires Valid()
      requires ValidaIp(valor) ==> Convertible(valor)
      modifies this`ip, this`ipBin
      ensures Outcome(State(), err) == IpSetter(old(State()), valor)
      ensures Valid()
    {
      if !ValidaIp(valor) {
        return Some(InvalidIp);
      }
      ip := Some(valor);
      ipBin := Some(IpToBin(valor));
      err := None;
    }

    /** The `mascara` setter. */
    method SetMascara(valor: Option<string>) returns (err: Option<Error>)
      requires Valid()
      requires MaskGiven(valor) && ValidaIp(valor.value) ==> Convertible(valor.value)
      modifies this`mascara, this`mascaraBin, this`prefixo
      decreases if prefixo.None? then 2 else 0
      ensures Outcome(State(), err) == MaskSetter(old(State()), valor)
      ensures Valid()
    {
      if !MaskGiven(valor) {
        return None;
      }
      if !ValidaIp(valor.value) {
        return Some(InvalidMask);
      }
      mascara := valor;
      mascaraBin := Some(IpToBin(valor.value));
      err := None;
      if prefixo.None? {
        err := SetPrefixo(IntPrefix(Count(mascaraBin.value, '1')));
      }
    }

    /** The `prefixo` setter. */
    method SetPrefixo(valor: PrefixArg) returns (err: Option<Error>)
      requires Valid()
      requires valor.IntPrefix? ==> valor.n >= 0
      modifies this`mascara, this`mascaraBin, this`prefixo
      decreases if mascara.None? then 1 else 0
      ensures Outcome(State(), err) == PrefixSetter(old(State()), valor)
      ensures Valid()
    {
      if !IsTruthy(valor) {
        return None;
      }
      if !valor.IntPrefix? {
        return Some(PrefixNotInteger);
      }
      if valor.n > 32 {
        return Some(PrefixAbove32);
      }
      prefixo := Some(valor.n);
      mascaraBin := Some(Contiguous(valor.n));
      err := None;
      if mascara.None? {
        BinToIpRoundTrip(mascaraBin.value);
        err := SetMascara(Some(BinToIp(mascaraBin.value)));
      }
    }

    /** `_set_broadcast`, which also returns the broadcast address. */
    method SetBroadcast() returns (r: Result<string, Error>)
      requires Valid()
      modifies this`broadcastBin, this`broadcast
      ensures Outcome(State(), if r.Failure? then Some(r.error) else None) == BroadcastSetter(old(State()))
      ensures r.Success? ==> broadcast == Some(r.value)
      ensures Valid()
    {
      if prefixo.None? || ipBin.None? {
        return Failure(MissingAttribute);
      }
      var hostBits := 32 - prefixo.value;
      broadcastBin := Some(ipBin.value[..prefixo.value] + Repeat('1', hostBits));
      broadcast := Some(BinToIp(broadcastBin.value));
      r := Success(broadcast.value);
    }

    /** `_set_rede`, which also returns the network address. */
    method SetRede() returns (r: Result<string, Error>)
      requires Valid()
      modifies this`redeBin, this`rede
      ensures Outcome(State(), if r.Failure? then Some(r.error) else None) == RedeSetter(old(State()))
      ensures r.Success? ==> rede == Some(r.value)
      ensures Valid()
    {
      if prefixo.None? || ipBin.None? {
        return Failure(MissingAttribute);
      }
      var hostBits := 32 - prefixo.value;
      redeBin := Some(ipBin.value[..prefixo.value] + Repeat('0', hostBits));
      rede := Some(BinToIp(redeBin.value));
      r := Success(rede.value);
    }
  }

  /** `CalcIpv4(ip, mascara, prefixo)`: a new object, or the exception. */
  method New(ip: string, mascara: Option<string>, prefixo: PrefixArg) returns (r: Result<CalcIpv4, Error>)
    requires Modelled(ip, mascara, prefixo)
    ensures var c := Construct(ip, mascara, prefixo);
            && (c.Failure? ==> r == Failure(c.error))
            && (c.Success? ==> r.Success? && fresh(r.value) && r.value.Valid() && r.value.State() == Filled(c.value))
  {
    var o := new CalcIpv4();
    var err := o.Init(ip, mascara, prefixo);
    if err.Some? {
      return Failure(err.value);
    }
    return Success(o);
  }
}
