# CalcIpv4 in Dafny

A model of the class `CalcIpv4` (`classes/calcipv4.py`), which takes an
IPv4 address with a mask, a prefix length or both, and derives the network
address, the broadcast address and the number of addresses in the block.

The model has seven modules:

- `Wrappers` (`wrappers.dfy`): `Option` and `Result`.
- `PyText` (`py_text.dfy`): the Python string and integer operations the
  class uses. These are `str.split`, `str.join`, `str.zfill`, `str.ljust`,
  `str.count`, `c * n`, `bin(int(x))[2:]`, `int(x, 2)` and `str(n)`.
- `Bits` (`bits.dfy`): fixed-width binary texts and their values, and the
  block of addresses that share their first `p` bits.
- `Ipv4Text` (`ipv4_text.dfy`): the three static helpers.
  - `_valida_ip` is `ValidaIp`. Its pattern is stated directly as a
    predicate. The unescaped `.` matches any character except a line feed,
    and `$` also matches just before a final line feed.
  - `_ip_to_bin` is `IpToBin`.
  - `_bin_to_ip` is `BinToIp`.
- `Calc` (`calc_ipv4.dfy`): the class and its state.
  - Each setter is a function on the attribute values (`IpSetter`,
    `MaskSetter`, `PrefixSetter`, `BroadcastSetter`, `RedeSetter`). It
    returns the new attributes and the exception raised, if any.
  - The class `CalcIpv4` keeps the private attributes as `Option` fields.
    `None` is an attribute never assigned, which `hasattr` reports as
    missing.
  - Its setter methods (`SetIp`, `SetMascara`, `SetPrefixo`, `SetBroadcast`,
    `SetRede`) update the fields in place. Each is proved to end in the
    state its setter function gives from the old state.
  - `Init` is `__init__`. `Construct` describes its outcome without the
    setters: the first exception, or the complete subnet.
- `SubnetProperties` (`subnet_properties.dfy`): what a successful
  construction holds and which arguments make it fail.
- `WorkedCases` (`worked_cases.dfy`): two constructions worked through to
  their texts, `CalcIpv4(ip='10.0.0.5', prefixo=30)` and the call in
  `app.py`.

## Model

| member | source | states |
|---|---|---|
| PyText.Split | classes/calcipv4.py:96 | `split` returns at least one block, and no block contains the separator |
| PyText.SplitJoin | classes/calcipv4.py:96 | splitting blocks joined by a separator they do not contain gives the blocks back |
| PyText.SplitLength | classes/calcipv4.py:96 | `split` returns one more block than there are separators in the text |
| PyText.SplitSnoc | classes/calcipv4.py:96 | a character other than the separator appended to a text ends up at the end of the last block |
| PyText.Count | classes/calcipv4.py:69 | `count` is at most the length of the text |
| PyText.CountConcat | classes/calcipv4.py:69 | `count` over a concatenation is the sum of the counts |
| PyText.CountRepeat | classes/calcipv4.py:69 | `c * n` holds `n` copies of `c` and none of any other character |
| PyText.Repeat | classes/calcipv4.py:110 | `c * n` has length `n` and every character is `c` |
| PyText.ZFill | classes/calcipv4.py:97 | `zfill` returns at least `width` characters and never shortens the text |
| PyText.LJust | classes/calcipv4.py:80 | `ljust` returns at least `width` characters and never shortens the text |
| PyText.LJustPads | classes/calcipv4.py:80 | `ljust` appends exactly the missing number of fill characters |
| PyText.ToBase | classes/calcipv4.py:97 | `bin(n)[2:]` and `str(n)` are non-empty digit texts in their base |
| PyText.FromToBase | classes/calcipv4.py:104 | reading back the digits of `n` gives `n` |
| PyText.ToBaseLength | classes/calcipv4.py:97 | a number below `base ** w` has at most `w` digits |
| PyText.FromBaseBound | classes/calcipv4.py:104 | `w` digits read in a base are below `base ** w` |
| Bits.FixedWidth | classes/calcipv4.py:97 | the low `w` bits of a number, as exactly `w` binary digits |
| Bits.FromFixedWidth | classes/calcipv4.py:104 | `w` bits of a number below `2 ** w` read back as that number |
| Bits.FixedWidthOfValue | classes/calcipv4.py:104 | bits written back at their own width after reading give the same text |
| Bits.ValueInjective | classes/calcipv4.py:104 | two bit texts of one length with the same value are equal |
| Bits.ZFillBinary | classes/calcipv4.py:97 | `bin(n)[2:].zfill(w)` is the `w`-bit form of `n` for `n < 2 ** w` |
| Bits.FromBaseConcat | classes/calcipv4.py:104 | the value of concatenated bits is the shifted value of the first part plus the second part |
| Bits.FromBaseRepeat | classes/calcipv4.py:110 | `k` zeros are worth 0 and `k` ones `2 ** k - 1` |
| Bits.SplitValue | classes/calcipv4.py:110 | the value of bits splits at `p` into the high and low parts, and the low part is below `2 ** (len - p)` |
| Bits.FillAfter | classes/calcipv4.py:117 | `y[:p] + (len - p) * c` keeps the first `p` bits and has `c` everywhere after them |
| Bits.FillAfterValue | classes/calcipv4.py:110 | the value with the bits after `p` set to `c` is the high part shifted, plus 0 or all ones |
| Bits.BlockBounds | classes/calcipv4.py:107-119 | network value ≤ address value ≤ broadcast value; the block has `2 ** (32 - p)` members; an address is inside it iff it shares the first `p` bits |
| Ipv4Text.DottedIsValid | classes/calcipv4.py:86-91 | the canonical dotted form of four octets passes `_valida_ip` and converts |
| Ipv4Text.ValidConvertible | classes/calcipv4.py:86-98 | a text that passes `_valida_ip` converts iff its three separators are `.` and its groups are at most 255 |
| Ipv4Text.OtherSeparator | classes/calcipv4.py:96 | a separator other than `.` leaves `split('.')` with fewer than four blocks |
| Ipv4Text.NoRangeCheck | classes/calcipv4.py:86-91 | `999.1.1.1` passes `_valida_ip` but has no octet form |
| Ipv4Text.AnySeparator | classes/calcipv4.py:88 | `1a2b3c4` passes `_valida_ip` because `.` matches any character |
| Ipv4Text.NonDigitRejected | classes/calcipv4.py:86-91 | `abc.1.1.1` fails `_valida_ip` |
| Ipv4Text.FinalLineFeed | classes/calcipv4.py:88-98 | a final line feed passes `$` and `int()` ignores it: same octets and same bits as without it |
| Ipv4Text.Octets | classes/calcipv4.py:96-97 | the four numbers a convertible text stands for are each at most 255 |
| Ipv4Text.OctetBits | classes/calcipv4.py:97 | each block becomes 8 binary digits |
| Ipv4Text.OctetBitsFixed | classes/calcipv4.py:97 | `bin(int(x))[2:].zfill(8)` is the 8-bit form of the octet |
| Ipv4Text.BinaryBlocks | classes/calcipv4.py:97-98 | `n` blocks give `8 * n` binary digits |
| Ipv4Text.IpToBin | classes/calcipv4.py:95-98 | `_ip_to_bin` gives 32 binary digits |
| Ipv4Text.IpToBinBytes | classes/calcipv4.py:95-98 | byte `n` of `_ip_to_bin` is octet `n` in 8-bit binary |
| Ipv4Text.SameOctetsSameBits | classes/calcipv4.py:95-98 | `_ip_to_bin` depends only on the octets a text stands for |
| Ipv4Text.DecimalBlocks | classes/calcipv4.py:104 | 32 bits give four decimal blocks |
| Ipv4Text.BinToIpDotted | classes/calcipv4.py:102-105 | `_bin_to_ip` is the dotted form of the values of the four bytes |
| Ipv4Text.BinToIpOfBytes | classes/calcipv4.py:102-105 | bits whose bytes have the values `w` become the dotted form of `w` |
| Ipv4Text.BinToIpRoundTrip | classes/calcipv4.py:95-105 | the output of `_bin_to_ip` passes `_valida_ip`, converts, and `_ip_to_bin` gives the same bits back |
| Ipv4Text.DottedBits | classes/calcipv4.py:95-105 | the dotted form of the byte values of 32 bits converts back to those bits |
| Ipv4Text.ByteValue | classes/calcipv4.py:104 | 8 bits are worth at most 255 and are the 8-bit form of their value |
| Ipv4Text.IpToBinCanonical | classes/calcipv4.py:95-105 | `_bin_to_ip(_ip_to_bin(ip))` is the canonical dotted form of the octets of `ip` |
| Ipv4Text.DottedRoundTrip | classes/calcipv4.py:95-105 | for canonical dotted texts, `_bin_to_ip(_ip_to_bin(ip)) == ip` |
| Calc.Contiguous | classes/calcipv4.py:80 | `(p * '1').ljust(32, '0')`: bit `i` is `1` iff `i < p` |
| Calc.ContiguousOnes | classes/calcipv4.py:80 | the mask bits of prefix `p` hold exactly `p` ones |
| Calc.Ones | classes/calcipv4.py:69 | the ones of a mask number at most 32 |
| Calc.IpSetter | classes/calcipv4.py:49-55 | an invalid address raises and changes nothing; a valid one sets `_ip` and its bits; no other attribute changes; the invariant is kept |
| Calc.MaskSetter | classes/calcipv4.py:57-69 | a falsy mask is a no-op; an invalid one raises and changes nothing; a valid one is stored; with no prefix stored, the prefix becomes its number of ones (none if 0) with contiguous mask bits; with a prefix stored, the prefix stays and the mask bits are the mask's own |
| Calc.PrefixSetter | classes/calcipv4.py:71-82 | a falsy prefix is a no-op; a non-integer raises `TypeError`; above 32 raises `ValueError`; otherwise the prefix and contiguous mask bits are stored, and the mask text is derived only if none is stored |
| Calc.BroadcastSetter | classes/calcipv4.py:107-112 | with no prefix, raises `AttributeError` and changes nothing; otherwise the broadcast bits keep the address's first `prefixo` bits and are ones after them |
| Calc.RedeSetter | classes/calcipv4.py:114-119 | the same, with zeros after the first `prefixo` bits |
| Calc.ConstructionMatches | classes/calcipv4.py:17-22 | running the setters in `__init__` order fails with exactly the error `Construct` names, or ends with exactly its subnet |
| Calc.BlockSize | classes/calcipv4.py:121-123 | for 32 address bits, `2 ** (32 - p)` is the number of values from the network to the broadcast bits |
| Calc.CalcIpv4.Ip | classes/calcipv4.py:37-39 | missing attribute iff never set; a set address passes `_valida_ip` and its bits are stored |
| Calc.CalcIpv4.Mascara | classes/calcipv4.py:41-43 | missing attribute iff never set; a set mask passes `_valida_ip` and converts |
| Calc.CalcIpv4.Prefixo | classes/calcipv4.py:45-47 | missing attribute iff never set; a set prefix is in 1..32 |
| Calc.CalcIpv4.Rede | classes/calcipv4.py:25-27 | missing attribute iff never set; the network address passes `_valida_ip` and converts back to the network bits |
| Calc.CalcIpv4.Broadcast | classes/calcipv4.py:29-31 | missing attribute iff never set; the broadcast address passes `_valida_ip` and converts back to the broadcast bits |
| Calc.CalcIpv4.NumeroIps | classes/calcipv4.py:121-123 | missing attribute iff no prefix; the count is the number of values from the network to the broadcast bits of the stored address |
| Calc.CalcIpv4.constructor | classes/calcipv4.py:17 | a new object has no attribute set |
| Calc.CalcIpv4.Init | classes/calcipv4.py:17-22 | the state after `__init__` and its exception are those of the setter chain, which `Construct` describes |
| Calc.CalcIpv4.SetIp | classes/calcipv4.py:49-55 | the new fields are `IpSetter` of the old ones, and only `_ip` and `_ip_bin` may change |
| Calc.CalcIpv4.SetMascara | classes/calcipv4.py:57-69 | the new fields are `MaskSetter` of the old ones |
| Calc.CalcIpv4.SetPrefixo | classes/calcipv4.py:71-82 | the new fields are `PrefixSetter` of the old ones |
| Calc.CalcIpv4.SetBroadcast | classes/calcipv4.py:107-112 | the new fields are `BroadcastSetter` of the old ones, and the broadcast address is returned |
| Calc.CalcIpv4.SetRede | classes/calcipv4.py:114-119 | the new fields are `RedeSetter` of the old ones, and the network address is returned |
| Calc.New | classes/calcipv4.py:17-22 | `CalcIpv4(...)` raises the error `Construct` names, or returns a fresh object holding its subnet |
| SubnetProperties.SubnetBlock | classes/calcipv4.py:107-123 | network and broadcast share the address's first `prefixo` bits and then are all zeros and all ones; network ≤ address ≤ broadcast; they are `2 ** (32 - prefixo)` apart counting both; an address is between them iff it shares those bits |
| SubnetProperties.SubnetAddresses | classes/calcipv4.py:102-119 | the network and broadcast texts pass `_valida_ip` and convert back to their bits |
| SubnetProperties.PrefixFromMask | classes/calcipv4.py:57-69 | without a prefix, a valid mask with ones succeeds with prefix = its number of ones, its text kept and contiguous mask bits |
| SubnetProperties.MaskFromPrefix | classes/calcipv4.py:71-82 | a prefix alone gives the mask `_bin_to_ip` of its contiguous bits, which is valid, converts back, and has that many ones |
| SubnetProperties.ExplicitPrefixWins | classes/calcipv4.py:17-22 | with a valid mask and a prefix, the prefix argument is the stored prefix and the mask text is kept |
| SubnetProperties.MissingPrefix | classes/calcipv4.py:68-74 | without a truthy prefix, construction fails for a missing attribute iff no mask is given or it has no ones |
| SubnetProperties.ZeroMaskBits | classes/calcipv4.py:95-98 | `0.0.0.0` is valid, has 32 zero bits and no ones |
| SubnetProperties.ZeroMask | classes/calcipv4.py:68-74 | `0.0.0.0` as the only mask leaves no prefix and construction fails |
| SubnetProperties.FalsyIgnored | classes/calcipv4.py:60-61 | an empty mask and a falsy prefix act as absent arguments |
| SubnetProperties.CheckOrder | classes/calcipv4.py:17-20 | the address is checked first, then the mask, then the prefix type, then its bound |
| SubnetProperties.FillChunk | classes/calcipv4.py:110 | with a prefix of `k` bytes, byte `n` of the filled bits is the address byte before `k` and all fill after |
| SubnetProperties.FilledBytes | classes/calcipv4.py:110-111 | bits of the octets `o` filled after `k` bytes read as the first `k` octets followed by 0 or 255 |
| SubnetProperties.ByteAlignedFill | classes/calcipv4.py:110-111 | the same, from the address text |
| SubnetProperties.ByteAlignedSubnet | classes/calcipv4.py:107-119 | with a prefix of `k` whole octets, the network is the first `k` octets then zeros, and the broadcast the same then 255s |
| SubnetProperties.NonContiguousBits | classes/calcipv4.py:95-98 | `255.0.255.0` is valid and its bits alternate eight ones, eight zeros |
| SubnetProperties.AlternatingOnes | classes/calcipv4.py:69 | those bits hold sixteen ones and differ from the bits of prefix 16 |
| SubnetProperties.NonContiguousMask | classes/calcipv4.py:57-69 | the mask `255.0.255.0` is accepted with prefix 16; its text is kept and the stored mask bits no longer match it |
| WorkedCases.QuadBits | classes/calcipv4.py:86-105 | the dotted form of four octets passes `_valida_ip`, `_ip_to_bin` spells it byte by byte, and `_bin_to_ip` reads those bits back to it |
| WorkedCases.ByteFill | classes/calcipv4.py:110-117 | keeping the first `q` bits of a byte and filling the rest gives the first, resp. last, value of the block of `2 ** (8 - q)` values holding it |
| WorkedCases.LastByteFill | classes/calcipv4.py:110-117 | filling from bit `p >= 24` on leaves the first three bytes and fills the last one |
| WorkedCases.LastOctet | classes/calcipv4.py:107-119 | with a prefix of at least 24, the network and broadcast addresses keep the first three octets and take the filled last byte |
| WorkedCases.MaskAsFill | classes/calcipv4.py:80 | the mask bits of a prefix are all ones filled with zeros from the prefix on |
| WorkedCases.LastMaskOctet | classes/calcipv4.py:80-82 | the mask text of a prefix of at least 24 is `255.255.255.x`, `x` the filled byte of ones |
| WorkedCases.PrefixAlone | classes/calcipv4.py:17-22 | a prefix alone succeeds, with the mask `_bin_to_ip` of its bits and network and broadcast from the address bits |
| WorkedCases.MaskAlone | classes/calcipv4.py:17-22 | a mask with ones alone succeeds, with its text kept, its ones as prefix and network and broadcast from the address bits |
| WorkedCases.PrefixThirty | classes/calcipv4.py:17-22 | `10.0.0.5` with prefix 30 gives mask `255.255.255.252`, network `10.0.0.4`, broadcast `10.0.0.7` and 4 addresses |
| WorkedCases.MaskOfApp | classes/calcipv4.py:57-69 | `255.255.255.184` passes `_valida_ip` and has 28 ones |
| WorkedCases.AppCall | app.py:3 | `192.168.0.1` with mask `255.255.255.184` keeps that mask text and gives prefix 28, network `192.168.0.0`, broadcast `192.168.0.15` and 16 addresses |

## Left out

- The regular expression engine is not modelled. `ValidaIp` states the
  language of the pattern at `classes/calcipv4.py:88` directly.
- Arguments of other types are not modelled. The address and a given mask
  are texts. The prefix argument is `PrefixArg`: absent, an integer, or a
  value of another type that is truthy or falsy. `True` and `False` are the
  integers 1 and 0.
- The precondition `Modelled` excludes every address or mask text that
  passes `_valida_ip` but is not `Convertible`: one with a separator other
  than `.`, or with a group above 255. For these texts Python does one of
  three things.
  - It raises in `int()`: `1a2.3.4` splits into `1a2`, `3` and `4`.
  - It goes on with a bit string of another length: `999.1.1.1` gives 34
    bits, and `1234567` is one block of 21 bits.
  - It goes on with 32 bits that spell other octets: `1.2.34567` gives the
    bits of `1.2.135.7`.
  - `NoRangeCheck`, `AnySeparator`, `OtherSeparator` and `ValidConvertible`
    show which texts these are.
- Negative prefixes are excluded by `Modelled`. They pass both checks of the
  `prefixo` setter at lines 73-78. The slices at lines 110 and 117 then
  produce texts that are not 32 bits long.
- The call `self._ip_to_bin(valor)` at line 67 discards its result. It has
  no effect on the state and is not modelled.
- `app.py` builds one object and prints its properties. The printing is
  not part of this model; the call itself is `AppCall`.
- Behaviour of the code the model keeps on purpose:
  - A prefix argument given together with a mask overwrites the prefix the
    mask implies (`ExplicitPrefixWins`).
  - A prefix of 0 is falsy. It is never stored, so with no mask, or a mask
    without ones, construction fails (`MissingPrefix`). It does not give
    `2 ** 32` addresses.
  - `_bin_to_ip(_ip_to_bin(ip))` is the canonical spelling of the octets
    (`IpToBinCanonical`). It differs from `ip` when a group has leading
    zeros or the text ends with a line feed.
  - The pattern's `.` separators are not escaped (`AnySeparator`).
- If `__init__` raises, `Init` leaves the attributes the earlier setters
  assigned. In Python the half-built object is not returned to the caller,
  and `New` returns only the error.
