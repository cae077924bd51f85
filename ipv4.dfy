/**
 * IPv4 values as Python's `ipaddress` module treats them: an address is a
 * 32-bit number written as a dotted quad, a network is an address with a
 * CIDR prefix length (section 3.1 of RFC 4632).
 */
module Ipv4 {
  import opened Wrappers
  import opened PyText

  const Size: nat := 0x1_0000_0000

  type Addr = x: int | 0 <= x < 0x1_0000_0000
  type Prefix = p: int | 0 <= p <= 32

  /** An address with a prefix length; the address may have host bits set. */
  datatype Cidr = Cidr(address: Addr, prefix: Prefix)

  // ---------------------------------------------------------------------
  // Powers of two and blocks of addresses

  function Pow2(n: nat): (r: nat)
    ensures r >= 1
  {
    if n == 0 then 1 else 2 * Pow2(n - 1)
  }

  lemma {:induction false} Pow2Add(a: nat, b: nat)
    ensures Pow2(a + b) == Pow2(a) * Pow2(b)
  {
    if a > 0 {
      Pow2Add(a - 1, b);
    }
  }

  lemma Pow2Of32()
    ensures Pow2(8) == 256
    ensures Pow2(16) == 0x1_0000
    ensures Pow2(32) == Size
  {
    Pow2Add(8, 8);
    Pow2Add(16, 16);
  }

  /** The number of addresses in a network of prefix length `p`. */
  function Block(p: Prefix): (b: nat)
    ensures b >= 1
  {
    Pow2(32 - p)
  }

  lemma BlockFacts(p: Prefix)
    ensures Block(p) * Pow2(p) == Size
    ensures Block(p) <= Size
    ensures p <= 30 ==> Block(p) >= 4
    ensures p == 31 ==> Block(p) == 2
    ensures p == 32 ==> Block(p) == 1
  {
    Pow2Add(32 - p, p);
    Pow2Of32();
    if p <= 30 {
      Pow2Add(30 - p, 2);
    }
  }

  lemma MulMonotone(b: nat, x: int, y: int)
    requires x <= y
    ensures b * x <= b * y
  {
  }

  /** Euclidean division by a positive number has exactly one answer. */
  lemma DivModUnique(x: int, b: int, q: int, r: int)
    requires b > 0 && x == b * q + r && 0 <= r < b
    ensures x / b == q && x % b == r
  {
    var q', r' := x / b, x % b;
    assert x == b * q' + r';
    if q' < q {
      MulMonotone(b, q' + 1, q);
      assert false;
    } else if q' > q {
      MulMonotone(b, q + 1, q');
      assert false;
    }
  }

  // ---------------------------------------------------------------------
  // Masks, network and broadcast addresses

  /** Python's `netmask`: `ALL_ONES ^ (ALL_ONES >> p)`. */
  function Mask(p: Prefix): Addr {
    BlockFacts(p);
    Size - Block(p)
  }

  /** The 32-bit value whose top `p` bits are set, bit by bit. */
  function TopBits(p: Prefix): nat {
    if p == 0 then 0 else TopBits(p - 1) + Pow2(32 - p)
  }

  /** The netmask of a prefix is the value with exactly its top `p` bits set. */
  lemma {:induction false} MaskIsTopBits(p: Prefix)
    ensures Mask(p) == TopBits(p)
  {
    Pow2Of32();
    if p > 0 {
      MaskIsTopBits(p - 1);
      assert Pow2(33 - p) == 2 * Pow2(32 - p);
    }
  }

  /** `a` with its lowest `n` bits cleared, one bit at a time. */
  function ClearLow(a: nat, n: nat): (r: nat)
    ensures r <= a
  {
    if n == 0 then a else 2 * ClearLow(a / 2, n - 1)
  }

  /** Clearing the low `n` bits rounds down to a multiple of 2^n. */
  lemma {:induction false} ClearLowIsMod(a: nat, n: nat)
    ensures ClearLow(a, n) == a - a % Pow2(n)
  {
    if n > 0 {
      var P := Pow2(n - 1);
      ClearLowIsMod(a / 2, n - 1);
      HalveMod(a, P);
      assert Pow2(n) == 2 * P;
    }
  }

  /** The remainder modulo `2 * P` from the remainder of the half modulo `P` and the low bit. */
  lemma HalveMod(a: nat, P: nat)
    requires P > 0
    ensures a % (2 * P) == 2 * ((a / 2) % P) + a % 2
  {
    var q := a / 2;
    var s, t := q / P, q % P;
    assert q == P * s + t;
    assert a == 2 * q + a % 2;
    assert a == (2 * P) * s + (2 * t + a % 2);
    DivModUnique(a, 2 * P, s, 2 * t + a % 2);
  }

  /** The network address of `a` under prefix `p`: `a & netmask`. */
  function NetworkBase(a: Addr, p: Prefix): (base: Addr)
    ensures base <= a
  {
    ClearLow(a, 32 - p)
  }

  /** The network address is `a` rounded down to a multiple of the block size. */
  lemma NetworkBaseIsMod(a: Addr, p: Prefix)
    ensures NetworkBase(a, p) == a - a % Block(p)
  {
    ClearLowIsMod(a, 32 - p);
  }

  /** The start of the block of size `b` holding `a` is aligned and ends in range. */
  lemma AlignedBlock(a: int, b: int, m: int)
    requires b > 0 && m > 0 && 0 <= a < b * m
    ensures (a - a % b) % b == 0
    ensures a - a % b + b <= b * m
  {
    var q, r := a / b, a % b;
    assert a == b * q + r;
    DivModUnique(b * q, b, q, 0);
    assert a - r == b * q;
    if q >= m {
      MulMonotone(b, m, q);
      assert false;
    }
    MulMonotone(b, q + 1, m);
    assert b * (q + 1) == b * q + b;
  }

  lemma BaseBounds(a: Addr, p: Prefix)
    ensures NetworkBase(a, p) % Block(p) == 0
    ensures NetworkBase(a, p) + Block(p) <= Size
    ensures a < NetworkBase(a, p) + Block(p)
  {
    BlockFacts(p);
    NetworkBaseIsMod(a, p);
    AlignedBlock(a, Block(p), Pow2(p));
  }

  function Base(c: Cidr): Addr {
    NetworkBase(c.address, c.prefix)
  }

  /** Python's `broadcast_address`: the last address of the network. */
  function Broadcast(c: Cidr): (r: Addr)
    ensures Base(c) <= r && r - Base(c) == Block(c.prefix) - 1
  {
    BaseBounds(c.address, c.prefix);
    Base(c) + Block(c.prefix) - 1
  }

  /** Python's `x in network`: `x & netmask == network_address`. */
  predicate InNetwork(x: Addr, c: Cidr) {
    NetworkBase(x, c.prefix) == Base(c)
  }

  /** An address in the aligned block starting at `base` rounds down to `base`. */
  lemma SameBlock(x: int, base: int, b: int)
    requires b > 0 && base % b == 0 && base <= x < base + b
    ensures x - x % b == base
  {
    var k := base / b;
    assert base == b * k + base % b;
    DivModUnique(x, b, k, x - base);
  }

  /**
   * The broadcast address, `network_address | hostmask`, is the greatest
   * address of the network: it is in the network and no member exceeds it.
   */
  lemma BroadcastIsLast(c: Cidr)
    ensures InNetwork(Broadcast(c), c)
    ensures forall x: Addr :: InNetwork(x, c) ==> x <= Broadcast(c)
  {
    InNetworkRange(Broadcast(c), c);
    forall x: Addr | InNetwork(x, c)
      ensures x <= Broadcast(c)
    {
      InNetworkRange(x, c);
    }
  }

  /** Membership by mask is membership in the closed range network..broadcast. */
  lemma InNetworkRange(x: Addr, c: Cidr)
    ensures InNetwork(x, c) <==> Base(c) <= x <= Broadcast(c)
  {
    var b := Block(c.prefix);
    BaseBounds(c.address, c.prefix);
    BaseBounds(x, c.prefix);
    var base := Base(c);
    NetworkBaseIsMod(x, c.prefix);
    if Base(c) <= x <= Broadcast(c) {
      SameBlock(x, base, b);
    }
    if InNetwork(x, c) {
      assert x < NetworkBase(x, c.prefix) + b;
    }
  }

  // ---------------------------------------------------------------------
  // Usable hosts, as `IPv4Network.hosts()` lists them

  /** The integers lo, lo + 1, ..., hi in order. */
  function Range(lo: int, hi: int): (r: seq<int>)
    ensures |r| == if lo <= hi then hi - lo + 1 else 0
    decreases hi - lo
  {
    if lo > hi then [] else [lo] + Range(lo + 1, hi)
  }

  lemma {:induction false} InRange(lo: int, hi: int, x: int)
    ensures x in Range(lo, hi) <==> lo <= x <= hi
    decreases hi - lo
  {
    if lo <= hi {
      InRange(lo + 1, hi, x);
    }
  }

  lemma {:induction false} RangeSnoc(lo: int, hi: int)
    requires lo <= hi
    ensures Range(lo, hi) == Range(lo, hi - 1) + [hi]
    decreases hi - lo
  {
    if lo < hi {
      RangeSnoc(lo + 1, hi);
    }
  }

  /** The first usable host: the network address itself for /31 and /32. */
  function HostLo(c: Cidr): Addr {
    BlockFacts(c.prefix);
    BaseBounds(c.address, c.prefix);
    if c.prefix >= 31 then Base(c) else Base(c) + 1
  }

  /** The last usable host: the broadcast address itself for /31 and /32. */
  function HostHi(c: Cidr): (r: Addr)
    ensures HostLo(c) <= r
  {
    BlockFacts(c.prefix);
    if c.prefix >= 31 then Broadcast(c) else Broadcast(c) - 1
  }

  /** `IPv4Network.hosts()`: every address but network and broadcast, except
      that /31 lists both of its addresses and /32 its single one. */
  function Hosts(c: Cidr): seq<int> {
    Range(HostLo(c), HostHi(c))
  }

  // ---------------------------------------------------------------------
  // Dotted-quad text

  /** `_parse_octet`: 1 to 3 ASCII digits, no leading zero, at most 255. */
  function ParseOctet(t: string): (r: Option<nat>)
    ensures r.Some? ==> r.value < 256
  {
    if !AllDigits(t) || |t| > 3 || (|t| > 1 && t[0] == '0') then None
    else if DecimalValue(t) > 255 then None
    else Some(DecimalValue(t))
  }

  function FromOctets(a: nat, b: nat, c: nat, d: nat): nat {
    ((a * 256 + b) * 256 + c) * 256 + d
  }

  /** The four bytes of an address, most significant first. */
  function OctetsOf(x: Addr): (o: seq<nat>)
    ensures |o| == 4 && forall k :: 0 <= k < 4 ==> o[k] < 256
  {
    var q1 := x / 256;
    var q2 := q1 / 256;
    [q2 / 256, q2 % 256, q1 % 256, x % 256]
  }

  lemma OctetsRoundTrip(x: Addr)
    ensures var o := OctetsOf(x); FromOctets(o[0], o[1], o[2], o[3]) == x
  {
  }

  lemma OctetsOfFromOctets(a: nat, b: nat, c: nat, d: nat)
    requires a < 256 && b < 256 && c < 256 && d < 256
    ensures FromOctets(a, b, c, d) < Size
    ensures OctetsOf(FromOctets(a, b, c, d)) == [a, b, c, d]
  {
    var x := FromOctets(a, b, c, d);
    DivModUnique(x, 256, (a * 256 + b) * 256 + c, d);
    DivModUnique((a * 256 + b) * 256 + c, 256, a * 256 + b, c);
    DivModUnique(a * 256 + b, 256, a, b);
  }

  /** `IPv4Address(t)` on text: exactly four valid octets separated by dots. */
  function ParseAddress(t: string): (r: Option<Addr>)
  {
    var parts := Split(t, '.');
    if |parts| != 4 then None
    else
      match (ParseOctet(parts[0]), ParseOctet(parts[1]), ParseOctet(parts[2]), ParseOctet(parts[3]))
      case (Some(a), Some(b), Some(c), Some(d)) =>
        OctetsOfFromOctets(a, b, c, d);
        Some(FromOctets(a, b, c, d))
      case _ => None
  }

  /** `str(IPv4Address(x))`: the four bytes in decimal, joined by dots. */
  function FormatAddress(x: Addr): string {
    var o := OctetsOf(x);
    Join([DecimalText(o[0]), DecimalText(o[1]), DecimalText(o[2]), DecimalText(o[3])], '.')
  }

  lemma OctetRoundTrip(n: nat)
    requires n < 256
    ensures ParseOctet(DecimalText(n)) == Some(n)
  {
    DecimalRoundTrip(n);
  }

  lemma DigitsHaveNo(t: string, c: char)
    requires AllDigits(t) && !IsDigit(c)
    ensures c !in t
  {
  }

  /** Formatting an address and parsing the text gives the address back. */
  lemma AddressRoundTrip(x: Addr)
    ensures ParseAddress(FormatAddress(x)) == Some(x)
  {
    var o := OctetsOf(x);
    var parts := [DecimalText(o[0]), DecimalText(o[1]), DecimalText(o[2]), DecimalText(o[3])];
    forall k | 0 <= k < 4
      ensures '.' !in parts[k] && ParseOctet(parts[k]) == Some(o[k])
    {
      DigitsHaveNo(parts[k], '.');
      OctetRoundTrip(o[k]);
    }
    SplitJoin(parts, '.');
    OctetsRoundTrip(x);
  }

  /** Every text the parser accepts is the canonical text of its address. */
  lemma AddressCanonical(t: string)
    requires ParseAddress(t).Some?
    ensures FormatAddress(ParseAddress(t).value) == t
  {
    var parts := Split(t, '.');
    var o := [ParseOctet(parts[0]).value, ParseOctet(parts[1]).value,
              ParseOctet(parts[2]).value, ParseOctet(parts[3]).value];
    OctetsOfFromOctets(o[0], o[1], o[2], o[3]);
    forall k | 0 <= k < 4
      ensures DecimalText(o[k]) == parts[k]
    {
      DecimalCanonical(parts[k]);
    }
    var texts := [DecimalText(o[0]), DecimalText(o[1]), DecimalText(o[2]), DecimalText(o[3])];
    assert texts == parts;
    JoinSplit(t, '.');
  }

  lemma AddressHasNo(x: Addr, c: char)
    requires !IsDigit(c) && c != '.'
    ensures c !in FormatAddress(x)
  {
    var o := OctetsOf(x);
    var parts := [DecimalText(o[0]), DecimalText(o[1]), DecimalText(o[2]), DecimalText(o[3])];
    forall k | 0 <= k < 4
      ensures c !in parts[k]
    {
      DigitsHaveNo(parts[k], c);
    }
    JoinHasNo(parts, '.', c);
  }

  // ---------------------------------------------------------------------
  // Prefix lengths and networks written as text

  /** The complement of a 32-bit value: `m ^ ALL_ONES`. */
  function Complement(m: Addr): Addr {
    Size - 1 - m
  }

  /** The prefix length whose netmask is `m`, searched from `from` upwards. */
  function PrefixOfMask(m: Addr, from: Prefix): (r: Option<Prefix>)
    ensures r.Some? ==> from <= r.value && Mask(r.value) == m
    decreases 32 - from
  {
    if Mask(from) == m then Some(from)
    else if from == 32 then None
    else PrefixOfMask(m, from + 1)
  }

  /** The search finds a prefix exactly when one from `from` up has netmask `m`. */
  lemma {:induction false} PrefixOfMaskComplete(m: Addr, from: Prefix)
    ensures PrefixOfMask(m, from).None? <==> forall q: Prefix :: from <= q ==> Mask(q) != m
    decreases 32 - from
  {
    if Mask(from) != m && from < 32 {
      PrefixOfMaskComplete(m, from + 1);
    }
  }

  /**
   * `_make_netmask` on the text after the slash: a decimal prefix length up
   * to 32, or else a dotted netmask, or else a dotted hostmask.
   */
  function ParsePrefix(t: string): (r: Option<Prefix>)
  {
    if AllDigits(t) then
      var v := DecimalValue(t);
      if v <= 32 then Some(v) else None
    else
      match ParseAddress(t)
      case None => None
      case Some(m) =>
        match PrefixOfMask(m, 0)
        case Some(p) => Some(p)
        case None => PrefixOfMask(Complement(m), 0)
  }

  /**
   * `IPv4Interface(t)`, and `IPv4Network(t, strict=False)`: an address, then
   * optionally one slash and a prefix; without a slash the prefix is 32.
   */
  function ParseCidr(t: string): (r: Option<Cidr>)
  {
    var parts := Split(t, '/');
    if |parts| > 2 then None
    else
      var a :- ParseAddress(parts[0]);
      var p :- if |parts| == 1 then Some(32) else ParsePrefix(parts[1]);
      Some(Cidr(a, p))
  }

  /** `IPv4Network(t)`: as ParseCidr, but host bits must be clear. */
  function ParseNetwork(t: string): (r: Option<Cidr>)
    ensures r.Some? ==> r.value.address == Base(r.value)
  {
    var c :- ParseCidr(t);
    if c.address != Base(c) then None else Some(c)
  }

  /** `str(IPv4Interface)`: the address, a slash and the prefix length. */
  function FormatCidr(c: Cidr): string {
    FormatAddress(c.address) + "/" + DecimalText(c.prefix)
  }

  /** Formatting an address with a prefix and parsing the text gives it back. */
  lemma CidrRoundTrip(c: Cidr)
    ensures ParseCidr(FormatCidr(c)) == Some(c)
  {
    var a, d := FormatAddress(c.address), DecimalText(c.prefix);
    AddressHasNo(c.address, '/');
    DigitsHaveNo(d, '/');
    SplitAfterPiece(a, '/', d);
    SplitNoSeparator(d, '/');
    assert FormatCidr(c) == a + ['/'] + d;
    AddressRoundTrip(c.address);
    DecimalRoundTrip(c.prefix);
  }

  /** The address text before the slash of a formatted CIDR. */
  lemma CidrAddressText(c: Cidr)
    ensures Take(FormatCidr(c), Find(FormatCidr(c), "/")) == FormatAddress(c.address)
  {
    AddressHasNo(c.address, '/');
    var a := FormatAddress(c.address);
    FindAfterPrefix(a, '/', DecimalText(c.prefix));
    assert FormatCidr(c) == a + ['/'] + DecimalText(c.prefix);
  }

  // ---------------------------------------------------------------------
  // calculate_subnet_mask

  /**
   * `ipaddress.ip_interface(t).netmask.compressed`: the dotted netmask of the
   * prefix; text that is not an IPv4 interface raises ValueError.
   */
  function SubnetMask(t: string): (r: Result<string>)
  {
    match ParseCidr(t)
    case None => Raised(ValueError)
    case Some(c) => Ok(FormatAddress(Mask(c.prefix)))
  }

  /**
   * The subnet mask of `a/p` is the dotted quad of the value with the top `p`
   * bits set, whatever host bits `a` carries.
   */
  lemma SubnetMaskOfPrefix(a: Addr, p: Prefix)
    ensures TopBits(p) < Size
    ensures SubnetMask(FormatCidr(Cidr(a, p))) == Ok(FormatAddress(TopBits(p)))
    ensures ParseAddress(SubnetMask(FormatCidr(Cidr(a, p))).value) == Some(TopBits(p))
  {
    CidrRoundTrip(Cidr(a, p));
    MaskIsTopBits(p);
    AddressRoundTrip(Mask(p));
  }

  /** A text without a slash is a /32 interface, whose mask is all ones. */
  lemma SubnetMaskWithoutSlash(t: string)
    requires '/' !in t && ParseAddress(t).Some?
    ensures SubnetMask(t) == Ok(FormatAddress(Size - 1))
  {
    SplitNoSeparator(t, '/');
    assert ParseCidr(t) == Some(Cidr(ParseAddress(t).value, 32));
    BlockFacts(32);
    assert Mask(32) == Size - 1;
  }

  // ---------------------------------------------------------------------
  // get_next_ip_address

  /**
   * What `get_next_ip_address` returns: the text of the first host of the
   * strict network `t`, or None when `t` is not one.
   */
  function FirstHost(t: string): Option<string> {
    match ParseNetwork(t)
    case None => None
    case Some(c) => Some(FormatAddress(Hosts(c)[0]))
  }

  /** `for host in network.hosts(): hosts.append(host)`. */
  method CollectHosts(c: Cidr) returns (hosts: seq<int>)
    ensures hosts == Hosts(c)
  {
    var lo: int, hi: int := HostLo(c), HostHi(c);
    hosts := [];
    var h: int := lo;
    while h <= hi
      invariant lo <= h <= hi + 1
      invariant hosts == Range(lo, h - 1)
    {
      RangeSnoc(lo, h);
      hosts := hosts + [h];
      h := h + 1;
    }
  }

  /**
   * `Interface.get_next_ip_address`: collect the hosts of the strict network
   * and answer the text of the first; a ValueError gives None.
   */
  method NextIpAddress(t: string) returns (r: Option<string>)
    ensures r == FirstHost(t)
  {
    var parsed := ParseNetwork(t);
    if parsed.None? {
      return None;
    }
    var hosts := CollectHosts(parsed.value);
    assert hosts[0] == HostLo(parsed.value);
    return Some(FormatAddress(hosts[0]));
  }

  /** The first host is None exactly for text with host bits set or that is no network. */
  lemma FirstHostNone(t: string)
    ensures FirstHost(t).None? <==>
              ParseCidr(t).None? || ParseCidr(t).value.address != Base(ParseCidr(t).value)
  {
  }

  /**
   * For a network without host bits the first host is the network address + 1,
   * or the network address itself for /31 and /32.
   */
  lemma FirstHostOf(t: string, c: Cidr)
    requires ParseCidr(t) == Some(c) && c.address == Base(c)
    ensures c.prefix <= 30 ==> c.address + 1 < Size
    ensures c.prefix <= 30 ==> FirstHost(t) == Some(FormatAddress(c.address + 1))
    ensures c.prefix >= 31 ==> FirstHost(t) == Some(FormatAddress(c.address))
  {
    assert ParseNetwork(t) == Some(c);
    FirstHostIsLow(t, c);
    HostLoOfNetwork(c);
    if c.prefix <= 30 {
      assert FirstHost(t) == Some(FormatAddress(HostLo(c)));
    }
  }

  /** The low end of the host range of a network address. */
  lemma HostLoOfNetwork(c: Cidr)
    requires c.address == Base(c)
    ensures c.prefix <= 30 ==> c.address + 1 < Size && HostLo(c) == c.address + 1
    ensures c.prefix >= 31 ==> HostLo(c) == c.address
  {
    BlockFacts(c.prefix);
    BaseBounds(c.address, c.prefix);
  }

  /** The first host listed is the low end of the host range. */
  lemma FirstHostIsLow(t: string, c: Cidr)
    requires ParseNetwork(t) == Some(c)
    ensures FirstHost(t) == Some(FormatAddress(HostLo(c)))
  {
    assert Hosts(c)[0] == HostLo(c);
  }
}
