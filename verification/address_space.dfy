/** Addresses and networks as the backend receives them from netaddr:
    an address is a family plus an unsigned integer, and an `IpNetwork` is
    netaddr's `IPNetwork` — an address together with a prefix length, whose
    host bits may be set (then `ip` is the interface address and `First()`
    is `.network`). */
module AddressSpace {
  import opened Wrappers

  datatype Family = V4 | V6

  /** Number of bits in an address of the family. */
  function Width(f: Family): nat
  {
    match f
    case V4 => 32
    case V6 => 128
  }

  function Pow2(k: nat): (r: nat)
    ensures r >= 1
  {
    if k == 0 then 1 else 2 * Pow2(k - 1)
  }

  datatype Address = Address(family: Family, value: nat)

  /** netaddr's `AddrFormatError`: an integer outside the 128-bit address
      space, or a prefix length longer than the parsed address's family. */
  datatype FormatError =
    | BadAddress(value: nat)
    | BadPrefix(value: nat, prefix: nat)

  /** The family netaddr picks for `IPAddress(n)` given a bare integer:
      IPv4 when `n` fits in 32 bits, IPv6 otherwise. */
  function FamilyOfInt(v: nat): Family
  {
    if v < Pow2(32) then V4 else V6
  }

  /** `IPAddress(int(column))`: the address an integer column decodes to.
      It fails above the IPv6 space; otherwise it keeps the integer, which
      then fits its family, and the family is IPv4 exactly below 2^32. */
  function AddressOfInt(v: nat): (r: Result<Address, FormatError>)
    ensures r.Success? <==> v < Pow2(128)
    ensures r.Failure? ==> r.error == BadAddress(v)
    ensures r.Success? ==> r.value.value == v && r.value.value < Pow2(Width(r.value.family))
    ensures r.Success? ==> (r.value.family == V4 <==> v < Pow2(32))
  {
    if v < Pow2(128) then Success(Address(FamilyOfInt(v), v)) else Failure(BadAddress(v))
  }

  /** `int(a)` followed by `IPAddress(...)` gives `a` back exactly when `a`
      is in the form netaddr would choose for its integer: IPv4 below 2^32,
      IPv6 at or above it. An IPv6 address below 2^32 comes back as IPv4. */
  lemma IntRoundTrip(a: Address)
    ensures AddressOfInt(a.value) == Success(a) <==>
      a.value < Pow2(Width(a.family)) && (a.family == V4 <==> a.value < Pow2(32))
  {
    WidthBounds(a.family);
  }

  /** `IPNetwork("%s/%s" % (IPAddress(v), prefix))`: the address is decoded
      and printed, so the text is a dotted quad below 2^32, and the prefix
      must fit the family that text parses as. */
  function NetworkOfInt(v: nat, prefix: nat): (r: Result<IpNetwork, FormatError>)
    ensures r.Success? <==> v < Pow2(128) && prefix <= Width(FamilyOfInt(v))
    ensures v >= Pow2(128) ==> r == Failure(BadAddress(v))
    ensures v < Pow2(128) && r.Failure? ==> r.error == BadPrefix(v, prefix)
    ensures r.Success? ==>
      r.value.Valid() && r.value.family == FamilyOfInt(v) && r.value.ip == v && r.value.prefix == prefix
  {
    match AddressOfInt(v)
    case Failure(e) => Failure(e)
    case Success(a) =>
      if prefix <= Width(a.family) then Success(IpNetwork(a.family, v, prefix))
      else Failure(BadPrefix(v, prefix))
  }

  datatype IpNetwork = IpNetwork(family: Family, ip: nat, prefix: nat) {

    /** What netaddr guarantees of every `IPNetwork` it builds. */
    predicate Valid()
    {
      prefix <= Width(family) && ip < Pow2(Width(family))
    }

    /** Number of addresses in the network, `2^(width - prefix)`. */
    function Size(): nat
      requires Valid()
    {
      Pow2(Width(family) - prefix)
    }

    /** The network address (`int(subnet.network)`): `ip` with its host bits cleared. */
    function First(): nat
      requires Valid()
    {
      var s := Size();
      ModAtMost(ip, s);
      ip - ip % s
    }

    /** The last address of the network (the broadcast address for IPv4). */
    function Last(): nat
      requires Valid()
    {
      First() + Size() - 1
    }

    /** Lowest usable host. The network address is reserved in networks of
        four or more addresses. netaddr's `iter_hosts` also skips it in every
        IPv6 network (the Subnet-Router anycast address of section 2.6.1 of
        RFC 4291), and the backend adds it back only for a /127. So a /31, a
        /32 and a /127 start at the network address, and an IPv6 /128 starts
        past its one address: it has no host at all. */
    function FirstHost(): nat
      requires Valid()
    {
      if prefix + 2 <= Width(family) || (family == V6 && prefix == Width(family)) then First() + 1
      else First()
    }

    /** Highest usable host: only IPv4 networks of four or more addresses
        reserve their broadcast address. */
    function LastHost(): nat
      requires Valid()
    {
      if family == V4 && prefix + 2 <= Width(family) then Last() - 1 else Last()
    }

    /** Whether `v` is a usable host of the network. */
    predicate IsHost(v: nat)
      requires Valid()
    {
      FirstHost() <= v <= LastHost()
    }
  }

  /** `Pow2` turns sums of exponents into products. */
  lemma {:induction false} Pow2Add(a: nat, b: nat)
    ensures Pow2(a + b) == Pow2(a) * Pow2(b)
  {
    if a > 0 {
      Pow2Add(a - 1, b);
      assert Pow2(a + b) == 2 * Pow2(a - 1 + b);
    }
  }

  /** The size of the IPv4 address space, below which `IPAddress(n)` is IPv4. */
  lemma Pow2Of32()
    ensures Pow2(32) == 0x1_0000_0000
  {
    Pow2Add(16, 16);
    assert Pow2(8) == 256;
    Pow2Add(8, 8);
  }

  /** Clearing low bits never goes below zero: `x % m <= x`. */
  lemma ModAtMost(x: nat, m: nat)
    requires m > 0
    ensures x % m <= x
  {
    if x < m {
      DivModUnique(x, m, 0, x);
    }
  }

  /** `Pow2` grows with its exponent. */
  lemma Pow2Monotone(a: nat, b: nat)
    requires a <= b
    ensures Pow2(a) <= Pow2(b)
  {
    Pow2Add(a, b - a);
    MulMonotone(Pow2(a), 1, Pow2(b - a));
  }

  /** Every family's space contains the IPv4 space and lies in the IPv6 one. */
  lemma WidthBounds(f: Family)
    ensures Pow2(32) <= Pow2(Width(f)) <= Pow2(128)
  {
    Pow2Monotone(32, Width(f));
    Pow2Monotone(Width(f), 128);
  }

  /** The size of the IPv6 address space. */
  lemma Pow2Of128()
    ensures Pow2(128) == 0x1_0000_0000_0000_0000_0000_0000_0000_0000
  {
    Pow2Of32();
    Pow2Add(32, 32);
    Pow2Add(64, 64);
  }

  /** Quotient and remainder are unique: `x == m * q + r` with `0 <= r < m`
      pins `x / m` and `x % m` down. */
  lemma DivModUnique(x: int, m: int, q: int, r: int)
    requires m > 0 && 0 <= r < m && x == m * q + r
    ensures x / m == q && x % m == r
  {
    var q', r' := x / m, x % m;
    assert x == m * q' + r';
    if q > q' {
      assert m * q == m * q' + m * (q - q');
      MulMonotone(m, 1, q - q');
      assert false;
    }
    if q < q' {
      assert m * q' == m * q + m * (q' - q);
      MulMonotone(m, 1, q' - q);
      assert false;
    }
  }

  lemma MulMonotone(c: int, a: int, b: int)
    requires c >= 0 && a <= b
    ensures c * a <= c * b
  {
    assert c * b - c * a == c * (b - a);
  }

  /** Host-policy sizes: an IPv4 network of four or more addresses loses its
      network and broadcast addresses, an IPv6 one loses only its network
      address, the /31, /32 and /127 networks keep every address, and an
      IPv6 /128 has none. */
  lemma HostCount(n: IpNetwork)
    requires n.Valid()
    ensures n.family == V4 && n.prefix <= 30 ==> n.LastHost() + 1 - n.FirstHost() == n.Size() - 2
    ensures n.family == V6 && n.prefix <= 126 ==> n.LastHost() + 1 - n.FirstHost() == n.Size() - 1
    ensures n.prefix + 2 > Width(n.family) && !(n.family == V6 && n.prefix == 128) ==>
      n.LastHost() + 1 - n.FirstHost() == n.Size()
    ensures n.family == V4 && n.prefix == 32 ==> n.FirstHost() == n.LastHost() == n.ip
    ensures n.family == V6 && n.prefix == 128 ==> n.FirstHost() == n.LastHost() + 1 == n.ip + 1
  {
    if n.prefix + 2 <= Width(n.family) {
      Pow2Add(2, Width(n.family) - n.prefix - 2);
    }
  }

  /** The network of a valid `IPNetwork` lies inside its family's address
      space, and every address in it masks back to the same network address. */
  lemma NetworkBounds(n: IpNetwork)
    requires n.Valid()
    ensures n.First() % n.Size() == 0
    ensures n.First() <= n.ip <= n.Last()
    ensures n.Last() < Pow2(Width(n.family))
    ensures n.First() <= n.FirstHost() <= n.LastHost() + 1 && n.LastHost() <= n.Last()
    ensures n.FirstHost() <= n.LastHost() <==> !(n.family == V6 && n.prefix == 128)
  {
    Pow2Add(n.prefix, Width(n.family) - n.prefix);
    AlignedBlockFits(n.ip, n.Size(), Pow2(n.prefix));
    if n.prefix + 2 <= Width(n.family) {
      Pow2Add(2, Width(n.family) - n.prefix - 2);
    }
  }

  /** The block of `s` addresses around `x` starts at a multiple of `s`, and
      fits below `p * s` whenever `x` does. */
  lemma AlignedBlockFits(x: nat, s: nat, p: nat)
    requires s > 0 && x < p * s
    ensures (x - x % s) % s == 0
    ensures x - x % s + s <= p * s
  {
    var k := x / s;
    assert x == s * k + x % s;
    DivModUnique(x - x % s, s, k, 0);
    if k >= p {
      MulMonotone(s, p, k);
      assert false;
    }
    MulMonotone(s, k + 1, p);
    assert s * (k + 1) == s * k + s;
  }

  /** Re-pairing any address of a network with the network's prefix length
      gives back the same network address (`IPNetwork("v/p").network`). */
  lemma SameNetwork(n: IpNetwork, v: nat)
    requires n.Valid()
    requires n.First() <= v <= n.Last()
    ensures IpNetwork(n.family, v, n.prefix).Valid()
    ensures IpNetwork(n.family, v, n.prefix).First() == n.First()
  {
    NetworkBounds(n);
    var m := IpNetwork(n.family, v, n.prefix);
    assert m.Valid() && m.Size() == n.Size();
    SameBlock(n.ip, v, n.Size());
  }

  /** Two integers in the same aligned block of size `s` clear to the same base. */
  lemma SameBlock(x: nat, v: nat, s: nat)
    requires s > 0
    requires x - x % s <= v < x - x % s + s
    ensures v - v % s == x - x % s
  {
    var k := x / s;
    assert x == s * k + x % s;
    DivModUnique(v, s, k, v - (x - x % s));
  }

}
