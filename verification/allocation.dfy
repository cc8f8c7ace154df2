/** The allocation logic of the phpIPAM backend: finding the next free host
    of a subnet, registering an address, and the two combined. Each raised
    `ValueError` is a `Failure` carrying the error kind; a failed operation
    returns no new store, so the store is left as it was. */
module Allocation {
  import opened Wrappers
  import opened Seqs
  import opened AddressSpace
  import opened Store

  datatype Error =
    | SubnetNotFound(network: nat, prefix: nat)   // "Unable to get subnet id from database for subnet n/p"
    | AlreadyRegistered(ip: Address)              // "IP address a already registered"
    | SubnetFull(network: nat, prefix: nat)       // "Subnet n/p is full"
    | Malformed(cause: FormatError)               // netaddr's AddrFormatError on a stored value

  /** The integers in `lo..hi` that `used` does not hold: the source's
      `set(hosts).difference(set(used))` over one family. */
  ghost function FreeSet(lo: nat, hi: nat, used: seq<nat>): set<nat>
  {
    set x: nat | lo <= x <= hi && x !in used
  }

  ghost predicate IsLeast(v: nat, a: set<nat>)
  {
    v in a && forall x :: x in a ==> v <= x
  }

  /** The hosts of `n` that subnet `id` has no row for. */
  ghost function Available(s: Store, id: int, n: IpNetwork): set<nat>
    requires n.Valid()
  {
    set v: nat | n.FirstHost() <= v <= n.LastHost() && !Allocated(s, id, v)
  }

  /** A scan upward from `lo` for the first integer not in `used`. It stops
      after at most `|used| + 1` candidates, so the host range is never
      materialised. */
  function ScanFree(lo: nat, hi: nat, used: seq<nat>): (r: Option<nat>)
    ensures r.Some? ==> lo <= r.value <= hi && r.value !in used
    ensures r.Some? ==> forall x: nat :: lo <= x < r.value ==> x in used
    ensures r.None? ==> forall x: nat :: lo <= x <= hi ==> x in used
    decreases hi + 1 - lo
  {
    if lo > hi then None
    else if lo !in used then Some(lo)
    else ScanFree(lo + 1, hi, used)
  }

  /** The bounded scan computes what the source computes by sorting the set
      difference and taking its head: the least free value, or nothing when
      every value of the range is used. */
  lemma ScanYieldsLeastFree(lo: nat, hi: nat, used: seq<nat>)
    ensures ScanFree(lo, hi, used).Some? ==> IsLeast(ScanFree(lo, hi, used).value, FreeSet(lo, hi, used))
    ensures ScanFree(lo, hi, used).None? <==> FreeSet(lo, hi, used) == {}
  {
    var r := ScanFree(lo, hi, used);
    if r.Some? {
      assert r.value in FreeSet(lo, hi, used);
    }
  }

  /** The scan stops within `|used| + 1` candidates: an answer lies at most
      `|used|` past `lo`, and the scan finds nothing only in a range no
      longer than `used`. */
  lemma {:induction false} ScanStopsEarly(lo: nat, hi: nat, used: seq<nat>)
    ensures ScanFree(lo, hi, used).Some? ==> ScanFree(lo, hi, used).value <= lo + |used|
    ensures ScanFree(lo, hi, used).None? ==> hi + 1 <= lo + |used|
    decreases hi + 1 - lo
  {
    if lo <= hi && lo in used {
      var rest := Filter(used, Other(lo));
      var i :| 0 <= i < |used| && used[i] == lo;
      CountMissesOne(used, Other(lo), i);
      FilterCount(used, Other(lo));
      forall x: nat | lo + 1 <= x <= hi
        ensures x in used <==> x in rest
      {
        FilterMembership(used, Other(lo), x);
      }
      ScanDependsOnlyOnRange(lo + 1, hi, used, rest);
      ScanStopsEarly(lo + 1, hi, rest);
    }
  }

  function Other(v: nat): nat -> bool
  {
    x => x != v
  }

  /** The scan only looks at `lo..hi`: two used-lists that agree there give
      the same answer. */
  lemma {:induction false} ScanDependsOnlyOnRange(lo: nat, hi: nat, u1: seq<nat>, u2: seq<nat>)
    requires forall x: nat :: lo <= x <= hi ==> (x in u1 <==> x in u2)
    ensures ScanFree(lo, hi, u1) == ScanFree(lo, hi, u2)
    decreases hi + 1 - lo
  {
    if lo <= hi && lo in u1 {
      ScanDependsOnlyOnRange(lo + 1, hi, u1, u2);
    }
  }

  /** The free set over the listed allocations is the set of available hosts. */
  lemma FreeIsAvailable(s: Store, id: int, n: IpNetwork)
    requires n.Valid()
    requires AllocatedIps(s, id).Success?
    ensures FreeSet(n.FirstHost(), n.LastHost(), Values(AllocatedIps(s, id).value)) == Available(s, id, n)
  {
  }

  /** `get_next_free_ip`: the least host of `n` that its subnet row has no
      address row for, paired with `n`'s prefix length. Listing the subnet's
      addresses raises when a stored integer is not an address. */
  function NextFreeIp(s: Store, n: IpNetwork): (r: Result<IpNetwork, Error>)
    requires n.Valid()
    ensures FindSubnetId(s, n).None? ==> r == Failure(SubnetNotFound(n.First(), n.prefix))
    ensures FindSubnetId(s, n).Some? && !Decodable(s, FindSubnetId(s, n).value) ==>
      r.Failure? && exists v: nat :: Allocated(s, FindSubnetId(s, n).value, v) && v >= Pow2(128) && r.error == Malformed(BadAddress(v))
    ensures FindSubnetId(s, n).Some? && Decodable(s, FindSubnetId(s, n).value) ==>
      (r.Failure? <==> Available(s, FindSubnetId(s, n).value, n) == {})
    ensures FindSubnetId(s, n).Some? && Decodable(s, FindSubnetId(s, n).value) && r.Failure? ==>
      r.error == SubnetFull(n.First(), n.prefix)
    ensures r.Success? ==>
      && FindSubnetId(s, n).Some? && Decodable(s, FindSubnetId(s, n).value)
      && r.value.family == n.family && r.value.prefix == n.prefix
      && IsLeast(r.value.ip, Available(s, FindSubnetId(s, n).value, n))
    ensures r.Success? ==> r.value.Valid() && r.value.First() == n.First()
  {
    match FindSubnetId(s, n)
    case None => Failure(SubnetNotFound(n.First(), n.prefix))
    case Some(id) =>
      match AllocatedIps(s, id)
      case Failure(e) => Failure(Malformed(e))
      case Success(alloc) =>
      var used := Values(alloc);
      FreeIsAvailable(s, id, n);
      ScanYieldsLeastFree(n.FirstHost(), n.LastHost(), used);
      match ScanFree(n.FirstHost(), n.LastHost(), used)
      case None => Failure(SubnetFull(n.First(), n.prefix))
      case Some(v) =>
        NetworkBounds(n);
        SameNetwork(n, v);
        Success(IpNetwork(n.family, v, n.prefix))
  }

  /** "is full" is reported exactly when every host of the subnet already
      has a row and every row of the subnet holds an address. */
  lemma FullIffEveryHostAllocated(s: Store, n: IpNetwork)
    requires n.Valid()
    requires FindSubnetId(s, n).Some?
    ensures NextFreeIp(s, n) == Failure(SubnetFull(n.First(), n.prefix)) <==>
      && Decodable(s, FindSubnetId(s, n).value)
      && forall v: nat :: n.IsHost(v) ==> Allocated(s, FindSubnetId(s, n).value, v)
  {
    var id := FindSubnetId(s, n).value;
    if Available(s, id, n) != {} {
      var v :| v in Available(s, id, n);
      assert n.IsHost(v) && !Allocated(s, id, v);
    }
  }

  /** An IPv6 /128 has no host: `iter_hosts` yields nothing for it and the
      /127 patch does not apply. So once its subnet is found and its rows
      decode, the search reports it full, whatever the rows hold. */
  lemma SingleV6IsFull(s: Store, n: IpNetwork)
    requires n.Valid() && n.family == V6 && n.prefix == 128
    requires FindSubnetId(s, n).Some? && Decodable(s, FindSubnetId(s, n).value)
    ensures NextFreeIp(s, n) == Failure(SubnetFull(n.First(), n.prefix))
  {
  }

  /** `add_ip`: look the subnet of `ip` up, refuse an address that subnet
      already has a row for, otherwise append one row and report success. */
  function AddIp(s: Store, ip: IpNetwork, dnsName: string, description: string): (r: Result<Store, Error>)
    requires ip.Valid()
    ensures FindSubnetId(s, ip).None? ==> r == Failure(SubnetNotFound(ip.First(), ip.prefix))
    ensures FindSubnetId(s, ip).Some? ==>
      (r.Failure? <==> Allocated(s, FindSubnetId(s, ip).value, ip.ip))
    ensures FindSubnetId(s, ip).Some? && r.Failure? ==> r.error == AlreadyRegistered(Address(ip.family, ip.ip))
    ensures r.Success? ==>
      && FindSubnetId(s, ip).Some?
      && r.value.subnets == s.subnets
      && |r.value.addresses| == |s.addresses| + 1
      && r.value.addresses[..|s.addresses|] == s.addresses
      && r.value.addresses[|s.addresses|] == AddressRow(FindSubnetId(s, ip).value, ip.ip, description, dnsName, UsedState)
  {
    match FindSubnetId(s, ip)
    case None => Failure(SubnetNotFound(ip.First(), ip.prefix))
    case Some(id) =>
      if Allocated(s, id, ip.ip) then Failure(AlreadyRegistered(Address(ip.family, ip.ip)))
      else Success(Store(s.subnets, s.addresses + [AddressRow(id, ip.ip, description, dnsName, UsedState)]))
  }

  /** The subnet lookup only sees the network integer and the prefix length. */
  lemma SameLookup(s: Store, a: IpNetwork, n: IpNetwork)
    requires a.Valid() && n.Valid()
    requires a.First() == n.First() && a.prefix == n.prefix
    ensures FindSubnetId(s, a) == FindSubnetId(s, n)
  {
    if FindSubnetId(s, a).Some? && FindSubnetId(s, n).Some? {
      var i :| 0 <= i < |s.subnets| && s.subnets[i].subnet == a.First() && s.subnets[i].mask == a.prefix
        && s.subnets[i].id == FindSubnetId(s, a).value
        && forall j :: 0 <= j < i ==> !(s.subnets[j].subnet == a.First() && s.subnets[j].mask == a.prefix);
      var k :| 0 <= k < |s.subnets| && s.subnets[k].subnet == n.First() && s.subnets[k].mask == n.prefix
        && s.subnets[k].id == FindSubnetId(s, n).value
        && forall j :: 0 <= j < k ==> !(s.subnets[j].subnet == n.First() && s.subnets[j].mask == n.prefix);
      assert i == k;
    }
  }

  /** What `add_next_ip` hands back: the address it registered, as an
      `IPNetwork` with the subnet's prefix, and the store holding its row. */
  datatype Assigned = Assigned(address: IpNetwork, store: Store)

  /** `add_next_ip`: `get_next_free_ip` followed by `add_ip` of its answer.
      Since this search only offers an address the subnet has no row for, the
      insert is never refused and the only errors are those of the search;
      with the search as written it can be (`AsWrittenOffersAllocatedAddress`). */
  function AddNextIp(s: Store, n: IpNetwork, dnsName: string, description: string): (r: Result<Assigned, Error>)
    requires n.Valid()
    ensures NextFreeIp(s, n).Failure? ==> r == Failure(NextFreeIp(s, n).error)
    ensures NextFreeIp(s, n).Success? ==> r.Success? && r.value.address == NextFreeIp(s, n).value
    ensures r.Success? ==>
      && FindSubnetId(s, n).Some?
      && !Allocated(s, FindSubnetId(s, n).value, r.value.address.ip)
      && r.value.store.subnets == s.subnets
      && r.value.store.addresses == s.addresses + [AddressRow(FindSubnetId(s, n).value, r.value.address.ip, description, dnsName, UsedState)]
      && Decodable(r.value.store, FindSubnetId(s, n).value)
  {
    match NextFreeIp(s, n)
    case Failure(e) => Failure(e)
    case Success(a) =>
      SameLookup(s, a, n);
      match AddIp(s, a, dnsName, description)
      case Failure(e) => Failure(e)
      case Success(s') =>
        assert s'.addresses == s'.addresses[..|s.addresses|] + [s'.addresses[|s.addresses|]];
        WidthBounds(a.family);
        DecodableAfterAppend(s, s'.addresses[|s.addresses|]);
        Success(Assigned(a, s'))
  }

  /** Appending a row that holds an address keeps every subnet decodable. */
  lemma DecodableAfterAppend(s: Store, row: AddressRow)
    requires row.ipAddr < Pow2(128)
    ensures forall id :: Decodable(s, id) ==> Decodable(Store(s.subnets, s.addresses + [row]), id)
  {
    var s' := Store(s.subnets, s.addresses + [row]);
    forall id, i | Decodable(s, id) && 0 <= i < |s'.addresses| && s'.addresses[i].subnetId == id
      ensures s'.addresses[i].ipAddr < Pow2(128)
    {
      if i < |s.addresses| {
        assert s'.addresses[i] == s.addresses[i];
      }
    }
  }

  /** Appending a row allocates exactly its address in its subnet. */
  lemma AllocatedAfterAppend(s: Store, row: AddressRow, id: int, v: nat)
    ensures Allocated(Store(s.subnets, s.addresses + [row]), id, v) <==>
      Allocated(s, id, v) || (row.subnetId == id && row.ipAddr == v)
  {
    var s' := Store(s.subnets, s.addresses + [row]);
    if Allocated(s', id, v) && !(row.subnetId == id && row.ipAddr == v) {
      var i :| 0 <= i < |s'.addresses| && s'.addresses[i].subnetId == id && s'.addresses[i].ipAddr == v;
      assert i < |s.addresses| && s.addresses[i] == s'.addresses[i];
    }
    if Allocated(s, id, v) {
      var i :| 0 <= i < |s.addresses| && s.addresses[i].subnetId == id && s.addresses[i].ipAddr == v;
      assert s'.addresses[i] == s.addresses[i];
    }
    if row.subnetId == id && row.ipAddr == v {
      assert s'.addresses[|s.addresses|] == row;
    }
  }

  /** After `add_next_ip` the subnet has exactly one fewer free host, the one
      just returned; so the next call answers a strictly higher address, or
      reports the subnet full when that was its last free host. */
  lemma AddNextIpConsumesLeast(s: Store, n: IpNetwork, dnsName: string, description: string)
    requires n.Valid()
    ensures AddNextIp(s, n, dnsName, description).Success? ==>
      var a := AddNextIp(s, n, dnsName, description).value;
      var id := FindSubnetId(s, n).value;
      && FindSubnetId(a.store, n) == Some(id)
      && Decodable(a.store, id)
      && Available(a.store, id, n) == Available(s, id, n) - {a.address.ip}
      && (NextFreeIp(a.store, n).Success? ==> NextFreeIp(a.store, n).value.ip > a.address.ip)
      && (NextFreeIp(a.store, n).Failure? <==> Available(s, id, n) == {a.address.ip})
  {
    if AddNextIp(s, n, dnsName, description).Success? {
      var a := AddNextIp(s, n, dnsName, description).value;
      var id := FindSubnetId(s, n).value;
      var row := AddressRow(id, a.address.ip, description, dnsName, UsedState);
      assert a.store == Store(s.subnets, s.addresses + [row]);
      assert Decodable(a.store, id);
      SameSubnets(s, a.store, n);
      AvailableAfterAppend(s, row, n);
      assert IsLeast(a.address.ip, Available(s, id, n));
      NextAfterAppend(a.store, n, id, Available(s, id, n), a.address.ip);
    }
  }

  /** Once `v`, the least of `avail`, is taken out, the search answers a
      higher address, or fails when `v` was the only one. */
  lemma NextAfterAppend(s: Store, n: IpNetwork, id: int, avail: set<nat>, v: nat)
    requires n.Valid()
    requires FindSubnetId(s, n) == Some(id) && Decodable(s, id)
    requires IsLeast(v, avail) && Available(s, id, n) == avail - {v}
    ensures NextFreeIp(s, n).Success? ==> NextFreeIp(s, n).value.ip > v
    ensures NextFreeIp(s, n).Failure? <==> avail == {v}
  {
    var next := NextFreeIp(s, n);
    if next.Success? {
      assert next.value.ip in avail;
    }
    if avail != {v} {
      var x :| x in avail && x != v;
      assert x in Available(s, id, n);
    }
  }

  /** The subnet lookup reads only the `subnets` table. */
  lemma SameSubnets(s: Store, s': Store, n: IpNetwork)
    requires n.Valid()
    requires s'.subnets == s.subnets
    ensures FindSubnetId(s', n) == FindSubnetId(s, n)
  {
  }

  /** Appending a row to a subnet takes exactly its address out of the
      subnet's available hosts. */
  lemma AvailableAfterAppend(s: Store, row: AddressRow, n: IpNetwork)
    requires n.Valid()
    ensures Available(Store(s.subnets, s.addresses + [row]), row.subnetId, n) == Available(s, row.subnetId, n) - {row.ipAddr}
  {
    var s' := Store(s.subnets, s.addresses + [row]);
    forall v: nat
      ensures Allocated(s', row.subnetId, v) <==> Allocated(s, row.subnetId, v) || v == row.ipAddr
    {
      AllocatedAfterAppend(s, row, row.subnetId, v);
    }
  }

  /** `add_ip` keeps the (subnet, address) pairs of `ipaddresses` distinct. */
  lemma AddIpPreservesNoDuplicates(s: Store, ip: IpNetwork, dnsName: string, description: string)
    requires ip.Valid()
    requires NoDuplicateIps(s)
    requires AddIp(s, ip, dnsName, description).Success?
    ensures NoDuplicateIps(AddIp(s, ip, dnsName, description).value)
  {
    var s' := AddIp(s, ip, dnsName, description).value;
    var id := FindSubnetId(s, ip).value;
    forall i, j | 0 <= i < j < |s'.addresses|
      ensures !(s'.addresses[i].subnetId == s'.addresses[j].subnetId && s'.addresses[i].ipAddr == s'.addresses[j].ipAddr)
    {
      assert s'.addresses[i] == s.addresses[i];
      if j == |s.addresses| {
        assert s'.addresses[j] == AddressRow(id, ip.ip, description, dnsName, UsedState);
        assert !Allocated(s, id, ip.ip);
      } else {
        assert s'.addresses[j] == s.addresses[j];
      }
    }
  }

  function InFamily(f: Family): Address -> bool
  {
    (a: Address) => a.family == f
  }

  /** The hosts of `n` that the search as written treats as free: those
      whose `IPAddress` of `n`'s family is not among the decoded addresses of
      subnet `id`. */
  ghost function AvailableAsWritten(s: Store, id: int, n: IpNetwork): set<nat>
    requires n.Valid()
    requires AllocatedIps(s, id).Success?
  {
    set v: nat | n.FirstHost() <= v <= n.LastHost() && Address(n.family, v) !in AllocatedIps(s, id).value
  }

  /** `get_next_free_ip` as written: hosts and used addresses are compared as
      netaddr objects, which are equal only when family and value both are,
      and every used address was decoded by `IPAddress(int)`. So only used
      addresses whose integer decodes to the subnet's own family are taken
      out of the hosts. */
  function NextFreeIpAsWritten(s: Store, n: IpNetwork): (r: Result<IpNetwork, Error>)
    requires n.Valid()
    ensures FindSubnetId(s, n).None? ==> r == Failure(SubnetNotFound(n.First(), n.prefix))
    ensures FindSubnetId(s, n).Some? && !Decodable(s, FindSubnetId(s, n).value) ==>
      r.Failure? && exists v: nat :: Allocated(s, FindSubnetId(s, n).value, v) && v >= Pow2(128) && r.error == Malformed(BadAddress(v))
    ensures FindSubnetId(s, n).Some? && Decodable(s, FindSubnetId(s, n).value) ==>
      (r.Failure? <==> AvailableAsWritten(s, FindSubnetId(s, n).value, n) == {})
    ensures FindSubnetId(s, n).Some? && Decodable(s, FindSubnetId(s, n).value) && r.Failure? ==>
      r.error == SubnetFull(n.First(), n.prefix)
    ensures r.Success? ==>
      && FindSubnetId(s, n).Some? && Decodable(s, FindSubnetId(s, n).value)
      && r.value.family == n.family && r.value.prefix == n.prefix
      && IsLeast(r.value.ip, AvailableAsWritten(s, FindSubnetId(s, n).value, n))
  {
    match FindSubnetId(s, n)
    case None => Failure(SubnetNotFound(n.First(), n.prefix))
    case Some(id) =>
      match AllocatedIps(s, id)
      case Failure(e) => Failure(Malformed(e))
      case Success(alloc) =>
      var used := Values(Filter(alloc, InFamily(n.family)));
      FreeIsAvailableAsWritten(s, id, n);
      ScanYieldsLeastFree(n.FirstHost(), n.LastHost(), used);
      match ScanFree(n.FirstHost(), n.LastHost(), used)
      case None => Failure(SubnetFull(n.First(), n.prefix))
      case Some(v) => Success(IpNetwork(n.family, v, n.prefix))
  }

  /** The free set over the same-family allocations is what the search as
      written treats as free. */
  lemma FreeIsAvailableAsWritten(s: Store, id: int, n: IpNetwork)
    requires n.Valid()
    requires AllocatedIps(s, id).Success?
    ensures FreeSet(n.FirstHost(), n.LastHost(), Values(Filter(AllocatedIps(s, id).value, InFamily(n.family))))
      == AvailableAsWritten(s, id, n)
  {
    var alloc := AllocatedIps(s, id).value;
    forall v: nat
      ensures Address(n.family, v) in alloc <==> v in Values(Filter(alloc, InFamily(n.family)))
    {
      SameFamilyUsed(alloc, n.family, v);
    }
  }

  /** An address of family `f` is among `xs` exactly when its value is among
      the values of the family-`f` members of `xs`. */
  lemma SameFamilyUsed(xs: seq<Address>, f: Family, v: nat)
    ensures Address(f, v) in xs <==> v in Values(Filter(xs, InFamily(f)))
  {
    var ys := Filter(xs, InFamily(f));
    FilterMembership(xs, InFamily(f), Address(f, v));
    if v in Values(ys) {
      var k :| 0 <= k < |ys| && Values(ys)[k] == v;
      assert ys[k] == Address(f, v);
    }
    if Address(f, v) in ys {
      var k :| 0 <= k < |ys| && ys[k] == Address(f, v);
      assert Values(ys)[k] == v;
    }
  }

  /** Among decoded addresses, an integer of family `FamilyOfInt(x)` is
      present exactly when `x` is. */
  lemma DecodedFamily(alloc: seq<Address>, x: nat)
    requires forall k :: 0 <= k < |alloc| ==> AddressOfInt(alloc[k].value) == Success(alloc[k])
    ensures x in Values(Filter(alloc, InFamily(FamilyOfInt(x)))) <==> x in Values(alloc)
  {
    SameFamilyUsed(alloc, FamilyOfInt(x), x);
    if x in Values(alloc) {
      var k :| 0 <= k < |alloc| && Values(alloc)[k] == x;
      assert AddressOfInt(x) == Success(alloc[k]);
      assert alloc[k] == Address(FamilyOfInt(x), x);
    }
  }

  /** The search answers `v` when `v` is available and every host below it
      is allocated. */
  lemma LeastAvailableAnswered(s: Store, n: IpNetwork, id: int, v: nat)
    requires n.Valid()
    requires FindSubnetId(s, n) == Some(id) && Decodable(s, id)
    requires v in Available(s, id, n) && forall x :: n.FirstHost() <= x < v ==> Allocated(s, id, x)
    ensures NextFreeIp(s, n) == Success(IpNetwork(n.family, v, n.prefix))
  {
    var r := NextFreeIp(s, n);
    assert r.Success?;
    var w := r.value.ip;
    assert IsLeast(w, Available(s, id, n));
    assert w <= v;
    assert n.FirstHost() <= w && !Allocated(s, id, w);
    assert w == v;
    assert r.value == IpNetwork(n.family, v, n.prefix);
  }

  /** A subnet of IPv6 space below 2^32 (`::/125`, id 7) in which `::1` is
      already registered. */
  function LowV6Store(): Store
  {
    Store([SubnetRow(7, 0, 125, "low v6")], [AddressRow(7, 1, "host 1", "host-1", UsedState)])
  }

  lemma LowV6Lookup(v: nat)
    requires v <= 7
    ensures IpNetwork(V6, v, 125).Valid() && IpNetwork(V6, v, 125).First() == 0
    ensures FindSubnetId(LowV6Store(), IpNetwork(V6, v, 125)) == Some(7)
  {
    var n := IpNetwork(V6, v, 125);
    assert Pow2(3) == 8;
    Pow2Add(3, 125);
    MulMonotone(8, 1, Pow2(125));
    assert n.Valid() && n.Size() == 8;
    DivModUnique(v, 8, 0, v);
    assert n.First() == 0;
    assert LowV6Store().subnets[0].subnet == n.First() && LowV6Store().subnets[0].mask == n.prefix;
  }

  lemma LowV6Allocations()
    ensures AllocatedIps(LowV6Store(), 7) == Success([Address(V4, 1)])
  {
    var s := LowV6Store();
    assert s.addresses[0].subnetId == 7 && s.addresses[0].ipAddr == 1;
    Pow2Of128();
    assert Decodable(s, 7);
    var alloc := AllocatedIps(s, 7).value;
    assert Count(s.addresses, InSubnet(7)) == 1;
    assert 1 in Values(alloc);
    assert Values(alloc)[0] == 1;
    assert AddressOfInt(alloc[0].value) == Success(alloc[0]);
    assert Pow2(32) > 1;
    assert alloc == [Address(V4, 1)];
  }

  /** The as-written search offers `::1`, which is already registered, so
      `add_next_ip` would fail with "already registered" instead of handing
      out `::2`; the corrected search hands out `::2`. */
  lemma AsWrittenOffersAllocatedAddress()
    ensures NextFreeIpAsWritten(LowV6Store(), IpNetwork(V6, 0, 125)) == Success(IpNetwork(V6, 1, 125))
    ensures Allocated(LowV6Store(), 7, 1)
    ensures AddIp(LowV6Store(), IpNetwork(V6, 1, 125), "host-2", "host 2") == Failure(AlreadyRegistered(Address(V6, 1)))
    ensures NextFreeIp(LowV6Store(), IpNetwork(V6, 0, 125)) == Success(IpNetwork(V6, 2, 125))
  {
    LowV6AsWritten(LowV6Store(), IpNetwork(V6, 0, 125));
    LowV6Refused(LowV6Store(), IpNetwork(V6, 1, 125));
    LowV6Corrected(LowV6Store(), IpNetwork(V6, 0, 125));
  }

  lemma LowV6AsWritten(s: Store, n: IpNetwork)
    requires s == LowV6Store() && n == IpNetwork(V6, 0, 125)
    ensures NextFreeIpAsWritten(s, n) == Success(IpNetwork(V6, 1, 125))
  {
    LowV6Lookup(0);
    LowV6Allocations();
    assert n.FirstHost() == 1 && n.LastHost() == 7;
    var alloc := AllocatedIps(s, 7).value;
    SameFamilyUsed(alloc, V6, 1);
    assert ScanFree(1, 7, Values(Filter(alloc, InFamily(V6)))) == Some(1);
  }

  lemma LowV6Refused(s: Store, n: IpNetwork)
    requires s == LowV6Store() && n == IpNetwork(V6, 1, 125)
    ensures Allocated(s, 7, 1)
    ensures AddIp(s, n, "host-2", "host 2") == Failure(AlreadyRegistered(Address(V6, 1)))
  {
    LowV6Lookup(1);
    assert s.addresses[0].subnetId == 7 && s.addresses[0].ipAddr == 1;
  }

  lemma LowV6Corrected(s: Store, n: IpNetwork)
    requires s == LowV6Store() && n == IpNetwork(V6, 0, 125)
    ensures NextFreeIp(s, n) == Success(IpNetwork(V6, 2, 125))
  {
    LowV6Lookup(0);
    LowV6Hosts(n);
    LowV6Rows(s);
    assert 2 in Available(s, 7, n);
    LeastAvailableAnswered(s, n, 7, 2);
  }

  lemma LowV6Hosts(n: IpNetwork)
    requires n == IpNetwork(V6, 0, 125)
    ensures n.Valid() && n.FirstHost() == 1 && n.LastHost() == 7
  {
    LowV6Lookup(0);
  }

  lemma LowV6Rows(s: Store)
    requires s == LowV6Store()
    ensures Decodable(s, 7) && Allocated(s, 7, 1) && !Allocated(s, 7, 2)
  {
    assert s.addresses[0].subnetId == 7 && s.addresses[0].ipAddr == 1;
    Pow2Of128();
  }

  /** Outside IPv6 space below 2^32 every host decodes to its subnet's family,
      and the as-written search agrees with the corrected one. */
  lemma AsWrittenAgreesOutsideLowV6(s: Store, n: IpNetwork)
    requires n.Valid()
    requires n.family == V4 || n.First() >= Pow2(32)
    ensures NextFreeIpAsWritten(s, n) == NextFreeIp(s, n)
  {
    if FindSubnetId(s, n).Some? && AllocatedIps(s, FindSubnetId(s, n).value).Success? {
      var id := FindSubnetId(s, n).value;
      var alloc := AllocatedIps(s, id).value;
      NetworkBounds(n);
      forall x: nat | n.FirstHost() <= x <= n.LastHost()
        ensures x in Values(Filter(alloc, InFamily(n.family))) <==> x in Values(alloc)
      {
        assert FamilyOfInt(x) == n.family;
        DecodedFamily(alloc, x);
      }
      ScanDependsOnlyOnRange(n.FirstHost(), n.LastHost(), Values(Filter(alloc, InFamily(n.family))), Values(alloc));
    }
  }
}
