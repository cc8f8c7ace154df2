/** The two phpIPAM tables the backend reads and writes, as an immutable
    value in place of the SQL connection, plus the two store queries the
    allocation logic is built on: the subnet-id lookup and the allocated
    address listing. Rows are kept in insertion order; a query without
    `ORDER BY` that fetches one row returns the first match in that order. */
module Store {
  import opened Wrappers
  import opened Seqs
  import opened AddressSpace

  /** A row of `subnets`: the network address as an integer and the prefix
      length (`mask`). The table stores no address family. */
  datatype SubnetRow = SubnetRow(id: int, subnet: nat, mask: nat, description: string)

  /** A row of `ipaddresses`. */
  datatype AddressRow = AddressRow(subnetId: int, ipAddr: nat, description: string, dnsName: string, state: int)

  datatype Store = Store(subnets: seq<SubnetRow>, addresses: seq<AddressRow>)

  /** The `state` value the description queries select (`state = 1`); it is
      also the value a row inserted without a state receives, since a freshly
      added address is found again by those queries. */
  const UsedState: int := 1

  /** Whether a subnet row is the one `find_subnet_id` looks for: the same
      network integer and the same mask. */
  function SubnetIs(n: IpNetwork): SubnetRow -> bool
    requires n.Valid()
  {
    (row: SubnetRow) => row.subnet == n.First() && row.mask == n.prefix
  }

  /** `find_subnet_id`: the id of the first subnet row whose network integer
      and mask both equal those of `n`, or `None`. */
  function FindSubnetId(s: Store, n: IpNetwork): (r: Option<int>)
    requires n.Valid()
    ensures r.None? <==>
      forall i :: 0 <= i < |s.subnets| ==> !(s.subnets[i].subnet == n.First() && s.subnets[i].mask == n.prefix)
    ensures r.Some? ==>
      exists i :: 0 <= i < |s.subnets| && s.subnets[i].subnet == n.First() && s.subnets[i].mask == n.prefix
        && s.subnets[i].id == r.value
        && forall j :: 0 <= j < i ==> !(s.subnets[j].subnet == n.First() && s.subnets[j].mask == n.prefix)
  {
    match FirstIndex(s.subnets, SubnetIs(n))
    case None => None
    case Some(i) => Some(s.subnets[i].id)
  }

  /** Whether `ipaddresses` holds a row of subnet `id` for address integer `v`,
      whatever its state. */
  predicate Allocated(s: Store, id: int, v: nat)
  {
    exists i :: 0 <= i < |s.addresses| && s.addresses[i].subnetId == id && s.addresses[i].ipAddr == v
  }

  /** No two address rows share a subnet and an address. */
  predicate NoDuplicateIps(s: Store)
  {
    forall i, j :: 0 <= i < j < |s.addresses| ==>
      !(s.addresses[i].subnetId == s.addresses[j].subnetId && s.addresses[i].ipAddr == s.addresses[j].ipAddr)
  }

  function InSubnet(id: int): AddressRow -> bool
  {
    (row: AddressRow) => row.subnetId == id
  }

  function IpAddrOf(row: AddressRow): nat
  {
    row.ipAddr
  }

  function ValueOf(a: Address): nat
  {
    a.value
  }

  /** The integers of a list of addresses. */
  function Values(xs: seq<Address>): (r: seq<nat>)
    ensures |r| == |xs|
  {
    Map(ValueOf, xs)
  }

  /** Every address row of subnet `id` holds an integer `IPAddress(int)`
      accepts, one inside the IPv6 address space. */
  predicate Decodable(s: Store, id: int)
  {
    forall i :: 0 <= i < |s.addresses| && s.addresses[i].subnetId == id ==> s.addresses[i].ipAddr < Pow2(128)
  }

  /** `get_allocated_ips_by_subnet_id`: the addresses of every row of subnet
      `id`, whatever its state, in ascending order, each decoded by
      `IPAddress(int)`; it raises when one of them does not decode. */
  function AllocatedIps(s: Store, id: int): (r: Result<seq<Address>, FormatError>)
    ensures r.Success? <==> Decodable(s, id)
    ensures r.Failure? ==> exists v: nat :: Allocated(s, id, v) && v >= Pow2(128) && r.error == BadAddress(v)
    ensures r.Success? ==> Sorted(Values(r.value))
    ensures r.Success? ==> multiset(Values(r.value)) == multiset(Map(IpAddrOf, Filter(s.addresses, InSubnet(id))))
    ensures r.Success? ==> |r.value| == Count(s.addresses, InSubnet(id))
    ensures r.Success? ==> forall k :: 0 <= k < |r.value| ==> AddressOfInt(r.value[k].value) == Success(r.value[k])
    ensures r.Success? ==> forall v: nat :: v in Values(r.value) <==> Allocated(s, id, v)
  {
    SortedRowsDecode(s, id);
    MapResult(AddressOfInt, Sort(Map(IpAddrOf, Filter(s.addresses, InSubnet(id)))))
  }

  /** Decoding a list of integers succeeds exactly when each of them is
      below 2^128, and then gives back the same integers in the same order. */
  lemma DecodeAll(xs: seq<nat>)
    ensures var r := MapResult(AddressOfInt, xs);
      && (r.Success? <==> forall k :: 0 <= k < |xs| ==> xs[k] < Pow2(128))
      && (r.Failure? ==> exists k :: 0 <= k < |xs| && xs[k] >= Pow2(128) && r.error == BadAddress(xs[k]))
      && (r.Success? ==> Values(r.value) == xs)
  {
    var r := MapResult(AddressOfInt, xs);
    if r.Success? {
      assert forall k :: 0 <= k < |xs| ==> Values(r.value)[k] == xs[k];
    } else {
      var k :| 0 <= k < |xs| && AddressOfInt(xs[k]) == Failure(r.error);
      assert xs[k] >= Pow2(128);
    }
  }

  /** Decoding the sorted integers of the subnet's rows succeeds exactly when
      all of them decode, and then keeps them, their order and their number. */
  lemma SortedRowsDecode(s: Store, id: int)
    ensures var r := MapResult(AddressOfInt, Sort(Map(IpAddrOf, Filter(s.addresses, InSubnet(id)))));
      && (r.Success? <==> Decodable(s, id))
      && (r.Failure? ==> exists v: nat :: Allocated(s, id, v) && v >= Pow2(128) && r.error == BadAddress(v))
      && (r.Success? ==> Values(r.value) == Sort(Map(IpAddrOf, Filter(s.addresses, InSubnet(id)))))
      && (r.Success? ==> |r.value| == Count(s.addresses, InSubnet(id)))
      && (r.Success? ==> forall v: nat :: v in Values(r.value) <==> Allocated(s, id, v))
  {
    var rows := Filter(s.addresses, InSubnet(id));
    var sorted := Sort(Map(IpAddrOf, rows));
    AllocatedMembership(s, id);
    SortedAllocated(s, id);
    DecodeAll(sorted);
    var r := MapResult(AddressOfInt, sorted);
    if r.Success? {
      assert |sorted| == |multiset(sorted)| == |multiset(Map(IpAddrOf, rows))|;
      FilterCount(s.addresses, InSubnet(id));
      forall i | 0 <= i < |s.addresses| && s.addresses[i].subnetId == id
        ensures s.addresses[i].ipAddr < Pow2(128)
      {
        assert Allocated(s, id, s.addresses[i].ipAddr);
      }
    } else {
      var k :| 0 <= k < |sorted| && sorted[k] >= Pow2(128) && r.error == BadAddress(sorted[k]);
      assert Allocated(s, id, sorted[k]);
      var i :| 0 <= i < |s.addresses| && s.addresses[i].subnetId == id && s.addresses[i].ipAddr == sorted[k];
    }
  }

  /** The sorted integers of the subnet's rows are exactly its allocated integers. */
  lemma SortedAllocated(s: Store, id: int)
    ensures forall v: nat :: v in Sort(Map(IpAddrOf, Filter(s.addresses, InSubnet(id)))) <==> Allocated(s, id, v)
  {
    var m := Map(IpAddrOf, Filter(s.addresses, InSubnet(id)));
    AllocatedMembership(s, id);
    assert forall v: nat :: v in Sort(m) <==> v in multiset(Sort(m));
    assert forall v: nat :: v in m <==> v in multiset(m);
  }

  /** An address integer occurs among the subnet's rows exactly when it is allocated there. */
  lemma AllocatedMembership(s: Store, id: int)
    ensures forall v: nat :: v in Map(IpAddrOf, Filter(s.addresses, InSubnet(id))) <==> Allocated(s, id, v)
  {
    var rows := Filter(s.addresses, InSubnet(id));
    forall v: nat
      ensures v in Map(IpAddrOf, rows) <==> Allocated(s, id, v)
    {
      if v in Map(IpAddrOf, rows) {
        var k :| 0 <= k < |rows| && Map(IpAddrOf, rows)[k] == v;
        FilterMembership(s.addresses, InSubnet(id), rows[k]);
        var i :| 0 <= i < |s.addresses| && s.addresses[i] == rows[k];
        assert s.addresses[i].subnetId == id && s.addresses[i].ipAddr == v;
      }
      if Allocated(s, id, v) {
        var i :| 0 <= i < |s.addresses| && s.addresses[i].subnetId == id && s.addresses[i].ipAddr == v;
        FilterMembership(s.addresses, InSubnet(id), s.addresses[i]);
        var k :| 0 <= k < |rows| && rows[k] == s.addresses[i];
        assert Map(IpAddrOf, rows)[k] == v;
      }
    }
  }
}
