/** The read-only lookups of the phpIPAM backend: by description (address
    and subnet lists, first-or-None, counts), by subnet id, by address, and
    the address-with-prefix lists that join each address row to its subnet
    row. A SQL `LIKE` pattern is modelled by the set of descriptions it
    matches, a total predicate on strings. Results keep table order. */
module Queries {
  import opened Wrappers
  import opened Seqs
  import opened AddressSpace
  import opened Store

  /** A `LIKE` pattern, seen only through which strings it matches. */
  type Pattern = string -> bool

  /** `{'ip', 'description', 'dnsname'}` of the address lists. */
  datatype IpItem = IpItem(ip: Address, description: string, dnsName: string)

  /** `{'subnet', 'description'}` of the subnet lookups. */
  datatype SubnetItem = SubnetItem(subnet: IpNetwork, description: string)

  /** `{'ip', 'description', 'dnsname'}` of the address-with-prefix lists:
      the address paired with the mask of its subnet row. */
  datatype IpNetItem = IpNetItem(ip: IpNetwork, description: string, dnsName: string)

  datatype QueryError =
    | NoSubnetRow(subnetId: int)     // a joined subnet column was NULL, so `"a/" + mask` raises
    | Malformed(cause: FormatError)  // netaddr's AddrFormatError on a stored value

  /** `WHERE description LIKE p AND state = 1` on `ipaddresses`. */
  function UsedWithDesc(p: Pattern): AddressRow -> bool
  {
    (row: AddressRow) => p(row.description) && row.state == UsedState
  }

  /** `WHERE description LIKE p` on `subnets`. */
  function SubnetWithDesc(p: Pattern): SubnetRow -> bool
  {
    (row: SubnetRow) => p(row.description)
  }

  /** One item of the address lists: `IPAddress(int(ip_addr))` with the
      row's description and DNS name. */
  function IpItemOf(row: AddressRow): (r: Result<IpItem, QueryError>)
    ensures r.Success? <==> row.ipAddr < Pow2(128)
    ensures r.Failure? ==> r.error == Malformed(BadAddress(row.ipAddr))
    ensures r.Success? ==> r.value.ip.value == row.ipAddr && r.value.ip.family == FamilyOfInt(row.ipAddr)
    ensures r.Success? ==> r.value.description == row.description && r.value.dnsName == row.dnsName
  {
    match AddressOfInt(row.ipAddr)
    case Failure(e) => Failure(Malformed(e))
    case Success(a) => Success(IpItem(a, row.description, row.dnsName))
  }

  /** Whether `IPNetwork("%s/%s" % (IPAddress(subnet), mask))` accepts a subnet row. */
  predicate SubnetDecodes(row: SubnetRow)
  {
    row.subnet < Pow2(128) && row.mask <= Width(FamilyOfInt(row.subnet))
  }

  /** One item of the subnet lookups: the row's network integer, rendered in
      the family its size implies, with the row's mask. */
  function SubnetItemOf(row: SubnetRow): (r: Result<SubnetItem, QueryError>)
    ensures r.Success? <==> SubnetDecodes(row)
    ensures r.Failure? ==> r.error.Malformed?
    ensures r.Success? ==> r.value.subnet.Valid() && r.value.subnet.family == FamilyOfInt(row.subnet)
    ensures r.Success? ==> r.value.subnet.ip == row.subnet && r.value.subnet.prefix == row.mask
    ensures r.Success? ==> r.value.description == row.description
  {
    match NetworkOfInt(row.subnet, row.mask)
    case Failure(e) => Failure(Malformed(e))
    case Success(net) => Success(SubnetItem(net, row.description))
  }

  /** `get_ip_list_by_desc`: one item per address row in state 1 whose
      description matches, whatever its subnet; it raises when one of those
      rows holds no address. */
  function IpListByDesc(s: Store, p: Pattern): (r: Result<seq<IpItem>, QueryError>)
    ensures r.Failure? <==> exists i :: 0 <= i < |s.addresses| && UsedWithDesc(p)(s.addresses[i]) && s.addresses[i].ipAddr >= Pow2(128)
    ensures r.Failure? ==>
      exists i :: 0 <= i < |s.addresses| && UsedWithDesc(p)(s.addresses[i]) && r.error == Malformed(BadAddress(s.addresses[i].ipAddr))
    ensures r.Success? ==> |r.value| == Count(s.addresses, UsedWithDesc(p))
    ensures r.Success? ==> forall it :: it in r.value <==>
      exists i :: 0 <= i < |s.addresses| && p(s.addresses[i].description) && s.addresses[i].state == UsedState
        && it == IpItem(Address(FamilyOfInt(s.addresses[i].ipAddr), s.addresses[i].ipAddr), s.addresses[i].description, s.addresses[i].dnsName)
    ensures r.Success? ==> OnePerRow(r.value, s.addresses, UsedWithDesc(p), IpItemOf)
  {
    var r := MapResult(IpItemOf, Filter(s.addresses, UsedWithDesc(p)));
    MapResultFilterFails(s.addresses, UsedWithDesc(p), IpItemOf);
    FilterCount(s.addresses, UsedWithDesc(p));
    if r.Success? then
      forall it ensures it in r.value <==>
        exists i :: 0 <= i < |s.addresses| && UsedWithDesc(p)(s.addresses[i]) && IpItemOf(s.addresses[i]) == Success(it)
      {
        MapResultFilterMembership(s.addresses, UsedWithDesc(p), IpItemOf, it);
      }
      forall it ensures multiset(r.value)[it] == |RowsYielding(s.addresses, UsedWithDesc(p), IpItemOf, it)| {
        MapResultFilterMultiplicity(s.addresses, UsedWithDesc(p), IpItemOf, it);
      }
      r
    else
      FailingRow(s.addresses, UsedWithDesc(p), IpItemOf);
      r
  }

  /** `get_ip_by_desc`: the item of the first address row in state 1 whose
      description matches, or `None` when there is none; it raises when the
      list does. */
  function IpByDesc(s: Store, p: Pattern): (r: Result<Option<IpItem>, QueryError>)
    ensures r.Failure? <==> exists i :: 0 <= i < |s.addresses| && UsedWithDesc(p)(s.addresses[i]) && s.addresses[i].ipAddr >= Pow2(128)
    ensures r.Success? ==> (r.value.None? <==>
      forall i :: 0 <= i < |s.addresses| ==> !(p(s.addresses[i].description) && s.addresses[i].state == UsedState))
    ensures r.Success? && r.value.Some? ==>
      exists i :: 0 <= i < |s.addresses| && p(s.addresses[i].description) && s.addresses[i].state == UsedState
        && (forall j :: 0 <= j < i ==> !(p(s.addresses[j].description) && s.addresses[j].state == UsedState))
        && r.value.value == IpItem(Address(FamilyOfInt(s.addresses[i].ipAddr), s.addresses[i].ipAddr), s.addresses[i].description, s.addresses[i].dnsName)
  {
    match IpListByDesc(s, p)
    case Failure(e) => Failure(e)
    case Success(items) =>
      MapResultFilterHead(s.addresses, UsedWithDesc(p), IpItemOf);
      Success(Head(items))
  }

  /** When exactly one row in state 1 matches and it holds an address,
      `get_ip_by_desc` returns that row's item. */
  lemma SoleMatchFound(s: Store, p: Pattern, k: nat)
    requires k < |s.addresses| && UsedWithDesc(p)(s.addresses[k]) && s.addresses[k].ipAddr < Pow2(128)
    requires forall i :: 0 <= i < |s.addresses| && i != k ==> !UsedWithDesc(p)(s.addresses[i])
    ensures IpByDesc(s, p) == Success(Some(IpItem(Address(FamilyOfInt(s.addresses[k].ipAddr), s.addresses[k].ipAddr),
      s.addresses[k].description, s.addresses[k].dnsName)))
  {
  }

  /** The indices of address rows in state 1 whose description matches. */
  ghost function UsedRowsWithDesc(s: Store, p: Pattern): set<nat>
  {
    set i: nat | i < |s.addresses| && p(s.addresses[i].description) && s.addresses[i].state == UsedState
  }

  /** `get_num_ips_by_desc`: `SELECT COUNT(ip_addr) ... WHERE description
      LIKE p AND state = '1'`, the number of matching rows. The count query
      always returns a row, so the answer is never `None`. */
  function NumIpsByDesc(s: Store, p: Pattern): (r: Option<nat>)
    ensures r == Some(|UsedRowsWithDesc(s, p)|)
  {
    CountIsMatching(s.addresses, UsedWithDesc(p));
    assert Matching(s.addresses, UsedWithDesc(p)) == UsedRowsWithDesc(s, p);
    Some(Count(s.addresses, UsedWithDesc(p)))
  }

  /** The count agrees with the list: `get_num_ips_by_desc` is the length of
      `get_ip_list_by_desc` for the same pattern whenever the list is built. */
  lemma NumIpsIsListLength(s: Store, p: Pattern)
    ensures IpListByDesc(s, p).Success? ==> NumIpsByDesc(s, p) == Some(|IpListByDesc(s, p).value|)
  {
  }

  /** `get_subnet_list_by_desc`: one item per subnet row whose description
      matches; it raises when one of those rows does not decode. */
  function SubnetListByDesc(s: Store, p: Pattern): (r: Result<seq<SubnetItem>, QueryError>)
    ensures r.Failure? <==> exists i :: 0 <= i < |s.subnets| && p(s.subnets[i].description) && !SubnetDecodes(s.subnets[i])
    ensures r.Failure? ==> r.error.Malformed?
    ensures r.Success? ==> |r.value| == Count(s.subnets, SubnetWithDesc(p))
    ensures r.Success? ==> forall it :: it in r.value <==>
      exists i :: 0 <= i < |s.subnets| && p(s.subnets[i].description)
        && it == SubnetItem(IpNetwork(FamilyOfInt(s.subnets[i].subnet), s.subnets[i].subnet, s.subnets[i].mask), s.subnets[i].description)
    ensures r.Success? ==> OnePerRow(r.value, s.subnets, SubnetWithDesc(p), SubnetItemOf)
  {
    var r := MapResult(SubnetItemOf, Filter(s.subnets, SubnetWithDesc(p)));
    MapResultFilterFails(s.subnets, SubnetWithDesc(p), SubnetItemOf);
    FilterCount(s.subnets, SubnetWithDesc(p));
    if r.Success? then
      forall it ensures it in r.value <==>
        exists i :: 0 <= i < |s.subnets| && SubnetWithDesc(p)(s.subnets[i]) && SubnetItemOf(s.subnets[i]) == Success(it)
      {
        MapResultFilterMembership(s.subnets, SubnetWithDesc(p), SubnetItemOf, it);
      }
      forall it ensures multiset(r.value)[it] == |RowsYielding(s.subnets, SubnetWithDesc(p), SubnetItemOf, it)| {
        MapResultFilterMultiplicity(s.subnets, SubnetWithDesc(p), SubnetItemOf, it);
      }
      r
    else
      FailingRow(s.subnets, SubnetWithDesc(p), SubnetItemOf);
      r
  }

  /** `get_subnet_by_desc`: the item of the first subnet row whose description
      matches, or `None`; it raises when the list does. */
  function SubnetByDesc(s: Store, p: Pattern): (r: Result<Option<SubnetItem>, QueryError>)
    ensures r.Failure? <==> exists i :: 0 <= i < |s.subnets| && p(s.subnets[i].description) && !SubnetDecodes(s.subnets[i])
    ensures r.Success? ==> (r.value.None? <==> forall i :: 0 <= i < |s.subnets| ==> !p(s.subnets[i].description))
    ensures r.Success? && r.value.Some? ==>
      exists i :: 0 <= i < |s.subnets| && p(s.subnets[i].description)
        && (forall j :: 0 <= j < i ==> !p(s.subnets[j].description))
        && r.value.value == SubnetItem(IpNetwork(FamilyOfInt(s.subnets[i].subnet), s.subnets[i].subnet, s.subnets[i].mask), s.subnets[i].description)
  {
    match SubnetListByDesc(s, p)
    case Failure(e) => Failure(e)
    case Success(items) =>
      MapResultFilterHead(s.subnets, SubnetWithDesc(p), SubnetItemOf);
      Success(Head(items))
  }

  /** The indices of subnet rows whose description matches. */
  ghost function SubnetRowsWithDesc(s: Store, p: Pattern): set<nat>
  {
    set i: nat | i < |s.subnets| && p(s.subnets[i].description)
  }

  /** `get_num_subnets_by_desc`: `SELECT COUNT(subnet) ... WHERE description
      LIKE p`, the number of matching rows; never `None`. */
  function NumSubnetsByDesc(s: Store, p: Pattern): (r: Option<nat>)
    ensures r == Some(|SubnetRowsWithDesc(s, p)|)
  {
    CountIsMatching(s.subnets, SubnetWithDesc(p));
    assert Matching(s.subnets, SubnetWithDesc(p)) == SubnetRowsWithDesc(s, p);
    Some(Count(s.subnets, SubnetWithDesc(p)))
  }

  lemma NumSubnetsIsListLength(s: Store, p: Pattern)
    ensures SubnetListByDesc(s, p).Success? ==> NumSubnetsByDesc(s, p) == Some(|SubnetListByDesc(s, p).value|)
  {
  }

  /** A loop over the matching rows that raised was raised by one of them. */
  lemma FailingRow<T, U>(xs: seq<T>, p: T -> bool, f: T -> Result<U, QueryError>)
    requires MapResult(f, Filter(xs, p)).Failure?
    ensures exists i :: 0 <= i < |xs| && p(xs[i]) && f(xs[i]) == Failure(MapResult(f, Filter(xs, p)).error)
  {
    var ys := Filter(xs, p);
    var k :| 0 <= k < |ys| && f(ys[k]) == Failure(MapResult(f, ys).error);
    FilterMembership(xs, p, ys[k]);
  }

  function HasId(id: int): SubnetRow -> bool
  {
    (row: SubnetRow) => row.id == id
  }

  /** The first subnet row with the given id, if any. */
  function SubnetRowById(s: Store, id: int): (r: Option<SubnetRow>)
    ensures r.None? <==> forall i :: 0 <= i < |s.subnets| ==> s.subnets[i].id != id
    ensures r.Some? ==> r.value.id == id && r.value in s.subnets
  {
    FirstWhere(s.subnets, HasId(id))
  }

  /** `get_subnet_by_id`: the network and description of the subnet row with
      that id, or `None`; it raises when that row does not decode. */
  function SubnetById(s: Store, id: int): (r: Result<Option<SubnetItem>, QueryError>)
    ensures r.Success? && r.value.None? <==> forall i :: 0 <= i < |s.subnets| ==> s.subnets[i].id != id
    ensures r.Failure? <==> SubnetRowById(s, id).Some? && !SubnetDecodes(SubnetRowById(s, id).value)
    ensures r.Success? && r.value.Some? ==>
      exists i :: 0 <= i < |s.subnets| && s.subnets[i].id == id
        && r.value.value == SubnetItem(IpNetwork(FamilyOfInt(s.subnets[i].subnet), s.subnets[i].subnet, s.subnets[i].mask), s.subnets[i].description)
  {
    match SubnetRowById(s, id)
    case None => Success(None)
    case Some(row) =>
      match SubnetItemOf(row)
      case Failure(e) => Failure(e)
      case Success(item) => Success(Some(item))
  }

  function HasIp(v: nat): AddressRow -> bool
  {
    (row: AddressRow) => row.ipAddr == v
  }

  /** `get_hostname_by_ip`: the `dns_name` of the first address row holding
      the address's integer, in any subnet and any state; the family of `ip`
      plays no part. */
  function HostnameByIp(s: Store, ip: Address): (r: Option<string>)
    ensures r.None? <==> forall i :: 0 <= i < |s.addresses| ==> s.addresses[i].ipAddr != ip.value
    ensures r.Some? ==>
      exists i :: 0 <= i < |s.addresses| && s.addresses[i].ipAddr == ip.value && r.value == s.addresses[i].dnsName
        && forall j :: 0 <= j < i ==> s.addresses[j].ipAddr != ip.value
  {
    match FirstIndex(s.addresses, HasIp(ip.value))
    case None => None
    case Some(i) => Some(s.addresses[i].dnsName)
  }

  /** `get_description_by_ip`: the description of that same first row. */
  function DescriptionByIp(s: Store, ip: Address): (r: Option<string>)
    ensures r.None? <==> forall i :: 0 <= i < |s.addresses| ==> s.addresses[i].ipAddr != ip.value
    ensures r.Some? ==>
      exists i :: 0 <= i < |s.addresses| && s.addresses[i].ipAddr == ip.value && r.value == s.addresses[i].description
        && forall j :: 0 <= j < i ==> s.addresses[j].ipAddr != ip.value
  {
    match FirstIndex(s.addresses, HasIp(ip.value))
    case None => None
    case Some(i) => Some(s.addresses[i].description)
  }

  /** The address of `row` with the mask of its subnet row, `IPNetwork(a/mask)`. */
  function NetItemOf(row: AddressRow, subnet: SubnetRow): IpNetItem
  {
    IpNetItem(IpNetwork(FamilyOfInt(row.ipAddr), row.ipAddr, subnet.mask), row.description, row.dnsName)
  }

  /** Whether the loop body of the address-with-prefix lists accepts a row:
      its integer is an address, its subnet row exists, and that row's mask
      fits the address's family. */
  predicate Joinable(s: Store, row: AddressRow)
  {
    && row.ipAddr < Pow2(128)
    && SubnetRowById(s, row.subnetId).Some?
    && SubnetRowById(s, row.subnetId).value.mask <= Width(FamilyOfInt(row.ipAddr))
  }

  /** The loop body of the address-with-prefix lists over `LEFT JOIN subnets
      s ON ip.subnetId = s.id`: decode the address, append the subnet's mask,
      parse the result. Its three ways to raise come in that order. */
  function JoinItem(s: Store, row: AddressRow): (r: Result<IpNetItem, QueryError>)
    ensures r.Success? <==> Joinable(s, row)
    ensures row.ipAddr >= Pow2(128) ==> r == Failure(Malformed(BadAddress(row.ipAddr)))
    ensures row.ipAddr < Pow2(128) && SubnetRowById(s, row.subnetId).None? ==> r == Failure(NoSubnetRow(row.subnetId))
    ensures r.Success? ==> r.value == NetItemOf(row, SubnetRowById(s, row.subnetId).value) && r.value.ip.Valid()
  {
    if row.ipAddr >= Pow2(128) then Failure(Malformed(BadAddress(row.ipAddr)))
    else match SubnetRowById(s, row.subnetId)
      case None => Failure(NoSubnetRow(row.subnetId))
      case Some(subnet) =>
        match NetworkOfInt(row.ipAddr, subnet.mask)
        case Failure(e) => Failure(Malformed(e))
        case Success(net) => Success(IpNetItem(net, row.description, row.dnsName))
  }

  function JoinRow(s: Store): AddressRow -> Result<IpNetItem, QueryError>
  {
    (row: AddressRow) => JoinItem(s, row)
  }

  /** `get_ipnetwork_list_by_desc`: the address rows of
      `get_ip_list_by_desc`, each with its subnet's prefix length; it raises
      when one of them is not joinable. */
  function IpNetworkListByDesc(s: Store, p: Pattern): (r: Result<seq<IpNetItem>, QueryError>)
    ensures r.Failure? <==>
      exists i :: 0 <= i < |s.addresses| && UsedWithDesc(p)(s.addresses[i]) && !Joinable(s, s.addresses[i])
    ensures r.Success? ==> |r.value| == Count(s.addresses, UsedWithDesc(p))
    ensures r.Success? ==> forall it :: it in r.value <==>
      exists i :: 0 <= i < |s.addresses|
        && p(s.addresses[i].description) && s.addresses[i].state == UsedState
        && SubnetRowById(s, s.addresses[i].subnetId).Some?
        && it == NetItemOf(s.addresses[i], SubnetRowById(s, s.addresses[i].subnetId).value)
    ensures r.Success? ==> OnePerRow(r.value, s.addresses, UsedWithDesc(p), JoinRow(s))
  {
    JoinedList(s, UsedWithDesc(p));
    MapResult(JoinRow(s), Filter(s.addresses, UsedWithDesc(p)))
  }

  /** The join loop over the rows selected by `keep`: it raises exactly when
      one of them is not joinable, and otherwise holds one item per row,
      each item as often as the rows that join to it. */
  lemma JoinedList(s: Store, keep: AddressRow -> bool)
    ensures var r := MapResult(JoinRow(s), Filter(s.addresses, keep));
      && (r.Failure? <==> exists i :: 0 <= i < |s.addresses| && keep(s.addresses[i]) && !Joinable(s, s.addresses[i]))
      && (r.Success? ==> |r.value| == Count(s.addresses, keep))
      && (r.Success? ==> forall it :: it in r.value <==>
        exists i :: 0 <= i < |s.addresses| && keep(s.addresses[i])
          && SubnetRowById(s, s.addresses[i].subnetId).Some?
          && it == NetItemOf(s.addresses[i], SubnetRowById(s, s.addresses[i].subnetId).value))
      && (r.Success? ==> OnePerRow(r.value, s.addresses, keep, JoinRow(s)))
  {
    var r := MapResult(JoinRow(s), Filter(s.addresses, keep));
    MapResultFilterFails(s.addresses, keep, JoinRow(s));
    FilterCount(s.addresses, keep);
    if r.Success? {
      forall it ensures it in r.value <==>
        exists i :: 0 <= i < |s.addresses| && keep(s.addresses[i]) && JoinRow(s)(s.addresses[i]) == Success(it)
      {
        MapResultFilterMembership(s.addresses, keep, JoinRow(s), it);
      }
      forall it ensures multiset(r.value)[it] == |RowsYielding(s.addresses, keep, JoinRow(s), it)| {
        MapResultFilterMultiplicity(s.addresses, keep, JoinRow(s), it);
      }
    }
  }

  /** The head of a joined list is the join of the first selected row. */
  lemma JoinHead(s: Store, keep: AddressRow -> bool)
    requires MapResult(JoinRow(s), Filter(s.addresses, keep)).Success?
    ensures Head(MapResult(JoinRow(s), Filter(s.addresses, keep)).value).None? <==>
      forall i :: 0 <= i < |s.addresses| ==> !keep(s.addresses[i])
    ensures Head(MapResult(JoinRow(s), Filter(s.addresses, keep)).value).Some? ==>
      exists i :: 0 <= i < |s.addresses| && keep(s.addresses[i]) && (forall j :: 0 <= j < i ==> !keep(s.addresses[j]))
        && SubnetRowById(s, s.addresses[i].subnetId).Some?
        && Head(MapResult(JoinRow(s), Filter(s.addresses, keep)).value).value
          == NetItemOf(s.addresses[i], SubnetRowById(s, s.addresses[i].subnetId).value)
  {
    MapResultFilterHead(s.addresses, keep, JoinRow(s));
  }

  /** `get_ipnetwork_by_desc`: the first item of that list, or `None`. */
  function IpNetworkByDesc(s: Store, p: Pattern): (r: Result<Option<IpNetItem>, QueryError>)
    ensures r.Failure? <==>
      exists i :: 0 <= i < |s.addresses| && UsedWithDesc(p)(s.addresses[i]) && !Joinable(s, s.addresses[i])
    ensures r.Success? ==> (r.value.None? <==>
      forall i :: 0 <= i < |s.addresses| ==> !(p(s.addresses[i].description) && s.addresses[i].state == UsedState))
    ensures r.Success? && r.value.Some? ==>
      exists i :: 0 <= i < |s.addresses|
        && p(s.addresses[i].description) && s.addresses[i].state == UsedState
        && (forall j :: 0 <= j < i ==> !(p(s.addresses[j].description) && s.addresses[j].state == UsedState))
        && SubnetRowById(s, s.addresses[i].subnetId).Some?
        && r.value.value == NetItemOf(s.addresses[i], SubnetRowById(s, s.addresses[i].subnetId).value)
  {
    match IpNetworkListByDesc(s, p)
    case Failure(e) => Failure(e)
    case Success(items) =>
      JoinHead(s, UsedWithDesc(p));
      Success(Head(items))
  }

  /** `WHERE s.description LIKE p AND ip.state = 1` over the join: address
      rows in state 1 whose subnet row's description matches. */
  function UsedInSubnetNamed(s: Store, p: Pattern): AddressRow -> bool
  {
    (row: AddressRow) => row.state == UsedState && SubnetRowById(s, row.subnetId).Some?
      && p(SubnetRowById(s, row.subnetId).value.description)
  }

  /** `get_ipnetwork_list_by_subnet_name`: the state-1 addresses of the
      subnets whose description matches, each with its subnet's prefix
      length. Every selected row has a subnet row, so the loop raises only on
      a value netaddr refuses. */
  function IpNetworkListBySubnetName(s: Store, p: Pattern): (r: Result<seq<IpNetItem>, QueryError>)
    ensures r.Failure? <==>
      exists i :: 0 <= i < |s.addresses| && UsedInSubnetNamed(s, p)(s.addresses[i])
        && !(s.addresses[i].ipAddr < Pow2(128) && SubnetRowById(s, s.addresses[i].subnetId).value.mask <= Width(FamilyOfInt(s.addresses[i].ipAddr)))
    ensures r.Failure? ==> r.error.Malformed?
    ensures r.Success? ==> |r.value| == Count(s.addresses, UsedInSubnetNamed(s, p))
    ensures r.Success? ==> forall it :: it in r.value <==>
      exists i :: 0 <= i < |s.addresses|
        && s.addresses[i].state == UsedState && SubnetRowById(s, s.addresses[i].subnetId).Some?
        && p(SubnetRowById(s, s.addresses[i].subnetId).value.description)
        && it == NetItemOf(s.addresses[i], SubnetRowById(s, s.addresses[i].subnetId).value)
    ensures r.Success? ==> OnePerRow(r.value, s.addresses, UsedInSubnetNamed(s, p), JoinRow(s))
  {
    var r := MapResult(JoinRow(s), Filter(s.addresses, UsedInSubnetNamed(s, p)));
    JoinedList(s, UsedInSubnetNamed(s, p));
    if r.Success? then r
    else
      FailingRow(s.addresses, UsedInSubnetNamed(s, p), JoinRow(s));
      r
  }

  /** `get_ipnetwork_by_subnet_name` as written: it calls the by-description
      list, so the pattern is matched against address descriptions, not
      against subnet names. */
  function IpNetworkBySubnetName(s: Store, p: Pattern): (r: Result<Option<IpNetItem>, QueryError>)
    ensures r.Failure? <==>
      exists i :: 0 <= i < |s.addresses| && UsedWithDesc(p)(s.addresses[i]) && !Joinable(s, s.addresses[i])
    ensures r.Success? ==> (r.value.None? <==>
      forall i :: 0 <= i < |s.addresses| ==> !(p(s.addresses[i].description) && s.addresses[i].state == UsedState))
    ensures r.Success? && r.value.Some? ==>
      exists i :: 0 <= i < |s.addresses|
        && p(s.addresses[i].description) && s.addresses[i].state == UsedState
        && (forall j :: 0 <= j < i ==> !(p(s.addresses[j].description) && s.addresses[j].state == UsedState))
        && SubnetRowById(s, s.addresses[i].subnetId).Some?
        && r.value.value == NetItemOf(s.addresses[i], SubnetRowById(s, s.addresses[i].subnetId).value)
  {
    match IpNetworkListByDesc(s, p)
    case Failure(e) => Failure(e)
    case Success(items) =>
      JoinHead(s, UsedWithDesc(p));
      Success(Head(items))
  }

  /** What `get_ipnetwork_by_subnet_name` evidently means: the first item of
      `get_ipnetwork_list_by_subnet_name`, i.e. the first state-1 address
      row whose subnet's description matches, or `None`. */
  function IpNetworkBySubnetNameIntended(s: Store, p: Pattern): (r: Result<Option<IpNetItem>, QueryError>)
    ensures r.Failure? <==> IpNetworkListBySubnetName(s, p).Failure?
    ensures r.Success? ==> (r.value.None? <==> forall i :: 0 <= i < |s.addresses| ==> !UsedInSubnetNamed(s, p)(s.addresses[i]))
    ensures r.Success? && r.value.Some? ==>
      exists i :: 0 <= i < |s.addresses|
        && s.addresses[i].state == UsedState && SubnetRowById(s, s.addresses[i].subnetId).Some?
        && p(SubnetRowById(s, s.addresses[i].subnetId).value.description)
        && (forall j :: 0 <= j < i ==> !UsedInSubnetNamed(s, p)(s.addresses[j]))
        && r.value.value == NetItemOf(s.addresses[i], SubnetRowById(s, s.addresses[i].subnetId).value)
  {
    match IpNetworkListBySubnetName(s, p)
    case Failure(e) => Failure(e)
    case Success(items) =>
      JoinHead(s, UsedInSubnetNamed(s, p));
      Success(Head(items))
  }

  /** The subnet `10.1.0.0/28` named "TEST /28 SUBNET", holding `10.1.0.1`
      described "test ip #1". */
  function NamedSubnetStore(): Store
  {
    Store([SubnetRow(1, 167837696, 28, "TEST /28 SUBNET")],
          [AddressRow(1, 167837697, "test ip #1", "test-ip-1", UsedState)])
  }

  /** A pattern matching exactly the subnet's name. */
  function SubnetNamePattern(): Pattern
  {
    (d: string) => d == "TEST /28 SUBNET"
  }

  /** Looking the subnet up by its name finds nothing as written, because
      the name is matched against address descriptions. */
  lemma BySubnetNameMatchesAddressDescriptions()
    ensures IpNetworkBySubnetName(NamedSubnetStore(), SubnetNamePattern()) == Success(None)
  {
    var s := NamedSubnetStore();
    var p := SubnetNamePattern();
    assert "test ip #1"[0] != "TEST /28 SUBNET"[0];
    assert !UsedWithDesc(p)(s.addresses[0]);
  }

  /** The intended lookup by subnet name finds `10.1.0.1/28`. */
  lemma BySubnetNameIntendedFindsSubnetAddress()
    ensures IpNetworkBySubnetNameIntended(NamedSubnetStore(), SubnetNamePattern())
      == Success(Some(IpNetItem(IpNetwork(V4, 167837697, 28), "test ip #1", "test-ip-1")))
  {
    var s := NamedSubnetStore();
    var p := SubnetNamePattern();
    assert SubnetRowById(s, 1) == Some(s.subnets[0]);
    assert UsedInSubnetNamed(s, p)(s.addresses[0]);
    Pow2Of32();
    Pow2Of128();
    assert FamilyOfInt(167837697) == V4;
    assert Joinable(s, s.addresses[0]);
  }
}
