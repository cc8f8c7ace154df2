# phpIPAM allocation backend, modelled in Dafny

This project models the allocation core of the `PHPIPAM` backend of
`ipam-client`. The backend hands out IP addresses from subnets recorded in a
phpIPAM database. The model replaces the SQL connection with an immutable
`Store` value holding two tables:

- `subnets` rows: `id`, integer network `subnet`, `mask`, `description`;
- `ipaddresses` rows: `subnetId`, integer `ip_addr`, `description`,
  `dns_name`, `state`.

Every modelled backend method becomes a pure function over that value. The
section methods are not modelled (see "Left out"). Each raised `ValueError`,
and each `AddrFormatError` netaddr raises on a stored value, becomes a
`Failure` carrying the error kind. Each `None` return becomes an `Option`.
A failed operation returns no new store, so the store stays as it was.

An address is a family (`V4`/`V6`) plus an unsigned integer. Decoding a
stored integer with `IPAddress(int)` gives IPv4 below 2^32, IPv6 below
2^128, and an `AddrFormatError` above that. An
`IpNetwork` is netaddr's `IPNetwork`: an address, which may have host bits
set, plus a prefix length. It has size `2^(width - prefix)`, and its network
address `First()` is the address with the host bits cleared.

Modules:

- `Wrappers` (`wrappers.dfy`): `Option` and `Result`.
- `Seqs` (`seqs.dfy`): the SQL shapes the backend relies on. A `WHERE` is
  `Filter`, `fetchone()` is `FirstIndex`, `COUNT` is `Count`, and
  `ORDER BY ... ASC` is `Sort`.
- `AddressSpace` (`address_space.dfy`): families, `IpNetwork`, the host
  policy and the masking arithmetic.
- `Store` (`store.dfy`): the tables, `find_subnet_id` and
  `get_allocated_ips_by_subnet_id`.
- `Allocation` (`allocation.dfy`): `get_next_free_ip`, `add_ip` and
  `add_next_ip`.
- `Queries` (`queries.dfy`): the lookups by description, by id and by
  address.
- `Scenarios` (`scenarios.dfy`): allocation cases from the backend's test
  suite.

Host policy. `get_next_free_ip` takes its hosts from netaddr's `iter_hosts`
and adds the network address for a /127. netaddr is not part of this model.
The host range is pinned as follows:

- IPv4 of prefix 30 or shorter: the network address + 1 up to the broadcast
  address − 1.
- IPv4 /31 and /32: every address.
- IPv6 of prefix 126 or shorter: the network address + 1 up to the last
  address.
- IPv6 /127: both addresses.
- IPv6 /128: no host. The netaddr the backend is written against skips the
  network address of every IPv6 network. The 2001::40/125 test shows this,
  because 2001::40 is never handed out. The backend adds the network address
  back only for a /127. So a /128, whose one address is its network
  address, has no host, and the search reports it full.

The search scans upward from the first host and stops at the first integer
that is not in the used list. It looks at no more than `|used| + 1`
candidates (`ScanStopsEarly`). `ScanYieldsLeastFree` proves that the scan returns the least
element of hosts minus used. The source gets the same element by sorting
that set difference and taking the first element, but only when it
finishes: it builds the whole host set first, which is out of reach for an
IPv6 /64 (see "Left out"). The two searches differ
only in their used list:

- `NextFreeIp` uses every allocated integer of the subnet. This is the
  corrected search, and `AddNextIp` is built on it.
- `NextFreeIpAsWritten` uses only the decoded addresses of the subnet's own
  family, as the code does. This differs for IPv6 subnets below 2^32 (see
  the first finding).

Two details of the code shape the model:

- `state` is ignored by the allocation paths, both the listing of used
  addresses and the duplicate check. The description queries filter on
  `state = 1`.
- `get_ipnetwork_by_subnet_name` queries the by-description list. See the
  second finding below.

## Model

| member | source | states |
|---|---|---|
| `Store.FindSubnetId` | ipam/client/backends/phpipam.py:49-57 | Returns the id of the first subnet row whose integer network and mask both equal those of the network. Returns `None` exactly when no row matches both. |
| `Store.AllocatedIps` | ipam/client/backends/phpipam.py:122-127 | Fails exactly when a row of the subnet holds an integer of 2^128 or more, with that integer as the error. Otherwise returns exactly the `ip_addr` values of the subnet's rows, with multiplicity and whatever their state. They come in ascending order, each decoded by `IPAddress(int)`. A value appears exactly when the subnet has a row for it. |
| `AddressSpace.AddressOfInt` | ipam/client/backends/phpipam.py:126 | `IPAddress(int)` fails exactly when the integer is 2^128 or more. Otherwise it keeps the integer, which fits its family's width. The address is IPv4 exactly when the integer is below 2^32. |
| `AddressSpace.IntRoundTrip` | ipam/client/backends/phpipam.py:126 | Decoding an address's integer gives back that address exactly when the value fits its family and the family is the one the value's magnitude implies. |
| `AddressSpace.NetworkOfInt` | ipam/client/backends/phpipam.py:235-236 | `IPNetwork("%s/%s" % (IPAddress(v), mask))` fails on `v` when `v` is 2^128 or more. It fails on the prefix exactly when the mask exceeds the width of the family `v`'s magnitude implies, so a value below 2^32 with a mask over 32 fails. Otherwise it is a valid network that keeps `v` and the mask. |
| `AddressSpace.HostCount` | ipam/client/backends/phpipam.py:99-107 | Host-range size is size − 2 for IPv4 of prefix 30 or shorter, size − 1 for IPv6 of prefix 126 or shorter, and the whole network for /31, /32 and /127. A /32 yields its one address, and an IPv6 /128 yields none. |
| `AddressSpace.NetworkBounds` | ipam/client/backends/phpipam.py:99 | The network address is aligned to the size. The network lies inside its family's address space. The host range lies within the network. |
| `AddressSpace.SameNetwork` | ipam/client/backends/phpipam.py:120 | Pairing any address of the network with the network's prefix gives a valid `IPNetwork` with the same network address. |
| `Seqs.MapResult` | ipam/client/backends/phpipam.py:160-169 | A loop whose body may raise fails exactly when some element's body fails. It fails with the error of the first failing element. Otherwise it yields one output per input, in order. |
| `Seqs.MapResultFilterMembership` | ipam/client/backends/phpipam.py:160-169 | When such a loop over the selected rows finishes, a value is among its outputs exactly when some selected row yields it. |
| `Seqs.MapResultFilterMultiplicity` | ipam/client/backends/phpipam.py:160-169 | When such a loop finishes, each value occurs in its outputs exactly as many times as there are selected rows that yield it. |
| `Seqs.CountIsMatching` | ipam/client/backends/phpipam.py:261-269 | The recursive count equals the number of indices whose element matches. |
| `Allocation.ScanFree` | ipam/client/backends/phpipam.py:109-120 | A hit lies in range, is not used, and every lower value of the range is used. No hit means every value of the range is used. |
| `Allocation.ScanStopsEarly` | ipam/client/backends/phpipam.py:109-120 | The scan's answer lies at most `|used|` past the first host. It finds nothing only when the host range is no longer than the used list. |
| `Allocation.ScanYieldsLeastFree` | ipam/client/backends/phpipam.py:109-120 | The bounded scan returns the least element of the range minus the used values. It returns nothing exactly when that set is empty. |
| `Allocation.NextFreeIp` | ipam/client/backends/phpipam.py:90-120 | Fails with "Unable to get subnet id" exactly when the lookup fails. Then fails with the format error when a row of the subnet holds no address. Otherwise fails with "is full" exactly when no host of the subnet is free, and returns the least free host with the subnet's family and prefix. |
| `Allocation.SingleV6IsFull` | ipam/client/backends/phpipam.py:99-118 | For an IPv6 /128 subnet that is found and whose rows decode, the search reports "is full" whatever the rows hold. |
| `Allocation.FullIffEveryHostAllocated` | ipam/client/backends/phpipam.py:109-118 | "is full" is reported exactly when every row of the subnet holds an address and every host of the subnet already has a row. |
| `Allocation.LeastAvailableAnswered` | ipam/client/backends/phpipam.py:109-120 | When `v` is free and every host below `v` has a row, the search returns `v` with the subnet's prefix. |
| `Allocation.AddIp` | ipam/client/backends/phpipam.py:59-80 | Fails with "Unable to get subnet id" when the lookup fails. Fails with "already registered" exactly when the subnet already has a row for that integer. Otherwise appends exactly one row `(subnetId, ip, description, dns_name)` in state 1 and changes nothing else. |
| `Allocation.SameLookup` | ipam/client/backends/phpipam.py:49-53 | The lookup depends only on the network integer and the prefix length. So `add_ip` of an address finds the same subnet as its network does. |
| `Allocation.AddNextIp` | ipam/client/backends/phpipam.py:82-88 | Built on the corrected search. Fails with exactly the search's error. Otherwise returns the address the search computed before the insert and appends that address's row. With this search the insert is never refused, and the subnet's rows still all hold addresses afterwards. |
| `Allocation.AddNextIpConsumesLeast` | ipam/client/backends/phpipam.py:82-88 | Afterwards the subnet's free hosts are the previous ones minus the returned address. The next search returns a strictly higher address, or "is full" exactly when that address was the last free host. |
| `Allocation.DecodableAfterAppend` | ipam/client/backends/phpipam.py:74-78 | Inserting a row whose integer is an address keeps every subnet's rows decodable. |
| `Allocation.AddIpPreservesNoDuplicates` | ipam/client/backends/phpipam.py:67-78 | If no two rows shared a (subnet, address) pair before a successful `add_ip`, none do after it. |
| `Allocation.ScanDependsOnlyOnRange` | ipam/client/backends/phpipam.py:109-112 | Two used-lists that agree on the host range give the same scan result. |
| `Allocation.NextFreeIpAsWritten` | ipam/client/backends/phpipam.py:90-120 | Models the search as written. It has the same lookup and format failures as `NextFreeIp`. It fails with "is full" exactly when every host's netaddr object, family included, is among the decoded used addresses. Otherwise it returns the least host that is not. |
| `Allocation.AsWrittenOffersAllocatedAddress` | ipam/client/backends/phpipam.py:109-112 | In IPv6 `::/125` with `::1` registered, the as-written search offers `::1`. `add_ip` then refuses it as "already registered". The corrected search offers `::2`. |
| `Allocation.AsWrittenAgreesOutsideLowV6` | ipam/client/backends/phpipam.py:109-112 | For IPv4 subnets, and IPv6 subnets at or above 2^32, the as-written and corrected searches agree. |
| `Queries.IpItemOf` | ipam/client/backends/phpipam.py:213-217 | An item fails exactly when `ip_addr` is 2^128 or more. Otherwise it holds the decoded address with the row's description and DNS name. |
| `Queries.IpListByDesc` | ipam/client/backends/phpipam.py:206-219 | Fails exactly when a row in state 1 whose description matches holds no address. Otherwise its items are exactly `(IPAddress(ip_addr), description, dns_name)` of those rows. Each item occurs as many times as the rows that give it, so there is one item per row. |
| `Queries.IpByDesc` | ipam/client/backends/phpipam.py:221-226 | Fails exactly when the list fails. Otherwise returns `None` exactly when no row in state 1 matches, and else the item of the first matching row. |
| `Queries.SoleMatchFound` | ipam/client/backends/phpipam.py:206-226 | When exactly one row in state 1 matches and it holds an address, `get_ip_by_desc` returns that row's `(IPAddress(ip_addr), description, dns_name)`. |
| `Queries.NumIpsByDesc` | ipam/client/backends/phpipam.py:261-269 | The count is always present. It is the number of rows in state 1 whose description matches. |
| `Queries.NumIpsIsListLength` | ipam/client/backends/phpipam.py:206-219 | Whenever `get_ip_list_by_desc` succeeds, `get_num_ips_by_desc` equals its length for the same pattern. |
| `Queries.SubnetItemOf` | ipam/client/backends/phpipam.py:233-238 | An item fails exactly when the row's network or mask is refused by netaddr. Otherwise it holds a valid network with the row's integer and mask and the row's description. |
| `Queries.SubnetListByDesc` | ipam/client/backends/phpipam.py:228-239 | Fails exactly when a matching subnet row does not decode. Otherwise its items are exactly the networks `IPNetwork(subnet/mask)` and descriptions of those rows, with no state filter. Each item occurs as many times as the rows that give it. |
| `Queries.SubnetByDesc` | ipam/client/backends/phpipam.py:241-246 | Fails exactly when the list fails. Otherwise returns `None` exactly when no subnet row matches, and else the item of the first matching row. |
| `Queries.NumSubnetsByDesc` | ipam/client/backends/phpipam.py:271-278 | The count is always present. It is the number of subnet rows whose description matches. |
| `Queries.NumSubnetsIsListLength` | ipam/client/backends/phpipam.py:228-239 | Whenever `get_subnet_list_by_desc` succeeds, `get_num_subnets_by_desc` equals its length. |
| `Queries.SubnetById` | ipam/client/backends/phpipam.py:248-259 | Returns `None` exactly when no subnet row has that id. Fails exactly when the first row with that id does not decode. Otherwise returns the network and description of a row with that id. |
| `Queries.HostnameByIp` | ipam/client/backends/phpipam.py:129-137 | Returns the `dns_name` of the first row holding the address integer, in any subnet, state or family. Returns `None` exactly when no row holds it. |
| `Queries.DescriptionByIp` | ipam/client/backends/phpipam.py:139-147 | Returns the description of the first row holding the address integer. Returns `None` exactly when no row holds it. |
| `Queries.JoinItem` | ipam/client/backends/phpipam.py:162-169 | The loop body of the joined lists. It succeeds exactly when the address decodes, its subnet row exists, and the mask fits the address's family. It fails first on the address, then on a missing subnet row. On success it gives the address with its subnet's mask. |
| `Queries.JoinedList` | ipam/client/backends/phpipam.py:160-170 | The joined loop over the selected rows fails exactly when one of them is not joinable. Otherwise its items are exactly those rows' joins, and each item occurs as many times as the selected rows that join to it. |
| `Queries.IpNetworkListByDesc` | ipam/client/backends/phpipam.py:149-170 | Fails exactly when a row in state 1 whose description matches is not joinable. Otherwise its items are exactly those rows' addresses with their subnets' masks. Each item occurs as many times as the rows that give it. |
| `Queries.IpNetworkByDesc` | ipam/client/backends/phpipam.py:172-177 | Fails exactly when the list fails. Otherwise returns `None` exactly when no row in state 1 matches, and else the item of the first matching row. |
| `Queries.IpNetworkListBySubnetName` | ipam/client/backends/phpipam.py:179-197 | Every selected row has a subnet row, so it fails only with a format error, and exactly when a selected address or mask is refused. Otherwise its items are exactly the rows in state 1 whose subnet's description matches, each with its subnet's mask. Each item occurs as many times as the rows that give it. |
| `Queries.IpNetworkBySubnetName` | ipam/client/backends/phpipam.py:199-204 | Models the lookup as written. Fails exactly when a row in state 1 whose description matches is not joinable, which is when the by-description list fails. Otherwise returns `None` exactly when no address description matches the pattern, and else the first row whose address description matches. |
| `Queries.IpNetworkBySubnetNameIntended` | ipam/client/backends/phpipam.py:179-197 | The intended lookup fails exactly when the by-subnet-name list fails. Otherwise it returns `None` exactly when no row in state 1 lies in a subnet whose description matches, and else the first such row with its subnet's mask. |
| `Queries.BySubnetNameMatchesAddressDescriptions` | ipam/client/backends/phpipam.py:199-204 | Looking up 10.1.0.0/28 by its own name, "TEST /28 SUBNET", finds nothing as written. |
| `Queries.BySubnetNameIntendedFindsSubnetAddress` | ipam/client/backends/phpipam.py:179-197 | The same lookup, done as intended, finds `10.1.0.1/28`. |
| `Scenarios.NextFreeInTwentyEight` | ipam/client/tests/test_phpipam.py:287-290 | In 10.1.0.0/28 with .1-.3 and .7-.10 registered, the next free address is `10.1.0.4/28`. |
| `Scenarios.AddNextEach` | ipam/client/backends/phpipam.py:82-88 | A run of `add_next_ip` calls that succeeds hands out one address per call. It leaves `subnets` unchanged, keeps the existing rows and adds exactly one row per call. |
| `Scenarios.FillsInOrder` | ipam/client/backends/phpipam.py:82-120 | When the subnet's free hosts are, ascending, `free`, consecutive calls hand them out in that order and leave the rest free. |
| `Scenarios.FillsUp` | ipam/client/backends/phpipam.py:82-120 | One call per free host hands out all of them in ascending order. The next search then reports "is full". |
| `Scenarios.TwentyEightFillsUp` | ipam/client/tests/test_phpipam.py:97-114 | In 10.1.0.0/28 with .1-.3 and .7-.10 registered, seven calls get .4, .5, .6, .11, .12, .13 and .14, and the subnet is then full. |
| `Scenarios.PointToPointFillsUp` | ipam/client/tests/test_phpipam.py:133-143 | On the empty 10.4.0.0/31 the first call gets the network address 10.4.0.0, as the test checks. Continuing past the test, the second call gets 10.4.0.1 and the subnet is then full. |
| `Scenarios.TenFiveFillsUp` | ipam/client/tests/test_phpipam.py:145-159 | In 10.5.0.0/31 with 10.5.0.0 registered, one call gets 10.5.0.1, and the subnet is then full. |
| `Scenarios.V6OneTwentyFiveFillsUp` | ipam/client/tests/test_phpipam.py:161-241 | In the empty 2001::40/125, seven calls get 2001::41 to 2001::47 in order, and the subnet is then full. |
| `Scenarios.V6OneTwentySevenFillsUp` | ipam/client/tests/test_phpipam.py:243-268 | In the empty 2001::50/127, two calls get 2001::50 and 2001::51, and the subnet is then full. |
| `Scenarios.AddThenFind` | ipam/client/tests/test_phpipam.py:104-110 | After a successful `add_next_ip` under a description that no row in state 1 matches yet, `get_ip_by_desc` with it returns the new address, decoded by `IPAddress(int)`, with the given DNS name and description. |
| `Scenarios.UnknownSubnet` | ipam/client/tests/test_phpipam.py:308-310 | For an unknown subnet, both the search and `add_ip` fail with "Unable to get subnet id". |

## Left out

- Connection setup, the cursor, `commit` and `__del__` (`phpipam.py:11-30`, `280-281`) are I/O. The store is a value.
- `set_section_id` and `get_section_id` (`phpipam.py:32-33`, `46-47`) are left out. They are a setter and a getter of a field that none of the modelled queries reads.
- `set_section_id_by_name` (`phpipam.py:35-44`) is left out. It is a lookup in the `sections` table, which is not part of the store.
- SQL `LIKE` matching is the database's behaviour. A pattern is modelled as an arbitrary predicate on strings.
- Descriptions containing quotes would break the string-built queries. This is not modelled.
- netaddr's text formatting and parsing are modelled only through their outcome: the value's magnitude picks the family, and the prefix must fit that family. Masks and address integers are naturals. A `mask` that is not a decimal integer, or a negative stored integer, would also raise, and neither is modelled.
- Subnet ids are taken to be unique, as the table's primary key. With duplicate ids the `LEFT JOIN` would give one item per matching subnet row, while the model joins the first row with that id. The same holds for `vlans.vlanId` in the join of `get_ipnetwork_list_by_desc`.
- The `vlan_id` and `subnet_name` columns of the address-with-prefix lists are pass-through values and are not modelled.
- Queries without `ORDER BY` return rows in insertion order. The database does not promise this.
- `ORDER BY ip_addr ASC` is modelled as numeric order. The column's type is not part of this model; if it is text, the database sorts by string.
- Allocation.AddNextIp: it is built on the corrected search. With the search as written, the insert can be refused; `AsWrittenOffersAllocatedAddress` shows this, and no as-written `add_next_ip` is modelled beyond it.
- The "Unable to add IP address" branch of `add_next_ip` (`phpipam.py:86-87`) cannot be reached. `add_ip` either returns `True` or raises, so the model has no such error.
- The state of an inserted row is the database default. It is taken as 1, because the tests find freshly added rows through the `state = 1` queries (`AddThenFind`).
- `delete_ip` and the `get_ip_interface_*` methods are called by the tests but do not exist in the backend, so they are not modelled.
- There is no locking or transaction in the code, so no concurrency is modelled.
- The scenario stores hold only the rows the tests rely on. The test database file is not part of this model, so the ids and descriptions of the IPv6 test subnets are illustrative.
- Queries.IpListByDesc: its contract gives the items with their multiplicities, but not their table order, which comes from the database.
- Queries.SubnetListByDesc: its contract gives the items with their multiplicities, but not their order.
- Queries.IpNetworkListBySubnetName: its contract gives the items with their multiplicities, but not their order.
- Queries.IpNetworkListByDesc: its contract gives the items with their multiplicities, but not their order.
- Queries.JoinedList: its contract gives the joined items with their multiplicities, but not their order.
- Allocation.NextFreeIp: the model gives the source's answer only where the source finishes. The source builds the whole host set of the subnet, and then a sorted list of the free hosts (`phpipam.py:99-115`). For an IPv6 /64 that is 2^64 objects, so the source runs out of memory or does not return. The model's scan looks at no more than `|used| + 1` candidates (`ScanStopsEarly`), so it answers for subnets of every size.

## Findings

| source | as written | input that shows it | evidently intended | confidence | as-written member | corrected member |
|---|---|---|---|---|---|---|
| ipam/client/backends/phpipam.py:109-112 | Used addresses are decoded with `IPAddress(int)`, which picks IPv4 below 2^32. They are then compared with the subnet's hosts as netaddr objects, family included. | IPv6 subnet `::/125` with `::1` registered: the search offers `::1`, and `add_next_ip` then fails with "already registered". | Every registered address of the subnet is excluded, whatever its magnitude, so `::2/125` is offered. | medium (relies on netaddr's integer constructor); not executed | `Allocation.NextFreeIpAsWritten` | `Allocation.NextFreeIp` |
| ipam/client/backends/phpipam.py:199-204 | `get_ipnetwork_by_subnet_name` calls `get_ipnetwork_list_by_desc`, so the pattern is matched against address descriptions. | 10.1.0.0/28 named "TEST /28 SUBNET" holding `10.1.0.1` "test ip #1": the lookup by that name returns `None`. | The first item of `get_ipnetwork_list_by_subnet_name`, which is `10.1.0.1/28`. | high; not executed | `Queries.IpNetworkBySubnetName` | `Queries.IpNetworkBySubnetNameIntended` |
