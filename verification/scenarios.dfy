/** The allocation scenarios of the backend's test suite, stated over small
    stores holding the same subnets and addresses. */
module Scenarios {
  import opened Wrappers
  import opened Seqs
  import opened AddressSpace
  import opened Store
  import opened Allocation
  import opened Queries

  const Net10_1: nat := 167837696   // 10.1.0.0

  /** `10.1.0.0/28` (id 1) with `.1`-`.3` and `.7`-`.10` registered. */
  function TwentyEightStore(): Store
  {
    Store([SubnetRow(1, Net10_1, 28, "TEST /28 SUBNET")],
          [AddressRow(1, Net10_1 + 1, "test ip #1", "test-ip-1", UsedState),
           AddressRow(1, Net10_1 + 2, "test ip #2", "test-ip-2", UsedState),
           AddressRow(1, Net10_1 + 3, "test ip #3", "test-ip-3", UsedState),
           AddressRow(1, Net10_1 + 7, "test ip #4", "test-ip-4", UsedState),
           AddressRow(1, Net10_1 + 8, "test ip #5", "test-ip-5", UsedState),
           AddressRow(1, Net10_1 + 9, "test ip #6", "test-ip-6", UsedState),
           AddressRow(1, Net10_1 + 10, "test ip #7", "test-ip-7", UsedState)])
  }

  function TwentyEight(): IpNetwork
  {
    IpNetwork(V4, Net10_1, 28)
  }

  /** `10.1.0.0/28` is a valid network whose hosts are `.1` to `.14`, and the
      store knows it as subnet 1. */
  lemma TwentyEightShape()
    ensures TwentyEight().Valid()
    ensures TwentyEight().First() == Net10_1
    ensures TwentyEight().FirstHost() == Net10_1 + 1 && TwentyEight().LastHost() == Net10_1 + 14
    ensures FindSubnetId(TwentyEightStore(), TwentyEight()) == Some(1)
  {
    Pow2Of32();
    var n := TwentyEight();
    assert Pow2(4) == 16;
    assert n.Size() == 16;
    DivModUnique(Net10_1, 16, 10489856, 0);
    assert TwentyEightStore().subnets[0].subnet == n.First();
  }

  /** The test's /28 has `.1`-`.3` and `.7`-`.10` allocated, all of them addresses. */
  lemma TwentyEightAllocated(s: Store)
    requires s == TwentyEightStore()
    ensures forall x: nat :: Allocated(s, 1, x) <==> Net10_1 + 1 <= x <= Net10_1 + 3 || Net10_1 + 7 <= x <= Net10_1 + 10
    ensures Decodable(s, 1)
  {
    forall x: nat
      ensures Allocated(s, 1, x) <==> Net10_1 + 1 <= x <= Net10_1 + 3 || Net10_1 + 7 <= x <= Net10_1 + 10
    {
      if Allocated(s, 1, x) {
        var i :| 0 <= i < |s.addresses| && s.addresses[i].subnetId == 1 && s.addresses[i].ipAddr == x;
        assert i == 0 || i == 1 || i == 2 || i == 3 || i == 4 || i == 5 || i == 6;
      }
      if Net10_1 + 1 <= x <= Net10_1 + 3 {
        assert s.addresses[x - Net10_1 - 1].ipAddr == x;
      }
      if Net10_1 + 7 <= x <= Net10_1 + 10 {
        assert s.addresses[x - Net10_1 - 4].ipAddr == x;
      }
    }
    Pow2Of32();
    Pow2Of128();
    forall i | 0 <= i < |s.addresses| && s.addresses[i].subnetId == 1
      ensures s.addresses[i].ipAddr < Pow2(128)
    {
      assert Allocated(s, 1, s.addresses[i].ipAddr);
    }
  }

  /** The lowest free host of the test's /28 is `10.1.0.4`. */
  lemma NextFreeInTwentyEight(s: Store, n: IpNetwork)
    requires s == TwentyEightStore() && n == TwentyEight()
    ensures n.Valid()
    ensures NextFreeIp(s, n) == Success(IpNetwork(V4, Net10_1 + 4, 28))
  {
    TwentyEightShape();
    TwentyEightAllocated(s);
    LeastAvailableAnswered(s, n, 1, Net10_1 + 4);
  }

  const Net10_4: nat := 168034304   // 10.4.0.0

  /** The empty point-to-point subnet `10.4.0.0/31` (id 4). */
  function PointToPointStore(): Store
  {
    Store([SubnetRow(4, Net10_4, 31, "TEST /31 SUBNET GROUP")], [])
  }

  function PointToPoint(): IpNetwork
  {
    IpNetwork(V4, Net10_4, 31)
  }

  /** Both addresses of `10.4.0.0/31` are hosts, and neither is allocated. */
  lemma PointToPointShape()
    ensures PointToPoint().Valid()
    ensures PointToPoint().FirstHost() == Net10_4 && PointToPoint().LastHost() == Net10_4 + 1
    ensures PointToPoint().First() == Net10_4
    ensures FindSubnetId(PointToPointStore(), PointToPoint()) == Some(4)
    ensures Available(PointToPointStore(), 4, PointToPoint()) == {Net10_4, Net10_4 + 1}
  {
    Pow2Of32();
    var n := PointToPoint();
    assert n.Size() == 2;
    DivModUnique(Net10_4, 2, 84017152, 0);
    assert PointToPointStore().subnets[0].subnet == n.First();
  }

  /** One `add_next_ip` on a subnet of the store succeeds, hands out the
      least available host and leaves the others available. */
  lemma AddNextStep(s: Store, n: IpNetwork, dnsName: string, description: string, id: int, v: nat)
    requires n.Valid()
    requires FindSubnetId(s, n) == Some(id) && Decodable(s, id)
    requires v in Available(s, id, n) && forall x :: x in Available(s, id, n) ==> v <= x
    ensures AddNextIp(s, n, dnsName, description).Success?
    ensures var a := AddNextIp(s, n, dnsName, description).value;
      && a.address.ip == v
      && FindSubnetId(a.store, n) == Some(id) && Decodable(a.store, id)
      && Available(a.store, id, n) == Available(s, id, n) - {v}
  {
    AddNextIpConsumesLeast(s, n, dnsName, description);
    var a := AddNextIp(s, n, dnsName, description).value;
    assert IsLeast(a.address.ip, Available(s, id, n));
  }

  /** The name and description one `add_next_ip` call registers. */
  datatype Request = Request(dnsName: string, description: string)

  /** The addresses a sequence of `add_next_ip` calls handed out, in call
      order, and the store after the last of them. */
  datatype Run = Run(handedOut: seq<nat>, store: Store)

  /** `add_next_ip` called once per request on subnet `n`, each call on the
      store the previous one left; the first error stops the run. */
  function AddNextEach(s: Store, n: IpNetwork, reqs: seq<Request>): (r: Result<Run, Error>)
    requires n.Valid()
    ensures r.Success? ==> |r.value.handedOut| == |reqs|
    ensures r.Success? ==> r.value.store.subnets == s.subnets
    ensures r.Success? ==> |r.value.store.addresses| == |s.addresses| + |reqs|
    ensures r.Success? ==> r.value.store.addresses[..|s.addresses|] == s.addresses
    decreases |reqs|
  {
    if |reqs| == 0 then Success(Run([], s))
    else match AddNextIp(s, n, reqs[0].dnsName, reqs[0].description)
      case Failure(e) => Failure(e)
      case Success(a) =>
        match AddNextEach(a.store, n, reqs[1..])
        case Failure(e) => Failure(e)
        case Success(run) =>
          PrefixOfPrefix(run.store.addresses, a.store.addresses, s.addresses);
          Success(Run([a.address.ip] + run.handedOut, run.store))
  }

  lemma PrefixOfPrefix<T>(zs: seq<T>, ys: seq<T>, xs: seq<T>)
    requires |ys| <= |zs| && zs[..|ys|] == ys
    requires |xs| <= |ys| && ys[..|xs|] == xs
    ensures zs[..|xs|] == xs
  {
    assert zs[..|xs|] == zs[..|ys|][..|xs|];
  }

  predicate Increasing(xs: seq<nat>)
  {
    forall i, j :: 0 <= i < j < |xs| ==> xs[i] < xs[j]
  }

  /** Subnet `n` is subnet `id` of the store, every row of it holds an
      address, and its available hosts are, in ascending order, `free`. */
  ghost predicate Ready(s: Store, n: IpNetwork, id: int, free: seq<nat>)
    requires n.Valid()
  {
    && FindSubnetId(s, n) == Some(id) && Decodable(s, id)
    && Increasing(free) && Available(s, id, n) == (set x | x in free)
  }

  /** When the subnet's available hosts are, in ascending order, `free`,
      consecutive `add_next_ip` calls hand them out in that order, one per
      call, and leave the rest available. */
  lemma {:induction false} FillsInOrder(s: Store, n: IpNetwork, reqs: seq<Request>, id: int, free: seq<nat>)
    requires n.Valid() && Ready(s, n, id, free)
    requires |reqs| <= |free|
    ensures AddNextEach(s, n, reqs).Success?
    ensures AddNextEach(s, n, reqs).value.handedOut == free[..|reqs|]
    ensures Ready(AddNextEach(s, n, reqs).value.store, n, id, free[|reqs|..])
    decreases |reqs|
  {
    if |reqs| > 0 {
      var a := FillStep(s, n, reqs[0], id, free);
      FillsInOrder(a.store, n, reqs[1..], id, free[1..]);
      AddNextEachStep(s, n, reqs, a);
      SliceSteps(free, |reqs|);
    }
  }

  /** One call of a run: it hands out the first of `free` and leaves the rest. */
  lemma FillStep(s: Store, n: IpNetwork, req: Request, id: int, free: seq<nat>) returns (a: Assigned)
    requires n.Valid() && Ready(s, n, id, free)
    requires |free| > 0
    ensures AddNextIp(s, n, req.dnsName, req.description) == Success(a)
    ensures a.address.ip == free[0] && Ready(a.store, n, id, free[1..])
  {
    DropLeast(free);
    AddNextStep(s, n, req.dnsName, req.description, id, free[0]);
    a := AddNextIp(s, n, req.dnsName, req.description).value;
  }

  /** A run whose first call succeeds continues from that call's store. */
  lemma AddNextEachStep(s: Store, n: IpNetwork, reqs: seq<Request>, a: Assigned)
    requires n.Valid() && |reqs| > 0
    requires AddNextIp(s, n, reqs[0].dnsName, reqs[0].description) == Success(a)
    requires AddNextEach(a.store, n, reqs[1..]).Success?
    ensures AddNextEach(s, n, reqs)
      == Success(Run([a.address.ip] + AddNextEach(a.store, n, reqs[1..]).value.handedOut, AddNextEach(a.store, n, reqs[1..]).value.store))
  {
  }

  /** The first of an increasing sequence is its least element, and taking
      it out leaves the elements of the rest. */
  lemma DropLeast(free: seq<nat>)
    requires Increasing(free) && |free| > 0
    ensures forall x :: x in free ==> free[0] <= x
    ensures (set x | x in free) - {free[0]} == (set x | x in free[1..])
    ensures Increasing(free[1..])
  {
    forall x | x in free
      ensures free[0] <= x
    {
      var k :| 0 <= k < |free| && free[k] == x;
    }
    forall x
      ensures x in (set y | y in free) - {free[0]} <==> x in free[1..]
    {
      if x in free[1..] {
        var k :| 0 <= k < |free[1..]| && free[1..][k] == x;
        assert free[k + 1] == x && free[0] < free[k + 1];
      }
      if x in free && x != free[0] {
        var k :| 0 <= k < |free| && free[k] == x;
        assert free[1..][k - 1] == x;
      }
    }
  }

  lemma SliceSteps(free: seq<nat>, m: nat)
    requires 0 < m <= |free|
    ensures free[..m] == [free[0]] + free[1..][..m - 1]
    ensures free[1..][m - 1..] == free[m..]
  {
  }

  /** One request per available host fills the subnet: the hosts come out in
      ascending order and the next search reports "is full". */
  lemma FillsUp(s: Store, n: IpNetwork, reqs: seq<Request>, id: int, free: seq<nat>)
    requires n.Valid()
    requires FindSubnetId(s, n) == Some(id) && Decodable(s, id)
    requires Increasing(free) && Available(s, id, n) == (set x | x in free)
    requires |reqs| == |free|
    ensures AddNextEach(s, n, reqs).Success?
    ensures AddNextEach(s, n, reqs).value.handedOut == free
    ensures NextFreeIp(AddNextEach(s, n, reqs).value.store, n) == Failure(SubnetFull(n.First(), n.prefix))
  {
    FillsInOrder(s, n, reqs, id, free);
    var run := AddNextEach(s, n, reqs).value;
    assert Ready(run.store, n, id, free[|reqs|..]);
    assert free[|reqs|..] == [];
    assert Available(run.store, id, n) == {};
  }

  /** `10.1.0.0/28` of the test store: the seven requests get `.4`, `.5`,
      `.6`, `.11`, `.12`, `.13` and `.14`, and the subnet is then full. */
  lemma TwentyEightFillsUp(s: Store, n: IpNetwork, reqs: seq<Request>)
    requires s == TwentyEightStore() && n == TwentyEight() && |reqs| == 7
    ensures n.Valid()
    ensures AddNextEach(s, n, reqs).Success?
    ensures AddNextEach(s, n, reqs).value.handedOut
      == [Net10_1 + 4, Net10_1 + 5, Net10_1 + 6, Net10_1 + 11, Net10_1 + 12, Net10_1 + 13, Net10_1 + 14]
    ensures NextFreeIp(AddNextEach(s, n, reqs).value.store, n) == Failure(SubnetFull(Net10_1, 28))
  {
    var free := [Net10_1 + 4, Net10_1 + 5, Net10_1 + 6, Net10_1 + 11, Net10_1 + 12, Net10_1 + 13, Net10_1 + 14];
    TwentyEightShape();
    TwentyEightAllocated(s);
    TwentyEightAvailable(s, n, free);
    FillsUp(s, n, reqs, 1, free);
  }

  lemma TwentyEightAvailable(s: Store, n: IpNetwork, free: seq<nat>)
    requires s == TwentyEightStore() && n == TwentyEight()
    requires free == [Net10_1 + 4, Net10_1 + 5, Net10_1 + 6, Net10_1 + 11, Net10_1 + 12, Net10_1 + 13, Net10_1 + 14]
    ensures n.Valid() && Increasing(free)
    ensures Available(s, 1, n) == (set x | x in free)
  {
    TwentyEightShape();
    TwentyEightAllocated(s);
    forall x: nat
      ensures x in Available(s, 1, n) <==> x in free
    {
      if x in Available(s, 1, n) {
        if x <= Net10_1 + 6 {
          assert free[x - Net10_1 - 4] == x;
        } else {
          assert free[x - Net10_1 - 8] == x;
        }
      }
    }
  }

  const Net2001_40: nat := 42540488161975842760550356425300246592   // 2001::40
  const Net2001_50: nat := 42540488161975842760550356425300246608   // 2001::50

  /** The empty IPv6 subnet `2001::40/125` (id 19). */
  function V6OneTwentyFiveStore(): Store
  {
    Store([SubnetRow(19, Net2001_40, 125, "TEST IPV6 /125 SUBNET")], [])
  }

  /** `2001::40/125` is a valid network whose hosts are `2001::41` to
      `2001::47` (the network address is excluded, the last one is not), and
      all seven are available. */
  lemma V6OneTwentyFiveShape(s: Store, n: IpNetwork)
    requires s == V6OneTwentyFiveStore() && n == IpNetwork(V6, Net2001_40, 125)
    ensures n.Valid() && n.First() == Net2001_40
    ensures FindSubnetId(s, n) == Some(19) && Decodable(s, 19)
    ensures forall x: nat :: x in Available(s, 19, n) <==> Net2001_40 + 1 <= x <= Net2001_40 + 7
  {
    Pow2Of128();
    assert Pow2(3) == 8;
    Pow2Add(3, 125);
    assert n.Valid() && n.Size() == 8;
    DivModUnique(Net2001_40, 8, 5317561020246980345068794553162530824, 0);
    assert n.First() == Net2001_40;
    assert s.subnets[0].subnet == n.First();
    assert n.FirstHost() == Net2001_40 + 1 && n.LastHost() == Net2001_40 + 7;
  }

  /** `2001::40/125`: seven requests get `2001::41` to `2001::47` in order,
      and the subnet is then full. */
  lemma V6OneTwentyFiveFillsUp(s: Store, n: IpNetwork, reqs: seq<Request>)
    requires s == V6OneTwentyFiveStore() && n == IpNetwork(V6, Net2001_40, 125) && |reqs| == 7
    ensures n.Valid()
    ensures AddNextEach(s, n, reqs).Success?
    ensures AddNextEach(s, n, reqs).value.handedOut
      == [Net2001_40 + 1, Net2001_40 + 2, Net2001_40 + 3, Net2001_40 + 4, Net2001_40 + 5, Net2001_40 + 6, Net2001_40 + 7]
    ensures NextFreeIp(AddNextEach(s, n, reqs).value.store, n) == Failure(SubnetFull(Net2001_40, 125))
  {
    var free := [Net2001_40 + 1, Net2001_40 + 2, Net2001_40 + 3, Net2001_40 + 4, Net2001_40 + 5, Net2001_40 + 6, Net2001_40 + 7];
    V6OneTwentyFiveShape(s, n);
    V6OneTwentyFiveAvailable(s, n, free);
    FillsUp(s, n, reqs, 19, free);
  }

  lemma V6OneTwentyFiveAvailable(s: Store, n: IpNetwork, free: seq<nat>)
    requires s == V6OneTwentyFiveStore() && n == IpNetwork(V6, Net2001_40, 125)
    requires free == [Net2001_40 + 1, Net2001_40 + 2, Net2001_40 + 3, Net2001_40 + 4, Net2001_40 + 5, Net2001_40 + 6, Net2001_40 + 7]
    ensures n.Valid() && Increasing(free)
    ensures Available(s, 19, n) == (set x | x in free)
  {
    V6OneTwentyFiveShape(s, n);
    forall x: nat
      ensures x in Available(s, 19, n) <==> x in free
    {
      if Net2001_40 + 1 <= x <= Net2001_40 + 7 {
        assert free[x - Net2001_40 - 1] == x;
      }
    }
  }

  /** The empty IPv6 point-to-point subnet `2001::50/127` (id 20). */
  function V6OneTwentySevenStore(): Store
  {
    Store([SubnetRow(20, Net2001_50, 127, "TEST IPV6 /127 SUBNET")], [])
  }

  /** `2001::50/127`: both addresses are hosts; two requests get `2001::50`
      and `2001::51`, and the subnet is then full. */
  lemma V6OneTwentySevenFillsUp(s: Store, n: IpNetwork, reqs: seq<Request>)
    requires s == V6OneTwentySevenStore() && n == IpNetwork(V6, Net2001_50, 127) && |reqs| == 2
    ensures n.Valid()
    ensures AddNextEach(s, n, reqs).Success?
    ensures AddNextEach(s, n, reqs).value.handedOut == [Net2001_50, Net2001_50 + 1]
    ensures NextFreeIp(AddNextEach(s, n, reqs).value.store, n) == Failure(SubnetFull(Net2001_50, 127))
  {
    Pow2Of128();
    assert Pow2(1) == 2;
    Pow2Add(1, 127);
    assert n.Valid() && n.Size() == 2;
    DivModUnique(Net2001_50, 2, 21270244080987921380275178212650123304, 0);
    assert n.First() == Net2001_50;
    assert s.subnets[0].subnet == n.First();
    assert n.FirstHost() == Net2001_50 && n.LastHost() == Net2001_50 + 1;
    var free := [Net2001_50, Net2001_50 + 1];
    assert Available(s, 20, n) == (set x | x in free);
    FillsUp(s, n, reqs, 20, free);
  }

  /** `add_next_ip` on the empty `10.4.0.0/31` hands out `10.4.0.0`, the
      network address itself; continuing, it hands out `10.4.0.1` and then
      reports the subnet full. */
  lemma PointToPointFillsUp(s: Store, n: IpNetwork, reqs: seq<Request>)
    requires s == PointToPointStore() && n == PointToPoint() && |reqs| == 2
    ensures n.Valid()
    ensures AddNextEach(s, n, reqs).Success?
    ensures AddNextEach(s, n, reqs).value.handedOut == [Net10_4, Net10_4 + 1]
    ensures NextFreeIp(AddNextEach(s, n, reqs).value.store, n) == Failure(SubnetFull(Net10_4, 31))
  {
    PointToPointShape();
    var free := [Net10_4, Net10_4 + 1];
    assert Available(s, 4, n) == (set x | x in free);
    FillsUp(s, n, reqs, 4, free);
  }

  const Net10_5: nat := 168099840   // 10.5.0.0

  /** `10.5.0.0/31` (id 5) with `10.5.0.0` registered. */
  function TenFiveStore(): Store
  {
    Store([SubnetRow(5, Net10_5, 31, "TEST /31 SUBNET GROUP")],
          [AddressRow(5, Net10_5, "test ip #15", "test-ip-15", UsedState)])
  }

  /** `10.5.0.0/31` with its network address taken: one request gets
      `10.5.0.1`, and the subnet is then full. */
  lemma TenFiveFillsUp(s: Store, n: IpNetwork, reqs: seq<Request>)
    requires s == TenFiveStore() && n == IpNetwork(V4, Net10_5, 31) && |reqs| == 1
    ensures n.Valid()
    ensures AddNextEach(s, n, reqs).Success?
    ensures AddNextEach(s, n, reqs).value.handedOut == [Net10_5 + 1]
    ensures NextFreeIp(AddNextEach(s, n, reqs).value.store, n) == Failure(SubnetFull(Net10_5, 31))
  {
    Pow2Of32();
    Pow2Of128();
    assert n.Valid() && n.Size() == 2;
    DivModUnique(Net10_5, 2, 84049920, 0);
    assert n.First() == Net10_5;
    assert s.subnets[0].subnet == n.First();
    assert n.FirstHost() == Net10_5 && n.LastHost() == Net10_5 + 1;
    assert s.addresses[0].subnetId == 5 && s.addresses[0].ipAddr == Net10_5;
    assert Decodable(s, 5);
    var free := [Net10_5 + 1];
    assert Available(s, 5, n) == (set x | x in free);
    FillsUp(s, n, reqs, 5, free);
  }

  const Net10_42: nat := 170524672   // 10.42.0.0

  /** `10.42.0.0/29` is not in the store: the search fails with "Unable to get
      subnet id", and so does registering `10.42.0.1/28`. */
  lemma UnknownSubnet(s: Store, n: IpNetwork, ip: IpNetwork)
    requires s == TwentyEightStore() && n == IpNetwork(V4, Net10_42, 29) && ip == IpNetwork(V4, Net10_42 + 1, 28)
    ensures n.Valid() && ip.Valid()
    ensures NextFreeIp(s, n) == Failure(SubnetNotFound(Net10_42, 29))
    ensures AddIp(s, ip, "err", "err") == Failure(SubnetNotFound(Net10_42, 28))
  {
    Pow2Of32();
    assert Pow2(3) == 8 && Pow2(4) == 16;
    DivModUnique(Net10_42, 8, 21315584, 0);
    DivModUnique(Net10_42 + 1, 16, 10657792, 1);
    assert n.First() == Net10_42 && ip.First() == Net10_42;
    assert s.subnets[0].subnet != Net10_42;
  }

  /** The tests' read-back: after `add_next_ip` under a description that no
      row in state 1 matches yet, `get_ip_by_desc` with that description finds
      the new address, decoded by `IPAddress(int)`, with its DNS name. */
  lemma AddThenFind(s: Store, n: IpNetwork, dnsName: string, description: string, p: Pattern)
    requires n.Valid()
    requires p(description)
    requires forall i :: 0 <= i < |s.addresses| ==> !UsedWithDesc(p)(s.addresses[i])
    requires AddNextIp(s, n, dnsName, description).Success?
    ensures var a := AddNextIp(s, n, dnsName, description).value;
      IpByDesc(a.store, p) == Success(Some(IpItem(Address(FamilyOfInt(a.address.ip), a.address.ip), description, dnsName)))
  {
    var a := AddNextIp(s, n, dnsName, description).value;
    var rows := a.store.addresses;
    var k := |s.addresses|;
    assert a.address.Valid();
    WidthBounds(a.address.family);
    assert rows[k] == AddressRow(FindSubnetId(s, n).value, a.address.ip, description, dnsName, UsedState);
    forall i | 0 <= i < |rows| && i != k
      ensures !UsedWithDesc(p)(rows[i])
    {
      assert rows[i] == s.addresses[i];
    }
    SoleMatchFound(a.store, p, k);
  }
}
