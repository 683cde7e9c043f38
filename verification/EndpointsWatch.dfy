/** Grouping of a service's pod addresses by node, and the decision to announce the service. */
module EndpointsWatch {
  import opened Collections
  import opened SlotAllocator
  import opened UpdateNftables
  import opened RoutingTheorems

  /** One address of an Endpoints object: `None` for an unparsable ip, and for a missing node name. */
  datatype Address = Address(ip: Option<Ipv4>, nodename: Option<string>)

  predicate Placed(a: Address, node: string) {
    a.ip.Some? && a.nodename == Some(node)
  }

  /** The addresses of one node in their original order. */
  function OnNode(addresses: seq<Address>, node: string): (ips: seq<Ipv4>)
    ensures |ips| <= |addresses|
  {
    if addresses == [] then []
    else
      var last := addresses[|addresses| - 1];
      OnNode(addresses[..|addresses| - 1], node) + (if Placed(last, node) then [last.ip.value] else [])
  }

  function NodeNames(addresses: seq<Address>): (names: set<string>)
    ensures |names| <= |addresses|
    ensures forall n :: n in names <==> OnNode(addresses, n) != []
  {
    if addresses == [] then {}
    else
      var last := addresses[|addresses| - 1];
      NodeNames(addresses[..|addresses| - 1])
      + (if last.ip.Some? && last.nodename.Some? then {last.nodename.value} else {})
  }

  /** Every node with a usable address, and all its usable addresses. */
  function Grouped(addresses: seq<Address>): map<string, seq<Ipv4>> {
    map n | n in NodeNames(addresses) :: OnNode(addresses, n)
  }

  lemma GroupNext(addresses: seq<Address>, i: nat)
    requires i < |addresses|
    ensures var a, before, next := addresses[i], Grouped(addresses[..i]), Grouped(addresses[..i + 1]);
      next == if a.ip.Some? && a.nodename.Some? then
          before[a.nodename.value :=
            (if a.nodename.value in before then before[a.nodename.value] else []) + [a.ip.value]]
        else before
  {
    hide Grouped;
    var a, before, next := addresses[i], Grouped(addresses[..i]), Grouped(addresses[..i + 1]);
    var expected :=
      if a.ip.Some? && a.nodename.Some? then
        before[a.nodename.value :=
          (if a.nodename.value in before then before[a.nodename.value] else []) + [a.ip.value]]
      else before;
    forall n ensures (n in next <==> n in expected) && (n in next ==> next[n] == expected[n]) {
      GroupAt(addresses, i, n);
      assert n in before && !Placed(a, n) ==> before[n] + [] == before[n];
    }
    assert next == expected;
  }

  lemma GroupAt(addresses: seq<Address>, i: nat, n: string)
    requires i < |addresses|
    ensures var a, before, next := addresses[i], Grouped(addresses[..i]), Grouped(addresses[..i + 1]);
      && (n in next <==> n in before || Placed(a, n))
      && (n in next ==>
        next[n] == (if n in before then before[n] else []) + (if Placed(a, n) then [a.ip.value] else []))
  {
    assert addresses[..i + 1][..i] == addresses[..i];
    assert OnNode(addresses[..i + 1], n)
        == OnNode(addresses[..i], n) + (if Placed(addresses[i], n) then [addresses[i].ip.value] else []);
    hide OnNode, NodeNames;
  }

  method GroupByNode(addresses: seq<Address>) returns (endpointsByNodename: map<string, seq<Ipv4>>)
    ensures endpointsByNodename == Grouped(addresses)
  {
    endpointsByNodename := map[];
    for i := 0 to |addresses|
      invariant endpointsByNodename == Grouped(addresses[..i])
    {
      GroupNext(addresses, i);
      hide Grouped, OnNode;
      var a := addresses[i];
      if a.ip.Some? && a.nodename.Some? {
        var endpoints :=
          if a.nodename.value in endpointsByNodename then endpointsByNodename[a.nodename.value] else [];
        endpoints := endpoints + [a.ip.value];
        endpointsByNodename := endpointsByNodename[a.nodename.value := endpoints];
      }
    }
    assert addresses[..|addresses|] == addresses;
  }

  /** An announced service has no empty bucket and no more nodes than addresses. */
  lemma GroupingFillsBuckets(addresses: seq<Address>, name: string, nodeport: int, targetport: int)
    ensures BucketsFilled(Service(name, nodeport, targetport, Grouped(addresses)))
    ensures |Grouped(addresses).Keys| <= |addresses|
  {
    assert Grouped(addresses).Keys == NodeNames(addresses);
  }

  /** Every usable address is in the bucket of its node, once per occurrence, and nothing else is. */
  lemma {:induction false} GroupingKeepsAddresses(addresses: seq<Address>, node: string, ip: Ipv4)
    ensures multiset(OnNode(addresses, node))[ip] == multiset(addresses)[Address(Some(ip), Some(node))]
    decreases |addresses|
  {
    if addresses != [] {
      var n := |addresses| - 1;
      assert addresses == addresses[..n] + [addresses[n]];
      GroupingKeepsAddresses(addresses[..n], node, ip);
    }
  }

  /** The groups of a service as its Endpoints object has them; without addresses there are none. */
  function Groups(addresses: Option<seq<Address>>): map<string, seq<Ipv4>> {
    if addresses.Some? then Grouped(addresses.value) else map[]
  }

  /** The early returns of the watcher: no addresses, no service object with a node port, or all usable
      addresses on a single node. */
  predicate Announced(found: bool, addresses: Option<seq<Address>>)
    ensures Announced(found, addresses) ==> addresses.Some?
  {
    addresses.Some? && found && |Grouped(addresses.value)| != 1
  }

  /** `found` tells whether the service object and its node port could be read. */
  function Announcement(name: string, nodeport: int, targetport: int, found: bool, addresses: Option<seq<Address>>):
      Option<Service>
  {
    if Announced(found, addresses) then Some(Service(name, nodeport, targetport, Grouped(addresses.value))) else None
  }

  // ----- in terms of the addresses

  /** Some usable address is on the node. */
  ghost predicate Hosts(addresses: seq<Address>, node: string) {
    exists i | 0 <= i < |addresses| :: addresses[i].ip.Some? && addresses[i].nodename == Some(node)
  }

  lemma {:induction false} HostsIff(addresses: seq<Address>, node: string)
    ensures OnNode(addresses, node) != [] <==> Hosts(addresses, node)
    decreases |addresses|
  {
    if addresses != [] {
      var init := addresses[..|addresses| - 1];
      HostsIff(init, node);
      assert forall i | 0 <= i < |init| :: init[i] == addresses[i];
    }
  }

  lemma OneKey<T>(m: map<string, T>)
    ensures |m| == 1 <==> exists n | n in m :: forall k | k in m :: k == n
  {
    if |m| == 1 {
      assert m.Keys != {};
      var n :| n in m.Keys;
      assert |m.Keys - {n}| == 0;
      forall k | k in m ensures k == n {
        assert k !in m.Keys - {n};
      }
    }
    if n :| n in m && forall k | k in m :: k == n {
      assert m.Keys == {n};
    }
  }

  /** The usable addresses sit on exactly one node. */
  ghost predicate Undistributed(addresses: seq<Address>) {
    exists n :: Hosts(addresses, n) && forall k | Hosts(addresses, k) :: k == n
  }

  /** A change is announced unless there are no addresses, the service or its node port could not be read, or all
      usable addresses sit on one node; an announcement names the service, both ports, and the usable addresses of
      every node. */
  lemma AnnouncementIff(name: string, nodeport: int, targetport: int, found: bool, addresses: Option<seq<Address>>)
    ensures var announced := Announcement(name, nodeport, targetport, found, addresses);
      && (announced.None? <==> addresses.None? || !found || Undistributed(addresses.value))
      && (announced.Some? ==>
        && announced.value.name == name && announced.value.nodeport == nodeport
        && announced.value.targetport == targetport
        && (forall n :: n in announced.value.endpointsByNodename <==> Hosts(addresses.value, n))
        && forall n | n in announced.value.endpointsByNodename ::
          announced.value.endpointsByNodename[n] == OnNode(addresses.value, n))
  {
    if addresses.Some? {
      forall n ensures n in Grouped(addresses.value) <==> Hosts(addresses.value, n) {
        HostsIff(addresses.value, n);
      }
      OneKey(Grouped(addresses.value));
      hide Hosts, OnNode, NodeNames;
    }
  }

  /** A node's addresses keep their order. */
  lemma {:induction false} OnNodeConcat(a: seq<Address>, b: seq<Address>, node: string)
    ensures OnNode(a + b, node) == OnNode(a, node) + OnNode(b, node)
    decreases |b|
  {
    if b == [] {
      assert a + b == a;
    } else {
      assert (a + b)[..|a + b| - 1] == a + b[..|b| - 1];
      OnNodeConcat(a, b[..|b| - 1], node);
    }
  }

  lemma OnNodeOne(a: Address, node: string)
    ensures OnNode([a], node) == if a.ip.Some? && a.nodename == Some(node) then [a.ip.value] else []
  {
    assert [a][..0] == [];
  }
}
