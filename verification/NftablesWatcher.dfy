/** How the watcher turns a kube-proxy service chain into the snapshot it inserts. */
module NftablesWatcher {
  import opened Collections
  import opened Reconciler
  import opened ReconcilerAllocation

  datatype Address = Address(ip: string, nodeName: Option<string>)

  predicate Names(a: Address, ip: string) {
    a.ip == ip && a.nodeName.Some?
  }

  /** The node of an ip: the last address that gives one wins. */
  function NodeOf(addresses: seq<Address>, ip: string): Option<string> {
    if addresses == [] then None
    else
      var last := addresses[|addresses| - 1];
      if Names(last, ip) then last.nodeName else NodeOf(addresses[..|addresses| - 1], ip)
  }

  /** Address `i` is the last one that names a node for the ip. */
  ghost predicate LastNaming(addresses: seq<Address>, ip: string, i: nat) {
    && i < |addresses| && addresses[i].ip == ip && addresses[i].nodeName.Some?
    && forall j | i < j < |addresses| :: addresses[j].ip == ip ==> addresses[j].nodeName.None?
  }

  lemma {:induction false} NodeOfIs(addresses: seq<Address>, ip: string, i: nat)
    ensures LastNaming(addresses, ip, i) ==> NodeOf(addresses, ip) == addresses[i].nodeName
    ensures (forall j | 0 <= j < |addresses| :: addresses[j].ip == ip ==> addresses[j].nodeName.None?) ==>
      NodeOf(addresses, ip) == None
    decreases |addresses|
  {
    if addresses != [] {
      var init := addresses[..|addresses| - 1];
      NodeOfIs(init, ip, i);
      assert forall j | 0 <= j < |init| :: init[j] == addresses[j];
    }
  }

  method HostnameByIpv4(addresses: seq<Address>) returns (hostnameByIpv4: map<string, string>)
    ensures forall ip ::
      (if ip in hostnameByIpv4 then Some(hostnameByIpv4[ip]) else None) == NodeOf(addresses, ip)
  {
    hostnameByIpv4 := map[];
    for i := 0 to |addresses|
      invariant forall ip ::
        (if ip in hostnameByIpv4 then Some(hostnameByIpv4[ip]) else None) == NodeOf(addresses[..i], ip)
    {
      assert addresses[..i + 1][..i] == addresses[..i];
      if addresses[i].nodeName.Some? {
        hostnameByIpv4 := hostnameByIpv4[addresses[i].ip := addresses[i].nodeName.value];
      }
    }
    assert addresses[..|addresses|] == addresses;
  }

  /** `ipOf` is the first IPv4 address written in a chain name, if there is one. */
  predicate RunsOn(chain: string, host: string, hostnameByIpv4: map<string, string>, ipOf: string -> Option<string>) {
    && ipOf(chain).Some?
    && ipOf(chain).value in hostnameByIpv4
    && hostnameByIpv4[ipOf(chain).value] == host
  }

  /** Exactly the chains whose ip has a known node, each under its node, and no host without chains. */
  ghost predicate BackendsOfChains(backends: map<string, set<string>>, chains: seq<string>,
                                   hostnameByIpv4: map<string, string>, ipOf: string -> Option<string>) {
    && (forall h | h in backends :: backends[h] != {})
    && (forall h, c ::
      h in backends && c in backends[h] <==> c in chains && RunsOn(c, h, hostnameByIpv4, ipOf))
  }

  method MapEndpointsToHosts(chains: seq<string>, hostnameByIpv4: map<string, string>, ipOf: string -> Option<string>)
    returns (backends: map<string, set<string>>)
    ensures BackendsOfChains(backends, chains, hostnameByIpv4, ipOf)
  {
    backends := map[];
    for i := 0 to |chains|
      invariant BackendsOfChains(backends, chains[..i], hostnameByIpv4, ipOf)
    {
      assert chains[..i + 1] == chains[..i] + [chains[i]];
      match ipOf(chains[i])
      case None =>
      case Some(ip) =>
        if ip in hostnameByIpv4 {
          var host := hostnameByIpv4[ip];
          var entry := if host in backends then backends[host] else {};
          backends := backends[host := entry + {chains[i]}];
        }
    }
    assert chains[..|chains|] == chains;
  }

  /** A chain is listed exactly under the node of the address in its name. */
  lemma ChainIsListed(backends: map<string, set<string>>, chains: seq<string>, hostnameByIpv4: map<string, string>,
                      ipOf: string -> Option<string>, host: string, chain: string)
    requires BackendsOfChains(backends, chains, hostnameByIpv4, ipOf)
    ensures host in backends && chain in backends[host] <==>
      exists i, ip | 0 <= i < |chains| && ip in hostnameByIpv4 ::
        chains[i] == chain && ipOf(chain) == Some(ip) && hostnameByIpv4[ip] == host
  {
    assert host in backends && chain in backends[host] <==>
      chain in chains && RunsOn(chain, host, hostnameByIpv4, ipOf);
  }

  /** The shape the allocation theorems rely on: populated hosts that share no chain. */
  lemma SnapshotShape(id: string, handle: nat, applied: bool, backends: map<string, set<string>>, chains: seq<string>,
                      hostnameByIpv4: map<string, string>, ipOf: string -> Option<string>)
    requires BackendsOfChains(backends, chains, hostnameByIpv4, ipOf)
    ensures Populated(NftablesService(id, handle, applied, backends))
    ensures HostsDisjoint(NftablesService(id, handle, applied, backends))
  {
    forall h, h', c | h in backends && h' in backends && c in backends[h] && c in backends[h'] ensures h == h' {
      assert RunsOn(c, h, hostnameByIpv4, ipOf) && RunsOn(c, h', hostnameByIpv4, ipOf);
    }
  }
}
