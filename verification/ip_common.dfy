/** Interface selection for IP sockets (`net/socket/ip/common.rs`): a
    first-match search, by IPv4 address, over the interfaces of the calling
    task's network namespace. */
module IpCommon {
  import opened Wrappers
  import opened NetNamespace

  /** An IP address. `IpAddress` has a single variant, IPv4. */
  datatype IpAddress = Ipv4Addr(v4: Ipv4)

  /** An IP address and a port. */
  datatype IpEndpoint = IpEndpoint(addr: IpAddress, port: nat)

  /** An interface serves `a` when it has an IPv4 address and that address
      is `a`; an interface without an address serves nothing. */
  predicate Serves(iface: Iface, a: Ipv4) {
    iface.ipv4 == Some(a)
  }

  /** The position of the first interface of `ifaces` serving `a`: the
      `Iterator::find` in `get_iface_to_bind` and `get_ephemeral_iface`. */
  function FirstServing(ifaces: seq<Iface>, a: Ipv4): (r: Option<nat>)
    ensures r.Some? <==> exists i :: 0 <= i < |ifaces| && Serves(ifaces[i], a)
    ensures r.Some? ==> r.value < |ifaces| && Serves(ifaces[r.value], a)
    ensures r.Some? ==> forall j :: 0 <= j < r.value ==> !Serves(ifaces[j], a)
    decreases |ifaces|
  {
    if |ifaces| == 0 then None
    else if Serves(ifaces[0], a) then Some(0)
    else
      var rest := FirstServing(ifaces[1..], a);
      assert forall i :: 1 <= i < |ifaces| ==> ifaces[i] == ifaces[1..][i - 1];
      if rest.Some? then Some(rest.value + 1) else None
  }

  /** Interfaces added to a namespace later never take over an address an
      earlier one already serves. */
  lemma {:induction false} FirstServingStable(ifaces: seq<Iface>, more: seq<Iface>, a: Ipv4)
    requires FirstServing(ifaces, a).Some?
    ensures FirstServing(ifaces + more, a) == FirstServing(ifaces, a)
    decreases |ifaces|
  {
    if !Serves(ifaces[0], a) {
      FirstServingStable(ifaces[1..], more, a);
      assert (ifaces + more)[1..] == ifaces[1..] + more;
    }
  }

  /** `get_iface_to_bind(ip_addr)`: the first interface of the namespace
      serving the address, if any. */
  function GetIfaceToBind(ns: NetNs, addr: IpAddress): (r: Option<Iface>)
    ensures r.Some? <==> exists i :: 0 <= i < |Ifaces(ns)| && Serves(Ifaces(ns)[i], addr.v4)
    ensures r.Some? ==> Serves(r.value, addr.v4)
    ensures r.Some? ==>
      exists i :: 0 <= i < |Ifaces(ns)| && Ifaces(ns)[i] == r.value
                  && forall j :: 0 <= j < i ==> !Serves(Ifaces(ns)[j], addr.v4)
  {
    var i := FirstServing(Ifaces(ns), addr.v4);
    if i.Some? then Some(Ifaces(ns)[i.value]) else None
  }

  /** `get_ephemeral_iface(remote_ip_addr)`: the first interface of the
      namespace serving the remote address, or else the first interface of
      the global `IFACES` list (which the source unwraps, so it must not be
      empty then). */
  function GetEphemeralIface(ns: NetNs, globals: seq<Iface>, remote: IpAddress): (r: Iface)
    requires GetIfaceToBind(ns, remote).None? ==> |globals| > 0
    ensures GetIfaceToBind(ns, remote).Some? ==> r == GetIfaceToBind(ns, remote).value && Serves(r, remote.v4)
    ensures GetIfaceToBind(ns, remote).None? ==> r == globals[0]
  {
    var found := GetIfaceToBind(ns, remote);
    if found.Some? then found.value else globals[0]
  }

  /** Why `bind_socket` failed, with the unbound socket handed back. */
  datatype BindError<S> = BindError(err: Errno, socket: S)

  /** `bind_socket(unbound_socket, endpoint, can_reuse)`. `portConfig` stands
      for `BindPortConfig::new` and `bindOn` for `Iface::bind_socket`, both
      outside this model. */
  function BindSocket<S, B, C>(ns: NetNs, socket: S, endpoint: IpEndpoint, canReuse: bool,
                               portConfig: (nat, bool) -> Result<C, Errno>,
                               bindOn: (Iface, S, C) -> Result<B, BindError<S>>): (r: Result<B, BindError<S>>)
    ensures GetIfaceToBind(ns, endpoint.addr).None? ==> r == Err(BindError(EADDRNOTAVAIL, socket))
    ensures GetIfaceToBind(ns, endpoint.addr).Some? && portConfig(endpoint.port, canReuse).Err? ==>
      r == Err(BindError(portConfig(endpoint.port, canReuse).error, socket))
    ensures GetIfaceToBind(ns, endpoint.addr).Some? && portConfig(endpoint.port, canReuse).Ok? ==>
      r == bindOn(GetIfaceToBind(ns, endpoint.addr).value, socket, portConfig(endpoint.port, canReuse).value)
  {
    match GetIfaceToBind(ns, endpoint.addr)
    case None => Err(BindError(EADDRNOTAVAIL, socket))
    case Some(iface) =>
      match portConfig(endpoint.port, canReuse)
      case Err(e) => Err(BindError(e, socket))
      case Ok(config) => bindOn(iface, socket, config)
  }

  /** `get_ephemeral_endpoint(remote_endpoint)`: port 0 on the address of
      the interface `get_ephemeral_iface` picks (which the source unwraps,
      so that interface must have an address). */
  function GetEphemeralEndpoint(ns: NetNs, globals: seq<Iface>, remote: IpEndpoint): (r: IpEndpoint)
    requires GetIfaceToBind(ns, remote.addr).None? ==> |globals| > 0 && globals[0].ipv4.Some?
    ensures r.port == 0
    ensures Serves(GetEphemeralIface(ns, globals, remote.addr), r.addr.v4)
    ensures GetIfaceToBind(ns, remote.addr).Some? ==> r.addr == remote.addr
  {
    var iface := GetEphemeralIface(ns, globals, remote.addr);
    IpEndpoint(Ipv4Addr(iface.ipv4.value), 0)
  }

  /** Binding to an address some interface of the namespace already serves
      keeps choosing that same interface however many interfaces are added
      afterwards. */
  lemma BindingSurvivesAdds(ns: NetNs, xs: seq<Iface>, addr: IpAddress)
    requires GetIfaceToBind(ns, addr).Some?
    ensures GetIfaceToBind(AddAll(ns, xs), addr) == GetIfaceToBind(ns, addr)
  {
    AddAllInOrder(ns, xs);
    FirstServingStable(Ifaces(ns), xs, addr.v4);
    var i := FirstServing(Ifaces(ns), addr.v4).value;
    assert (Ifaces(ns) + xs)[i] == Ifaces(ns)[i];
  }
}
