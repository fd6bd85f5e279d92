/** `NetNamespace` of `net/namespace/mod.rs`: the list of network
    interfaces a namespace can use, kept in insertion order. */
module NetNamespace {
  import opened Wrappers

  /** An IPv4 address; only equality is used. */
  type Ipv4 = nat

  /** A network interface: its identity and its IPv4 address, if it has
      one (`Iface::ipv4_addr`). */
  datatype Iface = Iface(id: nat, ipv4: Option<Ipv4>)

  /** A network namespace: the interfaces added to it, oldest first. The
      source keeps `Weak` references; upgrading them is taken to succeed. */
  datatype NetNs = NetNs(ifaces: seq<Iface>)

  /** `NetNamespace::new`: a namespace with no interfaces. */
  function New(): (ns: NetNs)
    ensures |Ifaces(ns)| == 0
  {
    NetNs([])
  }

  /** `NetNamespace::ifaces`: the interfaces, in the order they were added. */
  function Ifaces(ns: NetNs): (r: seq<Iface>) {
    ns.ifaces
  }

  /** `NetNamespace::add_iface`: one more interface at the end, the earlier
      ones kept in place. */
  function AddIface(ns: NetNs, iface: Iface): (r: NetNs)
    ensures |Ifaces(r)| == |Ifaces(ns)| + 1
    ensures Ifaces(r)[..|Ifaces(ns)|] == Ifaces(ns) && Ifaces(r)[|Ifaces(ns)|] == iface
  {
    NetNs(ns.ifaces + [iface])
  }

  /** The namespace after adding each of `xs` in turn. */
  function AddAll(ns: NetNs, xs: seq<Iface>): (r: NetNs)
    decreases |xs|
  {
    if |xs| == 0 then ns else AddAll(AddIface(ns, xs[0]), xs[1..])
  }

  /** Adding interfaces one by one lists them in the order they were added,
      after the ones already there. */
  lemma {:induction false} AddAllInOrder(ns: NetNs, xs: seq<Iface>)
    ensures Ifaces(AddAll(ns, xs)) == Ifaces(ns) + xs
    decreases |xs|
  {
    if |xs| > 0 {
      AddAllInOrder(AddIface(ns, xs[0]), xs[1..]);
      assert Ifaces(ns) + [xs[0]] + xs[1..] == Ifaces(ns) + xs;
    }
  }

  /** The outcome of `new_with_loopback`: the namespace, the global
      interface list afterwards and the loopback interface. */
  datatype WithLoopback = WithLoopback(ns: NetNs, globals: seq<Iface>, loopback: Iface)

  /** `NetNamespace::new_with_loopback`: a fresh namespace whose only
      interface is the loopback `lo` (built by `IfaceLoopback::new`, which
      is not part of this model), also appended to the global `IFACES`. */
  function NewWithLoopback(globals: seq<Iface>, lo: Iface): (r: WithLoopback)
    ensures Ifaces(r.ns) == [r.loopback] && r.loopback == lo
    ensures r.globals == globals + [lo]
  {
    WithLoopback(AddIface(New(), lo), globals + [lo], lo)
  }
}
