/** `Nsproxy` of `process/namespace/mod.rs`: the pair of namespace handles
    a task uses. */
module Nsproxy {

  /** Shared handles (`Arc`) on a mount namespace and on a network
      namespace; only their identity matters here. */
  type MntNsHandle = nat
  type NetNsHandle = nat

  datatype Nsproxy = Nsproxy(mntNs: MntNsHandle, netNs: NetNsHandle)

  /** `Nsproxy::new(mnt_ns, net_ns)`: keeps both handles as given. */
  function New(mntNs: MntNsHandle, netNs: NetNsHandle): (p: Nsproxy)
    ensures MntNs(p) == mntNs && NetNs(p) == netNs
  {
    Nsproxy(mntNs, netNs)
  }

  /** `Nsproxy::mnt_ns`. */
  function MntNs(p: Nsproxy): (h: MntNsHandle) {
    p.mntNs
  }

  /** `Nsproxy::net_ns`. */
  function NetNs(p: Nsproxy): (h: NetNsHandle) {
    p.netNs
  }

  /** `self.set_namespaces(nsproxy)`: both handles of `self` are replaced
      by those of `other`. */
  function SetNamespaces(self: Nsproxy, other: Nsproxy): (r: Nsproxy)
    ensures MntNs(r) == MntNs(other) && NetNs(r) == NetNs(other)
  {
    self.(mntNs := MntNs(other), netNs := NetNs(other))
  }

  /** The update is whole: what `self` held before does not show through. */
  lemma SetNamespacesForgets(a: Nsproxy, b: Nsproxy, other: Nsproxy)
    ensures SetNamespaces(a, other) == SetNamespaces(b, other)
  {
  }

  /** Setting the same namespaces twice is setting them once. */
  lemma SetNamespacesIdempotent(self: Nsproxy, other: Nsproxy)
    ensures SetNamespaces(SetNamespaces(self, other), other) == SetNamespaces(self, other)
  {
  }
}
