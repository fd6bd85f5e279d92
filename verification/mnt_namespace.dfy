/** `MntNamespace` of `process/namespace/mnt_namespace.rs`: a handle on the
    root of a mount tree. */
module MntNamespace {
  import opened Wrappers
  import opened MountTree
  import opened Subtree
  import opened MountCopy

  /** A mount namespace: the root mount node of its tree. */
  datatype MntNs = MntNs(root: NodeId)

  /** `MntNamespace::new(mount_node)`. */
  function New(mountNode: NodeId): (ns: MntNs)
    ensures Root(ns) == mountNode
  {
    MntNs(mountNode)
  }

  /** `MntNamespace::root`. */
  function Root(ns: MntNs): (r: NodeId) {
    ns.root
  }

  /** `MntNamespace::copy_mnt_ns(old_mnt_ns)`: a namespace over a copy of the old
      namespace's whole tree. The old tree is left as it was; the new root
      is a fresh, parentless node heading an exact copy, made only of new
      nodes, and the calling task's root and working directory follow the
      copy as `copy_tree` moves them. */
  method CopyMntNs(s: Store, oldNs: MntNs, paths: FsPaths) returns (t: Store, ns: MntNs, paths': FsPaths)
    requires Wf(s) && Root(oldNs) in s.nodes && paths.root.mount in s.nodes && paths.cwd.mount in s.nodes
    ensures Wf(t) && Kept(s, t)
    ensures Root(ns) in t.nodes && Root(ns) !in s.nodes && Root(ns) != Root(oldNs)
    ensures t.nodes[Root(ns)].parent == None
    ensures CopyOf(s, Root(oldNs), t, Root(ns))
    ensures forall y: NodeId :: (y in t.nodes && y !in s.nodes) <==> InSubtree(t, y, Root(ns))
    ensures Follows(s, Root(oldNs), t, Root(ns), paths.root, paths'.root)
    ensures Follows(s, Root(oldNs), t, Root(ns), paths.cwd, paths'.cwd)
  {
    var r;
    t, r, paths' := CopyTree(s, Root(oldNs), paths);
    ns := New(r);
  }
}
