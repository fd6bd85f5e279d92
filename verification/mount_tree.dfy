/** The mount tree of `fs/utils/mount.rs`.

    Mount nodes live in an arena (`Store`) indexed by `NodeId`, so that node
    identity (`Arc::ptr_eq`) is id equality. Dentries and filesystems are
    opaque ids. A dentry's `key()` is injective, so a children map keyed by
    the dentry id is the same map as one keyed by `key()`, and the ascending
    id order stands for the `BTreeMap` order of the keys. */
module MountTree {
  import opened Wrappers
  import SortedKeys

  type NodeId = nat
  type Dentry = nat
  type FsId = nat

  /** A `MountNode`. `mountpoint` is the dentry of the parent mount it is
      grafted on, `children` maps a mountpoint dentry of this mount to the
      child mounted there. */
  datatype Node = Node(
    rootDentry: Dentry,
    mountpoint: Option<Dentry>,
    fs: FsId,
    parent: Option<NodeId>,
    children: map<Dentry, NodeId>)

  /** All mount nodes alive, and the next unused id. */
  datatype Store = Store(nodes: map<NodeId, Node>, next: NodeId)

  /** A resolved location: a mount node and a dentry within it. */
  datatype Path = Path(mount: NodeId, dentry: Dentry)

  /** The child entry `k` of node `id` names a live node created after its
      parent, mounted on `k`, whose parent is `id`. */
  ghost predicate ChildLinked(s: Store, id: NodeId, k: Dentry)
    requires id in s.nodes && k in s.nodes[id].children
  {
    var c := s.nodes[id].children[k];
    && id < c
    && c in s.nodes
    && s.nodes[c].mountpoint == Some(k)
    && s.nodes[c].parent == Some(id)
  }

  /** The arena invariant kept by every operation of this module. */
  ghost predicate Wf(s: Store) {
    && (forall id :: id in s.nodes ==> id < s.next)
    && (forall id, k :: id in s.nodes && k in s.nodes[id].children ==> ChildLinked(s, id, k))
  }

  /** Two nodes stand for the same mount: same root dentry, mountpoint and
      filesystem. */
  predicate SameMount(a: Node, b: Node) {
    a.rootDentry == b.rootDentry && a.mountpoint == b.mountpoint && a.fs == b.fs
  }

  /** A node that is not grafted anywhere. */
  predicate Detached(n: Node) {
    n.parent.None? && n.mountpoint.None?
  }

  /** The internal constructor `MountNode::new`: a node with no children.
      `root` is the dentry `Dentry::new_root` creates for the filesystem's
      root inode. */
  function NewNode(fs: FsId, root: Dentry, mountpoint: Option<Dentry>, parent: Option<NodeId>): (n: Node) {
    Node(root, mountpoint, fs, parent, map[])
  }

  /** Places `n` in the arena under a fresh id. */
  function Alloc(s: Store, n: Node): (r: (Store, NodeId))
    requires Wf(s)
    requires forall k :: k in n.children ==> n.children[k] in s.nodes
  {
    (Store(s.nodes[s.next := n], s.next + 1), s.next)
  }

  /** Every node of `s` is in `t`, unchanged. */
  ghost predicate Kept(s: Store, t: Store) {
    forall id :: id in s.nodes ==> id in t.nodes && t.nodes[id] == s.nodes[id]
  }

  /** `MountNode::new_root`: a fresh node with no parent, no mountpoint and
      no children; nothing else in the arena changes. */
  function NewRoot(s: Store, fs: FsId, root: Dentry): (r: (Store, NodeId))
    requires Wf(s)
    ensures Wf(r.0) && Kept(s, r.0)
    ensures r.1 !in s.nodes && r.0.nodes.Keys == s.nodes.Keys + {r.1}
    ensures Detached(r.0.nodes[r.1]) && r.0.nodes[r.1].children == map[]
    ensures r.0.nodes[r.1].fs == fs && r.0.nodes[r.1].rootDentry == root
  {
    Alloc(s, NewNode(fs, root, None, None))
  }

  /** `MountNode::clone_mnt`: the same mount as `src`, hung under `parent`,
      with no children yet. */
  function CloneMnt(src: Node, parent: Option<NodeId>): (r: Node)
    ensures SameMount(r, src) && r.parent == parent && r.children == map[]
  {
    Node(src.rootDentry, src.mountpoint, src.fs, parent, map[])
  }

  /** `MountNode::get`: the child mounted on `d`, if any. */
  function Get(s: Store, self: NodeId, d: Dentry): (r: Option<NodeId>)
    requires self in s.nodes
    ensures r.Some? <==> d in s.nodes[self].children
    ensures r.Some? ==> s.nodes[self].children[d] == r.value
  {
    if d in s.nodes[self].children then Some(s.nodes[self].children[d]) else None
  }

  /** In a well-formed arena, the mount `get(d)` finds is a live node,
      created after `self`, that records `d` as its mountpoint and `self`
      as its parent. */
  lemma GetFindsChild(s: Store, self: NodeId, d: Dentry)
    requires Wf(s) && self in s.nodes && Get(s, self, d).Some?
    ensures var c := Get(s, self, d).value;
      c in s.nodes && self < c && s.nodes[c].mountpoint == Some(d) && s.nodes[c].parent == Some(self)
  {
    assert ChildLinked(s, self, d);
  }

  /** Every node of `s` other than `x` is in `t`, unchanged. */
  ghost predicate KeptExcept(s: Store, t: Store, x: NodeId) {
    forall id :: id in s.nodes && id != x ==> id in t.nodes && t.nodes[id] == s.nodes[id]
  }

  /** The successful result of `mount`: the new arena and the new child. */
  datatype Mounted = Mounted(store: Store, child: NodeId)

  /** Allocates `n` under a fresh id and records it as the child of `p`
      mounted on `d`, replacing any previous occupant of `d`. */
  function Graft(s: Store, p: NodeId, d: Dentry, n: Node): (t: Store)
    requires p in s.nodes
  {
    var c := s.next;
    var pn := s.nodes[p];
    Store(s.nodes[c := n][p := pn.(children := pn.children[d := c])], s.next + 1)
  }

  /** Grafting a childless node that names `p` as parent and `d` as
      mountpoint keeps the arena invariant. */
  lemma GraftKeepsWf(s: Store, p: NodeId, d: Dentry, n: Node)
    requires Wf(s) && p in s.nodes
    requires n.mountpoint == Some(d) && n.parent == Some(p) && n.children == map[]
    ensures Wf(Graft(s, p, d, n))
  {
    var t := Graft(s, p, d, n);
    forall id, k | id in t.nodes && k in t.nodes[id].children ensures ChildLinked(t, id, k) {
      if id != p {
        assert id in s.nodes && t.nodes[id] == s.nodes[id];
        assert ChildLinked(s, id, k);
      } else if k != d {
        assert ChildLinked(s, id, k);
      }
    }
  }

  /** `MountNode::mount(self, fs, mountpoint)`. `root` is the dentry
      allocated for the new mount's root inode; `isDir` says whether a
      dentry's inode is a directory. */
  function Mount(s: Store, self: NodeId, fs: FsId, root: Dentry, mp: Path, isDir: Dentry -> bool): (r: Result<Mounted, Errno>)
    requires Wf(s) && self in s.nodes
    ensures mp.mount != self ==> r == Err(EINVAL)
    ensures mp.mount == self && !isDir(mp.dentry) ==> r == Err(ENOTDIR)
    ensures r.Ok? <==> mp.mount == self && isDir(mp.dentry)
    ensures r.Ok? ==>
      var t, c := r.value.store, r.value.child;
      && Wf(t)
      && c !in s.nodes && t.nodes.Keys == s.nodes.Keys + {c}
      && KeptExcept(s, t, self)
      && t.nodes[self] == s.nodes[self].(children := s.nodes[self].children[mp.dentry := c])
      && t.nodes[c] == Node(root, Some(mp.dentry), fs, Some(self), map[])
      && Get(t, self, mp.dentry) == Some(c)
  {
    if mp.mount != self then Err(EINVAL)
    else if !isDir(mp.dentry) then Err(ENOTDIR)
    else
      var n := NewNode(fs, root, Some(mp.dentry), Some(mp.mount));
      GraftKeepsWf(s, self, mp.dentry, n);
      Ok(Mounted(Graft(s, self, mp.dentry, n), s.next))
  }

  /** Drops the child entry `d` of `p`; the child itself stays in the arena. */
  function Prune(s: Store, p: NodeId, d: Dentry): (t: Store)
    requires p in s.nodes
  {
    var pn := s.nodes[p];
    Store(s.nodes[p := pn.(children := pn.children - {d})], s.next)
  }

  lemma PruneKeepsWf(s: Store, p: NodeId, d: Dentry)
    requires Wf(s) && p in s.nodes
    ensures Wf(Prune(s, p, d))
  {
    var t := Prune(s, p, d);
    forall id, k | id in t.nodes && k in t.nodes[id].children ensures ChildLinked(t, id, k) {
      assert ChildLinked(s, id, k);
    }
  }

  /** The successful result of `umount`: the new arena and the removed child. */
  datatype Unmounted = Unmounted(store: Store, child: NodeId)

  /** `MountNode::umount(self, mountpoint)`. The removed child stays in the
      arena (the caller receives it) with its own subtree untouched. */
  function Umount(s: Store, self: NodeId, mp: Path): (r: Result<Unmounted, Errno>)
    requires Wf(s) && self in s.nodes
    ensures mp.mount != self ==> r == Err(EINVAL)
    ensures mp.mount == self && mp.dentry !in s.nodes[self].children ==> r == Err(ENOENT)
    ensures r.Ok? <==> mp.mount == self && mp.dentry in s.nodes[self].children
    ensures r.Ok? ==>
      var t, c := r.value.store, r.value.child;
      && Wf(t)
      && c == s.nodes[self].children[mp.dentry]
      && t.nodes.Keys == s.nodes.Keys
      && KeptExcept(s, t, self)
      && t.nodes[self] == s.nodes[self].(children := s.nodes[self].children - {mp.dentry})
      && Get(t, self, mp.dentry) == None
  {
    if mp.mount != self then Err(EINVAL)
    else if mp.dentry !in s.nodes[self].children then Err(ENOENT)
    else
      var n := s.nodes[self];
      var c := n.children[mp.dentry];
      PruneKeepsWf(s, self, mp.dentry);
      Ok(Unmounted(Prune(s, self, mp.dentry), c))
  }

  /** Unmounting what was just mounted on a free mountpoint hands back
      the new child and restores the mount's children map; no other
      original node changes. */
  lemma MountThenUmount(s: Store, self: NodeId, fs: FsId, root: Dentry, mp: Path, isDir: Dentry -> bool)
    requires Wf(s) && self in s.nodes && mp.mount == self && isDir(mp.dentry)
    requires mp.dentry !in s.nodes[self].children
    ensures Mount(s, self, fs, root, mp, isDir).Ok?
    ensures var m := Mount(s, self, fs, root, mp, isDir).value;
      var u := Umount(m.store, self, mp);
      && u.Ok? && u.value.child == m.child
      && u.value.store.nodes[self] == s.nodes[self]
      && Kept(s, u.value.store)
  {
    var m := Mount(s, self, fs, root, mp, isDir).value;
    var u := Umount(m.store, self, mp).value;
    var ch := s.nodes[self].children;
    assert ch[mp.dentry := m.child] - {mp.dentry} == ch;
    assert u.store.nodes[self] == s.nodes[self];
  }

  /** Mounting twice on the same mountpoint: the second child takes the
      place of the first, under the same set of keys. */
  lemma MountReplaces(s: Store, self: NodeId, fs1: FsId, root1: Dentry, fs2: FsId, root2: Dentry,
                      mp: Path, isDir: Dentry -> bool)
    requires Wf(s) && self in s.nodes && mp.mount == self && isDir(mp.dentry)
    ensures Mount(s, self, fs1, root1, mp, isDir).Ok?
    ensures var m1 := Mount(s, self, fs1, root1, mp, isDir).value;
      var m2 := Mount(m1.store, self, fs2, root2, mp, isDir);
      && m2.Ok? && m2.value.child != m1.child
      && Get(m2.value.store, self, mp.dentry) == Some(m2.value.child)
      && m2.value.store.nodes[self].children.Keys == m1.store.nodes[self].children.Keys
      && m2.value.store.nodes[m1.child] == m1.store.nodes[m1.child]
  {
  }

  /** The children of a node in ascending key order: the order in which
      `children.values()` yields them. */
  function ChildOrder(m: map<Dentry, NodeId>): (r: seq<NodeId>) {
    var ks := SortedKeys.Ascending(m.Keys);
    seq(|ks|, i requires 0 <= i < |ks| => m[ks[i]])
  }

  /** The children of `id`, in key order. */
  function Kids(s: Store, id: NodeId): (r: seq<NodeId>)
    requires id in s.nodes
  {
    ChildOrder(s.nodes[id].children)
  }

  /** The children of `id` in key order are live nodes created after `id`
      whose parent is `id`, none listed twice, and every child is listed,
      at the position of its key. */
  lemma KidsFacts(s: Store, id: NodeId)
    requires Wf(s) && id in s.nodes
    ensures var r := Kids(s, id);
      && (forall i :: 0 <= i < |r| ==> r[i] in s.nodes && id < r[i] && s.nodes[r[i]].parent == Some(id))
      && (forall i, j :: 0 <= i < j < |r| ==> r[i] != r[j])
      && (forall k :: k in s.nodes[id].children ==> s.nodes[id].children[k] in r)
  {
    var m := s.nodes[id].children;
    var ks := SortedKeys.Ascending(m.Keys);
    var r := Kids(s, id);
    assert |r| == |ks|;
    assert forall i :: 0 <= i < |r| ==> ks[i] in m && r[i] == m[ks[i]] && ChildLinked(s, id, ks[i]);
    forall k | k in m ensures m[k] in r {
      var i := SortedKeys.AscendingLists(m.Keys, k);
      assert r[i] == m[k];
    }
  }

  /** The child at position `i` of `Kids` is the one mounted on the `i`-th
      smallest key. */
  lemma KidsAt(s: Store, id: NodeId, i: nat)
    requires id in s.nodes && i < |Kids(s, id)|
    ensures var ks := SortedKeys.Ascending(s.nodes[id].children.Keys);
      i < |ks| && ks[i] in s.nodes[id].children && Kids(s, id)[i] == s.nodes[id].children[ks[i]]
  {
  }

  /** One child in key order is a live node created after `id` whose
      parent is `id`. */
  lemma KidLinked(s: Store, id: NodeId, i: nat)
    requires Wf(s) && id in s.nodes && i < |Kids(s, id)|
    ensures Kids(s, id)[i] in s.nodes && id < Kids(s, id)[i] && s.nodes[Kids(s, id)[i]].parent == Some(id)
  {
    KidsAt(s, id, i);
    var ks := SortedKeys.Ascending(s.nodes[id].children.Keys);
    assert ChildLinked(s, id, ks[i]);
  }

  /** Different positions of `Kids` hold different children. */
  lemma KidsDistinct(s: Store, id: NodeId, i: nat, j: nat)
    requires Wf(s) && id in s.nodes && i < |Kids(s, id)| && j < |Kids(s, id)| && i != j
    ensures Kids(s, id)[i] != Kids(s, id)[j]
  {
    KidsAt(s, id, i);
    KidsAt(s, id, j);
    var ks := SortedKeys.Ascending(s.nodes[id].children.Keys);
    assert ChildLinked(s, id, ks[i]) && ChildLinked(s, id, ks[j]);
    assert ks[i] != ks[j];
  }
}
