/** `MountNode::copy_tree`: an iterative depth-first copy of a mount subtree
    that also moves the calling task's root and working directory onto the
    copy. */
module MountCopy {
  import opened Wrappers
  import SortedKeys
  import opened MountTree
  import opened Subtree

  /** The calling task's root and working directory (`current.fs()`). */
  datatype FsPaths = FsPaths(root: Path, cwd: Path)

  /** `b` in `t` is a copy of the subtree of `a` in `s`: the same mount, on
      the same mountpoint keys, with copies of the same children. */
  ghost predicate CopyOf(s: Store, a: NodeId, t: Store, b: NodeId)
    requires Wf(s) && Wf(t) && a in s.nodes && b in t.nodes
    decreases s.next - a
  {
    && SameMount(t.nodes[b], s.nodes[a])
    && t.nodes[b].children.Keys == s.nodes[a].children.Keys
    && forall k :: k in s.nodes[a].children ==>
         CopyOf(s, s.nodes[a].children[k], t, t.nodes[b].children[k])
  }

  /** One `if Arc::ptr_eq(x.root_dentry(), p.mntnode().root_dentry())`
      block: `p` moves onto the clone `n` of `x` when `x` has the root dentry
      of the mount `p` currently lies in. */
  function Retarget(t: Store, p: Path, x: NodeId, n: NodeId): (q: Path)
    requires p.mount in t.nodes && x in t.nodes
  {
    if t.nodes[x].rootDentry == t.nodes[p.mount].rootDentry then Path(n, p.dentry) else p
  }

  /** The root check followed by the working-directory check. */
  function RetargetBoth(t: Store, paths: FsPaths, x: NodeId, n: NodeId): (q: FsPaths)
    requires paths.root.mount in t.nodes && paths.cwd.mount in t.nodes && x in t.nodes
  {
    FsPaths(Retarget(t, paths.root, x, n), Retarget(t, paths.cwd, x, n))
  }

  // ---------------------------------------------------------------------
  // The state of the copy loop.

  /** `n` in `t` is a clone of node `x` of `s`, made by this copy. */
  ghost predicate CloneOf(s: Store, o: NodeId, t: Store, x: NodeId, n: NodeId) {
    x in s.nodes && o <= x && n in t.nodes && s.next <= n && SameMount(t.nodes[n], s.nodes[x])
  }

  /** `x` is mounted in `s` on its mountpoint under a parent in `done`. */
  ghost predicate HungUnder(s: Store, x: NodeId, done: set<NodeId>) {
    && x in s.nodes && s.nodes[x].parent.Some? && s.nodes[x].mountpoint.Some?
    && var p := s.nodes[x].parent.value;
    && p in done && p in s.nodes
    && s.nodes[x].mountpoint.value in s.nodes[p].children
    && s.nodes[p].children[s.nodes[x].mountpoint.value] == x
  }

  /** The clone of `x` has some of the children entries of `x`, each naming
      the clone of the original child; an entry is present iff its child
      already has a clone. */
  ghost predicate PartCopy(s: Store, t: Store, corr: map<NodeId, NodeId>, x: NodeId) {
    && x in corr && x in s.nodes && corr[x] in t.nodes
    && var m := s.nodes[x].children;
    && var m' := t.nodes[corr[x]].children;
    && m'.Keys <= m.Keys
    && forall k :: k in m ==> (k in m' <==> m[k] in corr) && (k in m' ==> m'[k] == corr[m[k]])
  }

  /** The clone of `x` has all the children entries of `x`. */
  ghost predicate Complete(s: Store, t: Store, corr: map<NodeId, NodeId>, x: NodeId) {
    x in corr && x in s.nodes && corr[x] in t.nodes && s.nodes[x].children.Keys <= t.nodes[corr[x]].children.Keys
  }

  /** The arena part of the loop invariant: originals untouched, exactly
      the clones added, each a clone of its original, no two originals
      sharing a clone, and the copy's root detached from any parent. */
  ghost predicate Shape(s: Store, o: NodeId, t: Store, corr: map<NodeId, NodeId>) {
    && Wf(s) && Wf(t) && Kept(s, t) && s.next <= t.next
    && o in corr && t.nodes.Keys == s.nodes.Keys + corr.Values
    && (forall x :: x in corr ==> CloneOf(s, o, t, x, corr[x]))
    && (forall x, y :: x in corr && y in corr && x != y ==> corr[x] != corr[y])
    && corr[o] in t.nodes && t.nodes[corr[o]].parent == None
  }

  /** Every cloned original other than the copy's root was reached as a
      child of an original in `done`. */
  ghost predicate Links(s: Store, o: NodeId, corr: map<NodeId, NodeId>, done: set<NodeId>) {
    forall x :: x in corr && x != o ==> HungUnder(s, x, done)
  }

  /** The originals in `done` have their children entries copied, all of
      them except maybe for `cur`. */
  ghost predicate Copies(s: Store, t: Store, corr: map<NodeId, NodeId>, done: set<NodeId>, cur: Option<NodeId>) {
    && (forall x :: x in done ==> PartCopy(s, t, corr, x))
    && (forall x :: x in done && cur != Some(x) ==> Complete(s, t, corr, x))
  }

  /** `pending` and `clones` are `stack` and `new_stack`: paired originals
      and clones, the clones still childless; every cloned original is done
      or pending. */
  ghost predicate Stacks(t: Store, corr: map<NodeId, NodeId>, done: set<NodeId>, pending: seq<NodeId>, clones: seq<NodeId>) {
    && done <= corr.Keys
    && (forall x :: x in corr ==> x in done || x in pending)
    && |pending| == |clones|
    && (forall i :: 0 <= i < |pending| ==>
          pending[i] in corr && pending[i] !in done && clones[i] == corr[pending[i]]
          && clones[i] in t.nodes && t.nodes[clones[i]].children == map[])
    && Distinct(pending)
  }

  /** Invariant of the copy loop. `corr` maps each original visited so far to
      its clone; `done` holds the originals whose children were cloned
      (`cur` the one in progress). */
  ghost predicate Copying(s: Store, o: NodeId, t: Store, corr: map<NodeId, NodeId>, done: set<NodeId>,
                          pending: seq<NodeId>, clones: seq<NodeId>, cur: Option<NodeId>)
  {
    Shape(s, o, t, corr) && Links(s, o, corr, done) && Copies(s, t, corr, done, cur) && Stacks(t, corr, done, pending, clones)
  }

  /** The first `j` keys of `ks` are copied into the clone `n`, and every
      key it holds comes before `ks[j]`. */
  ghost predicate Filled(t: Store, n: NodeId, ks: seq<Dentry>, j: nat) {
    && n in t.nodes && j <= |ks|
    && (forall i :: 0 <= i < j ==> ks[i] in t.nodes[n].children)
    && (forall k :: k in t.nodes[n].children ==> j < |ks| ==> k < ks[j])
  }

  /** How the path `q`, started as `p`, has followed the copy: it still
      names the dentry of `p`, lies in a mount with the root dentry of the
      mount of `p`, and is `p` itself while no clone made so far (a node at
      or above `s.next`) has that root dentry, else the latest such clone. */
  ghost predicate Tracks(s: Store, t: Store, p: Path, q: Path)
    requires p.mount in s.nodes
  {
    var d := s.nodes[p.mount].rootDentry;
    && q.dentry == p.dentry && q.mount in t.nodes && t.nodes[q.mount].rootDentry == d
    && ((q == p && forall y :: y in t.nodes && s.next <= y ==> t.nodes[y].rootDentry != d)
        || (s.next <= q.mount
            && forall y :: y in t.nodes && s.next <= y && t.nodes[y].rootDentry == d ==> y <= q.mount))
  }

  /** `ks` lists exactly the keys of `m`, in ascending order. */
  ghost predicate KeyOrder(ks: seq<Dentry>, m: map<Dentry, NodeId>) {
    && (forall i :: 0 <= i < |ks| ==> ks[i] in m)
    && (forall i, j :: 0 <= i < j < |ks| ==> ks[i] < ks[j])
    && (forall k :: k in m ==> k in ks)
  }

  /** Invariant of the outer loop of `copy_tree` of `o` into the copy
      rooted at `r`, with the calling task's paths `paths` now at `q`. */
  ghost predicate Walking(s: Store, o: NodeId, r: NodeId, t: Store, corr: map<NodeId, NodeId>, done: set<NodeId>,
                          pending: seq<NodeId>, clones: seq<NodeId>, paths: FsPaths, q: FsPaths)
    requires paths.root.mount in s.nodes && paths.cwd.mount in s.nodes
  {
    && Copying(s, o, t, corr, done, pending, clones, None) && corr[o] == r
    && Tracks(s, t, paths.root, q.root) && Tracks(s, t, paths.cwd, q.cwd)
  }

  /** Invariant of the inner loop, which clones the children of the popped
      original `x` under its clone `x'` in the key order `ks`, the first `j`
      of them done. */
  ghost predicate Filling(s: Store, o: NodeId, r: NodeId, t: Store, corr: map<NodeId, NodeId>, done: set<NodeId>,
                          pending: seq<NodeId>, clones: seq<NodeId>, x: NodeId, x': NodeId, ks: seq<Dentry>, j: nat,
                          paths: FsPaths, q: FsPaths)
    requires paths.root.mount in s.nodes && paths.cwd.mount in s.nodes
  {
    && Copying(s, o, t, corr, done, pending, clones, Some(x)) && corr[o] == r
    && x in done && x in corr && corr[x] == x' && x in t.nodes && t.nodes[x] == s.nodes[x]
    && KeyOrder(ks, s.nodes[x].children) && Filled(t, x', ks, j)
    && Tracks(s, t, paths.root, q.root) && Tracks(s, t, paths.cwd, q.cwd)
  }

  // ---------------------------------------------------------------------
  // Steps of the copy loop.

  /** What `Graft` does to the arena, for the step lemmas below. */
  lemma GraftEffect(t: Store, p: NodeId, d: Dentry, n: Node)
    requires p in t.nodes
    ensures var t' := Graft(t, p, d, n);
      && t'.next == t.next + 1 && t'.nodes.Keys == t.nodes.Keys + {t.next}
      && (p != t.next ==> t'.nodes[p] == t.nodes[p].(children := t.nodes[p].children[d := t.next]))
      && (p != t.next ==> t'.nodes[t.next] == n)
      && forall y :: y in t.nodes && y != p && y != t.next ==> t'.nodes[y] == t.nodes[y]
  {
  }

  /** Cloning the root of the copied subtree, and checking the calling task's
      paths against it, starts the loop. */
  lemma CopyStart(s: Store, o: NodeId, paths: FsPaths, t: Store, r: NodeId)
    requires Wf(s) && o in s.nodes && paths.root.mount in s.nodes && paths.cwd.mount in s.nodes
    requires (t, r) == Alloc(s, CloneMnt(s.nodes[o], None))
    ensures r == s.next && paths.root.mount in t.nodes && paths.cwd.mount in t.nodes && o in t.nodes
    ensures Walking(s, o, r, t, map[o := r], {}, [o], [r], paths, RetargetBoth(t, paths, o, r))
  {
    var corr := map[o := s.next];
    assert corr.Values == {s.next} by {
      assert corr[o] == s.next;
      forall v | v in corr.Values ensures v == s.next { var x :| x in corr && corr[x] == v; }
    }
    assert t.nodes.Keys == s.nodes.Keys + {s.next};
    forall id, k | id in t.nodes && k in t.nodes[id].children ensures ChildLinked(t, id, k) {
      assert id in s.nodes && ChildLinked(s, id, k);
    }
    assert Shape(s, o, t, corr);
    assert Stacks(t, corr, {}, [o], [s.next]);
    assert Tracks(s, s, paths.root, paths.root) && Tracks(s, s, paths.cwd, paths.cwd);
    TracksStep(s, s, t, paths.root, paths.root, o, s.next);
    TracksStep(s, s, t, paths.cwd, paths.cwd, o, s.next);
  }

  /** Popping the last pending original `x`: it joins `done`, its clone has
      no children yet and none of its children has a clone. */
  lemma PopState(s: Store, o: NodeId, t: Store, corr: map<NodeId, NodeId>, done: set<NodeId>,
                pending: seq<NodeId>, clones: seq<NodeId>, n: nat, x: NodeId)
    requires Copying(s, o, t, corr, done, pending, clones, None) && n + 1 == |pending| && x == pending[n]
    ensures x !in done && x in s.nodes && n < |clones| && x in corr && clones[n] == corr[x]
    ensures Copying(s, o, t, corr, done + {x}, pending[..n], clones[..n], Some(x))
    ensures clones[n] in t.nodes && t.nodes[clones[n]].children == map[]
  {
    assert x in corr && x !in done && clones[n] == corr[x];
    assert CloneOf(s, o, t, x, corr[x]);
    PopCopies(s, o, t, corr, done, x);
    PopStacks(t, corr, done, pending, clones, n, x);
    PopLinks(s, o, corr, done, x);
  }

  /** Links survive adding to `done`. */
  lemma PopLinks(s: Store, o: NodeId, corr: map<NodeId, NodeId>, done: set<NodeId>, x: NodeId)
    requires Links(s, o, corr, done)
    ensures Links(s, o, corr, done + {x})
  {
    forall y | y in corr && y != o ensures HungUnder(s, y, done + {x}) {
      assert HungUnder(s, y, done);
    }
  }

  /** The original on top of the stack is still in the arena, unchanged. */
  lemma PendingKept(s: Store, o: NodeId, t: Store, corr: map<NodeId, NodeId>, done: set<NodeId>,
                    pending: seq<NodeId>, clones: seq<NodeId>)
    requires Copying(s, o, t, corr, done, pending, clones, None) && |pending| > 0
    ensures var x := pending[|pending| - 1]; x in t.nodes && t.nodes[x] == s.nodes[x]
  {
    var x := pending[|pending| - 1];
    assert x in corr && CloneOf(s, o, t, x, corr[x]);
  }

  /** Popping `x` off the stack, with its keys listed as `ks`, starts the
      inner loop and leaves fewer originals to visit. */
  lemma CopyPop(s: Store, o: NodeId, r: NodeId, t: Store, corr: map<NodeId, NodeId>, done: set<NodeId>,
                pending: seq<NodeId>, clones: seq<NodeId>, paths: FsPaths, q: FsPaths, n: nat, x: NodeId, ks: seq<Dentry>)
    requires paths.root.mount in s.nodes && paths.cwd.mount in s.nodes
    requires Walking(s, o, r, t, corr, done, pending, clones, paths, q)
    requires n + 1 == |pending| && x == pending[n] && x in t.nodes && KeyOrder(ks, t.nodes[x].children)
    ensures n < |clones|
    ensures Filling(s, o, r, t, corr, done + {x}, pending[..n], clones[..n], x, clones[n], ks, 0, paths, q)
    ensures |s.nodes.Keys - (done + {x})| < |s.nodes.Keys - done|
  {
    PopState(s, o, t, corr, done, pending, clones, n, x);
    FilledStart(t, clones[n], ks);
    Shrinks(s.nodes.Keys, done, x);
  }

  /** A childless clone has none of the keys copied yet. */
  lemma FilledStart(t: Store, n: NodeId, ks: seq<Dentry>)
    requires n in t.nodes && t.nodes[n].children == map[]
    ensures Filled(t, n, ks, 0)
  {
  }

  /** Local helper for the termination of the copy loop: moving `x` into
      `done` leaves fewer nodes to visit. */
  lemma Shrinks(a: set<NodeId>, done: set<NodeId>, x: NodeId)
    requires x in a && x !in done
    ensures |a - (done + {x})| < |a - done|
  {
    assert a - (done + {x}) == (a - done) - {x};
    assert x in a - done;
  }

  lemma PopCopies(s: Store, o: NodeId, t: Store, corr: map<NodeId, NodeId>, done: set<NodeId>, x: NodeId)
    requires Shape(s, o, t, corr) && Links(s, o, corr, done) && Copies(s, t, corr, done, None)
    requires x in corr && x !in done && t.nodes[corr[x]].children == map[]
    ensures Copies(s, t, corr, done + {x}, Some(x))
  {
    assert CloneOf(s, o, t, x, corr[x]);
    var m := s.nodes[x].children;
    forall k | k in m ensures m[k] !in corr {
      assert ChildLinked(s, x, k);
    }
    assert PartCopy(s, t, corr, x);
  }

  lemma PopStacks(t: Store, corr: map<NodeId, NodeId>, done: set<NodeId>, pending: seq<NodeId>, clones: seq<NodeId>,
                  n: nat, x: NodeId)
    requires Stacks(t, corr, done, pending, clones) && n + 1 == |pending| && x == pending[n]
    ensures Stacks(t, corr, done + {x}, pending[..n], clones[..n])
  {
    var done', pending' := done + {x}, pending[..n];
    forall i | 0 <= i < n ensures pending'[i] !in done' {
      assert pending'[i] == pending[i] && pending[i] != pending[n];
    }
    forall y | y in corr ensures y in done' || y in pending' {
      if y !in done && y != x {
        var i :| 0 <= i < |pending| && pending[i] == y;
        assert i < n && pending'[i] == y;
      }
    }
  }

  /** Cloning the `j`-th child (in key order) of the original `x` in
      progress, grafting the clone under the clone of `x` and pushing both
      onto the stacks. */
  lemma CopyChild(s: Store, o: NodeId, t: Store, corr: map<NodeId, NodeId>, done: set<NodeId>,
                  pending: seq<NodeId>, clones: seq<NodeId>, x: NodeId, ks: seq<Dentry>, j: nat)
    requires Copying(s, o, t, corr, done, pending, clones, Some(x))
    requires x in done && j < |ks| && Filled(t, corr[x], ks, j)
    requires ks[j] in s.nodes[x].children && (j + 1 < |ks| ==> ks[j] < ks[j + 1])
    ensures var c := s.nodes[x].children[ks[j]];
      var n := CloneMnt(s.nodes[c], Some(corr[x]));
      var t' := Graft(t, corr[x], ks[j], n);
      && c in s.nodes && c in t.nodes && t.nodes[c] == s.nodes[c] && c !in corr && n.mountpoint == Some(ks[j])
      && Copying(s, o, t', corr[c := t.next], done, pending + [c], clones + [t.next], Some(x))
      && t'.nodes[corr[x]].children == t.nodes[corr[x]].children[ks[j] := t.next]
  {
    var m := s.nodes[x].children;
    var k := ks[j];
    assert k in m;
    var c := m[k];
    assert ChildLinked(s, x, k);
    var xc := corr[x];
    assert PartCopy(s, t, corr, x);
    assert k !in t.nodes[xc].children;
    assert c !in corr;
    var n := CloneMnt(s.nodes[c], Some(xc));
    var t' := Graft(t, xc, k, n);
    GraftKeepsWf(t, xc, k, n);
    GraftEffect(t, xc, k, n);
    ChildShape(s, o, t, t', corr, x, c);
    ChildCopies(s, o, t, t', corr, done, x, k, c);
    ChildStacks(t, t', corr, done, pending, clones, x, c);
    assert Links(s, o, corr[c := t.next], done) by {
      forall y | y in corr[c := t.next] && y != o ensures HungUnder(s, y, done) {
        if y != c { assert HungUnder(s, y, done); }
      }
    }
  }

  lemma ChildShape(s: Store, o: NodeId, t: Store, t': Store, corr: map<NodeId, NodeId>, x: NodeId, c: NodeId)
    requires Shape(s, o, t, corr) && x in corr && c in s.nodes && x < c && c !in corr && Wf(t')
    requires t'.next == t.next + 1 && t'.nodes.Keys == t.nodes.Keys + {t.next}
    requires t'.nodes[corr[x]] == t.nodes[corr[x]].(children := t'.nodes[corr[x]].children)
    requires SameMount(t'.nodes[t.next], s.nodes[c]) && t'.nodes[t.next].parent == Some(corr[x])
    requires forall y :: y in t.nodes && y != corr[x] && y != t.next ==> t'.nodes[y] == t.nodes[y]
    ensures Shape(s, o, t', corr[c := t.next])
    ensures forall y :: y in corr ==> corr[y] < t.next
  {
    var id: NodeId := t.next;
    var corr': map<NodeId, NodeId> := corr[c := id];
    assert CloneOf(s, o, t, x, corr[x]);
    ClonesBelow(s, o, t, corr);
    ChildKept(s, t, t', corr[x], id);
    ValuesUpdate(corr, c, id);
    ChildClones(s, o, t, t', corr, x, c, corr');
    UpdateInjective(corr, c, id, corr');
    assert t'.nodes.Keys == s.nodes.Keys + corr'.Values;
    assert corr'[o] == corr[o] && t'.nodes[corr'[o]].parent == None;
  }

  /** Adding a fresh original with a fresh clone keeps the
      correspondence one-to-one. */
  lemma UpdateInjective(corr: map<NodeId, NodeId>, c: NodeId, id: NodeId, corr': map<NodeId, NodeId>)
    requires forall y, z :: y in corr && z in corr && y != z ==> corr[y] != corr[z]
    requires c !in corr && (forall y :: y in corr ==> corr[y] < id) && corr' == corr[c := id]
    ensures forall y, z :: y in corr' && z in corr' && y != z ==> corr'[y] != corr'[z]
  {
  }

  /** Grafting a clone under the clone `x'` leaves the originals alone. */
  lemma ChildKept(s: Store, t: Store, t': Store, x': NodeId, id: NodeId)
    requires Wf(s) && Kept(s, t) && s.next <= x' && s.next <= id
    requires forall y :: y in t.nodes && y != x' && y != id ==> y in t'.nodes && t'.nodes[y] == t.nodes[y]
    ensures Kept(s, t')
  {
    forall y | y in s.nodes ensures y in t'.nodes && t'.nodes[y] == s.nodes[y] {
      assert y in t.nodes && y < s.next;
    }
  }

  /** After the graft every cloned original, `c` included, has its clone. */
  lemma ChildClones(s: Store, o: NodeId, t: Store, t': Store, corr: map<NodeId, NodeId>, x: NodeId, c: NodeId,
                     corr': map<NodeId, NodeId>)
    requires forall y :: y in corr ==> CloneOf(s, o, t, y, corr[y])
    requires x in corr && o <= x < c && c in s.nodes && corr[x] in t.nodes && corr' == corr[c := t.next]
    requires s.next <= t.next && t.next !in t.nodes
    requires t'.nodes.Keys == t.nodes.Keys + {t.next}
    requires t'.nodes[corr[x]] == t.nodes[corr[x]].(children := t'.nodes[corr[x]].children)
    requires SameMount(t'.nodes[t.next], s.nodes[c])
    requires forall y :: y in t.nodes && y != corr[x] && y != t.next ==> t'.nodes[y] == t.nodes[y]
    ensures forall y :: y in corr' ==> CloneOf(s, o, t', y, corr'[y])
  {
    forall y | y in corr' ensures CloneOf(s, o, t', y, corr'[y]) {
      if y != c { assert CloneOf(s, o, t, y, corr[y]); }
    }
  }

  /** Local helper for the clone bookkeeping: adding a fresh key with a
      fresh value adds exactly that value. */
  lemma ValuesUpdate(m: map<NodeId, NodeId>, k: NodeId, v: NodeId)
    requires k !in m
    ensures m[k := v].Values == m.Values + {v}
  {
    var m' := m[k := v];
    forall w | w in m'.Values ensures w in m.Values + {v} {
      var y :| y in m' && m'[y] == w;
      if y != k { assert m[y] == w; }
    }
    forall w | w in m.Values ensures w in m'.Values {
      var y :| y in m && m[y] == w;
      assert m'[y] == w;
    }
    assert m'[k] == v;
  }

  lemma ChildCopies(s: Store, o: NodeId, t: Store, t': Store, corr: map<NodeId, NodeId>, done: set<NodeId>,
                    x: NodeId, k: Dentry, c: NodeId)
    requires Shape(s, o, t, corr) && Copies(s, t, corr, done, Some(x)) && x in done
    requires k in s.nodes[x].children && c == s.nodes[x].children[k] && ChildLinked(s, x, k) && c !in corr
    requires t'.nodes.Keys == t.nodes.Keys + {t.next}
    requires t'.nodes[corr[x]] == t.nodes[corr[x]].(children := t.nodes[corr[x]].children[k := t.next])
    requires forall y :: y in t.nodes && y != corr[x] && y != t.next ==> t'.nodes[y] == t.nodes[y]
    ensures Copies(s, t', corr[c := t.next], done, Some(x))
  {
    var corr' := corr[c := t.next];
    forall y | y in done ensures PartCopy(s, t', corr', y) {
      assert PartCopy(s, t, corr, y);
      assert CloneOf(s, o, t, y, corr[y]);
      var my := s.nodes[y].children;
      forall k2 | k2 in my && my[k2] == c ensures y == x && k2 == k {
        assert ChildLinked(s, y, k2);
      }
      if y != x {
        assert corr[y] != corr[x] && corr[y] != t.next;
      }
    }
    forall y | y in done && Some(y) != Some(x) ensures Complete(s, t', corr', y) {
      assert Complete(s, t, corr, y);
      assert CloneOf(s, o, t, y, corr[y]);
      assert corr[y] != corr[x] && corr[y] != t.next;
    }
  }

  lemma ChildStacks(t: Store, t': Store, corr: map<NodeId, NodeId>, done: set<NodeId>,
                    pending: seq<NodeId>, clones: seq<NodeId>, x: NodeId, c: NodeId)
    requires Stacks(t, corr, done, pending, clones) && x in done && x in corr && c !in corr
    requires forall y, z :: y in corr && z in corr && y != z ==> corr[y] != corr[z]
    requires forall y :: y in corr ==> corr[y] in t.nodes
    requires t.next !in t.nodes && t'.nodes.Keys == t.nodes.Keys + {t.next} && t'.nodes[t.next].children == map[]
    requires forall y :: y in t.nodes && y != corr[x] && y != t.next ==> t'.nodes[y] == t.nodes[y]
    ensures Stacks(t', corr[c := t.next], done, pending + [c], clones + [t.next])
  {
    var corr' := corr[c := t.next];
    var pending', clones' := pending + [c], clones + [t.next];
    forall i | 0 <= i < |pending'| ensures
      pending'[i] in corr' && pending'[i] !in done && clones'[i] == corr'[pending'[i]]
      && clones'[i] in t'.nodes && t'.nodes[clones'[i]].children == map[]
    {
      if i < |pending| {
        assert pending'[i] == pending[i] && clones'[i] == clones[i];
        assert pending[i] != x;
      } else {
        assert c !in done;
      }
    }
    assert Distinct(pending') by {
      forall i | 0 <= i < |pending| ensures pending[i] != c { }
      DistinctAppend(pending, [c]);
    }
  }

  /** Copying key `ks[j]` into the clone `n` extends the filled prefix. */
  lemma FilledStep(t: Store, t': Store, n: NodeId, ks: seq<Dentry>, j: nat, v: NodeId)
    requires Filled(t, n, ks, j) && j < |ks| && (j + 1 < |ks| ==> ks[j] < ks[j + 1])
    requires n in t'.nodes && t'.nodes[n].children == t.nodes[n].children[ks[j] := v]
    ensures Filled(t', n, ks, j + 1)
  {
  }

  /** Grafting changes no node's root dentry and gives the new node the
      root dentry of the grafted one. */
  lemma GraftRoots(t: Store, p: NodeId, d: Dentry, n: Node)
    requires Wf(t) && p in t.nodes
    ensures var t' := Graft(t, p, d, n);
      && t.next !in t.nodes && t'.nodes.Keys == t.nodes.Keys + {t.next}
      && (forall y :: y in t.nodes ==> y < t.next && t'.nodes[y].rootDentry == t.nodes[y].rootDentry)
      && t'.nodes[t.next].rootDentry == n.rootDentry
  {
  }

  /** Every clone made so far is older than the next id. */
  lemma ClonesBelow(s: Store, o: NodeId, t: Store, corr: map<NodeId, NodeId>)
    requires Shape(s, o, t, corr)
    ensures forall y :: y in corr ==> corr[y] < t.next
  {
    forall y | y in corr ensures corr[y] < t.next { assert CloneOf(s, o, t, y, corr[y]); }
  }

  /** A path keeps following the copy when one more original `c` is cloned
      as the new node `id` and the path is retargeted. */
  lemma TracksStep(s: Store, t: Store, t': Store, p: Path, q: Path, c: NodeId, id: NodeId)
    requires p.mount in s.nodes && Tracks(s, t, p, q)
    requires c in s.nodes && c in t'.nodes && t'.nodes[c].rootDentry == s.nodes[c].rootDentry
    requires s.next <= id && id !in t.nodes && t'.nodes.Keys == t.nodes.Keys + {id}
    requires t'.nodes[id].rootDentry == s.nodes[c].rootDentry
    requires forall y :: y in t.nodes ==> y < id && t'.nodes[y].rootDentry == t.nodes[y].rootDentry
    ensures q.mount in t'.nodes
    ensures Tracks(s, t', p, Retarget(t', q, c, id))
  {
  }

  /** Once every child of `x` is cloned, `x` is complete and the outer
      loop's invariant is back. */
  lemma CopyClose(s: Store, o: NodeId, r: NodeId, t: Store, corr: map<NodeId, NodeId>, done: set<NodeId>,
                  pending: seq<NodeId>, clones: seq<NodeId>, x: NodeId, x': NodeId, ks: seq<Dentry>,
                  paths: FsPaths, q: FsPaths)
    requires paths.root.mount in s.nodes && paths.cwd.mount in s.nodes
    requires Filling(s, o, r, t, corr, done, pending, clones, x, x', ks, |ks|, paths, q)
    ensures Walking(s, o, r, t, corr, done, pending, clones, paths, q)
  {
    assert PartCopy(s, t, corr, x);
    forall k | k in s.nodes[x].children ensures k in t.nodes[corr[x]].children {
      var i :| 0 <= i < |ks| && ks[i] == k;
    }
    assert Complete(s, t, corr, x);
  }

  // ---------------------------------------------------------------------
  // After the loop: the correspondence is a copy of the whole subtree.

  /** Every cloned original lies in the subtree of `o`, and its clone in the
      subtree of the copy's root. */
  lemma {:induction false} EndReach(s: Store, o: NodeId, t: Store, corr: map<NodeId, NodeId>, done: set<NodeId>, x: NodeId)
    requires Copying(s, o, t, corr, done, [], [], None) && x in corr
    ensures InSubtree(s, x, o) && InSubtree(t, corr[x], corr[o])
    decreases x
  {
    assert CloneOf(s, o, t, x, corr[x]) && CloneOf(s, o, t, o, corr[o]);
    if x != o {
      assert HungUnder(s, x, done);
      var p := s.nodes[x].parent.value;
      var k := s.nodes[x].mountpoint.value;
      assert ChildLinked(s, p, k);
      assert PartCopy(s, t, corr, p);
      EndReach(s, o, t, corr, done, p);
      SubtreeChild(s, p, o, k);
      SubtreeChild(t, corr[p], corr[o], k);
    }
  }

  /** The clone of every cloned original is a copy of its whole subtree. */
  lemma {:induction false} EndCopy(s: Store, o: NodeId, t: Store, corr: map<NodeId, NodeId>, done: set<NodeId>, x: NodeId)
    requires Copying(s, o, t, corr, done, [], [], None) && x in corr
    ensures x in s.nodes && corr[x] in t.nodes && CopyOf(s, x, t, corr[x])
    decreases s.next - x
  {
    assert CloneOf(s, o, t, x, corr[x]);
    assert x in done;
    assert PartCopy(s, t, corr, x) && Complete(s, t, corr, x);
    var m := s.nodes[x].children;
    forall k | k in m ensures CopyOf(s, m[k], t, t.nodes[corr[x]].children[k]) {
      assert ChildLinked(s, x, k);
      EndCopy(s, o, t, corr, done, m[k]);
    }
  }

  /** The originals cloned are exactly the subtree of `o`, and the clones
      exactly the subtree of the copy's root. */
  lemma EndExact(s: Store, o: NodeId, t: Store, corr: map<NodeId, NodeId>, done: set<NodeId>)
    requires Copying(s, o, t, corr, done, [], [], None)
    ensures o in s.nodes && corr[o] in t.nodes
    ensures forall x: NodeId :: x in corr <==> InSubtree(s, x, o)
    ensures forall y: NodeId :: y in corr.Values <==> InSubtree(t, y, corr[o])
  {
    assert CloneOf(s, o, t, o, corr[o]);
    forall x | x in corr ensures InSubtree(s, x, o) && InSubtree(t, corr[x], corr[o]) {
      EndReach(s, o, t, corr, done, x);
    }
    EndSourceClosed(s, o, t, corr, done);
    EndCloneClosed(s, o, t, corr, done);
  }

  lemma EndSourceClosed(s: Store, o: NodeId, t: Store, corr: map<NodeId, NodeId>, done: set<NodeId>)
    requires Copying(s, o, t, corr, done, [], [], None)
    ensures forall x: NodeId :: InSubtree(s, x, o) ==> x in corr
  {
    assert o in s.nodes by { assert CloneOf(s, o, t, o, corr[o]); }
    forall a, k | a in corr.Keys && a in s.nodes && k in s.nodes[a].children
      ensures s.nodes[a].children[k] in corr.Keys
    {
      assert PartCopy(s, t, corr, a) && Complete(s, t, corr, a);
    }
    forall x: NodeId | InSubtree(s, x, o) ensures x in corr {
      ClosedHoldsSubtree(s, corr.Keys, x, o);
    }
  }

  lemma EndCloneClosed(s: Store, o: NodeId, t: Store, corr: map<NodeId, NodeId>, done: set<NodeId>)
    requires Copying(s, o, t, corr, done, [], [], None)
    ensures corr[o] in t.nodes
    ensures forall y: NodeId :: InSubtree(t, y, corr[o]) ==> y in corr.Values
  {
    forall b, k | b in corr.Values && b in t.nodes && k in t.nodes[b].children
      ensures t.nodes[b].children[k] in corr.Values
    {
      var a :| a in corr && corr[a] == b;
      assert PartCopy(s, t, corr, a);
      assert s.nodes[a].children[k] in corr;
    }
    forall y: NodeId | InSubtree(t, y, corr[o]) ensures y in corr.Values {
      ClosedHoldsSubtree(t, corr.Values, y, corr[o]);
    }
  }

  /** How a path of the calling task ends up after `copy_tree` of `o` into
      the copy rooted at `r`: when some mount of the subtree of `o` has the
      root dentry of the path's mount, the path names the same dentry in
      the most recently created clone with that root dentry; otherwise it
      is unchanged. */
  ghost predicate Follows(s: Store, o: NodeId, t: Store, r: NodeId, p: Path, q: Path)
    requires Wf(s) && Wf(t) && o in s.nodes && r in t.nodes && p.mount in s.nodes
  {
    var d := s.nodes[p.mount].rootDentry;
    if exists x :: InSubtree(s, x, o) && x in s.nodes && s.nodes[x].rootDentry == d then
      && q.dentry == p.dentry && q.mount in t.nodes && InSubtree(t, q.mount, r)
      && t.nodes[q.mount].rootDentry == d
      && forall y: NodeId :: InSubtree(t, y, r) && y in t.nodes && t.nodes[y].rootDentry == d ==> y <= q.mount
    else
      q == p
  }

  lemma EndFollows(s: Store, o: NodeId, t: Store, corr: map<NodeId, NodeId>, done: set<NodeId>, p: Path, q: Path)
    requires Copying(s, o, t, corr, done, [], [], None)
    requires p.mount in s.nodes && Tracks(s, t, p, q)
    requires forall x: NodeId :: x in corr <==> InSubtree(s, x, o)
    requires forall y: NodeId :: y in corr.Values <==> InSubtree(t, y, corr[o])
    ensures o in s.nodes && corr[o] in t.nodes && Follows(s, o, t, corr[o], p, q)
  {
    assert CloneOf(s, o, t, o, corr[o]);
    var d := s.nodes[p.mount].rootDentry;
    if exists x :: InSubtree(s, x, o) && x in s.nodes && s.nodes[x].rootDentry == d {
      var x :| InSubtree(s, x, o) && x in s.nodes && s.nodes[x].rootDentry == d;
      assert CloneOf(s, o, t, x, corr[x]);
      assert q.mount in t.nodes && q.mount !in s.nodes;
      assert q.mount in corr.Values;
      forall y: NodeId | InSubtree(t, y, corr[o]) && y in t.nodes && t.nodes[y].rootDentry == d ensures y <= q.mount {
        var a :| a in corr && corr[a] == y;
        assert CloneOf(s, o, t, a, y);
      }
    }
  }

  /** With the stack empty the copy is finished: the originals are kept,
      the new nodes are exactly the subtree of the copy's root, which is a
      copy of the subtree of `o`, and the calling task's paths have followed it. */
  lemma CopyEnd(s: Store, o: NodeId, r: NodeId, t: Store, corr: map<NodeId, NodeId>, done: set<NodeId>,
                pending: seq<NodeId>, clones: seq<NodeId>, paths: FsPaths, q: FsPaths)
    requires paths.root.mount in s.nodes && paths.cwd.mount in s.nodes
    requires Walking(s, o, r, t, corr, done, pending, clones, paths, q) && |pending| == 0
    ensures Wf(s) && Wf(t) && Kept(s, t) && o in s.nodes
    ensures r in t.nodes && r !in s.nodes && t.nodes[r].parent == None
    ensures CopyOf(s, o, t, r)
    ensures forall y: NodeId :: (y in t.nodes && y !in s.nodes) <==> InSubtree(t, y, r)
    ensures Follows(s, o, t, r, paths.root, q.root)
    ensures Follows(s, o, t, r, paths.cwd, q.cwd)
  {
    assert pending == [] && clones == [];
    EndExact(s, o, t, corr, done);
    EndCopy(s, o, t, corr, done, o);
    EndFollows(s, o, t, corr, done, paths.root, q.root);
    EndFollows(s, o, t, corr, done, paths.cwd, q.cwd);
    forall y: NodeId ensures (y in t.nodes && y !in s.nodes) <==> InSubtree(t, y, r) {
      if InSubtree(t, y, r) {
        var a :| a in corr && corr[a] == y;
        assert CloneOf(s, o, t, a, y);
      }
    }
  }

  // ---------------------------------------------------------------------
  // The operation.

  /** One pass of the `for child in children.values()` body: clone the
      child under key `ks[j]` of `x` under the clone `x'`, insert it there,
      push both onto the stacks and retarget the calling task's paths onto the new
      clone where they apply. */
  method CloneChild(s: Store, o: NodeId, r: NodeId, t0: Store, ghost corr: map<NodeId, NodeId>, ghost done: set<NodeId>,
                    ghost pending: seq<NodeId>, ghost clones: seq<NodeId>, x: NodeId, x': NodeId,
                    ks: seq<Dentry>, j: nat, ghost paths: FsPaths, q0: FsPaths)
    returns (t: Store, c: NodeId, id: NodeId, q: FsPaths)
    requires paths.root.mount in s.nodes && paths.cwd.mount in s.nodes
    requires Filling(s, o, r, t0, corr, done, pending, clones, x, x', ks, j, paths, q0) && j < |ks|
    ensures c == s.nodes[x].children[ks[j]] && id == t0.next
    ensures Filling(s, o, r, t, corr[c := id], done, pending + [c], clones + [id], x, x', ks, j + 1, paths, q)
  {
    c := t0.nodes[x].children[ks[j]];
    CopyChild(s, o, t0, corr, done, pending, clones, x, ks, j);
    ClonesBelow(s, o, t0, corr);
    var n := CloneMnt(t0.nodes[c], Some(x'));
    var key := n.mountpoint.value;
    id := t0.next;
    t := Graft(t0, x', key, n);
    GraftRoots(t0, x', key, n);
    FilledStep(t0, t, x', ks, j, id);
    TracksStep(s, t0, t, paths.root, q0.root, c, id);
    TracksStep(s, t0, t, paths.cwd, q0.cwd, c, id);
    q := RetargetBoth(t, q0, c, id);
  }

  /** `stack` is `base` followed by the children of `m` under the first
      `j` keys of `ks`, in that order. */
  predicate PushedInOrder(stack: seq<NodeId>, base: seq<NodeId>, m: map<Dentry, NodeId>, ks: seq<Dentry>, j: nat) {
    && j <= |ks| && |stack| == |base| + j && stack[..|base|] == base
    && forall i :: 0 <= i < j ==> ks[i] in m && stack[|base| + i] == m[ks[i]]
  }

  /** Pushing onto a stack keeps what lay below. */
  lemma PushKeeps(stack: seq<NodeId>, base: seq<NodeId>, x: NodeId)
    requires |base| <= |stack| && stack[..|base|] == base
    ensures |base| <= |stack + [x]| && (stack + [x])[..|base|] == base
  {
    assert (stack + [x])[..|base|] == stack[..|base|];
  }

  /** Pushing the child under the next key keeps the stack in key order. */
  lemma PushNext(stack: seq<NodeId>, base: seq<NodeId>, m: map<Dentry, NodeId>, ks: seq<Dentry>, j: nat)
    requires PushedInOrder(stack, base, m, ks, j) && j < |ks| && ks[j] in m
    ensures PushedInOrder(stack + [m[ks[j]]], base, m, ks, j + 1)
  {
  }

  /** The `for child in children.values()` loop of `copy_tree` for the
      popped original `x` and its clone `x'`, over the keys `ks` of `x` in
      ascending order. */
  method CopyChildren(s: Store, o: NodeId, r: NodeId, t0: Store, ghost corr0: map<NodeId, NodeId>, ghost done: set<NodeId>,
                      stack0: seq<NodeId>, newStack0: seq<NodeId>, x: NodeId, x': NodeId, ks: seq<Dentry>,
                      ghost paths: FsPaths, q0: FsPaths)
    returns (t: Store, stack: seq<NodeId>, newStack: seq<NodeId>, q: FsPaths, ghost corr: map<NodeId, NodeId>)
    requires paths.root.mount in s.nodes && paths.cwd.mount in s.nodes
    requires Filling(s, o, r, t0, corr0, done, stack0, newStack0, x, x', ks, 0, paths, q0)
    ensures Filling(s, o, r, t, corr, done, stack, newStack, x, x', ks, |ks|, paths, q)
    ensures |newStack| == |stack| && PushedInOrder(stack, stack0, s.nodes[x].children, ks, |ks|)
    ensures newStack[..|newStack0|] == newStack0
  {
    t, stack, newStack, q, corr := t0, stack0, newStack0, q0, corr0;
    ghost var m: map<Dentry, NodeId> := s.nodes[x].children;
    var j := 0;
    while j < |ks|
      invariant j <= |ks|
      invariant Filling(s, o, r, t, corr, done, stack, newStack, x, x', ks, j, paths, q)
      invariant |newStack| == |stack| && PushedInOrder(stack, stack0, m, ks, j)
      invariant |newStack0| <= |newStack| && newStack[..|newStack0|] == newStack0
    {
      var c, id;
      t, c, id, q := CloneChild(s, o, r, t, corr, done, stack, newStack, x, x', ks, j, paths, q);
      PushNext(stack, stack0, m, ks, j);
      PushKeeps(newStack, newStack0, id);
      stack := stack + [c];
      newStack := newStack + [id];
      corr := corr[c := id];
      j := j + 1;
    }
  }

  /** The keys of `m` in the order a `BTreeMap` iterates them. */
  method KeysInOrder(m: map<Dentry, NodeId>) returns (ks: seq<Dentry>)
    ensures KeyOrder(ks, m)
  {
    ks := SortedKeys.Ascending(m.Keys);
    forall k | k in m ensures k in ks {
      var i := SortedKeys.AscendingLists(m.Keys, k);
    }
  }

  /** One pass of the `while let Some(x) = stack.pop()` loop of
      `copy_tree`: pop an original and its clone, then clone the
      original's children under the clone. */
  method CopyNext(s: Store, o: NodeId, r: NodeId, t0: Store, ghost corr0: map<NodeId, NodeId>, ghost done0: set<NodeId>,
                  stack0: seq<NodeId>, newStack0: seq<NodeId>, ghost paths: FsPaths, q0: FsPaths)
    returns (t: Store, stack: seq<NodeId>, newStack: seq<NodeId>, q: FsPaths, ghost corr: map<NodeId, NodeId>,
             ghost done: set<NodeId>)
    requires paths.root.mount in s.nodes && paths.cwd.mount in s.nodes
    requires Walking(s, o, r, t0, corr0, done0, stack0, newStack0, paths, q0) && |stack0| > 0
    ensures Walking(s, o, r, t, corr, done, stack, newStack, paths, q)
    ensures |s.nodes.Keys - done| < |s.nodes.Keys - done0|
    ensures |stack| == |newStack| >= |stack0| - 1 && stack[..|stack0| - 1] == stack0[..|stack0| - 1]
    ensures newStack[..|stack0| - 1] == newStack0[..|stack0| - 1]
  {
    PendingKept(s, o, t0, corr0, done0, stack0, newStack0);
    var n := |stack0| - 1;
    var x := stack0[n];
    var keys := KeysInOrder(t0.nodes[x].children);
    CopyPop(s, o, r, t0, corr0, done0, stack0, newStack0, paths, q0, n, x, keys);
    var x' := newStack0[n];
    done := done0 + {x};
    t, stack, newStack, q, corr := CopyChildren(s, o, r, t0, corr0, done, stack0[..n], newStack0[..n], x, x', keys, paths, q0);
    CopyClose(s, o, r, t, corr, done, stack, newStack, x, x', keys, paths, q);
  }

  /** `MountNode::copy_tree(o)`: clones every mount of the subtree of `o`
      (depth first, through an explicit stack of originals and a parallel
      stack of clones) and returns the clone of `o`. The originals are left
      alone and the new nodes are exactly the copy. Each time a clone is
      made, the calling task's root and working directory move onto it if the
      original has the root dentry of the mount they lie in. */
  method CopyTree(s: Store, o: NodeId, paths: FsPaths) returns (t: Store, r: NodeId, paths': FsPaths)
    requires Wf(s) && o in s.nodes && paths.root.mount in s.nodes && paths.cwd.mount in s.nodes
    ensures Wf(t) && Kept(s, t)
    ensures r in t.nodes && r !in s.nodes && t.nodes[r].parent == None
    ensures CopyOf(s, o, t, r)
    ensures forall y: NodeId :: (y in t.nodes && y !in s.nodes) <==> InSubtree(t, y, r)
    ensures Follows(s, o, t, r, paths.root, paths'.root)
    ensures Follows(s, o, t, r, paths.cwd, paths'.cwd)
  {
    var st := Alloc(s, CloneMnt(s.nodes[o], None));
    t, r := st.0, st.1;
    CopyStart(s, o, paths, t, r);
    paths' := RetargetBoth(t, paths, o, r);
    ghost var corr: map<NodeId, NodeId> := map[o := r];
    ghost var done: set<NodeId> := {};
    var stack := [o];
    var newStack := [r];
    while |stack| > 0
      invariant Walking(s, o, r, t, corr, done, stack, newStack, paths, paths')
      decreases |s.nodes.Keys - done|
    {
      t, stack, newStack, paths', corr, done := CopyNext(s, o, r, t, corr, done, stack, newStack, paths, paths');
    }
    CopyEnd(s, o, r, t, corr, done, stack, newStack, paths, paths');
  }
}
