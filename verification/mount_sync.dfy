/** `MountNode::sync`: flush every child mount, in key order, before the
    node's own filesystem, stopping at the first error. The filesystem's own
    `sync` is an oracle `fsSync` asked once per mount: `fsSync(x)` is the
    outcome of `self.fs.sync()` when `sync` reaches mount `x`. Two mounts of
    one filesystem may therefore get different answers, as two successive
    calls of the same filesystem's `sync` can; each mount is flushed at most
    once (`SyncWithinSubtree`), so one answer per mount is all a run needs. */
module MountSync {
  import opened Wrappers
  import opened MountTree
  import opened Subtree

  /** What a sync did: the nodes whose filesystem was flushed, in call
      order, and the outcome returned. */
  datatype SyncRun = SyncRun(synced: seq<NodeId>, result: Result<(), Errno>)

  /** `MountNode::sync` on node `a`. */
  function Sync(s: Store, a: NodeId, fsSync: NodeId -> Result<(), Errno>): (r: SyncRun)
    requires Wf(s) && a in s.nodes
    ensures r.result.Ok? ==> |r.synced| > 0 && r.synced[|r.synced| - 1] == a && Flushes(s, a, fsSync)
    decreases s.next - a, 1
  {
    var c := SyncChildren(s, a, 0, fsSync);
    if c.result.Err? then c
    else
      var e := fsSync(a);
      SyncRun(c.synced + [a], if e.Err? then Err(e.error) else Ok(()))
  }

  /** The `for child in children.values() { child.sync()?; }` loop, from the
      `j`-th child on. */
  function SyncChildren(s: Store, a: NodeId, j: nat, fsSync: NodeId -> Result<(), Errno>): (r: SyncRun)
    requires Wf(s) && a in s.nodes && j <= |Kids(s, a)|
    decreases s.next - a, 0, |Kids(s, a)| - j
  {
    if j == |Kids(s, a)| then SyncRun([], Ok(()))
    else
      KidLinked(s, a, j);
      var h := Sync(s, Kids(s, a)[j], fsSync);
      if h.result.Err? then h
      else
        var t := SyncChildren(s, a, j + 1, fsSync);
        SyncRun(h.synced + t.synced, t.result)
  }

  /** The filesystem of node `x` flushes without error when `sync`
      reaches `x`. */
  predicate Flushes(s: Store, x: NodeId, fsSync: NodeId -> Result<(), Errno>)
    requires x in s.nodes
  {
    fsSync(x).Ok?
  }

  /** Every entry of `order` names a node of the store. */
  predicate AllIn(s: Store, order: seq<NodeId>) {
    forall i :: 0 <= i < |order| ==> order[i] in s.nodes
  }

  /** Reference semantics: flush the nodes of `order` one by one and stop at
      the first error. */
  function RunInOrder(s: Store, order: seq<NodeId>, fsSync: NodeId -> Result<(), Errno>): (r: SyncRun)
    requires AllIn(s, order)
    decreases |order|
  {
    if |order| == 0 then SyncRun([], Ok(()))
    else
      var e := fsSync(order[0]);
      if e.Err? then SyncRun([order[0]], Err(e.error))
      else
        assert AllIn(s, order[1..]) by {
          forall i | 0 <= i < |order| - 1 ensures order[1..][i] in s.nodes { assert order[1..][i] == order[i + 1]; }
        }
        var t := RunInOrder(s, order[1..], fsSync);
        SyncRun([order[0]] + t.synced, t.result)
  }

  /** What a reference run does: it flushes a prefix of `order`; it succeeds
      iff every node of `order` flushes, and then it has flushed all of them;
      a failed run ends with the node that failed, every earlier one having
      flushed. */
  lemma {:induction false} RunInOrderOutcome(s: Store, order: seq<NodeId>, fsSync: NodeId -> Result<(), Errno>)
    requires AllIn(s, order)
    ensures var r := RunInOrder(s, order, fsSync);
      && |r.synced| <= |order| && r.synced == order[..|r.synced|]
      && (r.result.Ok? <==> forall i :: 0 <= i < |order| ==> Flushes(s, order[i], fsSync))
      && (r.result.Ok? ==> r.synced == order)
      && (r.result.Err? ==>
            && 0 < |r.synced|
            && !Flushes(s, r.synced[|r.synced| - 1], fsSync)
            && r.result.error == fsSync(r.synced[|r.synced| - 1]).error
            && forall i :: 0 <= i < |r.synced| - 1 ==> Flushes(s, r.synced[i], fsSync))
    decreases |order|
  {
    if |order| > 0 && fsSync(order[0]).Ok? {
      var tl := order[1..];
      assert forall i :: 1 <= i < |order| ==> order[i] == tl[i - 1];
      RunInOrderOutcome(s, tl, fsSync);
    }
  }

  lemma AllInAppend(s: Store, p: seq<NodeId>, q: seq<NodeId>)
    requires AllIn(s, p) && AllIn(s, q)
    ensures AllIn(s, p + q)
  {
    forall i | 0 <= i < |p + q| ensures (p + q)[i] in s.nodes {
      if i < |p| { assert (p + q)[i] == p[i]; } else { assert (p + q)[i] == q[i - |p|]; }
    }
  }

  /** Sequential composition of two runs: the second starts only if the first
      succeeded. */
  function Then(x: SyncRun, y: SyncRun): (r: SyncRun) {
    if x.result.Err? then x else SyncRun(x.synced + y.synced, y.result)
  }

  /** Running `p + q` is running `p` and then, if it succeeded, `q`. */
  lemma {:induction false} RunAppend(s: Store, p: seq<NodeId>, q: seq<NodeId>, fsSync: NodeId -> Result<(), Errno>)
    requires AllIn(s, p) && AllIn(s, q)
    ensures AllIn(s, p + q)
    ensures RunInOrder(s, p + q, fsSync) == Then(RunInOrder(s, p, fsSync), RunInOrder(s, q, fsSync))
    decreases |p|
  {
    AllInAppend(s, p, q);
    if |p| > 0 {
      AllInAppend(s, p[1..], q);
      assert (p + q)[1..] == p[1..] + q;
      RunAppend(s, p[1..], q, fsSync);
    } else {
      assert p + q == q;
    }
  }

  /** `sync` on a node is the reference run over the node's subtree in post
      order: children (in key order, each with its own subtree) before the
      node itself. */
  lemma {:induction false} SyncIsPostOrderRun(s: Store, a: NodeId, fsSync: NodeId -> Result<(), Errno>)
    requires Wf(s) && a in s.nodes
    ensures AllIn(s, PostOrder(s, a))
    ensures Sync(s, a, fsSync) == RunInOrder(s, PostOrder(s, a), fsSync)
    decreases s.next - a, 1
  {
    SyncChildrenIsRun(s, a, 0, fsSync);
    RunSingle(s, a, fsSync);
    RunAppend(s, PostOrderFrom(s, a, 0), [a], fsSync);
  }

  lemma RunSingle(s: Store, x: NodeId, fsSync: NodeId -> Result<(), Errno>)
    requires x in s.nodes
    ensures AllIn(s, [x])
    ensures var e := fsSync(x);
      RunInOrder(s, [x], fsSync) == SyncRun([x], if e.Err? then Err(e.error) else Ok(()))
  {
    assert [x][1..] == [];
  }

  lemma {:induction false} SyncChildrenIsRun(s: Store, a: NodeId, j: nat, fsSync: NodeId -> Result<(), Errno>)
    requires Wf(s) && a in s.nodes && j <= |Kids(s, a)|
    ensures AllIn(s, PostOrderFrom(s, a, j))
    ensures SyncChildren(s, a, j, fsSync) == RunInOrder(s, PostOrderFrom(s, a, j), fsSync)
    decreases s.next - a, 0, |Kids(s, a)| - j
  {
    if j < |Kids(s, a)| {
      KidLinked(s, a, j);
      var k := Kids(s, a)[j];
      SyncIsPostOrderRun(s, k, fsSync);
      SyncChildrenIsRun(s, a, j + 1, fsSync);
      RunAppend(s, PostOrder(s, k), PostOrderFrom(s, a, j + 1), fsSync);
    }
  }

  /** `sync` succeeds iff the filesystem of every mount in the subtree
      flushes, and a successful `sync` flushed each of them, in post order. */
  lemma SyncSucceedsIffAllFlush(s: Store, a: NodeId, fsSync: NodeId -> Result<(), Errno>)
    requires Wf(s) && a in s.nodes
    ensures Sync(s, a, fsSync).result.Ok? <==>
      forall x :: InSubtree(s, x, a) ==> x in s.nodes && Flushes(s, x, fsSync)
    ensures Sync(s, a, fsSync).result.Ok? ==> Sync(s, a, fsSync).synced == PostOrder(s, a)
  {
    SyncIsPostOrderRun(s, a, fsSync);
    var po := PostOrder(s, a);
    RunInOrderOutcome(s, po, fsSync);
    if Sync(s, a, fsSync).result.Ok? {
      forall x | InSubtree(s, x, a) ensures x in s.nodes && Flushes(s, x, fsSync) {
        PostOrderMembers(s, a, x);
        var i :| 0 <= i < |po| && po[i] == x;
      }
    } else {
      var i :| 0 <= i < |po| && !Flushes(s, po[i], fsSync);
      PostOrderMembers(s, a, po[i]);
    }
  }

  /** `sync` touches only mounts of the subtree, each at most once. */
  lemma SyncWithinSubtree(s: Store, a: NodeId, fsSync: NodeId -> Result<(), Errno>)
    requires Wf(s) && a in s.nodes
    ensures forall x :: x in Sync(s, a, fsSync).synced ==> InSubtree(s, x, a)
    ensures Distinct(Sync(s, a, fsSync).synced)
  {
    SyncIsPostOrderRun(s, a, fsSync);
    var po := PostOrder(s, a);
    RunInOrderOutcome(s, po, fsSync);
    var r := Sync(s, a, fsSync).synced;
    PostOrderDistinct(s, a);
    forall x | x in r ensures InSubtree(s, x, a) {
      PostOrderMembers(s, a, x);
    }
  }

  /** A run flushes a prefix of its list. */
  lemma RunIsPrefix(s: Store, order: seq<NodeId>, fsSync: NodeId -> Result<(), Errno>)
    requires AllIn(s, order)
    ensures |RunInOrder(s, order, fsSync).synced| <= |order|
    ensures RunInOrder(s, order, fsSync).synced == order[..|RunInOrder(s, order, fsSync).synced|]
  {
    RunInOrderOutcome(s, order, fsSync);
  }

  /** An entry of a run that is followed by another was flushed without
      error, and it is the entry of `order` at the same position. */
  lemma EarlierFlushed(s: Store, order: seq<NodeId>, fsSync: NodeId -> Result<(), Errno>, i: nat, j: nat)
    requires AllIn(s, order) && i < j < |RunInOrder(s, order, fsSync).synced|
    ensures i < |order| && RunInOrder(s, order, fsSync).synced[i] == order[i]
    ensures order[i] in s.nodes && Flushes(s, order[i], fsSync)
  {
    RunInOrderOutcome(s, order, fsSync);
  }

  /** Every mount below a flushed mount was itself flushed, successfully. */
  lemma SyncFlushesBelow(s: Store, a: NodeId, fsSync: NodeId -> Result<(), Errno>, x: NodeId, y: NodeId)
    requires Wf(s) && a in s.nodes
    requires x in Sync(s, a, fsSync).synced && x in s.nodes
    requires InSubtree(s, y, x) && y != x
    ensures y in Sync(s, a, fsSync).synced && y in s.nodes && Flushes(s, y, fsSync)
  {
    SyncIsPostOrderRun(s, a, fsSync);
    var po := PostOrder(s, a);
    RunInOrderOutcome(s, po, fsSync);
    var r := Sync(s, a, fsSync).synced;
    var j :| 0 <= j < |r| && r[j] == x;
    assert po[j] == x;
    assert InSubtree(s, x, a) by { PostOrderMembers(s, a, x); }
    assert InSubtree(s, y, a) by { SubtreeTrans(s, y, x, a); }
    PostOrderMembers(s, a, y);
    var i :| 0 <= i < |po| && po[i] == y;
    PostOrderDescendantsFirst(s, a, x, y);
    EarlierFlushed(s, po, fsSync, i, j);
  }

  /** A mount below a flushed mount comes earlier in the flush order. */
  lemma SyncOrderBelow(s: Store, a: NodeId, fsSync: NodeId -> Result<(), Errno>, x: NodeId, y: NodeId)
    requires Wf(s) && a in s.nodes
    requires x in Sync(s, a, fsSync).synced && x in s.nodes
    requires InSubtree(s, y, x) && y != x
    ensures forall i, j ::
      (0 <= i < |Sync(s, a, fsSync).synced| && 0 <= j < |Sync(s, a, fsSync).synced|
       && Sync(s, a, fsSync).synced[i] == y && Sync(s, a, fsSync).synced[j] == x)
      ==> i < j
  {
    SyncIsPostOrderRun(s, a, fsSync);
    RunIsPrefix(s, PostOrder(s, a), fsSync);
    PrefixOrderBelow(s, a, Sync(s, a, fsSync).synced, x, y);
  }

  /** In a prefix of the post-order list, a mount below a listed mount comes
      before it. */
  lemma PrefixOrderBelow(s: Store, a: NodeId, r: seq<NodeId>, x: NodeId, y: NodeId)
    requires Wf(s) && a in s.nodes
    requires |r| <= |PostOrder(s, a)| && r == PostOrder(s, a)[..|r|]
    requires x in r && x in s.nodes && InSubtree(s, y, x) && y != x
    ensures forall i, j :: (0 <= i < |r| && 0 <= j < |r| && r[i] == y && r[j] == x) ==> i < j
  {
    var po := PostOrder(s, a);
    var j :| 0 <= j < |r| && r[j] == x;
    assert po[j] == x;
    assert InSubtree(s, x, a) by { PostOrderMembers(s, a, x); }
    PostOrderDescendantsFirst(s, a, x, y);
    PrefixKeepsOrder(po, r, y, x);
  }

  /** A mount's filesystem is flushed only after every mount below it was
      flushed successfully. */
  lemma SyncChildrenFirst(s: Store, a: NodeId, fsSync: NodeId -> Result<(), Errno>, x: NodeId, y: NodeId)
    requires Wf(s) && a in s.nodes
    requires x in Sync(s, a, fsSync).synced && x in s.nodes
    requires InSubtree(s, y, x) && y != x
    ensures y in Sync(s, a, fsSync).synced && y in s.nodes && Flushes(s, y, fsSync)
    ensures forall i, j ::
      (0 <= i < |Sync(s, a, fsSync).synced| && 0 <= j < |Sync(s, a, fsSync).synced|
       && Sync(s, a, fsSync).synced[i] == y && Sync(s, a, fsSync).synced[j] == x)
      ==> i < j
  {
    SyncFlushesBelow(s, a, fsSync, x, y);
    SyncOrderBelow(s, a, fsSync, x, y);
  }

  /** An order between two entries of a list holds in any prefix of it. */
  lemma PrefixKeepsOrder(po: seq<NodeId>, r: seq<NodeId>, y: NodeId, x: NodeId)
    requires |r| <= |po| && r == po[..|r|]
    requires forall i, j :: 0 <= i < |po| && 0 <= j < |po| && po[i] == y && po[j] == x ==> i < j
    ensures forall i, j :: 0 <= i < |r| && 0 <= j < |r| && r[i] == y && r[j] == x ==> i < j
  {
    forall i, j | 0 <= i < |r| && 0 <= j < |r| && r[i] == y && r[j] == x ensures i < j {
      assert po[i] == y && po[j] == x;
    }
  }
}
