/** Reachability through the children maps, and the post-order enumeration
    of a mount subtree (children in key order, each child's whole subtree
    before the node itself). */
module Subtree {
  import opened Wrappers
  import SortedKeys
  import opened MountTree

  /** `x` is reachable from `a` through the children maps. */
  ghost predicate InSubtree(s: Store, x: NodeId, a: NodeId)
    requires Wf(s) && a in s.nodes
    decreases s.next - a
  {
    x == a || exists i :: 0 <= i < |Kids(s, a)| && Kids(s, a)[i] in s.nodes && a < Kids(s, a)[i] && InSubtree(s, x, Kids(s, a)[i])
  }

  /** Post-order enumeration of the subtree rooted at `a`. */
  function PostOrder(s: Store, a: NodeId): (r: seq<NodeId>)
    requires Wf(s) && a in s.nodes
    decreases s.next - a, 1
  {
    PostOrderFrom(s, a, 0) + [a]
  }

  /** Post-order enumerations of the subtrees of the children of `a` from
      the `j`-th on, one after another. */
  function PostOrderFrom(s: Store, a: NodeId, j: nat): (r: seq<NodeId>)
    requires Wf(s) && a in s.nodes && j <= |Kids(s, a)|
    decreases s.next - a, 0, |Kids(s, a)| - j
  {
    if j == |Kids(s, a)| then []
    else KidLinked(s, a, j); PostOrder(s, Kids(s, a)[j]) + PostOrderFrom(s, a, j + 1)
  }

  /** Every node of a subtree is live and created no earlier than its root. */
  lemma {:induction false} SubtreeAbove(s: Store, x: NodeId, a: NodeId)
    requires Wf(s) && a in s.nodes && InSubtree(s, x, a)
    ensures a <= x && x in s.nodes
    decreases s.next - a
  {
    if x != a {
      var ks := Kids(s, a);
      var i :| 0 <= i < |ks| && ks[i] in s.nodes && a < ks[i] && InSubtree(s, x, ks[i]);
      SubtreeAbove(s, x, ks[i]);
    }
  }

  /** The subtree relation is transitive. */
  lemma {:induction false} SubtreeTrans(s: Store, y: NodeId, x: NodeId, a: NodeId)
    requires Wf(s) && a in s.nodes && InSubtree(s, x, a)
    requires x in s.nodes && InSubtree(s, y, x)
    ensures InSubtree(s, y, a)
    decreases s.next - a
  {
    if x != a {
      var ks := Kids(s, a);
      var i :| 0 <= i < |ks| && ks[i] in s.nodes && a < ks[i] && InSubtree(s, x, ks[i]);
      SubtreeTrans(s, y, x, ks[i]);
    }
  }

  /** A node strictly below `a` has a parent, created before it, that is
      itself in the subtree of `a`. */
  lemma {:induction false} SubtreeParent(s: Store, x: NodeId, a: NodeId)
    requires Wf(s) && a in s.nodes && InSubtree(s, x, a) && x != a
    ensures x in s.nodes && s.nodes[x].parent.Some?
    ensures s.nodes[x].parent.value < x && InSubtree(s, s.nodes[x].parent.value, a)
    decreases s.next - a
  {
    var ks := Kids(s, a);
    var i :| 0 <= i < |ks| && InSubtree(s, x, ks[i]);
    if x == ks[i] {
      assert s.nodes[x].parent == Some(a);
    } else {
      SubtreeParent(s, x, ks[i]);
      var p := s.nodes[x].parent.value;
      assert InSubtree(s, p, ks[i]);
      assert InSubtree(s, p, a);
    }
  }

  /** A child of a node in the subtree is in the subtree. */
  lemma {:induction false} SubtreeChild(s: Store, x: NodeId, a: NodeId, k: Dentry)
    requires Wf(s) && a in s.nodes && InSubtree(s, x, a)
    requires x in s.nodes && k in s.nodes[x].children
    ensures InSubtree(s, s.nodes[x].children[k], a)
    decreases s.next - a
  {
    var c := s.nodes[x].children[k];
    KidsFacts(s, a);
    if x == a {
      var i := SortedKeys.AscendingLists(s.nodes[a].children.Keys, k);
      KidsAt(s, a, i);
      assert InSubtree(s, c, Kids(s, a)[i]);
    } else {
      var i :| 0 <= i < |Kids(s, a)| && InSubtree(s, x, Kids(s, a)[i]);
      SubtreeChild(s, x, Kids(s, a)[i], k);
    }
  }

  /** A set that holds `a` and is closed under children holds the whole
      subtree of `a`. */
  lemma {:induction false} ClosedHoldsSubtree(s: Store, d: set<NodeId>, x: NodeId, a: NodeId)
    requires Wf(s) && a in s.nodes && a in d && InSubtree(s, x, a)
    requires forall o, k :: o in d && o in s.nodes && k in s.nodes[o].children ==> s.nodes[o].children[k] in d
    ensures x in d
    decreases s.next - a
  {
    if x != a {
      var m := s.nodes[a].children;
      var ks := Kids(s, a);
      var i :| 0 <= i < |ks| && InSubtree(s, x, ks[i]);
      var k := SortedKeys.Ascending(m.Keys)[i];
      assert k in m && m[k] == ks[i];
      ClosedHoldsSubtree(s, d, x, ks[i]);
    }
  }

  /** The subtrees of two distinct siblings share no node. */
  lemma {:induction false} SiblingsDisjoint(s: Store, a: NodeId, c1: NodeId, c2: NodeId, x: NodeId)
    requires Wf(s) && c1 in s.nodes && c2 in s.nodes && c1 != c2
    requires s.nodes[c1].parent == Some(a) && s.nodes[c2].parent == Some(a) && a < c1 && a < c2
    requires InSubtree(s, x, c1) && InSubtree(s, x, c2)
    ensures false
    decreases x
  {
    if x == c1 {
      SubtreeParent(s, x, c2);
      SubtreeAbove(s, a, c2);
    } else if x == c2 {
      SubtreeParent(s, x, c1);
      SubtreeAbove(s, a, c1);
    } else {
      SubtreeParent(s, x, c1);
      SubtreeParent(s, x, c2);
      SiblingsDisjoint(s, a, c1, c2, s.nodes[x].parent.value);
    }
  }

  /** The post-order enumeration lists exactly the subtree. */
  lemma {:induction false} PostOrderMembers(s: Store, a: NodeId, x: NodeId)
    requires Wf(s) && a in s.nodes
    ensures x in PostOrder(s, a) <==> InSubtree(s, x, a)
    decreases s.next - a, 1
  {
    PostOrderFromMembers(s, a, 0, x);
  }

  lemma {:induction false} PostOrderFromMembers(s: Store, a: NodeId, j: nat, x: NodeId)
    requires Wf(s) && a in s.nodes && j <= |Kids(s, a)|
    ensures x in PostOrderFrom(s, a, j) <==> exists i :: j <= i < |Kids(s, a)| && InSubtree(s, x, Kids(s, a)[i])
    decreases s.next - a, 0, |Kids(s, a)| - j
  {
    var ks := Kids(s, a);
    if j < |ks| {
      KidLinked(s, a, j);
      var here, rest := PostOrder(s, ks[j]), PostOrderFrom(s, a, j + 1);
      assert PostOrderFrom(s, a, j) == here + rest;
      PostOrderMembers(s, ks[j], x);
      PostOrderFromMembers(s, a, j + 1, x);
      if x in here {
        assert j <= j < |ks| && InSubtree(s, x, ks[j]);
      } else if x !in rest {
        forall i | j <= i < |ks| ensures !InSubtree(s, x, ks[i]) {
        }
      }
    }
  }

  /** No element occurs twice. */
  ghost predicate Distinct(xs: seq<NodeId>) {
    forall i, j :: 0 <= i < j < |xs| ==> xs[i] != xs[j]
  }

  lemma DistinctAppend(p: seq<NodeId>, q: seq<NodeId>)
    requires Distinct(p) && Distinct(q)
    requires forall x :: x in p ==> x !in q
    ensures Distinct(p + q)
  {
    forall i, j | 0 <= i < j < |p + q| ensures (p + q)[i] != (p + q)[j] {
      if i < |p| && j >= |p| {
        assert (p + q)[i] in p && (p + q)[j] in q;
      }
    }
  }

  /** The post-order enumeration lists every node of the subtree once. */
  lemma {:induction false} PostOrderDistinct(s: Store, a: NodeId)
    requires Wf(s) && a in s.nodes
    ensures Distinct(PostOrder(s, a))
    decreases s.next - a, 1
  {
    PostOrderFromDistinct(s, a, 0);
    PostOrderFromAbove(s, a, 0);
    DistinctAppend(PostOrderFrom(s, a, 0), [a]);
  }

  /** The subtrees below `a` do not contain `a`. */
  lemma PostOrderFromAbove(s: Store, a: NodeId, j: nat)
    requires Wf(s) && a in s.nodes && j <= |Kids(s, a)|
    ensures forall x :: x in PostOrderFrom(s, a, j) ==> x !in [a]
  {
    forall x | x in PostOrderFrom(s, a, j) ensures a < x {
      PostOrderFromMembers(s, a, j, x);
      var i :| j <= i < |Kids(s, a)| && InSubtree(s, x, Kids(s, a)[i]);
      SubtreeAbove(s, x, Kids(s, a)[i]);
    }
  }

  /** A node of the subtree of the `j`-th child is in no subtree of a
      later child. */
  lemma LaterSiblingsDisjoint(s: Store, a: NodeId, j: nat, x: NodeId)
    requires Wf(s) && a in s.nodes && j < |Kids(s, a)|
    requires Kids(s, a)[j] in s.nodes && x in PostOrder(s, Kids(s, a)[j])
    ensures x !in PostOrderFrom(s, a, j + 1)
  {
    var ks := Kids(s, a);
    PostOrderMembers(s, ks[j], x);
    PostOrderFromMembers(s, a, j + 1, x);
    if x in PostOrderFrom(s, a, j + 1) {
      var i :| j + 1 <= i < |ks| && InSubtree(s, x, ks[i]);
      KidLinked(s, a, i);
      KidLinked(s, a, j);
      KidsDistinct(s, a, i, j);
      SiblingsDisjoint(s, a, ks[j], ks[i], x);
    }
  }

  lemma {:induction false} PostOrderFromDistinct(s: Store, a: NodeId, j: nat)
    requires Wf(s) && a in s.nodes && j <= |Kids(s, a)|
    ensures Distinct(PostOrderFrom(s, a, j))
    decreases s.next - a, 0, |Kids(s, a)| - j
  {
    var ks := Kids(s, a);
    if j < |ks| {
      KidLinked(s, a, j);
      PostOrderDistinct(s, ks[j]);
      PostOrderFromDistinct(s, a, j + 1);
      forall x | x in PostOrder(s, ks[j]) ensures x !in PostOrderFrom(s, a, j + 1) {
        LaterSiblingsDisjoint(s, a, j, x);
      }
      DistinctAppend(PostOrder(s, ks[j]), PostOrderFrom(s, a, j + 1));
    }
  }

  /** The enumeration of a node's subtree sits, as one block, inside the
      enumeration of any subtree containing that node. */
  lemma {:induction false} PostOrderInfix(s: Store, a: NodeId, x: NodeId) returns (p: seq<NodeId>, q: seq<NodeId>)
    requires Wf(s) && a in s.nodes && InSubtree(s, x, a)
    ensures x in s.nodes && PostOrder(s, a) == p + PostOrder(s, x) + q
    decreases s.next - a
  {
    SubtreeAbove(s, x, a);
    if x == a {
      p, q := [], [];
    } else {
      var ks := Kids(s, a);
      var i :| 0 <= i < |ks| && ks[i] in s.nodes && a < ks[i] && InSubtree(s, x, ks[i]);
      var p', q' := PostOrderInfix(s, ks[i], x);
      var l, r := PostOrderFromInfix(s, a, 0, i);
      Regroup(l, p', PostOrder(s, x), q', r, [a]);
      p, q := l + p', q' + r + [a];
    }
  }

  lemma Regroup(l: seq<NodeId>, p: seq<NodeId>, m: seq<NodeId>, q: seq<NodeId>, r: seq<NodeId>, e: seq<NodeId>)
    ensures l + (p + m + q) + r + e == (l + p) + m + (q + r + e)
  {
  }

  lemma EmptyLeft(m: seq<NodeId>, r: seq<NodeId>)
    ensures [] + m + r == m + r
  {
  }

  lemma Regroup3(h: seq<NodeId>, l: seq<NodeId>, m: seq<NodeId>, r: seq<NodeId>)
    ensures h + (l + m + r) == (h + l) + m + r
  {
  }

  lemma {:induction false} PostOrderFromInfix(s: Store, a: NodeId, j: nat, i: nat) returns (l: seq<NodeId>, r: seq<NodeId>)
    requires Wf(s) && a in s.nodes && j <= i < |Kids(s, a)|
    ensures PostOrderFrom(s, a, j) == l + PostOrder(s, Kids(s, a)[i]) + r
    decreases i - j
  {
    var ks := Kids(s, a);
    KidLinked(s, a, j);
    if i == j {
      l, r := [], PostOrderFrom(s, a, j + 1);
      EmptyLeft(PostOrder(s, ks[j]), r);
    } else {
      var l', r' := PostOrderFromInfix(s, a, j + 1, i);
      Regroup3(PostOrder(s, ks[j]), l', PostOrder(s, ks[i]), r');
      l, r := PostOrder(s, ks[j]) + l', r';
    }
  }

  /** The enumeration of a subtree ends with its root. */
  lemma PostOrderEndsAtRoot(s: Store, x: NodeId)
    requires Wf(s) && x in s.nodes
    ensures |PostOrder(s, x)| > 0 && PostOrder(s, x)[|PostOrder(s, x)| - 1] == x
  {
  }

  /** In a repetition-free sequence `p + m + q`, an element of the block
      `m` other than its last comes before that last element. */
  lemma BlockOrder(po: seq<NodeId>, p: seq<NodeId>, m: seq<NodeId>, q: seq<NodeId>, y: NodeId, x: NodeId)
    requires po == p + m + q && Distinct(po) && y in m && |m| > 0 && m[|m| - 1] == x && y != x
    ensures forall i, j :: 0 <= i < |po| && 0 <= j < |po| && po[i] == y && po[j] == x ==> i < j
  {
    var k :| 0 <= k < |m| && m[k] == y;
    assert po[|p| + k] == y && po[|p| + |m| - 1] == x;
    forall i, j | 0 <= i < |po| && 0 <= j < |po| && po[i] == y && po[j] == x ensures i < j {
      assert i == |p| + k;
      assert j == |p| + |m| - 1;
    }
  }

  /** Post-order: inside the enumeration of `a`, every node of the subtree
      of `x` other than `x` comes before `x`. */
  lemma PostOrderDescendantsFirst(s: Store, a: NodeId, x: NodeId, y: NodeId)
    requires Wf(s) && a in s.nodes && InSubtree(s, x, a)
    requires x in s.nodes && InSubtree(s, y, x) && y != x
    ensures forall i, j ::
      (0 <= i < |PostOrder(s, a)| && 0 <= j < |PostOrder(s, a)| && PostOrder(s, a)[i] == y && PostOrder(s, a)[j] == x)
      ==> i < j
  {
    var p, q := PostOrderInfix(s, a, x);
    PostOrderMembers(s, x, y);
    PostOrderDistinct(s, a);
    PostOrderEndsAtRoot(s, x);
    BlockOrder(PostOrder(s, a), p, PostOrder(s, x), q, y, x);
  }
}
