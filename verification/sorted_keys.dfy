/** Ascending enumeration of a finite set of keys: the iteration order of a
    `BTreeMap` over its keys. */
module SortedKeys {

  lemma MinExists(ks: set<nat>)
    requires ks != {}
    ensures exists m :: m in ks && forall k :: k in ks ==> m <= k
  {
    var x :| x in ks;
    if ks != {x} {
      MinExists(ks - {x});
      var y :| y in ks - {x} && forall k :: k in ks - {x} ==> y <= k;
      var m := if x < y then x else y;
      forall k | k in ks ensures m <= k {
        if k != x { assert k in ks - {x}; }
      }
    } else {
      assert forall k :: k in ks ==> x <= k;
    }
  }

  /** The least element of a non-empty set. */
  function Min(ks: set<nat>): (m: nat)
    requires ks != {}
    ensures m in ks && forall k :: k in ks ==> m <= k
  {
    MinExists(ks);
    var m :| m in ks && forall k :: k in ks ==> m <= k; m
  }

  /** The elements of `ks` in strictly ascending order (that every element
      is listed is `AscendingLists`). */
  function Ascending(ks: set<nat>): (r: seq<nat>)
    ensures |r| == |ks|
    ensures forall i :: 0 <= i < |r| ==> r[i] in ks
    ensures forall i, j :: 0 <= i < j < |r| ==> r[i] < r[j]
    decreases |ks|
  {
    if ks == {} then []
    else [Min(ks)] + Ascending(ks - {Min(ks)})
  }

  /** Every element of `ks` has a position in `Ascending(ks)`. */
  lemma {:induction false} AscendingLists(ks: set<nat>, k: nat) returns (i: nat)
    requires k in ks
    ensures i < |Ascending(ks)| && Ascending(ks)[i] == k
    decreases |ks|
  {
    var m := Min(ks);
    if k == m {
      i := 0;
    } else {
      var j := AscendingLists(ks - {m}, k);
      i := j + 1;
    }
  }
}
