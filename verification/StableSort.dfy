/** `Array.prototype.sort` by a numeric key. The sort is stable, so it is given by the order of
    the indices: first by key, then by position. */
module StableSort {

  predicate Before(keys: seq<real>, i: nat, j: nat)
    requires i < |keys| && j < |keys|
  {
    keys[i] < keys[j] || (keys[i] == keys[j] && i < j)
  }

  ghost predicate Indices(n: nat, p: seq<nat>) {
    forall k :: 0 <= k < |p| ==> p[k] < n
  }

  ghost predicate Ordered(keys: seq<real>, p: seq<nat>)
    requires Indices(|keys|, p)
  {
    forall a, b :: 0 <= a < b < |p| ==> Before(keys, p[a], p[b])
  }

  /** Where index `n`, larger than all of `p`, goes: after every index whose key is not larger. */
  function Position(keys: seq<real>, p: seq<nat>, key: real): (k: nat)
    requires Indices(|keys|, p)
    ensures k <= |p|
    ensures k < |p| ==> key < keys[p[k]]
    ensures k > 0 ==> keys[p[k - 1]] <= key
  {
    if p == [] || keys[p[|p| - 1]] <= key then |p| else Position(keys, p[..|p| - 1], key)
  }

  function InsertAt(p: seq<nat>, k: nat, x: nat): (q: seq<nat>)
    requires k <= |p|
    ensures |q| == |p| + 1
    ensures forall i :: 0 <= i < |q| ==> q[i] == if i < k then p[i] else if i == k then x else p[i - 1]
  {
    p[..k] + [x] + p[k..]
  }

  /** The indices of `keys` in sorted order. */
  function Order(keys: seq<real>): (p: seq<nat>)
    ensures |p| == |keys| && Indices(|keys|, p)
  {
    if keys == [] then []
    else
      var n := |keys| - 1;
      var p := Order(keys[..n]);
      var k := Position(keys, p, keys[n]);
      InsertAt(p, k, n)
  }

  lemma InsertKeepsOrdered(keys: seq<real>, p: seq<nat>, k: nat, a: nat, b: nat)
    requires keys != [] && Indices(|keys| - 1, p) && Ordered(keys, p)
    requires k == Position(keys, p, keys[|keys| - 1]) && a < b <= |p|
    ensures var q := InsertAt(p, k, |keys| - 1); Before(keys, q[a], q[b])
  {
    hide Position;
    var n := |keys| - 1;
    InsertedAt(p, k, n, a);
    InsertedAt(p, k, n, b);
    hide InsertAt;
    if b == k {
      assert a < k - 1 ==> Before(keys, p[a], p[k - 1]);
    } else if a == k {
      assert k < b - 1 ==> Before(keys, p[k], p[b - 1]);
    } else {
      var i, j := if a < k then a else a - 1, if b < k then b else b - 1;
      assert Before(keys, p[i], p[j]);
    }
  }

  lemma InsertedAt(p: seq<nat>, k: nat, x: nat, i: nat)
    requires k <= |p| && i <= |p|
    ensures InsertAt(p, k, x)[i] == if i < k then p[i] else if i == k then x else p[i - 1]
  {
  }

  lemma {:induction false} OrderIsOrdered(keys: seq<real>)
    ensures Ordered(keys, Order(keys))
  {
    if keys != [] {
      var n := |keys| - 1;
      var init, p := keys[..n], Order(keys[..n]);
      OrderIsOrdered(init);
      assert forall a, b :: 0 <= a < b < |p| ==> Before(init, p[a], p[b]) && Before(keys, p[a], p[b]);
      forall a, b | 0 <= a < b < |keys|
        ensures Before(keys, Order(keys)[a], Order(keys)[b])
      {
        InsertKeepsOrdered(keys, p, Position(keys, p, keys[n]), a, b);
      }
    }
  }

  /** The numbers below `n`. */
  function Below(n: nat): (r: set<nat>)
    ensures |r| == n && forall i: nat :: i in r <==> i < n
  {
    if n == 0 then {} else Below(n - 1) + {n - 1}
  }

  function Elements(p: seq<nat>): set<nat> {
    set k: nat | k < |p| :: p[k]
  }

  lemma {:induction false} DistinctSize(p: seq<nat>)
    requires forall a, b :: 0 <= a < b < |p| ==> p[a] != p[b]
    ensures |Elements(p)| == |p|
  {
    if p != [] {
      var n := |p| - 1;
      DistinctSize(p[..n]);
      assert Elements(p) == Elements(p[..n]) + {p[n]};
      assert p[n] !in Elements(p[..n]);
    }
  }

  lemma SubsetOfSameSize(a: set<nat>, b: set<nat>)
    requires a <= b && |a| == |b|
    ensures a == b
  {
    assert |b - a| == |b| - |a|;
  }

  lemma OrderIsDistinct(keys: seq<real>, a: nat, b: nat)
    requires a < |keys| && b < |keys| && a != b
    ensures Order(keys)[a] != Order(keys)[b]
  {
    hide Order;
    OrderIsOrdered(keys);
    if a < b {
      assert Before(keys, Order(keys)[a], Order(keys)[b]);
    } else {
      assert Before(keys, Order(keys)[b], Order(keys)[a]);
    }
  }

  /** Every index occurs exactly once in the sorted order. */
  lemma OrderIsPermutation(keys: seq<real>)
    ensures Elements(Order(keys)) == Below(|keys|)
    ensures forall a, b :: 0 <= a < b < |keys| ==> Order(keys)[a] != Order(keys)[b]
  {
    hide Order;
    forall a, b | 0 <= a < b < |keys|
      ensures Order(keys)[a] != Order(keys)[b]
    {
      OrderIsDistinct(keys, a, b);
    }
    DistinctSize(Order(keys));
    SubsetOfSameSize(Elements(Order(keys)), Below(|keys|));
  }
}
