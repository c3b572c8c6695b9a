/** The red-black tree of a `SortedDictionary<K, V>` as a value: a node is
    its colour, its pair and its two children, and a null child is `Nil`. */
module RedBlackTrees {

  datatype Color = Red | Black

  datatype Tree<K, V> =
    | Nil
    | Node(color: Color, key: K, value: V, left: Tree<K, V>, right: Tree<K, V>)

  /** `t != null && t.color == Red`. */
  predicate IsRed<K, V>(t: Tree<K, V>)
  {
    t.Node? && t.color == Red
  }

  /** `t != null && t.color == Black`. */
  predicate IsBlack<K, V>(t: Tree<K, V>)
  {
    t.Node? && t.color == Black
  }

  /** Trees of the same shape have roots of the same colour. */
  lemma ShapeColor<K, V>(t: Tree<K, V>, t': Tree<K, V>)
    requires Shape(t) == Shape(t')
    ensures IsRed(t) == IsRed(t') && IsBlack(t) == IsBlack(t')
  {
  }

  /** The pairs in in-order: left subtree, the node, right subtree. */
  function Pairs<K, V>(t: Tree<K, V>): seq<(K, V)>
  {
    match t
    case Nil => []
    case Node(_, k, v, l, r) => Pairs(l) + [(k, v)] + Pairs(r)
  }

  /** No red node has a red child. */
  predicate RedFree<K, V>(t: Tree<K, V>)
  {
    match t
    case Nil => true
    case Node(c, _, _, l, r) =>
      RedFree(l) && RedFree(r) && (c == Red ==> !IsRed(l) && !IsRed(r))
  }

  /** The black nodes on the way down the left spine to a null child: the
      black height, when the tree is black-balanced. */
  function BlackHeight<K, V>(t: Tree<K, V>): nat
  {
    match t
    case Nil => 0
    case Node(c, _, _, l, _) => BlackHeight(l) + (if c == Black then 1 else 0)
  }

  /** Every way down from a node to a null child meets the same number of
      black nodes. */
  predicate BlackBalanced<K, V>(t: Tree<K, V>)
  {
    match t
    case Nil => true
    case Node(_, _, _, l, r) => BlackBalanced(l) && BlackBalanced(r) && BlackHeight(l) == BlackHeight(r)
  }

  /** The tree with its pairs forgotten: colours and links only. */
  function Shape<K, V>(t: Tree<K, V>): Tree<(), ()>
  {
    match t
    case Nil => Nil
    case Node(c, _, _, l, r) => Node(c, (), (), Shape(l), Shape(r))
  }

  /** `comparer.Compare` is a total order that compares equal exactly the
      equal keys. */
  ghost predicate TotalOrder<K(!new)>(cmp: (K, K) -> int)
  {
    (forall a, b :: cmp(a, b) == 0 <==> a == b) &&
    (forall a, b :: cmp(a, b) < 0 <==> cmp(b, a) > 0) &&
    (forall a, b, c {:trigger cmp(a, b), cmp(b, c), cmp(a, c)} ::
      cmp(a, b) < 0 && cmp(b, c) < 0 ==> cmp(a, c) < 0)
  }

  /** Keys strictly ascending under `cmp`. */
  predicate Ascending<K, V>(cmp: (K, K) -> int, ps: seq<(K, V)>)
  {
    forall i, j :: 0 <= i < j < |ps| ==> cmp(ps[i].0, ps[j].0) < 0
  }

  /** The index of the pair whose key compares equal to `key`, or -1. */
  function KeyIndex<K, V>(cmp: (K, K) -> int, ps: seq<(K, V)>, key: K): (r: int)
    ensures -1 <= r < |ps|
    ensures r == -1 <==> forall i :: 0 <= i < |ps| ==> cmp(key, ps[i].0) != 0
    ensures r >= 0 ==> cmp(key, ps[r].0) == 0 && forall i :: 0 <= i < r ==> cmp(key, ps[i].0) != 0
  {
    if ps == [] then -1
    else if cmp(key, ps[0].0) == 0 then 0
    else
      var r := KeyIndex(cmp, ps[1..], key);
      if r == -1 then -1 else r + 1
  }

  /** The number of leading pairs whose keys are below `key`: where a new
      pair with that key goes. */
  function InsertionPoint<K, V>(cmp: (K, K) -> int, ps: seq<(K, V)>, key: K): (j: nat)
    ensures j <= |ps|
    ensures forall i :: 0 <= i < j ==> cmp(ps[i].0, key) < 0
    ensures j < |ps| ==> cmp(ps[j].0, key) >= 0
  {
    if ps == [] || cmp(ps[0].0, key) >= 0 then 0
    else 1 + InsertionPoint(cmp, ps[1..], key)
  }

  /** A key above every key before a split point and below every key after
      it goes at that point and is not among the keys. */
  lemma InsertionPointSplit<K(!new), V>(cmp: (K, K) -> int, before: seq<(K, V)>, after: seq<(K, V)>,
                                        key: K)
    requires TotalOrder(cmp)
    requires forall i :: 0 <= i < |before| ==> cmp(before[i].0, key) < 0
    requires forall i :: 0 <= i < |after| ==> cmp(key, after[i].0) < 0
    ensures InsertionPoint(cmp, before + after, key) == |before|
    ensures KeyIndex(cmp, before + after, key) == -1
  {
    var ps := before + after;
    assert forall i :: 0 <= i < |before| ==> ps[i] == before[i];
    assert |after| > 0 ==> ps[|before|] == after[0];
    forall i | 0 <= i < |ps|
      ensures cmp(key, ps[i].0) != 0
    {
      if i < |before| {
        assert ps[i] == before[i];
      } else {
        assert ps[i] == after[i - |before|];
      }
    }
  }

  /** Such a key put at the split point keeps the keys ascending. */
  lemma InsertBetween<K(!new), V>(cmp: (K, K) -> int, before: seq<(K, V)>, after: seq<(K, V)>,
                                  key: K, value: V)
    requires Ascending(cmp, before + after)
    requires forall i :: 0 <= i < |before| ==> cmp(before[i].0, key) < 0
    requires forall i :: 0 <= i < |after| ==> cmp(key, after[i].0) < 0
    ensures Ascending(cmp, before + [(key, value)] + after)
  {
    var ps := before + after;
    var qs := before + [(key, value)] + after;
    forall i, k | 0 <= i < k < |qs|
      ensures cmp(qs[i].0, qs[k].0) < 0
    {
      if k < |before| {
        assert qs[i] == ps[i] && qs[k] == ps[k];
      } else if k == |before| {
        assert qs[i] == before[i];
      } else if i == |before| {
        assert qs[k] == after[k - |before| - 1];
      } else if i < |before| {
        assert qs[i] == ps[i] && qs[k] == ps[k - 1];
      } else {
        assert qs[i] == ps[i - 1] && qs[k] == ps[k - 1];
      }
    }
  }

  /** Removing a pair keeps the keys ascending. */
  lemma RemoveKeepsAscending<K, V>(cmp: (K, K) -> int, ps: seq<(K, V)>, i: int)
    requires Ascending(cmp, ps) && 0 <= i < |ps|
    ensures Ascending(cmp, ps[..i] + ps[i + 1..])
  {
    var qs := ps[..i] + ps[i + 1..];
    forall a, b | 0 <= a < b < |qs|
      ensures cmp(qs[a].0, qs[b].0) < 0
    {
      var a' := if a < i then a else a + 1;
      var b' := if b < i then b else b + 1;
      assert qs[a] == ps[a'] && qs[b] == ps[b'];
    }
  }

  /** Replacing a pair by one with the same key keeps the keys ascending. */
  lemma ReplaceKeepsAscending<K, V>(cmp: (K, K) -> int, ps: seq<(K, V)>, i: int, v: V)
    requires Ascending(cmp, ps) && 0 <= i < |ps|
    ensures Ascending(cmp, ps[i := (ps[i].0, v)])
  {
    var qs := ps[i := (ps[i].0, v)];
    assert forall j :: 0 <= j < |qs| ==> qs[j].0 == ps[j].0;
  }

  /** In ascending keys, the key of the pair at `i` is at no other index. */
  lemma AscendingUnique<K(!new), V>(cmp: (K, K) -> int, ps: seq<(K, V)>, i: int)
    requires TotalOrder(cmp) && Ascending(cmp, ps) && 0 <= i < |ps|
    ensures KeyIndex(cmp, ps, ps[i].0) == i
    ensures forall k :: 0 <= k < |ps| && k != i ==> cmp(ps[i].0, ps[k].0) != 0
  {
    forall k | 0 <= k < |ps| && k != i
      ensures cmp(ps[i].0, ps[k].0) != 0
    {
      if k < i {
        assert cmp(ps[k].0, ps[i].0) < 0;
      } else {
        assert cmp(ps[i].0, ps[k].0) < 0;
      }
    }
  }

  /** Once the pair at `i` of ascending keys is removed, no key left
      compares equal to its key. */
  lemma RemovedKeyAbsent<K(!new), V>(cmp: (K, K) -> int, ps: seq<(K, V)>, i: int)
    requires TotalOrder(cmp) && Ascending(cmp, ps) && 0 <= i < |ps|
    ensures KeyIndex(cmp, ps[..i] + ps[i + 1..], ps[i].0) == -1
  {
    var qs := ps[..i] + ps[i + 1..];
    forall a | 0 <= a < |qs|
      ensures cmp(ps[i].0, qs[a].0) != 0
    {
      if a < i {
        assert qs[a] == ps[a];
        assert cmp(ps[a].0, ps[i].0) < 0;
      } else {
        assert qs[a] == ps[a + 1];
      }
    }
  }

  /** `LeftRotate` on the subtree of `x`: its right child `y` takes its
      place, `x` becomes `y`'s left child and takes `y`'s left subtree as
      its right one; both keep their colours. */
  function RotateLeft<K, V>(x: Tree<K, V>): (r: Tree<K, V>)
    requires x.Node? && x.right.Node?
    ensures r.Node? && r.left.Node? && r.color == x.right.color
    ensures Pairs(r) == Pairs(x)
  {
    var y := x.right;
    Node(y.color, y.key, y.value, Node(x.color, x.key, x.value, x.left, y.left), y.right)
  }

  /** `RightRotate`, the mirror image: the left child `y` takes the place
      of `x`, which becomes `y`'s right child. */
  function RotateRight<K, V>(x: Tree<K, V>): (r: Tree<K, V>)
    requires x.Node? && x.left.Node?
    ensures r.Node? && r.right.Node? && r.color == x.left.color
    ensures Pairs(r) == Pairs(x)
  {
    var y := x.left;
    Node(y.color, y.key, y.value, y.left, Node(x.color, x.key, x.value, y.right, x.right))
  }

  /** Each rotation undoes the other. */
  lemma RotationsInverse<K, V>(t: Tree<K, V>)
    ensures t.Node? && t.right.Node? ==> RotateRight(RotateLeft(t)) == t
    ensures t.Node? && t.left.Node? ==> RotateLeft(RotateRight(t)) == t
  {
  }
}
