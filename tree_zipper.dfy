/** A node of a red-black tree together with the chain of its ancestors,
    as a value: what a C# `Node` reference reaches through its `parent`
    links. Changing a field of the node or of an ancestor is rebuilding the
    zipper; `Whole` is the tree that `root` then holds. */
module TreeZippers {
  import opened RedBlackTrees

  /** One ancestor: its colour and pair, the side the way down takes at it,
      and its child on the other side. */
  datatype Frame<K, V> =
    | LeftOf(color: Color, key: K, value: V, sibling: Tree<K, V>)   // the way down is its left child
    | RightOf(color: Color, key: K, value: V, sibling: Tree<K, V>)  // the way down is its right child

  /** The ancestors, parent first; `Top` stands for `rootParent`, the
      sentinel above the root. */
  datatype Path<K, V> = Top | Step(frame: Frame<K, V>, up: Path<K, V>)

  /** A node, or the null child where a node may go, and its ancestors. */
  datatype Zipper<K, V> = Zipper(focus: Tree<K, V>, path: Path<K, V>)

  function Depth<K, V>(p: Path<K, V>): nat
  {
    match p
    case Top => 0
    case Step(_, up) => 1 + Depth(up)
  }

  /** The ancestor `f` with `t` as the child on its way down. */
  function Attach<K, V>(t: Tree<K, V>, f: Frame<K, V>): Tree<K, V>
  {
    match f
    case LeftOf(c, k, v, s) => Node(c, k, v, t, s)
    case RightOf(c, k, v, s) => Node(c, k, v, s, t)
  }

  /** The tree with `t` put back under its ancestors. */
  function Plug<K, V>(t: Tree<K, V>, p: Path<K, V>): Tree<K, V>
    decreases p
  {
    match p
    case Top => t
    case Step(f, up) => Plug(Attach(t, f), up)
  }

  /** The whole tree, the one `root` holds. */
  function Whole<K, V>(z: Zipper<K, V>): Tree<K, V>
  {
    Plug(z.focus, z.path)
  }

  /** The pairs the in-order walk meets before the focus subtree. */
  function Before<K, V>(p: Path<K, V>): seq<(K, V)>
  {
    match p
    case Top => []
    case Step(LeftOf(_, _, _, _), up) => Before(up)
    case Step(RightOf(_, k, v, s), up) => Before(up) + Pairs(s) + [(k, v)]
  }

  /** The pairs the in-order walk meets after the focus subtree. */
  function After<K, V>(p: Path<K, V>): seq<(K, V)>
  {
    match p
    case Top => []
    case Step(LeftOf(_, k, v, s), up) => [(k, v)] + Pairs(s) + After(up)
    case Step(RightOf(_, _, _, _), up) => After(up)
  }

  /** The whole tree's pairs are those before the focus, the focus
      subtree's, and those after it. */
  lemma {:induction false} PlugPairs<K, V>(t: Tree<K, V>, p: Path<K, V>)
    ensures Pairs(Plug(t, p)) == Before(p) + Pairs(t) + After(p)
    decreases p
  {
    match p
    case Top =>
    case Step(f, up) =>
      PlugPairs(Attach(t, f), up);
      match f
      case LeftOf(_, k, v, s) =>
        Regroup(Before(up), Pairs(t), [(k, v)], Pairs(s), After(up));
      case RightOf(_, k, v, s) =>
        Regroup(Before(up), Pairs(s), [(k, v)], Pairs(t), After(up));
  }

  lemma Assoc3<T>(a: seq<T>, b: seq<T>, c: seq<T>)
    ensures a + (b + c) == a + b + c
  {
  }

  lemma Regroup<T>(a: seq<T>, b: seq<T>, c: seq<T>, d: seq<T>, e: seq<T>)
    ensures a + (b + c + d) + e == a + b + (c + d + e)
    ensures a + (b + c + d) + e == (a + b + c) + d + e
    ensures a + (b + c + d) + e == (a + b) + c + (d + e)
  {
  }

  /** Replacing the focus subtree by one with the same pairs keeps the whole
      tree's pairs. */
  lemma PlugSamePairs<K, V>(t: Tree<K, V>, t': Tree<K, V>, p: Path<K, V>)
    requires Pairs(t) == Pairs(t')
    ensures Pairs(Plug(t, p)) == Pairs(Plug(t', p))
  {
    PlugPairs(t, p);
    PlugPairs(t', p);
  }

  /** Below a non-empty path the whole tree is a node whose colour the
      focus does not decide. */
  lemma {:induction false} RootColorAbove<K, V>(t: Tree<K, V>, t': Tree<K, V>, p: Path<K, V>)
    requires p.Step?
    ensures Plug(t, p).Node? && Plug(t', p).Node? && Plug(t, p).color == Plug(t', p).color
    decreases p
  {
    match p
    case Step(f, up) =>
      if up.Step? {
        RootColorAbove(Attach(t, f), Attach(t', f), up);
      }
  }

  /** `x = x.parent`. */
  function Up<K, V>(z: Zipper<K, V>): (r: Zipper<K, V>)
    requires z.path.Step?
    ensures Depth(r.path) + 1 == Depth(z.path)
    ensures r.focus.Node? && Whole(r) == Whole(z)
  {
    Zipper(Attach(z.focus, z.path.frame), z.path.up)
  }

  /** `x = x.left`. */
  function DownLeft<K, V>(z: Zipper<K, V>): (r: Zipper<K, V>)
    requires z.focus.Node?
    ensures Depth(r.path) == Depth(z.path) + 1 && r.path.frame.LeftOf?
    ensures r.focus == z.focus.left && Up(r) == z && Whole(r) == Whole(z)
  {
    Zipper(z.focus.left, Step(LeftOf(z.focus.color, z.focus.key, z.focus.value, z.focus.right), z.path))
  }

  /** `x = x.right`. */
  function DownRight<K, V>(z: Zipper<K, V>): (r: Zipper<K, V>)
    requires z.focus.Node?
    ensures Depth(r.path) == Depth(z.path) + 1 && r.path.frame.RightOf?
    ensures r.focus == z.focus.right && Up(r) == z && Whole(r) == Whole(z)
  {
    Zipper(z.focus.right, Step(RightOf(z.focus.color, z.focus.key, z.focus.value, z.focus.left), z.path))
  }

  /** The position of the focus node's pair in the in-order walk. */
  function Index<K, V>(z: Zipper<K, V>): (r: nat)
    requires z.focus.Node?
    ensures r < |Pairs(Whole(z))|
  {
    PlugPairs(z.focus, z.path);
    |Before(z.path)| + |Pairs(z.focus.left)|
  }

  /** The pairs the in-order walk meets before the focus node's pair. */
  function Ahead<K, V>(z: Zipper<K, V>): seq<(K, V)>
    requires z.focus.Node?
  {
    Before(z.path) + Pairs(z.focus.left)
  }

  /** The pairs the in-order walk meets after the focus node's pair. */
  function Behind<K, V>(z: Zipper<K, V>): seq<(K, V)>
    requires z.focus.Node?
  {
    Pairs(z.focus.right) + After(z.path)
  }

  /** The in-order walk meets the focus node's pair at `Index`, between
      `Ahead` and `Behind`. */
  lemma Around<K, V>(z: Zipper<K, V>)
    requires z.focus.Node?
    ensures Pairs(Whole(z)) == Ahead(z) + [(z.focus.key, z.focus.value)] + Behind(z)
    ensures |Ahead(z)| == Index(z) < |Pairs(Whole(z))|
    ensures Pairs(Whole(z))[Index(z)] == (z.focus.key, z.focus.value)
  {
    var t := z.focus;
    PlugPairs(t, z.path);
    Regroup(Before(z.path), Pairs(t.left), [(t.key, t.value)], Pairs(t.right), After(z.path));
  }

  /** Overwriting the focus node's pair replaces the pair at its in-order
      position. */
  lemma ReplaceFocusPair<K, V>(z: Zipper<K, V>, k: K, v: V)
    requires z.focus.Node?
    ensures Index(z) < |Pairs(Whole(z))|
    ensures Pairs(Whole(Zipper(z.focus.(key := k, value := v), z.path))) == Pairs(Whole(z))[Index(z) := (k, v)]
  {
    var z' := Zipper(z.focus.(key := k, value := v), z.path);
    Around(z);
    Around(z');
    assert Ahead(z') == Ahead(z) && Behind(z') == Behind(z);
  }

  /** A subtree put where the focus subtree was contributes its pairs
      between the same neighbours. */
  lemma ReplaceFocus<K, V>(z: Zipper<K, V>, t: Tree<K, V>)
    ensures Pairs(Whole(Zipper(t, z.path))) == Before(z.path) + Pairs(t) + After(z.path)
    ensures Pairs(Whole(z)) == Before(z.path) + Pairs(z.focus) + After(z.path)
  {
    PlugPairs(t, z.path);
    PlugPairs(z.focus, z.path);
  }

  /** `x.parent`'s other child `w` as the focus, with `x` as its sibling:
      the same tree seen from the other side of the parent. */
  function Sibling<K, V>(z: Zipper<K, V>): (r: Zipper<K, V>)
    requires z.path.Step?
    ensures r.path.Step? && r.path.up == z.path.up && Depth(r.path) == Depth(z.path)
    ensures r.focus == z.path.frame.sibling && r.path.frame.sibling == z.focus
    ensures r.path.frame.color == z.path.frame.color
    ensures r.path.frame.LeftOf? <==> z.path.frame.RightOf?
    ensures Whole(r) == Whole(z)
  {
    match z.path.frame
    case LeftOf(c, k, v, s) => Zipper(s, Step(RightOf(c, k, v, z.focus), z.path.up))
    case RightOf(c, k, v, s) => Zipper(s, Step(LeftOf(c, k, v, z.focus), z.path.up))
  }

  /** Seen twice from the other side, a node is seen as it was. */
  lemma SiblingInvolution<K, V>(z: Zipper<K, V>)
    requires z.path.Step?
    ensures Sibling(Sibling(z)) == z
  {
  }

  /** A change of the focus subtree that leaves its pairs alone (a colour,
      a rotation) leaves the whole tree's pairs alone and, below the root,
      the root's colour. */
  function SetFocus<K, V>(z: Zipper<K, V>, t: Tree<K, V>): (r: Zipper<K, V>)
    requires Pairs(t) == Pairs(z.focus)
    ensures r.focus == t && r.path == z.path
    ensures Pairs(Whole(r)) == Pairs(Whole(z))
    ensures z.path.Step? ==> IsBlack(Whole(r)) == IsBlack(Whole(z))
  {
    PlugSamePairs(z.focus, t, z.path);
    if z.path.Step? then RootColorAbove(z.focus, t, z.path); Zipper(t, z.path)
    else Zipper(t, z.path)
  }

  /** The path `q` followed by the path `p`: `q` leads from a node reached
      below the focus of a zipper with path `p` up to that focus. */
  function Concat<K, V>(q: Path<K, V>, p: Path<K, V>): Path<K, V>
    decreases q
  {
    match q
    case Top => p
    case Step(f, up) => Step(f, Concat(up, p))
  }

  /** Plugging along `q` and then `p` is plugging along their
      concatenation, which is as deep as both. */
  lemma {:induction false} PlugConcat<K, V>(t: Tree<K, V>, q: Path<K, V>, p: Path<K, V>)
    ensures Plug(t, Concat(q, p)) == Plug(Plug(t, q), p)
    ensures Depth(Concat(q, p)) == Depth(q) + Depth(p)
    decreases q
  {
    match q
    case Top =>
    case Step(f, up) =>
      PlugConcat(Attach(t, f), up, p);
  }

  /** The pairs met before and after a node below the focus. */
  lemma {:induction false} ConcatAround<K, V>(q: Path<K, V>, p: Path<K, V>)
    ensures Before(Concat(q, p)) == Before(p) + Before(q)
    ensures After(Concat(q, p)) == After(q) + After(p)
    decreases q
  {
    match q
    case Top =>
    case Step(f, up) =>
      ConcatAround(up, p);
      var r := Concat(up, p);
      assert Concat(q, p) == Step(f, r);
      match f
      case LeftOf(_, k, v, s) =>
        var a := [(k, v)] + Pairs(s);
        assert Before(Step(f, r)) == Before(r) && Before(q) == Before(up);
        assert After(Step(f, r)) == a + After(r) && After(q) == a + After(up);
        Assoc3(a, After(up), After(p));
      case RightOf(_, k, v, s) =>
        var b := Pairs(s) + [(k, v)];
        assert After(Step(f, r)) == After(r) && After(q) == After(up);
        assert Before(Step(f, r)) == Before(r) + b && Before(q) == Before(up) + b;
        Assoc3(Before(p), Before(up), b);
  }

  /** `a.kv = (k, v)` for the ancestor `a` that is `n` steps above the
      parent. */
  function SetAncestorPair<K, V>(p: Path<K, V>, n: nat, k: K, v: V): Path<K, V>
    requires n < Depth(p)
  {
    if n == 0 then Step(p.frame.(key := k, value := v), p.up)
    else Step(p.frame, SetAncestorPair(p.up, n - 1, k, v))
  }

  /** The ancestor `Depth(q)` steps above is the one at the head of `p`. */
  lemma {:induction false} SetAncestorPairConcat<K, V>(q: Path<K, V>, f: Frame<K, V>, p: Path<K, V>, k: K, v: V)
    ensures Depth(Concat(q, Step(f, p))) == Depth(q) + 1 + Depth(p)
    ensures SetAncestorPair(Concat(q, Step(f, p)), Depth(q), k, v) == Concat(q, Step(f.(key := k, value := v), p))
    decreases q
  {
    PlugConcat(Nil, q, Step(f, p));
    match q
    case Top =>
    case Step(g, up) =>
      SetAncestorPairConcat(up, g, Step(f, p), k, v);
      SetAncestorPairConcat(up, f, p, k, v);
  }

  /** Subtrees of the same shape plugged under the same ancestors give
      trees of the same shape. */
  lemma {:induction false} ShapePlug<K, V>(t: Tree<K, V>, t': Tree<K, V>, p: Path<K, V>)
    requires Shape(t) == Shape(t')
    ensures Shape(Plug(t, p)) == Shape(Plug(t', p))
    decreases p
  {
    match p
    case Top =>
    case Step(f, up) =>
      ShapePlug(Attach(t, f), Attach(t', f), up);
  }

  /** Overwriting an ancestor's pair leaves colours and links alone. */
  lemma {:induction false} SetAncestorPairShape<K, V>(t: Tree<K, V>, p: Path<K, V>, n: nat, k: K, v: V)
    requires n < Depth(p)
    ensures Shape(Plug(t, SetAncestorPair(p, n, k, v))) == Shape(Plug(t, p))
    decreases p
  {
    if n == 0 {
      ShapePlug(Attach(t, p.frame.(key := k, value := v)), Attach(t, p.frame), p.up);
    } else {
      SetAncestorPairShape(Attach(t, p.frame), p.up, n - 1, k, v);
    }
  }

  /** Above the focus no red node has a red child and every sibling subtree
      is red-free, except that a red parent over a red focus is allowed when
      `allow` is set; `redBelow` says whether the focus is red. */
  predicate CtxFree<K, V>(p: Path<K, V>, redBelow: bool, allow: bool)
  {
    match p
    case Top => true
    case Step(f, up) =>
      RedFree(f.sibling) &&
      (f.color == Red ==> !IsRed(f.sibling) && (!redBelow || allow)) &&
      CtxFree(up, f.color == Red, false)
  }

  /** The whole tree is red-free exactly when the focus subtree is and its
      context is. */
  lemma {:induction false} PlugRedFree<K, V>(t: Tree<K, V>, p: Path<K, V>)
    ensures RedFree(Plug(t, p)) <==> RedFree(t) && CtxFree(p, IsRed(t), false)
    decreases p
  {
    match p
    case Top =>
    case Step(f, up) =>
      PlugRedFree(Attach(t, f), up);
  }
}
