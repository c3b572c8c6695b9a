/** `SortedDictionary<K, V>`: a red-black tree ordered by a comparer. The
    tree is held as a value in `root`; a `Node` reference with its `parent`
    links is a `Zipper`, and `rootParent` is the top of every zipper's
    path. */
module SortedDictionaries {
  import opened Common
  import opened RedBlackTrees
  import opened TreeZippers
  import opened RedBlackFixups

  /** Every key before the focus subtree is below `key`, every key after it
      above: the descent for `key` has come the right way. */
  ghost predicate Brackets<K, V>(cmp: (K, K) -> int, p: Path<K, V>, key: K)
  {
    (forall i :: 0 <= i < |Before(p)| ==> cmp(Before(p)[i].0, key) < 0) &&
    (forall i :: 0 <= i < |After(p)| ==> cmp(key, After(p)[i].0) < 0)
  }

  /** One step of the descent for `key` towards the side it compares to
      keeps the keys on either side bracketing it. */
  lemma DescendKeeps<K(!new), V>(cmp: (K, K) -> int, z: Zipper<K, V>, key: K)
    requires TotalOrder(cmp) && Ascending(cmp, Pairs(Whole(z)))
    requires z.focus.Node? && Brackets(cmp, z.path, key)
    ensures cmp(key, z.focus.key) < 0 ==> Brackets(cmp, DownLeft(z).path, key)
    ensures cmp(key, z.focus.key) > 0 ==> Brackets(cmp, DownRight(z).path, key)
  {
    var t := z.focus;
    var kv := (t.key, t.value);
    Around(z);
    var ps, n := Pairs(Whole(z)), Index(z);
    var b, a := Before(z.path), After(z.path);
    var l, r := Pairs(t.left), Pairs(t.right);
    if cmp(key, t.key) < 0 {
      var a' := After(DownLeft(z).path);
      assert a' == [kv] + r + a;
      forall i | 0 <= i < |a'|
        ensures cmp(key, a'[i].0) < 0
      {
        if 0 < i <= |r| {
          assert a'[i] == r[i - 1] == Behind(z)[i - 1] == ps[n + i];
          assert cmp(t.key, a'[i].0) < 0;
        } else if i > |r| {
          assert a'[i] == a[i - |r| - 1];
        }
      }
    }
    if cmp(key, t.key) > 0 {
      var b' := Before(DownRight(z).path);
      assert b' == Ahead(z) + [kv];
      forall i | 0 <= i < |b'|
        ensures cmp(b'[i].0, key) < 0
      {
        if |b| <= i < n {
          assert b'[i] == Ahead(z)[i] == ps[i];
          assert cmp(b'[i].0, t.key) < 0;
        } else if i < |b| {
          assert b'[i] == b[i];
        }
      }
    }
  }

  /** The descent stopped at a node whose key compares equal: overwriting
      its pair with `(key, value)` replaces the pair with that key, keeps
      the keys ascending and leaves colours and links alone. */
  lemma OverwriteFacts<K(!new), V>(cmp: (K, K) -> int, z: Zipper<K, V>, key: K, value: V)
    requires TotalOrder(cmp) && Ascending(cmp, Pairs(Whole(z)))
    requires z.focus.Node? && cmp(key, z.focus.key) == 0
    ensures var ps := Pairs(Whole(z)); var i := KeyIndex(cmp, ps, key);
      var w := Whole(Zipper(z.focus.(key := key, value := value), z.path));
      i >= 0 && Pairs(w) == ps[i := (key, value)] && Shape(w) == Shape(Whole(z)) &&
      Ascending(cmp, Pairs(w)) && (IsRed(w) <==> IsRed(Whole(z)))
  {
    var t := z.focus;
    ReplaceFocusPair(z, key, value);
    Around(z);
    ShapePlug(t, t.(key := key, value := value), z.path);
    AscendingUnique(cmp, Pairs(Whole(z)), Index(z));
    ReplaceKeepsAscending(cmp, Pairs(Whole(z)), Index(z), value);
  }

  /** The descent stopped at a null child: the keys bracket `key`, which
      is not among them, and a red leaf there puts the pair at its
      insertion point, keeps the keys ascending, and is ready for
      `InsertFixup`. */
  lemma AttachFacts<K(!new), V>(cmp: (K, K) -> int, z: Zipper<K, V>, key: K, value: V)
    requires TotalOrder(cmp) && Ascending(cmp, Pairs(Whole(z))) && !IsRed(Whole(z))
    requires z.focus.Nil? && Brackets(cmp, z.path, key)
    ensures var ps := Pairs(Whole(z)); var j := InsertionPoint(cmp, ps, key);
      var z' := Zipper(Node(Red, key, value, Nil, Nil), z.path);
      KeyIndex(cmp, ps, key) == -1 &&
      Pairs(Whole(z')) == ps[..j] + [(key, value)] + ps[j..] &&
      Ascending(cmp, Pairs(Whole(z'))) && InsertInv(z', RedFree(Whole(z)))
  {
    var z' := Zipper(Node(Red, key, value, Nil, Nil), z.path);
    var b, a := Before(z.path), After(z.path);
    ReplaceFocus(z, z'.focus);
    assert Pairs(z'.focus) == [(key, value)] && Pairs(z.focus) == [];
    assert Pairs(Whole(z)) == b + a;
    assert Pairs(Whole(z')) == b + [(key, value)] + a;
    InsertionPointSplit(cmp, b, a, key);
    InsertBetween(cmp, b, a, key, value);
    SplitAt(b, a);
    RedLeafReady(z, key, value);
  }

  lemma SplitAt<T>(b: seq<T>, a: seq<T>)
    ensures (b + a)[..|b|] == b && (b + a)[|b|..] == a
  {
  }

  /** A red leaf at a null child of a tree with a black root is ready for
      `InsertFixup`. */
  lemma RedLeafReady<K, V>(z: Zipper<K, V>, key: K, value: V)
    requires z.focus.Nil? && !IsRed(Whole(z))
    ensures InsertInv(Zipper(Node(Red, key, value, Nil, Nil), z.path), RedFree(Whole(z)))
  {
    var z' := Zipper(Node(Red, key, value, Nil, Nil), z.path);
    PlugRedFree(Nil, z.path);
    if z.path.Step? {
      RootColorAbove(z'.focus, Nil, z.path);
    }
    CtxRelax(z.path, false);
  }

  /** The pairs still to be visited for a stack of nodes whose left subtrees
      have been visited: each node's pair and then its right subtree, from
      the top of the stack (the end of the sequence) down. */
  function Pending<K, V>(s: seq<Tree<K, V>>): seq<(K, V)>
  {
    if s == [] then []
    else
      var n := s[|s| - 1];
      (if n.Node? then [(n.key, n.value)] + Pairs(n.right) else []) + Pending(s[..|s| - 1])
  }

  /** The walk of `Inorder`: an explicit stack of the nodes whose left
      subtrees are done, pushed while going left and popped to visit a pair
      and go right. */
  method InorderWalk<K, V>(t: Tree<K, V>) returns (visited: seq<(K, V)>)
    ensures visited == Pairs(t)
  {
    var s: seq<Tree<K, V>> := [];
    var current := t;
    visited := [];
    while current.Node? || |s| != 0
      invariant visited + Pairs(current) + Pending(s) == Pairs(t)
      invariant forall i :: 0 <= i < |s| ==> s[i].Node?
      decreases |Pairs(t)| - |visited|, current
    {
      var s' := PushLeft(current, s);
      Assoc3(visited, Pairs(current), Pending(s));
      s := s';
      var n := s[|s| - 1];  // s.Pop()
      PopStep(visited, s);
      s := s[..|s| - 1];
      visited := visited + [(n.key, n.value)];  // forEach(key, value)
      current := n.right;
    }
  }

  /** The inner loop of `Inorder`: push `current` and go left until null.
      What is pending afterwards is the pairs of `current` and then what was
      pending before. */
  method PushLeft<K, V>(current: Tree<K, V>, s: seq<Tree<K, V>>) returns (s': seq<Tree<K, V>>)
    requires forall i :: 0 <= i < |s| ==> s[i].Node?
    ensures forall i :: 0 <= i < |s'| ==> s'[i].Node?
    ensures Pending(s') == Pairs(current) + Pending(s)
    ensures |s| <= |s'| && (current.Node? ==> s' != [])
  {
    var c := current;
    s' := s;
    while c.Node?
      invariant forall i :: 0 <= i < |s'| ==> s'[i].Node?
      invariant Pairs(c) + Pending(s') == Pairs(current) + Pending(s)
      invariant |s| <= |s'| && (current.Node? ==> c.Node? || s' != [])
      decreases c
    {
      PushStep(c, s');
      s' := s' + [c];  // s.Push(current)
      c := c.left;
    }
  }

  /** Pushing a node and going left leaves the same pairs to visit. */
  lemma PushStep<K, V>(c: Tree<K, V>, s: seq<Tree<K, V>>)
    requires c.Node?
    ensures Pairs(c.left) + Pending(s + [c]) == Pairs(c) + Pending(s)
  {
    assert (s + [c])[..|s|] == s;
    Regroup([], Pairs(c.left), [(c.key, c.value)], Pairs(c.right), Pending(s));
  }

  /** Popping a node, visiting its pair and going right leaves the same
      pairs to visit. */
  lemma PopStep<K, V>(visited: seq<(K, V)>, s: seq<Tree<K, V>>)
    requires s != [] && s[|s| - 1].Node?
    ensures var n := s[|s| - 1];
      visited + [(n.key, n.value)] + Pairs(n.right) + Pending(s[..|s| - 1]) ==
      visited + Pending(s)
  {
    var n := s[|s| - 1];
    PendingTop(s);
    Assoc(visited, [(n.key, n.value)], Pairs(n.right), Pending(s[..|s| - 1]));
  }

  /** The pairs pending for a stack with a node on top begin with that
      node's pair and right subtree. */
  lemma PendingTop<K, V>(s: seq<Tree<K, V>>)
    requires s != [] && s[|s| - 1].Node?
    ensures var n := s[|s| - 1];
      Pending(s) == [(n.key, n.value)] + Pairs(n.right) + Pending(s[..|s| - 1])
  {
  }

  lemma Assoc<T>(a: seq<T>, b: seq<T>, c: seq<T>, d: seq<T>)
    ensures a + (b + c + d) == a + b + c + d
  {
  }

  /** The descent stopped at a node whose key compares equal to `key`:
      that node holds the pair with that key. */
  lemma FoundAt<K(!new), V>(cmp: (K, K) -> int, z: Zipper<K, V>, key: K)
    requires TotalOrder(cmp) && Ascending(cmp, Pairs(Whole(z)))
    requires z.focus.Node? && cmp(key, z.focus.key) == 0
    ensures KeyIndex(cmp, Pairs(Whole(z)), key) == Index(z)
    ensures Pairs(Whole(z))[Index(z)].0 == key
  {
    Around(z);
    AscendingUnique(cmp, Pairs(Whole(z)), Index(z));
  }

  /** The node found for `key` holds the pair at its in-order index, and
      with that pair cut out no key compares equal to `key`. */
  lemma FoundCut<K(!new), V>(cmp: (K, K) -> int, z: Zipper<K, V>, key: K)
    requires TotalOrder(cmp) && Ascending(cmp, Pairs(Whole(z)))
    requires z.focus.Node? && cmp(key, z.focus.key) == 0
    ensures var ps := Pairs(Whole(z)); var i := Index(z);
      KeyIndex(cmp, ps, key) == i && |ps[..i] + ps[i + 1..]| == |ps| - 1 &&
      KeyIndex(cmp, ps[..i] + ps[i + 1..], key) == -1
  {
    FoundAt(cmp, z, key);
    RemovedKeyAbsent(cmp, Pairs(Whole(z)), Index(z));
  }

  /** The descent stopped at a null child: no key compares equal to `key`. */
  lemma AbsentAt<K(!new), V>(cmp: (K, K) -> int, z: Zipper<K, V>, key: K)
    requires TotalOrder(cmp) && z.focus.Nil? && Brackets(cmp, z.path, key)
    ensures KeyIndex(cmp, Pairs(Whole(z)), key) == -1
  {
    ReplaceFocus(z, Nil);
    assert Pairs(Whole(z)) == Before(z.path) + After(z.path);
    InsertionPointSplit(cmp, Before(z.path), After(z.path), key);
  }

  /** Removing the element at `|a|` of `a + [e] + b` leaves `a + b`. */
  lemma CutAt<T>(a: seq<T>, e: T, b: seq<T>)
    ensures var s := a + [e] + b; s[..|a|] + s[|a| + 1..] == a + b
  {
    var s := a + [e] + b;
    assert s[..|a|] == a;
    assert s[|a| + 1..] == b;
  }

  /** A node with at most one child replaced by that child: its pair
      leaves the in-order walk. */
  lemma SpliceOut<K, V>(z: Zipper<K, V>, x: Tree<K, V>)
    requires z.focus.Node? && (z.focus.left.Nil? || z.focus.right.Nil?)
    requires x == (if z.focus.left.Node? then z.focus.left else z.focus.right)
    ensures var ps := Pairs(Whole(z)); Pairs(Whole(Zipper(x, z.path))) == ps[..Index(z)] + ps[Index(z) + 1..]
  {
    var b, a := Before(z.path), After(z.path);
    Around(z);
    ReplaceFocus(z, x);
    CutAt(Ahead(z), (z.focus.key, z.focus.value), Behind(z));
    if z.focus.left.Nil? {
      assert Ahead(z) == b && Behind(z) == Pairs(x) + a;
    } else {
      assert Ahead(z) == b + Pairs(x) && Behind(z) == a;
    }
  }

  /** A node `z` with two children takes the pair of the node `y` reached
      below its right child along a path `q` of left steps, and `y`'s right
      child takes `y`'s place: `z`'s pair leaves the in-order walk. */
  lemma SpliceSuccessor<K, V>(z: Zipper<K, V>, y: Zipper<K, V>, q: Path<K, V>)
    requires z.focus.Node? && y.focus.Node? && y.focus.left.Nil?
    requires y.path == Concat(q, DownRight(z).path) && Before(q) == [] && Plug(y.focus, q) == z.focus.right
    ensures var ps := Pairs(Whole(z));
      var p' := Concat(q, Step(RightOf(z.focus.color, y.focus.key, y.focus.value, z.focus.left), z.path));
      Pairs(Plug(y.focus.right, p')) == ps[..Index(z)] + ps[Index(z) + 1..]
  {
    SuccessorAround(z, y, q);
    Around(z);
    CutRegroup(Ahead(z), (z.focus.key, z.focus.value), (y.focus.key, y.focus.value), Pairs(y.focus.right),
               After(q), After(z.path));
  }

  /** The pairs around `z` and around `y`'s right child once it has taken
      `y`'s place and `z` has taken `y`'s pair. */
  lemma SuccessorAround<K, V>(z: Zipper<K, V>, y: Zipper<K, V>, q: Path<K, V>)
    requires z.focus.Node? && y.focus.Node? && y.focus.left.Nil?
    requires Before(q) == [] && Plug(y.focus, q) == z.focus.right
    ensures var ykv, x := (y.focus.key, y.focus.value), y.focus.right;
      var p' := Concat(q, Step(RightOf(z.focus.color, y.focus.key, y.focus.value, z.focus.left), z.path));
      Behind(z) == ([ykv] + Pairs(x) + After(q)) + After(z.path) &&
      Pairs(Plug(x, p')) == (Ahead(z) + [ykv]) + Pairs(x) + (After(q) + After(z.path))
  {
    var f' := RightOf(z.focus.color, y.focus.key, y.focus.value, z.focus.left);
    var p' := Concat(q, Step(f', z.path));
    PlugPairs(y.focus.right, p');
    ConcatAround(q, Step(f', z.path));
    LeftmostPairs(y.focus, q);
  }

  /** Sequence bookkeeping for `SpliceSuccessor`. */
  lemma CutRegroup<T>(ahead: seq<T>, e: T, k: T, x: seq<T>, aq: seq<T>, az: seq<T>)
    ensures var s := ahead + [e] + (([k] + x + aq) + az);
      s[..|ahead|] + s[|ahead| + 1..] == (ahead + [k]) + x + (aq + az)
  {
    CutAt(ahead, e, ([k] + x + aq) + az);
  }

  /** A node without a left child, below a path of left steps only: its
      pair comes first, then its right subtree, then what follows the
      path. */
  lemma LeftmostPairs<K, V>(t: Tree<K, V>, q: Path<K, V>)
    requires t.Node? && t.left.Nil? && Before(q) == []
    ensures Pairs(Plug(t, q)) == [(t.key, t.value)] + Pairs(t.right) + After(q)
  {
    PlugPairs(t, q);
    assert Pairs(t) == [(t.key, t.value)] + Pairs(t.right);
  }

  /** The conditions under which `Delete` takes `y` out: `y` is `z` with
      at most one child, or (`moved`) the leftmost node below `z`'s right
      child, reached along `q`; `spliced` is `y`'s only child (or null) in
      `y`'s place, and when `y` moved, `z` holds `y`'s pair. */
  ghost predicate Spliced<K, V>(z: Zipper<K, V>, y: Zipper<K, V>, q: Path<K, V>, moved: bool,
                                spliced: Zipper<K, V>)
  {
    z.focus.Node? && y.focus.Node? && Whole(y) == Whole(z) &&
    spliced.focus == (if y.focus.left.Node? then y.focus.left else y.focus.right) &&
    (!moved ==> y == z && (z.focus.left.Nil? || z.focus.right.Nil?) && spliced.path == y.path) &&
    (moved ==>
      y.focus.left.Nil? && y.path == Concat(q, DownRight(z).path) &&
      Before(q) == [] && Plug(y.focus, q) == z.focus.right &&
      Depth(y.path) == Depth(q) + 1 + Depth(z.path) &&
      spliced.path == SetAncestorPair(y.path, Depth(q), y.focus.key, y.focus.value))
  }

  /** Taking `y` out removes `z`'s pair from the in-order walk. */
  lemma SplicePairs<K, V>(z: Zipper<K, V>, y: Zipper<K, V>, q: Path<K, V>, moved: bool, spliced: Zipper<K, V>)
    requires Spliced(z, y, q, moved, spliced)
    ensures var ps := Pairs(Whole(z)); Pairs(Whole(spliced)) == ps[..Index(z)] + ps[Index(z) + 1..]
  {
    if moved {
      SetAncestorPairConcat(q, DownRight(z).path.frame, z.path, y.focus.key, y.focus.value);
      SpliceSuccessor(z, y, q);
    } else {
      SpliceOut(z, spliced.focus);
    }
  }

  /** Taking `y` out leaves the root's colour alone unless `y` was the
      root. */
  lemma SpliceColor<K, V>(z: Zipper<K, V>, y: Zipper<K, V>, q: Path<K, V>, moved: bool, spliced: Zipper<K, V>)
    requires Spliced(z, y, q, moved, spliced) && !IsRed(Whole(z))
    ensures RootOk(spliced)
    ensures !(y.focus.color == Black && spliced.focus.Node?) ==> !IsRed(Whole(spliced))
  {
    var x := spliced.focus;
    if moved {
      SetAncestorPairShape(x, y.path, Depth(q), y.focus.key, y.focus.value);
      ShapeColor(Whole(spliced), Plug(x, y.path));
    }
    if y.path.Step? {
      RootColorAbove(x, y.focus, y.path);
    }
  }

  /** What `Successor` returns: a node, or the `rootParent` sentinel. */
  datatype Position<K, V> = AtNode(node: Zipper<K, V>) | AtRootParent

  class SortedDictionary<K(==, !new), V> {
    var root: Tree<K, V>
    const comparer: (K, K) -> int
    var count: int
    var version: nat

    /** The comparer orders the keys and the tree is a search tree with a
        black root. */
    ghost predicate Ordered()
      reads this
    {
      TotalOrder(comparer) && Ascending(comparer, Pairs(root)) && !IsRed(root)
    }

    /** ... and `count` is the number of pairs. */
    ghost predicate Valid()
      reads this
    {
      Ordered() && count == |Pairs(root)|
    }

    /** `SortedDictionary(keyComparer)`: an empty tree. */
    constructor (keyComparer: (K, K) -> int)
      requires TotalOrder(keyComparer)
      ensures Valid() && root == Nil && comparer == keyComparer
      ensures count == 0 && version == 0
    {
      root := Nil;
      comparer := keyComparer;
      count := 0;
      version := 0;
    }

    /** The descent of `Add` and of `Remove` from the root for `key` (the
        two loops test the same three cases): it stops at the node
        whose key compares equal, or at the empty place where a node for
        `key` belongs, with the keys before and after that place bracketing
        `key`. */
    method Locate(key: K) returns (z: Zipper<K, V>)
      requires Ordered()
      ensures Whole(z) == root && Brackets(comparer, z.path, key)
      ensures z.focus.Node? ==> comparer(key, z.focus.key) == 0
    {
      z := Zipper(root, Top);  // `y` is the focus, `z` the parent its path ends at
      while z.focus.Node?
        invariant Whole(z) == root && Brackets(comparer, z.path, key)
        decreases z.focus
      {
        var comp := comparer(key, z.focus.key);
        if comp < 0 {
          DescendKeeps(comparer, z, key);
          z := DownLeft(z);
        } else if comp == 0 {
          return;
        } else {
          DescendKeeps(comparer, z, key);
          z := DownRight(z);
        }
      }
    }

    /** `Add(key, value)`: a key already present has its pair overwritten
        in place, with `count`, `version` and the shape of the tree
        unchanged; a new key goes into the in-order walk where the comparer
        puts it, as a red leaf restored by `InsertFixup`, and `count` and
        `version` step. */
    method Add(key: K, value: V)
      requires Valid()
      modifies this
      ensures Valid()
      ensures var ps := old(Pairs(root)); var i := KeyIndex(comparer, ps, key);
        if i >= 0 then
          Pairs(root) == ps[i := (key, value)] && Shape(root) == old(Shape(root)) &&
          count == old(count) && version == old(version)
        else
          var j := InsertionPoint(comparer, ps, key);
          Pairs(root) == ps[..j] + [(key, value)] + ps[j..] &&
          count == old(count) + 1 && version == old(version) + 1 &&
          IsBlack(root) && (RedFree(old(root)) ==> RedFree(root))
    {
      var z := Locate(key);
      if z.focus.Node? {
        OverwriteFacts(comparer, z, key, value);
        root := Whole(Zipper(z.focus.(key := key, value := value), z.path));  // y.kv = item
        return;
      }
      ghost var ps, j := Pairs(root), InsertionPoint(comparer, Pairs(root), key);
      AttachFacts(comparer, z, key, value);
      ghost var clean := RedFree(root);
      var x := Node(Black, key, value, Nil, Nil);  // new Node(item, z)
      // linked as the child of `z` on the side the descent left (the second
      // comparison with `z`'s key takes the side the last step took)
      z := z.(focus := x);
      z := z.(focus := x.(color := Red));  // x.color = Red
      InsertFixup(z, clean);
      assert Pairs(root) == ps[..j] + [(key, value)] + ps[j..];
      assert |Pairs(root)| == |ps| + 1;
      count := count + 1;
      version := version + 1;
    }

    /** `InsertFixup(x)`: walks up from the red node `x` while its parent is
        red, recolouring or rotating as the colour of the uncle and the side
        of `x` say; on the way out the root is made black. The in-order walk
        is unchanged, and a tree whose only red node with a red child was
        `x` has none left. */
    method InsertFixup(x: Zipper<K, V>, ghost clean: bool)
      requires InsertInv(x, clean)
      modifies this`root
      ensures Pairs(root) == Pairs(Whole(x)) && IsBlack(root)
      ensures clean ==> RedFree(root)
    {
      var z := x;
      while ParentColor(z) == Red
        invariant InsertInv(z, clean) && Pairs(Whole(z)) == Pairs(Whole(x))
        decreases Depth(z.path)
      {
        RedParentNotRoot(z, clean);
        if z.path.up.frame.LeftOf? {  // x.parent == x.parent.parent.left
          var y := z.path.up.frame.sibling;  // x.parent.parent.right
          if IsRed(y) {
            RecolorKeeps(z, clean);
            z := SetParentColor(z, Black);
            z := SetUncleColor(z, Black);
            z := SetGrandparentColor(z, Red);
            z := Up(Up(z));  // x = x.parent.parent
          } else {
            if z.path.frame.RightOf? {  // x == x.parent.right
              InnerLeftKeeps(z, clean);
              z := Up(z);  // x = x.parent
              var rotated := LeftRotate(z);
              z := DownLeft(rotated.value);
            }
            OuterLeftKeeps(z, clean);
            z := SetParentColor(z, Black);
            z := SetGrandparentColor(z, Red);
            var rotated := RightRotate(Up(Up(z)));  // RightRotate(x.parent.parent)
            z := DownLeft(rotated.value);
          }
        } else {  // x.parent == x.parent.parent.right
          var y := z.path.up.frame.sibling;  // x.parent.parent.left
          if IsRed(y) {
            RecolorKeeps(z, clean);
            z := SetParentColor(z, Black);
            z := SetUncleColor(z, Black);
            z := SetGrandparentColor(z, Red);
            z := Up(Up(z));  // x = x.parent.parent
          } else {
            if z.path.frame.LeftOf? {  // x == x.parent.left
              InnerRightKeeps(z, clean);
              z := Up(z);  // x = x.parent
              var rotated := RightRotate(z);
              z := DownRight(rotated.value);
            }
            OuterRightKeeps(z, clean);
            z := SetParentColor(z, Black);
            z := SetGrandparentColor(z, Red);
            var rotated := LeftRotate(Up(Up(z)));  // LeftRotate(x.parent.parent)
            z := DownRight(rotated.value);
          }
        }
      }
      if clean {
        CtxRelax(z.path, true);
        PlugRedFree(z.focus, z.path);
      }
      if z.path.Step? {
        RootColorAbove(z.focus, z.focus, z.path);
      }
      var t := Whole(z);
      root := t.(color := Black);  // (root ?? throw).color = Black
    }

    /** `Inorder(forEach)`: the pairs handed to `forEach`, in the order of
        the calls, are the in-order walk of the tree, so every pair once and
        the keys ascending. */
    method Inorder() returns (visited: seq<(K, V)>)
      ensures visited == Pairs(root)
      ensures Ordered() ==> Ascending(comparer, visited)
    {
      visited := InorderWalk(root);
    }

    /** `Remove(key)`: the descent for `key`; a node whose key compares
        equal is deleted and `true` returned, otherwise `false` with nothing
        changed. A deletion that throws from inside `DeleteFixup` leaves
        the pair removed and the keys ascending, but `count` and `version`
        as they were. */
    method Remove(key: K) returns (r: Outcome<bool>)
      requires Valid()
      modifies this
      ensures var ps := old(Pairs(root)); var i := KeyIndex(comparer, ps, key);
        if i == -1 then
          r == Returned(false) && root == old(root) && count == old(count) && version == old(version)
        else
          Pairs(root) == ps[..i] + ps[i + 1..] && Ordered() && KeyIndex(comparer, Pairs(root), key) == -1 &&
          ((r == Returned(true) && count == old(count) - 1 && version == old(version) + 1) ||
           (r == Threw(UnexpectedError) && count == old(count) && version == old(version)))
      ensures r.Returned? ==> Valid()
    {
      var current := Locate(key);
      if current.focus.Nil? {
        AbsentAt(comparer, current, key);
        return Returned(false);
      }
      r := RemoveFound(current, key);
    }

    /** The found branch of `Remove`: `Delete` on the node whose key
        compares equal to `key`, then `true`. */
    method RemoveFound(current: Zipper<K, V>, key: K) returns (r: Outcome<bool>)
      requires Valid() && Whole(current) == root
      requires current.focus.Node? && comparer(key, current.focus.key) == 0
      modifies this
      ensures var ps := old(Pairs(root)); var i := KeyIndex(comparer, ps, key);
        i >= 0 && Pairs(root) == ps[..i] + ps[i + 1..] && Ordered() &&
        KeyIndex(comparer, Pairs(root), key) == -1
      ensures r == Returned(true) || r == Threw(UnexpectedError)
      ensures r.Returned? ==> Valid() && count == old(count) - 1 && version == old(version) + 1
      ensures r.Threw? ==> count == old(count) && version == old(version)
    {
      FoundCut(comparer, current, key);
      var deleted := Delete(current);
      if deleted.Threw? {
        return Threw(deleted.exception);
      }
      return Returned(true);
    }

    /** `Delete(z)`: the node `y` taken out is `z` itself when `z` lacks a
        child, otherwise its successor, whose pair `z` then takes; `y`'s
        only child `x` (or null) takes `y`'s place, and `DeleteFixup` runs
        from `x` when `y` was black. `z`'s pair leaves the in-order walk and
        the keys stay ascending (balance is not claimed). */
    method Delete(z: Zipper<K, V>) returns (r: Outcome<()>)
      requires Valid() && z.focus.Node? && Whole(z) == root
      modifies this
      ensures var ps := old(Pairs(root)); Pairs(root) == ps[..Index(z)] + ps[Index(z) + 1..]
      ensures Ordered()
      ensures r.Returned? ==> count == old(count) - 1 && version == old(version) + 1
      ensures r.Threw? ==> r.exception == UnexpectedError && count == old(count) && version == old(version)
    {
      ghost var ps := Pairs(root);
      var spliced, fix := Unlink(z);
      RemoveKeepsAscending(comparer, ps, Index(z));
      ghost var cut := ps[..Index(z)] + ps[Index(z) + 1..];
      root := Whole(spliced);
      if fix {
        r := DeleteFixup(spliced);
        assert Pairs(root) == cut && IsBlack(root);
        if r.Threw? {
          return;
        }
      } else {
        assert Pairs(root) == cut && !IsRed(root);
      }
      count := count - 1;
      version := version + 1;
      r := Returned(());
    }

    /** The unlinking of `Delete`: `y` is `z` when `z` lacks a child and
        otherwise its successor, whose pair `z` takes; `y`'s only child `x`
        (or null) takes `y`'s place. The result is `x` in the new tree, and
        whether `DeleteFixup` runs from it, which is when `y` was black and
        `x` is not null. */
    method Unlink(z: Zipper<K, V>) returns (spliced: Zipper<K, V>, fix: bool)
      requires z.focus.Node? && !IsRed(Whole(z))
      ensures var ps := Pairs(Whole(z)); Pairs(Whole(spliced)) == ps[..Index(z)] + ps[Index(z) + 1..]
      ensures fix ==> spliced.focus.Node? && RootOk(spliced)
      ensures !fix ==> !IsRed(Whole(spliced))
    {
      var y := z;
      var moved := false;  // y != z
      ghost var q: Path<K, V> := Top;
      if z.focus.left.Nil? || z.focus.right.Nil? {
        y := z;
      } else {
        var s;
        s, q := Successor(z);
        y := s.node;
        moved := true;
      }
      var x := if y.focus.left.Node? then y.focus.left else y.focus.right;
      // x.parent = y.parent, and x takes y's place under it (or as root)
      spliced := Zipper(x, y.path);
      if moved {
        SetAncestorPairConcat(q, DownRight(z).path.frame, z.path, y.focus.key, y.focus.value);
        // z.kv = y.kv
        spliced := spliced.(path := SetAncestorPair(spliced.path, Depth(y.path) - Depth(z.path) - 1,
                                                    y.focus.key, y.focus.value));
      }
      SplicePairs(z, y, q, moved, spliced);
      SpliceColor(z, y, q, moved, spliced);
      fix := y.focus.color == Black && x.Node?;
    }

    /** `DeleteFixup(x)`: walks up from the black node `x` while it is not
        the root, recolouring its sibling `w` and rotating as the colours
        of `w` and its children say, and finally makes `x` black. The
        in-order walk is unchanged and the root ends black. A pass of the
        loop is `FixupLeft` or `FixupRight`, by the side `x` hangs on. The
        rotations of `w` and of `x.parent` throw when the child they need is
        null; the tree is then left as the steps before the throw made it. */
    method DeleteFixup(x: Zipper<K, V>) returns (r: Outcome<()>)
      requires x.focus.Node? && RootOk(x)
      modifies this`root
      ensures Pairs(root) == Pairs(Whole(x)) && IsBlack(root)
      ensures r.Threw? ==> r.exception == UnexpectedError
    {
      var z := x;
      while z.path.Step? && IsBlack(z.focus)  // x != root && x.color == Black
        invariant z.focus.Node? && RootOk(z) && Pairs(Whole(z)) == Pairs(Whole(x))
        decreases Depth(z.path), if IsBlack(z.focus) then 1 else 0
      {
        var step := if z.path.frame.LeftOf? then FixupLeft(z) else FixupRight(z);
        if step.Stuck? {
          root := Whole(step.at);
          return Threw(UnexpectedError);
        }
        z := step.at;
      }
      z := SetFocus(z, z.focus.(color := Black));  // x.color = Black
      root := Whole(z);
      return Returned(());
    }

    /** `Successor(n)`: the node holding the next pair of the in-order
        walk, or `rootParent` when `n` holds the last one. With a right
        child it is the leftmost node below that child, reached along `q`. */
    method Successor(n: Zipper<K, V>) returns (p: Position<K, V>, ghost q: Path<K, V>)
      requires n.focus.Node?
      ensures p.AtNode? ==> p.node.focus.Node? && Whole(p.node) == Whole(n) && Index(p.node) == Index(n) + 1
      ensures p.AtRootParent? <==> Index(n) + 1 == |Pairs(Whole(n))|
      ensures n.focus.right.Node? ==>
        p.AtNode? && p.node.focus.left.Nil? && p.node.path == Concat(q, DownRight(n).path) &&
        Before(q) == [] && Plug(p.node.focus, q) == n.focus.right
    {
      q := Top;
      if n.focus.right.Node? {
        var m;
        m, q := MinValue(DownRight(n));
        return AtNode(m), q;
      }
      var c := n;  // `n` of the walk; its parent is `p`
      while c.path.Step? && c.path.frame.RightOf?  // p != rootParent && n == p.right
        invariant c.focus.Node? && Whole(c) == Whole(n)
        invariant |Before(c.path)| + |Pairs(c.focus)| == Index(n) + 1
        decreases Depth(c.path)
      {
        c := Up(c);  // n = p; p = p.parent
      }
      if c.path.Top? {
        return AtRootParent, q;
      }
      return AtNode(Up(c)), q;
    }

    /** `MinValue(node)`: the leftmost node below `node`, reached along
        `q`; it holds the first pair of `node`'s subtree. */
    method MinValue(node: Zipper<K, V>) returns (r: Zipper<K, V>, ghost q: Path<K, V>)
      requires node.focus.Node?
      ensures r.focus.Node? && r.focus.left.Nil? && Whole(r) == Whole(node)
      ensures r.path == Concat(q, node.path) && Before(q) == [] && Plug(r.focus, q) == node.focus
      ensures Index(r) == |Before(node.path)| && Pairs(node.focus)[0] == (r.focus.key, r.focus.value)
    {
      r, q := node, Top;
      while r.focus.left.Node?
        invariant r.focus.Node? && r.path == Concat(q, node.path) && Before(q) == []
        invariant Plug(r.focus, q) == node.focus
        decreases r.focus
      {
        q := Step(LeftOf(r.focus.color, r.focus.key, r.focus.value, r.focus.right), q);
        r := DownLeft(r);  // current = current.left
      }
      PlugConcat(r.focus, q, node.path);
      ConcatAround(q, node.path);
      PlugPairs(r.focus, q);
    }
  }

  /** `Remove(4)` on the tree 3B(·, 4B(·, 5B(·, 9R))), which the sequence
      Add 1, 11, 4, 5; Remove 1; Add 3, 1, 10, 9; Remove 11, 1, 10 leaves.
      Node 4 has no left child, so `Delete` splices it out itself and its
      right child 5 takes its place; 4 was black and 5 is not null, so
      `DeleteFixup(5)` runs. Its first pass finds no sibling under 3, and
      the rotation of 3 throws: the pair of 4 is gone from the tree, while
      `count` still counts it. */
  lemma StrandedFixupScenario()
    ensures var z := Zipper(Node(Black, 4, 0, Nil, Node(Black, 5, 0, Nil, Node(Red, 9, 0, Nil, Nil))),
                            Step(RightOf(Black, 3, 0, Nil), Top));
      var x := Zipper(z.focus.right, z.path);
      Pairs(Whole(z)) == [(3, 0), (4, 0), (5, 0), (9, 0)] && z.focus.left.Nil? &&
      IsBlack(z.focus) && x.focus.Node? && IsBlack(x.focus) && x.path.frame.RightOf? &&
      IsBlack(Whole(x)) &&
      !BlackBalanced(Whole(z)) && !DoubleBlack(x) &&
      FixupRight(x).Stuck? && Pairs(Whole(FixupRight(x).at)) == [(3, 0), (5, 0), (9, 0)]
  {
  }

  /** How a tree loses its black balance: Add 2, 1, 3, 4 and Remove 4
      leave 2B(1B, 3B); `Remove(1)` takes out the black leaf 1, whose child
      `x` is null, so `Delete` skips `DeleteFixup` and the two sides of 2
      no longer have the same number of black nodes. */
  lemma SkippedFixupScenario()
    ensures var z := Zipper(Node(Black, 1, 0, Nil, Nil), Step(LeftOf(Black, 2, 0, Node(Black, 3, 0, Nil, Nil)), Top));
      var x := Zipper(z.focus.right, z.path);
      BlackBalanced(Whole(z)) && IsBlack(z.focus) && x.focus.Nil? &&
      Pairs(Whole(x)) == [(2, 0), (3, 0)] && !BlackBalanced(Whole(x))
  {
  }
}
