/** The steps of `InsertFixup` and `DeleteFixup` on a zipper: the two
    rotations, the colour changes of the parent, grandparent and sibling of
    `x`, and what each keeps of the tree. */
module RedBlackFixups {
  import opened Common
  import opened RedBlackTrees
  import opened TreeZippers

  /** `x.parent.color`, where `rootParent` is black. */
  function ParentColor<K, V>(z: Zipper<K, V>): Color
  {
    if z.path.Top? then Black else z.path.frame.color
  }

  /** The root is black, unless `x` is the root. */
  predicate RootOk<K, V>(z: Zipper<K, V>)
  {
    z.path.Top? || IsBlack(Whole(z))
  }

  /** `LeftRotate(x)`: `Unexpected error` when `x.right` is null; otherwise
      `x.right` takes the place of `x` under the same ancestors and the
      in-order walk is unchanged. */
  function LeftRotate<K, V>(z: Zipper<K, V>): (r: Outcome<Zipper<K, V>>)
    requires z.focus.Node?
    ensures r.Threw? <==> z.focus.right.Nil?
    ensures r.Threw? ==> r.exception == UnexpectedError
    ensures r.Returned? ==> r.value.path == z.path && r.value.focus == RotateLeft(z.focus)
    ensures r.Returned? ==> Pairs(Whole(r.value)) == Pairs(Whole(z))
    ensures r.Returned? && z.path.Step? ==> IsBlack(Whole(r.value)) == IsBlack(Whole(z))
  {
    if z.focus.right.Nil? then Threw(UnexpectedError)
    else
      var y := RotateLeft(z.focus);
      PlugSamePairs(z.focus, y, z.path);
      if z.path.Step? then RootColorAbove(z.focus, y, z.path); Returned(Zipper(y, z.path))
      else Returned(Zipper(y, z.path))
  }

  /** `RightRotate(x)`, the mirror image. */
  function RightRotate<K, V>(z: Zipper<K, V>): (r: Outcome<Zipper<K, V>>)
    requires z.focus.Node?
    ensures r.Threw? <==> z.focus.left.Nil?
    ensures r.Threw? ==> r.exception == UnexpectedError
    ensures r.Returned? ==> r.value.path == z.path && r.value.focus == RotateRight(z.focus)
    ensures r.Returned? ==> Pairs(Whole(r.value)) == Pairs(Whole(z))
    ensures r.Returned? && z.path.Step? ==> IsBlack(Whole(r.value)) == IsBlack(Whole(z))
  {
    if z.focus.left.Nil? then Threw(UnexpectedError)
    else
      var y := RotateRight(z.focus);
      PlugSamePairs(z.focus, y, z.path);
      if z.path.Step? then RootColorAbove(z.focus, y, z.path); Returned(Zipper(y, z.path))
      else Returned(Zipper(y, z.path))
  }

  /** `x.parent.color = c`: the in-order walk is unchanged, and so is the
      root's colour unless the parent is the root. */
  function SetParentColor<K, V>(z: Zipper<K, V>, c: Color): (r: Zipper<K, V>)
    requires z.path.Step?
    ensures r.focus == z.focus && r.path.Step? && r.path.up == z.path.up
    ensures r.path.frame == z.path.frame.(color := c)
    ensures Pairs(Whole(r)) == Pairs(Whole(z))
    ensures z.path.up.Step? ==> IsBlack(Whole(r)) == IsBlack(Whole(z))
    ensures z.path.up.Top? ==> IsBlack(Whole(r)) == (c == Black)
  {
    var f := z.path.frame;
    var f' := f.(color := c);
    PlugSamePairs(Attach(z.focus, f), Attach(z.focus, f'), z.path.up);
    if z.path.up.Step? then
      RootColorAbove(Attach(z.focus, f), Attach(z.focus, f'), z.path.up);
      Zipper(z.focus, Step(f', z.path.up))
    else Zipper(z.focus, Step(f', z.path.up))
  }

  /** A change of the child on the other side of `x.parent` (the sibling
      `w`, or the uncle of `x`'s child) to a subtree with the same pairs:
      the in-order walk and the root's colour are unchanged. */
  function SetSibling<K, V>(z: Zipper<K, V>, s: Tree<K, V>): (r: Zipper<K, V>)
    requires z.path.Step? && Pairs(s) == Pairs(z.path.frame.sibling)
    ensures r.focus == z.focus && r.path.Step? && r.path.up == z.path.up
    ensures r.path.frame == z.path.frame.(sibling := s)
    ensures Pairs(Whole(r)) == Pairs(Whole(z))
    ensures IsBlack(Whole(r)) == IsBlack(Whole(z))
  {
    var f := z.path.frame;
    var f' := f.(sibling := s);
    PlugSamePairs(Attach(z.focus, f), Attach(z.focus, f'), z.path.up);
    if z.path.up.Step? then
      RootColorAbove(Attach(z.focus, f), Attach(z.focus, f'), z.path.up);
      Zipper(z.focus, Step(f', z.path.up))
    else Zipper(z.focus, Step(f', z.path.up))
  }

  /** `x.parent.parent.color = c`. */
  function SetGrandparentColor<K, V>(z: Zipper<K, V>, c: Color): (r: Zipper<K, V>)
    requires z.path.Step? && z.path.up.Step?
    ensures r.focus == z.focus && r.path.Step? && r.path.frame == z.path.frame
    ensures r.path.up.Step? && r.path.up.up == z.path.up.up
    ensures r.path.up.frame == z.path.up.frame.(color := c)
    ensures Pairs(Whole(r)) == Pairs(Whole(z))
    ensures z.path.up.up.Step? ==> IsBlack(Whole(r)) == IsBlack(Whole(z))
    ensures z.path.up.up.Top? ==> IsBlack(Whole(r)) == (c == Black)
  {
    var p := SetParentColor(Up(z), c);
    Zipper(z.focus, Step(z.path.frame, p.path))
  }

  /** `y.color = c` for the uncle `y`, the other child of `x.parent.parent`. */
  function SetUncleColor<K, V>(z: Zipper<K, V>, c: Color): (r: Zipper<K, V>)
    requires z.path.Step? && z.path.up.Step? && z.path.up.frame.sibling.Node?
    ensures r.focus == z.focus && r.path.Step? && r.path.frame == z.path.frame
    ensures r.path.up.Step? && r.path.up.up == z.path.up.up
    ensures r.path.up.frame == z.path.up.frame.(sibling := z.path.up.frame.sibling.(color := c))
    ensures Pairs(Whole(r)) == Pairs(Whole(z))
    ensures IsBlack(Whole(r)) == IsBlack(Whole(z))
  {
    var u := z.path.up.frame.sibling;
    var p := SetSibling(Up(z), u.(color := c));
    Zipper(z.focus, Step(z.path.frame, p.path))
  }

  /** What `InsertFixup` keeps at the head of its loop: `x` is a red node,
      the root is black unless `x` is the root, and, for a tree that had no
      red node with a red child, the only such pair left is `x` under a red
      parent. */
  ghost predicate InsertInv<K, V>(z: Zipper<K, V>, clean: bool)
  {
    IsRed(z.focus) && RootOk(z) &&
    (clean ==> RedFree(z.focus) && CtxFree(z.path, true, true))
  }

  /** A red parent is not the root, so `x` has a grandparent. */
  lemma RedParentNotRoot<K, V>(z: Zipper<K, V>, clean: bool)
    requires InsertInv(z, clean) && ParentColor(z) == Red
    ensures z.path.Step? && z.path.up.Step?
  {
    assert z.path.up.Top? ==> Whole(z) == Plug(Attach(z.focus, z.path.frame), Top);
  }

  /** Below a red parent the context can always allow a red child; below a
      black one, or none, the allowance is not needed. */
  lemma CtxRelax<K, V>(p: Path<K, V>, redBelow: bool)
    ensures CtxFree(p, redBelow, false) ==> CtxFree(p, true, true)
    ensures CtxFree(p, true, true) && (p.Top? || p.frame.color == Black) ==> CtxFree(p, true, false)
  {
  }

  /** The uncle is red: parent and uncle become black, the grandparent red,
      and `x` moves up to the grandparent. */
  lemma RecolorKeeps<K, V>(z: Zipper<K, V>, clean: bool)
    requires InsertInv(z, clean) && ParentColor(z) == Red
    requires z.path.up.Step? && IsRed(z.path.up.frame.sibling)
    ensures var r := Up(Up(SetGrandparentColor(SetUncleColor(SetParentColor(z, Black), Black), Red)));
      InsertInv(r, clean) && Pairs(Whole(r)) == Pairs(Whole(z)) && Depth(r.path) + 2 == Depth(z.path)
  {
    var z1 := SetParentColor(z, Black);
    var z2 := SetUncleColor(z1, Black);
    var z3 := SetGrandparentColor(z2, Red);
    var r := Up(Up(z3));
    var up := z.path.up.up;
    if up.Step? {
      RootColorAbove(r.focus, Up(Up(z)).focus, up);
    }
    if clean {
      var pf, gf := z.path.frame, z.path.up.frame;
      assert CtxFree(z.path.up, true, false);
      assert gf.color == Black;
      CtxRelax(up, false);
      var u := gf.sibling;
      assert RedFree(u.(color := Black)) && !IsRed(u.(color := Black));
      assert RedFree(Attach(z.focus, pf.(color := Black)));
    }
  }

  /** `x` is the inner child (`x == x.parent.right` under a left parent):
      `x` moves up to the parent, which is rotated left and so becomes the
      outer, left, child of what was `x`. */
  lemma InnerLeftKeeps<K, V>(z: Zipper<K, V>, clean: bool)
    requires InsertInv(z, clean) && ParentColor(z) == Red
    requires z.path.up.Step? && z.path.up.frame.LeftOf? && z.path.frame.RightOf?
    ensures Up(z).focus.right.Nil? == false
    ensures var r := DownLeft(LeftRotate(Up(z)).value);
      InsertInv(r, clean) && Pairs(Whole(r)) == Pairs(Whole(z)) && Depth(r.path) == Depth(z.path) &&
      ParentColor(r) == Red && r.path.up == z.path.up && r.path.frame.LeftOf?
  {
    var y := LeftRotate(Up(z)).value;
    var r := DownLeft(y);
    RootColorAbove(y.focus, Up(z).focus, z.path.up);
  }

  /** The mirror image: `x == x.parent.left` under a right parent. */
  lemma InnerRightKeeps<K, V>(z: Zipper<K, V>, clean: bool)
    requires InsertInv(z, clean) && ParentColor(z) == Red
    requires z.path.up.Step? && z.path.up.frame.RightOf? && z.path.frame.LeftOf?
    ensures Up(z).focus.left.Nil? == false
    ensures var r := DownRight(RightRotate(Up(z)).value);
      InsertInv(r, clean) && Pairs(Whole(r)) == Pairs(Whole(z)) && Depth(r.path) == Depth(z.path) &&
      ParentColor(r) == Red && r.path.up == z.path.up && r.path.frame.RightOf?
  {
    var y := RightRotate(Up(z)).value;
    var r := DownRight(y);
    RootColorAbove(y.focus, Up(z).focus, z.path.up);
  }

  /** `x` is the outer child under a left parent and its uncle is not red:
      the parent becomes black, the grandparent red and is rotated right, so
      the parent takes the grandparent's place with `x` as its left child. */
  lemma OuterLeftKeeps<K, V>(z: Zipper<K, V>, clean: bool)
    requires InsertInv(z, clean) && ParentColor(z) == Red
    requires z.path.up.Step? && z.path.up.frame.LeftOf? && z.path.frame.LeftOf?
    requires !IsRed(z.path.up.frame.sibling)
    ensures var g := Up(Up(SetGrandparentColor(SetParentColor(z, Black), Red)));
      g.focus.left.Node? &&
      var r := DownLeft(RightRotate(g).value);
      InsertInv(r, clean) && Pairs(Whole(r)) == Pairs(Whole(z)) && Depth(r.path) + 1 == Depth(z.path) &&
      ParentColor(r) == Black
  {
    var g := Up(Up(SetGrandparentColor(SetParentColor(z, Black), Red)));
    var y := RightRotate(g).value;
    var r := DownLeft(y);
    var up := z.path.up.up;
    if up.Step? {
      RootColorAbove(y.focus, Up(Up(z)).focus, up);
    }
    if clean {
      assert CtxFree(z.path.up, true, false);
      assert z.path.up.frame.color == Black;
      CtxRelax(up, false);
    }
  }

  /** The mirror image: the outer child under a right parent. */
  lemma OuterRightKeeps<K, V>(z: Zipper<K, V>, clean: bool)
    requires InsertInv(z, clean) && ParentColor(z) == Red
    requires z.path.up.Step? && z.path.up.frame.RightOf? && z.path.frame.RightOf?
    requires !IsRed(z.path.up.frame.sibling)
    ensures var g := Up(Up(SetGrandparentColor(SetParentColor(z, Black), Red)));
      g.focus.right.Node? &&
      var r := DownRight(LeftRotate(g).value);
      InsertInv(r, clean) && Pairs(Whole(r)) == Pairs(Whole(z)) && Depth(r.path) + 1 == Depth(z.path) &&
      ParentColor(r) == Black
  {
    var g := Up(Up(SetGrandparentColor(SetParentColor(z, Black), Red)));
    var y := LeftRotate(g).value;
    var r := DownRight(y);
    var up := z.path.up.up;
    if up.Step? {
      RootColorAbove(y.focus, Up(Up(z)).focus, up);
    }
    if clean {
      assert CtxFree(z.path.up, true, false);
      assert z.path.up.frame.color == Black;
      CtxRelax(up, false);
    }
  }

  /** A step of `DeleteFixup` that ends with a rotation: the tree it left,
      or, when the rotation threw `Unexpected error`, the tree as the steps
      before the throw left it. */
  datatype Attempt<K, V> = Went(at: Zipper<K, V>) | Stuck(at: Zipper<K, V>)

  /** Case 1 under a left parent, the sibling `w` red: `w` becomes black,
      `x.parent` red and is rotated left, so `x` is one level deeper under
      the same, now red, parent and has a new sibling. */
  function RedSiblingLeft<K, V>(z: Zipper<K, V>): (r: Zipper<K, V>)
    requires z.focus.Node? && z.path.Step? && z.path.frame.LeftOf? && IsBlack(Whole(z))
    requires IsRed(z.path.frame.sibling)
    ensures r.focus == z.focus && r.path.Step? && r.path.frame.LeftOf? && r.path.frame.color == Red
    ensures r.path.frame.sibling == z.path.frame.sibling.left
    ensures Depth(r.path) == Depth(z.path) + 1
    ensures Pairs(Whole(r)) == Pairs(Whole(z)) && IsBlack(Whole(r))
  {
    var w := Sibling(z);
    var w1 := SetFocus(w, w.focus.(color := Black));  // w.color = Black
    var p := SetParentColor(Sibling(w1), Red);  // x.parent.color = Red
    var rotated := LeftRotate(Up(p));  // LeftRotate(x.parent)
    DownLeft(DownLeft(rotated.value))
  }

  /** Case 1 under a right parent, the mirror image. */
  function RedSiblingRight<K, V>(z: Zipper<K, V>): (r: Zipper<K, V>)
    requires z.focus.Node? && z.path.Step? && z.path.frame.RightOf? && IsBlack(Whole(z))
    requires IsRed(z.path.frame.sibling)
    ensures r.focus == z.focus && r.path.Step? && r.path.frame.RightOf? && r.path.frame.color == Red
    ensures r.path.frame.sibling == z.path.frame.sibling.right
    ensures Depth(r.path) == Depth(z.path) + 1
    ensures Pairs(Whole(r)) == Pairs(Whole(z)) && IsBlack(Whole(r))
  {
    var w := Sibling(z);
    var w1 := SetFocus(w, w.focus.(color := Black));  // w.color = Black
    var p := SetParentColor(Sibling(w1), Red);  // x.parent.color = Red
    var rotated := RightRotate(Up(p));  // RightRotate(x.parent)
    DownRight(DownRight(rotated.value))
  }

  /** Case 2, the sibling `w` present: `w` becomes red and `x` moves up to
      its parent, whose colour it now has. */
  function RecolorSibling<K, V>(z: Zipper<K, V>): (r: Zipper<K, V>)
    requires z.focus.Node? && z.path.Step? && IsBlack(Whole(z)) && z.path.frame.sibling.Node?
    ensures r.focus.Node? && r.focus.color == z.path.frame.color
    ensures Depth(r.path) + 1 == Depth(z.path)
    ensures Pairs(Whole(r)) == Pairs(Whole(z)) && RootOk(r)
  {
    var w := Sibling(z);
    Up(Sibling(SetFocus(w, w.focus.(color := Red))))  // w.color = Red; x = x.parent
  }

  /** Case 3 under a left parent: `w.left`, if any, becomes black, `w` red,
      and `w` is rotated right, which throws when `w.left` is null. */
  function FarNephewBlackLeft<K, V>(z: Zipper<K, V>): (r: Attempt<K, V>)
    requires z.focus.Node? && z.path.Step? && z.path.frame.LeftOf? && IsBlack(Whole(z))
    requires z.path.frame.sibling.Node?
    ensures r.Stuck? <==> z.path.frame.sibling.left.Nil?
    ensures Pairs(Whole(r.at)) == Pairs(Whole(z)) && IsBlack(Whole(r.at))
    ensures r.Went? ==>
      r.at.focus == z.focus && r.at.path.Step? && r.at.path.frame.LeftOf? &&
      r.at.path.frame.sibling.Node?
  {
    var w := Sibling(z);
    var w1 := if w.focus.left.Node? then SetFocus(w, w.focus.(left := w.focus.left.(color := Black))) else w;
    var w2 := SetFocus(w1, w1.focus.(color := Red));  // w.color = Red
    var rotated := RightRotate(w2);  // RightRotate(w)
    if rotated.Threw? then Stuck(w2) else Went(Sibling(rotated.value))  // w = x.parent.right
  }

  /** Case 3 under a right parent, the mirror image. */
  function FarNephewBlackRight<K, V>(z: Zipper<K, V>): (r: Attempt<K, V>)
    requires z.focus.Node? && z.path.Step? && z.path.frame.RightOf? && IsBlack(Whole(z))
    requires z.path.frame.sibling.Node?
    ensures r.Stuck? <==> z.path.frame.sibling.right.Nil?
    ensures Pairs(Whole(r.at)) == Pairs(Whole(z)) && IsBlack(Whole(r.at))
    ensures r.Went? ==>
      r.at.focus == z.focus && r.at.path.Step? && r.at.path.frame.RightOf? &&
      r.at.path.frame.sibling.Node?
  {
    var w := Sibling(z);
    var w1 := if w.focus.right.Node? then SetFocus(w, w.focus.(right := w.focus.right.(color := Black))) else w;
    var w2 := SetFocus(w1, w1.focus.(color := Red));  // w.color = Red
    var rotated := LeftRotate(w2);  // LeftRotate(w)
    if rotated.Threw? then Stuck(w2) else Went(Sibling(rotated.value))  // w = x.parent.left
  }

  /** Case 4 under a left parent: `w` takes the parent's colour, the
      parent and `w.right` become black, the parent is rotated left, which
      throws when `w` is null, and `x` becomes the root. */
  function RotateParentLeft<K, V>(z: Zipper<K, V>): (r: Attempt<K, V>)
    requires z.focus.Node? && z.path.Step? && z.path.frame.LeftOf? && IsBlack(Whole(z))
    ensures r.Stuck? <==> z.path.frame.sibling.Nil?
    ensures Pairs(Whole(r.at)) == Pairs(Whole(z))
    ensures r.Stuck? ==> IsBlack(Whole(r.at))
    ensures r.Went? ==> r.at.path.Top? && r.at.focus.Node?
  {
    var w := Sibling(z);
    var w1 := if w.focus.Node? then SetFocus(w, w.focus.(color := ParentColor(w))) else w;
    var p := SetParentColor(Sibling(w1), Black);  // x.parent.color = Black
    var w2 := Sibling(p);
    var w3 := if w2.focus.Node? && w2.focus.right.Node? then
      SetFocus(w2, w2.focus.(right := w2.focus.right.(color := Black)))  // w.right.color = Black
    else w2;
    var rotated := LeftRotate(Up(Sibling(w3)));  // LeftRotate(x.parent)
    if rotated.Threw? then Stuck(Sibling(w3))
    else
      var t := rotated.value;
      if t.path.Step? then RootColorAbove(t.focus, t.focus, t.path); Went(Zipper(Whole(t), Top))  // x = root
      else Went(Zipper(Whole(t), Top))
  }

  /** Case 4 under a right parent, the mirror image. */
  function RotateParentRight<K, V>(z: Zipper<K, V>): (r: Attempt<K, V>)
    requires z.focus.Node? && z.path.Step? && z.path.frame.RightOf? && IsBlack(Whole(z))
    ensures r.Stuck? <==> z.path.frame.sibling.Nil?
    ensures Pairs(Whole(r.at)) == Pairs(Whole(z))
    ensures r.Stuck? ==> IsBlack(Whole(r.at))
    ensures r.Went? ==> r.at.path.Top? && r.at.focus.Node?
  {
    var w := Sibling(z);
    var w1 := if w.focus.Node? then SetFocus(w, w.focus.(color := ParentColor(w))) else w;
    var p := SetParentColor(Sibling(w1), Black);  // x.parent.color = Black
    var w2 := Sibling(p);
    var w3 := if w2.focus.Node? && w2.focus.left.Node? then
      SetFocus(w2, w2.focus.(left := w2.focus.left.(color := Black)))  // w.left.color = Black
    else w2;
    var rotated := RightRotate(Up(Sibling(w3)));  // RightRotate(x.parent)
    if rotated.Threw? then Stuck(Sibling(w3))
    else
      var t := rotated.value;
      if t.path.Step? then RootColorAbove(t.focus, t.focus, t.path); Went(Zipper(Whole(t), Top))  // x = root
      else Went(Zipper(Whole(t), Top))
  }

  /** After a pass of `DeleteFixup`'s loop `x` is a node, the root is black
      unless `x` is the root, and `x` is higher up or, at the same depth,
      no longer black: the loop cannot run forever. */
  predicate Progress<K, V>(z: Zipper<K, V>, z': Zipper<K, V>)
  {
    z'.focus.Node? && RootOk(z') &&
    (Depth(z'.path) < Depth(z.path) || (Depth(z'.path) == Depth(z.path) && !IsBlack(z'.focus)))
  }

  /** One pass of `DeleteFixup`'s loop for a black `x` that is a left
      child: case 1 when the sibling is red, then case 2 when the sibling
      has two black (non-null) children, otherwise case 3 when its right
      child is black, and then case 4. `Stuck` is the state in which a
      rotation threw. */
  function FixupLeft<K, V>(z: Zipper<K, V>): (r: Attempt<K, V>)
    requires z.focus.Node? && z.path.Step? && z.path.frame.LeftOf? && IsBlack(Whole(z))
    ensures Pairs(Whole(r.at)) == Pairs(Whole(z))
    ensures r.Stuck? ==> IsBlack(Whole(r.at))
    ensures r.Went? ==> Progress(z, r.at)
  {
    var z1 := if IsRed(z.path.frame.sibling) then RedSiblingLeft(z) else z;
    var w := z1.path.frame.sibling;  // w = x.parent.right
    if w.Node? && IsBlack(w.left) && IsBlack(w.right) then Went(RecolorSibling(z1))
    else
      var step := if w.Node? && IsBlack(w.right) then FarNephewBlackLeft(z1) else Went(z1);
      if step.Stuck? then step else RotateParentLeft(step.at)
  }

  /** The pass for a black `x` that is a right child, the mirror image. */
  function FixupRight<K, V>(z: Zipper<K, V>): (r: Attempt<K, V>)
    requires z.focus.Node? && z.path.Step? && z.path.frame.RightOf? && IsBlack(Whole(z))
    ensures Pairs(Whole(r.at)) == Pairs(Whole(z))
    ensures r.Stuck? ==> IsBlack(Whole(r.at))
    ensures r.Went? ==> Progress(z, r.at)
  {
    var z1 := if IsRed(z.path.frame.sibling) then RedSiblingRight(z) else z;
    var w := z1.path.frame.sibling;  // w = x.parent.left
    if w.Node? && IsBlack(w.left) && IsBlack(w.right) then Went(RecolorSibling(z1))
    else
      var step := if w.Node? && IsBlack(w.left) then FarNephewBlackRight(z1) else Went(z1);
      if step.Stuck? then step else RotateParentRight(step.at)
  }

  /** A black, non-null `x` whose sibling's side has one black node more
      than `x`'s: the state case 2 leads to when it moves a one-black-short
      `x` up to a black parent. */
  predicate DoubleBlack<K, V>(z: Zipper<K, V>)
    requires z.path.Step?
  {
    IsBlack(z.focus) && BlackBalanced(z.path.frame.sibling) &&
    BlackHeight(z.path.frame.sibling) == BlackHeight(z.focus) + 1
  }

  /** A black-balanced tree of black height at least one is a node whose
      children are black-balanced, of equal height, at most one lower. */
  lemma Tall<K, V>(t: Tree<K, V>)
    requires BlackBalanced(t) && BlackHeight(t) >= 1
    ensures t.Node? && BlackBalanced(t.left) && BlackBalanced(t.right)
    ensures BlackHeight(t.left) == BlackHeight(t.right) >= BlackHeight(t) - 1
    ensures IsRed(t) ==> BlackHeight(t.left) == BlackHeight(t)
  {
  }

  /** From that state a pass of the fixup with `x` a left child cannot
      throw: the sibling, and after case 1 the new sibling, is a node with
      two children, so each rotation finds the child it needs. */
  lemma DoubleBlackLeftGoes<K, V>(z: Zipper<K, V>)
    requires z.focus.Node? && z.path.Step? && z.path.frame.LeftOf? && IsBlack(Whole(z))
    requires DoubleBlack(z)
    ensures FixupLeft(z).Went?
  {
    var w := z.path.frame.sibling;
    Tall(w);
    if IsRed(w) {
      Tall(w.left);
    } else {
      Tall(w.right);
    }
  }

  /** The mirror image, with `x` a right child. */
  lemma DoubleBlackRightGoes<K, V>(z: Zipper<K, V>)
    requires z.focus.Node? && z.path.Step? && z.path.frame.RightOf? && IsBlack(Whole(z))
    requires DoubleBlack(z)
    ensures FixupRight(z).Went?
  {
    var w := z.path.frame.sibling;
    Tall(w);
    if IsRed(w) {
      Tall(w.right);
    } else {
      Tall(w.left);
    }
  }
}
