/** The fix-up cases of insertion and deletion (rbtree.c), as functions on a shape with a hole, and what they keep. */
module RbFix {
  import opened RbShape

  // ---------- insertion ----------

  function Fix1(z: Zip, t: Shape): Shape
    requires RootBlackZip(z) && t.T?
    decreases z, 1
  {
    if z.Top? then Paint(t, Black)
    else if z.c == Black then Plug(z, t)
    else Fix3(z, t)
  }

  function Fix3(z: Zip, t: Shape): Shape
    requires RootBlackZip(z) && !z.Top? && z.c != Black && t.T?
    decreases z, 0
  {
    assert RootBlackZip(z.up);
    if IsRed(Uncle(z)) then Fix1(z.up.up, Recolored(z, t)) else Fix4(z, t)
  }

  function Uncle(z: Zip): Shape
    requires !z.Top? && !z.up.Top?
  {
    if z.up.InLeft? then z.up.r else z.up.l
  }

  /** Parent and uncle of the hole turn black, the grandparent red. */
  function Recolored(z: Zip, t: Shape): Shape
    requires !z.Top? && !z.up.Top?
  {
    var p := Fill(z, Black, t);
    if z.up.InLeft? then T(p, Red, z.up.e, Paint(z.up.r, Black)) else T(Paint(z.up.l, Black), Red, z.up.e, p)
  }

  /** The parent of the hole, in color c, with t in the hole. */
  function Fill(z: Zip, c: Color, t: Shape): Shape
    requires !z.Top?
  {
    if z.InLeft? then T(t, c, z.e, z.r) else T(z.l, c, z.e, t)
  }

  function Fix4(z: Zip, t: Shape): Shape
    requires !z.Top? && !z.up.Top? && t.T?
  {
    if z.InRight? && z.up.InLeft? then Fix5(InLeft(z.up, t.c, t.e, t.r), T(z.l, z.c, z.e, t.l))
    else if z.InLeft? && z.up.InRight? then Fix5(InRight(z.up, t.l, t.c, t.e), T(t.r, z.c, z.e, z.r))
    else Fix5(z, t)
  }

  function Fix5(z: Zip, t: Shape): Shape
    requires !z.Top? && !z.up.Top? && z.InLeft? == z.up.InLeft?
  {
    if z.InLeft? then Plug(z.up.up, T(t, Black, z.e, T(z.r, Red, z.up.e, z.up.r)))
    else Plug(z.up.up, T(T(z.up.l, Red, z.up.e, z.l), Black, z.e, t))
  }

  lemma {:induction false} Fix5InOrder(z: Zip, t: Shape)
    requires !z.Top? && !z.up.Top? && z.InLeft? == z.up.InLeft?
    ensures InOrder(Fix5(z, t)) == InOrder(Plug(z, t))
  {
    if z.InLeft? {
      RotationInOrder(t, z.e, z.r, z.up.e, z.up.r, z.c, z.up.c, Black, Red);
      SameInOrder(z.up.up, T(t, Black, z.e, T(z.r, Red, z.up.e, z.up.r)),
                  T(T(t, z.c, z.e, z.r), z.up.c, z.up.e, z.up.r));
    } else {
      RotationInOrder(z.up.l, z.up.e, z.l, z.e, t, Red, Black, z.up.c, z.c);
      SameInOrder(z.up.up, T(T(z.up.l, Red, z.up.e, z.l), Black, z.e, t),
                  T(z.up.l, z.up.c, z.up.e, T(z.l, z.c, z.e, t)));
    }
  }

  lemma {:induction false} Fix4InOrder(z: Zip, t: Shape)
    requires !z.Top? && !z.up.Top? && t.T?
    ensures InOrder(Fix4(z, t)) == InOrder(Plug(z, t))
  {
    if z.InRight? && z.up.InLeft? {
      var q, s := InLeft(z.up, t.c, t.e, t.r), T(z.l, z.c, z.e, t.l);
      Fix5InOrder(q, s);
      RotationInOrder(z.l, z.e, t.l, t.e, t.r, z.c, t.c, z.c, t.c);
      SameInOrder(z.up, T(s, t.c, t.e, t.r), T(z.l, z.c, z.e, t));
    } else if z.InLeft? && z.up.InRight? {
      var q, s := InRight(z.up, t.l, t.c, t.e), T(t.r, z.c, z.e, z.r);
      Fix5InOrder(q, s);
      RotationInOrder(t.l, t.e, t.r, z.e, z.r, t.c, z.c, t.c, z.c);
      SameInOrder(z.up, T(t.l, t.c, t.e, s), T(t, z.c, z.e, z.r));
    } else {
      Fix5InOrder(z, t);
    }
  }

  /** Shapes with the same entries in order are exchangeable in a hole. */
  lemma SameInOrder(z: Zip, s: Shape, t: Shape)
    requires InOrder(s) == InOrder(t)
    ensures InOrder(Plug(z, s)) == InOrder(Plug(z, t))
  {
    InOrderPlug(z, s);
    InOrderPlug(z, t);
  }

  /** Fixing up after an insertion moves no entry. */
  lemma {:induction false} Fix1InOrder(z: Zip, t: Shape)
    requires RootBlackZip(z) && t.T?
    ensures InOrder(Fix1(z, t)) == InOrder(Plug(z, t))
    decreases z
  {
    if !z.Top? && z.c != Black {
      if IsRed(Uncle(z)) {
        var s := Recolored(z, t);
        Fix1InOrder(z.up.up, s);
        SameInOrder(z.up.up, s, Fill(z.up, z.up.c, Fill(z, z.c, t)));
      } else {
        Fix4InOrder(z, t);
      }
    }
  }

  /** Fixing up after an insertion restores the colors: at most the filling and its parent were both red. */
  lemma {:induction false} Fix1Colored(z: Zip, t: Shape)
    requires RootBlackZip(z) && IsRed(t) && NoRedRed(t) && NoRedRedZip(z, false)
    ensures Colored(Fix1(z, t))
    decreases z
  {
    if z.Top? {
    } else if z.c == Black {
      NoRedRedPlug(z, t);
      RootBlackPlug(z, t);
    } else if IsRed(Uncle(z)) {
      Fix1Colored(z.up.up, Recolored(z, t));
    } else {
      Fix4Colored(z, t);
    }
  }

  lemma {:induction false} Fix4Colored(z: Zip, t: Shape)
    requires RootBlackZip(z) && IsRed(t) && NoRedRed(t) && NoRedRedZip(z, false) && !z.Top? && z.c == Red
    requires !IsRed(Uncle(z))
    ensures Colored(Fix4(z, t))
  {
    var s: Shape :=
      if z.InRight? && z.up.InLeft? then T(T(z.l, z.c, z.e, t.l), Black, t.e, T(t.r, Red, z.up.e, z.up.r))
      else if z.InLeft? && z.up.InRight? then T(T(z.up.l, Red, z.up.e, t.l), Black, t.e, T(t.r, z.c, z.e, z.r))
      else if z.InLeft? then T(t, Black, z.e, T(z.r, Red, z.up.e, z.up.r))
      else T(T(z.up.l, Red, z.up.e, z.l), Black, z.e, t);
    assert Fix4(z, t) == Plug(z.up.up, s);
    assert RootBlackZip(z.up) && z.up.c == Black && NoRedRedZip(z.up.up, false);
    assert NoRedRed(s.l) && NoRedRed(s.r);
    NoRedRedPlug(z.up.up, s);
    RootBlackPlug(z.up.up, s);
  }

  /** Fixing up after an insertion keeps equal black heights. */
  lemma {:induction false} Fix1Even(z: Zip, t: Shape)
    requires RootBlackZip(z) && IsRed(t) && NoRedRedZip(z, false)
    requires Even(t) && EvenZip(z, BlackHeight(t))
    ensures Even(Fix1(z, t))
    decreases z
  {
    if z.Top? {
    } else if z.c == Black {
      EvenPlug(z, t);
    } else if IsRed(Uncle(z)) {
      Fix1Even(z.up.up, Recolored(z, t));
    } else {
      Fix4Even(z, t);
    }
  }

  lemma {:induction false} Fix4Even(z: Zip, t: Shape)
    requires RootBlackZip(z) && IsRed(t) && NoRedRedZip(z, false) && !z.Top? && z.c == Red
    requires Even(t) && EvenZip(z, BlackHeight(t))
    ensures Even(Fix4(z, t))
  {
    var s: Shape :=
      if z.InRight? && z.up.InLeft? then T(T(z.l, z.c, z.e, t.l), Black, t.e, T(t.r, Red, z.up.e, z.up.r))
      else if z.InLeft? && z.up.InRight? then T(T(z.up.l, Red, z.up.e, t.l), Black, t.e, T(t.r, z.c, z.e, z.r))
      else if z.InLeft? then T(t, Black, z.e, T(z.r, Red, z.up.e, z.up.r))
      else T(T(z.up.l, Red, z.up.e, z.l), Black, z.e, t);
    assert Fix4(z, t) == Plug(z.up.up, s);
    assert RootBlackZip(z.up) && z.up.c == Black;
    assert Even(s.l) && Even(s.r) && BlackHeight(s.l) == BlackHeight(s.r);
    assert Even(s);
    EvenPlug(z.up.up, s);
  }

  // ---------- deletion ----------

  function Sibling(z: Zip): Shape
    requires !z.Top?
  {
    if z.InLeft? then z.r else z.l
  }

  function WithSibling(z: Zip, s: Shape): (z': Zip)
    requires !z.Top?
    ensures !z'.Top? && z'.up == z.up && z'.c == z.c && z'.e == z.e && z'.InLeft? == z.InLeft? && Sibling(z') == s
  {
    if z.InLeft? then z.(r := s) else z.(l := s)
  }

  predicate NoneOrBlack(t: Shape) {
    t.T? ==> t.c == Black
  }

  /** A black node without a red child. */
  predicate BlackKids(s: Shape) {
    s.T? && s.c == Black && NoneOrBlack(s.l) && NoneOrBlack(s.r)
  }

  function Del1(z: Zip, t: Shape): Shape
    decreases Depth(z), 3
  {
    if z.Top? then t else Del2(z, t)
  }

  /** The context after the red sibling was rotated above the parent. */
  function Rotated2(z: Zip): (z': Zip)
    requires !z.Top? && IsRed(Sibling(z))
    ensures !z'.Top? && z'.c == Red
  {
    if z.InLeft? then InLeft(InLeft(z.up, Black, z.r.e, z.r.r), Red, z.e, z.r.l)
    else InRight(InRight(z.up, z.l.l, Black, z.l.e), z.l.r, Red, z.e)
  }

  function Del2(z: Zip, t: Shape): Shape
    requires !z.Top?
    decreases Depth(z), 2
  {
    if IsRed(Sibling(z)) then Del3(Rotated2(z), t) else Del3(z, t)
  }

  function Del3(z: Zip, t: Shape): Shape
    requires !z.Top?
    decreases if z.c == Black then Depth(z) else 0, 1
  {
    if z.c == Black && BlackKids(Sibling(z)) then
      Del1(z.up, Fill(WithSibling(z, Paint(Sibling(z), Red)), z.c, t))
    else Del4(z, t)
  }

  function Del4(z: Zip, t: Shape): Shape
    requires !z.Top?
  {
    if z.c == Red && BlackKids(Sibling(z)) then
      Plug(z.up, Fill(WithSibling(z, Paint(Sibling(z), Red)), Black, t))
    else Del5(z, t)
  }

  /** The sibling's near child is red and its far child is not. */
  predicate NearRed(z: Zip)
    requires !z.Top?
  {
    var s := Sibling(z);
    s.T? && s.c == Black && if z.InLeft? then NoneOrBlack(s.r) && IsRed(s.l) else NoneOrBlack(s.l) && IsRed(s.r)
  }

  /** The sibling after its red near child was rotated above it. */
  function Rotated5(z: Zip): Shape
    requires !z.Top? && NearRed(z)
  {
    var s := Sibling(z);
    if z.InLeft? then T(s.l.l, Black, s.l.e, T(s.l.r, Red, s.e, s.r))
    else T(T(s.l, Red, s.e, s.r.l), Black, s.r.e, s.r.r)
  }

  function Del5(z: Zip, t: Shape): Shape
    requires !z.Top?
  {
    if NearRed(z) then Del6(WithSibling(z, Rotated5(z)), t) else Del6(z, t)
  }

  /** The sibling, if any, rotated above the parent, taking its color. */
  function Rotated6(z: Zip, t: Shape): Shape
    requires !z.Top?
  {
    var s := Sibling(z);
    if s.E? then Fill(z, Black, t)
    else if z.InLeft? then T(T(t, Black, z.e, s.l), z.c, s.e, Paint(s.r, Black))
    else T(Paint(s.l, Black), z.c, s.e, T(s.r, Black, z.e, t))
  }

  function Del6(z: Zip, t: Shape): Shape
    requires !z.Top?
  {
    Plug(z.up, Rotated6(z, t))
  }

  lemma {:induction false} Del6InOrder(z: Zip, t: Shape)
    requires !z.Top?
    ensures InOrder(Del6(z, t)) == InOrder(Plug(z, t))
  {
    var s := Sibling(z);
    if s.T? && z.InLeft? {
      RotationInOrder(t, z.e, s.l, s.e, Paint(s.r, Black), Black, z.c, z.c, s.c);
    } else if s.T? {
      RotationInOrder(Paint(s.l, Black), s.e, s.r, z.e, t, s.c, z.c, z.c, Black);
    }
    SameInOrder(z.up, Rotated6(z, t), Fill(z, z.c, t));
  }

  lemma {:induction false} Rotated5Keeps(z: Zip)
    requires !z.Top? && NearRed(z)
    ensures InOrder(Rotated5(z)) == InOrder(Sibling(z))
    ensures NoRedRed(Sibling(z)) ==> NoRedRed(Rotated5(z))
  {
    var s, s' := Sibling(z), Rotated5(z);
    if z.InLeft? {
      RotationInOrder(s.l.l, s.l.e, s.l.r, s.e, s.r, s.l.c, s.c, Black, Red);
    } else {
      RotationInOrder(s.l, s.e, s.r.l, s.r.e, s.r.r, Red, Black, s.c, s.r.c);
    }
    if NoRedRed(s) {
      assert NoRedRed(s.l) && NoRedRed(s.r);
      assert NoRedRed(s'.l) && NoRedRed(s'.r);
    }
  }

  lemma {:induction false} Del4InOrder(z: Zip, t: Shape)
    requires !z.Top?
    ensures InOrder(Del4(z, t)) == InOrder(Plug(z, t))
  {
    if z.c == Red && BlackKids(Sibling(z)) {
      SameInOrder(z.up, Fill(WithSibling(z, Paint(Sibling(z), Red)), Black, t), Fill(z, z.c, t));
    } else if NearRed(z) {
      var z' := WithSibling(z, Rotated5(z));
      Del6InOrder(z', t);
      Rotated5Keeps(z);
      SameInOrder(z.up, Fill(z', z.c, t), Fill(z, z.c, t));
    } else {
      Del6InOrder(z, t);
    }
  }

  lemma {:induction false} Del3InOrder(z: Zip, t: Shape)
    requires !z.Top?
    ensures InOrder(Del3(z, t)) == InOrder(Plug(z, t))
    decreases if z.c == Black then Depth(z) else 0, 1
  {
    if z.c == Black && BlackKids(Sibling(z)) {
      var s := Fill(WithSibling(z, Paint(Sibling(z), Red)), z.c, t);
      Del1InOrder(z.up, s);
      SameInOrder(z.up, s, Fill(z, z.c, t));
    } else {
      Del4InOrder(z, t);
    }
  }

  /** Fixing up after a deletion moves no entry. */
  lemma {:induction false} Del1InOrder(z: Zip, t: Shape)
    ensures InOrder(Del1(z, t)) == InOrder(Plug(z, t))
    decreases Depth(z), 3
  {
    if !z.Top? {
      if IsRed(Sibling(z)) {
        var y := Rotated2(z);
        Del3InOrder(y, t);
        if z.InLeft? {
          RotationInOrder(t, z.e, z.r.l, z.r.e, z.r.r, Red, Black, z.c, z.r.c);
        } else {
          RotationInOrder(z.l.l, z.l.e, z.l.r, z.e, t, z.l.c, z.c, Black, Red);
        }
        SameInOrder(z.up, Fill(y.up, Black, Fill(y, Red, t)), Fill(z, z.c, t));
      } else {
        Del3InOrder(z, t);
      }
    }
  }

  lemma {:induction false} Del6Colored(z: Zip, t: Shape)
    requires !z.Top? && RootBlackZip(z) && NoRedRed(t) && !IsRed(t) && NoRedRedZip(z, false)
    requires var s := Sibling(z);
             && !IsRed(s)
             && (s.T? ==> !IsRed(if z.InLeft? then s.l else s.r) || IsRed(if z.InLeft? then s.r else s.l))
    ensures Colored(Del6(z, t))
  {
    var s := Rotated6(z, t);
    assert NoRedRed(Sibling(z)) && NoRedRed(s.l) && NoRedRed(s.r);
    NoRedRedPlug(z.up, s);
    RootBlackPlug(z.up, s);
  }

  /** A red parent of two black children changes colors with the sibling. */
  lemma RepaintedColored(z: Zip, t: Shape)
    requires !z.Top? && RootBlackZip(z) && NoRedRed(t) && !IsRed(t) && NoRedRedZip(z, false) && !IsRed(Sibling(z))
    requires z.c == Red && BlackKids(Sibling(z))
    ensures Colored(Plug(z.up, Fill(WithSibling(z, Paint(Sibling(z), Red)), Black, t)))
  {
    var s := Fill(WithSibling(z, Paint(Sibling(z), Red)), Black, t);
    assert NoRedRed(Sibling(z)) && NoRedRed(Paint(Sibling(z), Red));
    assert NoRedRed(s.l) && NoRedRed(s.r);
    assert NoRedRed(s) && !IsRed(s) && NoRedRedZip(z.up, false);
    NoRedRedPlug(z.up, s);
    RootBlackPlug(z.up, s);
  }

  lemma {:induction false} Del4Colored(z: Zip, t: Shape)
    requires !z.Top? && RootBlackZip(z) && NoRedRed(t) && !IsRed(t) && NoRedRedZip(z, false) && !IsRed(Sibling(z))
    ensures Colored(Del4(z, t))
  {
    var s := Sibling(z);
    if z.c == Red && BlackKids(s) {
      RepaintedColored(z, t);
    } else if NearRed(z) {
      Rotated5Keeps(z);
      Del6Colored(WithSibling(z, Rotated5(z)), t);
    } else {
      assert NoRedRed(s);
      if s.T? {
        assert NoRedRed(s.l) && NoRedRed(s.r);
        assert !IsRed(if z.InLeft? then s.l else s.r) || IsRed(if z.InLeft? then s.r else s.l);
      }
      Del6Colored(z, t);
    }
  }

  lemma {:induction false} Del3Colored(z: Zip, t: Shape)
    requires !z.Top? && RootBlackZip(z) && NoRedRed(t) && !IsRed(t) && NoRedRedZip(z, false) && !IsRed(Sibling(z))
    ensures Colored(Del3(z, t))
    decreases if z.c == Black then Depth(z) else 0, 1
  {
    if z.c == Black && BlackKids(Sibling(z)) {
      Del1Colored(z.up, Fill(WithSibling(z, Paint(Sibling(z), Red)), z.c, t));
    } else {
      Del4Colored(z, t);
    }
  }

  /** Fixing up after a deletion, through all six cases, leaves no red node with a red child and a black root,
      even where the siblings' black heights differ. */
  lemma {:induction false} Del1Colored(z: Zip, t: Shape)
    requires RootBlackZip(z) && NoRedRed(t) && !IsRed(t) && NoRedRedZip(z, false)
    ensures Colored(Del1(z, t))
    decreases Depth(z), 3
  {
    if !z.Top? {
      if IsRed(Sibling(z)) {
        Del3Colored(Rotated2(z), t);
      } else {
        Del3Colored(z, t);
      }
    }
  }
}
