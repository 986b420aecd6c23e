/** Red-black trees as values: shapes, shapes with a hole, and what insertion and deletion keep. */
module RbShape {
  datatype Color = Unset | Red | Black

  /** A node of the tree; its memory is a mutable object (rbtree.h). */
  class Node {
    var key: int
    var attr: int
    var color: Color
    var parent: Node?
    var left: Node?
    var right: Node?

    constructor (key: int, attr: int)
      ensures this.key == key && this.attr == attr && color == Unset
      ensures parent == null && left == null && right == null
    {
      this.key, this.attr, color := key, attr, Unset;
      parent, left, right := null, null, null;
    }
  }

  /** What a node carries, and which object it is. */
  datatype Entry = Entry(n: Node, key: int, attr: int)

  datatype Shape = E | T(l: Shape, c: Color, e: Entry, r: Shape)

  /** A shape with a hole; the innermost frame is the parent of the hole. */
  datatype Zip =
    | Top
    | InLeft(up: Zip, c: Color, e: Entry, r: Shape)
    | InRight(up: Zip, l: Shape, c: Color, e: Entry)

  function Plug(z: Zip, t: Shape): Shape {
    match z
    case Top => t
    case InLeft(up, c, e, r) => Plug(up, T(t, c, e, r))
    case InRight(up, l, c, e) => Plug(up, T(l, c, e, t))
  }

  function Depth(z: Zip): nat {
    if z.Top? then 0 else 1 + Depth(z.up)
  }

  // ---------- order ----------

  function InOrder(t: Shape): seq<Entry> {
    match t
    case E => []
    case T(l, _, e, r) => InOrder(l) + [e] + InOrder(r)
  }

  /** A rotation moves no entry. */
  lemma RotationInOrder(a: Shape, x: Entry, b: Shape, y: Entry, d: Shape, c1: Color, c2: Color, c3: Color, c4: Color)
    ensures InOrder(T(T(a, c1, x, b), c2, y, d)) == InOrder(T(a, c3, x, T(b, c4, y, d)))
  {
    assert InOrder(T(T(a, c1, x, b), c2, y, d)) == InOrder(T(a, c1, x, b)) + [y] + InOrder(d);
    assert InOrder(T(a, c3, x, T(b, c4, y, d))) == InOrder(a) + [x] + InOrder(T(b, c4, y, d));
  }

  /** The entries on either side of the hole. */
  function Before(z: Zip): seq<Entry> {
    match z
    case Top => []
    case InLeft(up, _, _, _) => Before(up)
    case InRight(up, l, _, e) => Before(up) + (InOrder(l) + [e])
  }

  function After(z: Zip): seq<Entry> {
    match z
    case Top => []
    case InLeft(up, _, e, r) => ([e] + InOrder(r)) + After(up)
    case InRight(up, _, _, _) => After(up)
  }

  lemma {:induction false} InOrderPlug(z: Zip, t: Shape)
    ensures InOrder(Plug(z, t)) == Before(z) + InOrder(t) + After(z)
    decreases z
  {
    match z
    case Top =>
    case InLeft(up, c, e, r) =>
      InOrderPlug(up, T(t, c, e, r));
      Regroup(Before(up), [], InOrder(t), [e] + InOrder(r), After(up));
    case InRight(up, l, c, e) =>
      InOrderPlug(up, T(l, c, e, t));
      Regroup(Before(up), InOrder(l) + [e], InOrder(t), [], After(up));
  }

  lemma Regroup(b: seq<Entry>, x: seq<Entry>, s: seq<Entry>, y: seq<Entry>, a: seq<Entry>)
    ensures b + (x + s + y) + a == (b + x) + s + (y + a)
    ensures x == [] ==> x + s + y == s + y && b + x == b
    ensures y == [] ==> x + s + y == x + s && y + a == a
  {
  }

  // ---------- colors ----------

  predicate IsRed(t: Shape) {
    t.T? && t.c == Red
  }

  /** Every node is red or black and no red node has a red child. */
  predicate NoRedRed(t: Shape) {
    match t
    case E => true
    case T(l, c, _, r) => c != Unset && (c == Red ==> !IsRed(l) && !IsRed(r)) && NoRedRed(l) && NoRedRed(r)
  }

  function Paint(t: Shape, c: Color): (s: Shape)
    ensures InOrder(s) == InOrder(t)
    ensures c == Black && NoRedRed(t) ==> NoRedRed(s)
  {
    match t
    case E => E
    case T(l, _, e, r) => T(l, c, e, r)
  }

  /** The same for a shape with a hole whose filling is red or not. */
  predicate NoRedRedZip(z: Zip, red: bool) {
    match z
    case Top => true
    case InLeft(up, c, _, r) =>
      c != Unset && (c == Red ==> !red && !IsRed(r)) && NoRedRed(r) && NoRedRedZip(up, c == Red)
    case InRight(up, l, c, _) =>
      c != Unset && (c == Red ==> !red && !IsRed(l)) && NoRedRed(l) && NoRedRedZip(up, c == Red)
  }

  lemma {:induction false} NoRedRedPlug(z: Zip, t: Shape)
    ensures NoRedRed(Plug(z, t)) <==> NoRedRed(t) && NoRedRedZip(z, IsRed(t))
    decreases z
  {
    match z
    case Top =>
    case InLeft(up, c, e, r) => NoRedRedPlug(up, T(t, c, e, r));
    case InRight(up, l, c, e) => NoRedRedPlug(up, T(l, c, e, t));
  }

  /** The root, unless it is the hole, is black. */
  predicate RootBlackZip(z: Zip) {
    z.Top? || ((z.up.Top? ==> z.c == Black) && RootBlackZip(z.up))
  }

  lemma {:induction false} RootBlackPlug(z: Zip, t: Shape)
    requires z.Top? || RootBlackZip(z)
    requires z.Top? ==> !IsRed(t)
    ensures !IsRed(Plug(z, t))
    decreases z
  {
    match z
    case Top =>
    case InLeft(up, c, e, r) => RootBlackPlug(up, T(t, c, e, r));
    case InRight(up, l, c, e) => RootBlackPlug(up, T(l, c, e, t));
  }

  lemma {:induction false} RootBlackSplit(z: Zip, t: Shape)
    requires !IsRed(Plug(z, t)) && NoRedRed(Plug(z, t))
    ensures RootBlackZip(z) && (z.Top? ==> !IsRed(t))
    decreases z
  {
    NoRedRedPlug(z, t);
    match z
    case Top =>
    case InLeft(up, c, e, r) => RootBlackSplit(up, T(t, c, e, r));
    case InRight(up, l, c, e) => RootBlackSplit(up, T(l, c, e, t));
  }

  /** What insertion and deletion both keep. */
  predicate Colored(t: Shape) {
    NoRedRed(t) && !IsRed(t)
  }

  // ---------- black height ----------

  function BlackHeight(t: Shape): nat {
    if t.E? then 0 else BlackHeight(t.l) + if t.c == Black then 1 else 0
  }

  /** Every path down meets equally many black nodes. */
  predicate Even(t: Shape) {
    t.T? ==> Even(t.l) && Even(t.r) && BlackHeight(t.l) == BlackHeight(t.r)
  }

  /** The same for a shape with a hole, to be filled with a shape of black height h. */
  predicate EvenZip(z: Zip, h: nat) {
    match z
    case Top => true
    case InLeft(up, c, _, r) => Even(r) && BlackHeight(r) == h && EvenZip(up, h + if c == Black then 1 else 0)
    case InRight(up, l, c, _) => Even(l) && BlackHeight(l) == h && EvenZip(up, h + if c == Black then 1 else 0)
  }

  lemma {:induction false} EvenPlug(z: Zip, t: Shape)
    ensures Even(Plug(z, t)) <==> Even(t) && EvenZip(z, BlackHeight(t))
    decreases z
  {
    match z
    case Top =>
    case InLeft(up, c, e, r) => EvenPlug(up, T(t, c, e, r));
    case InRight(up, l, c, e) => EvenPlug(up, T(l, c, e, t));
  }
}
