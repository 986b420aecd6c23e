/** The red-black tree in memory: nodes linked by left, right and parent, rotated and recolored in place. */
module RbTree {
  import opened RbShape
  import opened RbFix
  import opened RbOrder

  // ---------- which memory a shape occupies, and what it says ----------

  function Root(t: Shape): Node? {
    if t.E? then null else t.e.n
  }

  function Parent(z: Zip): Node? {
    if z.Top? then null else z.e.n
  }

  function TopRoot(z: Zip, hole: Node?): Node? {
    if z.Top? then hole else TopRoot(z.up, z.e.n)
  }

  function Ids(t: Shape): set<Node> {
    if t.E? then {} else Ids(t.l) + {t.e.n} + Ids(t.r)
  }

  function ZipIds(z: Zip): set<Node> {
    match z
    case Top => {}
    case InLeft(up, _, e, r) => ZipIds(up) + {e.n} + Ids(r)
    case InRight(up, l, _, e) => ZipIds(up) + {e.n} + Ids(l)
  }

  /** No node object occurs twice. */
  predicate Distinct(t: Shape) {
    t.T? ==> Distinct(t.l) && Distinct(t.r) && t.e.n !in Ids(t.l) && t.e.n !in Ids(t.r) && Ids(t.l) !! Ids(t.r)
  }

  predicate DistinctZip(z: Zip) {
    match z
    case Top => true
    case InLeft(up, _, e, r) => DistinctZip(up) && Distinct(r) && e.n !in Ids(r) && ZipIds(up) !! Ids(r) + {e.n}
    case InRight(up, l, _, e) => DistinctZip(up) && Distinct(l) && e.n !in Ids(l) && ZipIds(up) !! Ids(l) + {e.n}
  }

  ghost predicate IsNode(e: Entry, c: Color, parent: Node?, left: Node?, right: Node?)
    reads e.n
  {
    && e.n.key == e.key && e.n.attr == e.attr && e.n.color == c
    && e.n.parent == parent && e.n.left == left && e.n.right == right
  }

  /** The nodes of t hold what t says, links to their parents included. */
  ghost predicate IsTree(t: Shape, parent: Node?)
    reads Ids(t)
  {
    t.T? ==>
      && IsNode(t.e, t.c, parent, Root(t.l), Root(t.r))
      && IsTree(t.l, t.e.n) && IsTree(t.r, t.e.n)
  }

  ghost predicate IsZip(z: Zip, hole: Node?)
    reads ZipIds(z)
  {
    match z
    case Top => true
    case InLeft(up, c, e, r) => IsNode(e, c, Parent(up), hole, Root(r)) && IsTree(r, e.n) && IsZip(up, e.n)
    case InRight(up, l, c, e) => IsNode(e, c, Parent(up), Root(l), hole) && IsTree(l, e.n) && IsZip(up, e.n)
  }

  lemma {:induction false} PlugIds(z: Zip, t: Shape)
    ensures Ids(Plug(z, t)) == ZipIds(z) + Ids(t)
    ensures Distinct(Plug(z, t)) <==> DistinctZip(z) && Distinct(t) && ZipIds(z) !! Ids(t)
    ensures Root(Plug(z, t)) == TopRoot(z, Root(t))
    decreases z
  {
    match z
    case Top =>
    case InLeft(up, c, e, r) => PlugIds(up, T(t, c, e, r));
    case InRight(up, l, c, e) => PlugIds(up, T(l, c, e, t));
  }

  lemma {:induction false} PlugMemory(z: Zip, t: Shape)
    ensures IsTree(Plug(z, t), null) <==> IsZip(z, Root(t)) && IsTree(t, Parent(z))
    decreases z
  {
    match z
    case Top =>
    case InLeft(up, c, e, r) => PlugMemory(up, T(t, c, e, r));
    case InRight(up, l, c, e) => PlugMemory(up, T(l, c, e, t));
  }

  function RotatedLeft(t: Shape): Shape
    requires t.T? && t.r.T?
  {
    T(T(t.l, t.c, t.e, t.r.l), t.r.c, t.r.e, t.r.r)
  }

  function RotatedRight(t: Shape): Shape
    requires t.T? && t.l.T?
  {
    T(t.l.l, t.l.c, t.l.e, T(t.l.r, t.c, t.e, t.r))
  }

  /** The node just before, or just after, the root of t among the nodes in order. */
  function PredOf(z: Zip, t: Shape): Node?
    requires t.T?
  {
    var s := Before(z) + InOrder(t.l);
    if s == [] then null else s[|s| - 1].n
  }

  function SuccOf(z: Zip, t: Shape): Node?
    requires t.T?
  {
    var s := InOrder(t.r) + After(z);
    if s == [] then null else s[0].n
  }

  lemma {:induction false} MinIsFirst(t: Shape)
    requires t.T?
    ensures InOrder(t) != [] && MinTree(t).e == InOrder(t)[0]
  {
    if t.l.T? {
      MinIsFirst(t.l);
    }
  }

  /** The neighbours of the root of t, as positions in order. */
  lemma Neighbours(z: Zip, t: Shape)
    requires t.T?
    ensures var s := InOrder(Plug(z, t)); var i := |Before(z)| + |InOrder(t.l)|;
            && i < |s| && s[i] == t.e
            && PredOf(z, t) == (if i > 0 then s[i - 1].n else null)
            && SuccOf(z, t) == (if i + 1 < |s| then s[i + 1].n else null)
  {
    hide Before, After, Plug;
    InOrderPlug(z, t);
    assert InOrder(Plug(z, t)) == Before(z) + (InOrder(t.l) + [t.e] + InOrder(t.r)) + After(z);
    NextTo(Before(z), InOrder(t.l), t.e, InOrder(t.r), After(z));
  }

  lemma ContentsLength(t: Shape)
    ensures |Contents(t)| == |InOrder(t)|
  {
  }

  lemma NextTo(b: seq<Entry>, l: seq<Entry>, e: Entry, r: seq<Entry>, a: seq<Entry>)
    ensures var s := b + (l + [e] + r) + a; var i := |b| + |l|;
            && i < |s| && s[i] == e
            && (i > 0 ==> s[i - 1] == (b + l)[i - 1]) && (i + 1 < |s| ==> s[i + 1] == (r + a)[0])
            && |s| == i + 1 + |r + a|
  {
  }

  lemma PlaceUnique(t: Shape, i: nat)
    requires Distinct(t) && i < |InOrder(t)|
    ensures forall j :: 0 <= j < |InOrder(t)| && InOrder(t)[j].n == InOrder(t)[i].n ==> j == i
  {
    forall j | 0 <= j < |InOrder(t)| && InOrder(t)[j].n == InOrder(t)[i].n
      ensures j == i
    {
      if j < i {
        OnePlace(t, j, i);
      } else if j > i {
        OnePlace(t, i, j);
      }
    }
  }

  function MinTree(t: Shape): (m: Shape)
    requires t.T?
    ensures m.T? && m.l.E?
  {
    if t.l.E? then t else MinTree(t.l)
  }

  function PaintedLeft(t: Shape, c: Color): Shape
    requires t.T?
  {
    t.(l := Paint(t.l, c))
  }

  function PaintedRight(t: Shape, c: Color): Shape
    requires t.T?
  {
    t.(r := Paint(t.r, c))
  }

  /** The place of a node object in a shape. */
  lemma {:induction false} Locate(z: Zip, t: Shape, n: Node) returns (y: Zip, s: Shape)
    requires n in Ids(t)
    ensures Plug(y, s) == Plug(z, t) && s.T? && s.e.n == n
    decreases t
  {
    if t.e.n == n {
      y, s := z, t;
    } else if n in Ids(t.l) {
      y, s := Locate(InLeft(z, t.c, t.e, t.r), t.l, n);
    } else {
      y, s := Locate(InRight(z, t.l, t.c, t.e), t.r, n);
    }
  }

  lemma {:induction false} EntryId(t: Shape, i: nat)
    requires i < |InOrder(t)|
    ensures InOrder(t)[i].n in Ids(t)
  {
    var k := |InOrder(t.l)|;
    if i < k {
      EntryId(t.l, i);
    } else if i > k {
      EntryId(t.r, i - k - 1);
    }
  }

  lemma {:induction false} EntryAt(t: Shape, p: Node?, i: nat)
    requires i < |InOrder(t)| && IsTree(t, p)
    ensures var e := InOrder(t)[i]; e.n in Ids(t) && e.n.key == e.key && e.n.attr == e.attr
  {
    var k := |InOrder(t.l)|;
    if i < k {
      EntryAt(t.l, t.e.n, i);
    } else if i > k {
      EntryAt(t.r, t.e.n, i - k - 1);
    }
  }

  lemma SortedRemoval(p: seq<(int, int)>, i: nat, cmp: Cmp)
    requires i < |p| && Sorted(p, cmp)
    ensures Sorted(p[..i] + p[i + 1..], cmp)
  {
    var q := p[..i] + p[i + 1..];
    assert forall j :: 0 <= j < |q| ==> q[j] == p[if j < i then j else j + 1];
  }

  /** In a shape of distinct nodes an entry has one place. */
  lemma {:induction false} OnePlace(t: Shape, i: nat, j: nat)
    requires Distinct(t) && i < j < |InOrder(t)|
    ensures InOrder(t)[i].n != InOrder(t)[j].n
  {
    var s, l, r := InOrder(t), InOrder(t.l), InOrder(t.r);
    var k := |l|;
    if i < k {
      assert s[i] == l[i];
      EntryId(t.l, i);
    }
    assert j < k ==> s[j] == l[j];
    assert i > k ==> s[i] == r[i - k - 1];
    if j > k {
      var e := r[j - k - 1];
      assert s[j] == e;
      EntryId(t.r, j - k - 1);
    }
    if j < k {
      OnePlace(t.l, i, j);
    } else if i > k {
      OnePlace(t.r, i - k - 1, j - k - 1);
    }
  }

  class RbTree {
    var root: Node?
    var numNodes: nat
    const cmp: Cmp
    ghost var shape: Shape
    ghost var nodes: set<Node>

    /** The memory of the tree is the shape t in the hole of z. */
    ghost predicate Focus(z: Zip, t: Shape)
      reads this`root, this`nodes, ZipIds(z), Ids(t)
    {
      && nodes == ZipIds(z) + Ids(t)
      && DistinctZip(z) && Distinct(t) && ZipIds(z) !! Ids(t)
      && IsZip(z, Root(t)) && IsTree(t, Parent(z))
      && root == TopRoot(z, Root(t))
    }

    lemma Zoom(z: Zip, t: Shape)
      requires !z.Top?
      ensures Focus(z, t) <==> Focus(z.up, Fill(z, z.c, t))
      ensures ZipIds(z) + Ids(t) == ZipIds(z.up) + Ids(Fill(z, z.c, t))
    {
    }

    lemma PlugFocus(z: Zip, t: Shape)
      ensures Focus(z, t) <==> Focus(Top, Plug(z, t))
      ensures ZipIds(z) + Ids(t) == Ids(Plug(z, t))
    {
      PlugIds(z, t);
      PlugMemory(z, t);
    }

    method Turn(n: Node, c: Color, ghost z: Zip, ghost t: Shape)
      requires Focus(z, t) && Root(t) == n
      modifies n`color
      ensures Focus(z, Paint(t, c)) && Ids(Paint(t, c)) == Ids(t)
    {
      n.color := c;
    }

    /** Links sub to the parent of n in place of n. */
    method Replace(n: Node, sub: Node?, ghost z: Zip)
      requires IsZip(z, n) && n.parent == Parent(z) && root == TopRoot(z, n) && DistinctZip(z)
      requires n !in ZipIds(z) && sub !in ZipIds(z)
      modifies this`root, (if z.Top? then {} else {z.e.n})`left, (if z.Top? then {} else {z.e.n})`right
      modifies (if sub == null then {} else {sub})`parent
      ensures IsZip(z, sub) && root == TopRoot(z, sub)
      ensures sub != null ==> sub.parent == Parent(z)
    {
      if n.parent == null {
        root := sub;
      } else if n == n.parent.left {
        n.parent.left := sub;
      } else {
        n.parent.right := sub;
      }
      if sub != null {
        sub.parent := n.parent;
      }
    }

    /** The subtree t, if any, gets the parent p. */
    method Adopt(c: Node?, p: Node, ghost t: Shape, ghost q: Node?)
      requires c == Root(t) && IsTree(t, q) && Distinct(t) && Ids(t) <= nodes
      modifies (if t.E? then {} else {t.e.n})`parent
      ensures IsTree(t, p)
    {
      if c != null {
        assert t.e.n !in Ids(t.l) && t.e.n !in Ids(t.r) && Ids(t.l) <= nodes && Ids(t.r) <= nodes;
        c.parent := p;
      }
    }

    /** The parts T(T(x, b, y), d, w) or T(x, b, T(y, d, w)) of a rotation, before or after it. */
    ghost predicate Parts(z: Zip, x: Shape, b: Node, y: Shape, d: Node, w: Shape)
      reads this`nodes
    {
      && nodes == ZipIds(z) + Ids(x) + Ids(y) + Ids(w) + {b, d}
      && DistinctZip(z) && Distinct(x) && Distinct(y) && Distinct(w) && b != d
      && ZipIds(z) !! Ids(x) !! Ids(y) !! Ids(w) !! {b, d}
    }

    lemma RightParts(z: Zip, t: Shape)
      requires t.T? && t.r.T?
      ensures nodes == ZipIds(z) + Ids(t) && DistinctZip(z) && Distinct(t) && ZipIds(z) !! Ids(t)
              <==> Parts(z, t.l, t.e.n, t.r.l, t.r.e.n, t.r.r)
    {
      hide ZipIds, DistinctZip;
      assert Distinct(t) <==> Distinct(t.l) && t.e.n !in Ids(t.l) + Ids(t.r) && Ids(t.l) !! Ids(t.r) && Distinct(t.r);
    }

    lemma LeftParts(z: Zip, t: Shape)
      requires t.T? && t.l.T?
      ensures nodes == ZipIds(z) + Ids(t) && DistinctZip(z) && Distinct(t) && ZipIds(z) !! Ids(t)
              <==> Parts(z, t.l.l, t.l.e.n, t.l.r, t.e.n, t.r)
    {
      hide ZipIds, DistinctZip;
      assert Distinct(t) <==> Distinct(t.r) && t.e.n !in Ids(t.l) + Ids(t.r) && Ids(t.l) !! Ids(t.r) && Distinct(t.l);
    }

    /** Memory around two nodes of which d is the right child of b, respectively b the left child of d. */
    ghost predicate RightLinked(z: Zip, x: Shape, b: Entry, bc: Color, y: Shape, d: Entry, dc: Color, w: Shape)
      reads this`root, this`nodes, ZipIds(z), Ids(x), Ids(y), Ids(w), b.n, d.n
    {
      && Parts(z, x, b.n, y, d.n, w)
      && IsZip(z, b.n) && root == TopRoot(z, b.n)
      && IsNode(b, bc, Parent(z), Root(x), d.n) && IsNode(d, dc, b.n, Root(y), Root(w))
      && IsTree(x, b.n) && IsTree(y, d.n) && IsTree(w, d.n)
    }

    ghost predicate LeftLinked(z: Zip, x: Shape, b: Entry, bc: Color, y: Shape, d: Entry, dc: Color, w: Shape)
      reads this`root, this`nodes, ZipIds(z), Ids(x), Ids(y), Ids(w), b.n, d.n
    {
      && Parts(z, x, b.n, y, d.n, w)
      && IsZip(z, d.n) && root == TopRoot(z, d.n)
      && IsNode(d, dc, Parent(z), b.n, Root(w)) && IsNode(b, bc, d.n, Root(x), Root(y))
      && IsTree(x, b.n) && IsTree(y, b.n) && IsTree(w, d.n)
    }

    lemma FocusLinked(z: Zip, x: Shape, b: Entry, bc: Color, y: Shape, d: Entry, dc: Color, w: Shape)
      ensures Focus(z, T(x, bc, b, T(y, dc, d, w))) <==> RightLinked(z, x, b, bc, y, d, dc, w)
      ensures Focus(z, T(T(x, bc, b, y), dc, d, w)) <==> LeftLinked(z, x, b, bc, y, d, dc, w)
    {
      RightParts(z, T(x, bc, b, T(y, dc, d, w)));
      LeftParts(z, T(T(x, bc, b, y), dc, d, w));
      assert IsTree(T(y, dc, d, w), b.n) <==> IsNode(d, dc, b.n, Root(y), Root(w)) && IsTree(y, d.n) && IsTree(w, d.n);
      assert IsTree(T(x, bc, b, y), d.n) <==> IsNode(b, bc, d.n, Root(x), Root(y)) && IsTree(x, b.n) && IsTree(y, b.n);
    }

    lemma InMemory(z: Zip, t: Shape)
      ensures !z.Top? ==> z.e.n in ZipIds(z)
      ensures t.T? ==> t.e.n in Ids(t)
    {
    }

    method RotateLeft(b: Node, ghost z: Zip, ghost t: Shape)
      requires t.T? && t.r.T? && t.e.n == b && Focus(z, t)
      modifies this`root, nodes
      ensures Focus(z, RotatedLeft(t))
    {
      hide Distinct, DistinctZip, Ids, ZipIds, IsZip, IsTree, TopRoot, Focus, RightLinked, LeftLinked, Parts;
      FocusLinked(z, t.l, t.e, t.c, t.r.l, t.r.e, t.r.c, t.r.r);
      RelinkLeft(b, z, t.l, t.e, t.c, t.r.l, t.r.e, t.r.c, t.r.r);
      FocusLinked(z, t.l, t.e, t.c, t.r.l, t.r.e, t.r.c, t.r.r);
    }

    method RelinkLeft(n: Node, ghost z: Zip, ghost x: Shape, ghost b: Entry, ghost bc: Color, ghost y: Shape,
                      ghost d: Entry, ghost dc: Color, ghost w: Shape)
      requires RightLinked(z, x, b, bc, y, d, dc, w) && b.n == n
      modifies this`root, nodes
      ensures LeftLinked(z, x, b, bc, y, d, dc, w)
    {
      hide Distinct, DistinctZip, Ids, ZipIds, IsZip, IsTree, TopRoot;
      InMemory(z, y);
      var r := n.right;
      var c := r.left;
      Replace(n, r, z);
      assert IsTree(x, n) && IsTree(y, r) && IsTree(w, r);
      HookLeft(n, r, c, y);
    }

    /** Makes n the left child of r, and the subtree y the right child of n. */
    method HookLeft(n: Node, r: Node, c: Node?, ghost y: Shape)
      requires n != r && c == Root(y) && IsTree(y, r) && Distinct(y) && Ids(y) <= nodes && n !in Ids(y) && r !in Ids(y)
      modifies r`left, n`parent, n`right, (if y.E? then {} else {y.e.n})`parent
      ensures r.left == n && n.parent == r && n.right == c && IsTree(y, n)
    {
      hide Distinct, Ids, IsTree;
      InMemory(Top, y);
      r.left := n;
      n.parent := r;
      n.right := c;
      Adopt(c, n, y, r);
    }

    /** Its mirror image. */
    method HookRight(n: Node, r: Node, c: Node?, ghost y: Shape)
      requires n != r && c == Root(y) && IsTree(y, r) && Distinct(y) && Ids(y) <= nodes && n !in Ids(y) && r !in Ids(y)
      modifies r`right, n`parent, n`left, (if y.E? then {} else {y.e.n})`parent
      ensures r.right == n && n.parent == r && n.left == c && IsTree(y, n)
    {
      hide Distinct, Ids, IsTree;
      InMemory(Top, y);
      r.right := n;
      n.parent := r;
      n.left := c;
      Adopt(c, n, y, r);
    }

    method RotateRight(d: Node, ghost z: Zip, ghost t: Shape)
      requires t.T? && t.l.T? && t.e.n == d && Focus(z, t)
      modifies this`root, nodes
      ensures Focus(z, RotatedRight(t))
    {
      hide Distinct, DistinctZip, Ids, ZipIds, IsZip, IsTree, TopRoot, Focus, RightLinked, LeftLinked, Parts;
      FocusLinked(z, t.l.l, t.l.e, t.l.c, t.l.r, t.e, t.c, t.r);
      RelinkRight(d, z, t.l.l, t.l.e, t.l.c, t.l.r, t.e, t.c, t.r);
      FocusLinked(z, t.l.l, t.l.e, t.l.c, t.l.r, t.e, t.c, t.r);
    }

    method RelinkRight(n: Node, ghost z: Zip, ghost x: Shape, ghost b: Entry, ghost bc: Color, ghost y: Shape,
                       ghost d: Entry, ghost dc: Color, ghost w: Shape)
      requires LeftLinked(z, x, b, bc, y, d, dc, w) && d.n == n
      modifies this`root, nodes
      ensures RightLinked(z, x, b, bc, y, d, dc, w)
    {
      hide Distinct, DistinctZip, Ids, ZipIds, IsZip, IsTree, TopRoot;
      InMemory(z, y);
      var l := n.left;
      var c := l.right;
      Replace(n, l, z);
      assert IsTree(x, l) && IsTree(y, l) && IsTree(w, n);
      HookRight(n, l, c, y);
    }

    // ---------- reading the memory around the focus ----------

    lemma AtFocus(z: Zip, t: Shape)
      requires t.T? && Focus(z, t)
      ensures IsNode(t.e, t.c, Parent(z), Root(t.l), Root(t.r)) && t.e.n in nodes
    {
    }

    lemma AtParent(z: Zip, t: Shape)
      requires !z.Top? && Focus(z, t)
      ensures z.InLeft? ==> IsNode(z.e, z.c, Parent(z.up), Root(t), Root(z.r))
      ensures z.InRight? ==> IsNode(z.e, z.c, Parent(z.up), Root(z.l), Root(t))
      ensures z.e.n in nodes && (t.T? ==> Root(Sibling(z)) != t.e.n)
    {
    }

    /** The zipper of the sibling, t being left behind. */
    ghost function Across(z: Zip, t: Shape): (y: Zip)
      requires !z.Top?
      ensures !y.Top? && y.up == z.up && y.e == z.e && y.c == z.c && Sibling(y) == t
              && Fill(y, z.c, Sibling(z)) == Fill(z, z.c, t)
    {
      if z.InLeft? then InRight(z.up, t, z.c, z.e) else InLeft(z.up, z.c, z.e, t)
    }

    lemma ZoomAcross(z: Zip, t: Shape)
      requires !z.Top?
      ensures Focus(z, t) <==> Focus(Across(z, t), Sibling(z))
    {
      Zoom(z, t);
      Zoom(Across(z, t), Sibling(z));
    }

    // ---------- insertion ----------

    method Insert1(n: Node, ghost z: Zip, ghost t: Shape)
      requires Focus(z, t) && t.T? && t.e.n == n && RootBlackZip(z)
      modifies this`root, nodes
      ensures Focus(Top, Fix1(z, t))
      decreases z, 3
    {
      hide Focus;
      AtFocus(z, t);
      if n.parent != null {
        Insert2(n, z, t);
      } else {
        Turn(n, Black, z, t);
        SetRoot(n, Paint(t, Black));
      }
    }

    method SetRoot(n: Node, ghost t: Shape)
      requires Focus(Top, t) && Root(t) == n
      modifies this`root
      ensures Focus(Top, t)
    {
      root := n;
    }

    method Insert2(n: Node, ghost z: Zip, ghost t: Shape)
      requires Focus(z, t) && t.T? && t.e.n == n && RootBlackZip(z) && !z.Top?
      modifies this`root, nodes
      ensures Focus(Top, Fix1(z, t))
      decreases z, 2
    {
      hide Focus;
      AtFocus(z, t);
      AtParent(z, t);
      if n.parent.color == Black {
        PlugFocus(z, t);
        return;
      } else {
        Insert3(n, z, t);
      }
    }

    method Insert3(n: Node, ghost z: Zip, ghost t: Shape)
      requires Focus(z, t) && t.T? && t.e.n == n && RootBlackZip(z) && !z.Top? && z.c != Black
      modifies this`root, nodes
      ensures Focus(Top, Fix3(z, t))
      decreases z, 1
    {
      hide Focus;
      assert RootBlackZip(z.up);
      AtFocus(z, t);
      AtParent(z, t);
      var p := n.parent;
      ghost var s := Fill(z, z.c, t);
      Zoom(z, t);
      AtParent(z.up, s);
      var g := p.parent;
      var u := if p == g.left then g.right else g.left;
      ZoomAcross(z.up, s);
      if Uncle(z).T? {
        AtFocus(Across(z.up, s), Uncle(z));
      }
      if u != null && u.color == Red {
        Turn(p, Black, z.up, s);
        s := Fill(z, Black, t);
        ghost var y := Across(z.up, s);
        ZoomAcross(z.up, s);
        Turn(u, Black, y, Uncle(z));
        Zoom(y, Paint(Uncle(z), Black));
        Turn(g, Red, z.up.up, Fill(y, y.c, Paint(Uncle(z), Black)));
        Insert1(g, z.up.up, Recolored(z, t));
      } else {
        Insert4(n, z, t);
      }
    }

    method Insert4(n: Node, ghost z: Zip, ghost t: Shape)
      requires Focus(z, t) && t.T? && t.e.n == n && !z.Top? && !z.up.Top?
      modifies this`root, nodes
      ensures Focus(Top, Fix4(z, t))
    {
      hide Focus;
      AtFocus(z, t);
      AtParent(z, t);
      var p := n.parent;
      ghost var s := Fill(z, z.c, t);
      Zoom(z, t);
      AtParent(z.up, s);
      var g := p.parent;
      var m := n;
      ghost var y, r := z, t;
      if n == p.right && p == g.left {
        RotateLeft(p, z.up, s);
        AtFocus(z.up, RotatedLeft(s));
        y, r := InLeft(z.up, t.c, t.e, t.r), T(z.l, z.c, z.e, t.l);
        Zoom(y, r);
        m := n.left;
      } else if n == p.left && p == g.right {
        RotateRight(p, z.up, s);
        AtFocus(z.up, RotatedRight(s));
        y, r := InRight(z.up, t.l, t.c, t.e), T(t.r, z.c, z.e, z.r);
        Zoom(y, r);
        m := n.right;
      }
      Insert5(m, y, r);
    }

    method Insert5(n: Node, ghost z: Zip, ghost t: Shape)
      requires Focus(z, t) && t.T? && t.e.n == n && !z.Top? && !z.up.Top? && z.InLeft? == z.up.InLeft?
      modifies this`root, nodes
      ensures Focus(Top, Fix5(z, t))
    {
      hide Focus;
      AtFocus(z, t);
      AtParent(z, t);
      var p := n.parent;
      ghost var s := Fill(z, z.c, t);
      Zoom(z, t);
      AtParent(z.up, s);
      var g := p.parent;
      Turn(p, Black, z.up, s);
      s := Fill(z, Black, t);
      Zoom(z.up, s);
      Turn(g, Red, z.up.up, Fill(z.up, z.up.c, s));
      s := Fill(z.up, Red, s);
      AtFocus(z.up.up, s);
      Zoom(z.up.(c := Red), Fill(z, Black, t));
      AtFocus(z.up.(c := Red), Fill(z, Black, t));
      if n == p.left && p == g.left {
        RotateRight(g, z.up.up, s);
        PlugFocus(z.up.up, RotatedRight(s));
      } else {
        RotateLeft(g, z.up.up, s);
        PlugFocus(z.up.up, RotatedLeft(s));
      }
    }

    // ---------- deletion ----------

    method Delete1(n: Node, ghost z: Zip, ghost t: Shape)
      requires Focus(z, t) && t.T? && t.e.n == n && t.c == Black
      modifies this`root, nodes
      ensures Focus(Top, Del1(z, t))
      decreases Depth(z), 3
    {
      hide Focus;
      AtFocus(z, t);
      if n.parent != null {
        Delete2(n, z, t);
      }
    }

    method Delete2(n: Node, ghost z: Zip, ghost t: Shape)
      requires Focus(z, t) && t.T? && t.e.n == n && t.c == Black && !z.Top?
      modifies this`root, nodes
      ensures Focus(Top, Del2(z, t))
      decreases Depth(z), 2
    {
      hide Focus;
      AtFocus(z, t);
      AtParent(z, t);
      AtSibling(z, t);
      var p := n.parent;
      var s := if n == p.left then p.right else p.left;
      if s != null && s.color == Red {
        TurnParent(p, Red, z, t);
        TurnSibling(s, Black, z.(c := Red), t);
        ghost var y := WithSibling(z.(c := Red), Paint(Sibling(z), Black));
        Zoom(y, t);
        if n == p.left {
          RotateLeft(p, z.up, Fill(y, Red, t));
        } else {
          RotateRight(p, z.up, Fill(y, Red, t));
        }
        Zoom(Rotated2(z).up, Fill(Rotated2(z), Red, t));
        Zoom(Rotated2(z), t);
        Delete3(n, Rotated2(z), t);
      } else {
        Delete3(n, z, t);
      }
    }

    method TurnSibling(s: Node, c: Color, ghost z: Zip, ghost t: Shape)
      requires Focus(z, t) && !z.Top? && Root(Sibling(z)) == s
      modifies s`color
      ensures Focus(WithSibling(z, Paint(Sibling(z), c)), t)
    {
      hide Focus;
      ZoomAcross(z, t);
      Turn(s, c, Across(z, t), Sibling(z));
      ZoomAcross(WithSibling(z, Paint(Sibling(z), c)), t);
    }

    method TurnLeft(k: Node?, c: Color, ghost z: Zip, ghost t: Shape)
      requires Focus(z, t) && t.T? && Root(t.l) == k
      modifies (if k == null then {} else {k})`color
      ensures Focus(z, PaintedLeft(t, c))
    {
      hide Focus;
      if k != null {
        Zoom(InLeft(z, t.c, t.e, t.r), t.l);
        Turn(k, c, InLeft(z, t.c, t.e, t.r), t.l);
        Zoom(InLeft(z, t.c, t.e, t.r), Paint(t.l, c));
      }
    }

    method TurnRight(k: Node?, c: Color, ghost z: Zip, ghost t: Shape)
      requires Focus(z, t) && t.T? && Root(t.r) == k
      modifies (if k == null then {} else {k})`color
      ensures Focus(z, PaintedRight(t, c))
    {
      hide Focus;
      if k != null {
        Zoom(InRight(z, t.l, t.c, t.e), t.r);
        Turn(k, c, InRight(z, t.l, t.c, t.e), t.r);
        Zoom(InRight(z, t.l, t.c, t.e), Paint(t.r, c));
      }
    }

    method TurnParent(p: Node, c: Color, ghost z: Zip, ghost t: Shape)
      requires Focus(z, t) && !z.Top? && p == z.e.n
      modifies p`color
      ensures Focus(z.(c := c), t)
    {
      hide Focus;
      Zoom(z, t);
      Turn(p, c, z.up, Fill(z, z.c, t));
      Zoom(z.(c := c), t);
    }

    lemma AtSibling(z: Zip, t: Shape)
      requires !z.Top? && Focus(z, t)
      ensures var s := Sibling(z);
              s.T? ==>
              && IsNode(s.e, s.c, z.e.n, Root(s.l), Root(s.r)) && s.e.n in nodes
              && (s.l.T? ==> s.l.e.n.color == s.l.c && s.l.e.n in nodes)
              && (s.r.T? ==> s.r.e.n.color == s.r.c && s.r.e.n in nodes)
    {
      ZoomAcross(z, t);
      var a, s := Across(z, t), Sibling(z);
      if s.T? {
        AtFocus(a, s);
        Zoom(InLeft(a, s.c, s.e, s.r), s.l);
        Zoom(InRight(a, s.l, s.c, s.e), s.r);
        if s.l.T? {
          AtFocus(InLeft(a, s.c, s.e, s.r), s.l);
        }
        if s.r.T? {
          AtFocus(InRight(a, s.l, s.c, s.e), s.r);
        }
      }
    }

    method Delete3(n: Node, ghost z: Zip, ghost t: Shape)
      requires Focus(z, t) && t.T? && t.e.n == n && t.c == Black && !z.Top?
      modifies this`root, nodes
      ensures Focus(Top, Del3(z, t))
      decreases if z.c == Black then Depth(z) else 0, 1
    {
      hide Focus;
      AtFocus(z, t);
      AtParent(z, t);
      AtSibling(z, t);
      var p := n.parent;
      var s := if n == p.left then p.right else p.left;
      if p.color == Black && s != null && s.color == Black
         && (s.left == null || s.left.color == Black) && (s.right == null || s.right.color == Black) {
        TurnSibling(s, Red, z, t);
        ghost var y := WithSibling(z, Paint(Sibling(z), Red));
        Zoom(y, t);
        Delete1(p, z.up, Fill(y, z.c, t));
      } else {
        Delete4(n, z, t);
      }
    }

    method Delete4(n: Node, ghost z: Zip, ghost t: Shape)
      requires Focus(z, t) && t.T? && t.e.n == n && t.c == Black && !z.Top?
      modifies this`root, nodes
      ensures Focus(Top, Del4(z, t))
    {
      hide Focus;
      AtFocus(z, t);
      AtParent(z, t);
      AtSibling(z, t);
      var p := n.parent;
      var s := if n == p.left then p.right else p.left;
      if p.color == Red && s != null && s.color == Black
         && (s.left == null || s.left.color == Black) && (s.right == null || s.right.color == Black) {
        TurnSibling(s, Red, z, t);
        ghost var y := WithSibling(z, Paint(Sibling(z), Red));
        TurnParent(p, Black, y, t);
        PlugFocus(y.(c := Black), t);
      } else {
        Delete5(n, z, t);
      }
    }

    method Delete5(n: Node, ghost z: Zip, ghost t: Shape)
      requires Focus(z, t) && t.T? && t.e.n == n && t.c == Black && !z.Top?
      modifies this`root, nodes
      ensures Focus(Top, Del5(z, t))
    {
      hide Focus;
      AtFocus(z, t);
      AtParent(z, t);
      AtSibling(z, t);
      var p := n.parent;
      var s := if n == p.left then p.right else p.left;
      ghost var y := z;
      if s != null && s.color == Black {
        if n == p.left && (s.right == null || s.right.color == Black) && s.left != null && s.left.color == Red {
          TurnSibling(s, Red, z, t);
          ghost var a, b := Across(z, t), Paint(Sibling(z), Red);
          ZoomAcross(WithSibling(z, b), t);
          AtFocus(a, b);
          TurnLeft(s.left, Black, a, b);
          RotateRight(s, a, PaintedLeft(b, Black));
          y := WithSibling(z, Rotated5(z));
          ZoomAcross(y, t);
        } else if n == p.right && (s.left == null || s.left.color == Black) && s.right != null && s.right.color == Red {
          TurnSibling(s, Red, z, t);
          ghost var a, b := Across(z, t), Paint(Sibling(z), Red);
          ZoomAcross(WithSibling(z, b), t);
          AtFocus(a, b);
          TurnRight(s.right, Black, a, b);
          RotateLeft(s, a, PaintedRight(b, Black));
          y := WithSibling(z, Rotated5(z));
          ZoomAcross(y, t);
        }
      }
      Delete6(n, y, t);
    }

    method Delete6(n: Node, ghost z: Zip, ghost t: Shape)
      requires Focus(z, t) && t.T? && t.e.n == n && t.c == Black && !z.Top?
      modifies this`root, nodes
      ensures Focus(Top, Del6(z, t))
    {
      hide Focus;
      AtFocus(z, t);
      AtParent(z, t);
      AtSibling(z, t);
      var p := n.parent;
      var s := if n == p.left then p.right else p.left;
      var isLeft := n == p.left;
      ghost var y := z;
      if s != null {
        TurnSibling(s, p.color, z, t);
        y := WithSibling(z, Paint(Sibling(z), z.c));
      }
      AtParent(y, t);
      TurnParent(p, Black, y, t);
      y := y.(c := Black);
      if s != null {
        ghost var a, b := Across(y, t), Sibling(y);
        ZoomAcross(y, t);
        AtFocus(a, b);
        if isLeft {
          TurnRight(s.right, Black, a, b);
          Rotate6(p, isLeft, y, PaintedRight(b, Black), t);
        } else {
          TurnLeft(s.left, Black, a, b);
          Rotate6(p, isLeft, y, PaintedLeft(b, Black), t);
        }
      } else {
        PlugFocus(y, t);
      }
    }

    /** The rotation of the parent that ends a deletion, its sibling being b. */
    method Rotate6(p: Node, isLeft: bool, ghost y: Zip, ghost b: Shape, ghost t: Shape)
      requires !y.Top? && b.T? && y.e.n == p && isLeft == y.InLeft? && Focus(Across(y, t), b)
      modifies this`root, nodes
      ensures Focus(Top, Plug(y.up, if isLeft then T(T(t, y.c, y.e, b.l), b.c, b.e, b.r)
                              else T(b.l, b.c, b.e, T(b.r, y.c, y.e, t))))
    {
      hide Focus;
      ghost var f := Fill(WithSibling(y, b), y.c, t);
      ZoomAcross(WithSibling(y, b), t);
      Zoom(WithSibling(y, b), t);
      if isLeft {
        RotateLeft(p, y.up, f);
        PlugFocus(y.up, RotatedLeft(f));
      } else {
        RotateRight(p, y.up, f);
        PlugFocus(y.up, RotatedRight(f));
      }
    }

    // ---------- the operations ----------

    ghost predicate Valid()
      reads this, nodes, Ids(shape)
    {
      && Focus(Top, shape) && Colored(shape)
      && TotalOrder(cmp) && Sorted(Contents(shape), cmp)
      && numNodes == |InOrder(shape)|
    }

    constructor (cmp: Cmp)
      requires TotalOrder(cmp)
      ensures Valid() && shape == E && this.cmp == cmp
    {
      this.cmp := cmp;
      root, numNodes := null, 0;
      shape, nodes := E, {};
    }

    /** Hangs a new red leaf under n. */
    method Attach(n: Node, node: Node, isLeft: bool, ghost z: Zip)
      requires Focus(z, E) && !z.Top? && z.e.n == n && isLeft == z.InLeft?
      requires node !in nodes && node.left == null && node.right == null
      modifies n`left, n`right, node`color, node`parent, this`nodes
      ensures nodes == old(nodes) + {node}
      ensures node.key == old(node.key) && node.attr == old(node.attr)
      ensures Focus(z, T(E, Red, Entry(node, node.key, node.attr), E))
    {
      if isLeft {
        n.left := node;
      } else {
        n.right := node;
      }
      node.color := Red;
      node.parent := n;
      nodes := nodes + {node};
    }

    method Settle(count: nat, ghost t: Shape)
      requires Focus(Top, t)
      modifies this`numNodes, this`shape
      ensures numNodes == count && shape == t && Focus(Top, t)
    {
      numNodes := count;
      shape := t;
    }

    /** Makes node the only one. */
    method Plant(node: Node)
      requires Focus(Top, E) && node !in nodes && node.left == null && node.right == null
      modifies this`root, this`nodes, node`color, node`parent
      ensures nodes == old(nodes) + {node}
      ensures Focus(Top, T(E, Black, Entry(node, old(node.key), old(node.attr)), E))
    {
      node.color := Black;
      node.parent := null;
      root := node;
      nodes := nodes + {node};
      assert Ids(E) == {} && ZipIds(Top) == {};
    }

    method Insert(node: Node) returns (count: nat)
      requires Valid() && node !in nodes && node.left == null && node.right == null
      modifies this, nodes, node
      ensures Valid() && nodes == old(nodes) + {node} && count == numNodes == old(numNodes) + 1
      ensures shape == Inserted(old(shape), Entry(node, old(node.key), old(node.attr)), cmp)
      ensures InsertedAfterEquals(old(Contents(shape)), (old(node.key), old(node.attr)), Contents(shape), cmp)
    {
      hide Colored, TotalOrder, Sorted, Fix1, Descend, Focus;
      ghost var e := Entry(node, node.key, node.attr);
      RootFocus(shape);
      InsertionKeeps(shape, e, cmp);
      var n := root;
      if n == null {
        Plant(node);
        Settle(1, T(E, Black, e, E));
        return numNodes;
      }
      var isLeft;
      ghost var z;
      n, isLeft, z := Place(n, node.key);
      DescendColored(shape, node.key, cmp);
      Attach(n, node, isLeft, z);
      Insert1(node, z, T(E, Red, e, E));
      Settle(numNodes + 1, Inserted(shape, e, cmp));
      return numNodes;
    }

    /** The node under which a key is to be inserted, and on which side. */
    method Place(r: Node, key: int) returns (n: Node, isLeft: bool, ghost z: Zip)
      requires Focus(Top, shape) && root == r
      ensures z == Descend(Top, shape, key, cmp) && Focus(z, E) && !z.Top?
      ensures z.e.n == n && isLeft == z.InLeft? && n in nodes
    {
      hide Focus;
      RootFocus(shape);
      n := r;
      z := Top;
      ghost var t := shape;
      while true
        invariant Focus(z, t) && t.T? && t.e.n == n
        invariant Descend(z, t, key, cmp) == Descend(Top, shape, key, cmp)
        decreases t
      {
        AtFocus(z, t);
        if cmp(key, n.key) < 0 {
          Zoom(InLeft(z, t.c, t.e, t.r), t.l);
          z, t := InLeft(z, t.c, t.e, t.r), t.l;
          if n.left != null {
            n := n.left;
          } else {
            return n, true, z;
          }
        } else {
          Zoom(InRight(z, t.l, t.c, t.e), t.r);
          z, t := InRight(z, t.l, t.c, t.e), t.r;
          if n.right != null {
            n := n.right;
          } else {
            return n, false, z;
          }
        }
      }
    }

    lemma RootFocus(t: Shape)
      requires Focus(Top, t)
      ensures root == Root(t)
    {
    }

    lemma MaxFocus(z: Zip, t: Shape)
      requires Focus(z, t) && t.T?
      ensures Focus(MaxZip(z, t), MaxTree(t))
      decreases t
    {
      if t.r.T? {
        Zoom(InRight(z, t.l, t.c, t.e), t.r);
        MaxFocus(InRight(z, t.l, t.c, t.e), t.r);
      }
    }

    /** The last node of a nonempty subtree. */
    method Rightmost(r: Node, ghost z: Zip, ghost t: Shape) returns (n: Node)
      requires Focus(z, t) && t.T? && t.e.n == r
      ensures n == MaxTree(t).e.n && Focus(z, t)
    {
      hide Focus;
      n := r;
      ghost var y, s := z, t;
      AtFocus(y, s);
      while n.right != null
        invariant Focus(z, t) && Focus(y, s) && s.T? && s.e.n == n && MaxTree(s) == MaxTree(t)
        invariant n.right == Root(s.r)
        decreases s
      {
        Zoom(InRight(y, s.l, s.c, s.e), s.r);
        y, s := InRight(y, s.l, s.c, s.e), s.r;
        n := n.right;
        AtFocus(y, s);
      }
    }

    /** Overwrites what a node carries. */
    method Overwrite(node: Node, key: int, attr: int, ghost z: Zip, ghost t: Shape)
      requires Focus(z, t) && t.T? && t.e.n == node
      modifies node`key, node`attr
      ensures Focus(z, t.(e := Entry(node, key, attr)))
    {
      node.key := key;
      node.attr := attr;
    }

    /** Takes a node with at most one child out of its place; the node itself is left as it was. */
    method Detach(node: Node, c: Node?, ghost z: Zip, ghost t: Shape, ghost s: Shape)
      requires Focus(z, t) && t.T? && t.e.n == node && c == Root(s)
      requires s == (if t.l.T? then t.l else t.r) && (t.l.E? || t.r.E?)
      modifies this`root, this`nodes, nodes
      ensures nodes == old(nodes) - {node} && Focus(z, s) && node.color == t.c
    {
      hide TopRoot, IsZip, ZipIds, DistinctZip;
      InMemory(z, s);
      assert IsTree(s, node) && Distinct(s) && Ids(s) <= nodes && node !in Ids(s);
      if c != null {
        assert c !in Ids(s.l) && c !in Ids(s.r) && Ids(s.l) <= nodes && Ids(s.r) <= nodes;
        assert IsTree(s.l, c) && IsTree(s.r, c);
      }
      Replace(node, c, z);
      if c != null {
        assert IsTree(s.l, c) && IsTree(s.r, c);
      }
      nodes := nodes - {node};
    }

    method Leftmost(r: Node, ghost z: Zip, ghost t: Shape) returns (n: Node)
      requires Focus(z, t) && t.T? && t.e.n == r
      ensures n == MinTree(t).e.n && Focus(z, t)
    {
      hide Focus;
      n := r;
      ghost var y, s := z, t;
      AtFocus(y, s);
      while n.left != null
        invariant Focus(z, t) && Focus(y, s) && s.T? && s.e.n == n && MinTree(s) == MinTree(t)
        invariant n.left == Root(s.l)
        decreases s
      {
        Zoom(InLeft(y, s.c, s.e, s.r), s.l);
        y, s := InLeft(y, s.c, s.e, s.r), s.l;
        n := n.left;
        AtFocus(y, s);
      }
    }

    method InorderPredecessor(node: Node, ghost z: Zip, ghost t: Shape) returns (r: Node?)
      requires Focus(z, t) && t.T? && t.e.n == node
      ensures r == PredOf(z, t) && Focus(z, t)
    {
      hide Focus;
      AtFocus(z, t);
      if node.left != null {
        Zoom(InLeft(z, t.c, t.e, t.r), t.l);
        r := Rightmost(node.left, InLeft(z, t.c, t.e, t.r), t.l);
        Zoom(InLeft(z, t.c, t.e, t.r), t.l);
        MaxIsLast(z, t.l);
        return;
      }
      var n := node;
      ghost var y, s := z, t;
      while n.parent != null
        invariant Focus(z, t) && Focus(y, s) && s.T? && s.e.n == n && Before(y) == Before(z)
        invariant n.parent == Parent(y)
        decreases y
      {
        AtParent(y, s);
        if n == n.parent.right {
          return n.parent;
        }
        n := n.parent;
        Zoom(y, s);
        y, s := y.up, Fill(y, y.c, s);
        AtFocus(y, s);
      }
      return null;
    }

    method InorderSuccessor(node: Node, ghost z: Zip, ghost t: Shape) returns (r: Node?)
      requires Focus(z, t) && t.T? && t.e.n == node
      ensures r == SuccOf(z, t) && Focus(z, t)
    {
      hide Focus;
      AtFocus(z, t);
      if node.right != null {
        Zoom(InRight(z, t.l, t.c, t.e), t.r);
        r := Leftmost(node.right, InRight(z, t.l, t.c, t.e), t.r);
        Zoom(InRight(z, t.l, t.c, t.e), t.r);
        MinIsFirst(t.r);
        return;
      }
      var n := node;
      ghost var y, s := z, t;
      while n.parent != null
        invariant Focus(z, t) && Focus(y, s) && s.T? && s.e.n == n && After(y) == After(z)
        invariant n.parent == Parent(y)
        decreases y
      {
        AtParent(y, s);
        if n == n.parent.left {
          return n.parent;
        }
        n := n.parent;
        Zoom(y, s);
        y, s := y.up, Fill(y, y.c, s);
        AtFocus(y, s);
      }
      return null;
    }

    method Unlink(node: Node, ghost z: Zip, ghost t: Shape)
      requires Focus(z, t) && t.T? && t.e.n == node && (t.l.E? || t.r.E?) && NoRedRed(t)
      modifies this`root, this`nodes, nodes
      ensures nodes == old(nodes) - {node} && Focus(Top, Unlinked(z, t))
    {
      hide Focus;
      AtFocus(z, t);
      var c := if node.left != null then node.left else node.right;
      ghost var s := if t.l.T? then t.l else t.r;
      Detach(node, c, z, t, s);
      if node.color == Black && c != null {
        AtFocus(z, s);
        if c.color == Red {
          Turn(c, Black, z, s);
          PlugFocus(z, Paint(s, Black));
        } else {
          Delete1(c, z, s);
        }
      } else {
        PlugFocus(z, s);
      }
    }

    /** A node with two children takes over key and attr of its predecessor, which is to be taken out instead. */
    method Substitute(node: Node, ghost z: Zip, ghost t: Shape) returns (n: Node)
      requires Focus(z, t) && t.T? && t.l.T? && t.r.T? && t.e.n == node && Colored(Plug(z, t))
      modifies nodes
      ensures var y := Overwritten(z, t);
              && Focus(MaxZip(y, t.l), MaxTree(t.l)) && n == MaxTree(t.l).e.n && n in nodes
              && Colored(Plug(MaxZip(y, t.l), MaxTree(t.l)))
    {
      hide Focus, Colored, Plug;
      AtFocus(z, t);
      ghost var y, m := Overwritten(z, t), MaxTree(t.l);
      MaxIsLast(z, t.l);
      n := InorderPredecessor(node, z, t);
      Zoom(InLeft(z, t.c, t.e, t.r), t.l);
      MaxFocus(InLeft(z, t.c, t.e, t.r), t.l);
      AtFocus(MaxZip(InLeft(z, t.c, t.e, t.r), t.l), m);
      Overwrite(node, n.key, n.attr, z, t);
      Zoom(y, t.l);
      MaxFocus(y, t.l);
      OverwrittenColored(z, t);
      MaxPlug(y, t.l);
      AtFocus(MaxZip(y, t.l), m);
    }

    /** Deletes the entry of the node at the root of t; a node with two children takes over its predecessor's entry. */
    method DeleteAt(start: Node, ghost z0: Zip, ghost t0: Shape) returns (ghost freed: Node)
      requires Focus(z0, t0) && t0.T? && t0.e.n == start && Colored(Plug(z0, t0)) && numNodes > 0
      modifies this`root, this`nodes, this`numNodes, this`shape, nodes
      ensures freed in old(nodes) && nodes == old(nodes) - {freed} && Focus(Top, Deleted(z0, t0))
      ensures numNodes == old(numNodes) - 1 && shape == Deleted(z0, t0)
    {
      hide Focus;
      var node := start;
      ghost var z, t := z0, t0;
      AtFocus(z, t);
      while node.left != null && node.right != null
        invariant Focus(z, t) && t.T? && t.e.n == node && Colored(Plug(z, t))
        invariant nodes == old(nodes) && node in nodes && node.left == Root(t.l) && node.right == Root(t.r)
        invariant Deleted(z, t) == Deleted(z0, t0) && numNodes == old(numNodes)
        decreases if t.l.T? && t.r.T? then 1 else 0
      {
        ghost var y := Overwritten(z, t);
        node := Substitute(node, z, t);
        z, t := MaxZip(y, t.l), MaxTree(t.l);
        AtFocus(z, t);
      }
      NoRedRedPlug(z, t);
      Unlink(node, z, t);
      freed := node;
      Settle(numNodes - 1, Deleted(z0, t0));
    }

    method Delete(node: Node) returns (count: nat)
      requires Valid() && node in nodes
      modifies this, nodes
      ensures Valid() && count == numNodes == old(numNodes) - 1
      ensures exists freed :: freed in old(nodes) && nodes == old(nodes) - {freed}
      ensures exists i :: 0 <= i < |old(InOrder(shape))| && old(InOrder(shape))[i].n == node
                          && Contents(shape) == old(Contents(shape))[..i] + old(Contents(shape))[i + 1..]
    {
      hide Colored, TotalOrder, Sorted, Deleted, Contents, Focus, Before, PredOf, SuccOf;
      ghost var p := Contents(shape);
      ghost var z, t, i := PlaceOf(node);
      RemovalKeeps(z, t, i);
      ContentsLength(shape);
      ContentsLength(Deleted(z, t));
      ghost var freed := DeleteAt(node, z, t);
      count := numNodes;
    }

    lemma RemovalKeeps(z: Zip, t: Shape, i: nat)
      requires t.T? && Colored(Plug(z, t)) && Distinct(Plug(z, t)) && Sorted(Contents(Plug(z, t)), cmp)
      requires i < |InOrder(Plug(z, t))| && InOrder(Plug(z, t))[i] == t.e
      ensures Colored(Deleted(z, t)) && Sorted(Contents(Deleted(z, t)), cmp)
      ensures var p := Contents(Plug(z, t));
              i < |p| && Contents(Deleted(z, t)) == p[..i] + p[i + 1..]
    {
      hide Colored, Sorted, Deleted, Plug, InOrder, Before, After, PredOf, SuccOf, Distinct, Pairs;
      DeletionKeeps(z, t);
      Neighbours(z, t);
      PlaceUnique(Plug(z, t), |Before(z)| + |InOrder(t.l)|);
      SortedRemoval(Contents(Plug(z, t)), i, cmp);
    }

    method Search(key: int) returns (found: Node?)
      requires Valid()
      ensures found != null <==> Holds(Contents(shape), key, cmp)
      ensures found != null ==> found in nodes && cmp(key, found.key) == 0
    {
      hide Colored, TotalOrder, Sorted, Holds;
      FindExact(shape, key, cmp);
      var n := root;
      ghost var z, t := Top, shape;
      while n != null
        invariant Focus(z, t) && n == Root(t) && Find(t, key, cmp) == Find(shape, key, cmp)
        decreases t
      {
        AtFocus(z, t);
        var c := cmp(key, n.key);
        if c == 0 {
          return n;
        }
        if c < 0 {
          Zoom(InLeft(z, t.c, t.e, t.r), t.l);
          z, t := InLeft(z, t.c, t.e, t.r), t.l;
          n := n.left;
        } else {
          Zoom(InRight(z, t.l, t.c, t.e), t.r);
          z, t := InRight(z, t.l, t.c, t.e), t.r;
          n := n.right;
        }
      }
      return null;
    }

    method Minimum() returns (r: Node?)
      requires Valid()
      ensures Valid()
      ensures var s := InOrder(shape); r == if s == [] then null else s[0].n
    {
      if root == null {
        return null;
      }
      r := Leftmost(root, Top, shape);
      MinIsFirst(shape);
    }

    method Maximum() returns (r: Node?)
      requires Valid()
      ensures var s := InOrder(shape); r == if s == [] then null else s[|s| - 1].n
    {
      if root == null {
        return null;
      }
      r := Rightmost(root, Top, shape);
      MaxIsLast(Top, shape);
    }

    /** Where a node of the tree is, in memory and in order. */
    lemma PlaceOf(node: Node) returns (z: Zip, t: Shape, i: nat)
      requires Focus(Top, shape) && node in nodes
      ensures Focus(z, t) && Plug(z, t) == shape && t.T? && t.e.n == node && Distinct(shape)
      ensures var s := InOrder(shape);
              && i < |s| && s[i] == t.e && (forall j :: 0 <= j < |s| && s[j].n == node ==> j == i)
              && PredOf(z, t) == (if i > 0 then s[i - 1].n else null)
              && SuccOf(z, t) == (if i + 1 < |s| then s[i + 1].n else null)
    {
      hide Before, After, PredOf, SuccOf, InOrder;
      z, t := Locate(Top, shape, node);
      PlugFocus(z, t);
      Neighbours(z, t);
      i := |Before(z)| + |InOrder(t.l)|;
      PlaceUnique(shape, i);
    }

    method Predecessor(node: Node) returns (r: Node?)
      requires Valid() && node in nodes
      ensures Valid()
      ensures exists i :: 0 <= i < |InOrder(shape)| && InOrder(shape)[i].n == node
      ensures var s := InOrder(shape);
              forall i :: 0 <= i < |s| && s[i].n == node ==> r == if i > 0 then s[i - 1].n else null
    {
      hide Colored, TotalOrder, Sorted, PredOf, SuccOf, Focus;
      ghost var z, t, i := PlaceOf(node);
      r := InorderPredecessor(node, z, t);
      PlugFocus(z, t);
    }

    method Successor(node: Node) returns (r: Node?)
      requires Valid() && node in nodes
      ensures Valid()
      ensures exists i :: 0 <= i < |InOrder(shape)| && InOrder(shape)[i].n == node
      ensures var s := InOrder(shape);
              forall i :: 0 <= i < |s| && s[i].n == node ==> r == if i + 1 < |s| then s[i + 1].n else null
    {
      hide Colored, TotalOrder, Sorted, PredOf, SuccOf, Focus;
      ghost var z, t, i := PlaceOf(node);
      r := InorderSuccessor(node, z, t);
      PlugFocus(z, t);
    }

    /** Visits every entry from the minimum by successors; the visits are recorded. */
    method ForEach() returns (visited: seq<(int, int)>)
      requires Valid()
      ensures visited == Contents(shape)
    {
      hide Colored, TotalOrder, Sorted, Focus;
      visited := [];
      var node := Minimum();
      ghost var s, i := InOrder(shape), 0;
      while node != null
        invariant Valid() && 0 <= i <= |s| && visited == Contents(shape)[..i]
        invariant node == if i < |s| then s[i].n else null
        decreases |s| - i
      {
        EntryMemory(i);
        visited := visited + [(node.key, node.attr)];
        node := Successor(node);
        i := i + 1;
      }
    }

    lemma EntryMemory(i: nat)
      requires Focus(Top, shape) && i < |InOrder(shape)|
      ensures var e := InOrder(shape)[i]; e.n in nodes && e.n.key == e.key && e.n.attr == e.attr
    {
      EntryAt(shape, null, i);
    }
  }
}
