/**
  The red/black tree that indexes the database (bin/json.c, "rb.c").

  Nodes are heap objects with left, right and parent references. The tree owns two
  sentinels: `nil` stands for every missing child and `root` is a node whose left
  child is the real root.

  The ghost sequence `order` lists the linked nodes in order. Every node records
  its position in it and the half-open interval of positions its subtree covers,
  so the shape of the tree is a property of each node and its neighbours:
  a rotation changes the intervals of two nodes and nothing else.
*/
module RedBlack {
  import opened Order
  import opened Powers

  datatype Color = Red | Black

  class RbNode {
    var left: RbNode
    var right: RbNode
    var parent: RbNode
    var color: Color
    var data: Data
    ghost var pos: int   // position in the in-order sequence
    ghost var lo: int    // the subtree covers positions lo..hi
    ghost var hi: int
    ghost var bh: int    // black height, as checkHeight counts it

    constructor (color: Color, data: Data)
      ensures left == right == parent == this
      ensures this.color == color && this.data == data
      ensures bh == 1
    {
      left, right, parent := this, this, this;
      this.color, this.data := color, data;
      bh := 1;
    }
  }

  /** Position `at` splits the items into those not greater than `data` and those greater. */
  ghost predicate Splits(cmp: Compare, s: seq<Data>, data: Data, at: int) {
    && 0 <= at <= |s|
    && (forall i :: 0 <= i < at ==> cmp(data, s[i], NULL) >= 0)
    && (forall i :: at <= i < |s| ==> cmp(data, s[i], NULL) < 0)
  }

  /** rbInsert on the items: replace an equal item in place, or insert after every item not greater. */
  ghost predicate InsertStep(cmp: Compare, dup: bool, s: seq<Data>, data: Data, at: int, t: seq<Data>) {
    if !dup && 0 <= at < |s| && cmp(data, s[at], NULL) == 0 then t == s[at := data]
    else
      && Splits(cmp, s, data, at) && t == s[..at] + [data] + s[at..]
      && (!dup ==> forall i :: 0 <= i < |s| ==> cmp(data, s[i], NULL) != 0)
  }

  /** The item a replacement displaces. */
  ghost function Dropped(cmp: Compare, dup: bool, s: seq<Data>, data: Data, at: int): seq<Data> {
    if !dup && 0 <= at < |s| && cmp(data, s[at], NULL) == 0 then [s[at]] else []
  }

  lemma Around<T>(s: seq<T>, lo: int, p: int, hi: int)
    requires 0 <= lo <= p < hi <= |s|
    ensures s[lo..hi] == s[lo..p] + [s[p]] + s[p + 1..hi]
  {
  }

  lemma Reordered(l: seq<Data>, r: seq<Data>, a: seq<Data>, b: seq<Data>, d: Data)
    requires multiset(l) == multiset(a) && multiset(r) == multiset(b)
    ensures multiset(l + r + [d]) == multiset(a + [d] + b)
  {
  }

  lemma Square(a: nat, b: nat)
    requires a <= b
    ensures a * a <= b * b
  {
  }

  class RbTree {
    const root: RbNode
    const nil: RbNode
    const dup: bool
    const compare: Compare
    const hasFree: bool            // a free callback is installed
    var freed: seq<Data>           // the items passed to it, oldest first
    var min: RbNode?
    ghost var nodes: set<RbNode>
    ghost var order: seq<RbNode>
    ghost var doomed: RbNode?      // the node rbRemove is about to unlink

    // ---------------------------------------------------------------- shape

    ghost predicate Sentinels()
      reads this`nodes, root`right, root`color, nil`color, nil`bh
    {
      && root != nil && root !in nodes && nil !in nodes
      && nil.color == Black && root.color == Black
      && root.right == nil && nil.bh == 1
    }

    /** The node and its neighbours agree on links, positions and intervals. */
    ghost predicate Linked(n: RbNode)
      requires n in nodes
      reads this`nodes, this`order, root`left
      reads nodes`left, nodes`right, nodes`parent, nodes`lo, nodes`hi, nodes`pos
    {
      LinkedUp(n) && LinkedLeft(n) && LinkedRight(n)
    }

    ghost predicate LinkedUp(n: RbNode)
      requires n in nodes
      reads this`nodes, this`order, root`left
      reads nodes`left, nodes`right, nodes`parent, nodes`lo, nodes`hi, nodes`pos
    {
      && 0 <= n.lo <= n.pos < n.hi <= |order| && order[n.pos] == n
      && (n.parent == root ==> root.left == n)
      && (n.parent != root ==> n.parent in nodes && (n.parent.left == n || n.parent.right == n))
    }

    ghost predicate LinkedLeft(n: RbNode)
      requires n in nodes
      reads this`nodes
      reads nodes`left, nodes`parent, nodes`lo, nodes`hi, nodes`pos
    {
      && (n.left == nil ==> n.lo == n.pos)
      && (n.left != nil ==> n.left in nodes && n.left.parent == n && n.left.lo == n.lo && n.left.hi == n.pos)
    }

    ghost predicate LinkedRight(n: RbNode)
      requires n in nodes
      reads this`nodes
      reads nodes`right, nodes`parent, nodes`lo, nodes`hi, nodes`pos
    {
      && (n.right == nil ==> n.hi == n.pos + 1)
      && (n.right != nil ==> n.right in nodes && n.right.parent == n && n.right.lo == n.pos + 1 && n.right.hi == n.hi)
    }

    ghost predicate Shape()
      reads this`nodes, this`order, root`left, root`right, root`color, nil`color, nil`bh
      reads nodes`left, nodes`right, nodes`parent, nodes`lo, nodes`hi, nodes`pos
    {
      && Sentinels()
      && (root.left == nil ==> order == [])
      && (root.left != nil ==> root.left in nodes && root.left.parent == root
                               && root.left.lo == 0 && root.left.hi == |order|)
      && (forall n {:trigger Linked(n)} :: n in nodes ==> Linked(n))
      && (forall i {:trigger order[i]} :: 0 <= i < |order| ==> order[i] in nodes && order[i].pos == i)
    }

    constructor (dup: bool, compare: Compare, hasFree: bool)
      requires TotalPreorder(compare)
      ensures Valid() && Items() == [] && nodes == {} && freed == []
      ensures this.dup == dup && this.compare == compare && this.hasFree == hasFree
      ensures fresh(root) && fresh(nil)
    {
      nil := new RbNode(Black, NULL);
      root := new RbNode(Black, NULL);
      this.dup, this.compare, this.hasFree, freed := dup, compare, hasFree, [];
      min, nodes, order, doomed := null, {}, [], null;
      new;
      root.left, root.right, root.parent := nil, nil, nil;
    }

    // What the shape invariant says about a node, its parent and its right (left) child.
    lemma AroundRight(x: RbNode)
      requires Shape() && x in nodes && x.right != nil
      ensures Linked(x) && Linked(x.right)
      ensures x.parent != root ==> Linked(x.parent)
      ensures x.right.left != nil ==> Linked(x.right.left)
      ensures x != x.right && x.parent !in {x, x.right} && x.right.left !in {x, x.right, x.parent}
      ensures x.parent.left == x <==> x.parent.right != x
    {
      assert Linked(x) && Linked(x.right);
      assert x.parent != root ==> Linked(x.parent);
      assert x.right.left != nil ==> Linked(x.right.left);
    }

    lemma AroundLeft(x: RbNode)
      requires Shape() && x in nodes && x.left != nil
      ensures Linked(x) && Linked(x.left)
      ensures x.parent != root ==> Linked(x.parent)
      ensures x.left.right != nil ==> Linked(x.left.right)
      ensures x != x.left && x.parent !in {x, x.left} && x.left.right !in {x, x.left, x.parent}
      ensures x.parent.left == x <==> x.parent.right != x
    {
      assert Linked(x) && Linked(x.left);
      assert x.parent != root ==> Linked(x.parent);
      assert x.left.right != nil ==> Linked(x.left.right);
    }

    /** Every link after rotating `x` down to the left; y is the child that rises, b the subtree that moves across. */
    twostate predicate RotatedLeft(x: RbNode, y: RbNode, b: RbNode, p: RbNode)
      reads this, root, nodes
    {
      && nodes == old(nodes)
      && (forall n: RbNode {:trigger n.left} :: n in nodes ==>
            n.left == (if n == y then x else if n == p && old(p.left) == x then y else old(n.left)))
      && (forall n: RbNode {:trigger n.right} :: n in nodes ==>
            n.right == (if n == x then b else if n == p && old(p.left) != x then y else old(n.right)))
      && (forall n: RbNode {:trigger n.parent} :: n in nodes ==>
            n.parent == (if n == x then y else if n == y then p else if n == b then x else old(n.parent)))
      && root.left == (if p == root then y else old(root.left))
    }

    // The pointer assignments of the source, one for one.
    method RelinkLeft(x: RbNode)
      requires {x, x.right} <= nodes && root !in nodes && nil !in nodes && nil != root
      requires x.parent in nodes + {root} && x.right.left in nodes + {nil}
      requires x != x.right && x.parent !in {x, x.right} && x.right.left !in {x, x.right, x.parent}
      requires x.parent.left == x <==> x.parent.right != x
      requires x.parent == root ==> root.left == x
      modifies nodes`left, nodes`right, nodes`parent, root`left
      ensures RotatedLeft(x, old(x.right), old(x.right.left), old(x.parent))
    {
      var y := x.right;
      x.right := y.left;
      if x.right != nil {
        x.right.parent := x;
      }
      y.parent := x.parent;
      if x == x.parent.left {
        x.parent.left := y;
      } else {
        x.parent.right := y;
      }
      y.left := x;
      x.parent := y;
    }

    twostate predicate SpansLeft(x: RbNode, y: RbNode)
      reads this, nodes
    {
      && nodes == old(nodes)
      && (forall n: RbNode {:trigger n.lo} :: n in nodes ==>
            n.lo == (if n == y then old(x.lo) else old(n.lo)))
      && (forall n: RbNode {:trigger n.hi} :: n in nodes ==>
            n.hi == (if n == y then old(x.hi) else if n == x then old(y.pos) else old(n.hi)))
    }

    twostate lemma RotatedLeftUp(x: RbNode)
      requires old(Shape()) && x in old(nodes) && old(x.right) != nil && Sentinels()
      requires nodes == old(nodes) && order == old(order) && forall m :: m in nodes ==> m.pos == old(m.pos)
      requires RotatedLeft(x, old(x.right), old(x.right.left), old(x.parent)) && SpansLeft(x, old(x.right))
      ensures forall n {:trigger LinkedUp(n)} :: n in nodes ==> LinkedUp(n)
    {
      var y, p, b := old(x.right), old(x.parent), old(x.right.left);
      assert old(Linked(x)) && old(Linked(y));
      assert p != root ==> old(Linked(p));
      assert b != nil ==> old(Linked(b));
      forall n | n in nodes ensures LinkedUp(n) {
        assert old(Linked(n));
      }
    }

    twostate lemma RotatedLeftDown(x: RbNode)
      requires old(Shape()) && x in old(nodes) && old(x.right) != nil && Sentinels()
      requires nodes == old(nodes) && order == old(order) && forall m :: m in nodes ==> m.pos == old(m.pos)
      requires RotatedLeft(x, old(x.right), old(x.right.left), old(x.parent)) && SpansLeft(x, old(x.right))
      ensures forall n {:trigger LinkedLeft(n)} {:trigger LinkedRight(n)} :: n in nodes ==> LinkedLeft(n) && LinkedRight(n)
    {
      var y, p, b := old(x.right), old(x.parent), old(x.right.left);
      assert old(Linked(x)) && old(Linked(y));
      assert p != root ==> old(Linked(p));
      assert b != nil ==> old(Linked(b));
      forall n | n in nodes ensures LinkedLeft(n) && LinkedRight(n) {
        assert old(Linked(n));
      }
    }

    twostate lemma RotateLeftShape(x: RbNode)
      requires old(Shape()) && x in old(nodes) && old(x.right) != nil && Sentinels()
      requires nodes == old(nodes) && order == old(order) && forall m :: m in nodes ==> m.pos == old(m.pos)
      requires RotatedLeft(x, old(x.right), old(x.right.left), old(x.parent)) && SpansLeft(x, old(x.right))
      ensures Shape()
    {
      RotatedLeftUp(x);
      RotatedLeftDown(x);
      assert old(Linked(x));
      forall n | n in nodes ensures Linked(n) {
        var _ := LinkedUp(n) && LinkedLeft(n) && LinkedRight(n);
      }
    }

    /** rotateLeft: the in-order sequence and the shape invariant survive; colours and items are not touched. */
    method RotateLeft(x: RbNode)
      requires Shape() && x in nodes && x.right != nil
      modifies nodes`left, nodes`right, nodes`parent, nodes`lo, nodes`hi, root`left
      ensures Shape()
      ensures RotatedLeft(x, old(x.right), old(x.right.left), old(x.parent)) && SpansLeft(x, old(x.right))
    {
      AroundRight(x);
      ghost var y := x.right;
      RelinkLeft(x);
      y.lo, y.hi, x.hi := x.lo, x.hi, y.pos;
      RotateLeftShape(x);
    }

    /** Every link after rotating `x` down to the right; y is the child that rises, b the subtree that moves across. */
    twostate predicate RotatedRight(x: RbNode, y: RbNode, b: RbNode, p: RbNode)
      reads this, root, nodes
    {
      && nodes == old(nodes)
      && (forall n: RbNode {:trigger n.right} :: n in nodes ==>
            n.right == (if n == y then x else if n == p && old(p.left) != x then y else old(n.right)))
      && (forall n: RbNode {:trigger n.left} :: n in nodes ==>
            n.left == (if n == x then b else if n == p && old(p.left) == x then y else old(n.left)))
      && (forall n: RbNode {:trigger n.parent} :: n in nodes ==>
            n.parent == (if n == x then y else if n == y then p else if n == b then x else old(n.parent)))
      && root.left == (if p == root then y else old(root.left))
    }

    // The pointer assignments of the source, one for one.
    method RelinkRight(x: RbNode)
      requires {x, x.left} <= nodes && root !in nodes && nil !in nodes && nil != root
      requires x.parent in nodes + {root} && x.left.right in nodes + {nil}
      requires x != x.left && x.parent !in {x, x.left} && x.left.right !in {x, x.left, x.parent}
      requires x.parent.left == x <==> x.parent.right != x
      requires x.parent == root ==> root.left == x
      modifies nodes`left, nodes`right, nodes`parent, root`left
      ensures RotatedRight(x, old(x.left), old(x.left.right), old(x.parent))
    {
      var y := x.left;
      x.left := y.right;
      if x.left != nil {
        x.left.parent := x;
      }
      y.parent := x.parent;
      if x == x.parent.left {
        x.parent.left := y;
      } else {
        x.parent.right := y;
      }
      y.right := x;
      x.parent := y;
    }

    twostate predicate SpansRight(x: RbNode, y: RbNode)
      reads this, nodes
    {
      && nodes == old(nodes)
      && (forall n: RbNode {:trigger n.lo} :: n in nodes ==>
            n.lo == (if n == y then old(x.lo) else if n == x then old(y.pos) + 1 else old(n.lo)))
      && (forall n: RbNode {:trigger n.hi} :: n in nodes ==>
            n.hi == (if n == y then old(x.hi) else old(n.hi)))
    }

    twostate lemma RotatedRightUp(x: RbNode)
      requires old(Shape()) && x in old(nodes) && old(x.left) != nil && Sentinels()
      requires nodes == old(nodes) && order == old(order) && forall m :: m in nodes ==> m.pos == old(m.pos)
      requires RotatedRight(x, old(x.left), old(x.left.right), old(x.parent)) && SpansRight(x, old(x.left))
      ensures forall n {:trigger LinkedUp(n)} :: n in nodes ==> LinkedUp(n)
    {
      var y, p, b := old(x.left), old(x.parent), old(x.left.right);
      assert old(Linked(x)) && old(Linked(y));
      assert p != root ==> old(Linked(p));
      assert b != nil ==> old(Linked(b));
      forall n | n in nodes ensures LinkedUp(n) {
        assert old(Linked(n));
      }
    }

    twostate lemma RotatedRightDown(x: RbNode)
      requires old(Shape()) && x in old(nodes) && old(x.left) != nil && Sentinels()
      requires nodes == old(nodes) && order == old(order) && forall m :: m in nodes ==> m.pos == old(m.pos)
      requires RotatedRight(x, old(x.left), old(x.left.right), old(x.parent)) && SpansRight(x, old(x.left))
      ensures forall n {:trigger LinkedLeft(n)} {:trigger LinkedRight(n)} :: n in nodes ==> LinkedLeft(n) && LinkedRight(n)
    {
      var y, p, b := old(x.left), old(x.parent), old(x.left.right);
      assert old(Linked(x)) && old(Linked(y));
      assert p != root ==> old(Linked(p));
      assert b != nil ==> old(Linked(b));
      forall n | n in nodes ensures LinkedLeft(n) && LinkedRight(n) {
        assert old(Linked(n));
      }
    }

    twostate lemma RotateRightShape(x: RbNode)
      requires old(Shape()) && x in old(nodes) && old(x.left) != nil && Sentinels()
      requires nodes == old(nodes) && order == old(order) && forall m :: m in nodes ==> m.pos == old(m.pos)
      requires RotatedRight(x, old(x.left), old(x.left.right), old(x.parent)) && SpansRight(x, old(x.left))
      ensures Shape()
    {
      RotatedRightUp(x);
      RotatedRightDown(x);
      assert old(Linked(x));
      forall n | n in nodes ensures Linked(n) {
        var _ := LinkedUp(n) && LinkedLeft(n) && LinkedRight(n);
      }
    }

    /** rotateRight: the in-order sequence and the shape invariant survive; colours and items are not touched. */
    method RotateRight(x: RbNode)
      requires Shape() && x in nodes && x.left != nil
      modifies nodes`left, nodes`right, nodes`parent, nodes`lo, nodes`hi, root`left
      ensures Shape()
      ensures RotatedRight(x, old(x.left), old(x.left.right), old(x.parent)) && SpansRight(x, old(x.left))
    {
      AroundLeft(x);
      ghost var y := x.left;
      RelinkRight(x);
      y.lo, y.hi, x.lo := x.lo, x.hi, y.pos + 1;
      RotateRightShape(x);
    }

    // ---------------------------------------------------------------- colours

    /** checkHeight's equation at one node: both subtrees have the same black height. */
    ghost predicate Balanced(n: RbNode)
      requires n in nodes
      reads this`nodes, nodes`left, nodes`right, nodes`color, nodes`bh, nil`bh
    {
      && (n.left == nil || n.left in nodes) && (n.right == nil || n.right in nodes)
      && 1 <= n.left.bh == n.right.bh && n.bh == n.left.bh + (if n.color.Black? then 1 else 0)
    }

    /** No red node has a red child, `exempt` apart. */
    ghost predicate RedsApart(n: RbNode, exempt: RbNode)
      requires n in nodes
      reads this`nodes, nodes`left, nodes`right, nodes`color, nil`color
    {
      && (n.left == nil || n.left in nodes) && (n.right == nil || n.right in nodes)
      && (n.color.Red? ==> (n.left.color.Black? || n.left == exempt) && (n.right.color.Black? || n.right == exempt))
    }

    /** Every black-height equation holds, except at `p` and at the node being removed. */
    ghost predicate BalancedBut(p: RbNode)
      reads this`nodes, this`doomed, nodes`left, nodes`right, nodes`color, nodes`bh, nil`bh
    {
      forall n {:trigger Balanced(n)} :: n in nodes && n != p && n != doomed ==> Balanced(n)
    }

    /** The only red-red edge, if any, leads to `c`. */
    ghost predicate RedsApartBut(c: RbNode)
      reads this`nodes, nodes`left, nodes`right, nodes`color, nil`color
    {
      forall n {:trigger RedsApart(n, c)} :: n in nodes ==> RedsApart(n, c)
    }

    // ---------------------------------------------------------------- insertion

    /** The state of insertFixup's loop. */
    ghost predicate Climbing(c: RbNode)
      reads this, root, nil, nodes
    {
      && Shape() && c in nodes && c.color.Red? && doomed == null
      && (root.left.color.Black? || c == root.left)
      && BalancedBut(nil) && RedsApartBut(c)
    }

    lemma AboveRed(c: RbNode)
      requires Climbing(c) && c.parent.color.Red?
      ensures Linked(c) && c.parent in nodes && Linked(c.parent)
      ensures c.parent.parent in nodes && Linked(c.parent.parent) && c.parent.parent.color.Black?
      ensures c.parent.parent.parent != root ==> Linked(c.parent.parent.parent)
    {
      assert Linked(c) && Linked(c.parent);
      if c.parent.parent == root {
        assert false;
      }
      assert Linked(c.parent.parent) && RedsApart(c.parent.parent, c);
      assert c.parent.parent.parent != root ==> Linked(c.parent.parent.parent);
    }

    lemma TwoUp(c: RbNode)
      requires Climbing(c) && c.parent.color.Red? && c.parent in nodes && c.parent.parent in nodes && Linked(c) && Linked(c.parent)
      requires c.parent.parent.color.Black?
      ensures c.parent.parent.bh == c.bh + 1
    {
      assert Balanced(c.parent) && Balanced(c.parent.parent);
    }

    twostate predicate Split(p: RbNode, u: RbNode, g: RbNode)
      reads this, nodes
    {
      && nodes == old(nodes) && doomed == old(doomed)
      && (forall n: RbNode {:trigger n.color} :: n in nodes ==>
            n.color == (if n == g then Red else if n == p || n == u then Black else old(n.color)))
      && (forall n: RbNode {:trigger n.bh} :: n in nodes ==>
            n.bh == old(n.bh) + (if n == p || n == u then 1 else 0))
      && (forall n :: n in nodes ==> n.left == old(n.left) && n.right == old(n.right))
    }

    twostate lemma SplitColours(c: RbNode)
      requires old(Climbing(c)) && Shape() && c.parent == old(c.parent) && c.parent.parent == old(c.parent.parent)
      requires var p := c.parent; var g := p.parent; var u := if p == g.left then g.right else g.left;
        && p in nodes && g in nodes && u in nodes && p in {g.left, g.right} && nodes == old(nodes)
        && old(p.color).Red? && old(u.color).Red? && Split(p, u, g)
      ensures var g := c.parent.parent; BalancedBut(nil) && RedsApartBut(g)
    {
      var p := c.parent; var g := p.parent; var u := if p == g.left then g.right else g.left;
      assert Linked(c) && Linked(p) && Linked(g) && Linked(u);
      assert old(RedsApart(g, c)) && old(RedsApart(p, c)) && old(RedsApart(u, c));
      forall n | n in nodes ensures Balanced(n) && RedsApart(n, g) {
        assert old(Balanced(n)) && old(RedsApart(n, c)) && Linked(n);
      }
    }

    method Recolour(parent: RbNode, uncle: RbNode, grand: RbNode)
      requires parent != uncle && parent != grand && uncle != grand
      modifies parent`color, uncle`color, grand`color, parent`bh, uncle`bh
      ensures parent.color.Black? && uncle.color.Black? && grand.color.Red?
      ensures parent.bh == old(parent.bh) + 1 && uncle.bh == old(uncle.bh) + 1
    {
      parent.color := Black;
      uncle.color := Black;
      parent.bh, uncle.bh := parent.bh + 1, uncle.bh + 1;
      grand.color := Red;
    }

    // A red uncle: recolour and climb two levels.
    method SplitLeft(current: RbNode) returns (next: RbNode)
      requires Climbing(current) && current.parent.color.Red? && current.parent == current.parent.parent.left
      requires current.parent.parent.right.color.Red?
      modifies nodes`color, nodes`bh
      ensures next == old(current.parent.parent) && Climbing(next) && next.bh == old(current.bh) + 1
    {
      AboveRed(current);
      TwoUp(current);
      var uncle := current.parent.parent.right;
      assert Linked(uncle);
      next := current.parent.parent;
      Recolour(current.parent, uncle, next);
      SplitColours(current);
    }

    // A black uncle and an inner grandchild: rotate it outwards.
    method TurnOutLeft(current: RbNode) returns (next: RbNode)
      requires Climbing(current) && current.parent.color.Red? && current.parent == current.parent.parent.left
      requires current == current.parent.right
      modifies nodes`left, nodes`right, nodes`parent, nodes`lo, nodes`hi, root`left
      ensures next == old(current.parent) && Climbing(next)
      ensures next.parent.color.Red? && next == next.parent.left && next.parent == next.parent.parent.left
      ensures next.parent.parent == old(current.parent.parent) && next.parent.parent.right == old(current.parent.parent.right)
    {
      AboveRed(current);
      next := current.parent;
      RotateLeft(next);
      TurnedOutLeft(current);
    }

    twostate lemma TurnedOutLeft(c: RbNode)
      requires old(Climbing(c)) && old(c.parent.color).Red? && old(c.parent.parent.left == c.parent && c.parent.right == c)
      requires Shape() && nodes == old(nodes) && doomed == old(doomed)
      requires forall n :: n in nodes ==> n.color == old(n.color) && n.bh == old(n.bh)
      requires old(c.parent) in nodes && old(c.parent.parent) in nodes && RotatedLeft(old(c.parent), c, old(c.left), old(c.parent.parent))
      ensures Climbing(old(c.parent))
    {
      var p, g := old(c.parent), old(c.parent.parent);
      assert old(RedsApart(c, c)) && old(RedsApart(p, c)) && old(RedsApart(g, c)) && old(Linked(p)) && old(Linked(g)) && old(Linked(c));
      assert old(Balanced(p)) && old(Balanced(c)) && old(Balanced(g));
      forall n | n in nodes ensures Balanced(n) && RedsApart(n, p) {
        assert old(Balanced(n)) && old(RedsApart(n, c)) && old(Linked(n)) && Linked(n);
      }
    }

    // A black uncle and an outer grandchild: recolour and rotate the grandparent down.
    method RaiseLeft(current: RbNode)
      requires Climbing(current) && current.parent.color.Red? && current.parent == current.parent.parent.left
      requires current == current.parent.left && current.parent.parent.right.color.Black?
      modifies nodes`left, nodes`right, nodes`parent, nodes`lo, nodes`hi, nodes`color, nodes`bh, root`left
      ensures Climbing(current) && current.parent.color.Black?
    {
      AboveRed(current);
      ghost var p, g := current.parent, current.parent.parent;
      current.parent.color := Black;
      current.parent.parent.color := Red;
      p.bh, g.bh := p.bh + 1, g.bh - 1;
      RotateRight(current.parent.parent);
      RaisedLeft(current);
    }

    twostate lemma RaisedLeft(c: RbNode)
      requires old(Climbing(c)) && old(c.parent.color).Red? && old(c.parent.parent.left == c.parent && c.parent.left == c)
      requires old(c.parent.parent.right.color).Black?
      requires Shape() && nodes == old(nodes) && doomed == old(doomed)
      requires old(c.parent) in nodes && old(c.parent.parent) in nodes
      requires var p, g := old(c.parent), old(c.parent.parent);
        && (forall n: RbNode {:trigger n.color} :: n in nodes ==>
              n.color == if n == p then Black else if n == g then Red else old(n.color))
        && (forall n: RbNode {:trigger n.bh} :: n in nodes ==>
              n.bh == old(n.bh) + (if n == p then 1 else if n == g then -1 else 0))
        && RotatedRight(g, p, old(c.parent.right), old(c.parent.parent.parent))
      ensures Climbing(c) && c.parent.color.Black?
    {
      var p, g := old(c.parent), old(c.parent.parent);
      assert old(RedsApart(c, c)) && old(RedsApart(p, c)) && old(RedsApart(g, c)) && old(Linked(p)) && old(Linked(g)) && old(Linked(c));
      assert old(Balanced(p)) && old(Balanced(c)) && old(Balanced(g));
      forall n | n in nodes ensures Balanced(n) && RedsApart(n, c) {
        assert old(Balanced(n)) && old(RedsApart(n, c)) && old(Linked(n)) && Linked(n);
      }
    }

    // A red uncle: recolour and climb two levels.
    method SplitRight(current: RbNode) returns (next: RbNode)
      requires Climbing(current) && current.parent.color.Red? && current.parent == current.parent.parent.right
      requires current.parent.parent.left.color.Red?
      modifies nodes`color, nodes`bh
      ensures next == old(current.parent.parent) && Climbing(next) && next.bh == old(current.bh) + 1
    {
      AboveRed(current);
      TwoUp(current);
      var uncle := current.parent.parent.left;
      assert Linked(uncle);
      next := current.parent.parent;
      Recolour(current.parent, uncle, next);
      SplitColours(current);
    }

    // A black uncle and an inner grandchild: rotate it outwards.
    method TurnOutRight(current: RbNode) returns (next: RbNode)
      requires Climbing(current) && current.parent.color.Red? && current.parent == current.parent.parent.right
      requires current == current.parent.left
      modifies nodes`right, nodes`left, nodes`parent, nodes`lo, nodes`hi, root`left
      ensures next == old(current.parent) && Climbing(next)
      ensures next.parent.color.Red? && next == next.parent.right && next.parent == next.parent.parent.right
      ensures next.parent.parent == old(current.parent.parent) && next.parent.parent.left == old(current.parent.parent.left)
    {
      AboveRed(current);
      next := current.parent;
      RotateRight(next);
      TurnedOutRight(current);
    }

    twostate lemma TurnedOutRight(c: RbNode)
      requires old(Climbing(c)) && old(c.parent.color).Red? && old(c.parent.parent.right == c.parent && c.parent.left == c)
      requires Shape() && nodes == old(nodes) && doomed == old(doomed)
      requires forall n :: n in nodes ==> n.color == old(n.color) && n.bh == old(n.bh)
      requires old(c.parent) in nodes && old(c.parent.parent) in nodes && RotatedRight(old(c.parent), c, old(c.right), old(c.parent.parent))
      ensures Climbing(old(c.parent))
    {
      var p, g := old(c.parent), old(c.parent.parent);
      assert old(RedsApart(c, c)) && old(RedsApart(p, c)) && old(RedsApart(g, c)) && old(Linked(p)) && old(Linked(g)) && old(Linked(c));
      assert old(Balanced(p)) && old(Balanced(c)) && old(Balanced(g));
      forall n | n in nodes ensures Balanced(n) && RedsApart(n, p) {
        assert old(Balanced(n)) && old(RedsApart(n, c)) && old(Linked(n)) && Linked(n);
      }
    }

    // A black uncle and an outer grandchild: recolour and rotate the grandparent down.
    method RaiseRight(current: RbNode)
      requires Climbing(current) && current.parent.color.Red? && current.parent == current.parent.parent.right
      requires current == current.parent.right && current.parent.parent.left.color.Black?
      modifies nodes`right, nodes`left, nodes`parent, nodes`lo, nodes`hi, nodes`color, nodes`bh, root`left
      ensures Climbing(current) && current.parent.color.Black?
    {
      AboveRed(current);
      ghost var p, g := current.parent, current.parent.parent;
      current.parent.color := Black;
      current.parent.parent.color := Red;
      p.bh, g.bh := p.bh + 1, g.bh - 1;
      RotateLeft(current.parent.parent);
      RaisedRight(current);
    }

    twostate lemma RaisedRight(c: RbNode)
      requires old(Climbing(c)) && old(c.parent.color).Red? && old(c.parent.parent.right == c.parent && c.parent.right == c)
      requires old(c.parent.parent.left.color).Black?
      requires Shape() && nodes == old(nodes) && doomed == old(doomed)
      requires old(c.parent) in nodes && old(c.parent.parent) in nodes
      requires var p, g := old(c.parent), old(c.parent.parent);
        && (forall n: RbNode {:trigger n.color} :: n in nodes ==>
              n.color == if n == p then Black else if n == g then Red else old(n.color))
        && (forall n: RbNode {:trigger n.bh} :: n in nodes ==>
              n.bh == old(n.bh) + (if n == p then 1 else if n == g then -1 else 0))
        && RotatedLeft(g, p, old(c.parent.left), old(c.parent.parent.parent))
      ensures Climbing(c) && c.parent.color.Black?
    {
      var p, g := old(c.parent), old(c.parent.parent);
      assert old(RedsApart(c, c)) && old(RedsApart(p, c)) && old(RedsApart(g, c)) && old(Linked(p)) && old(Linked(g)) && old(Linked(c));
      assert old(Balanced(p)) && old(Balanced(c)) && old(Balanced(g));
      forall n | n in nodes ensures Balanced(n) && RedsApart(n, c) {
        assert old(Balanced(n)) && old(RedsApart(n, c)) && old(Linked(n)) && Linked(n);
      }
    }

    /** A subtree with all black-height equations in it has at least 2^(black height - 1) - 1 nodes. */
    lemma {:induction false} BlackHeightWithin(n: RbNode, p: RbNode)
      requires Shape() && (n == nil || n in nodes) && BalancedBut(p) && (p in nodes && n != nil ==> n.hi - n.lo < p.hi - p.lo)
      requires doomed != null ==> doomed in nodes && doomed.bh == 1
      ensures n.bh >= 1 && (n != nil ==> Pow2(n.bh - 1) <= n.hi - n.lo + 1)
      decreases if n == nil then 0 else n.hi - n.lo
    {
      if n != nil {
        assert Linked(n) && (n != doomed ==> Balanced(n));
        if n != doomed {
          BlackHeightWithin(n.left, p);
          BlackHeightWithin(n.right, p);
        }
      }
    }

    // So many steps up from a node of black height 1 fit into the tree.
    lemma StepsWithin(n: RbNode, p: RbNode, steps: nat)
      requires Shape() && n in nodes && BalancedBut(p) && (p in nodes ==> n.hi - n.lo < p.hi - p.lo)
      requires doomed != null ==> doomed in nodes && doomed.bh == 1
      requires steps < n.bh
      ensures Pow2(steps + 1) <= 2 * (|order| + 1) && Pow2(steps) <= 2 * (|order| + 1)
    {
      BlackHeightWithin(n, p);
      Pow2Monotone(steps, n.bh - 1);
      assert Linked(n);
    }

    /** insertFixup: the red-red edge below `c` is gone; only the first node may have been left red. */
    method InsertFixup(c: RbNode) returns (ghost steps: nat)
      requires Climbing(c) && c.parent.color.Red?
      modifies nodes`left, nodes`right, nodes`parent, nodes`lo, nodes`hi, nodes`color, nodes`bh, root`left
      ensures Shape() && BalancedBut(nil) && RedsApartBut(nil)
      ensures Pow2(steps) <= 2 * (|order| + 1)
    {
      var current := c;
      steps := 0;
      assert Balanced(c);
      while current.parent.color == Red
        invariant Climbing(current) && (current.parent.color.Red? ==> steps < current.bh) && Pow2(steps) <= 2 * (|order| + 1)
        // a recolouring step climbs two levels, a rotation ends the loop
        decreases if current.parent.color.Red? then 1 else 0, |order| - (current.hi - current.lo)
      {
        AboveRed(current);
        StepsWithin(current, nil, steps);
        steps := steps + 1;
        if current.parent == current.parent.parent.left {
          var uncle := current.parent.parent.right;
          if uncle.color == Red {
            current := SplitLeft(current);
          } else {
            if current == current.parent.right {
              current := TurnOutLeft(current);
            }
            RaiseLeft(current);
          }
        } else {
          var uncle := current.parent.parent.left;
          if uncle.color == Red {
            current := SplitRight(current);
          } else {
            if current == current.parent.left {
              current := TurnOutRight(current);
            }
            RaiseRight(current);
          }
        }
      }
      Climbed(current);
    }

    lemma Climbed(c: RbNode)
      requires Climbing(c) && c.parent.color.Black?
      ensures RedsApartBut(nil)
    {
      forall n | n in nodes ensures RedsApart(n, nil) {
        assert RedsApart(n, c) && Linked(n);
      }
    }

    // ---------------------------------------------------------------- contents

    /** The items in order. */
    ghost function Items(): (s: seq<Data>)
      requires Shape()
      reads this`nodes, this`order, root`left, root`right, root`color, nil`color, nil`bh
      reads nodes`left, nodes`right, nodes`parent, nodes`lo, nodes`hi, nodes`pos, nodes`data
      ensures |s| == |order| && forall i {:trigger s[i]} {:trigger order[i]} :: 0 <= i < |s| ==> s[i] == order[i].data
    {
      ItemsOf(order)
    }

    ghost function ItemsOf(ns: seq<RbNode>): (s: seq<Data>)
      reads set n | n in ns :: n`data
      decreases |ns|
      ensures |s| == |ns| && forall i {:trigger s[i]} {:trigger ns[i]} :: 0 <= i < |s| ==> s[i] == ns[i].data
    {
      if ns == [] then [] else
        assert ns[0] in ns && forall n :: n in ns[1..] ==> n in ns;
        [ns[0].data] + ItemsOf(ns[1..])
    }

    /** Every rule about colours and black heights. */
    ghost predicate Coloured()
      reads this, root, nil, nodes
    {
      Shape() && BalancedBut(nil) && RedsApartBut(nil) && doomed == null && root.left.color.Black?
    }

    ghost predicate Valid()
      reads this, root, nil, nodes
    {
      && Coloured()
      && TotalPreorder(compare) && Sorted(compare, dup, Items())
      && min == (if order == [] then null else order[0])
    }

    // ---------------------------------------------------------------- inserting

    /** The empty child slot below `parent` that lies at position k of the order. */
    ghost predicate Slot(parent: RbNode, asLeft: bool, k: int)
      requires Shape()
      reads this, root, nil, nodes
    {
      if parent == root then asLeft && k == 0 && root.left == nil
      else parent in nodes && (if asLeft then parent.left == nil && k == parent.pos else parent.right == nil && k == parent.pos + 1)
    }

    /** Positions from k on move up by one; the intervals that cover `at` grow, those behind it move up. */
    twostate predicate Shifted(at: int, k: int)
      reads this, nodes
    {
      && old(nodes) <= nodes
      && (forall m: RbNode {:trigger m.hi} :: m in old(nodes) ==>
            m.hi == old(m.hi) + (if old(m.lo) <= at < old(m.hi) || k <= old(m.lo) then 1 else 0))
      && (forall m: RbNode {:trigger m.lo} :: m in old(nodes) ==>
            m.lo == old(m.lo) + (if !(old(m.lo) <= at < old(m.hi)) && k <= old(m.lo) then 1 else 0))
      && (forall m: RbNode {:trigger m.pos} :: m in old(nodes) ==>
            m.pos == old(m.pos) + (if k <= old(m.pos) then 1 else 0))
      && (forall m: RbNode {:trigger m.parent} :: m in old(nodes) ==> m.parent == old(m.parent))
    }

    ghost method Shift(at: int, k: int)
      modifies nodes`pos, nodes`lo, nodes`hi
      ensures Shifted(at, k)
    {
      forall m | m in nodes {
        m.lo := if !(m.lo <= at < m.hi) && k <= m.lo then m.lo + 1 else m.lo;
      }
      forall m | m in nodes {
        m.hi := if old(m.lo) <= at < m.hi || k <= old(m.lo) then m.hi + 1 else m.hi;
      }
      forall m | m in nodes {
        m.pos := if k <= m.pos then m.pos + 1 else m.pos;
      }
    }

    twostate predicate Hung(new n: RbNode, parent: RbNode, asLeft: bool)
      reads this, nodes, root, parent
    {
      && parent.left == (if asLeft then n else old(parent.left))
      && parent.right == (if asLeft then old(parent.right) else n)
      && (parent != root ==> root.left == old(root.left) && root.right == old(root.right))
      && old(nodes) <= nodes
      && (forall m: RbNode {:trigger m.left} :: m in old(nodes) && m != parent ==> m.left == old(m.left))
      && (forall m: RbNode {:trigger m.right} :: m in old(nodes) && m != parent ==> m.right == old(m.right))
    }

    method Hang(n: RbNode, parent: RbNode, asLeft: bool)
      modifies parent`left, parent`right
      ensures Hung(n, parent, asLeft)
    {
      if asLeft {
        parent.left := n;
      } else {
        parent.right := n;
      }
    }

    twostate predicate HangStep(p: RbNode)
      reads this, root, nil, nodes, p
    {
      var asLeft := p.left != old(p.left); var n := if asLeft then p.left else p.right;
      n in nodes && var k := n.pos;
      && old(Shape()) && Sentinels() && (p == root || p in old(nodes))
      && n !in old(nodes) && n != nil && n != root
      && old(Slot(p, asLeft, k)) && Hung(n, p, asLeft) && Shifted(old(p.pos), k)
      && nodes == old(nodes) + {n} && n.parent == p && n.left == nil && n.right == nil && n.lo == k && n.hi == k + 1
      && 0 <= k <= |old(order)| && order == old(order)[..k] + [n] + old(order)[k..]
    }

    twostate lemma HungSides(p: RbNode)
      requires HangStep(p)
      ensures forall m {:trigger LinkedLeft(m)} :: m in nodes ==> LinkedLeft(m)
      ensures forall m {:trigger LinkedRight(m)} :: m in nodes ==> LinkedRight(m)
    {
      var n := if p.left != old(p.left) then p.left else p.right;
      assert p != root ==> old(Linked(p)) && old(order[p.pos] == p);
      forall m | m in nodes ensures LinkedLeft(m) && LinkedRight(m) {
        if m == n {
        } else if p == root {
          var _ := old(Linked(m));
          assert false;
        } else {
          assert old(Linked(m));
          assert old(m.left) != nil ==> old(Linked(m.left));
          assert old(m.right) != nil ==> old(Linked(m.right));
        }
      }
    }

    twostate lemma HungUp(p: RbNode)
      requires HangStep(p)
      ensures forall m {:trigger LinkedUp(m)} :: m in nodes ==> LinkedUp(m)
    {
      var n := if p.left != old(p.left) then p.left else p.right;
      assert p != root ==> old(Linked(p)) && old(order[p.pos] == p);
      forall m | m in nodes ensures LinkedUp(m) {
        assert m != n ==> old(Linked(m));
      }
    }

    twostate lemma HungOrder(p: RbNode)
      requires HangStep(p)
      ensures forall i {:trigger order[i]} :: 0 <= i < |order| ==> order[i] in nodes && order[i].pos == i
    {
      var n := if p.left != old(p.left) then p.left else p.right;
      forall i {:trigger order[i]} | 0 <= i < |order| ensures order[i] in nodes && order[i].pos == i {
        var j := if i < n.pos then i else i - 1;
        assert i != n.pos ==> order[i] == old(order)[j] && old(order[j].pos) == j;
      }
    }

    twostate lemma HungShape(p: RbNode)
      requires HangStep(p)
      ensures Shape()
    {
      HungSides(p);
      HungUp(p);
      HungOrder(p);
      assert p != root ==> old(Linked(p));
      forall m | m in nodes ensures Linked(m) {
        var _ := LinkedUp(m) && LinkedLeft(m) && LinkedRight(m);
      }
    }

    // The new node comes into the order at k, below the node at `at`.
    ghost method Number(n: RbNode, at: int, k: int)
      requires n !in nodes && 0 <= k <= |order|
      modifies this`nodes, this`order, n`pos, n`lo, n`hi, nodes`pos, nodes`lo, nodes`hi
      ensures Shifted(at, k) && n.pos == k && n.lo == k && n.hi == k + 1
      ensures nodes == old(nodes) + {n} && order == old(order)[..k] + [n] + old(order)[k..]
    {
      Shift(at, k);
      n.pos, n.lo, n.hi := k, k, k + 1;
      nodes := nodes + {n};
      order := order[..k] + [n] + order[k..];
    }

    // The links and the ghost numbering.
    method HangNumbered(n: RbNode, parent: RbNode, asLeft: bool, ghost k: int)
      requires Shape() && n !in nodes && n != nil && n != root
      requires n.left == nil && n.right == nil && n.parent == parent
      requires Slot(parent, asLeft, k)
      modifies parent`left, parent`right, this`nodes, this`order
      modifies n`pos, n`lo, n`hi, nodes`pos, nodes`lo, nodes`hi
      ensures HangStep(parent) && Hung(n, parent, asLeft) && nodes == old(nodes) + {n} && n.pos == k
      ensures 0 <= k <= |old(order)| && order == old(order)[..k] + [n] + old(order)[k..]
    {
      assert parent != root ==> Linked(parent);
      Hang(n, parent, asLeft);
      Number(n, parent.pos, k);
    }

    /** Hang the leaf `n` in an empty slot. */
    method Attach(n: RbNode, parent: RbNode, asLeft: bool, ghost k: int)
      requires Shape() && n !in nodes && n != nil && n != root
      requires n.left == nil && n.right == nil && n.parent == parent
      requires Slot(parent, asLeft, k)
      modifies parent`left, parent`right, this`nodes, this`order
      modifies n`pos, n`lo, n`hi, nodes`pos, nodes`lo, nodes`hi
      ensures 0 <= k <= |old(order)| && order == old(order)[..k] + [n] + old(order)[k..]
      ensures Shape() && Hung(n, parent, asLeft) && nodes == old(nodes) + {n} && n.pos == k
    {
      HangNumbered(n, parent, asLeft, k);
      HungShape(parent);
    }

    /** One comparison of the binary search: `k` is on the side of position `at` that `data` belongs to. */
    ghost predicate Between(data: Data, lo: int, hi: int)
      reads this`order, this`nodes, nodes`data
    {
      && (forall i {:trigger order[i]} :: 0 <= i < lo && i < |order| && order[i] in nodes ==> compare(data, order[i].data, NULL) >= 0)
      && (forall i {:trigger order[i]} :: hi <= i && 0 <= i < |order| && order[i] in nodes ==> compare(data, order[i].data, NULL) < 0)
      && (!dup ==> forall i {:trigger order[i]} :: 0 <= i < lo && i < |order| && order[i] in nodes ==> compare(data, order[i].data, NULL) != 0)
    }

    lemma Narrow(data: Data, n: RbNode, lo: int, hi: int)
      requires Valid() && n in nodes && lo <= n.pos < hi && Between(data, lo, hi)
      ensures Linked(n)
      ensures compare(data, n.data, NULL) < 0 ==> Between(data, lo, n.pos)
      ensures compare(data, n.data, NULL) > 0 || (dup && compare(data, n.data, NULL) == 0) ==> Between(data, n.pos + 1, hi)
    {
      assert Linked(n);
      var s := Items();
      assert s[n.pos] == n.data;
      if compare(data, n.data, NULL) < 0 {
        forall i | n.pos <= i < |order| ensures compare(data, order[i].data, NULL) < 0 {
          Smaller(compare, dup, s, data, n.pos, i);
        }
      } else {
        forall i | 0 <= i <= n.pos
          ensures compare(data, order[i].data, NULL) >= 0
          ensures compare(data, n.data, NULL) > 0 ==> compare(data, order[i].data, NULL) > 0
        {
          Larger(compare, dup, s, data, i, n.pos);
        }
      }
    }

    /** rbInsert on the items, and on the items freed. */
    twostate predicate Inserted(data: Data, at: int, new node: RbNode)
      requires old(Shape()) && Shape()
      reads this, root, nil, nodes
    {
      var s := old(Items());
      && 0 <= at < |order| && order[at] == node && InsertStep(compare, dup, s, data, at, Items())
      && freed == old(freed) + (if hasFree then Dropped(compare, dup, s, data, at) else [])
      && (if at < |s| && !dup && compare(data, s[at], NULL) == 0 then order == old(order)
          else order == old(order)[..at] + [node] + old(order)[at..] && node !in old(order))
    }

    // Allocate the leaf, hang it in the slot the search ended at, and keep `min` the first node.
    method Link(data: Data, parent: RbNode, asLeft: bool, ghost k: int) returns (current: RbNode)
      requires Coloured() && Slot(parent, asLeft, k) && 0 <= k <= |order|
      requires min == null || min in nodes
      requires min == null || compare(data, min.data, NULL) < 0 <==> k == 0
      modifies this`nodes, this`order, this`min, parent`left, parent`right, nodes`pos, nodes`lo, nodes`hi
      ensures Climbing(current) && current.data == data
      ensures fresh(current) && nodes == old(nodes) + {current} && current.pos == k
      ensures order == old(order)[..k] + [current] + old(order)[k..]
      ensures min == (if k == 0 then current else old(min))
    {
      current := new RbNode(Red, data);
      current.left, current.right, current.parent := nil, nil, parent;
      Attach(current, parent, asLeft, k);
      if min == null || compare(current.data, min.data, NULL) < 0 {
        min := current;
      }
      LinkedColours(parent);
    }

    twostate lemma LinkedColours(p: RbNode)
      requires old(Coloured()) && Shape() && doomed == null && (p == root || p in old(nodes))
      requires var n := if p.left != old(p.left) then p.left else p.right; 
        && n !in old(nodes) && nodes == old(nodes) + {n}
        && n.left == nil && n.right == nil && n.parent == p && n.color.Red? && n.bh == 1
        && Hung(n, p, p.left == n) && (if p.left == n then old(p.left) else old(p.right)) == nil
      requires forall m :: m in old(nodes) ==> m.color == old(m.color) && m.bh == old(m.bh)
      requires nil.bh == 1
      ensures Climbing(if p.left != old(p.left) then p.left else p.right)
    {
      var n := if p.left != old(p.left) then p.left else p.right; 
      assert Linked(n);
      forall m | m in nodes ensures Balanced(m) && RedsApart(m, n) {
        if m != n {
          assert old(Balanced(m)) && old(RedsApart(m, nil)) && old(Linked(m)) && Linked(m);
        }
      }
    }

    // The first node is painted black, whatever the fixup left it.
    method BlackenFirst()
      requires Shape() && BalancedBut(nil) && RedsApartBut(nil) && order != [] && doomed == null
      modifies nodes`color, nodes`bh
      ensures BalancedBut(nil) && RedsApartBut(nil) && root.left.color.Black?
    {
      ghost var first := root.left;
      first.bh := if first.color.Red? then first.bh + 1 else first.bh;
      root.left.color := Black;
      forall m | m in nodes ensures Balanced(m) && RedsApart(m, nil) {
        assert old(Balanced(m)) && old(RedsApart(m, nil)) && Linked(m) && Linked(first);
      }
    }

    lemma SeqInserted(t: seq<Data>, s: seq<Data>, k: int, d: Data)
      requires 0 <= k <= |s| && |t| == |s| + 1
      requires forall i {:trigger t[i]} :: 0 <= i < |t| ==> t[i] == if i < k then s[i] else if i == k then d else s[i - 1]
      ensures t == s[..k] + [d] + s[k..]
    {
    }

    lemma SeqRemoved(t: seq<Data>, s: seq<Data>, k: int)
      requires 0 <= k < |s| && |t| == |s| - 1
      requires forall i {:trigger t[i]} :: 0 <= i < |t| ==> t[i] == if i < k then s[i] else s[i + 1]
      ensures t == s[..k] + s[k + 1..]
    {
    }

    twostate lemma InsertedItems(new n: RbNode)
      requires old(Shape()) && Shape() && 0 <= n.pos <= |old(order)|
      requires order == old(order)[..n.pos] + [n] + old(order)[n.pos..]
      requires forall m :: m in old(nodes) ==> m.data == old(m.data)
      ensures Items() == old(Items())[..n.pos] + [n.data] + old(Items())[n.pos..]
    {
      var k, s, t := n.pos, old(Items()), Items();
      forall i {:trigger t[i]} | 0 <= i < |t| ensures t[i] == if i < k then s[i] else if i == k then n.data else s[i - 1] {
        var j := if i < k then i else i - 1;
        assert i != k ==> order[i] == old(order)[j] && s[j] == old(order[j].data);
      }
      SeqInserted(t, s, k, n.data);
    }

    // The binary search of rbInsert: it ends at an equal item, or at the slot for a new leaf.
    method FindPlace(data: Data) returns (current: RbNode, parent: RbNode, ghost k: int)
      requires Valid()
      ensures current != nil ==> current in nodes && !dup && compare(data, current.data, NULL) == 0
      ensures current == nil ==>
        && (parent == root || parent in nodes)
        && Slot(parent, parent == root || compare(data, parent.data, NULL) < 0, k)
        && 0 <= k <= |order| && Between(data, k, k)
    {
      current, parent := root.left, root;
      ghost var hi := |order|;
      k := 0;
      while current != nil
        invariant current != nil ==> current in nodes && current.lo == k && current.hi == hi
        invariant current == nil ==> k == hi && Slot(parent, parent == root || compare(data, parent.data, NULL) < 0, k)
        invariant parent == root || parent in nodes
        invariant 0 <= k <= hi <= |order| && Between(data, k, hi)
        decreases hi - k
      {
        assert Linked(current);
        Narrow(data, current, k, hi);
        var cmp := compare(data, current.data, NULL);
        if cmp == 0 && !dup {
          return;
        }
        parent := current;
        if cmp < 0 {
          hi := current.pos;
          current := current.left;
        } else {
          k := current.pos + 1;
          current := current.right;
        }
        assert current != nil ==> Linked(current);
      }
    }

    /** rbInsert: insert, or without duplicates replace the equal item in place. */
    method Insert(data: Data) returns (node: RbNode, ghost at: int)
      requires Valid() && data != NULL
      modifies this`freed, this`nodes, this`order, this`min, root`left, root`right, nodes
      ensures Valid() && Inserted(data, at, node)
      ensures fresh(nodes - old(nodes))
    {
      var current, parent, k := FindPlace(data);
      at := k;
      if current != nil {
        assert Linked(current);
        at := current.pos;
        Replace(current, data);
        return current, at;
      }
      node := Add(data, parent, k);
    }

    // Link a red leaf, rebalance, and paint the first node black.
    method AddNode(data: Data, parent: RbNode, asLeft: bool, ghost k: int) returns (node: RbNode)
      requires Coloured() && Slot(parent, asLeft, k) && 0 <= k <= |order| && (order == [] <==> min == null)
      requires min != null ==> min == order[0]
      requires min == null || compare(data, min.data, NULL) < 0 <==> k == 0
      modifies this`nodes, this`order, this`min, root`left, root`right
      modifies nodes`left, nodes`right, nodes`parent, nodes`pos, nodes`lo, nodes`hi, nodes`color, nodes`bh
      ensures Coloured() && node.data == data && node.pos == k
      ensures fresh(node) && nodes == old(nodes) + {node}
      ensures order == old(order)[..k] + [node] + old(order)[k..] && min == order[0]
    {
      node := Link(data, parent, asLeft, k);
      assert order[k] == node;
      if node.parent.color == Red {
        var _ := InsertFixup(node);
      } else {
        Climbed(node);
      }
      BlackenFirst();
    }

    // The item is new.
    method Add(data: Data, parent: RbNode, ghost k: int) returns (node: RbNode)
      requires Valid() && (parent == root || parent in nodes)
      requires Slot(parent, parent == root || compare(data, parent.data, NULL) < 0, k)
      requires 0 <= k <= |order| && Between(data, k, k)
      modifies this`nodes, this`order, this`min, root`left, root`right, nodes
      ensures Valid() && Inserted(data, k, node) && nodes == old(nodes) + {node} && fresh(node)
    {
      SlotSplits(data, k);
      node := AddNode(data, parent, parent == root || compare(data, parent.data, NULL) < 0, k);
      InsertedItems(node);
    }

    lemma SlotSplits(data: Data, k: int)
      requires Valid() && 0 <= k <= |order| && Between(data, k, k)
      ensures Splits(compare, Items(), data, k) && (!dup ==> forall i :: 0 <= i < |order| ==> compare(data, Items()[i], NULL) != 0)
      ensures Sorted(compare, dup, Items()[..k] + [data] + Items()[k..])
      ensures min == null || min in nodes
      ensures min == null || compare(data, min.data, NULL) < 0 <==> k == 0
    {
      var s := Items();
      assert forall i :: 0 <= i < |s| ==> s[i] == order[i].data;
      SortedInsert(compare, dup, s, data, k);
    }

    twostate lemma ReplacedItems(n: RbNode)
      requires old(Shape()) && Shape() && order == old(order) && n in nodes && nodes == old(nodes)
      requires 0 <= n.pos < |order| && order[n.pos] == n
      requires forall m :: m in nodes && m != n ==> m.data == old(m.data)
      ensures Items() == old(Items())[n.pos := n.data]
    {
      forall i | 0 <= i < |order| ensures Items()[i] == old(Items())[n.pos := n.data][i] {
        assert order[i] == n ==> i == n.pos;
        assert old(Items())[i] == old(order[i].data);
      }
    }

    // The item was found: free the old one and store the new one.
    method Replace(current: RbNode, data: Data)
      requires Valid() && current in nodes && !dup && compare(data, current.data, NULL) == 0
      requires 0 <= current.pos < |order| && order[current.pos] == current
      modifies this`freed, current`data
      ensures Valid() && Items() == old(Items())[current.pos := data]
      ensures freed == old(freed) + (if hasFree then [old(current.data)] else [])
    {
      SortedReplace(compare, Items(), data, current.pos);
      if hasFree {
        freed := freed + [current.data];
      }
      current.data := data;
      ReplacedItems(current);
    }

    // ---------------------------------------------------------------- removal

    /** The node being removed is a black leaf that already counts as absent; `c` is on the way up from it. */
    ghost predicate Leaving()
      reads this, root, nil, nodes
    {
      && Shape() && root.left.color.Black? && RedsApartBut(nil)
      && doomed != null && doomed in nodes && doomed.left == nil && doomed.right == nil && doomed.bh == 1 && doomed.color.Black?
    }

    /** The state of deleteFixup's loop: the subtree of `c` is one black node short. */
    ghost predicate Short(c: RbNode)
      reads this, root, nil, nodes
    {
      && Leaving() && c in nodes && c.color.Black? && c.bh >= 1 && c.lo <= doomed.pos < c.hi
      && BalancedBut(c.parent)
      && (c.parent != root ==>
            && c.parent in nodes && (c.parent.left in nodes || c.parent.left == nil) && (c.parent.right in nodes || c.parent.right == nil)
            && var s := if c == c.parent.left then c.parent.right else c.parent.left;
               s.bh == c.bh + 1 && c.parent.bh == s.bh + (if c.parent.color.Black? then 1 else 0))
    }

    /** What holds when deleteFixup is done. */
    ghost predicate Repaired()
      reads this, root, nil, nodes
    {
      Leaving() && BalancedBut(nil)
    }

    /** The recolouring that goes with the last rotation of deleteFixup. */
    twostate predicate PaintedTransfer(p: RbNode, s: RbNode, r: RbNode)
      reads this, nodes
    {
      && nodes == old(nodes) && p in nodes && s in nodes && r in nodes
      && (forall n: RbNode {:trigger n.color} :: n in nodes ==>
            n.color == if n == s then old(p.color) else if n == p || n == r then Black else old(n.color))
      && (forall n: RbNode {:trigger n.bh} :: n in nodes ==>
            n.bh == if n == s then old(p.bh) else if n == p then old(s.bh) else if n == r then old(r.bh) + 1 else old(n.bh))
    }

    method PaintTransfer(parent: RbNode, sibling: RbNode, outer: RbNode)
      requires parent in nodes && sibling in nodes && outer in nodes
      requires parent != sibling && sibling != outer && parent != outer
      modifies nodes`color, nodes`bh
      ensures PaintedTransfer(parent, sibling, outer)
    {
      sibling.color := parent.color;
      parent.color := Black;
      outer.color := Black;
      sibling.bh, parent.bh, outer.bh := parent.bh, sibling.bh, outer.bh + 1;
    }

    lemma BesideLeft(c: RbNode)
      requires Short(c) && c.parent != root && c == c.parent.left
      ensures c.parent in nodes && c.parent.right in nodes
      ensures Linked(c) && Linked(c.parent) && Linked(c.parent.right)
      ensures c.parent.parent != root ==> Linked(c.parent.parent)
      ensures Balanced(c.parent.right) && RedsApart(c.parent, nil) && RedsApart(c.parent.right, nil)
      ensures c.parent.right != doomed && c.parent != doomed && c.parent.parent != doomed
    {
      assert Linked(c) && Linked(c.parent);
      assert c.parent.right != nil;
      assert Linked(c.parent.right);
      assert c.parent.parent != root ==> Linked(c.parent.parent);
      assert Balanced(c.parent.right) && RedsApart(c.parent, nil) && RedsApart(c.parent.right, nil);
    }

    // A red sibling: make it the parent's parent, so that the sibling is black.
    method AdjustLeft(c: RbNode)
      requires Short(c) && c.parent != root && c == c.parent.left && c.parent.right.color.Red?
      modifies nodes`left, nodes`right, nodes`parent, nodes`lo, nodes`hi, nodes`color, nodes`bh, root`left
      ensures Short(c) && c.parent == old(c.parent) && c == c.parent.left
      ensures c.parent.right.color.Black? && c.parent.color.Red?
    {
      BesideLeft(c);
      var sibling := c.parent.right;
      sibling.color := Black;
      c.parent.color := Red;
      sibling.bh, c.parent.bh := sibling.bh + 1, c.parent.bh - 1;
      RotateLeft(c.parent);
      AdjustedLeft(c);
    }

    twostate predicate AdjustStepLeft(c: RbNode)
      reads this, root, nil, nodes, c
    {
      && old(Short(c)) && old(c.parent != root && c == c.parent.left && c.parent.right.color.Red?)
      && Shape() && nodes == old(nodes) && doomed == old(doomed) && old(c.parent) in nodes && old(c.parent.right) in nodes
      && (forall n {:trigger n.pos} :: n in nodes ==> n.pos == old(n.pos))
      && var p, s := old(c.parent), old(c.parent.right);
        && (forall n: RbNode {:trigger n.color} :: n in nodes ==>
              n.color == if n == s then Black else if n == p then Red else old(n.color))
        && (forall n: RbNode {:trigger n.bh} :: n in nodes ==>
              n.bh == old(n.bh) + (if n == s then 1 else if n == p then -1 else 0))
        && RotatedLeft(p, s, old(s.left), old(p.parent)) && SpansLeft(p, s)
    }

    twostate lemma AdjustedRedsLeft(c: RbNode)
      requires AdjustStepLeft(c)
      ensures RedsApartBut(nil)
    {
      var p, s := old(c.parent), old(c.parent.right);
      assert old(Linked(c)) && old(Linked(p)) && old(Linked(s)) && old(RedsApart(p, nil)) && old(RedsApart(s, nil));
      assert Linked(p) && Linked(s) && Linked(c);
      forall n | n in nodes ensures RedsApart(n, nil) {
        assert old(RedsApart(n, nil)) && old(Linked(n)) && Linked(n);
      }
    }

    twostate lemma AdjustedBalancedLeft(c: RbNode)
      requires AdjustStepLeft(c)
      ensures BalancedBut(old(c.parent))
    {
      var p, s := old(c.parent), old(c.parent.right);
      assert old(Linked(c)) && old(Linked(p)) && old(Linked(s)) && old(Balanced(s)) && old(RedsApart(p, nil)) && old(RedsApart(s, nil));
      assert Linked(p) && Linked(s) && Linked(c);
      forall n | n in nodes && n != doomed && n != p ensures Balanced(n) {
        assert old(Balanced(n)) && old(Linked(n)) && Linked(n);
      }
    }

    twostate lemma AdjustedLeft(c: RbNode)
      requires AdjustStepLeft(c)
      ensures Short(c) && c.parent == old(c.parent) && c == c.parent.left
      ensures c.parent.right.color.Black? && c.parent.color.Red?
    {
      var p, s := old(c.parent), old(c.parent.right);
      AdjustedRedsLeft(c);
      AdjustedBalancedLeft(c);
      assert old(Linked(c)) && old(Linked(p)) && old(Linked(s)) && old(Balanced(s)) && old(RedsApart(p, nil)) && old(RedsApart(s, nil));
      assert Linked(p) && Linked(s) && Linked(c);
      assert old(Linked(doomed));
    }

    // The sibling becomes red, and the parent black; if it was, the parent is now short.
    method Fuse(parent: RbNode, sibling: RbNode) returns (done: bool)
      requires parent != sibling
      modifies parent`color, parent`bh, sibling`color, sibling`bh
      ensures done == old(parent.color).Red? && sibling.color == Red && parent.color == Black
      ensures sibling.bh == old(sibling.bh) - 1 && parent.bh == old(parent.bh) - if done then 0 else 1
    {
      sibling.color := Red;
      sibling.bh := sibling.bh - 1;
      done := parent.color == Red;
      if done {
        parent.color := Black;
      } else {
        parent.bh := parent.bh - 1;
      }
    }

    // A black sibling with black children: recolour it, and repair the parent or climb to it.
    method FuseLeft(c: RbNode) returns (done: bool)
      requires Short(c) && c.parent != root && c == c.parent.left && c.parent.right.color.Black?
      requires c.parent.right in nodes && c.parent.right.left.color.Black? && c.parent.right.right.color.Black?
      modifies nodes`color, nodes`bh
      ensures if done then Repaired() else Short(c.parent)
      ensures done == old(c.parent.color).Red? && (!done ==> c.parent.bh == old(c.bh) + 1)
    {
      BesideLeft(c);
      done := Fuse(c.parent, c.parent.right);
      FusedLeft(c);
    }

    twostate predicate FuseStepLeft(c: RbNode)
      reads this, root, nil, nodes, c
    {
      && old(Short(c)) && old(c.parent != root && c == c.parent.left && c.parent.right.color.Black?)
      && old(c.parent.right in nodes && c.parent.right.left.color.Black? && c.parent.right.right.color.Black?)
      && Shape() && nodes == old(nodes) && doomed == old(doomed) && old(c.parent) in nodes && old(c.parent.right) in nodes
      && (forall n: RbNode {:trigger n.left} {:trigger n.right} {:trigger n.parent} :: n in nodes ==>
            n.left == old(n.left) && n.right == old(n.right) && n.parent == old(n.parent))
      && (forall n: RbNode {:trigger n.lo} {:trigger n.hi} {:trigger n.pos} :: n in nodes ==>
            n.lo == old(n.lo) && n.hi == old(n.hi) && n.pos == old(n.pos))
      && root.left == old(root.left)
      && var p, s := old(c.parent), old(c.parent.right);
        && (forall n: RbNode {:trigger n.color} :: n in nodes ==>
              n.color == if n == s then Red else if n == p then Black else old(n.color))
        && (forall n: RbNode {:trigger n.bh} :: n in nodes ==>
              n.bh == old(n.bh) - (if n == s then 1 else if n == p && old(p.color).Black? then 1 else 0))
    }

    twostate lemma FusedRedsLeft(c: RbNode)
      requires FuseStepLeft(c)
      ensures RedsApartBut(nil)
    {
      var p, s := old(c.parent), old(c.parent.right);
      assert old(Linked(c)) && old(Linked(p)) && old(Linked(s)) && old(RedsApart(s, nil));
      forall n | n in nodes ensures RedsApart(n, nil) {
        assert old(RedsApart(n, nil)) && old(Linked(n)) && Linked(n);
      }
    }

    twostate lemma FusedBalancedLeft(c: RbNode)
      requires FuseStepLeft(c)
      ensures forall n {:trigger Balanced(n)} :: n in nodes && n != doomed && (old(c.parent.color).Red? || n != old(c.parent.parent)) ==> Balanced(n)
    {
      var p, s := old(c.parent), old(c.parent.right);
      assert old(Linked(c)) && old(Linked(p)) && old(Linked(s)) && old(Balanced(s)) && old(RedsApart(p, nil));
      assert p.parent != root ==> old(Linked(p.parent)) && (old(p.color).Black? ==> old(Balanced(p.parent)));
      forall n | n in nodes && n != doomed && (old(p.color).Red? || n != p.parent) ensures Balanced(n) {
        assert n != p ==> old(Balanced(n));
        assert old(Linked(n)) && Linked(n);
      }
    }

    twostate lemma FusedLeft(c: RbNode)
      requires FuseStepLeft(c)
      ensures if old(c.parent.color).Red? then Repaired() else Short(c.parent)
    {
      var p, s := old(c.parent), old(c.parent.right);
      FusedRedsLeft(c);
      FusedBalancedLeft(c);
      assert old(Linked(c)) && old(Linked(p)) && old(Linked(s)) && old(Balanced(s)) && old(RedsApart(p, nil));
      assert p.parent != root ==> old(Linked(p.parent)) && (old(p.color).Black? ==> old(Balanced(p.parent)));
      assert old(Linked(doomed));
    }

    // The sibling and its inner child exchange their colours.
    method PaintTurn(sibling: RbNode, inner: RbNode)
      requires sibling != inner
      modifies sibling`color, inner`color, sibling`bh, inner`bh
      ensures inner.color.Black? && sibling.color.Red? && inner.bh == old(inner.bh) + 1 && sibling.bh == old(sibling.bh) - 1
    {
      inner.color := Black;
      sibling.color := Red;
      inner.bh, sibling.bh := inner.bh + 1, sibling.bh - 1;
    }

    // A black sibling whose only red child is the inner one: turn that child outwards.
    method TurnLeft(c: RbNode)
      requires Short(c) && c.parent != root && c == c.parent.left && c.parent.right.color.Black? && c.parent.right in nodes
      requires c.parent.right.right.color.Black? && c.parent.right.left.color.Red?
      modifies nodes`left, nodes`right, nodes`parent, nodes`lo, nodes`hi, nodes`color, nodes`bh, root`left
      ensures Short(c) && c.parent == old(c.parent) && c == c.parent.left && c.parent.right in nodes
      ensures c.parent.right.color.Black? && c.parent.right.right.color.Red?
    {
      BesideLeft(c);
      var sibling := c.parent.right;
      assert sibling.left != nil && Linked(sibling.left);
      PaintTurn(sibling, sibling.left);
      RotateRight(sibling);
      TurnedLeft(c);
    }

    twostate predicate TurnStepLeft(c: RbNode)
      reads this, root, nil, nodes, c
    {
      && old(Short(c)) && old(c.parent != root && c == c.parent.left && c.parent.right.color.Black? && c.parent.right in nodes)
      && old(c.parent.right.right.color.Black? && c.parent.right.left.color.Red?)
      && Shape() && nodes == old(nodes) && doomed == old(doomed)
      && old(c.parent) in nodes && old(c.parent.right) in nodes && old(c.parent.right.left) in nodes
      && (forall n {:trigger n.pos} :: n in nodes ==> n.pos == old(n.pos))
      && var s, l := old(c.parent.right), old(c.parent.right.left);
        && (forall n: RbNode {:trigger n.color} :: n in nodes ==>
              n.color == if n == l then Black else if n == s then Red else old(n.color))
        && (forall n: RbNode {:trigger n.bh} :: n in nodes ==>
              n.bh == old(n.bh) + (if n == l then 1 else if n == s then -1 else 0))
        && RotatedRight(s, l, old(l.right), old(s.parent)) && SpansRight(s, l)
    }

    twostate lemma TurnedBalancedLeft(c: RbNode)
      requires TurnStepLeft(c)
      ensures BalancedBut(old(c.parent))
    {
      var p, s, l := old(c.parent), old(c.parent.right), old(c.parent.right.left);
      assert old(Linked(c)) && old(Linked(p)) && old(Linked(s)) && old(Linked(l)) && old(Balanced(s)) && old(Balanced(l));
      assert Linked(p) && Linked(s) && Linked(c) && Linked(l);
      forall n | n in nodes && n != doomed && n != p ensures Balanced(n) {
        assert old(Balanced(n)) && old(Linked(n)) && Linked(n);
      }
    }

    twostate lemma TurnedRedsLeft(c: RbNode)
      requires TurnStepLeft(c)
      ensures RedsApartBut(nil)
    {
      var p, s, l := old(c.parent), old(c.parent.right), old(c.parent.right.left);
      assert old(Linked(c)) && old(Linked(p)) && old(Linked(s)) && old(Linked(l));
      assert old(RedsApart(p, nil)) && old(RedsApart(s, nil)) && old(RedsApart(l, nil));
      forall n | n in nodes ensures RedsApart(n, nil) {
        assert old(RedsApart(n, nil)) && old(Linked(n)) && Linked(n);
      }
    }

    twostate lemma TurnedLeft(c: RbNode)
      requires TurnStepLeft(c)
      ensures Short(c) && c.parent == old(c.parent) && c == c.parent.left && c.parent.right in nodes
      ensures c.parent.right.color.Black? && c.parent.right.right.color.Red?
    {
      var p, s, l := old(c.parent), old(c.parent.right), old(c.parent.right.left);
      TurnedBalancedLeft(c);
      TurnedRedsLeft(c);
      assert old(Linked(c)) && old(Linked(p)) && old(Linked(s)) && old(Linked(l)) && old(Linked(doomed));
      assert old(Balanced(s)) && old(Balanced(l));
      assert Linked(p) && Linked(s) && Linked(c) && Linked(l);
    }

    // A black sibling with a red outer child: one rotation pays the debt.
    method TransferLeft(c: RbNode)
      requires Short(c) && c.parent != root && c == c.parent.left && c.parent.right.color.Black? && c.parent.right in nodes
      requires c.parent.right.right.color.Red?
      modifies nodes`left, nodes`right, nodes`parent, nodes`lo, nodes`hi, nodes`color, nodes`bh, root`left
      ensures Repaired()
    {
      BesideLeft(c);
      var sibling := c.parent.right;
      assert sibling.right != nil && Linked(sibling.right);
      PaintTransfer(c.parent, sibling, sibling.right);
      RotateLeft(c.parent);
      TransferredLeft(c);
    }

    twostate predicate TransferStepLeft(c: RbNode)
      reads this, root, nil, nodes, c
    {
      && old(Short(c)) && old(c.parent != root && c == c.parent.left && c.parent.right.color.Black? && c.parent.right in nodes)
      && old(c.parent.right.right.color.Red?)
      && Shape() && nodes == old(nodes) && doomed == old(doomed)
      && old(c.parent) in nodes && old(c.parent.right) in nodes && old(c.parent.right.right) in nodes
      && (forall n :: n in nodes ==> n.pos == old(n.pos))
      && var p, s, r := old(c.parent), old(c.parent.right), old(c.parent.right.right);
         && PaintedTransfer(p, s, r) && RotatedLeft(p, s, old(s.left), old(p.parent)) && SpansLeft(p, s)
    }

    twostate lemma TransferredRedsLeft(c: RbNode)
      requires TransferStepLeft(c)
      ensures RedsApartBut(nil)
    {
      var p, s, r := old(c.parent), old(c.parent.right), old(c.parent.right.right);
      assert old(Linked(c)) && old(Linked(p)) && old(Linked(s)) && old(Linked(r));
      assert old(RedsApart(p, nil)) && old(RedsApart(s, nil)) && old(RedsApart(r, nil));
      assert old(p.parent) != root ==> old(RedsApart(p.parent, nil));
      forall n | n in nodes ensures RedsApart(n, nil) {
        assert old(RedsApart(n, nil)) && old(Linked(n)) && Linked(n);
      }
    }

    twostate lemma TransferredBalancedLeft(c: RbNode)
      requires TransferStepLeft(c)
      ensures BalancedBut(nil)
    {
      var p, s, r := old(c.parent), old(c.parent.right), old(c.parent.right.right);
      assert old(Linked(c)) && old(Linked(p)) && old(Linked(s)) && old(Linked(r));
      assert old(Balanced(s)) && old(Balanced(r));
      forall n | n in nodes && n != doomed ensures Balanced(n) {
        assert n != p ==> old(Balanced(n));
        assert old(Linked(n)) && Linked(n);
      }
    }

    twostate lemma TransferredLeft(c: RbNode)
      requires TransferStepLeft(c)
      ensures Repaired()
    {
      var p, s, r := old(c.parent), old(c.parent.right), old(c.parent.right.right);
      TransferredRedsLeft(c);
      TransferredBalancedLeft(c);
      assert old(Linked(c)) && old(Linked(p)) && old(Linked(s)) && old(Linked(r)) && old(Linked(doomed));
    }

    lemma BesideRight(c: RbNode)
      requires Short(c) && c.parent != root && c == c.parent.right
      ensures c.parent in nodes && c.parent.left in nodes
      ensures Linked(c) && Linked(c.parent) && Linked(c.parent.left)
      ensures c.parent.parent != root ==> Linked(c.parent.parent)
      ensures Balanced(c.parent.left) && RedsApart(c.parent, nil) && RedsApart(c.parent.left, nil)
      ensures c.parent.left != doomed && c.parent != doomed && c.parent.parent != doomed
    {
      assert Linked(c) && Linked(c.parent);
      assert c.parent.left != nil;
      assert Linked(c.parent.left);
      assert c.parent.parent != root ==> Linked(c.parent.parent);
      assert Balanced(c.parent.left) && RedsApart(c.parent, nil) && RedsApart(c.parent.left, nil);
    }

    // A red sibling: make it the parent's parent, so that the sibling is black.
    method AdjustRight(c: RbNode)
      requires Short(c) && c.parent != root && c == c.parent.right && c.parent.left.color.Red?
      modifies nodes`right, nodes`left, nodes`parent, nodes`lo, nodes`hi, nodes`color, nodes`bh, root`left
      ensures Short(c) && c.parent == old(c.parent) && c == c.parent.right
      ensures c.parent.left.color.Black? && c.parent.color.Red?
    {
      BesideRight(c);
      var sibling := c.parent.left;
      sibling.color := Black;
      c.parent.color := Red;
      sibling.bh, c.parent.bh := sibling.bh + 1, c.parent.bh - 1;
      RotateRight(c.parent);
      AdjustedRight(c);
    }

    twostate predicate AdjustStepRight(c: RbNode)
      reads this, root, nil, nodes, c
    {
      && old(Short(c)) && old(c.parent != root && c == c.parent.right && c.parent.left.color.Red?)
      && Shape() && nodes == old(nodes) && doomed == old(doomed) && old(c.parent) in nodes && old(c.parent.left) in nodes
      && (forall n {:trigger n.pos} :: n in nodes ==> n.pos == old(n.pos))
      && var p, s := old(c.parent), old(c.parent.left);
        && (forall n: RbNode {:trigger n.color} :: n in nodes ==>
              n.color == if n == s then Black else if n == p then Red else old(n.color))
        && (forall n: RbNode {:trigger n.bh} :: n in nodes ==>
              n.bh == old(n.bh) + (if n == s then 1 else if n == p then -1 else 0))
        && RotatedRight(p, s, old(s.right), old(p.parent)) && SpansRight(p, s)
    }

    twostate lemma AdjustedRedsRight(c: RbNode)
      requires AdjustStepRight(c)
      ensures RedsApartBut(nil)
    {
      var p, s := old(c.parent), old(c.parent.left);
      assert old(Linked(c)) && old(Linked(p)) && old(Linked(s)) && old(RedsApart(p, nil)) && old(RedsApart(s, nil));
      assert Linked(p) && Linked(s) && Linked(c);
      forall n | n in nodes ensures RedsApart(n, nil) {
        assert old(RedsApart(n, nil)) && old(Linked(n)) && Linked(n);
      }
    }

    twostate lemma AdjustedBalancedRight(c: RbNode)
      requires AdjustStepRight(c)
      ensures BalancedBut(old(c.parent))
    {
      var p, s := old(c.parent), old(c.parent.left);
      assert old(Linked(c)) && old(Linked(p)) && old(Linked(s)) && old(Balanced(s)) && old(RedsApart(p, nil)) && old(RedsApart(s, nil));
      assert Linked(p) && Linked(s) && Linked(c);
      forall n | n in nodes && n != doomed && n != p ensures Balanced(n) {
        assert old(Balanced(n)) && old(Linked(n)) && Linked(n);
      }
    }

    twostate lemma AdjustedRight(c: RbNode)
      requires AdjustStepRight(c)
      ensures Short(c) && c.parent == old(c.parent) && c == c.parent.right
      ensures c.parent.left.color.Black? && c.parent.color.Red?
    {
      var p, s := old(c.parent), old(c.parent.left);
      AdjustedRedsRight(c);
      AdjustedBalancedRight(c);
      assert old(Linked(c)) && old(Linked(p)) && old(Linked(s)) && old(Balanced(s)) && old(RedsApart(p, nil)) && old(RedsApart(s, nil));
      assert Linked(p) && Linked(s) && Linked(c);
      assert old(Linked(doomed));
    }

    // A black sibling with black children: recolour it, and repair the parent or climb to it.
    method FuseRight(c: RbNode) returns (done: bool)
      requires Short(c) && c.parent != root && c == c.parent.right && c.parent.left.color.Black?
      requires c.parent.left in nodes && c.parent.left.right.color.Black? && c.parent.left.left.color.Black?
      modifies nodes`color, nodes`bh
      ensures if done then Repaired() else Short(c.parent)
      ensures done == old(c.parent.color).Red? && (!done ==> c.parent.bh == old(c.bh) + 1)
    {
      BesideRight(c);
      done := Fuse(c.parent, c.parent.left);
      FusedRight(c);
    }

    twostate predicate FuseStepRight(c: RbNode)
      reads this, root, nil, nodes, c
    {
      && old(Short(c)) && old(c.parent != root && c == c.parent.right && c.parent.left.color.Black?)
      && old(c.parent.left in nodes && c.parent.left.right.color.Black? && c.parent.left.left.color.Black?)
      && Shape() && nodes == old(nodes) && doomed == old(doomed) && old(c.parent) in nodes && old(c.parent.left) in nodes
      && (forall n: RbNode {:trigger n.right} {:trigger n.left} {:trigger n.parent} :: n in nodes ==>
            n.right == old(n.right) && n.left == old(n.left) && n.parent == old(n.parent))
      && (forall n: RbNode {:trigger n.lo} {:trigger n.hi} {:trigger n.pos} :: n in nodes ==>
            n.lo == old(n.lo) && n.hi == old(n.hi) && n.pos == old(n.pos))
      && root.left == old(root.left)
      && var p, s := old(c.parent), old(c.parent.left);
        && (forall n: RbNode {:trigger n.color} :: n in nodes ==>
              n.color == if n == s then Red else if n == p then Black else old(n.color))
        && (forall n: RbNode {:trigger n.bh} :: n in nodes ==>
              n.bh == old(n.bh) - (if n == s then 1 else if n == p && old(p.color).Black? then 1 else 0))
    }

    twostate lemma FusedRedsRight(c: RbNode)
      requires FuseStepRight(c)
      ensures RedsApartBut(nil)
    {
      var p, s := old(c.parent), old(c.parent.left);
      assert old(Linked(c)) && old(Linked(p)) && old(Linked(s)) && old(RedsApart(s, nil));
      forall n | n in nodes ensures RedsApart(n, nil) {
        assert old(RedsApart(n, nil)) && old(Linked(n)) && Linked(n);
      }
    }

    twostate lemma FusedBalancedRight(c: RbNode)
      requires FuseStepRight(c)
      ensures forall n {:trigger Balanced(n)} :: n in nodes && n != doomed && (old(c.parent.color).Red? || n != old(c.parent.parent)) ==> Balanced(n)
    {
      var p, s := old(c.parent), old(c.parent.left);
      assert old(Linked(c)) && old(Linked(p)) && old(Linked(s)) && old(Balanced(s)) && old(RedsApart(p, nil));
      assert p.parent != root ==> old(Linked(p.parent)) && (old(p.color).Black? ==> old(Balanced(p.parent)));
      forall n | n in nodes && n != doomed && (old(p.color).Red? || n != p.parent) ensures Balanced(n) {
        assert n != p ==> old(Balanced(n));
        assert old(Linked(n)) && Linked(n);
      }
    }

    twostate lemma FusedRight(c: RbNode)
      requires FuseStepRight(c)
      ensures if old(c.parent.color).Red? then Repaired() else Short(c.parent)
    {
      var p, s := old(c.parent), old(c.parent.left);
      FusedRedsRight(c);
      FusedBalancedRight(c);
      assert old(Linked(c)) && old(Linked(p)) && old(Linked(s)) && old(Balanced(s)) && old(RedsApart(p, nil));
      assert p.parent != root ==> old(Linked(p.parent)) && (old(p.color).Black? ==> old(Balanced(p.parent)));
      assert old(Linked(doomed));
    }

    // A black sibling whose only red child is the inner one: turn that child outwards.
    method TurnRight(c: RbNode)
      requires Short(c) && c.parent != root && c == c.parent.right && c.parent.left.color.Black? && c.parent.left in nodes
      requires c.parent.left.left.color.Black? && c.parent.left.right.color.Red?
      modifies nodes`right, nodes`left, nodes`parent, nodes`lo, nodes`hi, nodes`color, nodes`bh, root`left
      ensures Short(c) && c.parent == old(c.parent) && c == c.parent.right && c.parent.left in nodes
      ensures c.parent.left.color.Black? && c.parent.left.left.color.Red?
    {
      BesideRight(c);
      var sibling := c.parent.left;
      assert sibling.right != nil && Linked(sibling.right);
      PaintTurn(sibling, sibling.right);
      RotateLeft(sibling);
      TurnedRight(c);
    }

    twostate predicate TurnStepRight(c: RbNode)
      reads this, root, nil, nodes, c
    {
      && old(Short(c)) && old(c.parent != root && c == c.parent.right && c.parent.left.color.Black? && c.parent.left in nodes)
      && old(c.parent.left.left.color.Black? && c.parent.left.right.color.Red?)
      && Shape() && nodes == old(nodes) && doomed == old(doomed)
      && old(c.parent) in nodes && old(c.parent.left) in nodes && old(c.parent.left.right) in nodes
      && (forall n {:trigger n.pos} :: n in nodes ==> n.pos == old(n.pos))
      && var s, l := old(c.parent.left), old(c.parent.left.right);
        && (forall n: RbNode {:trigger n.color} :: n in nodes ==>
              n.color == if n == l then Black else if n == s then Red else old(n.color))
        && (forall n: RbNode {:trigger n.bh} :: n in nodes ==>
              n.bh == old(n.bh) + (if n == l then 1 else if n == s then -1 else 0))
        && RotatedLeft(s, l, old(l.left), old(s.parent)) && SpansLeft(s, l)
    }

    twostate lemma TurnedBalancedRight(c: RbNode)
      requires TurnStepRight(c)
      ensures BalancedBut(old(c.parent))
    {
      var p, s, l := old(c.parent), old(c.parent.left), old(c.parent.left.right);
      assert old(Linked(c)) && old(Linked(p)) && old(Linked(s)) && old(Linked(l)) && old(Balanced(s)) && old(Balanced(l));
      assert Linked(p) && Linked(s) && Linked(c) && Linked(l);
      forall n | n in nodes && n != doomed && n != p ensures Balanced(n) {
        assert old(Balanced(n)) && old(Linked(n)) && Linked(n);
      }
    }

    twostate lemma TurnedRedsRight(c: RbNode)
      requires TurnStepRight(c)
      ensures RedsApartBut(nil)
    {
      var p, s, l := old(c.parent), old(c.parent.left), old(c.parent.left.right);
      assert old(Linked(c)) && old(Linked(p)) && old(Linked(s)) && old(Linked(l));
      assert old(RedsApart(p, nil)) && old(RedsApart(s, nil)) && old(RedsApart(l, nil));
      forall n | n in nodes ensures RedsApart(n, nil) {
        assert old(RedsApart(n, nil)) && old(Linked(n)) && Linked(n);
      }
    }

    twostate lemma TurnedRight(c: RbNode)
      requires TurnStepRight(c)
      ensures Short(c) && c.parent == old(c.parent) && c == c.parent.right && c.parent.left in nodes
      ensures c.parent.left.color.Black? && c.parent.left.left.color.Red?
    {
      var p, s, l := old(c.parent), old(c.parent.left), old(c.parent.left.right);
      TurnedBalancedRight(c);
      TurnedRedsRight(c);
      assert old(Linked(c)) && old(Linked(p)) && old(Linked(s)) && old(Linked(l)) && old(Linked(doomed));
      assert old(Balanced(s)) && old(Balanced(l));
      assert Linked(p) && Linked(s) && Linked(c) && Linked(l);
    }

    // A black sibling with a red outer child: one rotation pays the debt.
    method TransferRight(c: RbNode)
      requires Short(c) && c.parent != root && c == c.parent.right && c.parent.left.color.Black? && c.parent.left in nodes
      requires c.parent.left.left.color.Red?
      modifies nodes`right, nodes`left, nodes`parent, nodes`lo, nodes`hi, nodes`color, nodes`bh, root`left
      ensures Repaired()
    {
      BesideRight(c);
      var sibling := c.parent.left;
      assert sibling.left != nil && Linked(sibling.left);
      PaintTransfer(c.parent, sibling, sibling.left);
      RotateRight(c.parent);
      TransferredRight(c);
    }

    twostate predicate TransferStepRight(c: RbNode)
      reads this, root, nil, nodes, c
    {
      && old(Short(c)) && old(c.parent != root && c == c.parent.right && c.parent.left.color.Black? && c.parent.left in nodes)
      && old(c.parent.left.left.color.Red?)
      && Shape() && nodes == old(nodes) && doomed == old(doomed)
      && old(c.parent) in nodes && old(c.parent.left) in nodes && old(c.parent.left.left) in nodes
      && (forall n :: n in nodes ==> n.pos == old(n.pos))
      && var p, s, r := old(c.parent), old(c.parent.left), old(c.parent.left.left);
         && PaintedTransfer(p, s, r) && RotatedRight(p, s, old(s.right), old(p.parent)) && SpansRight(p, s)
    }

    twostate lemma TransferredRedsRight(c: RbNode)
      requires TransferStepRight(c)
      ensures RedsApartBut(nil)
    {
      var p, s, r := old(c.parent), old(c.parent.left), old(c.parent.left.left);
      assert old(Linked(c)) && old(Linked(p)) && old(Linked(s)) && old(Linked(r));
      assert old(RedsApart(p, nil)) && old(RedsApart(s, nil)) && old(RedsApart(r, nil));
      assert old(p.parent) != root ==> old(RedsApart(p.parent, nil));
      forall n | n in nodes ensures RedsApart(n, nil) {
        assert old(RedsApart(n, nil)) && old(Linked(n)) && Linked(n);
      }
    }

    twostate lemma TransferredBalancedRight(c: RbNode)
      requires TransferStepRight(c)
      ensures BalancedBut(nil)
    {
      var p, s, r := old(c.parent), old(c.parent.left), old(c.parent.left.left);
      assert old(Linked(c)) && old(Linked(p)) && old(Linked(s)) && old(Linked(r));
      assert old(Balanced(s)) && old(Balanced(r));
      forall n | n in nodes && n != doomed ensures Balanced(n) {
        assert n != p ==> old(Balanced(n));
        assert old(Linked(n)) && Linked(n);
      }
    }

    twostate lemma TransferredRight(c: RbNode)
      requires TransferStepRight(c)
      ensures Repaired()
    {
      var p, s, r := old(c.parent), old(c.parent.left), old(c.parent.left.left);
      TransferredRedsRight(c);
      TransferredBalancedRight(c);
      assert old(Linked(c)) && old(Linked(p)) && old(Linked(s)) && old(Linked(r)) && old(Linked(doomed));
    }

    // One round of deleteFixup for a left child: the debt is paid, or passed on to the parent.
    method RepairLeft(c: RbNode) returns (done: bool)
      requires Short(c) && c.parent != root && c == c.parent.left
      modifies nodes`left, nodes`right, nodes`parent, nodes`lo, nodes`hi, nodes`color, nodes`bh, root`left
      ensures if done then Repaired() else Short(c.parent) && c.parent.bh == old(c.bh) + 1
      ensures !done ==> c.parent.hi - c.parent.lo > old(c.hi - c.lo)
    {
      assert Linked(c) && Linked(c.parent);
      var sibling := c.parent.right;
      if sibling.color == Red {
        AdjustLeft(c);
        sibling := c.parent.right;
      }
      BesideLeft(c);
      if sibling.right.color == Black && sibling.left.color == Black {
        done := FuseLeft(c);
      } else {
        if sibling.right.color == Black {
          TurnLeft(c);
        }
        TransferLeft(c);
        done := true;
      }
    }

    // One round of deleteFixup for a right child: the debt is paid, or passed on to the parent.
    method RepairRight(c: RbNode) returns (done: bool)
      requires Short(c) && c.parent != root && c == c.parent.right
      modifies nodes`left, nodes`right, nodes`parent, nodes`lo, nodes`hi, nodes`color, nodes`bh, root`left
      ensures if done then Repaired() else Short(c.parent) && c.parent.bh == old(c.bh) + 1
      ensures !done ==> c.parent.hi - c.parent.lo > old(c.hi - c.lo)
    {
      assert Linked(c) && Linked(c.parent);
      var sibling := c.parent.left;
      if sibling.color == Red {
        AdjustRight(c);
        sibling := c.parent.left;
      }
      BesideRight(c);
      if sibling.right.color == Black && sibling.left.color == Black {
        done := FuseRight(c);
      } else {
        if sibling.left.color == Black {
          TurnRight(c);
        }
        TransferRight(c);
        done := true;
      }
    }

    /**
      deleteFixup: pay for the black node that is about to go, while it is still linked. Every
      round but the last climbs one level of black height.
    */
    method DeleteFixup(target: RbNode) returns (ghost steps: nat)
      requires Short(target) && target == doomed && target != root.left
      modifies nodes`left, nodes`right, nodes`parent, nodes`lo, nodes`hi, nodes`color, nodes`bh, root`left
      ensures Repaired() && Pow2(steps) <= 2 * (|order| + 1)
    {
      var current := target;
      steps := 0;
      while current != root.left
        invariant Short(current) && steps < current.bh && Pow2(steps) <= 2 * (|order| + 1)
        decreases |order| - (current.hi - current.lo)
      {
        assert Linked(current) && (current.parent != root ==> Linked(current.parent));
        StepsWithin(current, current.parent, steps);
        steps := steps + 1;
        var done := false;
        if current == current.parent.left {
          done := RepairLeft(current);
        } else {
          done := RepairRight(current);
        }
        if done {
          break;
        }
        current := current.parent;
      }
    }

    // ---------------------------------------------------------------- succession

    /** rbNext: the node one position on, or null at the end. */
    method Next(start: RbNode?) returns (p: RbNode?)
      requires Shape() && (start != null ==> start in nodes)
      ensures start == null ==> p == null
      ensures start != null ==> 0 <= start.pos && p == if start.pos + 1 < |order| then order[start.pos + 1] else null
      ensures start != null && start.right != nil ==> p != null && p.left == nil
    {
      if start == null {
        return null;
      }
      var node: RbNode := start;
      assert Linked(node);
      if node.right != nil {
        var q := node.right;
        while q.left != nil
          invariant q in nodes && q.lo == node.pos + 1
          decreases q.hi - q.lo
        {
          assert Linked(q) && Linked(q.left);
          q := q.left;
        }
        assert Linked(q);
        p := q;
      } else {
        var q := node.parent;
        while node == q.right
          invariant node in nodes && node.hi == start.pos + 1 && q == node.parent
          decreases |order| - (node.hi - node.lo)
        {
          assert Linked(node) && (q != root ==> Linked(q));
          node := q;
          q := q.parent;
          assert Linked(node);
        }
        assert Linked(node) && (q != root ==> Linked(q));
        p := if q == root then null else q;
      }
    }

    // ---------------------------------------------------------------- unlinking

    /** Ready to unlink: the child that takes the place of `target` fits under its parent. */
    ghost predicate Detachable(target: RbNode, child: RbNode)
      reads this, root, nil, nodes, child
    {
      && Shape() && BalancedBut(nil) && RedsApartBut(nil) && doomed == target && target in nodes
      && (target.left == nil || target.right == nil)
      && child == (if target.left == nil then target.right else target.left)
      && child.color.Black? && child.bh == target.bh
      && (root.left.color.Black? || root.left == target)
    }

    /** Links after `child` has taken the place of `target`. */
    twostate predicate Bypassed(target: RbNode, child: RbNode, p: RbNode)
      reads this, nodes, root
    {
      && nodes == old(nodes)
      && (forall n: RbNode {:trigger n.left} :: n in nodes ==>
            n.left == (if n == p && old(p.left) == target then child else old(n.left)))
      && (forall n: RbNode {:trigger n.right} :: n in nodes ==>
            n.right == (if n == p && old(p.left) != target then child else old(n.right)))
      && (forall n: RbNode {:trigger n.parent} :: n in nodes ==>
            n.parent == (if n == child then p else old(n.parent)))
      && root.left == (if p == root then child else old(root.left))
    }

    method Bypass(target: RbNode, child: RbNode)
      requires target in nodes && (child == nil || child in nodes) && nil !in nodes && root !in nodes
      requires target.parent == root || target.parent in nodes
      requires target.parent == root ==> root.left == target
      requires target.parent != target && target.parent != child && target != child
      modifies nodes`left, nodes`right, nodes`parent, root`left
      ensures Bypassed(target, child, old(target.parent))
    {
      if child != nil {
        child.parent := target.parent;
      }
      if target == target.parent.left {
        target.parent.left := child;
      } else {
        target.parent.right := child;
      }
    }

    /** Positions behind k move down by one. */
    twostate predicate Closed(k: int)
      reads this, nodes
    {
      && nodes == old(nodes)
      && (forall m: RbNode {:trigger m.lo} :: m in nodes ==> m.lo == old(m.lo) - (if k < old(m.lo) then 1 else 0))
      && (forall m: RbNode {:trigger m.hi} :: m in nodes ==> m.hi == old(m.hi) - (if k < old(m.hi) then 1 else 0))
      && (forall m: RbNode {:trigger m.pos} :: m in nodes ==> m.pos == old(m.pos) - (if k < old(m.pos) then 1 else 0))
    }

    ghost method Close(k: int)
      modifies nodes`pos, nodes`lo, nodes`hi
      ensures Closed(k)
    {
      forall m | m in nodes {
        m.lo := if k < m.lo then m.lo - 1 else m.lo;
      }
      forall m | m in nodes {
        m.hi := if k < m.hi then m.hi - 1 else m.hi;
      }
      forall m | m in nodes {
        m.pos := if k < m.pos then m.pos - 1 else m.pos;
      }
    }

    twostate predicate DetachStep(target: RbNode)
      reads this, nodes, root, nil
    {
      var k, c := old(target.pos), if old(target.left) == nil then old(target.right) else old(target.left);
      && old(Shape()) && target in old(nodes) && (old(target.left) == nil || old(target.right) == nil)
      && nodes == old(nodes) - {target} && Sentinels()
      && 0 <= k < |old(order)| && order == old(order)[..k] + old(order)[k + 1..]
      && (forall m: RbNode {:trigger m.left} :: m in nodes ==>
            m.left == (if m == old(target.parent) && old(target.parent.left) == target then c else old(m.left)))
      && (forall m: RbNode {:trigger m.right} :: m in nodes ==>
            m.right == (if m == old(target.parent) && old(target.parent.left) != target then c else old(m.right)))
      && (forall m: RbNode {:trigger m.parent} :: m in nodes ==>
            m.parent == (if m == c then old(target.parent) else old(m.parent)))
      && root.left == (if old(target.parent) == root then c else old(root.left))
      && (forall m: RbNode {:trigger m.lo} :: m in nodes ==> m.lo == old(m.lo) - (if k < old(m.lo) then 1 else 0))
      && (forall m: RbNode {:trigger m.hi} :: m in nodes ==> m.hi == old(m.hi) - (if k < old(m.hi) then 1 else 0))
      && (forall m: RbNode {:trigger m.pos} :: m in nodes ==> m.pos == old(m.pos) - (if k < old(m.pos) then 1 else 0))
    }

    twostate lemma DetachedSides(target: RbNode)
      requires DetachStep(target)
      ensures forall m {:trigger LinkedLeft(m)} :: m in nodes ==> LinkedLeft(m)
      ensures forall m {:trigger LinkedRight(m)} :: m in nodes ==> LinkedRight(m)
    {
      var c := if old(target.left) == nil then old(target.right) else old(target.left);
      assert old(Linked(target)) && old(order[target.pos] == target);
      assert c != nil ==> old(Linked(c));
      forall m | m in nodes ensures LinkedLeft(m) {
        assert old(Linked(m)) && (old(m.left) != nil ==> old(Linked(m.left)));
      }
      forall m | m in nodes ensures LinkedRight(m) {
        assert old(Linked(m)) && (old(m.right) != nil ==> old(Linked(m.right)));
      }
    }

    twostate lemma DetachedUp(target: RbNode)
      requires DetachStep(target)
      ensures forall m {:trigger LinkedUp(m)} :: m in nodes ==> LinkedUp(m)
    {
      var c := if old(target.left) == nil then old(target.right) else old(target.left);
      assert old(Linked(target)) && old(order[target.pos] == target);
      assert c != nil ==> old(Linked(c));
      forall m | m in nodes ensures LinkedUp(m) {
        assert old(Linked(m));
      }
    }

    twostate lemma DetachedOrder(target: RbNode)
      requires DetachStep(target)
      ensures forall i {:trigger order[i]} :: 0 <= i < |order| ==> order[i] in nodes && order[i].pos == i
    {
      var k := old(target.pos);
      assert old(Linked(target)) && old(order[k] == target);
      forall i {:trigger order[i]} | 0 <= i < |order| ensures order[i] in nodes && order[i].pos == i {
        var j := if i < k then i else i + 1;
        assert order[i] == old(order)[j] && old(order[j].pos) == j;
      }
    }

    twostate lemma DetachedShape(target: RbNode)
      requires DetachStep(target)
      ensures Shape()
    {
      var c := if old(target.left) == nil then old(target.right) else old(target.left);
      DetachedSides(target);
      DetachedUp(target);
      DetachedOrder(target);
      assert old(Linked(target)) && old(order[target.pos] == target);
      assert c != nil ==> old(Linked(c));
      forall m | m in nodes ensures Linked(m) {
        var _ := LinkedUp(m) && LinkedLeft(m) && LinkedRight(m);
      }
    }

    twostate lemma DetachedColours(target: RbNode)
      requires var c := if old(target.left) == nil then old(target.right) else old(target.left); 
        (c == nil || c in old(nodes)) && old(Detachable(target, c))
      requires DetachStep(target) && doomed == null
      requires forall m :: m in nodes ==> m.color == old(m.color) && m.bh == old(m.bh)
      ensures Coloured()
    {
      DetachedShape(target);
      assert old(Linked(target)) && old(RedsApart(target, nil));
      assert old(target.parent) != root ==> old(Linked(target.parent));
      forall m | m in nodes ensures Balanced(m) && RedsApart(m, nil) {
        assert old(Balanced(m)) && old(RedsApart(m, nil)) && old(Linked(m)) && Linked(m);
      }
    }

    // Take `target` out of the tree; `child` takes its place.
    method Detach(target: RbNode, child: RbNode)
      requires Detachable(target, child)
      modifies this`nodes, this`order, this`doomed, root`left
      modifies nodes`left, nodes`right, nodes`parent, nodes`pos, nodes`lo, nodes`hi
      ensures Coloured() && nodes == old(nodes) - {target}
      ensures 0 <= old(target.pos) < |old(order)| && order == old(order)[..old(target.pos)] + old(order)[old(target.pos) + 1..]
    {
      assert Linked(target);
      assert child != nil ==> Linked(child);
      ghost var k := target.pos;
      Bypass(target, child);
      Close(k);
      nodes := nodes - {target};
      order := order[..k] + order[k + 1..];
      doomed := null;
      DetachedColours(target);
    }

    // Make the colours right for the tree without `target`.
    method Rebalance(target: RbNode, child: RbNode)
      requires Coloured() && target in nodes && (target.left == nil || target.right == nil)
      requires child == (if target.left == nil then target.right else target.left)
      modifies this`doomed, root`left
      modifies nodes`left, nodes`right, nodes`parent, nodes`lo, nodes`hi, nodes`color, nodes`bh
      ensures Detachable(target, child)
    {
      assert Linked(target) && Balanced(target) && RedsApart(target, nil);
      assert child != nil ==> Linked(child) && Balanced(child);
      assert target.parent != root ==> Linked(target.parent) && Balanced(target.parent);
      doomed := target;
      if target.color == Black {
        if child.color == Red {
          child.color := Black;
          child.bh := child.bh + 1;
          ChildPainted(child);
        } else if target == root.left {
          target.bh := 1;
          TargetEmptied(target);
        } else {
          target.bh := 1;
          TargetEmptied(target);
          var _ := DeleteFixup(target);
        }
      }
    }

    twostate lemma ChildPainted(c: RbNode)
      requires old(Shape()) && old(BalancedBut(nil)) && old(RedsApartBut(nil)) && doomed != null && doomed in nodes && c in nodes && old(c.color).Red?
      requires nodes == old(nodes) && Shape()
      requires forall n: RbNode {:trigger n.left} {:trigger n.right} :: n in nodes ==> n.left == old(n.left) && n.right == old(n.right)
      requires forall n: RbNode {:trigger n.color} :: n in nodes ==> n.color == if n == c then Black else old(n.color)
      requires forall n: RbNode {:trigger n.bh} :: n in nodes ==> n.bh == if n == c then old(n.bh) + 1 else old(n.bh)
      requires old(doomed) == null && c.parent == doomed
      ensures BalancedBut(nil) && RedsApartBut(nil)
    {
      assert old(Linked(c));
      forall n | n in nodes ensures RedsApart(n, nil) && (n != doomed ==> Balanced(n)) {
        assert old(Balanced(n)) && old(RedsApart(n, nil)) && old(Linked(n)) && Linked(n);
      }
    }

    twostate lemma TargetEmptied(t: RbNode)
      requires old(Coloured()) && doomed == t && t in nodes && t.color.Black? && t.left == nil && t.right == nil && t.bh == 1
      requires nodes == old(nodes) && Shape() && root.left.color.Black?
      requires forall n: RbNode {:trigger n.left} {:trigger n.right} :: n in nodes ==> n.left == old(n.left) && n.right == old(n.right) && n.parent == old(n.parent)
      requires forall n: RbNode {:trigger n.color} :: n in nodes ==> n.color == old(n.color)
      requires forall n: RbNode {:trigger n.bh} :: n in nodes ==> n.bh == if n == t then 1 else old(n.bh)
      ensures Short(t)
    {
      assert old(Linked(t)) && old(Balanced(t)) && Linked(t);
      assert t.parent != root ==> old(Linked(t.parent)) && old(Balanced(t.parent));
      forall n | n in nodes && n != t && n != t.parent ensures Balanced(n) {
        assert old(Balanced(n)) && old(Linked(n)) && Linked(n);
      }
      forall n | n in nodes ensures RedsApart(n, nil) {
        assert old(RedsApart(n, nil));
      }
    }

    // The node at k is gone ...
    twostate lemma ItemGone(k: int)
      requires old(Shape()) && Shape() && 0 <= k < |old(order)| && order == old(order)[..k] + old(order)[k + 1..]
      requires nodes <= old(nodes) && forall m :: m in nodes && m != old(order[k]) ==> m.data == old(m.data)
      ensures Items() == old(Items())[..k] + old(Items())[k + 1..]
    {
      var s, t := old(Items()), Items();
      forall i {:trigger t[i]} | 0 <= i < |t| ensures t[i] == if i < k then s[i] else s[i + 1] {
        var j := if i < k then i else i + 1;
        assert order[i] == old(order)[j] && s[j] == old(order[j].data);
        assert order[i] in nodes && old(order[j].pos) == j && old(order[k].pos) == k;
      }
      SeqRemoved(t, s, k);
    }

    // ... or it has taken the item of its successor, whose node is gone.
    twostate lemma ItemMoved(k: int)
      requires old(Shape()) && Shape() && 0 <= k && k + 1 < |old(order)| && order == old(order)[..k + 1] + old(order)[k + 2..]
      requires order[k].data == old(order[k + 1].data)
      requires nodes <= old(nodes) && forall m :: m in nodes && m != old(order[k]) ==> m.data == old(m.data)
      ensures Items() == old(Items())[..k] + old(Items())[k + 1..]
    {
      var s, t := old(Items()), Items();
      forall i {:trigger t[i]} | 0 <= i < |t| ensures t[i] == if i < k then s[i] else s[i + 1] {
        var j := if i <= k then i else i + 1;
        assert order[i] == old(order)[j] && s[j] == old(order[j].data) && s[k + 1] == old(order[k + 1].data);
        assert order[i] in nodes && old(order[j].pos) == j && old(order[k].pos) == k;
      }
      SeqRemoved(t, s, k);
    }

    twostate lemma RemovedItems(k: int)
      requires old(Shape()) && Shape() && 0 <= k < |old(order)|
      requires
        || order == old(order)[..k] + old(order)[k + 1..]
        || (k + 1 < |old(order)| && order == old(order)[..k + 1] + old(order)[k + 2..] && order[k].data == old(order[k + 1].data))
      requires nodes <= old(nodes) && forall m :: m in nodes && m != old(order[k]) ==> m.data == old(m.data)
      ensures Items() == old(Items())[..k] + old(Items())[k + 1..]
    {
      if order == old(order)[..k] + old(order)[k + 1..] {
        ItemGone(k);
      } else {
        ItemMoved(k);
      }
    }

    /** What rbRemove does: the item at position k goes, and so does the node there or, with two children, its successor. */
    twostate predicate Removed(k: int)
      requires old(Shape()) && Shape()
      reads this, root, nil, nodes
    {
      && 0 <= k < |old(order)| && Items() == old(Items())[..k] + old(Items())[k + 1..]
      && var n := old(order[k]);
         if old(n.left) == nil || old(n.right) == nil then order == old(order)[..k] + old(order)[k + 1..]
         else k + 1 < |old(order)| && order == old(order)[..k + 1] + old(order)[k + 2..]
    }

    // With two children the node takes over the item of its successor, and the successor goes instead.
    method ChooseTarget(node: RbNode) returns (target: RbNode)
      requires Valid() && node in nodes
      modifies this`min, node`data
      ensures Coloured() && target in nodes && (target.left == nil || target.right == nil) && Linked(node) && Linked(target)
      ensures if node.left == nil || node.right == nil then target == node && node.data == old(node.data)
              else node.pos + 1 < |order| && target == order[node.pos + 1] && node.data == old(order[node.pos + 1].data)
      ensures min == (if |order| == 1 then null else if target.pos == 0 then order[1] else order[0])
    {
      assert Linked(node) && order[node.pos] == node;
      if node.left == nil || node.right == nil {
        target := node;
        if min == target {
          min := Next(target);
        }
      } else {
        var successor := Next(node);
        target := successor;
        node.data := target.data;
      }
    }

    // Rebalance while the target is still linked, then unlink it.
    method Unlink(target: RbNode)
      requires Coloured() && target in nodes && (target.left == nil || target.right == nil)
      modifies this`nodes, this`order, this`doomed, root`left
      modifies nodes`left, nodes`right, nodes`parent, nodes`pos, nodes`lo, nodes`hi, nodes`color, nodes`bh
      ensures Coloured() && nodes == old(nodes) - {target}
      ensures 0 <= old(target.pos) < |old(order)| && order == old(order)[..old(target.pos)] + old(order)[old(target.pos) + 1..]
    {
      var child := if target.left == nil then target.right else target.left;
      Rebalance(target, child);
      Detach(target, child);
    }

    lemma FirstLeft(o: seq<RbNode>, p: int, t: seq<RbNode>)
      requires 0 <= p < |o| && t == o[..p] + o[p + 1..]
      ensures |t| == |o| - 1 && (t != [] ==> t[0] == if p == 0 then o[1] else o[0])
    {
    }

    // The target goes, with `min` kept up.
    method Extract(node: RbNode)
      requires Valid() && node in nodes
      modifies this`nodes, this`order, this`min, this`doomed, root`left, nodes
      ensures Coloured() && nodes <= old(nodes) && min == (if order == [] then null else order[0])
      ensures 0 <= old(node.pos) < |old(order)| && old(order)[old(node.pos)] == node
      ensures if old(node.left) == nil || old(node.right) == nil
        then order == old(order)[..old(node.pos)] + old(order)[old(node.pos) + 1..]
        else (&& old(node.pos) + 1 < |old(order)| && node.data == old(order[node.pos + 1].data)
              && order == old(order)[..old(node.pos) + 1] + old(order)[old(node.pos) + 2..])
      ensures forall m :: m in nodes && m != node ==> m.data == old(m.data)
    {
      assert Linked(node);
      ghost var before := order;
      var target := ChooseTarget(node);
      ghost var p := target.pos;
      Unlink(target);
      FirstLeft(before, p, order);
    }

    // Everything but the callback.
    method RemoveNode(node: RbNode)
      requires Valid() && node in nodes
      modifies this`nodes, this`order, this`min, this`doomed, root`left, nodes
      ensures Valid() && Removed(old(node.pos)) && nodes <= old(nodes)
    {
      assert Linked(node);
      ghost var k := node.pos;
      SortedDelete(compare, dup, Items(), k);
      Extract(node);
      RemovedItems(k);
    }

    /** rbRemove: the item at the node's position goes; it is freed, or returned to the caller who keeps it. */
    method Remove(node: RbNode, keep: bool) returns (data: Data)
      requires Valid() && node in nodes
      modifies this`freed, this`nodes, this`order, this`min, this`doomed, root`left, nodes
      ensures Valid() && Removed(old(node.pos)) && nodes <= old(nodes)
      ensures data == (if keep then old(node.data) else NULL)
      ensures freed == old(freed) + (if !keep && hasFree then [old(node.data)] else [])
    {
      data := node.data;
      RemoveNode(node);
      if !keep {
        if hasFree {
          freed := freed + [data];
        }
        data := NULL;
      }
    }

    // ---------------------------------------------------------------- the order is the in-order walk

    ghost function InOrder(n: RbNode): seq<RbNode>
      requires Shape() && (n == nil || n in nodes)
      reads this`nodes, this`order, root, nil, nodes
      decreases if n == nil then 0 else n.hi - n.lo
    {
      if n == nil then [] else assert Linked(n); InOrder(n.left) + [n] + InOrder(n.right)
    }

    // The interval of a node is that of its left child, its position, and that of its right child.
    lemma Extents(n: RbNode)
      requires Shape() && n in nodes
      ensures Linked(n) && 0 <= n.lo <= n.pos < n.hi <= |order| && order[n.pos] == n
      ensures if n.left == nil then n.lo == n.pos else n.left in nodes && n.left.lo == n.lo && n.left.hi == n.pos
      ensures if n.right == nil then n.pos + 1 == n.hi else n.right in nodes && n.right.lo == n.pos + 1 && n.right.hi == n.hi
    {
      assert Linked(n);
    }

    lemma {:induction false} InOrderIsOrder(n: RbNode, lo: int, hi: int, walk: seq<RbNode>)
      requires Shape() && 0 <= lo <= hi <= |order|
      requires if n == nil then lo == hi else n in nodes && n.lo == lo && n.hi == hi
      requires walk == InOrder(n)
      ensures walk == order[lo..hi]
      decreases hi - lo
    {
      if n != nil {
        Extents(n);
        InOrderIsOrder(n.left, lo, n.pos, InOrder(n.left));
        InOrderIsOrder(n.right, n.pos + 1, hi, InOrder(n.right));
        Around(order, lo, n.pos, hi);
      }
    }

    // ---------------------------------------------------------------- the oracles

    /** checkOrder. */
    ghost function CheckOrder(n: RbNode, min: Data, max: Data): bool
      requires Shape() && (n == nil || n in nodes)
      reads this`nodes, this`order, root, nil, nodes
      decreases if n == nil then 0 else n.hi - n.lo
    {
      if n == nil then true
      else if dup && (compare(n.data, min, NULL) < 0 || compare(n.data, max, NULL) > 0) then false
      else if !dup && (compare(n.data, min, NULL) <= 0 || compare(n.data, max, NULL) >= 0) then false
      else assert Linked(n); CheckOrder(n.left, min, n.data) && CheckOrder(n.right, n.data, max)
    }

    ghost predicate Below(a: Data, b: Data) {
      if dup then compare(a, b, NULL) <= 0 else compare(a, b, NULL) < 0
    }

    lemma BelowTransitive(a: Data, b: Data, c: Data)
      requires TotalPreorder(compare)
      ensures Below(a, b) && Below(b, c) ==> Below(a, c)
      ensures Below(a, b) <==> if dup then compare(b, a, NULL) >= 0 else compare(b, a, NULL) > 0
    {
      Transitive(compare, a, b, c);
    }

    ghost predicate Inside(s: seq<Data>, i: int, min: Data, max: Data)
      requires 0 <= i < |s|
    {
      Below(min, s[i]) && Below(s[i], max)
    }

    /** Positions lo..hi hold ascending items between min and max. */
    ghost predicate Ascends(s: seq<Data>, lo: int, hi: int, min: Data, max: Data)
      requires 0 <= lo <= hi <= |s|
    {
      && (forall i {:trigger Inside(s, i, min, max)} :: lo <= i < hi ==> Inside(s, i, min, max))
      && (forall i, j {:trigger Ordered(compare, dup, s, i, j)} :: lo <= i < j < hi ==> Ordered(compare, dup, s, i, j))
    }

    lemma AscendsSplit(s: seq<Data>, lo: int, p: int, hi: int, min: Data, max: Data)
      requires TotalPreorder(compare) && 0 <= lo <= p < hi <= |s|
      ensures Ascends(s, lo, hi, min, max) <==>
                Inside(s, p, min, max) && Ascends(s, lo, p, min, s[p]) && Ascends(s, p + 1, hi, s[p], max)
    {
      if Ascends(s, lo, hi, min, max) {
        assert Inside(s, p, min, max);
        forall i | lo <= i < p ensures Inside(s, i, min, s[p]) {
          assert Inside(s, i, min, max) && Ordered(compare, dup, s, i, p);
        }
        forall i | p < i < hi ensures Inside(s, i, s[p], max) {
          assert Inside(s, i, min, max) && Ordered(compare, dup, s, p, i);
        }
      }
      if Inside(s, p, min, max) && Ascends(s, lo, p, min, s[p]) && Ascends(s, p + 1, hi, s[p], max) {
        forall i | lo <= i < hi ensures Inside(s, i, min, max) {
          assert i < p ==> Inside(s, i, min, s[p]);
          assert p < i ==> Inside(s, i, s[p], max);
          BelowTransitive(min, s[p], s[i]);
          BelowTransitive(s[i], s[p], max);
        }
        forall i, j | lo <= i < j < hi ensures Ordered(compare, dup, s, i, j) {
          assert i < p ==> Inside(s, i, min, s[p]);
          assert p < j ==> Inside(s, j, s[p], max);
          BelowTransitive(s[i], s[p], s[j]);
        }
      }
    }

    /** rbCheckOrder answers 1 exactly when the items ascend between the bounds. */
    lemma {:induction false} CheckOrderDecides(n: RbNode, min: Data, max: Data)
      requires Shape() && n in nodes && TotalPreorder(compare)
      ensures Linked(n) && (CheckOrder(n, min, max) <==> Ascends(Items(), n.lo, n.hi, min, max))
      decreases n.hi - n.lo
    {
      assert Linked(n);
      assert Items()[n.pos] == n.data;
      if n.left != nil {
        CheckOrderDecides(n.left, min, n.data);
      }
      if n.right != nil {
        CheckOrderDecides(n.right, n.data, max);
      }
      AscendsSplit(Items(), n.lo, n.pos, n.hi, min, max);
      BelowTransitive(min, n.data, max);
      BelowTransitive(n.data, max, max);
    }

    /** checkHeight: the black height, or 0 when a rule is broken. */
    ghost function CheckHeight(n: RbNode): nat
      requires Shape() && (n == nil || n in nodes)
      reads this`nodes, this`order, root, nil, nodes
      decreases if n == nil then 0 else n.hi - n.lo
    {
      if n == nil then 1
      else
        assert Linked(n);
        if n.color.Red? && (n.left.color.Red? || n.right.color.Red? || n.parent.color.Red?) then 0
        else
          var lbh := CheckHeight(n.left);
          if lbh == 0 then 0
          else
            var rbh := CheckHeight(n.right);
            if rbh == 0 || lbh != rbh then 0 else lbh + (if n.color.Black? then 1 else 0)
    }

    ghost predicate RbCheckHeight()
      requires Shape()
      reads this, root, nil, nodes
    {
      !(root.color.Red? || root.left.color.Red? || nil.color.Red?) && CheckHeight(root.left) != 0
    }

    lemma {:induction false} CheckHeightIsBlackHeight(n: RbNode)
      requires Coloured() && (n == nil || n in nodes)
      ensures CheckHeight(n) == n.bh && n.bh >= 1
      decreases if n == nil then 0 else n.hi - n.lo
    {
      if n != nil {
        assert Linked(n) && Balanced(n) && RedsApart(n, nil);
        if n.parent != root {
          assert RedsApart(n.parent, nil);
        }
        CheckHeightIsBlackHeight(n.left);
        CheckHeightIsBlackHeight(n.right);
      }
    }

    /** The source's own oracles accept every valid tree. */
    lemma OraclesAccept(min: Data, max: Data)
      requires Valid() && forall i {:trigger Inside(Items(), i, min, max)} :: 0 <= i < |order| ==> Inside(Items(), i, min, max)
      ensures RbCheckHeight() && CheckOrder(root.left, min, max)
    {
      CheckHeightIsBlackHeight(root.left);
      if root.left != nil {
        CheckOrderDecides(root.left, min, max);
      }
    }

    /** What a non-zero checkHeight says about every node below: the red rule and equal black heights. */
    lemma {:induction false} CheckHeightSound(n: RbNode, m: RbNode)
      requires Shape() && n in nodes && m in nodes && Linked(n) && n.lo <= m.pos < n.hi && CheckHeight(n) != 0
      ensures Linked(m) && RedsApart(m, nil) && CheckHeight(m.left) == CheckHeight(m.right) != 0
      decreases n.hi - n.lo
    {
      assert Linked(m);
      if m.pos < n.pos {
        CheckHeightSound(n.left, m);
      } else if m.pos > n.pos {
        CheckHeightSound(n.right, m);
      }
    }

    // ---------------------------------------------------------------- height

    ghost function Height(n: RbNode): nat
      requires Shape() && (n == nil || n in nodes)
      reads this`nodes, this`order, root, nil, nodes
      decreases if n == nil then 0 else n.hi - n.lo
    {
      if n == nil then 0
      else assert Linked(n); 1 + if Height(n.left) > Height(n.right) then Height(n.left) else Height(n.right)
    }

    lemma {:induction false} HeightWithinBlackHeight(n: RbNode)
      requires Coloured() && (n == nil || n in nodes)
      ensures n.bh >= 1 && Height(n) <= 2 * (n.bh - 1) + (if n.color.Red? then 1 else 0)
      ensures n != nil ==> Pow2(n.bh - 1) <= n.hi - n.lo + 1
      decreases if n == nil then 0 else n.hi - n.lo
    {
      if n != nil {
        assert Linked(n) && Balanced(n) && RedsApart(n, nil);
        HeightWithinBlackHeight(n.left);
        HeightWithinBlackHeight(n.right);
      }
    }

    /** The height is at most 2 log2(n + 1). */
    lemma HeightBound()
      requires Coloured()
      ensures Pow2(Height(root.left)) <= (|order| + 1) * (|order| + 1)
    {
      HeightWithinBlackHeight(root.left);
      var first := root.left;
      if first != nil {
        var b := first.bh - 1;
        Pow2Monotone(Height(first), b + b);
        Pow2Sum(b, b);
        Square(Pow2(b), |order| + 1);
      }
    }

    // ---------------------------------------------------------------- lookup

    /** The sign of the comparison falls along the items: first positive, then zero, then negative. */
    ghost predicate Monotone(data: Data, ctx: Data)
      requires Shape()
      reads this, root, nil, nodes
    {
      forall i, j {:trigger order[i], order[j]} :: 0 <= i < j < |order| && order[i] in nodes && order[j] in nodes ==>
        && (compare(data, order[i].data, ctx) < 0 ==> compare(data, order[j].data, ctx) < 0)
        && (compare(data, order[i].data, ctx) == 0 ==> compare(data, order[j].data, ctx) <= 0)
    }

    /** rbLookup: some match, found within the height of the tree. */
    method Lookup(data: Data, ctx: Data) returns (found: RbNode?, ghost steps: nat)
      requires Coloured() && Monotone(data, ctx)
      ensures found != null ==> found in nodes && compare(data, found.data, ctx) == 0
      ensures found == null ==> data == NULL || forall i :: 0 <= i < |order| ==> compare(data, order[i].data, ctx) != 0
      ensures Pow2(steps) <= (|order| + 1) * (|order| + 1)
    {
      HeightBound();
      steps := 0;
      Pow2Monotone(0, Height(root.left));
      if data == NULL {
        return null, 0;
      }
      var p := root.left;
      ghost var lo, hi := 0, |order|;
      while p != nil
        invariant p == nil || (p in nodes && Linked(p) && p.lo == lo && p.hi == hi)
        invariant p == nil ==> lo == hi
        invariant 0 <= lo <= hi <= |order| && steps + Height(p) <= Height(root.left)
        invariant forall i {:trigger order[i]} :: 0 <= i < lo ==> compare(data, order[i].data, ctx) > 0
        invariant forall i {:trigger order[i]} :: hi <= i < |order| ==> compare(data, order[i].data, ctx) < 0
        decreases hi - lo
      {
        steps := steps + 1;
        var cmp := compare(data, p.data, ctx);
        if cmp == 0 {
          Pow2Monotone(steps, Height(root.left));
          return p, steps;
        }
        assert order[p.pos] == p;
        lo, hi := if cmp < 0 then lo else p.pos + 1, if cmp < 0 then p.pos else hi;
        p := if cmp < 0 then p.left else p.right;
        assert p != nil ==> Linked(p);
      }
      Pow2Monotone(steps, Height(root.left));
      return null, steps;
    }

    /** rbLookupFirst: the leftmost match. */
    method LookupFirst(data: Data, ctx: Data) returns (found: RbNode?)
      requires Shape() && Monotone(data, ctx)
      ensures found != null ==> found in nodes && 0 <= found.pos < |order| && order[found.pos] == found && compare(data, order[found.pos].data, ctx) == 0
      ensures found != null ==> forall i {:trigger order[i]} :: 0 <= i < found.pos ==> compare(data, order[i].data, ctx) > 0
      ensures found == null ==> data == NULL || forall i {:trigger order[i]} :: 0 <= i < |order| ==> compare(data, order[i].data, ctx) != 0
    {
      if data == NULL {
        return null;
      }
      found := null;
      var p := root.left;
      ghost var lo, hi := 0, |order|;
      while p != nil
        invariant p == nil || (p in nodes && Linked(p) && p.lo == lo && p.hi == hi)
        invariant p == nil ==> lo == hi
        invariant 0 <= lo <= hi <= |order|
        invariant forall i {:trigger order[i]} :: 0 <= i < lo ==> compare(data, order[i].data, ctx) > 0
        invariant found == null ==> forall i {:trigger order[i]} :: hi <= i < |order| ==> compare(data, order[i].data, ctx) < 0
        invariant found != null ==> found in nodes && found.pos == hi < |order| && order[hi] == found && compare(data, found.data, ctx) == 0
        decreases hi - lo
      {
        assert order[p.pos] == p;
        var cmp := compare(data, p.data, ctx);
        if cmp == 0 {
          found := p;
          hi := p.pos;
          p := p.left;
        } else {
          lo, hi := if cmp < 0 then lo else p.pos + 1, if cmp < 0 then p.pos else hi;
          p := if cmp < 0 then p.left else p.right;
        }
        assert p != nil ==> Linked(p);
      }
    }

    /** rbLookupNext: the next node, if it matches too. */
    method LookupNext(node: RbNode, data: Data, ctx: Data) returns (next: RbNode?)
      requires Shape() && node in nodes
      ensures Linked(node)
      ensures next != null <==> node.pos + 1 < |order| && compare(data, order[node.pos + 1].data, ctx) == 0
      ensures next != null ==> next == order[node.pos + 1]
    {
      assert Linked(node);
      next := Next(node);
      if next != null && compare(data, next.data, ctx) != 0 {
        next := null;
      }
    }

    /** The matches are one contiguous run. */
    lemma MatchingRun(data: Data, ctx: Data) returns (a: nat, b: nat)
      requires Shape() && Monotone(data, ctx)
      ensures a <= b <= |order|
      ensures forall i {:trigger order[i]} :: 0 <= i < |order| ==> (compare(data, order[i].data, ctx) == 0 <==> a <= i < b)
    {
      assert forall i {:trigger order[i]} :: 0 <= i < |order| ==> order[i] in nodes;
      a := 0;
      while a < |order| && compare(data, order[a].data, ctx) > 0
        invariant a <= |order|
        invariant forall i {:trigger order[i]} :: 0 <= i < a ==> compare(data, order[i].data, ctx) > 0
      {
        a := a + 1;
      }
      b := a;
      while b < |order| && compare(data, order[b].data, ctx) == 0
        invariant a <= b <= |order|
        invariant forall i {:trigger order[i]} :: a <= i < b ==> compare(data, order[i].data, ctx) == 0
      {
        b := b + 1;
      }
    }

    /** ITERATE_INDEX: the loop visits the matching run once each, in order. */
    method IterateIndex(data: Data, ctx: Data) returns (visited: seq<RbNode>, ghost a: nat, ghost b: nat)
      requires Shape() && Monotone(data, ctx) && data != NULL
      ensures a <= b <= |order| && visited == order[a..b]
      ensures forall i {:trigger order[i]} :: 0 <= i < |order| ==> (compare(data, order[i].data, ctx) == 0 <==> a <= i < b)
    {
      a, b := MatchingRun(data, ctx);
      visited := [];
      var node := LookupFirst(data, ctx);
      if a < b {
        assert compare(data, order[a].data, ctx) == 0;
      }
      ghost var k := a;
      while node != null
        invariant a <= k <= b && visited == order[a..k]
        invariant if k < b then node == order[k] && node in nodes && node.pos == k else node == null
        decreases b - k
      {
        assert order[a..k + 1] == order[a..k] + [order[k]];
        visited := visited + [node];
        node := LookupNext(node, data, ctx);
        k := k + 1;
      }
    }

    /** ITERATE_TREE: from rbFirst, rbNext visits every node once, in order. */
    method IterateTree() returns (visited: seq<RbNode>)
      requires Valid()
      ensures visited == order
    {
      visited := [];
      var node := min;
      while node != null
        invariant |visited| <= |order| && visited == order[..|visited|]
        invariant node == if |visited| < |order| then order[|visited|] else null
        decreases |order| - |visited|
      {
        visited := visited + [node];
        node := Next(node);
      }
    }

    // ---------------------------------------------------------------- freeing the tree

    ghost function PostOrder(n: RbNode): seq<Data>
      requires Shape() && (n == nil || n in nodes)
      reads this`nodes, this`order, root, nil, nodes
      decreases if n == nil then 0 else n.hi - n.lo
    {
      if n == nil then [] else assert Linked(n); PostOrder(n.left) + PostOrder(n.right) + [n.data]
    }

    ghost function InOrderItems(n: RbNode): seq<Data>
      requires Shape() && (n == nil || n in nodes)
      reads this`nodes, this`order, root, nil, nodes
      decreases if n == nil then 0 else n.hi - n.lo
    {
      if n == nil then [] else assert Linked(n); InOrderItems(n.left) + [n.data] + InOrderItems(n.right)
    }

    lemma {:induction false} InOrderItemsAre(n: RbNode, lo: int, hi: int, s: seq<Data>, walk: seq<Data>)
      requires Shape() && 0 <= lo <= hi <= |order|
      requires if n == nil then lo == hi else n in nodes && n.lo == lo && n.hi == hi
      requires |s| == |order| && forall i {:trigger order[i].data} :: 0 <= i < |s| ==> s[i] == order[i].data
      requires walk == InOrderItems(n)
      ensures walk == s[lo..hi]
      decreases hi - lo
    {
      if n != nil {
        Extents(n);
        InOrderItemsAre(n.left, lo, n.pos, s, InOrderItems(n.left));
        InOrderItemsAre(n.right, n.pos + 1, hi, s, InOrderItems(n.right));
        assert s[n.pos] == order[n.pos].data;
        Around(s, lo, n.pos, hi);
      }
    }

    /** Freeing the children first gives up the same items as walking in order meets. */
    lemma {:induction false} PostOrderIsItems(n: RbNode, given: seq<Data>, walk: seq<Data>)
      requires Shape() && (n == nil || n in nodes)
      requires given == PostOrder(n) && walk == InOrderItems(n)
      ensures multiset(given) == multiset(walk)
      decreases if n == nil then 0 else n.hi - n.lo
    {
      if n != nil {
        Extents(n);
        var l, r, wl, wr := PostOrder(n.left), PostOrder(n.right), InOrderItems(n.left), InOrderItems(n.right);
        PostOrderIsItems(n.left, l, wl);
        PostOrderIsItems(n.right, r, wr);
        Reordered(l, r, wl, wr, n.data);
      }
    }

    lemma InTurn(was: seq<Data>, l: seq<Data>, r: seq<Data>, d: Data)
      ensures was + l + r + [d] == was + (l + r + [d])
    {
    }

    // freeNode: children first.
    method FreeNode(n: RbNode)
      requires Shape() && (n == nil || n in nodes)
      modifies this`freed
      ensures freed == old(freed) + (if hasFree then PostOrder(n) else [])
      decreases if n == nil then 0 else n.hi - n.lo
    {
      if n != nil {
        assert Linked(n);
        ghost var was, l, r := freed, PostOrder(n.left), PostOrder(n.right);
        FreeNode(n.left);
        FreeNode(n.right);
        if hasFree {
          InTurn(was, l, r, n.data);
          freed := freed + [n.data];
        }
      }
    }

    /** rbFree: the callback gets every item still stored exactly once. */
    method Free()
      requires Valid()
      modifies this`freed
      ensures multiset(freed) == multiset(old(freed)) + (if hasFree then multiset(Items()) else multiset{})
    {
      FreeNode(root.left);
      PostOrderIsItems(root.left, PostOrder(root.left), InOrderItems(root.left));
      InOrderItemsAre(root.left, 0, |order|, Items(), InOrderItems(root.left));
      assert Items()[0..|order|] == Items();
    }
  }
}
