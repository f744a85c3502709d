/** RbTree: the intrusive red/black tree `c42_rbtree_*`. The tree is kept as a
    value: `root` stands for `guard.links[0]`, and a search path (the `nodes` and
    `sides` arrays of `c42_rbtree_path_t`) is a zipper, one `Frame` per node the
    walk passed through, each remembering the subtree on the side not taken. The
    comparison callback is replaced by the order on integer keys. */
module RbTree {
  // Sides and comparison results (`C42_RBTREE_LESS/MORE/EQUAL/ERROR`).
  const LESS: nat := 0
  const MORE: nat := 1
  const EQUAL: nat := 2
  const ERROR: nat := 3

  // Results of `c42_rbtree_find`.
  const FOUND: nat := 0
  const NOT_FOUND: nat := 1

  /** A link index: `links[0]` holds the smaller keys, `links[1]` the larger. */
  type Side = s: nat | s <= 1

  /** `OTHER_SIDE`: flips the low bit. */
  function Other(s: Side): (r: Side)
    ensures r != s
  {
    1 - s
  }

  datatype Tree = Nil | Node(red: bool, left: Tree, key: int, right: Tree)
  {
    /** `links[s]`. */
    function Link(s: Side): Tree
      requires Node?
    {
      if s == LESS then left else right
    }
  }

  /** One step of a path: a node left through `links[side]`, with the colour and
      key it had and the subtree under its other link. */
  datatype Frame = Frame(red: bool, key: int, side: Side, other: Tree)

  /** `IS_RED`: a null link counts as black. */
  predicate IsRed(t: Tree)
  {
    t.Node? && t.red
  }

  /** The node a frame describes, with `t` hung on the side the path took. */
  function Attach(f: Frame, t: Tree): (r: Tree)
    ensures r.Node? && r.red == f.red && r.key == f.key
    ensures r.Link(f.side) == t && r.Link(Other(f.side)) == f.other
  {
    if f.side == LESS then Node(f.red, t, f.key, f.other) else Node(f.red, f.other, f.key, t)
  }

  /** The whole tree, given a path from the root and the subtree at its end. */
  function Plug(path: seq<Frame>, t: Tree): Tree
    decreases |path|
  {
    if path == [] then t else Plug(path[..|path| - 1], Attach(path[|path| - 1], t))
  }

  function InOrder(t: Tree): seq<int>
  {
    if t.Nil? then [] else InOrder(t.left) + [t.key] + InOrder(t.right)
  }

  /** The keys of the whole tree that come before the end of a path... */
  function Before(path: seq<Frame>): seq<int>
    decreases |path|
  {
    if path == [] then []
    else
      var f := path[|path| - 1];
      Before(path[..|path| - 1]) + (if f.side == MORE then InOrder(f.other) + [f.key] else [])
  }

  /** ...and those that come after it. */
  function After(path: seq<Frame>): seq<int>
    decreases |path|
  {
    if path == [] then []
    else
      var f := path[|path| - 1];
      (if f.side == LESS then [f.key] + InOrder(f.other) else []) + After(path[..|path| - 1])
  }

  predicate Sorted(s: seq<int>)
  {
    forall i, j :: 0 <= i < j < |s| ==> s[i] < s[j]
  }

  predicate Below(s: seq<int>, k: int)
  {
    forall i :: 0 <= i < |s| ==> s[i] < k
  }

  predicate Above(s: seq<int>, k: int)
  {
    forall i :: 0 <= i < |s| ==> k < s[i]
  }

  /** Black height: black nodes on the leftmost path, null links not counted. */
  function BH(t: Tree): nat
  {
    if t.Nil? then 0 else BH(t.left) + (if t.red then 0 else 1)
  }

  /** No red node has a red child, and both links of every node lead to the
      same number of black nodes. */
  predicate Valid(t: Tree)
  {
    t.Nil? ||
    (Valid(t.left) && Valid(t.right) && BH(t.left) == BH(t.right) &&
     (t.red ==> !IsRed(t.left) && !IsRed(t.right)))
  }

  /** The three red/black invariants of a whole tree: a valid tree with a black root. */
  predicate IsRedBlack(t: Tree)
  {
    Valid(t) && !IsRed(t)
  }

  /** A path accepts, at its end, a valid subtree of black height `h` whose root
      is red exactly when `red` holds. */
  predicate CtxValid(path: seq<Frame>, h: nat, red: bool)
    decreases |path|
  {
    path == [] ||
    (var f := path[|path| - 1];
     Valid(f.other) && BH(f.other) == h && !(f.red && (red || IsRed(f.other))) &&
     CtxValid(path[..|path| - 1], h + (if f.red then 0 else 1), f.red))
  }

  /** A stretch of path that always took the same side. */
  predicate Run(rest: seq<Frame>, side: Side)
  {
    forall j :: 0 <= j < |rest| ==> rest[j].side == side
  }

  /** The walk of `c42_rbtree_find` towards `key`: every step went left of a
      larger key or right of a smaller one. */
  predicate SearchPath(path: seq<Frame>, key: int)
  {
    forall i :: 0 <= i < |path| ==>
      (path[i].side == LESS ==> key < path[i].key) && (path[i].side == MORE ==> path[i].key < key)
  }

  // ---------------------------------------------------------------------------
  // Paths.

  lemma PlugSnoc(path: seq<Frame>, f: Frame, t: Tree)
    ensures Plug(path + [f], t) == Plug(path, Attach(f, t))
  {
    assert (path + [f])[..|path|] == path;
  }

  lemma PlugSnoc2(path: seq<Frame>, f: Frame, g: Frame, t: Tree)
    ensures Plug(path + [f, g], t) == Plug(path, Attach(f, Attach(g, t)))
  {
    assert (path + [f, g])[..|path| + 1] == path + [f];
    PlugSnoc(path, f, Attach(g, t));
  }

  /** One step of `CtxValid`, for a path written as a prefix and its last frame. */
  lemma CtxSnoc(up: seq<Frame>, f: Frame, h: nat, red: bool)
    ensures CtxValid(up + [f], h, red) <==>
      Valid(f.other) && BH(f.other) == h && !(f.red && (red || IsRed(f.other))) &&
      CtxValid(up, h + (if f.red then 0 else 1), f.red)
  {
    assert (up + [f])[..|up|] == up;
  }

  /** The in-order keys of a plugged tree: those before the path's end, the
      subtree's, then those after. */
  lemma {:induction false} InOrderPlug(path: seq<Frame>, t: Tree)
    ensures InOrder(Plug(path, t)) == Before(path) + InOrder(t) + After(path)
    decreases |path|
  {
    if path != [] {
      var up, f := path[..|path| - 1], path[|path| - 1];
      InOrderPlug(up, Attach(f, t));
      InOrderStep(up, f, t);
      assert up + [f] == path;
    }
  }

  /** One frame of `InOrderPlug`: the keys around a subtree, before and after
      attaching it to the path's last frame. */
  lemma InOrderStep(up: seq<Frame>, f: Frame, t: Tree)
    ensures Before(up + [f]) + InOrder(t) + After(up + [f]) == Before(up) + InOrder(Attach(f, t)) + After(up)
  {
    assert (up + [f])[..|up|] == up;
    var x, y := Before(up), After(up);
    var m, o := InOrder(t), InOrder(f.other);
    if f.side == LESS {
      assert InOrder(Attach(f, t)) == [] + m + ([f.key] + o);
      assert Before(up + [f]) == x + [];
      assert After(up + [f]) == [f.key] + o + y;
      Regroup3(x, [], m, [f.key] + o, y, InOrder(Attach(f, t)));
    } else {
      assert InOrder(Attach(f, t)) == (o + [f.key]) + m + [];
      assert Before(up + [f]) == x + (o + [f.key]);
      assert After(up + [f]) == [] + y;
      Regroup3(x, o + [f.key], m, [], y, InOrder(Attach(f, t)));
    }
  }

  lemma Regroup3(b: seq<int>, x: seq<int>, m: seq<int>, y: seq<int>, a: seq<int>, all: seq<int>)
    requires all == x + m + y
    ensures b + all + a == (b + x) + m + (y + a)
  {
  }

  /** Position of the key of the node at the end of a path among the in-order
      keys of the whole tree. */
  function Index(path: seq<Frame>, t: Tree): (r: nat)
    requires t.Node?
    ensures r < |InOrder(Plug(path, t))| && InOrder(Plug(path, t))[r] == t.key
  {
    InOrderPlug(path, t);
    assert InOrder(t) == InOrder(t.left) + [t.key] + InOrder(t.right);
    |Before(path)| + |InOrder(t.left)|
  }

  /** A plugged tree is valid exactly when the subtree is and the path accepts it. */
  lemma {:induction false} ValidPlug(path: seq<Frame>, t: Tree)
    ensures Valid(Plug(path, t)) <==> Valid(t) && CtxValid(path, BH(t), IsRed(t))
    decreases |path|
  {
    if path != [] {
      var f := path[|path| - 1];
      ValidPlug(path[..|path| - 1], Attach(f, t));
    }
  }

  /** A whole tree meets the red/black invariants when the subtree at the end of
      the path is valid, the path accepts it, and the root is black. */
  lemma PlugRedBlack(path: seq<Frame>, t: Tree)
    requires Valid(t) && CtxValid(path, BH(t), IsRed(t))
    requires if path == [] then !IsRed(t) else !path[0].red
    ensures IsRedBlack(Plug(path, t))
  {
    ValidPlug(path, t);
    RedPlug(path, t);
  }

  /** The root of a plugged tree is the path's first node, if any. */
  lemma {:induction false} RedPlug(path: seq<Frame>, t: Tree)
    ensures IsRed(Plug(path, t)) == if path == [] then IsRed(t) else path[0].red
    decreases |path|
  {
    if path != [] {
      var f := path[|path| - 1];
      RedPlug(path[..|path| - 1], Attach(f, t));
      if |path| > 1 {
        assert path[..|path| - 1][0] == path[0];
      }
    }
  }

  /** On a search path in an ordered tree, everything before the end is below
      the key and everything after it is above. */
  lemma {:induction false} SearchBounds(path: seq<Frame>, t: Tree, key: int)
    requires SearchPath(path, key) && Sorted(InOrder(Plug(path, t)))
    ensures Below(Before(path), key) && Above(After(path), key)
    decreases |path|
  {
    if path != [] {
      var up, f := path[..|path| - 1], path[|path| - 1];
      var a := Attach(f, t);
      InOrderPlug(up, a);
      SearchBounds(up, a, key);
      SortedMiddle(Before(up), InOrder(a), After(up));
      var o := InOrder(f.other);
      if f.side == MORE {
        SortedSplit(o, f.key, InOrder(t));
        assert Below(o + [f.key], key);
        assert Before(path) == Before(up) + (o + [f.key]);
        BelowCat(Before(up), o + [f.key], key);
      } else {
        SortedSplit(InOrder(t), f.key, o);
        assert Above([f.key] + o, key);
        assert After(path) == ([f.key] + o) + After(up);
        AboveCat([f.key] + o, After(up), key);
      }
    }
  }

  lemma SortedMiddle(b: seq<int>, m: seq<int>, a: seq<int>)
    requires Sorted(b + m + a)
    ensures Sorted(m)
  {
    forall i, j | 0 <= i < j < |m| ensures m[i] < m[j] {
      assert m[i] == (b + m + a)[|b| + i] && m[j] == (b + m + a)[|b| + j];
    }
  }

  lemma SortedSplit(x: seq<int>, k: int, y: seq<int>)
    requires Sorted(x + [k] + y)
    ensures Below(x, k) && Above(y, k)
  {
    var s := x + [k] + y;
    assert s[|x|] == k;
    forall i | 0 <= i < |x| ensures x[i] < k {
      assert x[i] == s[i];
    }
    forall i | 0 <= i < |y| ensures k < y[i] {
      assert y[i] == s[|x| + 1 + i];
    }
  }

  lemma BelowCat(x: seq<int>, y: seq<int>, k: int)
    requires Below(x, k) && Below(y, k)
    ensures Below(x + y, k)
  {
    forall i | 0 <= i < |x + y| ensures (x + y)[i] < k {
      if i >= |x| { assert (x + y)[i] == y[i - |x|]; }
    }
  }

  lemma AboveCat(x: seq<int>, y: seq<int>, k: int)
    requires Above(x, k) && Above(y, k)
    ensures Above(x + y, k)
  {
    forall i | 0 <= i < |x + y| ensures k < (x + y)[i] {
      if i >= |x| { assert (x + y)[i] == y[i - |x|]; }
    }
  }

  /** A key strictly between the two halves of an ordered sequence keeps it ordered. */
  lemma InsertSorted(b: seq<int>, a: seq<int>, key: int)
    requires Sorted(b + a) && Below(b, key) && Above(a, key)
    ensures Sorted(b + [key] + a)
  {
    var s := b + [key] + a;
    forall i, j | 0 <= i < j < |s| ensures s[i] < s[j] {
      if j < |b| {
        assert s[i] == (b + a)[i] && s[j] == (b + a)[j];
      } else if i > |b| {
        assert s[i] == (b + a)[i - 1] && s[j] == (b + a)[j - 1];
      }
    }
  }

  // ---------------------------------------------------------------------------
  // The tree object.

  /** `c42_rbtree_t`: `root` is the guard's left link. */
  class RbTree {
    var root: Tree

    /** `c42_rbtree_init`: the guard is cleared, so the tree is empty. */
    constructor Init()
      ensures root == Nil && IsRedBlack(root)
    {
      root := Nil;
    }

    /** `c42_rbtree_find`: walks from the root, left for a smaller key and right
        for a larger one, and stops at the node holding `key` (FOUND, the node is
        `focus`) or at a null link (NOT_FOUND, `focus` is Nil and the path ends at
        the node whose link it is). */
    method Find(key: int) returns (status: nat, path: seq<Frame>, focus: Tree)
      ensures Plug(path, focus) == root && SearchPath(path, key)
      ensures status == FOUND || status == NOT_FOUND
      ensures status == FOUND ==> focus.Node? && focus.key == key
      ensures status == NOT_FOUND ==> focus == Nil
      ensures Sorted(InOrder(root)) ==> (status == FOUND <==> key in InOrder(root))
    {
      path, focus := [], root;
      while focus.Node?
        invariant Plug(path, focus) == root && SearchPath(path, key)
        decreases focus
      {
        if key == focus.key {
          status := FOUND;
          InOrderPlug(path, focus);
          return;
        }
        var side: Side := if key < focus.key then LESS else MORE;
        var f := Frame(focus.red, focus.key, side, focus.Link(Other(side)));
        PlugSnoc(path, f, focus.Link(side));
        path, focus := path + [f], focus.Link(side);
      }
      status := NOT_FOUND;
      InOrderPlug(path, focus);
      if Sorted(InOrder(root)) {
        SearchBounds(path, focus, key);
      }
    }

    /** `c42_rbtree_insert` after a NOT_FOUND find: hangs a red leaf holding `key`
        at the end of `path`, then walks up the path repainting while both a
        parent and its sibling are red, and ends with one or two rotations or by
        blackening the root. */
    method Insert(path: seq<Frame>, key: int)
      requires Plug(path, Nil) == root && IsRedBlack(root)
      modifies this
      ensures IsRedBlack(root)
      ensures InOrder(root) == Before(path) + [key] + After(path)
    {
      var node := Node(true, Nil, key, Nil);
      var i: nat := |path|;
      InsertStart(path, key);
      assert path[..i] == path;
      while i > 0
        invariant i <= |path| && RedPending(path[..i], node)
        invariant InOrder(Plug(path[..i], node)) == Before(path) + [key] + After(path)
        decreases i
      {
        var ctx := path[..i];
        var parent := ctx[i - 1];
        if !parent.red {
          InsertBlackParent(ctx, node);
          root := Plug(ctx, node);
          return;
        }
        // the parent is red, so it is not the root: the root is black
        InsertRedParent(ctx, node);
        var up := ctx[..i - 2];
        var grandpa := ctx[i - 2];
        assert ctx == up + [grandpa, parent];
        var uncle := grandpa.other;
        if IsRed(uncle) {
          var p := Attach(parent.(red := false), node);
          var g := Attach(Frame(true, grandpa.key, grandpa.side, uncle.(red := false)), p);
          InsertRepaint(up, grandpa, parent, node, g);
          node := g;
          i := i - 2;
          assert path[..i] == up;
          continue;
        }
        var gs, ps := grandpa.side, parent.side;
        var top;
        if gs != ps {
          // the new node moves up between its parent and grandparent
          var p := Attach(Frame(true, parent.key, ps, parent.other), node.Link(gs));
          var g := Attach(Frame(true, grandpa.key, gs, uncle), node.Link(ps));
          top := Attach(Frame(false, node.key, gs, g), p);
          InsertDoubleRotate(up, grandpa, parent, node, top);
        } else {
          // the parent moves up and the grandparent goes to its other side
          var g := Attach(Frame(true, grandpa.key, gs, uncle), parent.other);
          top := Attach(Frame(false, parent.key, gs, g), node);
          InsertRotate(up, grandpa, parent, node, top);
        }
        root := Plug(up, top);
        return;
      }
      // the repainting reached the root
      node := node.(red := false);
      root := node;
    }

    /** `c42_rbtree_delete`: unlinks the node at the end of a path (`focus`, as
        left by a FOUND find). A node with two children first takes the key of
        its neighbour within its subtree, on the side it hangs from its own
        parent (the left for the root), and that neighbour's place is the one
        unlinked. A red node goes away; a black one with a child is replaced by
        that child in black; a black leaf leaves its parent one black node short,
        and the walk up the path repaints and rotates until that is made up. */
    method Delete(path: seq<Frame>, focus: Tree)
      requires focus.Node? && Plug(path, focus) == root && IsRedBlack(root)
      modifies this
      ensures IsRedBlack(root)
      ensures InOrder(root) == Before(path) + InOrder(focus.left) + InOrder(focus.right) + After(path)
    {
      var ctx, d := path, focus;
      if focus.left.Node? && focus.right.Node? {
        var ds: Side := if path == [] then LESS else path[|path| - 1].side;
        var found, path2, next := Np(path, focus, ds);
        // the neighbour's key moves into the node, and the neighbour's place goes
        ctx := path2[|path| := path2[|path|].(key := next.key)];
        d := next;
        SwapStep(path, focus, ds, path2, next, ctx);
      }
      Unlink(ctx, d);
    }

    /** The second half of `c42_rbtree_delete`: unlinks `d`, which has at most
        one child, from the end of `ctx`. */
    method Unlink(ctx: seq<Frame>, d: Tree)
      requires d.Node? && (d.left == Nil || d.right == Nil) && IsRedBlack(Plug(ctx, d))
      modifies this
      ensures IsRedBlack(root)
      ensures InOrder(root) == Before(ctx) + InOrder(d.left) + InOrder(d.right) + After(ctx)
    {
      var cs: Side := if d.left.Node? then LESS else MORE;
      var c := d.Link(cs);
      if d.red {
        RemoveRed(ctx, d);
        InOrderPlug(ctx, Nil);
        Concat3(Before(ctx), InOrder(Nil), InOrder(d.left), InOrder(d.right), After(ctx));
        root := Plug(ctx, Nil);
        return;
      }
      if c.Node? {
        RemoveWithChild(ctx, d, cs);
        InOrderPlug(ctx, c.(red := false));
        Concat3(Before(ctx), InOrder(c.(red := false)), InOrder(d.left), InOrder(d.right), After(ctx));
        root := Plug(ctx, c.(red := false));
        return;
      }
      RemoveBlackLeaf(ctx, d);
      InOrderPlug(ctx, Nil);
      Concat3(Before(ctx), InOrder(Nil), InOrder(d.left), InOrder(d.right), After(ctx));
      Rebalance(ctx, Nil);
    }

    /** The loop of `c42_rbtree_delete` that walks up from a subtree `n` one
        black node short of what its place in the tree needs. */
    method Rebalance(ctx0: seq<Frame>, n0: Tree)
      requires Short(ctx0, n0)
      modifies this
      ensures IsRedBlack(root)
      ensures InOrder(root) == InOrder(Plug(ctx0, n0))
    {
      var ctx, n := ctx0, n0;
      while ctx != []
        invariant Short(ctx, n)
        invariant InOrder(Plug(ctx, n)) == InOrder(Plug(ctx0, n0))
        decreases |ctx|
      {
        var up, p := ctx[..|ctx| - 1], ctx[|ctx| - 1];
        assert ctx == up + [p];
        ShortSibling(up, p, n);
        var ns := p.side;
        var ss := Other(ns);
        if IsRed(p.other) {
          // red sibling: rotate it up in black, the parent goes red
          var s := p.other;
          var up2 := up + [Frame(false, s.key, ns, s.Link(ss))];
          var p2 := Frame(true, p.key, ns, s.Link(ns));
          RedSiblingStep(up, p, n, up2, p2);
          up, p := up2, p2;
        } else if !p.red && !IsRed(p.other.left) && !IsRed(p.other.right) {
          // black parent, black sibling with black children: repaint and go up
          var n2 := Attach(p.(other := p.other.(red := true)), n);
          RecolourStep(up, p, n, n2);
          ctx, n := up, n2;
          continue;
        }
        var s := p.other;
        var sl, sr := s.Link(ns), s.Link(ss);
        if p.red && !IsRed(sl) && !IsRed(sr) {
          // red parent, black sibling with black children: swap their colours
          var top := Attach(Frame(false, p.key, ns, s.(red := true)), n);
          RedParentStep(up, p, n, top);
          root := Plug(up, top);
          return;
        }
        if IsRed(sl) && !IsRed(sr) {
          // red near child: rotate it up over the sibling
          var p2 := p.(other := Attach(Frame(false, sl.key, ns, Attach(Frame(true, s.key, ns, sr), sl.Link(ss))), sl.Link(ns)));
          NearNephewStep(up, p, n, p2);
          p, s := p2, p2.other;
          sl, sr := s.Link(ns), s.Link(ss);
        }
        // red far child (always the case here): rotate the sibling up at the parent
        var top := Attach(Frame(p.red, s.key, ns, sr.(red := false)), Attach(Frame(false, p.key, ns, sl), n));
        FarNephewStep(up, p, n, top);
        root := Plug(up, top);
        return;
      }
      root := n;
    }
  }

  /** The state of the delete fix-up loop: a valid black subtree `n` one black
      node short of what the path `ctx` needs, under a black root. */
  ghost predicate Short(ctx: seq<Frame>, n: Tree)
  {
    Valid(n) && !IsRed(n) && CtxValid(ctx, BH(n) + 1, false) && (ctx != [] ==> !ctx[0].red)
  }

  /** The sibling of a short subtree is a node: it has at least one black node. */
  lemma ShortSibling(up: seq<Frame>, p: Frame, n: Tree)
    requires Short(up + [p], n)
    ensures p.other.Node? && (IsRed(p.other) ==> !p.red)
  {
    CtxSnoc(up, p, BH(n) + 1, false);
  }

  /** Delete fix-up, case 2 on the whole tree: after the rotation the short
      subtree has a red parent and a black sibling, under the same keys. */
  lemma RedSiblingStep(up: seq<Frame>, p: Frame, n: Tree, up2: seq<Frame>, p2: Frame)
    requires Short(up + [p], n) && IsRed(p.other)
    requires up2 == up + [Frame(false, p.other.key, p.side, p.other.Link(Other(p.side)))]
    requires p2 == Frame(true, p.key, p.side, p.other.Link(p.side))
    ensures Short(up2 + [p2], n) && p2.red && p2.side == p.side && p2.other.Node? && !p2.other.red
    ensures InOrder(Plug(up2 + [p2], n)) == InOrder(Plug(up + [p], n))
  {
    FixRedSibling(up, p, n, up2, p2);
    if up != [] {
      assert (up + [p])[0] == up[0];
    }
  }

  /** Delete fix-up, case 3 on the whole tree: the shortfall moves one frame up. */
  lemma RecolourStep(up: seq<Frame>, p: Frame, n: Tree, n2: Tree)
    requires Short(up + [p], n)
    requires !p.red && p.other.Node? && !IsRed(p.other) && !IsRed(p.other.left) && !IsRed(p.other.right)
    requires n2 == Attach(p.(other := p.other.(red := true)), n)
    ensures Short(up, n2) && InOrder(Plug(up, n2)) == InOrder(Plug(up + [p], n))
  {
    FixRecolour(up, p, n, n2);
    PlugSnoc(up, p, n);
    SameInOrderPlug(up, Attach(p, n), n2);
    if up != [] {
      assert (up + [p])[0] == up[0];
    }
  }

  /** Delete fix-up, case 4 on the whole tree: the tree is red/black again. */
  lemma RedParentStep(up: seq<Frame>, p: Frame, n: Tree, top: Tree)
    requires Short(up + [p], n)
    requires p.red && p.other.Node? && !IsRed(p.other) && !IsRed(p.other.left) && !IsRed(p.other.right)
    requires top == Attach(Frame(false, p.key, p.side, p.other.(red := true)), n)
    ensures IsRedBlack(Plug(up, top)) && InOrder(Plug(up, top)) == InOrder(Plug(up + [p], n))
  {
    FixRedParent(up, p, n, top);
    PlugSnoc(up, p, n);
    SameInOrderPlug(up, Attach(p, n), top);
    if up != [] {
      assert (up + [p])[0] == up[0];
    }
    PlugRedBlack(up, top);
  }

  /** Delete fix-up, red near child on the whole tree: the sibling now has a
      red far child, under the same keys. */
  lemma NearNephewStep(up: seq<Frame>, p: Frame, n: Tree, p2: Frame)
    requires Short(up + [p], n)
    requires p.other.Node? && !p.other.red && IsRed(p.other.Link(p.side)) && !IsRed(p.other.Link(Other(p.side)))
    requires var s, ns := p.other, p.side;
      p2 == p.(other := Attach(Frame(false, s.Link(ns).key, ns,
                                     Attach(Frame(true, s.key, ns, s.Link(Other(ns))), s.Link(ns).Link(Other(ns)))),
                               s.Link(ns).Link(ns)))
    ensures Short(up + [p2], n) && p2.other.Node? && !p2.other.red && IsRed(p2.other.Link(Other(p.side)))
    ensures InOrder(Plug(up + [p2], n)) == InOrder(Plug(up + [p], n))
  {
    CtxSnoc(up, p, BH(n) + 1, false);
    FixNearNephew(p.other, p.side, p2.other);
    assert InOrder(Attach(p2, n)) == InOrder(Attach(p, n));
    CtxSnoc(up, p2, BH(n) + 1, false);
    PlugSnoc(up, p2, n);
    PlugSnoc(up, p, n);
    SameInOrderPlug(up, Attach(p, n), Attach(p2, n));
    if up != [] {
      assert (up + [p])[0] == up[0];
      assert (up + [p2])[0] == up[0];
    }
  }

  /** Delete fix-up, red far child on the whole tree: the tree is red/black again. */
  lemma FarNephewStep(up: seq<Frame>, p: Frame, n: Tree, top: Tree)
    requires Short(up + [p], n)
    requires p.other.Node? && !p.other.red && IsRed(p.other.Link(Other(p.side)))
    requires top == Attach(Frame(p.red, p.other.key, p.side, p.other.Link(Other(p.side)).(red := false)),
                           Attach(Frame(false, p.key, p.side, p.other.Link(p.side)), n))
    ensures IsRedBlack(Plug(up, top)) && InOrder(Plug(up, top)) == InOrder(Plug(up + [p], n))
  {
    FixFarNephew(up, p, n, top);
    PlugSnoc(up, p, n);
    SameInOrderPlug(up, Attach(p, n), top);
    if up != [] {
      assert (up + [p])[0] == up[0];
    }
    PlugRedBlack(up, top);
  }

  lemma Concat3(b: seq<int>, m: seq<int>, l: seq<int>, r: seq<int>, a: seq<int>)
    requires m == l + r
    ensures b + m + a == b + l + r + a
  {
  }

  /** Replacing a subtree by one with the same in-order keys keeps the whole
      tree's in-order keys. */
  lemma SameInOrderPlug(path: seq<Frame>, a: Tree, b: Tree)
    requires InOrder(a) == InOrder(b)
    ensures InOrder(Plug(path, a)) == InOrder(Plug(path, b))
  {
    InOrderPlug(path, a);
    InOrderPlug(path, b);
  }

  /** The state of the insert fix-up loop: a valid red subtree `node` whose
      path accepts it except that its parent may be red, under a black root. */
  ghost predicate RedPending(ctx: seq<Frame>, node: Tree)
  {
    Valid(node) && IsRed(node) && CtxValid(ctx, BH(node), false) && (ctx != [] ==> !ctx[0].red)
  }

  /** A new red node at the null link where a search ended. */
  lemma InsertStart(path: seq<Frame>, key: int)
    requires IsRedBlack(Plug(path, Nil))
    ensures RedPending(path, Node(true, Nil, key, Nil))
    ensures InOrder(Plug(path, Node(true, Nil, key, Nil))) == Before(path) + [key] + After(path)
  {
    ValidPlug(path, Nil);
    RedPlug(path, Nil);
    InOrderPlug(path, Node(true, Nil, key, Nil));
  }

  /** Insert, black parent: nothing to repair. */
  lemma InsertBlackParent(ctx: seq<Frame>, node: Tree)
    requires RedPending(ctx, node) && ctx != [] && !ctx[|ctx| - 1].red
    ensures IsRedBlack(Plug(ctx, node))
  {
    var up, parent := ctx[..|ctx| - 1], ctx[|ctx| - 1];
    assert ctx == up + [parent];
    CtxSnoc(up, parent, BH(node), false);
    CtxSnoc(up, parent, BH(node), true);
    PlugRedBlack(ctx, node);
  }

  /** A red parent is not the root, so there is a grandparent. */
  lemma InsertRedParent(ctx: seq<Frame>, node: Tree)
    requires RedPending(ctx, node) && ctx != [] && ctx[|ctx| - 1].red
    ensures |ctx| >= 2
  {
  }

  /** Insert, red uncle, on the whole tree: the red subtree to repair is now
      the grandparent, two frames up, under the same keys. */
  lemma InsertRepaint(up: seq<Frame>, grandpa: Frame, parent: Frame, node: Tree, g: Tree)
    requires RedPending(up + [grandpa, parent], node)
    requires parent.red && IsRed(grandpa.other)
    requires g == Attach(Frame(true, grandpa.key, grandpa.side, grandpa.other.(red := false)),
                         Attach(parent.(red := false), node))
    ensures RedPending(up, g)
    ensures InOrder(Plug(up, g)) == InOrder(Plug(up + [grandpa, parent], node))
  {
    RepaintStep(up, grandpa, parent, node, g);
    PlugSnoc2(up, grandpa, parent, node);
    SameInOrderPlug(up, Attach(grandpa, Attach(parent, node)), g);
    if up != [] {
      assert (up + [grandpa, parent])[0] == up[0];
    }
  }

  /** Insert, single rotation, on the whole tree: the tree is red/black again. */
  lemma InsertRotate(up: seq<Frame>, grandpa: Frame, parent: Frame, node: Tree, top: Tree)
    requires RedPending(up + [grandpa, parent], node)
    requires parent.red && !IsRed(grandpa.other) && grandpa.side == parent.side
    requires top == Attach(Frame(false, parent.key, grandpa.side,
                                 Attach(Frame(true, grandpa.key, grandpa.side, grandpa.other), parent.other)),
                           node)
    ensures IsRedBlack(Plug(up, top))
    ensures InOrder(Plug(up, top)) == InOrder(Plug(up + [grandpa, parent], node))
  {
    RotateStep(up, grandpa, parent, node, top);
    PlugSnoc2(up, grandpa, parent, node);
    SameInOrderPlug(up, Attach(grandpa, Attach(parent, node)), top);
    if up != [] {
      assert (up + [grandpa, parent])[0] == up[0];
    }
    PlugRedBlack(up, top);
  }

  /** Insert, double rotation, on the whole tree: the tree is red/black again. */
  lemma InsertDoubleRotate(up: seq<Frame>, grandpa: Frame, parent: Frame, node: Tree, top: Tree)
    requires RedPending(up + [grandpa, parent], node)
    requires parent.red && !IsRed(grandpa.other) && grandpa.side != parent.side
    requires top == Attach(Frame(false, node.key, grandpa.side,
                                 Attach(Frame(true, grandpa.key, grandpa.side, grandpa.other), node.Link(parent.side))),
                           Attach(Frame(true, parent.key, parent.side, parent.other), node.Link(grandpa.side)))
    ensures IsRedBlack(Plug(up, top))
    ensures InOrder(Plug(up, top)) == InOrder(Plug(up + [grandpa, parent], node))
  {
    DoubleRotateStep(up, grandpa, parent, node, top);
    PlugSnoc2(up, grandpa, parent, node);
    SameInOrderPlug(up, Attach(grandpa, Attach(parent, node)), top);
    if up != [] {
      assert (up + [grandpa, parent])[0] == up[0];
    }
    PlugRedBlack(up, top);
  }

  /** Insert, red uncle: parent and uncle turn black and the grandparent red, and
      the grandparent becomes the subtree that may clash with its own parent. */
  lemma RepaintStep(up: seq<Frame>, grandpa: Frame, parent: Frame, node: Tree, g: Tree)
    requires Valid(node) && IsRed(node) && CtxValid(up + [grandpa, parent], BH(node), false)
    requires parent.red && IsRed(grandpa.other)
    requires g == Attach(Frame(true, grandpa.key, grandpa.side, grandpa.other.(red := false)),
                         Attach(parent.(red := false), node))
    ensures Valid(g) && IsRed(g) && CtxValid(up, BH(g), false)
    ensures InOrder(g) == InOrder(Attach(grandpa, Attach(parent, node)))
  {
    assert (up + [grandpa, parent])[..|up| + 1] == up + [grandpa];
    CtxSnoc(up + [grandpa], parent, BH(node), false);
    CtxSnoc(up, grandpa, BH(node), true);
    var uncle := grandpa.other;
    assert InOrder(uncle.(red := false)) == InOrder(uncle);
    assert Valid(uncle.(red := false)) && BH(uncle.(red := false)) == BH(node) + 1;
    assert Valid(parent.other) && BH(parent.other) == BH(node);
    var p := Attach(parent.(red := false), node);
    assert Valid(p) && BH(p) == BH(node) + 1;
  }

  /** Insert, black uncle, node and parent on the same side: one rotation at the
      grandparent, the parent on top in black. */
  lemma RotateStep(up: seq<Frame>, grandpa: Frame, parent: Frame, node: Tree, top: Tree)
    requires Valid(node) && IsRed(node) && CtxValid(up + [grandpa, parent], BH(node), false)
    requires parent.red && !IsRed(grandpa.other) && grandpa.side == parent.side
    requires top == Attach(Frame(false, parent.key, grandpa.side,
                                 Attach(Frame(true, grandpa.key, grandpa.side, grandpa.other), parent.other)),
                           node)
    ensures Valid(top) && !IsRed(top) && CtxValid(up, BH(top), false)
    ensures InOrder(top) == InOrder(Attach(grandpa, Attach(parent, node)))
  {
    assert (up + [grandpa, parent])[..|up| + 1] == up + [grandpa];
    CtxSnoc(up + [grandpa], parent, BH(node), false);
    CtxSnoc(up, grandpa, BH(node), true);
    var h := BH(node);
    var g := Attach(Frame(true, grandpa.key, grandpa.side, grandpa.other), parent.other);
    assert Valid(g) && BH(g) == h;
    if grandpa.side == LESS {
      assert Attach(grandpa, Attach(parent, node)) ==
        Node(grandpa.red, Node(parent.red, node, parent.key, parent.other), grandpa.key, grandpa.other);
      assert top == Node(false, node, parent.key, Node(true, parent.other, grandpa.key, grandpa.other));
      Rotation(node, parent.key, parent.other, grandpa.key, grandpa.other, false, true, grandpa.red, parent.red);
    } else {
      assert Attach(grandpa, Attach(parent, node)) ==
        Node(grandpa.red, grandpa.other, grandpa.key, Node(parent.red, parent.other, parent.key, node));
      assert top == Node(false, Node(true, grandpa.other, grandpa.key, parent.other), parent.key, node);
      Rotation(grandpa.other, grandpa.key, parent.other, parent.key, node, grandpa.red, parent.red, false, true);
    }
  }

  /** A single rotation keeps the in-order keys. */
  lemma Rotation(a: Tree, x: int, b: Tree, y: int, c: Tree, r1: bool, r2: bool, r3: bool, r4: bool)
    ensures InOrder(Node(r1, a, x, Node(r2, b, y, c))) == InOrder(Node(r3, Node(r4, a, x, b), y, c))
  {
    var sa, sb, sc := InOrder(a), InOrder(b), InOrder(c);
    assert InOrder(Node(r1, a, x, Node(r2, b, y, c))) == sa + [x] + (sb + [y] + sc);
    assert sa + [x] + (sb + [y] + sc) == sa + [x] + sb + [y] + sc;
  }

  /** Insert, black uncle, node and parent on opposite sides: the node rises
      over both, black, with parent and grandparent as red children. */
  lemma DoubleRotateStep(up: seq<Frame>, grandpa: Frame, parent: Frame, node: Tree, top: Tree)
    requires Valid(node) && IsRed(node) && CtxValid(up + [grandpa, parent], BH(node), false)
    requires parent.red && !IsRed(grandpa.other) && grandpa.side != parent.side
    requires top == Attach(Frame(false, node.key, grandpa.side,
                                 Attach(Frame(true, grandpa.key, grandpa.side, grandpa.other), node.Link(parent.side))),
                           Attach(Frame(true, parent.key, parent.side, parent.other), node.Link(grandpa.side)))
    ensures Valid(top) && !IsRed(top) && CtxValid(up, BH(top), false)
    ensures InOrder(top) == InOrder(Attach(grandpa, Attach(parent, node)))
  {
    assert (up + [grandpa, parent])[..|up| + 1] == up + [grandpa];
    CtxSnoc(up + [grandpa], parent, BH(node), false);
    CtxSnoc(up, grandpa, BH(node), true);
    var h := BH(node);
    var a, b := node.Link(grandpa.side), node.Link(parent.side);
    assert Valid(a) && Valid(b) && !IsRed(a) && !IsRed(b) && BH(a) == h && BH(b) == h;
    var p := Attach(Frame(true, parent.key, parent.side, parent.other), a);
    var g := Attach(Frame(true, grandpa.key, grandpa.side, grandpa.other), b);
    assert Valid(p) && BH(p) == h;
    assert Valid(g) && BH(g) == h;
    DoubleRotateInOrder(grandpa, parent, node, top);
  }

  /** The in-order keys of the seven parts of a double rotation, however grouped. */
  lemma Zig(a: Tree, x: int, b: Tree, y: int, c: Tree, z: int, d: Tree, r4: bool, r5: bool, r6: bool)
    ensures InOrder(Node(false, Node(true, a, x, b), y, Node(true, c, z, d))) ==
            InOrder(Node(r4, Node(r5, a, x, Node(r6, b, y, c)), z, d))
    ensures InOrder(Node(false, Node(true, a, x, b), y, Node(true, c, z, d))) ==
            InOrder(Node(r4, a, x, Node(r5, Node(r6, b, y, c), z, d)))
  {
    var sa, sb, sc, sd := InOrder(a), InOrder(b), InOrder(c), InOrder(d);
    var all := sa + [x] + sb + [y] + sc + [z] + sd;
    assert InOrder(Node(false, Node(true, a, x, b), y, Node(true, c, z, d))) == all;
    var mid := sb + [y] + sc;
    assert InOrder(Node(r6, b, y, c)) == mid;
    assert sa + [x] + mid == sa + [x] + sb + [y] + sc;
    assert InOrder(Node(r4, Node(r5, a, x, Node(r6, b, y, c)), z, d)) == all;
    assert mid + [z] + sd == sb + [y] + sc + [z] + sd;
    assert sa + [x] + (mid + [z] + sd) == all;
    assert InOrder(Node(r4, a, x, Node(r5, Node(r6, b, y, c), z, d))) == all;
  }

  lemma DoubleRotateInOrder(grandpa: Frame, parent: Frame, node: Tree, top: Tree)
    requires node.Node? && grandpa.side != parent.side
    requires top == Attach(Frame(false, node.key, grandpa.side,
                                 Attach(Frame(true, grandpa.key, grandpa.side, grandpa.other), node.Link(parent.side))),
                           Attach(Frame(true, parent.key, parent.side, parent.other), node.Link(grandpa.side)))
    ensures InOrder(top) == InOrder(Attach(grandpa, Attach(parent, node)))
  {
    if grandpa.side == LESS {
      assert Attach(grandpa, Attach(parent, node)) ==
        Node(grandpa.red, Node(parent.red, parent.other, parent.key, node), grandpa.key, grandpa.other);
      assert top == Node(false, Node(true, parent.other, parent.key, node.left), node.key,
                         Node(true, node.right, grandpa.key, grandpa.other));
      Zig(parent.other, parent.key, node.left, node.key, node.right, grandpa.key, grandpa.other, grandpa.red, parent.red, node.red);
    } else {
      assert Attach(grandpa, Attach(parent, node)) ==
        Node(grandpa.red, grandpa.other, grandpa.key, Node(parent.red, node, parent.key, parent.other));
      assert top == Node(false, Node(true, grandpa.other, grandpa.key, node.left), node.key,
                         Node(true, node.right, parent.key, parent.other));
      Zig(grandpa.other, grandpa.key, node.left, node.key, node.right, parent.key, parent.other, grandpa.red, parent.red, node.red);
    }
  }

  /** `c42_rbtree_np`: from the node at the end of a path, one step to `side` and
      then as far as possible the other way, extending the path as it goes; the
      node reached is the in-order neighbour on that side within the start
      node's own subtree. With no link on that side nothing changes. */
  method Np(path: seq<Frame>, focus: Tree, side: Side) returns (found: bool, path2: seq<Frame>, focus2: Tree)
    requires focus.Node?
    ensures Plug(path2, focus2) == Plug(path, focus)
    ensures found <==> focus.Link(side).Node?
    ensures !found ==> path2 == path && focus2 == focus
    ensures found ==> focus2.Node? && focus2.Link(Other(side)) == Nil
    ensures found ==> |path2| > |path| && path2[..|path|] == path &&
                      path2[|path|] == Frame(focus.red, focus.key, side, focus.Link(Other(side)))
    ensures found ==> Plug(path2[|path| + 1..], focus2) == focus.Link(side) &&
                      Run(path2[|path| + 1..], Other(side))
    ensures found && side == MORE ==> Before(path2) == Before(path) + InOrder(focus.left) + [focus.key]
    ensures found && side == LESS ==> After(path2) == [focus.key] + InOrder(focus.right) + After(path)
    ensures found ==> Index(path2, focus2) == Index(path, focus) + (if side == MORE then 1 else -1)
  {
    var m := focus.Link(side);
    if m.Nil? {
      return false, path, focus;
    }
    var first := Frame(focus.red, focus.key, side, focus.Link(Other(side)));
    found, path2 := true, path + [first];
    var o := Other(side);
    ghost var rest: seq<Frame> := [];
    while m.Link(o).Node?
      invariant m.Node? && path2 == path + [first] + rest && Plug(rest, m) == focus.Link(side)
      invariant Run(rest, o)
      decreases m
    {
      var f := Frame(m.red, m.key, o, m.Link(side));
      PlugSnoc(rest, f, m.Link(o));
      path2, m := path2 + [f], m.Link(o);
      rest := rest + [f];
    }
    focus2 := m;
    NpDone(path, focus, side, rest, focus2);
    NpAdjacent(path, focus, side, path2, focus2);
  }

  /** The node `Np` reaches holds the key next to the start node's, on `side`,
      among all the keys of the tree. */
  lemma NpAdjacent(path: seq<Frame>, focus: Tree, side: Side, path2: seq<Frame>, focus2: Tree)
    requires focus.Node? && focus2.Node? && focus2.Link(Other(side)) == Nil
    requires Plug(path2, focus2) == Plug(path, focus)
    requires side == MORE ==> Before(path2) == Before(path) + InOrder(focus.left) + [focus.key]
    requires side == LESS ==> After(path2) == [focus.key] + InOrder(focus.right) + After(path)
    ensures Index(path2, focus2) == Index(path, focus) + (if side == MORE then 1 else -1)
  {
    if side == LESS {
      InOrderPlug(path, focus);
      InOrderPlug(path2, focus2);
      assert |InOrder(focus2)| == |InOrder(focus2.left)| + 1;
      assert |InOrder(focus)| == |InOrder(focus.left)| + 1 + |InOrder(focus.right)|;
    }
  }

  /** `c42_rbtree_np` as written finds no neighbour for a node without a link on
      `side`, though one may sit higher up: here key 1 is a left leaf under
      the root 2, and no step to MORE is taken from it. */
  lemma NpStopsShort()
    ensures var path, focus := [Frame(false, 2, LESS, Nil)], Node(true, Nil, 1, Nil);
      IsRedBlack(Plug(path, focus)) && focus.Link(MORE).Nil? &&
      Index(path, focus) + 1 < |InOrder(Plug(path, focus))| &&
      InOrder(Plug(path, focus))[Index(path, focus) + 1] == 2
  {
    var path, focus := [Frame(false, 2, LESS, Nil)], Node(true, Nil, 1, Nil);
    assert path[..0] == [];
    assert Plug(path, focus) == Node(false, focus, 2, Nil);
    assert Before(path) == [] && InOrder(Plug(path, focus)) == [1, 2];
  }

  /** The neighbour on `side` of the node at the end of a path among all the
      keys of the tree: `Np`'s walk when the node has a link on that side,
      otherwise the nearest ancestor whose subtree on the other side holds the
      node. Nothing is found only at the end of the keys. */
  method NpClimb(path: seq<Frame>, focus: Tree, side: Side) returns (found: bool, path2: seq<Frame>, focus2: Tree)
    requires focus.Node?
    ensures Plug(path2, focus2) == Plug(path, focus)
    ensures found <==> if side == MORE then Index(path, focus) + 1 < |InOrder(Plug(path, focus))|
                       else Index(path, focus) > 0
    ensures found ==> focus2.Node? && Index(path2, focus2) == Index(path, focus) + (if side == MORE then 1 else -1)
    ensures !found ==> path2 == path && focus2 == focus
  {
    if focus.Link(side).Node? {
      found, path2, focus2 := Np(path, focus, side);
      assert Index(path2, focus2) < |InOrder(Plug(path2, focus2))|;
      return;
    }
    var p, t := path, focus;
    assert InOrder(focus) == InOrder(focus.left) + [focus.key] + InOrder(focus.right);
    while p != [] && p[|p| - 1].side == side
      invariant t.Node? && Plug(p, t) == Plug(path, focus) && Reach(p, t, Index(path, focus), side)
      decreases |p|
    {
      ClimbStep(p, t, Index(path, focus), side);
      p, t := p[..|p| - 1], Attach(p[|p| - 1], t);
    }
    if p == [] {
      ClimbTop(t, Index(path, focus), side);
      return false, path, focus;
    }
    ClimbFound(p, t, Index(path, focus), side);
    found, path2, focus2 := true, p[..|p| - 1], Attach(p[|p| - 1], t);
  }

  /** The climb of `NpClimb` at subtree `t` of path `p`: the start node, whose
      key is at position `i`, is the last node of `t` on `side`. */
  ghost predicate Reach(p: seq<Frame>, t: Tree, i: nat, side: Side)
  {
    if side == MORE then |Before(p)| + |InOrder(t)| == i + 1 else |Before(p)| == i
  }

  lemma ClimbStep(p: seq<Frame>, t: Tree, i: nat, side: Side)
    requires p != [] && p[|p| - 1].side == side && Reach(p, t, i, side)
    ensures Reach(p[..|p| - 1], Attach(p[|p| - 1], t), i, side)
    ensures Plug(p[..|p| - 1], Attach(p[|p| - 1], t)) == Plug(p, t)
  {
    var up, f := p[..|p| - 1], p[|p| - 1];
    assert p == up + [f];
    Climb(up, f, t);
  }

  /** The climb reached the root: the start node is the tree's last on `side`. */
  lemma ClimbTop(t: Tree, i: nat, side: Side)
    requires Reach([], t, i, side)
    ensures if side == MORE then i + 1 == |InOrder(Plug([], t))| else i == 0
  {
  }

  /** The climb stopped below a node reached from the other side: that node
      is the neighbour. */
  lemma ClimbFound(p: seq<Frame>, t: Tree, i: nat, side: Side)
    requires p != [] && p[|p| - 1].side != side && Reach(p, t, i, side)
    ensures var focus2 := Attach(p[|p| - 1], t);
      Plug(p[..|p| - 1], focus2) == Plug(p, t) &&
      Index(p[..|p| - 1], focus2) == i + (if side == MORE then 1 else -1) &&
      (side == MORE ==> i + 1 < |InOrder(Plug(p, t))|) && (side == LESS ==> i > 0)
  {
    var up, f := p[..|p| - 1], p[|p| - 1];
    assert p == up + [f];
    Climb(up, f, t);
    var focus2 := Attach(f, t);
    assert Index(up, focus2) == |Before(up)| + |InOrder(focus2.left)|;
    assert focus2.left == if side == MORE then t else f.other;
  }

  /** One frame up: the plugged tree is the same, and the keys before the
      frame's node are those before its own path, then its left subtree. */
  lemma Climb(up: seq<Frame>, f: Frame, t: Tree)
    ensures Plug(up + [f], t) == Plug(up, Attach(f, t))
    ensures |Before(up + [f])| == |Before(up)| + (if f.side == MORE then |InOrder(f.other)| + 1 else 0)
    ensures |InOrder(Attach(f, t))| == |InOrder(f.other)| + 1 + |InOrder(t)|
  {
    PlugSnoc(up, f, t);
  }

  /** What the walk of `Np` has built: the start node's frame, then a run of
      frames all on the other side, ending at the neighbour. */
  lemma NpDone(path: seq<Frame>, focus: Tree, side: Side, rest: seq<Frame>, m: Tree)
    requires focus.Node? && Plug(rest, m) == focus.Link(side)
    requires Run(rest, Other(side))
    ensures var first := Frame(focus.red, focus.key, side, focus.Link(Other(side)));
      var path2 := path + [first] + rest;
      Plug(path2, m) == Plug(path, focus) &&
      |path2| > |path| && path2[..|path|] == path && path2[|path|] == first && path2[|path| + 1..] == rest &&
      (side == MORE ==> Before(path2) == Before(path) + InOrder(focus.left) + [focus.key]) &&
      (side == LESS ==> After(path2) == [focus.key] + InOrder(focus.right) + After(path))
  {
    var first := Frame(focus.red, focus.key, side, focus.Link(Other(side)));
    var path2 := path + [first] + rest;
    PlugCat(path + [first], rest, m);
    PlugSnoc(path, first, focus.Link(side));
    assert Attach(first, focus.Link(side)) == focus;
    assert path2[..|path|] == path && path2[|path| + 1..] == rest;
    NpKeys(path, first, rest);
  }

  /** The keys before and after a path extended by one frame and a run of
      frames all on the other side. */
  lemma NpKeys(path: seq<Frame>, first: Frame, rest: seq<Frame>)
    requires Run(rest, Other(first.side))
    ensures first.side == MORE ==> Before(path + [first] + rest) == Before(path) + InOrder(first.other) + [first.key]
    ensures first.side == LESS ==> After(path + [first] + rest) == [first.key] + InOrder(first.other) + After(path)
  {
    SplitPath(path, first, rest);
    OneFrame(first);
    if first.side == MORE {
      AllLessBefore(rest);
      DropEmpty(Before(path), Before([first]), Before(rest), InOrder(first.other) + [first.key]);
    } else {
      AllMoreAfter(rest);
      DropEmpty(After(rest), After([first]), After(path), [first.key] + InOrder(first.other));
    }
  }

  lemma DropEmpty(x: seq<int>, y: seq<int>, z: seq<int>, w: seq<int>)
    requires y == w && (x == [] || z == [])
    ensures x + y + z == if x == [] then w + z else x + w
  {
  }

  lemma {:induction false} PlugCat(a: seq<Frame>, b: seq<Frame>, t: Tree)
    ensures Plug(a + b, t) == Plug(a, Plug(b, t))
    decreases |b|
  {
    if b == [] {
      assert a + b == a;
    } else {
      var b0, f := b[..|b| - 1], b[|b| - 1];
      assert (a + b)[..|a + b| - 1] == a + b0;
      assert (a + b)[|a + b| - 1] == f;
      PlugCat(a, b0, Attach(f, t));
    }
  }

  // ---------------------------------------------------------------------------
  // Deletion steps.

  lemma {:induction false} BeforeCat(a: seq<Frame>, b: seq<Frame>)
    ensures Before(a + b) == Before(a) + Before(b)
    ensures After(a + b) == After(b) + After(a)
    decreases |b|
  {
    if b == [] {
      assert a + b == a;
    } else {
      var b0, f := b[..|b| - 1], b[|b| - 1];
      assert (a + b)[..|a + b| - 1] == a + b0;
      assert (a + b)[|a + b| - 1] == f;
      BeforeCat(a, b0);
      var x := if f.side == MORE then InOrder(f.other) + [f.key] else [];
      var y := if f.side == LESS then [f.key] + InOrder(f.other) else [];
      assert Before(a + b) == Before(a + b0) + x && Before(b) == Before(b0) + x;
      assert After(a + b) == y + After(a + b0) && After(b) == y + After(b0);
      Assoc(Before(a), Before(b0), x, Before(a + b0));
      AssocLeft(y, After(b0), After(a), After(a + b0));
    }
  }

  lemma Assoc(p: seq<int>, q: seq<int>, r: seq<int>, pq: seq<int>)
    requires pq == p + q
    ensures pq + r == p + (q + r)
  {
  }

  lemma AssocLeft(p: seq<int>, q: seq<int>, r: seq<int>, qr: seq<int>)
    requires qr == q + r
    ensures p + qr == (p + q) + r
  {
  }

  lemma CancelRight(x: seq<int>, y: seq<int>, z: seq<int>)
    requires x + z == y + z
    ensures x == y
  {
    assert x == (x + z)[..|x|];
    assert y == (y + z)[..|y|];
  }

  lemma CancelLeft(x: seq<int>, y: seq<int>, z: seq<int>)
    requires z + x == z + y
    ensures x == y
  {
    assert x == (z + x)[|z|..];
    assert y == (z + y)[|z|..];
  }

  /** `CtxValid` does not look at keys. */
  lemma {:induction false} CtxKeys(path: seq<Frame>, j: nat, k: int, h: nat, red: bool)
    requires j < |path|
    ensures CtxValid(path[j := path[j].(key := k)], h, red) == CtxValid(path, h, red)
    decreases |path|
  {
    var q := path[j := path[j].(key := k)];
    var n := |path| - 1;
    if j < n {
      assert q[..n] == path[..n][j := path[j].(key := k)];
      var f := path[n];
      CtxKeys(path[..n], j, k, h + (if f.red then 0 else 1), f.red);
    } else {
      assert q[..n] == path[..n];
    }
  }

  /** Delete, two children: the neighbour's key moved into the node leaves a
      valid tree whose keys, once the neighbour is gone, are the node's
      subtrees' keys in place of the node's. */
  lemma SwapStep(path: seq<Frame>, focus: Tree, ds: Side, path2: seq<Frame>, next: Tree, ctx: seq<Frame>)
    requires focus.Node? && IsRedBlack(Plug(path, focus)) && next.Node? && next.Link(Other(ds)) == Nil
    requires Plug(path2, next) == Plug(path, focus)
    requires |path2| > |path| && path2[..|path|] == path &&
             path2[|path|] == Frame(focus.red, focus.key, ds, focus.Link(Other(ds)))
    requires Plug(path2[|path| + 1..], next) == focus.Link(ds) && Run(path2[|path| + 1..], Other(ds))
    requires ctx == path2[|path| := path2[|path|].(key := next.key)]
    ensures IsRedBlack(Plug(ctx, next)) && (next.left == Nil || next.right == Nil)
    ensures Before(ctx) + InOrder(next.left) + InOrder(next.right) + After(ctx) ==
            Before(path) + InOrder(focus.left) + InOrder(focus.right) + After(path)
  {
    var rest := path2[|path| + 1..];
    var g := path2[|path|].(key := next.key);
    SplitAt(path2, path, rest, g);
    SwapValid(path2, next, |path|, ctx);
    if ds == LESS {
      assert g == Frame(focus.red, next.key, LESS, focus.right);
      assert next.right == Nil && Plug(rest, next) == focus.left && Run(rest, MORE);
      SwapOrderLess(path, focus, rest, next);
    } else {
      assert g == Frame(focus.red, next.key, MORE, focus.left);
      assert next.left == Nil && Plug(rest, next) == focus.right && Run(rest, LESS);
      SwapOrderMore(path, focus, rest, next);
    }
  }

  lemma SplitAt(path2: seq<Frame>, path: seq<Frame>, rest: seq<Frame>, g: Frame)
    requires |path2| > |path| && path2[..|path|] == path && rest == path2[|path| + 1..]
    ensures path2[|path| := g] == path + [g] + rest
  {
  }

  /** Giving frame `j` of a path the key of the node at its bottom keeps a red/black
      tree red/black. */
  lemma SwapValid(path: seq<Frame>, d: Tree, j: nat, ctx: seq<Frame>)
    requires d.Node? && IsRedBlack(Plug(path, d)) && j < |path| && ctx == path[j := path[j].(key := d.key)]
    ensures IsRedBlack(Plug(ctx, d))
  {
    ValidPlug(path, d);
    RedPlug(path, d);
    CtxKeys(path, j, d.key, BH(d), IsRed(d));
    ValidPlug(ctx, d);
    RedPlug(ctx, d);
  }

  /** The keys before and after a path with one frame singled out. */
  lemma SplitPath(path: seq<Frame>, f: Frame, rest: seq<Frame>)
    ensures Before(path + [f] + rest) == Before(path) + Before([f]) + Before(rest)
    ensures After(path + [f] + rest) == After(rest) + After([f]) + After(path)
  {
    BeforeCat(path + [f], rest);
    BeforeCat(path, [f]);
  }

  lemma OneFrame(f: Frame)
    ensures Before([f]) == if f.side == MORE then InOrder(f.other) + [f.key] else []
    ensures After([f]) == if f.side == LESS then [f.key] + InOrder(f.other) else []
  {
    assert [f][..0] == [];
  }

  /** A path that only ever went right has nothing after its end... */
  lemma {:induction false} AllMoreAfter(rest: seq<Frame>)
    requires Run(rest, MORE)
    ensures After(rest) == []
    decreases |rest|
  {
    if rest != [] {
      AllMoreAfter(rest[..|rest| - 1]);
    }
  }

  /** ...and one that only ever went left has nothing before it. */
  lemma {:induction false} AllLessBefore(rest: seq<Frame>)
    requires Run(rest, LESS)
    ensures Before(rest) == []
    decreases |rest|
  {
    if rest != [] {
      AllLessBefore(rest[..|rest| - 1]);
    }
  }

  /** Deletion of a node with two children, replacement taken on the left: the
      predecessor `d`, reached by `rest` from the node's left link, gives its key
      to the node, and unlinking the predecessor's own place then loses exactly
      the node's key. */
  lemma SwapOrderLess(path: seq<Frame>, o: Tree, rest: seq<Frame>, d: Tree)
    requires o.Node? && d.Node? && d.right == Nil && Plug(rest, d) == o.left
    requires Run(rest, MORE)
    ensures var ctx := path + [Frame(o.red, d.key, LESS, o.right)] + rest;
      Before(ctx) + InOrder(d.left) + InOrder(d.right) + After(ctx) ==
      Before(path) + InOrder(o.left) + InOrder(o.right) + After(path)
  {
    var f := Frame(o.red, d.key, LESS, o.right);
    var ctx := path + [f] + rest;
    SplitPath(path, f, rest);
    OneFrame(f);
    AllMoreAfter(rest);
    InOrderPlug(rest, d);
    assert InOrder(d.right) == [];
    SeqSwapLess(Before(path), Before(rest), InOrder(d.left), d.key, InOrder(o.right), After(path),
                Before(ctx), After(ctx), After([f]), InOrder(d), InOrder(o.left), After(rest));
  }

  lemma SeqSwapLess(a: seq<int>, b: seq<int>, c: seq<int>, k: int, e: seq<int>, g: seq<int>,
                    bc: seq<int>, ac: seq<int>, x: seq<int>, dd: seq<int>, ol: seq<int>, ar: seq<int>)
    requires bc == a + [] + b && ar == [] && x == [k] + e && ac == ar + x + g
    requires dd == c + [k] + [] && ol == b + dd + ar
    ensures bc + c + [] + ac == a + ol + e + g
  {
  }

  /** The same with the replacement taken on the right: the successor. */
  lemma SwapOrderMore(path: seq<Frame>, o: Tree, rest: seq<Frame>, d: Tree)
    requires o.Node? && d.Node? && d.left == Nil && Plug(rest, d) == o.right
    requires Run(rest, LESS)
    ensures var ctx := path + [Frame(o.red, d.key, MORE, o.left)] + rest;
      Before(ctx) + InOrder(d.left) + InOrder(d.right) + After(ctx) ==
      Before(path) + InOrder(o.left) + InOrder(o.right) + After(path)
  {
    var f := Frame(o.red, d.key, MORE, o.left);
    var ctx := path + [f] + rest;
    SplitPath(path, f, rest);
    OneFrame(f);
    AllLessBefore(rest);
    InOrderPlug(rest, d);
    assert InOrder(d.left) == [];
    SeqSwapMore(Before(path), InOrder(o.left), d.key, InOrder(d.right), After(rest), After(path),
                Before(ctx), After(ctx), Before([f]), InOrder(d), InOrder(o.right), Before(rest));
  }

  lemma SeqSwapMore(a: seq<int>, l: seq<int>, k: int, c: seq<int>, ar: seq<int>, g: seq<int>,
                    bc: seq<int>, ac: seq<int>, x: seq<int>, dd: seq<int>, or: seq<int>, br: seq<int>)
    requires br == [] && x == l + [k] && bc == a + x + br && ac == ar + [] + g
    requires dd == [] + [k] + c && or == br + dd + ar
    ensures bc + [] + c + ac == a + l + or + g
  {
  }

  /** Delete, a red node with at most one child: it has none, and unlinking it
      leaves a red/black tree. */
  lemma RemoveRed(ctx: seq<Frame>, d: Tree)
    requires d.Node? && d.red && (d.left == Nil || d.right == Nil) && IsRedBlack(Plug(ctx, d))
    ensures d.left == Nil && d.right == Nil && IsRedBlack(Plug(ctx, Nil))
  {
    ValidPlug(ctx, d);
    RedPlug(ctx, d);
    ValidPlug(ctx, Nil);
    RedPlug(ctx, Nil);
    CtxWeaken(ctx, BH(d));
  }

  /** Delete, a black node with one child: the child is a red leaf, and taking
      the node's place in black leaves a red/black tree. */
  lemma RemoveWithChild(ctx: seq<Frame>, d: Tree, cs: Side)
    requires d.Node? && !d.red && d.Link(cs).Node? && d.Link(Other(cs)) == Nil && IsRedBlack(Plug(ctx, d))
    ensures IsRedBlack(Plug(ctx, d.Link(cs).(red := false)))
    ensures InOrder(d.Link(cs).(red := false)) == InOrder(d.left) + InOrder(d.right)
  {
    var c := d.Link(cs);
    ValidPlug(ctx, d);
    RedPlug(ctx, d);
    ValidPlug(ctx, c.(red := false));
    RedPlug(ctx, c.(red := false));
    assert BH(c) == 0;
  }

  /** Delete, a black leaf: its place becomes a null link one black node short. */
  lemma RemoveBlackLeaf(ctx: seq<Frame>, d: Tree)
    requires d.Node? && !d.red && d.left == Nil && d.right == Nil && IsRedBlack(Plug(ctx, d))
    ensures Short(ctx, Nil)
  {
    ValidPlug(ctx, d);
    RedPlug(ctx, d);
  }

  /** A path that accepts a red subtree accepts a black one of the same height. */
  lemma CtxWeaken(ctx: seq<Frame>, h: nat)
    requires CtxValid(ctx, h, true)
    ensures CtxValid(ctx, h, false)
  {
  }

  /** Delete fix-up, red sibling: rotation at the parent brings the sibling up in
      black; the parent, now red, gets the sibling's near child (black) as its new
      sibling, and the shortfall is still below it. */
  lemma FixRedSibling(up: seq<Frame>, p: Frame, n: Tree, up2: seq<Frame>, p2: Frame)
    requires Valid(n) && !IsRed(n) && CtxValid(up + [p], BH(n) + 1, false) && IsRed(p.other)
    requires up2 == up + [Frame(false, p.other.key, p.side, p.other.Link(Other(p.side)))]
    requires p2 == Frame(true, p.key, p.side, p.other.Link(p.side))
    ensures CtxValid(up2 + [p2], BH(n) + 1, false) && !p.red && p2.other.Node? && !IsRed(p2.other)
    ensures InOrder(Plug(up2 + [p2], n)) == InOrder(Plug(up + [p], n))
    ensures (up2 + [p2])[0] == (if up == [] then up2[0] else up[0])
  {
    var s, ns := p.other, p.side;
    CtxSnoc(up, p, BH(n) + 1, false);
    CtxSnoc(up2, p2, BH(n) + 1, false);
    CtxSnoc(up, up2[|up|], BH(n) + 1, true);
    assert up2 == up + [up2[|up|]];
    PlugSnoc2(up, up2[|up|], p2, n);
    PlugSnoc(up, p, n);
    if ns == LESS {
      Rotation(n, p.key, s.left, s.key, s.right, p.red, s.red, false, true);
    } else {
      Rotation(s.left, s.key, s.right, p.key, n, false, true, p.red, s.red);
    }
    SameInOrderPlug(up, Attach(p, n), Attach(up2[|up|], Attach(p2, n)));
  }

  /** Delete fix-up, black parent, black sibling with black children: the sibling
      turns red and the shortfall moves up to the parent. */
  lemma FixRecolour(up: seq<Frame>, p: Frame, n: Tree, n2: Tree)
    requires Valid(n) && !IsRed(n) && CtxValid(up + [p], BH(n) + 1, false)
    requires !p.red && p.other.Node? && !IsRed(p.other) && !IsRed(p.other.left) && !IsRed(p.other.right)
    requires n2 == Attach(p.(other := p.other.(red := true)), n)
    ensures Valid(n2) && !IsRed(n2) && CtxValid(up, BH(n2) + 1, false)
    ensures InOrder(n2) == InOrder(Attach(p, n))
  {
    CtxSnoc(up, p, BH(n) + 1, false);
    var s2 := p.other.(red := true);
    assert InOrder(s2) == InOrder(p.other);
    assert Valid(s2) && BH(s2) == BH(n);
    assert BH(n2) == BH(n) + 1;
  }

  /** Delete fix-up, red parent, black sibling with black children: swapping the
      two colours makes up the shortfall. */
  lemma FixRedParent(up: seq<Frame>, p: Frame, n: Tree, top: Tree)
    requires Valid(n) && !IsRed(n) && CtxValid(up + [p], BH(n) + 1, false)
    requires p.red && p.other.Node? && !IsRed(p.other) && !IsRed(p.other.left) && !IsRed(p.other.right)
    requires top == Attach(Frame(false, p.key, p.side, p.other.(red := true)), n)
    ensures Valid(top) && !IsRed(top) && CtxValid(up, BH(top), false)
    ensures InOrder(top) == InOrder(Attach(p, n))
  {
    CtxSnoc(up, p, BH(n) + 1, false);
    var s2 := p.other.(red := true);
    assert InOrder(s2) == InOrder(p.other);
    assert Valid(s2) && BH(s2) == BH(n);
    assert BH(top) == BH(n) + 1;
    CtxWeaken(up, BH(n) + 1);
  }

  /** Delete fix-up, black sibling whose near child is red and far child black:
      rotation at the sibling makes the far child red, with the same keys and
      black height. */
  lemma FixNearNephew(s: Tree, ns: Side, s2: Tree)
    requires Valid(s) && s.Node? && !s.red && IsRed(s.Link(ns)) && !IsRed(s.Link(Other(ns)))
    requires s2 == Attach(Frame(false, s.Link(ns).key, ns,
                                Attach(Frame(true, s.key, ns, s.Link(Other(ns))), s.Link(ns).Link(Other(ns)))),
                          s.Link(ns).Link(ns))
    ensures Valid(s2) && s2.Node? && !s2.red && BH(s2) == BH(s) && IsRed(s2.Link(Other(ns)))
    ensures InOrder(s2) == InOrder(s)
  {
    var sl := s.Link(ns);
    if ns == LESS {
      var inner := Node(true, sl.right, s.key, s.right);
      assert Valid(inner) && BH(inner) == BH(sl);
      assert s2 == Node(false, sl.left, sl.key, inner);
      Rotation(sl.left, sl.key, sl.right, s.key, s.right, false, true, false, true);
    } else {
      var inner := Node(true, s.left, s.key, sl.left);
      assert Valid(inner) && BH(inner) == BH(sl);
      assert s2 == Node(false, inner, sl.key, sl.right);
      Rotation(s.left, s.key, sl.left, sl.key, sl.right, false, true, false, true);
    }
  }

  /** Delete fix-up, black sibling with a red far child: rotation at the parent;
      the sibling takes the parent's place and colour, parent and far child go
      black, which makes up the shortfall. */
  lemma FixFarNephew(up: seq<Frame>, p: Frame, n: Tree, top: Tree)
    requires Valid(n) && !IsRed(n) && CtxValid(up + [p], BH(n) + 1, false)
    requires p.other.Node? && !p.other.red && IsRed(p.other.Link(Other(p.side)))
    requires top == Attach(Frame(p.red, p.other.key, p.side, p.other.Link(Other(p.side)).(red := false)),
                           Attach(Frame(false, p.key, p.side, p.other.Link(p.side)), n))
    ensures Valid(top) && IsRed(top) == p.red && CtxValid(up, BH(top), IsRed(top))
    ensures InOrder(top) == InOrder(Attach(p, n))
  {
    CtxSnoc(up, p, BH(n) + 1, false);
    var s := p.other;
    if p.side == LESS {
      assert top == Node(p.red, Node(false, n, p.key, s.left), s.key, s.right.(red := false));
      assert Attach(p, n) == Node(p.red, n, p.key, Node(false, s.left, s.key, s.right));
      FarRotateLeft(n, p.key, p.red, s.left, s.key, s.right);
    } else {
      assert top == Node(p.red, s.left.(red := false), s.key, Node(false, s.right, p.key, n));
      assert Attach(p, n) == Node(p.red, Node(false, s.left, s.key, s.right), p.key, n);
      FarRotateRight(s.left, s.key, s.right, p.key, p.red, n);
    }
  }

  /** `FixFarNephew` with the short subtree on the left. */
  lemma FarRotateLeft(n: Tree, pk: int, red: bool, sl: Tree, sk: int, far: Tree)
    requires Valid(n) && Valid(sl) && Valid(far) && IsRed(far) && BH(sl) == BH(n) && BH(far) == BH(n)
    ensures var top := Node(red, Node(false, n, pk, sl), sk, far.(red := false));
      Valid(top) && BH(top) == BH(n) + 1 + (if red then 0 else 1) &&
      InOrder(top) == InOrder(Node(red, n, pk, Node(false, sl, sk, far)))
  {
    var b := Node(false, far.left, far.key, far.right);
    assert far.(red := false) == b;
    assert InOrder(b) == InOrder(far);
    assert Valid(b) && BH(b) == BH(n) + 1;
    var inner := Node(false, n, pk, sl);
    assert Valid(inner) && BH(inner) == BH(n) + 1;
    var top := Node(red, inner, sk, b);
    assert Valid(top) && BH(top) == BH(n) + 1 + (if red then 0 else 1);
    Rotation(n, pk, sl, sk, b, red, false, red, false);
  }

  /** `FixFarNephew` with the short subtree on the right. */
  lemma FarRotateRight(far: Tree, sk: int, sr: Tree, pk: int, red: bool, n: Tree)
    requires Valid(n) && Valid(sr) && Valid(far) && IsRed(far) && BH(sr) == BH(n) && BH(far) == BH(n)
    ensures var top := Node(red, far.(red := false), sk, Node(false, sr, pk, n));
      Valid(top) && BH(top) == BH(n) + 1 + (if red then 0 else 1) &&
      InOrder(top) == InOrder(Node(red, Node(false, far, sk, sr), pk, n))
  {
    var b := Node(false, far.left, far.key, far.right);
    assert far.(red := false) == b;
    assert InOrder(b) == InOrder(far);
    assert Valid(b) && BH(b) == BH(n) + 1;
    var inner := Node(false, sr, pk, n);
    assert Valid(inner) && BH(inner) == BH(n) + 1;
    var top := Node(red, b, sk, inner);
    assert Valid(top) && BH(top) == BH(n) + 1 + (if red then 0 else 1);
    Rotation(b, sk, sr, pk, n, red, false, red, false);
  }

  /** Deleting the node at the end of a path of an ordered tree removes exactly
      its key and keeps the rest in order. */
  lemma DeleteOrdered(path: seq<Frame>, o: Tree)
    requires o.Node? && Sorted(InOrder(Plug(path, o)))
    ensures var s := InOrder(Plug(path, o));
      var rest := Before(path) + InOrder(o.left) + InOrder(o.right) + After(path);
      Sorted(rest) && (forall x :: x in rest <==> x in s && x != o.key)
  {
    InOrderPlug(path, o);
    Regroup(Before(path), InOrder(o.left), o.key, InOrder(o.right), After(path), InOrder(o));
    RemoveSorted(Before(path) + InOrder(o.left), o.key, InOrder(o.right) + After(path));
  }

  lemma Regroup(b: seq<int>, l: seq<int>, k: int, r: seq<int>, a: seq<int>, o: seq<int>)
    requires o == l + [k] + r
    ensures b + o + a == (b + l) + [k] + (r + a)
    ensures b + l + r + a == (b + l) + (r + a)
  {
  }

  /** Dropping one element of an ordered sequence keeps it ordered and loses
      exactly that element. */
  lemma RemoveSorted(b: seq<int>, x: int, a: seq<int>)
    requires Sorted(b + [x] + a)
    ensures Sorted(b + a) && forall y :: y in b + a <==> y in b + [x] + a && y != x
  {
    var s, rest := b + [x] + a, b + a;
    SortedSplit(b, x, a);
    forall i, j | 0 <= i < j < |rest| ensures rest[i] < rest[j] {
      var i2 := if i < |b| then i else i + 1;
      var j2 := if j < |b| then j else j + 1;
      assert rest[i] == s[i2] && rest[j] == s[j2];
    }
    forall y ensures y in rest <==> y in s && y != x {
      if y in b {
        assert y < x;
      }
      if y in a {
        assert x < y;
      }
    }
  }

  /** Inserting the key a search path was looking for keeps the tree ordered
      and adds exactly that key. */
  lemma InsertOrdered(path: seq<Frame>, key: int)
    requires SearchPath(path, key) && Sorted(InOrder(Plug(path, Nil)))
    ensures var s := Before(path) + [key] + After(path);
      Sorted(s) && (forall x :: x in s <==> x in InOrder(Plug(path, Nil)) || x == key)
  {
    InOrderPlug(path, Nil);
    assert InOrder(Plug(path, Nil)) == Before(path) + After(path);
    SearchBounds(path, Nil, key);
    InsertSorted(Before(path), After(path), key);
  }
}
