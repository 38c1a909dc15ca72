/** AVL.cpp: the balanced tree of a sorted set, rewritten in place through parent links. */
module Avl {
  import opened TreeShapes
  import opened ZNodes

  // ----- accessors and rotations

  function DepthOf(p: ZNode?): nat
    reads p
  {
    if p == null then 0 else p.depth
  }

  function CountOf(p: ZNode?): nat
    reads p
  {
    if p == null then 0 else p.count
  }

  /** avl_depth and avl_count read the height and size of an exact subtree. */
  lemma Accessors(p: ZNode?, t: Shape, S: set<ZNode>)
    requires Kids(Snap(S), p, t) && Exact(Snap(S), t)
    ensures DepthOf(p) == Height(t) && CountOf(p) == Size(t) && p == TopOf(t)
  {
  }

  /** avl_update. */
  method Update(node: ZNode)
    modifies node`depth, node`count
    ensures node.depth == 1 + old(Max(DepthOf(node.left), DepthOf(node.right)))
    ensures node.count == 1 + old(CountOf(node.left) + CountOf(node.right))
  {
    var depth := 1 + Max(DepthOf(node.left), DepthOf(node.right));
    node.count := 1 + CountOf(node.left) + CountOf(node.right);
    node.depth := depth;
  }

  ghost predicate Live(node: ZNode?, S: set<ZNode>) { node != null ==> node in S }

  /** rot_left. */
  method RotLeft(node: ZNode, ghost S: set<ZNode>) returns (newNode: ZNode)
    requires node in S && node.right != null && node.right in S && Live(node.right.left, S)
    requires node !in {node.left, node.right, node.right.left, node.right.right}
    requires node.right !in {node.left, node.right.left, node.right.right}
    modifies S`left, S`right, S`parent, S`depth, S`count
    ensures newNode == old(node.right)
    ensures TurnsLeft(old(Snap(S)), Snap(S), node, newNode, old(node.right.left))
    ensures node.depth == 1 + old(Max(DepthOf(node.left), DepthOf(node.right.left)))
    ensures node.count == 1 + old(CountOf(node.left) + CountOf(node.right.left))
    ensures newNode.depth == 1 + Max(node.depth, old(DepthOf(node.right.right)))
    ensures newNode.count == 1 + node.count + old(CountOf(node.right.right))
  {
    newNode := node.right;
    if newNode.left != null {
      newNode.left.parent := node;
    }
    node.right := newNode.left;
    newNode.left := node;
    newNode.parent := node.parent;
    node.parent := newNode;
    Update(node);
    Update(newNode);
  }

  /** rot_right. */
  method RotRight(node: ZNode, ghost S: set<ZNode>) returns (newNode: ZNode)
    requires node in S && node.left != null && node.left in S && Live(node.left.right, S)
    requires node !in {node.right, node.left, node.left.right, node.left.left}
    requires node.left !in {node.right, node.left.right, node.left.left}
    modifies S`left, S`right, S`parent, S`depth, S`count
    ensures newNode == old(node.left)
    ensures TurnsRight(old(Snap(S)), Snap(S), node, newNode, old(node.left.right))
    ensures node.depth == 1 + old(Max(DepthOf(node.left.right), DepthOf(node.right)))
    ensures node.count == 1 + old(CountOf(node.left.right) + CountOf(node.right))
    ensures newNode.depth == 1 + Max(old(DepthOf(node.left.left)), node.depth)
    ensures newNode.count == 1 + old(CountOf(node.left.left)) + node.count
  {
    newNode := node.left;
    if newNode.right != null {
      newNode.right.parent := node;
    }
    node.left := newNode.right;
    newNode.right := node;
    newNode.parent := node.parent;
    node.parent := newNode;
    Update(node);
    Update(newNode);
  }

  /** rot_left on a subtree of shape t. */
  method RotLeftIn(node: ZNode, ghost t: Shape, ghost S: set<ZNode>) returns (newNode: ZNode)
    requires Distinct(t) && Nodes(t) <= S && Kids(Snap(S), node, t) && t.r.Node?
    requires Exact(Snap(S), t.l) && Exact(Snap(S), t.r.l) && Exact(Snap(S), t.r.r)
    modifies S`left, S`right, S`parent, S`depth, S`count
    ensures Became(old(Snap(S)), Snap(S), t, newNode, RotatedLeft(t), old(node.parent))
    ensures newNode.parent == old(node.parent)
  {
    ghost var a, b, c := t.l, t.r.l, t.r.r;
    Accessors(node.left, a, S);
    Accessors(node.right.left, b, S);
    Accessors(node.right.right, c, S);
    newNode := RotLeft(node, S);
    TurnedLeft(old(Snap(S)), Snap(S), a, node, b, newNode, c);
  }

  /** rot_right on a subtree of shape t. */
  method RotRightIn(node: ZNode, ghost t: Shape, ghost S: set<ZNode>) returns (newNode: ZNode)
    requires Distinct(t) && Nodes(t) <= S && Kids(Snap(S), node, t) && t.l.Node?
    requires Exact(Snap(S), t.l.l) && Exact(Snap(S), t.l.r) && Exact(Snap(S), t.r)
    modifies S`left, S`right, S`parent, S`depth, S`count
    ensures Became(old(Snap(S)), Snap(S), t, newNode, RotatedRight(t), old(node.parent))
    ensures newNode.parent == old(node.parent)
  {
    ghost var a, b, c := t.l.l, t.l.r, t.r;
    Accessors(node.left.left, a, S);
    Accessors(node.left.right, b, S);
    Accessors(node.right, c, S);
    newNode := RotRight(node, S);
    TurnedRight(old(Snap(S)), Snap(S), a, newNode, b, node, c);
  }

  /** avl_fix_left: a subtree of shape t becomes FixedLeft(t). */
  method FixLeft(root: ZNode, ghost t: Shape, ghost S: set<ZNode>) returns (newRoot: ZNode)
    requires Distinct(t) && Nodes(t) <= S && Kids(Snap(S), root, t) && t.l.Node?
    requires Exact(Snap(S), t.l) && Exact(Snap(S), t.r)
    modifies S`left, S`right, S`parent, S`depth, S`count
    ensures Became(old(Snap(S)), Snap(S), t, newRoot, FixedLeft(t), old(root.parent))
    ensures newRoot.parent == old(root.parent)
  {
    ghost var t' := t;
    Accessors(root.left.left, t.l.l, S);
    Accessors(root.left.right, t.l.r, S);
    if DepthOf(root.left.left) < DepthOf(root.left.right) {
      t' := InnerLeft(root, t, S);
    }
    newRoot := RotRightIn(root, t', S);
  }

  /** The first rotation of avl_fix_left. */
  method InnerLeft(root: ZNode, ghost t: Shape, ghost S: set<ZNode>) returns (ghost t': Shape)
    requires Distinct(t) && Nodes(t) <= S && Kids(Snap(S), root, t) && t.l.Node? && t.l.r.Node?
    requires Exact(Snap(S), t.l) && Exact(Snap(S), t.r)
    modifies S`left, S`right, S`parent, S`depth, S`count
    ensures t' == Node(RotatedLeft(t.l), root, t.r) && Distinct(t') && Nodes(t') == Nodes(t)
    ensures Kids(Snap(S), root, t') && Exact(Snap(S), t'.l) && Exact(Snap(S), t'.r) && root.parent == old(root.parent)
    ensures forall up :: Parents(old(Snap(S)), t, up) ==> Parents(Snap(S), t', up)
    ensures var L, M := old(Snap(S)), Snap(S); forall n :: n in L && n !in Nodes(t) ==> n in M && M[n] == L[n]
  {
    InnerRotations(t);
    var x := RotLeftIn(root.left, t.l, S);
    ghost var K := Snap(S);
    root.left := x;
    LeftReplaced(old(Snap(S)), K, Snap(S), t, x, RotatedLeft(t.l));
    t' := Node(RotatedLeft(t.l), root, t.r);
  }

  /** avl_fix_right: a subtree of shape t becomes FixedRight(t). */
  method FixRight(root: ZNode, ghost t: Shape, ghost S: set<ZNode>) returns (newRoot: ZNode)
    requires Distinct(t) && Nodes(t) <= S && Kids(Snap(S), root, t) && t.r.Node?
    requires Exact(Snap(S), t.l) && Exact(Snap(S), t.r)
    modifies S`left, S`right, S`parent, S`depth, S`count
    ensures Became(old(Snap(S)), Snap(S), t, newRoot, FixedRight(t), old(root.parent))
    ensures newRoot.parent == old(root.parent)
  {
    ghost var t' := t;
    Accessors(root.right.left, t.r.l, S);
    Accessors(root.right.right, t.r.r, S);
    if DepthOf(root.right.right) < DepthOf(root.right.left) {
      t' := InnerRight(root, t, S);
    }
    newRoot := RotLeftIn(root, t', S);
  }

  /** The first rotation of avl_fix_right. */
  method InnerRight(root: ZNode, ghost t: Shape, ghost S: set<ZNode>) returns (ghost t': Shape)
    requires Distinct(t) && Nodes(t) <= S && Kids(Snap(S), root, t) && t.r.Node? && t.r.l.Node?
    requires Exact(Snap(S), t.l) && Exact(Snap(S), t.r)
    modifies S`left, S`right, S`parent, S`depth, S`count
    ensures t' == Node(t.l, root, RotatedRight(t.r)) && Distinct(t') && Nodes(t') == Nodes(t)
    ensures Kids(Snap(S), root, t') && Exact(Snap(S), t'.l) && Exact(Snap(S), t'.r) && root.parent == old(root.parent)
    ensures forall up :: Parents(old(Snap(S)), t, up) ==> Parents(Snap(S), t', up)
    ensures var L, M := old(Snap(S)), Snap(S); forall n :: n in L && n !in Nodes(t) ==> n in M && M[n] == L[n]
  {
    InnerRotations(t);
    var x := RotRightIn(root.right, t.r, S);
    ghost var K := Snap(S);
    root.right := x;
    RightReplaced(old(Snap(S)), K, Snap(S), t, x, RotatedRight(t.r));
    t' := Node(t.l, root, RotatedRight(t.r));
  }

  /** One turn of the loop of avl_fix, up to the climb: whatever the stored depth and count of
      node were, its subtree t becomes Fixed(t). */
  method Settle(node: ZNode, ghost t: Shape, ghost S: set<ZNode>) returns (top: ZNode)
    requires Distinct(t) && Nodes(t) <= S && t.Node? && Kids(Snap(S), node, t)
    requires Exact(Snap(S), t.l) && Exact(Snap(S), t.r)
    modifies S`left, S`right, S`parent, S`depth, S`count
    ensures Became(old(Snap(S)), Snap(S), t, top, Fixed(t), old(node.parent))
    ensures top.parent == old(node.parent)
  {
    ghost var L := Snap(S);
    Accessors(node.left, t.l, S);
    Accessors(node.right, t.r, S);
    Update(node);
    ghost var K := Snap(S);
    Refreshed(L, K, t, node.parent);
    Accessors(node.left, t.l, S);
    Accessors(node.right, t.r, S);
    var l, r := DepthOf(node.left), DepthOf(node.right);
    top := node;
    if l == r + 2 {
      top := FixLeft(node, t, S);
      BecameTwice(L, K, Snap(S), t, node, top, Fixed(t), old(node.parent));
    } else if l + 2 == r {
      top := FixRight(node, t, S);
      BecameTwice(L, K, Snap(S), t, node, top, Fixed(t), old(node.parent));
    }
  }

  /** One turn of the loop of avl_fix. The repair is here: the source rotates a subtree and
      never stores the result in the child slot of its parent. The slot is noted before the
      rotation and written after it. */
  method Turn(node: ZNode, ghost c: Context, ghost t: Shape, ghost S: set<ZNode>)
    returns (top: ZNode, next: ZNode?)
    requires Loose(Snap(S), c, t) && t.n == node && Nodes(t) <= S && PathNodes(c) <= S
    modifies S`left, S`right, S`parent, S`depth, S`count
    ensures next == Above(c)
    ensures c.Top? ==> Sound(Snap(S), top, Rebalanced(c, t))
    ensures !c.Top? ==> forall c', t' :: (c', t') == Outward(c, Fixed(t)) ==> Loose(Snap(S), c', t')
  {
    ghost var L := Snap(S);
    SlotOf(L, c, t);
    FixedKeepsOrder(t);
    SameOrderSameNodes(Fixed(t), t);
    next := node.parent;
    var fromLeft := next != null && next.left == node; // repair
    top := Settle(node, t, S);
    if next != null {
      ghost var K := Snap(S);
      if fromLeft { // repair
        next.left := top;
      } else {
        next.right := top;
      }
      Climbed(L, K, Snap(S), c, t, top, Fixed(t));
    }
  }

  /** avl_fix, with the repair in Turn. It turns once at each node from start up to the root. */
  method Fix(start: ZNode, ghost c0: Context, ghost t0: Shape, ghost S: set<ZNode>) returns (root: ZNode, ghost turns: nat)
    requires Loose(Snap(S), c0, t0) && t0.n == start && Nodes(t0) <= S && PathNodes(c0) <= S
    modifies S`left, S`right, S`parent, S`depth, S`count
    ensures Sound(Snap(S), root, Rebalanced(c0, t0)) && turns == Depth(c0) + 1
  {
    var node := start;
    ghost var c, t := c0, t0;
    turns := 1;
    while true
      invariant turns + Depth(c) == Depth(c0) + 1
      invariant Loose(Snap(S), c, t) && t.n == node && Nodes(t) <= S && PathNodes(c) <= S
      invariant Rebalanced(c, t) == Rebalanced(c0, t0)
      decreases Depth(c)
    {
      var top, next := Turn(node, c, t, S);
      if next == null {
        return top, turns;
      }
      node := next;
      c, t := StepOut(c, t);
      turns := turns + 1;
    }
  }

  /** avl_fix exactly as it stands in the source: a rotated subtree is never linked to its
      parent. The tree that hangs from the returned root is then Seen(c0, t0). It is the right tree,
      with all its links, depths and counts, exactly when no node below the root was rotated. */
  method FixUnlinked(start: ZNode, ghost c0: Context, ghost t0: Shape, ghost S: set<ZNode>) returns (root: ZNode)
    requires Loose(Snap(S), c0, t0) && t0.n == start && Nodes(t0) <= S && PathNodes(c0) <= S
    modifies S`left, S`right, S`parent, S`depth, S`count
    ensures Kids(Snap(S), root, Seen(c0, t0))
    ensures Sound(Snap(S), root, Rebalanced(c0, t0)) <==> !RotatesBelowRoot(c0, t0)
  {
    var node := start;
    ghost var c, t := c0, t0;
    ghost var ok := !RotatesBelowRoot(c0, t0);
    while true
      invariant Hanging(Snap(S), c, t) && t.n == node && Nodes(t) <= S && PathNodes(c) <= S
      invariant Seen(c, t) == Seen(c0, t0)
      invariant ok ==> !RotatesBelowRoot(c, t) && Loose(Snap(S), c, t) && Rebalanced(c, t) == Rebalanced(c0, t0)
      decreases Depth(c)
    {
      ghost var L := Snap(S);
      var parent := node.parent;
      node := Settle(node, t, S);
      if parent == null {
        if ok {
          AtRoot(L, Snap(S), c, t, node);
        } else if Sound(Snap(S), node, Rebalanced(c0, t0)) {
          WrongShape(Snap(S), node, c0, t0);
        }
        return node;
      }
      if ok {
        NothingToStore(L, Snap(S), c, t, node);
      }
      node := node.parent;
      c, t := LeftBehind(L, Snap(S), c, t);
    }
  }

  /** Where nodes are missing, the shape is not the right one. */
  lemma WrongShape(L: Links, root: ZNode, c: Context, t: Shape)
    requires t.Node? && Kids(L, root, Seen(c, t)) && Kids(L, root, Rebalanced(c, t))
    ensures !RotatesBelowRoot(c, t)
  {
    OneShape(L, root, Seen(c, t), Rebalanced(c, t));
    RebalancedKeepsOrder(c, t);
    UnlinkedKeepsAllIff(c, t);
  }

  /** avl_del on a node without a right child. */
  method Unhook(node: ZNode, ghost c: Context, ghost s: Shape, ghost S: set<ZNode>)
    returns (root: ZNode?, ghost t: Shape, ghost turns: nat)
    requires Focused(Snap(S), c, s) && s.Node? && s.n == node && s.r.Leaf? && Nodes(s) <= S && PathNodes(c) <= S
    requires Balanced(Plug(c, s))
    modifies S`left, S`right, S`parent, S`depth, S`count
    ensures Sound(Snap(S), root, t) && Balanced(t) && InOrder(t) == Before(c) + InOrder(s.l) + After(c)
    ensures turns == Depth(c)
  {
    ghost var L := Snap(S);
    PlugBalanced(c, s);
    PlugInOrder(c, s.l);
    Accessors(node.left, s.l, S);
    var parent := node.parent;
    if node.left != null {
      node.left.parent := parent;
    }
    if parent != null {
      if parent.left == node {
        parent.left := node.left;
      } else {
        parent.right := node.left;
      }
      Unhooked(L, Snap(S), c, s);
      LoweringDisturbs(c, s, s.l);
      ghost var out := Outward(c, s.l);
      root, turns := Fix(parent, out.0, out.1, S);
      t := Rebalanced(out.0, out.1);
      RebalancedKeepsOrder(out.0, out.1);
    } else {
      Unhooked(L, Snap(S), c, s);
      root := node.left;
      t, turns := s.l, 0;
    }
  }

  /** The end of avl_del: victim, which is outside the tree, takes the place of node. */
  method TakePlace(victim: ZNode, node: ZNode, ghost c: Context, ghost s: Shape, ghost S: set<ZNode>)
    requires Focused(Snap(S), c, s) && s.Node? && s.n == node && Nodes(s) <= S && PathNodes(c) <= S
    requires victim in S && victim !in Nodes(s) && victim !in PathNodes(c)
    modifies S`left, S`right, S`parent, S`depth, S`count
    ensures Focused(Snap(S), c, Node(s.l, victim, s.r))
    ensures node.parent == Above(c)
  {
    ghost var L := Snap(S);
    Neighbours(L, c, s);
    victim.left, victim.right, victim.parent, victim.depth, victim.count :=
      node.left, node.right, node.parent, node.depth, node.count;
    if victim.left != null {
      victim.left.parent := victim;
    }
    if victim.right != null {
      victim.right.parent := victim;
    }
    var parent := node.parent;
    if parent != null {
      if parent.left == node {
        parent.left := victim;
      } else {
        parent.right := victim;
      }
    }
    Replaced(L, Snap(S), c, s, victim);
  }

  /** avl_del after the recursive call has taken victim, the successor of node, out of the
      tree: victim takes the place of node. */
  method Exchange(without: ZNode?, ghost t1: Shape, victim: ZNode, node: ZNode, ghost c: Context, ghost s: Shape,
                  ghost cv: Context, ghost sv: Shape, ghost S: set<ZNode>)
    returns (root: ZNode?, ghost t: Shape)
    requires s.Node? && s.n == node && Distinct(Plug(c, s)) && Nodes(Plug(c, s)) <= S
    requires Successor(c, s, cv, sv) && sv.l.Leaf? && sv.n == victim && victim in S
    requires Sound(Snap(S), without, t1) && Balanced(t1) && InOrder(t1) == Before(cv) + InOrder(sv.r) + After(cv)
    modifies S`left, S`right, S`parent, S`depth, S`count
    ensures Sound(Snap(S), root, t) && Balanced(t)
    ensures InOrder(t) == Before(c) + InOrder(s.l) + InOrder(s.r) + After(c)
  {
    ghost var c1, s1;
    KidsTop(Snap(S), without, t1);
    c1, s1, t := PlanExchange(Snap(S), t1, c, s, cv, sv);
    TakePlace(victim, node, c1, s1, S);
    Focus(Snap(S), c1, Node(s1.l, victim, s1.r));
    if node.parent != null {
      root := without;
    } else {
      root := victim;
    }
  }

  /** The loop of avl_del that finds the successor of a node with a right child. */
  method Next(node: ZNode, ghost c: Context, ghost s: Shape, ghost S: set<ZNode>)
    returns (victim: ZNode, ghost cv: Context, ghost sv: Shape)
    requires Kids(Snap(S), node, s) && Balanced(s) && node.right != null && Nodes(s) <= S
    ensures Successor(c, s, cv, sv) && sv.n == victim && sv.l.Leaf?
  {
    victim := node.right;
    cv, sv := RightOf(c, s.l, s.n), s.r;
    while victim.left != null
      invariant Successor(c, s, cv, sv) && sv.n == victim && Kids(Snap(S), victim, sv)
      decreases sv
    {
      SuccessorDescends(c, s, cv, sv);
      victim := victim.left;
      cv, sv := LeftOf(cv, sv.n, sv.r), sv.l;
    }
  }

  /** avl_del. node sits at the hole of c, on top of s. The result is the true root of a sound
      and balanced tree without node, whatever rotations happened in between. calls counts
      the activations of avl_del, turns those of the loop of avl_fix. */
  method Del(node: ZNode, ghost c: Context, ghost s: Shape, ghost S: set<ZNode>)
    returns (root: ZNode?, ghost t: Shape, ghost calls: nat, ghost turns: nat)
    requires Focused(Snap(S), c, s) && s.Node? && s.n == node && Nodes(s) <= S && PathNodes(c) <= S
    requires Balanced(Plug(c, s))
    modifies S`left, S`right, S`parent, S`depth, S`count
    ensures Sound(Snap(S), root, t) && Balanced(t)
    ensures InOrder(t) == Before(c) + InOrder(s.l) + InOrder(s.r) + After(c)
    ensures turns <= Height(Plug(c, s))
    ensures calls <= 3 && (s.l.Leaf? ==> calls <= 2) && (s.r.Leaf? ==> calls == 1)
    decreases Height(s)
  {
    PlugBalanced(c, s);
    KidsTop(Snap(S), node.right, s.r);
    if node.right == null {
      PathFitsHeight(c, s);
      root, t, turns := Unhook(node, c, s, S);
      assert Before(c) + InOrder(s.l) + [] == Before(c) + InOrder(s.l);
      calls := 1;
    } else {
      var victim;
      ghost var cv, sv;
      victim, cv, sv := Next(node, c, s, S);
      Refocus(Snap(S), c, s, cv, sv);
      var without;
      ghost var t1;
      without, t1, calls, turns := Del(victim, cv, sv, S);
      assert Before(cv) + [] == Before(cv);
      calls := calls + 1;
      root, t := Exchange(without, t1, victim, node, c, s, cv, sv, S);
    }
  }

  /** What the fields around a node in focus say about the shape. */
  lemma Survey(c: Context, s: Shape, S: set<ZNode>)
    requires Focused(Snap(S), c, s) && s.Node?
    ensures s.n.left == TopOf(s.l) && s.n.right == TopOf(s.r) && s.n.parent == Above(c)
    ensures CountOf(s.n.left) == Size(s.l) && CountOf(s.n.right) == Size(s.r)
    ensures s.l.Node? ==> CountOf(s.l.n.right) == Size(s.l.r)
    ensures s.r.Node? ==> CountOf(s.r.n.left) == Size(s.r.l)
    ensures !c.Top? ==> (Above(c).right == s.n <==> c.RightOf?)
  {
    Neighbours(Snap(S), c, s);
    Accessors(s.n.left, s.l, S);
    Accessors(s.n.right, s.r, S);
    if s.l.Node? {
      Accessors(s.l.n.right, s.l.r, S);
    }
    if s.r.Node? {
      Accessors(s.r.n.left, s.r.l, S);
    }
    if c.LeftOf? {
      KidsTop(Snap(S), c.n.right, c.r);
    }
  }

  predicate Below(target: int, c: Context, s: Shape) { |Before(c)| <= target < |Before(c)| + Size(s) }

  /** avl_offset: the node whose rank is offset away from that of start, or null when the tree
      has no such rank. The walk climbs only until the target lies below the current node and
      from then on only descends. */
  method Offset(start: ZNode, offset: int, ghost c0: Context, ghost s0: Shape, ghost S: set<ZNode>)
    returns (found: ZNode?)
    requires Focused(Snap(S), c0, s0) && s0.Node? && s0.n == start
    ensures var all, target := InOrder(Plug(c0, s0)), Rank(c0, s0) + offset;
      found == if 0 <= target < |all| then all[target] else null
  {
    hide Focused, InOrder;
    var node := start;
    var pos := 0;
    ghost var c, s := c0, s0;
    ghost var target := Rank(c0, s0) + offset;
    while pos != offset
      invariant s.Node? && s.n == node && Focused(Snap(S), c, s) && Plug(c, s) == Plug(c0, s0)
      invariant Rank(c, s) == Rank(c0, s0) + pos
      decreases !Below(target, c, s), if Below(target, c, s) then Height(s) else Depth(c)
    {
      Survey(c, s, S);
      RankSteps(c, s);
      ghost var c', s';
      if pos < offset && pos + CountOf(node.right) >= offset {
        c', s' := RightOf(c, s.l, s.n), s.r;
        node := node.right;
        pos := pos + CountOf(node.left) + 1;
      } else if pos > offset && pos - CountOf(node.left) <= offset {
        c', s' := LeftOf(c, s.n, s.r), s.l;
        node := node.left;
        pos := pos - (CountOf(node.right) + 1);
      } else {
        var parent := node.parent;
        if parent == null {
          RankIsPosition(c, s);
          return null;
        }
        if parent.right == node {
          pos := pos - (CountOf(node.left) + 1);
        } else {
          pos := pos + CountOf(node.right) + 1;
        }
        c', s' := Outward(c, s).0, Outward(c, s).1;
        node := node.parent;
      }
      Shift(Snap(S), c, s, c', s');
      c, s := c', s';
    }
    RankIsPosition(c, s);
    return node;
  }
}
