/** The nodes of a sorted set and what it means for their links to represent a shape. */
module ZNodes {
  import opened Bytes
  import opened TreeShapes

  /** A ZNode of zset.h with its embedded AVLNode. The functions of AVL.cpp touch only the
      five tree fields. */
  class ZNode {
    var depth: nat
    var count: nat
    var left: ZNode?
    var right: ZNode?
    var parent: ZNode?
    var score: real
    const name: ByteString

    /** znode_new, which ends in the state avl_init leaves. */
    constructor (name: ByteString, score: real)
      ensures this.name == name && this.score == score
      ensures left == null && right == null && parent == null && depth == 1 && count == 1
    {
      this.name, this.score := name, score;
      left, right, parent, depth, count := null, null, null, 1, 1;
    }

    /** avl_init. */
    method Init()
      modifies this`left, this`right, this`parent, this`depth, this`count
      ensures left == null && right == null && parent == null && depth == 1 && count == 1
    {
      left, right, parent, depth, count := null, null, null, 1, 1;
    }
  }

  /** The tree fields of one node, and those of many. */
  datatype Cell = Cell(left: ZNode?, right: ZNode?, parent: ZNode?, depth: nat, count: nat)
  type Links = map<ZNode, Cell>

  ghost function Snap(S: set<ZNode>): Links
    reads S`left, S`right, S`parent, S`depth, S`count
  {
    map n | n in S :: Cell(n.left, n.right, n.parent, n.depth, n.count)
  }

  /** The change rot_left makes: x sinks below its right child y, whose left child b moves
      under x. No other link changes, and no other node. */
  ghost predicate TurnsLeft(L: Links, M: Links, x: ZNode, y: ZNode, b: ZNode?) {
    && x in L && x in M && y in L && y in M && L[x].right == y && L[y].left == b
    && M[x].left == L[x].left && M[x].right == b && M[x].parent == y
    && M[y].left == x && M[y].right == L[y].right && M[y].parent == L[x].parent
    && (b != null ==> b in L && b in M && M[b] == L[b].(parent := x))
    && (forall n :: n in L && n != x && n != y && n != b ==> n in M && M[n] == L[n])
  }

  /** The mirror image, for rot_right. */
  ghost predicate TurnsRight(L: Links, M: Links, x: ZNode, y: ZNode, b: ZNode?) {
    && x in L && x in M && y in L && y in M && L[x].left == y && L[y].right == b
    && M[x].right == L[x].right && M[x].left == b && M[x].parent == y
    && M[y].right == x && M[y].left == L[y].left && M[y].parent == L[x].parent
    && (b != null ==> b in L && b in M && M[b] == L[b].(parent := x))
    && (forall n :: n in L && n != x && n != y && n != b ==> n in M && M[n] == L[n])
  }

  type Shape = Tree<ZNode>
  type Context = Path<ZNode>

  // ----- how links represent a shape

  /** The child links below p spell out the shape t. */
  ghost predicate Kids(L: Links, p: ZNode?, t: Shape) {
    match t
    case Leaf => p == null
    case Node(l, n, r) => p == n && n in L && Kids(L, L[n].left, l) && Kids(L, L[n].right, r)
  }

  /** The parent links inside t mirror its child links, and the top one leads to up. */
  ghost predicate Parents(L: Links, t: Shape, up: ZNode?) {
    match t
    case Leaf => true
    case Node(l, n, r) => n in L && L[n].parent == up && Parents(L, l, n) && Parents(L, r, n)
  }

  /** Every stored depth and count is exact. */
  ghost predicate Exact(L: Links, t: Shape) {
    match t
    case Leaf => true
    case Node(l, n, r) =>
      n in L && L[n].depth == Height(t) && L[n].count == Size(t) && Exact(L, l) && Exact(L, r)
  }

  function Above(c: Context): ZNode? {
    match c
    case Top => null
    case LeftOf(_, n, _) => n
    case RightOf(_, _, n) => n
  }

  /** The links around the hole spell out the path c, and the slot at the hole holds child. */
  ghost predicate Around(L: Links, c: Context, child: ZNode?) {
    match c
    case Top => true
    case LeftOf(up, n, r) =>
      && n in L && L[n].left == child && L[n].parent == Above(up)
      && Kids(L, L[n].right, r) && Parents(L, r, n) && Around(L, up, n)
    case RightOf(up, l, n) =>
      && n in L && L[n].right == child && L[n].parent == Above(up)
      && Kids(L, L[n].left, l) && Parents(L, l, n) && Around(L, up, n)
  }

  /** The stored depths and counts beside the path are exact; those on it may be stale. */
  ghost predicate ExactBeside(L: Links, c: Context) {
    match c
    case Top => true
    case LeftOf(up, _, r) => Exact(L, r) && ExactBeside(L, up)
    case RightOf(up, l, _) => Exact(L, l) && ExactBeside(L, up)
  }

  /** root is a complete, well-linked tree of shape t. */
  ghost predicate Sound(L: Links, root: ZNode?, t: Shape) {
    Distinct(t) && Kids(L, root, t) && Parents(L, t, null) && Exact(L, t)
  }

  // ----- what changing some nodes leaves alone

  /** The nodes of N have the same fields in both. */
  ghost predicate Same(L: Links, M: Links, N: set<ZNode>) {
    forall n :: n in N && n in L ==> n in M && M[n] == L[n]
  }

  lemma {:induction false} SameTree(L: Links, M: Links, p: ZNode?, t: Shape, up: ZNode?)
    requires Same(L, M, Nodes(t))
    ensures Kids(L, p, t) ==> Kids(M, p, t)
    ensures Parents(L, t, up) ==> Parents(M, t, up)
    ensures Exact(L, t) ==> Exact(M, t)
    decreases t
  {
    match t
    case Leaf =>
    case Node(l, n, r) =>
      if n in L {
        SameTree(L, M, L[n].left, l, n);
        SameTree(L, M, L[n].right, r, n);
      }
  }

  lemma {:induction false} SamePath(L: Links, M: Links, c: Context, child: ZNode?)
    requires Same(L, M, PathNodes(c))
    ensures Around(L, c, child) ==> Around(M, c, child)
    ensures ExactBeside(L, c) ==> ExactBeside(M, c)
  {
    match c
    case Top =>
    case LeftOf(up, n, r) =>
      if n in L {
        SameTree(L, M, L[n].right, r, n);
      }
      SameTree(L, M, null, r, n);
      SamePath(L, M, up, n);
    case RightOf(up, l, n) =>
      if n in L {
        SameTree(L, M, L[n].left, l, n);
      }
      SameTree(L, M, null, l, n);
      SamePath(L, M, up, n);
  }

  /** Moving a subtree under another parent. */
  lemma {:induction false} Moved(L: Links, M: Links, p: ZNode?, t: Shape, up: ZNode?, up': ZNode?)
    requires Distinct(t)
    requires t.Node? ==> t.n in L && t.n in M && M[t.n] == L[t.n].(parent := up')
    requires Same(L, M, Nodes(t) - {if t.Node? then t.n else p})
    ensures Kids(L, p, t) ==> Kids(M, p, t)
    ensures Parents(L, t, up) ==> Parents(M, t, up')
    ensures Exact(L, t) ==> Exact(M, t)
  {
    if t.Node? {
      SameTree(L, M, L[t.n].left, t.l, t.n);
      SameTree(L, M, L[t.n].right, t.r, t.n);
    }
  }

  lemma KidsTop(L: Links, p: ZNode?, t: Shape)
    requires Kids(L, p, t)
    ensures p == null <==> t.Leaf?
    ensures p != null ==> t.n == p && p in Nodes(t)
  {
  }

  function TopOf(t: Shape): ZNode? { if t.Leaf? then null else t.n }

  /** The stored depth and count of n are those of a node over l and r. */
  ghost predicate Over(L: Links, n: ZNode, l: Shape, r: Shape) {
    n in L && L[n].depth == 1 + Max(Height(l), Height(r)) && L[n].count == 1 + Size(l) + Size(r)
  }

  /** The subtree t hanging from up has become the subtree t' with p on top, in the same place.
      Nothing outside t has changed. */
  ghost predicate Became(L: Links, M: Links, t: Shape, p: ZNode, t': Shape, up: ZNode?) {
    && Kids(M, p, t') && Exact(M, t')
    && (Parents(L, t, up) ==> Parents(M, t', up))
    && (forall n :: n in L && n !in Nodes(t) ==> n in M && M[n] == L[n])
  }

  lemma {:induction false} TurnedLeft(L: Links, M: Links, a: Shape, x: ZNode, b: Shape, y: ZNode, c: Shape)
    requires Distinct(Node(a, x, Node(b, y, c))) && Kids(L, x, Node(a, x, Node(b, y, c)))
    requires Exact(L, a) && Exact(L, b) && Exact(L, c)
    requires TurnsLeft(L, M, x, y, TopOf(b)) && Over(M, x, a, b) && Over(M, y, Node(a, x, b), c)
    ensures Became(L, M, Node(a, x, Node(b, y, c)), y, Node(Node(a, x, b), y, c), L[x].parent)
  {
    SameTree(L, M, L[x].left, a, x);
    SameTree(L, M, L[y].right, c, y);
    Moved(L, M, L[y].left, b, y, x);
    assert Parents(L, Node(a, x, Node(b, y, c)), L[x].parent) ==> Parents(L, Node(b, y, c), x);
  }

  lemma {:induction false} TurnedRight(L: Links, M: Links, a: Shape, y: ZNode, b: Shape, x: ZNode, c: Shape)
    requires Distinct(Node(Node(a, y, b), x, c)) && Kids(L, x, Node(Node(a, y, b), x, c))
    requires Exact(L, a) && Exact(L, b) && Exact(L, c)
    requires TurnsRight(L, M, x, y, TopOf(b)) && Over(M, x, b, c) && Over(M, y, a, Node(b, x, c))
    ensures Became(L, M, Node(Node(a, y, b), x, c), y, Node(a, y, Node(b, x, c)), L[x].parent)
  {
    SameTree(L, M, L[y].left, a, y);
    SameTree(L, M, L[x].right, c, x);
    Moved(L, M, L[y].right, b, y, x);
    assert Parents(L, Node(Node(a, y, b), x, c), L[x].parent) ==> Parents(L, Node(a, y, b), x);
  }

  /** Storing the new top x of the left subtree in the child slot of the node above. */
  lemma {:induction false} LeftReplaced(L: Links, K: Links, M: Links, t: Shape, x: ZNode, l: Shape)
    requires t.Node? && Distinct(t) && Kids(L, t.n, t) && Exact(L, t.r)
    requires Became(L, K, t.l, x, l, t.n) && Nodes(l) == Nodes(t.l)
    requires t.n in M && M[t.n] == L[t.n].(left := x)
    requires forall n :: n in K && n != t.n ==> n in M && M[n] == K[n]
    ensures Kids(M, t.n, Node(l, t.n, t.r)) && Exact(M, l) && Exact(M, t.r)
    ensures forall up :: Parents(L, t, up) ==> Parents(M, Node(l, t.n, t.r), up)
    ensures forall n :: n in L && n !in Nodes(t) ==> n in M && M[n] == L[n]
  {
    SameTree(K, M, x, l, t.n);
    SameTree(L, M, L[t.n].right, t.r, t.n);
  }

  lemma {:induction false} RightReplaced(L: Links, K: Links, M: Links, t: Shape, x: ZNode, r: Shape)
    requires t.Node? && Distinct(t) && Kids(L, t.n, t) && Exact(L, t.l)
    requires Became(L, K, t.r, x, r, t.n) && Nodes(r) == Nodes(t.r)
    requires t.n in M && M[t.n] == L[t.n].(right := x)
    requires forall n :: n in K && n != t.n ==> n in M && M[n] == K[n]
    ensures Kids(M, t.n, Node(t.l, t.n, r)) && Exact(M, r) && Exact(M, t.l)
    ensures forall up :: Parents(L, t, up) ==> Parents(M, Node(t.l, t.n, r), up)
    ensures forall n :: n in L && n !in Nodes(t) ==> n in M && M[n] == L[n]
  {
    SameTree(K, M, x, r, t.n);
    SameTree(L, M, L[t.n].left, t.l, t.n);
  }

  // ----- climbing

  /** The state in which avl_fix finds the tree: linked throughout, but the depths and counts
      of the top of t and of its ancestors may be stale. */
  ghost predicate Loose(L: Links, c: Context, t: Shape) {
    && Distinct(t) && DistinctPath(c) && Nodes(t) !! PathNodes(c)
    && t.Node? && Kids(L, t.n, t) && Parents(L, t, Above(c)) && Around(L, c, t.n)
    && Exact(L, t.l) && Exact(L, t.r) && ExactBeside(L, c)
  }

  lemma {:induction false} Refreshed(L: Links, M: Links, t: Shape, up: ZNode?)
    requires Distinct(t) && t.Node? && Kids(L, t.n, t) && Exact(L, t.l) && Exact(L, t.r) && t.n in M
    requires M[t.n] == L[t.n].(depth := 1 + Max(Height(t.l), Height(t.r)), count := 1 + Size(t.l) + Size(t.r))
    requires forall n :: n in L && n != t.n ==> n in M && M[n] == L[n]
    ensures Became(L, M, t, t.n, t, up)
  {
    SameTree(L, M, L[t.n].left, t.l, t.n);
    SameTree(L, M, L[t.n].right, t.r, t.n);
  }

  lemma BecameTwice(L: Links, K: Links, M: Links, t: Shape, p: ZNode, q: ZNode, t': Shape, up: ZNode?)
    requires Became(L, K, t, p, t, up) && Became(K, M, t, q, t', up)
    ensures Became(L, M, t, q, t', up)
  {
  }

  lemma StepOut(c: Context, t: Shape) returns (c': Context, t': Shape)
    requires t.Node? && !c.Top?
    ensures (c', t') == Outward(c, Fixed(t)) && t'.Node? && t'.n == Above(c) && Depth(c') < Depth(c)
    ensures Nodes(t') + PathNodes(c') == Nodes(t) + PathNodes(c)
    ensures Rebalanced(c', t') == Rebalanced(c, t)
  {
    c', t' := Outward(c, Fixed(t)).0, Outward(c, Fixed(t)).1;
    FixedKeepsOrder(t);
    SameOrderSameNodes(Fixed(t), t);
  }

  lemma {:induction false} SlotOf(L: Links, c: Context, t: Shape)
    requires Loose(L, c, t)
    ensures L[t.n].parent == Above(c)
    ensures !c.Top? ==> Above(c) in L && (L[Above(c)].left == t.n <==> c.LeftOf?)
  {
    if c.RightOf? {
      KidsTop(L, L[c.n].left, c.l);
    }
  }

  /** With the new top x of the subtree stored in its parent's child slot, the parent is in the
      same state as its child was. */
  lemma {:induction false} Climbed(L: Links, K: Links, M: Links, c: Context, t: Shape, x: ZNode, t': Shape)
    requires Loose(L, c, t) && Became(L, K, t, x, t', Above(c))
    requires Distinct(t') && Nodes(t') == Nodes(t) && t'.Node? && !c.Top?
    requires Above(c) in K && Above(c) in M
    requires M[Above(c)] == if c.LeftOf? then K[Above(c)].(left := x) else K[Above(c)].(right := x)
    requires forall n :: n in K && n != Above(c) ==> n in M && M[n] == K[n]
    ensures Loose(M, Outward(c, t').0, Outward(c, t').1)
  {
    SamePath(L, K, c, t.n);
    SameTree(K, M, x, t', Above(c));
    var (up, s) := Outward(c, t');
    SamePath(K, M, up, Above(c));
    match c
    case LeftOf(_, n, r) => SameTree(K, M, K[n].right, r, n);
    case RightOf(_, l, n) => SameTree(K, M, K[n].left, l, n);
  }

  // ----- looking at one position of a tree

  /** The stored depths and counts on and beside the path are exact, for a hole that holds a
      tree of height h with k nodes. */
  ghost predicate ExactAround(L: Links, c: Context, h: nat, k: nat) {
    match c
    case Top => true
    case LeftOf(up, n, r) =>
      && n in L && L[n].depth == 1 + Max(h, Height(r)) && L[n].count == 1 + k + Size(r)
      && Exact(L, r) && ExactAround(L, up, L[n].depth, L[n].count)
    case RightOf(up, l, n) =>
      && n in L && L[n].depth == 1 + Max(Height(l), h) && L[n].count == 1 + Size(l) + k
      && Exact(L, l) && ExactAround(L, up, L[n].depth, L[n].count)
  }

  /** Sound, seen from one position: a subtree s and its surrounding c. */
  ghost predicate Focused(L: Links, c: Context, s: Shape) {
    && Distinct(s) && DistinctPath(c) && Nodes(s) !! PathNodes(c)
    && Kids(L, TopOf(s), s) && Parents(L, s, Above(c)) && Around(L, c, TopOf(s))
    && Exact(L, s) && ExactAround(L, c, Height(s), Size(s))
  }

  lemma {:induction false} FocusLinks(L: Links, c: Context, s: Shape)
    ensures Kids(L, TopOf(Plug(c, s)), Plug(c, s)) && Parents(L, Plug(c, s), null)
            <==> Kids(L, TopOf(s), s) && Parents(L, s, Above(c)) && Around(L, c, TopOf(s))
    ensures Exact(L, Plug(c, s)) <==> Exact(L, s) && ExactAround(L, c, Height(s), Size(s))
    decreases c
  {
    match c
    case Top =>
    case LeftOf(up, n, r) =>
      FocusLinks(L, up, Node(s, n, r));
      if n in L && Kids(L, L[n].right, r) { KidsTop(L, L[n].right, r); }
    case RightOf(up, l, n) =>
      FocusLinks(L, up, Node(l, n, s));
      if n in L && Kids(L, L[n].left, l) { KidsTop(L, L[n].left, l); }
  }

  /** A tree is sound exactly when it is sound seen from any of its positions. */
  lemma {:induction false} Focus(L: Links, c: Context, s: Shape)
    ensures Sound(L, TopOf(Plug(c, s)), Plug(c, s)) <==> Focused(L, c, s)
  {
    PlugDistinct(c, s);
    FocusLinks(L, c, s);
  }

  /** The same tree, seen from the successor. */
  lemma {:induction false} Refocus(L: Links, c: Context, s: Shape, cv: Context, sv: Shape)
    requires s.Node? && Focused(L, c, s) && Successor(c, s, cv, sv)
    ensures Focused(L, cv, sv) && Nodes(sv) + PathNodes(cv) == Nodes(s) + PathNodes(c) == Nodes(Plug(c, s))
    ensures Distinct(Plug(c, s)) && Height(sv) < Height(s) && (s.l.Leaf? && Balanced(s) ==> sv.r.Leaf?)
  {
    Focus(L, c, s);
    Focus(L, cv, sv);
    PlugNodes(c, s);
    PlugNodes(cv, sv);
  }

  /** Moving the focus keeps a tree sound. */
  lemma {:induction false} Shift(L: Links, c: Context, s: Shape, c': Context, s': Shape)
    requires Focused(L, c, s) && Plug(c, s) == Plug(c', s')
    ensures Focused(L, c', s')
  {
    Focus(L, c, s);
    Focus(L, c', s');
  }

  lemma {:induction false} ExactAroundBeside(L: Links, c: Context, h: nat, k: nat)
    requires ExactAround(L, c, h, k)
    ensures ExactBeside(L, c)
    decreases c
  {
    match c
    case Top =>
    case LeftOf(up, n, _) => ExactAroundBeside(L, up, L[n].depth, L[n].count);
    case RightOf(up, _, n) => ExactAroundBeside(L, up, L[n].depth, L[n].count);
  }

  /** The child slot at the hole of c now holds child. */
  ghost predicate SlotSet(L: Links, M: Links, c: Context, child: ZNode?) {
    match c
    case Top => true
    case LeftOf(_, n, _) => n in L && n in M && M[n] == L[n].(left := child)
    case RightOf(_, _, n) => n in L && n in M && M[n] == L[n].(right := child)
  }

  /** The node on top of t, if there is one, now has the parent up. */
  ghost predicate ParentSet(L: Links, M: Links, t: Shape, up: ZNode?) {
    t.Node? ==> t.n in L && t.n in M && M[t.n] == L[t.n].(parent := up)
  }

  /** Taking out a node that has no right child: its left subtree moves up into its slot. */
  lemma {:induction false} Unhooked(L: Links, M: Links, c: Context, s: Shape)
    requires s.Node? && s.r.Leaf? && Focused(L, c, s)
    requires ParentSet(L, M, s.l, Above(c)) && SlotSet(L, M, c, TopOf(s.l))
    requires forall n :: n in L && n != TopOf(s.l) && n != Above(c) ==> n in M && M[n] == L[n]
    ensures c.Top? ==> Sound(M, TopOf(s.l), s.l)
    ensures !c.Top? ==> Loose(M, Outward(c, s.l).0, Outward(c, s.l).1)
  {
    Moved(L, M, L[s.n].left, s.l, s.n, Above(c));
    Slotted(L, M, c, s.n, TopOf(s.l), Height(s), Size(s));
    ExactAroundBeside(M, c, Height(s), Size(s));
  }

  /** The fields of the node in focus lead to four different nodes. */
  lemma {:induction false} Neighbours(L: Links, c: Context, s: Shape)
    requires Focused(L, c, s) && s.Node?
    ensures s.n in L && L[s.n].left == TopOf(s.l) && L[s.n].right == TopOf(s.r) && L[s.n].parent == Above(c)
    ensures s.l.Node? ==> s.l.n in L && s.l.n in Nodes(s) && s.l.n != s.n && s.l.n != TopOf(s.r) && s.l.n != Above(c)
    ensures s.r.Node? ==> s.r.n in L && s.r.n in Nodes(s) && s.r.n != s.n && s.r.n != Above(c)
    ensures !c.Top? ==> Above(c) in L && Above(c) in PathNodes(c) && Above(c) != s.n
                        && (L[Above(c)].left == s.n <==> c.LeftOf?)
  {
    KidsTop(L, L[s.n].left, s.l);
    KidsTop(L, L[s.n].right, s.r);
    if c.RightOf? {
      KidsTop(L, L[c.n].left, c.l);
    }
  }

  /** Exchanging one node for another changes neither the balance nor, mostly, the root. */
  lemma {:induction false} SameTop(c: Context, s: Shape, s': Shape)
    requires s.Node? && s'.Node? && s'.l == s.l && s'.r == s.r
    ensures TopOf(Plug(c, s')) == if c.Top? then s'.n else TopOf(Plug(c, s))
    ensures Balanced(Plug(c, s')) <==> Balanced(Plug(c, s))
  {
    TopOfPlug(c, s);
    TopOfPlug(c, s');
    PlugBalanced(c, s);
    PlugBalanced(c, s');
  }

  function Outermost(c: Context): ZNode
    requires !c.Top?
  {
    match c
    case LeftOf(up, n, _) => if up.Top? then n else Outermost(up)
    case RightOf(up, _, n) => if up.Top? then n else Outermost(up)
  }

  lemma {:induction false} TopOfPlug(c: Context, s: Shape)
    ensures TopOf(Plug(c, s)) == if c.Top? then TopOf(s) else Outermost(c)
  {
    match c
    case Top =>
    case LeftOf(up, n, r) => TopOfPlug(up, Node(s, n, r));
    case RightOf(up, l, n) => TopOfPlug(up, Node(l, n, s));
  }

  /** Where node is in the tree t that has lost its successor sv.n, and what putting sv.n there
      will give. */
  lemma {:induction false} PlanExchange(L: Links, t: Shape, c: Context, s: Shape, cv: Context, sv: Shape)
    returns (c1: Context, s1: Shape, t': Shape)
    requires s.Node? && Distinct(Plug(c, s)) && Successor(c, s, cv, sv) && sv.l.Leaf?
    requires Sound(L, TopOf(t), t) && Balanced(t) && InOrder(t) == Before(cv) + InOrder(sv.r) + After(cv)
    ensures Focused(L, c1, s1) && s1.Node? && s1.n == s.n && Nodes(s1) + PathNodes(c1) <= Nodes(Plug(c, s))
    ensures sv.n !in Nodes(s1) && sv.n !in PathNodes(c1)
    ensures t' == Plug(c1, Node(s1.l, sv.n, s1.r)) && Balanced(t')
    ensures TopOf(t') == if c1.Top? then sv.n else TopOf(t)
    ensures InOrder(t') == Before(c) + InOrder(s.l) + InOrder(s.r) + After(c)
  {
    NodeRemains(c, s, cv, sv, t);
    c1, s1 := Locate(t, s.n);
    var s1' := Node(s1.l, sv.n, s1.r);
    t' := Plug(c1, s1');
    SwapDeletes(c, s, cv, sv, c1, s1);
    PlugNodes(c1, s1);
    Focus(L, c1, s1);
    SameTop(c1, s1, s1');
  }

  /** victim takes over the fields of node, and node's neighbours point to victim instead. */
  lemma {:induction false} Replaced(L: Links, M: Links, c: Context, s: Shape, victim: ZNode)
    requires s.Node? && Focused(L, c, s) && victim !in Nodes(s) && victim !in PathNodes(c)
    requires s.n in L && victim in M && M[victim] == L[s.n]
    requires ParentSet(L, M, s.l, victim) && ParentSet(L, M, s.r, victim) && SlotSet(L, M, c, victim)
    requires forall n :: n in L && n != victim && n != TopOf(s.l) && n != TopOf(s.r) && n != Above(c) ==> n in M && M[n] == L[n]
    ensures Focused(M, c, Node(s.l, victim, s.r))
  {
    hide Around, ExactAround;
    Moved(L, M, L[s.n].left, s.l, s.n, victim);
    Moved(L, M, L[s.n].right, s.r, s.n, victim);
    Slotted(L, M, c, s.n, victim, Height(s), Size(s));
  }

  /** Changing what a child slot holds leaves the rest of the path as it was. */
  lemma {:induction false} Slotted(L: Links, M: Links, c: Context, before: ZNode?, child: ZNode?, h: nat, k: nat)
    requires DistinctPath(c) && Around(L, c, before) && ExactAround(L, c, h, k) && SlotSet(L, M, c, child)
    requires forall n :: n in L && n in PathNodes(c) && n != Above(c) ==> n in M && M[n] == L[n]
    ensures Around(M, c, child) && ExactAround(M, c, h, k)
  {
    match c
    case Top =>
    case LeftOf(up, n, r) =>
      SameTree(L, M, L[n].right, r, n);
      SamePath(L, M, up, n);
      SameExactAround(L, M, up, L[n].depth, L[n].count);
    case RightOf(up, l, n) =>
      SameTree(L, M, L[n].left, l, n);
      SamePath(L, M, up, n);
      SameExactAround(L, M, up, L[n].depth, L[n].count);
  }

  lemma {:induction false} SameExactAround(L: Links, M: Links, c: Context, h: nat, k: nat)
    requires Same(L, M, PathNodes(c)) && ExactAround(L, c, h, k)
    ensures ExactAround(M, c, h, k)
    decreases c
  {
    match c
    case Top =>
    case LeftOf(up, n, r) =>
      SameTree(L, M, null, r, n);
      SameExactAround(L, M, up, L[n].depth, L[n].count);
    case RightOf(up, l, n) =>
      SameTree(L, M, null, l, n);
      SameExactAround(L, M, up, L[n].depth, L[n].count);
  }

  // ----- climbing without storing the result of a rotation

  /** As Loose, without the parent links inside t. */
  ghost predicate Hanging(L: Links, c: Context, t: Shape) {
    && Distinct(t) && DistinctPath(c) && Nodes(t) !! PathNodes(c)
    && t.Node? && Kids(L, t.n, t) && L[t.n].parent == Above(c) && Around(L, c, t.n)
    && Exact(L, t.l) && Exact(L, t.r) && ExactBeside(L, c)
  }

  lemma {:induction false} KeptLinks(M: Links, p: ZNode, t: Shape)
    requires t.Node? && Distinct(t) && Kids(M, p, Fixed(t)) && Exact(M, Fixed(t))
    ensures Kids(M, t.n, Kept(t)) && Exact(M, Kept(t)) && Distinct(Kept(t)) && Nodes(Kept(t)) <= Nodes(t)
  {
    FixedKeepsOrder(t);
    SameOrderSameNodes(Fixed(t), t);
  }

  lemma {:induction false} LeftBehind(L: Links, M: Links, c: Context, t: Shape) returns (c': Context, t': Shape)
    requires Hanging(L, c, t) && !c.Top? && exists p :: Became(L, M, t, p, Fixed(t), Above(c))
    ensures (c', t') == Outward(c, Kept(t)) && Hanging(M, c', t') && t'.n == Above(c) && Depth(c') < Depth(c)
    ensures Nodes(t') + PathNodes(c') <= Nodes(t) + PathNodes(c)
    ensures Seen(c', t') == Seen(c, t)
  {
    c', t' := Outward(c, Kept(t)).0, Outward(c, Kept(t)).1;
    var p :| Became(L, M, t, p, Fixed(t), Above(c));
    KeptLinks(M, p, t);
    SamePath(L, M, c, t.n);
  }

  /** Without a rotation there is nothing to store in the slot. */
  lemma NothingToStore(L: Links, M: Links, c: Context, t: Shape, p: ZNode)
    requires Loose(L, c, t) && Became(L, M, t, p, Fixed(t), Above(c)) && !RotatesBelowRoot(c, t) && !c.Top?
    ensures var out := Outward(c, t); Loose(M, out.0, out.1) && !RotatesBelowRoot(out.0, out.1)
    ensures var out := Outward(c, t); Kept(t) == t && Rebalanced(out.0, out.1) == Rebalanced(c, t)
  {
    SamePath(L, M, c, t.n);
    Climbed(L, M, M, c, t, p, t);
  }

  /** At the root the loop is done. */
  lemma AtRoot(L: Links, M: Links, c: Context, t: Shape, p: ZNode)
    requires Loose(L, c, t) && Became(L, M, t, p, Fixed(t), Above(c)) && c.Top?
    ensures Sound(M, p, Rebalanced(c, t))
  {
    FixedKeepsOrder(t);
    SameOrderSameNodes(Fixed(t), t);
  }

  /** Child links spell out one shape. */
  lemma {:induction false} OneShape(L: Links, p: ZNode?, t: Shape, t': Shape)
    requires Kids(L, p, t) && Kids(L, p, t')
    ensures t == t'
  {
    if t.Node? && t'.Node? {
      OneShape(L, L[t.n].left, t.l, t'.l);
      OneShape(L, L[t.n].right, t.r, t'.r);
    }
  }
}
