/** Binary tree shapes and one-hole contexts, as plain values.

    The source keeps the sorted set's tree in linked nodes that are rewritten in place
    (AVL.cpp). The shape of that linked structure is a Tree of the nodes themselves; the
    path from a node up to the root is a Path. The functions here say what the pointer
    code of module Avl computes, and the lemmas are about every shape. */
module TreeShapes {
  import opened Common


  datatype Tree<T> = Leaf | Node(l: Tree<T>, n: T, r: Tree<T>)

  /** The ancestors of a position, innermost first. LeftOf(up, n, r) is the left child slot
      of n, whose other child has the shape r. */
  datatype Path<T> =
    | Top
    | LeftOf(up: Path<T>, n: T, r: Tree<T>)
    | RightOf(up: Path<T>, l: Tree<T>, n: T)

  function Max(a: nat, b: nat): nat { if a < b then b else a }

  function Nodes<T>(t: Tree<T>): set<T> {
    match t
    case Leaf => {}
    case Node(l, n, r) => Nodes(l) + {n} + Nodes(r)
  }

  function InOrder<T>(t: Tree<T>): seq<T> {
    match t
    case Leaf => []
    case Node(l, n, r) => InOrder(l) + [n] + InOrder(r)
  }

  function Size<T>(t: Tree<T>): nat {
    match t
    case Leaf => 0
    case Node(l, _, r) => 1 + Size(l) + Size(r)
  }

  function Height<T>(t: Tree<T>): nat {
    match t
    case Leaf => 0
    case Node(l, _, r) => 1 + Max(Height(l), Height(r))
  }

  /** No node occurs twice. */
  predicate Distinct<T(==)>(t: Tree<T>) {
    match t
    case Leaf => true
    case Node(l, n, r) =>
      Distinct(l) && Distinct(r) && n !in Nodes(l) && n !in Nodes(r) && Nodes(l) !! Nodes(r)
  }

  predicate Near(a: nat, b: nat) { a <= b + 1 && b <= a + 1 }

  /** The AVL condition: at every node the two subtree heights differ by at most one. */
  predicate Balanced<T>(t: Tree<T>) {
    match t
    case Leaf => true
    case Node(l, _, r) => Balanced(l) && Balanced(r) && Near(Height(l), Height(r))
  }

  function Plug<T>(c: Path<T>, t: Tree<T>): Tree<T> {
    match c
    case Top => t
    case LeftOf(up, n, r) => Plug(up, Node(t, n, r))
    case RightOf(up, l, n) => Plug(up, Node(l, n, t))
  }

  function PathNodes<T>(c: Path<T>): set<T> {
    match c
    case Top => {}
    case LeftOf(up, n, r) => PathNodes(up) + {n} + Nodes(r)
    case RightOf(up, l, n) => PathNodes(up) + {n} + Nodes(l)
  }

  predicate DistinctPath<T(==)>(c: Path<T>) {
    match c
    case Top => true
    case LeftOf(up, n, r) =>
      DistinctPath(up) && Distinct(r) && n !in Nodes(r) && n !in PathNodes(up) && Nodes(r) !! PathNodes(up)
    case RightOf(up, l, n) =>
      DistinctPath(up) && Distinct(l) && n !in Nodes(l) && n !in PathNodes(up) && Nodes(l) !! PathNodes(up)
  }

  /** The nodes in order before the hole, and after it. */
  function Before<T>(c: Path<T>): seq<T> {
    match c
    case Top => []
    case LeftOf(up, _, _) => Before(up)
    case RightOf(up, l, n) => Before(up) + InOrder(l) + [n]
  }

  function After<T>(c: Path<T>): seq<T> {
    match c
    case Top => []
    case LeftOf(up, n, r) => [n] + InOrder(r) + After(up)
    case RightOf(up, _, _) => After(up)
  }

  function Depth<T>(c: Path<T>): nat {
    match c
    case Top => 0
    case LeftOf(up, _, _) => 1 + Depth(up)
    case RightOf(up, _, _) => 1 + Depth(up)
  }

  /** outer followed by inner: the path to a hole inside a subtree at outer. */
  function Append<T>(inner: Path<T>, outer: Path<T>): Path<T> {
    match inner
    case Top => outer
    case LeftOf(up, n, r) => LeftOf(Append(up, outer), n, r)
    case RightOf(up, l, n) => RightOf(Append(up, outer), l, n)
  }

  /** Everything around the hole is balanced, provided the hole holds a tree of height h. */
  predicate BalancedPath<T>(c: Path<T>, h: nat) {
    match c
    case Top => true
    case LeftOf(up, _, r) => Balanced(r) && Near(h, Height(r)) && BalancedPath(up, 1 + Max(h, Height(r)))
    case RightOf(up, l, _) => Balanced(l) && Near(h, Height(l)) && BalancedPath(up, 1 + Max(h, Height(l)))
  }

  // ----- shapes around a hole

  lemma {:induction false} PlugInOrder<T>(c: Path<T>, t: Tree<T>)
    ensures InOrder(Plug(c, t)) == Before(c) + InOrder(t) + After(c)
  {
    match c
    case Top =>
    case LeftOf(up, n, r) =>
      PlugInOrder(up, Node(t, n, r));
      Regroup(Before(up), InOrder(t), n, InOrder(r), After(up));
    case RightOf(up, l, n) =>
      PlugInOrder(up, Node(l, n, t));
      Regroup(Before(up), InOrder(l), n, InOrder(t), After(up));
  }

  lemma Regroup<T>(a: seq<T>, b: seq<T>, x: T, c: seq<T>, d: seq<T>)
    ensures a + (b + [x] + c) + d == a + b + ([x] + c + d)
    ensures a + (b + [x] + c) + d == (a + b + [x]) + c + d
    ensures a + (b + [x] + c) + d == (a + b) + [x] + (c + d)
  {
  }

  lemma {:induction false} PlugNodes<T>(c: Path<T>, t: Tree<T>)
    ensures Nodes(Plug(c, t)) == PathNodes(c) + Nodes(t)
  {
    match c
    case Top =>
    case LeftOf(up, n, r) => PlugNodes(up, Node(t, n, r));
    case RightOf(up, l, n) => PlugNodes(up, Node(l, n, t));
  }

  lemma {:induction false} PlugDistinct<T>(c: Path<T>, t: Tree<T>)
    ensures Distinct(Plug(c, t)) <==> Distinct(t) && DistinctPath(c) && Nodes(t) !! PathNodes(c)
  {
    match c
    case Top =>
    case LeftOf(up, n, r) => PlugDistinct(up, Node(t, n, r));
    case RightOf(up, l, n) => PlugDistinct(up, Node(l, n, t));
  }

  lemma NodeBalanced<T>(l: Tree<T>, n: T, r: Tree<T>)
    ensures Balanced(Node(l, n, r)) <==> Balanced(l) && Balanced(r) && Near(Height(l), Height(r))
    ensures Height(Node(l, n, r)) == 1 + Max(Height(l), Height(r))
    ensures Near(Height(l), Height(r)) == Near(Height(r), Height(l))
    ensures Max(Height(l), Height(r)) == Max(Height(r), Height(l))
  {
  }

  lemma {:induction false} PlugBalanced<T>(c: Path<T>, t: Tree<T>)
    ensures Balanced(Plug(c, t)) <==> Balanced(t) && BalancedPath(c, Height(t))
  {
    hide Balanced, Height, Near, Max;
    match c
    case Top =>
    case LeftOf(up, n, r) =>
      NodeBalanced(t, n, r);
      PlugBalanced(up, Node(t, n, r));
    case RightOf(up, l, n) =>
      NodeBalanced(l, n, t);
      PlugBalanced(up, Node(l, n, t));
  }

  lemma {:induction false} PlugAppend<T>(inner: Path<T>, outer: Path<T>, t: Tree<T>)
    ensures Plug(Append(inner, outer), t) == Plug(outer, Plug(inner, t))
  {
    match inner
    case Top =>
    case LeftOf(up, n, r) => PlugAppend(up, outer, Node(t, n, r));
    case RightOf(up, l, n) => PlugAppend(up, outer, Node(l, n, t));
  }

  lemma {:induction false} InOrderIsNodes<T>(t: Tree<T>)
    ensures |InOrder(t)| == Size(t)
    ensures Nodes(t) == Elements(InOrder(t))
  {
    match t
    case Leaf =>
    case Node(l, n, r) =>
      InOrderIsNodes(l);
      InOrderIsNodes(r);
      assert InOrder(t) == InOrder(l) + [n] + InOrder(r);
  }

  /** A shape repeats no node exactly when its in-order sequence repeats none. */
  lemma {:induction false} DistinctInOrder<T>(t: Tree<T>)
    ensures Distinct(t) <==> NoRepeats(InOrder(t))
  {
    match t
    case Leaf =>
    case Node(l, n, r) =>
      DistinctInOrder(l);
      DistinctInOrder(r);
      InOrderIsNodes(l);
      InOrderIsNodes(r);
      NoRepeatsAround(InOrder(l), n, InOrder(r));
  }

  lemma {:induction false} NoRepeatsAround<T>(a: seq<T>, x: T, b: seq<T>)
    ensures NoRepeats(a + [x] + b) <==>
            NoRepeats(a) && NoRepeats(b) && x !in Elements(a) && x !in Elements(b) && Elements(a) !! Elements(b)
  {
    var s := a + [x] + b;
    assert forall i :: 0 <= i < |a| ==> a[i] == s[i];
    assert s[|a|] == x;
    assert forall i :: 0 <= i < |b| ==> b[i] == s[|a| + 1 + i];
    if NoRepeats(s) {
      forall i, j | 0 <= i < |a| && 0 <= j < |b|
        ensures a[i] != b[j]
      {
        assert s[i] != s[|a| + 1 + j];
      }
    }
    if NoRepeats(a) && NoRepeats(b) && x !in Elements(a) && x !in Elements(b) && Elements(a) !! Elements(b) {
      assert forall i :: 0 <= i < |a| ==> s[i] in Elements(a);
      assert forall i :: |a| < i < |s| ==> s[i] == b[i - |a| - 1] && s[i] in Elements(b);
      forall i, j | 0 <= i < j < |s|
        ensures s[i] != s[j]
      {
      }
    }
  }

  /** Every node of a shape sits in some hole. */
  lemma {:induction false} Locate<T>(t: Tree<T>, x: T) returns (c: Path<T>, s: Tree<T>)
    requires x in Nodes(t)
    ensures s.Node? && s.n == x && Plug(c, s) == t
  {
    if x == t.n {
      c, s := Top, t;
    } else if x in Nodes(t.l) {
      c, s := Locate(t.l, x);
      PlugAppend(c, LeftOf(Top, t.n, t.r), s);
      c := Append(c, LeftOf(Top, t.n, t.r));
    } else {
      c, s := Locate(t.r, x);
      PlugAppend(c, RightOf(Top, t.l, t.n), s);
      c := Append(c, RightOf(Top, t.l, t.n));
    }
  }

  // ----- rotations

  function RotatedLeft<T>(t: Tree<T>): Tree<T>
    requires t.Node? && t.r.Node?
  {
    Node(Node(t.l, t.n, t.r.l), t.r.n, t.r.r)
  }

  function RotatedRight<T>(t: Tree<T>): Tree<T>
    requires t.Node? && t.l.Node?
  {
    Node(t.l.l, t.l.n, Node(t.l.r, t.n, t.r))
  }

  /** What avl_fix_left makes of a subtree that is too high on the left. */
  function FixedLeft<T>(t: Tree<T>): Tree<T>
    requires t.Node? && t.l.Node?
  {
    if Height(t.l.l) < Height(t.l.r) then RotatedRight(Node(RotatedLeft(t.l), t.n, t.r))
    else RotatedRight(t)
  }

  /** What avl_fix_right makes of a subtree that is too high on the right. */
  function FixedRight<T>(t: Tree<T>): Tree<T>
    requires t.Node? && t.r.Node?
  {
    if Height(t.r.r) < Height(t.r.l) then RotatedLeft(Node(t.l, t.n, RotatedRight(t.r)))
    else RotatedLeft(t)
  }

  /** One turn of the loop of avl_fix, at the node on top of t. */
  function Fixed<T>(t: Tree<T>): Tree<T>
    requires t.Node?
  {
    if Height(t.l) == Height(t.r) + 2 then FixedLeft(t)
    else if Height(t.l) + 2 == Height(t.r) then FixedRight(t)
    else t
  }

  /** The whole climb of avl_fix from the node on top of t, with the relinking repair. */
  function Rebalanced<T>(c: Path<T>, t: Tree<T>): Tree<T>
    requires t.Node?
    decreases c
  {
    match c
    case Top => Fixed(t)
    case LeftOf(up, n, r) => Rebalanced(up, Node(Fixed(t), n, r))
    case RightOf(up, l, n) => Rebalanced(up, Node(l, n, Fixed(t)))
  }

  lemma {:induction false} RotationsKeepOrder<T>(t: Tree<T>)
    requires t.Node?
    ensures t.r.Node? ==> InOrder(RotatedLeft(t)) == InOrder(t)
    ensures t.l.Node? ==> InOrder(RotatedRight(t)) == InOrder(t)
  {
    if t.r.Node? {
      Reassociate(InOrder(t.l), t.n, InOrder(t.r.l), t.r.n, InOrder(t.r.r));
    }
    if t.l.Node? {
      Reassociate(InOrder(t.l.l), t.l.n, InOrder(t.l.r), t.n, InOrder(t.r));
    }
  }

  lemma Reassociate<T>(a: seq<T>, x: T, b: seq<T>, y: T, c: seq<T>)
    ensures (a + [x] + b) + [y] + c == a + [x] + (b + [y] + c)
  {
  }

  lemma {:induction false} FixedKeepsOrder<T>(t: Tree<T>)
    requires t.Node?
    ensures InOrder(Fixed(t)) == InOrder(t)
  {
    if t.l.Node? && Height(t.l.l) < Height(t.l.r) {
      RotationsKeepOrder(t.l);
      RotationsKeepOrder(Node(RotatedLeft(t.l), t.n, t.r));
    }
    if t.r.Node? && Height(t.r.r) < Height(t.r.l) {
      RotationsKeepOrder(t.r);
      RotationsKeepOrder(Node(t.l, t.n, RotatedRight(t.r)));
    }
    RotationsKeepOrder(t);
  }

  lemma {:induction false} SameOrderSameNodes<T>(s: Tree<T>, t: Tree<T>)
    requires InOrder(s) == InOrder(t)
    ensures Nodes(s) == Nodes(t) && Size(s) == Size(t) && (Distinct(s) <==> Distinct(t))
  {
    InOrderIsNodes(s);
    InOrderIsNodes(t);
    DistinctInOrder(s);
    DistinctInOrder(t);
  }

  lemma {:induction false} InnerRotations<T>(t: Tree<T>)
    requires t.Node? && Distinct(t)
    ensures t.l.Node? && t.l.r.Node? ==> var t' := Node(RotatedLeft(t.l), t.n, t.r);
      Distinct(t') && Nodes(t') == Nodes(t) && Nodes(t'.l) == Nodes(t.l)
    ensures t.r.Node? && t.r.l.Node? ==> var t' := Node(t.l, t.n, RotatedRight(t.r));
      Distinct(t') && Nodes(t') == Nodes(t) && Nodes(t'.r) == Nodes(t.r)
  {
    if t.l.Node? && t.l.r.Node? {
      RotationsKeepOrder(t.l);
      SameOrderSameNodes(RotatedLeft(t.l), t.l);
    }
    if t.r.Node? && t.r.l.Node? {
      RotationsKeepOrder(t.r);
      SameOrderSameNodes(RotatedRight(t.r), t.r);
    }
  }

  /** avl_fix never changes the sequence of nodes, whatever the heights are. */
  lemma {:induction false} RebalancedKeepsOrder<T>(c: Path<T>, t: Tree<T>)
    requires t.Node?
    ensures InOrder(Rebalanced(c, t)) == InOrder(Plug(c, t))
    decreases c
  {
    FixedKeepsOrder(t);
    match c
    case Top =>
    case LeftOf(up, n, r) =>
      RebalancedKeepsOrder(up, Node(Fixed(t), n, r));
      PlugInOrder(up, Node(Fixed(t), n, r));
      PlugInOrder(up, Node(t, n, r));
    case RightOf(up, l, n) =>
      RebalancedKeepsOrder(up, Node(l, n, Fixed(t)));
      PlugInOrder(up, Node(l, n, Fixed(t)));
      PlugInOrder(up, Node(l, n, t));
  }

  /** t may stand where a tree of height h stood: it is balanced below its top, and one of the
      two subtrees on top has changed its height by at most one. */
  predicate Disturbed<T>(t: Tree<T>, h: nat) {
    && t.Node? && Balanced(t.l) && Balanced(t.r)
    && Near(Height(t), h)
    && (Near(Height(t.l), Height(t.r))
        || (Height(t) >= h && (Height(t.l) == Height(t.r) + 2 || Height(t.l) + 2 == Height(t.r))))
  }

  lemma {:induction false} FixedBalances<T>(t: Tree<T>, h: nat)
    requires Disturbed(t, h)
    ensures Balanced(Fixed(t)) && Near(Height(Fixed(t)), h)
  {
    if Height(t.l) == Height(t.r) + 2 {
      FixedLeftBalances(t);
    } else if Height(t.l) + 2 == Height(t.r) {
      FixedRightBalances(t);
    }
  }

  lemma {:induction false} FixedLeftBalances<T>(t: Tree<T>)
    requires t.Node? && Balanced(t.l) && Balanced(t.r) && Height(t.l) == Height(t.r) + 2
    ensures Balanced(FixedLeft(t)) && Height(t) - 1 <= Height(FixedLeft(t)) <= Height(t)
  {
    var l := t.l;
    if Height(l.l) < Height(l.r) {
      assert FixedLeft(t) == Node(Node(l.l, l.n, l.r.l), l.r.n, Node(l.r.r, t.n, t.r));
      assert Balanced(l.l) && Balanced(l.r) && Balanced(l.r.l) && Balanced(l.r.r);
      assert Balanced(Node(l.l, l.n, l.r.l)) && Balanced(Node(l.r.r, t.n, t.r));
    } else {
      assert FixedLeft(t) == Node(l.l, l.n, Node(l.r, t.n, t.r));
      assert Balanced(Node(l.r, t.n, t.r));
    }
  }

  lemma {:induction false} FixedRightBalances<T>(t: Tree<T>)
    requires t.Node? && Balanced(t.l) && Balanced(t.r) && Height(t.l) + 2 == Height(t.r)
    ensures Balanced(FixedRight(t)) && Height(t) - 1 <= Height(FixedRight(t)) <= Height(t)
  {
    var r := t.r;
    if Height(r.r) < Height(r.l) {
      assert FixedRight(t) == Node(Node(t.l, t.n, r.l.l), r.l.n, Node(r.l.r, r.n, r.r));
      assert Balanced(r.l) && Balanced(r.r) && Balanced(r.l.l) && Balanced(r.l.r);
      assert Balanced(Node(t.l, t.n, r.l.l)) && Balanced(Node(r.l.r, r.n, r.r));
    } else {
      assert FixedRight(t) == Node(Node(t.l, t.n, r.l), r.n, r.r);
      assert Balanced(Node(t.l, t.n, r.l));
    }
  }

  /** Only the ancestors of a disturbed position can be out of balance, and one climb of
      avl_fix puts all of them right. */
  lemma {:induction false} RebalancedBalances<T>(c: Path<T>, t: Tree<T>, h: nat)
    requires Disturbed(t, h) && BalancedPath(c, h)
    ensures Balanced(Rebalanced(c, t))
    decreases c
  {
    FixedBalances(t, h);
    match c
    case Top =>
    case LeftOf(up, n, r) => RebalancedBalances(up, Node(Fixed(t), n, r), 1 + Max(h, Height(r)));
    case RightOf(up, l, n) => RebalancedBalances(up, Node(l, n, Fixed(t)), 1 + Max(h, Height(l)));
  }

  /** A new leaf in an empty slot of a balanced tree, and the climb from there. */
  lemma {:induction false} InsertionShape<T>(c: Path<T>, x: T)
    requires Balanced(Plug(c, Leaf))
    ensures var t' := Rebalanced(c, Node(Leaf, x, Leaf));
      Balanced(t') && InOrder(t') == Before(c) + [x] + After(c)
  {
    var leaf := Node(Leaf, x, Leaf);
    PlugBalanced(c, Leaf);
    RebalancedBalances(c, leaf, 0);
    RebalancedKeepsOrder(c, leaf);
    PlugInOrder(c, leaf);
  }

  // ----- avl_fix as the source has it

  predicate OutOfBalance<T>(t: Tree<T>) {
    t.Node? && (Height(t.l) == Height(t.r) + 2 || Height(t.l) + 2 == Height(t.r))
  }

  /** What is left in the parent's child slot when a rotation is not stored there: the node
      that was on top before, which the rotation has pushed down. */
  function Kept<T>(t: Tree<T>): (k: Tree<T>)
    requires t.Node?
    ensures k.Node? && k.n == t.n
  {
    if Height(t.l) == Height(t.r) + 2 then FixedLeft(t).r
    else if Height(t.l) + 2 == Height(t.r) then FixedRight(t).l
    else t
  }

  /** The tree reachable from the root that the unrepaired avl_fix returns. */
  function Seen<T>(c: Path<T>, t: Tree<T>): Tree<T>
    requires t.Node?
    decreases c
  {
    match c
    case Top => Fixed(t)
    case LeftOf(up, n, r) => Seen(up, Node(Kept(t), n, r))
    case RightOf(up, l, n) => Seen(up, Node(l, n, Kept(t)))
  }

  /** Climbing from t, some node other than the root is the first to be out of balance. */
  predicate RotatesBelowRoot<T>(c: Path<T>, t: Tree<T>)
    decreases c
  {
    match c
    case Top => false
    case LeftOf(up, n, r) => OutOfBalance(t) || RotatesBelowRoot(up, Node(t, n, r))
    case RightOf(up, l, n) => OutOfBalance(t) || RotatesBelowRoot(up, Node(l, n, t))
  }

  lemma {:induction false} KeptIsSmaller<T>(t: Tree<T>)
    requires t.Node?
    ensures if OutOfBalance(t) then Size(Kept(t)) < Size(t) else Kept(t) == t
  {
    FixedKeepsOrder(t);
    InOrderIsNodes(t);
    InOrderIsNodes(Fixed(t));
  }

  lemma {:induction false} PlugSize<T>(c: Path<T>, t: Tree<T>)
    ensures Size(Plug(c, t)) == |Before(c)| + Size(t) + |After(c)|
  {
    PlugInOrder(c, t);
    InOrderIsNodes(t);
    InOrderIsNodes(Plug(c, t));
  }

  lemma {:induction false} SeenIsSmaller<T>(c: Path<T>, t: Tree<T>)
    requires t.Node?
    ensures Size(Seen(c, t)) <= Size(Plug(c, t))
    ensures RotatesBelowRoot(c, t) ==> Size(Seen(c, t)) < Size(Plug(c, t))
    decreases c
  {
    KeptIsSmaller(t);
    match c
    case Top =>
      RebalancedKeepsOrder(c, t);
      SameOrderSameNodes(Fixed(t), t);
    case LeftOf(up, n, r) =>
      SeenIsSmaller(up, Node(Kept(t), n, r));
      PlugSize(up, Node(Kept(t), n, r));
      PlugSize(up, Node(t, n, r));
    case RightOf(up, l, n) =>
      SeenIsSmaller(up, Node(l, n, Kept(t)));
      PlugSize(up, Node(l, n, Kept(t)));
      PlugSize(up, Node(l, n, t));
  }

  lemma {:induction false} SeenIsRebalanced<T>(c: Path<T>, t: Tree<T>)
    requires t.Node? && !RotatesBelowRoot(c, t)
    ensures Seen(c, t) == Rebalanced(c, t)
    decreases c
  {
    match c
    case Top =>
    case LeftOf(up, n, r) => SeenIsRebalanced(up, Node(t, n, r));
    case RightOf(up, l, n) => SeenIsRebalanced(up, Node(l, n, t));
  }

  /** The unrepaired avl_fix keeps the set's nodes exactly when no node below the root is the
      first to need a rotation. */
  lemma {:induction false} UnlinkedKeepsAllIff<T>(c: Path<T>, t: Tree<T>)
    requires t.Node?
    ensures InOrder(Seen(c, t)) == InOrder(Plug(c, t)) <==> !RotatesBelowRoot(c, t)
  {
    if RotatesBelowRoot(c, t) {
      SeenIsSmaller(c, t);
      InOrderIsNodes(Seen(c, t));
      InOrderIsNodes(Plug(c, t));
    } else {
      SeenIsRebalanced(c, t);
      RebalancedKeepsOrder(c, t);
    }
  }

  /** Inserting 10, 20, 30, 40 and 50 in order: the last insertion loses 40 and 50. */
  lemma UnlinkedLosesNodes()
    ensures var c := RightOf(RightOf(RightOf(Top, Node(Leaf, 10, Leaf), 20), Leaf, 30), Leaf, 40);
      var t := Node(Leaf, 50, Leaf);
      InOrder(Plug(c, t)) == [10, 20, 30, 40, 50] && InOrder(Seen(c, t)) == [10, 20, 30]
  {
    var c2 := RightOf(RightOf(Top, Node(Leaf, 10, Leaf), 20), Leaf, 30);
    var c := RightOf(c2, Leaf, 40);
    var t := Node(Leaf, 50, Leaf);
    var t2 := Node(Leaf, 40, t);
    var t3 := Node(Leaf, 30, t2);
    PlugInOrder(c, t);
    assert Before(c) == [10, 20, 30, 40] && After(c) == [];
    assert Kept(t) == t && Kept(t2) == t2;
    assert Height(t2) == 2 && Height(t3) == 3 && Kept(t3) == Node(Leaf, 30, Leaf);
    assert Seen(c, t) == Seen(c2, t2) == Seen(RightOf(Top, Node(Leaf, 10, Leaf), 20), t3)
        == Fixed(Node(Node(Leaf, 10, Leaf), 20, Node(Leaf, 30, Leaf)));
  }

  // ----- deletion

  /** One step from a hole to the hole of the parent. */
  function Outward<T>(c: Path<T>, t: Tree<T>): (r: (Path<T>, Tree<T>))
    requires !c.Top?
    ensures r.1.Node? && Plug(r.0, r.1) == Plug(c, t)
  {
    match c
    case LeftOf(up, n, r) => (up, Node(t, n, r))
    case RightOf(up, l, n) => (up, Node(l, n, t))
  }

  /** Replacing a subtree by one lower by one disturbs its parent by one. */
  lemma {:induction false} LoweringDisturbs<T>(c: Path<T>, s: Tree<T>, s': Tree<T>)
    requires !c.Top? && Balanced(Plug(c, s)) && Balanced(s') && Height(s) == Height(s') + 1
    ensures Balanced(Rebalanced(Outward(c, s').0, Outward(c, s').1))
  {
    var (up, p) := Outward(c, s);
    PlugBalanced(up, p);
    assert Disturbed(Outward(c, s').1, Height(p));
    RebalancedBalances(up, Outward(c, s').1, Height(p));
  }

  lemma {:induction false} UniqueSplit<T>(a: seq<T>, x: T, b: seq<T>, a': seq<T>, b': seq<T>)
    requires a + [x] + b == a' + [x] + b' && x !in a && x !in a'
    ensures a == a' && b == b'
  {
    var s := a + [x] + b;
    assert s[|a|] == x && s[|a'|] == x;
    assert forall i :: 0 <= i < |a| ==> s[i] == a[i];
    assert forall i :: 0 <= i < |a'| ==> s[i] == a'[i];
    assert |a| == |a'|;
    assert a == s[..|a|] == a';
    assert b == s[|a| + 1..] == b';
  }

  /** inner is the path to the leftmost node of s.r, seen from outside s. */
  predicate Successor<T(==)>(c: Path<T>, s: Tree<T>, cv: Path<T>, sv: Tree<T>)
    requires s.Node?
  {
    && sv.Node? && Plug(cv, sv) == Plug(c, s) && Height(sv) <= Height(s.r) && Balanced(sv)
    && Before(cv) == Before(c) + InOrder(s.l) + [s.n]
    && InOrder(sv) + After(cv) == InOrder(s.r) + After(c)
  }

  lemma {:induction false} SuccessorDescends<T>(c: Path<T>, s: Tree<T>, cv: Path<T>, sv: Tree<T>)
    requires s.Node? && Successor(c, s, cv, sv) && sv.l.Node?
    ensures Successor(c, s, LeftOf(cv, sv.n, sv.r), sv.l)
  {
    assert InOrder(sv.l) + ([sv.n] + InOrder(sv.r) + After(cv)) == InOrder(sv) + After(cv);
  }

  lemma {:induction false} PlugSplit<T>(c: Path<T>, s: Tree<T>)
    requires s.Node?
    ensures InOrder(Plug(c, s)) == (Before(c) + InOrder(s.l)) + [s.n] + (InOrder(s.r) + After(c))
  {
    PlugInOrder(c, s);
    Regroup(Before(c), InOrder(s.l), s.n, InOrder(s.r), After(c));
  }

  lemma {:induction false} SuccessorOrder<T>(c: Path<T>, s: Tree<T>, cv: Path<T>, sv: Tree<T>)
    requires s.Node? && Successor(c, s, cv, sv) && sv.l.Leaf?
    ensures InOrder(s.r) + After(c) == [sv.n] + (InOrder(sv.r) + After(cv))
  {
    assert InOrder(sv) == [sv.n] + InOrder(sv.r);
  }

  /** With x replaced by its successor v in the sequence that lost v, x is lost instead. */
  lemma {:induction false} SwapOrder<T>(a: seq<T>, x: T, v: T, rest: seq<T>, a1: seq<T>, rest1: seq<T>)
    requires NoRepeats(a + [x] + ([v] + rest)) && a1 + [x] + rest1 == a + [x] + rest
    ensures v !in Elements(a1 + [x] + rest1)
    ensures Elements(a1 + [x] + rest1) <= Elements(a + [x] + ([v] + rest))
    ensures a1 + [v] + rest1 == a + ([v] + rest)
  {
    assert a + [x] + ([v] + rest) == (a + [x]) + [v] + rest;
    DroppingKeepsDistinct(a + [x], v, rest);
    NoRepeatsAround(a, x, rest);
    NoRepeatsAround(a1, x, rest1);
    UniqueSplit(a, x, rest, a1, rest1);
  }

  lemma {:induction false} NodeRemains<T>(c: Path<T>, s: Tree<T>, cv: Path<T>, sv: Tree<T>, t: Tree<T>)
    requires s.Node? && Successor(c, s, cv, sv) && InOrder(t) == Before(cv) + InOrder(sv.r) + After(cv)
    ensures s.n in Nodes(t)
  {
    assert InOrder(t)[|Before(cv)| - 1] == s.n;
    InOrderIsNodes(t);
  }

  /** Deleting the successor v of s.n and then putting it in the place of s.n amounts to
      deleting s.n. */
  lemma {:induction false} SwapDeletes<T>(c: Path<T>, s: Tree<T>, cv: Path<T>, sv: Tree<T>, c1: Path<T>, s1: Tree<T>)
    requires s.Node? && Distinct(Plug(c, s)) && Successor(c, s, cv, sv) && sv.l.Leaf?
    requires InOrder(Plug(c1, s1)) == Before(cv) + InOrder(sv.r) + After(cv)
    requires s1.Node? && s1.n == s.n
    ensures sv.n !in Nodes(Plug(c1, s1)) && Nodes(Plug(c1, s1)) <= Nodes(Plug(c, s))
    ensures InOrder(Plug(c1, Node(s1.l, sv.n, s1.r))) == Before(c) + InOrder(s.l) + InOrder(s.r) + After(c)
  {
    hide Plug, Before, After, InOrder;
    var a, rest := Before(c) + InOrder(s.l), InOrder(sv.r) + After(cv);
    var a1, rest1 := Before(c1) + InOrder(s1.l), InOrder(s1.r) + After(c1);
    var u, v := Plug(c, s), Plug(c1, s1);
    SuccessorOrder(c, s, cv, sv);
    PlugSplit(c, s);
    PlugSplit(c1, s1);
    assert InOrder(v) == a + [s.n] + rest;
    InOrderIsNodes(u);
    InOrderIsNodes(v);
    DistinctInOrder(u);
    SwapOrder(a, s.n, sv.n, rest, a1, rest1);
    PlugSplit(c1, Node(s1.l, sv.n, s1.r));
    assert a + (InOrder(s.r) + After(c)) == a + InOrder(s.r) + After(c);
  }

  lemma {:induction false} DroppingKeepsDistinct<T>(a: seq<T>, x: T, b: seq<T>)
    requires NoRepeats(a + [x] + b)
    ensures NoRepeats(a + b) && x !in a + b
  {
    var s := a + [x] + b;
    assert forall i :: 0 <= i < |a| ==> (a + b)[i] == s[i];
    assert forall i :: |a| <= i < |a + b| ==> (a + b)[i] == s[i + 1];
    assert s[|a|] == x;
  }

  // ----- ranks

  /** The number of nodes in order before the one on top of s. */
  function Rank<T>(c: Path<T>, s: Tree<T>): nat
    requires s.Node?
  {
    |Before(c)| + Size(s.l)
  }

  lemma {:induction false} RankIsPosition<T>(c: Path<T>, s: Tree<T>)
    requires s.Node?
    ensures Rank(c, s) < |InOrder(Plug(c, s))| && InOrder(Plug(c, s))[Rank(c, s)] == s.n
    ensures |InOrder(Plug(c, s))| == Size(Plug(c, s)) == |Before(c)| + Size(s) + |After(c)|
  {
    PlugSplit(c, s);
    PlugSize(c, s);
    InOrderIsNodes(s.l);
    InOrderIsNodes(Plug(c, s));
  }

  /** Stepping to a child or to the parent moves the rank by the size of the subtree skipped. */
  lemma {:induction false} RankSteps<T>(c: Path<T>, s: Tree<T>)
    requires s.Node?
    ensures |Before(RightOf(c, s.l, s.n))| == |Before(c)| + Size(s.l) + 1 && |Before(LeftOf(c, s.n, s.r))| == |Before(c)|
    ensures s.r.Node? ==> Rank(RightOf(c, s.l, s.n), s.r) == Rank(c, s) + 1 + Size(s.r.l)
    ensures s.l.Node? ==> Rank(LeftOf(c, s.n, s.r), s.l) == Rank(c, s) - 1 - Size(s.l.r)
    ensures c.RightOf? ==> Rank(Outward(c, s).0, Outward(c, s).1) == Rank(c, s) - 1 - Size(s.l)
    ensures c.LeftOf? ==> Rank(Outward(c, s).0, Outward(c, s).1) == Rank(c, s) + 1 + Size(s.r)
  {
    InOrderIsNodes(s.l);
    if c.RightOf? {
      InOrderIsNodes(c.l);
    }
  }

  // ----- height against size

  function Fib(k: nat): nat { if k < 2 then k else Fib(k - 1) + Fib(k - 2) }

  lemma {:induction false} FibMonotone(a: nat, b: nat)
    requires a <= b
    ensures Fib(a) <= Fib(b)
    decreases b
  {
    if 2 <= b && a < b {
      FibMonotone(a, b - 1);
    }
  }

  /** A balanced tree of height h has at least Fib(h + 2) - 1 nodes. */
  lemma {:induction false} BalancedIsBig<T>(t: Tree<T>)
    requires Balanced(t)
    ensures Size(t) + 1 >= Fib(Height(t) + 2)
  {
    match t
    case Leaf =>
    case Node(l, _, r) =>
      BalancedIsBig(l);
      BalancedIsBig(r);
      // one subtree has height h - 1, the other at least h - 2
      FibMonotone(Height(t), Height(l) + 2);
      FibMonotone(Height(t), Height(r) + 2);
      assert Fib(Height(t) + 2) == Fib(Height(t) + 1) + Fib(Height(t));
  }

  lemma {:induction false} FibDoubles(k: nat)
    ensures Fib(2 * k + 1) >= Pow2(k) && Fib(2 * k + 2) >= Pow2(k)
  {
    if k != 0 {
      FibDoubles(k - 1);
      assert Fib(2 * k + 1) == Fib(2 * k) + Fib(2 * k - 1);
      assert Fib(2 * k + 2) == Fib(2 * k + 1) + Fib(2 * k);
    }
  }

  /** The height is logarithmic: 2^(h/2) is at most size + 1. */
  lemma {:induction false} BalancedIsShallow<T>(t: Tree<T>)
    requires Balanced(t)
    ensures Pow2(Height(t) / 2) <= Size(t) + 1
  {
    var k := Height(t) / 2;
    BalancedIsBig(t);
    FibDoubles(k);
    FibMonotone(2 * k + 2, Height(t) + 2);
  }

  /** k steps are logarithmic in n. */
  predicate Logarithmic(k: nat, n: nat) { Pow2(k / 2) <= n + 1 }

  /** Whatever takes no more steps than a balanced tree is high takes logarithmically many. */
  lemma HeightIsLogarithmic<T>(t: Tree<T>, k: nat)
    requires Balanced(t) && k <= Height(t)
    ensures Logarithmic(k, |InOrder(t)|)
  {
    BalancedIsShallow(t);
    Pow2Monotone(k / 2, Height(t) / 2);
    InOrderIsNodes(t);
  }

  lemma {:induction false} PathFitsHeight<T>(c: Path<T>, t: Tree<T>)
    ensures Depth(c) + Height(t) <= Height(Plug(c, t))
  {
    match c
    case Top =>
    case LeftOf(up, n, r) => PathFitsHeight(up, Node(t, n, r));
    case RightOf(up, l, n) => PathFitsHeight(up, Node(l, n, t));
  }
}
