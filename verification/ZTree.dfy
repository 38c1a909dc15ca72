/** The parts of zset.cpp that search and extend the tree by key. */
module ZTree {
  import opened Common
  import opened Bytes
  import opened TreeShapes
  import opened ZNodes
  import opened Keys
  import Avl

  type KeyMap = map<ZNode, Key>

  function KeyOf(n: ZNode): Key
    reads n`score
  {
    Key(n.score, n.name)
  }

  /** The keys of the nodes of S. */
  ghost function KeysIn(S: set<ZNode>): KeyMap
    reads S`score
  {
    map n | n in S :: KeyOf(n)
  }

  /** The keys of a sequence of nodes. */
  ghost function KeySeq(K: KeyMap, s: seq<ZNode>): seq<Key>
    requires forall n :: n in s ==> n in K
  {
    seq(|s|, i requires 0 <= i < |s| => K[s[i]])
  }

  /** In strictly ascending key order. */
  ghost predicate Ordered(K: KeyMap, s: seq<ZNode>) {
    (forall n :: n in s ==> n in K) && forall i, j :: 0 <= i < j < |s| ==> ZLess(K[s[i]], K[s[j]])
  }

  lemma {:induction false} KeySeqIsSorted(K: KeyMap, s: seq<ZNode>)
    requires Ordered(K, s)
    ensures Sorted(KeySeq(K, s))
    ensures forall n :: n in s ==> K[n] in KeySeq(K, s)
    ensures forall key :: key in KeySeq(K, s) ==> exists n :: n in s && K[n] == key
  {
    var keys := KeySeq(K, s);
    forall n | n in s
      ensures K[n] in keys
    {
      var i :| 0 <= i < |s| && s[i] == n;
      assert keys[i] == K[n];
    }
    forall key | key in keys
      ensures exists n :: n in s && K[n] == key
    {
      var i :| 0 <= i < |keys| && keys[i] == key;
      assert s[i] in s;
    }
  }

  ghost predicate AllBelow(K: KeyMap, s: seq<ZNode>, key: Key) {
    forall n :: n in s ==> n in K && ZLess(K[n], key)
  }

  ghost predicate NoneBelow(K: KeyMap, s: seq<ZNode>, key: Key) {
    forall n :: n in s ==> n in K && !ZLess(K[n], key)
  }

  ghost predicate AllAbove(K: KeyMap, s: seq<ZNode>, key: Key) {
    forall n :: n in s ==> n in K && ZLess(key, K[n])
  }

  ghost predicate NoneAbove(K: KeyMap, s: seq<ZNode>, key: Key) {
    forall n :: n in s ==> n in K && !ZLess(key, K[n])
  }

  /** What comparing a key with one node says about the nodes on either side of it. */
  lemma {:induction false} OrderedAround(K: KeyMap, a: seq<ZNode>, n: ZNode, b: seq<ZNode>, key: Key)
    requires Ordered(K, a + [n] + b)
    ensures n in K
    ensures ZLess(K[n], key) ==> AllBelow(K, a + [n], key)
    ensures !ZLess(K[n], key) ==> NoneBelow(K, [n] + b, key)
    ensures ZLess(key, K[n]) ==> AllAbove(K, [n] + b, key)
    ensures !ZLess(key, K[n]) ==> NoneAbove(K, a + [n], key)
  {
    var s := a + [n] + b;
    assert s[|a|] == n;
    forall m | m in a
      ensures m in K && ZLess(K[m], K[n])
      ensures ZLess(K[n], key) ==> ZLess(K[m], key)
      ensures !ZLess(key, K[n]) ==> !ZLess(key, K[m])
    {
      var i :| 0 <= i < |a| && a[i] == m;
      assert s[i] == m;
      ZLessIsTotalOrder(K[m], K[n], key);
      ZLessIsTotalOrder(key, K[m], K[n]);
    }
    forall m | m in b
      ensures m in K && ZLess(K[n], K[m])
      ensures !ZLess(K[n], key) ==> !ZLess(K[m], key)
      ensures ZLess(key, K[n]) ==> ZLess(key, K[m])
    {
      var i :| 0 <= i < |b| && b[i] == m;
      assert s[|a| + 1 + i] == m;
      ZLessIsTotalOrder(K[n], K[m], key);
      ZLessIsTotalOrder(key, K[n], K[m]);
    }
  }

  lemma {:induction false} Narrowed(K: KeyMap, t: Shape, c: Context, s: Shape, key: Key)
    requires s.Node? && Plug(c, s) == t && Ordered(K, InOrder(t))
    ensures s.n in K
    ensures ZLess(K[s.n], key) ==> AllBelow(K, Before(RightOf(c, s.l, s.n)), key)
    ensures !ZLess(K[s.n], key) ==> NoneBelow(K, After(LeftOf(c, s.n, s.r)), key)
    ensures ZLess(key, K[s.n]) ==> AllAbove(K, After(LeftOf(c, s.n, s.r)), key)
    ensures !ZLess(key, K[s.n]) ==> NoneAbove(K, Before(RightOf(c, s.l, s.n)), key)
  {
    PlugSplit(c, s);
    OrderedAround(K, Before(c) + InOrder(s.l), s.n, InOrder(s.r) + After(c), key);
    assert [s.n] + InOrder(s.r) + After(c) == [s.n] + (InOrder(s.r) + After(c));
  }

  lemma {:induction false} SplitAtHole(t: Shape, c: Context)
    requires Plug(c, Leaf) == t
    ensures |Before(c)| <= |InOrder(t)| && InOrder(t)[..|Before(c)|] == Before(c) && InOrder(t)[|Before(c)|..] == After(c)
  {
    PlugInOrder(c, Leaf);
    assert InOrder(t) == Before(c) + After(c);
  }

  function NodeAt(s: seq<ZNode>, i: int): ZNode? { if 0 <= i < |s| then s[i] else null }

  lemma {:induction false} BoundAtHole(K: KeyMap, t: Shape, c: Context, key: Key)
    requires Plug(c, Leaf) == t && Ordered(K, InOrder(t)) && AllBelow(K, Before(c), key) && NoneBelow(K, After(c), key)
    ensures LowerBound(KeySeq(K, InOrder(t)), key) == |Before(c)|
    ensures NodeAt(InOrder(t), |Before(c)|) == if After(c) == [] then null else After(c)[0]
  {
    var s, k := InOrder(t), |Before(c)|;
    SplitAtHole(t, c);
    assert forall i :: 0 <= i < k ==> s[i] == Before(c)[i];
    assert k < |s| ==> s[k] == After(c)[0];
    LowerBoundAt(KeySeq(K, s), key, k);
  }

  /** zset_query: the first node, in order, that is not below the probe, or null if there is none.
      In a balanced tree the search takes logarithmically many steps. */
  method Query(tree: ZNode?, key: Key, ghost t: Shape, ghost S: set<ZNode>) returns (found: ZNode?, ghost steps: nat)
    requires Sound(Snap(S), tree, t) && Ordered(KeysIn(S), InOrder(t))
    ensures found == NodeAt(InOrder(t), LowerBound(KeySeq(KeysIn(S), InOrder(t)), key))
    ensures steps <= Height(t) && (Balanced(t) ==> Logarithmic(steps, |InOrder(t)|))
  {
    found, steps := null, 0;
    var cur := tree;
    ghost var K := KeysIn(S);
    ghost var c, s := Top, t;
    while cur != null
      invariant Plug(c, s) == t && Kids(Snap(S), cur, s)
      invariant AllBelow(K, Before(c), key) && NoneBelow(K, After(c), key)
      invariant found == if After(c) == [] then null else After(c)[0]
      invariant steps + Height(s) <= Height(t)
      decreases s
    {
      Narrowed(K, t, c, s, key);
      if ZLess(KeyOf(cur), key) {
        c, s := RightOf(c, s.l, s.n), s.r;
        cur := cur.right;
      } else {
        found := cur;
        c, s := LeftOf(c, s.n, s.r), s.l;
        cur := cur.left;
      }
      steps := steps + 1;
    }
    BoundAtHole(K, t, c, key);
    if Balanced(t) {
      HeightIsLogarithmic(t, steps);
    }
  }

  /** The loop of tree_add: the empty child slot where the key belongs. left tells which slot of
      cur it is, unless cur is null and the slot is the root pointer. */
  method FindSlot(tree: ZNode?, key: Key, ghost t: Shape, ghost S: set<ZNode>)
    returns (cur: ZNode?, left: bool, ghost c: Context)
    requires Sound(Snap(S), tree, t) && Ordered(KeysIn(S), InOrder(t))
    ensures Plug(c, Leaf) == t && cur == Above(c) && (cur != null ==> (left <==> c.LeftOf?))
    ensures NoneAbove(KeysIn(S), Before(c), key) && AllAbove(KeysIn(S), After(c), key)
  {
    cur, left, c := null, false, Top;
    var from := tree;
    ghost var K := KeysIn(S);
    ghost var s := t;
    while from != null
      invariant Plug(c, s) == t && Kids(Snap(S), from, s)
      invariant NoneAbove(K, Before(c), key) && AllAbove(K, After(c), key)
      invariant cur == Above(c) && (cur != null ==> (left <==> c.LeftOf?))
      decreases s
    {
      Narrowed(K, t, c, s, key);
      cur := from;
      left := ZLess(key, KeyOf(cur));
      if left {
        c, s := LeftOf(c, s.n, s.r), s.l;
        from := cur.left;
      } else {
        c, s := RightOf(c, s.l, s.n), s.r;
        from := cur.right;
      }
    }
  }

  /** after is before with n put in at its place k. */
  ghost predicate PutIn(K: KeyMap, before: seq<ZNode>, n: ZNode, after: seq<ZNode>, k: nat) {
    k <= |before| && after == before[..k] + [n] + before[k..] && Ordered(K, after)
  }

  lemma {:induction false} PuttingIn(K: KeyMap, a: seq<ZNode>, n: ZNode, b: seq<ZNode>)
    requires Ordered(K, a + b) && n in K && NoneAbove(K, a, K[n]) && AllAbove(K, b, K[n])
    requires forall m :: m in a ==> K[m] != K[n]
    ensures Ordered(K, a + [n] + b)
  {
    var s := a + [n] + b;
    forall i, j | 0 <= i < j < |s|
      ensures s[i] in K && s[j] in K && ZLess(K[s[i]], K[s[j]])
    {
      ZLessIsTotalOrder(K[s[i]], K[s[j]], K[n]);
      if j < |a| {
        assert s[i] == (a + b)[i] && s[j] == (a + b)[j];
      } else if |a| < i {
        assert s[i] == (a + b)[i - 1] && s[j] == (a + b)[j - 1];
      } else if i < |a| < j {
        assert s[i] == (a + b)[i] && s[j] == (a + b)[j - 1];
      } else if j == |a| {
        assert s[i] in a;
      } else {
        assert s[j] in b;
      }
    }
  }

  /** A new leaf at an empty slot. */
  lemma {:induction false} Attached(L: Links, M: Links, c: Context, node: ZNode)
    requires Focused(L, c, Leaf) && node in M && node !in PathNodes(c)
    requires M[node].left == null && M[node].right == null && M[node].parent == Above(c)
    requires SlotSet(L, M, c, node)
    requires forall n :: n in L && n != node && n != Above(c) ==> n in M && M[n] == L[n]
    ensures Loose(M, c, Node(Leaf, node, Leaf))
  {
    Slotted(L, M, c, null, node, 0, 0);
    ExactAroundBeside(M, c, 0, 0);
  }

  /** The new leaf goes into its slot. */
  method Attach(node: ZNode, cur: ZNode?, left: bool, ghost c: Context, ghost S: set<ZNode>)
    requires Focused(Snap(S), c, Leaf) && cur == Above(c) && (cur != null ==> (left <==> c.LeftOf?))
    requires PathNodes(c) <= S && node in S && node !in PathNodes(c) && node.left == null && node.right == null
    modifies S`left, S`right, S`parent
    ensures Loose(Snap(S), c, Node(Leaf, node, Leaf))
  {
    ghost var L := Snap(S);
    if cur != null {
      if left {
        cur.left := node;
      } else {
        cur.right := node;
      }
    }
    node.parent := cur;
    Attached(L, Snap(S), c, node);
  }

  /** tree_add: the node ends up at its sorted place, whatever rotations that takes. */
  method Add(tree: ZNode?, node: ZNode, ghost t: Shape, ghost S: set<ZNode>)
    returns (root: ZNode, ghost t': Shape, ghost k: nat, ghost turns: nat)
    requires Sound(Snap(S), tree, t) && Balanced(t) && Ordered(KeysIn(S), InOrder(t)) && Nodes(t) <= S
    requires node in S && node !in Nodes(t) && node.left == null && node.right == null
    requires forall n :: n in Nodes(t) ==> KeysIn(S)[n] != KeysIn(S)[node]
    modifies S`left, S`right, S`parent, S`depth, S`count
    ensures Sound(Snap(S), root, t') && Balanced(t')
    ensures Ordered(KeysIn(S), InOrder(t')) && Nodes(t') == Nodes(t) + {node}
    ensures PutIn(KeysIn(S), InOrder(t), node, InOrder(t'), k)
    ensures 1 <= turns <= Height(t) + 1 && Logarithmic(turns - 1, |InOrder(t)|)
  {
    hide Loose, Sound, Balanced, Ordered, PutIn, Logarithmic;
    ghost var c;
    c, k, t' := Hang(tree, node, t, S);
    ghost var K := KeysIn(S);
    root, turns := Avl.Fix(node, c, Node(Leaf, node, Leaf), S);
    assert KeysIn(S) == K;
  }

  /** tree_add up to the call of avl_fix, and what that call will make of it. */
  method Hang(tree: ZNode?, node: ZNode, ghost t: Shape, ghost S: set<ZNode>)
    returns (ghost c: Context, ghost k: nat, ghost t': Shape)
    requires Sound(Snap(S), tree, t) && Balanced(t) && Ordered(KeysIn(S), InOrder(t)) && Nodes(t) <= S
    requires node in S && node !in Nodes(t) && node.left == null && node.right == null
    requires forall n :: n in Nodes(t) ==> KeysIn(S)[n] != KeysIn(S)[node]
    modifies S`left, S`right, S`parent
    ensures Loose(Snap(S), c, Node(Leaf, node, Leaf)) && PathNodes(c) <= S
    ensures t' == Rebalanced(c, Node(Leaf, node, Leaf)) && Balanced(t')
    ensures Nodes(t') == Nodes(t) + {node} && PutIn(KeysIn(S), InOrder(t), node, InOrder(t'), k)
    ensures Ordered(KeysIn(S), InOrder(t'))
    ensures Depth(c) <= Height(t) && Logarithmic(Depth(c), |InOrder(t)|)
  {
    hide Rebalanced, NoneAbove, AllAbove, InOrder, Before, After, Balanced, Plug, Focused, Loose, Ordered, Sound, Kids, Logarithmic;
    var cur, left;
    cur, left, c := FindSlot(tree, KeyOf(node), t, S);
    AtSlot(Snap(S), tree, t, c);
    ghost var K := KeysIn(S);
    k := AddedPlace(K, t, c, node);
    t' := Rebalanced(c, Node(Leaf, node, Leaf));
    PathFitsHeight(c, Leaf);
    HeightIsLogarithmic(t, Depth(c));
    Attach(node, cur, left, c, S);
    assert KeysIn(S) == K;
  }

  lemma {:induction false} AtSlot(L: Links, tree: ZNode?, t: Shape, c: Context)
    requires Sound(L, tree, t) && Plug(c, Leaf) == t
    ensures Focused(L, c, Leaf) && PathNodes(c) == Nodes(t)
  {
    KidsTop(L, tree, t);
    Focus(L, c, Leaf);
    PlugNodes(c, Leaf);
  }

  lemma {:induction false} AddedPlace(K: KeyMap, t: Shape, c: Context, node: ZNode) returns (k: nat)
    requires Plug(c, Leaf) == t && Balanced(t) && Ordered(K, InOrder(t)) && node in K
    requires NoneAbove(K, Before(c), K[node]) && AllAbove(K, After(c), K[node])
    requires forall n :: n in Nodes(t) && n in K ==> K[n] != K[node]
    ensures var t' := Rebalanced(c, Node(Leaf, node, Leaf));
      Balanced(t') && PutIn(K, InOrder(t), node, InOrder(t'), k) && Nodes(t') == Nodes(t) + {node}
  {
    hide Rebalanced, Plug, Balanced, Before, After;
    k := |Before(c)|;
    InsertionShape(c, node);
    SplitAtHole(t, c);
    assert Before(c) + After(c) == InOrder(t);
    InOrderIsNodes(t);
    assert forall m :: m in Before(c) ==> m in InOrder(t);
    PuttingIn(K, Before(c), node, After(c));
    InOrderIsNodes(Rebalanced(c, Node(Leaf, node, Leaf)));
  }

  /** The position of the node with rank r. */
  lemma {:induction false} AtRank(t: Shape, r: nat) returns (c: Context, s: Shape)
    requires Distinct(t) && r < |InOrder(t)|
    ensures Plug(c, s) == t && s.Node? && s.n == InOrder(t)[r] && Rank(c, s) == r
  {
    InOrderIsNodes(t);
    assert InOrder(t)[r] in Nodes(t);
    c, s := Locate(t, InOrder(t)[r]);
    RankIsPosition(c, s);
    DistinctInOrder(t);
  }

  /** znode_offset, from the node of rank r. */
  method ZOffset(node: ZNode?, offset: int, ghost r: nat, ghost t: Shape, ghost S: set<ZNode>) returns (found: ZNode?)
    requires Sound(Snap(S), TopOf(t), t)
    requires node != null ==> r < |InOrder(t)| && InOrder(t)[r] == node
    ensures found == if node != null then NodeAt(InOrder(t), r + offset) else null
  {
    if node == null {
      return null;
    }
    ghost var c, s := AtRank(t, r);
    Focus(Snap(S), c, s);
    found := Avl.Offset(node, offset, c, s, S);
  }

  /** int64 to uint32, as the cast of the limit. */
  function ToUint32(x: int): nat { x % 0x1_0000_0000 }

  /** At most n nodes of all from position start on, and none if there is no such position. */
  function Window<A>(all: seq<A>, start: int, n: nat): seq<A> {
    if 0 <= start < |all| then all[start..if start + n < |all| then start + n else |all|] else []
  }

  /** The loop of do_query, from the node at position start, if there is one. */
  method Emit(first: ZNode?, limit: nat, ghost start: int, ghost t: Shape, ghost S: set<ZNode>) returns (out: seq<Key>)
    requires Sound(Snap(S), TopOf(t), t) && Ordered(KeysIn(S), InOrder(t))
    requires first == if 0 <= start < |InOrder(t)| then InOrder(t)[start] else null
    ensures out == Window(KeySeq(KeysIn(S), InOrder(t)), start, limit)
  {
    hide Sound, InOrder, ZLess, Kids;
    ghost var all, keys := InOrder(t), KeySeq(KeysIn(S), InOrder(t));
    var node := first;
    out := [];
    var n := 0;
    while node != null && n < limit
      invariant n <= limit && (first != null ==> start + n <= |all|)
      invariant first == null ==> node == null
      invariant first != null ==> node == if start + n < |all| then all[start + n] else null
      invariant |out| == n && (first == null ==> n == 0)
      invariant forall i :: 0 <= i < n ==> out[i] == keys[start + i]
      decreases limit - n
    {
      out := out + [KeyOf(node)];
      node := ZOffset(node, 1, start + n, t, S);
      n := n + 1;
    }
  }

  /** The part of a sorted listing that starts offset places after the first key not below the
      probe; nothing if there is no such key. */
  function RangeOf(keys: seq<Key>, probe: Key, offset: int, limit: int): seq<Key> {
    var k := LowerBound(keys, probe);
    if k < |keys| then Window(keys, k + offset, ToUint32(limit)) else []
  }

  /** Which elements these are: as many as the limit, in 32 bits, and the listing allow, one after
      the other. */
  lemma {:induction false} RangeIs(keys: seq<Key>, probe: Key, offset: int, limit: int)
    ensures var out, k, n := RangeOf(keys, probe, offset, limit), LowerBound(keys, probe), limit % 0x1_0000_0000;
      var start := k + offset;
      if k < |keys| && 0 <= start < |keys| then
        && |out| == (if n < |keys| - start then n else |keys| - start)
        && forall i :: 0 <= i < |out| ==> out[i] == keys[start + i]
      else out == []
  {
  }

  /** The range, from the position where the loop of do_query starts. */
  lemma {:induction false} RangeOfNode(s: seq<ZNode>, K: KeyMap, probe: Key, offset: int, limit: int)
    requires forall n :: n in s ==> n in K
    ensures var keys, k := KeySeq(K, s), LowerBound(KeySeq(K, s), probe);
      RangeOf(keys, probe, offset, limit) == Window(keys, if k < |s| then k + offset else -1, ToUint32(limit))
    ensures |KeySeq(K, s)| == |s|
  {
  }

  /** The body of do_query. */
  method RangeQuery(tree: ZNode?, key: Key, offset: int, limit: int, ghost t: Shape, ghost S: set<ZNode>) returns (out: seq<Key>)
    requires Sound(Snap(S), tree, t) && Ordered(KeysIn(S), InOrder(t))
    ensures out == RangeOf(KeySeq(KeysIn(S), InOrder(t)), key, offset, limit)
    ensures var all, k, n := KeySeq(KeysIn(S), InOrder(t)), LowerBound(KeySeq(KeysIn(S), InOrder(t)), key), limit % 0x1_0000_0000;
      var start := k + offset;
      if k < |all| && 0 <= start < |all| then
        && |out| == (if n < |all| - start then n else |all| - start)
        && forall i :: 0 <= i < |out| ==> out[i] == all[start + i]
      else out == []
  {
    hide Window, RangeOf, LowerBound, KeySeq;
    RangeIs(KeySeq(KeysIn(S), InOrder(t)), key, offset, limit);
    RangeOfNode(InOrder(t), KeysIn(S), key, offset, limit);
    ghost var steps;
    KidsTop(Snap(S), tree, t);
    var node;
    node, steps := Query(tree, key, t, S);
    ghost var k := LowerBound(KeySeq(KeysIn(S), InOrder(t)), key);
    ghost var start := if node == null then -1 else k + offset;
    node := ZOffset(node, offset, k, t, S);
    out := Emit(node, ToUint32(limit), start, t, S);
  }

  /** Taking one node out of an ordered sequence. */
  lemma {:induction false} TakenOut(K: KeyMap, a: seq<ZNode>, n: ZNode, b: seq<ZNode>)
    requires Ordered(K, a + [n] + b) && NoRepeats(a + [n] + b)
    ensures Ordered(K, a + b) && NoRepeats(a + b) && Elements(a + b) == Elements(a + [n] + b) - {n}
  {
    var s, r := a + [n] + b, a + b;
    forall i, j | 0 <= i < j < |r|
      ensures r[i] in K && r[j] in K && ZLess(K[r[i]], K[r[j]])
    {
      var i', j' := if i < |a| then i else i + 1, if j < |a| then j else j + 1;
      assert s[i'] == r[i] && s[j'] == r[j];
    }
    DroppingKeepsDistinct(a, n, b);
    assert Elements(s) == Elements(a) + {n} + Elements(b);
    assert Elements(r) == Elements(a) + Elements(b);
  }

  /** Only the nodes of the sequence matter. */
  lemma OrderedElsewhere(K: KeyMap, K': KeyMap, s: seq<ZNode>)
    requires Ordered(K, s) && forall n :: n in s ==> n in K' && K'[n] == K[n]
    ensures Ordered(K', s)
  {
  }

  lemma {:induction false} SoundElsewhere(L: Links, M: Links, root: ZNode?, t: Shape)
    requires Sound(L, root, t) && forall n :: n in Nodes(t) && n in L ==> n in M && M[n] == L[n]
    ensures Sound(M, root, t)
  {
    SameTree(L, M, root, t, null);
  }

  /** avl_del on a member of an ordered tree. */
  method Remove(tree: ZNode?, z: ZNode, ghost t: Shape, ghost S: set<ZNode>)
    returns (root: ZNode?, ghost t': Shape, ghost turns: nat)
    requires Sound(Snap(S), tree, t) && Balanced(t) && Ordered(KeysIn(S), InOrder(t)) && Nodes(t) <= S && z in Nodes(t)
    modifies S`left, S`right, S`parent, S`depth, S`count
    ensures Sound(Snap(S), root, t') && Balanced(t') && Ordered(KeysIn(S), InOrder(t'))
    ensures Nodes(t') == Nodes(t) - {z}
    ensures turns <= Height(t) && Logarithmic(turns, |InOrder(t)|)
  {
    ghost var c, s := Locate(t, z);
    KidsTop(Snap(S), tree, t);
    Focus(Snap(S), c, s);
    PlugNodes(c, s);
    ghost var calls;
    RemovedNodes(KeysIn(S), t, c, s);
    root, t', calls, turns := Avl.Del(z, c, s, S);
    HeightIsLogarithmic(t, turns);
    InOrderIsNodes(t');
  }

  lemma {:induction false} RemovedNodes(K: KeyMap, t: Shape, c: Context, s: Shape)
    requires s.Node? && Plug(c, s) == t && Ordered(K, InOrder(t)) && Distinct(t)
    ensures var rest := Before(c) + InOrder(s.l) + InOrder(s.r) + After(c);
      Ordered(K, rest) && Elements(rest) == Nodes(t) - {s.n}
  {
    PlugSplit(c, s);
    DistinctInOrder(t);
    InOrderIsNodes(t);
    TakenOut(K, Before(c) + InOrder(s.l), s.n, InOrder(s.r) + After(c));
    assert Before(c) + InOrder(s.l) + InOrder(s.r) + After(c) == (Before(c) + InOrder(s.l)) + (InOrder(s.r) + After(c));
  }
}
