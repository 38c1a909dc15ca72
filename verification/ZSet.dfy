/** zset.cpp: a sorted set, kept twice: as a balanced tree by key and as a hash map by name. */
module ZSets {
  import opened Bytes
  import opened TreeShapes
  import opened ZNodes
  import opened Keys
  import opened HashTab
  import opened HashMap
  import ZTree

  /** all is the sorted listing of the entries of m. */
  ghost predicate Lists(all: seq<Key>, m: map<ByteString, real>) {
    Sorted(all) && forall key :: key in all <==> key.name in m && m[key.name] == key.score
  }

  class ZSet {
    var tree: ZNode?
    const hmap: HMap<ZNode>
    const hash: ByteString -> nat // str_hash: any function will do

    ghost var shape: Shape
    ghost var members: set<ZNode>
    ghost var hnodeOf: map<ZNode, HNode<ZNode>> // the hnode embedded in each member

    /** The tree is sound and balanced, ordered by key, and holds the members. */
    ghost predicate TreeOk()
      reads this`tree, this`shape, this`members, members
    {
      && Sound(Snap(members), tree, shape) && Nodes(shape) == members && Balanced(shape)
      && ZTree.Ordered(ZTree.KeysIn(members), InOrder(shape))
    }

    /** The hash map holds the embedded hnodes of the members, under their names' hash codes. */
    ghost predicate IndexOk()
      reads this`members, this`hnodeOf, hmap, hmap.ht1, hmap.ht2, hmap.ht1.tab, hmap.ht2.tab,
            hmap.ht1.nodes`next, hmap.ht2.nodes`next
    {
      && hmap.Valid() && hnodeOf.Keys == members
      && (forall z :: z in members ==> hnodeOf[z] in hmap.nodes && hnodeOf[z].item == z)
      && (forall h :: h in hmap.nodes ==> h.item in members && hnodeOf[h.item] == h && h.hcode == hash(h.item.name))
    }

    /** No name occurs twice. */
    ghost predicate Unique()
      reads this`members
    {
      forall y, z :: y in members && z in members && y.name == z.name ==> y == z
    }

    ghost predicate Valid()
      reads this, members, hmap, hmap.ht1, hmap.ht2, hmap.ht1.tab, hmap.ht2.tab,
            hmap.ht1.nodes`next, hmap.ht2.nodes`next
    {
      TreeOk() && IndexOk() && Unique() && Apart()
    }

    /** The hash map's own objects are not the set's. */
    ghost predicate Apart()
      reads this`members, hmap`Repr
    {
      this !in hmap.Repr && forall z :: z in members ==> z !in hmap.Repr
    }

    /** What the set means: a score for each name. */
    ghost function Scores(): map<ByteString, real>
      requires Unique()
      reads this`members, members
    {
      map z | z in members :: z.name := z.score
    }

    constructor (hash: ByteString -> nat)
      ensures Valid() && Scores() == map[] && this.hash == hash && fresh(hmap.Repr)
    {
      tree, shape, members, hnodeOf := null, Leaf, {}, map[];
      this.hash := hash;
      hmap := new HMap<ZNode>();
    }

    /** What makes it right to look nothing up in an empty tree. */
    lemma EmptyTree()
      requires TreeOk()
      ensures tree == null <==> members == {}
    {
      KidsTop(Snap(members), tree, shape);
    }

    /** zset_lookup. */
    method Lookup(name: ByteString) returns (z: ZNode?)
      requires Valid()
      modifies hmap.Repr
      ensures Valid() && fresh(hmap.Repr - old(hmap.Repr))
      ensures z == null ==> (forall m :: m in members ==> m.name != name) && name !in Scores()
      ensures z != null ==> z in members && z.name == name && name in Scores() && z.score == Scores()[name]
      ensures members == old(members) && Scores() == old(Scores())
    {
      hide HashMap.HMap.Valid, TreeOk;
      EmptyTree();
      if tree == null {
        return null;
      }
      var found := hmap.Lookup(hash(name), (m: ZNode) => m.name == name);
      if found == null {
        z := null;
        assert forall m :: m in members ==> !Matches(hnodeOf[m], hash(name), (m: ZNode) => m.name == name);
      } else {
        z := found.item;
      }
    }

    /** zset->tree = avl_del(&z->tnode). */
    method Detach(z: ZNode)
      requires TreeOk() && z in members
      modifies this`tree, this`shape, members`left, members`right, members`parent, members`depth, members`count
      ensures TreeBut(z)
    {
      ghost var t, turns;
      var root;
      root, t, turns := ZTree.Remove(tree, z, shape, members);
      ghost var L, K := Snap(members), ZTree.KeysIn(members);
      tree, shape := root, t;
      assert Snap(members) == L && ZTree.KeysIn(members) == K;
    }

    /** The members other than z are in a sound, balanced and ordered tree. */
    ghost predicate TreeBut(z: ZNode)
      reads this`tree, this`shape, this`members, members
    {
      && Sound(Snap(members), tree, shape) && Balanced(shape) && Nodes(shape) == members - {z}
      && ZTree.Ordered(ZTree.KeysIn(members), InOrder(shape))
    }

    /** The new score, and avl_init. */
    method Rescore(z: ZNode, score: real)
      requires TreeBut(z) && z in members
      modifies z
      ensures TreeBut(z) && z.score == score && z.left == null && z.right == null
    {
      ghost var L, K := Snap(members), ZTree.KeysIn(members);
      z.score := score;
      z.Init();
      InOrderIsNodes(shape);
      SoundStays(L, Snap(members), tree, shape, z);
      ZTree.OrderedElsewhere(K, ZTree.KeysIn(members), InOrder(shape));
    }

    /** tree_add. */
    method TreeAdd(z: ZNode)
      requires TreeBut(z) && z in members && Unique() && z.left == null && z.right == null
      modifies this`tree, this`shape, members`left, members`right, members`parent, members`depth, members`count
      ensures TreeOk()
    {
      hide ZTree.Ordered, Sound, Balanced, InOrder, Nodes, ZTree.PutIn;
      ghost var k, t, turns;
      var root;
      root, t, k, turns := ZTree.Add(tree, z, shape, members);
      ghost var L, K := Snap(members), ZTree.KeysIn(members);
      tree, shape := root, t;
      assert Snap(members) == L && ZTree.KeysIn(members) == K;
    }

    /** zset_update. */
    method Update(z: ZNode, score: real)
      requires TreeOk() && Unique() && z in members
      modifies this`tree, this`shape, members
      ensures TreeOk() && Unique() && z.score == score
      ensures forall y :: y in members && y != z ==> y.score == old(y.score)
    {
      hide TreeBut, TreeOk;
      if z.score == score {
        return;
      }
      Detach(z);
      Rescore(z, score);
      TreeAdd(z);
    }

    /** h, the hnode of z, is in the map besides those of the members. */
    ghost predicate IndexPlus(z: ZNode, h: HNode<ZNode>)
      reads this`members, this`hnodeOf, hmap, hmap.ht1, hmap.ht2, hmap.ht1.tab, hmap.ht2.tab,
            hmap.ht1.nodes`next, hmap.ht2.nodes`next
    {
      && hmap.Valid() && hnodeOf.Keys == members && h in hmap.nodes && h.item == z && h.hcode == hash(z.name)
      && (forall m :: m in members ==> hnodeOf[m] in hmap.nodes && hnodeOf[m].item == m)
      && (forall g :: g in hmap.nodes && g != h ==>
            g.item in members && hnodeOf[g.item] == g && g.hcode == hash(g.item.name))
    }

    /** hm_insert of a new node's hnode. */
    method Index(z: ZNode) returns (h: HNode<ZNode>)
      requires IndexOk() && Apart()
      modifies hmap.Repr
      ensures IndexPlus(z, h) && Apart() && fresh(hmap.Repr - old(hmap.Repr))
    {
      h := new HNode(hash(z.name), z);
      hmap.Insert(h);
    }

    /** z, whose hnode h is already in the map, becomes a member. */
    ghost method Admit(z: ZNode, h: HNode<ZNode>)
      requires TreeOk() && Unique() && z !in members && (forall m :: m in members ==> m.name != z.name)
      requires IndexPlus(z, h)
      modifies this`members, this`hnodeOf
      ensures TreeBut(z) && IndexOk() && Unique() && members == old(members) + {z}
    {
      hide HashMap.HMap.Valid, TreeBut, ZNodes.Sound, TreeShapes.Balanced, ZTree.Ordered, TreeShapes.Nodes, Snap, ZTree.KeysIn;
      ghost var S := members;
      members, hnodeOf := members + {z}, hnodeOf[z := h];
      TreeButNew(S, z);
    }

    /** The members grow by a node that is not in the tree yet. */
    lemma {:induction false} TreeButNew(S: set<ZNode>, z: ZNode)
      requires Sound(Snap(S), tree, shape) && Balanced(shape) && Nodes(shape) == S && z !in S
      requires ZTree.Ordered(ZTree.KeysIn(S), InOrder(shape)) && members == S + {z}
      ensures TreeBut(z)
    {
      InOrderIsNodes(shape);
      ZTree.SoundElsewhere(Snap(S), Snap(members), tree, shape);
      ZTree.OrderedElsewhere(ZTree.KeysIn(S), ZTree.KeysIn(members), InOrder(shape));
    }

    /** The second branch of zset_add. */
    method AddNew(name: ByteString, score: real) returns (ghost node: ZNode)
      requires Valid() && forall m :: m in members ==> m.name != name
      modifies this, members, hmap.Repr
      ensures Valid() && fresh(node) && fresh(hmap.Repr - old(hmap.Repr))
      ensures node.name == name && node.score == score && members == old(members) + {node}
      ensures forall m :: m in old(members) ==> m.score == old(m.score)
    {
      hide HashMap.HMap.Valid, TreeOk, TreeBut, IndexOk, IndexPlus;
      var z := new ZNode(name, score);
      var h := Index(z);
      Admit(z, h);
      TreeAdd(z);
      node := z;
    }

    /** zset_add. */
    method Add(name: ByteString, score: real) returns (added: bool)
      requires Valid()
      modifies this, members, hmap.Repr
      ensures Valid() && fresh(members - old(members)) && fresh(hmap.Repr - old(hmap.Repr))
      ensures Scores() == old(Scores())[name := score]
      ensures added <==> name !in old(Scores())
    {
      hide HashMap.HMap.Valid, TreeOk, IndexOk;
      var node := Lookup(name);
      if node != null {
        Update(node, score);
        added := false;
      } else {
        ghost var z := AddNew(name, score);
        added := true;
      }
    }

    /** hm_delete of a member's hnode, looked up by hash code and name. */
    method Unindex(z: ZNode)
      requires IndexOk() && Unique() && Apart() && z in members
      modifies hmap.Repr
      ensures IndexMinus(z) && Apart() && fresh(hmap.Repr - old(hmap.Repr))
    {
      hide HashMap.HMap.Valid;
      var eq := (m: ZNode) => m.name == z.name;
      ghost var g := hnodeOf[z];
      assert Matches(g, hash(z.name), eq);
      var found := hmap.Delete(hash(z.name), eq);
      assert found == g;
    }

    /** The hash map holds the hnodes of all members but z. */
    ghost predicate IndexMinus(z: ZNode)
      reads this`members, this`hnodeOf, hmap, hmap.ht1, hmap.ht2, hmap.ht1.tab, hmap.ht2.tab,
            hmap.ht1.nodes`next, hmap.ht2.nodes`next
    {
      && hmap.Valid() && hnodeOf.Keys == members
      && (forall m :: m in members && m != z ==> hnodeOf[m] in hmap.nodes && hnodeOf[m].item == m)
      && (forall g :: g in hmap.nodes ==>
            g.item in members && g.item != z && hnodeOf[g.item] == g && g.hcode == hash(g.item.name))
    }

    /** z, which is in neither the tree nor the map any more, ceases to be a member. */
    ghost method Expel(z: ZNode)
      requires TreeBut(z) && IndexMinus(z) && Unique() && z in members
      modifies this`members, this`hnodeOf
      ensures TreeOk() && IndexOk() && Unique() && members == old(members) - {z}
    {
      hide HashMap.HMap.Valid, TreeOk, ZNodes.Sound, TreeShapes.Balanced, ZTree.Ordered, TreeShapes.Nodes, Snap, ZTree.KeysIn;
      ghost var S := members;
      members, hnodeOf := members - {z}, map m | m in members && m != z :: hnodeOf[m];
      TreeOkWithout(S, z);
    }

    /** The members lose a node that is not in the tree. */
    lemma {:induction false} TreeOkWithout(S: set<ZNode>, z: ZNode)
      requires Sound(Snap(S), tree, shape) && Balanced(shape) && Nodes(shape) == S - {z} && members == S - {z}
      requires ZTree.Ordered(ZTree.KeysIn(S), InOrder(shape))
      ensures TreeOk()
    {
      InOrderIsNodes(shape);
      ZTree.SoundElsewhere(Snap(S), Snap(members), tree, shape);
      ZTree.OrderedElsewhere(ZTree.KeysIn(S), ZTree.KeysIn(members), InOrder(shape));
    }

    /** zset_pop, with one repair: the hash map is searched for a node with this name. The source
        hands hm_delete a node of one kind and has it compared as one of another kind. */
    method Pop(name: ByteString) returns (z: ZNode?)
      requires Valid()
      modifies this, members, hmap.Repr
      ensures Valid() && members <= old(members) && fresh(hmap.Repr - old(hmap.Repr))
      ensures z == null <==> name !in old(Scores())
      ensures Scores() == old(Scores()) - {name}
      ensures z != null ==> z.score == old(Scores())[name]
    {
      hide HashMap.HMap.Valid, TreeOk, TreeBut, IndexOk, IndexMinus;
      z := Lookup(name);
      if z != null {
        Detach(z);
        Unindex(z);
        Expel(z);
      }
    }

    /** The members' keys in tree order are the scores in sorted order. */
    lemma KeysAreScores()
      requires TreeOk() && Unique()
      ensures Lists(ZTree.KeySeq(ZTree.KeysIn(members), InOrder(shape)), Scores())
    {
      hide ZNodes.Sound, TreeShapes.Balanced, ZTree.Ordered, ZTree.KeySeq;
      InOrderIsNodes(shape);
      ZTree.KeySeqIsSorted(ZTree.KeysIn(members), InOrder(shape));
      assert forall n :: n in InOrder(shape) <==> n in members;
    }

    /** do_query on a sorted set: a range of the one sorted listing of its entries. */
    method RangeQuery(probe: Key, offset: int, limit: int) returns (out: seq<Key>)
      requires Valid()
      ensures exists all :: Lists(all, Scores())
      ensures forall all :: Lists(all, Scores()) ==> out == ZTree.RangeOf(all, probe, offset, limit)
      ensures forall all :: Lists(all, Scores()) ==>
        var k, n := LowerBound(all, probe), limit % 0x1_0000_0000;
        var start := k + offset;
        if k < |all| && 0 <= start < |all| then
          && |out| == (if n < |all| - start then n else |all| - start)
          && forall i :: 0 <= i < |out| ==> out[i] == all[start + i]
        else out == []
    {
      hide HashMap.HMap.Valid, IndexOk, ZNodes.Sound, TreeShapes.Balanced, Scores, ZTree.RangeOf;
      ghost var mine := ZTree.KeySeq(ZTree.KeysIn(members), InOrder(shape));
      KeysAreScores();
      out := ZTree.RangeQuery(tree, probe, offset, limit, shape, members);
      ZTree.RangeIs(mine, probe, offset, limit);
      forall all | Lists(all, Scores())
        ensures all == mine
      {
        SortedIsUnique(all, mine);
      }
      assert Lists(mine, Scores());
    }
  }

  lemma {:induction false} SoundStays(L: Links, M: Links, root: ZNode?, t: Shape, z: ZNode)
    requires Sound(L, root, t) && z !in Nodes(t)
    requires forall n :: n in L && n != z ==> n in M && M[n] == L[n]
    ensures Sound(M, root, t)
  {
    SameTree(L, M, root, t, null);
  }
}
