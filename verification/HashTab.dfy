/** hashtable.cpp, one table: buckets of singly linked chains through the nodes. */
module HashTab {
  import opened Common

  /** An HNode and, as container_of would find it, the object it is embedded in. */
  class HNode<T> {
    var next: HNode?<T>
    const hcode: nat
    const item: T

    constructor (hcode: nat, item: T)
      ensures this.hcode == hcode && this.item == item && next == null
    {
      this.hcode, this.item, this.next := hcode, item, null;
    }
  }

  /** hcode & mask, for a table of n buckets where n is a power of two. */
  function Bucket(hcode: nat, n: nat): (b: nat)
    requires 0 < n
    ensures b < n
  {
    hcode % n
  }

  predicate PowerOfTwo(n: nat) { n == 1 || (n % 2 == 0 && n > 0 && PowerOfTwo(n / 2)) }

  /** The bitwise and of two unsigned numbers. */
  function BitAnd(a: nat, b: nat): nat {
    if a == 0 || b == 0 then 0
    else (if a % 2 == 1 && b % 2 == 1 then 1 else 0) + 2 * BitAnd(a / 2, b / 2)
  }

  /** A remainder by a power of two is the bitwise and with its predecessor. */
  lemma {:induction false} BucketIsMasked(hcode: nat, n: nat)
    requires PowerOfTwo(n)
    ensures Bucket(hcode, n) == BitAnd(hcode, n - 1)
  {
    hide Bucket, BitAnd;
    if n == 1 {
      ByOne(hcode);
    } else {
      var m := n / 2;
      assert n == 2 * m && n - 1 == 2 * (m - 1) + 1;
      BucketIsMasked(hcode / 2, m);
      HalfRemainder(hcode, m);
      AndOdd(hcode, m - 1);
    }
  }

  lemma {:induction false} AndItself(a: nat)
    ensures BitAnd(a, a) == a
  {
    if a > 0 {
      AndItself(a / 2);
    }
  }

  /** The test that hinit makes of a size. */
  lemma {:induction false} PowerOfTwoIs(n: nat)
    requires n > 0
    ensures PowerOfTwo(n) <==> BitAnd(n, n - 1) == 0
  {
    if n % 2 == 0 {
      PowerOfTwoIs(n / 2);
      assert (n - 1) / 2 == n / 2 - 1;
    } else if n > 1 {
      AndItself(n / 2);
      assert (n - 1) / 2 == n / 2;
    }
  }

  lemma {:induction false} ByOne(h: nat)
    ensures Bucket(h, 1) == BitAnd(h, 0) == 0
  {
  }

  lemma {:induction false} AndOdd(a: nat, b: nat)
    ensures BitAnd(a, 2 * b + 1) == a % 2 + 2 * BitAnd(a / 2, b)
  {
    assert (2 * b + 1) / 2 == b && (2 * b + 1) % 2 == 1;
  }

  lemma {:induction false} HalfRemainder(h: nat, m: nat)
    requires m > 0
    ensures Bucket(h, 2 * m) == h % 2 + 2 * Bucket(h / 2, m)
  {
    var q, r := h / 2 / m, h / 2 % m;
    assert h / 2 == q * m + r;
    assert h == q * (2 * m) + (h % 2 + 2 * r);
    DivisionIs(h, 2 * m, q, h % 2 + 2 * r);
  }

  type Chain<T> = seq<HNode<T>>

  function At<T>(s: Chain<T>, i: nat): HNode?<T> { if i < |s| then s[i] else null }

  /** The links from head run through exactly the nodes of s. */
  ghost predicate Linked<T>(head: HNode?<T>, s: Chain<T>)
    reads s`next
  {
    && head == At(s, 0)
    && (forall i, j :: 0 <= i < j < |s| && j == i + 1 ==> s[i].next == s[j])
    && (s != [] ==> s[|s| - 1].next == null)
  }

  function Flatten<T>(chains: seq<Chain<T>>): Chain<T> {
    if chains == [] then [] else Flatten(chains[..|chains| - 1]) + chains[|chains| - 1]
  }

  function Total<T>(chains: seq<Chain<T>>): nat {
    if chains == [] then 0 else Total(chains[..|chains| - 1]) + |chains[|chains| - 1]|
  }

  lemma {:induction false} TotalIsLength<T>(chains: seq<Chain<T>>)
    ensures Total(chains) == |Flatten(chains)|
  {
    if chains != [] {
      TotalIsLength(chains[..|chains| - 1]);
    }
  }

  lemma {:induction false} TotalUpdate<T>(chains: seq<Chain<T>>, b: nat, s: Chain<T>)
    requires b < |chains|
    ensures Total(chains[b := s]) == Total(chains) - |chains[b]| + |s|
  {
    var last := |chains| - 1;
    if b == last {
      assert chains[b := s][..last] == chains[..last];
    } else {
      assert chains[b := s][..last] == chains[..last][b := s];
      TotalUpdate(chains[..last], b, s);
    }
  }

  lemma {:induction false} TotalZero<T>(chains: seq<Chain<T>>)
    ensures Total(chains) == 0 <==> forall b :: 0 <= b < |chains| ==> |chains[b]| == 0
  {
    if chains != [] {
      TotalZero(chains[..|chains| - 1]);
      assert forall b :: 0 <= b < |chains| - 1 ==> chains[b] == chains[..|chains| - 1][b];
    }
  }

  /** A node found in the table is not in the empty part. */
  lemma {:induction false} SweptIsBefore<T>(chains: seq<Chain<T>>, pos: nat, b: nat, s: Chain<T>)
    requires pos <= |chains| && b < |chains| && Total(chains[..pos]) == 0 && |chains[b]| > 0
    ensures pos <= b && chains[b := s][..pos] == chains[..pos]
  {
    TotalZero(chains[..pos]);
    forall k | 0 <= k < pos
      ensures |chains[k]| == 0
    {
      assert chains[..pos][k] == chains[k];
    }
  }

  /** The first node of the first bucket that is not empty is the first of all. */
  lemma {:induction false} FlattenFirst<T>(chains: seq<Chain<T>>, b: nat)
    requires b < |chains| && Total(chains[..b]) == 0 && |chains[b]| > 0
    ensures var all := Flatten(chains);
      |all| > 0 && all[0] == chains[b][0] && Flatten(chains[b := Without(chains[b], 0)]) == all[1..]
  {
    var c, init := chains[b := Without(chains[b], 0)], chains[..|chains| - 1];
    if b == |chains| - 1 {
      TotalIsLength(init);
      assert c[..b] == init;
    } else {
      assert init[..b] == chains[..b] && c[..|chains| - 1] == init[b := Without(init[b], 0)];
      FlattenFirst(init, b);
    }
  }

  lemma FlattenLast<T>(chains: seq<Chain<T>>, b: nat)
    requires b < |chains| && |chains[b]| > 0 && forall k :: b < k < |chains| ==> |chains[k]| == 0
    ensures var all := Flatten(chains); |all| > 0 && all[|all| - 1] == chains[b][|chains[b]| - 1]
  {
    if b < |chains| - 1 {
      FlattenLast(chains[..|chains| - 1], b);
    }
  }

  /** Each node is in the one chain its hash code selects, once. */
  ghost predicate Placed<T>(chains: seq<Chain<T>>, nodes: set<HNode<T>>) {
    && (forall b, n :: 0 <= b < |chains| && n in chains[b] ==> n in nodes && Bucket(n.hcode, |chains|) == b)
    && (forall b :: 0 <= b < |chains| ==> NoRepeats(chains[b]))
    && (forall n :: n in nodes ==> |chains| > 0 && n in chains[Bucket(n.hcode, |chains|)])
  }

  lemma PlacedPush<T>(chains: seq<Chain<T>>, nodes: set<HNode<T>>, node: HNode<T>)
    requires Placed(chains, nodes) && node !in nodes && |chains| > 0
    ensures var b := Bucket(node.hcode, |chains|); Placed(chains[b := [node] + chains[b]], nodes + {node})
  {
  }

  lemma {:induction false} OneChain<T>(chains: seq<Chain<T>>, nodes: set<HNode<T>>, b: nat, n: HNode<T>)
    requires Placed(chains, nodes) && b < |chains| && n in chains[b]
    ensures forall k :: 0 <= k < |chains| && k != b ==> n !in chains[k]
  {
    assert Bucket(n.hcode, |chains|) == b;
    forall k | 0 <= k < |chains| && n in chains[k]
      ensures k == b
    {
      assert Bucket(n.hcode, |chains|) == k;
    }
  }

  function Without<A>(s: seq<A>, i: nat): seq<A>
    requires i < |s|
  {
    s[..i] + s[i + 1..]
  }

  lemma {:induction false} PlacedDrop<T>(chains: seq<Chain<T>>, nodes: set<HNode<T>>, b: nat, i: nat)
    requires Placed(chains, nodes) && b < |chains| && i < |chains[b]|
    ensures Placed(chains[b := Without(chains[b], i)], nodes - {chains[b][i]})
  {
    var c, x := chains[b := Without(chains[b], i)], chains[b][i];
    WithoutMembers(chains[b], i);
    forall n | n in nodes - {x}
      ensures n in c[Bucket(n.hcode, |c|)]
    {
      assert n in chains[Bucket(n.hcode, |chains|)];
    }
    forall k, n | 0 <= k < |c| && n in c[k]
      ensures n in nodes - {x} && Bucket(n.hcode, |c|) == k
    {
      assert n in chains[k];
    }
  }

  lemma {:induction false} WithoutMembers<T>(s: Chain<T>, i: nat)
    requires i < |s| && NoRepeats(s)
    ensures NoRepeats(Without(s, i))
    ensures forall n :: n in Without(s, i) <==> n in s && n != s[i]
  {
    var r := Without(s, i);
    assert forall j :: 0 <= j < |r| ==> r[j] == if j < i then s[j] else s[j + 1];
    forall n | n in s && n != s[i]
      ensures n in r
    {
      var j :| 0 <= j < |s| && s[j] == n;
      assert r[if j < i then j else j - 1] == n;
    }
  }

  function Items<T>(s: Chain<T>): seq<T> { seq(|s|, i requires 0 <= i < |s| => s[i].item) }

  lemma {:induction false} FlattenStep<T>(chains: seq<Chain<T>>, i: nat)
    requires i < |chains|
    ensures Flatten(chains[..i + 1]) == Flatten(chains[..i]) + chains[i]
    ensures Items(Flatten(chains[..i + 1])) == Items(Flatten(chains[..i])) + Items(chains[i])
  {
    assert chains[..i + 1][..i] == chains[..i];
  }

  lemma {:induction false} FlattenMembers<T>(chains: seq<Chain<T>>, n: HNode<T>)
    ensures n in Flatten(chains) <==> exists b :: 0 <= b < |chains| && n in chains[b]
  {
    if chains != [] {
      var last := |chains| - 1;
      FlattenMembers(chains[..last], n);
      assert forall b :: 0 <= b < last ==> chains[..last][b] == chains[b];
    }
  }

  lemma {:induction false} AppendMembers<T>(a: Chain<T>, b: Chain<T>)
    requires NoRepeats(a) && NoRepeats(b) && Elements(a) !! Elements(b)
    ensures NoRepeats(a + b) && Elements(a + b) == Elements(a) + Elements(b)
    ensures Items(a + b) == Items(a) + Items(b)
  {
    forall i, j | 0 <= i < |a| && 0 <= j < |b|
      ensures a[i] != b[j]
    {
      assert a[i] in Elements(a) && b[j] in Elements(b);
    }
  }

  lemma {:induction false} FlattenNoRepeats<T>(chains: seq<Chain<T>>)
    requires forall b :: 0 <= b < |chains| ==> NoRepeats(chains[b])
    requires forall b, c, n :: 0 <= b < c < |chains| && n in chains[b] ==> n !in chains[c]
    ensures NoRepeats(Flatten(chains))
  {
    if chains != [] {
      var last := |chains| - 1;
      FlattenNoRepeats(chains[..last]);
      forall n | n in Flatten(chains[..last])
        ensures n !in chains[last]
      {
        FlattenMembers(chains[..last], n);
        var b :| 0 <= b < last && n in chains[..last][b];
        assert n in chains[b];
      }
      AppendMembers(Flatten(chains[..last]), chains[last]);
    }
  }

  lemma {:induction false} FlattenPlaced<T>(chains: seq<Chain<T>>, nodes: set<HNode<T>>)
    requires Placed(chains, nodes)
    ensures NoRepeats(Flatten(chains)) && Elements(Flatten(chains)) == nodes
  {
    forall b, c, n | 0 <= b < c < |chains| && n in chains[b]
      ensures n !in chains[c]
    {
      OneChain(chains, nodes, b, n);
    }
    FlattenNoRepeats(chains);
    forall n | n in nodes
      ensures n in Elements(Flatten(chains))
    {
      FlattenMembers(chains, n);
      assert n in chains[Bucket(n.hcode, |chains|)];
    }
    forall n | n in Elements(Flatten(chains))
      ensures n in nodes
    {
      FlattenMembers(chains, n);
    }
  }

  lemma {:induction false} MembersCount<T>(s: Chain<T>)
    requires NoRepeats(s)
    ensures |Elements(s)| == |s|
  {
    if s != [] {
      var init, x := s[..|s| - 1], s[|s| - 1];
      MembersCount(init);
      assert s == init + [x];
      assert Elements(s) == Elements(init) + {x};
    }
  }

  /** A place that holds a chain pointer: the head of a bucket, or the next field of a node. */
  datatype Slot<T> = Head(bucket: nat) | NextOf(node: HNode<T>)

  class Table<T> {
    var tab: array?<HNode?<T>>
    var size: nat
    var mask: nat
    ghost var chains: seq<Chain<T>>
    ghost var nodes: set<HNode<T>>

    /** The chains hold the nodes by bucket. */
    ghost predicate Shape()
      reads this`tab, this`mask, this`chains, this`nodes, tab, nodes`next
    {
      && (tab == null ==> mask == 0 && chains == [] && nodes == {})
      && (tab != null ==> tab.Length == mask + 1 == |chains| && PowerOfTwo(mask + 1))
      && Placed(chains, nodes)
      && (tab != null ==> forall b :: 0 <= b < |chains| ==> Linked(tab[b], chains[b]))
    }

    /** Besides, size counts them. */
    ghost predicate Valid()
      reads this, tab, nodes`next
    {
      Shape() && size == Total(chains)
    }

    /** An HTab before hinit. */
    constructor Blank()
      ensures Valid() && tab == null && nodes == {}
    {
      tab, size, mask, chains, nodes := null, 0, 0, [], {};
    }

    /** hinit. */
    constructor Init(n: nat)
      requires PowerOfTwo(n)
      ensures Valid() && tab != null && fresh(tab) && mask + 1 == n && nodes == {} && size == 0
    {
      var a := new HNode?<T>[n](_ => null);
      tab, size, mask, chains, nodes := a, 0, n - 1, seq(n, _ => []), {};
      new;
      TotalZero(chains);
    }

    /** Whether bucket k holds no node. */
    method IsEmptyBucket(k: nat) returns (e: bool)
      requires Shape() && k < |chains|
      ensures e <==> |chains[k]| == 0
    {
      assert Linked(tab[k], chains[k]);
      e := tab[k] == null;
    }

    lemma NoNodes()
      requires Valid()
      ensures size == 0 <==> nodes == {}
    {
      TotalZero(chains);
      if nodes != {} {
        var n :| n in nodes;
        assert n in chains[Bucket(n.hcode, |chains|)];
      }
      if size != 0 {
        var b :| 0 <= b < |chains| && |chains[b]| > 0;
        assert chains[b][0] in chains[b] && chains[b][0] in nodes;
      }
    }

    /** hinsert. */
    method Insert(node: HNode<T>)
      requires Valid() && tab != null && node !in nodes
      modifies this`size, this`chains, this`nodes, tab, node`next
      ensures Valid() && nodes == old(nodes) + {node} && size == old(size) + 1
      ensures var b := Bucket(node.hcode, |old(chains)|);
        chains == old(chains)[b := [node] + old(chains)[b]]
    {
      hide Total, Bucket;
      var index := Bucket(node.hcode, mask + 1);
      ghost var s := chains[index];
      TotalUpdate(chains, index, [node] + s);
      PlacedPush(chains, nodes, node);
      node.next := tab[index];
      tab[index] := node;
      size := size + 1;
      chains := chains[index := [node] + s];
      nodes := nodes + {node};
    }

    /** slot holds the pointer to node i of chain b. */
    ghost predicate Holds(slot: Slot<T>, b: nat, i: nat)
      reads this
    {
      b < |chains| && i < |chains[b]| && slot == SlotIn(b, chains[b], i)
    }

    /** The loop of hlookup over one chain s. */
    static method FindInChain(pos: nat, head: HNode?<T>, hcode: nat, eq: T -> bool, ghost s: Chain<T>)
      returns (slot: Option<Slot<T>>, ghost i: nat)
      requires Linked(head, s)
      ensures slot.Some? ==> i < |s| && slot.value == SlotIn(pos, s, i) && Matches(s[i], hcode, eq)
      ensures slot.None? ==> forall n :: n in s ==> !Matches(n, hcode, eq)
    {
      i := 0;
      var from := Head(pos);
      var cur := head;
      while cur != null
        invariant i <= |s| && cur == At(s, i) && from == SlotIn(pos, s, i)
        invariant forall j :: 0 <= j < i ==> !Matches(s[j], hcode, eq)
        decreases |s| - i
      {
        if cur.hcode == hcode && eq(cur.item) {
          return Some(from), i;
        }
        from := NextOf(cur);
        cur := cur.next;
        i := i + 1;
      }
      return None, i;
    }

    /** hlookup. */
    method Lookup(hcode: nat, eq: T -> bool) returns (slot: Option<Slot<T>>, ghost b: nat, ghost i: nat)
      requires Shape()
      ensures slot.Some? ==> Holds(slot.value, b, i) && Matches(chains[b][i], hcode, eq)
      ensures slot.None? ==> forall n :: n in nodes ==> !Matches(n, hcode, eq)
    {
      b, i := 0, 0;
      if tab == null {
        return None, b, i;
      }
      var pos := Bucket(hcode, mask + 1);
      b := pos;
      slot, i := FindInChain(pos, tab[pos], hcode, eq, chains[b]);
    }

    /** *from = node->next, where from is the next field of a node of the chain s. */
    static method Skip(prev: HNode<T>, ghost head: HNode?<T>, ghost s: Chain<T>, ghost i: nat) returns (node: HNode<T>)
      requires 0 < i < |s| && prev == s[i - 1] && Linked(head, s) && NoRepeats(s)
      modifies prev`next
      ensures node == s[i] && Linked(head, Without(s, i))
    {
      assert prev.next == s[i];
      node := prev.next;
      prev.next := node.next;
    }

    /** *from = node->next, where from is the head of bucket k. */
    method UnlinkHead(k: nat) returns (node: HNode<T>)
      requires Shape() && k < |chains| && |chains[k]| > 0
      modifies this`chains, this`nodes, tab
      ensures Shape() && node == old(chains)[k][0] && node in old(nodes) && nodes == old(nodes) - {node}
      ensures chains == old(chains)[k := Without(old(chains)[k], 0)]
    {
      ghost var s := chains[k];
      assert Linked(tab[k], s) && s[0] in s;
      PlacedDrop(chains, nodes, k, 0);
      node := tab[k];
      assert Linked(node.next, Without(s, 0));
      tab[k] := node.next;
      chains := chains[k := Without(s, 0)];
      nodes := nodes - {node};
    }

    /** *from = node->next, where from is the next field of prev. */
    method UnlinkNext(prev: HNode<T>, ghost b: nat, ghost i: nat) returns (node: HNode<T>)
      requires Shape() && b < |chains| && 0 < i < |chains[b]| && prev == chains[b][i - 1]
      modifies this`chains, this`nodes, nodes`next
      ensures Shape() && node == old(chains)[b][i] && node in old(nodes) && nodes == old(nodes) - {node}
      ensures chains == old(chains)[b := Without(old(chains)[b], i)]
    {
      ghost var s := chains[b];
      assert Linked(tab[b], s) && s[i] in s;
      PlacedDrop(chains, nodes, b, i);
      OneChain(chains, nodes, b, prev);
      node := Skip(prev, tab[b], s, i);
      chains := chains[b := Without(s, i)];
      nodes := nodes - {node};
    }

    /** h_detach on the table's own bucket k. */
    method DetachHead(k: nat) returns (node: HNode<T>)
      requires Valid() && k < |chains| && |chains[k]| > 0
      modifies this`size, this`chains, this`nodes, tab
      ensures Valid() && node == old(chains)[k][0] && node in old(nodes) && nodes == old(nodes) - {node} && size + 1 == old(size)
      ensures chains == old(chains)[k := Without(old(chains)[k], 0)]
    {
      TotalUpdate(chains, k, Without(chains[k], 0));
      node := UnlinkHead(k);
      size := size - 1;
    }

    /** h_detach on one of the table's own slots. */
    method Detach(slot: Slot<T>, ghost b: nat, ghost i: nat) returns (node: HNode<T>)
      requires Valid() && Holds(slot, b, i)
      modifies this`size, this`chains, this`nodes, tab, nodes`next
      ensures Valid() && node == old(chains)[b][i] && node in old(nodes) && nodes == old(nodes) - {node} && size + 1 == old(size)
      ensures chains == old(chains)[b := Without(old(chains)[b], i)]
    {
      TotalUpdate(chains, b, Without(chains[b], i));
      node := Unlink(slot, b, i);
      size := size - 1;
    }

    /** The node a slot leads to. */
    method Deref(slot: Slot<T>, ghost b: nat, ghost i: nat) returns (node: HNode<T>)
      requires Shape() && Holds(slot, b, i)
      ensures node == chains[b][i] && node in nodes
    {
      assert Linked(tab[b], chains[b]) && chains[b][i] in chains[b];
      match slot {
        case Head(k) => node := tab[k];
        case NextOf(prev) => node := prev.next;
      }
    }

    /** The inner loop of h_scan: the items of one chain, in order. */
    static method ScanChain(head: HNode?<T>, out0: seq<T>, ghost s: Chain<T>) returns (out: seq<T>)
      requires Linked(head, s)
      ensures out == out0 + Items(s)
    {
      out := out0;
      var node := head;
      ghost var i := 0;
      while node != null
        invariant i <= |s| && node == At(s, i) && out == out0 + Items(s[..i])
        decreases |s| - i
      {
        assert Items(s[..i + 1]) == Items(s[..i]) + [s[i].item];
        out := out + [node.item];
        node := node.next;
        i := i + 1;
      }
      assert s[..i] == s;
    }

    /** h_scan, with the callback that appends an item to out. */
    method Scan(out0: seq<T>) returns (out: seq<T>)
      requires Valid()
      ensures out == out0 + Items(Flatten(chains))
    {
      out := out0;
      if size == 0 {
        TotalIsLength(chains);
        return;
      }
      var i := 0;
      while i < mask + 1
        invariant 0 <= i <= mask + 1 == |chains| && out == out0 + Items(Flatten(chains[..i]))
      {
        FlattenStep(chains, i);
        assert Linked(tab[i], chains[i]);
        out := ScanChain(tab[i], out, chains[i]);
        i := i + 1;
      }
      assert chains[..i] == chains;
    }

    /** The last node that a scan would visit. */
    method Last() returns (node: HNode<T>)
      requires Valid() && size > 0
      ensures |Flatten(chains)| > 0 && node == Flatten(chains)[|Flatten(chains)| - 1]
    {
      TotalZero(chains);
      var b := mask;
      while true
        invariant b < |chains| && exists k :: 0 <= k <= b && |chains[k]| > 0
        invariant forall k :: b < k < |chains| ==> |chains[k]| == 0
        decreases b
      {
        var e := IsEmptyBucket(b);
        if !e {
          break;
        }
        b := b - 1;
      }
      FlattenLast(chains, b);
      assert Linked(tab[b], chains[b]);
      node := LastOf(tab[b], chains[b]);
    }

    static method LastOf(head: HNode<T>, ghost s: Chain<T>) returns (node: HNode<T>)
      requires Linked(head, s)
      ensures s != [] && node == s[|s| - 1]
    {
      node := head;
      ghost var i := 0;
      while node.next != null
        invariant i < |s| && node == s[i] && node.next == At(s, i + 1)
        decreases |s| - i
      {
        node := node.next;
        i := i + 1;
      }
    }

    /** The table holds exactly size nodes. */
    lemma CountNodes()
      requires Valid()
      ensures Placed(chains, nodes) && NoRepeats(Flatten(chains)) && Elements(Flatten(chains)) == nodes
      ensures size == |nodes|
    {
      FlattenPlaced(chains, nodes);
      TotalIsLength(chains);
      MembersCount(Flatten(chains));
    }

    /** The part of h_detach that rewrites the slot. */
    method Unlink(slot: Slot<T>, ghost b: nat, ghost i: nat) returns (node: HNode<T>)
      requires Shape() && Holds(slot, b, i)
      modifies this`chains, this`nodes, tab, nodes`next
      ensures Shape() && node == old(chains)[b][i] && node in old(nodes) && nodes == old(nodes) - {node}
      ensures chains == old(chains)[b := Without(old(chains)[b], i)]
    {
      match slot {
        case Head(k) => node := UnlinkHead(k);
        case NextOf(prev) => node := UnlinkNext(prev, b, i);
      }
    }
  }

  predicate Matches<T>(n: HNode<T>, hcode: nat, eq: T -> bool) { n.hcode == hcode && eq(n.item) }

  /** The slot that holds the pointer to node i of the chain s of a bucket. */
  function SlotIn<T>(bucket: nat, s: Chain<T>, i: nat): Slot<T>
    requires i <= |s|
  {
    if i == 0 then Head(bucket) else NextOf(s[i - 1])
  }
}
