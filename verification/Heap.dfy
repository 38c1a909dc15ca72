/** heap.cpp: a binary min-heap whose items point back to the entries they belong to. */
module Heap {
  import opened Bytes
  import opened Common

  /** An Entry that holds a string. heapIdx is -1 when the entry is in no heap slot. */
  class Entry {
    const key: ByteString
    var val: ByteString
    var heapIdx: int

    constructor (key: ByteString, val: ByteString)
      ensures this.key == key && this.val == val && heapIdx == -1
    {
      this.key, this.val, heapIdx := key, val, -1;
    }
  }

  /** A HeapItem. The pointer to heap_idx is the entry around it. */
  datatype Item = Item(val: nat, ref: Entry)

  function Parent(i: nat): nat
    requires i > 0
  {
    (i + 1) / 2 - 1
  }

  function Left(i: nat): nat { i * 2 + 1 }

  function Right(i: nat): nat { i * 2 + 2 }

  /** No item is above a child of its own. */
  predicate Ordered(a: seq<Item>) {
    forall i :: 0 < i < |a| ==> a[Parent(i)].val <= a[i].val
  }

  /** The heap order, except that the item at pos may be out of place; its children are not
      below its parent. */
  predicate OrderedExcept(a: seq<Item>, pos: nat) {
    && (forall i :: 0 < i < |a| && i != pos && Parent(i) != pos ==> a[Parent(i)].val <= a[i].val)
    && (forall i :: 0 < i < |a| && Parent(i) == pos && pos > 0 ==> a[Parent(pos)].val <= a[i].val)
  }

  /** Each entry has at most one item. */
  predicate DistinctRefs(a: seq<Item>) {
    forall i, j :: 0 <= i < j < |a| ==> a[i].ref != a[j].ref
  }

  ghost function Refs(a: seq<Item>): set<Entry> { set it | it in a :: it.ref }

  /** Every item's entry knows where the item is, except possibly the one at pos. */
  ghost predicate BackRefsExcept(a: seq<Item>, pos: int)
    reads Refs(a)`heapIdx
  {
    forall i :: 0 <= i < |a| && i != pos ==> a[i].ref.heapIdx == i
  }

  predicate SameItems(a: seq<Item>, b: seq<Item>) { multiset(a) == multiset(b) }

  /** Two swapped positions. */
  function Swapped(a: seq<Item>, i: nat, j: nat): seq<Item>
    requires i < |a| && j < |a|
  {
    a[i := a[j]][j := a[i]]
  }

  lemma {:induction false} SwapKeeps(a: seq<Item>, i: nat, j: nat, original: seq<Item>)
    requires i < |a| && j < |a| && SameItems(a, original) && DistinctRefs(a)
    ensures SameItems(Swapped(a, i, j), original) && DistinctRefs(Swapped(a, i, j))
    ensures Refs(Swapped(a, i, j)) == Refs(a)
  {
    SameItemsSameRefs(Swapped(a, i, j), a);
  }

  lemma Same(a: seq<Item>)
    ensures SameItems(a, a)
  {
  }

  lemma {:induction false} SameItemsSameRefs(a: seq<Item>, b: seq<Item>)
    requires SameItems(a, b)
    ensures Refs(a) == Refs(b)
  {
    assert forall it :: it in a <==> it in multiset(a);
    assert forall it :: it in b <==> it in multiset(b);
  }

  /** The value that each entry has in the heap. */
  ghost function ValsOf(a: seq<Item>): map<Entry, nat>
    requires DistinctRefs(a)
  {
    map it | it in a :: it.ref := it.val
  }

  lemma ValsKeys(a: seq<Item>)
    requires DistinctRefs(a)
    ensures ValsOf(a).Keys == Refs(a)
  {
  }

  lemma {:induction false} SameItemsSameVals(a: seq<Item>, b: seq<Item>)
    requires SameItems(a, b) && DistinctRefs(a) && DistinctRefs(b)
    ensures ValsOf(a) == ValsOf(b)
  {
    assert forall it :: it in a <==> it in multiset(a);
    assert forall it :: it in b <==> it in multiset(b);
  }

  /** The heap without the item at pos, before anything is moved to restore its order. */
  function Dropped(a: seq<Item>, pos: nat): seq<Item>
    requires pos < |a|
  {
    a[pos := a[|a| - 1]][..|a| - 1]
  }

  lemma ItemLost(a: seq<Item>, b: seq<Item>, r: Entry)
    requires DistinctRefs(a) && DistinctRefs(b) && forall it :: it in b <==> it in a && it.ref != r
    ensures Refs(b) == Refs(a) - {r} && ValsOf(b) == ValsOf(a) - {r}
  {
  }

  lemma {:induction false} ItemSet(a: seq<Item>, b: seq<Item>, r: Entry, val: nat)
    requires DistinctRefs(a) && DistinctRefs(b)
    requires forall it :: it in b <==> (it in a && it.ref != r) || it == Item(val, r)
    ensures Refs(b) == Refs(a) + {r} && ValsOf(b) == ValsOf(a)[r := val]
  {
    assert Item(val, r) in b;
    assert forall it :: it in b && it.ref == r ==> it == Item(val, r);
    assert ValsOf(b).Keys == Refs(b) && ValsOf(a).Keys == Refs(a);
  }

  lemma DroppedOrder(a: seq<Item>, pos: nat)
    requires pos < |a| && Ordered(a) && DistinctRefs(a)
    ensures var b := Dropped(a, pos); OrderedExcept(b, pos) && (pos == |b| ==> Ordered(b)) && DistinctRefs(b)
  {
  }

  lemma {:induction false} DroppedFacts(a: seq<Item>, pos: nat)
    requires pos < |a| && Ordered(a) && DistinctRefs(a)
    ensures var b := Dropped(a, pos);
      && OrderedExcept(b, pos) && (pos == |b| ==> Ordered(b)) && DistinctRefs(b)
      && Refs(b) == Refs(a) - {a[pos].ref} && ValsOf(b) == ValsOf(a) - {a[pos].ref}
  {
    hide Ordered, OrderedExcept, Refs, ValsOf;
    var b, last := Dropped(a, pos), |a| - 1;
    DroppedOrder(a, pos);
    assert forall i :: 0 <= i < |b| ==> b[i] == if i == pos then a[last] else a[i];
    forall it | it in a && it.ref != a[pos].ref
      ensures it in b
    {
      var i :| 0 <= i < |a| && a[i] == it;
      assert b[if i == last then pos else i] == it;
    }
    assert forall it :: it in b ==> it in a && it.ref != a[pos].ref;
    ItemLost(a, b, a[pos].ref);
  }

  lemma {:induction false} RevaluedFacts(a: seq<Item>, pos: nat, val: nat)
    requires pos < |a| && Ordered(a) && DistinctRefs(a)
    ensures var b := a[pos := Item(val, a[pos].ref)];
      && OrderedExcept(b, pos) && DistinctRefs(b) && Refs(b) == Refs(a) && ValsOf(b) == ValsOf(a)[a[pos].ref := val]
  {
    hide Refs, ValsOf;
    var r := a[pos].ref;
    var b := a[pos := Item(val, r)];
    forall it
      ensures it in b <==> (it in a && it.ref != r) || it == Item(val, r)
    {
      if it in a && it.ref != r {
        var i :| 0 <= i < |a| && a[i] == it;
        assert b[i] == it;
      }
      assert b[pos] in b;
    }
    ItemSet(a, b, r, val);
    RefPresent(a, pos);
  }

  lemma {:induction false} RefPresent(a: seq<Item>, pos: nat)
    requires pos < |a|
    ensures Refs(a) + {a[pos].ref} == Refs(a)
  {
    assert a[pos] in a;
  }

  lemma PushedOrder(a: seq<Item>, it: Item)
    requires Ordered(a)
    ensures OrderedExcept(a + [it], |a|)
  {
  }

  lemma {:induction false} PushedRefs(a: seq<Item>, it: Item)
    requires DistinctRefs(a) && it.ref !in Refs(a)
    ensures DistinctRefs(a + [it]) && forall j :: j in a ==> j.ref != it.ref
  {
    assert forall i :: 0 <= i < |a| ==> a[i] in a && a[i].ref in Refs(a);
  }

  lemma {:induction false} PushedFacts(a: seq<Item>, it: Item)
    requires Ordered(a) && DistinctRefs(a) && it.ref !in Refs(a)
    ensures var b := a + [it];
      && OrderedExcept(b, |a|) && DistinctRefs(b) && Refs(b) == Refs(a) + {it.ref} && ValsOf(b) == ValsOf(a)[it.ref := it.val]
  {
    hide ValsOf, Ordered, OrderedExcept, Refs;
    PushedOrder(a, it);
    PushedRefs(a, it);
    ItemSet(a, a + [it], it.ref, it.val);
  }

  /** The item at pos is not above its children. */
  predicate AboveChildren(a: seq<Item>, pos: nat) {
    pos < |a| && forall i :: 0 < i < |a| && Parent(i) == pos ==> a[pos].val <= a[i].val
  }

  /** The item at pos is not below its parent. */
  predicate BelowParent(a: seq<Item>, pos: nat) {
    pos < |a| && (pos > 0 ==> a[Parent(pos)].val <= a[pos].val)
  }

  lemma InPlace(a: seq<Item>, pos: nat)
    requires OrderedExcept(a, pos) && AboveChildren(a, pos) && BelowParent(a, pos)
    ensures Ordered(a)
  {
  }

  /** One turn of heap_up. */
  lemma MovedUp(a: seq<Item>, pos: nat)
    requires 0 < pos < |a| && OrderedExcept(a, pos) && AboveChildren(a, pos) && !BelowParent(a, pos)
    ensures var b := Swapped(a, pos, Parent(pos)); OrderedExcept(b, Parent(pos)) && AboveChildren(b, Parent(pos))
  {
  }

  /** The smaller of the item at pos and its children. */
  predicate Smallest(a: seq<Item>, pos: nat, m: nat) {
    && pos < |a| && m < |a| && m > 0 && Parent(m) == pos && a[m].val < a[pos].val
    && forall i :: 0 < i < |a| && Parent(i) == pos ==> a[m].val <= a[i].val
  }

  /** One turn of heap_down. */
  lemma MovedDown(a: seq<Item>, pos: nat, m: nat)
    requires OrderedExcept(a, pos) && BelowParent(a, pos) && Smallest(a, pos, m)
    ensures var b := Swapped(a, pos, m); OrderedExcept(b, m) && BelowParent(b, m)
  {
  }

  /** turns levels lie between a position and one that many turns further up or down. */
  predicate Apart(turns: nat, upper: nat, lower: nat) { Pow2(turns) * (upper + 1) <= lower + 1 }

  lemma {:induction false} NotApart(pos: nat)
    ensures Apart(0, pos, pos)
  {
  }

  /** A child is at least twice as far back as its parent. */
  lemma {:induction false} OneUp(turns: nat, upper: nat, lower: nat)
    requires upper > 0 && Apart(turns, upper, lower)
    ensures Apart(turns + 1, Parent(upper), lower)
  {
    var above := Parent(upper) + 1;
    assert 2 * above <= upper + 1;
    assert Pow2(turns + 1) * above == Pow2(turns) * (2 * above);
    Scaled(Pow2(turns), 2 * above, upper + 1);
  }

  lemma {:induction false} OneDown(turns: nat, upper: nat, lower: nat, child: nat)
    requires child > 0 && Parent(child) == lower && Apart(turns, upper, lower)
    ensures Apart(turns + 1, upper, child)
  {
    assert Pow2(turns + 1) * (upper + 1) == 2 * (Pow2(turns) * (upper + 1));
  }

  /** So there are no more levels than the number of items has digits. */
  lemma {:induction false} FewTurns(turns: nat, upper: nat, lower: nat, len: nat)
    requires Apart(turns, upper, lower) && lower < len
    ensures Pow2(turns) <= len
  {
    Scaled(Pow2(turns), 1, upper + 1);
  }

  lemma {:induction false} Scaled(x: nat, a: nat, b: nat)
    requires a <= b
    ensures x * a <= x * b
  {
    assert x * b == x * a + x * (b - a);
  }

  /** A node's children are where the index helpers say. */
  lemma Children(i: nat, pos: nat)
    ensures i > 0 && Parent(i) == pos <==> i == Left(pos) || i == Right(pos)
  {
  }

  /** The first item is a smallest one. */
  lemma {:induction false} RootIsSmallest(a: seq<Item>, i: nat)
    requires Ordered(a) && i < |a|
    ensures a[0].val <= a[i].val
    decreases i
  {
    if i > 0 {
      RootIsSmallest(a, Parent(i));
    }
  }

  lemma {:induction false} RootIsSmallestVal(a: seq<Item>)
    requires Ordered(a) && DistinctRefs(a) && |a| > 0
    ensures a[0].ref in Refs(a) && ValsOf(a)[a[0].ref] == a[0].val
    ensures forall e :: e in ValsOf(a) ==> a[0].val <= ValsOf(a)[e]
  {
    assert a[0] in a;
    forall e | e in ValsOf(a)
      ensures a[0].val <= ValsOf(a)[e]
    {
      var it :| it in a && it.ref == e;
      var i :| 0 <= i < |a| && a[i] == it;
      RootIsSmallest(a, i);
    }
  }

  class MinHeap {
    var a: seq<Item>

    constructor ()
      ensures a == []
    {
      a := [];
    }

    /** The heap without regard to order. */
    ghost predicate Linked()
      reads this, Refs(a)`heapIdx
    {
      DistinctRefs(a) && BackRefsExcept(a, -1)
    }

    ghost predicate Valid()
      reads this, Refs(a)`heapIdx
    {
      Linked() && Ordered(a)
    }

    /** The item at from moves into the hole at pos. t is the item taken out of the hole. */
    method Fill(pos: nat, from: nat, ghost t: Item)
      requires pos < |a| && from < |a| && from != pos && DistinctRefs(a[pos := t]) && BackRefsExcept(a, pos)
      modifies this, Refs(a[pos := t])`heapIdx
      ensures a == old(a)[pos := old(a)[from]] && BackRefsExcept(a, from)
      ensures a[from := t] == Swapped(old(a)[pos := t], pos, from)
    {
      ghost var g := a[pos := t];
      assert g[from] in g && a[from] == g[from];
      a := a[pos := a[from]];
      a[pos].ref.heapIdx := pos;
    }

    /** t goes into the hole at pos. */
    method Close(pos: nat, t: Item)
      requires pos < |a| && DistinctRefs(a[pos := t]) && BackRefsExcept(a, pos)
      modifies this, Refs(a[pos := t])`heapIdx
      ensures a == old(a)[pos := t] && Linked()
    {
      a := a[pos := t];
      assert a[pos] in a;
      a[pos].ref.heapIdx := pos;
    }

    /** heap_up. */
    method Up(start: nat) returns (ghost turns: nat)
      requires start < |a| && Linked() && OrderedExcept(a, start) && AboveChildren(a, start)
      modifies this, Refs(a)`heapIdx
      ensures Valid() && SameItems(a, old(a)) && |a| == |old(a)|
      ensures Pow2(turns) <= |a|
    {
      hide OrderedExcept, Ordered, AboveChildren, SameItems, Refs, DistinctRefs, Apart, Pow2;
      var pos: nat := start;
      turns := 0;
      NotApart(start);
      var t := a[pos];
      ghost var g := a;
      Same(g);
      while pos > 0 && a[Parent(pos)].val > t.val
        invariant pos < |a| == |g| == |old(a)| && g == a[pos := t] && SameItems(g, old(a)) && DistinctRefs(g)
        invariant Refs(g) == Refs(old(a)) && BackRefsExcept(a, pos)
        invariant OrderedExcept(g, pos) && AboveChildren(g, pos)
        invariant Apart(turns, pos, start)
      {
        ghost var p := Parent(pos);
        SwapKeeps(g, pos, p, old(a));
        MovedUp(g, pos);
        Fill(pos, Parent(pos), t);
        g := Swapped(g, pos, p);
        OneUp(turns, pos, start);
        pos, turns := Parent(pos), turns + 1;
      }
      FewTurns(turns, pos, start, |a|);
      InPlace(g, pos);
      Close(pos, t);
    }

    /** heap_down. */
    method Down(start: nat, len: nat) returns (ghost turns: nat)
      requires start < |a| == len && Linked() && OrderedExcept(a, start) && BelowParent(a, start)
      modifies this, Refs(a)`heapIdx
      ensures Valid() && SameItems(a, old(a)) && |a| == |old(a)|
      ensures Pow2(turns) <= |a|
    {
      hide OrderedExcept, Ordered, BelowParent, SameItems, Refs, DistinctRefs, Apart, Pow2;
      var pos: nat := start;
      turns := 0;
      NotApart(start);
      var t := a[pos];
      ghost var g := a;
      Same(g);
      while true
        invariant pos < |a| == |g| == len && g == a[pos := t] && SameItems(g, old(a)) && DistinctRefs(g)
        invariant Refs(g) == Refs(old(a)) && BackRefsExcept(a, pos)
        invariant OrderedExcept(g, pos) && BelowParent(g, pos)
        invariant Apart(turns, start, pos)
        decreases len - pos
      {
        var minPos := SmallerChild(pos, t);
        if minPos == pos {
          break;
        }
        SwapKeeps(g, pos, minPos, old(a));
        MovedDown(g, pos, minPos);
        Fill(pos, minPos, t);
        g := Swapped(g, pos, minPos);
        OneDown(turns, start, pos, minPos);
        pos, turns := minPos, turns + 1;
      }
      FewTurns(turns, start, pos, |a|);
      InPlace(g, pos);
      Close(pos, t);
    }

    /** The choice in the loop of heap_down. */
    method SmallerChild(pos: nat, t: Item) returns (minPos: nat)
      requires pos < |a|
      ensures var g := a[pos := t]; if minPos == pos then AboveChildren(g, pos) else Smallest(g, pos, minPos) && minPos > pos
    {
      var l, r := Left(pos), Right(pos);
      minPos := pos;
      var minVal := t.val;
      if l < |a| && a[l].val < minVal {
        minPos, minVal := l, a[l].val;
      }
      if r < |a| && a[r].val < minVal {
        minPos, minVal := r, a[r].val;
      }
      forall i | 0 < i < |a| && Parent(i) == pos
        ensures i == l || i == r
      {
        Children(i, pos);
      }
    }

    /** heap_update: with one item possibly out of place, the heap order is restored by moving
        items only, and every entry still knows where its item is. */
    method Update(pos: nat, len: nat) returns (ghost turns: nat)
      requires pos < |a| == len && Linked() && OrderedExcept(a, pos)
      modifies this, Refs(a)`heapIdx
      ensures Valid() && SameItems(a, old(a)) && |a| == |old(a)|
      ensures Pow2(turns) <= |a|
    {
      if pos > 0 && a[Parent(pos)].val > a[pos].val {
        turns := Up(pos);
      } else {
        turns := Down(pos, len);
      }
    }

    ghost function Vals(): map<Entry, nat>
      requires DistinctRefs(a)
      reads this
    {
      ValsOf(a)
    }

    /** Taking the item of ent out: the last item fills the hole and finds its place. */
    method Remove(ent: Entry)
      requires Valid() && ent in Refs(a)
      modifies this, Refs(a)`heapIdx
      ensures Valid() && Refs(a) == old(Refs(a)) - {ent} && Vals() == old(Vals()) - {ent} && ent.heapIdx == -1
      ensures |a| + 1 == |old(a)|
    {
      hide Ordered, OrderedExcept, SameItems, ValsOf;
      ghost var a0 := a;
      IndexOfRef(ent);
      var pos := ent.heapIdx;
      var last := |a| - 1;
      DroppedFacts(a, pos);
      if pos != last {
        a := a[pos := a[last]];
        a[pos].ref.heapIdx := pos;
      }
      a := a[..last];
      assert a == Dropped(a0, pos);
      ghost var b := a;
      Same(b);
      if pos < |a| {
        ghost var turns := Update(pos, |a|);
      }
      SameItemsSameVals(a, b);
      SameItemsSameRefs(a, b);
      ent.heapIdx := -1;
    }

    lemma IndexOfRef(ent: Entry)
      requires Linked() && ent in Refs(a)
      ensures 0 <= ent.heapIdx < |a| && a[ent.heapIdx].ref == ent && a[ent.heapIdx] in a
    {
    }

    /** Giving ent the value val, with a new item if it has none. */
    method Put(ent: Entry, val: nat)
      requires Valid() && (ent.heapIdx == -1 <==> ent !in Refs(a))
      modifies this, Refs(a)`heapIdx, ent`heapIdx
      ensures Valid() && Refs(a) == old(Refs(a)) + {ent} && Vals() == old(Vals())[ent := val] && ent.heapIdx != -1
    {
      hide Ordered, OrderedExcept, SameItems, ValsOf;
      ghost var b;
      var pos := ent.heapIdx;
      if pos == -1 {
        PushedFacts(a, Item(val, ent));
        ghost var pushed := a + [Item(val, ent)];
        a := a + [Item(0, ent)];
        pos := |a| - 1;
        ent.heapIdx := pos;
        assert a[pos := Item(val, ent)] == pushed;
      } else {
        IndexOfRef(ent);
        RevaluedFacts(a, pos, val);
      }
      a := a[pos := Item(val, a[pos].ref)];
      b := a;
      ghost var turns := Update(pos, |a|);
      SameItemsSameVals(a, b);
      SameItemsSameRefs(a, b);
      IndexIsSet(ent);
    }

    lemma {:induction false} IndexIsSet(ent: Entry)
      requires Linked() && ent in Refs(a)
      ensures ent.heapIdx != -1
    {
      IndexOfRef(ent);
    }
  }
}
