/** hashtable.cpp: a hash map of two tables, with the older one moved into the newer one a few
    nodes at a time. */
module HashMap {
  import opened Common
  import opened HashTab

  const MAX_LOAD_FACTOR: nat := 8
  const RESIZING_WORK: nat := 128

  /** What one helping step leaves of n nodes in the older table. */
  function Left(n: nat): nat { if n > RESIZING_WORK then n - RESIZING_WORK else 0 }

  /** And which of them. */
  function Later<T>(s: Chain<T>): Chain<T> { s[|s| - Left(|s|)..] }

  class HMap<T> {
    var ht1: Table<T> // newer
    var ht2: Table<T> // older
    var resizingPos: nat
    ghost var nodes: set<HNode<T>>
    ghost var steps: nat // operations since the resize started, that one included
    ghost var Repr: set<object>

    ghost predicate Tables()
      reads this`ht1, this`ht2, this`nodes, ht1, ht2, ht1.tab, ht2.tab, ht1.nodes`next, ht2.nodes`next
    {
      && ht1 != ht2 && (ht1.tab != null ==> ht1.tab != ht2.tab) && (ht1.tab == null ==> ht2.tab == null)
      && ht1.Valid() && ht2.Valid() && ht1.nodes !! ht2.nodes && nodes == ht1.nodes + ht2.nodes
    }

    /** While the older table is there: it has half as many buckets, those below resizingPos are
        empty, and the move keeps ahead of the growth. Otherwise the map is below the load that
        starts a resize. */
    ghost predicate Progress()
      reads this, ht1, ht2
    {
      if ht2.tab != null then
        var n := ht2.mask + 1;
        && ht1.mask + 1 == 2 * n && Swept()
        && 1 <= steps && ht2.size + RESIZING_WORK * steps <= 9 * n && RESIZING_WORK * steps < 9 * n
        && ht1.size + ht2.size < 9 * n + steps
      else
        ht1.tab != null ==> ht1.size < 9 * (ht1.mask + 1)
    }

    ghost predicate Owned()
      reads this`ht1, this`ht2, this`nodes, this`Repr, ht1`tab, ht2`tab
    {
      && {this, ht1, ht2} <= Repr && (ht1.tab != null ==> ht1.tab in Repr) && (ht2.tab != null ==> ht2.tab in Repr)
      && forall n :: n in nodes ==> n in Repr
    }

    ghost predicate Valid()
      reads this, ht1, ht2, ht1.tab, ht2.tab, ht1.nodes`next, ht2.nodes`next
    {
      Owned() && Tables() && Progress()
    }

    constructor ()
      ensures Valid() && nodes == {} && ht1.tab == null && fresh(Repr)
    {
      ht1 := new Table<T>.Blank();
      ht2 := new Table<T>.Blank();
      resizingPos, nodes, steps := 0, {}, 0;
      Repr := {this, ht1, ht2};
    }

    /** The nodes of the older table, in the order they will be moved in. */
    ghost function Older(): Chain<T>
      reads this`ht2, ht2`chains
    {
      Flatten(ht2.chains)
    }

    lemma OlderNodes()
      requires ht2.Valid()
      ensures Elements(Older()) == ht2.nodes && |Older()| == ht2.size
    {
      ht2.CountNodes();
      TotalIsLength(ht2.chains);
    }

    /** hinsert(&ht1, h_detach(&ht2, from)) for the first node of bucket resizingPos. */
    method MoveOne()
      requires Tables() && ht1.tab != null && Swept() && resizingPos < |ht2.chains| && |ht2.chains[resizingPos]| > 0
      modifies ht1, ht2, ht1.tab, ht2.tab, nodes`next
      ensures Tables() && ht1.tab == old(ht1.tab) && ht2.tab == old(ht2.tab)
      ensures ht1.mask == old(ht1.mask) && ht2.mask == old(ht2.mask)
      ensures ht2.size + 1 == old(ht2.size) && ht1.size == old(ht1.size) + 1
      ensures |ht2.chains| == |old(ht2.chains)| && ht2.chains[..resizingPos] == old(ht2.chains)[..resizingPos]
      ensures |old(Older())| > 0 && Older() == old(Older())[1..]
    {
      ghost var before := ht2.chains;
      FlattenFirst(before, resizingPos);
      var node := ht2.DetachHead(resizingPos);
      ht1.Insert(node);
      assert ht2.chains[..resizingPos] == before[..resizingPos];
    }

    /** Bucket resizingPos is empty: on to the next one. */
    method SkipOne()
      requires Tables() && Swept() && resizingPos < |ht2.chains| && |ht2.chains[resizingPos]| == 0
      modifies this`resizingPos
      ensures Tables() && Swept() && resizingPos == old(resizingPos) + 1
    {
      assert ht2.chains[..resizingPos + 1][..resizingPos] == ht2.chains[..resizingPos];
      resizingPos := resizingPos + 1;
    }

    /** The buckets of the older table below resizingPos are empty. */
    ghost predicate Swept()
      reads this, ht2
    {
      resizingPos <= |ht2.chains| == ht2.mask + 1 && Total(ht2.chains[..resizingPos]) == 0
    }

    /** The scan of the older table never runs off its end. */
    lemma MoreToMove()
      requires ht2.size == Total(ht2.chains) && Swept() && ht2.size > 0
      ensures resizingPos < |ht2.chains|
    {
      assert ht2.chains[..|ht2.chains|] == ht2.chains;
    }

    /** One turn of the loop of hm_help_resizing: a node moves, or an empty bucket is passed. */
    method MoveOrSkip() returns (moved: nat)
      requires Tables() && ht2.tab != null && Swept() && ht2.size > 0
      modifies this`resizingPos, ht1, ht2, ht1.tab, ht2.tab, nodes`next
      ensures Tables() && ht1.tab == old(ht1.tab) && ht2.tab == old(ht2.tab) && Swept()
      ensures ht1.mask == old(ht1.mask) && ht2.mask == old(ht2.mask)
      ensures moved <= 1 && ht2.size + moved == old(ht2.size) && ht1.size == old(ht1.size) + moved
      ensures moved <= |old(Older())| && Older() == old(Older())[moved..]
      ensures resizingPos + moved == old(resizingPos) + 1 && resizingPos <= |ht2.chains| == |old(ht2.chains)|
    {
      hide Placed, PowerOfTwo;
      MoreToMove();
      var e := ht2.IsEmptyBucket(resizingPos);
      if e {
        SkipOne();
        moved := 0;
      } else {
        MoveOne();
        moved := 1;
      }
    }

    /** The loop of hm_help_resizing. */
    method MoveSome() returns (nwork: nat)
      requires Tables() && ht2.tab != null && Swept()
      modifies this`resizingPos, ht1, ht2, ht1.tab, ht2.tab, nodes`next
      ensures Tables() && ht1.tab == old(ht1.tab) && ht2.tab == old(ht2.tab) && Swept()
      ensures ht1.mask == old(ht1.mask) && ht2.mask == old(ht2.mask)
      ensures nwork <= RESIZING_WORK && ht2.size + nwork == old(ht2.size) && ht1.size == old(ht1.size) + nwork
      ensures nwork < RESIZING_WORK ==> ht2.size == 0
      ensures nwork <= |old(Older())| && Older() == old(Older())[nwork..]
    {
      hide Tables, Swept, Older;
      nwork := 0;
      while nwork < RESIZING_WORK && ht2.size > 0
        invariant Tables() && ht1.tab == old(ht1.tab) && ht2.tab == old(ht2.tab) && Swept()
        invariant ht1.mask == old(ht1.mask) && ht2.mask == old(ht2.mask)
        invariant nwork <= RESIZING_WORK && ht2.size + nwork == old(ht2.size) && ht1.size == old(ht1.size) + nwork
        invariant nwork <= |old(Older())| && Older() == old(Older())[nwork..]
        decreases RESIZING_WORK - nwork, |ht2.chains| - resizingPos
      {
        var moved := MoveOrSkip();
        nwork := nwork + moved;
      }
    }

    /** What Progress requires just before a helping step: at most one node has come in since. */
    ghost predicate Ready()
      reads this, ht1, ht2
    {
      if ht2.tab != null then
        var n := ht2.mask + 1;
        && ht1.mask + 1 == 2 * n && Swept()
        && ht2.size + RESIZING_WORK * steps <= 9 * n && ht1.size + ht2.size <= 9 * n + steps
      else
        ht1.tab != null ==> ht1.size < 9 * (ht1.mask + 1)
    }

    /** The end of hm_help_resizing: the older table is empty and goes away. */
    method FreeOlder()
      requires Owned() && Tables() && ht2.size == 0
      modifies this`ht2, this`Repr
      ensures Owned() && Tables() && ht2.tab == null && ht2.size == 0 && Older() == [] && fresh(Repr - old(Repr))
    {
      ht2.NoNodes();
      ht2 := new Table<T>.Blank();
      ht2.NoNodes();
      Repr := Repr + {ht2};
    }

    /** hm_help_resizing. */
    method HelpResizing()
      requires Owned() && Tables() && Ready()
      modifies Repr
      ensures nodes == old(nodes) && ht1 == old(ht1)
      ensures Valid() && Size() == old(Size()) && fresh(Repr - old(Repr))
      ensures ht1.tab == old(ht1.tab) && ht1.mask == old(ht1.mask)
      ensures ht2.tab != null ==> ht2.tab == old(ht2.tab) && steps == old(steps) + 1 && ht2.mask == old(ht2.mask)
      ensures Older() == Later(old(Older())) && ht2.size == Left(old(ht2.size)) && (ht2.tab != null <==> ht2.size > 0)
    {
      OlderNodes();
      if ht2.tab == null {
        ht2.NoNodes();
        return;
      }
      var nwork := MoveSome();
      steps := steps + 1;
      if ht2.size == 0 {
        FreeOlder();
      }
    }

    /** hm_start_resizing. */
    method StartResizing()
      requires Owned() && Tables() && ht1.tab != null && ht2.tab == null
      modifies this`ht1, this`ht2, this`resizingPos, this`Repr
      ensures Owned() && Tables() && ht2 == old(ht1) && fresh(ht1) && fresh(ht1.tab) && fresh(Repr - old(Repr))
      ensures ht1.tab != null && ht1.mask + 1 == 2 * (ht2.mask + 1) && ht1.size == 0 && Swept()
      ensures Size() == old(Size())
    {
      ht2.NoNodes();
      ht2 := ht1;
      ht1 := new Table<T>.Init((ht2.mask + 1) * 2);
      resizingPos := 0;
      Repr := Repr + {ht1, ht1.tab};
    }

    /** hinit(&ht1, 4), at the first insertion. */
    method FirstTable()
      requires Valid() && ht1.tab == null
      modifies this`ht1, this`Repr
      ensures Valid() && ht1.tab != null && fresh(ht1) && fresh(ht1.tab) && fresh(Repr - old(Repr))
      ensures ht1.mask + 1 == 4 && Size() == old(Size()) && ht2 == old(ht2) && ht2.tab == null
    {
      ht1.NoNodes();
      ht1 := new Table<T>.Init(4);
      Repr := Repr + {ht1, ht1.tab};
    }

    /** hinsert(&ht1, node). */
    method Push(node: HNode<T>)
      requires Valid() && ht1.tab != null && node !in nodes
      modifies this`nodes, this`Repr, ht1, ht1.tab, node`next
      ensures Owned() && Tables() && nodes == old(nodes) + {node} && Repr == old(Repr) + {node}
      ensures Size() == old(Size()) + 1
      ensures ht1.tab == old(ht1.tab) && ht1.mask == old(ht1.mask) && (ht2.tab != null ==> Swept())
    {
      ht1.Insert(node);
      nodes, Repr := nodes + {node}, Repr + {node};
    }

    /** The load factor, by integer division, exceeds the largest one allowed. */
    method Overloaded() returns (tooHigh: bool)
      ensures tooHigh <==> ht1.size >= 9 * (ht1.mask + 1)
    {
      var loadFactor := ht1.size / (ht1.mask + 1);
      tooHigh := loadFactor > MAX_LOAD_FACTOR;
    }

    /** The choice to resize. */
    method Grow()
      requires Owned() && Tables() && ht1.tab != null
      requires ht2.tab != null ==> Ready()
      requires ht2.tab == null ==> ht1.size <= 9 * (ht1.mask + 1)
      modifies this`ht1, this`ht2, this`resizingPos, this`Repr, this`steps
      ensures Owned() && Tables() && ht1.tab != null && Ready() && fresh(Repr - old(Repr))
      ensures Size() == old(Size())
      ensures old(ht2.tab == null && ht1.size == 9 * (ht1.mask + 1)) ==> ht1.mask + 1 == 2 * old(ht1.mask + 1)
      ensures !old(ht2.tab == null && ht1.size == 9 * (ht1.mask + 1)) ==> ht1.mask == old(ht1.mask)
      ensures old(ht2.tab) != null ==> steps == old(steps) && ht2.mask == old(ht2.mask)
      ensures ht2.size == if old(ht2.tab == null && ht1.size == 9 * (ht1.mask + 1)) then old(ht1.size) else old(ht2.size)
      ensures old(ht2.tab) == null && ht2.tab != null ==> steps == 0 && ht1.mask > old(ht1.mask) && ht2.mask == old(ht1.mask)
    {
      if ht2.tab == null {
        var tooHigh := Overloaded();
        if tooHigh {
          StartResizing();
          steps := 0;
        }
      }
    }

    /** hm_insert. A resize starts exactly when the size reaches nine times the buckets. */
    method Insert(node: HNode<T>)
      requires Valid() && node !in nodes
      modifies Repr, node
      ensures Valid() && nodes == old(nodes) + {node} && fresh(Repr - old(Repr) - {node})
      ensures ht1.tab != null && Size() == old(Size()) + 1
      ensures ht1.mask + 1 ==
        if old(ht1.tab) == null then 4
        else if old(ht2.tab) == null && old(Size()) + 1 == 9 * old(ht1.mask + 1) then 2 * old(ht1.mask + 1)
        else old(ht1.mask + 1)
      ensures old(ht2.tab) != null && ht2.tab != null ==> steps == old(steps) + 1 && ht2.mask == old(ht2.mask)
      ensures old(ht2.tab) == null && ht2.tab != null ==> steps == 1 && ht1.mask > old(ht1.mask) && ht2.mask == old(ht1.mask)
      ensures ht2.size == Left(
        if old(ht2.tab) == null && old(Size()) + 1 == 9 * old(ht1.mask + 1) then old(Size()) + 1 else old(ht2.size))
      ensures ht2.tab != null <==> ht2.size > 0
    {
      hide Swept, PowerOfTwo, Placed, Total, Older, Later, Left;
      if ht1.tab == null {
        FirstTable();
      }
      ht2.NoNodes();
      Push(node);
      Grow();
      ghost var R := Repr;
      assert forall o :: o in R ==> o in old(Repr) || o == node || fresh(o);
      HelpResizing();
    }

    /** The search that hm_lookup and hm_delete share: the newer table first, then the older. */
    method Find(hcode: nat, eq: T -> bool) returns (owner: Table?<T>, slot: Slot<T>, ghost b: nat, ghost i: nat)
      requires Tables()
      ensures owner != null ==> (owner == ht1 || owner == ht2) && owner.Holds(slot, b, i) && Matches(owner.chains[b][i], hcode, eq)
      ensures owner == null ==> forall n :: n in nodes ==> !Matches(n, hcode, eq)
      ensures owner == ht2 ==> forall n :: n in ht1.nodes ==> !Matches(n, hcode, eq)
    {
      var s;
      s, b, i := ht1.Lookup(hcode, eq);
      if s.Some? {
        return ht1, s.value, b, i;
      }
      s, b, i := ht2.Lookup(hcode, eq);
      if s.Some? {
        return ht2, s.value, b, i;
      }
      return null, Head(0), b, i;
    }

    /** hm_lookup: a node of the map with this hash code that satisfies eq, if there is one. */
    method Lookup(hcode: nat, eq: T -> bool) returns (found: HNode?<T>)
      requires Valid()
      modifies Repr
      ensures Valid() && nodes == old(nodes) && Size() == old(Size()) && fresh(Repr - old(Repr))
      ensures found != null ==> found in nodes && Matches(found, hcode, eq)
      ensures found == null ==> forall n :: n in nodes ==> !Matches(n, hcode, eq)
      ensures ht1.tab == old(ht1.tab) && ht1.mask == old(ht1.mask)
      ensures ht2.tab != null ==> ht2.tab == old(ht2.tab) && steps == old(steps) + 1 && ht2.mask == old(ht2.mask)
      ensures ht2.size == Left(old(ht2.size)) && (ht2.tab != null <==> ht2.size > 0)
    {
      hide Table.Valid, Swept, Later, Older, Left;
      HelpResizing();
      found := Read(hcode, eq);
    }

    /** hm_lookup after its helping step. */
    method Read(hcode: nat, eq: T -> bool) returns (found: HNode?<T>)
      requires Tables()
      ensures found != null ==> found in nodes && Matches(found, hcode, eq)
      ensures found == null ==> forall n :: n in nodes ==> !Matches(n, hcode, eq)
    {
      ghost var b, i;
      var owner, slot;
      owner, slot, b, i := Find(hcode, eq);
      if owner == null {
        found := null;
      } else {
        found := owner.Deref(slot, b, i);
      }
    }

    /** h_detach(&ht1, from) for a slot of the newer table. */
    method TakeNewer(slot: Slot<T>, ghost b: nat, ghost i: nat) returns (found: HNode<T>)
      requires Valid() && ht1.Holds(slot, b, i)
      modifies this`nodes, ht1, ht1.tab, ht1.nodes`next
      ensures Owned() && Tables() && ht1.size + 1 == old(ht1.size)
      ensures found == old(ht1.chains[b][i]) && found in old(nodes) && nodes == old(nodes) - {found}
      ensures ht1.tab == old(ht1.tab) && ht1.mask == old(ht1.mask)
    {
      hide Table.Valid;
      found := ht1.Detach(slot, b, i);
      nodes := nodes - {found};
    }

    /** The same, as the last step of hm_delete. */
    method DeleteNewer(slot: Slot<T>, ghost b: nat, ghost i: nat) returns (found: HNode<T>)
      requires Valid() && ht1.Holds(slot, b, i)
      modifies this`nodes, ht1, ht1.tab, ht1.nodes`next
      ensures Valid() && ht1.tab == old(ht1.tab) && ht1.mask == old(ht1.mask)
      ensures found == old(ht1.chains[b][i]) && found in old(nodes) && nodes == old(nodes) - {found}
    {
      found := TakeNewer(slot, b, i);
    }

    /** h_detach(&ht2, from) for a slot of the older table. */
    method TakeOlder(slot: Slot<T>, ghost b: nat, ghost i: nat) returns (found: HNode<T>)
      requires Valid() && ht2.Holds(slot, b, i)
      modifies this`nodes, ht2, ht2.tab, ht2.nodes`next
      ensures Owned() && Tables() && ht2.size + 1 == old(ht2.size)
      ensures old(Swept()) ==> Swept()
      ensures found == old(ht2.chains[b][i]) && found in old(nodes) && nodes == old(nodes) - {found}
      ensures ht2.mask == old(ht2.mask) && ht2.tab == old(ht2.tab)
    {
      if Swept() {
        SweptIsBefore(ht2.chains, resizingPos, b, Without(ht2.chains[b], i));
      }
      found := ht2.Detach(slot, b, i);
      nodes := nodes - {found};
    }

    /** hm_delete after its helping step, with one repair: the node is detached from the table
        it was found in. The source always gives the newer table to h_detach. */
    method DetachFound(hcode: nat, eq: T -> bool) returns (found: HNode?<T>)
      requires Valid()
      modifies Repr
      ensures Valid() && Repr == old(Repr)
      ensures found != null ==> found in old(nodes) && Matches(found, hcode, eq) && nodes == old(nodes) - {found}
      ensures found == null ==> nodes == old(nodes) && forall n :: n in nodes ==> !Matches(n, hcode, eq)
      ensures ht1.tab == old(ht1.tab) && ht1.mask == old(ht1.mask) && steps == old(steps)
      ensures ht2 == old(ht2) && ht2.tab == old(ht2.tab) && ht2.mask == old(ht2.mask)
      ensures ht2.size == if found != null && found in old(ht2.nodes) then old(ht2.size) - 1 else old(ht2.size)
    {
      hide Table.Valid;
      ghost var b, i;
      var owner, slot;
      owner, slot, b, i := Find(hcode, eq);
      if owner == null {
        found := null;
      } else if owner == ht1 {
        found := DeleteNewer(slot, b, i);
      } else {
        found := TakeOlder(slot, b, i);
      }
    }

    /** hm_delete, with the repair in DetachFound. */
    method Delete(hcode: nat, eq: T -> bool) returns (found: HNode?<T>)
      requires Valid()
      modifies Repr
      ensures Valid() && fresh(Repr - old(Repr))
      ensures found != null ==> found in old(nodes) && Matches(found, hcode, eq) && nodes == old(nodes) - {found}
      ensures found == null ==> nodes == old(nodes) && forall n :: n in nodes ==> !Matches(n, hcode, eq)
      ensures ht1.tab == old(ht1.tab) && ht1.mask == old(ht1.mask)
      ensures ht2.tab != null ==> ht2.tab == old(ht2.tab) && steps == old(steps) + 1 && ht2.mask == old(ht2.mask)
      ensures ht2.size == Left(old(ht2.size)) - (if found != null && found in Later(old(Older())) then 1 else 0)
      ensures ht2.tab != null <==> Left(old(ht2.size)) > 0
    {
      HelpResizing();
      OlderNodes();
      found := DetachFound(hcode, eq);
    }

    /** No node of the newer table matches, and some node of the older one does. */
    ghost predicate OnlyInOlder(hcode: nat, eq: T -> bool)
      reads this, ht1, ht2
    {
      && (forall n :: n in ht1.nodes ==> !Matches(n, hcode, eq))
      && (exists n :: n in ht2.nodes && Matches(n, hcode, eq))
    }

    lemma {:induction false} FoundInOlder(b: nat, i: nat, hcode: nat, eq: T -> bool)
      requires Tables() && b < |ht2.chains| && i < |ht2.chains[b]| && Matches(ht2.chains[b][i], hcode, eq)
      requires forall n :: n in ht1.nodes ==> !Matches(n, hcode, eq)
      ensures OnlyInOlder(hcode, eq)
    {
      assert ht2.chains[b][i] in ht2.chains[b];
    }

    /** h_detach(&ht1, from) for a slot of the older table. */
    method Miscount(slot: Slot<T>, ghost b: nat, ghost i: nat) returns (found: HNode<T>)
      requires Valid() && ht2.Holds(slot, b, i)
      modifies this`nodes, ht1`size, ht2, ht2.tab, ht2.nodes`next
      ensures ht2.size != Total(ht2.chains)
      ensures found == old(ht2.chains[b][i]) && found in old(nodes) && nodes == old(nodes) - {found}
    {
      TotalUpdate(ht2.chains, b, Without(ht2.chains[b], i));
      found := ht2.Unlink(slot, b, i);
      ht1.size := if ht1.size == 0 then 0xFFFF_FFFF_FFFF_FFFF else ht1.size - 1;
      nodes := nodes - {found};
    }

    /** hm_delete after its helping step, exactly as in the source: whatever table the slot
        belongs to, the count of the newer one goes down, wrapping around at zero. The map
        survives exactly when the node was not found in the older table only. */
    method DetachFoundAsWritten(hcode: nat, eq: T -> bool) returns (found: HNode?<T>)
      requires Valid()
      modifies Repr
      ensures Valid() <==> !old(OnlyInOlder(hcode, eq))
      ensures found != null ==> found in old(nodes) && Matches(found, hcode, eq) && nodes == old(nodes) - {found}
      ensures found == null ==> nodes == old(nodes) && forall n :: n in nodes ==> !Matches(n, hcode, eq)
    {
      ghost var b, i;
      var owner, slot;
      owner, slot, b, i := Find(hcode, eq);
      if owner == null {
        found := null;
      } else if owner == ht1 {
        assert ht1.chains[b][i] in ht1.chains[b];
        found := DeleteNewer(slot, b, i);
      } else {
        FoundInOlder(b, i, hcode, eq);
        found := Miscount(slot, b, i);
      }
    }

    /** Some matching node will still be in the older table after the helping step, and none will
        be in the newer one. */
    ghost predicate Stranded(hcode: nat, eq: T -> bool)
      reads this, ht1, ht2
    {
      && (exists n :: n in Later(Older()) && Matches(n, hcode, eq))
      && (forall n :: n in nodes && n !in Later(Older()) ==> !Matches(n, hcode, eq))
    }

    /** hm_delete exactly as in the source. The map survives exactly when the key is not stranded. */
    method DeleteAsWritten(hcode: nat, eq: T -> bool) returns (found: HNode?<T>)
      requires Valid()
      modifies Repr
      ensures Valid() <==> !old(Stranded(hcode, eq))
      ensures found != null ==> found in old(nodes) && Matches(found, hcode, eq) && nodes == old(nodes) - {found}
      ensures found == null ==> nodes == old(nodes) && forall n :: n in nodes ==> !Matches(n, hcode, eq)
    {
      hide Table.Valid, Later, Older;
      HelpResizing();
      OlderNodes();
      found := DetachFoundAsWritten(hcode, eq);
    }

    /** Exactly when the older table holds more than 128 nodes, some will be left behind. Otherwise
        no key is stranded, which is always so when it has at most 16 buckets. */
    lemma StrandedNeedsMany(hcode: nat, eq: T -> bool)
      requires Valid()
      ensures ht2.mask + 1 <= 16 ==> ht2.size <= 128
      ensures Later(Older()) != [] <==> ht2.size > 128
      ensures Stranded(hcode, eq) ==> ht2.size > 128
    {
      ht2.NoNodes();
      OlderNodes();
    }

    /** The key of a node that no other node has is stranded exactly when the node is not among
        the next 128 to be moved. */
    lemma StrandedIff(n: HNode<T>, eq: T -> bool)
      requires Valid() && n in nodes && eq(n.item) && forall m :: m in nodes && m != n ==> !Matches(m, n.hcode, eq)
      ensures Stranded(n.hcode, eq) <==> n in Later(Older())
    {
      OlderNodes();
      assert forall m :: m in Later(Older()) ==> m in Elements(Older());
    }

    /** The body of do_keys: the announced length and the keys of both tables. */
    method Keys() returns (header: nat, out: seq<T>, ghost order: Chain<T>)
      requires Valid()
      ensures header == |out| && out == Items(order) && NoRepeats(order) && Elements(order) == nodes
    {
      hide Table.Shape, Progress;
      header := Size();
      out := ht1.Scan([]);
      out := ht2.Scan(out);
      order := Flatten(ht1.chains) + Flatten(ht2.chains);
      Ordered();
    }

    lemma Ordered()
      requires Valid()
      ensures var order := Flatten(ht1.chains) + Flatten(ht2.chains);
        NoRepeats(order) && Elements(order) == nodes && |order| == Size()
        && Items(order) == Items(Flatten(ht1.chains)) + Items(Flatten(ht2.chains))
    {
      ht1.CountNodes();
      ht2.CountNodes();
      TotalIsLength(ht1.chains);
      TotalIsLength(ht2.chains);
      AppendMembers(Flatten(ht1.chains), Flatten(ht2.chains));
    }

    /** The size is the number of nodes, and less than nine times the number of buckets. */
    lemma SizeBound()
      requires Valid()
      ensures Size() == |nodes|
      ensures ht1.tab != null ==> Size() < 9 * (ht1.mask + 1)
    {
      ht1.CountNodes();
      ht2.CountNodes();
      ht2.NoNodes();
    }

    lemma NoBuckets()
      requires Valid()
      ensures ht1.tab == null ==> Size() == 0 && ht1.mask == 0 && ht2.tab == null
      ensures ht2.tab == null ==> ht2.size == 0
    {
      ht1.NoNodes();
      ht2.NoNodes();
    }

    /** An older table of n buckets is there for less than ceil(9n / 128) operations, and the newer
        table is not full before it goes. */
    lemma MigrationBound()
      requires Valid() && ht2.tab != null
      ensures 0 < steps < (9 * (ht2.mask + 1) + 127) / 128
      ensures ht1.tab != null && 2 * (ht2.mask + 1) == ht1.mask + 1 && |nodes| < 9 * (ht1.mask + 1)
    {
      SizeBound();
      ht2.NoNodes();
    }

    /** hm_size. */
    function Size(): nat
      reads this, ht1, ht2
    {
      ht1.size + ht2.size
    }
  }
}
