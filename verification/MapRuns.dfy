/** Whole runs of the hash map: it holds one set of nodes at every moment, and every resize is over
    in time. */
module MapRuns {
  import opened Common
  import opened HashTab
  import opened HashMap

  datatype Op<!T> = Put(hcode: nat, item: T) | Get(hcode: nat, eq: T -> bool) | Remove(hcode: nat, eq: T -> bool)

  /** What can be said of a map without its links: moving is the number of buckets of the older
      table, 0 if there is none, older the number of its nodes, and steps the number of operations
      since the resize started. */
  datatype View<!T> = View(nodes: set<HNode<T>>, buckets: nat, moving: nat, older: nat, steps: nat)

  ghost predicate NoMatch<T(!new)>(nodes: set<HNode<T>>, hcode: nat, eq: T -> bool) {
    forall n :: n in nodes ==> !Matches(n, hcode, eq)
  }

  /** The contents after an operation, and its reply. */
  ghost predicate Contents<T(!new)>(before: set<HNode<T>>, op: Op<T>, reply: HNode?<T>, after: set<HNode<T>>) {
    match op
    case Put(hcode, item) =>
      reply != null && reply !in before && reply.hcode == hcode && reply.item == item && after == before + {reply}
    case Get(hcode, eq) =>
      && after == before
      && if reply == null then NoMatch(before, hcode, eq) else reply in before && Matches(reply, hcode, eq)
    case Remove(hcode, eq) =>
      if reply == null then after == before && NoMatch(before, hcode, eq)
      else reply in before && Matches(reply, hcode, eq) && after == before - {reply}
  }

  /** The operation starts a resize. */
  predicate Grows<T>(before: View<T>, op: Op<T>) {
    op.Put? && before.moving == 0 && before.buckets > 0 && |before.nodes| + 1 == 9 * before.buckets
  }

  /** Buckets double exactly at nine nodes a bucket. Each operation moves 128 nodes out of the older
      table, or all that are there, which ends the resize; a removal may take one more of them. */
  predicate Resizing<T>(before: View<T>, op: Op<T>, after: View<T>) {
    var left := Left(if Grows(before, op) then |before.nodes| + 1 else before.older);
    && after.buckets ==
       (if Grows(before, op) then 2 * before.buckets
        else if op.Put? && before.buckets == 0 then 4
        else before.buckets)
    && after.older <= left <= after.older + (if op.Remove? then 1 else 0)
    && (after.moving > 0 <==> left > 0)
    && (after.moving > 0 ==>
          if Grows(before, op) then after.moving == before.buckets && after.steps == 1
          else after.moving == before.moving && after.steps == before.steps + 1)
  }

  predicate Bounded<T>(v: View<T>) {
    && (v.buckets > 0 ==> |v.nodes| < 9 * v.buckets)
    && (v.moving > 0 ==> v.buckets == 2 * v.moving && 0 < v.steps < Operations(v.moving))
    && (v.moving == 0 ==> v.older == 0)
  }

  /** ceil(9n / 128) */
  function Operations(n: nat): nat { (9 * n + 127) / 128 }

  ghost function ViewOf<T(!new)>(m: HMap<T>): (v: View<T>)
    requires m.Valid()
    ensures v.nodes == m.nodes
    reads m, m.ht1, m.ht2, m.ht1.tab, m.ht2.tab, m.ht1.nodes`next, m.ht2.nodes`next
  {
    View(m.nodes, if m.ht1.tab == null then 0 else m.ht1.mask + 1, if m.ht2.tab == null then 0 else m.ht2.mask + 1,
      m.ht2.size, m.steps)
  }

  lemma {:induction false} ViewBounded<T(!new)>(m: HMap<T>)
    requires m.Valid()
    ensures Bounded(ViewOf(m)) && m.Size() == |m.nodes|
  {
    hide HMap.Valid;
    m.SizeBound();
    m.NoBuckets();
    if m.ht2.tab != null {
      m.MigrationBound();
    }
  }

  method Do<T(!new)>(m: HMap<T>, op: Op<T>) returns (reply: HNode?<T>)
    requires m.Valid()
    modifies m.Repr
    ensures m.Valid() && fresh(m.Repr - old(m.Repr))
    ensures Contents(old(m.nodes), op, reply, m.nodes) && Resizing(old(ViewOf(m)), op, ViewOf(m))
  {
    hide HMap.Valid;
    ViewBounded(m);
    match op
    case Put(hcode, item) =>
      var node := new HNode(hcode, item);
      m.Insert(node);
      reply := node;
    case Get(hcode, eq) => reply := m.Lookup(hcode, eq);
    case Remove(hcode, eq) => reply := m.Delete(hcode, eq);
  }

  ghost predicate History<T(!new)>(history: seq<View<T>>, ops: seq<Op<T>>, replies: seq<HNode?<T>>) {
    && |history| == |ops| + 1 && |replies| == |ops|
    && (forall i :: 0 <= i < |history| ==> Bounded(history[i]))
    && forall i, j :: 0 <= i < |ops| && j == i + 1 ==>
         Contents(history[i].nodes, ops[i], replies[i], history[j].nodes) && Resizing(history[i], ops[i], history[j])
  }

  /** Every run: the two tables together behave as one set of nodes, and stay within bounds. */
  method Run<T(!new)>(m: HMap<T>, ops: seq<Op<T>>) returns (replies: seq<HNode?<T>>, ghost history: seq<View<T>>)
    requires m.Valid()
    modifies m.Repr
    ensures m.Valid() && |history| == |ops| + 1 && History(history, ops, replies)
    ensures history[0] == old(ViewOf(m)) && history[|ops|] == ViewOf(m)
  {
    hide HMap.Valid, Contents, Resizing, Bounded, ViewOf;
    ViewBounded(m);
    replies, history := [], [ViewOf(m)];
    for i := 0 to |ops|
      invariant m.Valid() && fresh(m.Repr - old(m.Repr))
      invariant |replies| == i && |history| == i + 1 && History(history, ops[..i], replies)
      invariant history[0] == old(ViewOf(m)) && history[i] == ViewOf(m) && m.nodes == history[i].nodes
    {
      var reply := Do(m, ops[i]);
      ViewBounded(m);
      replies, history := replies + [reply], history + [ViewOf(m)];
    }
    assert ops[..|ops|] == ops;
  }

  /** An operation that starts no resize and removes nothing leaves 128 nodes fewer in the older
      table, or none. */
  lemma {:induction false} OperationMoves<T>(before: View<T>, op: Op<T>, after: View<T>)
    requires Resizing(before, op, after) && !Grows(before, op) && !op.Remove?
    ensures after.older == if before.older <= 128 then 0 else before.older - 128
    ensures after.moving > 0 <==> before.older > 128
  {
  }

  /** A resize that is still going on has been for the operations since it started. */
  lemma {:induction false} StepsCount<T(!new)>(history: seq<View<T>>, ops: seq<Op<T>>, replies: seq<HNode?<T>>, i: nat, j: nat)
    requires History(history, ops, replies) && i <= j <= |ops|
    requires forall k :: i <= k <= j ==> history[k].moving > 0
    ensures history[j].moving == history[i].moving && history[j].steps == history[i].steps + (j - i)
    decreases j
  {
    hide Contents, Bounded;
    if i < j {
      StepsCount(history, ops, replies, i, j - 1);
      assert Resizing(history[j - 1], ops[j - 1], history[j]);
    }
  }

  /** A resize of n buckets that starts with the operation before history[i] is over after
      ceil(9n / 128) operations, that one included. */
  lemma {:induction false} ResizeEnds<T(!new)>(history: seq<View<T>>, ops: seq<Op<T>>, replies: seq<HNode?<T>>, i: nat)
    requires History(history, ops, replies) && i <= |ops|
    requires history[i].moving > 0 && history[i].steps == 1 && i + Operations(history[i].moving) <= |ops| + 1
    ensures exists k :: i < k < i + Operations(history[i].moving) && history[k].moving == 0
  {
    hide Contents, Resizing;
    var j := i + Operations(history[i].moving) - 1;
    assert Bounded(history[i]) && Bounded(history[j]);
    if forall k :: i <= k <= j ==> history[k].moving > 0 {
      StepsCount(history, ops, replies, i, j);
    }
  }

  /** A resize that starts with N buckets goes on after the insertion that starts it exactly when
      9N nodes are more than one step moves; then ResizeEnds says how long. */
  lemma ResizeGoesOn<T(!new)>(history: seq<View<T>>, ops: seq<Op<T>>, replies: seq<HNode?<T>>, i: nat)
    requires History(history, ops, replies) && i < |ops| && Grows(history[i], ops[i])
    ensures var n, after := history[i].buckets, history[i + 1];
      && (after.moving > 0 <==> 9 * n > 128)
      && (after.moving > 0 ==> after.moving == n && after.steps == 1 && after.older == 9 * n - 128)
  {
    hide Contents, Bounded;
    var next := i + 1;
    assert Resizing(history[i], ops[i], history[next]);
  }

  // ---------- A map that the unrepaired hm_delete breaks ----------

  function Is(k: nat): nat -> bool { x => x == k }

  /** The number of buckets and of nodes in the older table after k insertions into a new map. */
  function BucketsAfter(k: nat): nat
    requires k <= 288
  {
    if k == 0 then 0 else if k < 36 then 4 else if k < 72 then 8 else if k < 144 then 16 else if k < 288 then 32 else 64
  }

  function OlderAfter(k: nat): nat { if k == 144 then 16 else if k == 288 then 160 else 0 }

  /** The map holds the keys below k, once each. */
  ghost predicate Holds(m: HMap<nat>, k: nat)
    reads m
  {
    && (forall n :: n in m.nodes ==> n.item == n.hcode < k)
    && (forall n, o :: n in m.nodes && o in m.nodes && n.hcode == o.hcode ==> n == o)
  }

  ghost predicate After(m: HMap<nat>, k: nat)
    requires k <= 288
    reads m, m.ht1, m.ht2
  {
    && m.Size() == k && (m.ht1.tab == null <==> k == 0) && (k > 0 ==> m.ht1.mask + 1 == BucketsAfter(k))
    && m.ht2.size == OlderAfter(k) && (m.ht2.tab != null <==> m.ht2.size > 0)
  }

  /** One of the 288 insertions. */
  method FillOne(m: HMap<nat>, k: nat)
    requires m.Valid() && k < 288 && After(m, k) && Holds(m, k)
    modifies m.Repr
    ensures m.Valid() && fresh(m.Repr - old(m.Repr)) && After(m, k + 1) && Holds(m, k + 1)
    ensures k == 287 ==> m.ht2.mask + 1 == 32
  {
    hide HMap.Valid;
    m.NoBuckets();
    var node := new HNode(k, k);
    m.Insert(node);
  }

  /** Inserting 288 different keys starts the resize from 32 to 64 buckets and leaves 160 nodes in
      the older table. */
  method Fill() returns (m: HMap<nat>)
    ensures m.Valid() && fresh(m.Repr) && Holds(m, 288) && m.ht2.tab != null && m.ht2.mask + 1 == 32 && m.ht2.size == 160
  {
    hide HMap.Valid;
    m := new HMap<nat>();
    m.NoBuckets();
    for k := 0 to 288
      invariant m.Valid() && fresh(m.Repr) && After(m, k) && Holds(m, k)
      invariant k == 288 ==> m.ht2.mask + 1 == 32
    {
      FillOne(m, k);
    }
  }

  /** The next helping step leaves 32 of these nodes. The literal deletion of one of them, the last
      one, breaks the map. */
  method Break() returns (m: HMap<nat>)
    ensures !m.Valid()
  {
    hide Table.Valid, Table.Shape, HMap.Stranded;
    m := Fill();
    m.OlderNodes();
    var last := m.ht2.Last();
    assert last in Elements(m.Older());
    assert last == Later(m.Older())[|Later(m.Older())| - 1];
    m.StrandedIff(last, Is(last.item));
    var found := m.DeleteAsWritten(last.hcode, Is(last.item));
  }
}
