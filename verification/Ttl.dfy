/** common.cpp and timer.cpp: keys that expire. The hash map finds an entry by key, the heap finds
    the entry that expires first. */
module Ttl {
  import opened Bytes
  import opened Common
  import opened HashTab
  import opened HashMap
  import opened Heap
  import Codec

  const MAX_WORKS: nat := 2000
  const TWO64: nat := 0x1_0000_0000_0000_0000

  /** get_monotonic_usec() + (uint64_t)ttl_ms * 1000, in 64-bit arithmetic. */
  function Deadline(now: nat, ttlMs: nat): nat { (now + ttlMs * 1000 % TWO64) % TWO64 }

  /** The deadline is the intended one unless it does not fit 64 bits; then it is earlier than
      intended. */
  lemma DeadlineIsExact(now: nat, ttlMs: nat)
    ensures Deadline(now, ttlMs) == now + ttlMs * 1000 <==> now + ttlMs * 1000 < 0x1_0000_0000_0000_0000
    ensures Deadline(now, ttlMs) <= now + ttlMs * 1000
    ensures Deadline(now, ttlMs) == (now + ttlMs * 1000) % 0x1_0000_0000_0000_0000
  {
    var t := ttlMs * 1000;
    assert t == t / TWO64 * TWO64 + t % TWO64;
    assert t < TWO64 ==> t % TWO64 == t;
  }

  /** No key occurs twice. */
  predicate DistinctKeys(es: set<Entry>) {
    forall d, e :: d in es && e in es && d.key == e.key ==> d == e
  }

  lemma DistinctWith(es: set<Entry>, e: Entry)
    requires DistinctKeys(es) && e !in es
    ensures DistinctKeys(es + {e}) <==> e.key !in set d | d in es :: d.key
  {
  }

  /** Values of entries as values of their keys. */
  function ByKey<V>(vals: map<Entry, V>): map<ByteString, V>
    requires DistinctKeys(vals.Keys)
  {
    map e | e in vals :: e.key := vals[e]
  }

  lemma ByKeyDropped<V>(vals: map<Entry, V>, e: Entry, all: set<Entry>)
    requires DistinctKeys(all) && vals.Keys <= all && e in all
    ensures ByKey(vals - {e}) == ByKey(vals) - {e.key}
  {
  }

  lemma {:induction false} ByKeySet<V>(vals: map<Entry, V>, e: Entry, val: V, all: set<Entry>)
    requires DistinctKeys(all) && vals.Keys <= all && e in all
    ensures ByKey(vals[e := val]) == ByKey(vals)[e.key := val]
  {
    assert vals[e := val].Keys == vals.Keys + {e};
  }

  ghost function KeysOf(es: seq<Entry>): set<ByteString> { set e | e in es :: e.key }

  /** Different entries, whose deadlines are in order and before now. */
  ghost predicate ExpiredInOrder(vals: map<Entry, nat>, es: seq<Entry>, now: nat) {
    && (forall i :: 0 <= i < |es| ==> es[i] in vals && vals[es[i]] < now)
    && (forall i, j :: 0 <= i < j < |es| ==> es[i] != es[j] && vals[es[i]] <= vals[es[j]])
  }

  lemma ByKeyRemoved<V>(vals: map<Entry, V>, es: seq<Entry>, all: set<Entry>)
    requires DistinctKeys(all) && vals.Keys <= all && Elements(es) <= all
    ensures ByKey(vals - Elements(es)) == ByKey(vals) - KeysOf(es)
    ensures (set e | e in all - Elements(es) :: e.key) == (set e | e in all :: e.key) - KeysOf(es)
  {
  }

  /** The keys of entries, in order. */
  function KeyList(es: seq<Entry>): seq<ByteString> {
    seq(|es|, i requires 0 <= i < |es| => es[i].key)
  }

  class Store {
    const db: HMap<Entry>
    const heap: MinHeap
    const hash: ByteString -> nat // str_hash: any function will do

    ghost var entries: set<Entry>
    ghost var nodeOf: map<Entry, HNode<Entry>> // the HNode embedded in each entry

    /** The hash map holds the embedded nodes of all entries but those of missing. */
    ghost predicate IndexOk(missing: set<Entry>)
      reads this`entries, this`nodeOf, db, db.ht1, db.ht2, db.ht1.tab, db.ht2.tab, db.ht1.nodes`next, db.ht2.nodes`next
    {
      && db.Valid() && nodeOf.Keys == entries
      && (forall e :: e in entries && e !in missing ==> nodeOf[e] in db.nodes && nodeOf[e].item == e)
      && (forall n :: n in db.nodes ==>
            n.item in entries && n.item !in missing && nodeOf[n.item] == n && n.hcode == hash(n.item.key))
    }

    /** heapIdx is a bijection between the entries with a deadline and the heap slots. */
    ghost predicate HeapOk()
      reads this`entries, heap, entries`heapIdx
    {
      && Refs(heap.a) <= entries && heap.Valid()
      && forall e :: e in entries ==> (e.heapIdx == -1 <==> e !in Refs(heap.a))
    }

    ghost predicate Unique()
      reads this`entries
    {
      DistinctKeys(entries)
    }

    ghost predicate Apart()
      reads this`entries, db`Repr
    {
      this !in db.Repr && heap !in db.Repr && forall e :: e in entries ==> e !in db.Repr
    }

    ghost predicate Valid()
      reads this, heap, entries`heapIdx,
            db, db.ht1, db.ht2, db.ht1.tab, db.ht2.tab, db.ht1.nodes`next, db.ht2.nodes`next
    {
      IndexOk({}) && HeapOk() && Unique() && Apart()
    }

    ghost function Keys(): set<ByteString>
      reads this`entries
    {
      set e | e in entries :: e.key
    }

    /** The value of each entry. */
    ghost function Strings(): map<Entry, ByteString>
      reads this`entries, entries`val
    {
      map e | e in entries :: e.val
    }

    /** The value of each key. */
    ghost function Values(): map<ByteString, ByteString>
      requires Unique()
      reads this`entries, entries`val
    {
      ByKey(Strings())
    }

    lemma ValuesHaveKeys()
      requires Unique()
      ensures Values().Keys == Keys()
    {
    }

    /** The deadline of each key that has one. */
    ghost function Deadlines(): map<ByteString, nat>
      requires Unique() && DistinctRefs(heap.a) && Refs(heap.a) <= entries
      reads this`entries, heap
    {
      ValsKeys(heap.a);
      ByKey(heap.Vals())
    }

    constructor (hash: ByteString -> nat)
      ensures Valid() && entries == {} && Values() == map[] && Deadlines() == map[] && this.hash == hash && fresh(db.Repr) && fresh(heap)
    {
      hide HMap.Valid, IndexOk, HeapOk, Unique, Apart, DistinctKeys, ByKey, Strings, ValsOf, Heap.Ordered;
      this.hash := hash;
      db := new HMap<Entry>();
      heap := new MinHeap();
      entries, nodeOf := {}, map[];
      new;
      EmptyIsValid();
    }

    lemma EmptyIsValid()
      requires db.Valid() && db.nodes == {} && heap.a == [] && entries == {} && nodeOf == map[]
      requires this !in db.Repr && heap !in db.Repr
      ensures Valid() && Values() == map[] && Deadlines() == map[]
    {
      hide HMap.Valid;
      assert Strings() == map[] && heap.Vals() == map[];
    }

    /** hm_lookup of a key. */
    method Find(key: ByteString) returns (e: Entry?)
      requires Valid()
      modifies db.Repr
      ensures Valid() && fresh(db.Repr - old(db.Repr))
      ensures e == null ==> key !in Keys()
      ensures e != null ==> e in entries && e.key == key
      ensures Deadlines() == old(Deadlines()) && Strings() == old(Strings())
    {
      hide HMap.Valid, HeapOk;
      var eq := (e: Entry) => e.key == key;
      var found := db.Lookup(hash(key), eq);
      if found == null {
        e := null;
        assert forall d :: d in entries ==> !Matches(nodeOf[d], hash(key), eq);
      } else {
        e := found.item;
      }
    }

    /** entry_set_ttl. */
    method SetTtl(e: Entry, ttlMs: int, now: nat)
      requires HeapOk() && Unique() && e in entries
      modifies heap, entries`heapIdx
      ensures HeapOk()
      ensures Deadlines() == if ttlMs < 0 then old(Deadlines()) - {e.key} else old(Deadlines())[e.key := Deadline(now, ttlMs)]
    {
      hide ValsOf, ByKey, Heap.Ordered;
      ghost var vals := heap.Vals();
      ValsKeys(heap.a);
      ByKeyDropped(vals, e, entries);
      if ttlMs < 0 && e.heapIdx != -1 {
        heap.Remove(e);
      } else if ttlMs >= 0 {
        ByKeySet(vals, e, Deadline(now, ttlMs), entries);
        heap.Put(e, Deadline(now, ttlMs));
      } else {
        assert vals - {e} == vals;
      }
    }

    /** do_expire. */
    method Expire(key: ByteString, ttlMs: int, now: nat) returns (reply: int)
      requires Valid()
      modifies db.Repr, heap, entries`heapIdx
      ensures Valid() && fresh(db.Repr - old(db.Repr)) && entries == old(entries) && Values() == old(Values())
      ensures reply == if key in Keys() then 1 else 0
      ensures Deadlines() ==
        if key !in Keys() then old(Deadlines())
        else if ttlMs < 0 then old(Deadlines()) - {key}
        else old(Deadlines())[key := Deadline(now, ttlMs)]
    {
      hide HMap.Valid, HeapOk, ByKey;
      var e := Find(key);
      if e != null {
        SetTtl(e, ttlMs, now);
        assert e.key in Keys();
        reply := 1;
      } else {
        reply := 0;
      }
    }

    /** do_ttl: the milliseconds left, -1 without a deadline, -2 without the key. */
    method TimeLeft(key: ByteString, now: nat) returns (reply: int)
      requires Valid()
      modifies db.Repr
      ensures Valid() && fresh(db.Repr - old(db.Repr)) && entries == old(entries)
      ensures Deadlines() == old(Deadlines()) && Values() == old(Values())
      ensures reply ==
        if key !in Keys() then -2
        else if key !in Deadlines() then -1
        else if Deadlines()[key] > now then (Deadlines()[key] - now) / 1000
        else 0
    {
      hide HMap.Valid, HeapOk, ByKey;
      var e := Find(key);
      if e == null {
        return -2;
      }
      assert e.key in Keys();
      EntryDeadline(e);
      if e.heapIdx == -1 {
        return -1;
      }
      var expireAt := heap.a[e.heapIdx].val;
      reply := if expireAt > now then (expireAt - now) / 1000 else 0;
    }

    lemma DeadlinesHaveKeys()
      requires HeapOk() && Unique()
      ensures Deadlines().Keys <= Keys()
    {
      ValsKeys(heap.a);
    }

    /** What heapIdx says about an entry. */
    lemma {:induction false} EntryDeadline(e: Entry)
      requires HeapOk() && Unique() && e in entries
      ensures e.key in Deadlines() <==> e.heapIdx != -1
      ensures e.heapIdx != -1 ==> 0 <= e.heapIdx < |heap.a| && heap.a[e.heapIdx].val == Deadlines()[e.key]
    {
      ValsKeys(heap.a);
      if e in Refs(heap.a) {
        heap.IndexOfRef(e);
        assert heap.a[e.heapIdx] in heap.a;
      }
    }

    /** hm_delete of a key; the entry found stays in the heap if it is there. */
    method Take(key: ByteString) returns (e: Entry?)
      requires Valid()
      modifies db.Repr
      ensures fresh(db.Repr - old(db.Repr)) && HeapOk() && Unique() && Apart()
      ensures e == null ==> IndexOk({}) && key !in Keys()
      ensures e != null ==> IndexOk({e}) && e in entries && e.key == key
      ensures Deadlines() == old(Deadlines()) && Strings() == old(Strings()) && heap.Vals() == old(heap.Vals())
    {
      hide HMap.Valid, HeapOk, ByKey;
      var eq := (e: Entry) => e.key == key;
      var found := db.Delete(hash(key), eq);
      if found == null {
        e := null;
        assert forall d :: d in entries ==> !Matches(nodeOf[d], hash(key), eq);
      } else {
        e := found.item;
      }
    }

    /** entry_del of an entry that is not in the hash map any more. */
    ghost method Forget(e: Entry)
      requires IndexOk({e}) && e in entries
      modifies this`entries, this`nodeOf
      ensures IndexOk({}) && entries == old(entries) - {e} && Strings() == old(Strings()) - {e}
      ensures old(HeapOk()) ==> (HeapOk() <==> e.heapIdx == -1)
    {
      hide HMap.Valid, MinHeap.Valid;
      entries, nodeOf := entries - {e}, map d | d in entries && d != e :: nodeOf[d];
    }

    /** do_del, with one repair: the deadline goes before the entry does. */
    method Del(key: ByteString) returns (reply: int)
      requires Valid()
      modifies this, db.Repr, heap, entries`heapIdx
      ensures Valid() && entries <= old(entries) && fresh(db.Repr - old(db.Repr))
      ensures reply == if key in old(Keys()) then 1 else 0
      ensures Values() == old(Values()) - {key} && Deadlines() == old(Deadlines()) - {key}
    {
      hide HMap.Valid, ByKey, HeapOk, IndexOk;
      DeadlinesHaveKeys();
      ValuesHaveKeys();
      var e := Take(key);
      if e != null {
        SetTtl(e, -1, 0);
        EntryDeadline(e);
        ByKeyDropped(Strings(), e, entries);
        Forget(e);
        reply := 1;
      } else {
        reply := 0;
      }
    }

    /** do_del exactly as in the source: the entry goes and its heap item stays. The store
        survives exactly when the key had no deadline, and then nothing else has changed. */
    method DelAsWritten(key: ByteString) returns (reply: int)
      requires Valid()
      modifies this, db.Repr
      ensures reply == if key in old(Keys()) then 1 else 0
      ensures Valid() <==> key !in old(Deadlines())
      ensures key !in old(Deadlines()) ==> Values() == old(Values()) - {key} && Deadlines() == old(Deadlines())
    {
      hide HMap.Valid, ByKey, HeapOk, IndexOk;
      DeadlinesHaveKeys();
      ValuesHaveKeys();
      var e := Take(key);
      if e != null {
        EntryDeadline(e);
        ByKeyDropped(Strings(), e, entries);
        Forget(e);
        reply := 1;
      } else {
        reply := 0;
      }
    }

    /** do_set, with one repair: an existing key keeps its one entry, which gets the value. The
        source puts a second entry with the same key into the map. */
    method Set(key: ByteString, val: ByteString)
      requires Valid()
      modifies this, db.Repr, entries`val
      ensures Valid() && fresh(db.Repr - old(db.Repr)) && fresh(entries - old(entries))
      ensures Values() == old(Values())[key := val] && Deadlines() == old(Deadlines())
    {
      hide HMap.Valid, ByKey, IndexOk;
      var e := Find(key);
      ghost var strings := Strings();
      if e == null {
        e := new Entry(key, val);
        ByKeySet(strings, e, val, entries + {e});
        AddEntry(e);
      } else {
        ByKeySet(strings, e, val, entries);
        e.val := val;
      }
      assert Strings() == strings[e := val];
    }

    /** do_set exactly as in the source: it never looks for an existing key. The store survives
        exactly when there is none, and then it has gained the key and the value. */
    method SetAsWritten(key: ByteString, val: ByteString)
      requires Valid()
      modifies this, db.Repr
      ensures fresh(db.Repr - old(db.Repr)) && (Valid() <==> key !in old(Keys()))
      ensures key !in old(Keys()) ==> Values() == old(Values())[key := val] && Deadlines() == old(Deadlines())
    {
      hide HMap.Valid, ByKey, IndexOk, HeapOk;
      var e := new Entry(key, val);
      ghost var strings, all := Strings(), entries + {e};
      AddEntry(e);
      if key !in old(Keys()) {
        ByKeySet(strings, e, val, all);
      }
    }

    /** do_get. */
    method Get(key: ByteString) returns (val: Option<ByteString>)
      requires Valid()
      modifies db.Repr
      ensures Valid() && fresh(db.Repr - old(db.Repr)) && entries == old(entries)
      ensures Deadlines() == old(Deadlines()) && Values() == old(Values())
      ensures val == if key in Values() then Some(Values()[key]) else None
    {
      hide HMap.Valid, HeapOk, IndexOk;
      ValuesHaveKeys();
      var e := Find(key);
      if e == null {
        return None;
      }
      assert Strings()[e] == e.val;
      val := Some(e.val);
    }

    /** hm_insert of a new entry. */
    method AddEntry(e: Entry)
      requires Valid() && e !in entries && e.heapIdx == -1 && e !in db.Repr
      modifies this, db.Repr
      ensures IndexOk({}) && HeapOk() && Apart() && (Unique() <==> e.key !in old(Keys()))
      ensures fresh(db.Repr - old(db.Repr)) && entries == old(entries) + {e} && Strings() == old(Strings())[e := e.val]
    {
      hide HMap.Valid, ByKey, HeapOk, DistinctKeys, Strings, Keys;
      var n := new HNode(hash(e.key), e);
      Announce(e, n);
      db.Insert(n);
    }

    /** An entry joins the store before its node joins the hash map. */
    ghost method Announce(e: Entry, n: HNode<Entry>)
      requires IndexOk({}) && HeapOk() && Unique() && e !in entries && e.heapIdx == -1
      modifies this`entries, this`nodeOf
      ensures IndexOk({e}) && HeapOk() && entries == old(entries) + {e} && nodeOf == old(nodeOf)[e := n]
      ensures (Unique() <==> e.key !in old(Keys())) && Strings() == old(Strings())[e := e.val]
    {
      hide HMap.Valid, MinHeap.Valid, DistinctKeys;
      DistinctWith(entries, e);
      entries, nodeOf := entries + {e}, nodeOf[e := n];
    }

    /** The entry of the first heap item expires first. */
    method RootEntry() returns (e: Entry)
      requires HeapOk() && |heap.a| > 0
      ensures e == heap.a[0].ref && e in Refs(heap.a) && e in entries
      ensures e in heap.Vals() && heap.Vals()[e] == heap.a[0].val
      ensures forall d :: d in heap.Vals() ==> heap.a[0].val <= heap.Vals()[d]
    {
      RootIsSmallestVal(heap.a);
      ValsKeys(heap.a);
      e := heap.a[0].ref;
    }

    lemma SameEntry(d: Entry, e: Entry)
      requires Unique() && d in entries && e in entries && d.key == e.key
      ensures d == e
    {
    }

    /** One turn of the expiry loop, for the entry of the first heap item. The lookup by its key
        leads back to that very entry. */
    method ExpireRoot() returns (e: Entry)
      requires Valid() && |heap.a| > 0
      modifies this, db.Repr, heap, entries`heapIdx
      ensures Valid() && fresh(db.Repr - old(db.Repr)) && e.heapIdx == -1 && DistinctRefs(heap.a)
      ensures e in old(heap.Vals()) && old(heap.Vals())[e] == old(heap.a)[0].val
      ensures forall d :: d in old(heap.Vals()) ==> old(heap.a)[0].val <= old(heap.Vals())[d]
      ensures e in old(entries) && entries == old(entries) - {e} && Strings() == old(Strings()) - {e}
      ensures heap.Vals() == old(heap.Vals()) - {e}
    {
      hide HMap.Valid, ByKey, IndexOk, HeapOk, Heap.Ordered;
      e := RootEntry();
      var ent := Take(e.key);
      assert e.key in Keys();
      SameEntry(ent, e);
      Drop(e);
      Forget(e);
      ValsAreOfEntries();
    }

    /** An entry's item leaves the heap. */
    method Drop(e: Entry)
      requires HeapOk() && Unique() && e in entries && e in Refs(heap.a)
      modifies heap, entries`heapIdx
      ensures HeapOk() && e.heapIdx == -1 && heap.Vals() == old(heap.Vals()) - {e}
    {
      hide ValsOf, Heap.Ordered;
      heap.Remove(e);
    }

    lemma ValsAreOfEntries()
      requires HeapOk()
      ensures DistinctRefs(heap.a) && heap.Vals().Keys <= entries
    {
      ValsKeys(heap.a);
    }

    /** Why the expiry loop stops early. */
    lemma {:induction false} NoneLeft(now: nat)
      requires HeapOk()
      ensures (|heap.a| > 0 && heap.a[0].val < now) || forall e :: e in heap.Vals() ==> heap.Vals()[e] >= now
    {
      if |heap.a| > 0 {
        RootIsSmallestVal(heap.a);
      }
    }

    /** What the expiry loop has done to entries that had these deadlines and strings. */
    ghost predicate Expired(vals: map<Entry, nat>, strings: map<Entry, ByteString>, removed: seq<Entry>, now: nat)
      requires DistinctRefs(heap.a)
      reads this`entries, heap, entries`val, removed`heapIdx, db`Repr
    {
      && ExpiredInOrder(vals, removed, now) && (forall e :: e in removed ==> e.heapIdx == -1 && e !in db.Repr)
      && entries == strings.Keys - Elements(removed) && Strings() == strings - Elements(removed)
      && heap.Vals() == vals - Elements(removed)
      && forall e, d :: e in removed && d in heap.Vals() ==> vals[e] <= vals[d]
    }

    /** Another entry has gone. */
    lemma OneMoreExpired(vals: map<Entry, nat>, strings: map<Entry, ByteString>, removed: seq<Entry>, e: Entry, now: nat)
      requires DistinctRefs(heap.a) && ExpiredInOrder(vals, removed, now) && e !in removed && vals.Keys <= strings.Keys
      requires forall d :: d in removed + [e] ==> d.heapIdx == -1 && d !in db.Repr
      requires e in vals && vals[e] < now
      requires forall d :: d in removed ==> vals[d] <= vals[e]
      requires forall d :: d in vals && d !in removed ==> vals[e] <= vals[d]
      requires heap.Vals() == vals - Elements(removed) - {e}
      requires entries == strings.Keys - Elements(removed) - {e} && Strings() == strings - Elements(removed) - {e}
      ensures Expired(vals, strings, removed + [e], now)
    {
      hide ValsOf;
      var more := removed + [e];
      assert Elements(more) == Elements(removed) + {e};
      assert forall i :: 0 <= i < |removed| ==> removed[i] in removed;
    }

    /** The expiry loop of process_timers. The entries go in the order of their deadlines, all of
        them past; unless the loop stops at its work limit, no past deadline stays. */
    method ProcessExpired(now: nat) returns (removed: seq<Entry>)
      requires Valid()
      modifies this, db.Repr, heap, entries`heapIdx
      ensures Valid() && fresh(db.Repr - old(db.Repr)) && |removed| <= 2001
      ensures Expired(old(heap.Vals()), old(Strings()), removed, now)
      ensures |removed| <= 2000 ==> forall e :: e in heap.Vals() ==> heap.Vals()[e] >= now
      ensures Values() == old(Values()) - KeysOf(removed) && Deadlines() == old(Deadlines()) - KeysOf(removed)
    {
      hide HMap.Valid, ByKey, IndexOk, HeapOk, Heap.Ordered, ValsOf;
      removed := [];
      ValsAreOfEntries();
      ghost var vals, strings, all := heap.Vals(), Strings(), entries;
      var nworks := 0;
      while |heap.a| > 0 && heap.a[0].val < now
        invariant Valid() && fresh(db.Repr - old(db.Repr)) && entries <= all && DistinctRefs(heap.a)
        invariant nworks == |removed| <= MAX_WORKS && Expired(vals, strings, removed, now)
        decreases MAX_WORKS - nworks
      {
        hide ExpiredInOrder, Elements;
        removed := ExpireNext(vals, strings, removed, now);
        nworks := nworks + 1;
        if nworks - 1 >= MAX_WORKS {
          break;
        }
      }
      NoneLeft(now);
      ByKeyRemoved(vals, removed, all);
      ByKeyRemoved(strings, removed, all);
    }

    /** One turn of the loop. */
    method ExpireNext(ghost vals: map<Entry, nat>, ghost strings: map<Entry, ByteString>, before: seq<Entry>, now: nat)
      returns (removed: seq<Entry>)
      requires Valid() && DistinctRefs(heap.a) && |heap.a| > 0 && heap.a[0].val < now
      requires Expired(vals, strings, before, now) && vals.Keys <= strings.Keys
      modifies this, db.Repr, heap, entries`heapIdx
      ensures Valid() && fresh(db.Repr - old(db.Repr)) && DistinctRefs(heap.a) && entries <= old(entries)
      ensures |removed| == |before| + 1 && Expired(vals, strings, removed, now)
    {
      hide HMap.Valid, IndexOk, HeapOk, Heap.Ordered, ValsOf, ByKey, Unique, Strings;
      ghost var vals' := heap.Vals();
      var e := ExpireRoot();
      assert forall d :: d in vals && d !in before ==> d in vals' && vals[d] == vals'[d];
      OneMoreExpired(vals, strings, before, e, now);
      removed := before + [e];
    }

    /** Scanning the tables of the hash map meets every entry once. */
    method AllEntries() returns (header: nat, out: seq<Entry>)
      requires Valid()
      ensures header == |out| && Elements(out) == entries && NoRepeats(KeyList(out))
    {
      hide HMap.Valid, HeapOk;
      ghost var order;
      header, out, order := db.Keys();
      assert forall i :: 0 <= i < |out| ==> order[i] in Elements(order) && out[i] == order[i].item;
      forall e | e in entries
        ensures e in out
      {
        assert nodeOf[e] in Elements(order);
        var i :| 0 <= i < |order| && order[i] == nodeOf[e];
        assert out[i] == e;
      }
    }

    /** do_keys: the reply is one array, holding each key once, even while the hash map is being
        resized. */
    method DoKeys(reply: Codec.Reply) returns (keys: seq<ByteString>)
      requires Valid()
      modifies reply
      ensures Valid() && NoRepeats(keys) && (set k | k in keys) == Keys()
      ensures Codec.Sendable(Codec.Strs(keys)) ==> reply.out == old(reply.out) + Codec.Encode(Codec.Strs(keys))
    {
      hide HMap.Valid, HeapOk, IndexOk, NoRepeats;
      var header, out := AllEntries();
      keys := KeyList(out);
      reply.OutStrs(header, keys);
      KeysOfList(out);
    }

    lemma {:induction false} KeysOfList(es: seq<Entry>)
      requires Elements(es) == entries
      ensures (set k | k in KeyList(es)) == Keys()
    {
      forall k | k in Keys()
        ensures k in KeyList(es)
      {
        var e :| e in entries && e.key == k;
        assert e in Elements(es);
        var i :| 0 <= i < |es| && es[i] == e;
        assert KeyList(es)[i] == k;
      }
    }
  }

  /** set, expire and the literal del of one key: the heap still holds the item of an entry that is
      gone. */
  method DelAfterExpire() returns (s: Store)
    ensures !s.Valid()
  {
    hide HMap.Valid, ByKey, Store.HeapOk, Store.IndexOk;
    var reply;
    s := new Store(_ => 0);
    s.Set([1], [2]);
    s.ValuesHaveKeys();
    reply := s.Expire([1], 1000, 0);
    reply := s.DelAsWritten([1]);
  }

  /** The literal set of one key, twice: two entries have the key. */
  method SetTwice() returns (s: Store)
    ensures !s.Valid()
  {
    hide HMap.Valid, ByKey, Store.HeapOk, Store.IndexOk;
    s := new Store(_ => 0);
    s.ValuesHaveKeys();
    s.SetAsWritten([1], [2]);
    s.ValuesHaveKeys();
    s.SetAsWritten([1], [3]);
  }
}
