/** Whole runs: a sorted set behaves as a map from names to scores, and the keys with their
    values and deadlines behave as two maps, whatever operations come in whatever order. */
module Runs {
  import opened Bytes
  import opened Common
  import opened Keys
  import opened ZSets
  import opened ZTree
  import opened Ttl
  import Heap

  // ---------- A sorted set ----------

  datatype SetOp =
    | Add(name: ByteString, score: real)
    | Pop(name: ByteString)
    | Score(name: ByteString)
    | Range(probe: Key, offset: int, limit: int)

  datatype SetReply = Flag(yes: bool) | Found(score: real) | Missing | Listed(keys: seq<Key>)

  type Scores = map<ByteString, real>

  function SetAfter(m: Scores, op: SetOp): Scores {
    match op
    case Add(name, score) => m[name := score]
    case Pop(name) => m - {name}
    case Score(_) => m
    case Range(_, _, _) => m
  }

  ghost predicate SetReplyTo(m: Scores, op: SetOp, reply: SetReply) {
    match op
    case Add(name, _) => reply == Flag(name !in m)
    case Pop(name) => reply == if name in m then Found(m[name]) else Missing
    case Score(name) => reply == if name in m then Found(m[name]) else Missing
    case Range(probe, offset, limit) =>
      && (exists all :: Lists(all, m))
      && forall all :: Lists(all, m) ==> reply == Listed(RangeOf(all, probe, offset, limit))
  }

  function SetAfterAll(m: Scores, ops: seq<SetOp>): Scores {
    if ops == [] then m else SetAfter(SetAfterAll(m, ops[..|ops| - 1]), ops[|ops| - 1])
  }

  method SetDo(z: ZSet, op: SetOp) returns (reply: SetReply)
    requires z.Valid()
    modifies z, z.members, z.hmap.Repr
    ensures z.Valid() && fresh(z.members - old(z.members)) && fresh(z.hmap.Repr - old(z.hmap.Repr))
    ensures z.Scores() == SetAfter(old(z.Scores()), op) && SetReplyTo(old(z.Scores()), op, reply)
  {
    hide ZSet.TreeOk, ZSet.IndexOk, ZSet.Apart, Lists, RangeOf;
    match op
    case Add(name, score) =>
      var added := z.Add(name, score);
      reply := Flag(added);
    case Pop(name) =>
      var node := z.Pop(name);
      reply := if node == null then Missing else Found(node.score);
    case Score(name) =>
      var node := z.Lookup(name);
      reply := if node == null then Missing else Found(node.score);
    case Range(probe, offset, limit) =>
      var keys := z.RangeQuery(probe, offset, limit);
      reply := Listed(keys);
  }

  /** Every run of a sorted set refines the map: tree and hash index together give, at each step,
      the reply that the map gives. */
  method SetRun(z: ZSet, ops: seq<SetOp>) returns (replies: seq<SetReply>)
    requires z.Valid()
    modifies z, z.members, z.hmap.Repr
    ensures z.Valid() && z.Scores() == SetAfterAll(old(z.Scores()), ops)
    ensures |replies| == |ops|
    ensures forall i :: 0 <= i < |ops| ==> SetReplyTo(SetAfterAll(old(z.Scores()), ops[..i]), ops[i], replies[i])
  {
    hide ZSet.TreeOk, ZSet.IndexOk, ZSet.Apart, ZSet.Scores, SetAfter, SetReplyTo;
    replies := [];
    ghost var start := z.Scores();
    for i := 0 to |ops|
      invariant z.Valid() && fresh(z.members - old(z.members)) && fresh(z.hmap.Repr - old(z.hmap.Repr))
      invariant |replies| == i && z.Scores() == SetAfterAll(start, ops[..i])
      invariant forall j :: 0 <= j < i ==> SetReplyTo(SetAfterAll(start, ops[..j]), ops[j], replies[j])
    {
      assert ops[..i + 1][..i] == ops[..i];
      var reply := SetDo(z, ops[i]);
      replies := replies + [reply];
    }
    assert ops[..|ops|] == ops;
  }

  // ---------- Keys that expire ----------

  datatype Db = Db(values: map<ByteString, ByteString>, deadlines: map<ByteString, nat>)

  datatype KeyReply = Ok | Number(n: int) | Value(val: ByteString) | NoValue

  /** Timer is the expiry loop of one call of process_timers; now is the clock at each step. */
  datatype KeyOp =
    | Put(key: ByteString, val: ByteString)
    | Read(key: ByteString)
    | Expire(key: ByteString, ttlMs: int, now: nat)
    | Del(key: ByteString)
    | TimeLeft(key: ByteString, now: nat)
    | Timer(now: nat)

  /** A bounded number of keys goes, those with the earliest deadlines and only past ones. */
  ghost predicate Expiry(before: Db, now: nat, count: int, after: Db) {
    var gone := before.deadlines.Keys - after.deadlines.Keys;
    && after == Db(before.values - gone, before.deadlines - gone)
    && |gone| == count <= 2001
    && (forall k :: k in gone ==> before.deadlines[k] < now)
    && (forall k, l :: k in gone && l in after.deadlines ==> before.deadlines[k] <= before.deadlines[l])
    && (count <= 2000 ==> forall k :: k in after.deadlines ==> after.deadlines[k] >= now)
  }

  ghost predicate KeyStep(before: Db, op: KeyOp, reply: KeyReply, after: Db) {
    match op
    case Put(key, val) => reply == Ok && after == before.(values := before.values[key := val])
    case Read(key) => reply == (if key in before.values then Value(before.values[key]) else NoValue) && after == before
    case Expire(key, ttlMs, now) =>
      if key !in before.values then reply == Number(0) && after == before
      else reply == Number(1) && after == before.(deadlines :=
        if ttlMs < 0 then before.deadlines - {key} else before.deadlines[key := Deadline(now, ttlMs)])
    case Del(key) =>
      && reply == Number(if key in before.values then 1 else 0)
      && after == Db(before.values - {key}, before.deadlines - {key})
    case TimeLeft(key, now) => after == before && reply == Number(MsLeft(before, key, now))
    case Timer(now) => reply.Number? && Expiry(before, now, reply.n, after)
  }

  function MsLeft(db: Db, key: ByteString, now: nat): int {
    if key !in db.values then -2
    else if key !in db.deadlines then -1
    else if db.deadlines[key] > now then (db.deadlines[key] - now) / 1000
    else 0
  }

  ghost function DbOf(s: Store): Db
    requires s.Valid()
    reads s, s.heap, s.entries`heapIdx, s.entries`val,
          s.db, s.db.ht1, s.db.ht2, s.db.ht1.tab, s.db.ht2.tab, s.db.ht1.nodes`next, s.db.ht2.nodes`next
  {
    Db(s.Values(), s.Deadlines())
  }

  method KeyDo(s: Store, op: KeyOp) returns (reply: KeyReply)
    requires s.Valid()
    modifies s, s.db.Repr, s.heap, s.entries`heapIdx, s.entries`val
    ensures s.Valid() && fresh(s.entries - old(s.entries)) && fresh(s.db.Repr - old(s.db.Repr))
    ensures KeyStep(old(DbOf(s)), op, reply, DbOf(s))
  {
    hide Store.IndexOk, Store.HeapOk, Store.Apart, ByKey, Expiry;
    s.ValuesHaveKeys();
    match op
    case Put(key, val) =>
      s.Set(key, val);
      reply := Ok;
    case Read(key) =>
      var val := s.Get(key);
      reply := if val.Some? then Value(val.value) else NoValue;
    case Expire(key, ttlMs, now) =>
      var n := s.Expire(key, ttlMs, now);
      reply := Number(n);
    case Del(key) =>
      var n := s.Del(key);
      reply := Number(n);
    case TimeLeft(key, now) =>
      var n := s.TimeLeft(key, now);
      reply := Number(n);
    case Timer(now) =>
      var n := TimerDo(s, now);
      reply := Number(n);
  }

  method TimerDo(s: Store, now: nat) returns (count: nat)
    requires s.Valid()
    modifies s, s.db.Repr, s.heap, s.entries`heapIdx
    ensures s.Valid() && s.entries <= old(s.entries) && fresh(s.db.Repr - old(s.db.Repr))
    ensures Expiry(old(DbOf(s)), now, count, DbOf(s))
  {
    hide Store.IndexOk, Store.HeapOk, Store.Apart;
    s.ValsAreOfEntries();
    ghost var vals, before := s.heap.Vals(), DbOf(s);
    ghost var all := s.entries;
    var removed := s.ProcessExpired(now);
    count := |removed|;
    KeysCounted(removed, vals, all, now);
    ExpiryHolds(vals, removed, all, now, before.values);
  }

  lemma {:induction false} KeysCounted(es: seq<Heap.Entry>, vals: map<Heap.Entry, nat>, all: set<Heap.Entry>, now: nat)
    requires ExpiredInOrder(vals, es, now) && DistinctKeys(all) && vals.Keys <= all
    ensures |KeysOf(es)| == |es|
  {
    hide ExpiredInOrder, DistinctKeys;
    if es != [] {
      var n := |es| - 1;
      LastKey(es, vals, all, now);
      KeysCounted(es[..n], vals, all, now);
    }
  }

  lemma {:induction false} LastKey(es: seq<Heap.Entry>, vals: map<Heap.Entry, nat>, all: set<Heap.Entry>, now: nat)
    requires ExpiredInOrder(vals, es, now) && DistinctKeys(all) && vals.Keys <= all && es != []
    ensures var n := |es| - 1;
      && ExpiredInOrder(vals, es[..n], now) && es[n].key !in KeysOf(es[..n])
      && KeysOf(es) == KeysOf(es[..n]) + {es[n].key}
  {
    var n := |es| - 1;
    forall i | 0 <= i < n
      ensures es[i].key != es[n].key
    {
      assert es[i] in all && es[n] in all && es[i] != es[n];
    }
    assert es == es[..n] + [es[n]];
  }

  lemma {:induction false} ExpiryHolds(vals: map<Heap.Entry, nat>, removed: seq<Heap.Entry>, all: set<Heap.Entry>, now: nat, values: map<ByteString, ByteString>)
    requires DistinctKeys(all) && vals.Keys <= all && ExpiredInOrder(vals, removed, now) && |removed| <= MAX_WORKS + 1
    requires |KeysOf(removed)| == |removed|
    requires var left := vals - Elements(removed);
      && (|removed| <= MAX_WORKS ==> forall e :: e in left ==> left[e] >= now)
      && (forall e, d :: e in removed && d in left ==> vals[e] <= left[d])
    ensures var gone := KeysOf(removed);
      Expiry(Db(values, ByKey(vals)), now, |removed|, Db(values - gone, ByKey(vals) - gone))
  {
    ByKeyRemoved(vals, removed, all);
    var gone, after := KeysOf(removed), ByKey(vals) - KeysOf(removed);
    assert forall e :: e in removed ==> e in vals;
    assert gone <= ByKey(vals).Keys;
    assert ByKey(vals).Keys - after.Keys == gone;
  }

  /** Every run of the key store refines the abstract one; the history says what the abstract store
      is before and after each operation. */
  method KeyRun(s: Store, ops: seq<KeyOp>) returns (replies: seq<KeyReply>, ghost history: seq<Db>)
    requires s.Valid()
    modifies s, s.db.Repr, s.heap, s.entries`heapIdx, s.entries`val
    ensures s.Valid() && |replies| == |ops| && KeyHistory(history, ops, replies)
    ensures history[0] == old(DbOf(s)) && history[|ops|] == DbOf(s)
  {
    hide Store.Valid, KeyStep, Store.Values, Store.Deadlines, DbOf;
    replies, history := [], [DbOf(s)];
    for i := 0 to |ops|
      invariant s.Valid() && fresh(s.entries - old(s.entries)) && fresh(s.db.Repr - old(s.db.Repr))
      invariant |replies| == i && |history| == i + 1
      invariant KeyHistory(history, ops[..i], replies) && history[0] == old(DbOf(s)) && history[i] == DbOf(s)
    {
      var reply := KeyDo(s, ops[i]);
      replies, history := replies + [reply], history + [DbOf(s)];
    }
    assert ops[..|ops|] == ops;
  }

  ghost predicate KeyHistory(history: seq<Db>, ops: seq<KeyOp>, replies: seq<KeyReply>) {
    && |history| == |ops| + 1 && |replies| == |ops|
    && forall i, j :: 0 <= i < |ops| && j == i + 1 ==> KeyStep(history[i], ops[i], replies[i], history[j])
  }

  /** An operation that leaves the deadline of key alone if it is at t. */
  predicate Spares(op: KeyOp, key: ByteString, t: nat) {
    match op
    case Put(_, _) => true
    case Read(_) => true
    case TimeLeft(_, _) => true
    case Expire(other, _, _) => other != key
    case Del(other) => other != key
    case Timer(now) => now <= t
  }

  lemma SparedOnce(before: Db, op: KeyOp, reply: KeyReply, after: Db, key: ByteString, t: nat)
    requires KeyStep(before, op, reply, after) && Spares(op, key, t)
    requires key in before.values && key in before.deadlines && before.deadlines[key] == t
    ensures key in after.values && key in after.deadlines && after.deadlines[key] == t
  {
  }

  lemma {:induction false} DeadlineStays(history: seq<Db>, ops: seq<KeyOp>, replies: seq<KeyReply>, i: nat, j: nat, key: ByteString, t: nat)
    requires KeyHistory(history, ops, replies) && i <= j <= |ops|
    requires key in history[i].values && key in history[i].deadlines && history[i].deadlines[key] == t
    requires forall m :: i <= m < j ==> Spares(ops[m], key, t)
    ensures key in history[j].values && key in history[j].deadlines && history[j].deadlines[key] == t
    decreases j
  {
    hide KeyStep, Spares;
    if i < j {
      DeadlineStays(history, ops, replies, i, j - 1, key, t);
      SparedOnce(history[j - 1], ops[j - 1], replies[j - 1], history[j], key, t);
    }
  }

  /** An operation that leaves the value of key alone. */
  predicate Preserves(before: Db, op: KeyOp, key: ByteString) {
    match op
    case Put(other, _) => other != key
    case Del(other) => other != key
    case Timer(now) => key !in before.deadlines || before.deadlines[key] >= now
    case _ => true
  }

  lemma PreservedOnce(before: Db, op: KeyOp, reply: KeyReply, after: Db, key: ByteString, val: ByteString)
    requires KeyStep(before, op, reply, after) && Preserves(before, op, key)
    requires key in before.values && before.values[key] == val
    ensures key in after.values && after.values[key] == val
  {
  }

  lemma {:induction false} ValueStays(history: seq<Db>, ops: seq<KeyOp>, replies: seq<KeyReply>, i: nat, j: nat, key: ByteString, val: ByteString)
    requires KeyHistory(history, ops, replies) && i <= j <= |ops|
    requires key in history[i].values && history[i].values[key] == val
    requires forall m :: i <= m < j ==> Preserves(history[m], ops[m], key)
    ensures key in history[j].values && history[j].values[key] == val
    decreases j
  {
    hide KeyStep, Preserves;
    if i < j {
      ValueStays(history, ops, replies, i, j - 1, key, val);
      PreservedOnce(history[j - 1], ops[j - 1], replies[j - 1], history[j], key, val);
    }
  }

  /** do_get replies the value last set for a key, unless the key has been deleted or a timer has
      run after its deadline. */
  lemma ValueIsRead(history: seq<Db>, ops: seq<KeyOp>, replies: seq<KeyReply>, i: nat, j: nat)
    requires KeyHistory(history, ops, replies) && i < j < |ops|
    requires ops[i].Put? && ops[j].Read? && ops[j].key == ops[i].key
    requires forall m :: i < m < j ==> Preserves(history[m], ops[m], ops[i].key)
    ensures replies[j] == Value(ops[i].val)
  {
    var next, after := i + 1, j + 1;
    assert KeyStep(history[i], ops[i], replies[i], history[next]);
    ValueStays(history, ops, replies, next, j, ops[i].key, ops[i].val);
    assert KeyStep(history[j], ops[j], replies[j], history[after]);
  }

  /** do_ttl reports the time left to the deadline last set for a key, whatever else has happened
      in between, as long as the timer has not run after that deadline. */
  lemma {:induction false} TimeLeftIsReported(history: seq<Db>, ops: seq<KeyOp>, replies: seq<KeyReply>, i: nat, j: nat)
    requires KeyHistory(history, ops, replies) && i < j < |ops|
    requires ops[i].Expire? && ops[i].ttlMs >= 0 && replies[i] == Number(1)
    requires ops[j].TimeLeft? && ops[j].key == ops[i].key
    requires forall m :: i < m < j ==> Spares(ops[m], ops[i].key, Deadline(ops[i].now, ops[i].ttlMs))
    ensures var t := Deadline(ops[i].now, ops[i].ttlMs);
      replies[j] == Number(if t > ops[j].now then (t - ops[j].now) / 1000 else 0)
  {
    var next := i + 1;
    assert KeyStep(history[i], ops[i], replies[i], history[next]);
    DeadlineStays(history, ops, replies, next, j, ops[i].key, Deadline(ops[i].now, ops[i].ttlMs));
    var after := j + 1;
    assert KeyStep(history[j], ops[j], replies[j], history[after]);
  }
}
