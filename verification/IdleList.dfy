/** DList.cpp, and what the server does with its list of idle connections (timer.cpp, utils.cpp,
    Server.cpp). */
module IdleList {
  import opened Common

  const K_IDLE_TIMEOUT_MS: nat := 5 * 1000
  const TIMEOUT_US: nat := K_IDLE_TIMEOUT_MS * 1000

  /** The part of a Conn that the idle list uses; its DList is flattened into it. */
  class Conn {
    const fd: nat
    var idleStart: nat // microseconds
    var prev: Conn?
    var next: Conn?

    constructor (fd: nat)
      ensures this.fd == fd && idleStart == 0
    {
      this.fd, idleStart, prev, next := fd, 0, null, null;
    }
  }

  /** Neighbours in s point at each other. */
  ghost predicate Chained(s: seq<Conn>)
    reads s`next, s`prev
  {
    forall i, j :: 0 <= i && j == i + 1 < |s| ==> s[i].next == s[j] && s[j].prev == s[i]
  }

  /** The circular list through head holds exactly order. */
  ghost predicate Circular(head: Conn, order: seq<Conn>)
    reads head`next, head`prev, order`next, order`prev
  {
    head !in order && NoRepeats(order) && Chained([head] + order + [head])
  }

  /** A node is met once on the way around, whichever end the head is counted at. */
  lemma MetOnce(head: Conn, order: seq<Conn>)
    requires head !in order && NoRepeats(order)
    ensures NoRepeats([head] + order) && NoRepeats(order + [head])
  {
  }

  /** dList_init. */
  method Init(node: Conn)
    modifies node
    ensures Circular(node, []) && node.idleStart == old(node.idleStart)
  {
    node.prev := node;
    node.next := node;
  }

  /** dList_empty. */
  method Empty(node: Conn, ghost order: seq<Conn>) returns (empty: bool)
    requires Circular(node, order)
    ensures empty <==> order == []
    ensures !empty ==> node.next == order[0]
  {
    ghost var ring := [node] + order + [node];
    assert ring[0].next == ring[1];
    empty := node.next == node || node.next == null;
  }

  /** dlist_detach of the k-th node. */
  method Detach(node: Conn, ghost head: Conn, ghost order: seq<Conn>, ghost k: nat)
    requires Circular(head, order) && k < |order| && node == order[k]
    modifies head`prev, head`next, order`prev, order`next
    ensures Circular(head, Rest(order, k))
  {
    ghost var ring := [head] + order + [head];
    assert ring[k + 1] == node && ring[k].next == node && ring[k + 2].prev == node;
    assert ring[k] in ring && ring[k + 2] in ring;
    MetOnce(head, order);
    ghost var fronts, backs := [head] + order, order + [head];
    var prev, next := node.prev, node.next;
    prev.next := next;
    next.prev := prev;
    ghost var left := [head] + (Rest(order, k)) + [head];
    forall i, j | 0 <= i && j == i + 1 < |left|
      ensures left[i].next == left[j] && left[j].prev == left[i]
    {
      if i < k {
        assert left[i] == ring[i] == fronts[i] && left[j] == ring[j] == backs[i];
        assert ring[i] != ring[k] && ring[j] != ring[k + 2];
      } else if i == k {
        assert left[i] == prev && left[j] == next;
      } else {
        assert left[i] == ring[i + 1] == fronts[i + 1] && left[j] == ring[j + 1] == backs[j];
        assert ring[i + 1] != ring[k] && ring[j + 1] != ring[k + 2];
      }
    }
  }

  /** list_insert_before the k-th node, or before the head. */
  method InsertBefore(target: Conn, node: Conn, ghost head: Conn, ghost order: seq<Conn>, ghost k: nat)
    requires Circular(head, order) && k <= |order| && target == (order + [head])[k]
    requires node !in order && node != head
    modifies head`prev, head`next, order`prev, order`next, node`prev, node`next
    ensures Circular(head, order[..k] + [node] + order[k..])
  {
    ghost var ring := [head] + order + [head];
    assert ring[k + 1] == target && ring[k].next == target;
    assert ring[k] in ring && ring[k + 1] in ring;
    MetOnce(head, order);
    ghost var fronts, backs := [head] + order, order + [head];
    var prev := target.prev;
    prev.next := node;
    node.prev := prev;
    node.next := target;
    target.prev := node;
    ghost var grown := [head] + (order[..k] + [node] + order[k..]) + [head];
    forall i, j | 0 <= i && j == i + 1 < |grown|
      ensures grown[i].next == grown[j] && grown[j].prev == grown[i]
    {
      if i < k {
        assert grown[i] == ring[i] == fronts[i] && grown[j] == ring[j] == backs[i];
        assert ring[i] != ring[k] && ring[j] != ring[k + 1];
      } else if i == k {
        assert grown[i] == prev && grown[j] == node;
      } else if i == k + 1 {
        assert grown[i] == node && grown[j] == target;
      } else {
        assert grown[i] == ring[i - 1] == fronts[i - 1] && grown[j] == ring[i] == backs[i - 1];
        assert ring[i - 1] != ring[k] && ring[i] != ring[k + 1];
      }
    }
  }

  /** A list without its k-th member. */
  function Rest(s: seq<Conn>, k: nat): (rest: seq<Conn>)
    requires k < |s|
    ensures forall c :: c in rest ==> c in s
    ensures forall c :: c in s && c != s[k] ==> c in rest
    ensures NoRepeats(s) ==> s[k] !in rest && NoRepeats(rest)
  {
    assert s == s[..k] + [s[k]] + s[k + 1..];
    s[..k] + s[k + 1..]
  }

  /** Longest idle first, and no time after clock. */
  ghost predicate InTimeOrder(s: seq<Conn>, clock: nat)
    reads s`idleStart
  {
    && (forall i, j :: 0 <= i < j < |s| ==> s[i].idleStart <= s[j].idleStart)
    && (forall c :: c in s ==> c.idleStart <= clock)
  }

  lemma RestInTimeOrder(s: seq<Conn>, k: nat, clock: nat)
    requires k < |s| && InTimeOrder(s, clock)
    ensures InTimeOrder(Rest(s, k), clock)
  {
  }

  lemma LaterClock(s: seq<Conn>, clock: nat, now: nat)
    requires InTimeOrder(s, clock) && clock <= now
    ensures InTimeOrder(s, now)
  {
  }

  lemma PushedInTimeOrder(s: seq<Conn>, c: Conn, clock: nat, now: nat)
    requires InTimeOrder(s, clock) && clock <= now == c.idleStart
    ensures InTimeOrder(s + [c], now)
  {
  }

  /** The non-null slots are the members of open, each at its own descriptor. */
  predicate SlotsHold(slots: seq<Conn?>, open: seq<Conn>) {
    && (forall c :: c in open ==> c.fd < |slots| && slots[c.fd] == c)
    && (forall f :: 0 <= f < |slots| && slots[f] != null ==> slots[f] in open && slots[f].fd == f)
  }

  /** Since when each connection has been idle. */
  ghost function IdleOf(s: seq<Conn>): map<Conn, nat>
    reads s`idleStart
  {
    map c | c in s :: c.idleStart
  }

  lemma IdleIs(s: seq<Conn>, idle: map<Conn, nat>)
    requires forall c :: c in s ==> c in idle && c.idleStart == idle[c]
    requires forall c :: c in idle ==> c in s
    ensures IdleOf(s) == idle
  {
  }

  predicate DistinctFds(cs: set<Conn>) {
    forall c, d :: c in cs && d in cs && c.fd == d.fd ==> c == d
  }

  function ByFd(idle: map<Conn, nat>): map<nat, nat>
    requires DistinctFds(idle.Keys)
  {
    map c | c in idle :: c.fd := idle[c]
  }

  lemma SlotsAreDistinct(slots: seq<Conn?>, open: seq<Conn>)
    requires SlotsHold(slots, open)
    ensures DistinctFds(set c | c in open)
  {
  }

  lemma SlotOf(slots: seq<Conn?>, open: seq<Conn>, k: nat)
    requires SlotsHold(slots, open) && k < |open|
    ensures open[k].fd < |slots| && slots[open[k].fd] == open[k]
  {
  }

  /** The slots after conn_put. */
  function SlotsWith(slots: seq<Conn?>, c: Conn): seq<Conn?> {
    if c.fd < |slots| then slots[c.fd := c]
    else slots + seq(c.fd - |slots|, _ => null) + [c]
  }

  lemma {:induction false} SlotPut(slots: seq<Conn?>, open: seq<Conn>, c: Conn)
    requires SlotsHold(slots, open) && (c.fd < |slots| ==> slots[c.fd] == null)
    ensures SlotsHold(SlotsWith(slots, c), open + [c])
    ensures c !in open && forall d :: d in open ==> d.fd != c.fd
  {
    var after := SlotsWith(slots, c);
    assert c in open + [c];
    forall f | 0 <= f < |after| && after[f] != null
      ensures after[f] in open + [c] && after[f].fd == f
    {
      assert f != c.fd ==> f < |slots| && after[f] == slots[f];
    }
  }

  lemma SlotCleared(slots: seq<Conn?>, open: seq<Conn>, k: nat)
    requires SlotsHold(slots, open) && NoRepeats(open) && k < |open|
    ensures SlotsHold(slots[open[k].fd := null], Rest(open, k))
  {
  }

  lemma SlotKept(slots: seq<Conn?>, open: seq<Conn>, k: nat)
    requires SlotsHold(slots, open) && NoRepeats(open) && k < |open|
    ensures SlotsHold(slots, Rest(open, k) + [open[k]])
  {
  }

  lemma {:induction false} ByFdSet(idle: map<Conn, nat>, c: Conn, val: nat)
    requires DistinctFds(idle.Keys + {c})
    ensures ByFd(idle[c := val]) == ByFd(idle)[c.fd := val]
  {
    assert idle[c := val].Keys == idle.Keys + {c};
  }

  lemma {:induction false} ByFdAbove(idle: map<Conn, nat>, first: Conn)
    requires DistinctFds(idle.Keys) && first in idle && forall c :: c in idle ==> idle[first] <= idle[c]
    ensures first.fd in ByFd(idle) && ByFd(idle)[first.fd] == idle[first]
    ensures forall fd :: fd in ByFd(idle) ==> idle[first] <= ByFd(idle)[fd]
  {
    forall fd | fd in ByFd(idle)
      ensures idle[first] <= ByFd(idle)[fd]
    {
      var c :| c in idle && c.fd == fd;
      assert ByFd(idle)[c.fd] == idle[c];
    }
  }

  lemma ByFdDropped(idle: map<Conn, nat>, c: Conn)
    requires DistinctFds(idle.Keys) && c in idle
    ensures ByFd(idle - {c}) == ByFd(idle) - {c.fd}
  {
  }

  /** The open connections of the server. */
  class Connections {
    const head: Conn // g_data.idle_list; its fd and idleStart mean nothing
    var fd2conn: seq<Conn?>
    ghost var order: seq<Conn> // the list from head.next on
    ghost var clock: nat // the latest reading of the monotonic clock

    ghost predicate Valid()
      reads this, head, order
    {
      Circular(head, order) && SlotsHold(fd2conn, order) && InTimeOrder(order, clock)
    }

    /** The start of the idle time of each open descriptor. */
    ghost function Starts(): map<nat, nat>
      requires SlotsHold(fd2conn, order)
      reads this`fd2conn, this`order, order`idleStart
    {
      SlotsAreDistinct(fd2conn, order);
      assert IdleOf(order).Keys == set c | c in order;
      ByFd(IdleOf(order))
    }

    lemma ListFacts()
      requires Circular(head, order)
      ensures NoRepeats(order) && head !in order
    {
    }

    constructor ()
      ensures Valid() && Starts() == map[] && fresh(head)
    {
      var node := new Conn(0);
      head, fd2conn, order, clock := node, [], [], 0;
      new;
      Init(head);
    }

    /** accept_new_connection, once accept has returned a descriptor, which is not in use. */
    method Accept(fd: nat, now: nat) returns (conn: Conn)
      requires Valid() && clock <= now
      requires fd < |fd2conn| ==> fd2conn[fd] == null
      modifies this`fd2conn, this`order, this`clock, head`prev, head`next, order`prev, order`next
      ensures Valid() && clock == now && fresh(conn) && order == old(order) + [conn]
      ensures Starts() == old(Starts())[fd := now]
    {
      hide Circular, NoRepeats, InTimeOrder, SlotsHold, ByFd, SlotsWith, IdleOf;
      ListFacts();
      conn := NewConn(fd, now);
      ghost var idle := IdleOf(order);
      IdleIs(order, map c | c in order :: c.idleStart);
      SlotPut(fd2conn, order, conn);
      SlotsAreDistinct(SlotsWith(fd2conn, conn), order + [conn]);
      ByFdSet(idle, conn, now);
      PushBack(conn, order);
      PushedInTimeOrder(order, conn, clock, now);
      order, clock := order + [conn], now;
      Put(conn);
      IdleIs(order, idle[conn := now]);
      assert Circular(head, order) && SlotsHold(fd2conn, order);
    }

    /** The fields of a connection that has just been accepted. */
    method NewConn(fd: nat, now: nat) returns (conn: Conn)
      ensures fresh(conn) && conn.fd == fd && conn.idleStart == now
    {
      conn := new Conn(fd);
      conn.idleStart := now;
      Init(conn);
    }

    /** list_insert_before(&g_data.idle_list, node). */
    method PushBack(node: Conn, ghost nodes: seq<Conn>)
      requires Circular(head, nodes) && node !in nodes && node != head
      modifies head`prev, head`next, nodes`prev, nodes`next, node`prev, node`next
      ensures Circular(head, nodes + [node])
    {
      InsertBefore(head, node, head, nodes, |nodes|);
      assert nodes[..|nodes|] + [node] + nodes[|nodes|..] == nodes + [node];
    }

    /** dlist_detach of the k-th node, and list_insert_before the head. */
    method MoveToEnd(node: Conn, ghost nodes: seq<Conn>, ghost k: nat)
      requires Circular(head, nodes) && k < |nodes| && nodes[k] == node
      modifies head`prev, head`next, nodes`prev, nodes`next
      ensures Circular(head, Rest(nodes, k) + [node])
    {
      hide Chained, NoRepeats;
      Detach(node, head, nodes, k);
      PushBack(node, Rest(nodes, k));
    }

    /** conn_put. */
    method Put(conn: Conn)
      modifies this`fd2conn
      ensures fd2conn == SlotsWith(old(fd2conn), conn)
    {
      if |fd2conn| <= conn.fd {
        fd2conn := fd2conn + seq(conn.fd + 1 - |fd2conn|, _ => null);
      }
      fd2conn := fd2conn[conn.fd := conn];
    }

    /** The first steps of connection_io: the connection is busy now, which makes it the last of
        the list. */
    method Touch(conn: Conn, now: nat, ghost k: nat)
      requires Valid() && clock <= now && k < |order| && order[k] == conn
      modifies this`order, this`clock, conn`idleStart, head`prev, head`next, order`prev, order`next
      ensures Valid() && clock == now && order == Rest(old(order), k) + [conn]
      ensures Starts() == old(Starts())[conn.fd := now] && fd2conn == old(fd2conn)
    {
      hide Circular, NoRepeats, InTimeOrder, SlotsHold, ByFd, Rest, IdleOf;
      IdleIs(order, map c | c in order :: c.idleStart);
      SlotsAreDistinct(fd2conn, order);
      ghost var idle := IdleOf(order);
      ByFdSet(idle, conn, now);
      ListFacts();
      RestInTimeOrder(order, k, clock);
      conn.idleStart := now;
      MoveToEnd(conn, order, k);
      Reorder(conn, now, k);
      IdleIs(order, idle[conn := now]);
    }

    /** What becomes of the invariants when conn has moved. */
    ghost method Reorder(conn: Conn, now: nat, k: nat)
      requires k < |order| && order[k] == conn && clock <= now == conn.idleStart && NoRepeats(order) && SlotsHold(fd2conn, order)
      requires InTimeOrder(Rest(order, k), clock)
      modifies this`order, this`clock
      ensures InTimeOrder(order, clock) && clock == now && order == Rest(old(order), k) + [conn] && SlotsHold(fd2conn, order)
      ensures forall c :: c in order <==> c in old(order)
    {
      hide NoRepeats, InTimeOrder, SlotsHold, Rest;
      SlotKept(fd2conn, order, k);
      PushedInTimeOrder(Rest(order, k), conn, clock, now);
      order, clock := Rest(order, k) + [conn], now;
    }

    /** What both places that close a connection do. */
    method Close(conn: Conn, ghost k: nat)
      requires Valid() && k < |order| && order[k] == conn
      modifies this`fd2conn, this`order, head`prev, head`next, order`prev, order`next
      ensures Valid() && order == Rest(old(order), k)
      ensures Starts() == old(Starts()) - {conn.fd}
      ensures |fd2conn| == |old(fd2conn)| && fd2conn == old(fd2conn)[conn.fd := null]
    {
      hide Circular, NoRepeats, InTimeOrder, SlotsHold, ByFd, Rest, IdleOf;
      ListFacts();
      ghost var idle, rest := IdleOf(order), Rest(order, k);
      IdleIs(order, map c | c in order :: c.idleStart);
      SlotOf(fd2conn, order, k);
      SlotCleared(fd2conn, order, k);
      RestInTimeOrder(order, k, clock);
      SlotsAreDistinct(fd2conn, order);
      ByFdDropped(idle, conn);
      fd2conn := fd2conn[conn.fd := null];
      Detach(conn, head, order, k);
      order := rest;
      IdleIs(order, idle - {conn});
    }

    method CloseFirst(conn: Conn)
      requires Valid() && order != [] && order[0] == conn
      modifies this`fd2conn, this`order, head`prev, head`next, order`prev, order`next
      ensures Valid() && order == old(order)[1..] && old(order) == [conn] + order
      ensures Starts() == old(Starts()) - {conn.fd} && conn.fd in old(Starts())
      ensures old(Starts())[conn.fd] == conn.idleStart
    {
      hide Circular, InTimeOrder, SlotsHold, ByFd, IdleOf;
      FirstIsLongest();
      Close(conn, 0);
    }

    /** The idle loop of process_timers: stopping at the first connection that is not due closes
        exactly those idle for five seconds. */
    method CloseIdle(now: nat) returns (closed: seq<Conn>)
      requires Valid() && clock <= now
      modifies this`fd2conn, this`order, this`clock, head`prev, head`next, order`prev, order`next
      ensures Valid() && old(order) == closed + order
      ensures forall c :: c in closed ==> c.idleStart + 5_000_000 <= now
      ensures forall c :: c in order ==> c.idleStart + 5_000_000 > now
      ensures Starts() == map fd | fd in old(Starts()) && old(Starts())[fd] + 5_000_000 > now :: old(Starts())[fd]
    {
      hide Circular, InTimeOrder, SlotsHold, ByFd, Rest, IdleOf;
      closed := [];
      ghost var starts, all := Starts(), order;
      while true
        invariant Valid() && clock <= now && |closed| <= |all|
        invariant closed == all[..|closed|] && order == all[|closed|..]
        invariant forall c :: c in closed ==> c.idleStart + TIMEOUT_US <= now
        invariant forall fd :: fd in Starts() ==> fd in starts && Starts()[fd] == starts[fd]
        invariant forall fd :: fd in starts && fd !in Starts() ==> starts[fd] + TIMEOUT_US <= now
        decreases |order|
      {
        var empty := Empty(head, order);
        if empty {
          break;
        }
        var next := head.next;
        var nextUs := next.idleStart + K_IDLE_TIMEOUT_MS * 1000;
        if nextUs > now {
          break;
        }
        CloseFirst(next);
        closed := closed + [next];
      }
      NoneDue(now);
      LaterClock(order, clock, now);
      clock := now;
    }

    /** The first connection of the list is due before all others. */
    lemma FirstIsLongest()
      requires Valid()
      ensures order == [] <==> Starts() == map[]
      ensures order != [] ==> order[0].fd in Starts() && Starts()[order[0].fd] == order[0].idleStart
      ensures order != [] ==> forall fd :: fd in Starts() ==> order[0].idleStart <= Starts()[fd]
      ensures order != [] ==> forall c :: c in order ==> order[0].idleStart <= c.idleStart
      ensures order != [] ==> Rest(order, 0) == order[1..] && order == [order[0]] + order[1..]
    {
      hide Circular, SlotsHold, ByFd;
      if order != [] {
        assert order[0] in order;
        SlotsAreDistinct(fd2conn, order);
        assert IdleOf(order).Keys == set c | c in order;
        ByFdAbove(IdleOf(order), order[0]);
      } else {
        NoneIdle();
      }
    }

    lemma NoneIdle()
      requires order == [] && SlotsHold(fd2conn, order)
      ensures Starts() == map[]
    {
      assert IdleOf(order) == map[];
    }

    lemma {:induction false} NoneDue(now: nat)
      requires Valid() && (order == [] || order[0].idleStart + TIMEOUT_US > now)
      ensures forall c :: c in order ==> c.idleStart + TIMEOUT_US > now
      ensures forall fd :: fd in Starts() ==> Starts()[fd] + TIMEOUT_US > now
    {
      hide Circular, InTimeOrder, SlotsHold, ByFd, IdleOf;
      FirstIsLongest();
    }

    /** next_timer_ms: poll sleeps past no connection's deadline, and less than a millisecond short
        of the first. */
    method NextTimerMs(now: nat) returns (ms: nat)
      requires Valid() && clock <= now
      ensures Starts() == map[] ==> ms == 10000
      ensures ms > 0 ==> forall fd :: fd in Starts() ==> now + ms * 1000 <= Starts()[fd] + 5_000_000
      ensures Starts() != map[] ==> ms <= 5000
      ensures Starts() != map[] ==> exists fd :: fd in Starts() && Starts()[fd] + 5_000_000 < now + (ms + 1) * 1000
    {
      var empty := Empty(head, order);
      if empty {
        return 10000;
      }
      var next := head.next;
      FirstIsLongest();
      var nextUs := next.idleStart + K_IDLE_TIMEOUT_MS * 1000;
      if nextUs <= now {
        return 0;
      }
      ms := (nextUs - now) / 1000;
    }
  }
}
