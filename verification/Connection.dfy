/** utils.cpp: a connection reads requests from its socket and writes the replies, whatever pieces
    the bytes come and go in. */
module Connection {
  import opened Bytes
  import opened Codec
  import opened Requests

  const BUFFER_SIZE: nat := 4 + K_MAX_MSG

  /** What the system does at one call: Ready(n) moves about n bytes. */
  datatype Event = Ready(n: nat) | WouldBlock | Failed

  datatype Outcome<T> = Done(value: T) | Blocked | Broken

  /** What read does when event is next: the first bytes of the inbox, at least one; an end of file
      counts as a failure. */
  function ReadOutcome(events: seq<Event>, inbox: ByteString, cap: nat): (r: Outcome<ByteString>)
    ensures r.Done? ==> r.value <= inbox && |r.value| <= cap
  {
    if events == [] || events[0].WouldBlock? then Blocked
    else if events[0].Failed? || events[0] == Ready(0) then Broken
    else if inbox == [] then Blocked
    else Done(inbox[..Min(events[0].n, Min(cap, |inbox|))])
  }

  /** What write does with that many bytes: it takes any number of them, even none. */
  function WriteOutcome(events: seq<Event>, size: nat): (r: Outcome<nat>)
    ensures r.Done? ==> r.value <= size
  {
    if events == [] || events[0].WouldBlock? then Blocked
    else if events[0].Failed? then Broken
    else Done(Min(events[0].n, size))
  }

  /** Where writing size bytes, call after call, leaves a connection. */
  function Flush(events: seq<Event>, size: nat): State
    decreases |events|
  {
    match WriteOutcome(events, size)
    case Blocked => Res
    case Broken => End
    case Done(k) => if k == size then Req else Flush(events[1..], size - k)
  }

  lemma {:induction false} FlushStep(events: seq<Event>, size: nat)
    ensures var r := WriteOutcome(events, size);
      && (r.Blocked? ==> Flush(events, size) == Res)
      && (r.Broken? ==> Flush(events, size) == End)
      && (r.Done? ==> Flush(events, size) == if r.value == size then Req else Flush(events[1..], size - r.value))
  {
  }

  /** The bytes that these calls would take together. */
  function Room(events: seq<Event>): nat {
    if events == [] then 0 else (if events[0].Ready? then events[0].n else 0) + Room(events[1..])
  }

  /** Writing goes on through every call that takes something or nothing: it stops at the first
      call that blocks or fails, or where all bytes are out. */
  lemma {:induction false} FlushIs(events: seq<Event>, size: nat, k: nat)
    requires k <= |events| && (forall i :: 0 <= i < k ==> events[i].Ready?) && Room(events[..k]) < size
    ensures k == |events| || events[k].WouldBlock? ==> Flush(events, size) == Res
    ensures k < |events| && events[k].Failed? ==> Flush(events, size) == End
    ensures k < |events| && events[k].Ready? && Room(events[..k]) + events[k].n >= size ==> Flush(events, size) == Req
    decreases k
  {
    if k > 0 {
      var first, rest := events[..k][0], events[1..];
      assert first == events[0] && events[..k][1..] == rest[..k - 1];
      FlushIs(rest, size - first.n, k - 1);
    }
  }

  function Min(a: nat, b: nat): nat { if a < b then a else b }

  /** A non-blocking socket with all that will ever happen to it. Any such future is possible;
      when it runs out, calls block. */
  class Socket {
    var inbox: ByteString // sent by the peer, not read yet
    var received: ByteString // read so far
    var sent: ByteString // written so far
    var failed: bool // some call has failed
    var readEvents: seq<Event>
    var writeEvents: seq<Event>

    constructor (inbox: ByteString, readEvents: seq<Event>, writeEvents: seq<Event>)
      ensures this.inbox == inbox && received == [] && sent == [] && !failed && this.readEvents == readEvents && this.writeEvents == writeEvents
    {
      this.inbox, received, sent, failed := inbox, [], [], false;
      this.readEvents, this.writeEvents := readEvents, writeEvents;
    }

    /** No call will fail, and the peer does not end its stream. */
    ghost predicate Healthy()
      reads this`readEvents, this`writeEvents
    {
      && (forall i :: 0 <= i < |readEvents| ==> !readEvents[i].Failed? && readEvents[i] != Ready(0))
      && (forall i :: 0 <= i < |writeEvents| ==> !writeEvents[i].Failed?)
    }

    /** read. */
    method Read(cap: nat) returns (r: Outcome<ByteString>)
      requires cap > 0
      modifies this`inbox, this`received, this`readEvents, this`failed
      ensures r == ReadOutcome(old(readEvents), old(inbox), cap) && failed == (old(failed) || r.Broken?)
      ensures r.Done? ==> 0 < |r.value| && |readEvents| < |old(readEvents)|
      ensures old(readEvents == [] || readEvents[0].WouldBlock?) ==> r.Blocked?
      ensures old(readEvents != [] && (readEvents[0].Failed? || readEvents[0] == Ready(0))) ==> r.Broken?
      ensures old(readEvents != [] && readEvents[0].Ready? && readEvents[0] != Ready(0)) ==>
        if old(inbox) == [] then r.Blocked? else r.Done? && |r.value| <= old(readEvents)[0].n && |r.value| <= cap
      ensures readEvents == if old(readEvents) == [] then [] else old(readEvents)[1..]
      ensures received == old(received) + if r.Done? then r.value else []
      ensures received + inbox == old(received + inbox)
      ensures old(Healthy()) ==> Healthy() && !r.Broken?
    {
      r := ReadOutcome(readEvents, inbox, cap);
      readEvents := if readEvents == [] then [] else readEvents[1..];
      match r
      case Blocked =>
      case Broken => failed := true;
      case Done(bytes) =>
        received, inbox := received + bytes, inbox[|bytes|..];
    }

    /** write. */
    method Write(bytes: ByteString) returns (r: Outcome<nat>)
      modifies this`sent, this`writeEvents, this`failed
      ensures r == WriteOutcome(old(writeEvents), |bytes|) && failed == (old(failed) || r.Broken?)
      ensures r.Done? ==> |writeEvents| < |old(writeEvents)|
      ensures old(writeEvents == [] || writeEvents[0].WouldBlock?) ==> r.Blocked?
      ensures old(writeEvents != [] && writeEvents[0].Failed?) ==> r.Broken?
      ensures old(writeEvents != [] && writeEvents[0].Ready?) ==> r.Done? && r.value <= old(writeEvents)[0].n
      ensures writeEvents == if old(writeEvents) == [] then [] else old(writeEvents)[1..]
      ensures sent == old(sent) + if r.Done? then bytes[..r.value] else []
      ensures old(Healthy()) ==> Healthy() && !r.Broken?
    {
      r := WriteOutcome(writeEvents, |bytes|);
      writeEvents := if writeEvents == [] then [] else writeEvents[1..];
      match r
      case Blocked =>
      case Broken => failed := true;
      case Done(k) => sent := sent + bytes[..k];
    }
  }

  datatype State = Req | Res | End

  /** What follows the first request. */
  function AfterFirst(data: ByteString): ByteString {
    if Next(data).Whole? then data[Next(data).size..] else data
  }

  class Conn {
    const sock: Socket
    const handler: Handler
    const rbuf: array<Byte>
    const wbuf: array<Byte>
    var state: State
    var rbufSize: nat
    var wbufSize: nat
    var wbufSent: nat
    var commands: seq<Command> // those that do_request has been called with
    ghost var answered: seq<Command> // those that a reply has been made for

    function Pending(): ByteString
      requires rbufSize <= rbuf.Length
      reads this`rbufSize, rbuf
    {
      rbuf[..rbufSize]
    }

    function Unsent(): ByteString
      requires wbufSent <= wbufSize <= wbuf.Length
      reads this`wbufSent, this`wbufSize, wbuf
    {
      wbuf[wbufSent..wbufSize]
    }

    ghost predicate Buffers()
      reads this`state, this`rbufSize, this`wbufSize, this`wbufSent
    {
      && rbuf.Length == wbuf.Length == BUFFER_SIZE && rbuf != wbuf
      && rbufSize <= BUFFER_SIZE && wbufSent <= wbufSize <= K_MAX_MSG
      && (state == Req ==> wbufSize == 0)
      && (state == Res ==> wbufSent < wbufSize)
    }

    /** Bytes consumed and waiting are the bytes received; bytes sent and unsent are the replies. */
    ghost predicate Streams()
      requires Buffers()
      reads this`rbufSize, this`wbufSize, this`wbufSent, this`answered, this`state, rbuf, wbuf, sock`received, sock`sent
    {
      && AllAccepted(handler, answered)
      && sock.received == Frames(answered) + Pending()
      && sock.sent + Unsent() == Answers(handler, answered)
    }

    /** Every command executed has been answered, except one whose refusal ended the connection. */
    ghost predicate Log()
      requires rbufSize <= rbuf.Length
      reads this`state, this`rbufSize, this`commands, this`answered, rbuf
    {
      || commands == answered
      || (state == End && Next(Pending()).Whole? && commands == answered + [Next(Pending()).cmd]
          && handler(|answered|, Next(Pending()).cmd).code != RES_OK)
    }

    /** A connection ends when a call fails, or after all replies are sent at a request that is
        malformed or refused. */
    ghost predicate Ending()
      requires rbufSize <= rbuf.Length
      reads this`state, this`rbufSize, this`wbufSize, this`commands, this`answered, rbuf, sock`failed
    {
      && (state != End ==> !sock.failed)
      && (state == End && !sock.failed ==> wbufSize == 0 && (Next(Pending()).Malformed? || commands != answered))
    }

    ghost predicate Consistent()
      reads this, rbuf, wbuf, sock`received, sock`sent, sock`failed
    {
      Buffers() && Streams() && Log() && Ending()
    }

    /** What holds whenever the event loop has control: try_fill_buffer may be entered. */
    ghost predicate Valid()
      reads this, rbuf, wbuf, sock`received, sock`sent, sock`failed
    {
      Consistent() && (state != End ==> rbufSize < BUFFER_SIZE)
    }

    constructor (sock: Socket, handler: Handler)
      requires sock.received == [] && sock.sent == [] && !sock.failed
      ensures Valid() && state == Req && commands == answered == [] && rbufSize == 0 && this.sock == sock && this.handler == handler
      ensures fresh(rbuf) && fresh(wbuf)
    {
      this.sock, this.handler := sock, handler;
      rbuf, wbuf := new Byte[BUFFER_SIZE](_ => 0), new Byte[BUFFER_SIZE](_ => 0);
      state, rbufSize, wbufSize, wbufSent, commands, answered := Req, 0, 0, 0, [], [];
    }

    /** try_flush_buffer. */
    method TryFlush() returns (again: bool)
      requires Consistent() && state == Res
      modifies this`state, this`wbufSize, this`wbufSent, sock`sent, sock`writeEvents, sock`failed
      ensures Consistent() && old(sock.sent) <= sock.sent
      ensures again ==> state == Res && |sock.writeEvents| < |old(sock.writeEvents)|
      ensures old(Flush(sock.writeEvents, |Unsent()|)) == if again then Flush(sock.writeEvents, |Unsent()|) else state
      ensures old(sock.Healthy()) ==> sock.Healthy() && sock.failed == old(sock.failed)
    {
      hide AllAccepted, Frames, Answers, Next, Flush, WriteOutcome, Socket.Healthy;
      FlushStep(sock.writeEvents, |Unsent()|);
      ghost var unsent := Unsent();
      var r := sock.Write(wbuf[wbufSent..wbufSize]);
      match r
      case Blocked => return false;
      case Broken =>
        state := End;
        return false;
      case Done(k) =>
        assert unsent == unsent[..k] + unsent[k..];
        wbufSent := wbufSent + k;
        assert Unsent() == unsent[k..];
        assert sock.sent + Unsent() == old(sock.sent + Unsent());
        if wbufSent == wbufSize {
          state := Req;
          wbufSize := 0;
          wbufSent := 0;
          return false;
        }
        again := true;
    }

    /** stateres: only writes. No request is looked at. */
    method StateRes()
      requires Consistent() && state == Res
      modifies this`state, this`wbufSize, this`wbufSent, sock`sent, sock`writeEvents, sock`failed
      ensures Consistent() && old(sock.sent) <= sock.sent
      ensures state == old(Flush(sock.writeEvents, |Unsent()|))
      ensures old(sock.Healthy()) ==> sock.Healthy() && sock.failed == old(sock.failed)
    {
      hide Streams, Log, Ending, Next, Flush, Socket.Healthy;
      var again := true;
      while again
        invariant old(sock.Healthy()) ==> sock.Healthy() && sock.failed == old(sock.failed)
        invariant Consistent() && old(sock.sent) <= sock.sent
        invariant old(Flush(sock.writeEvents, |Unsent()|)) == if again then Flush(sock.writeEvents, |Unsent()|) else state
        invariant again ==> state == Res
        decreases if again then |sock.writeEvents| + 1 else 0
      {
        again := TryFlush();
      }
    }

    /** The reply goes into the write buffer, its size first. */
    method PutReply(p: ByteString)
      requires wbuf.Length == BUFFER_SIZE && 4 + |p| <= K_MAX_MSG
      modifies this`wbufSize, wbuf
      ensures wbufSize == 4 + |p| && wbuf[..wbufSize] == Frame(p)
    {
      var bytes := LE32(|p|) + p;
      forall i | 0 <= i < |bytes| {
        wbuf[i] := bytes[i];
      }
      wbufSize := 4 + |p|;
    }

    /** The remainder of the read buffer moves to its front. */
    method Consume(size: nat)
      requires size <= rbufSize <= rbuf.Length
      modifies this`rbufSize, rbuf
      ensures rbufSize <= rbuf.Length && Pending() == old(Pending())[size..]
    {
      var remain := rbufSize - size;
      if remain > 0 {
        forall i | 0 <= i < remain {
          rbuf[i] := rbuf[size + i];
        }
      }
      rbufSize := remain;
    }

    /** do_request. */
    method DoRequest(cmd: Command) returns (r: Response)
      modifies this`commands
      ensures commands == old(commands) + [cmd] && r == handler(|old(commands)|, cmd)
    {
      r := handler(|commands|, cmd);
      commands := commands + [cmd];
    }

    /** one_request from the call of do_request on. */
    method Execute(cmd: Command, len: nat) returns (again: bool)
      requires Consistent() && state == Req && Next(Pending()) == Whole(cmd, 4 + len)
      modifies this, rbuf, wbuf, sock`sent, sock`writeEvents, sock`failed
      ensures Valid() && commands == old(commands) + [cmd] && (again <==> state == Req) && old(sock.sent) <= sock.sent
      ensures handler(|old(answered)|, cmd).code == RES_OK ==>
        && Pending() == old(Pending())[4 + len..] && answered == old(answered) + [cmd]
        && state == Flush(old(sock.writeEvents), |Answer(handler, |old(answered)|, cmd)|)
      ensures handler(|old(answered)|, cmd).code != RES_OK ==>
        state == End && Pending() == old(Pending()) && answered == old(answered) && sock.sent == old(sock.sent)
      ensures old(sock.Healthy()) ==> sock.Healthy() && sock.failed == old(sock.failed)
    {
      hide AllAccepted, Frames, Answers, Next, Frame, Flush, Socket.Healthy;
      var r := DoRequest(cmd);
      if r.code != RES_OK {
        state := End;
        return false;
      }
      Prepare(cmd, len, r.out);
      StateRes();
      again := state == Req;
    }

    /** one_request from the reply of do_request on, up to the call of stateres. */
    method Prepare(cmd: Command, len: nat, out: ByteString)
      requires Buffers() && Streams() && state == Req && !sock.failed && commands == answered + [cmd]
      requires Next(Pending()) == Whole(cmd, 4 + len) && handler(|answered|, cmd) == Response(RES_OK, out)
      modifies this`state, this`wbufSize, this`rbufSize, this`answered, rbuf, wbuf
      ensures Consistent() && state == Res && answered == old(answered) + [cmd] && rbufSize < BUFFER_SIZE
      ensures Pending() == old(Pending())[4 + len..] && Unsent() == Answer(handler, |old(answered)|, cmd)
    {
      hide AllAccepted, Frames, Answers, Next, Frame;
      assert wbufSent == 0 && Unsent() == [];
      HistoryGrows(handler, answered, Pending());
      var reply := out;
      if 4 + |reply| > K_MAX_MSG {
        reply := TooBig();
      }
      PutReply(reply);
      Consume(4 + len);
      state := Res;
      answered := answered + [cmd];
      assert Unsent() == Answer(handler, |old(answered)|, cmd);
    }

    /** The reading part of one_request. */
    method ReadRequest() returns (r: Request)
      requires rbufSize <= rbuf.Length
      ensures r == Next(Pending())
    {
      if rbufSize < 4 {
        return Incomplete;
      }
      var len := FromLE32(rbuf[..rbufSize]);
      if len > K_MAX_MSG {
        return Malformed;
      }
      if 4 + len > rbufSize {
        return Incomplete;
      }
      assert rbuf[..rbufSize][4..4 + len] == rbuf[4..4 + len];
      var rv, cmd := ParseReq(rbuf[4..4 + len]);
      if rv != 0 {
        return Malformed;
      }
      r := Whole(cmd, 4 + len);
    }

    /** data begins with a request that is accepted, and the reply to it will be blocked. */
    ghost predicate BlocksAt(data: ByteString)
      reads this`answered, sock`writeEvents
    {
      && Next(data).Whole? && handler(|answered|, Next(data).cmd).code == RES_OK
      && Flush(sock.writeEvents, |Answer(handler, |answered|, Next(data).cmd)|) == Res
    }

    /** one_request: the first request in the buffer, if it is complete. */
    method OneRequest() returns (again: bool)
      requires Consistent() && state == Req
      modifies this, rbuf, wbuf, sock`sent, sock`writeEvents, sock`failed
      ensures Valid() && (again ==> state == Req) && old(sock.sent) <= sock.sent
      ensures again ==> rbufSize < old(rbufSize)
      ensures !again && state == Req ==> Next(Pending()).Incomplete?
      ensures match Next(old(Pending()))
        case Incomplete => !again && state == Req && Pending() == old(Pending()) && commands == old(commands) && sock.sent == old(sock.sent)
        case Malformed => state == End && Pending() == old(Pending()) && commands == old(commands) && sock.sent == old(sock.sent)
        case Whole(cmd, _) => commands == old(commands) + [cmd]
      ensures old(Unfinished(Pending())) ==>
        !again && state == Req && Pending() == old(Pending()) && commands == old(commands) && sock.sent == old(sock.sent)
      ensures forall cmd :: Begins(old(Pending()), cmd) ==> commands == old(commands) + [cmd]
      ensures !old(Unfinished(Pending())) && (forall cmd :: !Begins(old(Pending()), cmd)) ==>
        state == End && Pending() == old(Pending()) && commands == old(commands) && sock.sent == old(sock.sent)
      ensures old(BlocksAt(Pending())) ==> state == Res && Pending() == AfterFirst(old(Pending()))
      ensures old(sock.Healthy()) ==> sock.Healthy() && sock.failed == old(sock.failed)
    {
      hide AllAccepted, Frames, Answers, Next, Unfinished, Begins, Socket.Healthy;
      NextIs(Pending());
      var request := ReadRequest();
      match request
      case Incomplete =>
        NotFull(Pending());
        again := false;
      case Malformed =>
        state := End;
        again := false;
      case Whole(cmd, size) =>
        again := Execute(cmd, size - 4);
    }

    /** An incomplete request leaves room in the buffer. */
    static lemma NotFull(data: ByteString)
      requires Next(data).Incomplete?
      ensures |data| < BUFFER_SIZE
    {
    }

    /** All complete requests have been served. */
    ghost predicate CaughtUp()
      requires rbufSize <= rbuf.Length
      reads this`state, this`rbufSize, rbuf
    {
      state == Req && Next(Pending()).Incomplete?
    }

    /** Bytes that have been read go behind those in the buffer. */
    method Append(bytes: ByteString)
      requires rbufSize + |bytes| <= rbuf.Length
      modifies this`rbufSize, rbuf
      ensures rbufSize <= rbuf.Length && Pending() == old(Pending()) + bytes
    {
      forall i | 0 <= i < |bytes| {
        rbuf[rbufSize + i] := bytes[i];
      }
      rbufSize := rbufSize + |bytes|;
    }

    /** The loop around one_request. */
    method ServeBuffer()
      requires Consistent() && state == Req
      modifies this, rbuf, wbuf, sock`sent, sock`writeEvents, sock`failed
      ensures Valid() && old(commands) <= commands && old(sock.sent) <= sock.sent
      ensures state == Req ==> CaughtUp()
      ensures old(BlocksAt(Pending())) ==> state == Res && Pending() == AfterFirst(old(Pending()))
      ensures old(sock.Healthy()) ==> sock.Healthy() && sock.failed == old(sock.failed)
    {
      hide Streams, Log, Ending, Next, Flush, AfterFirst, Socket.Healthy;
      var again := true;
      while again
        invariant old(sock.Healthy()) ==> sock.Healthy() && sock.failed == old(sock.failed)
        invariant Consistent() && old(commands) <= commands && old(sock.sent) <= sock.sent
        invariant old(BlocksAt(Pending())) ==>
          if again then BlocksAt(Pending()) && Pending() == old(Pending())
          else state == Res && Pending() == AfterFirst(old(Pending()))
        invariant if again then state == Req else Valid() && (state == Req ==> CaughtUp())
        decreases again, rbufSize
      {
        again := OneRequest();
      }
    }

    /** What the next call of read gives. */
    ghost function Incoming(): Outcome<ByteString>
      requires rbufSize <= BUFFER_SIZE
      reads this`rbufSize, sock`readEvents, sock`inbox
    {
      ReadOutcome(sock.readEvents, sock.inbox, BUFFER_SIZE - rbufSize)
    }

    /** The next call of read brings in a request whose reply will be blocked. */
    ghost predicate ReadBlocks()
      requires rbufSize <= rbuf.Length == BUFFER_SIZE
      reads this, rbuf, sock
    {
      Incoming().Done? && BlocksAt(Pending() + Incoming().value)
    }

    /** try_fill_buffer. The read buffer is never full when it is called. */
    method TryFill() returns (again: bool)
      requires Valid() && state == Req
      modifies this, rbuf, wbuf, sock
      ensures Valid() && (again ==> state == Req && CaughtUp() && |sock.readEvents| < |old(sock.readEvents)|)
      ensures old(commands) <= commands && old(sock.sent) <= sock.sent && old(sock.received) <= sock.received
      ensures sock.received + sock.inbox == old(sock.received + sock.inbox)
      ensures again ==> sock.received != old(sock.received)
      ensures sock.received != old(sock.received) && state == Req ==> CaughtUp()
      ensures sock.received == old(sock.received) ==> Pending() == old(Pending()) && commands == old(commands)
      ensures old(ReadBlocks()) ==> state == Res && Pending() == AfterFirst(old(Pending() + Incoming().value))
      ensures old(sock.Healthy()) ==> sock.Healthy() && sock.failed == old(sock.failed)
    {
      hide AllAccepted, Frames, Answers, Next, Flush, AfterFirst, Socket.Healthy;
      assert rbufSize < BUFFER_SIZE;
      var cap := BUFFER_SIZE - rbufSize;
      var r := sock.Read(cap);
      match r
      case Blocked => return false;
      case Broken =>
        state := End;
        return false;
      case Done(bytes) =>
        Append(bytes);
        ServeBuffer();
        again := state == Req;
    }

    /** statereq. */
    method StateReq()
      requires Valid() && state == Req
      modifies this, rbuf, wbuf, sock
      ensures Valid()
      ensures old(commands) <= commands && old(sock.sent) <= sock.sent && old(sock.received) <= sock.received
      ensures sock.received + sock.inbox == old(sock.received + sock.inbox)
      ensures sock.received == old(sock.received) ==> Pending() == old(Pending()) && commands == old(commands)
      ensures sock.received != old(sock.received) && state == Req ==> CaughtUp()
      ensures old(ReadBlocks()) ==> state == Res && Pending() == AfterFirst(old(Pending() + Incoming().value))
      ensures old(sock.Healthy()) ==> sock.Healthy() && sock.failed == old(sock.failed)
    {
      hide Streams, Log, Ending, Next, Flush, AfterFirst, Socket.Healthy;
      var again := true;
      while again
        invariant old(sock.Healthy()) ==> sock.Healthy() && sock.failed == old(sock.failed)
        invariant Valid() && (again ==> state == Req)
        invariant old(commands) <= commands && old(sock.sent) <= sock.sent && old(sock.received) <= sock.received
        invariant sock.received + sock.inbox == old(sock.received + sock.inbox)
        invariant sock.received == old(sock.received) ==> Pending() == old(Pending()) && commands == old(commands)
        invariant sock.received != old(sock.received) && state == Req ==> CaughtUp()
        invariant old(ReadBlocks()) ==>
          if again then ReadBlocks() && Pending() + Incoming().value == old(Pending() + Incoming().value)
          else state == Res && Pending() == AfterFirst(old(Pending() + Incoming().value))
        decreases if again then |sock.readEvents| + 1 else 0
      {
        again := TryFill();
      }
    }

    /** connection_io, without the idle list. Whatever the socket does, the commands executed and
        the bytes sent are the beginning of what serving the whole input would give. A connection
        that waits for input has served everything it received exactly when something was read
        or nothing complete was left from before: the request behind a blocked reply waits until
        more input comes. */
    method ConnectionIo()
      requires Valid() && state != End
      modifies this, rbuf, wbuf, sock
      ensures Valid()
      ensures old(commands) <= commands && old(sock.sent) <= sock.sent && old(sock.received) <= sock.received
      ensures sock.received + sock.inbox == old(sock.received + sock.inbox)
      ensures old(state) == Res ==> commands == old(commands) && sock.received == old(sock.received) && Pending() == old(Pending())
      ensures old(state) == Res ==> state == old(Flush(sock.writeEvents, |Unsent()|))
      ensures state == Req ==> (CaughtUp() <==> sock.received != old(sock.received) || Unfinished(old(Pending())))
      ensures CaughtUp() <==> state == Req && Unfinished(Pending())
      ensures old(state) == Req && old(ReadBlocks()) ==> state == Res && Pending() == AfterFirst(old(Pending() + Incoming().value))
      ensures old(sock.Healthy()) && state == End ==> Serve(handler, sock.received, 0) == Service(commands, sock.sent, Pending(), true)
      ensures var all := Serve(handler, sock.received + sock.inbox, 0); commands <= all.cmds && sock.sent <= all.out
      ensures old(sock.Healthy()) ==> sock.Healthy() && sock.failed == old(sock.failed)
    {
      hide AllAccepted, Frames, Answers, Next, Serve, Flush, AfterFirst, Unfinished, Begins, Socket.Healthy, Streams, Log, BlocksAt;
      NextIs(Pending());
      if state == Req {
        StateReq();
      } else if state == Res {
        StateRes();
      } else {
        assert false;
      }
      Refines(sock.inbox);
      NextIs(Pending());
    }

    /** A connection refines serving all of its input at once. */
    lemma {:induction false} Refines(more: ByteString)
      requires Consistent()
      ensures var all := Serve(handler, sock.received + more, 0); commands <= all.cmds && sock.sent <= all.out
      ensures CaughtUp() ==> Serve(handler, sock.received, 0) == Service(commands, sock.sent, Pending(), false)
      ensures state == End && !sock.failed ==> Serve(handler, sock.received, 0) == Service(commands, sock.sent, Pending(), true)
    {
      hide AllAccepted, Frames, Next, Answers, Serve;
      ServedSoFar();
      Rest();
      ServeExtends(handler, sock.received, more, 0);
    }

    lemma ServedSoFar()
      requires Buffers() && Streams()
      ensures Serve(handler, sock.received, 0) == Before(answered, Answers(handler, answered), Serve(handler, Pending(), |answered|))
    {
      hide Serve, Frames, Answers, AllAccepted;
      ServeAfter(handler, answered, Pending());
    }

    /** What serving the bytes in the buffer begins with. */
    lemma Rest()
      requires Consistent()
      ensures var rest := Serve(handler, Pending(), |answered|);
        && commands <= answered + rest.cmds
        && (CaughtUp() ==> rest == Service([], [], Pending(), false) && commands == answered)
        && (state == End && !sock.failed ==> rest == Service(commands[|answered|..], [], Pending(), true) && commands == answered + rest.cmds)
      ensures CaughtUp() || (state == End && !sock.failed) ==> Unsent() == []
    {
      hide AllAccepted, Frames, Next, Answers;
    }
  }

  /** Two requests arrive at once, and the reply to the first is blocked. When the peer makes room,
      the reply is flushed: the connection then waits for input with a whole request in its buffer,
      and by ConnectionIo it goes on doing so until more input comes. */
  method Stall() returns (conn: Conn)
    ensures conn.Valid() && conn.state == Req && Next(conn.Pending()).Whole? && !conn.CaughtUp()
  {
    hide Frame, Flush, Next, Conn.Streams, Conn.Log, Conn.Ending;
    var frame := Frame(Body([]));
    TwoFrames();
    var sock := new Socket(frame + frame, [Ready(|frame + frame|)], []);
    conn := new Conn(sock, (n, cmd) => Response(RES_OK, [0]));
    FlushBlocks(|Answer(conn.handler, 0, [])|);
    assert conn.Incoming().value == frame + frame;
    assert conn.Pending() + conn.Incoming().value == frame + frame;
    conn.ConnectionIo();
    sock.writeEvents := [Ready(K_MAX_MSG)];
    FlushCompletes(|conn.Unsent()|);
    conn.ConnectionIo();
  }

  lemma TwoFrames()
    ensures var frame := Frame(Body([]));
      && |frame| == 8 && Next(frame + frame) == Whole([], 8) && AfterFirst(frame + frame) == frame && Next(frame) == Whole([], 8)
  {
    var frame := Frame(Body([]));
    WholeIsFrame(frame + frame, []);
    WholeIsFrame(frame, []);
  }

  lemma FlushBlocks(size: nat)
    ensures Flush([], size) == Res
  {
  }

  lemma FlushCompletes(size: nat)
    requires size <= K_MAX_MSG
    ensures Flush([Ready(K_MAX_MSG)], size) == Req
  {
  }
}
