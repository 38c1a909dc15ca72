/** What a client of the server may expect: its bytes are read as requests and answered in order.
    This is the simple form that the connections of utils.cpp refine. */
module Requests {
  import opened Bytes
  import opened Codec

  const RES_OK: int := 0
  const ERR_2BIG: int := 1001

  /** What do_request makes of a command; its effect on the data is left open. */
  datatype Response = Response(code: int, out: ByteString)

  /** The response to the n-th command of a connection. */
  type Handler = (nat, Command) -> Response

  const TOO_BIG: ByteString := Ascii("response is too big")

  function Ascii(s: string): (b: ByteString)
    ensures |b| == |s| && forall i :: 0 <= i < |s| && s[i] < 128 as char ==> b[i] as int == s[i] as int
  {
    seq(|s|, i requires 0 <= i < |s| => (s[i] as int % 128) as Byte)
  }

  datatype Request = Incomplete | Malformed | Whole(cmd: Command, size: nat)

  /** The first request in data. */
  function Next(data: ByteString): (r: Request)
    ensures r.Whole? ==> 4 < r.size <= |data| && r.size <= 4 + K_MAX_MSG
  {
    if |data| < 4 then Incomplete
    else
      var len := FromLE32(data);
      if len > K_MAX_MSG then Malformed
      else if 4 + len > |data| then Incomplete
      else
        var cmd := Parse(data[4..4 + len]);
        if cmd.Some? then Whole(cmd.value, 4 + len) else Malformed
  }

  /** The payload of the reply to the n-th command. */
  function Payload(h: Handler, n: nat, cmd: Command): (p: ByteString)
    ensures 4 + |p| <= K_MAX_MSG
  {
    var out := h(n, cmd).out;
    if 4 + |out| > K_MAX_MSG then TooBig() else out
  }

  function TooBig(): (p: ByteString)
    ensures |p| == 9 + |TOO_BIG|
  {
    Width();
    Encode(Err(ERR_2BIG, TOO_BIG))
  }

  function Answer(h: Handler, n: nat, cmd: Command): ByteString { Frame(Payload(h, n, cmd)) }

  /** All of a connection's input treated at once: the commands executed, the bytes answered, the
      input left over, and whether the connection ends there. */
  datatype Service = Service(cmds: seq<Command>, out: ByteString, rest: ByteString, ended: bool)

  function Serve(h: Handler, data: ByteString, n: nat): Service
    decreases |data|
  {
    match Next(data)
    case Incomplete => Service([], [], data, false)
    case Malformed => Service([], [], data, true)
    case Whole(cmd, size) =>
      if h(n, cmd).code != RES_OK then Service([cmd], [], data, true)
      else Before([cmd], Answer(h, n, cmd), Serve(h, data[size..], n + 1))
  }

  function Before(cmds: seq<Command>, out: ByteString, later: Service): Service {
    later.(cmds := cmds + later.cmds, out := out + later.out)
  }

  /** More input changes nothing about the requests that are there already. */
  lemma {:induction false} NextExtends(data: ByteString, more: ByteString)
    ensures !Next(data).Incomplete? ==> Next(data + more) == Next(data)
  {
    if |data| >= 4 {
      assert (data + more)[..4] == data[..4];
      var len := FromLE32(data);
      if 4 + len <= |data| {
        assert (data + more)[4..4 + len] == data[4..4 + len];
      }
    }
  }

  lemma BeforeExtends(cmds: seq<Command>, out: ByteString, a: Service, b: Service)
    requires a.cmds <= b.cmds && a.out <= b.out
    ensures Before(cmds, out, a).cmds <= Before(cmds, out, b).cmds && Before(cmds, out, a).out <= Before(cmds, out, b).out
  {
  }

  /** What is executed and answered for some input stays so when more comes in. */
  lemma {:induction false} ServeExtends(h: Handler, data: ByteString, more: ByteString, n: nat)
    ensures var early, late := Serve(h, data, n), Serve(h, data + more, n);
      && early.cmds <= late.cmds && early.out <= late.out
      && (early.ended ==> late == early.(rest := early.rest + more))
    decreases |data|
  {
    hide Next, Answer;
    NextExtends(data, more);
    match Next(data)
    case Incomplete =>
    case Malformed =>
    case Whole(cmd, size) =>
      if h(n, cmd).code == RES_OK {
        assert (data + more)[size..] == data[size..] + more;
        ServeExtends(h, data[size..], more, n + 1);
        BeforeExtends([cmd], Answer(h, n, cmd), Serve(h, data[size..], n + 1), Serve(h, data[size..] + more, n + 1));
      }
  }

  // ---------- A history of requests that have been answered ----------

  function Frames(cmds: seq<Command>): ByteString {
    if cmds == [] then [] else Frames(cmds[..|cmds| - 1]) + Frame(Body(cmds[|cmds| - 1]))
  }

  function Answers(h: Handler, cmds: seq<Command>): ByteString {
    if cmds == [] then []
    else Answers(h, cmds[..|cmds| - 1]) + Answer(h, |cmds| - 1, cmds[|cmds| - 1])
  }

  predicate Accepted(h: Handler, n: nat, cmd: Command) {
    Short(cmd) && |cmd| <= K_MAX_ARGS && |Body(cmd)| <= K_MAX_MSG && h(n, cmd).code == RES_OK
  }

  predicate AllAccepted(h: Handler, cmds: seq<Command>) {
    forall n :: 0 <= n < |cmds| ==> Accepted(h, n, cmds[n])
  }

  /** One more command has been accepted and answered. */
  lemma {:induction false} HistoryGrows(h: Handler, cmds: seq<Command>, data: ByteString)
    requires AllAccepted(h, cmds) && Next(data).Whole? && h(|cmds|, Next(data).cmd).code == RES_OK
    ensures var more := cmds + [Next(data).cmd];
      && AllAccepted(h, more)
      && Frames(more) + data[Next(data).size..] == Frames(cmds) + data
      && Answers(h, more) == Answers(h, cmds) + Answer(h, |cmds|, Next(data).cmd)
  {
    hide Next, Body, Frame, Answer;
    var cmd, size := Next(data).cmd, Next(data).size;
    WholeIsFrame(data, cmd);
    assert data == data[..size] + data[size..];
    var more := cmds + [cmd];
    assert more[..|cmds|] == cmds;
    assert Accepted(h, |cmds|, cmd);
    assert Frames(cmds) + (data[..size] + data[size..]) == Frames(cmds) + data[..size] + data[size..];
  }

  /** data begins with the frame of a command that the parser accepts. */
  predicate Begins(data: ByteString, cmd: Command) {
    Short(cmd) && |cmd| <= 4 && |Body(cmd)| <= 4096 && Frame(Body(cmd)) <= data
  }

  /** A whole request is a frame, and a frame is a whole request. */
  lemma {:induction false} WholeIsFrame(data: ByteString, cmd: Command)
    ensures Next(data).Whole? && Next(data).cmd == cmd <==> Begins(data, cmd)
    ensures Next(data).Whole? && Next(data).cmd == cmd ==> data[..Next(data).size] == Frame(Body(cmd))
  {
    hide FromLE32, LE32, Parse;
    if Next(data).Whole? && Next(data).cmd == cmd {
      var size := Next(data).size;
      RequestsAreCanonical(data[4..size], cmd);
      FromLE32Inverse(data);
      assert data[..size] == data[..4] + data[4..size];
    }
    if Begins(data, cmd) {
      var body := Body(cmd);
      var rest := data[|Frame(body)|..];
      LE32Inverse(|body|, body + rest);
      assert data == LE32(|body|) + (body + rest) && data[4..4 + |body|] == body;
      RequestsAreCanonical(body, cmd);
    }
  }

  /** data may still become a request: its size is not there yet, or more bytes will complete a frame
      that is not too long. */
  ghost predicate Unfinished(data: ByteString) {
    |data| < 4 || exists body: ByteString :: |body| <= 4096 && data < Frame(body)
  }

  lemma {:induction false} Completed(data: ByteString, body: ByteString)
    requires 4 <= |data| < 4 + |body| && FromLE32(data) == |body| && data[4..] <= body
    ensures data < Frame(body)
  {
    hide FromLE32, LE32;
    FromLE32Inverse(data);
    assert data == data[..4] + data[4..];
  }

  lemma {:induction false} IncompleteIsUnfinished(data: ByteString)
    requires Next(data).Incomplete?
    ensures Unfinished(data)
  {
    hide FromLE32, Frame;
    if |data| >= 4 {
      var pad := seq(4 + FromLE32(data) - |data|, _ => 0 as Byte);
      Completed(data, data[4..] + pad);
    }
  }

  lemma {:induction false} UnfinishedIsIncomplete(data: ByteString)
    requires Unfinished(data)
    ensures Next(data).Incomplete?
  {
    if |data| >= 4 {
      var body: ByteString :| |body| <= 4096 && data < Frame(body);
      LE32Inverse(|body|, []);
      assert data[..4] == Frame(body)[..4] == LE32(|body|) == (LE32(|body|) + [])[..4];
    }
  }

  /** What the first bytes of the input are: an unfinished request, a command, or neither. */
  lemma {:induction false} NextIs(data: ByteString)
    ensures Next(data).Incomplete? <==> Unfinished(data)
    ensures forall cmd :: Next(data).Whole? && Next(data).cmd == cmd <==> Begins(data, cmd)
    ensures Next(data).Malformed? <==> !Unfinished(data) && forall cmd :: !Begins(data, cmd)
  {
    hide Next, Unfinished, Begins;
    if Next(data).Incomplete? {
      IncompleteIsUnfinished(data);
    }
    if Unfinished(data) {
      UnfinishedIsIncomplete(data);
    }
    forall cmd
      ensures Next(data).Whole? && Next(data).cmd == cmd <==> Begins(data, cmd)
    {
      WholeIsFrame(data, cmd);
    }
    if Next(data).Whole? {
      assert Begins(data, Next(data).cmd);
    }
  }

  /** How serving some input ends, after the commands that are answered: nothing but an unfinished
      request is left; or what is left is no request; or a command has been executed and refused. */
  ghost predicate Ends(h: Handler, answered: seq<Command>, rest: ByteString, s: Service) {
    || (!s.ended && s.cmds == answered && Unfinished(rest))
    || (s.ended && s.cmds == answered && !Unfinished(rest) && forall cmd :: !Begins(rest, cmd))
    || (s.ended && |s.cmds| == |answered| + 1 && s.cmds[..|answered|] == answered && Begins(rest, s.cmds[|answered|])
        && h(|answered|, s.cmds[|answered|]).code != 0)
  }

  /** What Serve computes: the input is the frames of the commands that are answered, each accepted
      with code 0, and a rest. */
  lemma {:induction false} ServeIs(h: Handler, data: ByteString) returns (answered: seq<Command>, rest: ByteString)
    ensures data == Frames(answered) + rest
    ensures forall n :: 0 <= n < |answered| ==> Begins(Frame(Body(answered[n])), answered[n]) && h(n, answered[n]).code == 0
    ensures var s := Serve(h, data, 0); s.rest == rest && s.out == Answers(h, answered) && Ends(h, answered, rest, s)
  {
    assert data == Frames([]) + data;
    answered, rest := ServeOn(h, data, [], data);
    ServeAfter(h, answered, rest);
    LastStep(h, answered, rest);
  }

  lemma {:induction false} ServeOn(h: Handler, data: ByteString, cmds: seq<Command>, left: ByteString)
    returns (answered: seq<Command>, rest: ByteString)
    requires AllAccepted(h, cmds) && data == Frames(cmds) + left
    ensures AllAccepted(h, answered) && data == Frames(answered) + rest
    ensures Next(rest).Whole? ==> h(|answered|, Next(rest).cmd).code != RES_OK
    decreases |left|
  {
    hide Next, Frames, Answer, Answers, AllAccepted;
    if Next(left).Whole? && h(|cmds|, Next(left).cmd).code == RES_OK {
      HistoryGrows(h, cmds, left);
      answered, rest := ServeOn(h, data, cmds + [Next(left).cmd], left[Next(left).size..]);
    } else {
      answered, rest := cmds, left;
    }
  }

  lemma {:induction false} LastStep(h: Handler, answered: seq<Command>, rest: ByteString)
    requires Next(rest).Whole? ==> h(|answered|, Next(rest).cmd).code != RES_OK
    ensures var s := Before(answered, Answers(h, answered), Serve(h, rest, |answered|));
      s.rest == rest && s.out == Answers(h, answered) && Ends(h, answered, rest, s)
  {
    hide Next, Begins, Unfinished, Answers;
    NextIs(rest);
  }

  /** The reply to the n-th command stands behind the replies to those before it, with its size in
      front. */
  lemma {:induction false} AnswerAt(h: Handler, cmds: seq<Command>, n: nat)
    requires n < |cmds|
    ensures Answers(h, cmds[..n]) + Frame(Payload(h, n, cmds[n])) <= Answers(h, cmds)
    ensures |cmds| == n + 1 ==> Answers(h, cmds[..n]) + Frame(Payload(h, n, cmds[n])) == Answers(h, cmds)
    decreases |cmds|
  {
    if n < |cmds| - 1 {
      var init := cmds[..|cmds| - 1];
      AnswerAt(h, init, n);
      assert init[..n] == cmds[..n];
    }
  }

  /** A payload is what the handler has put out if that fits 4096 bytes with its size, and otherwise
      decodes as the error. */
  lemma {:induction false} PayloadIs(h: Handler, n: nat, cmd: Command)
    ensures var out, p := h(n, cmd).out, Payload(h, n, cmd);
      if 4 + |out| <= 4096 then p == out
      else Decode(p) == Got(|p|, Err(1001, Ascii("response is too big")))
  {
    hide Encode, Decode;
    var err := Err(1001, Ascii("response is too big"));
    Width();
    EncodedDecodes(err, []);
    assert Encode(err) + [] == Encode(err);
  }

  lemma {:induction false} BeforeTwice(a: seq<Command>, x: ByteString, b: seq<Command>, y: ByteString, s: Service)
    ensures Before(a, x, Before(b, y, s)) == Before(a + b, x + y, s)
    ensures Before([], [], s) == s
  {
    assert a + (b + s.cmds) == a + b + s.cmds && x + (y + s.out) == x + y + s.out;
    assert [] + s.cmds == s.cmds && [] + s.out == s.out;
  }

  lemma {:induction false} FrameServed(h: Handler, n: nat, cmd: Command, rest: ByteString)
    requires Accepted(h, n, cmd)
    ensures Serve(h, Frame(Body(cmd)) + rest, n) == Before([cmd], Answer(h, n, cmd), Serve(h, rest, n + 1))
  {
    hide Next, Body, Frame, Answer;
    var frame := Frame(Body(cmd));
    assert frame <= frame + rest;
    WholeIsFrame(frame + rest, cmd);
    var size := Next(frame + rest).size;
    assert (frame + rest)[..size] == frame;
    assert (frame + rest)[size..] == rest;
  }

  /** After a history of accepted commands, serving goes on with the rest of the input. */
  lemma {:induction false} ServeAfter(h: Handler, cmds: seq<Command>, rest: ByteString)
    requires AllAccepted(h, cmds)
    ensures Serve(h, Frames(cmds) + rest, 0) == Before(cmds, Answers(h, cmds), Serve(h, rest, |cmds|))
  {
    hide Serve, Before, Body, Frame, Answer, Accepted;
    BeforeTwice([], [], [], [], Serve(h, rest, |cmds|));
    if cmds == [] {
      assert [] + rest == rest;
    } else {
      var n := |cmds| - 1;
      var init, cmd, frame := cmds[..n], cmds[n], Frame(Body(cmds[n]));
      assert Accepted(h, n, cmd);
      ServeAfter(h, init, frame + rest);
      FrameServed(h, n, cmd, rest);
      BeforeTwice(init, Answers(h, init), [cmd], Answer(h, n, cmd), Serve(h, rest, n + 1));
      assert Frames(cmds) + rest == Frames(init) + (frame + rest);
      assert cmds == init + [cmd];
    }
  }

  /** Pipelined requests are all executed, in their order, and answered in that order. */
  lemma {:induction false} PipelineServed(h: Handler, cmds: seq<Command>)
    requires AllAccepted(h, cmds)
    ensures Serve(h, Frames(cmds), 0) == Service(cmds, Answers(h, cmds), [], false)
  {
    ServeAfter(h, cmds, []);
    assert Frames(cmds) + [] == Frames(cmds) && cmds + [] == cmds && Answers(h, cmds) + [] == Answers(h, cmds);
  }

  /** A reply that is a value reaches the client as that value, or as an error if it is too big. */
  lemma {:induction false} PayloadDecodes(h: Handler, n: nat, cmd: Command, v: Value)
    requires Sendable(v) && h(n, cmd).out == Encode(v)
    ensures Decode(Payload(h, n, cmd)) ==
      Got(|Payload(h, n, cmd)|, if 4 + |Encode(v)| <= K_MAX_MSG then v else Err(ERR_2BIG, TOO_BIG))
  {
    hide Encode, Decode;
    var sent := if 4 + |Encode(v)| <= K_MAX_MSG then v else Err(ERR_2BIG, TOO_BIG);
    Width();
    EncodedDecodes(sent, []);
    assert Encode(sent) + [] == Encode(sent);
  }
}
