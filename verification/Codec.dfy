/** The bytes on the wire: requests (client.cpp, parse_req in common.cpp) and replies
    (serialisation.cpp, on_response in client.cpp). */
module Codec {
  import opened Bytes
  import opened Common

  const K_MAX_ARGS: nat := 4
  const K_MAX_MSG: nat := 4096
  const TWO32: nat := 0x1_0000_0000

  // ---------- Integers ----------

  function Pow256(k: nat): (p: nat)
    ensures p > 0
  {
    if k == 0 then 1 else 256 * Pow256(k - 1)
  }

  /** k bytes, lowest first; the number wraps as an unsigned integer of that width does. */
  function Little(n: nat, k: nat): (b: ByteString)
    ensures |b| == k
  {
    if k == 0 then [] else [(n % 256) as Byte] + Little(n / 256, k - 1)
  }

  function FromLittle(b: ByteString): nat {
    if b == [] then 0 else b[0] as nat + 256 * FromLittle(b[1..])
  }

  function Reverse(b: ByteString): (r: ByteString)
    ensures |r| == |b|
  {
    if b == [] then [] else Reverse(b[1..]) + [b[0]]
  }

  lemma {:induction false} LittleInverse(n: nat, k: nat)
    requires n < Pow256(k)
    ensures FromLittle(Little(n, k)) == n
  {
    if k > 0 {
      LittleInverse(n / 256, k - 1);
    }
  }

  lemma {:induction false} FromLittleInverse(b: ByteString)
    ensures FromLittle(b) < Pow256(|b|) && Little(FromLittle(b), |b|) == b
  {
    if b != [] {
      FromLittleInverse(b[1..]);
      assert FromLittle(b) / 256 == FromLittle(b[1..]) && FromLittle(b) % 256 == b[0] as nat;
    }
  }

  /** Byte j of a number counts its 256^j. */
  lemma {:induction false} LittleAt(n: nat, k: nat, j: nat)
    requires j < k
    ensures Little(n, k)[j] as nat == n / Pow256(j) % 256
  {
    if j > 0 {
      LittleAt(n / 256, k - 1, j - 1);
      DivideTwice(n, Pow256(j - 1));
    }
  }

  lemma {:induction false} DivideTwice(n: nat, b: nat)
    requires b > 0
    ensures n / 256 / b == n / (256 * b)
  {
    var m, q, r := n / 256, n / 256 / b, n / 256 % b;
    assert m == q * b + r;
    assert 256 * (q * b) == q * (256 * b);
    DivisionIs(n, 256 * b, q, 256 * r + n % 256);
  }

  lemma {:induction false} ReverseAt(b: ByteString, j: nat)
    requires j < |b|
    ensures Reverse(b)[j] == b[|b| - 1 - j]
  {
    if j < |b| - 1 {
      ReverseAt(b[1..], j);
    }
  }

  lemma {:induction false} ReverseAppend(b: ByteString, x: Byte)
    ensures Reverse(b + [x]) == [x] + Reverse(b)
  {
    if b != [] {
      ReverseAppend(b[1..], x);
      assert (b + [x])[1..] == b[1..] + [x];
    }
  }

  lemma {:induction false} ReverseTwice(b: ByteString)
    ensures Reverse(Reverse(b)) == b
  {
    if b != [] {
      ReverseTwice(b[1..]);
      ReverseAppend(Reverse(b[1..]), b[0]);
    }
  }

  function LE32(n: nat): (b: ByteString)
    ensures |b| == 4
  {
    Little(n, 4)
  }

  /** The first four bytes as a uint32_t. */
  function FromLE32(b: ByteString): nat
    requires |b| >= 4
  {
    FromLittle(b[..4])
  }

  lemma Width()
    ensures Pow256(0) == 1 && Pow256(1) == 0x100 && Pow256(2) == 0x1_0000 && Pow256(3) == 0x100_0000
    ensures Pow256(4) == TWO32 && Pow256(8) == TWO32 * TWO32
  {
    assert Pow256(2) == 256 * 256 && Pow256(4) == 256 * 256 * Pow256(2);
    assert Pow256(6) == 256 * 256 * Pow256(4) && Pow256(8) == 256 * 256 * Pow256(6);
  }

  lemma {:induction false} LE32Inverse(n: nat, rest: ByteString)
    requires n < TWO32
    ensures FromLE32(LE32(n) + rest) == n
  {
    Width();
    LittleInverse(n, 4);
    assert (LE32(n) + rest)[..4] == LE32(n);
  }

  lemma {:induction false} FromLE32Inverse(b: ByteString)
    requires |b| >= 4
    ensures FromLE32(b) < TWO32 && LE32(FromLE32(b)) == b[..4]
  {
    Width();
    FromLittleInverse(b[..4]);
  }

  /** Two's complement. */
  function ToUnsigned(x: int, k: nat): nat
    requires Fits(x, k)
  {
    if x < 0 then x + Pow256(k) else x
  }

  function ToSigned(n: nat, k: nat): int {
    if n < Pow256(k) / 2 then n else n - Pow256(k)
  }

  predicate Fits(x: int, k: nat) { -(Pow256(k) / 2) <= x < Pow256(k) / 2 }

  // ---------- Requests ----------

  type Command = seq<ByteString>

  predicate Short(cmd: Command) {
    forall i :: 0 <= i < |cmd| ==> |cmd[i]| < TWO32
  }

  function Args(cmd: Command): ByteString {
    if cmd == [] then [] else LE32(|cmd[0]|) + cmd[0] + Args(cmd[1..])
  }

  /** What follows the length of a request. */
  function Body(cmd: Command): ByteString { LE32(|cmd|) + Args(cmd) }

  function Frame(body: ByteString): ByteString { LE32(|body|) + body }

  /** n arguments that fill data exactly. */
  function ParseArgs(data: ByteString, n: nat): Option<Command>
    decreases n
  {
    if n == 0 then if data == [] then Some([]) else None
    else if |data| < 4 || |data| < 4 + FromLE32(data) then None
    else
      var end := 4 + FromLE32(data);
      After([data[4..end]], ParseArgs(data[end..], n - 1))
  }

  /** The arguments parsed so far before those still to come. */
  function After(cmd: Command, rest: Option<Command>): Option<Command> {
    if rest.Some? then Some(cmd + rest.value) else None
  }

  function Parse(data: ByteString): Option<Command> {
    if |data| < 4 || FromLE32(data) > K_MAX_ARGS then None else ParseArgs(data[4..], FromLE32(data))
  }

  lemma {:induction false} ParsedArgs(data: ByteString, n: nat)
    requires ParseArgs(data, n).Some?
    ensures var cmd := ParseArgs(data, n).value; |cmd| == n && Short(cmd) && data == Args(cmd)
    decreases n
  {
    if n > 0 {
      var end := 4 + FromLE32(data);
      FromLE32Inverse(data);
      ParsedArgs(data[end..], n - 1);
      var cmd := ParseArgs(data[end..], n - 1).value;
      assert ([data[4..end]] + cmd)[1..] == cmd;
      assert data == data[..4] + data[4..end] + data[end..];
    }
  }

  lemma {:induction false} ArgsParsed(cmd: Command)
    requires Short(cmd)
    ensures ParseArgs(Args(cmd), |cmd|) == Some(cmd)
  {
    hide FromLE32, LE32;
    if cmd != [] {
      var arg, data := cmd[0], Args(cmd);
      ArgsParsed(cmd[1..]);
      LE32Inverse(|arg|, arg + Args(cmd[1..]));
      assert data == LE32(|arg|) + (arg + Args(cmd[1..]));
      assert data[4..4 + |arg|] == arg && data[4 + |arg|..] == Args(cmd[1..]);
      assert cmd == [arg] + cmd[1..];
    }
  }

  /** Requests are canonical: the server accepts exactly the encodings of commands of at most
      four arguments, and gets each of these commands back from its one encoding. */
  lemma {:induction false} RequestsAreCanonical(data: ByteString, cmd: Command)
    ensures Parse(data) == Some(cmd) <==> |cmd| <= 4 && Short(cmd) && data == Body(cmd)
  {
    if |data| >= 4 {
      FromLE32Inverse(data);
      if Parse(data).Some? {
        ParsedArgs(data[4..], FromLE32(data));
      }
      assert data == data[..4] + data[4..];
    }
    if |cmd| <= K_MAX_ARGS && Short(cmd) && data == Body(cmd) {
      LE32Inverse(|cmd|, Args(cmd));
      ArgsParsed(cmd);
      assert data[4..] == Args(cmd);
    }
  }

  lemma {:induction false} AfterNone(rest: Option<Command>)
    ensures After([], rest) == rest
  {
    assert rest.Some? ==> [] + rest.value == rest.value;
  }

  /** What there is at pos when n more arguments must follow. */
  lemma {:induction false} ParseStep(data: ByteString, pos: nat, n: nat, cmd: Command)
    requires pos <= |data|
    ensures var whole := After(cmd, ParseArgs(data[pos..], n));
      if n == 0 then whole == if pos == |data| then Some(cmd) else None
      else if pos + 4 > |data| || pos + 4 + FromLE32(data[pos..]) > |data| then whole == None
      else
        var end := pos + 4 + FromLE32(data[pos..]);
        whole == After(cmd + [data[pos + 4..end]], ParseArgs(data[end..], n - 1))
  {
    assert cmd + [] == cmd;
    if n > 0 && pos + 4 <= |data| && pos + 4 + FromLE32(data[pos..]) <= |data| {
      hide FromLE32;
      var end := pos + 4 + FromLE32(data[pos..]);
      var arg, rest := data[pos + 4..end], ParseArgs(data[end..], n - 1);
      assert data[pos..][4..end - pos] == arg && data[pos..][end - pos..] == data[end..];
      assert rest.Some? ==> cmd + [arg] + rest.value == cmd + ([arg] + rest.value);
    }
  }

  /** parse_req: 0 and the command, or -1. */
  method ParseReq(data: ByteString) returns (rv: int, cmd: Command)
    ensures rv == if Parse(data).Some? then 0 else -1
    ensures rv == 0 ==> Parse(data) == Some(cmd)
  {
    hide ParseArgs, After, FromLE32;
    cmd := [];
    if |data| < 4 {
      return -1, cmd;
    }
    var cmdLen: nat := FromLE32(data);
    if cmdLen > K_MAX_ARGS {
      return -1, cmd;
    }
    var pos: nat := 4;
    AfterNone(ParseArgs(data[4..], cmdLen));
    while cmdLen > 0
      invariant 4 <= pos <= |data| && cmdLen <= FromLE32(data)
      invariant ParseArgs(data[4..], FromLE32(data)) == After(cmd, ParseArgs(data[pos..], cmdLen))
    {
      ParseStep(data, pos, cmdLen, cmd);
      if pos + 4 > |data| {
        return -1, cmd;
      }
      var argLen := FromLE32(data[pos..]);
      if pos + 4 + argLen > |data| {
        return -1, cmd;
      }
      cmd := cmd + [data[pos + 4..pos + 4 + argLen]];
      pos := pos + 4 + argLen;
      cmdLen := cmdLen - 1;
    }
    ParseStep(data, pos, 0, cmd);
    if pos != |data| {
      return -1, cmd;
    }
    rv := 0;
  }

  lemma {:induction false} ArgsAppend(a: Command, b: Command)
    ensures Args(a + b) == Args(a) + Args(b)
  {
    hide LE32;
    if a == [] {
      assert a + b == b;
    } else {
      ArgsAppend(a[1..], b);
      assert a + b != [];
      assert (a + b)[0] == a[0] && (a + b)[1..] == a[1..] + b;
    }
  }

  /** What remains of a command when each size passes through a uint32_t. */
  function Truncated(cmd: Command): (t: Command)
    ensures |t| == |cmd| && Short(t)
    ensures forall i :: 0 <= i < |cmd| ==> t[i] == cmd[i][..|cmd[i]| % TWO32]
    ensures Short(cmd) ==> t == cmd
  {
    assert Short(cmd) ==> forall i :: 0 <= i < |cmd| ==> cmd[i][..|cmd[i]| % TWO32] == cmd[i];
    seq(|cmd|, i requires 0 <= i < |cmd| => cmd[i][..|cmd[i]| % TWO32])
  }

  /** What send_req writes; None if it gives up. */
  function Sent(cmd: Command): Option<ByteString> {
    var body := Body(Truncated(cmd));
    if |body| <= K_MAX_MSG then Some(Frame(body)) else None
  }

  lemma NoArgs(cmd: Command)
    ensures Args(cmd[..0]) == []
  {
  }

  /** The first k arguments and the next one. */
  lemma {:induction false} ArgsGrow(cmd: Command, k: nat)
    requires k < |cmd|
    ensures Args(cmd[..k + 1]) == Args(cmd[..k]) + LE32(|cmd[k]|) + cmd[k]
    ensures |Args(cmd[..k + 1])| <= |Args(cmd)| && |Args(cmd[..k])| <= |Args(cmd)|
  {
    ArgsAppend(cmd[..k], [cmd[k]]);
    ArgsAppend(cmd[..k + 1], cmd[k + 1..]);
    assert Args([cmd[k]]) == LE32(|cmd[k]|) + cmd[k] + Args([]);
    assert cmd == cmd[..k + 1] + cmd[k + 1..] && cmd[..k + 1] == cmd[..k] + [cmd[k]];
  }

  lemma {:induction false} WrapAdd(x: nat, len: nat, a: nat)
    requires len == x % TWO32
    ensures (len + a) % TWO32 == (x + a) % TWO32
  {
    assert x == x / TWO32 * TWO32 + len;
    assert x + a == (len + a) + x / TWO32 * TWO32;
  }

  /** The first loop of send_req, with its 32-bit sums. */
  method SumLengths(cmd: Command) returns (len: nat, ok: bool)
    ensures ok ==> len <= K_MAX_MSG && len == |Body(Truncated(cmd))| % TWO32
    ensures !ok ==> |Body(Truncated(cmd))| > K_MAX_MSG
  {
    hide Args, Truncated, LE32;
    ghost var t := Truncated(cmd);
    len, ok := 4, true;
    NoArgs(t);
    for i := 0 to |cmd|
      invariant len <= K_MAX_MSG && len == (4 + |Args(t[..i])|) % TWO32
    {
      ArgsGrow(t, i);
      WrapAdd(4 + |Args(t[..i])|, len, 4 + |t[i]|);
      len := (len + 4 + |cmd[i]| % TWO32) % TWO32;
      if len > K_MAX_MSG {
        return len, false;
      }
    }
    assert t[..|cmd|] == t;
  }

  /** send_req. A sum that wraps around is caught when the buffer would overflow. */
  method SendReq(cmd: Command) returns (sent: Option<ByteString>)
    ensures sent == Sent(cmd)
  {
    hide Args, Truncated, LE32;
    ghost var t := Truncated(cmd);
    var len, ok := SumLengths(cmd);
    if !ok {
      return None;
    }
    var wbuf := LE32(len) + LE32(|cmd| % TWO32);
    var cur := 8;
    NoArgs(t);
    for i := 0 to |cmd|
      invariant cur == |wbuf| <= 4 + K_MAX_MSG
      invariant wbuf == LE32(len) + LE32(|cmd| % TWO32) + Args(t[..i])
      invariant 4 * i <= |Args(t[..i])|
    {
      ArgsGrow(t, i);
      var argLen := |cmd[i]| % TWO32;
      if cur + 4 + argLen > 4 + K_MAX_MSG {
        return None;
      }
      wbuf := wbuf + LE32(argLen) + cmd[i][..argLen];
      cur := cur + 4 + argLen;
    }
    assert t[..|cmd|] == t && |cmd| % TWO32 == |cmd| && len == |Body(t)|;
    assert wbuf == LE32(len) + (LE32(|t|) + Args(t)) && wbuf[..4 + len] == wbuf;
    sent := Some(wbuf[..4 + len]);
  }

  /** Whatever the client sends, if it sends anything, the server reads back: the frame takes its
      own length, and the command comes back when it has at most four arguments. */
  lemma {:induction false} ServerReadsWhatIsSent(cmd: Command, rest: ByteString)
    requires Short(cmd)
    ensures Sent(cmd).Some? <==> |Body(cmd)| <= 4096
    ensures Sent(cmd).Some? ==> var data := Sent(cmd).value + rest; var len := FromLE32(data);
      && 4 + len == |Sent(cmd).value| <= 4 + 4096
      && Parse(data[4..4 + len]) == if |cmd| <= 4 then Some(cmd) else None
  {
    if Sent(cmd).Some? {
      var body := Body(cmd);
      var data := Sent(cmd).value + rest;
      LE32Inverse(|body|, body + rest);
      assert data == LE32(|body|) + (body + rest) && data[4..4 + |body|] == body;
      RequestsAreCanonical(body, cmd);
      if |cmd| > K_MAX_ARGS && Parse(body).Some? {
        RequestsAreCanonical(body, Parse(body).value);
        ArgCount(cmd);
        LE32Inverse(|cmd|, Args(cmd));
        LE32Inverse(|Parse(body).value|, Args(Parse(body).value));
      }
    }
  }

  /** Where argument i of a request stands: behind the size of the request, the number of its
      arguments, and the arguments before it with their sizes. */
  function ArgPos(cmd: Command, i: nat): nat
    requires i <= |cmd|
  {
    if i == 0 then 8 else ArgPos(cmd, i - 1) + 4 + |cmd[i - 1]|
  }

  lemma {:induction false} ArgPosIs(cmd: Command, i: nat)
    requires i <= |cmd|
    ensures ArgPos(cmd, i) == 8 + |Args(cmd[..i])|
  {
    if i > 0 {
      ArgPosIs(cmd, i - 1);
      ArgsGrow(cmd, i - 1);
    }
  }

  /** The bytes of a request: its size without these four bytes, the number of arguments, and each
      argument behind its size, all low byte first. */
  lemma {:induction false} RequestHeader(cmd: Command)
    ensures var b := Frame(Body(cmd));
      |b| == ArgPos(cmd, |cmd|) && HasLE32(b, 0, ArgPos(cmd, |cmd|) - 4) && HasLE32(b, 4, |cmd|)
  {
    hide HasLE32, LE32, Args;
    ArgPosIs(cmd, |cmd|);
    assert cmd[..|cmd|] == cmd;
    var b := Frame(Body(cmd));
    LE32Has([], |Body(cmd)|, Body(cmd));
    LE32Has(LE32(|Body(cmd)|), |cmd|, Args(cmd));
    assert b == [] + LE32(|Body(cmd)|) + Body(cmd) == LE32(|Body(cmd)|) + LE32(|cmd|) + Args(cmd);
  }

  lemma {:induction false} RequestArgument(cmd: Command, i: nat)
    requires i < |cmd|
    ensures var b, pos := Frame(Body(cmd)), ArgPos(cmd, i);
      HasLE32(b, pos, |cmd[i]|) && pos + 4 + |cmd[i]| <= |b| && b[pos + 4..pos + 4 + |cmd[i]|] == cmd[i]
  {
    hide HasLE32, LE32, Args;
    ArgPosIs(cmd, i);
    ArgsGrow(cmd, i);
    ArgsAppend(cmd[..i + 1], cmd[i + 1..]);
    assert cmd == cmd[..i + 1] + cmd[i + 1..];
    var front, arg, rest := LE32(|Body(cmd)|) + LE32(|cmd|) + Args(cmd[..i]), cmd[i], Args(cmd[i + 1..]);
    assert Frame(Body(cmd)) == front + LE32(|arg|) + (arg + rest);
    LE32Has(front, |arg|, arg + rest);
  }

  lemma {:induction false} ArgCount(cmd: Command)
    ensures 4 * |cmd| <= |Args(cmd)|
  {
    if cmd != [] {
      ArgCount(cmd[1..]);
    }
  }

  // ---------- Replies ----------

  const SER_NIL: Byte := 0
  const SER_ERR: Byte := 1
  const SER_STR: Byte := 2
  const SER_INT: Byte := 3
  const SER_ARR: Byte := 4

  datatype Value =
    | Nil
    | Err(code: int, msg: ByteString)
    | Str(s: ByteString)
    | Int(i: int)
    | Arr(items: seq<Value>)

  /** Every number fits the field that carries it. */
  predicate Sendable(v: Value) {
    match v
    case Nil => true
    case Err(code, msg) => Fits(code, 4) && |msg| < TWO32
    case Str(s) => |s| < TWO32
    case Int(i) => Fits(i, 8)
    case Arr(items) => |items| < TWO32 && forall x :: x in items ==> Sendable(x)
  }

  function Encode(v: Value): (b: ByteString)
    requires Sendable(v)
    ensures |b| > 0
  {
    match v
    case Nil => [SER_NIL]
    case Err(code, msg) => [SER_ERR] + LE32(ToUnsigned(code, 4)) + LE32(|msg|) + msg
    case Str(s) => [SER_STR] + LE32(|s|) + s
    case Int(i) => [SER_INT] + Reverse(Little(ToUnsigned(i, 8), 8))
    case Arr(items) => [SER_ARR] + LE32(|items|) + EncodeAll(items)
  }

  function EncodeAll(vs: seq<Value>): ByteString
    requires forall x :: x in vs ==> Sendable(x)
  {
    if vs == [] then [] else Encode(vs[0]) + EncodeAll(vs[1..])
  }

  /** What the client makes of some bytes. Overrun stands for a size field so large that the test
      of it wraps around and lets it pass. */
  datatype Decoded<T> = Bad | Overrun | Got(size: nat, value: T)

  function Decode(data: ByteString): (d: Decoded<Value>)
    ensures d.Got? ==> 0 < d.size <= |data|
    decreases |data|, 0, 0
  {
    if |data| < 1 then Bad
    else if data[0] == SER_NIL then Got(1, Nil)
    else if data[0] == SER_ERR then
      if |data| < 9 then Bad
      else
        var len := FromLE32(data[5..]);
        if |data| < (9 + len) % TWO32 then Bad
        else if |data| < 9 + len then Overrun
        else Got(9 + len, Err(ToSigned(FromLE32(data[1..]), 4), data[9..9 + len]))
    else if data[0] == SER_ARR then
      if |data| < 5 then Bad
      else
        var items := DecodeAll(data[5..], FromLE32(data[1..]));
        if items.Got? then Got(5 + items.size, Arr(items.value)) else if items.Bad? then Bad else Overrun
    else if data[0] == SER_INT then
      if |data| < 9 then Bad else Got(9, Int(ToSigned(FromLittle(Reverse(data[1..9])), 8)))
    else if data[0] == SER_STR then
      if |data| < 5 then Bad
      else
        var len := FromLE32(data[1..]);
        if |data| < (5 + len) % TWO32 then Bad
        else if |data| < 5 + len then Overrun
        else Got(5 + len, Str(data[5..5 + len]))
    else Bad
  }

  /** n values in a row. */
  function DecodeAll(data: ByteString, n: nat): (d: Decoded<seq<Value>>)
    ensures d.Got? ==> d.size <= |data|
    decreases |data|, 1, n
  {
    if n == 0 then Got(0, [])
    else
      match Decode(data)
      case Bad => Bad
      case Overrun => Overrun
      case Got(size, v) =>
        var rest := DecodeAll(data[size..], n - 1);
        if rest.Got? then Got(size + rest.size, [v] + rest.value) else rest
  }

  // What the bytes of a reply are, one by one.

  /** The first byte tells the kind of a value. */
  lemma {:induction false} TagIs(v: Value)
    requires Sendable(v)
    ensures Encode(v)[0] as int ==
      match v {
        case Nil => 0
        case Err(_, _) => 1
        case Str(_) => 2
        case Int(_) => 3
        case Arr(_) => 4
      }
    ensures v.Nil? ==> |Encode(v)| == 1
  {
  }

  /** b holds the 32-bit number n at position pos, low byte first. */
  predicate HasLE32(b: ByteString, pos: nat, n: nat) {
    pos + 4 <= |b| && forall j :: 0 <= j < 4 ==> b[pos + j] as nat == n / Pow256(j) % 256
  }

  lemma {:induction false} LE32Has(a: ByteString, n: nat, rest: ByteString)
    ensures HasLE32(a + LE32(n) + rest, |a|, n)
  {
    forall j | 0 <= j < 4
      ensures (a + LE32(n) + rest)[|a| + j] as nat == n / Pow256(j) % 256
    {
      LittleAt(n, 4, j);
    }
  }

  /** The size of a frame, low byte first, is in front of its bytes. */
  lemma {:induction false} FrameBytes(body: ByteString)
    ensures |Frame(body)| == 4 + |body| && HasLE32(Frame(body), 0, |body|) && Frame(body)[4..] == body
  {
    LE32Has([], |body|, body);
    assert [] + LE32(|body|) + body == Frame(body);
  }

  /** A string: its size, low byte first, and its bytes. */
  lemma {:induction false} StrBytes(s: ByteString)
    requires Sendable(Str(s))
    ensures var b := Encode(Str(s)); |b| == 5 + |s| && HasLE32(b, 1, |s|) && b[5..] == s
  {
    LE32Has([SER_STR], |s|, s);
  }

  /** An error: its code in two's complement, the size of its message, and the message. */
  lemma {:induction false} ErrBytes(code: int, msg: ByteString)
    requires Sendable(Err(code, msg))
    ensures var b := Encode(Err(code, msg));
      |b| == 9 + |msg| && HasLE32(b, 1, code % 0x1_0000_0000) && HasLE32(b, 5, |msg|) && b[9..] == msg
  {
    Width();
    var n := ToUnsigned(code, 4);
    assert n == code % 0x1_0000_0000;
    var b := Encode(Err(code, msg));
    assert b == [SER_ERR] + LE32(n) + (LE32(|msg|) + msg) == ([SER_ERR] + LE32(n)) + LE32(|msg|) + msg;
    LE32Has([SER_ERR], n, LE32(|msg|) + msg);
    LE32Has([SER_ERR] + LE32(n), |msg|, msg);
  }

  /** An integer: 64 bits in two's complement, high byte first. */
  lemma {:induction false} IntBytes(i: int, j: nat)
    requires Sendable(Int(i)) && j < 8
    ensures var b := Encode(Int(i)); |b| == 9 && b[1 + j] as nat == i % 0x1_0000_0000_0000_0000 / Pow256(7 - j) % 256
  {
    Width();
    var n := ToUnsigned(i, 8);
    assert n == i % 0x1_0000_0000_0000_0000;
    ReverseAt(Little(n, 8), j);
    LittleAt(n, 8, 7 - j);
  }

  lemma {:induction false} EncodeAllAppend(a: seq<Value>, b: seq<Value>)
    requires (forall x :: x in a ==> Sendable(x)) && (forall x :: x in b ==> Sendable(x))
    ensures EncodeAll(a + b) == EncodeAll(a) + EncodeAll(b)
  {
    hide Encode, Sendable;
    if a == [] {
      assert a + b == b;
    } else {
      EncodeAllAppend(a[1..], b);
      assert (a + b)[0] == a[0] && (a + b)[1..] == a[1..] + b;
    }
  }

  lemma {:induction false} ItemAt(items: seq<Value>, i: nat)
    requires (forall x :: x in items ==> Sendable(x)) && i < |items|
    ensures EncodeAll(items[..i]) + Encode(items[i]) <= EncodeAll(items)
  {
    hide Encode, Sendable;
    var front, back := items[..i], items[i..];
    EncodeAllAppend(front, back);
    assert items == front + back && back[0] == items[i];
    assert EncodeAll(back) == Encode(back[0]) + EncodeAll(back[1..]);
  }

  /** An array: the number of its items, and its items one behind the other. */
  lemma {:induction false} ArrBytes(items: seq<Value>, i: nat)
    requires Sendable(Arr(items)) && i < |items|
    ensures HasLE32(Encode(Arr(items)), 1, |items|)
    ensures Encode(Arr(items))[..5] + EncodeAll(items[..i]) + Encode(items[i]) <= Encode(Arr(items))
  {
    hide HasLE32, LE32;
    LE32Has([SER_ARR], |items|, EncodeAll(items));
    ItemAt(items, i);
    assert Encode(Arr(items)) == [SER_ARR] + LE32(|items|) + EncodeAll(items);
    assert Encode(Arr(items))[..5] == [SER_ARR] + LE32(|items|);
  }

  lemma {:induction false} EncodeAllPush(vs: seq<Value>, v: Value)
    requires Sendable(v) && forall x :: x in vs ==> Sendable(x)
    ensures EncodeAll(vs + [v]) == EncodeAll(vs) + Encode(v)
  {
    hide Encode, Sendable;
    if vs == [] {
      assert (vs + [v])[1..] == [];
    } else {
      EncodeAllPush(vs[1..], v);
      assert (vs + [v])[1..] == vs[1..] + [v];
    }
  }

  /** An array of strings. */
  function Strs(strings: seq<ByteString>): Value
  {
    Arr(seq(|strings|, i requires 0 <= i < |strings| => Str(strings[i])))
  }

  lemma StrsEncoding(strings: seq<ByteString>)
    requires Sendable(Strs(strings))
    ensures |strings| < TWO32
    ensures Encode(Strs(strings)) == [SER_ARR] + LE32(|strings|) + EncodeAll(Strs(strings).items)
  {
  }

  /** What out holds when k of the strings follow start. */
  ghost predicate Written(strings: seq<ByteString>, k: nat, start: ByteString, out: ByteString) {
    k <= |strings| && Sendable(Strs(strings[..k])) && out == start + EncodeAll(Strs(strings[..k]).items)
  }

  lemma {:induction false} StrsPush(strings: seq<ByteString>, k: nat)
    requires k < |strings| && Sendable(Strs(strings))
    ensures Sendable(Strs(strings[..k])) && Sendable(Strs(strings[..k + 1])) && Sendable(Str(strings[k]))
    ensures EncodeAll(Strs(strings[..k + 1]).items) == EncodeAll(Strs(strings[..k]).items) + Encode(Str(strings[k]))
  {
    var all := Strs(strings).items;
    assert Strs(strings[..k]).items == all[..k] && Strs(strings[..k + 1]).items == all[..k] + [all[k]];
    assert forall x :: x in all[..k] ==> x in all;
    EncodeAllPush(all[..k], all[k]);
  }

  lemma {:induction false} SignedInverse(x: int, n: nat, k: nat)
    requires k > 0
    ensures Fits(x, k) ==> ToUnsigned(x, k) < Pow256(k) && ToSigned(ToUnsigned(x, k), k) == x
    ensures n < Pow256(k) ==> Fits(ToSigned(n, k), k) && ToUnsigned(ToSigned(n, k), k) == n
  {
    assert Pow256(k) == 256 * Pow256(k - 1) && Pow256(k) / 2 == 128 * Pow256(k - 1);
  }

  /** A size and the bytes it announces. */
  lemma {:induction false} Sized(s: ByteString, rest: ByteString)
    requires |s| < TWO32
    ensures var data := LE32(|s|) + s + rest;
      FromLE32(data) == |s| && data[4..4 + |s|] == s && data[4 + |s|..] == rest
  {
    LE32Inverse(|s|, s + rest);
    assert LE32(|s|) + s + rest == LE32(|s|) + (s + rest);
  }

  lemma {:induction false} ErrDecodes(code: int, msg: ByteString, rest: ByteString)
    requires Sendable(Err(code, msg))
    ensures Decode(Encode(Err(code, msg)) + rest) == Got(|Encode(Err(code, msg))|, Err(code, msg))
  {
    var data := Encode(Err(code, msg)) + rest;
    Width();
    SignedInverse(code, 0, 4);
    LE32Inverse(ToUnsigned(code, 4), LE32(|msg|) + msg + rest);
    assert data[1..] == LE32(ToUnsigned(code, 4)) + (LE32(|msg|) + msg + rest);
    Sized(msg, rest);
    assert data[5..] == LE32(|msg|) + msg + rest;
    assert data[9..9 + |msg|] == data[5..][4..4 + |msg|];
  }

  lemma {:induction false} StrDecodes(s: ByteString, rest: ByteString)
    requires Sendable(Str(s))
    ensures Decode(Encode(Str(s)) + rest) == Got(|Encode(Str(s))|, Str(s))
  {
    var data := Encode(Str(s)) + rest;
    Sized(s, rest);
    assert data[1..] == LE32(|s|) + s + rest;
    assert data[5..5 + |s|] == data[1..][4..4 + |s|];
  }

  lemma {:induction false} IntDecodes(i: int, rest: ByteString)
    requires Sendable(Int(i))
    ensures Decode(Encode(Int(i)) + rest) == Got(|Encode(Int(i))|, Int(i))
  {
    var n := ToUnsigned(i, 8);
    SignedInverse(i, 0, 8);
    LittleInverse(n, 8);
    ReverseTwice(Little(n, 8));
    assert (Encode(Int(i)) + rest)[1..9] == Reverse(Little(n, 8));
  }

  /** The decoder takes exactly what the encoder has written and gets the value back, whatever
      follows. */
  lemma {:induction false} EncodedDecodes(v: Value, rest: ByteString)
    requires Sendable(v)
    ensures Decode(Encode(v) + rest) == Got(|Encode(v)|, v)
    decreases v, 0
  {
    match v
    case Nil =>
    case Err(code, msg) => ErrDecodes(code, msg, rest);
    case Str(s) => StrDecodes(s, rest);
    case Int(i) => IntDecodes(i, rest);
    case Arr(items) =>
      var data := Encode(v) + rest;
      LE32Inverse(|items|, EncodeAll(items) + rest);
      assert data[1..] == LE32(|items|) + (EncodeAll(items) + rest);
      assert data[5..] == EncodeAll(items) + rest;
      AllEncodedDecode(items, rest);
  }

  lemma {:induction false} AllEncodedDecode(vs: seq<Value>, rest: ByteString)
    requires forall x :: x in vs ==> Sendable(x)
    ensures DecodeAll(EncodeAll(vs) + rest, |vs|) == Got(|EncodeAll(vs)|, vs)
  {
    hide Encode, Decode, Sendable;
    if vs != [] {
      var first, later := Encode(vs[0]), EncodeAll(vs[1..]);
      EncodedDecodes(vs[0], later + rest);
      AllEncodedDecode(vs[1..], rest);
      assert EncodeAll(vs) + rest == first + (later + rest);
      assert (first + (later + rest))[|first|..] == later + rest;
      assert vs == [vs[0]] + vs[1..];
    }
  }

  lemma {:induction false} DecodedIsErr(data: ByteString)
    requires Decode(data).Got? && data[0] == SER_ERR
    ensures var d := Decode(data); Sendable(d.value) && data[..d.size] == Encode(d.value)
  {
    var code, len := FromLE32(data[1..]), FromLE32(data[5..]);
    Width();
    FromLE32Inverse(data[1..]);
    FromLE32Inverse(data[5..]);
    SignedInverse(0, code, 4);
    assert data[1..][..4] == data[1..5] && data[5..][..4] == data[5..9];
    assert data[..9 + len] == [data[0]] + data[1..5] + data[5..9] + data[9..9 + len];
  }

  lemma {:induction false} DecodedIsStr(data: ByteString)
    requires Decode(data).Got? && data[0] == SER_STR
    ensures var d := Decode(data); Sendable(d.value) && data[..d.size] == Encode(d.value)
  {
    var len := FromLE32(data[1..]);
    FromLE32Inverse(data[1..]);
    assert data[1..][..4] == data[1..5];
    assert data[..5 + len] == [data[0]] + data[1..5] + data[5..5 + len];
  }

  lemma {:induction false} DecodedIsInt(data: ByteString)
    requires Decode(data).Got? && data[0] == SER_INT
    ensures var d := Decode(data); Sendable(d.value) && data[..d.size] == Encode(d.value)
  {
    var b := Reverse(data[1..9]);
    FromLittleInverse(b);
    ReverseTwice(data[1..9]);
    SignedInverse(0, FromLittle(b), 8);
    assert data[..9] == [data[0]] + data[1..9];
  }

  /** What the decoder takes is the encoding of the value it gets. */
  lemma {:induction false} DecodedIsEncoded(data: ByteString)
    requires Decode(data).Got?
    ensures var d := Decode(data); Sendable(d.value) && data[..d.size] == Encode(d.value)
    decreases |data|, 0, 0
  {
    hide Sendable, Encode, DecodeAll;
    if data[0] == SER_ERR {
      DecodedIsErr(data);
    } else if data[0] == SER_STR {
      DecodedIsStr(data);
    } else if data[0] == SER_INT {
      DecodedIsInt(data);
    } else if data[0] == SER_ARR {
      AllDecodedAreEncoded(data[5..], FromLE32(data[1..]));
      DecodedIsArr(data);
    } else {
      DecodedIsNil(data);
    }
  }

  lemma DecodedIsNil(data: ByteString)
    requires |data| > 0 && data[0] == SER_NIL
    ensures var d := Decode(data); Sendable(d.value) && data[..d.size] == Encode(d.value)
  {
  }

  lemma {:induction false} DecodedIsArr(data: ByteString)
    requires Decode(data).Got? && data[0] == SER_ARR
    requires var n := FromLE32(data[1..]);
      var d := DecodeAll(data[5..], n);
      && |d.value| == n && (forall x :: x in d.value ==> Sendable(x)) && data[5..][..d.size] == EncodeAll(d.value)
    ensures var d := Decode(data); Sendable(d.value) && data[..d.size] == Encode(d.value)
  {
    hide EncodeAll, DecodeAll;
    var n := FromLE32(data[1..]);
    var items := DecodeAll(data[5..], n);
    FromLE32Inverse(data[1..]);
    assert data[1..][..4] == data[1..5] && data[5..][..items.size] == data[5..5 + items.size];
    assert data[..5 + items.size] == [data[0]] + data[1..5] + data[5..5 + items.size];
  }

  lemma {:induction false} AllDecodedAreEncoded(data: ByteString, n: nat)
    requires DecodeAll(data, n).Got?
    ensures var d := DecodeAll(data, n);
      && |d.value| == n && (forall x :: x in d.value ==> Sendable(x)) && data[..d.size] == EncodeAll(d.value)
    decreases |data|, 1, n
  {
    hide Decode, Encode, Sendable;
    if n > 0 {
      var first := Decode(data);
      DecodedIsEncoded(data);
      AllDecodedAreEncoded(data[first.size..], n - 1);
      var rest := DecodeAll(data[first.size..], n - 1);
      var all := [first.value] + rest.value;
      assert all[1..] == rest.value;
      assert data[..first.size + rest.size] == data[..first.size] + data[first.size..][..rest.size];
    }
  }

  /** Replies are canonical: a value is read, in n bytes, exactly when they are its encoding. */
  lemma {:induction false} RepliesAreCanonical(data: ByteString, n: nat, v: Value)
    ensures Decode(data) == Got(n, v) <==> Sendable(v) && n == |Encode(v)| && Encode(v) <= data
  {
    if Decode(data).Got? {
      DecodedIsEncoded(data);
    }
    if Sendable(v) && Encode(v) <= data {
      EncodedDecodes(v, data[|Encode(v)|..]);
      assert data == Encode(v) + data[|Encode(v)|..];
    }
  }

  /** Where the client's test of a size against the bytes it has wraps around: a string whose size
      is in the last 5 of the 32-bit range, an error message in the last 9, or an array in which,
      after some whole items, there is such an item. */
  predicate Overruns(data: ByteString)
    decreases |data|, 0, 0
  {
    && data != []
    && (if data[0] == SER_STR then |data| >= 5 && FromLE32(data[1..]) >= TWO32 - 5 && |data| < 5 + FromLE32(data[1..])
        else if data[0] == SER_ERR then |data| >= 9 && FromLE32(data[5..]) >= TWO32 - 9 && |data| < 9 + FromLE32(data[5..])
        else data[0] == SER_ARR && |data| >= 5 && OverrunsAfter(data[5..], FromLE32(data[1..])))
  }

  /** Some item among the next n does, after whole ones. */
  predicate OverrunsAfter(data: ByteString, n: nat)
    decreases |data|, 1, n
  {
    n > 0 && (Overruns(data) || (Decode(data).Got? && OverrunsAfter(data[Decode(data).size..], n - 1)))
  }

  lemma {:induction false} OverrunsIff(data: ByteString)
    ensures Decode(data) == Overrun <==> Overruns(data)
    decreases |data|, 0, 0
  {
    if data != [] && data[0] == SER_ARR && |data| >= 5 {
      OverrunsAfterIff(data[5..], FromLE32(data[1..]));
    } else if data != [] && data[0] == SER_STR && |data| >= 5 {
      FromLE32Inverse(data[1..]);
    } else if data != [] && data[0] == SER_ERR && |data| >= 9 {
      FromLE32Inverse(data[5..]);
    }
  }

  lemma {:induction false} OverrunsAfterIff(data: ByteString, n: nat)
    ensures DecodeAll(data, n) == Overrun <==> OverrunsAfter(data, n)
    decreases |data|, 1, n
  {
    if n > 0 {
      OverrunsIff(data);
      if Decode(data).Got? {
        OverrunsAfterIff(data[Decode(data).size..], n - 1);
      }
    }
  }

  /** A string of n bytes is announced and rest follows. */
  lemma {:induction false} StrCases(n: nat, rest: ByteString)
    requires n < TWO32
    ensures Decode([2 as Byte] + LE32(n) + rest) ==
      if n <= |rest| then Got(5 + n, Str(rest[..n])) else if n >= 0x1_0000_0000 - 5 then Overrun else Bad
  {
    var data := [2 as Byte] + LE32(n) + rest;
    LE32Inverse(n, rest);
    assert data[1..] == LE32(n) + rest;
    assert n <= |rest| ==> data[5..5 + n] == rest[..n];
  }

  /** An error with a message of n bytes is announced and rest follows. */
  lemma {:induction false} ErrCases(code: nat, n: nat, rest: ByteString)
    requires code < TWO32 && n < TWO32
    ensures Decode([1 as Byte] + LE32(code) + LE32(n) + rest) ==
      if n <= |rest| then Got(9 + n, Err(ToSigned(code, 4), rest[..n])) else if n >= 0x1_0000_0000 - 9 then Overrun else Bad
  {
    var data := [1 as Byte] + LE32(code) + LE32(n) + rest;
    LE32Inverse(code, LE32(n) + rest);
    LE32Inverse(n, rest);
    assert data[1..] == LE32(code) + (LE32(n) + rest) && data[5..] == LE32(n) + rest;
    assert n <= |rest| ==> data[9..9 + n] == rest[..n];
  }

  /** A string of 2^32 - 1 bytes is announced and nothing follows: 5 + size is 4 in 32 bits. */
  lemma OverrunReply()
    ensures Decode([SER_STR, 255, 255, 255, 255]) == Overrun
  {
    var data: ByteString := [SER_STR, 255, 255, 255, 255];
    var size: ByteString := [255, 255, 255, 255];
    assert data[1..][..4] == size && size[1..] == [255, 255, 255] && size[1..][1..] == [255, 255];
    assert size[1..][1..][1..] == [255] && [255 as Byte][1..] == [];
    assert FromLittle([255]) == 255 && FromLittle(size) == TWO32 - 1;
  }

  /** No reply of the server is like that. */
  lemma EncodedDoesNotOverrun(v: Value, rest: ByteString)
    requires Sendable(v)
    ensures !Overruns(Encode(v) + rest)
  {
    EncodedDecodes(v, rest);
    OverrunsIff(Encode(v) + rest);
  }

  /** on_response, with the value that it prints. */
  method OnResponse(data: ByteString) returns (d: Decoded<Value>)
    ensures d == Decode(data)
    decreases |data|
  {
    if |data| < 1 {
      return Bad;
    }
    if data[0] == SER_NIL {
      return Got(1, Nil);
    } else if data[0] == SER_ERR {
      if |data| < 9 {
        return Bad;
      }
      var code, len := FromLE32(data[1..]), FromLE32(data[5..]);
      if |data| < (9 + len) % TWO32 {
        return Bad;
      }
      return if |data| < 9 + len then Overrun else Got(9 + len, Err(ToSigned(code, 4), data[9..9 + len]));
    } else if data[0] == SER_ARR {
      d := OnArray(data);
    } else if data[0] == SER_INT {
      if |data| < 9 {
        return Bad;
      }
      return Got(9, Int(ToSigned(FromLittle(Reverse(data[1..9])), 8)));
    } else if data[0] == SER_STR {
      if |data| < 5 {
        return Bad;
      }
      var len := FromLE32(data[1..]);
      if |data| < (5 + len) % TWO32 {
        return Bad;
      }
      return if |data| < 5 + len then Overrun else Got(5 + len, Str(data[5..5 + len]));
    } else {
      return Bad;
    }
  }

  /** The items read so far before those still to come. */
  function Joined(items: seq<Value>, size: nat, rest: Decoded<seq<Value>>): Decoded<Value> {
    match rest
    case Bad => Bad
    case Overrun => Overrun
    case Got(more, values) => Got(size + more, Arr(items + values))
  }

  lemma {:induction false} NextItem(data: ByteString, pos: nat, n: nat, items: seq<Value>)
    requires pos <= |data| && n > 0
    ensures var d, before := Decode(data[pos..]), Joined(items, pos, DecodeAll(data[pos..], n));
      match d
      case Bad => before == Bad
      case Overrun => before == Overrun
      case Got(size, v) => before == Joined(items + [v], pos + size, DecodeAll(data[pos + size..], n - 1))
  {
    hide Decode;
    var d := Decode(data[pos..]);
    if d.Got? {
      var rest := DecodeAll(data[pos + d.size..], n - 1);
      assert data[pos..][d.size..] == data[pos + d.size..];
      assert rest.Got? ==> items + [d.value] + rest.value == items + ([d.value] + rest.value);
    }
  }

  /** The array case of on_response. */
  method OnArray(data: ByteString) returns (d: Decoded<Value>)
    requires |data| > 0 && data[0] == SER_ARR
    ensures d == Decode(data)
    decreases |data|, 0
  {
    hide Decode, DecodeAll, Joined;
    ArrayCase(data);
    if |data| < 5 {
      return Bad;
    }
    var len := FromLE32(data[1..]);
    var items, arrBytes: nat := [], 5;
    for i := 0 to len
      invariant 5 <= arrBytes <= |data|
      invariant Decode(data) == Joined(items, arrBytes, DecodeAll(data[arrBytes..], len - i))
    {
      NextItem(data, arrBytes, len - i, items);
      var rv := OnResponse(data[arrBytes..]);
      if !rv.Got? {
        return rv;
      }
      items := items + [rv.value];
      arrBytes := arrBytes + rv.size;
    }
    NoMoreItems(data[arrBytes..], items, arrBytes);
    d := Got(arrBytes, Arr(items));
  }

  lemma {:induction false} ArrayCase(data: ByteString)
    requires |data| > 0 && data[0] == SER_ARR
    ensures |data| < 5 ==> Decode(data) == Bad
    ensures |data| >= 5 ==> Decode(data) == Joined([], 5, DecodeAll(data[5..], FromLE32(data[1..])))
  {
    if |data| >= 5 {
      var rest := DecodeAll(data[5..], FromLE32(data[1..]));
      assert rest.Got? ==> [] + rest.value == rest.value;
    }
  }

  lemma {:induction false} NoMoreItems(data: ByteString, items: seq<Value>, size: nat)
    ensures Joined(items, size, DecodeAll(data, 0)) == Got(size, Arr(items))
  {
    assert items + [] == items;
  }

  /** The string that a reply is written into. */
  class Reply {
    var out: ByteString

    constructor ()
      ensures out == []
    {
      out := [];
    }

    /** out_nil. */
    method OutNil()
      modifies this
      ensures out == old(out) + Encode(Nil)
    {
      out := out + [SER_NIL];
    }

    /** out_str; the size of a longer string than a uint32_t can count wraps. */
    method OutStr(s: ByteString)
      modifies this
      ensures out == old(out) + [SER_STR] + LE32(|s|) + s
      ensures Sendable(Str(s)) ==> out == old(out) + Encode(Str(s))
    {
      out := out + [SER_STR];
      out := out + LE32(|s|);
      out := out + s;
    }

    /** out_int. */
    method OutInt(i: int)
      requires Fits(i, 8)
      modifies this
      ensures out == old(out) + Encode(Int(i))
    {
      out := out + [SER_INT];
      out := out + Reverse(Little(ToUnsigned(i, 8), 8));
    }

    /** out_err. */
    method OutErr(code: int, msg: ByteString)
      requires Fits(code, 4)
      modifies this
      ensures out == old(out) + [SER_ERR] + LE32(ToUnsigned(code, 4)) + LE32(|msg|) + msg
      ensures Sendable(Err(code, msg)) ==> out == old(out) + Encode(Err(code, msg))
    {
      out := out + [SER_ERR];
      out := out + LE32(ToUnsigned(code, 4));
      out := out + LE32(|msg|);
      out := out + msg;
    }

    /** out_arr: the header only; the items must follow. */
    method OutArr(n: nat)
      requires n < TWO32
      modifies this
      ensures out == old(out) + [SER_ARR] + LE32(n)
    {
      out := out + [SER_ARR];
      out := out + LE32(n);
    }

    /** An announced number of strings, and the strings. */
    method OutStrs(header: nat, strings: seq<ByteString>)
      requires header == |strings|
      modifies this
      ensures Sendable(Strs(strings)) ==> out == old(out) + Encode(Strs(strings))
    {
      hide Sendable, Encode, EncodeAll, LE32, Strs;
      ghost var ok, start := Sendable(Strs(strings)), out + [SER_ARR] + LE32(header);
      if ok {
        StrsEncoding(strings);
        NoStrs(start);
        assert strings[..0] == [];
      }
      OutArr(header % TWO32);
      for i := 0 to |strings|
        invariant ok ==> Written(strings, i, start, out)
      {
        if ok {
          StrsPush(strings, i);
        }
        OutStr(strings[i]);
      }
      assert strings[..|strings|] == strings;
    }
  }

  lemma {:induction false} NoStrs(start: ByteString)
    ensures Written([], 0, start, start)
  {
    assert start + [] == start;
  }
}
