/** One stop request over a server's control socket, under one deadline (src/server/instances.py).  How the
    reply is cut into chunks, and what the clock reads, is up to the environment. */
module ControlReply {
  import opened Common

  const MAX_REPLY := 1048576
  const CHUNK := 4096
  const REPLY_TIMEOUT: real := 5.0

  datatype RawReceipt = Data(bytes: Bytes) | Eof | Failed
  type Receipt = r: RawReceipt | r.Data? ==> 1 <= |r.bytes| <= CHUNK
    witness Eof

  /** What receive `k` gives, and the clock just before it. */
  datatype Connection = Connection(receive: nat -> Receipt, clock: nat -> real)
  datatype Read = Line(line: Bytes) | Raised

  /** The bytes before the first newline, or all of them. */
  function FirstLine(bytes: Bytes): (line: Bytes)
    ensures line <= bytes && NEWLINE !in line
    ensures |line| < |bytes| ==> bytes[|line|] == NEWLINE
  {
    if bytes == [] || bytes[0] == NEWLINE then [] else [bytes[0]] + FirstLine(bytes[1..])
  }

  /** What the first `n` receives delivered, up to the first that delivered nothing. */
  function Received(c: Connection, n: nat): Bytes {
    if n == 0 then []
    else
      var before, last := Received(c, n - 1), c.receive(n - 1);
      if last.Data? then before + last.bytes else before
  }

  /** The first `n` receives deliver `stream`, each before the deadline; then the peer closes, in time,
      unless the stream already holds a newline. */
  ghost predicate Delivers(c: Connection, deadline: real, stream: Bytes, n: nat) {
    && (forall k :: 0 <= k < n ==> c.receive(k).Data? && c.clock(k) < deadline)
    && Received(c, n) == stream
    && (NEWLINE in stream || (c.receive(n).Eof? && c.clock(n) < deadline))
  }

  /** With what `k` receives delivered, the reader asks for more and gets it. */
  predicate Continues(c: Connection, deadline: real, k: nat) {
    && NEWLINE !in Received(c, k) && |Received(c, k)| <= MAX_REPLY
    && c.clock(k) < deadline && c.receive(k).Data?
  }

  /** What the reader gives when it stops after `k` delivered receives. */
  function StopsWith(c: Connection, deadline: real, k: nat): Read {
    var buffer := Received(c, k);
    if NEWLINE in buffer || |buffer| > MAX_REPLY then Line(FirstLine(buffer))
    else if c.clock(k) >= deadline || !c.receive(k).Eof? then Raised
    else Line(FirstLine(buffer))
  }

  /** The reader stopped at `k`: it went on at every count before, and not at `k`. */
  ghost predicate StoppedAt(c: Connection, deadline: real, k: nat) {
    (forall j :: 0 <= j < k ==> Continues(c, deadline, j)) && !Continues(c, deadline, k)
  }

  /** `_read_line`: it stops at the first count at which it cannot go on.  `timeouts` are the timeouts its
      receives were given, each what is left of the one deadline; the buffer never outgrows its bound. */
  method ReadLine(c: Connection, deadline: real) returns (outcome: Read, timeouts: seq<real>, stop: nat)
    ensures StoppedAt(c, deadline, stop) && outcome == StopsWith(c, deadline, stop)
    ensures stop <= |timeouts| <= stop + 1
    ensures forall k :: 0 <= k < |timeouts| ==> timeouts[k] == deadline - c.clock(k) > 0.0
    ensures forall k :: 0 <= k <= stop ==> |Received(c, k)| <= MAX_REPLY + CHUNK
  {
    var buffer: Bytes := [];
    timeouts, stop := [], 0;
    while NEWLINE !in buffer
      invariant buffer == Received(c, stop) && |timeouts| == stop
      invariant forall k :: 0 <= k < stop ==> Continues(c, deadline, k)
      invariant forall k :: 0 <= k < stop ==> timeouts[k] == deadline - c.clock(k) > 0.0
      invariant forall k :: 0 <= k <= stop ==> |Received(c, k)| <= MAX_REPLY + CHUNK
      decreases MAX_REPLY + CHUNK - |buffer|
    {
      if |buffer| > MAX_REPLY {
        break;
      }
      var remaining := deadline - c.clock(stop);
      if remaining <= 0.0 {
        return Raised, timeouts, stop;
      }
      var chunk := c.receive(stop);
      timeouts := timeouts + [remaining];
      if chunk.Failed? {
        return Raised, timeouts, stop;
      }
      if chunk.Eof? {
        return Line(FirstLine(buffer)), timeouts, stop;
      }
      buffer := buffer + chunk.bytes;
      stop := stop + 1;
    }
    return Line(FirstLine(buffer)), timeouts, stop;
  }

  // ---- fragmentation independence ----

  /** What a stream reads as: its first line, or, past the limit, some line that is too long. */
  ghost predicate Reads(line: Bytes, stream: Bytes) {
    if |FirstLine(stream)| <= MAX_REPLY then line == FirstLine(stream) else |line| > MAX_REPLY
  }

  lemma {:induction false} ReceivedPrefix(c: Connection, m: nat, n: nat)
    requires m <= n
    ensures Received(c, m) <= Received(c, n)
    decreases n
  {
    if m < n {
      ReceivedPrefix(c, m, n - 1);
    }
  }

  lemma {:induction false} FirstLineOfPrefix(bytes: Bytes, stream: Bytes)
    requires bytes <= stream
    ensures NEWLINE in bytes ==> FirstLine(bytes) == FirstLine(stream)
    ensures NEWLINE !in bytes ==> FirstLine(bytes) == bytes && |bytes| <= |FirstLine(stream)|
  {
    if bytes != [] && bytes[0] != NEWLINE {
      FirstLineOfPrefix(bytes[1..], stream[1..]);
      assert bytes == [bytes[0]] + bytes[1..];
    }
  }

  /** The reader never goes past what is delivered. */
  lemma StopsInTime(c: Connection, deadline: real, stream: Bytes, n: nat, stop: nat)
    requires Delivers(c, deadline, stream, n) && StoppedAt(c, deadline, stop)
    ensures stop <= n
  {
    assert !Continues(c, deadline, n);
  }

  /** However a delivered stream is cut into chunks, the line read is its first line as long as that is
      within the limit, and otherwise a line over the limit. */
  lemma ChunkingDoesNotMatter(c: Connection, deadline: real, stream: Bytes, n: nat, stop: nat)
    requires Delivers(c, deadline, stream, n) && StoppedAt(c, deadline, stop)
    ensures StopsWith(c, deadline, stop).Line? && Reads(StopsWith(c, deadline, stop).line, stream)
  {
    StopsInTime(c, deadline, stream, n, stop);
    ReceivedPrefix(c, stop, n);
    FirstLineOfPrefix(Received(c, stop), stream);
  }

  // ---- the whole request ----

  datatype Response = Response(ok: bool, action: Option<string>)

  /** One exchange: the clock's readings, whether connecting and sending succeed, and the reply. */
  datatype Exchange = Exchange(clock: nat -> real, connects: bool, sends: bool, receive: nat -> Receipt)

  function Reply(e: Exchange): Connection {
    Connection(e.receive, (k: nat) => e.clock(k + 3))
  }

  /** `decode_json` refuses a reply over the limit before it parses anything. */
  predicate Acknowledges(decode: Bytes -> Option<Response>, line: Bytes) {
    && |line| <= MAX_REPLY
    && decode(line).Some? && decode(line).value.ok && decode(line).value.action == Some("stop")
  }

  function Deadline(e: Exchange): real {
    e.clock(0) + REPLY_TIMEOUT
  }

  /** A complete line was read before the deadline, and it acknowledges the stop. */
  ghost predicate Acknowledged(e: Exchange, decode: Bytes -> Option<Response>) {
    exists stop ::
      && StoppedAt(Reply(e), Deadline(e), stop)
      && StopsWith(Reply(e), Deadline(e), stop).Line?
      && Acknowledges(decode, StopsWith(Reply(e), Deadline(e), stop).line)
  }

  lemma StopsOnce(c: Connection, deadline: real, j: nat, k: nat)
    requires StoppedAt(c, deadline, j) && StoppedAt(c, deadline, k)
    ensures j == k
  {
  }

  /** `request_stop`: connect, send and read under one deadline; the connection is closed exactly when it
      was opened; and for any chunking of the reply the answer depends on the reply's first line alone. */
  method RequestStop(e: Exchange, decode: Bytes -> Option<Response>) returns (stopped: bool, closed: bool)
    ensures closed <==> e.connects && e.clock(1) < Deadline(e)
    ensures stopped <==> closed && e.sends && e.clock(2) < Deadline(e) && Acknowledged(e, decode)
    ensures closed && e.sends && e.clock(2) < Deadline(e) ==>
              forall stream, n :: Delivers(Reply(e), Deadline(e), stream, n) ==>
                (stopped <==>
                   && |FirstLine(stream)| <= 1048576
                   && match decode(FirstLine(stream))
                      case None => false
                      case Some(response) => response.ok && response.action == Some("stop"))
  {
    var deadline := e.clock(0) + REPLY_TIMEOUT;
    if deadline - e.clock(1) <= 0.0 || !e.connects {
      return false, false;
    }
    if deadline - e.clock(2) <= 0.0 || !e.sends {
      return false, true;
    }
    var outcome, timeouts, stop := ReadLine(Reply(e), deadline);
    forall stream, n | Delivers(Reply(e), Deadline(e), stream, n)
      ensures outcome.Line? && Reads(outcome.line, stream)
    {
      ChunkingDoesNotMatter(Reply(e), deadline, stream, n, stop);
    }
    forall k | StoppedAt(Reply(e), deadline, k)
      ensures k == stop
    {
      StopsOnce(Reply(e), deadline, k, stop);
    }
    if outcome.Raised? {
      return false, true;
    }
    return Acknowledges(decode, outcome.line), true;
  }
}
