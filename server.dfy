/** The server around the protocol: the global run flag, processMessage
    rewriting a request's buffer in place, the per-request pipeline of
    handleDatagram and threadHandleMessage, and main's accept loop. Each
    request is handled to completion before the next one is received. */
module UdpServer {

  import opened CStrings
  import opened Framer
  import opened Protocol

  /** What processMessage demands of a framed message: the echo test reads
      inside the buffer and the reply with its terminator fits in it. */
  predicate Dispatchable(m: string, loads: LoadAverage) {
    EchoTestDefined(m) && PrintedLoads(loads) && |Dispatch(m, loads)| < MaxMessageLength
  }

  /** A received datagram that the whole pipeline can handle. */
  predicate Serviceable(d: seq<char>, loads: LoadAverage) {
    WellFramed(d) && Dispatchable(Frame(d), loads)
  }

  /** The bytes sent back for a received datagram. */
  function PipelineReply(d: seq<char>, loads: LoadAverage): (r: string)
    requires Serviceable(d, loads)
    ensures NulFree(r) && |r| < MaxMessageLength
  {
    Dispatch(Frame(d), loads)
  }

  predicate IsShutdownDatagram(d: seq<char>) {
    WellFramed(d) && CStr(Frame(d)) == ShutdownRequest
  }

  predicate NoShutdown(ds: seq<seq<char>>) {
    forall k :: 0 <= k < |ds| ==> !IsShutdownDatagram(ds[k])
  }

  /** Every datagram can be handled with the load averages that
      getloadavg reports while it is being handled. */
  predicate AllServiceable(ds: seq<seq<char>>, loads: seq<LoadAverage>) {
    |loads| == |ds| && forall k :: 0 <= k < |ds| ==> Serviceable(ds[k], loads[k])
  }

  /** What handling one datagram yields: the reply sent back, and whether
      handling it cleared the run flag. */
  datatype Outcome = Outcome(reply: string, stops: bool)

  function Handle(d: seq<char>, loads: LoadAverage): Outcome
    requires Serviceable(d, loads)
  {
    Outcome(PipelineReply(d, loads), IsShutdownDatagram(d))
  }

  function Outcomes(ds: seq<seq<char>>, loads: seq<LoadAverage>): (os: seq<Outcome>)
    requires AllServiceable(ds, loads)
    ensures |os| == |ds|
    ensures forall k :: 0 <= k < |ds| ==> os[k] == Handle(ds[k], loads[k])
  {
    seq(|ds|, k requires 0 <= k < |ds| => Handle(ds[k], loads[k]))
  }

  predicate Running(os: seq<Outcome>) {
    forall k :: 0 <= k < |os| ==> !os[k].stops
  }

  /** The replies of a run whose datagrams have these outcomes: every reply
      up to and including that of the first datagram that stops the server. */
  function Answers(os: seq<Outcome>): (replies: seq<string>)
    ensures |replies| <= |os|
  {
    if os == [] then []
    else [os[0].reply] + (if os[0].stops then [] else Answers(os[1..]))
  }

  /** Answers holds the reply to datagram k at position k, answers every
      datagram when none stops the server, and otherwise ends right after
      the first one that does. */
  lemma {:induction false} AnswersUntilStop(os: seq<Outcome>)
    ensures var r := Answers(os);
      (forall k :: 0 <= k < |r| ==> r[k] == os[k].reply) &&
      (forall k :: 0 <= k < |r| - 1 ==> !os[k].stops) &&
      (|r| < |os| ==> 0 < |r| && os[|r| - 1].stops)
  {
    if os != [] && !os[0].stops {
      var tail := os[1..];
      AnswersUntilStop(tail);
      var r, rt := Answers(os), Answers(tail);
      assert r == [os[0].reply] + rt;
      forall k | 0 <= k < |r| ensures r[k] == os[k].reply {
        if k > 0 { assert r[k] == rt[k - 1] && os[k] == tail[k - 1]; }
      }
      forall k | 0 <= k < |r| - 1 ensures !os[k].stops {
        if k > 0 { assert os[k] == tail[k - 1]; }
      }
      if |r| < |os| {
        assert os[|r| - 1] == tail[|rt| - 1];
      }
    }
  }

  lemma {:induction false} AnswersAppend(os: seq<Outcome>, o: Outcome)
    requires Running(os)
    ensures Answers(os + [o]) == Answers(os) + [o.reply]
  {
    if os != [] {
      assert (os + [o])[1..] == os[1..] + [o];
      assert (os + [o])[0] == os[0];
      assert Running(os[1..]) by {
        forall k | 0 <= k < |os| - 1 ensures !os[1..][k].stops {
          assert os[1..][k] == os[k + 1];
        }
      }
      AnswersAppend(os[1..], o);
    }
  }

  lemma {:induction false} AnswersStop(os: seq<Outcome>, o: Outcome, rest: seq<Outcome>)
    requires Running(os) && o.stops
    ensures Answers(os + [o] + rest) == Answers(os + [o])
  {
    var all := os + [o] + rest;
    if os == [] {
      assert all[0] == o;
    } else {
      assert all[1..] == os[1..] + [o] + rest;
      assert (os + [o])[1..] == os[1..] + [o];
      assert all[0] == os[0] && (os + [o])[0] == os[0];
      assert Running(os[1..]) by {
        forall k | 0 <= k < |os| - 1 ensures !os[1..][k].stops {
          assert os[1..][k] == os[k + 1];
        }
      }
      AnswersStop(os[1..], o, rest);
    }
  }

  /** One turn of the accept loop: the reply to datagram i is appended, and
      the run either goes on or has answered everything it ever will. */
  lemma AnswersStep(os: seq<Outcome>, i: int, reply: string, on: bool)
    requires 0 <= i < |os| && Running(os[..i]) && os[i] == Outcome(reply, !on)
    ensures on ==> Running(os[..i + 1]) && Answers(os[..i + 1]) == Answers(os[..i]) + [reply]
    ensures !on ==> !Running(os) && Answers(os) == Answers(os[..i]) + [reply]
  {
    var done := os[..i];
    assert os[..i + 1] == done + [os[i]];
    AnswersAppend(done, os[i]);
    if on {
      var next := os[..i + 1];
      forall k | 0 <= k < |next| ensures !next[k].stops {
        if k < i { assert next[k] == done[k]; }
      }
    } else {
      assert os == done + [os[i]] + os[i + 1..];
      AnswersStop(done, os[i], os[i + 1..]);
      assert os[i].stops;
    }
  }

  lemma RunningIffNoShutdown(ds: seq<seq<char>>, loads: seq<LoadAverage>)
    requires AllServiceable(ds, loads)
    ensures Running(Outcomes(ds, loads)) <==> NoShutdown(ds)
  {
  }

  /** The replies a freshly started server sends when the datagrams arrive
      in this order and datagram k is handled with load averages loads[k]. */
  function Session(ds: seq<seq<char>>, loads: seq<LoadAverage>): seq<string>
    requires AllServiceable(ds, loads)
  {
    Answers(Outcomes(ds, loads))
  }

  /** The server answers datagram k with the pipeline's reply to it, answers
      all of them when none asks to shut down, and otherwise receives nothing
      after the first shutdown request. */
  lemma SessionAnswersUntilShutdown(ds: seq<seq<char>>, loads: seq<LoadAverage>)
    requires AllServiceable(ds, loads)
    ensures var r := Session(ds, loads);
      (forall k :: 0 <= k < |r| ==> r[k] == PipelineReply(ds[k], loads[k])) &&
      (forall k :: 0 <= k < |r| - 1 ==> !IsShutdownDatagram(ds[k])) &&
      (|r| < |ds| ==> 0 < |r| && IsShutdownDatagram(ds[|r| - 1]))
  {
    var os := Outcomes(ds, loads);
    forall k | 0 <= k < |ds|
      ensures os[k].reply == PipelineReply(ds[k], loads[k])
      ensures os[k].stops == IsShutdownDatagram(ds[k])
    {
    }
    AnswersReplies(os, ds, loads);
    AnswersStopAtShutdown(os, ds);
  }

  /** Answers keeps each datagram's reply at the datagram's position. */
  lemma AnswersReplies(os: seq<Outcome>, ds: seq<seq<char>>, loads: seq<LoadAverage>)
    requires AllServiceable(ds, loads) && |os| == |ds|
    requires forall k :: 0 <= k < |ds| ==> os[k].reply == PipelineReply(ds[k], loads[k])
    ensures var r := Answers(os);
      forall k :: 0 <= k < |r| ==> r[k] == PipelineReply(ds[k], loads[k])
  {
    AnswersUntilStop(os);
  }

  /** Answers ends right after the first shutdown request. */
  lemma AnswersStopAtShutdown(os: seq<Outcome>, ds: seq<seq<char>>)
    requires |os| == |ds|
    requires forall k :: 0 <= k < |ds| ==> os[k].stops == IsShutdownDatagram(ds[k])
    ensures var r := Answers(os);
      (forall k :: 0 <= k < |r| - 1 ==> !IsShutdownDatagram(ds[k])) &&
      (|r| < |ds| ==> 0 < |r| && IsShutdownDatagram(ds[|r| - 1]))
  {
    AnswersUntilStop(os);
  }

  /** sprintf storing an already formatted reply at the start of the buffer. */
  method Sprintf(buf: array<char>, s: string)
    requires |s| < buf.Length
    modifies buf
    ensures buf[..] == Overwrite(old(buf[..]), s)
  {
    forall i | 0 <= i < |s| {
      buf[i] := s[i];
    }
    buf[|s|] := NUL;
  }

  /** DatagramInfoT: one request's buffer and its current length. The
      sender's address and the socket travel with it in the source and are
      not modelled. */
  class DatagramInfo {
    var buffer: array<char>
    var length: int

    /** The malloc of handleDatagram. */
    constructor ()
      ensures fresh(buffer) && buffer.Length == MaxMessageLength && length == 0
    {
      buffer := new char[MaxMessageLength];
      length := 0;
    }

    /** recvfrom in handleDatagram: the datagram's bytes land at the start of
        the buffer and its size becomes the request's length. */
    method Receive(datagram: seq<char>)
      requires |datagram| <= buffer.Length
      modifies this, buffer
      ensures buffer == old(buffer) && buffer.Length == old(buffer.Length)
      ensures buffer[..|datagram|] == datagram && length == |datagram|
      ensures buffer[|datagram|..] == old(buffer[|datagram|..])
    {
      forall i | 0 <= i < |datagram| {
        buffer[i] := datagram[i];
      }
      length := |datagram|;
    }
  }

  /** The process-wide state of the server. */
  class Server {
    /** serverOn: starts true and only the shutdown request clears it. */
    var serverOn: bool

    constructor ()
      ensures serverOn
    {
      serverOn := true;
    }

    /** processMessage: classifies the framed message in `message[..length]`,
        writes the reply over the buffer and returns its strlen. */
    method ProcessMessage(message: array<char>, length: int, loads: LoadAverage) returns (r: int)
      requires message.Length == MaxMessageLength
      requires 0 <= length < message.Length && message[length] == NUL
      requires Dispatchable(message[..length], loads)
      modifies this, message
      ensures serverOn == (old(serverOn) && CStr(old(message[..length])) != ShutdownRequest)
      ensures CStr(message[..]) == Dispatch(old(message[..length]), loads)
      ensures r == |Dispatch(old(message[..length]), loads)|
      ensures CStr(old(message[..length])) == ShutdownRequest ==> message[..] == old(message[..])
      ensures CStr(old(message[..length])) != ShutdownRequest ==>
                message[..] == Overwrite(old(message[..]), Dispatch(old(message[..length]), loads))
    {
      var m := message[..length];
      assert message[..][..length] == m;
      CStrUpTo(message[..], length);
      var c := Classify(m);
      match c {
        case Echo(body) =>
          Sprintf(message, ReplyOpen + body + ReplyClose);
        case LoadAvg =>
          Sprintf(message, LoadReply(loads));
        case Shutdown =>
          serverOn := false;
        case Unknown(text) =>
          Sprintf(message, ErrorOpen + text + ErrorClose);
      }
      r := |CStr(message[..])|;
    }

    /** threadHandleMessage: frames the request again, dispatches it, and
        sends the first `length` bytes of the buffer back. */
    method ThreadHandleMessage(message: DatagramInfo, loads: LoadAverage) returns (reply: string)
      requires message.buffer.Length == MaxMessageLength
      requires CanPrepare(message.buffer[..], message.length)
      requires Dispatchable(PreparedMessage(message.buffer[..], message.length), loads)
      modifies this, message, message.buffer
      ensures reply == Dispatch(PreparedMessage(old(message.buffer[..]), old(message.length)), loads)
      ensures message.length == |reply|
      ensures message.buffer == old(message.buffer) && reply == message.buffer[..message.length]
      ensures serverOn == (old(serverOn) &&
        CStr(PreparedMessage(old(message.buffer[..]), old(message.length))) != ShutdownRequest)
    {
      var buffer := message.buffer;
      var framed := PrepareMessage(buffer, message.length);
      assert buffer[..][..framed] == PreparedMessage(old(buffer[..]), old(message.length));
      message.length := ProcessMessage(buffer, framed, loads);
      reply := buffer[..message.length];
    }

    /** handleDatagram followed by its worker: receives the datagram into a
        new buffer, frames it (discarding the result, as the source does) and
        runs threadHandleMessage on it. */
    method HandleDatagram(datagram: seq<char>, loads: LoadAverage) returns (reply: string)
      requires Serviceable(datagram, loads)
      modifies this
      ensures reply == PipelineReply(datagram, loads)
      ensures serverOn == (old(serverOn) && !IsShutdownDatagram(datagram))
    {
      var incoming := new DatagramInfo();
      incoming.Receive(datagram);
      ghost var received := incoming.buffer[..];
      PrepareFramesDatagram(received, datagram);
      var _ := PrepareMessage(incoming.buffer, incoming.length);
      PrepareIdempotent(received, |datagram|);
      assert PreparedMessage(incoming.buffer[..], incoming.length) == Frame(datagram);
      reply := ThreadHandleMessage(incoming, loads);
    }
  }

  /** main: starts the server and handles datagrams while serverOn holds.
      The datagrams are those recvfrom would deliver, in order, and
      `loads[i]` is what getloadavg reports while datagram i is handled; the
      loop also ends when the datagrams run out. Returns the replies sent and
      the final value of the run flag. */
  method Serve(datagrams: seq<seq<char>>, loads: seq<LoadAverage>) returns (replies: seq<string>, running: bool)
    requires AllServiceable(datagrams, loads)
    ensures replies == Session(datagrams, loads)
    ensures running <==> NoShutdown(datagrams)
  {
    ghost var os := Outcomes(datagrams, loads);
    var server := new Server();
    replies := [];
    var i := 0;
    while server.serverOn && i < |datagrams|
      invariant 0 <= i <= |datagrams|
      invariant server.serverOn ==> Running(os[..i]) && replies == Answers(os[..i])
      invariant !server.serverOn ==> !Running(os) && replies == Answers(os)
    {
      var reply := server.HandleDatagram(datagrams[i], loads[i]);
      AnswersStep(os, i, reply, server.serverOn);
      replies := replies + [reply];
      i := i + 1;
    }
    if server.serverOn {
      assert os[..i] == os;
    }
    RunningIffNoShutdown(datagrams, loads);
    running := server.serverOn;
  }

  /** End to end: an echo request sent under either sender convention is
      framed, dispatched and answered with its body between reply tags. */
  lemma EchoEndToEnd(body: string, loads: LoadAverage)
    requires NulFree(body) && PrintedLoads(loads)
    requires |body| + |ReplyOpen| + |ReplyClose| < MaxMessageLength
    ensures var d := BarePayload(Render(Echo(body)));
      Serviceable(d, loads) && PipelineReply(d, loads) == ReplyOpen + body + ReplyClose
    ensures var d := TerminatedPayload(Render(Echo(body)));
      Serviceable(d, loads) && PipelineReply(d, loads) == ReplyOpen + body + ReplyClose
  {
    var text := Render(Echo(body));
    NulFreeConcat(EchoOpen, body);
    NulFreeConcat(EchoOpen + body, EchoClose);
    FrameRecoversText(text);
    ClassifyRender(Echo(body));
  }
}
