/** The framer, prepareMessage: it decides from the last received byte which
    of two sender conventions produced a datagram and leaves the logical
    message NUL-terminated in the receive buffer. */
module Framer {

  import opened CStrings

  /** MAX_MESSAGE_LENGTH: the capacity of each request's buffer, and so the
      largest byte count recvfrom can report. */
  const MaxMessageLength := 256

  /** What prepareMessage demands of its caller: the byte before `bytes`
      exists, and the byte it writes lies inside the buffer. A sender that
      appends nothing needs one spare byte for the terminator; a sender that
      ends with a two-byte trailer must have sent both bytes. */
  predicate CanPrepare(buf: seq<char>, bytes: int) {
    1 <= bytes <= |buf| &&
    (buf[bytes - 1] != NUL ==> bytes < |buf|) &&
    (buf[bytes - 1] == NUL ==> bytes >= 2)
  }

  /** A buffer together with the logical length of the message in it. */
  datatype Prepared = Prepared(buffer: seq<char>, length: nat)

  /** prepareMessage on the buffer contents: exactly one byte changes, the
      one at the returned length, which becomes the terminator. */
  function Prepare(buf: seq<char>, bytes: int): (p: Prepared)
    requires CanPrepare(buf, bytes)
    ensures |p.buffer| == |buf| && p.length < |buf|
    ensures p.buffer[p.length] == NUL
    ensures forall i :: 0 <= i < |buf| && i != p.length ==> p.buffer[i] == buf[i]
    ensures buf[bytes - 1] != NUL ==> p.length == bytes
    ensures buf[bytes - 1] == NUL ==> p.length == bytes - 2
  {
    if buf[bytes - 1] != NUL then Prepared(buf[bytes := NUL], bytes)
    else Prepared(buf[bytes - 2 := NUL], bytes - 2)
  }

  /** The logical message that prepareMessage leaves in the buffer. */
  function PreparedMessage(buf: seq<char>, bytes: int): (m: seq<char>)
    requires CanPrepare(buf, bytes)
    ensures |m| == Prepare(buf, bytes).length && m == buf[..|m|]
  {
    var p := Prepare(buf, bytes);
    assert p.buffer[..p.length] == buf[..p.length];
    p.buffer[..p.length]
  }

  /** prepareMessage, in place on the request's buffer. */
  method PrepareMessage(message: array<char>, bytes: int) returns (length: int)
    requires CanPrepare(message[..], bytes)
    modifies message
    ensures message[..] == Prepare(old(message[..]), bytes).buffer
    ensures length == Prepare(old(message[..]), bytes).length
  {
    if message[bytes - 1] != NUL {
      message[bytes] := NUL;
      return bytes;
    } else {
      message[bytes - 2] := NUL;
      return bytes - 2;
    }
  }

  /** Running prepareMessage a second time with the same byte count, as the
      request worker does after handleDatagram already has, is allowed and
      changes neither the buffer nor the length. */
  lemma PrepareIdempotent(buf: seq<char>, bytes: int)
    requires CanPrepare(buf, bytes)
    ensures CanPrepare(Prepare(buf, bytes).buffer, bytes)
    ensures Prepare(Prepare(buf, bytes).buffer, bytes) == Prepare(buf, bytes)
  {
    var p := Prepare(buf, bytes);
    assert p.buffer[bytes - 1] == buf[bytes - 1];
    if buf[bytes - 1] != NUL {
      assert p.buffer[bytes := NUL] == p.buffer;
    } else {
      assert p.buffer[bytes - 2 := NUL] == p.buffer;
    }
  }

  /** A datagram as received, before framing, that the framer can handle. */
  predicate WellFramed(d: seq<char>) {
    1 <= |d| <= MaxMessageLength &&
    (d[|d| - 1] != NUL ==> |d| < MaxMessageLength) &&
    (d[|d| - 1] == NUL ==> |d| >= 2)
  }

  /** The message a datagram carries: all of it when its last byte is not
      NUL, and all but its two-byte trailer when it is. */
  function Frame(d: seq<char>): (m: seq<char>)
    requires WellFramed(d)
    ensures |m| <= |d| && m == d[..|m|]
  {
    if d[|d| - 1] != NUL then d else d[..|d| - 2]
  }

  /** Whatever the buffer held beyond the received bytes, prepareMessage
      leaves exactly the datagram's message in it. */
  lemma PrepareFramesDatagram(buf: seq<char>, d: seq<char>)
    requires |buf| == MaxMessageLength && WellFramed(d)
    requires |d| <= |buf| && buf[..|d|] == d
    ensures CanPrepare(buf, |d|)
    ensures PreparedMessage(buf, |d|) == Frame(d)
  {
    assert buf[|d| - 1] == d[|d| - 1];
    var m := PreparedMessage(buf, |d|);
    if d[|d| - 1] != NUL {
      assert m == buf[..|d|];
    } else {
      assert m == buf[..|d| - 2] == d[..|d| - 2];
    }
  }

  /** What a sender that appends nothing transmits for `text`. */
  function BarePayload(text: seq<char>): seq<char> {
    text
  }

  /** What a sender that ends its line with a newline and NUL transmits. */
  function TerminatedPayload(text: seq<char>): seq<char> {
    text + ['\n', NUL]
  }

  /** The framer recovers the text under both sender conventions. */
  lemma FrameRecoversText(text: seq<char>)
    requires NulFree(text)
    ensures 1 <= |text| < MaxMessageLength ==>
              WellFramed(BarePayload(text)) && Frame(BarePayload(text)) == text
    ensures |text| + 2 <= MaxMessageLength ==>
              WellFramed(TerminatedPayload(text)) && Frame(TerminatedPayload(text)) == text
  {
    var t := TerminatedPayload(text);
    assert t[|t| - 1] == NUL;
    assert t[..|t| - 2] == text;
  }
}
