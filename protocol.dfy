/** The dispatcher, processMessage, without its effects: which command a
    framed message is, and the reply text each command produces. The tests
    run in the source's order and the first match wins. */
module Protocol {

  import opened CStrings

  const EchoOpen: string := "<echo>"
  const EchoClose: string := "</echo>"
  const LoadAvgRequest: string := "<loadavg/>"
  const ShutdownRequest: string := "<shutdown/>"
  const ReplyOpen: string := "<reply>"
  const ReplyClose: string := "</reply>"
  const LoadOpen: string := "<replyLoadAvg>"
  const LoadClose: string := "</replyLoadAvg>"
  const ErrorOpen: string := "<error>"
  const ErrorClose: string := "</error>"

  datatype Option<T> = None | Some(value: T)

  predicate StartsWith(s: string, p: string) {
    |p| <= |s| && s[..|p|] == p
  }

  predicate EndsWith(s: string, p: string) {
    |p| <= |s| && s[|s| - |p|..] == p
  }

  /** The echo test compares the first six bytes with the opening tag (a
      strncmp that stops at the message's terminator) and, only when they
      match, the seven bytes ending at the message's length with the closing
      tag. */
  predicate IsEcho(m: string) {
    StartsWith(m, EchoOpen) && EndsWith(m, EchoClose)
  }

  /** The second comparison reads message[length - 7], which lies outside
      the buffer when the message is exactly the opening tag. */
  predicate EchoTestDefined(m: string) {
    StartsWith(m, EchoOpen) ==> |m| >= |EchoClose|
  }

  /** The two echo tags cannot share a byte. */
  lemma EchoTagsDisjoint(m: string)
    requires IsEcho(m)
    ensures |m| >= |EchoOpen| + |EchoClose|
  {
    if |m| < |EchoOpen| + |EchoClose| {
      var j := |m| - |EchoClose|;
      assert m[j] == '<' && m[j + 1] == '/' by {
        assert m[|m| - |EchoClose|..] == EchoClose;
      }
      assert forall k :: 0 <= k < |EchoOpen| ==> m[k] == EchoOpen[k] by {
        assert m[..|EchoOpen|] == EchoOpen;
      }
    }
  }

  /** The three load averages as `%lf` formats them. */
  datatype LoadAverage = LoadAverage(one: string, five: string, fifteen: string)

  /** `%lf` never prints a NUL or a colon. */
  predicate PrintedLoads(l: LoadAverage) {
    NulFree(l.one) && NulFree(l.five) && NulFree(l.fifteen) &&
    ':' !in l.one && ':' !in l.five && ':' !in l.fifteen
  }

  datatype Command =
    | Echo(body: string)
    | LoadAvg
    | Shutdown
    | Unknown(text: string)

  /** The classification of processMessage. The whole-string comparisons
      (strcmp) read the message up to its first NUL; the echo body is what
      strncpy copies from between the tags, read up to its first NUL. */
  function Classify(m: string): (c: Command)
    requires EchoTestDefined(m)
    ensures c.Echo? <==> IsEcho(m)
    ensures c.Echo? ==> |m| >= |EchoOpen| + |EchoClose| &&
                        c.body == CStr(m[|EchoOpen|..|m| - |EchoClose|])
    ensures c.LoadAvg? <==> CStr(m) == LoadAvgRequest
    ensures c.Shutdown? <==> CStr(m) == ShutdownRequest
    ensures c.Unknown? ==> c.text == CStr(m)
  {
    if IsEcho(m) then
      EchoTagsDisjoint(m);
      Echo(CStr(m[|EchoOpen|..|m| - |EchoClose|]))
    else if CStr(m) == LoadAvgRequest then
      LoadAvg
    else if CStr(m) == ShutdownRequest then
      Shutdown
    else
      Unknown(CStr(m))
  }

  function LoadReply(l: LoadAverage): string {
    LoadOpen + l.one + ":" + l.five + ":" + l.fifteen + LoadClose
  }

  /** The text each command leaves in the buffer. Shutdown writes nothing,
      so its request text stays there and is what strlen measures. */
  function Reply(c: Command, loads: LoadAverage): string {
    match c
    case Echo(body) => ReplyOpen + body + ReplyClose
    case LoadAvg => LoadReply(loads)
    case Shutdown => ShutdownRequest
    case Unknown(text) => ErrorOpen + text + ErrorClose
  }

  /** Each reply other than the shutdown's untouched request is framed by
      the tags of its kind, so a client can tell the kinds apart. */
  lemma ReplyTags(c: Command, loads: LoadAverage)
    ensures var r := Reply(c, loads);
      (c.Echo? ==> StartsWith(r, ReplyOpen) && EndsWith(r, ReplyClose)) &&
      (c.LoadAvg? ==> StartsWith(r, LoadOpen) && EndsWith(r, LoadClose)) &&
      (c.Shutdown? ==> r == ShutdownRequest) &&
      (c.Unknown? ==> StartsWith(r, ErrorOpen) && EndsWith(r, ErrorClose))
  {
    var r := Reply(c, loads);
    match c
    case Echo(body) =>
      assert r[..|ReplyOpen|] == ReplyOpen && r[|r| - |ReplyClose|..] == ReplyClose;
    case LoadAvg =>
      assert r[..|LoadOpen|] == LoadOpen && r[|r| - |LoadClose|..] == LoadClose;
    case Shutdown =>
    case Unknown(text) =>
      assert r[..|ErrorOpen|] == ErrorOpen && r[|r| - |ErrorClose|..] == ErrorClose;
  }

  /** The reply to a framed message; it holds no NUL, so strlen measures all
      of it. */
  function Dispatch(m: string, loads: LoadAverage): (r: string)
    requires EchoTestDefined(m)
    ensures PrintedLoads(loads) ==> NulFree(r)
  {
    var c := Classify(m);
    match c
    case Echo(body) =>
      NulFreeConcat(ReplyOpen, body);
      NulFreeConcat(ReplyOpen + body, ReplyClose);
      Reply(c, loads)
    case LoadAvg =>
      LoadReplyNulFree(loads);
      Reply(c, loads)
    case Shutdown =>
      Reply(c, loads)
    case Unknown(text) =>
      NulFreeConcat(ErrorOpen, text);
      NulFreeConcat(ErrorOpen + text, ErrorClose);
      Reply(c, loads)
  }

  lemma LoadReplyNulFree(l: LoadAverage)
    ensures PrintedLoads(l) ==> NulFree(LoadReply(l))
  {
    if PrintedLoads(l) {
      NulFreeConcat(LoadOpen, l.one);
      NulFreeConcat(LoadOpen + l.one, ":");
      NulFreeConcat(LoadOpen + l.one + ":", l.five);
      NulFreeConcat(LoadOpen + l.one + ":" + l.five, ":");
      NulFreeConcat(LoadOpen + l.one + ":" + l.five + ":", l.fifteen);
      NulFreeConcat(LoadOpen + l.one + ":" + l.five + ":" + l.fifteen, LoadClose);
    }
  }

  /** An echo request is answered with its body between reply tags; the
      reply is two bytes longer than the request. */
  lemma EchoDispatch(m: string, loads: LoadAverage)
    requires IsEcho(m) && NulFree(m)
    ensures |m| >= |EchoOpen| + |EchoClose|
    ensures Dispatch(m, loads) == ReplyOpen + m[|EchoOpen|..|m| - |EchoClose|] + ReplyClose
    ensures |Dispatch(m, loads)| == |m| + 2
  {
    EchoTagsDisjoint(m);
    var body := m[|EchoOpen|..|m| - |EchoClose|];
    assert forall i :: 0 <= i < |body| ==> body[i] == m[|EchoOpen| + i];
    CStrOfNulFree(body);
  }

  /** The load-average reply carries exactly the three printed fields,
      colon-separated between its tags: ParseLoadReply gets them back. */
  lemma LoadAvgDispatch(m: string, loads: LoadAverage)
    requires CStr(m) == LoadAvgRequest && PrintedLoads(loads)
    ensures EchoTestDefined(m)
    ensures Dispatch(m, loads) == LoadOpen + loads.one + ":" + loads.five + ":" + loads.fifteen + LoadClose
    ensures ParseLoadReply(Dispatch(m, loads)) == Some(loads)
  {
    LoadAvgIsNotEcho(m);
    LoadReplyRoundTrip(loads);
  }

  lemma LoadAvgIsNotEcho(m: string)
    requires CStr(m) == LoadAvgRequest
    ensures !StartsWith(m, EchoOpen)
  {
    assert m[1] == LoadAvgRequest[1] == 'l';
  }

  lemma ShutdownIsNotEcho(m: string)
    requires CStr(m) == ShutdownRequest
    ensures !StartsWith(m, EchoOpen)
  {
    assert m[1] == ShutdownRequest[1] == 's';
  }

  /** A shutdown request writes nothing, so the reply is the request text
      itself, eleven bytes. */
  lemma ShutdownDispatch(m: string, loads: LoadAverage)
    requires CStr(m) == ShutdownRequest
    ensures EchoTestDefined(m) && !IsEcho(m)
    ensures Dispatch(m, loads) == ShutdownRequest && |Dispatch(m, loads)| == 11
    ensures NulFree(m) ==> Dispatch(m, loads) == m
  {
    ShutdownIsNotEcho(m);
    if NulFree(m) {
      CStrOfNulFree(m);
    }
  }

  /** Any other message comes back verbatim between error tags, fifteen
      bytes longer. */
  lemma UnknownDispatch(m: string, loads: LoadAverage)
    requires EchoTestDefined(m) && NulFree(m)
    requires !IsEcho(m) && m != LoadAvgRequest && m != ShutdownRequest
    ensures Dispatch(m, loads) == ErrorOpen + m + ErrorClose
    ensures |Dispatch(m, loads)| == |m| + 15
  {
    CStrOfNulFree(m);
  }

  /** The request text a client sends for each command. */
  function Render(c: Command): string {
    match c
    case Echo(body) => EchoOpen + body + EchoClose
    case LoadAvg => LoadAvgRequest
    case Shutdown => ShutdownRequest
    case Unknown(text) => text
  }

  /** Commands a client can express: an echo body without NUL, and unknown
      text that the tests do not mistake for another command. */
  predicate Renderable(c: Command) {
    match c
    case Echo(body) => NulFree(body)
    case LoadAvg => true
    case Shutdown => true
    case Unknown(text) =>
      NulFree(text) && EchoTestDefined(text) && !IsEcho(text) &&
      text != LoadAvgRequest && text != ShutdownRequest
  }

  /** Classification undoes rendering: every expressible command is
      recognised as itself. */
  lemma {:induction false} ClassifyRender(c: Command)
    requires Renderable(c)
    ensures EchoTestDefined(Render(c))
    ensures Classify(Render(c)) == c
  {
    var m := Render(c);
    match c
    case Echo(body) =>
      assert m[..|EchoOpen|] == EchoOpen;
      assert m[|m| - |EchoClose|..] == EchoClose;
      assert m[|EchoOpen|..|m| - |EchoClose|] == body;
      CStrOfNulFree(body);
    case LoadAvg =>
      CStrOfNulFree(m);
      LoadAvgIsNotEcho(m);
    case Shutdown =>
      CStrOfNulFree(m);
      ShutdownIsNotEcho(m);
    case Unknown(text) =>
      CStrOfNulFree(text);
  }

  /** Splits `s` at every occurrence of `sep`. */
  function Split(s: string, sep: char): (parts: seq<string>)
    ensures |parts| >= 1
    ensures forall k :: 0 <= k < |parts| ==> sep !in parts[k]
  {
    if s == [] then [[]]
    else
      var rest := Split(s[1..], sep);
      if s[0] == sep then [[]] + rest
      else [[s[0]] + rest[0]] + rest[1..]
  }

  lemma {:induction false} SplitNoSeparator(a: string, sep: char)
    requires sep !in a
    ensures Split(a, sep) == [a]
  {
    if a != [] {
      SplitNoSeparator(a[1..], sep);
      assert [a[0]] + a[1..] == a;
    }
  }

  lemma {:induction false} SplitAtSeparator(a: string, sep: char, b: string)
    requires sep !in a
    ensures Split(a + [sep] + b, sep) == [a] + Split(b, sep)
  {
    if a == [] {
      assert a + [sep] + b == [sep] + b;
      assert ([sep] + b)[1..] == b;
    } else {
      SplitAtSeparator(a[1..], sep, b);
      assert (a + [sep] + b)[1..] == a[1..] + [sep] + b;
      assert [a[0]] + a[1..] == a;
    }
  }

  /** Reads the three fields back out of a load-average reply. */
  function ParseLoadReply(r: string): Option<LoadAverage> {
    if StartsWith(r, LoadOpen) && |r| >= |LoadOpen| + |LoadClose| && EndsWith(r, LoadClose) then
      var parts := Split(r[|LoadOpen|..|r| - |LoadClose|], ':');
      if |parts| == 3 then Some(LoadAverage(parts[0], parts[1], parts[2])) else None
    else None
  }

  lemma LoadReplyRoundTrip(l: LoadAverage)
    requires PrintedLoads(l)
    ensures ParseLoadReply(LoadReply(l)) == Some(l)
  {
    var inner := l.one + ":" + l.five + ":" + l.fifteen;
    assert LoadReply(l) == LoadOpen + inner + LoadClose;
    Unwrap(LoadOpen, inner, LoadClose);
    SplitThree(l.one, l.five, l.fifteen, ':');
  }

  /** Text placed between two tags is recovered by cutting the tags off. */
  lemma Unwrap(open: string, inner: string, close: string)
    ensures var r := open + inner + close;
      StartsWith(r, open) && EndsWith(r, close) && |r| >= |open| + |close| &&
      r[|open|..|r| - |close|] == inner
  {
    var r := open + inner + close;
    assert r[..|open|] == open;
    assert r[|r| - |close|..] == close;
    assert r[|open|..|r| - |close|] == inner;
  }

  lemma SplitThree(a: string, b: string, c: string, sep: char)
    requires sep !in a && sep !in b && sep !in c
    ensures Split(a + [sep] + b + [sep] + c, sep) == [a, b, c]
  {
    assert a + [sep] + b + [sep] + c == a + [sep] + (b + [sep] + c);
    SplitAtSeparator(a, sep, b + [sep] + c);
    SplitAtSeparator(b, sep, c);
    SplitNoSeparator(c, sep);
  }

  // The scratch array messageBody, as the source uses it.

  /** strncpy(dest, src, n): the bytes of `src` before its first NUL, at most
      n of them, then NUL padding up to n bytes. */
  function StrNCpy(src: seq<char>, n: nat): (r: seq<char>)
    requires n <= |src|
    ensures |r| == n && CStr(r) == CStr(src[..n])
    ensures forall i :: |CStr(src[..n])| <= i < n ==> r[i] == NUL
  {
    var t := CStr(src[..n]);
    var r := t + seq(n - |t|, _ => NUL);
    assert r[..|t|] == t;
    CStrUnique(r, t);
    r
  }

  /** What the `%s` in the echo branch reads from messageBody as the code is
      written: strncpy copies the body without a terminator, so the read runs
      on into whatever `stack` (the bytes at messageBody and beyond before the
      call, at least as many as the array holds) already contained. */
  function EchoBodyAsWritten(m: string, stack: seq<char>): (r: string)
    requires IsEcho(m) && |stack| >= |m|
    ensures NulFree(r) && |r| <= |stack|
  {
    EchoTagsDisjoint(m);
    var n := |m| - |EchoOpen| - |EchoClose|;
    CStr(StrNCpy(m[|EchoOpen|..], n) + stack[n..])
  }

  /** The body read as written is the intended body followed by the stale
      bytes after it, and equals the intended body exactly when the stale
      byte at messageBody[length - 13] happens to be NUL. */
  lemma EchoBodyReadsStaleBytes(m: string, stack: seq<char>)
    requires IsEcho(m) && |stack| >= |m| && NulFree(m)
    ensures |m| >= |EchoOpen| + |EchoClose|
    ensures EchoBodyAsWritten(m, stack) ==
            Classify(m).body + CStr(stack[|m| - |EchoOpen| - |EchoClose|..])
    ensures EchoBodyAsWritten(m, stack) == Classify(m).body <==>
            stack[|m| - |EchoOpen| - |EchoClose|] == NUL
  {
    EchoTagsDisjoint(m);
    var n := |m| - |EchoOpen| - |EchoClose|;
    var body := m[|EchoOpen|..|m| - |EchoClose|];
    assert m[|EchoOpen|..][..n] == body;
    assert forall i :: 0 <= i < |body| ==> body[i] == m[|EchoOpen| + i];
    CStrOfNulFree(body);
    var copied := StrNCpy(m[|EchoOpen|..], n);
    assert copied == body;
    var rest := CStr(stack[n..]);
    var read := copied + stack[n..];
    NulFreeConcat(body, rest);
    assert read[..|body| + |rest|] == body + rest by {
      assert stack[n..][..|rest|] == rest;
    }
    if |body| + |rest| < |read| {
      assert read[|body| + |rest|] == stack[n..][|rest|];
    }
    CStrUnique(read, body + rest);
    if stack[n] != NUL {
      assert rest != [] by { assert stack[n..][0] != NUL; }
    }
  }

  /** The byte count strcpy stores into its destination: the source's C
      string and its terminator. */
  function StrcpyLength(src: string): nat {
    |CStr(src)| + 1
  }

  /** The scratch array messageBody of processMessage: `char
      messageBody[length]`, as many bytes as the framed message has. */
  function ScratchSize(m: string): nat {
    |m|
  }

  /** In the error branch strcpy stores one byte more than messageBody holds
      for every message without an embedded NUL. */
  lemma ErrorCopyOverflowsScratch(m: string)
    requires NulFree(m)
    ensures StrcpyLength(m) == |m| + 1
    ensures StrcpyLength(m) > ScratchSize(m)
  {
    CStrOfNulFree(m);
  }
}
