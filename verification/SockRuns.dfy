/** What exchanges and sessions keep, whatever the environment does, and how a session divides the
    stream of answers. */
module SockRuns {
  import opened Text
  import opened MathUtils
  import opened Net
  import opened Sock
  import Receive
  import opened Framing
  import opened ReceiveRuns
  import opened Completeness
  import Http
  import HttpSyntax
  import RoundTrip

  // ---- Closing

  /** The out-flag tells whether the descriptor was closed by the callee or found to be invalid. */
  predicate Accounts(before: Net, after: Net, closed: bool) {
    if closed then
      (after.closes == before.closes + 1 && after.invalid == before.invalid) ||
      (after.closes == before.closes && after.invalid)
    else
      after.closes == before.closes && after.invalid == before.invalid
  }

  /** Sending delivers a prefix of the data and keeps the rest. */
  lemma {:induction false} SendDelivers(net: Net, data: string)
    ensures var r := SendFrom(net, data);
            r.net.sent + r.left == net.sent + data && r.net.incoming == net.incoming
    decreases |net.script|
  {
    if data != "" && net.script != [] && Sends(net.script[0]) {
      var k := Min(net.script[0].count, |data|);
      var n := net.Pop().(sent := net.sent + data[..k]);
      SendDelivers(n, data[k..]);
      SendUnfolds(net, data);
      assert net.sent + data[..k] + data[k..] == net.sent + data by { assert data == data[..k] + data[k..]; }
    }
  }

  /** The poll lets some bytes be sent. */
  predicate Sends(e: Event) {
    e.PollReady? && !e.err && !e.hup && !e.nval
  }

  lemma SendUnfolds(net: Net, data: string)
    requires data != "" && net.script != [] && Sends(net.script[0])
    ensures var k := Min(net.script[0].count, |data|);
            SendFrom(net, data) == SendFrom(net.Pop().(sent := net.sent + data[..k]), data[k..])
  {
  }

  /** When sending reports success, something is left to send exactly when the last poll timed out; a
      poll that times out always ends the sending, with success and with something left; and the error
      is negative exactly when the descriptor is gone. */
  lemma {:induction false} SendSafety(net: Net, data: string)
    ensures var r := SendFrom(net, data);
            && Accounts(net, r.net, r.closed) && |r.net.script| <= |net.script|
            && (EndsInTimeout(net.script, r.net.script) ==> r.status == Done(0) && r.left != "")
            && match r.status
               case Waiting => r.net.script == [] && r.left != "" && !r.closed
               case Done(ec) =>
                 && (ec < 0 <==> r.closed) && -1 <= ec <= 1
                 && (ec == 0 ==> (r.left != "" <==> EndsInTimeout(net.script, r.net.script)))
                 && (r.left == "" ==> ec == 0)
    decreases |net.script|
  {
    if data != "" && net.script != [] && Sends(net.script[0]) {
      var k := Min(net.script[0].count, |data|);
      var n := net.Pop().(sent := net.sent + data[..k]);
      SendSafety(n, data[k..]);
      SendUnfolds(net, data);
    }
  }

  /** A timeout in the middle of the data: success is reported for a part of it. */
  lemma SendCutShort(net: Net, data: string, k: nat, rest: seq<Event>)
    requires 0 < k < |data| && net.script == [PollReady(false, false, false, true, k), PollTimedOut] + rest
    ensures SendFrom(net, data) == Sent(net.(script := rest, sent := net.sent + data[..k]), data[k..], false, Done(0))
  {
    var n := net.Pop().(sent := net.sent + data[..k]);
    assert net.script[1..] == [PollTimedOut] + rest && n.script[1..] == rest;
    SendUnfolds(net, data);
    assert SendFrom(n, data[k..]) == Sent(n.Pop(), data[k..], false, Done(0));
  }

  lemma WaitSafety(net: Net, timeoutIsError: bool, bufSize: int, maxSize: SizeT, http: bool)
    requires bufSize != 0
    ensures var r := WaitThenRecv(net, timeoutIsError, bufSize, maxSize, http);
            && Accounts(net, r.net, r.closed) && r.net.sent == net.sent
            && match r.status
               case Waiting => r.net.closes == net.closes && !r.closed && r.out.None?
               case Done(ec) => (ec < 0 ==> r.closed) && (ec > 0 ==> !r.closed) && (r.out.Some? ==> ec == 0)
  {
    hide Receive.Run;
    hide Receive.Start;
    if net.script != [] {
      var size := ClientBufSize(bufSize);
      ReplyUnfolds(net.Pop(), timeoutIsError, bufSize, maxSize, http);
      ReceiveSafety(RecvParams(bufSize, timeoutIsError, http), net.Pop(), size, ToSsize(maxSize));
    }
  }

  /** The next poll reports a hang-up, and no error. */
  predicate HangsUp(script: seq<Event>) {
    script != [] && script[0].PollReady? && !script[0].err && script[0].hup
  }

  /** The call reports success without any output exactly when its first poll reports a hang-up; it has
      then read nothing, whatever there was to read. */
  lemma OutputMissing(net: Net, timeoutIsError: bool, bufSize: int, maxSize: SizeT, http: bool)
    ensures var r := WaitThenRecv(net, timeoutIsError, bufSize, maxSize, http);
            && (r.status == Done(0) && r.out.None? <==> HangsUp(net.script))
            && (HangsUp(net.script) ==> r.closed && r.net.incoming == net.incoming && r.net.closes == net.closes + 1)
  {
    hide Receive.Run;
    hide Receive.Start;
  }

  /** A whole exchange, or a request in a session, succeeds without an answer exactly when its sending
      succeeds and the poll after that reports a hang-up; every byte of the answer is then unread. */
  lemma AnswerMissing(net: Net, data: string, timeoutIsError: bool, bufSize: int, maxSize: SizeT, http: bool)
    ensures var s, r, t := SendFrom(net, data), Exchange(net, data, timeoutIsError, bufSize, maxSize, http),
                           RequestInSession(net, data, maxSize);
            var missing := s.status == Done(0) && HangsUp(s.net.script);
            && (r.status == Done(0) && r.out.None? <==> missing)
            && (t.reply.status == Done(0) && t.reply.out.None? <==> missing)
            && (missing ==> r.net.incoming == net.incoming && t.reply.net.incoming == net.incoming && !t.isOpen)
  {
    hide SendFrom;
    hide WaitThenRecv;
    hide HangsUp;
    var s := SendFrom(net, data);
    SendSafety(net, data);
    SendDelivers(net, data);
    OutputMissing(s.net, timeoutIsError, bufSize, maxSize, http);
    OutputMissing(s.net, true, -1, maxSize, true);
  }

  /** For instance: with nothing to send and a poll that reports both a hang-up and data, an exchange
      succeeds, closes the descriptor, and returns nothing of what the peer has sent. */
  lemma HangUpLosesAnswer(answer: string, timeoutIsError: bool, bufSize: int, maxSize: SizeT, http: bool)
    ensures var net := Net([PollReady(false, true, false, true, 1)], answer, "", 0, false);
            Exchange(net, "", timeoutIsError, bufSize, maxSize, http) ==
            Reply(Net([], answer, "", 1, false), None, true, Done(0))
  {
    hide ReceiveReply;
    var net := Net([PollReady(false, true, false, true, 1)], answer, "", 0, false);
    assert net.script[1..] == [];
    assert SendFrom(net, "") == Sent(net, "", false, Done(0));
  }

  /** An exchange on a connected descriptor closes it exactly once, unless the kernel reported the
      descriptor as invalid, in which case it is not closed at all. */
  lemma DescriptorClosedOnce(net: Net, data: string, timeoutIsError: bool, bufSize: int, maxSize: SizeT, http: bool)
    requires bufSize != 0 && !net.invalid
    ensures var r := Exchange(net, data, timeoutIsError, bufSize, maxSize, http);
            r.status.Done? ==> r.net.closes == net.closes + if r.net.invalid then 0 else 1
  {
    SendSafety(net, data);
    WaitSafety(SendFrom(net, data).net, timeoutIsError, bufSize, maxSize, http);
  }

  /** A session is marked closed exactly when a callee closed its descriptor or found it invalid. */
  lemma SessionFlagIsExact(net: Net, req: string, maxSize: SizeT)
    requires !net.invalid
    ensures var t := RequestInSession(net, req, maxSize);
            t.reply.status.Done? ==>
              (t.isOpen <==> t.reply.net.closes == net.closes && !t.reply.net.invalid) &&
              (!t.isOpen ==> t.reply.net.closes == net.closes + if t.reply.net.invalid then 0 else 1)
  {
    SendSafety(net, req);
    WaitSafety(SendFrom(net, req).net, true, -1, maxSize, true);
  }

  /** A request that succeeds has been sent as a whole exactly when no poll of its sending timed out. */
  lemma SuccessMeansSent(net: Net, req: string, maxSize: SizeT)
    ensures var s, t := SendFrom(net, req), RequestInSession(net, req, maxSize);
            t.reply.status == Done(0) ==>
              (t.reply.net.sent == net.sent + req <==> !EndsInTimeout(net.script, s.net.script))
  {
    hide SendFrom;
    hide WaitThenRecv;
    hide EndsInTimeout;
    var s := SendFrom(net, req);
    SendSafety(net, req);
    SendDelivers(net, req);
    WaitSafety(s.net, true, -1, maxSize, true);
    assert |s.net.sent + s.left| == |net.sent + req|;
    assert s.left == "" ==> s.net.sent + s.left == s.net.sent;
  }

  // ---- Complete answers

  const SSIZE_BOUND: nat := 0x8000_0000_0000_0000

  /** Where an answer that is read from `s` ends: with the message, or with the size the caller allows.
      Sizes of 2^63 and more allow everything. */
  function AnswerEnd(http: bool, s: string, maxSize: SizeT): int {
    Extent(http, s, if maxSize < SSIZE_BOUND then maxSize else -1)
  }

  /** The answer is refused at its end, which lies within the size the caller allows. */
  predicate Refused(http: bool, s: string, maxSize: SizeT) {
    Rejected(http, s, if maxSize < SSIZE_BOUND then maxSize else -1)
  }

  /** The program's limit is the size the caller allows. */
  lemma SizeIsLimit(http: bool, s: string, maxSize: SizeT)
    ensures Extent(http, s, ToSsize(maxSize)) == AnswerEnd(http, s, maxSize)
    ensures Rejected(http, s, ToSsize(maxSize)) == Refused(http, s, maxSize)
    ensures forall x: nat :: Within(x, ToSsize(maxSize)) <==> maxSize >= SSIZE_BOUND || x <= maxSize
  {
    hide Classify;
    hide StopAt;
    var bound := if maxSize < SSIZE_BOUND then maxSize else -1;
    assert ToSsize(maxSize) == bound || (ToSsize(maxSize) < 0 && bound < 0);
    forall x: nat ensures Within(x, ToSsize(maxSize)) <==> maxSize >= SSIZE_BOUND || x <= maxSize {}
  }

  /** An answer comes with the bytes read from the stream, of which none is lost or lies behind the
      message, and is no larger than the caller allows. It is complete exactly when the descriptor has
      not been closed and the last poll did not time out. */
  lemma AnswerIsComplete(net: Net, timeoutIsError: bool, bufSize: int, maxSize: SizeT, http: bool)
    requires bufSize != 0
    ensures var r, n := WaitThenRecv(net, timeoutIsError, bufSize, maxSize, http), AnswerEnd(http, net.incoming, maxSize);
            r.out.Some? ==>
              && r.out.value + r.net.incoming == net.incoming && Within(|r.out.value|, n)
              && (maxSize < SSIZE_BOUND ==> |r.out.value| <= maxSize)
              && (n == |r.out.value| <==> !r.closed && !EndsInTimeout(net.script, r.net.script))
              && (timeoutIsError ==> !EndsInTimeout(net.script, r.net.script))
  {
    hide Receive.Run;
    hide Receive.Start;
    hide Extent;
    hide AnswerEnd;
    hide ToSsize;
    SizeIsLimit(http, net.incoming, maxSize);
    if net.script != [] {
      var p, size := RecvParams(bufSize, timeoutIsError, http), ClientBufSize(bufSize);
      ReplyUnfolds(net.Pop(), timeoutIsError, bufSize, maxSize, http);
      ParamsAreGood(bufSize, timeoutIsError, http);
      ReceiveSafety(p, net.Pop(), size, ToSsize(maxSize));
      SuccessIsComplete(p, net.Pop(), size, ToSsize(maxSize));
      var r := Receive.Run(p, Receive.Start(p, net.Pop(), size, ToSsize(maxSize)));
      if net.script[0].PollReady? { SameEnd(net.script, r.net.script); }
    }
  }

  /** A request in a session that succeeds with an answer has the whole answer, as far as the limit
      allows, exactly when the session is still open. */
  lemma OpenMeansComplete(net: Net, req: string, maxSize: SizeT)
    ensures var t, n := RequestInSession(net, req, maxSize), AnswerEnd(true, net.incoming, maxSize);
            t.reply.out.Some? ==>
              && t.reply.status == Done(0) && t.reply.out.value + t.reply.net.incoming == net.incoming
              && (maxSize < SSIZE_BOUND ==> |t.reply.out.value| <= maxSize)
              && Within(|t.reply.out.value|, n) && (t.isOpen <==> n == |t.reply.out.value|)
  {
    hide SendFrom;
    hide WaitThenRecv;
    hide AnswerEnd;
    hide EndsInTimeout;
    var s := SendFrom(net, req);
    SendSafety(net, req);
    SendDelivers(net, req);
    AnswerIsComplete(s.net, true, -1, maxSize, true);
    WaitSafety(s.net, true, -1, maxSize, true);
  }

  // ---- Sessions

  /** The descriptor is ready and nothing else is reported. */
  predicate IsQuiet(e: Event) {
    e.PollReady? && !e.err && !e.hup && !e.nval && e.io && e.count >= 1
  }

  predicate AllQuiet(script: seq<Event>) {
    forall i | 0 <= i < |script| :: IsQuiet(script[i])
  }

  lemma {:induction false} SendQuiet(net: Net, data: string)
    requires AllQuiet(net.script) && |net.script| >= |data|
    ensures var r := SendFrom(net, data);
            && r == Sent(net.(script := r.net.script, sent := net.sent + data), "", false, Done(0))
            && IsSuffix(r.net.script, net.script) && |net.script| - |r.net.script| <= |data|
    decreases |net.script|
  {
    if data == "" {
      assert net.sent + data == net.sent;
    } else {
      assert IsQuiet(net.script[0]);
      var n := net.Pop();
      var k := Min(net.script[0].count, |data|);
      SendQuiet(n.(sent := n.sent + data[..k]), data[k..]);
      assert net.sent + data[..k] + data[k..] == net.sent + data by { assert data == data[..k] + data[k..]; }
    }
  }

  /** A complete message with a Content-Length, within the limit. */
  predicate WellFramed(m: string, maxSize: SizeT) {
    Classify(m).Sized? && StopAt(Classify(m)) == |m| && (maxSize < SSIZE_BOUND ==> |m| <= maxSize)
  }

  lemma QuietIsData(script: seq<Event>)
    requires AllQuiet(script)
    ensures AllData(script)
  {
    forall i | 0 <= i < |script| ensures IsData(script[i]) { assert IsQuiet(script[i]); }
  }

  lemma SuffixIsQuiet(t: seq<Event>, s: seq<Event>)
    requires AllQuiet(s) && IsSuffix(t, s)
    ensures AllQuiet(t)
  {
    forall i | 0 <= i < |t| ensures IsQuiet(t[i]) { assert t[i] == s[|s| - |t| + i]; }
  }

  lemma FramedEnd(m: string, t: string, maxSize: SizeT)
    requires WellFramed(m, maxSize)
    ensures AnswerEnd(true, m + t, maxSize) == |m| && !Refused(true, m + t, maxSize)
  {
    hide Classify;
    EndIsFinal(true, m, if maxSize < SSIZE_BOUND then maxSize else -1, t);
  }

  lemma ReceiveFramed(p: Receive.Params, net: Net, cap: nat, m: string, t: string, maxSize: SizeT)
    requires p.http && p.minCap >= 1 && p.initialLen <= cap
    requires AllQuiet(net.script) && |net.script| >= |m|
    requires net.incoming == m + t && WellFramed(m, maxSize)
    ensures var r := Receive.Run(p, Receive.Start(p, net, cap, ToSsize(maxSize)));
            && r.got == m && r.status == Receive.Done(0) && !r.closed
            && r.net.incoming == t && r.net.sent == net.sent && r.net.closes == net.closes
            && IsSuffix(r.net.script, net.script) && |net.script| - |r.net.script| <= |m|
  {
    hide *;
    QuietIsData(net.script);
    FramedEnd(m, t, maxSize);
    SizeIsLimit(true, m + t, maxSize);
    var og := ToSsize(maxSize);
    FramingExact(p, net, cap, og);
    ReceiveSafety(p, net, cap, og);
    OutcomeOfMessage(og, net, Receive.Run(p, Receive.Start(p, net, cap, og)), m, t);
  }

  /** Receiving when a framed message is next on the stream: it is received, and no more. */
  lemma ReceiveQuiet(net: Net, m: string, t: string, timeoutIsError: bool, bufSize: int, maxSize: SizeT)
    requires bufSize != 0 && AllQuiet(net.script) && |net.script| >= |m|
    requires net.incoming == m + t && WellFramed(m, maxSize)
    ensures var r := ReceiveReply(net, timeoutIsError, bufSize, maxSize, true);
            && r.out == Some(m) && r.status == Done(0) && !r.closed
            && r.net.incoming == t && r.net.sent == net.sent && r.net.closes == net.closes
            && IsSuffix(r.net.script, net.script) && |net.script| - |r.net.script| <= |m|
  {
    hide *;
    var p, cap := RecvParams(bufSize, timeoutIsError, true), ClientBufSize(bufSize);
    ParamsAreGood(bufSize, timeoutIsError, true);
    ReplyUnfolds(net, timeoutIsError, bufSize, maxSize, true);
    ReceiveFramed(p, net, cap, m, t, maxSize);
  }

  lemma ParamsAreGood(bufSize: int, timeoutIsError: bool, http: bool)
    requires bufSize != 0
    ensures var p := RecvParams(bufSize, timeoutIsError, http);
            p.http == http && p.minCap >= 1 && p.initialLen == 0
  {
  }

  lemma OutcomeOfMessage(og: int, before: Net, r: Receive.Recv, m: string, t: string)
    requires Outcome(true, og, before, r) && before.incoming == m + t
    requires Extent(true, m + t, og) == |m| && !Rejected(true, m + t, og)
    ensures r.got == m && r.net.incoming == t && r.status == Receive.Done(0)
    ensures !r.closed && r.net.closes == before.closes
  {
    hide Extent;
    hide Rejected;
    assert (m + t)[..|m|] == m && (m + t)[|m|..] == t;
  }

  lemma WaitUnfolds(net: Net, timeoutIsError: bool, bufSize: int, maxSize: SizeT, http: bool)
    requires net.script != [] && IsQuiet(net.script[0])
    ensures WaitThenRecv(net, timeoutIsError, bufSize, maxSize, http) ==
            ReceiveReply(net.Pop(), timeoutIsError, bufSize, maxSize, http)
  {
    hide ReceiveReply;
  }

  lemma RequestUnfolds(net: Net, req: string, maxSize: SizeT, n: Net, left: string)
    requires SendFrom(net, req) == Sent(n, left, false, Done(0))
    ensures var w := WaitThenRecv(n, true, -1, maxSize, true);
            RequestInSession(net, req, maxSize) == Turn(w, !w.closed)
  {
    hide SendFrom;
    hide WaitThenRecv;
  }

  /** The descriptor's state after a quiet send and the poll that follows it. */
  lemma SendThenPoll(net: Net, req: string, more: nat)
    requires AllQuiet(net.script) && |net.script| >= |req| + 1 + more
    ensures var n := SendFrom(net, req).net;
            && SendFrom(net, req) == Sent(n, "", false, Done(0))
            && n.script != [] && IsQuiet(n.script[0])
            && var n1 := n.Pop();
               && AllQuiet(n1.script) && |n1.script| >= more && |net.script| - |n1.script| <= |req| + 1
               && n1.incoming == net.incoming && n1.sent == net.sent + req && n1.closes == net.closes
  {
    hide SendFrom;
    SendQuiet(net, req);
    var n := SendFrom(net, req).net;
    SuffixIsQuiet(n.script, net.script);
    assert IsQuiet(n.script[0]);
    SuffixIsQuiet(n.script[1..], n.script);
  }

  lemma RequestQuiet(net: Net, req: string, m: string, t: string, maxSize: SizeT)
    requires AllQuiet(net.script) && |net.script| >= |req| + 1 + |m|
    requires net.incoming == m + t && WellFramed(m, maxSize)
    ensures var u := RequestInSession(net, req, maxSize);
            && u.reply.out == Some(m) && u.reply.status == Done(0) && u.isOpen
            && u.reply.net.incoming == t && u.reply.net.sent == net.sent + req && u.reply.net.closes == net.closes
            && AllQuiet(u.reply.net.script) && |net.script| - |u.reply.net.script| <= |req| + 1 + |m|
  {
    hide *;
    SendThenPoll(net, req, |m|);
    var n := SendFrom(net, req).net;
    RequestUnfolds(net, req, maxSize, n, "");
    WaitUnfolds(n, true, -1, maxSize, true);
    ReceiveQuiet(n.Pop(), m, t, true, -1, maxSize);
    SuffixIsQuiet(WaitThenRecv(n, true, -1, maxSize, true).net.script, n.Pop().script);
    SuffixIsShorter(WaitThenRecv(n, true, -1, maxSize, true).net.script, n.Pop().script);
  }

  /** A request cut short by a timeout: the session waits for an answer all the same, and what arrives
      is reported as the answer to a request of which the peer has a part only. */
  lemma AnswerToPartOfRequest(net: Net, req: string, k: nat, rest: seq<Event>, m: string, t: string, maxSize: SizeT)
    requires 0 < k < |req| && net.script == [PollReady(false, false, false, true, k), PollTimedOut] + rest
    requires AllQuiet(rest) && |rest| >= 1 + |m| && net.incoming == m + t && WellFramed(m, maxSize)
    ensures var u := RequestInSession(net, req, maxSize);
            Answered(u, m) && u.reply.net.incoming == t && u.reply.net.sent == net.sent + req[..k]
  {
    hide SendFrom;
    hide WaitThenRecv;
    hide RequestInSession;
    hide ReceiveReply;
    hide WellFramed;
    hide AllQuiet;
    SendCutShort(net, req, k, rest);
    var n := SendFrom(net, req).net;
    RequestUnfolds(net, req, maxSize, n, req[k..]);
    FirstIsQuiet(rest);
    WaitUnfolds(n, true, -1, maxSize, true);
    SuffixIsQuiet(rest[1..], rest);
    ReceiveQuiet(n.Pop(), m, t, true, -1, maxSize);
  }

  lemma FirstIsQuiet(script: seq<Event>)
    requires AllQuiet(script) && script != []
    ensures IsQuiet(script[0]) && IsSuffix(script[1..], script)
  {
  }

  lemma SuffixIsShorter(t: seq<Event>, s: seq<Event>)
    requires IsSuffix(t, s)
    ensures |t| <= |s|
  {
  }

  /** A well-formed request arrives as what it is: the bytes added to what was sent parse as the
      request, and the framed message that answers it is returned. */
  lemma RequestArrivesIntact(net: Net, r: Http.Request, m: string, t: string, maxSize: SizeT)
    requires HttpSyntax.WfRequest(r) && HttpSyntax.RequestText(r).Some?
    requires AllQuiet(net.script) && |net.script| >= |HttpSyntax.RequestText(r).value| + 1 + |m|
    requires net.incoming == m + t && WellFramed(m, maxSize)
    ensures var text := HttpSyntax.RequestText(r).value;
            var u := RequestInSession(net, text, maxSize);
            && u.reply.net.sent == net.sent + text && HttpSyntax.ParseRequest(text) == Some(r)
            && Answered(u, m) && u.reply.net.incoming == t
  {
    hide WellFramed;
    hide AllQuiet;
    hide RequestInSession;
    hide HttpSyntax.RequestText;
    hide HttpSyntax.ParseRequest;
    hide HttpSyntax.WfRequest;
    RequestQuiet(net, HttpSyntax.RequestText(r).value, m, t, maxSize);
    RoundTrip.RequestRoundTrip(r);
  }

  /** An exchange on a descriptor of its own returns the framed message and closes the descriptor. */
  lemma ExchangeReturnsMessage(net: Net, data: string, m: string, t: string, timeoutIsError: bool, bufSize: int, maxSize: SizeT)
    requires bufSize != 0 && AllQuiet(net.script) && |net.script| >= |data| + 1 + |m|
    requires net.incoming == m + t && WellFramed(m, maxSize)
    ensures var r := Exchange(net, data, timeoutIsError, bufSize, maxSize, true);
            && r.out == Some(m) && r.status == Done(0)
            && r.net.sent == net.sent + data && r.net.incoming == t && r.net.closes == net.closes + 1
  {
    hide *;
    SendThenPoll(net, data, |m|);
    var n := SendFrom(net, data).net;
    ExchangeUnfolds(net, data, n, timeoutIsError, bufSize, maxSize, true);
    WaitUnfolds(n, timeoutIsError, bufSize, maxSize, true);
    ReceiveQuiet(n.Pop(), m, t, timeoutIsError, bufSize, maxSize);
    ReplyIsClosed(WaitThenRecv(n, timeoutIsError, bufSize, maxSize, true));
  }

  lemma ExchangeUnfolds(net: Net, data: string, n: Net, timeoutIsError: bool, bufSize: int, maxSize: SizeT, http: bool)
    requires SendFrom(net, data) == Sent(n, "", false, Done(0))
    ensures Exchange(net, data, timeoutIsError, bufSize, maxSize, http) ==
            ExchangeReply(WaitThenRecv(n, timeoutIsError, bufSize, maxSize, http))
  {
    hide SendFrom;
    hide WaitThenRecv;
    hide ExchangeReply;
  }

  lemma ReplyIsClosed(r: Reply)
    requires r.status == Done(0) && !r.closed
    ensures var e := ExchangeReply(r);
            && e.out == r.out && e.status == Done(0) && e.net.closes == r.net.closes + 1
            && e.net.sent == r.net.sent && e.net.incoming == r.net.incoming
  {
  }

  /** The requests of a session, one after the other, as long as the session stays usable. */
  function Requests(net: Net, reqs: seq<string>, maxSize: SizeT): (seq<Turn>, Net)
    decreases |reqs|
  {
    if reqs == [] then ([], net)
    else
      var t := RequestInSession(net, reqs[0], maxSize);
      if t.reply.status != Done(0) || !t.isOpen then ([t], t.reply.net)
      else
        var (ts, last) := Requests(t.reply.net, reqs[1..], maxSize);
        ([t] + ts, last)
  }

  /** The request was answered with `m` and the session can go on. */
  predicate Answered(t: Turn, m: string) {
    t.reply.out == Some(m) && t.reply.status == Done(0) && t.isOpen
  }

  function Concat(parts: seq<string>): string {
    if parts == [] then "" else parts[0] + Concat(parts[1..])
  }

  /** Successive requests on one descriptor receive successive messages: however the concatenation of
      framed messages is cut into chunks, request number i is answered by message number i, the
      session stays open, and what follows the messages is left on the stream. */
  lemma {:induction false} SessionSplitsStream(net: Net, reqs: seq<string>, msgs: seq<string>, rest: string, maxSize: SizeT)
    requires |reqs| == |msgs| && forall i | 0 <= i < |msgs| :: WellFramed(msgs[i], maxSize)
    requires net.incoming == Concat(msgs) + rest
    requires AllQuiet(net.script) && |net.script| >= |Concat(reqs)| + |reqs| + |Concat(msgs)|
    ensures var (turns, last) := Requests(net, reqs, maxSize);
            && |turns| == |msgs|
            && (forall i | 0 <= i < |msgs| :: Answered(turns[i], msgs[i]))
            && last.incoming == rest && last.sent == net.sent + Concat(reqs) && last.closes == net.closes
    decreases |reqs|
  {
    hide WellFramed;
    hide AllQuiet;
    hide RequestInSession;
    if reqs == [] {
      assert "" + rest == rest && net.sent + "" == net.sent;
    } else {
      var t := Concat(msgs[1..]) + rest;
      assert net.incoming == msgs[0] + t;
      RequestQuiet(net, reqs[0], msgs[0], t, maxSize);
      var u := RequestInSession(net, reqs[0], maxSize);
      SessionSplitsStream(u.reply.net, reqs[1..], msgs[1..], rest, maxSize);
      var (ts, last) := Requests(u.reply.net, reqs[1..], maxSize);
      assert Requests(net, reqs, maxSize) == ([u] + ts, last);
      assert net.sent + reqs[0] + Concat(reqs[1..]) == net.sent + Concat(reqs);
      AnsweredCons(u, ts, msgs);
    }
  }

  /** The turn has answered with `m` if it succeeded and left the session open; what it has returned is
      in any case the beginning of `m`. */
  predicate AnswersWith(t: Turn, m: string) {
    (t.reply.status == Done(0) && t.isOpen ==> Answered(t, m)) && (t.reply.out.Some? ==> t.reply.out.value <= m)
  }

  lemma OneAnswer(net: Net, req: string, m: string, t: string, maxSize: SizeT)
    requires net.incoming == m + t && WellFramed(m, maxSize)
    ensures var u := RequestInSession(net, req, maxSize);
            AnswersWith(u, m) && (u.reply.status == Done(0) && u.isOpen ==> u.reply.net.incoming == t)
  {
    hide RequestInSession;
    hide Exchange;
    hide SendFrom;
    hide WellFramed;
    hide AnswerEnd;
    hide HangsUp;
    FramedEnd(m, t, maxSize);
    OpenMeansComplete(net, req, maxSize);
    AnswerMissing(net, req, true, -1, maxSize, true);
    var r := RequestInSession(net, req, maxSize).reply;
    if r.out.Some? { FrontOf(r.out.value, r.net.incoming, m, t); }
  }

  lemma FrontOf(a: string, b: string, m: string, t: string)
    requires a + b == m + t && |a| <= |m|
    ensures a <= m && (|a| == |m| ==> a == m && b == t)
  {
    assert a == (a + b)[..|a|] && m == (m + t)[..|m|];
    assert b == (a + b)[|a|..] && t == (m + t)[|m|..];
  }

  /** In every environment, request number i of a session on a stream of framed messages is answered by
      message number i whenever it succeeds and leaves the session open; whatever it returns otherwise
      is the beginning of that message. */
  lemma {:induction false} SessionNeverMixesAnswers(net: Net, reqs: seq<string>, msgs: seq<string>, rest: string, maxSize: SizeT)
    requires |reqs| == |msgs| && forall i | 0 <= i < |msgs| :: WellFramed(msgs[i], maxSize)
    requires net.incoming == Concat(msgs) + rest
    ensures var turns := Requests(net, reqs, maxSize).0;
            |turns| <= |msgs| && forall i | 0 <= i < |turns| :: AnswersWith(turns[i], msgs[i])
    decreases |reqs|
  {
    hide WellFramed;
    hide RequestInSession;
    hide AnswersWith;
    if reqs != [] {
      var t := Concat(msgs[1..]) + rest;
      assert net.incoming == msgs[0] + t;
      var u := RequestInSession(net, reqs[0], maxSize);
      OneAnswer(net, reqs[0], msgs[0], t, maxSize);
      if u.reply.status == Done(0) && u.isOpen {
        SessionNeverMixesAnswers(u.reply.net, reqs[1..], msgs[1..], rest, maxSize);
        var ts := Requests(u.reply.net, reqs[1..], maxSize).0;
        assert Requests(net, reqs, maxSize).0 == [u] + ts;
        forall i | 0 <= i < |ts| + 1 ensures AnswersWith(([u] + ts)[i], msgs[i]) {
          if i > 0 { assert AnswersWith(ts[i - 1], msgs[1..][i - 1]); }
        }
      }
    }
  }

  lemma AnsweredCons(u: Turn, ts: seq<Turn>, msgs: seq<string>)
    requires msgs != [] && |ts| == |msgs| - 1 && Answered(u, msgs[0])
    requires forall i | 0 <= i < |ts| :: Answered(ts[i], msgs[1..][i])
    ensures forall i | 0 <= i < |msgs| :: Answered(([u] + ts)[i], msgs[i])
  {
    forall i | 0 < i < |msgs| ensures Answered(([u] + ts)[i], msgs[i]) {
      assert ([u] + ts)[i] == ts[i - 1] && msgs[i] == msgs[1..][i - 1];
    }
  }
}
