/** lib/sock.c and lib/http/request_networking.c: which outcome of which poll decides what a wait, an
    exchange or a request in a session returns. */
module SockOutcomes {
  import opened Text
  import opened MathUtils
  import opened Net
  import opened Sock
  import Receive
  import opened HttpSyntax
  import opened Framing
  import opened ReceiveRuns
  import opened Completeness
  import opened SockRuns
  import opened Outcomes

  /** The event makes a wait fail: a broken descriptor, a poll that fails, or a timeout, which is always a
      failure of the first poll. */
  predicate Fails(last: Event, isFirst: bool, timeoutIsError: bool) {
    IsBroken(last) || last.PollFailed? || (last.PollTimedOut? && (isFirst || timeoutIsError))
  }

  /** The answer on `before` was received to its end, and refused there. */
  predicate IsRefused(before: Net, after: Net, http: bool, maxSize: SizeT) {
    && Refused(http, before.incoming, maxSize)
    && |before.incoming| - |after.incoming| == AnswerEnd(http, before.incoming, maxSize)
  }

  /** How a wait on `before` ends in `r`. */
  predicate WaitEnds(before: Net, timeoutIsError: bool, maxSize: SizeT, http: bool, r: Reply) {
    var taken := |before.script| - |r.net.script|;
    && r.net.sent == before.sent && (r.status.Waiting? ==> r.net.script == [] && r.out.None?)
    && (r.status.Done? ==>
          && taken > 0
          && var last, refused := LastTaken(before.script, r.net.script), IsRefused(before, r.net, http, maxSize);
             && (r.status == Done(-1) <==> IsBroken(last))
             && (r.status == Done(0) <==> !Fails(last, taken == 1, timeoutIsError) && !refused)
             && (r.status == Done(1) <==> (Fails(last, taken == 1, timeoutIsError) && !IsBroken(last)) || refused)
             && (r.out.Some? <==> r.status == Done(0) && !HangsUp(before.script))
             && (r.closed <==>
                   || IsBroken(last) || HangsUp(before.script) || (taken > 1 && IsFinished(last))
                   || (taken > 1 && LetsRead(last) &&
                       |before.incoming| - |r.net.incoming| != AnswerEnd(http, before.incoming, maxSize)))
             && r.net.closes == before.closes + (if r.closed && !IsInvalid(last) then 1 else 0)
             && r.net.invalid == (before.invalid || IsInvalid(last)))
  }

  lemma ReceiveOutcome(net: Net, timeoutIsError: bool, bufSize: int, maxSize: SizeT, http: bool)
    requires bufSize != 0 && net.script != [] && IsFirstOk(net.script[0])
    ensures WaitEnds(net, timeoutIsError, maxSize, http, WaitThenRecv(net, timeoutIsError, bufSize, maxSize, http))
  {
    hide Receive.Run;
    hide Receive.Start;
    hide ToSsize;
    hide AnswerEnd;
    hide Refused;
    hide Extent;
    hide Rejected;
    var p, size, og := RecvParams(bufSize, timeoutIsError, http), ClientBufSize(bufSize), ToSsize(maxSize);
    var n := net.Pop();
    SizeIsLimit(http, net.incoming, maxSize);
    ReplyUnfolds(n, timeoutIsError, bufSize, maxSize, http);
    ParamsAreGood(bufSize, timeoutIsError, http);
    ReceiveSafety(p, n, size, og);
    var r := Receive.Run(p, Receive.Start(p, n, size, og));
    assert |r.got| == |net.incoming| - |r.net.incoming|;
    if og == 0 {
      ZeroLimitReceivesNothing(p, n, size, og);
      NothingWanted(http, net.incoming);
    } else {
      LastEventDecides(p, n, size, og);
      if r.status.Done? { assert LastTaken(net.script, r.net.script) == LastTaken(n.script, r.net.script); }
    }
  }

  /** The first poll of a wait lets it go on. */
  predicate IsFirstOk(e: Event) {
    e.PollReady? && !e.err && !e.hup && !e.nval
  }

  /** In every environment: the first poll and then the last one decide how a wait ends. */
  lemma LastEventDecidesWait(net: Net, timeoutIsError: bool, bufSize: int, maxSize: SizeT, http: bool)
    requires bufSize != 0
    ensures WaitEnds(net, timeoutIsError, maxSize, http, WaitThenRecv(net, timeoutIsError, bufSize, maxSize, http))
  {
    hide ReceiveReply;
    hide AnswerEnd;
    hide Refused;
    if net.script != [] {
      if IsFirstOk(net.script[0]) {
        hide WaitThenRecv;
        ReceiveOutcome(net, timeoutIsError, bufSize, maxSize, http);
      } else {
        NotAtEnd(http, net.incoming, maxSize);
      }
    }
  }

  /** A refused message is not empty. */
  lemma NotAtEnd(http: bool, s: string, maxSize: SizeT)
    ensures Refused(http, s, maxSize) ==> AnswerEnd(http, s, maxSize) > 0
  {
    hide Classify;
    UndecidedStopsLater("", s);
    assert "" + s == s;
    NothingDecided();
  }

  lemma NothingDecided()
    ensures Undecided(Classify(""))
  {
    hide ParseVersion;
  }

  /** How an exchange ends whose sending has succeeded and left `before`. */
  predicate ExchangeEnds(before: Net, timeoutIsError: bool, maxSize: SizeT, http: bool, r: Reply) {
    var taken := |before.script| - |r.net.script|;
    && (r.status.Done? ==>
          && taken > 0
          && var last := LastTaken(before.script, r.net.script);
             var failed := Fails(last, taken == 1, timeoutIsError) || IsRefused(before, r.net, http, maxSize);
             && r.status == Done(if failed then 1 else 0)
             && (r.out.Some? <==> !failed && !HangsUp(before.script)))
    && r.net.sent == before.sent && (r.status.Waiting? ==> r.net.script == [] && r.out.None?)
    && (r.out.Some? ==>
          var n := AnswerEnd(http, before.incoming, maxSize);
          && r.out.value + r.net.incoming == before.incoming && Within(|r.out.value|, n)
          && (maxSize < SSIZE_BOUND ==> |r.out.value| <= maxSize)
          && (n == |r.out.value| <==> !r.closed && !EndsInTimeout(before.script, r.net.script)))
  }

  /** In every environment, a whole exchange fails exactly when its sending ends with an error, or the
      events after that make the wait fail, or the answer is refused at its end. A failed exchange
      returns nothing; what a successful one returns is complete exactly when neither the peer nor a
      timeout has cut it short. */
  lemma LastEventDecidesExchange(net: Net, data: string, timeoutIsError: bool, bufSize: int, maxSize: SizeT, http: bool)
    requires bufSize != 0
    ensures var s, r := SendFrom(net, data), Exchange(net, data, timeoutIsError, bufSize, maxSize, http);
            && SendEnds(net, net.script, data, s)
            && (if s.status == Done(0) then ExchangeEnds(s.net, timeoutIsError, maxSize, http, r)
                else r.out.None? && r.net.script == s.net.script
                     && (if s.status.Waiting? then r.status.Waiting? else r.status == Done(1)))
  {
    hide SendFrom;
    hide WaitThenRecv;
    hide AnswerEnd;
    hide Refused;
    var s := SendFrom(net, data);
    LastEventDecidesSending(net, data);
    SendSafety(net, data);
    LastEventDecidesWait(s.net, timeoutIsError, bufSize, maxSize, http);
    AnswerIsComplete(s.net, timeoutIsError, bufSize, maxSize, http);
  }

  /** In every environment, a request in a session ends as its sending does, when that fails, and otherwise
      as its wait does. */
  lemma LastEventDecidesRequest(net: Net, req: string, maxSize: SizeT)
    ensures var s, t := SendFrom(net, req), RequestInSession(net, req, maxSize);
            && SendEnds(net, net.script, req, s)
            && (if s.status == Done(0) then WaitEnds(s.net, true, maxSize, true, t.reply) && t.isOpen == !t.reply.closed
                else t.reply.status == s.status && t.reply.out.None? && t.reply.net == s.net && t.isOpen == !s.closed)
  {
    hide SendFrom;
    hide WaitThenRecv;
    hide WaitEnds;
    var s := SendFrom(net, req);
    LastEventDecidesSending(net, req);
    SendSafety(net, req);
    LastEventDecidesWait(s.net, true, -1, maxSize, true);
  }
}
