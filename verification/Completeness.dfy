/** lib/utils.c, recvAllData: when a receive that reports success has received the whole message. */
module Completeness {
  import opened Text
  import opened MathUtils
  import opened Net
  import opened HttpSyntax
  import opened RecvController
  import opened Receive
  import opened Framing
  import opened ReceiveRuns
  import opened ContentLength

  // ---- Every environment

  /** What the end of a call says about what it has received, when the message is bounded by `n`. */
  predicate EndTells(p: Params, n: int, script: seq<Event>, r: Recv) {
    && (EndsInTimeout(script, r.net.script) ==> r.status == Done(if p.timeoutIsError then 1 else 0))
    && (r.status == Done(0) ==> (n == |r.got| <==> !r.closed && !EndsInTimeout(script, r.net.script)))
  }

  /** The step that ends a call ends the message, if it is not a close, a failure or a timeout. */
  lemma LastStepTells(p: Params, og: int, before: Net, s: Recv)
    requires p.minCap >= 1 && s.status.Running? && s.net.script != [] && s.cap >= p.initialLen + |s.got|
    requires Invariant(p, og, before, s) && Step(p, s).status.Done?
    ensures EndTells(p, Extent(p.http, before.incoming, og), s.net.script, Step(p, s))
  {
    hide Transfer;
    hide Extent;
    hide Holding;
    var s1, r := s.(net := s.net.Pop()), Step(p, s);
    StepPops(p, s);
    RunningIsShort(p, og, before, s);
    StepIsGood(p, og, before, s);
    if s.net.script[0].PollReady? {
      TransferIsGood(p, og, before, s1, s.net.script[0].count);
      if !r.closed { EndIsFinal(p.http, r.got, og, r.net.incoming); }
    }
  }

  lemma SameEnd(script: seq<Event>, after: seq<Event>)
    requires script != [] && |after| < |script| && (|after| == |script| - 1 ==> !script[0].PollTimedOut?)
    ensures EndsInTimeout(script, after) <==> EndsInTimeout(script[1..], after)
  {
  }

  lemma {:induction false} RunTells(p: Params, og: int, before: Net, s: Recv)
    requires p.minCap >= 1 && s.cap >= p.initialLen + |s.got| && Invariant(p, og, before, s) && s.status.Running?
    ensures EndTells(p, Extent(p.http, before.incoming, og), s.net.script, Run(p, s))
    ensures |Run(p, s).net.script| <= |s.net.script|
    decreases |s.net.script|
  {
    hide Extent;
    hide Holding;
    if s.net.script != [] {
      StepIsGood(p, og, before, s);
      StepPops(p, s);
      if Step(p, s).status.Running? {
        TimeoutEnds(p, s);
        RunTells(p, og, before, Step(p, s));
        SameEnd(s.net.script, Run(p, s).net.script);
      } else {
        LastStepTells(p, og, before, s);
      }
    }
  }

  lemma TimeoutEnds(p: Params, s: Recv)
    requires s.net.script != []
    ensures s.net.script[0].PollTimedOut? ==> Step(p, s).status.Done?
  {
    hide Transfer;
  }

  /** In every environment: a poll that times out ends the call, with an error or without one as the
      caller has asked; and a call that reports success has received everything up to the end of the
      message, or to the limit, exactly when it has not closed the descriptor and its last poll did
      not time out. */
  lemma SuccessIsComplete(p: Params, net: Net, cap: nat, og: int)
    requires p.minCap >= 1 && cap >= p.initialLen
    ensures EndTells(p, Extent(p.http, net.incoming, og), net.script, Run(p, Start(p, net, cap, og)))
    ensures |Run(p, Start(p, net, cap, og)).net.script| <= |net.script|
  {
    hide Run;
    hide Start;
    hide Extent;
    hide Invariant;
    StartIsGood(p, og, net, cap);
    CapForAtLeast(cap, p.minCap);
    var s := Start(p, net, cap, og);
    if s.status.Running? {
      RunTells(p, og, net, s);
    } else {
      RunOfDone(p, s);
      NothingWanted(p.http, net.incoming);
    }
  }

  /** The stream begins with a message of `n` bytes, header and body. */
  predicate BeginsSized(s: string, n: nat) {
    Classify(s).Sized? && StopAt(Classify(s)) == n
  }

  /** What success says about a message of `n` bytes. */
  predicate WholeTells(og: int, n: nat, script: seq<Event>, r: Recv) {
    r.status == Done(0) ==>
      (|r.got| == n <==> Within(n, og) && !r.closed && !EndsInTimeout(script, r.net.script))
  }

  lemma SizedExtent(s: string, n: nat, og: int)
    requires BeginsSized(s, n)
    ensures Extent(true, s, og) == OptMin(n, og)
  {
    hide Classify;
  }

  /** A call that reports success has received the whole of a message of known length exactly when the
      limit leaves room for it, the descriptor was not closed, and the last poll did not time out. */
  lemma SuccessIsWholeMessage(p: Params, net: Net, cap: nat, og: int, n: nat)
    requires p.http && p.minCap >= 1 && cap >= p.initialLen && BeginsSized(net.incoming, n)
    ensures WholeTells(og, n, net.script, Run(p, Start(p, net, cap, og)))
  {
    hide Run;
    hide Start;
    hide Extent;
    hide BeginsSized;
    hide EndsInTimeout;
    SuccessIsComplete(p, net, cap, og);
    ReceiveSafety(p, net, cap, og);
    SizedExtent(net.incoming, n, og);
  }

  // ---- Messages cut short

  /** One byte can be received. */
  predicate IsOneByte(e: Event) {
    IsData(e) && e.count == 1
  }

  /** The peer has closed: a hang-up, or a readable descriptor, with nothing to read. */
  predicate IsClose(e: Event) {
    e.PollReady? && !e.err && (e.hup || !e.nval)
  }

  /** `n` bytes arrive, one by one, and then the peer closes, or nothing more comes in time. */
  predicate ArrivesThenStops(script: seq<Event>, n: nat) {
    && |script| == n + 1 && (forall i | 0 <= i < n :: IsOneByte(script[i]))
    && (IsClose(script[n]) || script[n].PollTimedOut?)
  }

  /** The stream ends before the message does. */
  predicate EndsEarly(http: bool, s: string, og: int) {
    Extent(http, s, og) < 0 || Extent(http, s, og) > |s|
  }

  lemma StopStep(p: Params, s: Recv)
    requires s.status.Running? && s.net.script != [] && s.net.incoming == "" && !s.closed
    requires IsClose(s.net.script[0]) || s.net.script[0].PollTimedOut?
    requires Within(|s.got|, s.maxLen)
    ensures var r, timeout := Step(p, s), s.net.script[0].PollTimedOut?;
            && r.status == Done(if timeout && p.timeoutIsError then 1 else 0)
            && r.got == s.got && (r.closed <==> !timeout)
  {
  }

  lemma AtMostCount(p: Params, s: Recv, count: nat)
    ensures |Transfer(p, s, count).got| <= |s.got| + count
  {
    hide Control;
  }

  lemma ByteStep(p: Params, og: int, before: Net, s: Recv)
    requires p.minCap >= 1 && s.status.Running? && s.net.script != [] && IsOneByte(s.net.script[0])
    requires Invariant(p, og, before, s) && s.cap >= p.initialLen + |s.got| && s.net.incoming != ""
    requires EndsEarly(p.http, before.incoming, og)
    ensures var r := Step(p, s);
            && r.status.Running? && |r.net.incoming| == |s.net.incoming| - 1
            && Invariant(p, og, before, r) && r.cap >= p.initialLen + |r.got|
  {
    hide Transfer;
    hide Extent;
    hide Holding;
    var s1, r := s.(net := s.net.Pop()), Step(p, s);
    assert r == Transfer(p, s1, 1);
    StepIsGood(p, og, before, s);
    TransferIsGood(p, og, before, s1, 1);
    AtMostCount(p, s1, 1);
    assert |r.got + r.net.incoming| == |s.got + s.net.incoming|;
    if r.status.Done? { EndIsFinal(p.http, r.got, og, r.net.incoming); }
  }

  lemma {:induction false} RunEndsEarly(p: Params, og: int, before: Net, s: Recv)
    requires p.minCap >= 1 && s.cap >= p.initialLen + |s.got| && Invariant(p, og, before, s) && s.status.Running?
    requires EndsEarly(p.http, before.incoming, og) && ArrivesThenStops(s.net.script, |s.net.incoming|)
    ensures var r, timeout := Run(p, s), s.net.script[|s.net.incoming|].PollTimedOut?;
            && r.status == Done(if timeout && p.timeoutIsError then 1 else 0)
            && r.got == before.incoming && (r.closed <==> !timeout)
    decreases |s.net.script|
  {
    hide Extent;
    hide Holding;
    hide EndsEarly;
    var r := Step(p, s);
    StepPops(p, s);
    if s.net.incoming == "" {
      StopStep(p, s);
      assert s.got + "" == s.got;
      RunOfDone(p, r);
    } else {
      ByteStep(p, og, before, s);
      assert r.net.script[|r.net.incoming|] == s.net.script[|s.net.incoming|];
      RunEndsEarly(p, og, before, r);
    }
  }

  /** A message cut short by the peer's close, of whichever kind, is returned as a success; so is one cut
      short by a timeout that the caller does not take for an error. */
  lemma CutShortIsSuccess(p: Params, net: Net, cap: nat, og: int)
    requires p.minCap >= 1 && cap >= p.initialLen
    requires EndsEarly(p.http, net.incoming, og) && ArrivesThenStops(net.script, |net.incoming|)
    ensures var r, timeout := Run(p, Start(p, net, cap, og)), net.script[|net.incoming|].PollTimedOut?;
            && r.status == Done(if timeout && p.timeoutIsError then 1 else 0)
            && r.got == net.incoming && (r.closed <==> !timeout)
  {
    hide Run;
    hide Start;
    hide Extent;
    hide Invariant;
    hide IsOneByte;
    StartIsGood(p, og, net, cap);
    CapForAtLeast(cap, p.minCap);
    var s := Start(p, net, cap, og);
    if s.status.Done? { NothingWanted(p.http, net.incoming); } else { RunEndsEarly(p, og, net, s); }
  }

  // ---- Inputs

  /** A message that announces five bytes and brings three. */
  const TRUNCATED: string := MessageWith("", " 5", CRLF + "hel")

  function OneByOneThen(n: nat, last: Event): seq<Event> {
    seq(n, _ => PollReady(false, false, false, true, 1)) + [last]
  }

  lemma TruncatedIsSized()
    ensures |TRUNCATED| == 41 && BeginsSized(TRUNCATED, 43)
  {
    hide Classify;
    hide Squeeze;
    hide Decimal;
    OneDigit();
    EmptyLineFirst("hel");
    SizedMessage("", " 5", "5", CRLF + "hel", 0);
  }

  lemma OneByOneStops(n: nat, last: Event)
    requires IsClose(last) || last.PollTimedOut?
    ensures ArrivesThenStops(OneByOneThen(n, last), n) && OneByOneThen(n, last)[n] == last
  {
  }

  /** Two bytes of the body are missing when the peer closes, be it that `recv` returns 0 or that `poll`
      reports a hang-up: the call succeeds with what there is. */
  lemma TruncatedSucceeds(p: Params, cap: nat, hangUp: bool)
    requires p.http && p.minCap >= 1 && cap >= p.initialLen
    ensures var net := Net(OneByOneThen(41, PollReady(false, hangUp, false, !hangUp, 1)), TRUNCATED, "", 0, false);
            var r := Run(p, Start(p, net, cap, -1));
            r.status == Done(0) && r.got == TRUNCATED && r.closed
  {
    hide Run;
    hide Start;
    hide TRUNCATED;
    hide BeginsSized;
    hide Extent;
    hide OneByOneThen;
    hide ArrivesThenStops;
    TruncatedIsSized();
    SizedExtent(TRUNCATED, 43, -1);
    var last := PollReady(false, hangUp, false, !hangUp, 1);
    OneByOneStops(41, last);
    var net := Net(OneByOneThen(41, last), TRUNCATED, "", 0, false);
    CutShortIsSuccess(p, net, cap, -1);
  }
}
