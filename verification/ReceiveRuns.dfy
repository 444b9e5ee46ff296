/** What holds of every run of recvAllData, whatever the environment does, and what is received when
    the environment only delivers data. */
module ReceiveRuns {
  import opened Text
  import opened MathUtils
  import opened Net
  import opened RecvController
  import opened Receive
  import opened StringBuilders
  import opened Framing

  // ---- The extent of a message under a limit

  /** How many bytes a receive takes from stream `s` under limit `og`; -1 when nothing bounds it. */
  function Extent(http: bool, s: string, og: int): int {
    OptMin(if http then StopAt(Classify(s)) else -1, og)
  }

  /** The message is refused at its end, which the limit allows to be reached. */
  predicate Rejected(http: bool, s: string, og: int) {
    http && (Classify(s).BadVersion? || Classify(s).NoLength?) && Within(Classify(s).stop, og)
  }

  /** The loop's state for the received bytes `b`. */
  ghost predicate Holding(p: Params, og: int, c: Ctl, b: string, maxLen: int) {
    if p.http then InStep(og, c, b, maxLen) else maxLen == og
  }

  /** While more is wanted, the stream extends beyond what was received, however it continues. */
  lemma WantingIsShort(p: Params, og: int, c: Ctl, b: string, maxLen: int, t: string)
    requires Holding(p, og, c, b, maxLen) && (maxLen < 0 || |b| < maxLen)
    ensures var n := Extent(p.http, b + t, og); n < 0 || n > |b|
  {
    DecidedIsFinal(b, t);
    UndecidedStopsLater(b, t);
  }

  /** A message that ends with the received bytes ends there in every continuation of the stream. */
  lemma EndIsFinal(http: bool, b: string, og: int, t: string)
    requires Extent(http, b, og) == |b|
    ensures Extent(http, b + t, og) == |b| && (Rejected(http, b + t, og) <==> Rejected(http, b, og))
  {
    DecidedIsFinal(b, t);
    UndecidedStopsLater(b, t);
  }

  // ---- Every run

  /** The three ways to return: descriptor left open, closed by this call, or found to be invalid. */
  predicate Exit(before: Net, s: Recv, ec: int) {
    if !s.closed then s.net.closes == before.closes && s.net.invalid == before.invalid && (ec == 0 || ec == 1)
    else if s.net.closes == before.closes + 1 then s.net.invalid == before.invalid && (ec == 0 || ec == -1)
    else s.net.closes == before.closes && s.net.invalid && ec == -1
  }

  ghost predicate Invariant(p: Params, og: int, before: Net, s: Recv) {
    && s.got + s.net.incoming == before.incoming
    && s.net.sent == before.sent
    && Within(|s.got|, og) && Within(|s.got|, s.maxLen)
    && match s.status
       case Running =>
         && Holding(p, og, s.ctl, s.got, s.maxLen) && WantsMore(s)
         && !s.closed && s.net.closes == before.closes && s.net.invalid == before.invalid
       case Done(ec) => Exit(before, s, ec)
  }

  lemma LimitIsKept(p: Params, og: int, c: Ctl, b: string, maxLen: int, n: nat)
    requires Holding(p, og, c, b, maxLen) && (maxLen < 0 || |b| < maxLen) && Within(n, maxLen)
    ensures Within(n, og)
  {
    hide Classify;
  }

  lemma StoppedAtLimit(p: Params, og: int, c: Ctl, b: string, maxLen: int)
    requires Holding(p, og, c, b, maxLen) && maxLen == |b| && Within(|b|, og)
    ensures Extent(p.http, b, og) == |b| && !Rejected(p.http, b, og)
  {
    hide Classify;
  }

  lemma RejectedAtEnd(og: int, b: string)
    requires Classify(b).BadVersion? || Classify(b).NoLength?
    requires StopAt(Classify(b)) == |b| && Within(|b|, og)
    ensures Extent(true, b, og) == |b| && Rejected(true, b, og)
  {
    hide Classify;
  }

  /** The loop's reaction to newly received bytes: it goes on, or the message has ended. */
  lemma DataKeeps(p: Params, og: int, s: Recv, b: string, x: string)
    requires s.status.Running? && !s.closed && s.got == b + x && x != ""
    requires Holding(p, og, s.ctl, b, s.maxLen) && (s.maxLen < 0 || |b| < s.maxLen) && Within(|b| + |x|, s.maxLen)
    ensures var r := AfterData(p, s);
            && r.got == s.got && r.net == s.net && !r.closed && r.cap == s.cap
            && Within(|r.got|, og) && Within(|r.got|, r.maxLen)
            && match r.status
               case Running => Holding(p, og, r.ctl, r.got, r.maxLen) && WantsMore(r)
               case Done(ec) =>
                 Extent(p.http, r.got, og) == |r.got| && ec == if Rejected(p.http, r.got, og) then 1 else 0
  {
    LimitIsKept(p, og, s.ctl, b, s.maxLen, |s.got|);
    var t := if p.http then Control(s.ctl, s.got, s.maxLen) else Turn(s.ctl, s.maxLen, Continue);
    if p.http { TurnKeepsStep(og, s.ctl, b, s.maxLen, x); }
    if t.action.Reject? {
      RejectedAtEnd(og, s.got);
    } else if !(t.maxLen < 0 || |s.got| < t.maxLen) {
      StoppedAtLimit(p, og, t.ctl, s.got, t.maxLen);
    }
  }

  lemma FirstAfterData(p: Params, og: int, s: Recv)
    requires s.ctl.version == 0 && s.ctl.phase == 0 && |s.got| == 0 && s.maxLen == og
    requires s.status.Running? && !s.closed
    ensures var r := AfterData(p, s);
            && Invariant(p, og, s.net.(incoming := s.got + s.net.incoming), r)
            && r.got == s.got && r.net == s.net && r.cap == s.cap && !r.closed
            && (r.status.Done? ==> og == 0 && r.status.ec == 0)
  {
    FirstCall(og, s.ctl, s.got);
  }

  lemma StartIsGood(p: Params, og: int, net: Net, cap: nat)
    ensures var s := Start(p, net, cap, og);
            && Invariant(p, og, net, s) && s.got == "" && s.net == net && s.cap == CapFor(cap, p.minCap) && !s.closed
            && (s.status.Done? ==> og == 0 && s.status.ec == 0)
  {
    hide AfterData;
    hide Invariant;
    FirstAfterData(p, og, Recv(net, ZEROED, og, "", CapFor(cap, p.minCap), false, Running));
    assert "" + net.incoming == net.incoming;
  }

  lemma TransferIsGood(p: Params, og: int, before: Net, s: Recv, count: nat)
    requires p.minCap >= 1 && s.status.Running? && s.cap >= p.initialLen + |s.got|
    requires Invariant(p, og, before, s)
    ensures var r := Transfer(p, s, count);
            && Invariant(p, og, before, r) && r.cap >= p.initialLen + |r.got|
            && (!r.closed ==> |r.got| > |s.got|)
            && (r.status.Running? ==> !r.closed)
            && (r.status.Done? && !r.closed ==>
                  && Extent(p.http, r.got, og) == |r.got|
                  && r.status.ec == if Rejected(p.http, r.got, og) then 1 else 0)
            && (r.closed ==> r.got == s.got && r.status == Done(0) && (count == 0 || s.net.incoming == ""))
  {
    var cap := RoomFor(p, s.cap, |s.got|);
    RoomIsEnough(p, s.cap, |s.got|);
    var want := Want(p, cap, |s.got|, s.maxLen);
    assert 1 <= want <= cap - (p.initialLen + |s.got|);
    var k := Min(Min(count, want), |s.net.incoming|);
    if k > 0 {
      var x := s.net.incoming[..k];
      var s1 := s.(cap := cap, got := s.got + x, net := s.net.(incoming := s.net.incoming[k..]));
      assert s1.got + s1.net.incoming == s.got + s.net.incoming;
      DataKeeps(p, og, s1, s.got, x);
    }
  }

  lemma RoomIsEnough(p: Params, cap: nat, n: nat)
    requires p.minCap >= 1 && cap >= p.initialLen + n
    ensures RoomFor(p, cap, n) >= p.initialLen + n + p.minCap
  {
    GrownCapIsLeastPowerOfTwo(p.minCap + p.initialLen + n, 6);
  }

  /** Where more is wanted, `recv` is asked for a count that is not positive, and so for a huge one,
      exactly when the minimum capacity is zero and the buffer is full. */
  lemma NoRoomOnlyWithoutMinCap(p: Params, cap: nat, n: nat, maxLen: int)
    requires cap >= p.initialLen + n && (maxLen < 0 || n < maxLen)
    ensures Want(p, RoomFor(p, cap, n), n, maxLen) <= 0 <==> p.minCap == 0 && cap == p.initialLen + n
  {
    if p.minCap > 0 { RoomIsEnough(p, cap, n); }
  }

  lemma StepIsGood(p: Params, og: int, before: Net, s: Recv)
    requires p.minCap >= 1 && s.status.Running? && s.net.script != [] && s.cap >= p.initialLen + |s.got|
    requires Invariant(p, og, before, s)
    ensures Invariant(p, og, before, Step(p, s)) && Step(p, s).cap >= p.initialLen + |Step(p, s).got|
  {
    hide Transfer;
    hide Holding;
    var s1 := s.(net := s.net.Pop());
    if s.net.script[0].PollReady? {
      TransferIsGood(p, og, before, s1, s.net.script[0].count);
    }
  }

  lemma {:induction false} RunIsGood(p: Params, og: int, before: Net, s: Recv)
    requires p.minCap >= 1 && s.cap >= p.initialLen + |s.got| && Invariant(p, og, before, s)
    ensures Invariant(p, og, before, Run(p, s))
    ensures Run(p, s).status.Running? ==> Run(p, s).net.script == []
    decreases |s.net.script|
  {
    if s.status.Running? && s.net.script != [] {
      StepIsGood(p, og, before, s);
      StepPops(p, s);
      RunIsGood(p, og, before, Step(p, s));
    }
  }

  /** Bytes received before the message ended are never enough of it. */
  lemma RunningIsShort(p: Params, og: int, before: Net, s: Recv)
    requires Invariant(p, og, before, s) && s.status.Running?
    ensures var n := Extent(p.http, before.incoming, og); n < 0 || n > |s.got|
  {
    WantingIsShort(p, og, s.ctl, s.got, s.maxLen, s.net.incoming);
  }

  /** A step that ends the call has received nothing, or the end of the message. */
  lemma LastStep(p: Params, og: int, before: Net, s: Recv)
    requires p.minCap >= 1 && s.status.Running? && s.net.script != [] && s.cap >= p.initialLen + |s.got|
    requires Invariant(p, og, before, s) && Step(p, s).status.Done?
    ensures Step(p, s).got == s.got || Extent(p.http, before.incoming, og) == |Step(p, s).got|
  {
    hide Transfer;
    hide Holding;
    hide Extent;
    var s1, r := s.(net := s.net.Pop()), Step(p, s);
    StepIsGood(p, og, before, s);
    if s.net.script[0].PollReady? && r.got != s.got {
      TransferIsGood(p, og, before, s1, s.net.script[0].count);
      EndIsFinal(p.http, r.got, og, r.net.incoming);
    }
  }

  lemma {:induction false} RunStaysInside(p: Params, og: int, before: Net, s: Recv)
    requires p.minCap >= 1 && s.cap >= p.initialLen + |s.got| && Invariant(p, og, before, s) && s.status.Running?
    ensures Within(|Run(p, s).got|, Extent(p.http, before.incoming, og))
    decreases |s.net.script|
  {
    hide Step;
    hide Invariant;
    hide Extent;
    RunningIsShort(p, og, before, s);
    if s.net.script != [] {
      StepIsGood(p, og, before, s);
      StepPops(p, s);
      if Step(p, s).status.Running? {
        RunStaysInside(p, og, before, Step(p, s));
      } else {
        LastStep(p, og, before, s);
      }
    }
  }

  /** For every stream and every behaviour of the environment: the bytes received are a prefix of the
      stream and the rest of the stream is still to come; no byte behind the message is taken; neither
      the caller's limit nor the controller's is ever exceeded, so the check for that at the end never
      fires; nothing is sent; and the call returns in one of the three ways. */
  lemma ReceiveSafety(p: Params, net: Net, cap: nat, og: int)
    requires p.minCap >= 1 && cap >= p.initialLen
    ensures var r := Run(p, Start(p, net, cap, og));
            && r.got + r.net.incoming == net.incoming && r.net.sent == net.sent
            && Within(|r.got|, Extent(p.http, net.incoming, og))
            && Within(|r.got|, og) && Within(|r.got|, r.maxLen)
            && match r.status
               case Running =>
                 r.net.script == [] && !r.closed && r.net.closes == net.closes && r.net.invalid == net.invalid
               case Done(ec) => Exit(net, r, ec)
  {
    hide Start;
    hide Run;
    hide Holding;
    hide Extent;
    StartIsGood(p, og, net, cap);
    CapForAtLeast(cap, p.minCap);
    var s := Start(p, net, cap, og);
    RunIsGood(p, og, net, s);
    if s.status.Running? { RunStaysInside(p, og, net, s); } else { RunOfDone(p, s); }
  }

  lemma RunOfDone(p: Params, s: Recv)
    ensures s.status.Done? ==> Run(p, s) == s
  {
    hide Step;
  }

  /** A call returns before its first poll, with nothing received, exactly when the limit is zero. */
  lemma ZeroLimitReceivesNothing(p: Params, net: Net, cap: nat, og: int)
    ensures Start(p, net, cap, og).status.Done? <==> og == 0
    ensures og == 0 ==> var r := Run(p, Start(p, net, cap, 0)); r.status == Done(0) && r.got == "" && r.net == net
  {
    hide Run;
    hide Start;
    hide Extent;
    hide Invariant;
    StartIsGood(p, og, net, cap);
    var s := Start(p, net, cap, og);
    if og == 0 {
      NothingWanted(p.http, net.incoming);
      if s.status.Running? { RunningIsShort(p, og, net, s); }
      RunOfDone(p, s);
    }
  }

  /** In every run under the controller: between two reads it is in one of the phases that handle the
      first line, the header, or nothing more, never in the two that handle a header that was
      incomplete when its length was read; and while it reads the header, no end of the header has
      been received. */
  lemma ReachablePhases(p: Params, net: Net, cap: nat, og: int)
    requires p.http && p.minCap >= 1 && cap >= p.initialLen
    ensures var r := Run(p, Start(p, net, cap, og));
            r.status.Running? ==>
              && r.ctl.Key() in {1, 92, 102, 112, 110 + LAST_PHASE}
              && (r.ctl.Key() == 1 ==> Find(r.got, CRLF).None?)
              && (r.ctl.Key() == 112 ==> Find(r.got, END_OF_HEADER).None? && r.maxLen == |r.got| + 1)
  {
    hide Run;
    hide Start;
    hide Classify;
    StartIsGood(p, og, net, cap);
    CapForAtLeast(cap, p.minCap);
    RunIsGood(p, og, net, Start(p, net, cap, og));
    var r := Run(p, Start(p, net, cap, og));
    if r.status.Running? {
      ClassifyUnfolds(r.got);
      ClassifyHeaderUnfolds(r.got);
    }
  }

  lemma CapForAtLeast(cap: nat, n: nat)
    ensures CapFor(cap, n) >= cap && CapFor(cap, n) >= n
  {
    if cap < n { GrownCapIsLeastPowerOfTwo(n, 6); }
  }

  // ---- Runs in which data is all that happens

  /** The descriptor is readable and `recv` may deliver at least one byte. */
  predicate IsData(e: Event) {
    e.PollReady? && !e.err && e.io && (e.hup || !e.nval) && e.count >= 1
  }

  predicate IsSuffix(t: seq<Event>, s: seq<Event>) {
    |t| <= |s| && t == s[|s| - |t|..]
  }

  predicate AllData(script: seq<Event>) {
    forall i | 0 <= i < |script| :: IsData(script[i])
  }

  /** The result of a call on stream `s` that saw nothing but data: the message, or, when the stream
      ends before the message does, the whole stream. */
  predicate Outcome(http: bool, og: int, before: Net, r: Recv) {
    var s, n := before.incoming, Extent(http, before.incoming, og);
    if 0 <= n <= |s| then
      && r.got == s[..n] && r.net.incoming == s[n..]
      && r.status == Done(if Rejected(http, s, og) then 1 else 0)
      && !r.closed && r.net.closes == before.closes
    else
      && r.got == s && r.net.incoming == "" && r.status == Done(0)
      && r.closed && r.net.closes == before.closes + 1
  }

  lemma DataStep(p: Params, og: int, before: Net, s: Recv)
    requires p.minCap >= 1 && s.status.Running? && s.net.script != [] && IsData(s.net.script[0])
    requires Invariant(p, og, before, s) && s.cap >= p.initialLen + |s.got|
    ensures var r := Step(p, s);
            && (r.status.Done? ==> Outcome(p.http, og, before, r))
            && (r.status.Running? || !r.closed ==> |r.got| > |s.got|)
  {
    var s1 := s.(net := s.net.Pop());
    var r := Step(p, s);
    assert r == Transfer(p, s1, s.net.script[0].count);
    TransferIsGood(p, og, before, s1, s.net.script[0].count);
    if r.status.Done? {
      if r.closed {
        RunningIsShort(p, og, before, s);
        assert s.got == before.incoming by { assert s.got + "" == s.got; }
      } else {
        EndIsFinal(p.http, r.got, og, r.net.incoming);
        assert before.incoming[..|r.got|] == r.got && before.incoming[|r.got|..] == r.net.incoming;
      }
    }
  }

  lemma {:induction false} DataRun(p: Params, og: int, before: Net, s: Recv)
    requires p.minCap >= 1 && s.cap >= p.initialLen + |s.got| && Invariant(p, og, before, s)
    requires s.status.Running? && AllData(s.net.script)
    ensures var r := Run(p, s);
            && (r.status.Done? ==> Outcome(p.http, og, before, r))
            && (r.status.Running? ==> |r.got| >= |s.got| + |s.net.script|)
            && (r.status.Done? && !r.closed ==> |s.net.script| - |r.net.script| <= |r.got| - |s.got|)
            && IsSuffix(r.net.script, s.net.script)
    decreases |s.net.script|
  {
    if s.net.script != [] {
      var r := Step(p, s);
      StepIsGood(p, og, before, s);
      StepPops(p, s);
      assert AllData(r.net.script) && IsData(s.net.script[0]);
      DataStep(p, og, before, s);
      if r.status.Running? {
        DataRun(p, og, before, r);
      }
    }
  }

  /** Framing is exact and independent of how the bytes arrive: whatever the sizes of the chunks, a call
      that sees nothing but data receives precisely the message, and returns once the script is long
      enough to have delivered it byte by byte. */
  lemma FramingExact(p: Params, net: Net, cap: nat, og: int)
    requires p.minCap >= 1 && cap >= p.initialLen && AllData(net.script)
    ensures var r, n := Run(p, Start(p, net, cap, og)), Extent(p.http, net.incoming, og);
            && (r.status.Done? ==> Outcome(p.http, og, net, r))
            && (0 <= n <= |net.incoming| && |net.script| >= n ==> r.status.Done?)
            && (|net.script| > |net.incoming| ==> r.status.Done?)
            && (r.status.Done? && !r.closed ==> |net.script| - |r.net.script| <= |r.got|)
            && IsSuffix(r.net.script, net.script)
  {
    hide Start;
    hide Run;
    hide Extent;
    hide Invariant;
    hide Outcome;
    hide IsSuffix;
    StartIsGood(p, og, net, cap);
    CapForAtLeast(cap, p.minCap);
    var s := Start(p, net, cap, og);
    if s.status.Done? {
      RunOfDone(p, s);
      NothingTaken(p.http, og, net, s);
      WholeIsSuffix(net.script);
    } else {
      DataRun(p, og, net, s);
      RunIsGood(p, og, net, s);
      var r := Run(p, s);
      if r.status.Running? { StillRunning(p, og, net, r); }
    }
  }

  /** A call that is still running has received less than the message. */
  lemma StillRunning(p: Params, og: int, before: Net, r: Recv)
    requires Invariant(p, og, before, r) && r.status.Running?
    ensures |r.got| <= |before.incoming|
    ensures var n := Extent(p.http, before.incoming, og); n < 0 || n > |r.got|
  {
    RunningIsShort(p, og, before, r);
  }

  lemma NothingTaken(http: bool, og: int, net: Net, s: Recv)
    requires og == 0 && s.got == "" && s.net == net && s.status == Done(0) && !s.closed
    ensures Outcome(http, og, net, s) && Extent(http, net.incoming, og) == 0
  {
    NothingWanted(http, net.incoming);
    assert s.got == net.incoming[..0] && s.net.incoming == net.incoming[0..];
  }

  lemma WholeIsSuffix(s: seq<Event>)
    ensures IsSuffix(s, s)
  {
  }

  /** Under a limit of zero nothing is received and nothing is refused. */
  lemma NothingWanted(http: bool, s: string)
    ensures Extent(http, s, 0) == 0 && !Rejected(http, s, 0)
  {
    UndecidedStopsLater("", s);
    assert "" + s == s;
  }

  /** The call returned `ec`, with the first `n` bytes of `s`, left the rest, and did not close. */
  predicate Took(r: Recv, s: string, n: int, ec: int) {
    0 <= n <= |s| && r.got == s[..n] && r.net.incoming == s[n..] && r.status == Done(ec) && !r.closed
  }

  /** What a call that ended in `r` has made of a message on stream `s` that has no usable length, under any
      limit `og`: a header without a length is refused at its end; one whose length is not a number counts
      as a message without a body; and before HTTP/1.1 everything up to the close, or to the limit,
      belongs to the message. */
  predicate OtherEnds(s: string, og: int, r: Recv) {
    match Classify(s)
    case NoLength(h) => h <= |s| ==> if Within(h, og) then Took(r, s, h, 1) else Took(r, s, og, 0)
    case BadVersion(h) => h <= |s| ==> if Within(h, og) then Took(r, s, h, 1) else Took(r, s, og, 0)
    case BadLength(h) => h <= |s| ==> Took(r, s, OptMin(h, og), 0)
    case UntilClose =>
      if Within(|s|, og) && og != |s| then r.got == s && r.status == Done(0) && r.closed
      else Took(r, s, og, 0)
    case _ => true
  }

  lemma OtherOutcome(og: int, net: Net, r: Recv)
    requires Outcome(true, og, net, r)
    ensures OtherEnds(net.incoming, og, r)
  {
    hide Classify;
  }

  /** When only data arrives, messages without a usable length end like that. */
  lemma OtherFramings(p: Params, net: Net, cap: nat, og: int)
    requires p.http && p.minCap >= 1 && cap >= p.initialLen && AllData(net.script) && |net.script| > |net.incoming|
    ensures OtherEnds(net.incoming, og, Run(p, Start(p, net, cap, og)))
  {
    hide *;
    FramingExact(p, net, cap, og);
    OtherOutcome(og, net, Run(p, Start(p, net, cap, og)));
  }

  lemma OutcomeIsUnique(http: bool, og: int, before: Net, before': Net, r: Recv, r': Recv)
    requires before.incoming == before'.incoming
    requires Outcome(http, og, before, r) && Outcome(http, og, before', r')
    ensures r.got == r'.got && r.status == r'.status && r.closed == r'.closed && r.net.incoming == r'.net.incoming
  {
    hide Extent;
    hide Rejected;
  }

  /** Two calls on the same stream, with different chunks and buffers, receive the same. */
  lemma ChunkingDoesNotMatter(p: Params, net: Net, cap: nat, q: Params, net': Net, cap': nat, og: int)
    requires p.minCap >= 1 && cap >= p.initialLen && AllData(net.script)
    requires q.minCap >= 1 && cap' >= q.initialLen && AllData(net'.script)
    requires net.incoming == net'.incoming && p.http == q.http
    ensures var r, r' := Run(p, Start(p, net, cap, og)), Run(q, Start(q, net', cap', og));
            r.status.Done? && r'.status.Done? ==>
              r.got == r'.got && r.status == r'.status && r.closed == r'.closed && r.net.incoming == r'.net.incoming
  {
    hide *;
    FramingExact(p, net, cap, og);
    FramingExact(q, net', cap', og);
    var r, r' := Run(p, Start(p, net, cap, og)), Run(q, Start(q, net', cap', og));
    if r.status.Done? && r'.status.Done? {
      OutcomeIsUnique(p.http, og, net, net', r, r');
    }
  }
}
