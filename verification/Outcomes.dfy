/** lib/utils.c: which outcome of which poll ends a receive or a send, and with which result. */
module Outcomes {
  import opened Text
  import opened MathUtils
  import opened Net
  import opened RecvController
  import opened Receive
  import opened Framing
  import opened ReceiveRuns
  import Sock

  type Sent = Sock.Sent

  /** The descriptor has an error, or is invalid without a hang-up that would be seen first. */
  predicate IsBroken(e: Event) {
    e.PollReady? && (e.err || (e.nval && !e.hup))
  }

  predicate IsInvalid(e: Event) {
    e.PollReady? && e.nval && !e.err && !e.hup
  }

  /** The peer has hung up and left nothing to read. */
  predicate IsFinished(e: Event) {
    e.PollReady? && !e.err && e.hup && !e.io
  }

  /** The poll is followed by a `recv`. */
  predicate LetsRead(e: Event) {
    e.PollReady? && !IsBroken(e) && !IsFinished(e)
  }

  /** How a call on `before` ends in `r` after its last event `last`, when the message it could receive
      ends at `n`, where it is refused or not. */
  predicate EndsWith(timeoutIsError: bool, n: int, refused: bool, before: Net, last: Event, r: Recv) {
    && (r.status == Done(-1) <==> IsBroken(last))
    && (r.status == Done(1) <==> last.PollFailed? || (last.PollTimedOut? && timeoutIsError) || (refused && |r.got| == n))
    && (r.status == Done(0) <==>
          || (last.PollTimedOut? && !timeoutIsError) || IsFinished(last)
          || (LetsRead(last) && !(refused && |r.got| == n)))
    && (r.closed <==> IsBroken(last) || IsFinished(last) || (LetsRead(last) && |r.got| != n))
    && r.net.closes == before.closes + (if r.closed && !IsInvalid(last) then 1 else 0)
    && r.net.invalid == (before.invalid || IsInvalid(last))
    && (LetsRead(last) && r.closed ==> last.count == 0 || r.net.incoming == "")
  }

  /** Of the events taken, all let the call read, but for the one that ended it. */
  predicate ReadsUpTo(script: seq<Event>, after: seq<Event>, done: bool) {
    && |after| + (if done then 1 else 0) <= |script|
    && forall i | 0 <= i < |script| - |after| - (if done then 1 else 0) :: LetsRead(script[i])
  }

  predicate ReceiveEnds(p: Params, og: int, before: Net, script: seq<Event>, r: Recv) {
    && ReadsUpTo(script, r.net.script, r.status.Done?)
    && (r.status.Done? ==>
          EndsWith(p.timeoutIsError, Extent(p.http, before.incoming, og), Rejected(p.http, before.incoming, og), before,
                   LastTaken(script, r.net.script), r))
    && (r.status.Running? ==> r.net.script == [])
  }

  lemma OneStep(p: Params, og: int, before: Net, s: Recv)
    requires p.minCap >= 1 && s.status.Running? && s.net.script != [] && s.cap >= p.initialLen + |s.got|
    requires Invariant(p, og, before, s)
    ensures var r := Step(p, s);
            if r.status.Running? then LetsRead(s.net.script[0])
            else EndsWith(p.timeoutIsError, Extent(p.http, before.incoming, og), Rejected(p.http, before.incoming, og),
                          before, s.net.script[0], r)
  {
    hide Transfer;
    hide Extent;
    hide Rejected;
    hide Holding;
    var s1, r := s.(net := s.net.Pop()), Step(p, s);
    StepPops(p, s);
    RunningIsShort(p, og, before, s);
    StepIsGood(p, og, before, s);
    if s.net.script[0].PollReady? {
      TransferIsGood(p, og, before, s1, s.net.script[0].count);
      if !r.closed && r.status.Done? { EndIsFinal(p.http, r.got, og, r.net.incoming); }
    }
  }

  lemma {:induction false} RunEnds(p: Params, og: int, before: Net, s: Recv)
    requires p.minCap >= 1 && s.cap >= p.initialLen + |s.got| && Invariant(p, og, before, s) && s.status.Running?
    ensures ReceiveEnds(p, og, before, s.net.script, Run(p, s))
    decreases |s.net.script|
  {
    hide Invariant;
    hide EndsWith;
    hide LetsRead;
    hide Step;
    if s.net.script != [] {
      StepIsGood(p, og, before, s);
      StepPops(p, s);
      OneStep(p, og, before, s);
      if Step(p, s).status.Running? {
        RunEnds(p, og, before, Step(p, s));
      } else {
        RunOfDone(p, Step(p, s));
      }
    }
  }

  /** In every environment, and for every limit but zero: the call goes on as long as its polls let it
      read, and the last one decides how it ends. */
  lemma LastEventDecides(p: Params, net: Net, cap: nat, og: int)
    requires p.minCap >= 1 && cap >= p.initialLen && og != 0
    ensures ReceiveEnds(p, og, net, net.script, Run(p, Start(p, net, cap, og)))
  {
    hide Run;
    hide Start;
    hide Invariant;
    StartIsGood(p, og, net, cap);
    CapForAtLeast(cap, p.minCap);
    RunEnds(p, og, net, Start(p, net, cap, og));
  }

  // ---- Sending

  /** The poll is followed by a `send`. */
  predicate LetsWrite(e: Event) {
    e.PollReady? && !e.err && !e.hup && !e.nval
  }

  /** How sending ends in `r` after its last event `last`. */
  predicate SendEndsWith(before: Net, last: Event, r: Sent) {
    && (r.status == Sock.Done(-1) <==> last.PollReady? && (last.err || last.hup || last.nval))
    && (r.status == Sock.Done(1) <==> last.PollFailed?)
    && (r.status == Sock.Done(0) <==> last.PollTimedOut? || LetsWrite(last))
    && (r.closed <==> r.status == Sock.Done(-1))
    && r.net.closes == before.closes + (if r.closed && !IsInvalid(last) then 1 else 0)
    && r.net.invalid == (before.invalid || IsInvalid(last))
    && (LetsWrite(last) ==> r.left == "") && (!LetsWrite(last) ==> r.left != "")
  }

  /** Without data no event is taken. Otherwise all events let the call write, but for one that ends it
      before all is sent. */
  predicate SendEnds(before: Net, script: seq<Event>, data: string, r: Sent) {
    var taken := |script| - |r.net.script|;
    && 0 <= taken && (r.status.Waiting? ==> r.net.script == [])
    && (taken == 0 && r.status.Done? <==> data == "")
    && (data == "" ==> r == Sock.Sent(before, "", false, Sock.Done(0)))
    && (forall i | 0 <= i < taken - (if r.status.Done? then 1 else 0) :: LetsWrite(script[i]))
    && (r.status.Done? && data != "" ==> SendEndsWith(before, LastTaken(script, r.net.script), r))
  }

  lemma {:induction false} LastEventDecidesSending(net: Net, data: string)
    ensures SendEnds(net, net.script, data, Sock.SendFrom(net, data))
    decreases |net.script|
  {
    hide SendEndsWith;
    if data != "" && net.script != [] {
      var k := if LetsWrite(net.script[0]) then Min(net.script[0].count, |data|) else 0;
      var n := net.Pop().(sent := net.sent + data[..k]);
      if LetsWrite(net.script[0]) && k < |data| {
        LastEventDecidesSending(n, data[k..]);
        SendEndsAlike(n, net, Sock.SendFrom(n, data[k..]));
      } else {
        SendStops(net, data);
      }
    }
  }

  lemma SendStops(net: Net, data: string)
    requires data != "" && net.script != []
    requires LetsWrite(net.script[0]) ==> |data| <= net.script[0].count
    ensures var r := Sock.SendFrom(net, data);
            r.net.script == net.script[1..] && r.status.Done? && SendEndsWith(net, net.script[0], r)
  {
    if LetsWrite(net.script[0]) {
      assert data[|data|..] == "" && Min(net.script[0].count, |data|) == |data|;
    }
  }

  lemma SendEndsAlike(n: Net, net: Net, r: Sent)
    requires n.closes == net.closes && n.invalid == net.invalid
    ensures forall e: Event :: SendEndsWith(n, e, r) <==> SendEndsWith(net, e, r)
  {
  }
}
