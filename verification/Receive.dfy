/** lib/utils.c, recvAllData: receiving under a limit that the controller may move. */
module Receive {
  import opened Text
  import opened MathUtils
  import opened Net
  import opened RecvController
  import opened StringBuilders

  const DEFAULT_MIN_CAP: nat := 1024

  /** The fixed arguments of one call. */
  datatype Params = Params(http: bool, timeoutIsError: bool, minCap: nat, initialLen: nat)

  datatype Status = Running | Done(ec: int)

  /** The state between two iterations: `got` is what this call has received, `cap` the capacity of
      the builder, `closed` the out-flag. */
  datatype Recv = Recv(net: Net, ctl: Ctl, maxLen: int, got: string, cap: nat, closed: bool, status: Status)

  /** The exit of the function, where a result is turned into an error if too much was received. */
  function Finish(s: Recv, ec: int): Recv {
    s.(status := Done(if s.maxLen >= 0 && |s.got| > s.maxLen then 1 else ec))
  }

  predicate WantsMore(s: Recv) {
    s.maxLen < 0 || |s.got| < s.maxLen
  }

  /** The call of the controller after every change to the received data, and the loop condition. */
  function AfterData(p: Params, s: Recv): Recv {
    var t := if p.http then Control(s.ctl, s.got, s.maxLen) else Turn(s.ctl, s.maxLen, Continue);
    var s1 := s.(ctl := t.ctl, maxLen := t.maxLen);
    match t.action
    case Reject => Finish(s1, 1)
    case Finished => Finish(s1, 0)
    case Continue => if WantsMore(s1) then s1 else Finish(s1, 0)
  }

  function MinCap(sbMinCap: int): nat {
    if sbMinCap < 0 then DEFAULT_MIN_CAP else sbMinCap
  }

  function Start(p: Params, net: Net, cap: nat, maxLen: int): Recv {
    AfterData(p, Recv(net, ZEROED, maxLen, "", CapFor(cap, p.minCap), false, Running))
  }

  /** The capacity once room is made for at least `minCap` bytes after the `n` received so far. */
  function RoomFor(p: Params, cap: nat, n: nat): nat {
    if cap - (p.initialLen + n) < p.minCap then CapFor(cap, p.minCap + p.initialLen + n) else cap
  }

  /** How many bytes `recv` is asked for. */
  function Want(p: Params, cap: nat, n: nat, maxLen: int): int {
    OptMin(cap - (p.initialLen + n), maxLen - n)
  }

  /** It is the largest count that fits the buffer and respects the limit. */
  lemma WantIsLargest(p: Params, cap: nat, n: nat, maxLen: int, x: nat)
    requires cap >= p.initialLen + n && (maxLen < 0 || n < maxLen)
    ensures x <= Want(p, cap, n, maxLen) <==> p.initialLen + n + x <= cap && Within(n + x, maxLen)
  {
  }

  function CloseNow(s: Recv, ec: int): Recv {
    Finish(s.(net := s.net.(closes := s.net.closes + 1), closed := true), ec)
  }

  function Transfer(p: Params, s: Recv, count: nat): Recv {
    var cap := RoomFor(p, s.cap, |s.got|);
    var want := Want(p, cap, |s.got|, s.maxLen);
    var k := Min(Min(count, if want < 0 then 0 else want), |s.net.incoming|);
    var s1 := s.(cap := cap);
    if k == 0 then CloseNow(s1, 0)
    else AfterData(p, s1.(got := s.got + s.net.incoming[..k], net := s.net.(incoming := s.net.incoming[k..])))
  }

  /** One iteration of the loop. */
  function Step(p: Params, s0: Recv): Recv
    requires s0.net.script != []
  {
    var e, s := s0.net.script[0], s0.(net := s0.net.Pop());
    match e
    case PollFailed => Finish(s, 1)
    case PollTimedOut => Finish(s, if p.timeoutIsError then 1 else 0)
    case PollReady(err, hup, nval, io, count) =>
      if err then CloseNow(s, -1)
      else if hup && !io then CloseNow(s, 0)
      else if !hup && nval then Finish(s.(net := s.net.(invalid := true), closed := true), -1)
      else Transfer(p, s, count)
  }

  /** The loop, until it is done or waits for an event beyond the script. */
  function Run(p: Params, s: Recv): Recv
    decreases |s.net.script|
  {
    if s.status.Done? || s.net.script == [] then s
    else
      StepPops(p, s);
      Run(p, Step(p, s))
  }

  lemma StepPops(p: Params, s: Recv)
    requires s.net.script != []
    ensures Step(p, s).net.script == s.net.script[1..]
  {
  }

  // ---- The program

  /** The abstract state of a call in progress: what it received lies behind the first `initialLen`
      bytes of the builder. */
  ghost function Now(p: Params, sock: Socket, state: ControllerState, builder: StringBuilder, maxLen: int,
                     closed: bool, status: Status): Recv
    reads sock, state, builder, builder.data
    requires builder.Valid() && p.initialLen <= builder.len
  {
    Recv(sock.View(), state.View(), maxLen, builder.Contents()[p.initialLen..], builder.cap, closed, status)
  }

  method FinishOf(maxLen: int, bytesReceived: nat, ecIn: int) returns (ec: int)
    ensures ec == if maxLen >= 0 && bytesReceived > maxLen then 1 else ecIn
  {
    ec := ecIn;
    if maxLen >= 0 && bytesReceived > maxLen {
      ec := 1;
    }
  }

  method AfterDataOf(p: Params, ghost sock: Socket, state: ControllerState, builder: StringBuilder, maxLenIn: int,
                     bytesReceived: nat, ghost closed: bool)
    returns (maxLen: int, done: bool, ec: int)
    requires builder.Valid() && builder.len == p.initialLen + bytesReceived
    modifies state
    ensures Now(p, sock, state, builder, maxLen, closed, if done then Done(ec) else Running) ==
            AfterData(p, old(Now(p, sock, state, builder, maxLenIn, closed, Running)))
    ensures !done ==> maxLen < 0 || bytesReceived < maxLen
  {
    hide Control;
    maxLen, ec := maxLenIn, 0;
    var action := Continue;
    if p.http {
      assert builder.data[p.initialLen..p.initialLen + bytesReceived] == builder.Contents()[p.initialLen..];
      maxLen, action := state.HttpReceiveController(builder.data, p.initialLen, bytesReceived, maxLen);
    }
    match action {
      case Reject => done, ec := true, 1;
      case Finished => done := true;
      case Continue => done := !(maxLen < 0 || bytesReceived < maxLen);
    }
    if done {
      ec := FinishOf(maxLen, bytesReceived, ec);
    }
  }

  /** Makes room and receives once. Returns the number of bytes received, 0 when the peer has closed. */
  method Fill(p: Params, sock: Socket, builder: StringBuilder, maxLen: int, bytesReceived: nat, count: nat)
    returns (n: nat)
    requires builder.Valid() && builder.len == p.initialLen + bytesReceived && (p.minCap >= 1 || builder.len < builder.cap)
    requires maxLen < 0 || bytesReceived < maxLen
    modifies sock`incoming, builder, builder.data
    ensures builder.Valid() && (builder.data == old(builder.data) || fresh(builder.data))
    ensures var want := Want(p, builder.cap, bytesReceived, maxLen);
            && builder.cap == RoomFor(p, old(builder.cap), bytesReceived)
            && 1 <= want <= builder.cap - old(builder.len)
            && n == Min(Min(count, want), |old(sock.incoming)|)
    ensures sock.incoming == old(sock.incoming)[n..]
    ensures builder.len == old(builder.len) + n
    ensures builder.Contents() == old(builder.Contents()) + old(sock.incoming)[..n]
  {
    if builder.cap - builder.len < p.minCap {
      builder.ExpandBuf(builder.cap + (p.minCap + builder.len - builder.cap));
    }
    var bytesToRead := OptMin(builder.cap - builder.len, maxLen - bytesReceived);
    assert bytesToRead >= 1;
    ghost var contents := builder.Contents();
    assert builder.data[..builder.len] == contents;
    n := sock.Recv(builder.data, builder.len, bytesToRead, count);
    builder.len := builder.len + n;
    assert builder.Contents() == contents + old(sock.incoming)[..n];
  }

  method TransferOf(p: Params, sock: Socket, state: ControllerState, builder: StringBuilder, maxLenIn: int,
                    bytesIn: nat, count: nat)
    returns (maxLen: int, bytesReceived: nat, closed: bool, done: bool, ec: int)
    requires builder.Valid() && builder.len == p.initialLen + bytesIn && (p.minCap >= 1 || builder.len < builder.cap)
    requires maxLenIn < 0 || bytesIn < maxLenIn
    modifies sock, state, builder, builder.data
    ensures builder.Valid() && (builder.data == old(builder.data) || fresh(builder.data))
    ensures builder.len == p.initialLen + bytesReceived
    ensures Now(p, sock, state, builder, maxLen, closed, if done then Done(ec) else Running) ==
            Transfer(p, old(Now(p, sock, state, builder, maxLenIn, false, Running)), count)
    ensures builder.Contents()[..p.initialLen] == old(builder.Contents())[..p.initialLen]
    ensures !done ==> (maxLen < 0 || bytesReceived < maxLen) && !closed
    ensures sock.script == old(sock.script)
  {
    hide AfterData;
    hide Control;
    hide RoomFor;
    hide Want;
    ghost var s := Now(p, sock, state, builder, maxLenIn, false, Running);
    ghost var before := builder.Contents();
    closed, done, ec, maxLen := false, false, 0, maxLenIn;
    var n := Fill(p, sock, builder, maxLen, bytesIn, count);
    bytesReceived := bytesIn + n;
    assert (before + s.net.incoming[..n])[p.initialLen..] == s.got + s.net.incoming[..n];
    if n == 0 {
      sock.Close();
      ec := FinishOf(maxLen, bytesReceived, 0);
      closed, done := true, true;
      assert s.net.incoming[0..] == s.net.incoming;
      return;
    }
    maxLen, done, ec := AfterDataOf(p, sock, state, builder, maxLen, bytesReceived, false);
  }

  /** One pass through the loop. */
  method StepOf(p: Params, sock: Socket, state: ControllerState, builder: StringBuilder, maxLenIn: int, bytesIn: nat)
    returns (maxLen: int, bytesReceived: nat, closed: bool, done: bool, ec: int)
    requires builder.Valid() && builder.len == p.initialLen + bytesIn && (p.minCap >= 1 || builder.len < builder.cap)
    requires (maxLenIn < 0 || bytesIn < maxLenIn) && sock.script != []
    modifies sock, state, builder, builder.data
    ensures builder.Valid() && (builder.data == old(builder.data) || fresh(builder.data))
    ensures builder.len == p.initialLen + bytesReceived
    ensures Now(p, sock, state, builder, maxLen, closed, if done then Done(ec) else Running) ==
            Step(p, old(Now(p, sock, state, builder, maxLenIn, false, Running)))
    ensures builder.Contents()[..p.initialLen] == old(builder.Contents())[..p.initialLen]
    ensures !done ==> (maxLen < 0 || bytesReceived < maxLen) && !closed
    ensures sock.script == old(sock.script)[1..]
  {
    hide Transfer;
    maxLen, bytesReceived, closed, done, ec := maxLenIn, bytesIn, false, true, 0;
    var e := sock.Poll();
    match e {
      case PollFailed =>
        ec := FinishOf(maxLen, bytesReceived, 1);
      case PollTimedOut =>
        ec := FinishOf(maxLen, bytesReceived, if p.timeoutIsError then 1 else 0);
      case PollReady(err, hup, nval, io, count) =>
        if err {
          sock.Close();
          closed := true;
          ec := FinishOf(maxLen, bytesReceived, -1);
        } else if hup && !io {
          sock.Close();
          closed := true;
          ec := FinishOf(maxLen, bytesReceived, 0);
        } else if !hup && nval {
          sock.FoundInvalid();
          closed := true;
          ec := FinishOf(maxLen, bytesReceived, -1);
        } else {
          maxLen, bytesReceived, closed, done, ec := TransferOf(p, sock, state, builder, maxLen, bytesReceived, count);
        }
    }
  }

  lemma RunStep(p: Params, s: Recv)
    ensures s.status.Running? && s.net.script != [] ==> Run(p, s) == Run(p, Step(p, s))
    ensures s.status.Done? || s.net.script == [] ==> Run(p, s) == s
  {
    hide Step;
  }

  method Loop(p: Params, sock: Socket, state: ControllerState, builder: StringBuilder, maxLenIn: int)
    returns (ghost maxLen: int, closed: bool, done: bool, ec: int)
    requires builder.Valid() && builder.len == p.initialLen && p.minCap >= 1
    requires maxLenIn < 0 || 0 < maxLenIn
    modifies sock, state, builder, builder.data
    ensures builder.Valid() && (builder.data == old(builder.data) || fresh(builder.data))
    ensures builder.len >= p.initialLen && builder.Contents()[..p.initialLen] == old(builder.Contents())
    ensures done || sock.script == []
    ensures Now(p, sock, state, builder, maxLen, closed, if done then Done(ec) else Running) ==
            Run(p, old(Now(p, sock, state, builder, maxLenIn, false, Running)))
  {
    hide Step;
    hide Run;
    ghost var s := Now(p, sock, state, builder, maxLenIn, false, Running);
    ghost var result := Run(p, s);
    ghost var before := builder.Contents();
    assert before[..p.initialLen] == before;
    closed, done, ec := false, false, 0;
    var bytesReceived: nat, limit := 0, maxLenIn;
    while !done && sock.script != []
      invariant builder.Valid() && (builder.data == old(builder.data) || fresh(builder.data))
      invariant builder.len == p.initialLen + bytesReceived && builder.Contents()[..p.initialLen] == before
      invariant Run(p, Now(p, sock, state, builder, limit, closed, if done then Done(ec) else Running)) == result
      invariant !done ==> (limit < 0 || bytesReceived < limit) && !closed
      decreases |sock.script|
    {
      RunStep(p, Now(p, sock, state, builder, limit, false, Running));
      limit, bytesReceived, closed, done, ec := StepOf(p, sock, state, builder, limit, bytesReceived);
    }
    maxLen := limit;
    RunStep(p, Now(p, sock, state, builder, maxLen, closed, if done then Done(ec) else Running));
  }

  /** Everything before the loop: the first buffer, fresh controller state and the first controller call. */
  method Begin(p: Params, ghost sock: Socket, builder: StringBuilder, maxLenIn: int)
    returns (state: ControllerState, maxLen: int, done: bool, ec: int)
    requires builder.Valid() && builder.len == p.initialLen
    modifies builder
    ensures builder.Valid() && (builder.data == old(builder.data) || fresh(builder.data)) && fresh(state)
    ensures builder.len == p.initialLen && builder.Contents() == old(builder.Contents())
    ensures Now(p, sock, state, builder, maxLen, false, if done then Done(ec) else Running) ==
            Start(p, sock.View(), old(builder.cap), maxLenIn)
    ensures !done ==> maxLen < 0 || 0 < maxLen
  {
    hide AfterData;
    if builder.cap < p.minCap {
      builder.ExpandBuf(p.minCap);
    }
    state := new ControllerState();
    assert Now(p, sock, state, builder, maxLenIn, false, Running) ==
           Recv(sock.View(), ZEROED, maxLenIn, "", CapFor(old(builder.cap), p.minCap), false, Running);
    maxLen, done, ec := AfterDataOf(p, sock, state, builder, maxLenIn, 0, false);
  }

  /** recvAllData. `done` is false when the call is still waiting at the end of the script. */
  method RecvAllData(sock: Socket, builder: StringBuilder, maxLenIn: int, timeoutIsError: bool, sbMinCap: int, http: bool)
    returns (done: bool, ec: int, closed: bool)
    requires builder.Valid() && sbMinCap != 0
    modifies sock, builder, builder.data
    ensures builder.Valid() && (builder.data == old(builder.data) || fresh(builder.data))
    ensures var p := Params(http, timeoutIsError, MinCap(sbMinCap), old(builder.len));
            var r := Run(p, Start(p, old(sock.View()), old(builder.cap), maxLenIn));
            && sock.View() == r.net && builder.cap == r.cap
            && builder.Contents() == old(builder.Contents()) + r.got
            && (if done then r.status == Done(ec) && r.closed == closed else r.status.Running?)
  {
    hide Run;
    hide Start;
    var p := Params(http, timeoutIsError, MinCap(sbMinCap), builder.len);
    var state, maxLen;
    closed := false;
    state, maxLen, done, ec := Begin(p, sock, builder, maxLenIn);
    ghost var last := maxLen;
    RunStep(p, Now(p, sock, state, builder, maxLen, false, if done then Done(ec) else Running));
    if !done {
      last, closed, done, ec := Loop(p, sock, state, builder, maxLen);
    }
    ghost var r := Now(p, sock, state, builder, last, closed, if done then Done(ec) else Running);
    assert r == Run(p, Start(p, old(sock.View()), old(builder.cap), maxLenIn));
    assert builder.Contents() == old(builder.Contents()) + r.got;
  }
}
