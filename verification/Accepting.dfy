/** lib/server.c: what becomes of the sockets that the accept loop is given. */
module Accepting {
  import opened Text
  import opened Mcfss
  import opened Server

  // ---- The checks after accepting

  /** What the condition is meant to say: one of the calls has failed. */
  predicate AnyCallFails(c: Config, e: Accepted) {
    e.nonBlockFails || e.keepAliveFails || (!c.enableDelaying && e.noDelayFails)
  }

  /** The code closes the socket exactly when it should, unless one of the first two calls has failed:
      then it never does. */
  lemma SetupIsCheckedUnlessFirstFail(c: Config, e: Accepted)
    ensures SetupFails(c, e) == AnyCallFails(c, e) <==> !e.nonBlockFails && !e.keepAliveFails
    ensures e.nonBlockFails || e.keepAliveFails ==> AnyCallFails(c, e) && !SetupFails(c, e)
  {
  }

  /** For instance: a socket for which all the calls have failed goes into an empty table. */
  lemma FailedSocketIsTaken(addr: Item, timeout: Item)
    ensures var c := Config(1, 1, false, timeout);
            var e := Accepted(5, addr, true, true, true, 0);
            AnyCallFails(c, e) && Accept(c, [], e) == ([NewRow(c, e)], false)
  {
    hide NewRow;
    hide PollFd;
    var c, e := Config(1, 1, false, timeout), Accepted(5, addr, true, true, true, 0);
    var rows: seq<Row> := [];
    assert Count(rows, ADDR, addr) == 0 && FindRow(rows, PFD, PollFd(5)).None?;
    AcceptCases(c, rows, e);
    assert rows + [NewRow(c, e)] == [NewRow(c, e)];
  }

  // ---- Lost sockets

  /** The socket is set up, there is room, its address is below its limit, and its pollfd is in the table. */
  predicate SlipsThrough(c: Config, rows: seq<Row>, e: Accepted) {
    && !SetupFails(c, e) && |rows| != c.cap && Count(rows, ADDR, e.addr) < PerAddressLimit(c.maxConnsPerIp)
    && FindRow(rows, PFD, PollFd(e.fd)).Some?
  }

  /** One accepted socket: it is closed again for one of the three reasons, it slips through, or it is
      in the table. */
  lemma AcceptCases(c: Config, rows: seq<Row>, e: Accepted)
    ensures var (rows', closed) := Accept(c, rows, e);
            if SlipsThrough(c, rows, e) then rows' == rows && !closed
            else if closed then
              && rows' == rows
              && (SetupFails(c, e) || |rows| == c.cap || Count(rows, ADDR, e.addr) >= PerAddressLimit(c.maxConnsPerIp))
            else rows' == rows + [NewRow(c, e)]
  {
    hide FindRow;
    hide Count;
  }

  /** A socket is lost, neither in the table nor closed again, exactly when it slips through. */
  lemma SocketIsLost(c: Config, rows: seq<Row>, e: Accepted)
    ensures Accept(c, rows, e) == (rows, false) <==> SlipsThrough(c, rows, e)
  {
    hide FindRow;
    hide Count;
    AcceptCases(c, rows, e);
  }

  /** The descriptors of the sockets that the accept loop loses. */
  function Lost(c: Config, rows: seq<Row>, es: seq<Accepted>): seq<nat>
    decreases |es|
  {
    if |rows| >= c.cap || es == [] then []
    else (if SlipsThrough(c, rows, es[0]) then [es[0].fd] else []) + Lost(c, Accept(c, rows, es[0]).0, es[1..])
  }

  /** The descriptors of the connections accepted before the table is full. */
  function Taken(c: Config, rows: seq<Row>, es: seq<Accepted>): seq<nat>
    decreases |es|
  {
    if |rows| >= c.cap || es == [] then [] else [es[0].fd] + Taken(c, Accept(c, rows, es[0]).0, es[1..])
  }

  function Fds(rows: seq<Row>): seq<nat>
    requires AreConnections(rows)
  {
    seq(|rows|, i requires 0 <= i < |rows| => Fd(rows[i]))
  }

  const FD_BOUND: nat := 0x1_0000_0000

  predicate IsAccepted(e: Accepted) {
    |e.addr| == 20 && e.fd < FD_BOUND
  }

  lemma PollFdHoldsFd(c: Config, e: Accepted)
    requires |c.timeout| == 8 && IsAccepted(e)
    ensures IsConnection(NewRow(c, e)) && Fd(NewRow(c, e)) == e.fd
  {
    StoredNumberIsRead(e.fd, 4);
    assert PollFd(e.fd)[..4] == LittleEndian(e.fd, 4);
    assert Pow256(4) == FD_BOUND;
  }

  const POLLIN: nat := 1
  const POLLERR: nat := 8
  const POLLHUP: nat := 16
  const POLLNVAL: nat := 32

  /** A new connection is polled for data, errors, hang-ups and invalidity, and no event has been returned. */
  lemma NewPollFdEvents(fd: nat)
    ensures Unsigned(PollFd(fd)[4..6]) == POLLIN + POLLERR + POLLHUP + POLLNVAL
    ensures Unsigned(PollFd(fd)[6..8]) == 0
  {
    hide LittleEndian;
    StoredNumberIsRead(POLL_EVENTS, 2);
    assert PollFd(fd)[4..6] == LittleEndian(POLL_EVENTS, 2) && PollFd(fd)[6..8] == [0, 0];
    assert Pow256(2) == 0x1_0000;
    assert [0, 0][1..] == [0] && [0][1..] == [];
  }

  /** The descriptors in the table after one accepted socket. */
  lemma FdsAfterAccept(c: Config, rows: seq<Row>, e: Accepted)
    requires AreConnections(rows) && |c.timeout| == 8 && IsAccepted(e)
    ensures var (rows', closed) := Accept(c, rows, e);
            && AreConnections(rows')
            && Fds(rows') == Fds(rows) + if SlipsThrough(c, rows, e) || closed then [] else [e.fd]
  {
    hide Accept;
    hide SlipsThrough;
    hide NewRow;
    hide Fd;
    AcceptCases(c, rows, e);
    PollFdHoldsFd(c, e);
    assert Fds(rows + [NewRow(c, e)]) == Fds(rows) + [e.fd];
  }

  lemma Balanced(table: seq<nat>, added: seq<nat>, taken: seq<nat>, last: seq<nat>, closed: seq<nat>, lost: seq<nat>,
                 newClosed: seq<nat>, newLost: seq<nat>, fd: nat)
    requires multiset(table + added) + multiset(taken) == multiset(last) + multiset(closed) + multiset(lost)
    requires multiset(added) + multiset(newClosed) + multiset(newLost) == multiset{fd}
    ensures multiset(table) + multiset([fd] + taken) ==
            multiset(last) + multiset(newClosed + closed) + multiset(newLost + lost)
  {
    forall x: nat
      ensures (multiset(table) + multiset([fd] + taken))[x] ==
              (multiset(last) + multiset(newClosed + closed) + multiset(newLost + lost))[x]
    {
      assert (multiset(table + added) + multiset(taken))[x] == (multiset(last) + multiset(closed) + multiset(lost))[x];
      assert (multiset(added) + multiset(newClosed) + multiset(newLost))[x] == multiset{fd}[x];
    }
  }

  /** Sockets are conserved by the accept loop: those in the table before and those accepted are those
      in the table after, those closed again, and those lost. */
  lemma {:induction false} SocketsAreConserved(c: Config, rows: seq<Row>, es: seq<Accepted>)
    requires AreConnections(rows) && |c.timeout| == 8 && forall i | 0 <= i < |es| :: IsAccepted(es[i])
    ensures var (last, closed) := AcceptAll(c, rows, es);
            && AreConnections(last)
            && multiset(Fds(rows)) + multiset(Taken(c, rows, es)) ==
               multiset(Fds(last)) + multiset(closed) + multiset(Lost(c, rows, es))
    decreases |es|
  {
    hide Accept;
    hide SlipsThrough;
    hide AreConnections;
    hide Fds;
    if !(|rows| >= c.cap || es == []) {
      var e := es[0];
      var (rows', closed) := Accept(c, rows, e);
      var slips := SlipsThrough(c, rows, e);
      AcceptCases(c, rows, e);
      FdsAfterAccept(c, rows, e);
      SocketsAreConserved(c, rows', es[1..]);
      var (last, closes) := AcceptAll(c, rows', es[1..]);
      Balanced(Fds(rows), if slips || closed then [] else [e.fd], Taken(c, rows', es[1..]), Fds(last), closes,
               Lost(c, rows', es[1..]), if closed then [e.fd] else [], if slips then [e.fd] else [], e.fd);
    }
  }

  /** For instance: the descriptor of a connection in the table has been closed, and the kernel gives
      its number to the next connection. */
  lemma ReusedFdIsLost(c: Config, e: Accepted, again: Accepted)
    requires c.cap == 2 && c.maxConnsPerIp >= 2 && !SetupFails(c, again) && again.fd == e.fd
    ensures AcceptAll(c, [NewRow(c, e)], [again]) == ([NewRow(c, e)], []) && Lost(c, [NewRow(c, e)], [again]) == [e.fd]
  {
    hide LittleEndian;
    var rows := [NewRow(c, e)];
    assert HasItem(rows[0], PFD, PollFd(again.fd));
    assert rows[1..] == [];
    assert Count(rows, ADDR, again.addr) <= 1;
    AcceptCases(c, rows, again);
    assert SlipsThrough(c, rows, again);
    var es := [again];
    assert es[1..] == [];
    assert |rows| < c.cap && es[0] == again && Accept(c, rows, again) == (rows, false);
    var (last, fds) := AcceptAll(c, rows, es[1..]);
    assert last == rows && fds == [];
    assert AcceptAll(c, rows, es) == (last, [] + fds) && [] + fds == fds;
    assert Lost(c, rows, es) == [again.fd] + Lost(c, rows, es[1..]) && Lost(c, rows, es[1..]) == [];
    assert [again.fd] + [] == [e.fd];
  }
}
