/** The limits of the connection table in every run of the server. */
module ServerRuns {
  import opened Text
  import opened Mcfss
  import opened Server
  import opened Accepting
  import opened Sweeping

  /** What a turn of the server's loop may do to the table: accept, drop a record, note a use, have the
      kernel write the returned events, and sweep. */
  datatype Event =
    | Arrive(es: seq<Accepted>)
    | Drop(k: nat)
    | Touch(k: nat, time: nat)
    | Polled(k: nat, revents: Item)
    | Sweep(now: nat)

  function WithItem(rows: seq<Row>, k: nat, cat: nat, item: Item): seq<Row> {
    if k < |rows| && cat < |rows[k]| then rows[k := rows[k][cat := item]] else rows
  }

  predicate Fits(e: Event) {
    match e
    case Arrive(es) => forall i | 0 <= i < |es| :: |es[i].addr| == 20
    case Polled(_, revents) => |revents| == 2
    case _ => true
  }

  function Apply(c: Config, rows: seq<Row>, e: Event): seq<Row>
    requires AreConnections(rows)
  {
    match e
    case Arrive(es) => AcceptAll(c, rows, es).0
    case Drop(k) => if k < |rows| then Without(rows, k) else rows
    case Touch(k, time) => WithItem(rows, k, LAST_USAGE, LittleEndian(time, 8))
    case Polled(k, revents) => if k < |rows| then WithItem(rows, k, PFD, rows[k][PFD][..6] + revents) else rows
    case Sweep(now) => Swept(rows, now)
  }

  /** No more records than the capacity, and no more for any address than its limit. */
  ghost predicate WithinLimits(c: Config, rows: seq<Row>) {
    && AreConnections(rows) && |rows| <= c.cap
    && forall addr: Item :: Count(rows, ADDR, addr) <= PerAddressLimit(c.maxConnsPerIp)
  }

  lemma {:induction false} CountAppend(rows: seq<Row>, row: Row, cat: nat, item: Item)
    ensures Count(rows + [row], cat, item) == Count(rows, cat, item) + if HasItem(row, cat, item) then 1 else 0
  {
    if rows == [] {
      assert rows + [row] == [row] && [row][1..] == [];
    } else {
      assert (rows + [row])[1..] == rows[1..] + [row];
      CountAppend(rows[1..], row, cat, item);
    }
  }

  lemma {:induction false} CountWithout(rows: seq<Row>, k: nat, cat: nat, item: Item)
    requires k < |rows|
    ensures Count(Without(rows, k), cat, item) <= Count(rows, cat, item)
  {
    if k == 0 {
      assert Without(rows, 0) == rows[1..];
    } else {
      assert Without(rows, k)[1..] == Without(rows[1..], k - 1) && Without(rows, k)[0] == rows[0];
      CountWithout(rows[1..], k - 1, cat, item);
    }
  }

  lemma LookedCount(seen: seq<Row>, row: Row, now: nat, cat: nat, item: Item)
    requires AreConnections(seen) && IsConnection(row)
    ensures AreConnections(Looked(seen, row, now)) && |Looked(seen, row, now)| <= |seen| + 1
    ensures Count(Looked(seen, row, now), cat, item) <= Count(seen + [row], cat, item)
  {
    hide Expired;
    hide FindRow;
    hide Count;
    hide IsConnection;
    var k := FirstWithPfd(seen, row, []);
    assert AreConnections(seen + [row]);
    CountWithout(seen + [row], k, cat, item);
  }

  lemma {:induction false} CountSwept(rows: seq<Row>, now: nat, cat: nat, item: Item)
    requires AreConnections(rows)
    ensures AreConnections(Swept(rows, now)) && |Swept(rows, now)| <= |rows|
    ensures Count(Swept(rows, now), cat, item) <= Count(rows, cat, item)
  {
    hide Looked;
    hide Count;
    if rows != [] {
      var last := |rows| - 1;
      var seen := Swept(rows[..last], now);
      CountSwept(rows[..last], now, cat, item);
      LookedCount(seen, rows[last], now, cat, item);
      AsFront(rows);
      CountAppend(rows[..last], rows[last], cat, item);
      CountAppend(seen, rows[last], cat, item);
    }
  }

  lemma {:induction false} CountUpdate(rows: seq<Row>, k: nat, row: Row, cat: nat, item: Item)
    requires k < |rows| && (HasItem(row, cat, item) <==> HasItem(rows[k], cat, item))
    ensures Count(rows[k := row], cat, item) == Count(rows, cat, item)
  {
    if k > 0 {
      assert rows[k := row][1..] == rows[1..][k - 1 := row];
      CountUpdate(rows[1..], k - 1, row, cat, item);
    }
  }

  lemma WithItemKeeps(c: Config, rows: seq<Row>, k: nat, cat: nat, item: Item)
    requires WithinLimits(c, rows) && (cat == PFD || cat == LAST_USAGE) && |item| == 8
    ensures WithinLimits(c, WithItem(rows, k, cat, item))
  {
    if k < |rows| {
      var row := rows[k][cat := item];
      assert IsConnection(rows[k]) && IsConnection(row) && row[ADDR] == rows[k][ADDR];
      forall addr: Item ensures Count(WithItem(rows, k, cat, item), ADDR, addr) <= PerAddressLimit(c.maxConnsPerIp) {
        assert HasItem(row, ADDR, addr) <==> HasItem(rows[k], ADDR, addr);
        CountUpdate(rows, k, row, ADDR, addr);
      }
    }
  }

  lemma AcceptKeeps(c: Config, rows: seq<Row>, e: Accepted)
    requires WithinLimits(c, rows) && |e.addr| == 20 && |c.timeout| == 8
    ensures WithinLimits(c, Accept(c, rows, e).0)
  {
    hide FindRow;
    var rows' := Accept(c, rows, e).0;
    if rows' != rows {
      var row := NewRow(c, e);
      assert rows' == rows + [row] && Count(rows, ADDR, e.addr) < PerAddressLimit(c.maxConnsPerIp);
      assert IsConnection(row);
      forall addr: Item ensures Count(rows', ADDR, addr) <= PerAddressLimit(c.maxConnsPerIp) {
        CountAppend(rows, row, ADDR, addr);
        assert HasItem(row, ADDR, addr) ==> addr == e.addr;
      }
    }
  }

  lemma {:induction false} AcceptAllKeeps(c: Config, rows: seq<Row>, es: seq<Accepted>)
    requires WithinLimits(c, rows) && |c.timeout| == 8 && forall i | 0 <= i < |es| :: |es[i].addr| == 20
    ensures WithinLimits(c, AcceptAll(c, rows, es).0)
    decreases |es|
  {
    hide Accept;
    hide WithinLimits;
    if !(|rows| >= c.cap || es == []) {
      AcceptKeeps(c, rows, es[0]);
      AcceptAllKeeps(c, Accept(c, rows, es[0]).0, es[1..]);
    }
  }

  lemma ApplyKeepsLimits(c: Config, rows: seq<Row>, e: Event)
    requires WithinLimits(c, rows) && Fits(e) && |c.timeout| == 8
    ensures WithinLimits(c, Apply(c, rows, e))
  {
    match e {
      case Arrive(es) => AcceptAllKeeps(c, rows, es);
      case Drop(k) =>
        if k < |rows| {
          forall addr: Item ensures Count(Without(rows, k), ADDR, addr) <= PerAddressLimit(c.maxConnsPerIp) {
            CountWithout(rows, k, ADDR, addr);
          }
        }
      case Touch(k, time) => WithItemKeeps(c, rows, k, LAST_USAGE, LittleEndian(time, 8));
      case Polled(k, revents) =>
        if k < |rows| {
          assert IsConnection(rows[k]);
          WithItemKeeps(c, rows, k, PFD, rows[k][PFD][..6] + revents);
        }
      case Sweep(now) =>
        CountSwept(rows, now, ADDR, []);
        forall addr: Item ensures Count(Swept(rows, now), ADDR, addr) <= PerAddressLimit(c.maxConnsPerIp) {
          CountSwept(rows, now, ADDR, addr);
        }
    }
  }

  function RunServer(c: Config, rows: seq<Row>, events: seq<Event>): (r: seq<Row>)
    requires WithinLimits(c, rows) && |c.timeout| == 8 && forall i | 0 <= i < |events| :: Fits(events[i])
    ensures WithinLimits(c, r)
    decreases |events|
  {
    if events == [] then rows
    else
      ApplyKeepsLimits(c, rows, events[0]);
      RunServer(c, Apply(c, rows, events[0]), events[1..])
  }

  /** The records that have the item in the category. */
  ghost function Having(rows: seq<Row>, cat: nat, item: Item): set<nat> {
    set i: nat | i < |rows| && HasItem(rows[i], cat, item)
  }

  /** Counting counts them. */
  lemma {:induction false} CountIsCardinality(rows: seq<Row>, cat: nat, item: Item)
    ensures Count(rows, cat, item) == |Having(rows, cat, item)|
  {
    if rows == [] {
      assert Having(rows, cat, item) == {};
    } else {
      var last := |rows| - 1;
      var before := rows[..last];
      CountIsCardinality(before, cat, item);
      assert rows == before + [rows[last]];
      CountAppend(before, rows[last], cat, item);
      var here := if HasItem(rows[last], cat, item) then {last} else {};
      assert Having(rows, cat, item) == Having(before, cat, item) + here;
    }
  }

  /** What the program takes for the limit per address, for tables smaller than 2^63: a negative number
      is none. */
  lemma LimitPerAddress(maxConnsPerIp: int, n: nat)
    requires -0x8000_0000 <= maxConnsPerIp < 0x8000_0000 && n < SIZE_T / 2
    ensures n < PerAddressLimit(maxConnsPerIp) <==> maxConnsPerIp < 0 || n < maxConnsPerIp
  {
  }

  /** A connection is taken exactly when it is set up, the table has room, fewer connections than the limit
      have its address, and none has its pollfd; it is closed again when one of the first three fails. */
  lemma WhenTaken(c: Config, rows: seq<Row>, e: Accepted)
    requires -0x8000_0000 <= c.maxConnsPerIp < 0x8000_0000 && |rows| <= c.cap < SIZE_T / 2
    ensures var (rows', closed) := Accept(c, rows, e);
            var admitted := !SetupFails(c, e) && |rows| < c.cap &&
                            (c.maxConnsPerIp < 0 || |Having(rows, ADDR, e.addr)| < c.maxConnsPerIp);
            && (closed <==> !admitted)
            && (rows' == rows + [NewRow(c, e)] <==> admitted && Having(rows, PFD, PollFd(e.fd)) == {})
            && (rows' == rows <==> !(admitted && Having(rows, PFD, PollFd(e.fd)) == {}))
  {
    hide FindRow;
    hide Count;
    hide PerAddressLimit;
    AcceptCases(c, rows, e);
    CountAtMost(rows, ADDR, e.addr);
    CountIsCardinality(rows, ADDR, e.addr);
    LimitPerAddress(c.maxConnsPerIp, Count(rows, ADDR, e.addr));
    match FindRow(rows, PFD, PollFd(e.fd))
    case None => assert forall i: nat | i < |rows| :: !HasItem(rows[i], PFD, PollFd(e.fd));
    case Some(k) => assert k in Having(rows, PFD, PollFd(e.fd));
  }

  /** From an empty table, whatever arrives, leaves and times out: the capacity is never exceeded, and
      with a non-negative limit per address no address ever has more connections than that. */
  lemma ConnectionCaps(c: Config, events: seq<Event>, addr: Item)
    requires c.maxConnsPerIp >= 0 && |c.timeout| == 8 && forall i | 0 <= i < |events| :: Fits(events[i])
    ensures WithinLimits(c, [])
    ensures |RunServer(c, [], events)| <= c.cap && |Having(RunServer(c, [], events), ADDR, addr)| <= c.maxConnsPerIp
  {
    assert forall a: Item :: Count([], ADDR, a) == 0;
    var rows := RunServer(c, [], events);
    CountIsCardinality(rows, ADDR, addr);
  }

  const PROMISED_LIMIT: int := 4

  /** A negative limit per address refuses nobody, where the interface promises a default of four. A new
      connection is treated as under that default exactly when it is closed for a failed call, its
      address has fewer than four connections, or the table is full. */
  lemma NegativeLimitIsNone(c: Config, rows: seq<Row>, e: Accepted)
    requires -0x8000_0000 <= c.maxConnsPerIp < 0 && |rows| <= c.cap < SIZE_T / 2
    ensures Accept(c, rows, e) == Accept(c.(maxConnsPerIp := PROMISED_LIMIT), rows, e) <==>
            SetupFails(c, e) || Count(rows, ADDR, e.addr) < PROMISED_LIMIT || |rows| == c.cap
    ensures Count(rows, ADDR, e.addr) < PerAddressLimit(c.maxConnsPerIp)
  {
    hide Count;
    hide FindRow;
    CountAtMost(rows, ADDR, e.addr);
  }

  lemma {:induction false} CountAtMost(rows: seq<Row>, cat: nat, item: Item)
    ensures Count(rows, cat, item) <= |rows|
  {
    if rows != [] { CountAtMost(rows[1..], cat, item); }
  }

  /** Four connections from one address, and a limit per address of -1: the fifth is taken, where it would
      be closed under the promised default. */
  lemma FifthConnectionIsTaken(addr: Item, timeout: Item)
    requires |addr| == 20 && |timeout| == 8
    ensures var c := Config(16, -1, false, timeout);
            var rows := seq(4, i requires 0 <= i < 4 => NewRow(c, Accepted(i + 1, addr, false, false, false, 0)));
            var e := Accepted(5, addr, false, false, false, 0);
            && Accept(c, rows, e) == (rows + [NewRow(c, e)], false)
            && Accept(c.(maxConnsPerIp := PROMISED_LIMIT), rows, e) == (rows, true)
  {
    hide NewRow;
    hide Fd;
    var c := Config(16, -1, false, timeout);
    var rows := seq(4, i requires 0 <= i < 4 => NewRow(c, Accepted(i + 1, addr, false, false, false, 0)));
    var e := Accepted(5, addr, false, false, false, 0);
    PollFdHoldsFd(c, e);
    forall i | 0 <= i < 4 ensures HasItem(rows[i], ADDR, addr) && !HasItem(rows[i], PFD, PollFd(e.fd)) {
      OtherRow(c, Accepted(i + 1, addr, false, false, false, 0), e);
    }
    CountAll(rows, ADDR, addr);
    FindRowIs(rows, PFD, PollFd(e.fd), None);
    AcceptCases(c, rows, e);
    AcceptCases(c.(maxConnsPerIp := PROMISED_LIMIT), rows, e);
  }

  lemma OtherRow(c: Config, a: Accepted, e: Accepted)
    requires |c.timeout| == 8 && IsAccepted(a) && IsAccepted(e) && a.fd != e.fd
    ensures HasItem(NewRow(c, a), ADDR, a.addr) && !HasItem(NewRow(c, a), PFD, PollFd(e.fd))
  {
    hide Fd;
    hide LittleEndian;
    PollFdHoldsFd(c, a);
    PollFdHoldsFd(c, e);
    SamePfdSameFd(NewRow(c, a), NewRow(c, e));
  }

  lemma {:induction false} CountAll(rows: seq<Row>, cat: nat, item: Item)
    requires forall i | 0 <= i < |rows| :: HasItem(rows[i], cat, item)
    ensures Count(rows, cat, item) == |rows|
  {
    if rows != [] { CountAll(rows[1..], cat, item); }
  }

  // ---- Descriptors

  /** No connection in the table has the descriptor. */
  ghost predicate IsNew(rows: seq<Row>, fd: nat)
    requires AreConnections(rows)
  {
    forall i | 0 <= i < |rows| :: Fd(rows[i]) != fd
  }

  /** Whenever the loop accepts a connection, its descriptor is one that no connection in the table has. */
  ghost predicate AllNew(c: Config, rows: seq<Row>, es: seq<Accepted>)
    requires AreConnections(rows) && |c.timeout| == 8
    decreases |es|
  {
    |rows| >= c.cap || es == [] ||
    (IsAccepted(es[0]) && IsNew(rows, es[0].fd) &&
     (FdsAfterAccept(c, rows, es[0]); AllNew(c, Accept(c, rows, es[0]).0, es[1..])))
  }

  lemma AcceptKeepsDistinct(c: Config, rows: seq<Row>, e: Accepted)
    requires DistinctFds(rows) && |c.timeout| == 8 && IsAccepted(e) && IsNew(rows, e.fd)
    ensures !SlipsThrough(c, rows, e) && DistinctFds(Accept(c, rows, e).0)
  {
    hide Accept;
    hide PollFd;
    hide LittleEndian;
    hide Fd;
    hide IsConnection;
    hide FindRow;
    AcceptCases(c, rows, e);
    PollFdHoldsFd(c, e);
    if FindRow(rows, PFD, PollFd(e.fd)).Some? {
      var k := FindRow(rows, PFD, PollFd(e.fd)).value;
      SamePfdSameFd(rows[k], NewRow(c, e));
    }
  }

  lemma SamePfdSameFd(a: Row, b: Row)
    requires IsConnection(a) && IsConnection(b)
    ensures a[PFD] == b[PFD] ==> Fd(a) == Fd(b)
  {
  }

  lemma {:induction false} AcceptAllKeepsDistinct(c: Config, rows: seq<Row>, es: seq<Accepted>)
    requires DistinctFds(rows) && |c.timeout| == 8 && AllNew(c, rows, es)
    ensures DistinctFds(AcceptAll(c, rows, es).0) && Lost(c, rows, es) == []
    decreases |es|
  {
    hide Accept;
    hide DistinctFds;
    hide SlipsThrough;
    if !(|rows| >= c.cap || es == []) {
      AcceptKeepsDistinct(c, rows, es[0]);
      AcceptAllKeepsDistinct(c, Accept(c, rows, es[0]).0, es[1..]);
    }
  }

  lemma WithoutKeepsDistinct(rows: seq<Row>, k: nat)
    requires DistinctFds(rows) && k < |rows|
    ensures DistinctFds(Without(rows, k))
  {
    hide Fd;
    hide IsConnection;
    var fewer := Without(rows, k);
    forall i | 0 <= i < |fewer| ensures fewer[i] == rows[if i < k then i else i + 1] {}
  }

  /** Replacing an item, but not the descriptor. */
  lemma WithItemKeepsDistinct(rows: seq<Row>, k: nat, cat: nat, item: Item)
    requires DistinctFds(rows) && |item| == 8 && (cat == LAST_USAGE || (cat == PFD && k < |rows| && item[..4] == rows[k][PFD][..4]))
    ensures DistinctFds(WithItem(rows, k, cat, item))
  {
    hide Unsigned;
    if k < |rows| {
      assert IsConnection(rows[k]);
      var row := rows[k][cat := item];
      assert IsConnection(row) && Fd(row) == Fd(rows[k]);
    }
  }

  /** Connections with different descriptors cannot be mistaken for each other. */
  lemma DistinctFdsSweep(rows: seq<Row>, now: nat)
    requires DistinctFds(rows)
    ensures !Mistakable(rows, now) && Swept(rows, now) == Kept(rows, now)
  {
    hide Fd;
    hide Expired;
    hide Kept;
    hide Swept;
    hide IsConnection;
    if Mistakable(rows, now) {
      var i, j :| 0 <= i < j < |rows| && Mistaken(rows, now, i, j);
      SamePfdSameFd(rows[i], rows[j]);
    }
    SweepIsFilter(rows, now);
  }

  lemma {:induction false} KeptKeepsDistinct(rows: seq<Row>, now: nat)
    requires DistinctFds(rows)
    ensures DistinctFds(Kept(rows, now))
  {
    hide Expired;
    hide Fd;
    hide IsConnection;
    if rows != [] {
      KeptKeepsDistinct(rows[1..], now);
      var k := Kept(rows[1..], now);
      if Expired(rows[0], now) {
        assert [] + k == k;
      } else {
        forall i | 0 <= i < |k| ensures Fd(k[i]) != Fd(rows[0]) {
          var j := KeptAreRows(rows[1..], now, i);
          assert k[i] == rows[j + 1];
        }
      }
    }
  }

  ghost predicate IsFresh(c: Config, rows: seq<Row>, e: Event)
    requires AreConnections(rows) && |c.timeout| == 8
  {
    e.Arrive? ==> AllNew(c, rows, e.es)
  }

  lemma ApplyKeepsDistinct(c: Config, rows: seq<Row>, e: Event)
    requires DistinctFds(rows) && |c.timeout| == 8 && Fits(e) && IsFresh(c, rows, e)
    ensures DistinctFds(Apply(c, rows, e))
  {
    hide DistinctFds;
    hide AllNew;
    hide AcceptAll;
    hide Swept;
    hide WithItem;
    match e {
      case Arrive(es) => AcceptAllKeepsDistinct(c, rows, es);
      case Drop(k) => if k < |rows| { WithoutKeepsDistinct(rows, k); }
      case Touch(k, time) => WithItemKeepsDistinct(rows, k, LAST_USAGE, LittleEndian(time, 8));
      case Polled(k, revents) =>
        if k < |rows| {
          DistinctAreConnections(rows, k);
          var item := rows[k][PFD][..6] + revents;
          assert item[..4] == rows[k][PFD][..4];
          WithItemKeepsDistinct(rows, k, PFD, item);
        }
      case Sweep(now) =>
        DistinctFdsSweep(rows, now);
        KeptKeepsDistinct(rows, now);
    }
  }

  lemma DistinctAreConnections(rows: seq<Row>, k: nat)
    requires DistinctFds(rows) && k < |rows|
    ensures IsConnection(rows[k])
  {
  }

  /** In a run of the server, no new connection has the descriptor of one in the table. */
  ghost predicate AllFresh(c: Config, rows: seq<Row>, events: seq<Event>)
    requires WithinLimits(c, rows) && |c.timeout| == 8 && forall i | 0 <= i < |events| :: Fits(events[i])
    decreases |events|
  {
    events == [] ||
    (ApplyKeepsLimits(c, rows, events[0]);
     IsFresh(c, rows, events[0]) && AllFresh(c, Apply(c, rows, events[0]), events[1..]))
  }

  lemma {:induction false} RunKeepsDistinct(c: Config, rows: seq<Row>, events: seq<Event>)
    requires WithinLimits(c, rows) && |c.timeout| == 8 && forall i | 0 <= i < |events| :: Fits(events[i])
    requires DistinctFds(rows) && AllFresh(c, rows, events)
    ensures DistinctFds(RunServer(c, rows, events))
    decreases |events|
  {
    hide DistinctFds;
    hide WithinLimits;
    hide Apply;
    hide IsFresh;
    if events != [] {
      ApplyKeepsLimits(c, rows, events[0]);
      LimitsAreConnections(c, rows);
      ApplyKeepsDistinct(c, rows, events[0]);
      RunKeepsDistinct(c, Apply(c, rows, events[0]), events[1..]);
    }
  }

  lemma LimitsAreConnections(c: Config, rows: seq<Row>)
    requires WithinLimits(c, rows)
    ensures AreConnections(rows)
  {
  }

  /** As long as `accept` returns descriptors that no connection in the table has, in every reachable
      state of the table the descriptors are distinct, the sweep keeps exactly the connections that
      have not expired, and the accept loop loses no socket. */
  lemma FreshDescriptorsSuffice(c: Config, events: seq<Event>, now: nat, es: seq<Accepted>)
    requires |c.timeout| == 8 && forall i | 0 <= i < |events| :: Fits(events[i])
    requires WithinLimits(c, []) && AllFresh(c, [], events) && AllNew(c, RunServer(c, [], events), es)
    ensures var rows := RunServer(c, [], events);
            DistinctFds(rows) && Swept(rows, now) == Kept(rows, now) && Lost(c, rows, es) == []
  {
    hide DistinctFds;
    hide AllFresh;
    hide AllNew;
    hide Swept;
    hide Kept;
    hide RunServer;
    NoneIsDistinct();
    RunKeepsDistinct(c, [], events);
    DistinctFdsSweep(RunServer(c, [], events), now);
    AcceptAllKeepsDistinct(c, RunServer(c, [], events), es);
  }

  lemma NoneIsDistinct()
    ensures DistinctFds([])
  {
  }
}
