/** lib/server.c: how long an accepted connection stays in the table, in terms of the clock and the
    configured timeout. */
module ServerTimes {
  import opened Text
  import opened Mcfss
  import opened Server
  import opened Accepting
  import opened Sweeping
  import opened ServerRuns

  /** A connection last used at `used`, under a timeout stored as `d`, which is negative from 2^63 on. */
  predicate IsOver(used: nat, d: nat, now: nat) {
    d < SIZE_T / 2 && now - used > d
  }

  lemma StoredExpires(row: Row, used: nat, d: nat, now: nat)
    requires IsConnection(row) && row[LAST_USAGE] == LittleEndian(used, 8) && row[TIMEOUT] == LittleEndian(d, 8)
    requires used <= now < SIZE_T && d < SIZE_T
    ensures Expired(row, now) <==> IsOver(used, d, now)
  {
    hide LittleEndian;
    hide Unsigned;
    Pow256Of8();
    StoredNumberIsRead(used, 8);
    StoredNumberIsRead(d, 8);
    ExpiredMeansIdle(row, now);
  }

  /** In a table with distinct descriptors, the sweep drops a connection exactly when it has expired. */
  lemma SweptFd(rows: seq<Row>, now: nat, j: nat)
    requires DistinctFds(rows) && j < |rows|
    ensures AreConnections(Swept(rows, now))
    ensures Fd(rows[j]) in Fds(Swept(rows, now)) <==> !Expired(rows[j], now)
  {
    hide Expired;
    hide Fd;
    hide IsConnection;
    hide Kept;
    hide Swept;
    DistinctFdsSweep(rows, now);
    KeptIsKept(rows, now);
    var kept := Kept(rows, now);
    if !Expired(rows[j], now) {
      var i := RowIsKept(rows, now, j);
      assert Fds(kept)[i] == Fd(rows[j]);
    }
    if Fd(rows[j]) in Fds(kept) {
      var i :| 0 <= i < |kept| && Fds(kept)[i] == Fd(rows[j]);
      var k := KeptAreRows(rows, now, i);
      assert Fd(rows[k]) == Fd(rows[j]);
    }
  }

  /** A socket is accepted at `e.time`, under the configured timeout `d`, into a table where no connection
      has its descriptor. A sweep drops the connection exactly when more than `d` has passed since; under
      a negative timeout no sweep ever does. */
  lemma AcceptedStaysFor(c: Config, rows: seq<Row>, e: Accepted, d: nat, now: nat)
    requires DistinctFds(rows) && IsNew(rows, e.fd) && IsAccepted(e) && |rows| < c.cap
    requires d < SIZE_T && c.timeout == LittleEndian(d, 8) && e.time <= now < SIZE_T
    requires !Accept(c, rows, e).1
    ensures var rows' := AcceptAll(c, rows, [e]).0;
            && AreConnections(rows') && AreConnections(Swept(rows', now))
            && (e.fd !in Fds(Swept(rows', now)) <==> IsOver(e.time, d, now))
  {
    hide Accept;
    hide Fd;
    hide Expired;
    hide Swept;
    hide LittleEndian;
    AcceptKeepsDistinct(c, rows, e);
    AcceptCases(c, rows, e);
    PollFdHoldsFd(c, e);
    OneAccepted(c, rows, e);
    var rows' := rows + [NewRow(c, e)];
    SweptFd(rows', now, |rows|);
    StoredExpires(rows'[|rows|], e.time, d, now);
  }

  lemma OneAccepted(c: Config, rows: seq<Row>, e: Accepted)
    requires |rows| < c.cap
    ensures AcceptAll(c, rows, [e]).0 == Accept(c, rows, e).0
  {
    hide Accept;
    assert [e][1..] == [];
  }

  /** The same for a connection whose use is noted at `t`. */
  lemma UsedStaysFor(rows: seq<Row>, k: nat, t: nat, d: nat, now: nat)
    requires DistinctFds(rows) && k < |rows| && rows[k][TIMEOUT] == LittleEndian(d, 8)
    requires d < SIZE_T && t <= now < SIZE_T
    ensures var rows' := rows[k := rows[k][LAST_USAGE := LittleEndian(t, 8)]];
            && AreConnections(rows') && AreConnections(Swept(rows', now))
            && (Fd(rows[k]) !in Fds(Swept(rows', now)) <==> IsOver(t, d, now))
  {
    hide Fd;
    hide Expired;
    hide Swept;
    hide LittleEndian;
    WithItemKeepsDistinct(rows, k, LAST_USAGE, LittleEndian(t, 8));
    var rows' := rows[k := rows[k][LAST_USAGE := LittleEndian(t, 8)]];
    SamePfdSameFd(rows[k], rows'[k]);
    SweptFd(rows', now, k);
    StoredExpires(rows'[k], t, d, now);
  }
}
