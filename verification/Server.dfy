/** lib/server.c: accepting connections under limits, and sweeping out those that timed out. */
module Server {
  import opened Text
  import opened Mcfss

  const SIZE_T: nat := 0x1_0000_0000_0000_0000
  const PFD: nat := 0
  const LAST_USAGE: nat := 1
  const TIMEOUT: nat := 2
  const ADDR: nat := 3
  const ITEM_SIZES: seq<nat> := [8, 8, 8, 20]
  const POLL_EVENTS: nat := 57  // POLLIN | POLLERR | POLLHUP | POLLNVAL

  // ---- Numbers in memory

  function LittleEndian(x: nat, n: nat): (r: Item)
    ensures |r| == n
  {
    if n == 0 then [] else [x % 256] + LittleEndian(x / 256, n - 1)
  }

  function Unsigned(b: Item): nat {
    if b == [] then 0 else b[0] + 256 * Unsigned(b[1..])
  }

  function Pow256(n: nat): (p: nat)
    ensures p > 0
  {
    if n == 0 then 1 else 256 * Pow256(n - 1)
  }

  lemma {:induction false} StoredNumberIsRead(x: nat, n: nat)
    ensures Unsigned(LittleEndian(x, n)) == x % Pow256(n)
  {
    if n > 0 {
      StoredNumberIsRead(x / 256, n - 1);
      assert LittleEndian(x, n)[1..] == LittleEndian(x / 256, n - 1);
      ModStep(x, Pow256(n - 1));
    }
  }

  lemma ModStep(x: nat, p: nat)
    requires p > 0
    ensures x % 256 + 256 * ((x / 256) % p) == x % (256 * p)
  {
    var q, r := (x / 256) / p, (x / 256) % p;
    assert x == 256 * (x / 256) + x % 256 && x / 256 == p * q + r;
    var low := 256 * r + x % 256;
    assert 256 * (p * q) == (256 * p) * q by { assert 256 * (p * q) == 256 * p * q; }
    assert x == (256 * p) * q + low && 0 <= low < 256 * p;
    ModUnique(x, 256 * p, q, low);
  }

  lemma ModUnique(x: nat, m: nat, q: nat, r: nat)
    requires m > 0 && r < m && x == m * q + r
    ensures x % m == r
  {
    var q', r' := x / m, x % m;
    assert m * (q' - q) == r - r' by { assert m * (q' - q) == m * q' - m * q; }
    if q < q' { AtLeastOnce(m, q' - q); } else if q' < q { AtLeastOnce(m, q - q'); }
  }

  lemma AtLeastOnce(m: nat, d: nat)
    requires d >= 1
    ensures m * d >= m
  {
    assert m * d == m * (d - 1) + m;
  }

  /** An ssize_t: the top bit is the sign. */
  function Signed(b: Item): int {
    var u := Unsigned(b);
    if |b| == 8 && u >= SIZE_T / 2 then u - SIZE_T else u
  }

  // ---- Accepting

  /** What `accept` and the calls after it came to. */
  datatype Accepted = Accepted(fd: nat, addr: Item, nonBlockFails: bool, keepAliveFails: bool, noDelayFails: bool, time: nat)

  datatype Config = Config(cap: nat, maxConnsPerIp: int, enableDelaying: bool, timeout: Item)

  function PollFd(fd: nat): Item {
    LittleEndian(fd, 4) + LittleEndian(POLL_EVENTS, 2) + [0, 0]
  }

  function NewRow(c: Config, e: Accepted): Row {
    [PollFd(e.fd), LittleEndian(e.time, 8), c.timeout, e.addr]
  }

  function Count(rows: seq<Row>, cat: nat, item: Item): nat {
    if rows == [] then 0 else (if HasItem(rows[0], cat, item) then 1 else 0) + Count(rows[1..], cat, item)
  }

  /** The limit is compared as an unsigned number, so a negative one is no limit in practice. */
  function PerAddressLimit(maxConnsPerIp: int): int {
    if maxConnsPerIp < 0 then maxConnsPerIp + SIZE_T else maxConnsPerIp
  }

  /** The conditional operator binds weaker than the disjunction before it, so the first two failures
      count as success, and only the failure of the last call closes the socket. */
  predicate SetupFails(c: Config, e: Accepted) {
    if e.nonBlockFails || e.keepAliveFails || c.enableDelaying then false else e.noDelayFails
  }

  /** One turn of the accept loop: the new table and whether the new socket was closed again. */
  function Accept(c: Config, rows: seq<Row>, e: Accepted): (seq<Row>, bool) {
    if SetupFails(c, e) then (rows, true)
    else if Count(rows, ADDR, e.addr) < PerAddressLimit(c.maxConnsPerIp) then
      var (rows', ret) := Added(rows, c.cap, NewRow(c, e), PFD);
      (rows', ret != 0)
    else (rows, true)
  }

  /** The loop ends when the table is full or no connection is waiting. */
  function AcceptAll(c: Config, rows: seq<Row>, es: seq<Accepted>): (seq<Row>, seq<nat>)
    decreases |es|
  {
    if |rows| >= c.cap || es == [] then (rows, [])
    else
      var (rows', closed) := Accept(c, rows, es[0]);
      var (last, fds) := AcceptAll(c, rows', es[1..]);
      (last, (if closed then [es[0].fd] else []) + fds)
  }

  predicate IsConnection(row: Row) {
    |row| == 4 && |row[PFD]| == 8 && |row[LAST_USAGE]| == 8 && |row[TIMEOUT]| == 8 && |row[ADDR]| == 20
  }

  ghost predicate IsTable(conns: McfsSet)
    reads conns, conns.data
  {
    conns.Valid() && conns.itemSizes == ITEM_SIZES
  }

  lemma {:induction false} CountSnoc(rows: seq<Row>, i: nat, cat: nat, item: Item)
    requires i < |rows|
    ensures Count(rows[..i + 1], cat, item) == Count(rows[..i], cat, item) + if HasItem(rows[i], cat, item) then 1 else 0
  {
    if i == 0 {
      assert rows[..1] == [rows[0]] && rows[..1][1..] == [];
    } else {
      assert rows[..i + 1][1..] == rows[1..][..i] && rows[..i][1..] == rows[1..][..i - 1];
      assert rows[..i + 1][0] == rows[0] && rows[..i][0] == rows[0];
      CountSnoc(rows[1..], i - 1, cat, item);
    }
  }

  method CountInArray(conns: McfsSet, cat: nat, item: Item) returns (count: nat)
    requires conns.Valid() && cat < |conns.data| && |item| == conns.itemSizes[cat]
    ensures count == Count(conns.rows, cat, item)
  {
    count := 0;
    var a, size := conns.data[cat], |item|;
    assert ColumnHolds(a[..], size, conns.rows, cat);
    var i := 0;
    while i < conns.len
      invariant 0 <= i <= conns.len && count == Count(conns.rows[..i], cat, item)
    {
      assert HasItemAt(a[..], size, i, conns.rows[i][cat]);
      assert a[..][i * size..i * size + size] == a[i * size..i * size + size];
      CountSnoc(conns.rows, i, cat, item);
      if a[i * size..i * size + size] == item {
        count := count + 1;
      }
      i := i + 1;
    }
    assert conns.rows[..conns.len] == conns.rows;
  }

  method AcceptOne(conns: McfsSet, c: Config, e: Accepted) returns (closed: bool)
    requires IsTable(conns) && c.cap == conns.cap && |c.timeout| == 8 && |e.addr| == 20
    modifies conns, conns.data
    ensures IsTable(conns) && (conns.rows, closed) == Accept(c, old(conns.rows), e)
  {
    hide Count;
    hide FindRow;
    if !(e.nonBlockFails || e.keepAliveFails || c.enableDelaying) && e.noDelayFails {
      return true;
    }
    var n := CountInArray(conns, ADDR, e.addr);
    if n < PerAddressLimit(c.maxConnsPerIp) {
      var ret := conns.Add(NewRow(c, e), PFD);
      closed := ret != 0;
    } else {
      closed := true;
    }
  }

  /** The accept loop. Returns the descriptors closed again, and how many connections were taken. */
  method AcceptConnections(conns: McfsSet, c: Config, es: seq<Accepted>) returns (closedFds: seq<nat>)
    requires IsTable(conns) && c.cap == conns.cap && |c.timeout| == 8 && forall i | 0 <= i < |es| :: |es[i].addr| == 20
    modifies conns, conns.data
    ensures IsTable(conns) && (conns.rows, closedFds) == AcceptAll(c, old(conns.rows), es)
  {
    hide Accept;
    ghost var result := AcceptAll(c, conns.rows, es);
    closedFds := [];
    var i := 0;
    while conns.len < conns.cap && i < |es|
      invariant 0 <= i <= |es| && IsTable(conns)
      invariant result.0 == AcceptAll(c, conns.rows, es[i..]).0
      invariant result.1 == closedFds + AcceptAll(c, conns.rows, es[i..]).1
      decreases |es| - i
    {
      assert es[i..][0] == es[i] && es[i..][1..] == es[i + 1..];
      var closed := AcceptOne(conns, c, es[i]);
      if closed {
        closedFds := closedFds + [es[i].fd];
      }
      i := i + 1;
    }
    assert closedFds + [] == closedFds;
  }

  // ---- Noting a use

  lemma WriteItem(bytes: seq<Byte>, bytes': seq<Byte>, size: nat, rows: seq<Row>, k: nat, cat: nat, item: Item)
    requires ColumnHolds(bytes, size, rows, cat) && k < |rows| && |item| == size && size > 0
    requires k * size + size <= |bytes| && bytes' == bytes[..k * size] + item + bytes[k * size + size..]
    ensures cat < |rows[k]| && ColumnHolds(bytes', size, rows[k := rows[k][cat := item]], cat)
  {
    assert cat < |rows[k]|;
    var rows' := rows[k := rows[k][cat := item]];
    forall i | 0 <= i < |rows| ensures HasItemAt(bytes', size, i, rows'[i][cat]) {
      assert HasItemAt(bytes, size, i, rows[i][cat]);
      if i < k {
        Offsets(i, k, size);
        assert bytes'[i * size..i * size + size] == bytes[i * size..i * size + size];
      } else if i == k {
        assert bytes'[k * size..k * size + size] == item;
      } else {
        Offsets(k, i, size);
        assert bytes'[i * size..i * size + size] == bytes[i * size..i * size + size];
      }
    }
  }

  /** The time of the last use is written through the pointer to it. */
  method NoteUse(conns: McfsSet, pfd: Item, time: nat)
    requires IsTable(conns) && |pfd| == 8 && FindRow(conns.rows, PFD, pfd).Some?
    modifies conns, conns.data
    ensures IsTable(conns)
    ensures var k := FindRow(old(conns.rows), PFD, pfd).value;
            && LAST_USAGE < |old(conns.rows)[k]|
            && conns.rows == old(conns.rows)[k := old(conns.rows)[k][LAST_USAGE := LittleEndian(time, 8)]]
  {
    hide FindRow;
    hide LittleEndian;
    var ptr := conns.GetAssocItemPtr(pfd, PFD, LAST_USAGE);
    ghost var rows := conns.rows;
    ghost var k := FindRow(rows, PFD, pfd).value;
    ghost var bytes := conns.data[LAST_USAGE][..];
    assert conns.IsRow(rows[k]);
    assert ColumnHolds(bytes, 8, rows, LAST_USAGE);
    label Before:
    MemCpy(conns.data[LAST_USAGE], ptr.value, LittleEndian(time, 8));
    WriteItem(bytes, conns.data[LAST_USAGE][..], 8, rows, k, LAST_USAGE, LittleEndian(time, 8));
    conns.rows := rows[k := rows[k][LAST_USAGE := LittleEndian(time, 8)]];
    forall c | 0 <= c < 4 && c != LAST_USAGE
      ensures ColumnHolds(conns.data[c][..], conns.itemSizes[c], conns.rows, c)
    {
      assert conns.data[c][..] == old@Before(conns.data[c][..]);
      SameColumn(conns.data[c][..], conns.itemSizes[c], rows, conns.rows, c);
    }
    forall i | 0 <= i < conns.len ensures conns.IsRow(conns.rows[i]) {
      assert conns.IsRow(rows[i]);
    }
  }

  lemma SameColumn(bytes: seq<Byte>, size: nat, rows: seq<Row>, rows': seq<Row>, c: nat)
    requires ColumnHolds(bytes, size, rows, c) && |rows| == |rows'|
    requires forall i | 0 <= i < |rows| :: c < |rows[i]| && c < |rows'[i]| && rows'[i][c] == rows[i][c]
    ensures ColumnHolds(bytes, size, rows', c)
  {
    forall i | 0 <= i < |rows'| ensures HasItemAt(bytes, size, i, rows'[i][c]) {
      assert HasItemAt(bytes, size, i, rows[i][c]);
    }
  }

  // ---- Sweeping

  /** A connection without a timeout never expires. The idle time is a difference of size_t values. */
  predicate Expired(row: Row, now: nat)
    requires IsConnection(row)
  {
    var timeout := Signed(row[TIMEOUT]);
    timeout >= 0 && (now - Unsigned(row[LAST_USAGE])) % SIZE_T > timeout
  }

  ghost predicate AreConnections(rows: seq<Row>) {
    forall i | 0 <= i < |rows| :: IsConnection(rows[i])
  }

  function Kept(rows: seq<Row>, now: nat): seq<Row>
    requires AreConnections(rows)
  {
    if rows == [] then [] else (if Expired(rows[0], now) then [] else [rows[0]]) + Kept(rows[1..], now)
  }

  function Fd(row: Row): nat
    requires IsConnection(row)
  {
    Unsigned(row[PFD][..4])
  }

  /** The descriptors the sweep closes: for each expired record, that of the record which has moved
      into its place, or its own when there is none. */
  function SweepCloses(rows: seq<Row>, now: nat): seq<nat>
    requires AreConnections(rows)
  {
    if rows == [] then []
    else (if Expired(rows[0], now) then [Fd(if |rows| > 1 then rows[1] else rows[0])] else []) + SweepCloses(rows[1..], now)
  }

  function ExpiredFds(rows: seq<Row>, now: nat): seq<nat>
    requires AreConnections(rows)
  {
    if rows == [] then [] else (if Expired(rows[0], now) then [Fd(rows[0])] else []) + ExpiredFds(rows[1..], now)
  }

  /** The records left of `seen` and a record behind it, once that record has been looked at: when it has
      expired, the first record with its pollfd is removed. */
  function Looked(seen: seq<Row>, row: Row, now: nat): seq<Row>
    requires IsConnection(row)
  {
    if Expired(row, now) then Removed(seen + [row], row[PFD], PFD).0 else seen + [row]
  }

  /** The records left when all have been looked at, from the first to the last. */
  function Swept(rows: seq<Row>, now: nat): seq<Row>
    requires AreConnections(rows)
  {
    if rows == [] then []
    else
      var last := |rows| - 1;
      Looked(Swept(rows[..last], now), rows[last], now)
  }

  /** The table in the middle of a sweep: what is left of the first `j` records, then the others. */
  function MidSweep(rows: seq<Row>, now: nat, j: nat): seq<Row>
    requires AreConnections(rows) && j <= |rows|
  {
    Swept(rows[..j], now) + rows[j..]
  }

  /** The first record with the pollfd of a record is that record or one before it. */
  lemma FirstWithPfd(seen: seq<Row>, row: Row, rest: seq<Row>) returns (k: nat)
    requires IsConnection(row)
    ensures k <= |seen| && FindRow(seen + [row], PFD, row[PFD]) == Some(k)
    ensures FindRow(seen + ([row] + rest), PFD, row[PFD]) == Some(k)
    ensures Without(seen + [row], k) + rest == Without(seen + ([row] + rest), k)
  {
    var some := seen + [row];
    var all := seen + ([row] + rest);
    assert HasItem(some[|seen|], PFD, row[PFD]);
    k := FindRow(some, PFD, row[PFD]).value;
    assert forall i | 0 <= i < |some| :: all[i] == some[i];
    FindRowIs(all, PFD, row[PFD], Some(k));
    assert Without(some, k) + rest == Without(all, k);
  }

  lemma {:induction false} ClosesFrom(rows: seq<Row>, now: nat, j: nat)
    requires AreConnections(rows) && j < |rows|
    ensures AreConnections(rows[j..]) && AreConnections(rows[j + 1..])
    ensures SweepCloses(rows[j..], now) ==
            (if Expired(rows[j], now) then [Fd(if j + 1 < |rows| then rows[j + 1] else rows[j])] else []) +
            SweepCloses(rows[j + 1..], now)
  {
    assert rows[j..][1..] == rows[j + 1..];
  }

  lemma TableRows(conns: McfsSet)
    requires IsTable(conns)
    ensures AreConnections(conns.rows)
  {
    forall i | 0 <= i < |conns.rows| ensures IsConnection(conns.rows[i]) {
      assert conns.IsRow(conns.rows[i]);
    }
  }

  const SIZEOF_SIZE_T: nat := 8

  /** An item of one of the first three categories. The stride is the size of a size_t, which is also
      the size of each of these items. */
  method Load(conns: McfsSet, cat: nat, i: nat) returns (item: Item)
    requires IsTable(conns) && cat < 3 && i < conns.len
    ensures item == conns.rows[i][cat]
  {
    var a := conns.data[cat];
    assert ColumnHolds(a[..], 8, conns.rows, cat);
    assert HasItemAt(a[..], 8, i, conns.rows[i][cat]);
    assert a[..][i * 8..i * 8 + 8] == a[i * 8..i * 8 + 8];
    item := a[i * SIZEOF_SIZE_T..i * SIZEOF_SIZE_T + 8];
  }

  /** One look of the sweep at record `i`: when it has expired, the first record with its pollfd is
      removed, and then the descriptor is read from the place where record `i` was. */
  method SweepOne(conns: McfsSet, i: nat, now: nat) returns (removed: bool, fd: nat)
    requires IsTable(conns) && i < conns.len && AreConnections(conns.rows)
    modifies conns, conns.data
    ensures IsTable(conns)
    ensures var rows := old(conns.rows);
            if Expired(rows[i], now) then
              && removed && conns.rows == Removed(rows, rows[i][PFD], PFD).0
              && fd == Fd(if i + 1 < |rows| then rows[i + 1] else rows[i])
            else
              !removed && conns.rows == rows
  {
    hide FindRow;
    hide ColumnHolds;
    hide Unsigned;
    removed, fd := false, 0;
    ghost var rows := conns.rows;
    var pfd := Load(conns, PFD, i);
    var timeLastUsage := Load(conns, LAST_USAGE, i);
    var timeout := Load(conns, TIMEOUT, i);
    if Signed(timeout) >= 0 && (now - Unsigned(timeLastUsage)) % SIZE_T > Signed(timeout) {
      ghost var k := FirstWithPfd(rows[..i], rows[i], rows[i + 1..]);
      assert rows[..i] + ([rows[i]] + rows[i + 1..]) == rows;
      var ret := conns.Remove(pfd, PFD);
      if i < conns.len {
        PfdBytes(conns, i);
      } else {
        ItemBytes(conns.data[PFD][..], i, rows[i][PFD]);
      }
      var bytes := conns.data[PFD][i * SIZEOF_SIZE_T..i * SIZEOF_SIZE_T + 4];
      assert bytes == conns.data[PFD][..][i * 8..i * 8 + 4];
      removed, fd := true, Unsigned(bytes);
    }
  }

  /** The first half of a stored pollfd is its descriptor. */
  lemma ItemBytes(bytes: seq<Byte>, i: nat, pfd: Item)
    requires HasItemAt(bytes, 8, i, pfd) && |pfd| == 8
    ensures i * 8 + 8 <= |bytes| && bytes[i * 8..i * 8 + 4] == pfd[..4]
  {
    assert bytes[i * 8..i * 8 + 8][..4] == bytes[i * 8..i * 8 + 4];
  }

  lemma PfdBytes(conns: McfsSet, i: nat)
    requires IsTable(conns) && i < conns.len && IsConnection(conns.rows[i])
    ensures i * 8 + 8 <= conns.data[PFD].Length
    ensures conns.data[PFD][..][i * 8..i * 8 + 4] == conns.rows[i][PFD][..4]
  {
    assert ColumnHolds(conns.data[PFD][..], 8, conns.rows, PFD);
    ItemBytes(conns.data[PFD][..], i, conns.rows[i][PFD]);
  }

  /** What looking at original record `j` does to the table in the middle of a sweep. */
  lemma MidStep(rows: seq<Row>, now: nat, j: nat)
    requires AreConnections(rows) && j < |rows|
    ensures var i, mid := |Swept(rows[..j], now)|, MidSweep(rows, now, j);
            && i < |mid| && mid[i] == rows[j] && |mid| - i == |rows| - j
            && |MidSweep(rows, now, j + 1)| == |Swept(rows[..j + 1], now)| + |rows| - (j + 1)
            && (if i + 1 < |mid| then mid[i + 1] else mid[i]) == (if j + 1 < |rows| then rows[j + 1] else rows[j])
            && MidSweep(rows, now, j + 1) == (if Expired(rows[j], now) then Removed(mid, rows[j][PFD], PFD).0 else mid)
            && |Swept(rows[..j + 1], now)| == (if Expired(rows[j], now) then i else i + 1)
  {
    hide Expired;
    hide FindRow;
    var seen, rest := Swept(rows[..j], now), rows[j + 1..];
    assert rows[..j + 1][..j] == rows[..j];
    assert Swept(rows[..j + 1], now) == Looked(seen, rows[j], now);
    assert rows[j..] == [rows[j]] + rest;
    assert seen + [rows[j]] + rest == seen + ([rows[j]] + rest);
    var k := FirstWithPfd(seen, rows[j], rest);
  }

  lemma MidEnds(rows: seq<Row>, now: nat)
    requires AreConnections(rows)
    ensures MidSweep(rows, now, 0) == rows && Swept(rows[..0], now) == []
    ensures MidSweep(rows, now, |rows|) == Swept(rows, now)
    ensures SweepCloses(rows[|rows|..], now) == [] && rows[0..] == rows && AreConnections(rows[..0]) && rows[..|rows|] == rows
  {
    assert rows[..|rows|] == rows && rows[..0] == [] && rows[|rows|..] == [];
  }

  /** Arithmetic of a size_t. */
  function SizeT(x: int): nat {
    x % SIZE_T
  }

  lemma BackAndForth(i: nat)
    requires i < SIZE_T
    ensures SizeT(SizeT(i - 1) + 1) == i
    ensures i + 1 < SIZE_T ==> SizeT(i + 1) == i + 1
  {
    if i == 0 { assert SizeT(-1) == SIZE_T - 1; }
  }

  lemma AppendFirst(fds: seq<nat>, first: seq<nat>, rest: seq<nat>)
    ensures fds + (first + rest) == fds + first + rest
    ensures fds + [] == fds && [] + rest == rest
  {
  }

  lemma PrefixesAreConnections(rows: seq<Row>, j: nat)
    requires AreConnections(rows) && j <= |rows|
    ensures AreConnections(rows[..j]) && AreConnections(rows[j..])
  {
  }

  /** One turn of the sweep's loop, at original record `j`. */
  method SweepTurn(conns: McfsSet, i: nat, now: nat, ghost rows: seq<Row>, ghost j: nat) returns (removed: bool, fd: nat)
    requires IsTable(conns) && AreConnections(rows) && j < |rows| && AreConnections(rows[..j])
    requires conns.rows == MidSweep(rows, now, j) && i == |Swept(rows[..j], now)|
    modifies conns, conns.data
    ensures IsTable(conns) && AreConnections(rows[..j + 1]) && AreConnections(rows[j..]) && AreConnections(rows[j + 1..])
    ensures conns.rows == MidSweep(rows, now, j + 1) && |conns.rows| == |Swept(rows[..j + 1], now)| + |rows| - (j + 1)
    ensures |Swept(rows[..j + 1], now)| == if removed then i else i + 1
    ensures SweepCloses(rows[j..], now) == (if removed then [fd] else []) + SweepCloses(rows[j + 1..], now)
  {
    hide Expired;
    hide Swept;
    hide MidSweep;
    hide Removed;
    hide SweepCloses;
    hide IsConnection;
    PrefixesAreConnections(rows, j + 1);
    MidStep(rows, now, j);
    ClosesFrom(rows, now, j);
    TableRows(conns);
    removed, fd := SweepOne(conns, i, now);
  }

  /** The timeout sweep. The index is a size_t: stepping back from 0 wraps around, and the loop's own
      increment wraps it back. */
  method SweepTimeouts(conns: McfsSet, now: nat) returns (closedFds: seq<nat>)
    requires IsTable(conns) && AreConnections(conns.rows) && conns.cap < SIZE_T
    modifies conns, conns.data
    ensures IsTable(conns)
    ensures conns.rows == Swept(old(conns.rows), now) && closedFds == SweepCloses(old(conns.rows), now)
  {
    hide AreConnections;
    hide SweepCloses;
    hide Swept;
    hide MidSweep;
    hide SizeT;
    ghost var rows := conns.rows;
    ghost var j := 0;
    closedFds := [];
    var i := 0;
    MidEnds(rows, now);
    AppendFirst([], [], SweepCloses(rows, now));
    while i < conns.len
      invariant IsTable(conns) && 0 <= j <= |rows| && conns.len - i == |rows| - j
      invariant AreConnections(rows[..j]) && AreConnections(rows[j..])
      invariant i == |Swept(rows[..j], now)| && conns.rows == MidSweep(rows, now, j)
      invariant closedFds + SweepCloses(rows[j..], now) == SweepCloses(rows, now)
      decreases |rows| - j
    {
      BackAndForth(i);
      var removed, fd := SweepTurn(conns, i, now, rows, j);
      AppendFirst(closedFds, if removed then [fd] else [], SweepCloses(rows[j + 1..], now));
      if removed {
        closedFds := closedFds + [fd];
        i := SizeT(i - 1);
      }
      i := SizeT(i + 1);
      j := j + 1;
    }
    AppendFirst(closedFds, [], []);
  }

  // ---- What the sweep is for

  /** As long as the clock is not behind the stored time, a connection expires exactly when it has a
      timeout and has been idle for longer. */
  lemma ExpiredMeansIdle(row: Row, now: nat)
    requires IsConnection(row) && Unsigned(row[LAST_USAGE]) <= now < SIZE_T
    ensures Expired(row, now) <==>
            0 <= Signed(row[TIMEOUT]) && now - Unsigned(row[LAST_USAGE]) > Signed(row[TIMEOUT])
  {
  }

  /** A clock that is behind the stored time, by less than 2^63, expires every connection with a timeout. */
  lemma ClockBehindExpiresAll(row: Row, now: nat)
    requires IsConnection(row) && now < Unsigned(row[LAST_USAGE]) <= now + SIZE_T / 2
    ensures Expired(row, now) <==> 0 <= Signed(row[TIMEOUT])
  {
    var idle := now - Unsigned(row[LAST_USAGE]);
    UnsignedBound(row[TIMEOUT]);
    UnsignedBound(row[LAST_USAGE]);
    Pow256Of8();
    assert idle % SIZE_T == idle + SIZE_T;
  }

  /** What the test for expiry is for: a timeout is set and the time since the last use exceeds it. */
  predicate IsIdle(row: Row, now: nat)
    requires IsConnection(row)
  {
    0 <= Signed(row[TIMEOUT]) < now - Unsigned(row[LAST_USAGE])
  }

  /** With a clock that is behind the stored time by at most 2^63, the test is right exactly when the
      clock is not behind or no timeout is set. */
  lemma ExpiryNeedsClock(row: Row, now: nat)
    requires IsConnection(row) && now < SIZE_T && Unsigned(row[LAST_USAGE]) <= now + SIZE_T / 2
    ensures (Expired(row, now) <==> IsIdle(row, now)) <==>
            Unsigned(row[LAST_USAGE]) <= now || Signed(row[TIMEOUT]) < 0
  {
    hide Unsigned;
    hide Signed;
    if Unsigned(row[LAST_USAGE]) <= now {
      ExpiredMeansIdle(row, now);
    } else {
      ClockBehindExpiresAll(row, now);
    }
  }

  /** For instance: a connection with a timeout of one hour is dropped when the clock is one microsecond
      behind its last use. */
  lemma SlightlyBehindClock(pfd: Item, addr: Item)
    requires |pfd| == 8 && |addr| == 20
    ensures var row := [pfd, LittleEndian(1_000_001, 8), LittleEndian(3_600_000_000, 8), addr];
            Expired(row, 1_000_000) && !IsIdle(row, 1_000_000)
  {
    hide LittleEndian;
    hide Unsigned;
    Pow256Of8();
    StoredNumberIsRead(1_000_001, 8);
    StoredNumberIsRead(3_600_000_000, 8);
    var row := [pfd, LittleEndian(1_000_001, 8), LittleEndian(3_600_000_000, 8), addr];
    assert Signed(row[TIMEOUT]) == 3_600_000_000 && Unsigned(row[LAST_USAGE]) == 1_000_001;
    ClockBehindExpiresAll(row, 1_000_000);
  }

  lemma {:induction false} UnsignedBound(b: Item)
    ensures Unsigned(b) < Pow256(|b|)
  {
    if b != [] { UnsignedBound(b[1..]); }
  }

  lemma Pow256Of8()
    ensures Pow256(8) == SIZE_T
  {
    assert Pow256(4) == 0x1_0000_0000;
    assert Pow256(8) == 256 * (256 * (256 * (256 * Pow256(4))));
  }

  ghost predicate DistinctFds(rows: seq<Row>) {
    AreConnections(rows) && forall i, j | 0 <= i < j < |rows| :: Fd(rows[i]) != Fd(rows[j])
  }

  /** The sweep closes the descriptors of the connections it removes exactly when no connection but
      the last one in the table has expired; otherwise it closes that of a connection it keeps or
      removes later. */
  lemma {:induction false} SweepClosesItsOwn(rows: seq<Row>, now: nat)
    requires DistinctFds(rows)
    ensures SweepCloses(rows, now) == ExpiredFds(rows, now) <==>
            forall j | 0 <= j < |rows| - 1 :: !Expired(rows[j], now)
  {
    hide Expired;
    hide Fd;
    if |rows| > 1 {
      SweepClosesItsOwn(rows[1..], now);
      if Expired(rows[0], now) {
        assert SweepCloses(rows, now)[0] == Fd(rows[1]) && ExpiredFds(rows, now)[0] == Fd(rows[0]);
      } else {
        assert SweepCloses(rows, now) == SweepCloses(rows[1..], now);
        assert ExpiredFds(rows, now) == ExpiredFds(rows[1..], now);
        assert forall j | 0 <= j < |rows[1..]| - 1 :: rows[1..][j] == rows[j + 1];
        if forall j | 0 <= j < |rows[1..]| - 1 :: !Expired(rows[1..][j], now) {
          forall j | 0 <= j < |rows| - 1 ensures !Expired(rows[j], now) {
            if j > 0 { assert rows[1..][j - 1] == rows[j]; }
          }
        }
      }
    }
  }

  lemma {:induction false} WhoseFdIsClosed(rows: seq<Row>, now: nat, fd: nat) returns (k: nat)
    requires AreConnections(rows) && fd in SweepCloses(rows, now)
    ensures k < |rows| && Expired(rows[k], now) && fd == Fd(rows[if k + 1 < |rows| then k + 1 else k])
  {
    hide Expired;
    hide Fd;
    if Expired(rows[0], now) && fd == Fd(if |rows| > 1 then rows[1] else rows[0]) {
      k := 0;
    } else {
      k := WhoseFdIsClosed(rows[1..], now, fd);
      k := k + 1;
    }
  }

  /** The sweep closes one descriptor for each expired connection, in order: that of the connection behind
      it, or its own if it is the last in the table. */
  lemma {:induction false} EachExpiredCloses(rows: seq<Row>, now: nat, j: nat)
    requires AreConnections(rows) && j < |rows| && Expired(rows[j], now)
    ensures AreConnections(rows[..j])
    ensures var n := |ExpiredFds(rows[..j], now)|;
            && |SweepCloses(rows, now)| == |ExpiredFds(rows, now)| && n < |SweepCloses(rows, now)|
            && SweepCloses(rows, now)[n] == Fd(rows[if j + 1 < |rows| then j + 1 else j])
  {
    hide Expired;
    hide Fd;
    hide IsConnection;
    SameNumber(rows, now);
    if j == 0 {
      assert rows[..0] == [];
    } else {
      assert rows[..j][1..] == rows[1..][..j - 1] && rows[..j][0] == rows[0];
      EachExpiredCloses(rows[1..], now, j - 1);
    }
  }

  lemma {:induction false} SameNumber(rows: seq<Row>, now: nat)
    requires AreConnections(rows)
    ensures |SweepCloses(rows, now)| == |ExpiredFds(rows, now)|
  {
    hide Expired;
    hide Fd;
    if rows != [] { SameNumber(rows[1..], now); }
  }

  /** When a connection other than the last one expires, the first to expire is dropped from the table
      while its descriptor stays open. */
  lemma FirstExpiredIsLeaked(rows: seq<Row>, now: nat, j: nat)
    requires DistinctFds(rows) && j + 1 < |rows| && Expired(rows[j], now)
    requires forall k | 0 <= k < j :: !Expired(rows[k], now)
    ensures Fd(rows[j]) !in SweepCloses(rows, now)
  {
    hide Expired;
    hide Fd;
    hide SweepCloses;
    if Fd(rows[j]) in SweepCloses(rows, now) {
      var k := WhoseFdIsClosed(rows, now, Fd(rows[j]));
    }
  }
}
