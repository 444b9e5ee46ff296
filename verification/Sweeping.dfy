/** lib/server.c: when the timeout sweep does what it is for. */
module Sweeping {
  import opened Text
  import opened Mcfss
  import opened Server

  lemma {:induction false} KeptAppend(a: seq<Row>, b: seq<Row>, now: nat)
    requires AreConnections(a) && AreConnections(b)
    ensures AreConnections(a + b) && Kept(a + b, now) == Kept(a, now) + Kept(b, now)
  {
    hide Expired;
    hide IsConnection;
    if a == [] {
      assert a + b == b;
    } else {
      assert (a + b)[1..] == a[1..] + b && (a + b)[0] == a[0];
      KeptAppend(a[1..], b, now);
    }
  }

  lemma KeptOne(row: Row, now: nat)
    requires IsConnection(row)
    ensures Kept([row], now) == if Expired(row, now) then [] else [row]
  {
    hide Expired;
    assert [row][1..] == [];
  }

  /** Kept records are among the records. */
  lemma {:induction false} KeptAreRows(rows: seq<Row>, now: nat, i: nat) returns (j: nat)
    requires AreConnections(rows) && i < |Kept(rows, now)|
    ensures j < |rows| && Kept(rows, now)[i] == rows[j] && !Expired(rows[j], now)
  {
    hide Expired;
    if Expired(rows[0], now) {
      j := KeptAreRows(rows[1..], now, i);
      j := j + 1;
    } else if i == 0 {
      j := 0;
    } else {
      j := KeptAreRows(rows[1..], now, i - 1);
      j := j + 1;
    }
  }

  /** A record that has not expired is kept. */
  lemma {:induction false} RowIsKept(rows: seq<Row>, now: nat, j: nat) returns (i: nat)
    requires AreConnections(rows) && j < |rows| && !Expired(rows[j], now)
    ensures i < |Kept(rows, now)| && Kept(rows, now)[i] == rows[j]
  {
    hide Expired;
    if j == 0 {
      i := 0;
    } else {
      i := RowIsKept(rows[1..], now, j - 1);
      if !Expired(rows[0], now) { i := i + 1; }
    }
  }

  lemma {:induction false} KeptIsKept(rows: seq<Row>, now: nat)
    requires AreConnections(rows)
    ensures AreConnections(Kept(rows, now)) && Kept(Kept(rows, now), now) == Kept(rows, now)
  {
    hide Expired;
    hide IsConnection;
    if rows != [] {
      KeptIsKept(rows[1..], now);
      var k := Kept(rows[1..], now);
      if Expired(rows[0], now) { assert [] + k == k; } else { assert ([rows[0]] + k)[1..] == k; }
    }
  }

  lemma KeptWithout(rows: seq<Row>, k: nat, now: nat)
    requires AreConnections(rows) && k < |rows|
    ensures AreConnections(Without(rows, k))
    ensures |Kept(Without(rows, k), now)| == |Kept(rows, now)| - if Expired(rows[k], now) then 0 else 1
  {
    hide Expired;
    hide IsConnection;
    hide Kept;
    var a, b := rows[..k], rows[k + 1..];
    assert rows == a + ([rows[k]] + b);
    KeptAppend([rows[k]], b, now);
    KeptAppend(a, [rows[k]] + b, now);
    KeptAppend(a, b, now);
    KeptOne(rows[k], now);
  }

  /** An expired record comes after one with the same pollfd that has not expired. */
  ghost predicate Mistakable(rows: seq<Row>, now: nat)
    requires AreConnections(rows)
  {
    exists i, j | 0 <= i < j < |rows| :: Mistaken(rows, now, i, j)
  }

  predicate Mistaken(rows: seq<Row>, now: nat, i: nat, j: nat)
    requires AreConnections(rows) && i < j < |rows|
  {
    !Expired(rows[i], now) && Expired(rows[j], now) && rows[i][PFD] == rows[j][PFD]
  }

  /** Looking at a record behind kept ones: unless its pollfd is theirs, it is kept or removed itself. */
  lemma LookedAtKept(rows: seq<Row>, row: Row, now: nat)
    requires AreConnections(rows) && IsConnection(row)
    requires Expired(row, now) ==> forall i | 0 <= i < |rows| && !Expired(rows[i], now) :: rows[i][PFD] != row[PFD]
    ensures Looked(Kept(rows, now), row, now) == Kept(rows, now) + Kept([row], now)
  {
    hide Expired;
    hide FindRow;
    hide Kept;
    KeptOne(row, now);
    if Expired(row, now) {
      var kept := Kept(rows, now);
      var all := kept + [row];
      assert HasItem(all[|kept|], PFD, row[PFD]);
      forall k | 0 <= k < |kept| ensures !HasItem(all[k], PFD, row[PFD]) {
        var l := KeptAreRows(rows, now, k);
      }
      FindRowIs(all, PFD, row[PFD], Some(|kept|));
      assert Without(all, |kept|) == kept + [];
    }
  }

  lemma MistakableUpTo(rows: seq<Row>, now: nat)
    requires AreConnections(rows) && rows != []
    ensures var last := |rows| - 1;
            Mistakable(rows, now) <==>
              || Mistakable(rows[..last], now)
              || exists i | 0 <= i < last :: Mistaken(rows, now, i, last)
  {
    var last := |rows| - 1;
    if Mistakable(rows, now) {
      var i, j :| 0 <= i < j < |rows| && Mistaken(rows, now, i, j);
      if j < last { assert Mistaken(rows[..last], now, i, j); }
    }
    if Mistakable(rows[..last], now) {
      var i, j :| 0 <= i < j < last && Mistaken(rows[..last], now, i, j);
      assert Mistaken(rows, now, i, j);
    }
  }

  lemma AsFront(rows: seq<Row>)
    requires rows != []
    ensures rows == rows[..|rows| - 1] + [rows[|rows| - 1]]
  {
  }

  /** Where no record can be mistaken for another, the sweep keeps exactly what has not expired. */
  lemma {:induction false} SweptIsKept(rows: seq<Row>, now: nat)
    requires AreConnections(rows) && !Mistakable(rows, now)
    ensures Swept(rows, now) == Kept(rows, now)
  {
    hide Expired;
    hide Kept;
    hide Looked;
    if rows == [] {
      NothingKept(now);
    } else {
      var last := |rows| - 1;
      MistakableUpTo(rows, now);
      SweptIsKept(rows[..last], now);
      forall i | 0 <= i < last && Expired(rows[last], now) && !Expired(rows[i], now)
        ensures rows[i][PFD] != rows[last][PFD]
      {
        assert !Mistaken(rows, now, i, last);
      }
      LookedAtKept(rows[..last], rows[last], now);
      AsFront(rows);
      KeptAppend(rows[..last], [rows[last]], now);
    }
  }

  lemma NothingKept(now: nat)
    ensures Kept([], now) == []
  {
  }

  /** A look never adds a record that has not expired to those there were. */
  lemma LookedKeeps(seen: seq<Row>, row: Row, now: nat)
    requires AreConnections(seen) && IsConnection(row)
    ensures AreConnections(Looked(seen, row, now))
    ensures |Kept(Looked(seen, row, now), now)| <= |Kept(seen, now)| + |Kept([row], now)|
  {
    hide Expired;
    hide Kept;
    hide FindRow;
    KeptAppend(seen, [row], now);
    var k := FirstWithPfd(seen, row, []);
    KeptWithout(seen + [row], k, now);
  }

  /** Looking at an expired record behind one with its pollfd that is to be kept removes one that is to
      be kept. */
  lemma LookedLoses(rows: seq<Row>, row: Row, now: nat, i: nat)
    requires AreConnections(rows) && IsConnection(row) && Expired(row, now)
    requires i < |rows| && !Expired(rows[i], now) && rows[i][PFD] == row[PFD]
    ensures AreConnections(Looked(Kept(rows, now), row, now))
    ensures |Kept(Looked(Kept(rows, now), row, now), now)| < |Kept(rows, now)|
  {
    hide Expired;
    hide Kept;
    hide FindRow;
    var kept := Kept(rows, now);
    KeptIsKept(rows, now);
    KeptAppend(kept, [row], now);
    KeptOne(row, now);
    var at := RowIsKept(rows, now, i);
    var k := FirstWithPfd(kept, row, []);
    assert HasItem((kept + [row])[at], PFD, row[PFD]);
    var l := KeptAreRows(rows, now, k);
    KeptWithout(kept + [row], k, now);
  }

  /** Otherwise a record that has not expired is removed. */
  lemma {:induction false} SweptLoses(rows: seq<Row>, now: nat)
    requires AreConnections(rows) && Mistakable(rows, now)
    ensures AreConnections(Swept(rows, now)) && |Kept(Swept(rows, now), now)| < |Kept(rows, now)|
  {
    hide Expired;
    hide Kept;
    hide Looked;
    var last := |rows| - 1;
    var before, row := rows[..last], rows[last];
    MistakableUpTo(rows, now);
    AsFront(rows);
    KeptAppend(before, [row], now);
    KeptOne(row, now);
    if Mistakable(before, now) {
      SweptLoses(before, now);
      LookedKeeps(Swept(before, now), row, now);
    } else {
      var i :| 0 <= i < last && Mistaken(rows, now, i, last);
      SweptIsKept(before, now);
      LookedLoses(before, row, now, i);
    }
  }

  /** The sweep leaves exactly the records that have not expired, in order, if and only if no expired one
      comes after one with the same pollfd that has not expired. */
  lemma SweepIsFilter(rows: seq<Row>, now: nat)
    requires AreConnections(rows)
    ensures Swept(rows, now) == Kept(rows, now) <==> !Mistakable(rows, now)
  {
    hide Expired;
    hide Kept;
    hide Swept;
    if Mistakable(rows, now) {
      SweptLoses(rows, now);
      KeptIsKept(rows, now);
    } else {
      SweptIsKept(rows, now);
    }
  }

  /** For instance: of two records with the same pollfd, of which only the second has expired, the sweep
      removes the first. */
  lemma WrongRecordIsRemoved(row: Row, expired: Row, now: nat)
    requires IsConnection(row) && IsConnection(expired) && row[PFD] == expired[PFD]
    requires !Expired(row, now) && Expired(expired, now)
    ensures Swept([row, expired], now) == [expired] && Kept([row, expired], now) == [row]
  {
    hide Expired;
    var rows: seq<Row> := [row, expired];
    var first: seq<Row> := [row];
    assert rows[..1] == first && rows[1..] == [expired];
    assert Swept(first, now) == Swept(first[..0], now) + first;
    assert HasItem(([row] + [expired])[0], PFD, expired[PFD]);
    FindRowIs([row] + [expired], PFD, expired[PFD], Some(0));
    assert Without([row] + [expired], 0) == [expired];
    KeptOne(expired, now);
  }
}
