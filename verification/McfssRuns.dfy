/** A set whose additions are checked on one category is a map from that category. */
module McfssRuns {
  import opened Text
  import opened Mcfss

  datatype Op = Add(items: Row, check: nat) | Remove(item: Item, cat: nat)

  function Apply(rows: seq<Row>, cap: nat, op: Op): seq<Row> {
    match op
    case Add(items, check) => if check < |items| then Added(rows, cap, items, check).0 else rows
    case Remove(item, cat) => Removed(rows, item, cat).0
  }

  function ApplyAll(rows: seq<Row>, cap: nat, ops: seq<Op>): seq<Row>
    decreases |ops|
  {
    if ops == [] then rows else ApplyAll(Apply(rows, cap, ops[0]), cap, ops[1..])
  }

  /** Every record has `n` items, and no two agree on category `k`. */
  ghost predicate KeyedBy(rows: seq<Row>, n: nat, k: nat) {
    && (forall i | 0 <= i < |rows| :: |rows[i]| == n)
    && k < n
    && forall i, j | 0 <= i < j < |rows| :: rows[i][k] != rows[j][k]
  }

  /** Additions are of whole records and check category `k`; removals may use any category. */
  predicate Checks(op: Op, n: nat, k: nat) {
    op.Add? ==> |op.items| == n && op.check == k
  }

  lemma ApplyKeepsKeys(rows: seq<Row>, cap: nat, op: Op, n: nat, k: nat)
    requires KeyedBy(rows, n, k) && |rows| <= cap && Checks(op, n, k)
    ensures KeyedBy(Apply(rows, cap, op), n, k) && |Apply(rows, cap, op)| <= cap
  {
    if op.Add? {
      var i := FindRow(rows, k, op.items[k]);
      if i.None? {
        assert forall j | 0 <= j < |rows| :: !HasItem(rows[j], k, op.items[k]);
      }
    }
  }

  /** In every run, the keys stay distinct and the capacity is kept. */
  lemma {:induction false} KeysStayDistinct(rows: seq<Row>, cap: nat, ops: seq<Op>, n: nat, k: nat)
    requires KeyedBy(rows, n, k) && |rows| <= cap && forall i | 0 <= i < |ops| :: Checks(ops[i], n, k)
    ensures KeyedBy(ApplyAll(rows, cap, ops), n, k) && |ApplyAll(rows, cap, ops)| <= cap
    decreases |ops|
  {
    if ops != [] {
      ApplyKeepsKeys(rows, cap, ops[0], n, k);
      KeysStayDistinct(Apply(rows, cap, ops[0]), cap, ops[1..], n, k);
    }
  }

  /** What the calls report, and what they do to the records: an addition reports a full set, and otherwise
      adds the record unless its checked item is present; a removal reports a missing item, and otherwise
      takes away the first record that has it, and leaves the others in their order. */
  lemma CallsReport(rows: seq<Row>, cap: nat, items: Row, check: nat, item: Item, cat: nat)
    requires |rows| <= cap && check < |items|
    ensures var (added, ret) := Added(rows, cap, items, check);
            && ret == (if |rows| < cap then 0 else 1)
            && (added == rows + [items] <==> |rows| < cap && forall i | 0 <= i < |rows| :: !HasItem(rows[i], check, items[check]))
            && (added == rows || added == rows + [items])
    ensures var (removed, ret) := Removed(rows, item, cat);
            if forall i | 0 <= i < |rows| :: !HasItem(rows[i], cat, item) then ret == 1 && removed == rows
            else ret == 0 && exists a, row, b ::
                   && rows == a + [row] + b && removed == a + b && HasItem(row, cat, item)
                   && forall i | 0 <= i < |a| :: !HasItem(a[i], cat, item)
  {
    var f := FindRow(rows, check, items[check]);
    assert |rows + [items]| != |rows|;
    match FindRow(rows, cat, item)
    case None =>
    case Some(k) =>
      assert rows == rows[..k] + [rows[k]] + rows[k + 1..];
      assert HasItem(rows[k], cat, item);
  }

  /** What GetAssocItemPtr points to. */
  function Lookup(rows: seq<Row>, k: nat, key: Item, target: nat): Option<Item> {
    match FindRow(rows, k, key)
    case None => None
    case Some(i) => if target < |rows[i]| then Some(rows[i][target]) else None
  }

  lemma LookupIs(rows: seq<Row>, n: nat, k: nat, target: nat, i: nat)
    requires KeyedBy(rows, n, k) && i < |rows| && target < n
    ensures Lookup(rows, k, rows[i][k], target) == Some(rows[i][target])
  {
    assert HasItem(rows[i], k, rows[i][k]);
    var f := FindRow(rows, k, rows[i][k]).value;
    assert HasItem(rows[f], k, rows[i][k]);
  }

  lemma LookupNone(rows: seq<Row>, k: nat, key: Item, target: nat)
    requires forall i | 0 <= i < |rows| :: !HasItem(rows[i], k, key)
    ensures Lookup(rows, k, key, target).None?
  {
  }

  /** Looking up a key gives what was stored with it. An addition adds one association and changes no
      other; removing a key through its own category removes its association and changes no other. */
  lemma SetIsAMap(rows: seq<Row>, cap: nat, n: nat, k: nat, target: nat, items: Row, key: Item, other: Item)
    requires KeyedBy(rows, n, k) && target < n && |items| == n && other != key
    ensures forall i | 0 <= i < |rows| :: Lookup(rows, k, rows[i][k], target) == Some(rows[i][target])
    ensures var added := Added(rows, cap, items, k).0;
            && (|rows| < cap && Lookup(rows, k, items[k], target).None? ==>
                  Lookup(added, k, items[k], target) == Some(items[target]))
            && (other != items[k] ==> Lookup(added, k, other, target) == Lookup(rows, k, other, target))
    ensures var removed := Removed(rows, key, k).0;
            && Lookup(removed, k, key, target).None?
            && Lookup(removed, k, other, target) == Lookup(rows, k, other, target)
  {
    forall i | 0 <= i < |rows| ensures Lookup(rows, k, rows[i][k], target) == Some(rows[i][target]) {
      LookupIs(rows, n, k, target, i);
    }
    AddedLookup(rows, cap, n, k, target, items, other);
    RemovedLookup(rows, n, k, target, key, other);
  }

  lemma SameLookup(rows: seq<Row>, rows': seq<Row>, n: nat, k: nat, target: nat, key: Item)
    requires KeyedBy(rows, n, k) && KeyedBy(rows', n, k) && target < n
    requires forall row: Row | HasItem(row, k, key) :: row in rows <==> row in rows'
    ensures Lookup(rows, k, key, target) == Lookup(rows', k, key, target)
  {
    match FindRow(rows, k, key) {
      case None =>
        forall i | 0 <= i < |rows'| ensures !HasItem(rows'[i], k, key) {
          var row := rows'[i];
          assert HasItem(row, k, key) ==> row in rows;
        }
        LookupNone(rows', k, key, target);
      case Some(i) =>
        assert HasItem(rows[i], k, key) && rows[i] in rows';
        var j :| 0 <= j < |rows'| && rows'[j] == rows[i];
        LookupIs(rows', n, k, target, j);
    }
  }

  lemma AddedLookup(rows: seq<Row>, cap: nat, n: nat, k: nat, target: nat, items: Row, other: Item)
    requires KeyedBy(rows, n, k) && target < n && |items| == n
    ensures var added := Added(rows, cap, items, k).0;
            && (|rows| < cap && Lookup(rows, k, items[k], target).None? ==>
                  Lookup(added, k, items[k], target) == Some(items[target]))
            && (other != items[k] ==> Lookup(added, k, other, target) == Lookup(rows, k, other, target))
  {
    var added := Added(rows, cap, items, k).0;
    if added != rows {
      forall i | 0 <= i < |rows| ensures !HasItem(rows[i], k, items[k]) {}
      assert KeyedBy(added, n, k);
      LookupIs(added, n, k, target, |rows|);
      if other != items[k] { SameLookup(rows, added, n, k, target, other); }
    }
  }

  lemma RemovedLookup(rows: seq<Row>, n: nat, k: nat, target: nat, key: Item, other: Item)
    requires KeyedBy(rows, n, k) && target < n && other != key
    ensures var removed := Removed(rows, key, k).0;
            && Lookup(removed, k, key, target).None?
            && Lookup(removed, k, other, target) == Lookup(rows, k, other, target)
  {
    var removed := Removed(rows, key, k).0;
    match FindRow(rows, k, key) {
      case None =>
      case Some(i) =>
        assert HasItem(rows[i], k, key);
        forall j | 0 <= j < |removed| ensures !HasItem(removed[j], k, key) {
          assert removed[j] == if j < i then rows[j] else rows[j + 1];
        }
        LookupNone(removed, k, key, target);
        forall row: Row | HasItem(row, k, other) ensures row in rows <==> row in removed {
          if row in rows {
            var j :| 0 <= j < |rows| && rows[j] == row;
            assert j != i;
            assert removed[if j < i then j else j - 1] == row;
          }
        }
        SameLookup(rows, removed, n, k, target, other);
    }
  }
}
