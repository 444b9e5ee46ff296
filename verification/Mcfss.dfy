/** lib/mcfss.c: a set of records stored as one flat byte column per category. */
module Mcfss {
  import opened Text

  type Byte = x: int | 0 <= x < 256
  type Item = seq<Byte>
  type Row = seq<Item>

  // ---- The set as a sequence of records

  /** Index of the first record whose item of category `cat` is `item`. */
  function FindRow(rows: seq<Row>, cat: nat, item: Item): (r: Option<nat>)
    ensures match r
            case None => forall i | 0 <= i < |rows| :: !HasItem(rows[i], cat, item)
            case Some(k) => k < |rows| && HasItem(rows[k], cat, item) && forall i | 0 <= i < k :: !HasItem(rows[i], cat, item)
  {
    if rows == [] then None
    else if HasItem(rows[0], cat, item) then Some(0)
    else match FindRow(rows[1..], cat, item) case None => None case Some(i) => Some(i + 1)
  }

  predicate HasItem(row: Row, cat: nat, item: Item) {
    cat < |row| && row[cat] == item
  }

  lemma FindRowIs(rows: seq<Row>, cat: nat, item: Item, r: Option<nat>)
    requires match r
             case None => forall i | 0 <= i < |rows| :: !HasItem(rows[i], cat, item)
             case Some(k) => k < |rows| && HasItem(rows[k], cat, item) && forall i | 0 <= i < k :: !HasItem(rows[i], cat, item)
    ensures FindRow(rows, cat, item) == r
  {
    var f := FindRow(rows, cat, item);
    if f.Some? && r.Some? {
      assert !(f.value < r.value) && !(r.value < f.value);
    }
  }

  /** Adding appends unless the set is full, which is reported even for an item that is present, or
      the item of the checked category is present. */
  function Added(rows: seq<Row>, cap: nat, items: Row, cat: nat): (seq<Row>, int)
    requires cat < |items|
  {
    if |rows| == cap then (rows, 1)
    else if FindRow(rows, cat, items[cat]).Some? then (rows, 0)
    else (rows + [items], 0)
  }

  function Without(rows: seq<Row>, k: nat): seq<Row>
    requires k < |rows|
  {
    rows[..k] + rows[k + 1..]
  }

  function Removed(rows: seq<Row>, item: Item, cat: nat): (seq<Row>, int) {
    match FindRow(rows, cat, item)
    case None => (rows, 1)
    case Some(k) => (Without(rows, k), 0)
  }

  // ---- Columns of bytes

  /** Record `i` starts where the `i` records before it end. */
  lemma Offsets(i: nat, n: nat, size: nat)
    requires i < n
    ensures i * size + size == (i + 1) * size <= n * size
  {
  }

  predicate HasItemAt(bytes: seq<Byte>, size: nat, i: nat, item: Item) {
    i * size + size <= |bytes| && bytes[i * size..i * size + size] == item
  }

  /** The first `|rows|` items of the column are those of category `c`. */
  ghost predicate ColumnHolds(bytes: seq<Byte>, size: nat, rows: seq<Row>, c: nat) {
    forall i | 0 <= i < |rows| :: c < |rows[i]| && HasItemAt(bytes, size, i, rows[i][c])
  }

  lemma CopyAppends(bytes: seq<Byte>, bytes': seq<Byte>, size: nat, rows: seq<Row>, c: nat, row: Row)
    requires ColumnHolds(bytes, size, rows, c) && c < |row| && |row[c]| == size
    requires |rows| * size + size <= |bytes|
    requires bytes' == bytes[..|rows| * size] + row[c] + bytes[|rows| * size + size..]
    ensures ColumnHolds(bytes', size, rows + [row], c)
  {
    var n := |rows|;
    forall i | 0 <= i < n + 1 ensures HasItemAt(bytes', size, i, (rows + [row])[i][c]) {
      Offsets(i, n + 1, size);
      if i < n {
        Offsets(i, n, size);
        assert HasItemAt(bytes, size, i, rows[i][c]);
        assert bytes'[i * size..i * size + size] == bytes[i * size..i * size + size];
      } else {
        assert bytes'[n * size..n * size + size] == row[c];
      }
    }
  }

  /** Where bytes come from when those from `src` to `end` have moved to `dst`. */
  lemma MovedBytes(bytes: seq<Byte>, dst: nat, src: nat, end: nat, tail: nat, at: nat, n: nat)
    requires dst <= src <= end <= |bytes| && tail <= |bytes|
    ensures var moved := bytes[..dst] + bytes[src..end] + bytes[tail..];
            && (at + n <= dst ==> moved[at..at + n] == bytes[at..at + n])
            && (dst <= at && at + n <= dst + (end - src) ==> moved[at..at + n] == bytes[at - dst + src..at - dst + src + n])
  {
    var moved := bytes[..dst] + bytes[src..end] + bytes[tail..];
    assert |moved| >= dst + (end - src);
    if at + n <= dst {
      var a, b := moved[at..at + n], bytes[at..at + n];
      forall i | 0 <= i < n ensures a[i] == b[i] {
        assert a[i] == moved[at + i] == bytes[at + i];
      }
    }
    if dst <= at && at + n <= dst + (end - src) {
      var from := at - dst + src;
      var a, b := moved[at..at + n], bytes[from..from + n];
      forall i | 0 <= i < n ensures a[i] == b[i] {
        assert a[i] == moved[at + i] == bytes[src..end][at + i - dst] == bytes[from + i];
      }
    }
  }

  lemma MoveRemoves(bytes: seq<Byte>, bytes': seq<Byte>, size: nat, rows: seq<Row>, c: nat, k: nat)
    requires ColumnHolds(bytes, size, rows, c) && k < |rows| && |rows| * size <= |bytes|
    requires (k + 1) * size <= |rows| * size && 0 <= k * size <= (|rows| - 1) * size
    requires bytes' == bytes[..k * size] + bytes[(k + 1) * size..|rows| * size] + bytes[(|rows| - 1) * size..]
    ensures ColumnHolds(bytes', size, Without(rows, k), c)
  {
    hide HasItemAt;
    var n := |rows|;
    var fewer := Without(rows, k);
    forall i | 0 <= i < n - 1 ensures c < |fewer[i]| && HasItemAt(bytes', size, i, fewer[i][c]) {
      var from := if i < k then i else i + 1;
      assert c < |rows[from]| && HasItemAt(bytes, size, from, rows[from][c]) && fewer[i] == rows[from];
      MovedItem(bytes, bytes', size, n, k, i, rows[from][c]);
    }
  }

  lemma MovedItem(bytes: seq<Byte>, bytes': seq<Byte>, size: nat, n: nat, k: nat, i: nat, item: Item)
    requires k < n && i < n - 1 && n * size <= |bytes| && HasItemAt(bytes, size, if i < k then i else i + 1, item)
    requires (k + 1) * size <= n * size && 0 <= k * size <= (n - 1) * size
    requires bytes' == bytes[..k * size] + bytes[(k + 1) * size..n * size] + bytes[(n - 1) * size..]
    ensures HasItemAt(bytes', size, i, item)
  {
    Offsets(k, n, size);
    Offsets(i, n - 1, size);
    MovedBytes(bytes, k * size, (k + 1) * size, n * size, (n - 1) * size, i * size, size);
    if i < k { Offsets(i, k, size); } else { Shifted(i, k, n, size); }
  }

  lemma Shifted(i: nat, k: nat, n: nat, size: nat)
    requires k <= i < n - 1
    ensures k * size <= i * size && i * size + size <= k * size + (n * size - (k + 1) * size)
    ensures i * size - k * size + (k + 1) * size == (i + 1) * size
  {
    Offsets(i + 1, n, size);
    if k < i { Offsets(k, i, size); }
  }

  /** memcpy of an item to offset `at`. */
  method MemCpy(a: array<Byte>, at: nat, item: Item)
    requires at + |item| <= a.Length
    modifies a
    ensures a[..] == old(a[..at]) + item + old(a[at + |item|..])
  {
    var i := 0;
    while i < |item|
      invariant 0 <= i <= |item|
      invariant a[..at] == old(a[..at]) && a[at..at + i] == item[..i]
      invariant a[at + |item|..] == old(a[at + |item|..])
    {
      a[at + i] := item[i];
      assert a[at..at + (i + 1)] == a[at..at + i] + [item[i]];
      i := i + 1;
    }
    assert a[..] == a[..at] + a[at..at + |item|] + a[at + |item|..];
  }

  /** memmove of `n` bytes toward the front; the two ranges may overlap. */
  method MemMove(a: array<Byte>, dst: nat, src: nat, n: nat)
    requires dst <= src && src + n <= a.Length
    modifies a
    ensures a[..] == old(a[..dst]) + old(a[src..src + n]) + old(a[dst + n..])
  {
    hide Moved;
    ghost var was := a[..];
    var i := 0;
    MoveEnds(was, dst, src, n);
    while i < n
      invariant 0 <= i <= n && a[..] == Moved(was, dst, src, i)
    {
      MoveOne(was, dst, src, i);
      ghost var cur := a[..];
      a[dst + i] := a[src + i];
      assert a[..] == cur[dst + i := cur[src + i]];
      i := i + 1;
    }
  }

  /** The bytes when `n` of them have been moved from `src` to `dst`. */
  function Moved(bytes: seq<Byte>, dst: nat, src: nat, n: nat): seq<Byte>
    requires dst <= src && src + n <= |bytes|
  {
    bytes[..dst] + bytes[src..src + n] + bytes[dst + n..]
  }

  lemma MoveEnds(bytes: seq<Byte>, dst: nat, src: nat, n: nat)
    requires dst <= src && src + n <= |bytes|
    ensures Moved(bytes, dst, src, 0) == bytes
    ensures Moved(bytes, dst, src, n) == bytes[..dst] + bytes[src..src + n] + bytes[dst + n..]
  {
  }

  /** The byte to be moved next has not been overwritten. */
  lemma MoveOne(bytes: seq<Byte>, dst: nat, src: nat, i: nat)
    requires dst <= src && src + i < |bytes|
    ensures var cur := Moved(bytes, dst, src, i);
            |cur| == |bytes| && cur[dst + i := cur[src + i]] == Moved(bytes, dst, src, i + 1)
  {
    var cur := Moved(bytes, dst, src, i);
    assert cur[src + i] == bytes[src + i];
    assert bytes[src..src + (i + 1)] == bytes[src..src + i] + [bytes[src + i]];
    assert bytes[dst + i..] == [bytes[dst + i]] + bytes[dst + (i + 1)..];
  }

  /** Index of the first of the `len` items of a column that equals `item`. */
  method FindInArray(a: array<Byte>, len: nat, item: Item) returns (r: Option<nat>)
    requires len * |item| <= a.Length
    ensures match r
            case None => forall i | 0 <= i < len :: !HasItemAt(a[..], |item|, i, item)
            case Some(k) => k < len && HasItemAt(a[..], |item|, k, item) &&
                            forall i | 0 <= i < k :: !HasItemAt(a[..], |item|, i, item)
  {
    var i := 0;
    while i < len
      invariant 0 <= i <= len
      invariant forall k | 0 <= k < i :: !HasItemAt(a[..], |item|, k, item)
    {
      Offsets(i, len, |item|);
      assert a[..][i * |item|..i * |item| + |item|] == a[i * |item|..i * |item| + |item|];
      if a[i * |item|..i * |item| + |item|] == item {
        return Some(i);
      }
      i := i + 1;
    }
    r := None;
  }

  lemma MoveOffsets(k: nat, n: nat, limit: nat, size: nat)
    requires k < n <= limit
    ensures size * k == k * size <= size * (k + 1) == (k + 1) * size <= n * size <= limit * size
    ensures size * (k + 1) + size * (n - 1 - k) == n * size
    ensures size * k + size * (n - 1 - k) == (n - 1) * size
    ensures k * size <= (n - 1) * size
  {
    Offsets(k, n, size);
    assert size * (k + 1) + size * (n - 1 - k) == size * n;
    assert size * k + size * (n - 1 - k) == size * (n - 1);
    if n < limit { Offsets(n, limit, size); }
    if k < n - 1 { Offsets(k, n - 1, size); }
  }

  /** One column's part of an addition. */
  method AppendItem(a: array<Byte>, size: nat, cap: nat, ghost rows: seq<Row>, ghost c: nat, len: nat, ghost row: Row, item: Item)
    requires ColumnHolds(a[..], size, rows, c) && |rows| == len < cap && a.Length == cap * size
    requires c < |row| && row[c] == item && |item| == size
    modifies a
    ensures ColumnHolds(a[..], size, rows + [row], c)
  {
    ghost var bytes := a[..];
    Offsets(len, cap, size);
    MemCpy(a, len * size, item);
    CopyAppends(bytes, a[..], size, rows, c, row);
  }

  /** One column's part of a removal. The place of the last record keeps its bytes. */
  method RemoveItem(a: array<Byte>, size: nat, cap: nat, ghost rows: seq<Row>, ghost c: nat, len: nat, k: nat)
    requires ColumnHolds(a[..], size, rows, c) && |rows| == len <= cap && a.Length == cap * size && k < len
    modifies a
    ensures ColumnHolds(a[..], size, Without(rows, k), c)
    ensures c < |rows[len - 1]| && HasItemAt(a[..], size, len - 1, rows[len - 1][c])
  {
    hide ColumnHolds;
    hide HasItemAt;
    ghost var bytes := a[..];
    MoveOffsets(k, len, cap, size);
    MemMove(a, size * k, size * (k + 1), size * (len - 1 - k));
    assert bytes[..size * k] == bytes[..k * size];
    MoveRemoves(bytes, a[..], size, rows, c, k);
    LastStays(bytes, a[..], size, rows, c);
  }

  lemma LastStays(bytes: seq<Byte>, bytes': seq<Byte>, size: nat, rows: seq<Row>, c: nat)
    requires ColumnHolds(bytes, size, rows, c) && rows != []
    requires 0 <= (|rows| - 1) * size <= |bytes| == |bytes'|
    requires bytes'[(|rows| - 1) * size..] == bytes[(|rows| - 1) * size..]
    ensures c < |rows[|rows| - 1]| && HasItemAt(bytes', size, |rows| - 1, rows[|rows| - 1][c])
  {
    var at := (|rows| - 1) * size;
    assert HasItemAt(bytes, size, |rows| - 1, rows[|rows| - 1][c]);
    assert bytes'[at..at + size] == bytes'[at..][..size] == bytes[at..][..size] == bytes[at..at + size];
  }

  class McfsSet {
    const data: seq<array<Byte>>
    const itemSizes: seq<nat>
    const cap: nat
    var len: nat
    ghost var rows: seq<Row>

    /** The columns are separate blocks of `cap` items each. */
    ghost predicate Shape() {
      && |data| == |itemSizes|
      && (forall c | 0 <= c < |data| :: itemSizes[c] > 0 && data[c].Length == cap * itemSizes[c])
      && (forall c, d | 0 <= c < d < |data| :: data[c] != data[d])
    }

    predicate IsRow(row: Row) {
      |row| == |itemSizes| && forall c | 0 <= c < |row| :: |row[c]| == itemSizes[c]
    }

    ghost predicate Valid()
      reads this, data
    {
      && Shape() && len <= cap && |rows| == len
      && (forall i | 0 <= i < len :: IsRow(rows[i]))
      && (forall c | 0 <= c < |data| :: ColumnHolds(data[c][..], itemSizes[c], rows, c))
    }

    /** The columns are allocated by the caller of the allocator; they must be separate blocks. */
    constructor (cap: nat, itemSizes: seq<nat>, blocks: seq<array<Byte>>)
      requires |blocks| == |itemSizes|
      requires forall c | 0 <= c < |blocks| :: itemSizes[c] > 0 && blocks[c].Length == cap * itemSizes[c]
      requires forall c, d | 0 <= c < d < |blocks| :: blocks[c] != blocks[d]
      ensures Valid() && rows == [] && this.cap == cap && this.itemSizes == itemSizes && data == blocks
    {
      this.cap := cap;
      this.itemSizes := itemSizes;
      data := blocks;
      len := 0;
      rows := [];
    }

    method Find(cat: nat, item: Item) returns (r: Option<nat>)
      requires Valid() && cat < |data| && |item| == itemSizes[cat]
      ensures r == FindRow(rows, cat, item)
    {
      hide FindRow;
      assert ColumnHolds(data[cat][..], itemSizes[cat], rows, cat);
      if len < cap { Offsets(len, cap, |item|); }
      r := FindInArray(data[cat], len, item);
      forall i | 0 <= i < len ensures HasItemAt(data[cat][..], |item|, i, item) <==> HasItem(rows[i], cat, item) {
        assert IsRow(rows[i]) && HasItemAt(data[cat][..], |item|, i, rows[i][cat]);
      }
      FindRowIs(rows, cat, item, r);
    }

    method Add(items: Row, existCheckCategory: nat) returns (ret: int)
      requires Valid() && IsRow(items) && existCheckCategory < |data|
      modifies this, data
      ensures Valid()
      ensures (rows, ret) == Added(old(rows), cap, items, existCheckCategory)
    {
      hide ColumnHolds;
      hide FindRow;
      if len == cap {
        return 1;
      }
      var idx := Find(existCheckCategory, items[existCheckCategory]);
      if idx.None? {
        var cat := 0;
        ghost var wider := rows + [items];
        while cat < |data|
          invariant 0 <= cat <= |data|
          invariant forall c | 0 <= c < cat :: ColumnHolds(data[c][..], itemSizes[c], wider, c)
          invariant forall c | cat <= c < |data| :: ColumnHolds(data[c][..], itemSizes[c], rows, c)
          modifies data
        {
          AppendItem(data[cat], itemSizes[cat], cap, rows, cat, len, items, items[cat]);
          cat := cat + 1;
        }
        len := len + 1;
        rows := wider;
      }
      ret := 0;
    }

    method Remove(item: Item, cat: nat) returns (ret: int)
      requires Valid() && cat < |data| && |item| == itemSizes[cat]
      modifies this, data
      ensures Valid()
      ensures (rows, ret) == Removed(old(rows), item, cat)
      ensures ret == 0 ==>  // the place of what was the last record keeps its bytes
                forall c | 0 <= c < |data| :: HasItemAt(data[c][..], itemSizes[c], old(len) - 1, old(rows)[old(len) - 1][c])
    {
      hide ColumnHolds;
      hide HasItemAt;
      hide FindRow;
      var idx := Find(cat, item);
      if idx.None? {
        return 1;
      }
      var k := idx.value;
      assert IsRow(rows[len - 1]);
      ghost var fewer := Without(rows, k);
      var c0 := 0;
      while c0 < |data|
        invariant 0 <= c0 <= |data|
        invariant forall c | 0 <= c < c0 :: ColumnHolds(data[c][..], itemSizes[c], fewer, c)
        invariant forall c | c0 <= c < |data| :: ColumnHolds(data[c][..], itemSizes[c], rows, c)
        invariant forall c | 0 <= c < c0 :: HasItemAt(data[c][..], itemSizes[c], len - 1, rows[len - 1][c])
        modifies data
      {
        RemoveItem(data[c0], itemSizes[c0], cap, rows, c0, len, k);
        c0 := c0 + 1;
      }
      len := len - 1;
      rows := fewer;
      ret := 0;
    }

    /** Offset, in the target column, of the item that belongs to the first record with `item`. */
    method GetAssocItemPtr(item: Item, group: nat, target: nat) returns (r: Option<nat>)
      requires Valid() && group < |data| && target < |data| && |item| == itemSizes[group]
      ensures match FindRow(rows, group, item)
              case None => r.None?
              case Some(k) =>
                && r == Some(k * itemSizes[target])
                && HasItemAt(data[target][..], itemSizes[target], k, rows[k][target])
    {
      hide FindRow;
      var idx := Find(group, item);
      match idx
      case None => r := None;
      case Some(k) =>
        assert ColumnHolds(data[target][..], itemSizes[target], rows, target);
        r := Some(k * itemSizes[target]);
    }
  }
}
