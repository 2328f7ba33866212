/** Reading all elements of a slotted page, writing them back packed, and compaction. */
module Packing {
  import opened Bytes
  import opened Pages
  import opened Layout
  import opened Slotted

  /** A live element as getAllSlotsAndElements returns it: the size in its slot and its bytes. */
  datatype Item = Item(size: nat, data: Bytes)

  /** Element bytes end with a length-prefixed value in a leaf, with two page ids in an internal page. */
  predicate Fits(d: Bytes, leaf: bool) {
    && Keyed(d)
    && var n := U16(d, 0);
       if leaf then 4 + n <= |d| && |d| == 4 + n + U16(d, 2 + n) else |d| == 18 + n
  }

  ghost predicate ShapedRows(rows: seq<Row>, leaf: bool) {
    forall i | 0 <= i < |rows| && rows[i].Live? :: Fits(rows[i].data, leaf)
  }

  function ItemsTo(rows: seq<Row>, n: nat): seq<Item>
    requires n <= |rows|
  {
    if n == 0 then []
    else ItemsTo(rows, n - 1) + (if rows[n - 1].Live? then [Item(rows[n - 1].size, rows[n - 1].data)] else [])
  }

  /** decodeElement reads exactly the bytes that were encoded. */
  method ReadData(page: array<byte>, ptr: nat, leaf: bool, ghost end: nat, ghost d: Bytes) returns (data: Bytes)
    requires page.Length == PAGE_SIZE && StoredAt(page[..], end, ptr, d) && Fits(d, leaf)
    ensures data == d
  {
    KeyAt(page[..], end, ptr, d);
    var n := U16(page[..], ptr);
    ghost var s := page[..][ptr..ptr + |d|];
    if leaf {
      assert page[..][ptr + 2 + n] == s[2 + n] && page[..][ptr + 3 + n] == s[3 + n];
      data := page[ptr..ptr + 4 + n + U16(page[..], ptr + 2 + n)];
    } else {
      data := page[ptr..ptr + 18 + n];
    }
    assert data == s;
  }

  /** getAllSlotsAndElements: the live elements in slot order. */
  method GetAll(page: array<byte>, leaf: bool, ghost rows: seq<Row>) returns (items: seq<Item>)
    requires page.Length == PAGE_SIZE && Laid(page[..], rows) && ShapedRows(rows, leaf)
    ensures items == ItemsTo(rows, |rows|)
  {
    items := [];
    for i := 0 to NumSlots(page[..])
      invariant items == ItemsTo(rows, i)
    {
      assert RowOn(page[..], FreeEnd(page[..]), rows[i]);
      var s := SlotAt(page[..], i);
      if s.ptr != TOMBSTONE {
        var data := ReadData(page, s.ptr, leaf, FreeEnd(page[..]), rows[i].data);
        items := items + [Item(s.size, data)];
      }
    }
  }

  // ------------------------------------------------------------------ packing

  function SumData(items: seq<Item>, n: nat): nat
    requires n <= |items|
  {
    if n == 0 then 0 else SumData(items, n - 1) + |items[n - 1].data|
  }

  lemma {:induction false} SumDataMonotone(items: seq<Item>, m: nat, n: nat)
    requires m <= n <= |items|
    ensures SumData(items, m) <= SumData(items, n)
  {
    if m < n {
      SumDataMonotone(items, m, n - 1);
    }
  }

  /** The slots and the elements of the list fit in an empty page. */
  ghost predicate Packable(items: seq<Item>) {
    && HEADER_SIZE + SLOT_SIZE * |items| + SumData(items, |items|) <= PAGE_SIZE
    && forall i | 0 <= i < |items| :: Keyed(items[i].data) && |items[i].data| <= items[i].size < U16_LIMIT
  }

  /** The element of the list at index i, packed downwards from the end of the page after those before it. */
  ghost function PackedRow(items: seq<Item>, i: nat): Row
    requires i < |items|
  {
    Live(items[i].size, if SumData(items, i + 1) <= PAGE_SIZE then PAGE_SIZE - SumData(items, i + 1) else 0, items[i].data)
  }

  ghost function Packed(items: seq<Item>, n: nat): (rows: seq<Row>)
    requires n <= |items|
    ensures |rows| == n && forall i | 0 <= i < n :: rows[i] == PackedRow(items, i)
  {
    seq(n, i requires 0 <= i < n => PackedRow(items, i))
  }

  /** The first n elements are in place. */
  ghost predicate PackedOn(b: Bytes, items: seq<Item>, n: nat)
    requires n <= |items|
  {
    && SumData(items, n) <= PAGE_SIZE
    && var rows := Packed(items, n);
       TableOn(b, rows) && forall i | 0 <= i < n :: RowOn(b, PAGE_SIZE - SumData(items, n), rows[i])
  }

  /** One element and its slot were written: m is b with the element, c is m with the slot of number n. */
  ghost predicate Packs(b: Bytes, m: Bytes, c: Bytes, items: seq<Item>, n: nat) {
    && n < |items| && |b| == |c| == PAGE_SIZE && SumData(items, n + 1) <= PAGE_SIZE
    && HEADER_SIZE + SLOT_SIZE * (n + 1) <= PAGE_SIZE - SumData(items, n + 1)
    && m == Patch(b, PAGE_SIZE - SumData(items, n + 1), items[n].data)
    && Agree(m, c, 0, HEADER_SIZE + SLOT_SIZE * n) && Agree(m, c, HEADER_SIZE + SLOT_SIZE * (n + 1), PAGE_SIZE)
    && SlotAt(c, n) == Slot(items[n].size, PAGE_SIZE - SumData(items, n + 1))
  }

  /** The bytes that writing it leaves alone, and the element itself. */
  lemma {:induction false} PackAgrees(b: Bytes, m: Bytes, c: Bytes, items: seq<Item>, n: nat)
    requires Packs(b, m, c, items, n)
    ensures var end, was := PAGE_SIZE - SumData(items, n + 1), PAGE_SIZE - SumData(items, n);
      Agree(b, c, 0, HEADER_SIZE + SLOT_SIZE * n) && Agree(b, c, was, PAGE_SIZE) && c[end..was] == items[n].data
  {
    var end, was := PAGE_SIZE - SumData(items, n + 1), PAGE_SIZE - SumData(items, n);
    PatchAgree(b, end, items[n].data);
    AgreeSlice(m, c, HEADER_SIZE + SLOT_SIZE * (n + 1), PAGE_SIZE, end, was);
  }

  lemma {:induction false} PackTable(b: Bytes, c: Bytes, items: seq<Item>, n: nat)
    requires n < |items| && |c| == PAGE_SIZE && TableOn(b, Packed(items, n)) && Agree(b, c, 0, HEADER_SIZE + SLOT_SIZE * n)
    requires SumData(items, n + 1) <= PAGE_SIZE && HEADER_SIZE + SLOT_SIZE * (n + 1) <= PAGE_SIZE
    requires SlotAt(c, n) == Slot(items[n].size, PAGE_SIZE - SumData(items, n + 1))
    ensures TableOn(c, Packed(items, n + 1))
  {
    AgreeTable(b, c, 0, HEADER_SIZE + SLOT_SIZE * n, Packed(items, n));
    assert Packed(items, n + 1) == Packed(items, n) + [PackedRow(items, n)];
  }

  lemma {:induction false} PackRow(b: Bytes, c: Bytes, items: seq<Item>, n: nat, i: nat)
    requires n < |items| && i <= n && |c| == PAGE_SIZE && SumData(items, n + 1) <= PAGE_SIZE && Keyed(items[n].data)
    requires |items[n].data| <= items[n].size < U16_LIMIT
    requires i < n ==> RowOn(b, PAGE_SIZE - SumData(items, n), PackedRow(items, i))
    requires Agree(b, c, PAGE_SIZE - SumData(items, n), PAGE_SIZE)
    requires c[PAGE_SIZE - SumData(items, n + 1)..PAGE_SIZE - SumData(items, n)] == items[n].data
    ensures RowOn(c, PAGE_SIZE - SumData(items, n + 1), PackedRow(items, i))
  {
    if i < n {
      var r := PackedRow(items, i);
      StoredFrame(b, c, PAGE_SIZE - SumData(items, n), PAGE_SIZE - SumData(items, n + 1), r.ptr, r.data);
    }
  }

  lemma {:induction false} PackStep(b: Bytes, m: Bytes, c: Bytes, items: seq<Item>, n: nat)
    requires Packable(items) && Packs(b, m, c, items, n) && PackedOn(b, items, n)
    ensures PackedOn(c, items, n + 1)
  {
    PackAgrees(b, m, c, items, n);
    PackTable(b, c, items, n);
    forall i | 0 <= i < n + 1 {
      PackRow(b, c, items, n, i);
    }
  }

  lemma {:induction false} PackedApart(items: seq<Item>)
    requires Packable(items)
    ensures Apart(Packed(items, |items|))
  {
    var rows := Packed(items, |items|);
    forall i, j | 0 <= i < j < |rows| ensures ApartTwo(rows[i], rows[j]) {
      SumDataMonotone(items, i + 1, j);
      SumDataMonotone(items, j + 1, |items|);
    }
  }

  /** The loop of PutAllSlotsAndElements. */
  method PutItems(page: array<byte>, items: seq<Item>) returns (begin: nat, end: nat)
    requires page.Length == PAGE_SIZE && Packable(items)
    modifies page
    ensures begin == HEADER_SIZE + SLOT_SIZE * |items| && end == PAGE_SIZE - SumData(items, |items|)
    ensures PackedOn(page[..], items, |items|) && Agree(old(page[..]), page[..], 0, HEADER_SIZE)
  {
    begin, end := HEADER_SIZE, PAGE_SIZE;
    for i := 0 to |items|
      invariant begin == HEADER_SIZE + SLOT_SIZE * i && end == PAGE_SIZE - SumData(items, i)
      invariant PackedOn(page[..], items, i) && Agree(old(page[..]), page[..], 0, HEADER_SIZE)
    {
      SumDataMonotone(items, i + 1, |items|);
      ghost var b := page[..];
      end := end - |items[i].data|;
      Copy(page, end, items[i].data);
      ghost var m := page[..];
      PatchAgree(b, end, items[i].data);
      var slots := [Slot(items[i].size, end)];
      begin := WriteSlots(page, i, slots);
      assert SlotAt(page[..], i + 0) == slots[0];
      PackStep(b, m, page[..], items, i);
    }
  }

  /** PutAllSlotsAndElements. */
  method PutAll(page: array<byte>, items: seq<Item>)
    requires page.Length == PAGE_SIZE && Packable(items)
    modifies page
    ensures Laid(page[..], Packed(items, |items|)) && Filled(page[..]) && Garbage(page[..]) == 0
    ensures FreeEnd(page[..]) == PAGE_SIZE - SumData(items, |items|)
    ensures Agree(old(page[..]), page[..], 4, 5) && Agree(old(page[..]), page[..], 14, HEADER_SIZE)
  {
    var begin, end := PutItems(page, items);
    ghost var p := page[..];
    StoreHeader(page, |items|, begin, end);
    ghost var q := page[..];
    HeaderLaid(p, q, items);
    Copy(page, 12, EncodeU16(0));
    GarbageLaid(q, page[..], Packed(items, |items|), 0);
    PatchAgree(q, 12, EncodeU16(0));
  }

  lemma {:induction false} HeaderLaid(p: Bytes, q: Bytes, items: seq<Item>)
    requires Packable(items) && PackedOn(p, items, |items|) && |q| == PAGE_SIZE && Agree(p, q, 12, PAGE_SIZE)
    requires Filled(q) && NumSlots(q) == |items| && FreeBegin(q) == HEADER_SIZE + SLOT_SIZE * |items|
    requires FreeEnd(q) == PAGE_SIZE - SumData(items, |items|)
    ensures Laid(q, Packed(items, |items|))
  {
    var rows, end := Packed(items, |items|), FreeEnd(q);
    AgreeTable(p, q, 12, PAGE_SIZE, rows);
    PackedApart(items);
    forall i | 0 <= i < |rows| ensures RowOn(q, end, rows[i]) {
      assert RowOn(p, end, rows[i]);
      StoredFrame(p, q, end, end, rows[i].ptr, rows[i].data);
    }
  }

  // --------------------------------------------------------------- compaction

  lemma {:induction false} ItemsSum(rows: seq<Row>, n: nat)
    requires n <= |rows|
    ensures var items := ItemsTo(rows, n); |items| <= n && SumData(items, |items|) == DataTo(rows, n)
  {
    if n > 0 {
      ItemsSum(rows, n - 1);
      var items := ItemsTo(rows, n - 1);
      if rows[n - 1].Live? {
        SumDataPrefix(items, [Item(rows[n - 1].size, rows[n - 1].data)], |items|);
      } else {
        assert ItemsTo(rows, n) == items;
      }
    }
  }

  lemma {:induction false} SumDataPrefix(a: seq<Item>, b: seq<Item>, n: nat)
    requires n <= |a|
    ensures SumData(a + b, n) == SumData(a, n)
  {
    if n > 0 {
      SumDataPrefix(a, b, n - 1);
    }
  }

  lemma {:induction false} ItemFrom(rows: seq<Row>, n: nat, i: nat)
    requires n <= |rows| && i < |ItemsTo(rows, n)|
    ensures exists j :: 0 <= j < n && rows[j].Live? && ItemsTo(rows, n)[i] == Item(rows[j].size, rows[j].data)
  {
    if n > 0 {
      if i < |ItemsTo(rows, n - 1)| {
        ItemFrom(rows, n - 1, i);
      } else {
        assert rows[n - 1].Live?;
      }
    }
  }

  /** Whatever the page holds, its live elements fit when packed. */
  lemma {:induction false} LiveFits(b: Bytes, rows: seq<Row>)
    requires Laid(b, rows)
    ensures Packable(ItemsTo(rows, |rows|))
  {
    var items := ItemsTo(rows, |rows|);
    DataFits(b, rows);
    ItemsSum(rows, |rows|);
    forall i | 0 <= i < |items| ensures Keyed(items[i].data) && |items[i].data| <= items[i].size < U16_LIMIT {
      ItemFrom(rows, |rows|, i);
      var j :| 0 <= j < |rows| && rows[j].Live? && items[i] == Item(rows[j].size, rows[j].data);
      assert RowOn(b, FreeEnd(b), rows[j]);
    }
  }

  lemma {:induction false} ItemsPacked(items: seq<Item>, n: nat)
    requires n <= |items|
    ensures ItemsTo(Packed(items, |items|), n) == items[..n]
  {
    if n > 0 {
      ItemsPacked(items, n - 1);
    }
  }

  /** compact: the same elements under the same slot sizes, no garbage, all the other bytes free. */
  method Compact(page: array<byte>, leaf: bool, ghost rows: seq<Row>) returns (ghost rows': seq<Row>)
    requires page.Length == PAGE_SIZE && Laid(page[..], rows) && ShapedRows(rows, leaf)
    modifies page
    ensures Laid(page[..], rows') && ItemsTo(rows', |rows'|) == ItemsTo(rows, |rows|) && (forall i | 0 <= i < |rows'| :: rows'[i].Live?)
    ensures Garbage(page[..]) == 0 && NextLeaf(page[..]) == NextLeaf(old(page[..]))
    ensures var items := ItemsTo(rows, |rows|);
      FreeEnd(page[..]) - FreeBegin(page[..]) == CAPACITY - SLOT_SIZE * |items| - SumData(items, |items|)
  {
    ghost var b := page[..];
    var items := GetAll(page, leaf, rows);
    LiveFits(b, rows);
    PutAll(page, items);
    rows' := Packed(items, |items|);
    ItemsPacked(items, |items|);
    assert items[..|items|] == items;
    AgreeSlice(b, page[..], 14, HEADER_SIZE, 16, 24);
  }
}
