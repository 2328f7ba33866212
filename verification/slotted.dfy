/** The operations both node codecs share on the bytes of a slotted page. */
module Slotted {
  import opened Bytes
  import opened Pages
  import opened Layout

  // ------------------------------------------------------------------- writes

  /** copy(page[at:], d). */
  method Copy(page: array<byte>, at: nat, d: Bytes)
    requires at + |d| <= page.Length
    modifies page
    ensures page[..] == Patch(old(page[..]), at, d)
  {
    for i := 0 to |d|
      invariant forall j | 0 <= j < page.Length :: page[j] == if at <= j < at + i then d[j - at] else old(page[j])
    {
      page[at + i] := d[i];
    }
  }

  /** appendSlot for each slot in turn, from slot number `first` on. */
  method WriteSlots(page: array<byte>, first: nat, slots: seq<Slot>) returns (begin: nat)
    requires page.Length == PAGE_SIZE && HEADER_SIZE + SLOT_SIZE * (first + |slots|) <= PAGE_SIZE
    requires forall i | 0 <= i < |slots| :: slots[i].size < U16_LIMIT && slots[i].ptr < U16_LIMIT
    modifies page
    ensures begin == HEADER_SIZE + SLOT_SIZE * (first + |slots|)
    ensures Agree(old(page[..]), page[..], 0, HEADER_SIZE + SLOT_SIZE * first) && Agree(old(page[..]), page[..], begin, PAGE_SIZE)
    ensures forall i | 0 <= i < |slots| :: SlotAt(page[..], first + i) == slots[i]
  {
    begin := HEADER_SIZE + SLOT_SIZE * first;
    for i := 0 to |slots|
      invariant begin == HEADER_SIZE + SLOT_SIZE * (first + i)
      invariant Agree(old(page[..]), page[..], 0, HEADER_SIZE + SLOT_SIZE * first) && Agree(old(page[..]), page[..], begin, PAGE_SIZE)
      invariant forall j | 0 <= j < i :: SlotAt(page[..], first + j) == slots[j]
    {
      ghost var b := page[..];
      Copy(page, begin, EncodeSlot(slots[i]));
      SlotWritten(b, page[..], first, i, slots);
      begin := begin + SLOT_SIZE;
    }
  }

  lemma {:induction false} SlotWritten(b: Bytes, c: Bytes, first: nat, i: nat, slots: seq<Slot>)
    requires |b| == PAGE_SIZE && i < |slots| && HEADER_SIZE + SLOT_SIZE * (first + |slots|) <= PAGE_SIZE
    requires slots[i].size < U16_LIMIT && slots[i].ptr < U16_LIMIT
    requires c == Patch(b, HEADER_SIZE + SLOT_SIZE * (first + i), EncodeSlot(slots[i]))
    requires forall j | 0 <= j < i :: SlotAt(b, first + j) == slots[j]
    ensures var begin := HEADER_SIZE + SLOT_SIZE * (first + i);
      Agree(b, c, 0, begin) && Agree(b, c, begin + SLOT_SIZE, PAGE_SIZE)
    ensures forall j | 0 <= j < i + 1 :: SlotAt(c, first + j) == slots[j]
  {
    var begin := HEADER_SIZE + SLOT_SIZE * (first + i);
    PatchSlot(b, first + i, slots[i]);
    PatchAgree(b, begin, EncodeSlot(slots[i]));
    forall j | 0 <= j < i ensures SlotAt(c, first + j) == slots[j] {
      AgreeSlot(b, c, 0, begin, first + j);
    }
  }

  // ------------------------------------------------------------------ reading

  /** The key of a live row, read through its pointer. */
  method ReadKey(page: array<byte>, ptr: nat, ghost end: nat, ghost d: Bytes) returns (k: Bytes)
    requires StoredAt(page[..], end, ptr, d) && Keyed(d)
    ensures k == KeyOf(d)
  {
    KeyAt(page[..], end, ptr, d);
    k := page[ptr + 2..ptr + 2 + U16(page[..], ptr)];
  }

  predicate Greater(r: Row, k: Bytes) {
    r.Live? && Keyed(r.data) && Lt(k, KeyOf(r.data))
  }

  /** Where InsertSlot puts a key: before the first greater live key. */
  function Place(rows: seq<Row>, k: Bytes, i: nat): (at: nat)
    requires i <= |rows|
    ensures i <= at <= |rows| && (forall j | i <= j < at :: !Greater(rows[j], k)) && (at < |rows| ==> Greater(rows[at], k))
    decreases |rows| - i
  {
    if i == |rows| || Greater(rows[i], k) then i else Place(rows, k, i + 1)
  }

  ghost function SlotsOf(rows: seq<Row>, x: nat, y: nat): (s: seq<Slot>)
    requires x <= y <= |rows|
    ensures |s| == y - x && forall i | 0 <= i < y - x :: s[i] == SlotOf(rows[x + i])
  {
    seq(y - x, i requires 0 <= i < y - x => SlotOf(rows[x + i]))
  }

  lemma {:induction false} PlaceIs(rows: seq<Row>, k: Bytes, i: nat, at: nat)
    requires i <= at <= |rows| && (forall j | i <= j < at :: !Greater(rows[j], k)) && (at < |rows| ==> Greater(rows[at], k))
    ensures Place(rows, k, i) == at
    decreases |rows| - i
  {
    if i < at {
      PlaceIs(rows, k, i + 1, at);
    }
  }

  /** After the first greater live key every live key is greater. */
  lemma {:induction false} GreaterOn(rows: seq<Row>, k: Bytes, i: nat, j: nat)
    requires Ascends(rows) && i < j < |rows| && Greater(rows[i], k) && rows[j].Live?
    ensures Greater(rows[j], k)
  {
    OrderFacts();
  }

  /** One slot and its key: whether it is live, and how its key compares with the given one. */
  method ReadSlot(page: array<byte>, i: nat, key: Bytes, ghost rows: seq<Row>) returns (s: Slot, live: bool, c: int)
    requires page.Length == PAGE_SIZE && Laid(page[..], rows) && i < |rows|
    ensures s == SlotOf(rows[i]) && live == rows[i].Live?
    ensures live ==> Keyed(rows[i].data) && c == Compare(KeyOf(rows[i].data), key) && (c == 1 <==> Greater(rows[i], key))
  {
    assert RowOn(page[..], FreeEnd(page[..]), rows[i]);
    s, c := SlotAt(page[..], i), -1;
    live := s.ptr != TOMBSTONE;
    if live {
      var k := ReadKey(page, s.ptr, FreeEnd(page[..]), rows[i].data);
      c := Compare(k, key);
      CompareFlips(k, key);
    }
  }

  lemma {:induction false} CompareFlips(a: Bytes, b: Bytes)
    ensures Compare(a, b) == 1 <==> Lt(b, a)
  {
    OrderFacts();
  }

  /** After i slots of the scan: no greater key before `at`, and one there once it was found. */
  ghost predicate Scanned(rows: seq<Row>, key: Bytes, at: nat, i: nat, found: bool) {
    && at <= i <= |rows| && (forall j | 0 <= j < at :: !Greater(rows[j], key))
    && if found then at < i && Greater(rows[at], key) else at == i
  }

  lemma {:induction false} ScanOn(rows: seq<Row>, key: Bytes, at: nat, i: nat, found: bool)
    requires Scanned(rows, key, at, i, found) && i < |rows| && Ascends(rows)
    ensures found && rows[i].Live? ==> Greater(rows[i], key)
    ensures var now := found || Greater(rows[i], key); Scanned(rows, key, if now then at else at + 1, i + 1, now)
  {
    if found && rows[i].Live? {
      GreaterOn(rows, key, at, i);
    }
  }

  lemma {:induction false} SlotsStep(rows: seq<Row>, at: nat, i: nat, slot: Slot)
    requires at <= i < |rows|
    ensures [slot] + SlotsOf(rows, at, i + 1) == [slot] + SlotsOf(rows, at, i) + [SlotOf(rows[i])]
    ensures at == i ==> [slot] + SlotsOf(rows, i + 1, i + 1) == [slot] + SlotsOf(rows, at, i)
  {
  }

  /** The scan of InsertSlot: the slots from the first greater key on, tombstones between them included. */
  method CollectGreater(page: array<byte>, slot: Slot, key: Bytes, ghost rows: seq<Row>) returns (greater: seq<Slot>)
    requires page.Length == PAGE_SIZE && Laid(page[..], rows) && Ascends(rows)
    ensures greater == [slot] + SlotsOf(rows, Place(rows, key, 0), |rows|)
  {
    greater := [slot];
    var found := false;
    ghost var at := 0;
    for i := 0 to NumSlots(page[..])
      invariant Scanned(rows, key, at, i, found) && greater == [slot] + SlotsOf(rows, at, i)
    {
      var s, live, c := ReadSlot(page, i, key, rows);
      ScanOn(rows, key, at, i, found);
      SlotsStep(rows, at, i, slot);
      if live {
        if c == 1 {
          found := true;
          greater := greater + [s];
        }
      } else if found {
        greater := greater + [s];
      }
      if !found {
        at := at + 1;
      }
    }
    PlaceIs(rows, key, 0, at);
  }

  // ---------------------------------------------------------------- insertion

  ghost function InsertRow(rows: seq<Row>, at: nat, r: Row): (rows': seq<Row>)
    requires at <= |rows|
    ensures |rows'| == |rows| + 1 && rows'[at] == r
    ensures (forall i | 0 <= i < at :: rows'[i] == rows[i]) && forall i | at < i <= |rows| :: rows'[i] == rows[i - 1]
  {
    rows[..at] + [r] + rows[at..]
  }

  /** InsertSlot: the slot goes before the first greater key, the rest of the table moves up by one slot. */
  method InsertSlot(page: array<byte>, slot: Slot, key: Bytes, ghost rows: seq<Row>, ghost r: Row) returns (begin: nat)
    requires page.Length == PAGE_SIZE && Laid(page[..], rows) && Ascends(rows)
    requires FreeBegin(page[..]) + SLOT_SIZE <= PAGE_SIZE && slot == SlotOf(r) && slot.size < U16_LIMIT && slot.ptr < U16_LIMIT
    modifies page
    ensures begin == HEADER_SIZE + SLOT_SIZE * (|rows| + 1)
    ensures TableOn(page[..], InsertRow(rows, Place(rows, key, 0), r))
    ensures Agree(old(page[..]), page[..], 0, HEADER_SIZE) && Agree(old(page[..]), page[..], begin, PAGE_SIZE)
  {
    ghost var b, at := page[..], Place(rows, key, 0);
    var greater := CollectGreater(page, slot, key, rows);
    SlotRoom(b, rows, at, slot);
    var first := NumSlots(page[..]) - (|greater| - 1);
    begin := WriteSlots(page, first, greater);
    TableInserted(b, page[..], rows, at, r);
  }

  lemma {:induction false} SlotRoom(b: Bytes, rows: seq<Row>, at: nat, slot: Slot)
    requires Laid(b, rows) && at <= |rows| && slot.size < U16_LIMIT && slot.ptr < U16_LIMIT && FreeBegin(b) + SLOT_SIZE <= PAGE_SIZE
    ensures var g := [slot] + SlotsOf(rows, at, |rows|);
      && NumSlots(b) - (|g| - 1) == at && at + |g| == |rows| + 1 && HEADER_SIZE + SLOT_SIZE * (at + |g|) <= PAGE_SIZE
      && forall i | 0 <= i < |g| :: g[i].size < U16_LIMIT && g[i].ptr < U16_LIMIT
  {
    SmallSlots(b, rows, at, slot);
  }

  lemma {:induction false} SmallSlots(b: Bytes, rows: seq<Row>, at: nat, slot: Slot)
    requires Laid(b, rows) && at <= |rows| && slot.size < U16_LIMIT && slot.ptr < U16_LIMIT
    ensures var g := [slot] + SlotsOf(rows, at, |rows|); forall i | 0 <= i < |g| :: g[i].size < U16_LIMIT && g[i].ptr < U16_LIMIT
  {
    var g := [slot] + SlotsOf(rows, at, |rows|);
    forall i | 0 <= i < |g| ensures g[i].size < U16_LIMIT && g[i].ptr < U16_LIMIT {
      if i > 0 {
        assert RowOn(b, FreeEnd(b), rows[at + i - 1]);
      }
    }
  }

  lemma {:induction false} TableInserted(b: Bytes, c: Bytes, rows: seq<Row>, at: nat, r: Row)
    requires TableOn(b, rows) && at <= |rows| && HEADER_SIZE + SLOT_SIZE * (|rows| + 1) <= PAGE_SIZE
    requires Agree(b, c, 0, HEADER_SIZE + SLOT_SIZE * at)
    requires var g := [SlotOf(r)] + SlotsOf(rows, at, |rows|); forall i | 0 <= i < |g| :: SlotAt(c, at + i) == g[i]
    ensures TableOn(c, InsertRow(rows, at, r))
  {
    var g, rows' := [SlotOf(r)] + SlotsOf(rows, at, |rows|), InsertRow(rows, at, r);
    forall i | 0 <= i < |rows'| ensures SlotAt(c, i) == SlotOf(rows'[i]) {
      if i < at {
        AgreeSlot(b, c, 0, HEADER_SIZE + SLOT_SIZE * at, i);
      } else {
        assert SlotAt(c, at + (i - at)) == g[i - at];
      }
    }
  }

  /** setFreeSpaceEnd, setFreeSpaceBegin, setNumSlots and SetIsPageFilled. */
  method StoreHeader(page: array<byte>, slots: nat, begin: nat, end: nat)
    requires page.Length == PAGE_SIZE && slots < U16_LIMIT && begin < U16_LIMIT && end < U16_LIMIT
    modifies page
    ensures var c := page[..]; Filled(c) && NumSlots(c) == slots && FreeBegin(c) == begin && FreeEnd(c) == end
    ensures Agree(old(page[..]), page[..], 0, 5) && Agree(old(page[..]), page[..], 12, PAGE_SIZE)
  {
    Copy(page, 10, EncodeU16(end));
    Copy(page, 8, EncodeU16(begin));
    Copy(page, 6, EncodeU16(slots));
    page[5] := 1;
  }

  /** The page after an insertion holds the old rows and the new one. */
  lemma {:induction false} InsertLaid(b: Bytes, c: Bytes, rows: seq<Row>, at: nat, r: Row)
    requires Laid(b, rows) && at <= |rows| && r.Live? && RowOn(c, r.ptr, r)
    requires r.ptr + |r.data| == FreeEnd(b) && FreeBegin(b) + SLOT_SIZE <= r.ptr
    requires |c| == PAGE_SIZE && Filled(c) && NumSlots(c) == |rows| + 1 && FreeBegin(c) == FreeBegin(b) + SLOT_SIZE && FreeEnd(c) == r.ptr
    requires Agree(b, c, FreeEnd(b), PAGE_SIZE) && TableOn(c, InsertRow(rows, at, r))
    ensures Laid(c, InsertRow(rows, at, r))
  {
    var rows' := InsertRow(rows, at, r);
    forall i | 0 <= i < |rows'| ensures RowOn(c, FreeEnd(c), rows'[i]) {
      if i != at {
        KeepRow(b, c, rows, if i < at then i else i - 1, r.ptr);
      }
    }
    forall i, j | 0 <= i < j < |rows'| ensures ApartTwo(rows'[i], rows'[j]) {
      InsertApart(b, rows, at, r, i, j);
    }
  }

  lemma {:induction false} KeepRow(b: Bytes, c: Bytes, rows: seq<Row>, i: nat, end: nat)
    requires Laid(b, rows) && i < |rows| && Agree(b, c, FreeEnd(b), PAGE_SIZE) && end <= FreeEnd(b)
    ensures RowOn(c, end, rows[i])
  {
    assert RowOn(b, FreeEnd(b), rows[i]);
    if rows[i].Live? {
      StoredFrame(b, c, FreeEnd(b), end, rows[i].ptr, rows[i].data);
    }
  }

  lemma {:induction false} InsertApart(b: Bytes, rows: seq<Row>, at: nat, r: Row, i: nat, j: nat)
    requires Laid(b, rows) && at <= |rows| && r.Live? && r.ptr + |r.data| == FreeEnd(b) && i < j <= |rows|
    ensures var rows' := InsertRow(rows, at, r); ApartTwo(rows'[i], rows'[j])
  {
    if i == at {
      assert RowOn(b, FreeEnd(b), rows[j - 1]);
    } else if j == at {
      assert RowOn(b, FreeEnd(b), rows[i]);
    } else {
      assert ApartTwo(rows[if i < at then i else i - 1], rows[if j < at then j else j - 1]);
    }
  }

  lemma {:induction false} InsertAscends(rows: seq<Row>, r: Row)
    requires Ascends(rows) && r.Live? && Keyed(r.data)
    ensures Ascends(InsertRow(rows, Place(rows, KeyOf(r.data), 0), r))
  {
    var k, at := KeyOf(r.data), Place(rows, KeyOf(r.data), 0);
    var rows' := InsertRow(rows, at, r);
    forall i, j | 0 <= i < j < |rows'| && rows'[i].Live? && rows'[j].Live? ensures !Lt(KeyOf(rows'[j].data), KeyOf(rows'[i].data)) {
      if i == at {
        if j - 1 > at {
          GreaterOn(rows, k, at, j - 1);
        }
        NotBoth(k, KeyOf(rows'[j].data));
      } else if j == at {
        assert !Greater(rows[i], k);
      }
    }
  }

  lemma {:induction false} NotBoth(a: Bytes, b: Bytes)
    ensures Lt(a, b) ==> !Lt(b, a)
  {
    OrderFacts();
  }

  /** appendElement, InsertSlot and the header, on a page with room for the element and its slot. */
  method InsertData(page: array<byte>, key: Bytes, d: Bytes, ghost rows: seq<Row>) returns (ghost r: Row)
    requires page.Length == PAGE_SIZE && Laid(page[..], rows) && Ascends(rows)
    requires Keyed(d) && KeyOf(d) == key && FreeBegin(page[..]) + SLOT_SIZE + |d| <= FreeEnd(page[..])
    modifies page
    ensures r == Live(|d|, FreeEnd(old(page[..])) - |d|, d)
    ensures var rows' := InsertRow(rows, Place(rows, key, 0), r); Laid(page[..], rows') && Ascends(rows') && FreeEnd(page[..]) == r.ptr
    ensures SameHeader(old(page[..]), page[..])
  {
    ghost var b := page[..];
    var end := FreeEnd(page[..]) - |d|;
    r := Live(|d|, end, d);
    var slots := NumSlots(page[..]);
    Copy(page, end, d);
    ghost var m := page[..];
    AppendFrame(b, rows, end, d);
    var begin := InsertSlot(page, Slot(|d|, end), key, rows, r);
    ghost var s := page[..];
    StoreHeader(page, slots + 1, begin, end);
    InsertedData(b, m, s, page[..], rows, Place(rows, key, 0), r);
    InsertAscends(rows, r);
  }

  /** The garbage counter, the next pointer, the kind and the LSN stay. */
  ghost predicate SameHeader(b: Bytes, c: Bytes) {
    && |b| == |c| == PAGE_SIZE && Garbage(c) == Garbage(b) && NextLeaf(c) == NextLeaf(b)
    && Agree(b, c, 4, 5) && Agree(b, c, 14, HEADER_SIZE)
  }

  /** Writing into the free region disturbs nothing. */
  lemma {:induction false} AppendFrame(b: Bytes, rows: seq<Row>, at: nat, d: Bytes)
    requires Laid(b, rows) && FreeBegin(b) <= at && at + |d| <= FreeEnd(b)
    ensures Laid(Patch(b, at, d), rows) && FreeEnd(Patch(b, at, d)) == FreeEnd(b)
  {
    var c := Patch(b, at, d);
    PatchAgree(b, at, d);
    AgreeSlice(b, c, 0, at, 16, 24);
    AgreeTable(b, c, 0, at, rows);
    forall i | 0 <= i < |rows| ensures RowOn(c, FreeEnd(c), rows[i]) {
      KeepRow(b, c, rows, i, FreeEnd(b));
    }
  }

  /** The four states of an insertion: before, with the element, with the slot and with the header. */
  lemma {:induction false} InsertedData(b: Bytes, m: Bytes, s: Bytes, c: Bytes, rows: seq<Row>, at: nat, r: Row)
    requires Laid(b, rows) && at <= |rows| && r.Live? && Keyed(r.data) && |r.data| == r.size
    requires r.ptr + |r.data| == FreeEnd(b) && FreeBegin(b) + SLOT_SIZE <= r.ptr
    requires m == Patch(b, r.ptr, r.data)
    requires TableOn(s, InsertRow(rows, at, r)) && Agree(m, s, 0, HEADER_SIZE) && Agree(m, s, FreeBegin(b) + SLOT_SIZE, PAGE_SIZE)
    requires |c| == PAGE_SIZE && Filled(c) && NumSlots(c) == |rows| + 1 && FreeBegin(c) == FreeBegin(b) + SLOT_SIZE && FreeEnd(c) == r.ptr
    requires Agree(s, c, 0, 5) && Agree(s, c, 12, PAGE_SIZE)
    ensures Laid(c, InsertRow(rows, at, r)) && SameHeader(b, c)
  {
    PatchAgree(b, r.ptr, r.data);
    assert Agree(m, c, FreeBegin(c), PAGE_SIZE);
    AgreeTable(s, c, 12, PAGE_SIZE, InsertRow(rows, at, r));
    AgreeSlice(m, c, FreeBegin(c), PAGE_SIZE, r.ptr, r.ptr + |r.data|);
    InsertLaid(b, c, rows, at, r);
    HeaderKept(b, c);
  }

  lemma {:induction false} HeaderKept(b: Bytes, c: Bytes)
    requires |b| == PAGE_SIZE && Agree(b, c, 0, 5) && Agree(b, c, 12, HEADER_SIZE)
    requires |c| == PAGE_SIZE && Filled(c) && (!Filled(b) ==> U16(b, 12) == 0)
    ensures SameHeader(b, c)
  {
    AgreeU16(b, c, 12, HEADER_SIZE, 12);
    AgreeSlice(b, c, 12, HEADER_SIZE, 16, 24);
  }

  // ----------------------------------------------------------------- deletion

  /** linearSearch: 0 with the row of the key, or another value when no live row has it. */
  method LinearSearch(page: array<byte>, key: Bytes, ghost rows: seq<Row>) returns (i: nat, found: int)
    requires page.Length == PAGE_SIZE && Laid(page[..], rows) && Ascends(rows)
    ensures found == 0 ==> i < |rows| && rows[i].Live? && KeyOf(rows[i].data) == key
    ensures found == 0 ==> forall j | 0 <= j < i && rows[j].Live? :: KeyOf(rows[j].data) != key
    ensures found != 0 ==> forall j | 0 <= j < |rows| && rows[j].Live? :: KeyOf(rows[j].data) != key
  {
    i := 0;
    while i < NumSlots(page[..])
      invariant i <= |rows|
      invariant forall j | 0 <= j < i && rows[j].Live? :: KeyOf(rows[j].data) != key
    {
      var s, live, c := ReadSlot(page, i, key, rows);
      if live {
        CompareEqual(KeyOf(rows[i].data), key);
        if c == 0 {
          return i, 0;
        } else if c == 1 {
          forall j | i < j < |rows| && rows[j].Live? ensures KeyOf(rows[j].data) != key {
            GreaterOn(rows, key, i, j);
            CompareEqual(key, key);
          }
          return i, 1;
        }
      }
      i := i + 1;
    }
    return i, -1;
  }

  lemma {:induction false} CompareEqual(a: Bytes, b: Bytes)
    ensures Compare(a, b) == 0 <==> a == b
  {
    OrderFacts();
  }

  /** setElementPointer with the tombstone value, and setGarbageSize. */
  method Tombstone(page: array<byte>, i: nat, ghost rows: seq<Row>)
    requires page.Length == PAGE_SIZE && Laid(page[..], rows) && i < |rows|
    modifies page
    ensures Laid(page[..], rows[i := Dead(rows[i].size)])
    ensures Garbage(page[..]) == (Garbage(old(page[..])) + rows[i].size + SLOT_SIZE) % U16_LIMIT
    ensures FreeEnd(page[..]) == FreeEnd(old(page[..])) && NextLeaf(page[..]) == NextLeaf(old(page[..]))
  {
    ghost var b := page[..];
    var s := SlotAt(page[..], i);
    Copy(page, HEADER_SIZE + SLOT_SIZE * i + 2, EncodeU16(TOMBSTONE));
    ghost var m := page[..];
    TombstoneLaid(b, m, rows, i);
    var garbage := (Garbage(page[..]) + s.size + SLOT_SIZE) % U16_LIMIT;
    Copy(page, 12, EncodeU16(garbage));
    GarbageLaid(m, page[..], rows[i := Dead(rows[i].size)], garbage);
  }

  /** DeleteElement: the slot becomes a tombstone, and its recorded size and the slot itself become garbage. */
  method DeleteElement(page: array<byte>, key: Bytes, ghost rows: seq<Row>) returns (deleted: bool, ghost i: nat)
    requires page.Length == PAGE_SIZE && Laid(page[..], rows) && Ascends(rows)
    modifies page
    ensures !deleted ==> page[..] == old(page[..]) && forall j | 0 <= j < |rows| && rows[j].Live? :: KeyOf(rows[j].data) != key
    ensures deleted ==>
      i < |rows| && rows[i].Live? && KeyOf(rows[i].data) == key && forall j | 0 <= j < i && rows[j].Live? :: KeyOf(rows[j].data) != key
    ensures deleted ==>
      && Laid(page[..], rows[i := Dead(rows[i].size)]) && Ascends(rows[i := Dead(rows[i].size)])
      && Garbage(page[..]) == (Garbage(old(page[..])) + rows[i].size + SLOT_SIZE) % U16_LIMIT
      && FreeEnd(page[..]) == FreeEnd(old(page[..])) && NextLeaf(page[..]) == NextLeaf(old(page[..]))
  {
    var at, found := LinearSearch(page, key, rows);
    i := at;
    if found != 0 {
      return false, i;
    }
    deleted := true;
    Tombstone(page, at, rows);
  }

  lemma {:induction false} TombstoneSlots(b: Bytes, m: Bytes, rows: seq<Row>, i: nat, j: nat)
    requires Laid(b, rows) && i < |rows| && j < |rows| && m == Patch(b, HEADER_SIZE + SLOT_SIZE * i + 2, EncodeU16(TOMBSTONE))
    ensures SlotAt(m, j) == SlotOf(rows[i := Dead(rows[i].size)][j])
  {
    var at := HEADER_SIZE + SLOT_SIZE * i + 2;
    PatchAgree(b, at, EncodeU16(TOMBSTONE));
    PatchU16(b, at, TOMBSTONE);
    if j < i {
      AgreeSlot(b, m, 0, at, j);
    } else if j > i {
      AgreeSlot(b, m, at + 2, PAGE_SIZE, j);
    } else {
      AgreeU16(b, m, 0, at, at - 2);
    }
  }

  lemma {:induction false} TombstoneLaid(b: Bytes, m: Bytes, rows: seq<Row>, i: nat)
    requires Laid(b, rows) && i < |rows| && m == Patch(b, HEADER_SIZE + SLOT_SIZE * i + 2, EncodeU16(TOMBSTONE))
    ensures Laid(m, rows[i := Dead(rows[i].size)]) && FreeEnd(m) == FreeEnd(b) && Garbage(m) == Garbage(b) && NextLeaf(m) == NextLeaf(b)
    ensures Filled(m)
  {
    var rows', at := rows[i := Dead(rows[i].size)], HEADER_SIZE + SLOT_SIZE * i + 2;
    PatchAgree(b, at, EncodeU16(TOMBSTONE));
    HeaderStays(b, m);
    forall j | 0 <= j < |rows'| ensures SlotAt(m, j) == SlotOf(rows'[j]) { TombstoneSlots(b, m, rows, i, j); }
    TombstoneRows(b, m, rows, i, rows');
    DeadApart(rows, i);
  }

  lemma {:induction false} HeaderStays(b: Bytes, c: Bytes)
    requires |b| == PAGE_SIZE && Agree(b, c, 0, HEADER_SIZE)
    ensures NumSlots(c) == NumSlots(b) && FreeBegin(c) == FreeBegin(b) && FreeEnd(c) == FreeEnd(b) && Filled(c) == Filled(b)
    ensures U16(c, 12) == U16(b, 12) && Garbage(c) == Garbage(b) && NextLeaf(c) == NextLeaf(b)
  {
    AgreeSlice(b, c, 0, HEADER_SIZE, 16, 24);
  }

  lemma {:induction false} TombstoneRows(b: Bytes, m: Bytes, rows: seq<Row>, i: nat, rows': seq<Row>)
    requires Laid(b, rows) && i < |rows| && rows' == rows[i := Dead(rows[i].size)]
    requires |m| == PAGE_SIZE && FreeEnd(m) == FreeEnd(b) && Agree(b, m, FreeEnd(b), PAGE_SIZE)
    ensures forall j | 0 <= j < |rows'| :: RowOn(m, FreeEnd(m), rows'[j])
  {
    forall j | 0 <= j < |rows'| ensures RowOn(m, FreeEnd(m), rows'[j]) {
      KeepRow(b, m, rows, j, FreeEnd(b));
    }
  }

  lemma {:induction false} DeadApart(rows: seq<Row>, i: nat)
    requires Apart(rows) && i < |rows|
    ensures Apart(rows[i := Dead(rows[i].size)])
  {
    var rows' := rows[i := Dead(rows[i].size)];
    forall j, k | 0 <= j < k < |rows'| ensures ApartTwo(rows'[j], rows'[k]) {
      assert ApartTwo(rows[j], rows[k]);
    }
  }

  lemma {:induction false} GarbageLaid(m: Bytes, c: Bytes, rows: seq<Row>, g: nat)
    requires Laid(m, rows) && Filled(m) && c == Patch(m, 12, EncodeU16(g)) && g < U16_LIMIT
    ensures Laid(c, rows) && Garbage(c) == g && FreeEnd(c) == FreeEnd(m) && NextLeaf(c) == NextLeaf(m) && Filled(c)
  {
    PatchAgree(m, 12, EncodeU16(g));
    PatchU16(m, 12, g);
    AgreeSlice(m, c, 14, PAGE_SIZE, 16, 24);
    AgreeTable(m, c, 14, PAGE_SIZE, rows);
    forall i | 0 <= i < |rows| ensures RowOn(c, FreeEnd(c), rows[i]) {
      KeepRow(m, c, rows, i, FreeEnd(m));
    }
  }
}
