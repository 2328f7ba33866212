/** Updates of leaf pages on bytes. */
module LeafUpdate {
  import opened Bytes
  import opened Assoc
  import opened Pages
  import opened Layout
  import opened Slotted
  import opened Packing
  import opened LeafCodec

  // ----------------------------------------------------------- replaced rows

  lemma {:induction false} ReplaceApart(rows: seq<Row>, i: nat, r: Row)
    requires Apart(rows) && i < |rows| && r.Live? && forall j | 0 <= j < |rows| && j != i :: ApartTwo(rows[j], r) && ApartTwo(r, rows[j])
    ensures Apart(rows[i := r])
  {
    var rows' := rows[i := r];
    forall j, k | 0 <= j < k < |rows'| ensures ApartTwo(rows'[j], rows'[k]) {
      assert ApartTwo(rows[j], rows[k]);
    }
  }

  lemma {:induction false} ReplaceAscends(rows: seq<Row>, i: nat, r: Row)
    requires Ascends(rows) && i < |rows| && rows[i].Live? && r.Live? && Keyed(r.data) && KeyOf(r.data) == KeyOf(rows[i].data)
    ensures Ascends(rows[i := r])
  {
    var rows' := rows[i := r];
    forall j, k | 0 <= j < k < |rows'| && rows'[j].Live? && rows'[k].Live? ensures !Lt(KeyOf(rows'[k].data), KeyOf(rows'[j].data)) {
      assert !Lt(KeyOf(rows[k].data), KeyOf(rows[j].data));
    }
  }

  /** An element rewritten inside its own bytes disturbs no other row. */
  lemma {:induction false} InPlaceLaid(b: Bytes, c: Bytes, rows: seq<Row>, i: nat, d: Bytes)
    requires Laid(b, rows) && i < |rows| && rows[i].Live? && Keyed(d) && |d| <= |rows[i].data|
    requires var at := rows[i].ptr;
      Agree(b, c, 0, at) && Agree(b, c, at + |rows[i].data|, PAGE_SIZE) && at + |d| <= |c| && c[at..at + |d|] == d
    ensures Laid(c, rows[i := rows[i].(data := d)]) && FreeEnd(c) == FreeEnd(b) && SameHeader(b, c)
  {
    var r, rows', end := rows[i].(data := d), rows[i := rows[i].(data := d)], FreeEnd(b);
    assert RowOn(b, end, rows[i]);
    AgreeTable(b, c, 0, rows[i].ptr, rows);
    AgreeSlice(b, c, 0, rows[i].ptr, 16, 24);
    forall j | 0 <= j < |rows'| ensures RowOn(c, end, rows'[j]) {
      assert RowOn(b, end, rows[j]);
      if j != i && rows[j].Live? {
        OtherRow(b, c, rows, i, j);
      }
    }
    forall j | 0 <= j < |rows| && j != i ensures ApartTwo(rows[j], r) && ApartTwo(r, rows[j]) {
      assert ApartTwo(rows[if j < i then j else i], rows[if j < i then i else j]);
    }
    ReplaceApart(rows, i, r);
  }

  lemma {:induction false} OtherRow(b: Bytes, c: Bytes, rows: seq<Row>, i: nat, j: nat)
    requires Laid(b, rows) && i < |rows| && rows[i].Live? && j < |rows| && rows[j].Live? && i != j
    requires Agree(b, c, 0, rows[i].ptr) && Agree(b, c, rows[i].ptr + |rows[i].data|, PAGE_SIZE)
    ensures StoredAt(c, FreeEnd(b), rows[j].ptr, rows[j].data)
  {
    var x, y := rows[j].ptr, rows[j].ptr + |rows[j].data|;
    assert RowOn(b, FreeEnd(b), rows[j]);
    assert ApartTwo(rows[if j < i then j else i], rows[if j < i then i else j]);
    if y <= rows[i].ptr {
      AgreeSlice(b, c, 0, rows[i].ptr, x, y);
    } else {
      AgreeSlice(b, c, rows[i].ptr + |rows[i].data|, PAGE_SIZE, x, y);
    }
  }

  /** An element moved to the bottom of the element region. */
  lemma {:induction false} MovedLaid(b: Bytes, c: Bytes, rows: seq<Row>, i: nat, r: Row)
    requires Laid(b, rows) && i < |rows| && r.Live? && RowOn(c, r.ptr, r) && FreeBegin(b) <= r.ptr && r.ptr + |r.data| == FreeEnd(b)
    requires |c| == PAGE_SIZE && Filled(c) && NumSlots(c) == |rows| && FreeBegin(c) == FreeBegin(b) && FreeEnd(c) == r.ptr
    requires Agree(b, c, FreeEnd(b), PAGE_SIZE) && TableOn(c, rows[i := r])
    ensures Laid(c, rows[i := r])
  {
    var rows' := rows[i := r];
    forall j | 0 <= j < |rows'| ensures RowOn(c, FreeEnd(c), rows'[j]) {
      if j != i {
        KeepRow(b, c, rows, j, r.ptr);
      }
    }
    forall j | 0 <= j < |rows| && j != i ensures ApartTwo(rows[j], r) && ApartTwo(r, rows[j]) {
      assert RowOn(b, FreeEnd(b), rows[j]);
    }
    ReplaceApart(rows, i, r);
  }

  // ----------------------------------------------------------------- SetValue

  /** The bytes of an element whose value was overwritten with one that is not longer. */
  lemma {:induction false} ShrunkElement(d: Bytes, c: Bytes, k: Bytes, v: Bytes)
    requires Fits(d, true) && KeyOf(d) == k && |v| <= |ElemOf(d).value| && |c| == ElemSize(KV(k, v)) && |v| < U16_LIMIT
    requires c[..2 + |k|] == d[..2 + |k|] && c[2 + |k|..] == EncodeU16(|v|) + v
    ensures Fits(c, true) && KeyOf(c) == k && ElemOf(c) == KV(k, v)
  {
    var n, w := |k|, EncodeU16(|v|) + v;
    assert c[0] == d[..2 + n][0] && c[1] == d[..2 + n][1];
    assert c[2 + n] == c[2 + n..][0] == w[0] && c[3 + n] == c[2 + n..][1] == w[1];
    assert c[2..2 + n] == c[..2 + n][2..] && d[2..2 + n] == d[..2 + n][2..];
    assert c[4 + n..] == c[2 + n..][2..] == w[2..] == v;
  }

  lemma {:induction false} OverwrittenBytes(b: Bytes, c: Bytes, end: nat, ptr: nat, d: Bytes, v: Bytes)
    requires StoredAt(b, end, ptr, d) && Fits(d, true) && |v| <= |ElemOf(d).value| && |v| < U16_LIMIT
    requires c == Patch(b, ptr + 2 + |KeyOf(d)|, EncodeU16(|v|) + v)
    ensures var e := KV(KeyOf(d), v);
      var d' := c[ptr..ptr + ElemSize(e)];
      Fits(d', true) && KeyOf(d') == e.key && ElemOf(d') == e
  {
    var k := KeyOf(d);
    var at, y := ptr + 2 + |k|, ptr + 4 + |k| + |v|;
    PatchAgree(b, at, EncodeU16(|v|) + v);
    AgreeSlice(b, c, 0, at, ptr, at);
    SubSlice(b, ptr, ptr + |d|, 0, 2 + |k|);
    SubSlice(c, ptr, y, 0, 2 + |k|);
    SubSlice(c, ptr, y, 2 + |k|, 4 + |k| + |v|);
    var d' := c[ptr..y];
    assert d'[2 + |k|..4 + |k| + |v|] == d'[2 + |k|..];
    ShrunkElement(d, d', k, v);
  }

  /** The row of an element whose value is overwritten in place. */
  ghost function ShrunkRow(c: Bytes, r: Row, v: Bytes): Row
    requires r.Live? && Keyed(r.data) && r.ptr + ElemSize(KV(KeyOf(r.data), v)) <= |c|
  {
    r.(data := c[r.ptr..r.ptr + ElemSize(KV(KeyOf(r.data), v))])
  }

  lemma {:induction false} OverwrittenPage(b: Bytes, c: Bytes, rows: seq<Row>, i: nat, r: Row)
    requires LeafPage(b, rows) && i < |rows| && rows[i].Live? && r.Live? && r == rows[i].(data := r.data)
    requires Fits(r.data, true) && KeyOf(r.data) == KeyOf(rows[i].data) && |r.data| <= |rows[i].data|
    requires Agree(b, c, 0, r.ptr) && Agree(b, c, r.ptr + |rows[i].data|, PAGE_SIZE) && r.ptr + |r.data| <= |c|
    requires c[r.ptr..r.ptr + |r.data|] == r.data
    ensures LeafPage(c, rows[i := r]) && FreeEnd(c) == FreeEnd(b) && SameHeader(b, c)
  {
    InPlaceLaid(b, c, rows, i, r.data);
    ReplaceAscends(rows, i, r);
  }

  /** setValueInElement. */
  method OverwriteValue(page: array<byte>, i: nat, v: Bytes, ghost rows: seq<Row>) returns (ghost r: Row)
    requires page.Length == PAGE_SIZE && LeafPage(page[..], rows) && i < |rows| && rows[i].Live? && |v| <= |ElemOf(rows[i].data).value|
    modifies page
    ensures r.Live? && r.size == rows[i].size && Fits(r.data, true) && ElemOf(r.data) == KV(KeyOf(rows[i].data), v)
    ensures LeafPage(page[..], rows[i := r]) && FreeEnd(page[..]) == FreeEnd(old(page[..])) && SameHeader(old(page[..]), page[..])
  {
    ghost var b := page[..];
    assert RowOn(b, FreeEnd(b), rows[i]);
    var ptr := SlotAt(page[..], i).ptr;
    KeyAt(b, FreeEnd(b), ptr, rows[i].data);
    var at := ptr + 2 + U16(page[..], ptr);
    Copy(page, at, EncodeU16(|v|) + v);
    OverwrittenBytes(b, page[..], FreeEnd(b), ptr, rows[i].data, v);
    r := ShrunkRow(page[..], rows[i], v);
    PatchAgree(b, at, EncodeU16(|v|) + v);
    OverwrittenPage(b, page[..], rows, i, r);
  }

  /** appendElement, setFreeSpaceEnd, setElementPointer and setElementSize. */
  method MoveElement(page: array<byte>, i: nat, d: Bytes, ghost rows: seq<Row>) returns (ghost r: Row)
    requires page.Length == PAGE_SIZE && LeafPage(page[..], rows) && i < |rows| && rows[i].Live?
    requires Fits(d, true) && KeyOf(d) == KeyOf(rows[i].data) && FreeBegin(page[..]) + |d| <= FreeEnd(page[..])
    modifies page
    ensures r == Live(|d|, FreeEnd(old(page[..])) - |d|, d)
    ensures LeafPage(page[..], rows[i := r]) && FreeEnd(page[..]) == r.ptr && SameHeader(old(page[..]), page[..])
  {
    ghost var b := page[..];
    var end := FreeEnd(page[..]) - |d|;
    r := Live(|d|, end, d);
    Copy(page, end, d);
    ghost var m := page[..];
    PatchAgree(b, end, d);
    Copy(page, 10, EncodeU16(end));
    ghost var q := page[..];
    PatchAgree(m, 10, EncodeU16(end));
    PatchU16(m, 10, end);
    var slots := [Slot(|d|, end)];
    var begin := WriteSlots(page, i, slots);
    assert SlotAt(page[..], i + 0) == slots[0];
    Moved(b, m, q, page[..], rows, i, r);
    ReplaceAscends(rows, i, r);
  }

  lemma {:induction false} Moved(b: Bytes, m: Bytes, q: Bytes, c: Bytes, rows: seq<Row>, i: nat, r: Row)
    requires Laid(b, rows) && i < |rows| && r.Live? && Keyed(r.data) && |r.data| == r.size
    requires FreeBegin(b) <= r.ptr && r.ptr + |r.data| == FreeEnd(b) && m == Patch(b, r.ptr, r.data)
    requires q == Patch(m, 10, EncodeU16(r.ptr)) && |c| == PAGE_SIZE
    requires Agree(q, c, 0, HEADER_SIZE + SLOT_SIZE * i) && Agree(q, c, HEADER_SIZE + SLOT_SIZE * (i + 1), PAGE_SIZE)
    requires SlotAt(c, i) == SlotOf(r)
    ensures Laid(c, rows[i := r]) && FreeEnd(c) == r.ptr && SameHeader(b, c)
  {
    PatchAgree(b, r.ptr, r.data);
    PatchAgree(m, 10, EncodeU16(r.ptr));
    PatchU16(m, 10, r.ptr);
    AgreeU16(q, c, 0, HEADER_SIZE, 10);
    assert Agree(b, c, 0, 10) && Agree(b, c, 12, HEADER_SIZE);
    HeaderKept(b, c);
    AgreeSlice(m, c, FreeBegin(b), PAGE_SIZE, r.ptr, r.ptr + |r.data|);
    var rows' := rows[i := r];
    forall j | 0 <= j < |rows'| ensures SlotAt(c, j) == SlotOf(rows'[j]) {
      if j < i {
        AgreeSlot(b, c, 12, HEADER_SIZE + SLOT_SIZE * i, j);
      } else if j > i {
        AgreeSlot(b, c, HEADER_SIZE + SLOT_SIZE * (i + 1), r.ptr, j);
      }
    }
    MovedLaid(b, c, rows, i, r);
  }

  lemma {:induction false} ChangeMiddle(a: seq<Item>, x: Item, y: Item, c: seq<Item>)
    requires AllFit(a + [x] + c) && Fits(y.data, true)
    ensures AllFit(a + [y] + c)
    ensures ElemsIn(a + [y] + c) == ElemsIn(a + [x] + c)[|a| := ElemOf(y.data)]
    ensures SizesIn(a + [y] + c) == SizesIn(a + [x] + c)[|a| := y.size]
  {
    var items, items' := a + [x] + c, a + [y] + c;
    forall i | 0 <= i < |items'| ensures Fits(items'[i].data, true) {
      assert i != |a| ==> items'[i] == items[i];
    }
  }

  /** Replacing the row of a key is updating the element at its position. */
  lemma {:induction false} UpdatedElems(rows: seq<Row>, i: nat, r: Row)
    requires ShapedRows(rows, true) && i < |rows| && rows[i].Live? && r.Live? && Fits(r.data, true)
    requires AllFit(ItemsTo(rows, |rows|))
    ensures var items, items', u := ItemsTo(rows, |rows|), ItemsTo(rows[i := r], |rows|), |Before(rows, i)|;
      && u < |items| && AllFit(items')
      && ElemsIn(items') == ElemsIn(items)[u := ElemOf(r.data)] && SizesIn(items') == SizesIn(items)[u := r.size]
  {
    ItemsHere(rows, i);
    ItemsAt(rows, i, r);
    ChangeMiddle(Before(rows, i), Item(rows[i].size, rows[i].data), Item(r.size, r.data), After(rows, i + 1));
  }

  /** uint16 addition. */
  function AddU16(a: nat, b: nat): nat {
    (a + b) % U16_LIMIT
  }

  /** setGarbageSize. */
  method AddGarbage(page: array<byte>, n: nat, ghost rows: seq<Row>)
    requires page.Length == PAGE_SIZE && LeafPage(page[..], rows) && rows != []
    modifies page
    ensures LeafPage(page[..], rows) && Garbage(page[..]) == AddU16(Garbage(old(page[..])), n)
    ensures FreeEnd(page[..]) == FreeEnd(old(page[..])) && NextLeaf(page[..]) == NextLeaf(old(page[..]))
  {
    var garbage := AddU16(Garbage(page[..]), n);
    ghost var b := page[..];
    Copy(page, 12, EncodeU16(garbage));
    GarbageLaid(b, page[..], rows, garbage);
  }

  lemma {:induction false} UpdatedAt(rows: seq<Row>, i: nat, r: Row)
    requires ShapedRows(rows, true) && i < |rows| && rows[i].Live? && r.Live? && Fits(r.data, true)
    requires AllFit(ItemsTo(rows, |rows|)) && Sorted(ElemsIn(ItemsTo(rows, |rows|)))
    ensures var items, items', k := ItemsTo(rows, |rows|), ItemsTo(rows[i := r], |rows|), KeyOf(rows[i].data);
      && AllFit(items') && Has(ElemsIn(items), k)
      && var u := Pos(ElemsIn(items), k);
         && ElemsIn(items)[u] == ElemOf(rows[i].data) && SizesIn(items)[u] == rows[i].size
         && ElemsIn(items') == ElemsIn(items)[u := ElemOf(r.data)] && SizesIn(items') == SizesIn(items)[u := r.size]
  {
    UpdatedElems(rows, i, r);
    RowPos(rows, i);
    ItemsHere(rows, i);
    assert ItemsTo(rows, |rows|)[|Before(rows, i)|] == Item(rows[i].size, rows[i].data);
  }

  lemma {:induction false} ShrunkView(b: Bytes, c: Bytes, rows: seq<Row>, i: nat, r: Row, v: Bytes)
    requires ShapedRows(rows, true) && i < |rows| && rows[i].Live? && r.Live? && Fits(r.data, true) && r.size == rows[i].size
    requires |b| == |c| == PAGE_SIZE && AllFit(ItemsTo(rows, |rows|)) && Sorted(ElemsIn(ItemsTo(rows, |rows|)))
    requires ElemOf(r.data) == KV(KeyOf(rows[i].data), v) && |v| <= |ElemOf(rows[i].data).value|
    requires FreeEnd(c) == FreeEnd(b) && FreeBegin(c) == FreeBegin(b) && NextLeaf(c) == NextLeaf(b)
    requires Garbage(c) == AddU16(Garbage(b), |ElemOf(rows[i].data).value| - |v|)
    ensures var items, items', k := ItemsTo(rows, |rows|), ItemsTo(rows[i := r], |rows|), KeyOf(rows[i].data);
      AllFit(items') && Has(ElemsIn(items), k) && Pages.SetValue(ViewOf(b, items), k, v) == Done(ViewOf(c, items'))
  {
    UpdatedAt(rows, i, r);
    SetShrinks(ViewOf(b, ItemsTo(rows, |rows|)), ViewOf(c, ItemsTo(rows[i := r], |rows|)), KeyOf(rows[i].data), v);
  }

  lemma {:induction false} GrownView(b: Bytes, c: Bytes, rows: seq<Row>, i: nat, r: Row, v: Bytes)
    requires ShapedRows(rows, true) && i < |rows| && rows[i].Live? && r.Live? && Fits(r.data, true)
    requires r.size == ElemSize(ElemOf(r.data)) < U16_LIMIT
    requires |b| == |c| == PAGE_SIZE && AllFit(ItemsTo(rows, |rows|)) && Sorted(ElemsIn(ItemsTo(rows, |rows|)))
    requires ElemOf(r.data) == KV(KeyOf(rows[i].data), v) && |v| > |ElemOf(rows[i].data).value| && r.size <= FreeEnd(b) - FreeBegin(b)
    requires FreeEnd(c) == FreeEnd(b) - r.size && FreeBegin(c) == FreeBegin(b) && NextLeaf(c) == NextLeaf(b)
    requires Garbage(c) == AddU16(Garbage(b), ElemSize(ElemOf(rows[i].data)))
    ensures var items, items', k := ItemsTo(rows, |rows|), ItemsTo(rows[i := r], |rows|), KeyOf(rows[i].data);
      AllFit(items') && Has(ElemsIn(items), k) && Pages.SetValue(ViewOf(b, items), k, v) == Done(ViewOf(c, items'))
  {
    UpdatedAt(rows, i, r);
    SetGrows(ViewOf(b, ItemsTo(rows, |rows|)), ViewOf(c, ItemsTo(rows[i := r], |rows|)), KeyOf(rows[i].data), v);
  }

  /** linearSearch for a key that is there. */
  method FindRow(page: array<byte>, k: Bytes, ghost rows: seq<Row>) returns (i: nat)
    requires page.Length == PAGE_SIZE && LeafPage(page[..], rows) && Has(LeafView(page[..], rows).elems, k)
    ensures i < |rows| && rows[i].Live? && KeyOf(rows[i].data) == k
  {
    var found;
    i, found := LinearSearch(page, k, rows);
    if found != 0 {
      ItemsFit(rows, |rows|);
      NoRowNoElem(rows, k);
    }
  }

  lemma {:induction false} SetShrinks(p: Leaf, q: Leaf, k: Bytes, v: Bytes)
    requires |p.slots| == |p.elems| && Has(p.elems, k)
    requires var u := Pos(p.elems, k);
      && |p.elems[u].value| >= |v|
      && q == Leaf(p.elems[u := KV(k, v)], p.slots[u := p.slots[u]], p.free, (p.garbage + (|p.elems[u].value| - |v|)) % U16_LIMIT, p.next)
    ensures Pages.SetValue(p, k, v) == Done(q)
  {
    assert p.slots[Pos(p.elems, k) := p.slots[Pos(p.elems, k)]] == p.slots;
  }

  lemma {:induction false} SetGrows(p: Leaf, q: Leaf, k: Bytes, v: Bytes)
    requires |p.slots| == |p.elems| && Has(p.elems, k) && ElemSize(KV(k, v)) <= p.free && ElemSize(KV(k, v)) < U16_LIMIT
    requires var u := Pos(p.elems, k);
      && |p.elems[u].value| < |v|
      && q == Leaf(p.elems[u := KV(k, v)], p.slots[u := ElemSize(KV(k, v))], p.free - ElemSize(KV(k, v)),
                   (p.garbage + ElemSize(p.elems[u])) % U16_LIMIT, p.next)
    ensures Pages.SetValue(p, k, v) == Done(q)
  {
    SmallMod(ElemSize(KV(k, v)));
  }

  /** The branch of SetValue for a value that is not longer. */
  method ShrinkValue(page: array<byte>, i: nat, v: Bytes, size: nat, ghost rows: seq<Row>) returns (ghost rows': seq<Row>)
    requires page.Length == PAGE_SIZE && LeafPage(page[..], rows) && Sorted(LeafView(page[..], rows).elems)
    requires i < |rows| && rows[i].Live? && size == |ElemOf(rows[i].data).value| >= |v|
    modifies page
    ensures LeafPage(page[..], rows')
    ensures var p, k := LeafView(old(page[..]), rows), KeyOf(rows[i].data);
      Has(p.elems, k) && Pages.SetValue(p, k, v) == Done(LeafView(page[..], rows'))
  {
    ghost var b := page[..];
    ItemsFit(rows, |rows|);
    ghost var r := OverwriteValue(page, i, v, rows);
    rows' := rows[i := r];
    AddGarbage(page, size - |v|, rows');
    ShrunkView(b, page[..], rows, i, r, v);
  }

  /** The branch of SetValue for a longer value: the old element becomes garbage. */
  method GrowValue(page: array<byte>, i: nat, k: Bytes, v: Bytes, was: nat, ghost rows: seq<Row>) returns (ghost rows': seq<Row>)
    requires page.Length == PAGE_SIZE && LeafPage(page[..], rows) && Sorted(LeafView(page[..], rows).elems)
    requires i < |rows| && rows[i].Live? && KeyOf(rows[i].data) == k && |ElemOf(rows[i].data).value| < |v|
    requires was == ElemSize(ElemOf(rows[i].data))
    requires ElemSize(KV(k, v)) <= FreeEnd(page[..]) - FreeBegin(page[..])
    modifies page
    ensures LeafPage(page[..], rows')
    ensures var p := LeafView(old(page[..]), rows); Has(p.elems, k) && Pages.SetValue(p, k, v) == Done(LeafView(page[..], rows'))
  {
    ghost var b := page[..];
    ItemsFit(rows, |rows|);
    DecodeElement(KV(k, v));
    ghost var r := MoveElement(page, i, LeafData(KV(k, v)), rows);
    rows' := rows[i := r];
    AddGarbage(page, was, rows');
    GrownView(b, page[..], rows, i, r, v);
  }

  /** SetValue on a sorted leaf that holds the key: not ok means that it wrote outside the free region. */
  method SetValue(page: array<byte>, k: Bytes, v: Bytes, ghost rows: seq<Row>) returns (ok: bool, ghost rows': seq<Row>)
    requires page.Length == PAGE_SIZE && LeafPage(page[..], rows)
    requires var p := LeafView(page[..], rows); Sorted(p.elems) && Has(p.elems, k)
    modifies page
    ensures var res := Pages.SetValue(LeafView(old(page[..]), rows), k, v);
      && ok == !res.Broken? && LeafPage(page[..], rows') && (ok ==> LeafView(page[..], rows') == res.page)
  {
    ghost var b := page[..];
    ItemsFit(rows, |rows|);
    var i := FindRow(page, k, rows);
    RowPos(rows, i);
    assert RowOn(b, FreeEnd(b), rows[i]);
    var data := ReadData(page, SlotAt(page[..], i).ptr, true, FreeEnd(b), rows[i].data);
    var was := ElemOf(data);
    if |was.value| >= |v| {
      rows' := ShrinkValue(page, i, v, |was.value|, rows);
      ok := true;
    } else if ElemSize(KV(k, v)) > FreeEnd(page[..]) - FreeBegin(page[..]) {
      return false, rows;
    } else {
      rows' := GrowValue(page, i, k, v, ElemSize(was), rows);
      ok := true;
    }
  }
}
