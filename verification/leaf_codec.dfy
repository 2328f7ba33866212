/** The leaf codec on bytes: every operation refines the leaf page the tree works with. */
module LeafCodec {
  import opened Bytes
  import opened Assoc
  import opened Pages
  import opened Layout
  import opened Slotted
  import opened Packing

  // ----------------------------------------------------------------- elements

  /** encodeElement. */
  function LeafData(e: KV): (d: Bytes)
    ensures |d| == ElemSize(e)
  {
    EncodeU16(|e.key|) + e.key + EncodeU16(|e.value|) + e.value
  }

  /** decodeElement. */
  function ElemOf(d: Bytes): KV
    requires Fits(d, true)
  {
    KV(KeyOf(d), d[4 + U16(d, 0)..])
  }

  lemma {:induction false} LeafParts(k: Bytes, v: Bytes)
    requires |k| < U16_LIMIT && |v| < U16_LIMIT
    ensures var d, n := EncodeU16(|k|) + k + EncodeU16(|v|) + v, |k|;
      U16(d, 0) == n && d[2..2 + n] == k && U16(d, 2 + n) == |v| && d[4 + n..] == v
  {
    var d, n := EncodeU16(|k|) + k + EncodeU16(|v|) + v, |k|;
    assert d[0] == EncodeU16(n)[0] && d[1] == EncodeU16(n)[1];
    assert d[2 + n] == EncodeU16(|v|)[0] && d[3 + n] == EncodeU16(|v|)[1];
  }

  /** An element whose lengths fit their 16-bit fields is decoded from its bytes. */
  lemma {:induction false} DecodeElement(e: KV)
    requires |e.key| < U16_LIMIT && |e.value| < U16_LIMIT
    ensures var d := LeafData(e); Fits(d, true) && KeyOf(d) == e.key && ElemOf(d) == e
  {
    LeafParts(e.key, e.value);
  }

  // --------------------------------------------------------------------- view

  ghost predicate AllFit(items: seq<Item>) {
    forall i | 0 <= i < |items| :: Fits(items[i].data, true)
  }

  ghost function ElemsIn(items: seq<Item>): (s: seq<KV>)
    requires AllFit(items)
    ensures |s| == |items| && forall i | 0 <= i < |s| :: s[i] == ElemOf(items[i].data)
  {
    seq(|items|, i requires 0 <= i < |items| => ElemOf(items[i].data))
  }

  ghost function SizesIn(items: seq<Item>): (s: seq<nat>)
    ensures |s| == |items| && forall i | 0 <= i < |s| :: s[i] == items[i].size
  {
    seq(|items|, i requires 0 <= i < |items| => items[i].size)
  }

  /** The bytes are a leaf page with these rows. */
  ghost predicate LeafPage(b: Bytes, rows: seq<Row>) {
    Laid(b, rows) && Ascends(rows) && ShapedRows(rows, true)
  }

  lemma {:induction false} ItemsFit(rows: seq<Row>, n: nat)
    requires ShapedRows(rows, true) && n <= |rows|
    ensures AllFit(ItemsTo(rows, n))
  {
    if n > 0 {
      ItemsFit(rows, n - 1);
    }
  }

  /** The leaf page as the tree sees it. */
  ghost function LeafView(b: Bytes, rows: seq<Row>): Leaf
    requires LeafPage(b, rows)
  {
    ItemsFit(rows, |rows|);
    ViewOf(b, ItemsTo(rows, |rows|))
  }

  ghost function ViewOf(b: Bytes, items: seq<Item>): Leaf
    requires |b| == PAGE_SIZE && AllFit(items)
  {
    Leaf(ElemsIn(items), SizesIn(items), FreeEnd(b) - FreeBegin(b), Garbage(b), NextLeaf(b))
  }

  lemma {:induction false} UsedIs(items: seq<Item>, n: nat)
    requires AllFit(items) && n <= |items|
    ensures UsedTo(ElemsIn(items), n) == SumData(items, n) + SLOT_SIZE * n
  {
    if n > 0 {
      UsedIs(items, n - 1);
    }
  }

  // ---------------------------------------------------------------- insertion

  lemma {:induction false} ItemsConcat(a: seq<Row>, b: seq<Row>, n: nat)
    requires n <= |b|
    ensures ItemsTo(a + b, |a| + n) == ItemsTo(a, |a|) + ItemsTo(b, n)
  {
    if n == 0 {
      ItemsPrefix(a, b, |a|);
    } else {
      ItemsConcat(a, b, n - 1);
    }
  }

  lemma {:induction false} ItemsPrefix(a: seq<Row>, b: seq<Row>, n: nat)
    requires n <= |a|
    ensures ItemsTo(a + b, n) == ItemsTo(a, n)
  {
    if n > 0 {
      ItemsPrefix(a, b, n - 1);
    }
  }

  /** The live elements of a prefix of the rows. */
  ghost function Before(rows: seq<Row>, at: nat): (items: seq<Item>)
    requires at <= |rows|
  {
    ItemsTo(rows[..at], at)
  }

  ghost function After(rows: seq<Row>, at: nat): (items: seq<Item>)
    requires at <= |rows|
  {
    ItemsTo(rows[at..], |rows| - at)
  }

  lemma {:induction false} ItemsSplit(rows: seq<Row>, at: nat)
    requires at <= |rows|
    ensures ItemsTo(rows, |rows|) == Before(rows, at) + After(rows, at)
  {
    ItemsConcat(rows[..at], rows[at..], |rows| - at);
    assert rows[..at] + rows[at..] == rows;
  }

  lemma {:induction false} ItemsInserted(rows: seq<Row>, at: nat, r: Row)
    requires at <= |rows| && r.Live?
    ensures ItemsTo(InsertRow(rows, at, r), |rows| + 1) == Before(rows, at) + [Item(r.size, r.data)] + After(rows, at)
  {
    var a, c := rows[..at], rows[at..];
    ItemsConcat(a + [r], c, |c|);
    ItemsConcat(a, [r], 1);
    assert ItemsTo([r], 1) == ItemsTo([r], 0) + [Item(r.size, r.data)];
  }

  /** Before the place of a key no live key is greater, after it every live key is. */
  lemma {:induction false} PlaceSides(rows: seq<Row>, k: Bytes, i: nat)
    requires Ascends(rows) && ShapedRows(rows, true)
    ensures var at := Place(rows, k, 0);
      && (i < |Before(rows, at)| ==> Keyed(Before(rows, at)[i].data) && !Lt(k, KeyOf(Before(rows, at)[i].data)))
      && (i < |After(rows, at)| ==> Keyed(After(rows, at)[i].data) && Lt(k, KeyOf(After(rows, at)[i].data)))
  {
    var at := Place(rows, k, 0);
    if i < |Before(rows, at)| {
      ItemFrom(rows[..at], at, i);
      var j :| 0 <= j < at && rows[..at][j].Live? && Before(rows, at)[i] == Item(rows[..at][j].size, rows[..at][j].data);
      assert !Greater(rows[j], k);
    }
    if i < |After(rows, at)| {
      ItemFrom(rows[at..], |rows| - at, i);
      var j :| 0 <= j < |rows| - at && rows[at..][j].Live? && After(rows, at)[i] == Item(rows[at..][j].size, rows[at..][j].data);
      if j > 0 {
        GreaterOn(rows, k, at, at + j);
      }
      assert Greater(rows[at + j], k);
    }
  }

  lemma {:induction false} UpperSplits(a: seq<KV>, c: seq<KV>, k: Bytes)
    requires Sorted(a + c)
    requires (forall i | 0 <= i < |a| :: !Lt(k, a[i].key)) && (forall i | 0 <= i < |c| :: Lt(k, c[i].key))
    ensures Upper(a + c, k) == |a|
  {
    OrderFacts();
    var s := a + c;
    assert forall i | 0 <= i < |a| :: s[i] == a[i];
    assert forall i | |a| <= i < |s| :: s[i] == c[i - |a|];
    if |a| > 0 && a[|a| - 1].key == k {
      PosUnique(s, k, |a| - 1);
    } else {
      forall i | 0 <= i < |a| ensures Lt(s[i].key, k) {
        assert i < |a| - 1 ==> Lt(s[i].key, s[|a| - 1].key);
      }
      PosUnique(s, k, |a|);
    }
  }

  lemma {:induction false} ElemsConcat(a: seq<Item>, b: seq<Item>)
    requires AllFit(a) && AllFit(b)
    ensures AllFit(a + b) && ElemsIn(a + b) == ElemsIn(a) + ElemsIn(b) && SizesIn(a + b) == SizesIn(a) + SizesIn(b)
  {
  }

  lemma {:induction false} InsertedLists(a: seq<Item>, c: seq<Item>, x: Item)
    requires AllFit(a) && AllFit(c) && Fits(x.data, true) && x.size == ElemSize(ElemOf(x.data)) % U16_LIMIT
    requires Sorted(ElemsIn(a) + ElemsIn(c))
    requires var k := ElemOf(x.data).key;
      (forall i | 0 <= i < |a| :: !Lt(k, ElemOf(a[i].data).key)) && (forall i | 0 <= i < |c| :: Lt(k, ElemOf(c[i].data).key))
    ensures AllFit(a + c) && AllFit(a + [x] + c)
    ensures var s, e := ElemsIn(a + c), ElemOf(x.data);
      && ElemsIn(a + [x] + c) == InsertElem(s, e)
      && SizesIn(a + [x] + c) == InsertSize(s, SizesIn(a + c), e)
  {
    ElemsConcat(a, c);
    ElemsConcat(a, [x]);
    ElemsConcat(a + [x], c);
    assert ElemsIn([x]) == [ElemOf(x.data)] && SizesIn([x]) == [x.size];
    UpperSplits(ElemsIn(a), ElemsIn(c), ElemOf(x.data).key);
  }

  /** InsertRow at the place of the key is the insertion of the element into the sorted list. */
  lemma {:induction false} InsertedElems(rows: seq<Row>, r: Row)
    requires Ascends(rows) && ShapedRows(rows, true) && r.Live? && Fits(r.data, true) && r.size == ElemSize(ElemOf(r.data)) % U16_LIMIT
    requires AllFit(ItemsTo(rows, |rows|)) && Sorted(ElemsIn(ItemsTo(rows, |rows|)))
    ensures var items, items' := ItemsTo(rows, |rows|), ItemsTo(InsertRow(rows, Place(rows, KeyOf(r.data), 0), r), |rows| + 1);
      var s, e := ElemsIn(items), ElemOf(r.data);
      && AllFit(items') && ElemsIn(items') == InsertElem(s, e)
      && SizesIn(items') == InsertSize(s, SizesIn(items), e)
  {
    var k := KeyOf(r.data);
    var at := Place(rows, k, 0);
    var a, c := Before(rows, at), After(rows, at);
    ItemsSplit(rows, at);
    ItemsInserted(rows, at, r);
    ItemsFit(rows[..at], at);
    ItemsFit(rows[at..], |rows| - at);
    ElemsConcat(a, c);
    forall i | 0 <= i < |a| ensures !Lt(k, ElemOf(a[i].data).key) { PlaceSides(rows, k, i); }
    forall i | 0 <= i < |c| ensures Lt(k, ElemOf(c[i].data).key) { PlaceSides(rows, k, i); }
    InsertedLists(a, c, Item(r.size, r.data));
  }

  // --------------------------------------------------------------- compaction

  ghost predicate ItemsAscend(items: seq<Item>) {
    && (forall i | 0 <= i < |items| :: Keyed(items[i].data))
    && forall i, j | 0 <= i < j < |items| :: !Lt(KeyOf(items[j].data), KeyOf(items[i].data))
  }

  lemma {:induction false} AscendingItems(rows: seq<Row>, n: nat)
    requires Ascends(rows) && n <= |rows|
    ensures ItemsAscend(ItemsTo(rows, n))
  {
    if n > 0 {
      AscendingItems(rows, n - 1);
      var was := ItemsTo(rows, n - 1);
      if rows[n - 1].Live? {
        forall i | 0 <= i < |was| ensures !Lt(KeyOf(rows[n - 1].data), KeyOf(was[i].data)) {
          ItemFrom(rows, n - 1, i);
          var j :| 0 <= j < n - 1 && rows[j].Live? && was[i] == Item(rows[j].size, rows[j].data);
        }
      }
    }
  }

  lemma {:induction false} AllLive(rows: seq<Row>, n: nat)
    requires n <= |rows| && forall i | 0 <= i < |rows| :: rows[i].Live?
    ensures |ItemsTo(rows, n)| == n && forall i | 0 <= i < n :: ItemsTo(rows, n)[i] == Item(rows[i].size, rows[i].data)
  {
    if n > 0 {
      AllLive(rows, n - 1);
    }
  }

  /** Rows without tombstones are a leaf page when their elements are. */
  lemma {:induction false} LiveLeafPage(b: Bytes, rows: seq<Row>)
    requires Laid(b, rows) && (forall i | 0 <= i < |rows| :: rows[i].Live?)
    requires AllFit(ItemsTo(rows, |rows|)) && ItemsAscend(ItemsTo(rows, |rows|))
    ensures LeafPage(b, rows)
  {
    AllLive(rows, |rows|);
    var items := ItemsTo(rows, |rows|);
    assert forall i | 0 <= i < |rows| :: rows[i].data == items[i].data;
  }

  /** compact keeps the element list and frees every garbage byte. */
  method CompactLeaf(page: array<byte>, ghost rows: seq<Row>) returns (ghost rows': seq<Row>)
    requires page.Length == PAGE_SIZE && LeafPage(page[..], rows)
    modifies page
    ensures LeafPage(page[..], rows') && LeafView(page[..], rows') == Pages.Compact(LeafView(old(page[..]), rows))
  {
    ItemsFit(rows, |rows|);
    AscendingItems(rows, |rows|);
    rows' := Packing.Compact(page, true, rows);
    LiveLeafPage(page[..], rows');
    UsedIs(ItemsTo(rows, |rows|), |ItemsTo(rows, |rows|)|);
  }

  // -------------------------------------------------------------- InsertElement

  ghost function Appended(p: Leaf, e: KV): Leaf
    requires |p.slots| == |p.elems|
  {
    p.(elems := InsertElem(p.elems, e), slots := InsertSize(p.elems, p.slots, e), free := p.free - ElemSize(e) - SLOT_SIZE)
  }

  lemma {:induction false} InsertShaped(rows: seq<Row>, at: nat, r: Row)
    requires ShapedRows(rows, true) && at <= |rows| && r.Live? && Fits(r.data, true)
    ensures ShapedRows(InsertRow(rows, at, r), true)
  {
    var rows' := InsertRow(rows, at, r);
    forall i | 0 <= i < |rows'| && rows'[i].Live? ensures Fits(rows'[i].data, true) {
      assert i != at ==> rows'[i] == rows[if i < at then i else i - 1];
    }
  }

  lemma {:induction false} AppendedView(b: Bytes, c: Bytes, items: seq<Item>, items': seq<Item>, e: KV)
    requires AllFit(items) && AllFit(items') && SameHeader(b, c)
    requires ElemsIn(items') == InsertElem(ElemsIn(items), e) && SizesIn(items') == InsertSize(ElemsIn(items), SizesIn(items), e)
    requires FreeEnd(c) == FreeEnd(b) - ElemSize(e) && FreeBegin(c) == FreeBegin(b) + SLOT_SIZE
    ensures ViewOf(c, items') == Appended(ViewOf(b, items), e)
  {
  }

  /** InsertElement with room for the element and its slot. */
  method AppendElement(page: array<byte>, k: Bytes, v: Bytes, ghost rows: seq<Row>) returns (ghost rows': seq<Row>)
    requires page.Length == PAGE_SIZE && LeafPage(page[..], rows)
    requires ElemSize(KV(k, v)) + SLOT_SIZE <= FreeEnd(page[..]) - FreeBegin(page[..])
    modifies page
    ensures LeafPage(page[..], rows')
    ensures Sorted(LeafView(old(page[..]), rows).elems) ==> LeafView(page[..], rows') == Appended(LeafView(old(page[..]), rows), KV(k, v))
  {
    ghost var b := page[..];
    DecodeElement(KV(k, v));
    ghost var r := InsertData(page, k, LeafData(KV(k, v)), rows);
    rows' := InsertRow(rows, Place(rows, k, 0), r);
    InsertShaped(rows, Place(rows, k, 0), r);
    ItemsFit(rows, |rows|);
    SmallMod(|r.data|);
    if Sorted(LeafView(b, rows).elems) {
      InsertedElems(rows, r);
      AppendedView(b, page[..], ItemsTo(rows, |rows|), ItemsTo(rows', |rows'|), KV(k, v));
    }
  }

  /** HasEnoughSpaceToInsertElement and InsertElement share this check: compact when only that makes room. */
  method MakeRoom(page: array<byte>, need: nat, ghost rows: seq<Row>) returns (room: bool, ghost rows': seq<Row>)
    requires page.Length == PAGE_SIZE && LeafPage(page[..], rows)
    modifies page
    ensures var p := LeafView(old(page[..]), rows);
      && room == (need % U16_LIMIT <= p.free || need <= p.garbage)
      && LeafPage(page[..], rows') && (!room ==> page[..] == old(page[..]))
      && LeafView(page[..], rows') == if p.free < need % U16_LIMIT && need <= p.garbage then Pages.Compact(p) else p
  {
    rows' := rows;
    if !Adequate(FreeEnd(page[..]) - FreeBegin(page[..]), need) {
      if !ShouldCompact(Garbage(page[..]), need) {
        return false, rows;
      }
      rows' := CompactLeaf(page, rows);
    }
    room := true;
  }

  /** The outcome of an insertion, as arithmetic on the counters. */
  lemma {:induction false} InsertOutcome(p: Leaf, k: Bytes, v: Bytes)
    requires |p.slots| == |p.elems|
    ensures var res, need := LeafInsert(p, k, v), ElemSize(KV(k, v)) + SLOT_SIZE;
      var compacts := p.free < need % U16_LIMIT && need <= p.garbage;
      && (res.Done? <==> need <= p.free || (compacts && need <= CAPACITY - Used(p.elems)))
      && (!res.Broken? <==> res.Done? || (p.free < need % U16_LIMIT && p.garbage < need))
  {
  }

  /** The insertion in the terms of the page. */
  method PlaceElement(page: array<byte>, k: Bytes, v: Bytes, ghost rows: seq<Row>)
    returns (ok: bool, inserted: bool, ghost rows': seq<Row>)
    requires page.Length == PAGE_SIZE && LeafPage(page[..], rows)
    modifies page
    ensures var p := LeafView(old(page[..]), rows);
      var res := LeafInsert(p, k, v);
      && ok == !res.Broken? && inserted == res.Done? && LeafPage(page[..], rows')
      && (res.Refused? ==> page[..] == old(page[..]))
      && (res.Done? && Sorted(p.elems) ==> LeafView(page[..], rows') == res.page)
  {
    var need := ElemSize(KV(k, v)) + SLOT_SIZE;
    inserted, rows' := MakeRoom(page, need, rows);
    ok := true;
    if !inserted {
      return;
    }
    if need > FreeEnd(page[..]) - FreeBegin(page[..]) {
      return false, false, rows';
    }
    ghost var rows1 := rows';
    rows' := AppendElement(page, k, v, rows1);
  }

  /** InsertElement: not ok means that it wrote outside the free region. */
  method InsertElement(page: array<byte>, k: Bytes, v: Bytes, ghost rows: seq<Row>)
    returns (ok: bool, inserted: bool, ghost rows': seq<Row>)
    requires page.Length == PAGE_SIZE && LeafPage(page[..], rows)
    modifies page
    ensures var p := LeafView(old(page[..]), rows);
      var res := LeafInsert(p, k, v);
      && ok == !res.Broken? && inserted == res.Done? && LeafPage(page[..], rows')
      && (res.Refused? ==> page[..] == old(page[..]))
      && (res.Done? && Sorted(p.elems) ==> LeafView(page[..], rows') == res.page)
    ensures var need, free, garbage := ElemSize(KV(k, v)) + SLOT_SIZE, FreeEnd(old(page[..])) - FreeBegin(old(page[..])), Garbage(old(page[..]));
      var compacts := free < need % U16_LIMIT && need <= garbage;
      && inserted == (need <= free || (compacts && need <= CAPACITY - Used(LeafView(old(page[..]), rows).elems)))
      && (ok <==> inserted || (free < need % U16_LIMIT && garbage < need))
  {
    ghost var p := LeafView(page[..], rows);
    ok, inserted, rows' := PlaceElement(page, k, v, rows);
    InsertOutcome(p, k, v);
  }

  // ------------------------------------------------------- rows that change

  ghost function ItemOf(r: Row): seq<Item> {
    if r.Live? then [Item(r.size, r.data)] else []
  }

  /** The live elements around a row that is replaced. */
  lemma {:induction false} ItemsAt(rows: seq<Row>, i: nat, r: Row)
    requires i < |rows|
    ensures ItemsTo(rows[i := r], |rows|) == Before(rows, i) + ItemOf(r) + After(rows, i + 1)
  {
    var a, c := rows[..i], rows[i + 1..];
    ItemsConcat(a + [r], c, |c|);
    ItemsConcat(a, [r], 1);
    assert ItemsTo([r], 1) == ItemsTo([r], 0) + ItemOf(r);
    assert rows[i := r] == a + [r] + c;
  }

  lemma {:induction false} ItemsHere(rows: seq<Row>, i: nat)
    requires i < |rows|
    ensures ItemsTo(rows, |rows|) == Before(rows, i) + ItemOf(rows[i]) + After(rows, i + 1)
  {
    ItemsAt(rows, i, rows[i]);
    assert rows[i := rows[i]] == rows;
  }

  /** In a sorted leaf the row of a key is the element at the position of the key. */
  lemma {:induction false} RowPos(rows: seq<Row>, i: nat)
    requires ShapedRows(rows, true) && i < |rows| && rows[i].Live?
    requires AllFit(ItemsTo(rows, |rows|)) && Sorted(ElemsIn(ItemsTo(rows, |rows|)))
    ensures var s, u := ElemsIn(ItemsTo(rows, |rows|)), |Before(rows, i)|;
      var k := KeyOf(rows[i].data);
      u < |s| && s[u] == ElemOf(rows[i].data) && Pos(s, k) == u && Has(s, k)
  {
    ItemsHere(rows, i);
    var items, u, k := ItemsTo(rows, |rows|), |Before(rows, i)|, KeyOf(rows[i].data);
    assert items[u] == Item(rows[i].size, rows[i].data);
    NotBoth(k, k);
    PosUnique(ElemsIn(items), k, u);
  }

  lemma {:induction false} NoRowNoElem(rows: seq<Row>, k: Bytes)
    requires ShapedRows(rows, true) && AllFit(ItemsTo(rows, |rows|))
    requires forall j | 0 <= j < |rows| && rows[j].Live? :: KeyOf(rows[j].data) != k
    ensures !Has(ElemsIn(ItemsTo(rows, |rows|)), k)
  {
    var items := ItemsTo(rows, |rows|);
    var p := Pos(ElemsIn(items), k);
    if p < |items| {
      ItemFrom(rows, |rows|, p);
      var j :| 0 <= j < |rows| && rows[j].Live? && items[p] == Item(rows[j].size, rows[j].data);
      assert ElemsIn(items)[p] == ElemOf(items[p].data);
    }
  }

  // ------------------------------------------------------------ DeleteElement

  lemma {:induction false} DropMiddle(a: seq<Item>, x: Item, c: seq<Item>)
    requires AllFit(a + [x] + c)
    ensures AllFit(a + c)
    ensures var s, z := ElemsIn(a + [x] + c), SizesIn(a + [x] + c);
      ElemsIn(a + c) == s[..|a|] + s[|a| + 1..] && SizesIn(a + c) == z[..|a|] + z[|a| + 1..]
  {
    var items := a + [x] + c;
    forall i | 0 <= i < |a + c| ensures Fits((a + c)[i].data, true) {
      assert (a + c)[i] == items[if i < |a| then i else i + 1];
    }
  }

  lemma {:induction false} DeletedElems(rows: seq<Row>, i: nat)
    requires ShapedRows(rows, true) && i < |rows| && rows[i].Live?
    requires AllFit(ItemsTo(rows, |rows|)) && Sorted(ElemsIn(ItemsTo(rows, |rows|)))
    ensures var items, items', u := ItemsTo(rows, |rows|), ItemsTo(rows[i := Dead(rows[i].size)], |rows|), |Before(rows, i)|;
      && u < |items| && AllFit(items') && SizesIn(items)[u] == rows[i].size
      && ElemsIn(items') == ElemsIn(items)[..u] + ElemsIn(items)[u + 1..] && SizesIn(items') == SizesIn(items)[..u] + SizesIn(items)[u + 1..]
  {
    var a, x, c := Before(rows, i), Item(rows[i].size, rows[i].data), After(rows, i + 1);
    ItemsHere(rows, i);
    ItemsAt(rows, i, Dead(rows[i].size));
    assert a + [] + c == a + c;
    DropMiddle(a, x, c);
  }

  lemma {:induction false} DeletedView(b: Bytes, c: Bytes, rows: seq<Row>, i: nat)
    requires ShapedRows(rows, true) && i < |rows| && rows[i].Live? && |b| == |c| == PAGE_SIZE
    requires AllFit(ItemsTo(rows, |rows|)) && Sorted(ElemsIn(ItemsTo(rows, |rows|)))
    requires FreeEnd(c) == FreeEnd(b) && FreeBegin(c) == FreeBegin(b) && NextLeaf(c) == NextLeaf(b)
    requires Garbage(c) == (Garbage(b) + rows[i].size + SLOT_SIZE) % U16_LIMIT
    ensures var items, items' := ItemsTo(rows, |rows|), ItemsTo(rows[i := Dead(rows[i].size)], |rows|);
      AllFit(items') && LeafDelete(ViewOf(b, items), KeyOf(rows[i].data)) == Done(ViewOf(c, items'))
  {
    DeletedElems(rows, i);
    RowPos(rows, i);
  }

  /** DeleteElement refines the deletion from the leaf page. */
  method DeleteElement(page: array<byte>, k: Bytes, ghost rows: seq<Row>) returns (deleted: bool, ghost rows': seq<Row>)
    requires page.Length == PAGE_SIZE && LeafPage(page[..], rows)
    modifies page
    ensures LeafPage(page[..], rows')
    ensures var p := LeafView(old(page[..]), rows);
      Sorted(p.elems) ==>
        && deleted == LeafDelete(p, k).Done?
        && (deleted ==> LeafView(page[..], rows') == LeafDelete(p, k).page)
        && (!deleted ==> page[..] == old(page[..]) && rows' == rows)
  {
    ghost var b := page[..];
    ItemsFit(rows, |rows|);
    ghost var i;
    deleted, i := Slotted.DeleteElement(page, k, rows);
    rows' := if deleted then rows[i := Dead(rows[i].size)] else rows;
    if Sorted(LeafView(b, rows).elems) {
      if deleted {
        DeletedView(b, page[..], rows, i);
      } else {
        NoRowNoElem(rows, k);
      }
    }
  }
}
