/** Leaf splits on bytes, and the element list a split logs. */
module LeafSplitting {
  import opened Bytes
  import opened Pages
  import opened Layout
  import opened Slotted
  import opened Packing
  import opened LeafCodec
  import opened NodeCodec

  /** setNextLeafNodePageId on a filled page. */
  method SetNext(page: array<byte>, id: nat, ghost rows: seq<Row>)
    requires page.Length == PAGE_SIZE && Laid(page[..], rows) && Filled(page[..]) && id < U64_LIMIT
    modifies page
    ensures Laid(page[..], rows) && Filled(page[..]) && NextLeaf(page[..]) == id
    ensures Garbage(page[..]) == Garbage(old(page[..])) && FreeEnd(page[..]) == FreeEnd(old(page[..]))
  {
    ghost var b := page[..];
    Copy(page, 16, EncodeLE(id, 8));
    ghost var c := page[..];
    PatchAgree(b, 16, EncodeLE(id, 8));
    U64RoundTrip(id);
    AgreeTable(b, c, 24, PAGE_SIZE, rows);
    forall i | 0 <= i < |rows| ensures RowOn(c, FreeEnd(c), rows[i]) {
      KeepRow(b, c, rows, i, FreeEnd(b));
    }
  }

  lemma {:induction false} SumDataSuffix(items: seq<Item>, idx: nat, n: nat)
    requires idx + n <= |items|
    ensures SumData(items[idx..], n) == SumData(items, idx + n) - SumData(items, idx)
  {
    if n > 0 {
      SumDataSuffix(items, idx, n - 1);
    }
  }

  /** Both parts of a list that fits in a page fit in a page. */
  lemma {:induction false} PartsPackable(items: seq<Item>, idx: nat)
    requires Packable(items) && idx <= |items|
    ensures Packable(items[..idx]) && Packable(items[idx..])
  {
    SumDataPrefix(items[..idx], items[idx..], idx);
    assert items[..idx] + items[idx..] == items;
    SumDataMonotone(items, idx, |items|);
    SumDataSuffix(items, idx, |items| - idx);
  }

  /** What PutAllSlotsAndElements leaves, as a leaf page. */
  ghost predicate HoldsItems(b: Bytes, items: seq<Item>, next: nat) {
    && AllFit(items) && LeafPage(b, Packed(items, |items|)) && Filled(b)
    && LeafView(b, Packed(items, |items|)) == Pages.PutAll(ElemsIn(items), SizesIn(items), next)
  }

  lemma {:induction false} PackedIsLeaf(b: Bytes, items: seq<Item>)
    requires AllFit(items) && ItemsAscend(items) && Laid(b, Packed(items, |items|))
    ensures LeafPage(b, Packed(items, |items|)) && ItemsTo(Packed(items, |items|), |items|) == items
  {
    ItemsPacked(items, |items|);
    assert items[..|items|] == items;
    LiveLeafPage(b, Packed(items, |items|));
  }

  lemma {:induction false} ViewPacked(b: Bytes, items: seq<Item>)
    requires |b| == PAGE_SIZE && AllFit(items) && Garbage(b) == 0 && FreeBegin(b) == HEADER_SIZE + SLOT_SIZE * |items|
    requires SumData(items, |items|) <= PAGE_SIZE && FreeEnd(b) == PAGE_SIZE - SumData(items, |items|)
    ensures ViewOf(b, items) == Pages.PutAll(ElemsIn(items), SizesIn(items), NextLeaf(b))
  {
    UsedIs(items, |items|);
  }

  lemma {:induction false} HoldsPacked(b: Bytes, items: seq<Item>)
    requires AllFit(items) && ItemsAscend(items) && Laid(b, Packed(items, |items|)) && Filled(b) && Garbage(b) == 0
    requires SumData(items, |items|) <= PAGE_SIZE && FreeEnd(b) == PAGE_SIZE - SumData(items, |items|)
    ensures HoldsItems(b, items, NextLeaf(b))
  {
    PackedIsLeaf(b, items);
    ViewPacked(b, items);
  }

  datatype Answer = Yes | No

  /** Whether a page can hold the list. */
  ghost function Ready(items: seq<Item>): Answer {
    if Packable(items) && AllFit(items) && ItemsAscend(items) then Yes else No
  }

  /** Whether the page is a leaf that reads as p. */
  ghost function Shows(b: Bytes, rows: seq<Row>, p: Leaf): Answer {
    if LeafPage(b, rows) && LeafView(b, rows) == p then Yes else No
  }

  /** The leaf a packed list makes. */
  ghost function PackedLeaf(items: seq<Item>, next: nat): Leaf {
    if AllFit(items) then Pages.PutAll(ElemsIn(items), SizesIn(items), next) else Leaf([], [], 0, 0, next)
  }

  /** PutAllSlotsAndElements and the next pointer. */
  method PutLeaf(page: array<byte>, items: seq<Item>, next: nat)
    requires page.Length == PAGE_SIZE && Ready(items) == Yes && next < U64_LIMIT
    modifies page
    ensures Shows(page[..], Packed(items, |items|), PackedLeaf(items, next)) == Yes
  {
    Packing.PutAll(page, items);
    SumDataFits(items);
    SetNext(page, next, Packed(items, |items|));
    HoldsPacked(page[..], items);
  }

  lemma {:induction false} SumDataFits(items: seq<Item>)
    requires Packable(items)
    ensures SumData(items, |items|) <= PAGE_SIZE
  {
  }

  /** A stretch of a list in order is in order, and shows that stretch of its elements. */
  lemma {:induction false} StretchShape(items: seq<Item>, lo: nat, hi: nat)
    requires AllFit(items) && ItemsAscend(items) && lo <= hi <= |items|
    ensures var part := items[lo..hi];
      AllFit(part) && ItemsAscend(part) && ElemsIn(part) == ElemsIn(items)[lo..hi] && SizesIn(part) == SizesIn(items)[lo..hi]
  {
    var part := items[lo..hi];
    assert forall i | 0 <= i < |part| :: part[i] == items[lo + i];
  }

  lemma {:induction false} StretchPackable(items: seq<Item>, lo: nat, hi: nat)
    requires Packable(items) && lo <= hi <= |items|
    ensures Packable(items[lo..hi])
  {
    PartsPackable(items, hi);
    PartsPackable(items[..hi], lo);
    assert items[..hi][lo..] == items[lo..hi];
  }

  lemma {:induction false} StretchReady(items: seq<Item>, lo: nat, hi: nat, next: nat)
    requires Ready(items) == Yes && lo <= hi <= |items|
    ensures Ready(items[lo..hi]) == Yes
    ensures AllFit(items) && PackedLeaf(items[lo..hi], next) == Pages.PutAll(ElemsIn(items)[lo..hi], SizesIn(items)[lo..hi], next)
  {
    StretchPackable(items, lo, hi);
    StretchShape(items, lo, hi);
  }

  /** getAllSlotsAndElements. */
  method Collect(page: array<byte>, ghost rows: seq<Row>) returns (items: seq<Item>)
    requires page.Length == PAGE_SIZE && LeafPage(page[..], rows)
    ensures Ready(items) == Yes && AllFit(items)
    ensures var p := LeafView(page[..], rows);
      p.elems == ElemsIn(items) && p.slots == SizesIn(items) && |p.elems| == |p.slots| == |items| && p.next == NextLeaf(page[..])
  {
    items := GetAll(page, true, rows);
    ItemsFit(rows, |rows|);
    AscendingItems(rows, |rows|);
    LiveFits(page[..], rows);
  }

  /** The two parts of the list of a page are the two halves of the page. */
  lemma {:induction false} HalvesReady(items: seq<Item>, index: nat, p: Leaf, rightId: nat)
    requires Ready(items) == Yes && AllFit(items) && index <= |items| && p.elems == ElemsIn(items) && p.slots == SizesIn(items)
    ensures Ready(items[0..index]) == Yes && PackedLeaf(items[0..index], rightId) == SplitLeft(p, index, rightId)
    ensures Ready(items[index..|items|]) == Yes && PackedLeaf(items[index..|items|], p.next) == SplitRight(p, index)
  {
    StretchReady(items, 0, index, rightId);
    StretchReady(items, index, |items|, p.next);
    assert p.elems[0..index] == p.elems[..index] && p.slots[0..index] == p.slots[..index];
    assert p.elems[index..|items|] == p.elems[index..] && p.slots[index..|items|] == p.slots[index..];
  }

  /** Two lists on two different pages. */
  method PutHalves(left: array<byte>, right: array<byte>, a: seq<Item>, c: seq<Item>, rightId: nat, next: nat)
    returns (ghost rowsL: seq<Row>, ghost rowsR: seq<Row>)
    requires left != right && left.Length == PAGE_SIZE && right.Length == PAGE_SIZE && Ready(a) == Yes && Ready(c) == Yes
    requires rightId < U64_LIMIT && next < U64_LIMIT
    modifies left, right
    ensures Shows(left[..], rowsL, PackedLeaf(a, rightId)) == Yes
    ensures Shows(right[..], rowsR, PackedLeaf(c, next)) == Yes
  {
    PutLeaf(left, a, rightId);
    PutLeaf(right, c, next);
    rowsL, rowsR := Packed(a, |a|), Packed(c, |c|);
  }

  /** FindSplitNodeIndex on the page. */
  method FindSplitIndex(page: array<byte>, ghost rows: seq<Row>) returns (index: nat)
    requires page.Length == PAGE_SIZE && LeafPage(page[..], rows)
    ensures index == SplitIndex(LeafView(page[..], rows).slots)
  {
    var items := Collect(page, rows);
    var sizes := seq(|items|, i requires 0 <= i < |items| => items[i].size);
    assert sizes == SizesIn(items);
    index := FindSplitNodeIndex(sizes);
  }

  /**
   SplitNode: not ok is a panic. Afterwards the two pages hold the two parts of the list, packed and without garbage,
   linked between the page's old neighbours.
   */
  method SplitNode(left: array<byte>, right: array<byte>, rightId: nat, index: nat, ghost rows: seq<Row>)
    returns (ok: bool, key: Bytes, ghost rowsL: seq<Row>, ghost rowsR: seq<Row>)
    requires left != right && left.Length == PAGE_SIZE && right.Length == PAGE_SIZE && LeafPage(left[..], rows)
    requires rightId < U64_LIMIT && NextLeaf(left[..]) < U64_LIMIT
    modifies left, right
    ensures var p := LeafView(old(left[..]), rows);
      && ok == (index < |p.elems|)
      && (ok ==>
            && key == p.elems[index].key
            && Shows(left[..], rowsL, SplitLeft(p, index, rightId)) == Yes
            && Shows(right[..], rowsR, SplitRight(p, index)) == Yes)
  {
    var items := Collect(left, rows);
    rowsL, rowsR := [], [];
    if index >= |items| {
      return false, [], [], [];
    }
    key := KeyOf(items[index].data);
    HalvesReady(items, index, LeafView(left[..], rows), rightId);
    rowsL, rowsR := PutHalves(left, right, items[0..index], items[index..|items|], rightId, NextLeaf(left[..]));
    ok := true;
  }
}
