/** Searching and splitting internal pages on bytes, and the separator list a split logs. */
module InternalSplitting {
  import opened Bytes
  import opened Pages
  import opened Wal
  import opened Layout
  import opened Packing
  import opened InternalCodec
  import LeafSplitting
  import NodeCodec
  import ElementList

  // ------------------------------------------------------------------- routing

  /** The child a key is sent to: right of an equal separator, else left of the next greater one, else the last; 0 without separators. */
  ghost function ChildFor(s: seq<Sep>, k: Bytes): nat {
    var i := Route(KeysOf(s), k);
    if s == [] then 0 else if i > 0 && s[i - 1].key == k then s[i - 1].right else if i < |s| then s[i].left else s[|s| - 1].right
  }

  /** Neighbours share the child between them. */
  ghost predicate Linked(s: seq<Sep>) {
    forall i | 0 < i < |s| :: s[i - 1].right == s[i].left
  }

  ghost predicate SamePlace(s: seq<Sep>, idx: nat, k: Bytes)
    requires idx < |s|
  {
    ChildFor(s, k) == ChildFor(if Lt(k, s[idx].key) then s[..idx] else s[idx + 1..], k)
  }

  lemma {:induction false} LinkedChild(s: seq<Sep>, k: Bytes)
    requires Linked(s) && s != []
    ensures var i := Route(KeysOf(s), k); ChildFor(s, k) == if i == 0 then s[0].left else s[i - 1].right
  {
  }

  lemma {:induction false} LeftRoute(s: seq<Sep>, idx: nat, k: Bytes)
    requires StrictKeys(s) && idx < |s| && Lt(k, s[idx].key)
    ensures Route(KeysOf(s[..idx]), k) == Route(KeysOf(s), k) <= idx
  {
    OrderFacts();
    var keys, part, i := KeysOf(s), KeysOf(s[..idx]), Route(KeysOf(s), k);
    assert forall j | 0 <= j < idx :: part[j] == keys[j];
    TreeRoutes.RouteUnique(part, k, i);
  }

  lemma {:induction false} RightRoute(s: seq<Sep>, idx: nat, k: Bytes)
    requires StrictKeys(s) && idx < |s| && !Lt(k, s[idx].key)
    ensures Route(KeysOf(s[idx + 1..]), k) == Route(KeysOf(s), k) - idx - 1
  {
    OrderFacts();
    var keys, part, i := KeysOf(s), KeysOf(s[idx + 1..]), Route(KeysOf(s), k);
    assert forall j | 0 <= j < |part| :: part[j] == keys[idx + 1 + j];
    TreeRoutes.RouteUnique(part, k, i - idx - 1);
  }

  lemma {:induction false} HalvesLinked(s: seq<Sep>, idx: nat)
    requires StrictKeys(s) && Linked(s) && idx < |s|
    ensures StrictKeys(s[..idx]) && Linked(s[..idx]) && StrictKeys(s[idx + 1..]) && Linked(s[idx + 1..])
  {
  }

  lemma {:induction false} HalfRoutes(s: seq<Sep>, idx: nat, k: Bytes)
    requires StrictKeys(s) && Linked(s) && 0 < idx < |s| - 1
    ensures SamePlace(s, idx, k)
  {
    LinkedChild(s, k);
    HalvesLinked(s, idx);
    if Lt(k, s[idx].key) {
      LeftRoute(s, idx, k);
      LinkedChild(s[..idx], k);
    } else {
      RightRoute(s, idx, k);
      LinkedChild(s[idx + 1..], k);
    }
  }

  /**
   Choosing a half by the promoted key and searching it finds, for every key, the child the whole page would: exactly
   when neither half is empty.
   */
  lemma {:induction false} SplitRoutesIff(s: seq<Sep>, idx: nat)
    requires StrictKeys(s) && Linked(s) && idx < |s| && s[idx].key != []
    requires forall i | 0 <= i < |s| :: s[i].left != 0 && s[i].right != 0
    ensures (forall k :: SamePlace(s, idx, k)) <==> 0 < idx < |s| - 1
  {
    if 0 < idx < |s| - 1 {
      forall k ensures SamePlace(s, idx, k) { HalfRoutes(s, idx, k); }
    } else {
      LinkedChild(s, if idx == 0 then [] else s[idx].key);
      OrderFacts();
      assert !SamePlace(s, idx, if idx == 0 then [] else s[idx].key);
    }
  }

  /** FindNextChildNodePageId on the page. */
  method FindNextChild(page: array<byte>, k: Bytes, ghost rows: seq<Row>) returns (child: nat)
    requires page.Length == PAGE_SIZE && InternalPage(page[..], rows) && StrictKeys(SepsOn(rows))
    ensures child == ChildFor(SepsOn(rows), k)
  {
    var items := Collect(page, rows);
    child := Search(items, k);
  }

  ghost predicate AllBelow(s: seq<Sep>, n: nat, k: Bytes)
    requires n <= |s|
  {
    forall j | 0 <= j < n :: Lt(s[j].key, k)
  }

  lemma {:induction false} ChildAt(s: seq<Sep>, k: Bytes, i: nat)
    requires StrictKeys(s) && i < |s| && AllBelow(s, i, k) && !Lt(s[i].key, k)
    ensures ChildFor(s, k) == if s[i].key == k then s[i].right else s[i].left
  {
    OrderFacts();
    TreeRoutes.RouteUnique(KeysOf(s), k, if s[i].key == k then i + 1 else i);
  }

  lemma {:induction false} ChildLast(s: seq<Sep>, k: Bytes)
    requires StrictKeys(s) && AllBelow(s, |s|, k)
    ensures ChildFor(s, k) == if s == [] then 0 else s[|s| - 1].right
  {
    OrderFacts();
    TreeRoutes.RouteUnique(KeysOf(s), k, |s|);
  }

  method Search(items: seq<Item>, k: Bytes) returns (child: nat)
    requires AllFit(items) && StrictKeys(SepList(items))
    ensures child == ChildFor(SepList(items), k)
  {
    child := 0;
    ghost var s := SepList(items);
    for i := 0 to |items|
      invariant AllBelow(s, i, k) && child == if i == 0 then 0 else s[i - 1].right
    {
      var e := SepOf(items[i].data);
      assert e == s[i];
      var c := Compare(e.key, k);
      Slotted.CompareEqual(e.key, k);
      if c != -1 {
        ChildAt(s, k, i);
        return if c == 0 then e.right else e.left;
      }
      child := e.right;
    }
    ChildLast(s, k);
  }

  // --------------------------------------------------------------------- split

  /** What PutAllSlotsAndElements leaves: the separators, no garbage, all other bytes free. */
  ghost predicate HoldsSeps(b: Bytes, rows: seq<Row>, s: seq<Sep>, next: nat) {
    && InternalPage(b, rows) && SepsOn(rows) == s && Garbage(b) == 0 && NextLeaf(b) == next
    && FreeEnd(b) - FreeBegin(b) == FreeKeys(KeysOf(s))
  }

  lemma {:induction false} PackedIsInternal(b: Bytes, items: seq<Item>)
    requires AllFit(items) && LeafCodec.ItemsAscend(items) && TightItems(items) && Laid(b, Packed(items, |items|)) && Garbage(b) == 0
    requires SumData(items, |items|) <= PAGE_SIZE && FreeEnd(b) == PAGE_SIZE - SumData(items, |items|)
    ensures HoldsSeps(b, Packed(items, |items|), SepList(items), NextLeaf(b))
  {
    ItemsPacked(items, |items|);
    assert items[..|items|] == items;
    LivePage(b, Packed(items, |items|));
    UsedIs(items, |items|);
  }

  /** A list that a page can hold, and the separators in it. */
  ghost function Ready(items: seq<Item>): LeafSplitting.Answer {
    if Packable(items) && AllFit(items) && LeafCodec.ItemsAscend(items) && TightItems(items) then LeafSplitting.Yes else LeafSplitting.No
  }

  ghost function SepsListed(items: seq<Item>): seq<Sep> {
    if AllFit(items) then SepList(items) else []
  }

  /** Whether the page holds these separators, as PutAllSlotsAndElements leaves them. */
  ghost function Shows(b: Bytes, rows: seq<Row>, s: seq<Sep>, next: nat): LeafSplitting.Answer {
    if HoldsSeps(b, rows, s, next) then LeafSplitting.Yes else LeafSplitting.No
  }

  method PutInternal(page: array<byte>, items: seq<Item>, next: nat)
    requires page.Length == PAGE_SIZE && Ready(items) == LeafSplitting.Yes && next < U64_LIMIT
    modifies page
    ensures Shows(page[..], Packed(items, |items|), SepsListed(items), next) == LeafSplitting.Yes
  {
    Packing.PutAll(page, items);
    LeafSplitting.SumDataFits(items);
    LeafSplitting.SetNext(page, next, Packed(items, |items|));
    PackedIsInternal(page[..], items);
  }

  /** getAllSlotsAndElements. */
  method Collect(page: array<byte>, ghost rows: seq<Row>) returns (items: seq<Item>)
    requires page.Length == PAGE_SIZE && InternalPage(page[..], rows)
    ensures Ready(items) == LeafSplitting.Yes && SepsListed(items) == SepsOn(rows) && |items| == |SepsOn(rows)|
  {
    items := GetAll(page, false, rows);
    ItemsFit(rows, |rows|);
    ItemsTight(rows, |rows|);
    LeafCodec.AscendingItems(rows, |rows|);
    LiveFits(page[..], rows);
  }

  /** A stretch of a list in order is in order, and its separators are that stretch of the list's. */
  lemma {:induction false} StretchShape(items: seq<Item>, lo: nat, hi: nat)
    requires AllFit(items) && LeafCodec.ItemsAscend(items) && TightItems(items) && lo <= hi <= |items|
    ensures var part := items[lo..hi];
      AllFit(part) && LeafCodec.ItemsAscend(part) && TightItems(part) && SepList(part) == SepList(items)[lo..hi]
  {
    var part := items[lo..hi];
    assert forall i | 0 <= i < |part| :: part[i] == items[lo + i];
  }

  lemma {:induction false} StretchReady(items: seq<Item>, lo: nat, hi: nat)
    requires Ready(items) == LeafSplitting.Yes && lo <= hi <= |items|
    ensures Ready(items[lo..hi]) == LeafSplitting.Yes && |SepsListed(items)| == |items|
    ensures SepsListed(items[lo..hi]) == SepsListed(items)[lo..hi]
  {
    LeafSplitting.StretchPackable(items, lo, hi);
    StretchShape(items, lo, hi);
  }

  /** The halves around the separator at the index, on two different pages. */
  method PutHalves(left: array<byte>, right: array<byte>, items: seq<Item>, index: nat, rightId: nat, next: nat)
    returns (ghost rowsL: seq<Row>, ghost rowsR: seq<Row>)
    requires left != right && left.Length == PAGE_SIZE && right.Length == PAGE_SIZE && Ready(items) == LeafSplitting.Yes
    requires index < |items| == |SepsListed(items)|
    requires rightId < U64_LIMIT && next < U64_LIMIT
    modifies left, right
    ensures Shows(left[..], rowsL, SepsListed(items)[0..index], rightId) == LeafSplitting.Yes
    ensures Shows(right[..], rowsR, SepsListed(items)[index + 1..|items|], next) == LeafSplitting.Yes
  {
    StretchReady(items, 0, index);
    StretchReady(items, index + 1, |items|);
    var a, c := items[0..index], items[index + 1..|items|];
    PutInternal(left, a, rightId);
    PutInternal(right, c, next);
    rowsL, rowsR := Packed(a, |a|), Packed(c, |c|);
  }

  lemma {:induction false} KeyIn(items: seq<Item>, i: nat)
    requires Ready(items) == LeafSplitting.Yes && i < |items|
    ensures |SepsListed(items)| == |items| && Keyed(items[i].data) && KeyOf(items[i].data) == SepsListed(items)[i].key
  {
  }

  /** FindSplitNodeIndex on the page: the index of the separators' own sizes. */
  method FindSplitIndex(page: array<byte>, ghost rows: seq<Row>) returns (index: nat)
    requires page.Length == PAGE_SIZE && InternalPage(page[..], rows)
    ensures index == SplitIndex(SepSizes(KeysOf(SepsOn(rows))))
  {
    var items := Collect(page, rows);
    var sizes := seq(|items|, i requires 0 <= i < |items| => items[i].size);
    assert sizes == SepSizes(KeysOf(SepsOn(rows)));
    index := NodeCodec.FindSplitNodeIndex(sizes);
  }

  /** SplitNode: not ok is a panic; the separator at the index moves up and is in neither half. */
  method SplitNode(left: array<byte>, right: array<byte>, rightId: nat, index: nat, ghost rows: seq<Row>)
    returns (ok: bool, key: Bytes, ghost rowsL: seq<Row>, ghost rowsR: seq<Row>)
    requires left != right && left.Length == PAGE_SIZE && right.Length == PAGE_SIZE && InternalPage(left[..], rows)
    requires rightId < U64_LIMIT && NextLeaf(left[..]) < U64_LIMIT
    modifies left, right
    ensures var s := SepsOn(rows);
      && ok == (index < |s|)
      && (ok ==>
            && key == s[index].key
            && Shows(left[..], rowsL, s[0..index], rightId) == LeafSplitting.Yes
            && Shows(right[..], rowsR, s[index + 1..|s|], NextLeaf(old(left[..]))) == LeafSplitting.Yes)
  {
    var next := NextLeaf(left[..]);
    var items := Collect(left, rows);
    rowsL, rowsR := [], [];
    if index >= |items| {
      return false, [], [], [];
    }
    KeyIn(items, index);
    key := KeyOf(items[index].data);
    rowsL, rowsR := PutHalves(left, right, items, index, rightId, next);
    ok := true;
  }

  // ------------------------------------------------------------ the logged list

  lemma {:induction false} Joined(d: Bytes, n: nat, s: Sep)
    requires |d| == 18 + n && EncodeU16(|s.key|) == d[0..2] && s.key == d[2..2 + n]
    requires EncodeLE(s.left, 8) == d[2 + n..10 + n] && EncodeLE(s.right, 8) == d[10 + n..18 + n]
    ensures SepData(s) == d
  {
    assert d == d[0..2] + d[2..2 + n] + d[2 + n..10 + n] + d[10 + n..18 + n];
  }

  /** Encoding a decoded separator gives its bytes back. */
  lemma {:induction false} EncodeSep(d: Bytes)
    requires Fits(d, false)
    ensures SepData(SepOf(d)) == d
  {
    var n := U16(d, 0);
    ElementList.TwoBytes(d, 0);
    EncodeDecodeLE(d[2 + n..10 + n]);
    EncodeDecodeLE(d[10 + n..18 + n]);
    Joined(d, n, SepOf(d));
  }

  /** EncodeAllElements of an internal page. */
  method EncodeInternal(page: array<byte>, ghost rows: seq<Row>) returns (payload: Bytes)
    requires page.Length == PAGE_SIZE && InternalPage(page[..], rows)
    ensures var ds := ElementList.DataIn(ItemsTo(rows, |rows|)); ElementList.Countable(ds) && payload == ElementList.Payload(ds)
  {
    var items := GetAll(page, false, rows);
    LiveFits(page[..], rows);
    ItemsFit(rows, |rows|);
    forall i | 0 <= i < |items| ensures SepData(SepOf(items[i].data)) == items[i].data { EncodeSep(items[i].data); }
    var ds := seq(|items|, i requires 0 <= i < |items| && Fits(items[i].data, false) => SepData(SepOf(items[i].data)));
    assert ds == ElementList.DataIn(items);
    payload := ElementList.EncodeAll(ds);
  }

  /** DecodeAllSlotsAndElements of a logged internal page: the separators the page had, each slot with the size of its separator. */
  method DecodeInternal(payload: Bytes, ghost b: Bytes, ghost rows: seq<Row>) returns (sizes: seq<nat>, seps: seq<Sep>)
    requires InternalPage(b, rows)
    requires var ds := ElementList.DataIn(ItemsTo(rows, |rows|)); ElementList.Countable(ds) && payload == ElementList.Payload(ds)
    ensures seps == SepsOn(rows) && sizes == SepSizes(KeysOf(seps))
  {
    ghost var items := ItemsTo(rows, |rows|);
    ItemsFit(rows, |rows|);
    var ds := ElementList.DecodeAll(payload, ElementList.DataIn(items));
    seps := seq(|ds|, i requires 0 <= i < |ds| && Fits(ds[i], false) => SepOf(ds[i]));
    sizes := seq(|ds|, i requires 0 <= i < |ds| => |ds[i]|);
  }
}
