/** The internal codec on bytes: insertion of a separator patches its live neighbours, whatever tombstones lie between. */
module InternalCodec {
  import opened Bytes
  import opened Pages
  import opened Wal
  import opened Layout
  import opened Slotted
  import opened Packing
  import LeafCodec
  import LeafUpdate
  import TreeRoutes

  // --------------------------------------------------------------- separators

  /** encodeElement of a separator. */
  function SepData(s: Sep): (d: Bytes)
    ensures |d| == 18 + |s.key|
  {
    EncodeU16(|s.key|) + s.key + EncodeLE(s.left, 8) + EncodeLE(s.right, 8)
  }

  /** decodeElement of a separator. */
  function SepOf(d: Bytes): Sep
    requires Fits(d, false)
  {
    var n := U16(d, 0);
    Sep(KeyOf(d), DecodeLE(d[2 + n..10 + n]), DecodeLE(d[10 + n..18 + n]))
  }

  lemma {:induction false} SepParts(k: Bytes, l: Bytes, r: Bytes)
    requires |k| < U16_LIMIT && |l| == 8 && |r| == 8
    ensures var d, n := EncodeU16(|k|) + k + l + r, |k|;
      Fits(d, false) && U16(d, 0) == n && KeyOf(d) == k && d[2 + n..10 + n] == l && d[10 + n..18 + n] == r
  {
    var d, n := EncodeU16(|k|) + k + l + r, |k|;
    assert d[0] == EncodeU16(n)[0] && d[1] == EncodeU16(n)[1];
    assert d[2..2 + n] == k && d[2 + n..10 + n] == l && d[10 + n..18 + n] == r;
  }

  lemma {:induction false} DecodeSep(s: Sep)
    requires |s.key| < U16_LIMIT && s.left < U64_LIMIT && s.right < U64_LIMIT
    ensures var d := SepData(s); Fits(d, false) && KeyOf(d) == s.key && SepOf(d) == s
  {
    SepParts(s.key, EncodeLE(s.left, 8), EncodeLE(s.right, 8));
    U64RoundTrip(s.left);
    U64RoundTrip(s.right);
  }

  ghost predicate AllFit(items: seq<Item>) {
    forall i | 0 <= i < |items| :: Fits(items[i].data, false)
  }

  ghost function SepList(items: seq<Item>): (s: seq<Sep>)
    requires AllFit(items)
    ensures |s| == |items| && forall i | 0 <= i < |s| :: s[i] == SepOf(items[i].data)
  {
    seq(|items|, i requires 0 <= i < |items| => SepOf(items[i].data))
  }

  /** The slot of a separator always states the size of the separator. */
  ghost predicate TightRows(rows: seq<Row>) {
    forall i | 0 <= i < |rows| && rows[i].Live? :: rows[i].size == |rows[i].data|
  }

  ghost predicate TightItems(items: seq<Item>) {
    forall i | 0 <= i < |items| :: items[i].size == |items[i].data|
  }

  ghost predicate InternalPage(b: Bytes, rows: seq<Row>) {
    Laid(b, rows) && Ascends(rows) && ShapedRows(rows, false) && TightRows(rows)
  }

  lemma {:induction false} ItemsTight(rows: seq<Row>, n: nat)
    requires TightRows(rows) && n <= |rows|
    ensures TightItems(ItemsTo(rows, n))
  {
    if n > 0 {
      ItemsTight(rows, n - 1);
    }
  }

  lemma {:induction false} ItemsFit(rows: seq<Row>, n: nat)
    requires ShapedRows(rows, false) && n <= |rows|
    ensures AllFit(ItemsTo(rows, n))
  {
    if n > 0 {
      ItemsFit(rows, n - 1);
    }
  }

  /** The separators of the page. */
  ghost function SepsOn(rows: seq<Row>): seq<Sep>
    requires ShapedRows(rows, false)
  {
    ItemsFit(rows, |rows|);
    SepList(ItemsTo(rows, |rows|))
  }

  // ----------------------------------------------------------- child pointers

  /** The bytes of a separator with one of its two page ids overwritten. */
  function Repointed(d: Bytes, left: bool, id: nat): (r: Bytes)
    requires Fits(d, false)
    ensures |r| == |d|
  {
    Patch(d, if left then 2 + U16(d, 0) else 10 + U16(d, 0), EncodeLE(id, 8))
  }

  lemma {:induction false} RepointedSep(d: Bytes, left: bool, id: nat)
    requires Fits(d, false) && id < U64_LIMIT
    ensures var r := Repointed(d, left, id);
      Fits(r, false) && KeyOf(r) == KeyOf(d) && SepOf(r) == if left then SepOf(d).(left := id) else SepOf(d).(right := id)
  {
    var n, r := U16(d, 0), Repointed(d, left, id);
    assert r[2..2 + n] == d[2..2 + n];
    U64RoundTrip(id);
    if left {
      assert r[2 + n..10 + n] == EncodeLE(id, 8) && r[10 + n..18 + n] == d[10 + n..18 + n];
    } else {
      assert r[10 + n..18 + n] == EncodeLE(id, 8) && r[2 + n..10 + n] == d[2 + n..10 + n];
    }
  }

  lemma {:induction false} RepointedBytes(b: Bytes, end: nat, ptr: nat, d: Bytes, left: bool, id: nat)
    requires StoredAt(b, end, ptr, d) && Fits(d, false)
    ensures var at := ptr + if left then 2 + U16(d, 0) else 10 + U16(d, 0);
      var c := Patch(b, at, EncodeLE(id, 8));
      c[ptr..ptr + |d|] == Repointed(d, left, id) && Agree(b, c, 0, ptr) && Agree(b, c, ptr + |d|, |b|)
  {
    var off := if left then 2 + U16(d, 0) else 10 + U16(d, 0);
    var c, r := Patch(b, ptr + off, EncodeLE(id, 8)), Repointed(d, left, id);
    var s, t := b[ptr..ptr + |d|], c[ptr..ptr + |d|];
    forall i | 0 <= i < |d| ensures t[i] == r[i] {
      assert s[i] == b[ptr + i] && t[i] == c[ptr + i];
    }
  }

  /** setLeftChildNodePageId and setRightChildNodePageId. */
  method SetChild(page: array<byte>, i: nat, left: bool, id: nat, ghost rows: seq<Row>) returns (ghost r: Row)
    requires page.Length == PAGE_SIZE && InternalPage(page[..], rows) && i < |rows| && rows[i].Live? && id < U64_LIMIT
    modifies page
    ensures r == rows[i].(data := Repointed(rows[i].data, left, id))
    ensures InternalPage(page[..], rows[i := r]) && FreeEnd(page[..]) == FreeEnd(old(page[..])) && SameHeader(old(page[..]), page[..])
  {
    ghost var b := page[..];
    ChildAt(b, rows, i, left, id);
    var ptr := SlotAt(page[..], i).ptr;
    var n := U16(page[..], ptr);
    Copy(page, ptr + if left then 2 + n else 10 + n, EncodeLE(id, 8));
    r := rows[i].(data := Repointed(rows[i].data, left, id));
    ChildSet(b, page[..], rows, i, left, id);
  }

  /** Where the id of a separator is in the page. */
  lemma {:induction false} ChildAt(b: Bytes, rows: seq<Row>, i: nat, left: bool, id: nat)
    requires InternalPage(b, rows) && i < |rows| && rows[i].Live?
    ensures var ptr, d := SlotAt(b, i).ptr, rows[i].data;
      && ptr == rows[i].ptr && ptr + 2 <= |b| && Fits(d, false) && U16(b, ptr) == U16(d, 0) && ptr + 18 + U16(d, 0) <= |b| == PAGE_SIZE
  {
    assert RowOn(b, FreeEnd(b), rows[i]);
    KeyAt(b, FreeEnd(b), rows[i].ptr, rows[i].data);
  }

  /** The page with one id of one separator overwritten. */
  lemma {:induction false} ChildSet(b: Bytes, c: Bytes, rows: seq<Row>, i: nat, left: bool, id: nat)
    requires InternalPage(b, rows) && i < |rows| && rows[i].Live? && id < U64_LIMIT && Fits(rows[i].data, false)
    requires var d, ptr := rows[i].data, rows[i].ptr;
      ptr + 18 + U16(d, 0) <= |b| && c == Patch(b, ptr + if left then 2 + U16(d, 0) else 10 + U16(d, 0), EncodeLE(id, 8))
    ensures var r := rows[i].(data := Repointed(rows[i].data, left, id));
      InternalPage(c, rows[i := r]) && FreeEnd(c) == FreeEnd(b) && SameHeader(b, c)
  {
    var d := rows[i].data;
    var r := rows[i].(data := Repointed(d, left, id));
    assert RowOn(b, FreeEnd(b), rows[i]);
    RepointedBytes(b, FreeEnd(b), rows[i].ptr, d, left, id);
    RepointedSep(d, left, id);
    LeafUpdate.InPlaceLaid(b, c, rows, i, r.data);
    LeafUpdate.ReplaceAscends(rows, i, r);
    ReplacedShape(rows, i, r);
  }

  lemma {:induction false} ReplacedShape(rows: seq<Row>, i: nat, r: Row)
    requires ShapedRows(rows, false) && TightRows(rows) && i < |rows| && r.Live? && Fits(r.data, false) && r.size == |r.data|
    ensures ShapedRows(rows[i := r], false) && TightRows(rows[i := r])
  {
  }

  // ---------------------------------------------------------------- insertion

  ghost predicate Smaller(r: Row, k: Bytes) {
    r.Live? && Keyed(r.data) && Lt(KeyOf(r.data), k)
  }

  /** Among the first n rows, the last smaller live one, if there is one. */
  ghost predicate LastIn(rows: seq<Row>, n: nat, k: Bytes, found: bool, at: nat)
    requires n <= |rows|
  {
    if found then at < n && Smaller(rows[at], k) && forall i | at < i < n :: !Smaller(rows[i], k)
    else forall i | 0 <= i < n :: !Smaller(rows[i], k)
  }

  lemma {:induction false} LastNext(rows: seq<Row>, n: nat, k: Bytes, found: bool, at: nat)
    requires n < |rows| && LastIn(rows, n, k, found, at)
    ensures if Smaller(rows[n], k) then LastIn(rows, n + 1, k, true, n) else LastIn(rows, n + 1, k, found, at)
  {
  }

  /** The scan of InsertSlot for the last smaller live key. */
  method FindSmaller(page: array<byte>, key: Bytes, ghost rows: seq<Row>) returns (found: bool, at: nat)
    requires page.Length == PAGE_SIZE && Laid(page[..], rows) && Ascends(rows)
    ensures LastIn(rows, |rows|, key, found, at)
  {
    found, at := false, 0;
    for i := 0 to NumSlots(page[..])
      invariant i <= |rows| && LastIn(rows, i, key, found, at)
    {
      var s, live, c := ReadSlot(page, i, key, rows);
      LastNext(rows, i, key, found, at);
      if live && c == -1 {
        found, at := true, i;
      }
    }
  }

  /** The position of the last key below k. */
  lemma {:induction false} LastBelow(keys: seq<Bytes>, k: Bytes, u: nat)
    requires u < |keys| && (forall i, j | 0 <= i < j < |keys| :: Lt(keys[i], keys[j]))
    requires Lt(keys[u], k) && forall i | u < i < |keys| :: !Lt(keys[i], k)
    ensures var i := Route(keys, k); u + 1 == if i > 0 && keys[i - 1] == k then i - 1 else i
  {
    OrderFacts();
    var i := Route(keys, k);
    assert u < i;
    if u + 1 < i {
      assert keys[u + 1] == k && keys[i - 1] == k;
    }
  }

  lemma {:induction false} NoneBelow(keys: seq<Bytes>, k: Bytes)
    requires (forall i, j | 0 <= i < j < |keys| :: Lt(keys[i], keys[j])) && forall i | 0 <= i < |keys| :: !Lt(keys[i], k)
    ensures var i := Route(keys, k); 0 == if i > 0 && keys[i - 1] == k then i - 1 else i
  {
    OrderFacts();
    var i := Route(keys, k);
    if i > 0 {
      assert keys[0] == k && keys[i - 1] == k;
    }
  }

  // ------------------------------------------------------------- list of items

  ghost function Before(rows: seq<Row>, at: nat): seq<Item>
    requires at <= |rows|
  {
    LeafCodec.Before(rows, at)
  }

  /** Replacing a live row replaces its element. */
  lemma {:induction false} ReplacedItem(rows: seq<Row>, i: nat, r: Row)
    requires i < |rows| && rows[i].Live? && r.Live?
    ensures var items, u := ItemsTo(rows, |rows|), |Before(rows, i)|;
      u < |items| && items[u] == Item(rows[i].size, rows[i].data) && ItemsTo(rows[i := r], |rows|) == items[u := Item(r.size, r.data)]
  {
    LeafCodec.ItemsHere(rows, i);
    LeafCodec.ItemsAt(rows, i, r);
  }

  lemma {:induction false} ReplacedSep(rows: seq<Row>, i: nat, r: Row)
    requires ShapedRows(rows, false) && i < |rows| && rows[i].Live? && r.Live? && Fits(r.data, false)
    ensures ShapedRows(rows[i := r], false)
    ensures var u := |Before(rows, i)|;
      u < |SepsOn(rows)| && SepsOn(rows)[u] == SepOf(rows[i].data) && SepsOn(rows[i := r]) == SepsOn(rows)[u := SepOf(r.data)]
  {
    ReplacedItem(rows, i, r);
    ItemsFit(rows, |rows|);
    ItemsFit(rows[i := r], |rows|);
  }

  lemma {:induction false} InsertShaped(rows: seq<Row>, at: nat, r: Row)
    requires ShapedRows(rows, false) && at <= |rows| && r.Live? && Fits(r.data, false)
    ensures ShapedRows(InsertRow(rows, at, r), false)
  {
    var rows' := InsertRow(rows, at, r);
    forall i | 0 <= i < |rows'| && rows'[i].Live? ensures Fits(rows'[i].data, false) {
      assert i != at ==> rows'[i] == rows[if i < at then i else i - 1];
    }
  }

  lemma {:induction false} SepListConcat(a: seq<Item>, x: Item, c: seq<Item>)
    requires AllFit(a + c) && AllFit(a + [x] + c) && Fits(x.data, false)
    ensures SepList(a + [x] + c) == SepList(a + c)[..|a|] + [SepOf(x.data)] + SepList(a + c)[|a|..]
  {
  }

  /** Inserting a row at the place of its key puts its separator between the keys at or below it and those above. */
  lemma {:induction false} InsertedSep(rows: seq<Row>, r: Row)
    requires Ascends(rows) && ShapedRows(rows, false) && r.Live? && Fits(r.data, false)
    ensures var at := Place(rows, KeyOf(r.data), 0);
      var u, s := |Before(rows, at)|, SepsOn(rows);
      && ShapedRows(InsertRow(rows, at, r), false) && u <= |s|
      && SepsOn(InsertRow(rows, at, r)) == s[..u] + [SepOf(r.data)] + s[u..]
  {
    var at := Place(rows, KeyOf(r.data), 0);
    InsertShaped(rows, at, r);
    ItemsFit(rows, |rows|);
    ItemsFit(InsertRow(rows, at, r), |rows| + 1);
    LeafCodec.ItemsSplit(rows, at);
    LeafCodec.ItemsInserted(rows, at, r);
    SepListConcat(Before(rows, at), Item(r.size, r.data), LeafCodec.After(rows, at));
  }

  /** The place of a key splits the separators where the search does. */
  lemma {:induction false} PlaceIsRoute(rows: seq<Row>, k: Bytes)
    requires Ascends(rows) && ShapedRows(rows, false)
    ensures |Before(rows, Place(rows, k, 0))| == Route(KeysOf(SepsOn(rows)), k)
  {
    var at := Place(rows, k, 0);
    var a, c, items, keys := Before(rows, at), LeafCodec.After(rows, at), ItemsTo(rows, |rows|), KeysOf(SepsOn(rows));
    LeafCodec.ItemsSplit(rows, at);
    ItemsFit(rows, |rows|);
    forall i | 0 <= i < |keys| ensures if i < |a| then !Lt(k, keys[i]) else Lt(k, keys[i]) {
      Sides(rows, k, i);
      assert items[i] == if i < |a| then a[i] else c[i - |a|];
      assert keys[i] == SepOf(items[i].data).key;
    }
    TreeRoutes.RouteUnique(keys, k, |a|);
  }

  lemma {:induction false} Sides(rows: seq<Row>, k: Bytes, i: nat)
    requires Ascends(rows)
    ensures var at := Place(rows, k, 0);
      var a, c := Before(rows, at), LeafCodec.After(rows, at);
      && (i < |a| ==> Keyed(a[i].data) && !Lt(k, KeyOf(a[i].data)))
      && (|a| <= i < |a| + |c| ==> Keyed(c[i - |a|].data) && Lt(k, KeyOf(c[i - |a|].data)))
  {
    var at := Place(rows, k, 0);
    var a, c := Before(rows, at), LeafCodec.After(rows, at);
    if i < |a| {
      ItemFrom(rows[..at], at, i);
      var j :| 0 <= j < at && rows[..at][j].Live? && a[i] == Item(rows[..at][j].size, rows[..at][j].data);
      assert !Greater(rows[j], k);
    } else if i < |a| + |c| {
      ItemFrom(rows[at..], |rows| - at, i - |a|);
      var j :| 0 <= j < |rows| - at && rows[at..][j].Live? && c[i - |a|] == Item(rows[at..][j].size, rows[at..][j].data);
      if j > 0 {
        GreaterOn(rows, k, at, at + j);
      }
      assert Greater(rows[at + j], k);
    }
  }

  // ------------------------------------------------------------- InsertElement

  /** The separators after the new one is in place and its neighbours point at its children. */
  lemma {:induction false} InsertSepIs(s: seq<Sep>, x: Sep, found: bool, u: nat, t: seq<Sep>)
    requires var i := Route(KeysOf(s), x.key);
      && (found ==> u + 1 == if i > 0 && s[i - 1].key == x.key then i - 1 else i)
      && (!found ==> 0 == if i > 0 && s[i - 1].key == x.key then i - 1 else i)
      && |t| == |s| + 1 && t[i] == x
      && (forall j | 0 <= j < i :: t[j] == if found && j == u then s[j].(right := x.left) else s[j])
      && (forall j | i < j < |t| :: t[j] == if j == i + 1 then s[j - 1].(left := x.right) else s[j - 1])
    ensures t == InsertSep(s, x.key, x.left, x.right)
  {
    var w := InsertSep(s, x.key, x.left, x.right);
    forall j | 0 <= j < |t| ensures t[j] == w[j] {
    }
  }

  lemma {:induction false} SmallerPos(rows: seq<Row>, k: Bytes, i: nat)
    requires Ascends(rows) && ShapedRows(rows, false) && i < |rows| && Smaller(rows[i], k)
    requires forall j | i < j < |rows| :: !Smaller(rows[j], k)
    ensures var keys, u := KeysOf(SepsOn(rows)), |Before(rows, i)|;
      u < |keys| && Lt(keys[u], k) && forall j | u < j < |keys| :: !Lt(keys[j], k)
  {
    var a, c, items, keys := Before(rows, i), LeafCodec.After(rows, i + 1), ItemsTo(rows, |rows|), KeysOf(SepsOn(rows));
    LeafCodec.ItemsHere(rows, i);
    ItemsFit(rows, |rows|);
    assert items[|a|] == Item(rows[i].size, rows[i].data);
    forall j | |a| < j < |keys| ensures !Lt(keys[j], k) {
      assert items[j] == c[j - |a| - 1];
      ItemFrom(rows[i + 1..], |rows| - i - 1, j - |a| - 1);
      var m :| 0 <= m < |rows| - i - 1 && rows[i + 1..][m].Live? && c[j - |a| - 1] == Item(rows[i + 1..][m].size, rows[i + 1..][m].data);
      assert !Smaller(rows[i + 1 + m], k);
    }
  }

  lemma {:induction false} NoSmaller(rows: seq<Row>, k: Bytes)
    requires Ascends(rows) && ShapedRows(rows, false) && forall j | 0 <= j < |rows| :: !Smaller(rows[j], k)
    ensures var keys := KeysOf(SepsOn(rows)); forall j | 0 <= j < |keys| :: !Lt(keys[j], k)
  {
    var items, keys := ItemsTo(rows, |rows|), KeysOf(SepsOn(rows));
    ItemsFit(rows, |rows|);
    forall j | 0 <= j < |keys| ensures !Lt(keys[j], k) {
      ItemFrom(rows, |rows|, j);
      var m :| 0 <= m < |rows| && rows[m].Live? && items[j] == Item(rows[m].size, rows[m].data);
      assert !Smaller(rows[m], k);
    }
  }

  ghost predicate StrictKeys(s: seq<Sep>) {
    forall i, j | 0 <= i < j < |s| :: Lt(s[i].key, s[j].key)
  }

  /** A greater live key exists exactly when the search turns left before the last separator. */
  lemma {:induction false} PlaceInside(rows: seq<Row>, k: Bytes)
    requires Ascends(rows) && ShapedRows(rows, false)
    ensures var at, i := Place(rows, k, 0), Route(KeysOf(SepsOn(rows)), k);
      (at < |rows| <==> i < |SepsOn(rows)|) && |Before(rows, at)| == i
  {
    var at := Place(rows, k, 0);
    PlaceIsRoute(rows, k);
    if at < |rows| {
      ReplacedSep(rows, at, rows[at]);
    } else {
      assert rows[..at] == rows;
    }
  }

  lemma {:induction false} BeforeInserted(rows: seq<Row>, at: nat, r: Row)
    requires at <= |rows| && r.Live?
    ensures |Before(InsertRow(rows, at, r), at + 1)| == |Before(rows, at)| + 1
  {
    assert InsertRow(rows, at, r)[..at + 1] == rows[..at] + [r];
    LeafCodec.ItemsConcat(rows[..at], [r], 1);
    assert ItemsTo([r], 1) == ItemsTo([r], 0) + [Item(r.size, r.data)];
  }

  /** Overwriting an id of a live row overwrites it in the list of separators. */
  lemma {:induction false} RepointedRow(rows: seq<Row>, i: nat, left: bool, id: nat)
    requires ShapedRows(rows, false) && i < |rows| && rows[i].Live? && id < U64_LIMIT
    ensures var r, s, u := rows[i].(data := Repointed(rows[i].data, left, id)), SepsOn(rows), |Before(rows, i)|;
      && ShapedRows(rows[i := r], false) && u < |s|
      && SepsOn(rows[i := r]) == s[u := if left then s[u].(left := id) else s[u].(right := id)]
  {
    RepointedSep(rows[i].data, left, id);
    ReplacedSep(rows, i, rows[i].(data := Repointed(rows[i].data, left, id)));
  }

  /** The left id of the next greater separator, if there is one. */
  method PatchGreater(page: array<byte>, at: nat, slots: nat, id: nat, ghost rows: seq<Row>) returns (ghost rows': seq<Row>)
    requires page.Length == PAGE_SIZE && InternalPage(page[..], rows) && id < U64_LIMIT && |rows| == slots + 1 && at <= slots
    requires at < slots ==> rows[at + 1].Live?
    modifies page
    ensures InternalPage(page[..], rows') && |rows'| == |rows| && rows'[..at + 1] == rows[..at + 1]
    ensures FreeEnd(page[..]) == FreeEnd(old(page[..])) && SameHeader(old(page[..]), page[..])
    ensures var s, u := SepsOn(rows), |Before(rows, at + 1)|;
      if at < slots then u < |s| && SepsOn(rows') == s[u := s[u].(left := id)] else rows' == rows
  {
    rows' := rows;
    if at < slots {
      ghost var r := SetChild(page, at + 1, true, id, rows);
      RepointedRow(rows, at + 1, true, id);
      rows' := rows[at + 1 := r];
    } else {
      SameHeaderRefl(page[..]);
    }
  }

  lemma {:induction false} SameHeaderRefl(b: Bytes)
    requires |b| == PAGE_SIZE
    ensures SameHeader(b, b)
  {
  }

  /** The right id of the next smaller separator, if there is one. */
  method PatchSmaller(page: array<byte>, found: bool, at: nat, id: nat, ghost rows: seq<Row>) returns (ghost rows': seq<Row>)
    requires page.Length == PAGE_SIZE && InternalPage(page[..], rows) && id < U64_LIMIT && (found ==> at < |rows| && rows[at].Live?)
    modifies page
    ensures InternalPage(page[..], rows') && |rows'| == |rows| && FreeEnd(page[..]) == FreeEnd(old(page[..]))
    ensures SameHeader(old(page[..]), page[..])
    ensures var s := SepsOn(rows);
      if found then var u := |Before(rows, at)|; u < |s| && SepsOn(rows') == s[u := s[u].(right := id)] else rows' == rows
  {
    rows' := rows;
    if found {
      ghost var r := SetChild(page, at, false, id, rows);
      RepointedRow(rows, at, false, id);
      rows' := rows[at := r];
    } else {
      SameHeaderRefl(page[..]);
    }
  }

  lemma {:induction false} SmallerFirst(rows: seq<Row>, k: Bytes, i: nat)
    requires Ascends(rows) && i < |rows| && Smaller(rows[i], k)
    ensures i < Place(rows, k, 0)
  {
    OrderFacts();
    GreaterLater(rows, k, Place(rows, k, 0), i);
  }

  lemma {:induction false} GreaterLater(rows: seq<Row>, k: Bytes, i: nat, j: nat)
    requires Ascends(rows) && j < |rows|
    ensures i < j && Greater(rows[i], k) && rows[j].Live? ==> Greater(rows[j], k)
  {
    if i < j && Greater(rows[i], k) && rows[j].Live? {
      GreaterOn(rows, k, i, j);
    }
  }

  /** The place of a key and the last smaller live row. */
  method Neighbours(page: array<byte>, key: Bytes, ghost rows: seq<Row>) returns (found: bool, low: nat, at: nat)
    requires page.Length == PAGE_SIZE && Laid(page[..], rows) && Ascends(rows)
    ensures at == Place(rows, key, 0) && LastIn(rows, |rows|, key, found, low) && (found ==> low < at)
  {
    found, low := FindSmaller(page, key, rows);
    var greater := CollectGreater(page, Slot(0, 0), key, rows);
    at := NumSlots(page[..]) - (|greater| - 1);
    if found {
      SmallerFirst(rows, key, low);
    }
  }

  /** The number of separators up to the smaller neighbour, as the list insertion counts them. */
  lemma {:induction false} BelowIs(rows: seq<Row>, k: Bytes, found: bool, low: nat)
    requires Ascends(rows) && ShapedRows(rows, false) && StrictKeys(SepsOn(rows)) && LastIn(rows, |rows|, k, found, low)
    ensures var s := SepsOn(rows);
      var i := Route(KeysOf(s), k);
      (if found then |Before(rows, low)| + 1 else 0) == if i > 0 && s[i - 1].key == k then i - 1 else i
  {
    var keys := KeysOf(SepsOn(rows));
    if found {
      SmallerPos(rows, k, low);
      LastBelow(keys, k, |Before(rows, low)|);
    } else {
      NoSmaller(rows, k);
      NoneBelow(keys, k);
    }
  }

  lemma {:induction false} PatchedList(s: seq<Sep>, x: Sep, i: nat, found: bool, v: nat, s1: seq<Sep>, s2: seq<Sep>, s3: seq<Sep>)
    requires i == Route(KeysOf(s), x.key) && s1 == s[..i] + [x] + s[i..]
    requires if i < |s| then i + 1 < |s1| && s2 == s1[i + 1 := s1[i + 1].(left := x.right)] else s2 == s1
    requires if found then v < |s2| && s3 == s2[v := s2[v].(right := x.left)] else s3 == s2
    requires (if found then v + 1 else 0) == if i > 0 && s[i - 1].key == x.key then i - 1 else i
    ensures s3 == InsertSep(s, x.key, x.left, x.right)
  {
    InsertSepIs(s, x, found, v, s3);
  }

  /** InsertElement between its search and its patches. */
  lemma {:induction false} Inserted(rows: seq<Row>, x: Sep, found: bool, low: nat, s1: seq<Sep>, s2: seq<Sep>, s3: seq<Sep>)
    requires Ascends(rows) && ShapedRows(rows, false) && StrictKeys(SepsOn(rows)) && LastIn(rows, |rows|, x.key, found, low)
    requires var s, at, u := SepsOn(rows), Place(rows, x.key, 0), |Before(rows, Place(rows, x.key, 0))|;
      && u <= |s| && s1 == s[..u] + [x] + s[u..]
      && (if at < |rows| then u + 1 < |s1| && s2 == s1[u + 1 := s1[u + 1].(left := x.right)] else s2 == s1)
    requires if found then var v := |Before(rows, low)|; v < |s2| && s3 == s2[v := s2[v].(right := x.left)] else s3 == s2
    ensures s3 == InsertSep(SepsOn(rows), x.key, x.left, x.right)
  {
    PlaceInside(rows, x.key);
    BelowIs(rows, x.key, found, low);
    PatchedList(SepsOn(rows), x, Route(KeysOf(SepsOn(rows)), x.key), found, if found then |Before(rows, low)| else 0, s1, s2, s3);
  }

  /** appendElement, the slot and the header, before the neighbours are patched. */
  method AddSeparator(page: array<byte>, x: Sep, at: nat, ghost rows: seq<Row>) returns (ghost rows': seq<Row>)
    requires page.Length == PAGE_SIZE && InternalPage(page[..], rows) && at == Place(rows, x.key, 0)
    requires SepSize(x.key) + SLOT_SIZE <= FreeEnd(page[..]) - FreeBegin(page[..]) && x.left < U64_LIMIT && x.right < U64_LIMIT
    modifies page
    ensures InternalPage(page[..], rows') && |rows'| == |rows| + 1 && rows'[..at] == rows[..at] && (at < |rows| ==> rows'[at + 1].Live?)
    ensures FreeEnd(page[..]) == FreeEnd(old(page[..])) - SepSize(x.key) && Garbage(page[..]) == Garbage(old(page[..]))
    ensures var s, u := SepsOn(rows), |Before(rows, at)|;
      u <= |s| && SepsOn(rows') == s[..u] + [x] + s[u..] && |Before(rows', at + 1)| == u + 1
  {
    DecodeSep(x);
    ghost var r := InsertData(page, x.key, SepData(x), rows);
    rows' := InsertRow(rows, at, r);
    AddedRow(rows, x, r);
  }

  lemma {:induction false} InsertTight(rows: seq<Row>, at: nat, r: Row)
    requires TightRows(rows) && at <= |rows| && r.Live? && r.size == |r.data|
    ensures TightRows(InsertRow(rows, at, r)) && InsertRow(rows, at, r)[..at] == rows[..at]
    ensures at < |rows| ==> InsertRow(rows, at, r)[at + 1] == rows[at]
  {
    var rows' := InsertRow(rows, at, r);
    forall i | 0 <= i < |rows'| && rows'[i].Live? ensures rows'[i].size == |rows'[i].data| {
      assert i != at ==> rows'[i] == rows[if i < at then i else i - 1];
    }
  }

  lemma {:induction false} AddedRow(rows: seq<Row>, x: Sep, r: Row)
    requires Ascends(rows) && ShapedRows(rows, false) && TightRows(rows)
    requires r.Live? && r.size == |r.data| && Fits(r.data, false) && KeyOf(r.data) == x.key && SepOf(r.data) == x
    ensures var at := Place(rows, x.key, 0);
      var rows', s, u := InsertRow(rows, at, r), SepsOn(rows), |Before(rows, at)|;
      && ShapedRows(rows', false) && TightRows(rows') && rows'[..at] == rows[..at] && (at < |rows| ==> rows'[at + 1].Live?)
      && u <= |s| && SepsOn(rows') == s[..u] + [x] + s[u..] && |Before(rows', at + 1)| == u + 1
  {
    var at := Place(rows, x.key, 0);
    InsertTight(rows, at, r);
    InsertedSep(rows, r);
    BeforeInserted(rows, at, r);
  }

  /**
   InsertElement with room for the separator and its slot: the separators of the page become those of the list
   insertion, with the ids of both live neighbours patched.
   */
  method InsertSeparator(page: array<byte>, x: Sep, ghost rows: seq<Row>) returns (ghost rows': seq<Row>)
    requires page.Length == PAGE_SIZE && InternalPage(page[..], rows) && StrictKeys(SepsOn(rows))
    requires SepSize(x.key) + SLOT_SIZE <= FreeEnd(page[..]) - FreeBegin(page[..]) && x.left < U64_LIMIT && x.right < U64_LIMIT
    modifies page
    ensures InternalPage(page[..], rows') && SepsOn(rows') == InsertSep(SepsOn(rows), x.key, x.left, x.right)
    ensures |rows'| == |rows| + 1 && FreeEnd(page[..]) == FreeEnd(old(page[..])) - SepSize(x.key)
    ensures Garbage(page[..]) == Garbage(old(page[..]))
  {
    var slots := NumSlots(page[..]);
    var found, low, at := Neighbours(page, x.key, rows);
    ghost var rows1 := AddSeparator(page, x, at, rows);
    ghost var rows2 := PatchGreater(page, at, slots, x.right, rows1);
    LowKept(rows, rows1, rows2, at, found, low);
    rows' := PatchSmaller(page, found, low, x.left, rows2);
    Inserted(rows, x, found, low, SepsOn(rows1), SepsOn(rows2), SepsOn(rows'));
  }

  lemma {:induction false} LowKept(rows: seq<Row>, rows1: seq<Row>, rows2: seq<Row>, at: nat, found: bool, low: nat)
    requires at <= |rows| && |rows2| == |rows1| == |rows| + 1 && rows1[..at] == rows[..at] && rows2[..at + 1] == rows1[..at + 1]
    requires (found ==> low < at)
    ensures found ==> rows2[low] == rows[low] && Before(rows2, low) == Before(rows, low)
  {
    if found {
      assert rows2[..low] == rows2[..at + 1][..low] && rows1[..at + 1][..low] == rows1[..at][..low] && rows[..low] == rows[..at][..low];
      assert rows2[low] == rows2[..at + 1][low] == rows1[..at][low];
    }
  }

  // --------------------------------------------------------------- compaction

  lemma {:induction false} UsedIs(items: seq<Item>, n: nat)
    requires AllFit(items) && n <= |items|
    ensures UsedKeysTo(KeysOf(SepList(items)), n) == SumData(items, n) + SLOT_SIZE * n
  {
    if n > 0 {
      UsedIs(items, n - 1);
      assert KeysOf(SepList(items))[n - 1] == KeyOf(items[n - 1].data);
    }
  }

  lemma {:induction false} LivePage(b: Bytes, rows: seq<Row>)
    requires Laid(b, rows) && (forall i | 0 <= i < |rows| :: rows[i].Live?)
    requires AllFit(ItemsTo(rows, |rows|)) && LeafCodec.ItemsAscend(ItemsTo(rows, |rows|)) && TightItems(ItemsTo(rows, |rows|))
    ensures InternalPage(b, rows)
  {
    LeafCodec.AllLive(rows, |rows|);
    var items := ItemsTo(rows, |rows|);
    assert forall i | 0 <= i < |rows| :: items[i] == Item(rows[i].size, rows[i].data);
  }

  /** compact keeps the separators and leaves exactly the space they do not need. */
  method CompactInternal(page: array<byte>, ghost rows: seq<Row>) returns (ghost rows': seq<Row>)
    requires page.Length == PAGE_SIZE && InternalPage(page[..], rows)
    modifies page
    ensures InternalPage(page[..], rows') && SepsOn(rows') == SepsOn(rows) && Garbage(page[..]) == 0
    ensures FreeEnd(page[..]) - FreeBegin(page[..]) == FreeKeys(KeysOf(SepsOn(rows)))
  {
    ItemsFit(rows, |rows|);
    ItemsTight(rows, |rows|);
    LeafCodec.AscendingItems(rows, |rows|);
    rows' := Packing.Compact(page, false, rows);
    LivePage(page[..], rows');
    UsedIs(ItemsTo(rows, |rows|), |ItemsTo(rows, |rows|)|);
  }

  /** InsertElement: not ok means that it wrote outside the free region. */
  method InsertElement(page: array<byte>, x: Sep, ghost rows: seq<Row>) returns (ok: bool, inserted: bool, ghost rows': seq<Row>)
    requires page.Length == PAGE_SIZE && InternalPage(page[..], rows) && StrictKeys(SepsOn(rows)) && x.left < U64_LIMIT
    requires x.right < U64_LIMIT
    modifies page
    ensures InternalPage(page[..], rows')
    ensures var need, free, garbage := SepSize(x.key) + SLOT_SIZE, FreeEnd(old(page[..])) - FreeBegin(old(page[..])), Garbage(old(page[..]));
      var compacts := free < need % U16_LIMIT && need <= garbage;
      && inserted == (need <= free || (compacts && need <= FreeKeys(KeysOf(SepsOn(rows)))))
      && (ok <==> inserted || (free < need % U16_LIMIT && garbage < need))
      && (ok && !inserted ==> page[..] == old(page[..]) && rows' == rows)
      && (inserted ==> SepsOn(rows') == InsertSep(SepsOn(rows), x.key, x.left, x.right))
      && (inserted ==> FreeEnd(page[..]) - FreeBegin(page[..]) == (if compacts then FreeKeys(KeysOf(SepsOn(rows))) else free) - need)
  {
    var need := SepSize(x.key) + SLOT_SIZE;
    ok, inserted, rows' := true, false, rows;
    if !Adequate(FreeEnd(page[..]) - FreeBegin(page[..]), need) {
      if !ShouldCompact(Garbage(page[..]), need) {
        return;
      }
      rows' := CompactInternal(page, rows);
    }
    if need > FreeEnd(page[..]) - FreeBegin(page[..]) {
      return false, false, rows';
    }
    inserted := true;
    ghost var rows1 := rows';
    rows' := InsertSeparator(page, x, rows1);
  }
}
