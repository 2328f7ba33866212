/** The bytes of a slotted page: header, slot table and element region. */
module Layout {
  import opened Bytes
  import opened Pages

  const TOMBSTONE: nat := 0xFFFF

  // ----------------------------------------------------------------- patching

  /** The bytes after copy(b[at:], d). */
  function Patch(b: Bytes, at: nat, d: Bytes): (r: Bytes)
    requires at + |d| <= |b|
    ensures |r| == |b|
    ensures forall i | 0 <= i < |b| :: r[i] == if at <= i < at + |d| then d[i - at] else b[i]
  {
    b[..at] + d + b[at + |d|..]
  }

  /** The two buffers agree between the offsets x and y. */
  ghost predicate Agree(b: Bytes, c: Bytes, x: nat, y: nat) {
    |b| == |c| && forall i | x <= i < y && i < |b| :: b[i] == c[i]
  }

  lemma {:induction false} PatchAgree(b: Bytes, at: nat, d: Bytes)
    requires at + |d| <= |b|
    ensures var c := Patch(b, at, d); Agree(b, c, 0, at) && Agree(b, c, at + |d|, |b|) && c[at..at + |d|] == d
  {
  }

  lemma {:induction false} AgreeSlice(b: Bytes, c: Bytes, x: nat, y: nat, u: nat, v: nat)
    requires Agree(b, c, x, y) && x <= u <= v <= y && v <= |b|
    ensures b[u..v] == c[u..v]
  {
  }

  lemma {:induction false} SubSlice(b: Bytes, x: nat, y: nat, u: nat, v: nat)
    requires x <= y <= |b| && u <= v <= y - x
    ensures b[x..y][u..v] == b[x + u..x + v]
  {
    var p, q := b[x..y][u..v], b[x + u..x + v];
    forall i | 0 <= i < |p| ensures p[i] == q[i] {
      assert p[i] == b[x..y][u + i] == b[x + u + i];
    }
  }

  lemma {:induction false} AgreeU16(b: Bytes, c: Bytes, x: nat, y: nat, at: nat)
    requires Agree(b, c, x, y) && x <= at && at + 2 <= y && at + 2 <= |b|
    ensures U16(b, at) == U16(c, at)
  {
  }

  lemma {:induction false} PatchU16(b: Bytes, at: nat, n: nat)
    requires at + 2 <= |b| && n < U16_LIMIT
    ensures U16(Patch(b, at, EncodeU16(n)), at) == n
  {
    var c := Patch(b, at, EncodeU16(n));
    assert c[at] == EncodeU16(n)[0] && c[at + 1] == EncodeU16(n)[1];
  }

  // ------------------------------------------------------------------- header

  /** isPageFilled; the other fields of an unfilled page read as the fields of an empty page. */
  predicate Filled(b: Bytes)
    requires |b| == PAGE_SIZE
  {
    b[5] != 0
  }

  function NumSlots(b: Bytes): nat
    requires |b| == PAGE_SIZE
  {
    if Filled(b) then U16(b, 6) else 0
  }

  function FreeBegin(b: Bytes): nat
    requires |b| == PAGE_SIZE
  {
    if Filled(b) then U16(b, 8) else HEADER_SIZE
  }

  function FreeEnd(b: Bytes): nat
    requires |b| == PAGE_SIZE
  {
    if Filled(b) then U16(b, 10) else PAGE_SIZE
  }

  function Garbage(b: Bytes): nat
    requires |b| == PAGE_SIZE
  {
    if Filled(b) then U16(b, 12) else 0
  }

  function NextLeaf(b: Bytes): nat
    requires |b| == PAGE_SIZE
  {
    DecodeLE(b[16..24])
  }

  // -------------------------------------------------------------------- slots

  datatype Slot = Slot(size: nat, ptr: nat)

  /** decodeSlot of slot i. */
  function SlotAt(b: Bytes, i: nat): Slot
    requires |b| == PAGE_SIZE && HEADER_SIZE + SLOT_SIZE * i + 4 <= |b|
  {
    Slot(U16(b, HEADER_SIZE + SLOT_SIZE * i), U16(b, HEADER_SIZE + SLOT_SIZE * i + 2))
  }

  function EncodeSlot(s: Slot): (d: Bytes)
    ensures |d| == 4
  {
    EncodeU16(s.size) + EncodeU16(s.ptr)
  }

  lemma {:induction false} PatchSlot(b: Bytes, i: nat, s: Slot)
    requires |b| == PAGE_SIZE && HEADER_SIZE + SLOT_SIZE * i + 4 <= |b| && s.size < U16_LIMIT && s.ptr < U16_LIMIT
    ensures SlotAt(Patch(b, HEADER_SIZE + SLOT_SIZE * i, EncodeSlot(s)), i) == s
  {
    var at, d := HEADER_SIZE + SLOT_SIZE * i, EncodeSlot(s);
    var c := Patch(b, at, d);
    assert c[at] == d[0] && c[at + 1] == d[1] && c[at + 2] == d[2] && c[at + 3] == d[3];
    assert d[0] == EncodeU16(s.size)[0] && d[1] == EncodeU16(s.size)[1] && d[2] == EncodeU16(s.ptr)[0] && d[3] == EncodeU16(s.ptr)[1];
  }

  lemma {:induction false} AgreeSlot(b: Bytes, c: Bytes, x: nat, y: nat, i: nat)
    requires |b| == PAGE_SIZE && Agree(b, c, x, y)
    requires x <= HEADER_SIZE + SLOT_SIZE * i && HEADER_SIZE + SLOT_SIZE * i + 4 <= y && HEADER_SIZE + SLOT_SIZE * i + 4 <= |b|
    ensures SlotAt(b, i) == SlotAt(c, i)
  {
  }

  // --------------------------------------------------------------------- rows

  /** A slot with what it points at: nothing any more, or the bytes of an element. */
  datatype Row = Dead(size: nat) | Live(size: nat, ptr: nat, data: Bytes)

  function SlotOf(r: Row): Slot {
    match r
    case Dead(size) => Slot(size, TOMBSTONE)
    case Live(size, ptr, _) => Slot(size, ptr)
  }

  /** Element bytes start with the length of the key and the key. */
  predicate Keyed(d: Bytes) {
    |d| >= 2 && 2 + U16(d, 0) <= |d|
  }

  function KeyOf(d: Bytes): Bytes
    requires Keyed(d)
  {
    d[2..2 + U16(d, 0)]
  }

  /** The bytes d are stored at ptr, above the free region. */
  ghost predicate StoredAt(b: Bytes, end: nat, ptr: nat, d: Bytes) {
    end <= ptr && ptr + |d| <= |b| && b[ptr..ptr + |d|] == d
  }

  /** A live element is stored above the free region, within the size its slot records. */
  ghost predicate RowOn(b: Bytes, end: nat, r: Row) {
    r.size < U16_LIMIT && (r.Live? ==> StoredAt(b, end, r.ptr, r.data) && Keyed(r.data) && |r.data| <= r.size)
  }

  /** The slot table lists the rows. */
  ghost predicate TableOn(b: Bytes, rows: seq<Row>) {
    && |b| == PAGE_SIZE && HEADER_SIZE + SLOT_SIZE * |rows| <= PAGE_SIZE
    && forall i | 0 <= i < |rows| :: SlotAt(b, i) == SlotOf(rows[i])
  }

  lemma {:induction false} AgreeTable(b: Bytes, c: Bytes, x: nat, y: nat, rows: seq<Row>)
    requires TableOn(b, rows) && Agree(b, c, x, y) && x <= HEADER_SIZE && HEADER_SIZE + SLOT_SIZE * |rows| <= y
    ensures TableOn(c, rows)
  {
    forall i | 0 <= i < |rows| ensures SlotAt(c, i) == SlotOf(rows[i]) {
      AgreeSlot(b, c, x, y, i);
    }
  }

  /** The bytes of two live elements do not overlap. */
  ghost predicate ApartTwo(r: Row, s: Row) {
    r.Live? && s.Live? ==> r.ptr + |r.data| <= s.ptr || s.ptr + |s.data| <= r.ptr
  }

  ghost predicate Apart(rows: seq<Row>) {
    forall i, j | 0 <= i < j < |rows| :: ApartTwo(rows[i], rows[j])
  }

  /**
   The page holds these rows: the slot table ends where the free region begins, every live element lies above the
   free region and no two overlap. An unfilled page has never been written, so its counters are zero.
   */
  ghost predicate Laid(b: Bytes, rows: seq<Row>) {
    && |b| == PAGE_SIZE
    && NumSlots(b) == |rows| && FreeBegin(b) == HEADER_SIZE + SLOT_SIZE * |rows| && FreeBegin(b) <= FreeEnd(b) <= PAGE_SIZE
    && (!Filled(b) ==> U16(b, 12) == 0 && NextLeaf(b) == 0)
    && TableOn(b, rows) && (forall i | 0 <= i < |rows| :: RowOn(b, FreeEnd(b), rows[i])) && Apart(rows)
  }

  /** The keys of the live rows ascend, possibly with equal neighbours. */
  ghost predicate Ascends(rows: seq<Row>) {
    && (forall i | 0 <= i < |rows| && rows[i].Live? :: Keyed(rows[i].data))
    && forall i, j | 0 <= i < j < |rows| && rows[i].Live? && rows[j].Live? :: !Lt(KeyOf(rows[j].data), KeyOf(rows[i].data))
  }

  /** The key of the element stored at ptr can be read there. */
  lemma {:induction false} KeyAt(b: Bytes, end: nat, ptr: nat, d: Bytes)
    requires StoredAt(b, end, ptr, d) && Keyed(d)
    ensures ptr + 2 + U16(d, 0) <= |b| && U16(b, ptr) == U16(d, 0) && b[ptr + 2..ptr + 2 + U16(b, ptr)] == KeyOf(d)
  {
    var n, s := U16(d, 0), b[ptr..ptr + |d|];
    assert b[ptr] == s[0] && b[ptr + 1] == s[1];
    SubSlice(b, ptr, ptr + |d|, 2, 2 + n);
  }

  lemma {:induction false} StoredFrame(b: Bytes, c: Bytes, end: nat, end': nat, ptr: nat, d: Bytes)
    requires StoredAt(b, end, ptr, d) && end' <= end && Agree(b, c, end, |b|)
    ensures StoredAt(c, end', ptr, d)
  {
    AgreeSlice(b, c, end, |b|, ptr, ptr + |d|);
  }

  // ------------------------------------------------------------------ packing

  /** Bytes of the first n live elements. */
  function DataTo(rows: seq<Row>, n: nat): nat
    requires n <= |rows|
  {
    if n == 0 then 0 else DataTo(rows, n - 1) + (if rows[n - 1].Live? then |rows[n - 1].data| else 0)
  }

  ghost function Span(x: nat, y: nat): (s: set<nat>)
    requires x <= y
    ensures |s| == y - x && forall i :: i in s <==> x <= i < y
    decreases y - x
  {
    if x == y then {} else Span(x, y - 1) + {y - 1}
  }

  /** The offsets taken by the first n live elements. */
  ghost function Cover(rows: seq<Row>, n: nat): set<nat>
    requires n <= |rows|
  {
    if n == 0 then {} else Cover(rows, n - 1) + (if rows[n - 1].Live? then Span(rows[n - 1].ptr, rows[n - 1].ptr + |rows[n - 1].data|) else {})
  }

  lemma {:induction false} CoverFrom(rows: seq<Row>, n: nat, x: nat)
    requires n <= |rows| && x in Cover(rows, n)
    ensures exists i :: 0 <= i < n && rows[i].Live? && rows[i].ptr <= x < rows[i].ptr + |rows[i].data|
  {
    if x in Cover(rows, n - 1) {
      CoverFrom(rows, n - 1, x);
    } else {
      assert rows[n - 1].Live?;
    }
  }

  lemma {:induction false} CoverSize(rows: seq<Row>, n: nat)
    requires n <= |rows| && Apart(rows)
    ensures |Cover(rows, n)| == DataTo(rows, n)
  {
    if n > 0 {
      CoverSize(rows, n - 1);
      var r := rows[n - 1];
      if r.Live? {
        var span := Span(r.ptr, r.ptr + |r.data|);
        forall x | x in Cover(rows, n - 1) ensures x !in span {
          CoverFrom(rows, n - 1, x);
          var i :| 0 <= i < n - 1 && rows[i].Live? && rows[i].ptr <= x < rows[i].ptr + |rows[i].data|;
          assert ApartTwo(rows[i], rows[n - 1]);
        }
        assert Cover(rows, n - 1) !! span;
      }
    }
  }

  /** Disjoint elements above the free region cannot take more bytes than lie there: compaction always has room. */
  lemma {:induction false} DataFits(b: Bytes, rows: seq<Row>)
    requires Laid(b, rows)
    ensures DataTo(rows, |rows|) <= PAGE_SIZE - FreeEnd(b)
  {
    var c, all := Cover(rows, |rows|), Span(FreeEnd(b), PAGE_SIZE);
    CoverSize(rows, |rows|);
    forall x | x in c ensures x in all {
      CoverFrom(rows, |rows|, x);
      var i :| 0 <= i < |rows| && rows[i].Live? && rows[i].ptr <= x < rows[i].ptr + |rows[i].data|;
      assert RowOn(b, FreeEnd(b), rows[i]);
    }
    SubsetSize(c, all);
  }

  lemma {:induction false} SubsetSize(a: set<nat>, b: set<nat>)
    requires a <= b
    ensures |a| <= |b|
    decreases |a|
  {
    if a != {} {
      var x :| x in a;
      SubsetSize(a - {x}, b - {x});
    }
  }
}
