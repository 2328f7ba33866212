/** The element list a split writes to the log, and its round trip. */
module ElementList {
  import opened Bytes
  import opened Assoc
  import opened Pages
  import opened Wal
  import opened Layout
  import opened Packing
  import opened LeafCodec

  /** An element with its length in front. */
  function Chunk(d: Bytes): Bytes {
    EncodeU16(|d|) + d
  }

  function Chunks(ds: seq<Bytes>, n: nat): Bytes
    requires n <= |ds|
  {
    if n == 0 then [] else Chunks(ds, n - 1) + Chunk(ds[n - 1])
  }

  /** The payload: the number of elements, then each with its length. */
  function Payload(ds: seq<Bytes>): Bytes {
    EncodeU16(|ds|) + Chunks(ds, |ds|)
  }

  /** Every length fits its 16-bit field. */
  ghost predicate Countable(ds: seq<Bytes>) {
    |ds| < U16_LIMIT && forall i | 0 <= i < |ds| :: |ds[i]| < U16_LIMIT
  }

  lemma {:induction false} ChunksPrefix(ds: seq<Bytes>, m: nat, n: nat)
    requires m <= n <= |ds|
    ensures Chunks(ds, m) <= Chunks(ds, n)
    decreases n - m
  {
    if m < n {
      ChunksPrefix(ds, m, n - 1);
    }
  }

  lemma {:induction false} ChunkIn(a: Bytes, d: Bytes, p: Bytes)
    requires a + Chunk(d) <= p && |d| < U16_LIMIT
    ensures U16(p, |a|) == |d| && p[|a| + 2..|a| + 2 + |d|] == d
  {
    var q := a + Chunk(d);
    assert q[|a|] == EncodeU16(|d|)[0] && q[|a| + 1] == EncodeU16(|d|)[1];
    assert q[|a| + 2..|a| + 2 + |d|] == d;
    assert p[..|q|][|a| + 2..|a| + 2 + |d|] == p[|a| + 2..|a| + 2 + |d|];
  }

  /** Element i is found at its offset in the payload. */
  lemma {:induction false} ChunkAt(ds: seq<Bytes>, i: nat)
    requires i < |ds| && Countable(ds)
    ensures var p, at := Payload(ds), 2 + |Chunks(ds, i)|;
      && at + 2 + |ds[i]| <= |p| && U16(p, at) == |ds[i]| && p[at + 2..at + 2 + |ds[i]|] == ds[i]
      && at + 2 + |ds[i]| == 2 + |Chunks(ds, i + 1)|
  {
    var a := EncodeU16(|ds|) + Chunks(ds, i);
    ChunksPrefix(ds, i + 1, |ds|);
    assert a + Chunk(ds[i]) == EncodeU16(|ds|) + Chunks(ds, i + 1);
    ChunkIn(a, ds[i], Payload(ds));
  }

  lemma {:induction false} CountAt(ds: seq<Bytes>)
    requires Countable(ds)
    ensures |Payload(ds)| >= 2 && U16(Payload(ds), 0) == |ds|
  {
    var p := Payload(ds);
    assert p[0] == EncodeU16(|ds|)[0] && p[1] == EncodeU16(|ds|)[1];
  }

  /** EncodeAllElements on the elements of a page. */
  method EncodeAll(ds: seq<Bytes>) returns (payload: Bytes)
    ensures payload == Payload(ds)
  {
    var data := [];
    for i := 0 to |ds|
      invariant data == Chunks(ds, i)
    {
      data := data + EncodeU16(|ds[i]|);
      data := data + ds[i];
      assert data == Chunks(ds, i) + Chunk(ds[i]);
    }
    payload := EncodeU16(|ds|) + data;
  }

  /** DecodeAllSlotsAndElements gives back the list that was encoded, staying inside the payload. */
  method DecodeAll(payload: Bytes, ghost ds: seq<Bytes>) returns (out: seq<Bytes>)
    requires Countable(ds) && payload == Payload(ds)
    ensures out == ds
  {
    CountAt(ds);
    out := [];
    var pointer := 2;
    for i := 0 to U16(payload, 0)
      invariant pointer == 2 + |Chunks(ds, i)| && out == ds[..i]
    {
      ChunkAt(ds, i);
      var size := U16(payload, pointer);
      pointer := pointer + 2;
      out := out + [payload[pointer..pointer + size]];
      pointer := pointer + size;
      assert ds[..i] + [ds[i]] == ds[..i + 1];
    }
  }

  // --------------------------------------------------------------- leaf pages

  /** Encoding a decoded element gives its bytes back. */
  lemma {:induction false} EncodeElement(d: Bytes)
    requires Fits(d, true)
    ensures LeafData(ElemOf(d)) == d
  {
    var n := U16(d, 0);
    var e := ElemOf(d);
    TwoBytes(d, 0);
    TwoBytes(d, 2 + n);
    assert d == d[..2] + d[2..2 + n] + d[2 + n..4 + n] + d[4 + n..];
    assert LeafData(e) == EncodeU16(n) + d[2..2 + n] + EncodeU16(|e.value|) + d[4 + n..];
  }

  lemma {:induction false} TwoBytes(d: Bytes, at: nat)
    requires at + 2 <= |d|
    ensures EncodeU16(U16(d, at)) == d[at..at + 2]
  {
    assert d[at..at + 2] == [d[at], d[at + 1]];
  }

  ghost function DataIn(items: seq<Item>): (ds: seq<Bytes>)
    ensures |ds| == |items| && forall i | 0 <= i < |ds| :: ds[i] == items[i].data
  {
    seq(|items|, i requires 0 <= i < |items| => items[i].data)
  }

  /** EncodeAllElements of a leaf page. */
  method EncodeLeaf(page: array<byte>, ghost rows: seq<Row>) returns (payload: Bytes)
    requires page.Length == PAGE_SIZE && LeafPage(page[..], rows)
    ensures var ds := DataIn(ItemsTo(rows, |rows|)); Countable(ds) && payload == Payload(ds)
  {
    var items := GetAll(page, true, rows);
    LiveFits(page[..], rows);
    ItemsFit(rows, |rows|);
    forall i | 0 <= i < |items| ensures LeafData(ElemOf(items[i].data)) == items[i].data { EncodeElement(items[i].data); }
    var ds := seq(|items|, i requires 0 <= i < |items| && Fits(items[i].data, true) => LeafData(ElemOf(items[i].data)));
    assert ds == DataIn(items);
    payload := EncodeAll(ds);
  }

  /** DecodeAllSlotsAndElements of a logged leaf: the elements the page showed, each slot with the size of its element. */
  method DecodeLeaf(payload: Bytes, ghost b: Bytes, ghost rows: seq<Row>) returns (sizes: seq<nat>, elems: seq<KV>)
    requires LeafPage(b, rows)
    requires var ds := DataIn(ItemsTo(rows, |rows|)); Countable(ds) && payload == Payload(ds)
    ensures elems == LeafView(b, rows).elems && sizes == Sizes(elems)
  {
    ghost var items := ItemsTo(rows, |rows|);
    ItemsFit(rows, |rows|);
    var ds := DecodeAll(payload, DataIn(items));
    elems := seq(|ds|, i requires 0 <= i < |ds| => ElemOf(ds[i]));
    sizes := seq(|ds|, i requires 0 <= i < |ds| => |ds[i]|);
  }
}
