/** The metadata page: its words, in whatever order the maps are iterated, and its round trip. */
module MetadataCodec {
  import opened Bytes
  import opened Pages
  import opened Layout
  import opened Slotted

  datatype MetaData = MetaData(lsn: nat, currTree: nat, roots: map<nat, nat>, maxId: nat, free: seq<nat>, firstLeaves: map<nat, nat>)

  ghost predicate Words64(ws: seq<nat>) {
    forall i | 0 <= i < |ws| :: ws[i] < U64_LIMIT
  }

  ghost predicate Map64(m: map<nat, nat>) {
    |m| < U64_LIMIT && forall k | k in m :: k < U64_LIMIT && m[k] < U64_LIMIT
  }

  /** Every number is a uint64. */
  ghost predicate Meta64(m: MetaData) {
    && m.lsn < U64_LIMIT && m.currTree < U64_LIMIT && m.maxId < U64_LIMIT && |m.free| < U64_LIMIT
    && Words64(m.free) && Map64(m.roots) && Map64(m.firstLeaves)
  }

  // -------------------------------------------------------------------- words

  function WordAt(b: Bytes, i: nat): nat
    requires 8 * i + 8 <= |b|
  {
    DecodeLE(b[8 * i..8 * i + 8])
  }

  /** The page starts with these words. */
  ghost predicate WordsOn(b: Bytes, ws: seq<nat>) {
    8 * |ws| <= |b| && forall i | 0 <= i < |ws| :: WordAt(b, i) == ws[i]
  }

  /** The iteration visits every key once. */
  ghost predicate Visits(order: seq<nat>, keys: set<nat>) {
    (forall i, j | 0 <= i < j < |order| :: order[i] != order[j]) && forall k :: k in order <==> k in keys
  }

  ghost function Pairs(m: map<nat, nat>, order: seq<nat>, n: nat): (ws: seq<nat>)
    requires n <= |order| && forall i | 0 <= i < |order| :: order[i] in m
    ensures |ws| == 2 * n
  {
    if n == 0 then [] else Pairs(m, order, n - 1) + [order[n - 1], m[order[n - 1]]]
  }

  lemma {:induction false} PairsAt(m: map<nat, nat>, order: seq<nat>, n: nat, i: nat)
    requires i < n <= |order| && forall j | 0 <= j < |order| :: order[j] in m
    ensures Pairs(m, order, n)[2 * i] == order[i] && Pairs(m, order, n)[2 * i + 1] == m[order[i]]
  {
    if i < n - 1 {
      PairsAt(m, order, n - 1, i);
    }
  }

  /** The words of a metadata page whose maps were iterated in these orders. */
  ghost function Words(m: MetaData, roots: seq<nat>, firsts: seq<nat>): seq<nat>
    requires Visits(roots, m.roots.Keys) && Visits(firsts, m.firstLeaves.Keys)
  {
    [m.lsn, m.currTree, |m.roots|] + Pairs(m.roots, roots, |roots|) + [m.maxId, |m.free|] + m.free
      + [|m.firstLeaves|] + Pairs(m.firstLeaves, firsts, |firsts|)
  }

  lemma {:induction false} VisitsSize(order: seq<nat>, keys: set<nat>)
    requires Visits(order, keys)
    ensures |order| == |keys|
    decreases |order|
  {
    if order == [] {
      assert keys == {};
    } else {
      var n := |order| - 1;
      assert order == order[..n] + [order[n]];
      VisitsSize(order[..n], keys - {order[n]});
    }
  }

  // ----------------------------------------------------------------- encoding

  /** PutUint64 at the pointer; not ok is a panic at the end of the page. */
  method PutWord(page: array<byte>, pointer: nat, w: nat, ghost ws: seq<nat>) returns (ok: bool, next: nat)
    requires page.Length == PAGE_SIZE && WordsOn(page[..], ws) && pointer == 8 * |ws| && w < U64_LIMIT
    modifies page
    ensures ok == (pointer + 8 <= PAGE_SIZE) && (ok ==> next == pointer + 8 && WordsOn(page[..], ws + [w]))
  {
    if pointer + 8 > PAGE_SIZE {
      return false, pointer;
    }
    ghost var b := page[..];
    Copy(page, pointer, EncodeLE(w, 8));
    PatchAgree(b, pointer, EncodeLE(w, 8));
    U64RoundTrip(w);
    WordAdded(b, page[..], ws, w);
    return true, pointer + 8;
  }

  lemma {:induction false} WordAdded(b: Bytes, c: Bytes, ws: seq<nat>, w: nat)
    requires WordsOn(b, ws) && 8 * |ws| + 8 <= |b| && Agree(b, c, 0, 8 * |ws|) && WordAt(c, |ws|) == w
    ensures WordsOn(c, ws + [w])
  {
    forall i | 0 <= i < |ws| ensures WordAt(c, i) == ws[i] {
      AgreeSlice(b, c, 0, 8 * |ws|, 8 * i, 8 * i + 8);
    }
  }

  /** The loop over a map: any iteration order, and a panic exactly when the pairs do not fit. */
  method PutMap(page: array<byte>, pointer: nat, m: map<nat, nat>, ghost ws: seq<nat>) returns (ok: bool, next: nat, ghost order: seq<nat>)
    requires page.Length == PAGE_SIZE && WordsOn(page[..], ws) && pointer == 8 * |ws| && Map64(m)
    modifies page
    ensures ok == (8 * (|ws| + 2 * |m|) <= PAGE_SIZE)
    ensures ok ==> Visits(order, m.Keys) && WordsOn(page[..], ws + Pairs(m, order, |order|)) && next == 8 * (|ws| + 2 * |m|)
  {
    order, next, ok := [], pointer, true;
    var rest := m.Keys;
    assert ws + Pairs(m, order, 0) == ws;
    while rest != {}
      invariant rest <= m.Keys && Visits(order, m.Keys - rest) && |order| + |rest| == |m|
      invariant forall i | 0 <= i < |order| :: order[i] in m
      invariant WordsOn(page[..], ws + Pairs(m, order, |order|)) && next == 8 * (|ws| + 2 * |order|)
      decreases |rest|
    {
      var k :| k in rest;
      ghost var now := ws + Pairs(m, order, |order|);
      ok, next := PutWord(page, next, k, now);
      if !ok {
        return;
      }
      ok, next := PutWord(page, next, m[k], now + [k]);
      if !ok {
        return;
      }
      PairAdded(m, order, k);
      VisitsMore(order, m.Keys - rest, k);
      assert m.Keys - rest + {k} == m.Keys - (rest - {k});
      assert now + [k] + [m[k]] == ws + (Pairs(m, order, |order|) + [k, m[k]]);
      rest := rest - {k};
      order := order + [k];
    }
  }

  lemma {:induction false} PairAdded(m: map<nat, nat>, order: seq<nat>, k: nat)
    requires k in m && forall i | 0 <= i < |order| :: order[i] in m
    ensures var more := order + [k];
      (forall i | 0 <= i < |more| :: more[i] in m) && Pairs(m, more, |more|) == Pairs(m, order, |order|) + [k, m[k]]
  {
    PairsPrefix(m, order, k, |order|);
  }

  lemma {:induction false} PairsPrefix(m: map<nat, nat>, order: seq<nat>, k: nat, n: nat)
    requires k in m && n <= |order| && forall i | 0 <= i < |order| :: order[i] in m
    ensures Pairs(m, order + [k], n) == Pairs(m, order, n)
  {
    if n > 0 {
      PairsPrefix(m, order, k, n - 1);
    }
  }

  lemma {:induction false} VisitsMore(order: seq<nat>, keys: set<nat>, k: nat)
    requires Visits(order, keys) && k !in keys
    ensures Visits(order + [k], keys + {k})
  {
  }

  /** The loop over the deallocated page ids. */
  method PutList(page: array<byte>, pointer: nat, list: seq<nat>, ghost ws: seq<nat>) returns (ok: bool, next: nat)
    requires page.Length == PAGE_SIZE && WordsOn(page[..], ws) && pointer == 8 * |ws| && Words64(list)
    modifies page
    ensures ok == (8 * (|ws| + |list|) <= PAGE_SIZE) && (ok ==> WordsOn(page[..], ws + list) && next == 8 * (|ws| + |list|))
  {
    next, ok := pointer, true;
    assert ws + list[..0] == ws;
    for i := 0 to |list|
      invariant WordsOn(page[..], ws + list[..i]) && next == 8 * (|ws| + i)
    {
      ok, next := PutWord(page, next, list[i], ws + list[..i]);
      if !ok {
        return;
      }
      assert ws + list[..i] + [list[i]] == ws + list[..i + 1];
    }
    assert list[..|list|] == list;
  }

  /** The number of words of the metadata page. */
  function Size(m: MetaData): nat {
    6 + 2 * |m.roots| + |m.free| + 2 * |m.firstLeaves|
  }

  /** The part of the page up to the list of free pages. */
  method EncodeHead(page: array<byte>, m: MetaData) returns (ok: bool, next: nat, ghost roots: seq<nat>, ghost ws: seq<nat>)
    requires page.Length == PAGE_SIZE && Meta64(m)
    modifies page
    ensures ok == (8 * (5 + 2 * |m.roots|) <= PAGE_SIZE)
    ensures ok ==>
      Visits(roots, m.roots.Keys) && ws == [m.lsn, m.currTree, |m.roots|] + Pairs(m.roots, roots, |roots|) + [m.maxId, |m.free|]
    ensures ok ==> WordsOn(page[..], ws) && next == 8 * |ws| && |ws| == 5 + 2 * |m.roots|
  {
    roots, ws := [], [];
    ok, next := PutWord(page, 0, m.lsn, []);
    ok, next := PutWord(page, next, m.currTree, [m.lsn]);
    assert [m.lsn] + [m.currTree] == [m.lsn, m.currTree];
    ok, next := PutWord(page, next, |m.roots|, [m.lsn, m.currTree]);
    ghost var head := [m.lsn, m.currTree, |m.roots|];
    assert [m.lsn, m.currTree] + [|m.roots|] == head;
    ok, next, roots := PutMap(page, next, m.roots, head);
    if !ok {
      return;
    }
    VisitsSize(roots, m.roots.Keys);
    ws := head + Pairs(m.roots, roots, |roots|);
    ok, next := PutWord(page, next, m.maxId, ws);
    if !ok {
      return;
    }
    ok, next := PutWord(page, next, |m.free|, ws + [m.maxId]);
    assert ws + [m.maxId] + [|m.free|] == ws + [m.maxId, |m.free|];
    ws := ws + [m.maxId, |m.free|];
  }

  /** EncodeMetaDataPage: not ok is a panic, exactly when the words do not fit in the page. */
  method EncodeMetaDataPage(m: MetaData) returns (ok: bool, page: array<byte>, ghost roots: seq<nat>, ghost firsts: seq<nat>)
    requires Meta64(m)
    ensures fresh(page) && page.Length == PAGE_SIZE && ok == (8 * Size(m) <= PAGE_SIZE)
    ensures ok ==> Visits(roots, m.roots.Keys) && Visits(firsts, m.firstLeaves.Keys) && WordsOn(page[..], Words(m, roots, firsts))
  {
    page := new byte[PAGE_SIZE](_ => 0);
    firsts := [];
    var next;
    ghost var ws;
    ok, next, roots, ws := EncodeHead(page, m);
    if !ok {
      return;
    }
    ok, next := PutList(page, next, m.free, ws);
    if !ok {
      return;
    }
    ok, next := PutWord(page, next, |m.firstLeaves|, ws + m.free);
    if !ok {
      return;
    }
    ok, next, firsts := PutMap(page, next, m.firstLeaves, ws + m.free + [|m.firstLeaves|]);
  }

  // ----------------------------------------------------------------- decoding

  /** The map read from the first n pairs. */
  ghost function Built(m: map<nat, nat>, order: seq<nat>, n: nat): map<nat, nat>
    requires n <= |order| && forall i | 0 <= i < |order| :: order[i] in m
  {
    if n == 0 then map[] else Built(m, order, n - 1)[order[n - 1] := m[order[n - 1]]]
  }

  lemma {:induction false} BuiltFrom(m: map<nat, nat>, order: seq<nat>, n: nat)
    requires n <= |order| && forall i | 0 <= i < |order| :: order[i] in m
    ensures (forall k :: k in Built(m, order, n) <==> k in order[..n])
    ensures forall k | k in Built(m, order, n) :: k in m && Built(m, order, n)[k] == m[k]
  {
    if n > 0 {
      BuiltFrom(m, order, n - 1);
      assert order[..n] == order[..n - 1] + [order[n - 1]];
    }
  }

  lemma {:induction false} BuiltStep(m: map<nat, nat>, order: seq<nat>, i: nat, k: nat, v: nat)
    requires (forall j | 0 <= j < |order| :: order[j] in m) && i < |order| && k == order[i] && v == m[k]
    ensures Built(m, order, i + 1) == Built(m, order, i)[k := v]
  {
  }

  /** Every iteration order gives the map back. */
  lemma {:induction false} BuiltAll(m: map<nat, nat>, order: seq<nat>)
    requires Visits(order, m.Keys)
    ensures Built(m, order, |order|) == m
  {
    BuiltFrom(m, order, |order|);
    assert order[..|order|] == order;
  }

  method GetWord(page: array<byte>, pointer: nat, ghost ws: seq<nat>, ghost at: nat) returns (w: nat, next: nat)
    requires page.Length == PAGE_SIZE && WordsOn(page[..], ws) && at < |ws| && pointer == 8 * at
    ensures w == ws[at] && next == 8 * (at + 1)
  {
    assert WordAt(page[..], at) == ws[at];
    w, next := DecodeLE(page[pointer..pointer + 8]), pointer + 8;
    assert page[..][pointer..pointer + 8] == page[pointer..pointer + 8];
  }

  lemma {:induction false} PairAt(ws: seq<nat>, at: nat, m: map<nat, nat>, order: seq<nat>, i: nat)
    requires (forall j | 0 <= j < |order| :: order[j] in m) && at + 2 * |order| <= |ws|
    requires ws[at..at + 2 * |order|] == Pairs(m, order, |order|) && i < |order|
    ensures ws[at + 2 * i] == order[i] && ws[at + 2 * i + 1] == m[order[i]]
  {
    var p := Pairs(m, order, |order|);
    PairsAt(m, order, |order|, i);
    assert p[2 * i] == ws[at..at + 2 * |order|][2 * i] && p[2 * i + 1] == ws[at..at + 2 * |order|][2 * i + 1];
  }

  /** One entry of a map. */
  method GetPair(page: array<byte>, pointer: nat, ghost m: map<nat, nat>, ghost order: seq<nat>, ghost ws: seq<nat>, ghost at: nat,
                 ghost i: nat)
    returns (k: nat, v: nat, next: nat)
    requires page.Length == PAGE_SIZE && WordsOn(page[..], ws) && pointer == 8 * (at + 2 * i) && i < |order|
    requires (forall j | 0 <= j < |order| :: order[j] in m) && at + 2 * |order| <= |ws|
    requires ws[at..at + 2 * |order|] == Pairs(m, order, |order|)
    ensures k == order[i] && k in m && v == m[k] && next == 8 * (at + 2 * (i + 1))
  {
    PairAt(ws, at, m, order, i);
    k, next := GetWord(page, pointer, ws, at + 2 * i);
    v, next := GetWord(page, next, ws, at + 2 * i + 1);
  }

  /** The loop that reads a map back. */
  method GetPairs(page: array<byte>, pointer: nat, n: nat, ghost m: map<nat, nat>, ghost order: seq<nat>, ghost ws: seq<nat>, ghost at: nat)
    returns (r: map<nat, nat>, next: nat)
    requires page.Length == PAGE_SIZE && WordsOn(page[..], ws) && pointer == 8 * at && n == |order|
    requires (forall j | 0 <= j < |order| :: order[j] in m) && at + 2 * |order| <= |ws|
    requires ws[at..at + 2 * |order|] == Pairs(m, order, |order|)
    ensures r == Built(m, order, n) && next == 8 * (at + 2 * n)
  {
    r, next := map[], pointer;
    for i := 0 to n
      invariant r == Built(m, order, i) && next == 8 * (at + 2 * i)
    {
      var k, v;
      k, v, next := GetPair(page, next, m, order, ws, at, i);
      BuiltStep(m, order, i, k, v);
      r := r[k := v];
    }
  }

  /** A map that was written in some iteration order is read back whole. */
  method GetMap(page: array<byte>, pointer: nat, n: nat, ghost m: map<nat, nat>, ghost order: seq<nat>, ghost ws: seq<nat>, ghost at: nat)
    returns (r: map<nat, nat>, next: nat)
    requires page.Length == PAGE_SIZE && WordsOn(page[..], ws) && pointer == 8 * at && Visits(order, m.Keys) && n == |order|
    requires at + 2 * n <= |ws| && ws[at..at + 2 * n] == Pairs(m, order, |order|)
    ensures r == m && next == 8 * (at + 2 * n)
  {
    BuiltAll(m, order);
    r, next := GetPairs(page, pointer, n, m, order, ws, at);
  }

  method GetList(page: array<byte>, pointer: nat, n: nat, ghost ws: seq<nat>, ghost at: nat) returns (list: seq<nat>, next: nat)
    requires page.Length == PAGE_SIZE && WordsOn(page[..], ws) && pointer == 8 * at && at + n <= |ws|
    ensures list == ws[at..at + n] && next == 8 * (at + n)
  {
    list, next := [], pointer;
    for i := 0 to n
      invariant list == ws[at..at + i] && next == 8 * (at + i)
    {
      var w;
      w, next := GetWord(page, next, ws, at + i);
      list := list + [w];
    }
  }

  // The two halves of the page: up to the pairs of the first map, and the rest.

  ghost function HeadWords(m: MetaData, roots: seq<nat>): seq<nat>
    requires Visits(roots, m.roots.Keys)
  {
    [m.lsn, m.currTree, |m.roots|] + Pairs(m.roots, roots, |roots|)
  }

  ghost function TailWords(m: MetaData, firsts: seq<nat>): seq<nat>
    requires Visits(firsts, m.firstLeaves.Keys)
  {
    [m.maxId, |m.free|] + m.free + [|m.firstLeaves|] + Pairs(m.firstLeaves, firsts, |firsts|)
  }

  lemma {:induction false} TwoHalves(m: MetaData, roots: seq<nat>, firsts: seq<nat>)
    requires Visits(roots, m.roots.Keys) && Visits(firsts, m.firstLeaves.Keys)
    ensures Words(m, roots, firsts) == HeadWords(m, roots) + TailWords(m, firsts)
  {
  }

  lemma {:induction false} TailParts(m: MetaData, firsts: seq<nat>, ws: seq<nat>, a: nat)
    requires Visits(firsts, m.firstLeaves.Keys) && |firsts| == |m.firstLeaves| && a <= |ws| && ws[a..] == TailWords(m, firsts)
    ensures var c := a + 2 + |m.free|;
      && |ws| == c + 1 + 2 * |firsts| && ws[a] == m.maxId && ws[a + 1] == |m.free| && ws[a + 2..c] == m.free
      && ws[c] == |firsts| && ws[c + 1..c + 1 + 2 * |firsts|] == Pairs(m.firstLeaves, firsts, |firsts|)
  {
    var t, c := ws[a..], a + 2 + |m.free|;
    assert ws[a] == t[0] && ws[a + 1] == t[1] && ws[c] == t[2 + |m.free|];
    assert ws[a + 2..c] == t[2..2 + |m.free|] && ws[c + 1..c + 1 + 2 * |firsts|] == t[3 + |m.free|..];
  }

  /** The part of the page up to the list of free pages. */
  method DecodeHead(page: array<byte>, ghost m: MetaData, ghost roots: seq<nat>, ghost ws: seq<nat>)
    returns (lsn: nat, currTree: nat, rootPages: map<nat, nat>, next: nat)
    requires page.Length == PAGE_SIZE && WordsOn(page[..], ws) && Visits(roots, m.roots.Keys)
    requires HeadWords(m, roots) <= ws
    ensures lsn == m.lsn && currTree == m.currTree && rootPages == m.roots && next == 8 * |HeadWords(m, roots)|
  {
    VisitsSize(roots, m.roots.Keys);
    var n;
    lsn, next := GetWord(page, 0, ws, 0);
    currTree, next := GetWord(page, next, ws, 1);
    n, next := GetWord(page, next, ws, 2);
    assert ws[3..3 + 2 * n] == HeadWords(m, roots)[3..];
    rootPages, next := GetMap(page, next, n, m.roots, roots, ws, 3);
  }

  /** The rest of the page. */
  method DecodeTail(page: array<byte>, pointer: nat, ghost m: MetaData, ghost firsts: seq<nat>, ghost ws: seq<nat>, ghost a: nat)
    returns (maxId: nat, free: seq<nat>, firstLeaves: map<nat, nat>)
    requires page.Length == PAGE_SIZE && WordsOn(page[..], ws) && Visits(firsts, m.firstLeaves.Keys)
    requires pointer == 8 * a && a <= |ws| && ws[a..] == TailWords(m, firsts)
    ensures maxId == m.maxId && free == m.free && firstLeaves == m.firstLeaves
  {
    VisitsSize(firsts, m.firstLeaves.Keys);
    TailParts(m, firsts, ws, a);
    var size, n, next;
    maxId, next := GetWord(page, pointer, ws, a);
    size, next := GetWord(page, next, ws, a + 1);
    free, next := GetList(page, next, size, ws, a + 2);
    n, next := GetWord(page, next, ws, a + 2 + |m.free|);
    firstLeaves, next := GetMap(page, next, n, m.firstLeaves, firsts, ws, a + 3 + |m.free|);
  }

  /** DecodeMetaDataPage on a page that was encoded: the same metadata, whatever the iteration orders were. */
  method DecodeMetaDataPage(page: array<byte>, ghost m: MetaData, ghost roots: seq<nat>, ghost firsts: seq<nat>) returns (r: MetaData)
    requires page.Length == PAGE_SIZE && Visits(roots, m.roots.Keys) && Visits(firsts, m.firstLeaves.Keys)
    requires WordsOn(page[..], Words(m, roots, firsts))
    ensures r == m
  {
    TwoHalves(m, roots, firsts);
    ghost var ws := Words(m, roots, firsts);
    var lsn, currTree, rootPages, next := DecodeHead(page, m, roots, ws);
    var maxId, free, firstLeaves := DecodeTail(page, next, m, firsts, ws, |HeadWords(m, roots)|);
    r := MetaData(lsn, currTree, rootPages, maxId, free, firstLeaves);
  }
}
