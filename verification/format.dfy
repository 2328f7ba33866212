/** The file format in plain offsets and bytes. */
module Format {
  import opened Bytes
  import opened Assoc
  import opened Pages
  import opened Layout
  import opened LeafCodec
  import opened InternalCodec
  import opened MetadataCodec

  /** Two bytes, low byte first. */
  ghost predicate Word16(b: Bytes, at: nat, n: nat) {
    at + 2 <= |b| && n < 65536 && b[at] == n % 256 && b[at + 1] == n / 256
  }

  lemma {:induction false} U16Format(b: Bytes, at: nat, n: nat)
    requires at + 2 <= |b|
    ensures U16(b, at) == n <==> Word16(b, at, n)
  {
  }

  /**
   A written page with these rows: the number of slots at byte 6, the bounds of the free region at 8 and 10, the slots
   of four bytes from byte 32 on, each with its size and its pointer or 65535, and the live elements where they point.
   */
  lemma {:induction false} PageFormat(b: Bytes, rows: seq<Row>, i: nat)
    requires Laid(b, rows) && b[5] != 0 && i < |rows|
    ensures |b| == 4096 && Word16(b, 6, |rows|) && Word16(b, 8, 32 + 4 * |rows|)
    ensures Word16(b, 32 + 4 * i, rows[i].size) && Word16(b, 34 + 4 * i, if rows[i].Live? then rows[i].ptr else 65535)
    ensures rows[i].Live? ==> rows[i].ptr + |rows[i].data| <= 4096 && b[rows[i].ptr..rows[i].ptr + |rows[i].data|] == rows[i].data
  {
    U16Format(b, 6, |rows|);
    U16Format(b, 8, 32 + 4 * |rows|);
    assert SlotAt(b, i) == SlotOf(rows[i]) && RowOn(b, FreeEnd(b), rows[i]);
    U16Format(b, 32 + 4 * i, rows[i].size);
    U16Format(b, 34 + 4 * i, SlotOf(rows[i]).ptr);
  }

  /** An element of a leaf: the length of the key, the key, the length of the value, the value. */
  lemma {:induction false} LeafFormat(e: KV)
    requires |e.key| < 65536 && |e.value| < 65536
    ensures var d, n := LeafData(e), |e.key|;
      && |d| == 4 + n + |e.value| && Word16(d, 0, n) && d[2..2 + n] == e.key && Word16(d, 2 + n, |e.value|) && d[4 + n..] == e.value
  {
    var d, n := LeafData(e), |e.key|;
    assert d[0] == EncodeU16(n)[0] && d[1] == EncodeU16(n)[1];
    assert d[2 + n] == EncodeU16(|e.value|)[0] && d[3 + n] == EncodeU16(|e.value|)[1];
  }

  /** A separator: the length of the key, the key, the left and the right page id in eight bytes each. */
  lemma {:induction false} SepFormat(s: Sep, i: nat)
    requires |s.key| < 65536 && i < 8
    ensures var d, n := SepData(s), |s.key|;
      && |d| == 18 + n && Word16(d, 0, n) && d[2..2 + n] == s.key
      && d[2 + n + i] == s.left / Pow256(i) % 256 && d[10 + n + i] == s.right / Pow256(i) % 256
  {
    var d, n, l, r := SepData(s), |s.key|, EncodeLE(s.left, 8), EncodeLE(s.right, 8);
    SepParts(s.key, l, r);
    U16Format(d, 0, n);
    assert d[2 + n + i] == d[2 + n..10 + n][i] && d[10 + n + i] == d[10 + n..18 + n][i];
    DigitLE(s.left, 8, i);
    DigitLE(s.right, 8, i);
  }

  /** The metadata page up to the root pages: the LSN, the current tree, the number of roots, and each tree with its root. */
  lemma {:induction false} MetaHeadFormat(m: MetaData, roots: seq<nat>, firsts: seq<nat>, i: nat)
    requires Visits(roots, m.roots.Keys) && Visits(firsts, m.firstLeaves.Keys) && i < |roots|
    ensures var ws := Words(m, roots, firsts);
      && |roots| == |m.roots| && |ws| >= 3 + 2 * |roots| && ws[0] == m.lsn && ws[1] == m.currTree && ws[2] == |roots|
      && roots[i] in m.roots && ws[3 + 2 * i] == roots[i] && ws[4 + 2 * i] == m.roots[roots[i]]
  {
    VisitsSize(roots, m.roots.Keys);
    TwoHalves(m, roots, firsts);
    assert roots[i] in roots;
    PairsAt(m.roots, roots, |roots|, i);
  }

  /** The rest: the largest page id, the free pages, and each tree with its first leaf. */
  lemma {:induction false} MetaTailFormat(m: MetaData, roots: seq<nat>, firsts: seq<nat>, i: nat)
    requires Visits(roots, m.roots.Keys) && Visits(firsts, m.firstLeaves.Keys) && i < |firsts|
    ensures var ws, at, f := Words(m, roots, firsts), 3 + 2 * |roots|, |m.free|;
      && |firsts| == |m.firstLeaves| && |ws| == at + 3 + f + 2 * |firsts|
      && ws[at] == m.maxId && ws[at + 1] == f && ws[at + 2..at + 2 + f] == m.free && ws[at + 2 + f] == |firsts|
      && firsts[i] in m.firstLeaves && ws[at + 3 + f + 2 * i] == firsts[i] && ws[at + 4 + f + 2 * i] == m.firstLeaves[firsts[i]]
  {
    VisitsSize(firsts, m.firstLeaves.Keys);
    TwoHalves(m, roots, firsts);
    var ws, at := Words(m, roots, firsts), 3 + 2 * |roots|;
    assert ws[at..] == TailWords(m, firsts);
    TailParts(m, firsts, ws, at);
    assert firsts[i] in firsts;
    PairAt(ws, at + 3 + |m.free|, m.firstLeaves, firsts, i);
  }
}
