/** Where FindSplitNodeIndex cuts a full page, and why small elements always leave both halves with room. */
module SplitBound {
  import opened Bytes
  import opened Assoc
  import opened Pages
  import opened TreeInsert
  import opened TreeNode

  /** The largest element for which a split is proved to leave room on both sides. */
  const SMALL: int := 673

  function SumTo(sizes: seq<nat>, n: nat): nat
    requires n <= |sizes|
  {
    if n == 0 then 0 else SumTo(sizes, n - 1) + sizes[n - 1]
  }

  lemma {:induction false} SumToMonotone(sizes: seq<nat>, m: nat, n: nat)
    requires m <= n <= |sizes|
    ensures SumTo(sizes, m) <= SumTo(sizes, n)
    decreases n - m
  {
    if m < n {
      SumToMonotone(sizes, m, n - 1);
    }
  }

  /** Without wrap-around the 16-bit total is the total. */
  lemma {:induction false} Sum16Is(sizes: seq<nat>, n: nat)
    requires n <= |sizes| && SumTo(sizes, n) < U16_LIMIT
    ensures Sum16(sizes, n) == SumTo(sizes, n)
  {
    if n > 0 {
      Sum16Is(sizes, n - 1);
    }
  }

  lemma {:induction false} WrapAdd(a: nat, b: nat)
    ensures (a % U16_LIMIT + b) % U16_LIMIT == (a + b) % U16_LIMIT
  {
  }

  /** With wrap-around it is the total modulo 65536. */
  lemma {:induction false} Sum16Wraps(sizes: seq<nat>, n: nat)
    requires n <= |sizes|
    ensures Sum16(sizes, n) == SumTo(sizes, n) % U16_LIMIT
  {
    if n > 0 {
      Sum16Wraps(sizes, n - 1);
      WrapAdd(SumTo(sizes, n - 1), sizes[n - 1]);
    }
  }

  /** The first n sizes, added in 16 bits, do not exceed half of the 16-bit total. */
  ghost predicate WithinHalf(sizes: seq<nat>, n: nat)
    requires n <= |sizes|
  {
    SumTo(sizes, n) % U16_LIMIT <= SumTo(sizes, |sizes|) % U16_LIMIT / 2
  }

  lemma {:induction false} SplitFromWraps(sizes: seq<nat>, i: nat, left: nat)
    requires i <= |sizes| && left == SumTo(sizes, i) % U16_LIMIT
    ensures var idx := SplitFrom(sizes, left, i);
      (forall m | i <= m < idx :: WithinHalf(sizes, m)) && (idx < |sizes| ==> !WithinHalf(sizes, idx))
    decreases |sizes| - i
  {
    Sum16Wraps(sizes, |sizes|);
    if i < |sizes| && WithinHalf(sizes, i) {
      WrapAdd(SumTo(sizes, i), sizes[i]);
      SplitFromWraps(sizes, i + 1, (left + sizes[i]) % U16_LIMIT);
    }
  }

  /** For any sizes the split index is the first prefix above half, or the length of the list. */
  lemma {:induction false} SplitIndexWraps(sizes: seq<nat>)
    ensures var idx := SplitIndex(sizes);
      idx <= |sizes| && (forall m | 0 <= m < idx :: WithinHalf(sizes, m)) && (idx < |sizes| ==> !WithinHalf(sizes, idx))
  {
    SplitFromWraps(sizes, 0, 0);
  }

  lemma {:induction false} SplitFromIs(sizes: seq<nat>, i: nat)
    requires i <= |sizes| && SumTo(sizes, |sizes|) < U16_LIMIT
    ensures var idx, half := SplitFrom(sizes, SumTo(sizes, i), i), SumTo(sizes, |sizes|) / 2;
      && (idx < |sizes| ==> SumTo(sizes, idx) > half)
      && (idx > i ==> SumTo(sizes, idx - 1) <= half)
    decreases |sizes| - i
  {
    Sum16Is(sizes, |sizes|);
    if i < |sizes| && SumTo(sizes, i) <= SumTo(sizes, |sizes|) / 2 {
      SumToMonotone(sizes, i + 1, |sizes|);
      assert (SumTo(sizes, i) + sizes[i]) % U16_LIMIT == SumTo(sizes, i + 1);
      SplitFromIs(sizes, i + 1);
    }
  }

  /** The split index is the first prefix that holds more than half of the bytes. */
  lemma {:induction false} SplitIndexIs(sizes: seq<nat>)
    requires sizes != [] && SumTo(sizes, |sizes|) < U16_LIMIT
    ensures var idx, half := SplitIndex(sizes), SumTo(sizes, |sizes|) / 2;
      && (idx < |sizes| ==> SumTo(sizes, idx) > half)
      && SumTo(sizes, idx - 1) <= half
  {
    SplitFromIs(sizes, 0);
  }

  /**
   Without wrap-around the index is in range, and the split does not panic, if and only if the last recorded slot takes
   less than half of the bytes.
   */
  lemma {:induction false} IndexInRangeIff(sizes: seq<nat>)
    requires sizes != [] && SumTo(sizes, |sizes|) < U16_LIMIT
    ensures SplitIndex(sizes) < |sizes| <==> sizes[|sizes| - 1] < SumTo(sizes, |sizes|) - SumTo(sizes, |sizes|) / 2
  {
    SplitIndexIs(sizes);
    var idx, n := SplitIndex(sizes), |sizes|;
    if idx < n {
      SumToMonotone(sizes, idx, n - 1);
    }
  }

  /** Every size is between lo and hi. */
  ghost predicate Between(sizes: seq<nat>, lo: nat, hi: nat) {
    forall i | 0 <= i < |sizes| :: lo <= sizes[i] <= hi
  }

  lemma {:induction false} SumToAtLeast(sizes: seq<nat>, lo: nat, hi: nat, m: nat, n: nat)
    requires m <= n <= |sizes| && Between(sizes, lo, hi)
    ensures SumTo(sizes, n) >= SumTo(sizes, m) + lo * (n - m)
    decreases n - m
  {
    if m < n {
      SumToAtLeast(sizes, lo, hi, m, n - 1);
      assert lo * (n - m) == lo * (n - 1 - m) + lo;
    }
  }

  /**
   A page whose elements and slots take all but 2 * 672 bytes: the cut is in range, and each side with its slots
   leaves room for one more element of the largest size and its slot.
   */
  lemma {:induction false} LeafCut(sizes: seq<nat>)
    requires Between(sizes, 4, SMALL)
    requires CAPACITY - 2 * (SMALL - 1) <= SumTo(sizes, |sizes|) + SLOT_SIZE * |sizes| <= CAPACITY
    ensures var idx, total := SplitIndex(sizes), SumTo(sizes, |sizes|);
      && 0 < idx < |sizes|
      && SumTo(sizes, idx) + SLOT_SIZE * idx + SMALL + SLOT_SIZE <= CAPACITY
      && (total - SumTo(sizes, idx)) + SLOT_SIZE * (|sizes| - idx) + SMALL + SLOT_SIZE <= CAPACITY
  {
    var n, idx := |sizes|, SplitIndex(sizes);
    assert n > 0;
    SplitIndexIs(sizes);
    SumToAtLeast(sizes, 4, SMALL, 0, n);
    SumToAtLeast(sizes, 4, SMALL, 0, idx - 1);
    SumToAtLeast(sizes, 4, SMALL, idx - 1, n);
    SumToAtLeast(sizes, 4, SMALL, idx, n);
  }

  // -------------------------------------------------------------- leaf pages

  /** The elements take no more than their slots record. */
  lemma {:induction false} CoveredUsed(elems: seq<KV>, slots: seq<nat>, m: nat, n: nat)
    requires Covers(slots, elems) && m <= n <= |elems|
    ensures UsedTo(elems, n) - UsedTo(elems, m) <= SumTo(slots, n) - SumTo(slots, m) + SLOT_SIZE * (n - m)
    decreases n - m
  {
    if m < n {
      CoveredUsed(elems, slots, m, n - 1);
    }
  }

  lemma {:induction false} HalvesUsed(elems: seq<KV>, idx: nat)
    requires idx <= |elems|
    ensures Used(elems[..idx]) == UsedTo(elems, idx) && Used(elems[idx..]) == Used(elems) - UsedTo(elems, idx)
  {
    UsedToConcat(elems[..idx], elems[idx..], 0);
    UsedConcat(elems[..idx], elems[idx..]);
    assert elems[..idx] + elems[idx..] == elems;
  }

  /** Exact accounting, recorded slot sizes of at most 673 bytes, and slots that would fit the page as they are recorded. */
  ghost predicate SmallLeaf(p: Leaf) {
    && Exact(p) && (forall i | 0 <= i < |p.slots| :: p.slots[i] <= SMALL)
    && SumTo(p.slots, |p.slots|) + SLOT_SIZE * |p.slots| <= CAPACITY
  }

  /** Tight slots of small elements are such. */
  lemma {:induction false} TightIsSmall(p: Leaf)
    requires Exact(p) && Tight(p) && forall i | 0 <= i < |p.elems| :: ElemSize(p.elems[i]) <= SMALL
    ensures SmallLeaf(p)
  {
    TightUsed(p.elems, p.slots, |p.elems|);
  }

  lemma {:induction false} TightUsed(elems: seq<KV>, slots: seq<nat>, n: nat)
    requires |slots| == |elems| && n <= |elems| && (forall i | 0 <= i < |elems| :: slots[i] == ElemSize(elems[i]))
    ensures UsedTo(elems, n) == SumTo(slots, n) + SLOT_SIZE * n
  {
    if n > 0 {
      TightUsed(elems, slots, n - 1);
    }
  }

  /**
   Splitting such a leaf that failed the space check for a small element: the index is in range, both halves are
   nonempty and either takes the element, so the only guard left is the kind byte of the new page.
   */
  lemma {:induction false} SmallLeafSplit(p: Leaf, k: Bytes, v: Bytes, right: PageId, stale: set<PageId>)
    requires SmallLeaf(p) && ElemSize(KV(k, v)) <= SMALL && !HasSpace(p, ElemSize(KV(k, v)))
    ensures 0 < SplitIndex(p.slots) < |p.elems|
    ensures LeafInsert(SplitLeft(p, SplitIndex(p.slots), right), k, v).Done?
    ensures LeafInsert(SplitRight(p, SplitIndex(p.slots)), k, v).Done?
    ensures LeafSplitOk(p, k, v, right, stale) <==> right !in stale
  {
    SmallHalves(p, ElemSize(KV(k, v)));
    var idx := SplitIndex(p.slots);
    HalfLands(p.elems[..idx], p.slots[..idx], right, k, v);
    HalfLands(p.elems[idx..], p.slots[idx..], p.next, k, v);
  }

  /** Both halves leave room for one more element of the largest size and its slot. */
  lemma {:induction false} SmallHalves(p: Leaf, n: nat)
    requires SmallLeaf(p) && n <= SMALL && !HasSpace(p, n)
    ensures var idx := SplitIndex(p.slots);
      && 0 < idx < |p.elems|
      && Used(p.elems[..idx]) + SMALL + SLOT_SIZE <= CAPACITY && Used(p.elems[idx..]) + SMALL + SLOT_SIZE <= CAPACITY
  {
    CoveredUsed(p.elems, p.slots, 0, |p.elems|);
    LeafCut(p.slots);
    var idx := SplitIndex(p.slots);
    CoveredUsed(p.elems, p.slots, 0, idx);
    CoveredUsed(p.elems, p.slots, idx, |p.elems|);
    HalvesUsed(p.elems, idx);
  }

  lemma {:induction false} HalfLands(elems: seq<KV>, slots: seq<nat>, next: PageId, k: Bytes, v: Bytes)
    requires |slots| == |elems| && ElemSize(KV(k, v)) <= SMALL && Used(elems) + SMALL + SLOT_SIZE <= CAPACITY
    ensures LeafInsert(PutAll(elems, slots, next), k, v).Done?
  {
  }

  lemma {:induction false} SixUsed(elems: seq<KV>)
    requires |elems| == 6 && forall i | 0 <= i < 6 :: ElemSize(elems[i]) == SMALL
    ensures Used(elems) == 6 * (SMALL + SLOT_SIZE)
  {
    assert UsedTo(elems, 1) == UsedTo(elems, 0) + SMALL + SLOT_SIZE;
    assert UsedTo(elems, 3) == UsedTo(elems, 1) + 2 * (SMALL + SLOT_SIZE);
    assert UsedTo(elems, 5) == UsedTo(elems, 3) + 2 * (SMALL + SLOT_SIZE);
  }

  /**
   Small elements alone are not enough: six elements of 673 bytes, the last of which was updated in place from 4000
   bytes and still records that size. The space check fails, the index is the number of elements, and the split panics.
   */
  lemma {:induction false} LooseSplitPanics(elems: seq<KV>, next: PageId)
    requires |elems| == 6 && forall i | 0 <= i < 6 :: ElemSize(elems[i]) == SMALL
    ensures var p := Leaf(elems, [SMALL, SMALL, SMALL, SMALL, SMALL, 4000], 2, 0, next);
      Exact(p) && !HasSpace(p, SMALL) && SplitIndex(p.slots) == |p.elems|
  {
    var slots := [SMALL, SMALL, SMALL, SMALL, SMALL, 4000];
    SixUsed(elems);
    assert SumTo(slots, 1) == SumTo(slots, 0) + SMALL;
    assert SumTo(slots, 3) == SumTo(slots, 1) + 2 * SMALL;
    assert SumTo(slots, 5) == SumTo(slots, 3) + 2 * SMALL;
    assert SumTo(slots, 6) == SumTo(slots, 5) + 4000;
    IndexInRangeIff(slots);
  }

  // ---------------------------------------------------------- internal pages

  /** The largest separator element a small leaf element can promote. */
  const SMALL_SEP: int := SMALL + 14

  lemma {:induction false} KeysUsed(keys: seq<Bytes>, n: nat)
    requires n <= |keys|
    ensures UsedKeysTo(keys, n) == SumTo(SepSizes(keys), n) + SLOT_SIZE * n
  {
    if n > 0 {
      KeysUsed(keys, n - 1);
    }
  }

  /** The same for separators, one of which moves up: at least one stays on each side. */
  lemma {:induction false} NodeCut(sizes: seq<nat>)
    requires Between(sizes, 18, SMALL_SEP)
    requires CAPACITY - SMALL_SEP < SumTo(sizes, |sizes|) + SLOT_SIZE * |sizes| <= CAPACITY
    ensures var idx, total := SplitIndex(sizes), SumTo(sizes, |sizes|);
      && 0 < idx < |sizes| - 1
      && SumTo(sizes, idx) + SLOT_SIZE * idx + SMALL_SEP + SLOT_SIZE <= CAPACITY
      && (total - SumTo(sizes, idx)) + SLOT_SIZE * (|sizes| - idx) + SMALL_SEP <= CAPACITY
  {
    var n, idx := |sizes|, SplitIndex(sizes);
    assert n > 1;
    SplitIndexIs(sizes);
    SumToAtLeast(sizes, 18, SMALL_SEP, 0, n);
    SumToAtLeast(sizes, 18, SMALL_SEP, 0, idx - 1);
    SumToAtLeast(sizes, 18, SMALL_SEP, idx - 1, n);
    SumToAtLeast(sizes, 18, SMALL_SEP, idx, n);
    assert SumTo(sizes, n) == SumTo(sizes, n - 2) + sizes[n - 2] + sizes[n - 1];
    SumToMonotone(sizes, if n - 2 <= idx - 1 then n - 2 else 0, idx - 1);
  }

  /** An internal page of small separators always splits well, except for the kind byte of the new page. */
  lemma {:induction false} SmallNodeSplit(keys: seq<Bytes>, sep: Bytes, right: PageId, stale: set<PageId>)
    requires (forall i | 0 <= i < |keys| :: SepSize(keys[i]) <= SMALL_SEP) && SepSize(sep) <= SMALL_SEP
    requires FreeKeys(keys) >= 0 && !Adequate(FreeKeys(keys), SepSize(sep))
    ensures NodeSplitOk(keys, sep, right, stale) <==> right in stale
  {
    var sizes := SepSizes(keys);
    KeysUsed(keys, |keys|);
    NodeCut(sizes);
    var idx := SplitIndex(sizes);
    KeysUsed(keys, idx);
    UsedKeysPrefix(keys[..idx], keys[idx..], idx);
    UsedKeysConcat(keys[..idx], keys[idx..]);
    UsedKeysConcat(keys[idx..idx + 1], keys[idx + 1..]);
    assert keys[..idx] + keys[idx..] == keys;
    assert keys[idx..idx + 1] + keys[idx + 1..] == keys[idx..];
  }
}
