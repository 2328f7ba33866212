/** When Insert is right: an exact condition for one write to be the map update on a well-formed tree. */
module TreeInsert {
  import opened Bytes
  import opened Assoc
  import opened Pages
  import opened Allocator
  import opened Trees
  import opened TreeStructure

  // --------------------------------------------------------- what is promised

  /**
   The write of (k, v) into a subtree did its job: well formed within the old bounds, holding the old elements
   with k put to v, and owning every old page and every page it took (nothing is lost).
   */
  ghost predicate Correct(t: Tree, h: nat, lo: Option<Bytes>, hi: Option<Bytes>, k: Bytes, v: Bytes, st: Step) {
    match st.out
    case Crash => false
    case Whole(c) =>
      WF(c, h, lo, hi) && Flat(c) == Put(Flat(t), k, v) && Pids(t) + st.taken <= Pids(c)
    case Split(l, sep, r) =>
      && Above(lo, sep) && Below(sep, hi) && WF(l, h, lo, Some(sep)) && WF(r, h, Some(sep), hi)
      && Flat(l) + Flat(r) == Put(Flat(t), k, v) && Pids(t) + st.taken <= Pids(l) + Pids(r)
  }

  /** The same for the whole tree; its height grows by one exactly when the root page changes. */
  ghost predicate RootCorrect(t: Tree, h: nat, k: Bytes, v: Bytes, st: Step) {
    && st.out.Whole?
    && WF(st.out.t, if st.out.t.pid == t.pid then h else h + 1, None, None)
    && Flat(st.out.t) == Put(Flat(t), k, v)
    && Pids(t) + st.taken <= Pids(st.out.t)
  }

  // ------------------------------------------------------------ the condition

  /** The halves are in range, the new page reads as a leaf and the chosen half takes the element. */
  predicate LeafSplitOk(p: Leaf, k: Bytes, v: Bytes, right: PageId, stale: set<PageId>)
    requires |p.slots| == |p.elems|
  {
    var idx := SplitIndex(p.slots);
    && idx < |p.elems|
    && right !in stale
    && HalfFits(if Lt(k, p.elems[idx].key) then p.elems[..idx] else p.elems[idx..], ElemSize(KV(k, v)))
  }

  predicate GrowOk(sep: Bytes) {
    SepSize(sep) + SLOT_SIZE <= CAPACITY
  }

  /** An absent key that the page takes, or a present one that needs no split. */
  predicate LeafOk(t: Tree, k: Bytes, v: Bytes, isRoot: bool, al: Alloc, stale: set<PageId>)
    requires t.LeafT? && |t.page.slots| == |t.page.elems|
  {
    var p, n := t.page, ElemSize(KV(k, v));
    if Has(p.elems, k) then
      UpdateFits(p, |p.elems[Pos(p.elems, k)].value|, |v|, n)
    else if StaysWith(p, n) then InsertFits(p, n)
    else LeafOverflowOk(p, k, v, isRoot, al, stale)
  }

  /** The guards of a leaf split, and of the new root above it. */
  predicate LeafOverflowOk(p: Leaf, k: Bytes, v: Bytes, isRoot: bool, al: Alloc, stale: set<PageId>)
    requires |p.slots| == |p.elems|
  {
    if isRoot then LeafSplitOk(p, k, v, NextId(Taken(al)), stale) && GrowOk(p.elems[SplitIndex(p.slots)].key)
    else LeafSplitOk(p, k, v, NextId(al), stale)
  }

  /** Both halves keep a separator, the new page reads as internal and the chosen half takes the separator. */
  predicate NodeSplitOk(keys: seq<Bytes>, sep: Bytes, right: PageId, stale: set<PageId>) {
    var idx := SplitIndex(SepSizes(keys));
    && idx < |keys|
    && right in stale
    && (if Lt(sep, keys[idx]) then idx + 1 < |keys| && SepSize(sep) + SLOT_SIZE <= FreeKeys(keys[..idx])
        else SepSize(sep) + SLOT_SIZE <= FreeKeys(keys[idx + 1..]))
  }

  /** What a node needs to absorb a separator handed up by a child. */
  predicate NodeOk(keys: seq<Bytes>, sep: Bytes, isRoot: bool, al: Alloc, stale: set<PageId>) {
    if SepSize(sep) % U16_LIMIT <= FreeKeys(keys) then SepSize(sep) + SLOT_SIZE <= FreeKeys(keys)
    else if isRoot then
      && NodeSplitOk(keys, sep, NextId(Taken(al)), stale)
      && NextId(al) in stale
      && GrowOk(keys[SplitIndex(SepSizes(keys))])
    else NodeSplitOk(keys, sep, NextId(al), stale)
  }

  /** The guards along the path from t to the leaf of k. */
  ghost predicate WriteOk(t: Tree, k: Bytes, v: Bytes, isRoot: bool, al: Alloc, stale: set<PageId>)
    requires Shaped(t)
    decreases t
  {
    match t
    case LeafT(_, _, _) => LeafOk(t, k, v, isRoot, al, stale)
    case NodeT(_, _, keys, kids) =>
      var i := Route(keys, k);
      var st := Write(kids[i], k, v, false, al, stale);
      && WriteOk(kids[i], k, v, false, al, stale)
      && (st.out.Split? ==> NodeOk(keys, st.out.sep, isRoot, st.alloc, stale))
  }

  // -------------------------------------------------------------- leaf splits

  lemma {:induction false} PutAllExact(p: Leaf, idx: nat, right: PageId)
    requires Roomy(p) && idx <= |p.elems|
    ensures Exact(SplitLeft(p, idx, right)) && Exact(SplitRight(p, idx))
  {
    UsedConcat(p.elems[..idx], p.elems[idx..]);
    assert p.elems[..idx] + p.elems[idx..] == p.elems;
  }

  lemma {:induction false} InsertIsPut(s: seq<KV>, k: Bytes, v: Bytes)
    requires !Has(s, k)
    ensures InsertElem(s, KV(k, v)) == Put(s, k, v) && |Put(s, k, v)| == |s| + 1
  {
  }

  lemma {:induction false} PutWithin(s: seq<KV>, k: Bytes, v: Bytes, lo: Option<Bytes>, hi: Option<Bytes>)
    requires Within(s, lo, hi) && InRange(k, lo, hi)
    ensures Within(Put(s, k, v), lo, hi)
  {
    PutElements(s, k, v);
  }

  /** A leaf page that takes an absent key holds the put list. */
  lemma {:induction false} LeafTakes(p: Leaf, k: Bytes, v: Bytes, lo: Option<Bytes>, hi: Option<Bytes>)
    requires Roomy(p) && Sorted(p.elems) && Within(p.elems, lo, hi) && InRange(k, lo, hi) && !Has(p.elems, k)
    requires LeafInsert(p, k, v).Done?
    ensures var q := LeafInsert(p, k, v).page;
      && Roomy(q) && q.elems == Put(p.elems, k, v) && Sorted(q.elems) && Within(q.elems, lo, hi) && q.next == p.next
  {
    InsertRoomy(p, k, v);
    InsertIsPut(p.elems, k, v);
    PutSorted(p.elems, k, v);
    PutWithin(p.elems, k, v, lo, hi);
  }

  /** The two halves of a sorted list around the first key of the right one. */
  lemma {:induction false} HalvesSorted(s: seq<KV>, idx: nat, lo: Option<Bytes>, hi: Option<Bytes>)
    requires Sorted(s) && Within(s, lo, hi) && 0 < idx < |s|
    ensures s == s[..idx] + s[idx..]
    ensures Sorted(s[..idx]) && Within(s[..idx], lo, Some(s[idx].key))
    ensures Sorted(s[idx..]) && Within(s[idx..], Some(s[idx].key), hi)
    ensures Above(lo, s[idx].key) && Below(s[idx].key, hi)
  {
    OrderFacts();
    assert Lt(s[0].key, s[idx].key);
  }

  lemma {:induction false} HasHalf(s: seq<KV>, idx: nat, k: Bytes, v: Bytes)
    requires Sorted(s) && 0 < idx < |s|
    ensures Lt(k, s[idx].key) ==> (Has(s, k) <==> Has(s[..idx], k)) && Put(s, k, v) == Put(s[..idx], k, v) + s[idx..]
    ensures !Lt(k, s[idx].key) ==> (Has(s, k) <==> Has(s[idx..], k)) && Put(s, k, v) == s[..idx] + Put(s[idx..], k, v)
  {
    OrderFacts();
    assert s == [] + s[..idx] + s[idx..] && s == s[..idx] + s[idx..] + [];
    if Lt(k, s[idx].key) {
      PosInContext([], s[..idx], s[idx..], k);
      PutInContext([], s[..idx], s[idx..], k, v);
      assert [] + Put(s[..idx], k, v) == Put(s[..idx], k, v);
    } else {
      PosInContext(s[..idx], s[idx..], [], k);
      PutInContext(s[..idx], s[idx..], [], k, v);
      assert s[..idx] + Put(s[idx..], k, v) + [] == s[..idx] + Put(s[idx..], k, v);
    }
  }

  /** The elements of a split leaf: k is put exactly when the chosen half took it. */
  lemma {:induction false} LeafSplitFlat(t: Tree, k: Bytes, v: Bytes, al: Alloc, stale: set<PageId>)
    requires t.LeafT? && Roomy(t.page) && Sorted(t.page.elems) && !Has(t.page.elems, k)
    ensures var out := LeafSplit(t, k, v, al, stale).out;
      var idx := SplitIndex(t.page.slots);
      out.Split? ==>
        var half := if Lt(k, t.page.elems[idx].key) then SplitLeft(t.page, idx, NextId(al)) else SplitRight(t.page, idx);
        Flat(out.left) + Flat(out.right) ==
          if LeafInsert(half, k, v).Done? then Put(t.page.elems, k, v) else t.page.elems
  {
    var p, r := t.page, NextId(al);
    var idx := SplitIndex(p.slots);
    if idx < |p.elems| {
      HasHalf(p.elems, idx, k, v);
      assert p.elems == p.elems[..idx] + p.elems[idx..];
      InsertIsPut(if Lt(k, p.elems[idx].key) then p.elems[..idx] else p.elems[idx..], k, v);
    }
  }

  ghost predicate LeafFine(p: Leaf, lo: Option<Bytes>, hi: Option<Bytes>) {
    Sorted(p.elems) && Within(p.elems, lo, hi) && Roomy(p)
  }

  /** Both halves are fine leaves, and so is the one that took the element. */
  lemma {:induction false} HalvesFine(p: Leaf, lo: Option<Bytes>, hi: Option<Bytes>, k: Bytes, v: Bytes, r: PageId, idx: nat)
    requires LeafFine(p, lo, hi) && InRange(k, lo, hi) && !Has(p.elems, k) && 0 < idx < |p.elems|
    ensures var sep := p.elems[idx].key;
      var left, right := SplitLeft(p, idx, r), SplitRight(p, idx);
      && LeafFine(left, lo, Some(sep)) && LeafFine(right, Some(sep), hi) && Above(lo, sep) && Below(sep, hi)
      && (Lt(k, sep) && LeafInsert(left, k, v).Done? ==> LeafFine(LeafInsert(left, k, v).page, lo, Some(sep)))
      && (!Lt(k, sep) && LeafInsert(right, k, v).Done? ==> LeafFine(LeafInsert(right, k, v).page, Some(sep), hi))
  {
    var sep := p.elems[idx].key;
    var left, right := SplitLeft(p, idx, r), SplitRight(p, idx);
    HalvesSorted(p.elems, idx, lo, hi);
    PutAllExact(p, idx, r);
    HasHalf(p.elems, idx, k, v);
    if Lt(k, sep) {
      if LeafInsert(left, k, v).Done? {
        LeafTakes(left, k, v, lo, Some(sep));
      }
    } else if LeafInsert(right, k, v).Done? {
      LeafTakes(right, k, v, Some(sep), hi);
    }
  }

  /** The room of the chosen half. */
  lemma {:induction false} ChosenHalf(p: Leaf, k: Bytes, v: Bytes, r: PageId, idx: nat)
    requires |p.slots| == |p.elems| && idx < |p.elems|
    ensures var inLeft := Lt(k, p.elems[idx].key);
      LeafInsert(if inLeft then SplitLeft(p, idx, r) else SplitRight(p, idx), k, v).Done? <==>
        HalfFits(if inLeft then p.elems[..idx] else p.elems[idx..], ElemSize(KV(k, v)))
  {
    HalfFitsIff(p.elems[..idx], p.slots[..idx], r, k, v);
    HalfFitsIff(p.elems[idx..], p.slots[idx..], p.next, k, v);
  }

  /** A split whose guards hold gives two fine leaves. */
  lemma {:induction false} LeafSplitFine(t: Tree, lo: Option<Bytes>, hi: Option<Bytes>, k: Bytes, v: Bytes, al: Alloc, stale: set<PageId>)
    requires t.LeafT? && LeafFine(t.page, lo, hi) && InRange(k, lo, hi) && !Has(t.page.elems, k)
    requires LeafSplitOk(t.page, k, v, NextId(al), stale)
    ensures var out := LeafSplit(t, k, v, al, stale).out;
      && out.Split? && out.left.LeafT? && out.right.LeafT? && Above(lo, out.sep) && Below(out.sep, hi)
      && LeafFine(out.left.page, lo, Some(out.sep)) && LeafFine(out.right.page, Some(out.sep), hi)
      && out.left.pid == t.pid && out.right.pid == NextId(al)
      && out.left.internal == t.internal && !out.right.internal
      && out.left.page.next == NextId(al) && out.right.page.next == t.page.next
  {
    ChosenHalf(t.page, k, v, NextId(al), SplitIndex(t.page.slots));
    HalvesFine(t.page, lo, hi, k, v, NextId(al), SplitIndex(t.page.slots));
  }

  lemma {:induction false} LeafSplitCorrect(t: Tree, lo: Option<Bytes>, hi: Option<Bytes>, k: Bytes, v: Bytes, al: Alloc,
                                            stale: set<PageId>)
    requires t.LeafT? && WF(t, 0, lo, hi) && InRange(k, lo, hi) && !Has(t.page.elems, k)
    requires LeafSplitOk(t.page, k, v, NextId(al), stale)
    ensures Correct(t, 0, lo, hi, k, v, LeafSplit(t, k, v, al, stale))
  {
    LeafSplitFine(t, lo, hi, k, v, al, stale);
    LeafSplitFlat(t, k, v, al, stale);
    ChosenHalf(t.page, k, v, NextId(al), SplitIndex(t.page.slots));
  }

  /** Splitting a leaf for an absent key is right if and only if the guards of the split hold. */
  lemma {:induction false} LeafSplitIff(t: Tree, lo: Option<Bytes>, hi: Option<Bytes>, k: Bytes, v: Bytes, al: Alloc, stale: set<PageId>)
    requires t.LeafT? && WF(t, 0, lo, hi) && InRange(k, lo, hi) && !Has(t.page.elems, k)
    ensures Correct(t, 0, lo, hi, k, v, LeafSplit(t, k, v, al, stale)) <==> LeafSplitOk(t.page, k, v, NextId(al), stale)
  {
    if LeafSplitOk(t.page, k, v, NextId(al), stale) {
      LeafSplitCorrect(t, lo, hi, k, v, al, stale);
    } else {
      LeafSplitFlat(t, k, v, al, stale);
      InsertIsPut(t.page.elems, k, v);
      if SplitIndex(t.page.slots) < |t.page.elems| {
        ChosenHalf(t.page, k, v, NextId(al), SplitIndex(t.page.slots));
      }
    }
  }

  /** An update that has to split is never right: the old value stays in front of the new one. */
  lemma {:induction false} UpdateSplitWrong(t: Tree, lo: Option<Bytes>, hi: Option<Bytes>, k: Bytes, v: Bytes, al: Alloc,
                                            stale: set<PageId>)
    requires t.LeafT? && WF(t, 0, lo, hi) && Has(t.page.elems, k)
    requires |t.page.elems[Pos(t.page.elems, k)].value| < |v|
    ensures !Correct(t, 0, lo, hi, k, v, LeafSplit(t, k, v, al, stale))
  {
    PutElements(t.page.elems, k, v);
    SplitGrowsOrStays(t, k, v, al, stale);
  }

  lemma {:induction false} SplitGrowsOrStays(t: Tree, k: Bytes, v: Bytes, al: Alloc, stale: set<PageId>)
    requires t.LeafT? && |t.page.slots| == |t.page.elems|
    ensures var out := LeafSplit(t, k, v, al, stale).out;
      out.Split? ==> var s := Flat(out.left) + Flat(out.right); s == t.page.elems || |s| == |t.page.elems| + 1
  {
    var p, r := t.page, NextId(al);
    var idx := SplitIndex(p.slots);
    if idx < |p.elems| {
      assert p.elems == p.elems[..idx] + p.elems[idx..];
    }
  }

  // ---------------------------------------------------------------- new roots

  lemma {:induction false} OneKey(sep: Bytes, l: Tree, r: Tree, h: nat, lo: Option<Bytes>, hi: Option<Bytes>)
    ensures UsedKeys([sep]) == SepSize(sep) + SLOT_SIZE
    ensures KidsWF([sep], [l, r], h, lo, hi) <==>
      Above(lo, sep) && Below(sep, hi) && WF(l, h, lo, Some(sep)) && WF(r, h, Some(sep), hi)
  {
    assert UsedKeysTo([sep], 1) == UsedKeysTo([sep], 0) + SepSize(sep) + SLOT_SIZE;
    var keys, kids := [sep], [l, r];
    assert LoOf(keys, lo, 0) == lo && HiOf(keys, hi, 0) == Some(sep);
    assert LoOf(keys, lo, 1) == Some(sep) && HiOf(keys, hi, 1) == hi;
    if WF(l, h, lo, Some(sep)) && WF(r, h, Some(sep), hi) {
      forall i | 0 <= i < |kids| ensures WF(kids[i], h, LoOf(keys, lo, i), HiOf(keys, hi, i)) {
        assert i == 0 || i == 1;
      }
    }
    assert KidsWF(keys, kids, h, lo, hi) ==> WF(kids[0], h, lo, Some(sep)) && WF(kids[1], h, Some(sep), hi);
  }

  /** A new root over a split is right if and only if the split is, its page reads as internal and the key fits. */
  lemma {:induction false} GrowIff(t: Tree, h: nat, k: Bytes, v: Bytes, root: PageId, internal: bool, st: Step)
    requires root !in Pids(t) + st.taken && !st.out.Whole?
    ensures RootCorrect(t, h, k, v, Grow(root, internal, st)) <==>
      Correct(t, h, None, None, k, v, st) && internal && GrowOk(st.out.sep)
  {
    if st.out.Split? {
      var l, sep, r := st.out.left, st.out.sep, st.out.right;
      OneKey(sep, l, r, h, None, None);
      FlatTwo(l, r);
      PidsTwo(l, r);
    }
  }

  // -------------------------------------------------------------- leaf writes

  lemma {:induction false} LeafUpdateRight(t: Tree, lo: Option<Bytes>, hi: Option<Bytes>, k: Bytes, v: Bytes)
    requires t.LeafT? && WF(t, 0, lo, hi) && InRange(k, lo, hi) && Has(t.page.elems, k)
    requires var was := t.page.elems[Pos(t.page.elems, k)].value;
      HasSpaceToUpdate(t.page, k, was, v) && SetValue(CheckedUpdate(t.page, k, was, v), k, v).Done?
    ensures var was := t.page.elems[Pos(t.page.elems, k)].value;
      var q := SetValue(CheckedUpdate(t.page, k, was, v), k, v).page;
      && q.elems == Put(t.page.elems, k, v) && q.next == t.page.next
      && WF(t.(page := q), 0, lo, hi)
  {
    var p := t.page;
    var was := p.elems[Pos(p.elems, k)].value;
    CompactExact(p);
    var c := CheckedUpdate(p, k, was, v);
    assert c.elems == p.elems && Roomy(c);
    SetValueRoomy(c, k, v);
    PutSorted(p.elems, k, v);
    PutWithin(p.elems, k, v, lo, hi);
  }

  /** The leaf case without a split. */
  lemma {:induction false} LeafStayIff(t: Tree, lo: Option<Bytes>, hi: Option<Bytes>, k: Bytes, v: Bytes, isRoot: bool, al: Alloc,
                                       stale: set<PageId>)
    requires t.LeafT? && WF(t, 0, lo, hi) && InRange(k, lo, hi)
    requires if Has(t.page.elems, k) then HasSpaceToUpdate(t.page, k, t.page.elems[Pos(t.page.elems, k)].value, v)
             else HasSpace(t.page, ElemSize(KV(k, v)))
    ensures var st := WriteLeaf(t, k, v, isRoot, al, stale);
      && (Correct(t, 0, lo, hi, k, v, st) <==> LeafOk(t, k, v, isRoot, al, stale))
      && !st.out.Split? && st.taken == {} && (st.out.Whole? ==> st.out.t.LeafT? && st.out.t.pid == t.pid)
      && (LeafOk(t, k, v, isRoot, al, stale) ==> st.out.t.page.next == t.page.next)
  {
    if Has(t.page.elems, k) {
      UpdateFitsIff(t.page, k, v);
      if LeafOk(t, k, v, isRoot, al, stale) {
        LeafUpdateRight(t, lo, hi, k, v);
      }
    } else {
      LeafAddIff(t, lo, hi, k, v, isRoot, al, stale);
    }
  }

  lemma {:induction false} LeafAddIff(t: Tree, lo: Option<Bytes>, hi: Option<Bytes>, k: Bytes, v: Bytes, isRoot: bool, al: Alloc,
                                      stale: set<PageId>)
    requires t.LeafT? && WF(t, 0, lo, hi) && InRange(k, lo, hi)
    requires !Has(t.page.elems, k) && HasSpace(t.page, ElemSize(KV(k, v)))
    ensures var st := WriteLeaf(t, k, v, isRoot, al, stale);
      && (Correct(t, 0, lo, hi, k, v, st) <==> LeafOk(t, k, v, isRoot, al, stale))
      && (LeafOk(t, k, v, isRoot, al, stale) ==> st.out.t.page.next == t.page.next)
  {
    var p := t.page;
    CompactExact(p);
    InsertFitsIff(p, k, v);
    InsertIsPut(p.elems, k, v);
    var c := Checked(p, ElemSize(KV(k, v)));
    if LeafInsert(c, k, v).Done? {
      LeafTakes(c, k, v, lo, hi);
    }
  }

  /** The leaf case below an internal node. */
  lemma {:induction false} WriteLeafIff(t: Tree, lo: Option<Bytes>, hi: Option<Bytes>, k: Bytes, v: Bytes, al: Alloc, stale: set<PageId>)
    requires t.LeafT? && WF(t, 0, lo, hi) && InRange(k, lo, hi)
    ensures Correct(t, 0, lo, hi, k, v, WriteLeaf(t, k, v, false, al, stale)) <==> LeafOk(t, k, v, false, al, stale)
  {
    if Has(t.page.elems, k) {
      var was := t.page.elems[Pos(t.page.elems, k)].value;
      if HasSpaceToUpdate(t.page, k, was, v) {
        LeafStayIff(t, lo, hi, k, v, false, al, stale);
      } else {
        UpdateSplitWrong(t, lo, hi, k, v, al, stale);
      }
    } else if HasSpace(t.page, ElemSize(KV(k, v))) {
      LeafStayIff(t, lo, hi, k, v, false, al, stale);
    } else {
      LeafSplitIff(t, lo, hi, k, v, al, stale);
    }
  }

  lemma {:induction false} RootGrows(t: Tree, k: Bytes, v: Bytes, al: Alloc, stale: set<PageId>)
    requires t.LeafT? && WF(t, 0, None, None) && Sound(al, Pids(t))
    ensures var st := LeafSplit(t, k, v, Taken(al), stale);
      RootCorrect(t, 0, k, v, LeafOverflow(t, k, v, true, al, stale)) <==> Correct(t, 0, None, None, k, v, st) && GrowOk(st.out.sep)
  {
    AllocateSound(al, Pids(t));
    AllocateSound(Taken(al), Pids(t) + {NextId(al)});
    GrowIff(t, 0, k, v, NextId(al), true, LeafSplit(t, k, v, Taken(al), stale));
  }

  /** A leaf root that splits. */
  lemma {:induction false} RootOverflowIff(t: Tree, k: Bytes, v: Bytes, al: Alloc, stale: set<PageId>)
    requires t.LeafT? && WF(t, 0, None, None) && Sound(al, Pids(t)) && !Has(t.page.elems, k)
    ensures RootCorrect(t, 0, k, v, LeafOverflow(t, k, v, true, al, stale)) <==> LeafOverflowOk(t.page, k, v, true, al, stale)
  {
    RootGrows(t, k, v, al, stale);
    LeafSplitIff(t, None, None, k, v, Taken(al), stale);
  }

  /** The leaf case at the root. */
  lemma {:induction false} RootLeafIff(t: Tree, k: Bytes, v: Bytes, al: Alloc, stale: set<PageId>)
    requires t.LeafT? && WF(t, 0, None, None) && Sound(al, Pids(t))
    ensures RootCorrect(t, 0, k, v, WriteLeaf(t, k, v, true, al, stale)) <==> LeafOk(t, k, v, true, al, stale)
  {
    var p := t.page;
    if (if Has(p.elems, k) then HasSpaceToUpdate(p, k, p.elems[Pos(p.elems, k)].value, v) else HasSpace(p, ElemSize(KV(k, v)))) {
      LeafStayIff(t, None, None, k, v, true, al, stale);
    } else if Has(p.elems, k) {
      RootGrows(t, k, v, al, stale);
      UpdateSplitWrong(t, None, None, k, v, Taken(al), stale);
    } else {
      RootOverflowIff(t, k, v, al, stale);
    }
  }
}
