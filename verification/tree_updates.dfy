/** Insert of a key that is already there: when it updates the value in its leaf, and when it splits the leaf instead. */
module TreeUpdates {
  import opened Bytes
  import opened Assoc
  import opened Pages
  import opened Allocator
  import opened Trees
  import opened TreeStructure
  import opened TreeInsert
  import opened TreeTheorems
  import TreeRuns

  /** The leaf of a present key, as a leaf of the tree. */
  ghost predicate Present(t: Tree, k: Bytes)
    requires Shaped(t)
  {
    var leaf := LeafFor(t, k);
    leaf.LeafT? && Has(leaf.page.elems, k)
  }

  ghost function ValueOf(t: Tree, k: Bytes): Bytes
    requires Shaped(t) && Present(t, k)
  {
    var elems := LeafFor(t, k).page.elems;
    elems[Pos(elems, k)].value
  }

  /** The leaf has room for the value: arithmetic on the lengths and the counters of its page. */
  ghost predicate RoomFor(t: Tree, k: Bytes, v: Bytes)
    requires Shaped(t) && Present(t, k)
  {
    UpdateFits(LeafFor(t, k).page, |ValueOf(t, k)|, |v|, ElemSize(KV(k, v)))
  }

  /** A key of the view is present in its leaf. */
  lemma {:induction false} KeyPresent(t: Tree, h: nat, lo: Option<Bytes>, hi: Option<Bytes>, k: Bytes)
    requires WF(t, h, lo, hi) && Shaped(t)
    ensures LeafFor(t, k).LeafT? && (Present(t, k) <==> Lookup(Flat(t), k).Some?)
    ensures Present(t, k) ==> Lookup(Flat(t), k) == Some(ValueOf(t, k))
    decreases t
  {
    if t.NodeT? {
      var i := Route(t.keys, k);
      KeyPresent(t.kids[i], h - 1, LoOf(t.keys, lo, i), HiOf(t.keys, hi, i), k);
      LookupKid(t, h, lo, hi, k);
    }
  }

  /** The guards along the path to a present key come down to the room in its leaf, and then no page splits. */
  lemma {:induction false} UpdateGuard(t: Tree, h: nat, lo: Option<Bytes>, hi: Option<Bytes>, k: Bytes, v: Bytes, isRoot: bool, al: Alloc,
                                       stale: set<PageId>)
    requires WF(t, h, lo, hi) && Shaped(t) && Present(t, k)
    ensures WriteOk(t, k, v, isRoot, al, stale) <==> RoomFor(t, k, v)
    ensures RoomFor(t, k, v) ==> var st := Write(t, k, v, isRoot, al, stale); st.out.Whole? && st.taken == {} && st.alloc == al
    decreases t
  {
    if t.LeafT? {
      UpdateFitsIff(t.page, k, v);
    } else {
      var i := Route(t.keys, k);
      UpdateGuard(t.kids[i], h - 1, LoOf(t.keys, lo, i), HiOf(t.keys, hi, i), k, v, false, al, stale);
    }
  }

  /** A leaf without the room is split, whatever page the split takes. */
  lemma {:induction false} NoRoomSplits(p: Leaf, pid: PageId, internal: bool, k: Bytes, v: Bytes, isRoot: bool, al: Alloc, stale: set<PageId>)
    requires Exact(p) && Has(p.elems, k) && ElemSize(KV(k, v)) < U16_LIMIT
    ensures var was, n, t := p.elems[Pos(p.elems, k)].value, ElemSize(KV(k, v)), LeafT(pid, internal, p);
      !(|v| <= |was| || n <= p.free || n <= p.garbage) ==> WriteLeaf(t, k, v, isRoot, al, stale) == LeafOverflow(t, k, v, isRoot, al, stale)
  {
    UpdateLandsIff(p, k, v);
  }

  /** Then the write takes a page, at whatever depth the leaf is. */
  lemma {:induction false} NoRoomTakes(t: Tree, k: Bytes, v: Bytes, isRoot: bool, al: Alloc, stale: set<PageId>)
    requires Shaped(t) && Present(t, k) && Exact(LeafFor(t, k).page) && ElemSize(KV(k, v)) < U16_LIMIT
    requires var p, n := LeafFor(t, k).page, ElemSize(KV(k, v)); !(|v| <= |ValueOf(t, k)| || n <= p.free || n <= p.garbage)
    ensures Write(t, k, v, isRoot, al, stale).taken != {}
    decreases t
  {
    if t.LeafT? {
      NoRoomSplits(t.page, t.pid, t.internal, k, v, isRoot, al, stale);
      assert NextId(al) in LeafOverflow(t, k, v, isRoot, al, stale).taken;
    } else {
      NoRoomTakes(t.kids[Route(t.keys, k)], k, v, false, al, stale);
    }
  }

  /**
   Insert of a present key whose leaf has exact accounting. If the new value is not longer, or the new element fits the
   free bytes or the counted garbage of the leaf, Insert puts the value, takes no page and keeps every other binding.
   Otherwise it takes a page to split the leaf and is wrong.
   */
  lemma {:induction false} UpdateExactly(db: TreeRuns.Db, h: nat, k: Bytes, v: Bytes, stale: set<PageId>)
    requires TreeRuns.Inv(db) && db.tree.Some? && WF(db.tree.value, h, None, None) && LeafFor(db.tree.value, k).LeafT?
    requires Lookup(TreeRuns.View(db), k).Some? && Exact(LeafFor(db.tree.value, k).page) && ElemSize(KV(k, v)) < U16_LIMIT
    ensures var t := db.tree.value;
      var p, was, n := LeafFor(t, k).page, Lookup(TreeRuns.View(db), k).value, ElemSize(KV(k, v));
      var r := TreeRuns.Apply(db, TreeRuns.Insert(k, v), stale);
      if |v| <= |was| || n <= p.free || n <= p.garbage then
        && r.Some? && r.value.1 == TreeRuns.Stored && TreeRuns.Inv(r.value.0) && r.value.0.alloc == db.alloc
        && TreeRuns.View(r.value.0) == Put(TreeRuns.View(db), k, v)
      else Write(t, k, v, true, db.alloc, stale).taken != {} && !RootCorrect(t, h, k, v, Write(t, k, v, true, db.alloc, stale))
  {
    var t := db.tree.value;
    KeyPresent(t, h, None, None, k);
    UpdateLandsIff(LeafFor(t, k).page, k, v);
    UpdateGuard(t, h, None, None, k, v, true, db.alloc, stale);
    if RoomFor(t, k, v) {
      TreeRuns.InsertCorrect(db, k, v, stale);
    } else {
      NoRoomTakes(t, k, v, true, db.alloc, stale);
      InsertIff(t, h, k, v, db.alloc, stale);
    }
  }

  // ---------------------------------------------------------------- absent keys

  lemma {:induction false} DropInLeaf(t: Tree, lo: Option<Bytes>, hi: Option<Bytes>, k: Bytes, v: Bytes, isRoot: bool, al: Alloc,
                                      stale: set<PageId>)
    requires t.LeafT? && WF(t, 0, lo, hi) && !Has(t.page.elems, k) && ElemSize(KV(k, v)) + SLOT_SIZE < U16_LIMIT
    requires Exact(t.page) && StaysWith(t.page, ElemSize(KV(k, v))) && !InsertFits(t.page, ElemSize(KV(k, v)))
    ensures var out := WriteLeaf(t, k, v, isRoot, al, stale).out; out.Whole? && out.t.LeafT? && Flat(out.t) == Flat(t)
  {
    var p, n := t.page, ElemSize(KV(k, v));
    InsertFitsIff(p, k, v);
    CompactExact(p);
    SmallMod(n);
    SmallMod(n + SLOT_SIZE);
  }

  /**
   The guards along the path to an absent key whose leaf passes the space check come down to the room in the leaf; no
   page splits, and without the room the tree keeps its elements.
   */
  lemma {:induction false} AddGuard(t: Tree, h: nat, lo: Option<Bytes>, hi: Option<Bytes>, k: Bytes, v: Bytes, isRoot: bool, al: Alloc,
                                    stale: set<PageId>)
    requires WF(t, h, lo, hi) && Shaped(t) && LeafFor(t, k).LeafT? && !Present(t, k) && Exact(LeafFor(t, k).page)
    requires StaysWith(LeafFor(t, k).page, ElemSize(KV(k, v))) && ElemSize(KV(k, v)) + SLOT_SIZE < U16_LIMIT
    ensures WriteOk(t, k, v, isRoot, al, stale) <==> InsertFits(LeafFor(t, k).page, ElemSize(KV(k, v)))
    ensures var st := Write(t, k, v, isRoot, al, stale);
      && st.out.Whole? && st.alloc == al
      && (!InsertFits(LeafFor(t, k).page, ElemSize(KV(k, v))) ==> Flat(st.out.t) == Flat(t))
    decreases t
  {
    if t.LeafT? {
      InsertFitsIff(t.page, k, v);
      if !InsertFits(t.page, ElemSize(KV(k, v))) {
        DropInLeaf(t, lo, hi, k, v, isRoot, al, stale);
      }
    } else {
      var i := Route(t.keys, k);
      AddGuard(t.kids[i], h - 1, LoOf(t.keys, lo, i), HiOf(t.keys, hi, i), k, v, false, al, stale);
      if !InsertFits(LeafFor(t, k).page, ElemSize(KV(k, v))) {
        KidFlat(t.kids, i, Write(t.kids[i], k, v, false, al, stale).out.t);
      }
    }
  }

  lemma {:induction false} KidFlat(kids: seq<Tree>, i: nat, c: Tree)
    requires i < |kids| && Flat(c) == Flat(kids[i])
    ensures FlatAll(kids[i := c]) == FlatAll(kids)
  {
    FlatAt(kids, i);
    FlatAt(kids[i := c], i);
    assert kids[i := c][..i] == kids[..i] && kids[i := c][i + 1..] == kids[i + 1..];
  }

  /**
   Insert of an absent key whose leaf has exact accounting and passes the space check, which leaves out the slot. With
   the element in the free bytes, the key is stored if and only if the slot fits them too or both fit the garbage; with
   the element only in the garbage, if and only if both fit what compaction gives. Otherwise Insert answers Stored and
   the bindings are the old ones.
   */
  lemma {:induction false} AddExactly(db: TreeRuns.Db, h: nat, k: Bytes, v: Bytes, stale: set<PageId>)
    requires TreeRuns.Inv(db) && db.tree.Some? && WF(db.tree.value, h, None, None) && LeafFor(db.tree.value, k).LeafT?
    requires Lookup(TreeRuns.View(db), k).None? && Exact(LeafFor(db.tree.value, k).page) && ElemSize(KV(k, v)) + SLOT_SIZE < U16_LIMIT
    requires var p, n := LeafFor(db.tree.value, k).page, ElemSize(KV(k, v)); n <= p.free || n <= p.garbage
    ensures var p, n := LeafFor(db.tree.value, k).page, ElemSize(KV(k, v));
      var need := n + SLOT_SIZE;
      var r := TreeRuns.Apply(db, TreeRuns.Insert(k, v), stale);
      && r.Some? && r.value.1 == TreeRuns.Stored && r.value.0.alloc == db.alloc
      && TreeRuns.View(r.value.0) ==
         if (if n <= p.free then need <= p.free || need <= p.garbage else need <= p.free + p.garbage) then Put(TreeRuns.View(db), k, v)
         else TreeRuns.View(db)
  {
    var t, n := db.tree.value, ElemSize(KV(k, v));
    KeyPresent(t, h, None, None, k);
    SmallMod(n);
    AddGuard(t, h, None, None, k, v, true, db.alloc, stale);
    if InsertFits(LeafFor(t, k).page, n) {
      TreeRuns.InsertCorrect(db, k, v, stale);
    }
  }
}
