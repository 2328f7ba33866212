/**
 Pages handed out a second time. An operation that had not committed may have written pages to the file; recovery gives
 their ids back to the allocator but leaves their bytes, and no page is cleared when it is handed out. Which of the ways
 the tree begins a new page survive that.
 */
module Reuse {
  import opened Bytes
  import opened Assoc
  import opened Pages
  import opened Allocator
  import opened Wal
  import opened LogScan
  import opened MetaRedo
  import opened PageStore
  import opened TreeInsert
  import opened StoreSteps
  import opened BTree
  import opened AllocRecovery
  import opened Crash

  // --------------------------------------------------------- what is left over

  lemma {:induction false} UntouchedKeeps(d: Image, p: PageId, recs: seq<Record>, n: nat)
    requires AllSane(recs) && n <= |recs| && forall i | 0 <= i < |recs| :: !Touches(recs[i].op, p)
    ensures RedoTo(Replaying, d, p, recs, n).content == d.content
  {
    if n > 0 {
      UntouchedKeeps(d, p, recs, n - 1);
    }
  }

  /**
   Recovery leaves a page that no committed operation wrote as it finds it, and the allocator it recovers has the same
   ids to hand out as the one of the committed state: a page the unfinished operation took and wrote comes back as it was.
   */
  lemma {:induction false} LeftOver(pages: Store, wal: seq<Record>, last: nat, tail: seq<Record>, tree: TreeId, p: PageId, d: Image,
                                    meta: Meta, origin: Alloc, al: Alloc)
    requires Audit(pages, wal, last) == Consistent && Settled(wal) && Unfinished(tail, tree) && p !in pages
    requires AllocLags(meta, VacancyOf(origin), Ops(wal, |wal|), 0) && Increasing(Ops(wal, |wal|))
    requires VacancyOf(al) == VacancyAfter(VacancyOf(origin), wal)
    ensures var recs := Scan(wal + tail).applied;
      && AllSane(recs) && Redo(Replaying, d, p, recs).content == d.content
      && VacancyOf(AllocOf(ReplayMeta(meta, recs))) == VacancyOf(al)
  {
    TailIgnored(wal, tail, tree);
    RedoOps(Replaying, d, p, wal, |wal|);
    UntouchedKeeps(d, p, wal, |wal|);
    AllocRecovers(meta, VacancyOf(origin), Ops(wal, |wal|), 0);
    VacancyOps(VacancyOf(origin), wal, |wal|);
    assert wal[..|wal|] == wal;
  }

  // ------------------------------------------------------- how pages are begun

  /** The page shows this one separator and nothing else. */
  ghost predicate OneSep(c: Content, sep: Bytes, l: PageId, r: PageId) {
    c == Seps([Sep(sep, l, r)])
  }

  /**
   A new root on a page with left-over contents lists its two children alone if and only if the page listed no
   separator, or listed this one and has no room for another.
   */
  lemma {:induction false} RootReuseIff(c: Content, sep: Bytes, l: PageId, r: PageId)
    requires GrowOk(sep)
    ensures OneSep(SepInsertedIn(c, sep, l, r), sep, l, r) <==>
      c.Blank? || c == Seps([]) || (OneSep(c, sep, l, r) && CAPACITY < 2 * (SepSize(sep) + SLOT_SIZE))
  {
    UsedNone();
    if c.Blank? || c == Seps([]) {
      assert InsertSep([], sep, l, r) == [Sep(sep, l, r)];
    } else if OneSep(c, sep, l, r) {
      UsedOne(c.seps);
    }
  }

  lemma {:induction false} UsedNone()
    ensures KeysOf([]) == [] && UsedKeys([]) == 0
  {
  }

  lemma {:induction false} UsedOne(seps: seq<Sep>)
    requires |seps| == 1
    ensures UsedKeys(KeysOf(seps)) == SepSize(seps[0].key) + SLOT_SIZE
  {
    var keys := KeysOf(seps);
    assert UsedKeysTo(keys, 1) == UsedKeysTo(keys, 0) + SepSize(keys[0]) + SLOT_SIZE;
  }

  /** The page reads as a leaf with this one element. */
  ghost predicate OneElem(c: Content, k: Bytes, v: Bytes) {
    c.Slotted? && c.leaf.elems == [KV(k, v)]
  }

  /**
   The first leaf of a tree on a page with left-over contents holds its element alone if and only if the page has a
   leaf's bytes without an element and takes this one, or with just this one and refuses it.
   */
  lemma {:induction false} FirstLeafReuseIff(c: Content, k: Bytes, v: Bytes)
    requires !c.Seps? && !c.Ruined? && Shapely(LeafIn(c))
    ensures var p := Checked(LeafIn(c), ElemSize(KV(k, v)));
      OneElem(InsertedIn(Writing, c, k, v), k, v) <==>
        || (LeafIn(c).elems == [] && LeafInsert(p, k, v).Done?)
        || (LeafIn(c).elems == [KV(k, v)] && LeafInsert(p, k, v).Refused?)
  {
    var p := Checked(LeafIn(c), ElemSize(KV(k, v)));
    if LeafInsert(p, k, v).Done? {
      assert |InsertElem(p.elems, KV(k, v))| == |p.elems| + 1;
    }
  }

  /** The right page of a split holds its half whatever it held before. */
  lemma {:induction false} SplitReuse(leaf: Leaf, seps: seq<Sep>, pid: PageId, right: PageId, k: Bytes, v: Bytes, l: PageId, r: PageId,
                                      c: Content)
    requires Shapely(leaf) && pid != right
    ensures var halves := LeafHalves(leaf, right, k, v);
      halves.Some? ==>
        && Sane(LeafSplitOp(pid, leaf, right, k, v))
        && Alike(Slotted(halves.value.1), Effect(Writing, LeafSplitOp(pid, leaf, right, k, v), right, c))
    ensures var halves := NodeHalves(seps, k, l, r);
      halves.Some? ==>
        && Sane(NodeSplitOp(pid, seps, right, k, l, r))
        && Effect(Writing, NodeSplitOp(pid, seps, right, k, l, r), right, c) == Seps(halves.value.1)
  {
    if LeafHalves(leaf, right, k, v).Some? {
      LeafSplitRedo(Writing, leaf, pid, right, k, v, c);
    }
    if NodeHalves(seps, k, l, r).Some? {
      NodeSplitRedo(Writing, seps, pid, right, k, l, r, c);
    }
  }
}
