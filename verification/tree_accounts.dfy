/**
 The space accounting of the leaves over whole runs: what every good write keeps exact, and the one operation that
 breaks it, a delete of a value that was shrunk in place.
 */
module TreeAccounts {
  import opened Bytes
  import opened Assoc
  import opened Pages
  import opened Allocator
  import opened Trees
  import opened TreeStructure
  import opened TreeRoutes
  import opened TreeInsert
  import opened TreeNode
  import opened TreeChain
  import opened TreeRuns

  /** Every leaf of the row accounts for its space exactly. */
  ghost predicate ExactRow(s: seq<Tree>) {
    forall i | 0 <= i < |s| :: s[i].LeafT? && Exact(s[i].page)
  }

  /** The slot of k still records the size of its element (no in-place shrink since it was written). */
  ghost predicate SlotTight(t: Tree, k: Bytes)
    requires Shaped(t)
    decreases t
  {
    match t
    case LeafT(_, _, page) =>
      Has(page.elems, k) ==> page.slots[Pos(page.elems, k)] == ElemSize(page.elems[Pos(page.elems, k)])
    case NodeT(_, _, keys, kids) => SlotTight(kids[Route(keys, k)], k)
  }

  lemma {:induction false} ExactParts(a: seq<Tree>, x: seq<Tree>, c: seq<Tree>)
    ensures ExactRow(a + x + c) <==> ExactRow(a) && ExactRow(x) && ExactRow(c)
  {
    var s := a + x + c;
    assert forall i | 0 <= i < |a| :: a[i] == s[i];
    assert forall i | 0 <= i < |x| :: x[i] == s[|a| + i];
    assert forall i | 0 <= i < |c| :: c[i] == s[|a| + |x| + i];
  }

  // -------------------------------------------------------------- leaf writes

  lemma {:induction false} HalfExact(p: Leaf, idx: nat, r: PageId, k: Bytes, v: Bytes, inLeft: bool)
    requires Exact(p) && idx <= |p.elems| && LeafInsert(if inLeft then SplitLeft(p, idx, r) else SplitRight(p, idx), k, v).Done?
    ensures Exact(LeafInsert(if inLeft then SplitLeft(p, idx, r) else SplitRight(p, idx), k, v).page)
    ensures Exact(SplitLeft(p, idx, r)) && Exact(SplitRight(p, idx))
  {
    PutAllExact(p, idx, r);
    InsertRoomy(if inLeft then SplitLeft(p, idx, r) else SplitRight(p, idx), k, v);
  }

  lemma {:induction false} PairExact(out: Outcome)
    requires out.Split? && out.left.LeafT? && out.right.LeafT? && Exact(out.left.page) && Exact(out.right.page)
    ensures ExactRow(OutLeaves(out)) && OutLeaves(out) != []
  {
    assert OutLeaves(out) == [out.left, out.right];
  }

  lemma {:induction false} SplitExact(t: Tree, k: Bytes, v: Bytes, al: Alloc, stale: set<PageId>)
    requires t.LeafT? && Exact(t.page) && LeafSplitOk(t.page, k, v, NextId(al), stale)
    ensures var out := LeafSplit(t, k, v, al, stale).out;
      && out.Split? && out.sep == t.page.elems[SplitIndex(t.page.slots)].key
      && OutLeaves(out) != [] && ExactRow(OutLeaves(out))
  {
    var idx := SplitIndex(t.page.slots);
    HalfExact(t.page, idx, NextId(al), k, v, Lt(k, t.page.elems[idx].key));
    PairExact(LeafSplit(t, k, v, al, stale).out);
  }

  lemma {:induction false} WholeExact(out: Outcome)
    requires out.Whole? && out.t.LeafT? && Exact(out.t.page)
    ensures ExactRow(OutLeaves(out)) && OutLeaves(out) != []
  {
    assert OutLeaves(out) == [out.t];
  }

  lemma {:induction false} OverflowExact(t: Tree, k: Bytes, v: Bytes, isRoot: bool, al: Alloc, stale: set<PageId>)
    requires t.LeafT? && Exact(t.page) && LeafOverflowOk(t.page, k, v, isRoot, al, stale)
    ensures var s := OutLeaves(LeafOverflow(t, k, v, isRoot, al, stale).out); s != [] && ExactRow(s)
  {
    if isRoot {
      SplitExact(t, k, v, Taken(al), stale);
      GrowLeaves(NextId(al), true, LeafSplit(t, k, v, Taken(al), stale));
    } else {
      SplitExact(t, k, v, al, stale);
    }
  }

  lemma {:induction false} InPlaceExact(t: Tree, k: Bytes, v: Bytes, isRoot: bool, al: Alloc, stale: set<PageId>)
    requires t.LeafT? && Exact(t.page) && Has(t.page.elems, k)
    requires UpdateFits(t.page, |t.page.elems[Pos(t.page.elems, k)].value|, |v|, ElemSize(KV(k, v)))
    ensures var s := OutLeaves(WriteLeaf(t, k, v, isRoot, al, stale).out); s != [] && ExactRow(s)
  {
    UpdateFitsIff(t.page, k, v);
    UpdateExact(t.page, k, v);
    WholeExact(WriteLeaf(t, k, v, isRoot, al, stale).out);
  }

  lemma {:induction false} AddedExact(t: Tree, k: Bytes, v: Bytes, isRoot: bool, al: Alloc, stale: set<PageId>)
    requires t.LeafT? && Exact(t.page) && !Has(t.page.elems, k)
    requires StaysWith(t.page, ElemSize(KV(k, v))) && InsertFits(t.page, ElemSize(KV(k, v)))
    ensures var s := OutLeaves(WriteLeaf(t, k, v, isRoot, al, stale).out); s != [] && ExactRow(s)
  {
    InsertFitsIff(t.page, k, v);
    AddExact(t.page, k, v);
    WholeExact(WriteLeaf(t, k, v, isRoot, al, stale).out);
  }

  lemma {:induction false} LeafExact(t: Tree, k: Bytes, v: Bytes, isRoot: bool, al: Alloc, stale: set<PageId>)
    requires t.LeafT? && Exact(t.page) && LeafOk(t, k, v, isRoot, al, stale)
    ensures var s := OutLeaves(WriteLeaf(t, k, v, isRoot, al, stale).out); s != [] && ExactRow(s)
  {
    if Has(t.page.elems, k) {
      InPlaceExact(t, k, v, isRoot, al, stale);
    } else if StaysWith(t.page, ElemSize(KV(k, v))) {
      AddedExact(t, k, v, isRoot, al, stale);
    } else {
      OverflowExact(t, k, v, isRoot, al, stale);
    }
  }

  // ------------------------------------------------------------- whole writes

  /** A right write keeps exact accounting exact in every leaf, through every split. */
  lemma {:induction false} WriteExact(t: Tree, h: nat, lo: Option<Bytes>, hi: Option<Bytes>, k: Bytes, v: Bytes, isRoot: bool, al: Alloc,
                                      stale: set<PageId>)
    requires WF(t, h, lo, hi) && Shaped(t) && InRange(k, lo, hi) && WriteOk(t, k, v, isRoot, al, stale)
    requires ExactRow(Leaves(t))
    ensures var out := Write(t, k, v, isRoot, al, stale).out; OutLeaves(out) != [] && ExactRow(OutLeaves(out))
    decreases t
  {
    if t.LeafT? {
      assert Leaves(t)[0] == t;
      LeafExact(t, k, v, isRoot, al, stale);
    } else {
      var i := Route(t.keys, k);
      LeavesAt(t.kids, i);
      ExactParts(LeavesAll(t.kids[..i]), Leaves(t.kids[i]), LeavesAll(t.kids[i + 1..]));
      RouteInRange(t.keys, lo, hi, k);
      WriteExact(t.kids[i], h - 1, LoOf(t.keys, lo, i), HiOf(t.keys, hi, i), k, v, false, al, stale);
      SepInside(t.kids[i], h - 1, LoOf(t.keys, lo, i), HiOf(t.keys, hi, i), k, v, al, stale);
      NodeExact(t, lo, hi, k, Write(t.kids[i], k, v, false, al, stale), isRoot, stale);
    }
  }

  lemma {:induction false} NodeExact(t: Tree, lo: Option<Bytes>, hi: Option<Bytes>, k: Bytes, st: Step, isRoot: bool, stale: set<PageId>)
    requires t.NodeT? && |t.kids| == |t.keys| + 1 && KeysOk(t.keys, lo, hi) && OutLeaves(st.out) != []
    requires ExactRow(Leaves(t)) && ExactRow(OutLeaves(st.out))
    requires st.out.Split? ==>
      var i := Route(t.keys, k);
      && Above(LoOf(t.keys, lo, i), st.out.sep) && Below(st.out.sep, HiOf(t.keys, hi, i))
      && NodeOk(t.keys, st.out.sep, isRoot, st.alloc, stale)
    ensures var out := WriteNode(t, Route(t.keys, k), st, isRoot, stale).out; OutLeaves(out) != [] && ExactRow(OutLeaves(out))
  {
    var i := Route(t.keys, k);
    var a, c := LeavesAll(t.kids[..i]), LeavesAll(t.kids[i + 1..]);
    LeavesAt(t.kids, i);
    ExactParts(a, Leaves(t.kids[i]), c);
    NodeLeaves(t, lo, hi, k, st, isRoot, stale);
    ExactParts(a, OutLeaves(st.out), c);
  }

  /** A delete keeps the accounting exact if and only if the slot of the key is tight. */
  lemma {:induction false} RemoveExact(t: Tree, k: Bytes)
    requires Shaped(t) && ExactRow(Leaves(t)) && Remove(t, k).Some?
    ensures ExactRow(Leaves(Remove(t, k).value)) <==> SlotTight(t, k)
    decreases t
  {
    if t.LeafT? {
      assert Leaves(t)[0] == t;
      DeleteExact(t.page, k);
      assert Leaves(Remove(t, k).value)[0] == Remove(t, k).value;
    } else {
      var i := Route(t.keys, k);
      var a, x, c := LeavesAll(t.kids[..i]), Leaves(t.kids[i]), LeavesAll(t.kids[i + 1..]);
      LeavesAt(t.kids, i);
      ExactParts(a, x, c);
      RemoveExact(t.kids[i], k);
      var d := Remove(t.kids[i], k).value;
      SetAsConcat(t.kids, i, d);
      LeavesThree(t.kids[..i], [d], t.kids[i + 1..]);
      LeavesOne(d);
      ExactParts(a, Leaves(d), c);
    }
  }

  // -------------------------------------------------------------- whole runs

  ghost predicate Accurate(db: Db) {
    db.tree.Some? ==> ExactRow(Leaves(db.tree.value))
  }

  /** A delete that removes its key finds a tight slot. */
  ghost predicate OpTight(db: Db, op: Op)
    requires Runnable(db)
  {
    op.Delete? && db.tree.Some? && Remove(db.tree.value, op.key).Some? ==> SlotTight(db.tree.value, op.key)
  }

  /** A good operation keeps the accounting exact if and only if it is not a delete of a loose slot. */
  lemma {:induction false} ApplyExact(db: Db, op: Op, stale: set<PageId>)
    requires Inv(db) && OpOk(db, op, stale) && Accurate(db)
    ensures var r := Apply(db, op, stale); r.Some? && (Accurate(r.value.0) <==> OpTight(db, op))
  {
    match op
    case Insert(k, v) =>
      InsertExactly(db, k, v, stale);
    case Get(_) =>
    case Delete(k) =>
      if db.tree.Some? && Remove(db.tree.value, k).Some? {
        RemoveExact(db.tree.value, k);
      }
  }

  /** Exact accounting before the operation stays exact if and only if the operation is tight. */
  ghost predicate AccurateIff(db: Db, op: Op, db': Db)
    requires Runnable(db)
  {
    Accurate(db) ==> (Accurate(db') <==> OpTight(db, op))
  }

  lemma {:induction false} AppliedExact(db: Db, op: Op, stale: set<PageId>, db': Db)
    requires Inv(db) && OpOk(db, op, stale)
    requires Apply(db, op, stale).Some? && Apply(db, op, stale).value.0 == db'
    ensures AccurateIff(db, op, db')
  {
    if Accurate(db) {
      ApplyExact(db, op, stale);
    }
  }

  lemma {:induction false} InsertExactly(db: Db, k: Bytes, v: Bytes, stale: set<PageId>)
    requires Inv(db) && OpOk(db, Insert(k, v), stale) && Accurate(db)
    ensures var r := Apply(db, Insert(k, v), stale); r.Some? && Accurate(r.value.0)
  {
    InsertCorrect(db, k, v, stale);
    StartOk(db, stale);
    var (t, al) := Start(db, stale);
    var h: nat :| WF(t, h, None, None);
    if db.tree.None? {
      assert Used([]) == 0;
      assert Leaves(t) == [t];
    }
    WriteExact(t, h, None, None, k, v, true, al, stale);
  }

  /** Every delete of the run is tight at its turn. */
  ghost predicate RunTight(db: Db, ops: seq<Op>, stale: set<PageId>)
    requires RunOk(db, ops, stale)
    decreases |ops|
  {
    ops != [] ==>
      && OpTight(db, ops[0])
      && var r := Apply(db, ops[0], stale);
         r.Some? ==> RunTight(r.value.0, ops[1..], stale)
  }

  /** Over every run of good operations without a loose delete the counters of every leaf stay exact. */
  lemma {:induction false} RunExact(db: Db, ops: seq<Op>, stale: set<PageId>)
    requires Inv(db) && RunOk(db, ops, stale) && Accurate(db) && RunTight(db, ops, stale)
    ensures Run(db, ops, stale).Some? && Accurate(Run(db, ops, stale).value.0)
    decreases |ops|
  {
    if ops != [] {
      ApplyCorrect(db, ops[0], stale);
      ApplyExact(db, ops[0], stale);
      RunExact(Apply(db, ops[0], stale).value.0, ops[1..], stale);
    }
  }
}
