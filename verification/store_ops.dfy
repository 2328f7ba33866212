/** Whole operations on the pages of one tree: what an insertion and a deletion leave there. */
module StoreOps {
  import opened Bytes
  import opened Assoc
  import opened Pages
  import opened Allocator
  import opened Trees
  import opened TreeStructure
  import opened TreeRoutes
  import opened TreeTheorems
  import opened Wal
  import opened PageStore
  import opened StoreSteps
  import opened StoreNodes
  import TreeRuns
  import TreeAccounts

  /** The root page id and the pages hold this tree and nothing else. */
  ghost predicate Hosts(pages: Store, root: PageId, tree: Option<Tree>) {
    match tree
    case None => root == 0 && pages == map[]
    case Some(t) => root == t.pid && Rep(pages, t) && pages.Keys == Pids(t)
  }

  /** A tree of this height that satisfies the invariant of runs, on its pages. */
  ghost predicate Healthy(pages: Store, root: PageId, db: TreeRuns.Db, h: nat) {
    && Hosts(pages, root, db.tree) && TreeRuns.Inv(db)
    && (db.tree.Some? ==> WF(db.tree.value, h, None, None))
  }

  function HeightAfter(root: PageId, root': PageId, h: nat): nat {
    if root' == root then h else h + 1
  }

  /** An insertion into an empty tree is one into the tree of a page just created. */
  lemma {:induction false} StartHosted(db: TreeRuns.Db, lsn: nat, stale: set<PageId>, k: Bytes, v: Bytes)
    requires db.tree.None? && TreeRuns.Inv(db) && NextId(db.alloc) !in stale
    ensures var (t, al) := TreeRuns.Start(db, stale);
      var db', op := TreeRuns.Db(Some(t), t.pid, al), TreeRuns.Insert(k, v);
      && Healthy(map[t.pid := FreshPage(lsn, t.pid, stale)], t.pid, db', 0) && TreeRuns.View(db') == TreeRuns.View(db)
      && TreeRuns.Apply(db', op, stale) == TreeRuns.Apply(db, op, stale) && TreeRuns.OpOk(db', op, stale) == TreeRuns.OpOk(db, op, stale)
  {
    TreeRuns.StartOk(db, stale);
    var t := TreeRuns.Start(db, stale).0;
    assert Exact(EMPTY_LEAF) by { assert Used([]) == 0; }
    assert WF(t, 0, None, None);
  }

  /** Whether the pages hold a sound tree with exactly the old bindings and the new one. */
  ghost function InsertVerdict(db: TreeRuns.Db, k: Bytes, v: Bytes, pages': Store, root': PageId, db': TreeRuns.Db, h': nat): Verdict {
    if Healthy(pages', root', db', h') && TreeRuns.View(db') == Put(TreeRuns.View(db), k, v) then Consistent else Inconsistent
  }

  /** That is so after an insertion if and only if the guards on its path hold. */
  lemma {:induction false} InsertKept(db: TreeRuns.Db, h: nat, k: Bytes, v: Bytes, stale: set<PageId>, pages: Store, root: PageId,
                                      pages': Store, al': Alloc)
    requires Healthy(pages, root, db, h) && db.tree.Some?
    requires var st := Write(db.tree.value, k, v, true, db.alloc, stale);
      st.out.Whole? && Wrote(pages, db.tree.value, st, pages', al', None, 0, 0)
    ensures var r := TreeRuns.Apply(db, TreeRuns.Insert(k, v), stale);
      && r.Some? && r.value.0.tree.Some? && r.value.0.alloc == al'
      && var root' := r.value.0.tree.value.pid;
         InsertVerdict(db, k, v, pages', root', r.value.0, HeightAfter(root, root', h)) == Consistent
         <==> TreeRuns.OpOk(db, TreeRuns.Insert(k, v), stale)
  {
    var t, al := db.tree.value, db.alloc;
    var st := Write(t, k, v, true, al, stale);
    InsertIff(t, h, k, v, al, stale);
    WriteFrame(t, h, None, None, k, v, true, al, stale, Pids(t));
    if TreeRuns.OpOk(db, TreeRuns.Insert(k, v), stale) {
      TreeRuns.InsertCorrect(db, k, v, stale);
      assert pages'.Keys == Pids(st.out.t);
    }
  }

  /** An insertion whose guards hold does not panic. */
  lemma {:induction false} GuardedInsertRuns(db: TreeRuns.Db, k: Bytes, v: Bytes, stale: set<PageId>)
    requires TreeRuns.Inv(db)
    ensures TreeRuns.OpOk(db, TreeRuns.Insert(k, v), stale) ==> TreeRuns.Apply(db, TreeRuns.Insert(k, v), stale).Some?
  {
    if TreeRuns.OpOk(db, TreeRuns.Insert(k, v), stale) {
      TreeRuns.InsertCorrect(db, k, v, stale);
    }
  }

  // ------------------------------------------------------------------ delete

  lemma {:induction false} LeafForOn(pages: Store, t: Tree, h: nat, lo: Option<Bytes>, hi: Option<Bytes>, k: Bytes)
    requires Rep(pages, t) && WF(t, h, lo, hi) && Shaped(t)
    ensures var leaf := LeafFor(t, k);
      && leaf.LeafT? && leaf.pid in pages && !pages[leaf.pid].body.NodeB? && LeafOf(pages[leaf.pid].body) == leaf.page
      && Roomy(leaf.page) && Sorted(leaf.page.elems) && leaf.pid in Pids(t) && Rep(pages, leaf)
      && Remove(t, k).Some? == LeafDelete(leaf.page, k).Done?
    decreases t
  {
    if t.NodeT? {
      var i := Route(t.keys, k);
      LeafForOn(pages, t.kids[i], h - 1, LoOf(t.keys, lo, i), HiOf(t.keys, hi, i), k);
      PidsAt(t.kids, i);
    }
  }

  lemma {:induction false} LeafForPid(t: Tree, k: Bytes)
    requires Shaped(t)
    ensures LeafFor(t, k).LeafT? && LeafFor(t, k).pid in Pids(t)
    decreases t
  {
    if t.NodeT? {
      LeafForPid(t.kids[Route(t.keys, k)], k);
      PidsAt(t.kids, Route(t.keys, k));
    }
  }

  /** Deleting the element on its page is deleting it from the tree. */
  lemma {:induction false} RemoveRep(pages: Store, t: Tree, k: Bytes, q: Leaf, pages': Store)
    requires Rep(pages, t) && Shaped(t) && Distinct(t)
    requires var leaf := LeafFor(t, k);
      && leaf.LeafT? && |leaf.page.slots| == |leaf.page.elems| && LeafDelete(leaf.page, k) == Done(q)
      && leaf.pid in pages && pages' == pages[leaf.pid := pages[leaf.pid].(body := LeafB(q))]
    ensures exists c :: Remove(t, k) == Some(c) && Rep(pages', c) && c.pid == t.pid
    decreases t
  {
    if t.LeafT? {
      assert Remove(t, k) == Some(t.(page := q)) && Rep(pages', t.(page := q));
    } else {
      var i := Route(t.keys, k);
      DistinctKid(t.kids, i);
      LeafForPid(t.kids[i], k);
      RemoveRep(pages, t.kids[i], k, q, pages');
      var c :| Remove(t.kids[i], k) == Some(c) && Rep(pages', c) && c.pid == t.kids[i].pid;
      RepSwapped(pages, pages', t, i, c);
      assert Remove(t, k) == Some(t.(kids := t.kids[i := c]));
    }
  }

  lemma {:induction false} RepSwapped(pages: Store, pages': Store, t: Tree, i: nat, c: Tree)
    requires t.NodeT? && |t.kids| == |t.keys| + 1 && i < |t.kids| && Rep(pages, t) && Distinct(t)
    requires Untouched(pages, pages', Pids(t.kids[i])) && Rep(pages', c) && c.pid == t.kids[i].pid
    ensures Rep(pages', t.(kids := t.kids[i := c]))
  {
    PidsAt(t.kids, i);
    KidWritten(pages, pages', t, i, {});
    NodeWhole(pages', t, i, c);
  }

  /** The pages and the tree after DeleteKeyValue on the leaf of k. */
  ghost predicate DeletedOn(pages: Store, t: Tree, k: Bytes, pages': Store, t': Tree)
    requires Shaped(t)
  {
    var leaf := LeafFor(t, k);
    && leaf.LeafT? && leaf.pid in pages && |leaf.page.slots| == |leaf.page.elems|
    && match LeafDelete(leaf.page, k)
       case Done(q) => Remove(t, k) == Some(t') && pages' == pages[leaf.pid := pages[leaf.pid].(body := LeafB(q))]
       case _ => t' == t && pages' == pages
  }

  /** The answer of Delete, the tree and the bindings after it, and when it keeps the space accounting exact. */
  ghost predicate Deletes(db: TreeRuns.Db, k: Bytes, stale: set<PageId>, removed: bool, db': TreeRuns.Db)
    requires TreeRuns.Runnable(db)
  {
    && removed == Lookup(TreeRuns.View(db), k).Some? && TreeRuns.View(db') == Del(TreeRuns.View(db), k)
    && TreeRuns.Apply(db, TreeRuns.Delete(k), stale) == Some((db', if removed then TreeRuns.Deleted else TreeRuns.Missing))
    && TreeAccounts.AccurateIff(db, TreeRuns.Delete(k), db')
  }

  /** After a deletion the pages hold a sound tree without the key. */
  lemma {:induction false} DeleteKept(db: TreeRuns.Db, h: nat, k: Bytes, stale: set<PageId>, pages: Store, root: PageId, pages': Store,
                                      t': Tree)
    requires Healthy(pages, root, db, h) && db.tree.Some? && DeletedOn(pages, db.tree.value, k, pages', t')
    ensures Deletes(db, k, stale, LeafDelete(LeafFor(db.tree.value, k).page, k).Done?, db.(tree := Some(t')))
    ensures Healthy(pages', root, db.(tree := Some(t')), h)
  {
    var t := db.tree.value;
    LeafForOn(pages, t, h, None, None, k);
    RemoveCorrect(t, h, None, None, k);
    if LeafDelete(LeafFor(t, k).page, k).Done? {
      RemoveRep(pages, t, k, LeafDelete(LeafFor(t, k).page, k).page, pages');
      LeafForPid(t, k);
      assert pages'.Keys == pages.Keys;
      TreeRuns.DeleteCorrect(db, k, stale);
    }
    TreeAccounts.AppliedExact(db, TreeRuns.Delete(k), stale, db.(tree := Some(t')));
  }

  lemma {:induction false} DeleteAudit(pages: Store, wal: seq<Record>, last: nat, t: Tree, k: Bytes, pages': Store, t': Tree)
    requires Shaped(t) && DeletedOn(pages, t, k, pages', t') && Rep(pages, LeafFor(t, k))
    ensures Audit(pages, wal, last) == Consistent ==>
      (Audit(pages', wal, last) == Consistent <==> !LeafDelete(LeafFor(t, k).page, k).Done?)
  {
    if Audit(pages, wal, last) == Consistent {
      DeleteUnlogged(pages, wal, last, t, k, pages', t');
    }
  }

  /** Deletions are not logged: the log of a journal still holds the deleted element of the page. */
  lemma {:induction false} DeleteUnlogged(pages: Store, wal: seq<Record>, last: nat, t: Tree, k: Bytes, pages': Store, t': Tree)
    requires Audit(pages, wal, last) == Consistent && Shaped(t) && DeletedOn(pages, t, k, pages', t')
    requires var leaf := LeafFor(t, k); Rep(pages, leaf)
    ensures Audit(pages', wal, last) == Consistent <==> !LeafDelete(LeafFor(t, k).page, k).Done?
    ensures Has(LeafFor(t, k).page.elems, k) ==> Has(LeafIn(Redo(Writing, ZERO_IMAGE, LeafFor(t, k).pid, wal).content).elems, k)
  {
    var leaf := LeafFor(t, k);
    assert PageJournaled(pages[leaf.pid], leaf.pid, wal);
    if LeafDelete(leaf.page, k).Done? {
      assert |LeafIn(ImageOf(pages'[leaf.pid]).content).elems| < |LeafIn(ImageOf(pages[leaf.pid]).content).elems|;
      assert !PageJournaled(pages'[leaf.pid], leaf.pid, wal);
    }
  }
}
