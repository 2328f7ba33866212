/** The B+ tree on pages, with its log: every method refines the tree as a value and keeps the journal. */
module BTree {
  import opened Bytes
  import opened Assoc
  import opened Pages
  import opened Allocator
  import opened Trees
  import opened TreeInsert
  import opened TreeStructure
  import opened TreeTheorems
  import opened Wal
  import opened Replay
  import opened LogScan
  import opened PageStore
  import opened NodeCodec
  import opened StoreSteps
  import opened StoreNodes
  import opened StoreOps
  import opened StoreLog

  /** The root and the first leaf of a tree. */
  datatype Heads = Heads(root: PageId, first: PageId)

  function HeadsStep(h: Heads, op: LogOp): Heads {
    match op
    case UpdateRoot(p) => h.(root := p)
    case UpdateFirstLeaf(p) => h.(first := p)
    case _ => h
  }

  /** What the log says the root and the first leaf are. */
  function HeadsAfter(h: Heads, recs: seq<Record>): Heads {
    if recs == [] then h else HeadsStep(HeadsAfter(h, recs[..|recs| - 1]), recs[|recs| - 1].op)
  }

  lemma {:induction false} HeadsConcat(h: Heads, a: seq<Record>, b: seq<Record>)
    ensures HeadsAfter(h, a + b) == HeadsAfter(HeadsAfter(h, a), b)
    decreases |b|
  {
    if b == [] {
      assert a + b == a;
    } else {
      HeadsConcat(h, a, b[..|b| - 1]);
      assert (a + b)[..|a + b| - 1] == a + b[..|b| - 1];
    }
  }

  /** A page from the free list leaves it; a page past the last one raises the maximum. */
  function VacancyStep(v: Vacancy, op: LogOp): Vacancy {
    match op
    case CreatePage(p, _, fromFreeList) => if fromFreeList then v.(free := v.free - {p}) else v.(maxId := Latest(v.maxId, p))
    case _ => v
  }

  /** What the log says the free pages and the last page are. */
  function VacancyAfter(v: Vacancy, recs: seq<Record>): Vacancy {
    if recs == [] then v else VacancyStep(VacancyAfter(v, recs[..|recs| - 1]), recs[|recs| - 1].op)
  }

  lemma {:induction false} VacancyConcat(v: Vacancy, a: seq<Record>, b: seq<Record>)
    ensures VacancyAfter(v, a + b) == VacancyAfter(VacancyAfter(v, a), b)
    decreases |b|
  {
    if b == [] {
      assert a + b == a;
    } else {
      VacancyConcat(v, a, b[..|b| - 1]);
      assert (a + b)[..|a + b| - 1] == a + b[..|b| - 1];
    }
  }

  /** The metadata LSN is that of the last change of root or first leaf. */
  function MetaLsnStep(lsn: nat, rec: Record): nat {
    if rec.op.UpdateRoot? || rec.op.UpdateFirstLeaf? then rec.lsn else lsn
  }

  function MetaLsnAfter(lsn: nat, recs: seq<Record>): nat {
    if recs == [] then lsn else MetaLsnStep(MetaLsnAfter(lsn, recs[..|recs| - 1]), recs[|recs| - 1])
  }

  lemma {:induction false} MetaLsnConcat(lsn: nat, a: seq<Record>, b: seq<Record>)
    ensures MetaLsnAfter(lsn, a + b) == MetaLsnAfter(MetaLsnAfter(lsn, a), b)
    decreases |b|
  {
    if b == [] {
      assert a + b == a;
    } else {
      MetaLsnConcat(lsn, a, b[..|b| - 1]);
      assert (a + b)[..|a + b| - 1] == a + b[..|b| - 1];
    }
  }

  /** The log so far, with the root, the first leaf, the free pages and the metadata LSN the tree has in memory. */
  datatype Trail = Trail(wal: seq<Record>, heads: Heads, vacancy: Vacancy, metaLsn: nat)

  ghost predicate OpsOf(recs: seq<Record>, tree: TreeId) {
    forall i | 0 <= i < |recs| :: recs[i].tree == tree && IsOp(recs[i].op)
  }

  /**
   The log grew by operations of this tree, which account for the change of root, first leaf, free pages and metadata
   LSN; only with `upd` by an update.
   */
  ghost predicate Appended(a: Trail, b: Trail, tree: TreeId, upd: bool) {
    exists more :: Adds(a, b, tree, upd, more)
  }

  ghost predicate Adds(a: Trail, b: Trail, tree: TreeId, upd: bool, more: seq<Record>) {
    && b.wal == a.wal + more && OpsOf(more, tree) && (upd || NoUpdates(more))
    && b.heads == HeadsAfter(a.heads, more) && b.vacancy == VacancyAfter(a.vacancy, more) && b.metaLsn == MetaLsnAfter(a.metaLsn, more)
  }

  function Extended(a: Trail, rec: Record): Trail {
    Trail(a.wal + [rec], HeadsStep(a.heads, rec.op), VacancyStep(a.vacancy, rec.op), MetaLsnStep(a.metaLsn, rec))
  }

  lemma {:induction false} AppendOne(a: Trail, rec: Record)
    requires IsOp(rec.op)
    ensures Appended(a, Extended(a, rec), rec.tree, rec.op.UpdateLeaf?)
  {
    assert OpsOf([rec], rec.tree);
    var none := [rec][..0];
    assert none == [] && HeadsAfter(a.heads, none) == a.heads && VacancyAfter(a.vacancy, none) == a.vacancy;
    assert MetaLsnAfter(a.metaLsn, none) == a.metaLsn && MetaLsnAfter(a.metaLsn, [rec]) == MetaLsnStep(a.metaLsn, rec);
    assert HeadsAfter(a.heads, [rec]) == HeadsStep(a.heads, rec.op);
    assert VacancyAfter(a.vacancy, [rec]) == VacancyStep(a.vacancy, rec.op);
    assert Adds(a, Extended(a, rec), rec.tree, rec.op.UpdateLeaf?, [rec]);
  }

  /** The record of a page the allocator handed out. */
  lemma {:induction false} AppendCreate(a: Trail, rec: Record, al: Alloc)
    requires NextId(al) !in Taken(al).freeList && a.vacancy == VacancyOf(al)
    requires rec.op.CreatePage? && rec.op.page == NextId(al) && rec.op.fromFreeList == (al.freeList != [])
    ensures Appended(a, a.(wal := a.wal + [rec], vacancy := VacancyOf(Taken(al))), rec.tree, false)
  {
    TakenVacancy(al);
    AppendOne(a, rec);
  }

  lemma {:induction false} AppendNothing(a: Trail, tree: TreeId)
    ensures Appended(a, a, tree, false)
  {
    assert Adds(a, a, tree, false, []);
  }

  lemma {:induction false} AppendedLoosely(a: Trail, b: Trail, tree: TreeId)
    requires Appended(a, b, tree, false)
    ensures Appended(a, b, tree, true)
  {
    var more :| Adds(a, b, tree, false, more);
    assert Adds(a, b, tree, true, more);
  }

  lemma {:induction false} AppendedTwice(a: Trail, mid: Trail, b: Trail, tree: TreeId, u: bool, v: bool)
    requires Appended(a, mid, tree, u) && Appended(mid, b, tree, v)
    ensures Appended(a, b, tree, u || v)
  {
    var x :| Adds(a, mid, tree, u, x);
    var y :| Adds(mid, b, tree, v, y);
    AddsTwice(a, mid, b, tree, u, v, x, y);
  }

  lemma {:induction false} AddsTwice(a: Trail, mid: Trail, b: Trail, tree: TreeId, u: bool, v: bool, x: seq<Record>, y: seq<Record>)
    requires Adds(a, mid, tree, u, x) && Adds(mid, b, tree, v, y)
    ensures Adds(a, b, tree, u || v, x + y)
  {
    HeadsConcat(a.heads, x, y);
    VacancyConcat(a.vacancy, x, y);
    MetaLsnConcat(a.metaLsn, x, y);
    JoinedOps(x, y, tree, u || v);
    JoinedLog(a.wal, x, y);
  }

  lemma {:induction false} JoinedLog(a: seq<Record>, x: seq<Record>, y: seq<Record>)
    ensures a + x + y == a + (x + y)
  {
  }

  lemma {:induction false} JoinedOps(x: seq<Record>, y: seq<Record>, tree: TreeId, upd: bool)
    requires OpsOf(x, tree) && OpsOf(y, tree) && (upd || (NoUpdates(x) && NoUpdates(y)))
    ensures OpsOf(x + y, tree) && (upd || NoUpdates(x + y))
  {
  }

  lemma {:induction false} NoPageJournal(pages: Store, wal: seq<Record>, last: nat, rec: Record)
    requires Audit(pages, wal, last) == Consistent && rec.lsn == last + 1
    requires (rec.op.UpdateRoot? || rec.op.UpdateFirstLeaf? || rec.op.Begin? || rec.op.Commit?)
    ensures Audit(pages, wal + [rec], last + 1) == Consistent
  {
    JournalStep(pages, wal, last, rec, pages);
  }

  lemma {:induction false} OnePageJournal(pages: Store, wal: seq<Record>, last: nat, rec: Record, pid: PageId, l: Page)
    requires Audit(pages, wal, last) == Consistent && rec.lsn == last + 1 && Sane(rec.op) && pid in pages
    requires forall p :: Touches(rec.op, p) <==> p == pid
    requires !rec.op.CreatePage? && l.lsn == rec.lsn && l.internal == pages[pid].internal
    requires Made(pages[pid], rec.op, pid, l)
    ensures Audit(pages[pid := l], wal + [rec], last + 1) == Consistent
  {
    var pages' := pages[pid := l];
    forall p | p in pages' ensures StepOf(pages, rec, pages', p) {
      assert pages[p].lsn <= last;
    }
    JournalStep(pages, wal, last, rec, pages');
  }

  /** The log grew by the group of one operation, closed by its commit record if the operation finished. */
  ghost predicate Grouped(a: Trail, b: Trail, tree: TreeId, ok: bool, upd: bool) {
    exists begin, body, commit :: GroupIs(a, b, tree, ok, begin, body, commit) && (upd || NoUpdates(body))
  }

  ghost predicate GroupIs(a: Trail, b: Trail, tree: TreeId, ok: bool, begin: nat, body: seq<Record>, commit: nat) {
    && OpsOf(body, tree) && b.heads == HeadsAfter(a.heads, body) && b.vacancy == VacancyAfter(a.vacancy, body)
    && b.metaLsn == MetaLsnAfter(a.metaLsn, body)
    && b.wal == a.wal + [Record(begin, tree, Begin)] + body + if ok then [Record(commit, tree, Commit)] else []
  }

  lemma {:induction false} CloseGroup(a: Trail, begin: nat, mid: Trail, b: Trail, tree: TreeId, ok: bool, upd: bool, commit: nat)
    requires Appended(a.(wal := a.wal + [Record(begin, tree, Begin)]), mid, tree, upd)
    requires b == mid.(wal := mid.wal + if ok then [Record(commit, tree, Commit)] else [])
    ensures Grouped(a, b, tree, ok, upd)
  {
    var body :| Adds(a.(wal := a.wal + [Record(begin, tree, Begin)]), mid, tree, upd, body);
    assert GroupIs(a, b, tree, ok, begin, body, commit);
  }

  /** Whether the pages, the allocator and the separator handed up are those of the step. */
  ghost function WriteReport(pages: Store, t: Tree, st: Step, pages': Store, al: Alloc, extra: Option<Bytes>,
                             left: PageId, right: PageId): Verdict
  {
    if Wrote(pages, t, st, pages', al, extra, left, right) then Consistent else Inconsistent
  }

  class BPlusTree {
    const treeId: TreeId
    /** Unused pages of the file whose kind byte says internal; none in a zero-filled file. */
    const stale: set<PageId>
    /** The allocator when the log began. */
    ghost const origin: Alloc

    var rootNodePageId: PageId
    var firstLeafNodePageId: PageId
    var metadataLsn: nat
    /** The pages in use, as the buffer pool shows them. */
    var pages: Store
    var alloc: Alloc
    var wal: seq<Record>
    var lastLsn: nat

    /** The tree the pages hold and its height. */
    ghost var tree: Option<Tree>
    ghost var height: nat

    ghost function Db(): TreeRuns.Db
      reads this
    {
      TreeRuns.Db(tree, firstLeafNodePageId, alloc)
    }

    ghost function Track(): Trail
      reads this
    {
      Trail(wal, Heads(rootNodePageId, firstLeafNodePageId), VacancyOf(alloc), metadataLsn)
    }

    ghost predicate Valid()
      reads this
    {
      Healthy(pages, rootNodePageId, Db(), height) && (tree.None? ==> NextId(alloc) !in stale)
    }

    /** A tree without pages; the page it will start with does not read as internal. */
    constructor (treeId: TreeId, stale: set<PageId>, alloc: Alloc)
      requires Sound(alloc, {}) && NextId(alloc) !in stale
      ensures Valid() && TreeRuns.View(Db()) == [] && Audit(pages, wal, lastLsn) == Consistent
      ensures this.treeId == treeId && this.stale == stale && this.alloc == alloc == origin && wal == [] && metadataLsn == 0
    {
      this.treeId := treeId;
      this.stale := stale;
      this.alloc, origin := alloc, alloc;
      rootNodePageId, firstLeafNodePageId, metadataLsn := 0, 0, 0;
      pages, wal, lastLsn := map[], [], 0;
      tree, height := None, 0;
    }

    // ------------------------------------------------------------ primitives

    method Log(op: LogOp) returns (lsn: nat)
      modifies this`wal, this`lastLsn
      ensures lsn == lastLsn == old(lastLsn) + 1
      ensures wal == old(wal) + [Record(lsn, treeId, op)]
    {
      lastLsn := lastLsn + 1;
      lsn := lastLsn;
      wal := wal + [Record(lsn, treeId, op)];
    }

    /** NewPage, and the unused page image it hands out. */
    method NewPage() returns (p: PageId, fromFreeList: bool)
      modifies this`alloc, this`pages
      ensures p == NextId(old(alloc)) && alloc == Taken(old(alloc)) && fromFreeList == (old(alloc).freeList != [])
      ensures pages == old(pages)[p := FreshPage(0, p, stale)]
    {
      if |alloc.freeList| > 0 {
        p, fromFreeList := alloc.freeList[0], true;
        alloc := alloc.(freeList := alloc.freeList[1..]);
      } else {
        p, fromFreeList := alloc.maxId + 1, false;
        alloc := alloc.(maxId := alloc.maxId + 1);
      }
      pages := pages[p := FreshPage(0, p, stale)];
    }

    method SetLSN(p: PageId, lsn: nat)
      requires p in pages
      modifies this`pages
      ensures pages == old(pages)[p := old(pages)[p].(lsn := lsn)]
    {
      pages := pages[p := pages[p].(lsn := lsn)];
    }

    /** NewPage, LogCreatePageOperation and SetLSN, as every split and the first Insert begin. */
    method NewLoggedPage(leaf: bool) returns (p: PageId)
      requires Available(alloc, pages.Keys)
      modifies this`pages, this`alloc, this`wal, this`lastLsn
      ensures p == NextId(old(alloc)) && alloc == Taken(old(alloc)) && Appended(old(Track()), Track(), treeId, false)
      ensures LogReport(old(wal), old(lastLsn), treeId, [CreateOp(old(alloc), leaf)], wal, lastLsn) == Consistent
      ensures pages == old(pages)[p := FreshPage(lastLsn, p, stale)]
      ensures old(Audit(pages, wal, lastLsn)) == Consistent && (p in stale) == !leaf ==> Audit(pages, wal, lastLsn) == Consistent
    {
      var fromFreeList, lsn;
      p, fromFreeList := NewPage();
      lsn := Log(CreatePage(p, leaf, fromFreeList));
      SetLSN(p, lsn);
      AppendCreate(old(Track()), wal[|wal| - 1], old(alloc));
      LogOne(old(wal), old(lastLsn), treeId, CreateOp(old(alloc), leaf));
      Overwritten(old(pages), p, FreshPage(0, p, stale), FreshPage(lsn, p, stale));
      CreateAudit(old(pages), old(wal), old(lastLsn), treeId, p, leaf, fromFreeList, FreshPage(lsn, p, stale));
    }

    // ---------------------------------------------------------- leaf splits

    /** InsertKeyValue on a half, its result ignored; not ok is a panic. */
    method InsertKeyValue(leaf: Leaf, k: Bytes, v: Bytes) returns (ok: bool, leaf': Leaf)
      requires |leaf.slots| == |leaf.elems|
      ensures ok == InsertIgnored(leaf, k, v).Some? && (ok ==> leaf' == InsertIgnored(leaf, k, v).value)
    {
      match LeafInsert(leaf, k, v) {
        case Refused => ok, leaf' := true, leaf;
        case Done(q) => ok, leaf' := true, q;
        case Broken => ok, leaf' := false, leaf;
      }
    }

    /** Split and the insertion after it, on the two leaves. */
    method SplitHalves(leaf: Leaf, idx: nat, right: PageId, k: Bytes, v: Bytes) returns (ok: bool, l: Leaf, r: Leaf)
      requires |leaf.slots| == |leaf.elems| && idx == SplitIndex(leaf.slots)
      ensures ok == LeafHalves(leaf, right, k, v).Some?
      ensures ok ==> LeafHalves(leaf, right, k, v) == Some((l, r)) && idx < |leaf.elems|
    {
      l, r := leaf, leaf;
      if idx >= |leaf.elems| {
        return false, l, r;
      }
      l, r := SplitLeft(leaf, idx, right), SplitRight(leaf, idx);
      if Lt(k, leaf.elems[idx].key) {
        ok, l := InsertKeyValue(l, k, v);
      } else {
        ok, r := InsertKeyValue(r, k, v);
      }
    }

    /** The second half of HandleLeafNodeSplit: log the split, split and insert. */
    method LogLeafSplit(pid: PageId, right: PageId, leaf: Leaf, k: Bytes, v: Bytes) returns (idx: nat, lsn: nat)
      modifies this`wal, this`lastLsn
      ensures idx == SplitIndex(leaf.slots) && lsn == lastLsn == old(lastLsn) + 1
      ensures wal == old(wal) + [Record(lsn, treeId, LeafSplitOp(pid, leaf, right, k, v))]
      ensures LogReport(old(wal), old(lastLsn), treeId, [LeafSplitOp(pid, leaf, right, k, v)], wal, lastLsn) == Consistent
      ensures Appended(old(Track()), Track(), treeId, false)
    {
      idx := FindSplitNodeIndex(leaf.slots);
      lsn := Log(SplitLeaf(pid, right, idx, leaf.next, k, v, leaf.elems));
      LogOne(old(wal), old(lastLsn), treeId, LeafSplitOp(pid, leaf, right, k, v));
      AppendOne(old(Track()), wal[|wal| - 1]);
    }

    method SplitLeafInto(pid: PageId, right: PageId, k: Bytes, v: Bytes) returns (ok: bool, sep: Bytes)
      requires pid in pages && right in pages && pid != right && !pages[pid].body.NodeB?
      requires |LeafOf(pages[pid].body).slots| == |LeafOf(pages[pid].body).elems|
      modifies this`pages, this`wal, this`lastLsn
      ensures Appended(old(Track()), Track(), treeId, false)
      ensures LogReport(old(wal), old(lastLsn), treeId, [LeafSplitOp(pid, LeafOf(old(pages)[pid].body), right, k, v)], wal, lastLsn)
        == Consistent
      ensures var leaf := LeafOf(old(pages)[pid].body);
        var halves := LeafHalves(leaf, right, k, v);
        && ok == halves.Some?
        && (ok ==> && sep == leaf.elems[SplitIndex(leaf.slots)].key
                   && pages == old(pages)[right := old(pages)[right].(lsn := lastLsn, body := LeafB(halves.value.1))]
                                         [pid := old(pages)[pid].(lsn := lastLsn, body := LeafB(halves.value.0))])
      ensures ok && Used(LeafOf(old(pages)[pid].body).elems) <= CAPACITY && old(Audit(pages, wal, lastLsn)) == Consistent ==>
        Audit(pages, wal, lastLsn) == Consistent
    {
      var leaf := LeafOf(pages[pid].body);
      var idx, lsn := LogLeafSplit(pid, right, leaf, k, v);
      var l, r;
      ok, l, r := SplitHalves(leaf, idx, right, k, v);
      if !ok {
        return false, [];
      }
      sep := leaf.elems[idx].key;
      StoreLeaves(pid, right, l, r, lsn);
      LeafSplitAudit(old(pages), old(wal), old(lastLsn), treeId, pid, right, k, v, l, r);
    }

    /** The two leaves, written to their pages. */
    method StoreLeaves(pid: PageId, right: PageId, l: Leaf, r: Leaf, lsn: nat)
      requires pid in pages && right in pages && pid != right
      modifies this`pages
      ensures pages == old(pages)[right := old(pages)[right].(lsn := lsn, body := LeafB(r))]
                                 [pid := old(pages)[pid].(lsn := lsn, body := LeafB(l))]
    {
      pages := pages[right := pages[right].(lsn := lsn, body := LeafB(r))];
      pages := pages[pid := pages[pid].(lsn := lsn, body := LeafB(l))];
    }

    /** HandleLeafNodeSplit: not ok is a panic. */
    method HandleLeafNodeSplit(pid: PageId, k: Bytes, v: Bytes) returns (ok: bool, sep: Bytes, right: PageId)
      requires pid in pages && !pages[pid].body.NodeB? && |LeafOf(pages[pid].body).slots| == |LeafOf(pages[pid].body).elems|
      requires Available(alloc, pages.Keys)
      modifies this`pages, this`alloc, this`wal, this`lastLsn
      ensures right == NextId(old(alloc)) && alloc == Taken(old(alloc)) && Appended(old(Track()), Track(), treeId, false)
      ensures LogReport(old(wal), old(lastLsn), treeId, LeafSplitLog(pid, LeafOf(old(pages)[pid].body), k, v, old(alloc)), wal, lastLsn)
        == Consistent
      ensures var leaf := LeafOf(old(pages)[pid].body);
        var halves := LeafHalves(leaf, right, k, v);
        && ok == halves.Some?
        && (ok ==> && sep == leaf.elems[SplitIndex(leaf.slots)].key
                   && LeafSplitStore(old(pages), pid, right, halves.value, lastLsn, stale, pages))
      ensures ok && Used(LeafOf(old(pages)[pid].body).elems) <= CAPACITY && right !in stale
              && old(Audit(pages, wal, lastLsn)) == Consistent ==>
        Audit(pages, wal, lastLsn) == Consistent
    {
      right := NewLoggedPage(true);
      ghost var track1, last1 := Track(), lastLsn;
      ok, sep := SplitLeafInto(pid, right, k, v);
      LogTwice(old(wal), old(lastLsn), treeId, [CreateOp(old(alloc), true)], track1.wal, last1,
               [LeafSplitOp(pid, LeafOf(old(pages)[pid].body), right, k, v)], wal, lastLsn);
      AppendedTwice(old(Track()), track1, Track(), treeId, false, false);
    }

    // ------------------------------------------------------------ separators

    /** LogInsertInternalNodeEntryOperation, SetLSN and InsertKey with its result ignored; not ok is a panic. */
    method InsertLoggedKey(pid: PageId, k: Bytes, l: PageId, r: PageId) returns (ok: bool)
      requires pid in pages && !pages[pid].body.LeafB?
      modifies this`pages, this`wal, this`lastLsn
      ensures Appended(old(Track()), Track(), treeId, false)
      ensures LogReport(old(wal), old(lastLsn), treeId, [InsertInternal(pid, k, l, r)], wal, lastLsn) == Consistent
      ensures var after := BodyAfter(old(pages)[pid].body, k, l, r);
        ok == after.Some? && (ok ==> pages == old(pages)[pid := old(pages)[pid].(lsn := lastLsn, body := after.value)])
      ensures SepSize(k) + SLOT_SIZE <= FreeKeys(KeysOf(SepsIn(old(pages)[pid].body))) && old(Audit(pages, wal, lastLsn)) == Consistent ==>
        ok && Audit(pages, wal, lastLsn) == Consistent
    {
      var lsn := Log(InsertInternal(pid, k, l, r));
      LogOne(old(wal), old(lastLsn), treeId, InsertInternal(pid, k, l, r));
      AppendOne(old(Track()), wal[|wal| - 1]);
      var body;
      ok, body := InsertKey(pages[pid].body, k, l, r);
      pages := pages[pid := pages[pid].(lsn := lsn, body := body)];
      KeyJournal(old(pages), old(wal), old(lastLsn), treeId, pid, k, l, r, pages[pid]);
    }

    /** InsertKey with its result ignored; not ok is a panic. */
    method InsertKey(body: PageBody, k: Bytes, l: PageId, r: PageId) returns (ok: bool, body': PageBody)
      ensures ok == BodyAfter(body, k, l, r).Some? && (ok ==> body' == BodyAfter(body, k, l, r).value)
    {
      match SepInsert(SepsIn(body), k, l, r) {
        case SepRefused => ok, body' := true, body;
        case SepDone(seps) => ok, body' := true, NodeB(seps);
        case SepBroken => ok, body' := false, body;
      }
    }

    /** The first separator of a new root, the logged root update and the new root; not ok is a panic. */
    method CrownRoot(root: PageId, sep: Bytes, left: PageId, right: PageId) returns (ok: bool, lsn: nat)
      requires root in pages && pages[root].body.Empty?
      modifies this`rootNodePageId, this`metadataLsn, this`pages, this`wal, this`lastLsn
      ensures Appended(old(Track()), Track(), treeId, false)
      ensures ok ==> LogReport(old(wal), old(lastLsn), treeId, CrownLog(root, sep, left, right), wal, lastLsn) == Consistent
      ensures var after := BodyAfter(Empty, sep, left, right);
        && ok == after.Some?
        && (ok ==> pages == old(pages)[root := old(pages)[root].(lsn := lsn, body := after.value)] && rootNodePageId == root)
      ensures GrowOk(sep) && old(Audit(pages, wal, lastLsn)) == Consistent ==> ok && Audit(pages, wal, lastLsn) == Consistent
    {
      assert KeysOf([]) == [] && UsedKeys([]) == 0;
      ok := InsertLoggedKey(root, sep, left, right);
      lsn := lastLsn;
      ghost var track1 := Track();
      if ok {
        SetRoot(root);
        LogTwice(old(wal), old(lastLsn), treeId, [InsertInternal(root, sep, left, right)], track1.wal, lsn, [UpdateRoot(root)], wal, lastLsn);
        AppendedTwice(old(Track()), track1, Track(), treeId, false, false);
      }
    }

    /** LogUpdateRootNodePageIdOperation and the new root. */
    method SetRoot(root: PageId)
      modifies this`rootNodePageId, this`metadataLsn, this`wal, this`lastLsn
      ensures rootNodePageId == root && Appended(old(Track()), Track(), treeId, false)
      ensures LogReport(old(wal), old(lastLsn), treeId, [UpdateRoot(root)], wal, lastLsn) == Consistent
      ensures old(Audit(pages, wal, lastLsn)) == Consistent ==> Audit(pages, wal, lastLsn) == Consistent
    {
      var lsn := Log(UpdateRoot(root));
      LogOne(old(wal), old(lastLsn), treeId, UpdateRoot(root));
      AppendOne(old(Track()), wal[|wal| - 1]);
      if old(Audit(pages, wal, lastLsn)) == Consistent {
        NoPageJournal(pages, old(wal), old(lastLsn), wal[|wal| - 1]);
      }
      metadataLsn := lsn;
      rootNodePageId := root;
    }

    /** A new root page for a leaf root split: its kind byte is set to internal. */
    method NewInternalRoot() returns (root: PageId)
      requires Available(alloc, pages.Keys)
      modifies this`pages, this`alloc, this`wal, this`lastLsn
      ensures root == NextId(old(alloc)) && alloc == Taken(old(alloc)) && Appended(old(Track()), Track(), treeId, false)
      ensures LogReport(old(wal), old(lastLsn), treeId, [CreateOp(old(alloc), false)], wal, lastLsn) == Consistent
      ensures pages == old(pages)[root := Page(lastLsn, true, Empty)]
      ensures old(Audit(pages, wal, lastLsn)) == Consistent ==> Audit(pages, wal, lastLsn) == Consistent
    {
      var fromFreeList;
      root, fromFreeList := NewPage();
      var lsn := Log(CreatePage(root, false, fromFreeList));
      Overwritten(old(pages), root, pages[root], Page(lsn, true, Empty));
      pages := pages[root := pages[root].(lsn := lsn, internal := true)];
      LogOne(old(wal), old(lastLsn), treeId, CreateOp(old(alloc), false));
      AppendCreate(old(Track()), wal[|wal| - 1], old(alloc));
      CreateAudit(old(pages), old(wal), old(lastLsn), treeId, root, false, fromFreeList, Page(lsn, true, Empty));
    }

    /** HandleLeafRootNodeSplit. */
    method HandleLeafRootNodeSplit(pid: PageId, k: Bytes, v: Bytes, ghost t: Tree) returns (ok: bool)
      requires t.LeafT? && Rep(pages, t) && t.pid == pid && |t.page.slots| == |t.page.elems| && Sound(alloc, pages.Keys)
      modifies this`rootNodePageId, this`metadataLsn, this`pages, this`alloc, this`wal, this`lastLsn
      ensures Appended(old(Track()), Track(), treeId, false)
      ensures ok ==> LogReport(old(wal), old(lastLsn), treeId, LeafOverflowLog(t, k, v, true, old(alloc)), wal, lastLsn) == Consistent
      ensures var st := LeafOverflow(t, k, v, true, old(alloc), stale);
        && ok == !st.out.Crash?
        && (ok ==> Wrote(old(pages), t, st, pages, alloc, None, 0, 0) && st.out.Whole? && rootNodePageId == st.out.t.pid)
      ensures ok ==> SplitIndex(t.page.slots) < |t.page.elems|
      ensures ok ==> var sep := t.page.elems[SplitIndex(t.page.slots)].key;
        Used(t.page.elems) <= CAPACITY && NextId(Taken(old(alloc))) !in stale && GrowOk(sep) && old(Audit(pages, wal, lastLsn)) == Consistent ==>
          Audit(pages, wal, lastLsn) == Consistent
    {
      TwoFresh(alloc, pages.Keys);
      LeafRootCrashes(t, k, v, alloc, stale);
      var root := NewInternalRoot();
      ghost var track1, page, last1 := Track(), pages[root], lastLsn;
      var sep, right;
      ok, sep, right := HandleLeafNodeSplit(pid, k, v);
      AppendedTwice(old(Track()), track1, Track(), treeId, false, false);
      ghost var split := LeafSplitLog(pid, t.page, k, v, Taken(old(alloc)));
      LogTwice(old(wal), old(lastLsn), treeId, [CreateOp(old(alloc), false)], track1.wal, last1, split, wal, lastLsn);
      if !ok {
        return;
      }
      ghost var mid, track2, lsn := pages, Track(), lastLsn;
      var lsn';
      ok, lsn' := CrownRoot(root, sep, pid, right);
      AppendedTwice(old(Track()), track2, Track(), treeId, false, false);
      if ok {
        LogTwice(old(wal), old(lastLsn), treeId, [CreateOp(old(alloc), false)] + split, track2.wal, lsn,
                 CrownLog(root, sep, pid, right), wal, lastLsn);
        LeafRootWrote(old(pages), t, k, v, old(alloc), stale, page, mid, lsn, lsn', pages);
      }
    }

    // ------------------------------------------------------- internal splits

    /** InsertKey on a half, its result ignored; not ok is a panic. */
    method InsertKeyInto(seps: seq<Sep>, k: Bytes, l: PageId, r: PageId) returns (ok: bool, seps': seq<Sep>)
      ensures ok == !SepInsert(seps, k, l, r).SepBroken? && (ok ==> seps' == Kept(SepInsert(seps, k, l, r), seps))
    {
      match SepInsert(seps, k, l, r) {
        case SepRefused => ok, seps' := true, seps;
        case SepDone(s) => ok, seps' := true, s;
        case SepBroken => ok, seps' := false, seps;
      }
    }

    /** Split of an internal page and the insertion after it, on the two lists of separators. */
    method SplitSeps(seps: seq<Sep>, idx: nat, k: Bytes, l: PageId, r: PageId) returns (ok: bool, a: seq<Sep>, b: seq<Sep>)
      requires idx == SplitIndex(SepSizes(KeysOf(seps)))
      ensures ok == NodeHalves(seps, k, l, r).Some?
      ensures ok ==> NodeHalves(seps, k, l, r) == Some((a, b)) && idx < |seps|
    {
      a, b := seps, seps;
      if idx >= |seps| {
        return false, a, b;
      }
      a, b := seps[..idx], seps[idx + 1..];
      if Lt(k, seps[idx].key) {
        ok, a := InsertKeyInto(a, k, l, r);
      } else {
        ok, b := InsertKeyInto(b, k, l, r);
      }
    }

    /** LogSplitInternalNodeOperation with the split index and the separators of the page. */
    method LogNodeSplit(pid: PageId, right: PageId, seps: seq<Sep>, k: Bytes, l: PageId, r: PageId) returns (idx: nat, lsn: nat)
      modifies this`wal, this`lastLsn
      ensures idx == SplitIndex(SepSizes(KeysOf(seps))) && lsn == lastLsn == old(lastLsn) + 1
      ensures wal == old(wal) + [Record(lsn, treeId, NodeSplitOp(pid, seps, right, k, l, r))]
      ensures LogReport(old(wal), old(lastLsn), treeId, [NodeSplitOp(pid, seps, right, k, l, r)], wal, lastLsn) == Consistent
      ensures Appended(old(Track()), Track(), treeId, false)
    {
      idx := FindSplitNodeIndex(SepSizes(KeysOf(seps)));
      lsn := Log(SplitInternal(pid, right, idx, k, l, r, seps));
      LogOne(old(wal), old(lastLsn), treeId, NodeSplitOp(pid, seps, right, k, l, r));
      AppendOne(old(Track()), wal[|wal| - 1]);
    }

    /** The second half of HandleInternalNodeSplit: log the split, raise the three LSNs, split and insert. */
    method SplitNodeInto(pid: PageId, right: PageId, parent: PageId, k: Bytes, l: PageId, r: PageId) returns (ok: bool, up: Bytes)
      requires pid in pages && right in pages && parent in pages && pid != right && pid != parent && right != parent
      requires pages[pid].body.NodeB? && pages[right].body.Empty?
      modifies this`pages, this`wal, this`lastLsn
      ensures Appended(old(Track()), Track(), treeId, false)
      ensures LogReport(old(wal), old(lastLsn), treeId, [NodeSplitOp(pid, SepsIn(old(pages)[pid].body), right, k, l, r)], wal, lastLsn)
        == Consistent
      ensures var seps := SepsIn(old(pages)[pid].body);
        var halves := NodeHalves(seps, k, l, r);
        && ok == halves.Some?
        && (ok ==> && up == seps[SplitIndex(SepSizes(KeysOf(seps)))].key
                   && pages == SplitPages(old(pages), pid, right, parent, halves.value.0, halves.value.1, lastLsn))
      ensures ok && old(Audit(pages, wal, lastLsn)) == Consistent ==> Audit(pages, wal, lastLsn) == Consistent
    {
      var seps := SepsIn(pages[pid].body);
      var idx, lsn := LogNodeSplit(pid, right, seps, k, l, r);
      var a, b;
      ok, a, b := SplitSeps(seps, idx, k, l, r);
      if !ok {
        return false, [];
      }
      up := seps[idx].key;
      StoreSplit(pid, right, parent, a, b, lsn);
      NodeSplitAudit(old(pages), old(wal), old(lastLsn), treeId, pid, right, parent, k, l, r, a, b);
    }

    /** The two halves and the LSN of the parent, written to their pages. */
    method StoreSplit(pid: PageId, right: PageId, parent: PageId, a: seq<Sep>, b: seq<Sep>, lsn: nat)
      requires pid in pages && right in pages && parent in pages && pid != right && pid != parent && right != parent
      modifies this`pages
      ensures pages == SplitPages(old(pages), pid, right, parent, a, b, lsn)
    {
      SetLSN(parent, lsn);
      pages := pages[right := pages[right].(lsn := lsn, body := NodeB(b))];
      pages := pages[pid := pages[pid].(lsn := lsn, body := NodeB(a))];
    }

    /** HandleInternalNodeSplit: not ok is a panic. */
    method HandleInternalNodeSplit(pid: PageId, parent: PageId, k: Bytes, l: PageId, r: PageId) returns (ok: bool, up: Bytes, right: PageId)
      requires pid in pages && parent in pages && pid != parent && pages[pid].body.NodeB? && Available(alloc, pages.Keys)
      modifies this`pages, this`alloc, this`wal, this`lastLsn
      ensures right == NextId(old(alloc)) && alloc == Taken(old(alloc)) && Appended(old(Track()), Track(), treeId, false)
      ensures LogReport(old(wal), old(lastLsn), treeId, NodeSplitLog(pid, SepsIn(old(pages)[pid].body), k, l, r, old(alloc)), wal, lastLsn)
        == Consistent
      ensures var seps := SepsIn(old(pages)[pid].body);
        var halves := NodeHalves(seps, k, l, r);
        && ok == halves.Some?
        && (ok ==> && up == seps[SplitIndex(SepSizes(KeysOf(seps)))].key
                   && NodeSplitStore(old(pages), pid, right, parent, halves.value, lastLsn, stale, pages))
      ensures ok && NodeSplitOk(KeysOf(SepsIn(old(pages)[pid].body)), k, right, stale) && old(Audit(pages, wal, lastLsn)) == Consistent ==>
        Audit(pages, wal, lastLsn) == Consistent
    {
      right := NewLoggedPage(false);
      ghost var track1, last1 := Track(), lastLsn;
      ghost var blank := pages[right];
      ok, up := SplitNodeInto(pid, right, parent, k, l, r);
      LogTwice(old(wal), old(lastLsn), treeId, [CreateOp(old(alloc), false)], track1.wal, last1,
               [NodeSplitOp(pid, SepsIn(old(pages)[pid].body), right, k, l, r)], wal, lastLsn);
      AppendedTwice(old(Track()), track1, Track(), treeId, false, false);
      if ok {
        StoredOverFresh(old(pages), pid, right, parent, NodeHalves(SepsIn(old(pages)[pid].body), k, l, r).value, lastLsn, stale, blank);
      }
    }

    /** HandleInternalRootNodeSplit: not ok is a panic. The ghost results are the stores between its steps. */
    method HandleInternalRootNodeSplit(pid: PageId, k: Bytes, l: PageId, r: PageId)
      returns (ok: bool, ghost page: Page, ghost mid: Store, ghost lsn: nat, lsn': nat)
      requires pid in pages && pages[pid].body.NodeB? && Sound(alloc, pages.Keys)
      modifies this`rootNodePageId, this`metadataLsn, this`pages, this`alloc, this`wal, this`lastLsn
      ensures Appended(old(Track()), Track(), treeId, false)
      ensures ok ==>
        LogReport(old(wal), old(lastLsn), treeId, NodeOverflowLog(pid, SepsIn(old(pages)[pid].body), k, l, r, true, old(alloc)), wal, lastLsn)
          == Consistent
      ensures page.body.Empty? && page.internal == (NextId(old(alloc)) in stale)
      ensures var seps := SepsIn(old(pages)[pid].body);
        var idx, halves := SplitIndex(SepSizes(KeysOf(seps))), NodeHalves(seps, k, l, r);
        var root, right := NextId(old(alloc)), NextId(Taken(old(alloc)));
        && ok == (halves.Some? && BodyAfter(Empty, seps[idx].key, pid, right).Some?)
        && (ok ==>
              && NodeSplitStore(old(pages)[root := page], pid, right, root, halves.value, lsn, stale, mid)
              && root in mid && pages == mid[root := mid[root].(lsn := lsn', body := BodyAfter(Empty, seps[idx].key, pid, right).value)]
              && rootNodePageId == root && alloc == Taken(Taken(old(alloc))))
        && (ok && NodeSplitOk(KeysOf(seps), k, right, stale) && root in stale && GrowOk(seps[idx].key)
            && old(Audit(pages, wal, lastLsn)) == Consistent ==>
              Audit(pages, wal, lastLsn) == Consistent)
    {
      TwoFresh(alloc, pages.Keys);
      var root := NewLoggedPage(false);
      ghost var track1, last1, seps := Track(), lastLsn, SepsIn(old(pages)[pid].body);
      page, mid, lsn, lsn' := pages[root], pages, 0, 0;
      var up, right;
      ok, up, right := HandleInternalNodeSplit(pid, root, k, l, r);
      ghost var split := NodeSplitLog(pid, seps, k, l, r, Taken(old(alloc)));
      LogTwice(old(wal), old(lastLsn), treeId, [CreateOp(old(alloc), false)], track1.wal, last1, split, wal, lastLsn);
      AppendedTwice(old(Track()), track1, Track(), treeId, false, false);
      if !ok {
        return;
      }
      mid, lsn := pages, lastLsn;
      ghost var track2 := Track();
      ok, lsn' := CrownRoot(root, up, pid, right);
      AppendedTwice(old(Track()), track2, Track(), treeId, false, false);
      if ok {
        LogTwice(old(wal), old(lastLsn), treeId, [CreateOp(old(alloc), false)] + split, track2.wal, lsn,
                 CrownLog(root, up, pid, right), wal, lastLsn);
      }
    }

    // ----------------------------------------------------------- leaf writes

    /** The update branch of writeTraversal; not ok is a panic. */
    method UpdateValue(pid: PageId, k: Bytes, v: Bytes, was: Bytes) returns (ok: bool)
      requires pid in pages && !pages[pid].body.NodeB?
      requires var leaf := LeafOf(pages[pid].body);
        |leaf.slots| == |leaf.elems| && Has(leaf.elems, k) && was == leaf.elems[Pos(leaf.elems, k)].value
      modifies this`pages, this`wal, this`lastLsn
      ensures Appended(old(Track()), Track(), treeId, true)
      ensures LogReport(old(wal), old(lastLsn), treeId, [UpdateLeaf(pid, k, v)], wal, lastLsn) == Consistent
      ensures var res := SetValue(CheckedUpdate(LeafOf(old(pages)[pid].body), k, was, v), k, v);
        && ok == res.Done?
        && (ok ==> pages == old(pages)[pid := old(pages)[pid].(lsn := lastLsn, body := LeafB(res.page))])
        && (ok && old(Audit(pages, wal, lastLsn)) == Consistent ==> Audit(pages, wal, lastLsn) == Consistent)
    {
      var leaf := CheckedUpdate(LeafOf(pages[pid].body), k, was, v);
      var lsn := Log(UpdateLeaf(pid, k, v));
      LogOne(old(wal), old(lastLsn), treeId, UpdateLeaf(pid, k, v));
      AppendOne(old(Track()), wal[|wal| - 1]);
      var res := SetValue(leaf, k, v);
      ok := res.Done?;
      if ok {
        pages := pages[pid := pages[pid].(lsn := lsn, body := LeafB(res.page))];
        if old(Audit(pages, wal, lastLsn)) == Consistent {
          UpdateJournal(old(pages), old(wal), old(lastLsn), treeId, pid, k, v, res.page);
        }
      }
    }

    /** The insertion branch of writeTraversal, with the result of the insertion ignored; not ok is a panic. */
    method AddValue(pid: PageId, k: Bytes, v: Bytes) returns (ok: bool)
      requires pid in pages && !pages[pid].body.NodeB?
      requires var leaf := LeafOf(pages[pid].body); |leaf.slots| == |leaf.elems|
      modifies this`pages, this`wal, this`lastLsn
      ensures Appended(old(Track()), Track(), treeId, false)
      ensures LogReport(old(wal), old(lastLsn), treeId, [InsertLeaf(pid, k, v)], wal, lastLsn) == Consistent
      ensures var leaf := Checked(LeafOf(old(pages)[pid].body), ElemSize(KV(k, v)));
        var res := InsertIgnored(leaf, k, v);
        && ok == res.Some?
        && (ok ==> pages == old(pages)[pid := old(pages)[pid].(lsn := lastLsn, body := LeafB(res.value))])
        && (Lands(LeafOf(old(pages)[pid].body), k, v) && old(Audit(pages, wal, lastLsn)) == Consistent ==>
              Audit(pages, wal, lastLsn) == Consistent)
    {
      var leaf := Checked(LeafOf(pages[pid].body), ElemSize(KV(k, v)));
      var lsn := Log(InsertLeaf(pid, k, v));
      LogOne(old(wal), old(lastLsn), treeId, InsertLeaf(pid, k, v));
      AppendOne(old(Track()), wal[|wal| - 1]);
      var q;
      ok, q := InsertKeyValue(leaf, k, v);
      if ok {
        pages := pages[pid := pages[pid].(lsn := lsn, body := LeafB(q))];
        InsertAudit(old(pages), old(wal), old(lastLsn), treeId, pid, k, v, q);
      }
    }

    /** A leaf that cannot take the element: split it, under a new root if it is the root. */
    method OverflowLeaf(pid: PageId, k: Bytes, v: Bytes, ghost t: Tree)
      returns (ok: bool, extra: Option<Bytes>, left: PageId, right: PageId)
      requires t.LeafT? && Rep(pages, t) && t.pid == pid && |t.page.slots| == |t.page.elems| && Sound(alloc, pages.Keys)
      modifies this`rootNodePageId, this`metadataLsn, this`pages, this`alloc, this`wal, this`lastLsn
      ensures Appended(old(Track()), Track(), treeId, false)
      ensures ok ==>
        LogReport(old(wal), old(lastLsn), treeId, LeafOverflowLog(t, k, v, old(rootNodePageId) == pid, old(alloc)), wal, lastLsn) == Consistent
      ensures var isRoot := old(rootNodePageId) == pid;
        var st := LeafOverflow(t, k, v, isRoot, old(alloc), stale);
        && ok == !st.out.Crash?
        && (ok ==> WriteReport(old(pages), t, st, pages, alloc, extra, left, right) == Consistent)
        && (ok && isRoot ==> st.out.Whole? && rootNodePageId == st.out.t.pid)
        && (!isRoot ==> rootNodePageId == old(rootNodePageId))
      ensures ok && Used(t.page.elems) <= CAPACITY && LeafOverflowOk(t.page, k, v, old(rootNodePageId) == pid, old(alloc), stale)
              && old(Audit(pages, wal, lastLsn)) == Consistent ==>
        Audit(pages, wal, lastLsn) == Consistent
    {
      extra, left, right := None, 0, 0;
      if rootNodePageId == pid {
        ok := HandleLeafRootNodeSplit(pid, k, v, t);
      } else {
        AllocateSound(alloc, pages.Keys);
        LeafHalvesOut(t, k, v, alloc, stale);
        var sep;
        ok, sep, right := HandleLeafNodeSplit(pid, k, v);
        extra, left := Some(sep), pid;
        if ok {
          LeafSplitShows(old(pages), t, k, v, old(alloc), stale, lastLsn, pages);
        }
      }
    }

    /** The two branches of the leaf case that pass their space check. */
    method WriteInPlace(pid: PageId, k: Bytes, v: Bytes, found: Option<Bytes>, ghost t: Tree, ghost lo: Option<Bytes>, ghost hi: Option<Bytes>)
      returns (ok: bool)
      requires t.LeafT? && Rep(pages, t) && t.pid == pid && WF(t, 0, lo, hi)
      requires found.Some? == Has(t.page.elems, k) && (found.Some? ==> found.value == t.page.elems[Pos(t.page.elems, k)].value)
      requires if found.Some? then HasSpaceToUpdate(t.page, k, found.value, v) else HasSpace(t.page, ElemSize(KV(k, v)))
      modifies this`pages, this`wal, this`lastLsn
      ensures Appended(old(Track()), Track(), treeId, found.Some?)
      ensures LogReport(old(wal), old(lastLsn), treeId, WriteLeafLog(t, k, v, rootNodePageId == pid, alloc), wal, lastLsn) == Consistent
      ensures var isRoot := rootNodePageId == pid;
        var st := WriteLeaf(t, k, v, isRoot, alloc, stale);
        && ok == !st.out.Crash?
        && (ok ==> WriteReport(old(pages), t, st, pages, alloc, None, 0, 0) == Consistent && st.out.Whole? && st.out.t.pid == pid)
        && (ok && LeafOk(t, k, v, isRoot, alloc, stale) && old(Audit(pages, wal, lastLsn)) == Consistent ==>
              Audit(pages, wal, lastLsn) == Consistent)
    {
      if found.Some? {
        ok := UpdateValue(pid, k, v, found.value);
      } else {
        GuardLands(t, lo, hi, k, v, rootNodePageId == pid, alloc, stale);
        ok := AddValue(pid, k, v);
      }
      if ok {
        LeafStays(old(pages), t, LeafOf(pages[pid].body), lastLsn, alloc, pages);
      }
    }

    /** The leaf case of writeTraversal. */
    method WriteLeafPage(pid: PageId, k: Bytes, v: Bytes, ghost t: Tree, ghost lo: Option<Bytes>, ghost hi: Option<Bytes>)
      returns (ok: bool, extra: Option<Bytes>, left: PageId, right: PageId)
      requires t.LeafT? && Rep(pages, t) && t.pid == pid && WF(t, 0, lo, hi) && Sound(alloc, pages.Keys)
      modifies this`rootNodePageId, this`metadataLsn, this`pages, this`alloc, this`wal, this`lastLsn
      ensures Appended(old(Track()), Track(), treeId, Has(t.page.elems, k))
      ensures ok ==>
        LogReport(old(wal), old(lastLsn), treeId, WriteLeafLog(t, k, v, old(rootNodePageId) == pid, old(alloc)), wal, lastLsn) == Consistent
      ensures var isRoot := old(rootNodePageId) == pid;
        var st := WriteLeaf(t, k, v, isRoot, old(alloc), stale);
        && ok == !st.out.Crash?
        && (ok ==> WriteReport(old(pages), t, st, pages, alloc, extra, left, right) == Consistent)
        && (ok && isRoot ==> st.out.Whole? && rootNodePageId == st.out.t.pid)
        && (!isRoot ==> rootNodePageId == old(rootNodePageId))
        && (ok && LeafOk(t, k, v, isRoot, old(alloc), stale) && old(Audit(pages, wal, lastLsn)) == Consistent ==>
              Audit(pages, wal, lastLsn) == Consistent)
    {
      var leaf := LeafOf(pages[pid].body);
      extra, left, right := None, 0, 0;
      var found := FindValue(leaf.elems, k);
      if (if found.Some? then HasSpaceToUpdate(leaf, k, found.value, v) else HasSpace(leaf, ElemSize(KV(k, v)))) {
        ok := WriteInPlace(pid, k, v, found, t, lo, hi);
      } else {
        GuardOverflows(t, lo, hi, k, v, rootNodePageId == pid, alloc, stale);
        ok, extra, left, right := OverflowLeaf(pid, k, v, t);
        if found.Some? {
          AppendedLoosely(old(Track()), Track(), treeId);
        }
      }
    }

    // ----------------------------------------------------------- node writes

    /** A separator that does not fit: split the node, under a new root if it is the root. */
    method AbsorbOverflow(pid: PageId, parent: PageId, sep: Bytes, l: PageId, r: PageId, ghost pages0: Store, ghost t: Tree,
                          ghost lo: Option<Bytes>, ghost hi: Option<Bytes>, ghost i: nat, ghost st: Step)
      returns (ok: bool, extra: Option<Bytes>, left: PageId, right: PageId)
      requires t.pid == pid && KidSplit(pages0, pages, t, lo, hi, i, st, alloc)
      requires st.out.sep == sep && st.out.left.pid == l && st.out.right.pid == r
      requires !Adequate(FreeKeys(t.keys), SepSize(sep))
      requires rootNodePageId != pid ==> parent in pages && parent != pid
      modifies this`rootNodePageId, this`metadataLsn, this`pages, this`alloc, this`wal, this`lastLsn
      ensures Appended(old(Track()), Track(), treeId, false)
      ensures ok ==> LogReport(old(wal), old(lastLsn), treeId, NodeLog(t, st, old(rootNodePageId) == pid), wal, lastLsn) == Consistent
      ensures var isRoot := old(rootNodePageId) == pid;
        var up := WriteNode(t, i, st, isRoot, stale);
        && ok == !up.out.Crash?
        && (ok ==> WriteReport(pages0, t, up, pages, alloc, extra, left, right) == Consistent)
        && (ok && isRoot ==> up.out.Whole? && rootNodePageId == up.out.t.pid)
        && (!isRoot ==> rootNodePageId == old(rootNodePageId))
        && (ok && NodeOk(t.keys, sep, isRoot, st.alloc, stale) && old(Audit(pages, wal, lastLsn)) == Consistent ==>
              Audit(pages, wal, lastLsn) == Consistent)
    {
      BelowReady(pages0, pages, t, lo, hi, i, st, alloc);
      SepsForMatch(SepsIn(pages[pid].body), t.keys, t.kids);
      extra, left, right := None, 0, 0;
      if rootNodePageId == pid {
        ghost var page, mid, lsn;
        var lsn';
        SplitCrashes(pages0, pages, t, lo, hi, i, st, alloc, Taken(alloc), stale);
        ok, page, mid, lsn, lsn' := HandleInternalRootNodeSplit(pid, sep, l, r);
        AbsorbRootOutcome(pages0, old(pages), t, lo, hi, i, st, old(alloc), stale);
        if ok {
          AbsorbRoot(pages0, old(pages), t, lo, hi, i, st, old(alloc), stale, page, mid, lsn, lsn', pages);
        }
      } else {
        SplitCrashes(pages0, pages, t, lo, hi, i, st, alloc, alloc, stale);
        AllocateSound(alloc, pages.Keys);
        var up;
        ok, up, right := HandleInternalNodeSplit(pid, parent, sep, l, r);
        extra, left := Some(up), pid;
        if ok {
          AbsorbSplits(pages0, old(pages), t, lo, hi, i, st, old(alloc), stale, parent, lastLsn, pages);
        }
      }
    }

    /** The separator of a split child goes to the page of the node. */
    method AbsorbKey(pid: PageId, sep: Bytes, l: PageId, r: PageId, ghost pages0: Store, ghost t: Tree, ghost lo: Option<Bytes>,
                     ghost hi: Option<Bytes>, ghost i: nat, ghost st: Step)
      returns (ok: bool)
      requires t.pid == pid && KidSplit(pages0, pages, t, lo, hi, i, st, alloc)
      requires st.out.sep == sep && st.out.left.pid == l && st.out.right.pid == r && Adequate(FreeKeys(t.keys), SepSize(sep))
      modifies this`pages, this`wal, this`lastLsn
      ensures Appended(old(Track()), Track(), treeId, false)
      ensures LogReport(old(wal), old(lastLsn), treeId, NodeLog(t, st, rootNodePageId == pid), wal, lastLsn) == Consistent
      ensures var isRoot := rootNodePageId == pid;
        var up := WriteNode(t, i, st, isRoot, stale);
        && ok == !up.out.Crash?
        && (ok ==> WriteReport(pages0, t, up, pages, alloc, None, 0, 0) == Consistent)
        && (ok && isRoot ==> up.out.Whole? && rootNodePageId == up.out.t.pid)
        && (ok && NodeOk(t.keys, sep, isRoot, st.alloc, stale) && old(Audit(pages, wal, lastLsn)) == Consistent ==>
              Audit(pages, wal, lastLsn) == Consistent)
    {
      BelowReady(pages0, pages, t, lo, hi, i, st, alloc);
      ok := InsertLoggedKey(pid, sep, l, r);
      AbsorbTakes(pages0, old(pages), t, lo, hi, i, st, alloc, rootNodePageId == pid, stale, lastLsn, pages);
    }

    /** What writeTraversal does with a child that handed up a separator. */
    method AbsorbSplit(pid: PageId, parent: PageId, sep: Bytes, l: PageId, r: PageId, ghost pages0: Store, ghost t: Tree,
                       ghost lo: Option<Bytes>, ghost hi: Option<Bytes>, ghost i: nat, ghost st: Step)
      returns (ok: bool, extra: Option<Bytes>, left: PageId, right: PageId)
      requires t.pid == pid && KidSplit(pages0, pages, t, lo, hi, i, st, alloc)
      requires st.out.sep == sep && st.out.left.pid == l && st.out.right.pid == r
      requires rootNodePageId != pid ==> parent in pages && parent != pid
      modifies this`rootNodePageId, this`metadataLsn, this`pages, this`alloc, this`wal, this`lastLsn
      ensures Appended(old(Track()), Track(), treeId, false)
      ensures ok ==> LogReport(old(wal), old(lastLsn), treeId, NodeLog(t, st, old(rootNodePageId) == pid), wal, lastLsn) == Consistent
      ensures var isRoot := old(rootNodePageId) == pid;
        var up := WriteNode(t, i, st, isRoot, stale);
        && ok == !up.out.Crash?
        && (ok ==> WriteReport(pages0, t, up, pages, alloc, extra, left, right) == Consistent)
        && (ok && isRoot ==> up.out.Whole? && rootNodePageId == up.out.t.pid)
        && (!isRoot ==> rootNodePageId == old(rootNodePageId))
        && (ok && NodeOk(t.keys, sep, isRoot, st.alloc, stale) && old(Audit(pages, wal, lastLsn)) == Consistent ==>
              Audit(pages, wal, lastLsn) == Consistent)
    {
      BelowReady(pages0, pages, t, lo, hi, i, st, alloc);
      if Adequate(FreeKeys(KeysOf(SepsIn(pages[pid].body))), SepSize(sep)) {
        extra, left, right := None, 0, 0;
        ok := AbsorbKey(pid, sep, l, r, pages0, t, lo, hi, i, st);
      } else {
        ok, extra, left, right := AbsorbOverflow(pid, parent, sep, l, r, pages0, t, lo, hi, i, st);
      }
    }

    /** What writeTraversal does after its recursive call. */
    method Absorb(pid: PageId, parent: PageId, k: Bytes, v: Bytes, sep: Option<Bytes>, l: PageId, r: PageId, ghost pages0: Store,
                  ghost al: Alloc,
                  ghost t: Tree, ghost h: nat, ghost lo: Option<Bytes>, ghost hi: Option<Bytes>)
      returns (ok: bool, extra: Option<Bytes>, left: PageId, right: PageId)
      requires t.NodeT? && Rep(pages0, t) && t.pid == pid && WF(t, h, lo, hi) && Shaped(t) && Distinct(t) && Sound(al, pages0.Keys)
      requires rootNodePageId == pid || (parent in pages && parent != pid)
      requires var i := Route(t.keys, k);
        WriteReport(pages0, t.kids[i], Write(t.kids[i], k, v, false, al, stale), pages, alloc, sep, l, r) == Consistent
      modifies this`rootNodePageId, this`metadataLsn, this`pages, this`alloc, this`wal, this`lastLsn
      ensures Appended(old(Track()), Track(), treeId, false)
      ensures ok ==>
        var st := Write(t.kids[Route(t.keys, k)], k, v, false, al, stale);
        LogReport(old(wal), old(lastLsn), treeId, NodeLog(t, st, old(rootNodePageId) == pid), wal, lastLsn) == Consistent
      ensures var isRoot := old(rootNodePageId) == pid;
        var st := Write(t, k, v, isRoot, al, stale);
        && ok == !st.out.Crash?
        && (ok ==> WriteReport(pages0, t, st, pages, alloc, extra, left, right) == Consistent)
        && (ok && isRoot ==> st.out.Whole? && rootNodePageId == st.out.t.pid)
        && (!isRoot ==> rootNodePageId == old(rootNodePageId))
        && (ok && WriteOk(t, k, v, isRoot, al, stale) && old(Audit(pages, wal, lastLsn)) == Consistent ==>
              Audit(pages, wal, lastLsn) == Consistent)
    {
      ghost var i := Route(t.keys, k);
      ghost var st := Write(t.kids[i], k, v, false, al, stale);
      KidSplitFacts(pages0, pages, t, h, lo, hi, k, v, al, stale, alloc, sep, l, r);
      if sep.None? {
        ok, extra, left, right := true, None, 0, 0;
        AppendNothing(Track(), treeId);
        LogNone(wal, lastLsn, treeId);
        AbsorbWhole(pages0, pages, t, i, st, alloc, rootNodePageId == pid, stale);
      } else {
        ok, extra, left, right := AbsorbSplit(pid, parent, sep.value, l, r, pages0, t, lo, hi, i, st);
      }
    }

    /** writeTraversal: exactly what Trees.Write does to the tree on these pages; not ok is a panic. */
    method WriteTraversal(pid: PageId, parent: PageId, k: Bytes, v: Bytes, ghost t: Tree, ghost h: nat, ghost lo: Option<Bytes>,
                          ghost hi: Option<Bytes>)
      returns (ok: bool, extra: Option<Bytes>, left: PageId, right: PageId)
      requires Rep(pages, t) && t.pid == pid && WF(t, h, lo, hi) && Shaped(t) && Distinct(t) && Sound(alloc, pages.Keys)
      requires InRange(k, lo, hi)
      requires rootNodePageId == pid || (rootNodePageId !in Pids(t) && parent in pages && parent !in Pids(t))
      modifies this`rootNodePageId, this`metadataLsn, this`pages, this`alloc, this`wal, this`lastLsn
      ensures Appended(old(Track()), Track(), treeId, Trees.Get(t, k).Some?)
      ensures ok ==>
        LogReport(old(wal), old(lastLsn), treeId, WriteLog(t, k, v, old(rootNodePageId) == pid, old(alloc), stale), wal, lastLsn) == Consistent
      ensures var isRoot := old(rootNodePageId) == pid;
        var st := Write(t, k, v, isRoot, old(alloc), stale);
        && ok == !st.out.Crash?
        && (ok ==> WriteReport(old(pages), t, st, pages, alloc, extra, left, right) == Consistent)
        && (ok && isRoot ==> st.out.Whole? && rootNodePageId == st.out.t.pid)
        && (!isRoot ==> rootNodePageId == old(rootNodePageId))
        && (ok && WriteOk(t, k, v, isRoot, old(alloc), stale) && old(Audit(pages, wal, lastLsn)) == Consistent ==>
              Audit(pages, wal, lastLsn) == Consistent)
      decreases t, 1
    {
      LeafByKind(pages, t, h, lo, hi);
      if ReadsAsLeaf(pages[pid]) {
        ok, extra, left, right := WriteLeafPage(pid, k, v, t, lo, hi);
      } else {
        ok, extra, left, right := WriteNodePage(pid, parent, k, v, t, h, lo, hi);
      }
    }

    /** The internal case of writeTraversal. */
    method WriteNodePage(pid: PageId, parent: PageId, k: Bytes, v: Bytes, ghost t: Tree, ghost h: nat, ghost lo: Option<Bytes>,
                         ghost hi: Option<Bytes>)
      returns (ok: bool, extra: Option<Bytes>, left: PageId, right: PageId)
      requires t.NodeT? && Rep(pages, t) && t.pid == pid && WF(t, h, lo, hi) && Shaped(t) && Distinct(t) && Sound(alloc, pages.Keys)
      requires InRange(k, lo, hi)
      requires rootNodePageId == pid || (rootNodePageId !in Pids(t) && parent in pages && parent !in Pids(t))
      modifies this`rootNodePageId, this`metadataLsn, this`pages, this`alloc, this`wal, this`lastLsn
      ensures Appended(old(Track()), Track(), treeId, Trees.Get(t, k).Some?)
      ensures ok ==>
        LogReport(old(wal), old(lastLsn), treeId, WriteLog(t, k, v, old(rootNodePageId) == pid, old(alloc), stale), wal, lastLsn) == Consistent
      ensures var isRoot := old(rootNodePageId) == pid;
        var st := Write(t, k, v, isRoot, old(alloc), stale);
        && ok == !st.out.Crash?
        && (ok ==> WriteReport(old(pages), t, st, pages, alloc, extra, left, right) == Consistent)
        && (ok && isRoot ==> st.out.Whole? && rootNodePageId == st.out.t.pid)
        && (!isRoot ==> rootNodePageId == old(rootNodePageId))
        && (ok && WriteOk(t, k, v, isRoot, old(alloc), stale) && old(Audit(pages, wal, lastLsn)) == Consistent ==>
              Audit(pages, wal, lastLsn) == Consistent)
      decreases t, 0
    {
      EnterKid(pages, t, h, lo, hi, k);
      ghost var i := Route(t.keys, k);
      var child := FindNextChild(SepsIn(pages[pid].body), k, t.keys, t.kids);
      ok, extra, left, right := WriteTraversal(child, pid, k, v, t.kids[i], h - 1, LoOf(t.keys, lo, i), HiOf(t.keys, hi, i));
      if ok {
        ghost var track1, last1 := Track(), lastLsn;
        ok, extra, left, right := Absorb(pid, parent, k, v, extra, left, right, old(pages), old(alloc), t, h, lo, hi);
        AppendedTwice(old(Track()), track1, Track(), treeId, Trees.Get(t, k).Some?, false);
        if ok {
          ghost var st := Write(t.kids[i], k, v, false, old(alloc), stale);
          LogTwice(old(wal), old(lastLsn), treeId, WriteLog(t.kids[i], k, v, false, old(alloc), stale), track1.wal, last1,
                   NodeLog(t, st, old(rootNodePageId) == pid), wal, lastLsn);
        }
      }
    }

    // ------------------------------------------------------------ operations

    /** The root page of the first Insert: its creation, the first leaf and the root are logged. */
    method CreateFirstRoot()
      requires rootNodePageId == 0 && pages == map[] && Sound(alloc, {}) && NextId(alloc) !in stale
      modifies this`rootNodePageId, this`firstLeafNodePageId, this`metadataLsn, this`pages, this`alloc, this`wal, this`lastLsn
      ensures rootNodePageId == firstLeafNodePageId == NextId(old(alloc)) && alloc == Taken(old(alloc))
      ensures Appended(old(Track()), Track(), treeId, false)
      ensures LogReport(old(wal), old(lastLsn), treeId, FirstRootLog(old(alloc)), wal, lastLsn) == Consistent
      ensures exists lsn :: pages == map[rootNodePageId := FreshPage(lsn, rootNodePageId, stale)]
      ensures old(Audit(pages, wal, lastLsn)) == Consistent ==> Audit(pages, wal, lastLsn) == Consistent
    {
      var root := NewLoggedPage(true);
      ghost var track1, last1 := Track(), lastLsn;
      assert pages == map[root := FreshPage(last1, root, stale)];
      var lsn := Log(UpdateFirstLeaf(root));
      AppendOne(track1, wal[|wal| - 1]);
      if old(Audit(pages, wal, lastLsn)) == Consistent {
        NoPageJournal(pages, track1.wal, last1, wal[|wal| - 1]);
      }
      metadataLsn := lsn;
      firstLeafNodePageId := root;
      AppendedTwice(old(Track()), track1, Track(), treeId, false, false);
      LogOne(track1.wal, last1, treeId, UpdateFirstLeaf(root));
      LogTwice(old(wal), old(lastLsn), treeId, [CreateOp(old(alloc), true)], track1.wal, last1, [UpdateFirstLeaf(root)], wal, lastLsn);
      ghost var track2 := Track();
      SetRoot(root);
      AppendedTwice(old(Track()), track2, Track(), treeId, false, false);
      LogTwice(old(wal), old(lastLsn), treeId, [CreateOp(old(alloc), true)] + [UpdateFirstLeaf(root)], track2.wal, lsn,
               [UpdateRoot(root)], wal, lastLsn);
    }

    /** LogBeginOperation and LogCommitOperation. */
    method LogMark(op: LogOp)
      requires op.Begin? || op.Commit?
      modifies this`wal, this`lastLsn
      ensures lastLsn == old(lastLsn) + 1 && wal == old(wal) + [Record(lastLsn, treeId, op)]
      ensures LogReport(old(wal), old(lastLsn), treeId, [op], wal, lastLsn) == Consistent
      ensures old(Audit(pages, wal, lastLsn)) == Consistent ==> Audit(pages, wal, lastLsn) == Consistent
    {
      var lsn := Log(op);
      LogOne(old(wal), old(lastLsn), treeId, op);
      if old(Audit(pages, wal, lastLsn)) == Consistent {
        NoPageJournal(pages, old(wal), old(lastLsn), wal[|wal| - 1]);
      }
    }

    /** An empty tree gets its first page before the insertion of k and v. */
    method EnsureRoot(ghost k: Bytes, ghost v: Bytes)
      requires Valid()
      modifies this
      ensures Valid() && tree.Some? && TreeRuns.View(Db()) == TreeRuns.View(old(Db())) && Appended(old(Track()), Track(), treeId, false)
      ensures LogReport(old(wal), old(lastLsn), treeId, StartLog(old(Db())), wal, lastLsn) == Consistent
      ensures (tree.value, alloc) == TreeRuns.Start(old(Db()), stale)
      ensures TreeRuns.Apply(Db(), TreeRuns.Insert(k, v), stale) == TreeRuns.Apply(old(Db()), TreeRuns.Insert(k, v), stale)
      ensures TreeRuns.OpOk(Db(), TreeRuns.Insert(k, v), stale) == TreeRuns.OpOk(old(Db()), TreeRuns.Insert(k, v), stale)
      ensures old(Audit(pages, wal, lastLsn)) == Consistent ==> Audit(pages, wal, lastLsn) == Consistent
    {
      if rootNodePageId == 0 {
        CreateFirstRoot();
        ghost var lsn :| pages == map[rootNodePageId := FreshPage(lsn, rootNodePageId, stale)];
        StartHosted(old(Db()), lsn, stale, k, v);
        tree, height := Some(TreeRuns.Start(old(Db()), stale).0), 0;
      } else {
        AppendNothing(Track(), treeId);
        LogNone(wal, lastLsn, treeId);
      }
    }

    /** The traversal of Insert, from a root that exists. */
    method InsertFromRoot(k: Bytes, v: Bytes) returns (ok: bool)
      requires Valid() && tree.Some?
      modifies this
      ensures Appended(old(Track()), Track(), treeId, Lookup(TreeRuns.View(old(Db())), k).Some?)
      ensures ok ==>
        LogReport(old(wal), old(lastLsn), treeId, WriteLog(old(tree).value, k, v, true, old(alloc), stale), wal, lastLsn) == Consistent
      ensures var r := TreeRuns.Apply(old(Db()), TreeRuns.Insert(k, v), stale);
        && ok == r.Some?
        && (ok ==> Db() == r.value.0 && tree.Some? && rootNodePageId == tree.value.pid && RepAll(pages, [tree.value]))
      ensures ok && InsertVerdict(old(Db()), k, v, pages, rootNodePageId, Db(), height) == Consistent
        <==> TreeRuns.OpOk(old(Db()), TreeRuns.Insert(k, v), stale)
      ensures TreeRuns.OpOk(old(Db()), TreeRuns.Insert(k, v), stale) && old(Audit(pages, wal, lastLsn)) == Consistent ==>
        Audit(pages, wal, lastLsn) == Consistent
    {
      GuardedInsertRuns(Db(), k, v, stale);
      GetIsLookup(tree.value, height, None, None, k);
      var extra, left, right;
      ok, extra, left, right := WriteTraversal(rootNodePageId, 0, k, v, tree.value, height, None, None);
      if ok {
        InsertKept(old(Db()), height, k, v, stale, old(pages), old(rootNodePageId), pages, alloc);
        tree := Some(Write(tree.value, k, v, true, old(alloc), stale).out.t);
        height := HeightAfter(old(rootNodePageId), rootNodePageId, height);
      }
    }

    /** What Insert does between the marks of its group. */
    method InsertOperations(k: Bytes, v: Bytes) returns (ok: bool)
      requires Valid()
      modifies this
      ensures Appended(old(Track()), Track(), treeId, Lookup(TreeRuns.View(old(Db())), k).Some?)
      ensures ok ==> LogReport(old(wal), old(lastLsn), treeId, BodyLog(old(Db()), k, v, stale), wal, lastLsn) == Consistent
      ensures var r := TreeRuns.Apply(old(Db()), TreeRuns.Insert(k, v), stale);
        && ok == r.Some?
        && (ok ==> Db() == r.value.0 && tree.Some? && rootNodePageId == tree.value.pid && RepAll(pages, [tree.value]))
      ensures ok && InsertVerdict(old(Db()), k, v, pages, rootNodePageId, Db(), height) == Consistent
        <==> TreeRuns.OpOk(old(Db()), TreeRuns.Insert(k, v), stale)
      ensures TreeRuns.OpOk(old(Db()), TreeRuns.Insert(k, v), stale) && old(Audit(pages, wal, lastLsn)) == Consistent ==>
        Audit(pages, wal, lastLsn) == Consistent
    {
      EnsureRoot(k, v);
      ghost var track1, last1 := Track(), lastLsn;
      ok := InsertFromRoot(k, v);
      AppendedTwice(old(Track()), track1, Track(), treeId, false, Lookup(TreeRuns.View(old(Db())), k).Some?);
      if ok {
        ghost var (t, al) := TreeRuns.Start(old(Db()), stale);
        LogTwice(old(wal), old(lastLsn), treeId, StartLog(old(Db())), track1.wal, last1,
                 WriteLog(t, k, v, true, al, stale), wal, lastLsn);
      }
    }

    /**
     Insert: not ok is a panic. The tree is left sound, with exactly the old bindings and the new one, if and only if
     the guards on the path hold; then the journal stays consistent too.
     */
    method Insert(k: Bytes, v: Bytes) returns (ok: bool)
      requires Valid()
      modifies this
      ensures Grouped(old(Track()), Track(), treeId, ok, Lookup(TreeRuns.View(old(Db())), k).Some?)
      ensures var r := TreeRuns.Apply(old(Db()), TreeRuns.Insert(k, v), stale);
        && ok == r.Some?
        && (ok ==> Db() == r.value.0 && tree.Some? && rootNodePageId == tree.value.pid && Rep(pages, tree.value))
      ensures ok ==> LogReport(old(wal), old(lastLsn), treeId, InsertLog(old(Db()), k, v, stale), wal, lastLsn) == Consistent
      ensures ok && Valid() && TreeRuns.View(Db()) == Put(TreeRuns.View(old(Db())), k, v) <==>
        TreeRuns.OpOk(old(Db()), TreeRuns.Insert(k, v), stale)
      ensures TreeRuns.OpOk(old(Db()), TreeRuns.Insert(k, v), stale) && old(Audit(pages, wal, lastLsn)) == Consistent ==>
        Audit(pages, wal, lastLsn) == Consistent
    {
      ghost var upd := Lookup(TreeRuns.View(Db()), k).Some?;
      LogMark(Begin);
      ghost var begin, begun := lastLsn, wal;
      ok := InsertOperations(k, v);
      ghost var track1, last1 := Track(), lastLsn;
      if ok {
        assert Rep(pages, [tree.value][0]);
        LogMark(Commit);
        LogGroup(old(wal), old(lastLsn), treeId, begun, begin, BodyLog(old(Db()), k, v, stale), track1.wal, last1, wal, lastLsn);
      }
      CloseGroup(old(Track()), begin, track1, Track(), treeId, ok, upd, lastLsn);
    }

    method ReadTraversal(pid: PageId, k: Bytes, ghost t: Tree, ghost h: nat, ghost lo: Option<Bytes>, ghost hi: Option<Bytes>)
      returns (v: Option<Bytes>)
      requires Rep(pages, t) && t.pid == pid && WF(t, h, lo, hi) && Shaped(t) && Distinct(t) && InRange(k, lo, hi)
      ensures v == Lookup(Flat(t), k)
      decreases t
    {
      LeafByKind(pages, t, h, lo, hi);
      if ReadsAsLeaf(pages[pid]) {
        v := FindValue(LeafOf(pages[pid].body).elems, k);
      } else {
        EnterKid(pages, t, h, lo, hi, k);
        ghost var i := Route(t.keys, k);
        var child := FindNextChild(SepsIn(pages[pid].body), k, t.keys, t.kids);
        v := ReadTraversal(child, k, t.kids[i], h - 1, LoOf(t.keys, lo, i), HiOf(t.keys, hi, i));
        LookupKid(t, h, lo, hi, k);
      }
    }

    /** Get: an empty tree has root page 0, whose bytes are not a slotted page; the model answers None there. */
    method Get(k: Bytes) returns (v: Option<Bytes>)
      requires Valid()
      ensures v == Lookup(TreeRuns.View(Db()), k)
    {
      if rootNodePageId == 0 {
        return None;
      }
      v := ReadTraversal(rootNodePageId, k, tree.value, height, None, None);
    }

    method FindLeafNodePageId(k: Bytes) returns (pid: PageId)
      requires Valid() && tree.Some?
      ensures pid == LeafFor(tree.value, k).pid
    {
      pid := rootNodePageId;
      ghost var t, h, lo, hi := tree.value, height, None, None;
      LeafByKind(pages, t, h, lo, hi);
      ghost var leaf := LeafFor(t, k);
      while !ReadsAsLeaf(pages[pid])
        invariant t.pid == pid && pid in pages && (ReadsAsLeaf(pages[pid]) <==> t.LeafT?)
        invariant Stands(pages, t, h, lo, hi, k, leaf)
        decreases t
      {
        StepDown(pages, t, h, lo, hi, k, leaf);
        ghost var i := Route(t.keys, k);
        pid := FindNextChild(SepsIn(pages[pid].body), k, t.keys, t.kids);
        t, h, lo, hi := t.kids[i], h - 1, LoOf(t.keys, lo, i), HiOf(t.keys, hi, i);
      }
    }

    /**
     Delete: it removes exactly its key or reports it missing, and logs nothing. The tree stays sound if and only if
     the slot of the key is tight; a journal that was consistent stays so if and only if nothing was removed.
     */
    method Delete(k: Bytes) returns (removed: bool)
      requires Valid()
      modifies this`pages, this`tree
      ensures Valid() && Deletes(old(Db()), k, stale, removed, Db()) && wal == old(wal)
      ensures old(Audit(pages, wal, lastLsn)) == Consistent ==> (Audit(pages, wal, lastLsn) == Consistent <==> !removed)
    {
      if rootNodePageId == 0 {
        return false;
      }
      var pid := FindLeafNodePageId(k);
      LeafForOn(pages, tree.value, height, None, None, k);
      removed := DeleteKeyValue(pid, k);
      DeleteKept(old(Db()), height, k, stale, old(pages), rootNodePageId, pages, tree.value);
      DeleteAudit(old(pages), wal, lastLsn, old(tree).value, k, pages, tree.value);
    }

    method DeleteKeyValue(pid: PageId, k: Bytes) returns (removed: bool)
      requires tree.Some? && Shaped(tree.value)
      requires var leaf := LeafFor(tree.value, k);
        leaf.pid == pid && Rep(pages, leaf) && leaf.LeafT? && |leaf.page.slots| == |leaf.page.elems|
      requires Remove(tree.value, k).Some? == LeafDelete(LeafFor(tree.value, k).page, k).Done?
      modifies this`pages, this`tree
      ensures tree.Some? && DeletedOn(old(pages), old(tree).value, k, pages, tree.value)
      ensures removed == LeafDelete(LeafFor(old(tree).value, k).page, k).Done?
    {
      removed := false;
      match LeafDelete(LeafOf(pages[pid].body), k) {
        case Done(q) =>
          pages := pages[pid := pages[pid].(body := LeafB(q))];
          tree := Remove(tree.value, k);
          removed := true;
        case _ =>
      }
    }
  }

  lemma {:induction false} LeafByKind(pages: Store, t: Tree, h: nat, lo: Option<Bytes>, hi: Option<Bytes>)
    requires Rep(pages, t) && WF(t, h, lo, hi)
    ensures ReadsAsLeaf(pages[t.pid]) <==> t.LeafT?
    ensures t.LeafT? ==> h == 0
  {
  }

  /** The descent for k stands at the subtree t, and will end at this leaf. */
  ghost predicate Stands(pages: Store, t: Tree, h: nat, lo: Option<Bytes>, hi: Option<Bytes>, k: Bytes, leaf: Tree) {
    Rep(pages, t) && WF(t, h, lo, hi) && Shaped(t) && Distinct(t) && InRange(k, lo, hi) && LeafFor(t, k) == leaf
  }

  lemma {:induction false} StepDown(pages: Store, t: Tree, h: nat, lo: Option<Bytes>, hi: Option<Bytes>, k: Bytes, leaf: Tree)
    requires t.NodeT? && Stands(pages, t, h, lo, hi, k, leaf)
    ensures |t.kids| == |t.keys| + 1 && t.pid in pages && Matches(SepsIn(pages[t.pid].body), t.keys, t.kids) && SortedKeys(t.keys)
    ensures var i := Route(t.keys, k);
      && h > 0 && t.kids[i] < t && t.kids[i].pid in pages && (ReadsAsLeaf(pages[t.kids[i].pid]) <==> t.kids[i].LeafT?)
      && Stands(pages, t.kids[i], h - 1, LoOf(t.keys, lo, i), HiOf(t.keys, hi, i), k, leaf)
  {
    EnterKid(pages, t, h, lo, hi, k);
    var i := Route(t.keys, k);
    LeafByKind(pages, t.kids[i], h - 1, LoOf(t.keys, lo, i), HiOf(t.keys, hi, i));
  }

  lemma {:induction false} KeyJournal(pages: Store, wal: seq<Record>, last: nat, tree: TreeId, pid: PageId, k: Bytes, l: PageId, r: PageId,
                                      page: Page)
    requires pid in pages && !pages[pid].body.LeafB?
    requires page.lsn == last + 1 && page.internal == pages[pid].internal
    requires (SepInsert(SepsIn(pages[pid].body), k, l, r).SepDone? ==> page.body == NodeB(SepInsert(SepsIn(pages[pid].body), k, l, r).seps))
    ensures SepSize(k) + SLOT_SIZE <= FreeKeys(KeysOf(SepsIn(pages[pid].body))) && Audit(pages, wal, last) == Consistent ==>
      && SepInsert(SepsIn(pages[pid].body), k, l, r).SepDone?
      && Audit(pages[pid := page], wal + [Record(last + 1, tree, InsertInternal(pid, k, l, r))], last + 1) == Consistent
  {
    if SepSize(k) + SLOT_SIZE <= FreeKeys(KeysOf(SepsIn(pages[pid].body))) && Audit(pages, wal, last) == Consistent {
      SepInsertTaken(SepsIn(pages[pid].body), k, l, r);
      OnePageJournal(pages, wal, last, Record(last + 1, tree, InsertInternal(pid, k, l, r)), pid, page);
    }
  }

  lemma {:induction false} StoredOverFresh(pages: Store, pid: PageId, right: PageId, parent: PageId, halves: (seq<Sep>, seq<Sep>), lsn: nat,
                                           stale: set<PageId>, blank: Page)
    requires pid in pages && parent in pages && right !in pages && blank.internal == (right in stale)
    ensures NodeSplitStore(pages, pid, right, parent, halves, lsn, stale,
                           SplitPages(pages[right := blank], pid, right, parent, halves.0, halves.1, lsn))
  {
  }

  /** The pages after an internal split: the two lists of separators, and the LSN of the parent. */
  ghost function SplitPages(pages: Store, pid: PageId, right: PageId, parent: PageId, a: seq<Sep>, b: seq<Sep>, lsn: nat): Store
    requires pid in pages && right in pages && parent in pages
  {
    pages[parent := pages[parent].(lsn := lsn)]
         [right := pages[right].(lsn := lsn, body := NodeB(b))]
         [pid := pages[pid].(lsn := lsn, body := NodeB(a))]
  }

  lemma {:induction false} Overwritten(pages: Store, p: PageId, was: Page, now: Page)
    ensures pages[p := was][p := now] == pages[p := now]
  {
  }

  lemma {:induction false} CreateAudit(pages: Store, wal: seq<Record>, last: nat, tree: TreeId, p: PageId, leaf: bool, fromFreeList: bool,
                                       page: Page)
    requires p !in pages && page.body.Empty? && page.lsn == last + 1
    ensures Audit(pages, wal, last) == Consistent && page.internal == !leaf ==>
      Audit(pages[p := page], wal + [Record(last + 1, tree, CreatePage(p, leaf, fromFreeList))], last + 1) == Consistent
  {
    if Audit(pages, wal, last) == Consistent && page.internal == !leaf {
      CreateJournal(pages, wal, last, tree, p, leaf, fromFreeList, page);
    }
  }

  lemma {:induction false} NodeSplitAudit(pages: Store, wal: seq<Record>, last: nat, tree: TreeId, pid: PageId, right: PageId,
                                          parent: PageId, k: Bytes, l: PageId, r: PageId, a: seq<Sep>, b: seq<Sep>)
    requires pid in pages && right in pages && parent in pages && pid != right && pages[pid].body.NodeB? && pages[right].body.Empty?
    requires NodeHalves(SepsIn(pages[pid].body), k, l, r) == Some((a, b))
    ensures Audit(pages, wal, last) == Consistent ==>
      Audit(SplitPages(pages, pid, right, parent, a, b, last + 1),
            wal + [Record(last + 1, tree, NodeSplitOp(pid, SepsIn(pages[pid].body), right, k, l, r))], last + 1) == Consistent
  {
    if Audit(pages, wal, last) == Consistent {
      NodeSplitJournal(pages, wal, last, tree, pid, right, parent, k, l, r,
                       pages[pid].(lsn := last + 1, body := NodeB(a)), pages[right].(lsn := last + 1, body := NodeB(b)));
    }
  }

  lemma {:induction false} LeafSplitAudit(pages: Store, wal: seq<Record>, last: nat, tree: TreeId, pid: PageId, right: PageId, k: Bytes,
                                          v: Bytes, l: Leaf, r: Leaf)
    requires pid in pages && right in pages && pid != right && Shapely(LeafOf(pages[pid].body))
    requires LeafHalves(LeafOf(pages[pid].body), right, k, v) == Some((l, r))
    ensures Used(LeafOf(pages[pid].body).elems) <= CAPACITY && Audit(pages, wal, last) == Consistent ==>
      Audit(pages[right := pages[right].(lsn := last + 1, body := LeafB(r))][pid := pages[pid].(lsn := last + 1, body := LeafB(l))],
            wal + [Record(last + 1, tree, LeafSplitOp(pid, LeafOf(pages[pid].body), right, k, v))], last + 1) == Consistent
  {
    if Used(LeafOf(pages[pid].body).elems) <= CAPACITY && Audit(pages, wal, last) == Consistent {
      LeafSplitJournal(pages, wal, last, tree, pid, right, k, v,
                       pages[pid].(lsn := last + 1, body := LeafB(l)), pages[right].(lsn := last + 1, body := LeafB(r)));
    }
  }

  /** The leaf takes the absent key after its space check. */
  ghost predicate Lands(leaf: Leaf, k: Bytes, v: Bytes) {
    Shapely(leaf) && Absent(leaf.elems, k) && LeafInsert(Checked(leaf, ElemSize(KV(k, v))), k, v).Done?
  }

  lemma {:induction false} GuardLands(t: Tree, lo: Option<Bytes>, hi: Option<Bytes>, k: Bytes, v: Bytes, isRoot: bool, al: Alloc,
                                      stale: set<PageId>)
    requires t.LeafT? && WF(t, 0, lo, hi) && !Has(t.page.elems, k) && HasSpace(t.page, ElemSize(KV(k, v)))
    ensures LeafOk(t, k, v, isRoot, al, stale) ==> Lands(t.page, k, v)
  {
    InsertFitsIff(t.page, k, v);
    AbsentKey(t.page.elems, k);
  }

  /** A leaf that fails its space check meets the guards only as a split of an absent key. */
  lemma {:induction false} GuardOverflows(t: Tree, lo: Option<Bytes>, hi: Option<Bytes>, k: Bytes, v: Bytes, isRoot: bool, al: Alloc,
                                          stale: set<PageId>)
    requires t.LeafT? && WF(t, 0, lo, hi)
    requires if Has(t.page.elems, k) then !HasSpaceToUpdate(t.page, k, t.page.elems[Pos(t.page.elems, k)].value, v)
             else !HasSpace(t.page, ElemSize(KV(k, v)))
    ensures WriteLeaf(t, k, v, isRoot, al, stale) == LeafOverflow(t, k, v, isRoot, al, stale)
    ensures LeafOk(t, k, v, isRoot, al, stale) ==> LeafOverflowOk(t.page, k, v, isRoot, al, stale) && Used(t.page.elems) <= CAPACITY
  {
    if Has(t.page.elems, k) {
      UpdateFitsIff(t.page, k, v);
    } else {
      InsertFitsIff(t.page, k, v);
    }
  }

  lemma {:induction false} AbsentKey(s: seq<KV>, k: Bytes)
    requires Sorted(s) && !Has(s, k)
    ensures Absent(s, k)
  {
    OrderFacts();
  }

  lemma {:induction false} InsertAudit(pages: Store, wal: seq<Record>, last: nat, tree: TreeId, pid: PageId, k: Bytes, v: Bytes, q: Leaf)
    requires pid in pages && !pages[pid].body.NodeB? && |LeafOf(pages[pid].body).slots| == |LeafOf(pages[pid].body).elems|
    requires InsertIgnored(Checked(LeafOf(pages[pid].body), ElemSize(KV(k, v))), k, v) == Some(q)
    ensures Lands(LeafOf(pages[pid].body), k, v) && Audit(pages, wal, last) == Consistent ==>
      Audit(pages[pid := pages[pid].(lsn := last + 1, body := LeafB(q))],
            wal + [Record(last + 1, tree, InsertLeaf(pid, k, v))], last + 1) == Consistent
  {
    if Lands(LeafOf(pages[pid].body), k, v) && Audit(pages, wal, last) == Consistent {
      InsertJournal(pages, wal, last, tree, pid, k, v, q);
    }
  }

  /** A logged insertion that landed keeps the journal. */
  lemma {:induction false} InsertJournal(pages: Store, wal: seq<Record>, last: nat, tree: TreeId, pid: PageId, k: Bytes, v: Bytes, q: Leaf)
    requires pid in pages && !pages[pid].body.NodeB? && Audit(pages, wal, last) == Consistent
    requires var leaf := LeafOf(pages[pid].body);
      Shapely(leaf) && Absent(leaf.elems, k) && LeafInsert(Checked(leaf, ElemSize(KV(k, v))), k, v) == Done(q)
    ensures Audit(pages[pid := pages[pid].(lsn := last + 1, body := LeafB(q))],
                  wal + [Record(last + 1, tree, InsertLeaf(pid, k, v))], last + 1) == Consistent
  {
    JournalLevel(pages, wal, last, pid);
    InsertMade(pages[pid], pid, k, v, last + 1, q);
    OnePageJournal(pages, wal, last, Record(last + 1, tree, InsertLeaf(pid, k, v)), pid, pages[pid].(lsn := last + 1, body := LeafB(q)));
  }

  lemma {:induction false} InsertMade(was: Page, pid: PageId, k: Bytes, v: Bytes, lsn: nat, q: Leaf)
    requires !was.body.NodeB? && Level(ImageOf(was).content) && Shapely(LeafOf(was.body)) && Absent(LeafOf(was.body).elems, k)
    requires LeafInsert(Checked(LeafOf(was.body), ElemSize(KV(k, v))), k, v) == Done(q)
    ensures Made(was, InsertLeaf(pid, k, v), pid, was.(lsn := lsn, body := LeafB(q)))
  {
    InsertTook(ImageOf(was).content, pid, k, v, LeafOf(was.body), q);
  }

  /** So does a logged update. */
  lemma {:induction false} UpdateJournal(pages: Store, wal: seq<Record>, last: nat, tree: TreeId, pid: PageId, k: Bytes, v: Bytes, q: Leaf)
    requires pid in pages && !pages[pid].body.NodeB? && Audit(pages, wal, last) == Consistent
    requires var leaf := LeafOf(pages[pid].body);
      && Shapely(leaf) && Has(leaf.elems, k)
      && SetValue(CheckedUpdate(leaf, k, leaf.elems[Pos(leaf.elems, k)].value, v), k, v) == Done(q)
    ensures Audit(pages[pid := pages[pid].(lsn := last + 1, body := LeafB(q))],
                  wal + [Record(last + 1, tree, UpdateLeaf(pid, k, v))], last + 1) == Consistent
  {
    assert pages[pid].body.LeafB?;
    JournalLevel(pages, wal, last, pid);
    OnePageJournal(pages, wal, last, Record(last + 1, tree, UpdateLeaf(pid, k, v)), pid, pages[pid].(lsn := last + 1, body := LeafB(q)));
  }
}
