/** The life of a tree: operations, flushes between them, a crash in the middle of one, and recovery. */
module Lifetime {
  import opened Bytes
  import opened Assoc
  import opened Pages
  import opened Allocator
  import opened Trees
  import opened TreeTheorems
  import opened Wal
  import opened Recovery
  import opened Replay
  import opened LogScan
  import opened MetaRedo
  import opened PageStore
  import opened StoreOps
  import opened BTree
  import opened AllocRecovery
  import opened Crash

  // ----------------------------------------------------------------- the disk

  /** A page of the file; one that was never written is blank, with whatever kind byte the file holds. */
  function DiskAt(disk: map<PageId, Image>, stale: set<PageId>, p: PageId): Image {
    if p in disk then disk[p] else Image(0, p in stale, Blank)
  }

  ghost predicate LagsAt(d: Image, p: PageId, wal: seq<Record>, last: nat, n: nat)
    requires AllSane(wal)
  {
    n <= |wal| && Lagging(d, p, wal, n) && ExactIn(d.content) && d.lsn <= last
  }

  /** Every page of the tree is on disk as it was after some number of records, or was never written. */
  ghost predicate OnDisk(disk: map<PageId, Image>, flushed: map<PageId, nat>, stale: set<PageId>, pages: Store, wal: seq<Record>, last: nat) {
    && AllSane(wal) && disk.Keys <= pages.Keys && flushed.Keys == pages.Keys
    && forall p | p in pages :: LagsAt(DiskAt(disk, stale, p), p, wal, last, flushed[p])
  }

  ghost function Positions(flushed: map<PageId, nat>, keys: set<PageId>): map<PageId, nat> {
    map p | p in keys :: if p in flushed then flushed[p] else 0
  }

  lemma {:induction false} LagExtends(d: Image, p: PageId, wal: seq<Record>, last: nat, more: seq<Record>, last': nat, n: nat)
    requires AllSane(wal) && AllSane(wal + more) && LagsAt(d, p, wal, last, n) && last <= last'
    requires forall i | 0 <= i < |more| :: last < more[i].lsn
    ensures LagsAt(d, p, wal + more, last', n)
  {
    var all := wal + more;
    RedoPrefix(Writing, ZERO_IMAGE, p, wal, more, n);
    forall i | n <= i < |all| && Touches(all[i].op, p) ensures d.lsn < all[i].lsn {
      if i < |wal| {
        assert all[i] == wal[i];
      } else {
        assert all[i] == more[i - |wal|];
      }
    }
  }

  lemma {:induction false} NeverWritten(stale: set<PageId>, p: PageId, wal: seq<Record>, last: nat)
    requires AllSane(wal) && forall i | 0 <= i < |wal| :: wal[i].lsn > 0
    ensures LagsAt(Image(0, p in stale, Blank), p, wal, last, 0)
  {
  }

  lemma {:induction false} LaterRecords(pages: Store, wal: seq<Record>, last: nat, pages': Store, more: seq<Record>, last': nat)
    requires Audit(pages, wal, last) == Consistent && Audit(pages', wal + more, last') == Consistent
    ensures AllSane(wal) && AllSane(wal + more) && last <= last' && forall i | 0 <= i < |more| :: last < more[i].lsn
  {
    var all := wal + more;
    if wal != [] {
      assert wal[|wal| - 1] == all[|wal| - 1];
    }
    forall i | 0 <= i < |more| ensures last < more[i].lsn {
      assert more[i] == all[|wal| + i];
    }
  }

  /** A longer log leaves the pages on disk lagging at the same positions; new pages were never written. */
  lemma {:induction false} DiskKeeps(disk: map<PageId, Image>, flushed: map<PageId, nat>, stale: set<PageId>, pages: Store,
                                     wal: seq<Record>, last: nat,
                                     pages': Store, more: seq<Record>, last': nat)
    requires Audit(pages, wal, last) == Consistent && Audit(pages', wal + more, last') == Consistent && pages.Keys <= pages'.Keys
    requires OnDisk(disk, flushed, stale, pages, wal, last)
    ensures OnDisk(disk, Positions(flushed, pages'.Keys), stale, pages', wal + more, last')
  {
    LaterRecords(pages, wal, last, pages', more, last');
    var at := Positions(flushed, pages'.Keys);
    forall p | p in pages' ensures LagsAt(DiskAt(disk, stale, p), p, wal + more, last', at[p]) {
      if p in pages {
        LagExtends(DiskAt(disk, stale, p), p, wal, last, more, last', flushed[p]);
      } else {
        NeverWritten(stale, p, wal + more, last');
      }
    }
  }

  /** Some pages are written back. */
  function Flush(disk: map<PageId, Image>, pages: Store, s: set<PageId>): map<PageId, Image> {
    map p | p in disk.Keys + (s * pages.Keys) :: if p in s && p in pages then ImageOf(pages[p]) else disk[p]
  }

  ghost function Flushed(flushed: map<PageId, nat>, s: set<PageId>, n: nat): map<PageId, nat> {
    map p | p in flushed :: if p in s then n else flushed[p]
  }

  lemma {:induction false} FlushedLagsAt(pages: Store, wal: seq<Record>, last: nat, p: PageId)
    requires Audit(pages, wal, last) == Consistent && p in pages && ExactIn(ImageOf(pages[p]).content)
    ensures AllSane(wal) && LagsAt(ImageOf(pages[p]), p, wal, last, |wal|)
  {
    assert wal + [] == wal;
    FlushedLags(pages, wal, last, [], p);
  }

  lemma {:induction false} FlushAt(disk: map<PageId, Image>, stale: set<PageId>, pages: Store, s: set<PageId>, p: PageId)
    requires p in pages && disk.Keys <= pages.Keys
    ensures DiskAt(Flush(disk, pages, s), stale, p) == if p in s then ImageOf(pages[p]) else DiskAt(disk, stale, p)
  {
  }

  lemma {:induction false} FlushedPage(disk: map<PageId, Image>, n: nat, stale: set<PageId>, pages: Store, wal: seq<Record>, last: nat,
                                       s: set<PageId>, p: PageId)
    requires Audit(pages, wal, last) == Consistent && p in pages && disk.Keys <= pages.Keys && ExactIn(ImageOf(pages[p]).content)
    requires AllSane(wal) && LagsAt(DiskAt(disk, stale, p), p, wal, last, n)
    ensures LagsAt(DiskAt(Flush(disk, pages, s), stale, p), p, wal, last, if p in s then |wal| else n)
  {
    FlushAt(disk, stale, pages, s, p);
    if p in s {
      FlushedLagsAt(pages, wal, last, p);
    }
  }

  lemma {:induction false} FlushKeeps(disk: map<PageId, Image>, flushed: map<PageId, nat>, stale: set<PageId>, pages: Store,
                                      wal: seq<Record>, last: nat, s: set<PageId>)
    requires Audit(pages, wal, last) == Consistent && OnDisk(disk, flushed, stale, pages, wal, last)
    requires forall p | p in pages :: ExactIn(ImageOf(pages[p]).content)
    ensures OnDisk(Flush(disk, pages, s), Flushed(flushed, s, |wal|), stale, pages, wal, last)
  {
    FlushKeys(disk, flushed, pages, s, |wal|);
    forall p | p in pages {
      FlushKeepsPage(disk, flushed, stale, pages, wal, last, s, p);
    }
  }

  lemma {:induction false} FlushKeys(disk: map<PageId, Image>, flushed: map<PageId, nat>, pages: Store, s: set<PageId>, n: nat)
    requires disk.Keys <= pages.Keys
    ensures Flush(disk, pages, s).Keys <= pages.Keys && Flushed(flushed, s, n).Keys == flushed.Keys
  {
  }

  lemma {:induction false} FlushKeepsPage(disk: map<PageId, Image>, flushed: map<PageId, nat>, stale: set<PageId>, pages: Store,
                                          wal: seq<Record>, last: nat, s: set<PageId>, p: PageId)
    requires Audit(pages, wal, last) == Consistent && OnDisk(disk, flushed, stale, pages, wal, last)
    requires p in pages && ExactIn(ImageOf(pages[p]).content)
    ensures p in Flushed(flushed, s, |wal|)
    ensures LagsAt(DiskAt(Flush(disk, pages, s), stale, p), p, wal, last, Flushed(flushed, s, |wal|)[p])
  {
    FlushedPage(disk, flushed[p], stale, pages, wal, last, s, p);
  }

  // --------------------------------------------------------------------- runs

  ghost predicate NoDeletes(ops: seq<TreeRuns.Op>) {
    forall i | 0 <= i < |ops| :: !ops[i].Delete?
  }

  /** No insertion writes over a binding. */
  ghost predicate FreshKeys(m: map<Bytes, Bytes>, ops: seq<TreeRuns.Op>)
    decreases |ops|
  {
    ops != [] ==> (ops[0].Insert? ==> ops[0].key !in m) && FreshKeys(TreeRuns.MapNext(m, ops[0]), ops[1..])
  }

  lemma {:induction false} PagesGrow(db: TreeRuns.Db, h: nat, op: TreeRuns.Op, stale: set<PageId>, pages: Store, root: PageId,
                                     db': TreeRuns.Db, h': nat, pages': Store, root': PageId, reply: TreeRuns.Reply)
    requires Healthy(pages, root, db, h) && Healthy(pages', root', db', h') && TreeRuns.OpOk(db, op, stale) && !op.Delete?
    requires TreeRuns.Apply(db, op, stale) == Some((db', reply))
    ensures pages.Keys <= pages'.Keys
  {
    if op.Insert? && db.tree.Some? {
      InsertIff(db.tree.value, h, op.key, op.value, db.alloc, stale);
    }
  }

  /** Every page of a journaled tree accounts for its space exactly. */
  lemma {:induction false} AllExact(pages: Store, root: PageId, db: TreeRuns.Db, h: nat, wal: seq<Record>, last: nat)
    requires Healthy(pages, root, db, h) && Audit(pages, wal, last) == Consistent
    ensures forall p | p in pages :: ExactIn(ImageOf(pages[p]).content)
  {
    if db.tree.Some? {
      WFCovers(db.tree.value, h, None, None);
      forall p | p in pages ensures ExactIn(ImageOf(pages[p]).content) {
        JournalLevel(pages, wal, last, p);
        RepCovers(pages, db.tree.value, p);
      }
    }
  }

  /** One operation, and some pages written back after it. */
  method DoAndFlush(bt: BPlusTree, op: TreeRuns.Op, s: set<PageId>, disk: map<PageId, Image>, ghost flushed: map<PageId, nat>)
    returns (reply: TreeRuns.Reply, disk': map<PageId, Image>, ghost flushed': map<PageId, nat>)
    requires Durable(bt) && TreeRuns.OpOk(bt.Db(), op, bt.stale) && !op.Delete?
    requires OnDisk(disk, flushed, bt.stale, bt.pages, bt.wal, bt.lastLsn)
    modifies bt
    ensures Durable(bt) && TreeRuns.Apply(old(bt.Db()), op, bt.stale) == Some((bt.Db(), reply))
    ensures OnDisk(disk', flushed', bt.stale, bt.pages, bt.wal, bt.lastLsn) && disk' == Flush(disk, bt.pages, s)
    ensures NoUpdates(old(bt.wal)) && (op.Insert? ==> Lookup(TreeRuns.View(old(bt.Db())), op.key).None?) ==> NoUpdates(bt.wal)
  {
    reply := Do(bt, op);
    PagesGrow(old(bt.Db()), old(bt.height), op, bt.stale, old(bt.pages), old(bt.rootNodePageId),
              bt.Db(), bt.height, bt.pages, bt.rootNodePageId, reply);
    ghost var more := bt.wal[|old(bt.wal)|..];
    assert old(bt.wal) + more == bt.wal;
    DiskKeeps(disk, flushed, bt.stale, old(bt.pages), old(bt.wal), old(bt.lastLsn), bt.pages, more, bt.lastLsn);
    ghost var at := Positions(flushed, bt.pages.Keys);
    AllExact(bt.pages, bt.rootNodePageId, bt.Db(), bt.height, bt.wal, bt.lastLsn);
    FlushKeeps(disk, at, bt.stale, bt.pages, bt.wal, bt.lastLsn, s);
    disk', flushed' := Flush(disk, bt.pages, s), Flushed(at, s, |bt.wal|);
  }

  /** A run without deletions; after each operation some pages are written back. */
  method RunAndFlush(bt: BPlusTree, ops: seq<TreeRuns.Op>, flushes: seq<set<PageId>>, disk: map<PageId, Image>,
                     ghost flushed: map<PageId, nat>)
    returns (replies: seq<TreeRuns.Reply>, disk': map<PageId, Image>, ghost flushed': map<PageId, nat>)
    requires Durable(bt) && TreeRuns.RunOk(bt.Db(), ops, bt.stale) && NoDeletes(ops) && |flushes| == |ops|
    requires OnDisk(disk, flushed, bt.stale, bt.pages, bt.wal, bt.lastLsn)
    modifies bt
    ensures Durable(bt) && replies == TreeRuns.MapReplies(ToMap(TreeRuns.View(old(bt.Db()))), ops)
    ensures ToMap(TreeRuns.View(bt.Db())) == TreeRuns.MapFinal(ToMap(TreeRuns.View(old(bt.Db()))), ops)
    ensures OnDisk(disk', flushed', bt.stale, bt.pages, bt.wal, bt.lastLsn)
    ensures NoUpdates(old(bt.wal)) && FreshKeys(ToMap(TreeRuns.View(old(bt.Db()))), ops) ==> NoUpdates(bt.wal)
    decreases |ops|
  {
    if ops == [] {
      return [], disk, flushed;
    }
    TreeRuns.ApplyCorrect(bt.Db(), ops[0], bt.stale);
    TreeRuns.ViewSorted(bt.Db());
    if ops[0].Insert? {
      ToMapKey(TreeRuns.View(bt.Db()), ops[0].key);
    }
    var reply;
    reply, disk', flushed' := DoAndFlush(bt, ops[0], flushes[0], disk, flushed);
    var rest;
    rest, disk', flushed' := RunAndFlush(bt, ops[1..], flushes[1..], disk', flushed');
    replies := [reply] + rest;
  }

  // ----------------------------------------------------------------- the crash

  /** The records of an operation that was under way. */
  function TailOf(tree: TreeId, last: nat, begun: bool, body: seq<LogOp>): seq<Record> {
    if begun then [Record(last + 1, tree, Begin)] + seq(|body|, i requires 0 <= i < |body| => Record(last + 2 + i, tree, body[i])) else []
  }

  lemma {:induction false} TailFacts(tree: TreeId, last: nat, begun: bool, body: seq<LogOp>)
    requires forall i | 0 <= i < |body| :: IsOp(body[i]) && Sane(body[i])
    ensures var tail := TailOf(tree, last, begun, body);
      && Unfinished(tail, tree) && AllSane(tail) && Increasing(tail) && OwnLog(tail, tree)
      && forall i | 0 <= i < |tail| :: last < tail[i].lsn
  {
    var tail := TailOf(tree, last, begun, body);
    if begun {
      assert forall i | 0 <= i < |body| :: tail[1..][i] == Record(last + 2 + i, tree, body[i]);
    }
  }

  lemma {:induction false} OwnIsShared(pages: Store, wal: seq<Record>, last: nat, tail: seq<Record>, tree: TreeId)
    requires Audit(pages, wal, last) == Consistent && Settled(wal) && OwnLog(wal, tree) && OwnLog(tail, tree) && Unfinished(tail, tree)
    requires AllSane(tail) && Increasing(tail) && forall i | 0 <= i < |tail| :: last < tail[i].lsn
    ensures SharedLog(wal + tail, tree, wal, tail, pages) && Scan(wal + tail).applied == Ops(wal, |wal|)
  {
    var log := wal + tail;
    TailIgnored(wal, tail, tree);
    OnlyOne(log, tree, tree, |log|);
    assert log[..|log|] == log;
    forall i, j | 0 <= i < j < |log| ensures log[i].lsn < log[j].lsn {
      assert i < |wal| ==> log[i] == wal[i];
    }
  }

  lemma {:induction false} OpsIncreasing(log: seq<Record>, n: nat)
    requires Increasing(log) && n <= |log|
    ensures var mine := Ops(log, n); Increasing(mine) && forall i | 0 <= i < |mine| :: n > 0 && log[0].lsn <= mine[i].lsn <= log[n - 1].lsn
  {
    if n > 0 {
      OpsIncreasing(log, n - 1);
    }
  }

  /** The metadata of a database without trees, with the allocator the log begins with. */
  ghost predicate NewMeta(m: Meta, origin: Alloc) {
    m.lsn == 0 && m.roots == map[] && m.firstLeaves == map[] && AllocOf(m) == origin && Orderly(m)
  }

  lemma {:induction false} NewMetaLags(m: Meta, origin: Alloc, tree: TreeId, wal: seq<Record>)
    requires NewMeta(m, origin) && Increasing(wal) && forall i | 0 <= i < |wal| :: wal[i].lsn > 0
    ensures MetaLags(m, tree, Ops(wal, |wal|), 0) && AllocLags(m, VacancyOf(origin), Ops(wal, |wal|), 0) && Increasing(Ops(wal, |wal|))
  {
    OpsIncreasing(wal, |wal|);
  }

  /**
   The pages and the metadata after recovery hold a sound tree with these bindings, under the root and first leaf the
   metadata names and with the free list and the maximum it names; every page of the tree lies inside the file.
   */
  ghost predicate Reborn(images: map<PageId, Image>, meta: Meta, tree: TreeId, keys: set<PageId>, m: map<Bytes, Bytes>) {
    exists db, h :: RebornAs(images, meta, tree, keys, m, db, h)
  }

  ghost predicate RebornAs(images: map<PageId, Image>, meta: Meta, tree: TreeId, keys: set<PageId>, m: map<Bytes, Bytes>, db: TreeRuns.Db,
                           h: nat) {
    && Healthy(StoreOf(images, keys), HeadsOf(meta, tree).root, db, h) && HeadsOf(meta, tree).first == db.first
    && ToMap(TreeRuns.View(db)) == m && TreeAccounts.Accurate(db)
    && db.alloc == AllocOf(meta) && Orderly(meta) && (forall p | p in keys :: 0 < p < meta.filePages)
  }

  /** The recovered allocator serves the tree. */
  lemma {:induction false} Reallocated(pages: Store, root: PageId, db: TreeRuns.Db, h: nat, meta: Meta)
    requires Healthy(pages, root, db, h) && db.tree.Some? && Orderly(meta) && VacancyOf(AllocOf(meta)) == VacancyOf(db.alloc)
    ensures Healthy(pages, root, db.(alloc := AllocOf(meta)), h) && forall p | p in pages :: 0 < p < meta.filePages
  {
    SoundVacancy(db.alloc, AllocOf(meta), Pids(db.tree.value));
  }

  lemma {:induction false} RebornWith(images: map<PageId, Image>, meta: Meta, tree: TreeId, keys: set<PageId>, db: TreeRuns.Db, h: nat)
    requires Healthy(StoreOf(images, keys), HeadsOf(meta, tree).root, db, h) && HeadsOf(meta, tree).first == db.first && db.tree.Some?
    requires TreeAccounts.Accurate(db) && Orderly(meta) && VacancyOf(AllocOf(meta)) == VacancyOf(db.alloc)
    ensures Reborn(images, meta, tree, keys, ToMap(TreeRuns.View(db)))
  {
    assert StoreOf(images, keys).Keys == keys;
    Reallocated(StoreOf(images, keys), HeadsOf(meta, tree).root, db, h, meta);
    assert RebornAs(images, meta, tree, keys, ToMap(TreeRuns.View(db)), db.(alloc := AllocOf(meta)), h);
  }

  /** The log leaves the free pages that the tree had after its last committed operation. */
  lemma {:induction false} AllocRestored(meta: Meta, origin: Alloc, wal: seq<Record>, v: Vacancy)
    requires AllocLags(meta, VacancyOf(origin), Ops(wal, |wal|), 0) && Increasing(Ops(wal, |wal|))
    requires v == VacancyAfter(VacancyOf(origin), wal)
    ensures var meta' := ReplayMeta(meta, Ops(wal, |wal|)); Orderly(meta') && VacancyOf(AllocOf(meta')) == v
  {
    AllocRecovers(meta, VacancyOf(origin), Ops(wal, |wal|), 0);
    VacancyOps(VacancyOf(origin), wal, |wal|);
    assert wal[..|wal|] == wal;
  }

  /**
   The metadata page that a clean close writes, with the metadata LSN, the heads and the allocator of the tree: replaying
   the log at the next start leaves everything in it but its LSN as it is.
   */
  lemma {:induction false} CleanCloseStays(bt: BPlusTree, m: Meta)
    requires Durable(bt) && m.lsn == bt.metadataLsn && AllocOf(m) == bt.alloc && Orderly(m) && HeadsOf(m, bt.treeId) == bt.Track().heads
    ensures var e := ReplayMeta(m, Scan(bt.wal).applied); e == m.(lsn := e.lsn) && m.lsn <= e.lsn && HeadsOf(e, bt.treeId) == bt.Track().heads
  {
    var recs, v := Ops(bt.wal, |bt.wal|), VacancyOf(bt.origin);
    OpsIncreasing(bt.wal, |bt.wal|);
    VacancyOps(v, bt.wal, |bt.wal|);
    MetaLsnOps(0, bt.wal, |bt.wal|);
    assert bt.wal[..|bt.wal|] == bt.wal && recs[..|recs|] == recs;
    forall i | 0 <= i < |recs| && MovesHead(recs[i].op) ensures recs[i].lsn <= m.lsn {
      MetaLsnCovers(0, recs, |recs|, i);
    }
    ClosedPageStays(m, v, recs);
  }

  /** What was on disk, page by page. */
  ghost predicate Found(found: map<PageId, Image>, disk: map<PageId, Image>, stale: set<PageId>, pages: Store) {
    found.Keys == pages.Keys && forall p | p in pages :: found[p] == DiskAt(disk, stale, p)
  }

  lemma {:induction false} RestartFacts(pages: Store, wal: seq<Record>, last: nat, tail: seq<Record>, tree: TreeId, stale: set<PageId>,
                                        disk: map<PageId, Image>,
                                        flushed: map<PageId, nat>, found: map<PageId, Image>, meta: Meta,
                                        images: map<PageId, Image>, meta': Meta)
    requires Audit(pages, wal, last) == Consistent && Settled(wal) && Unfinished(tail, tree)
    requires SharedLog(wal + tail, tree, wal, tail, pages)
    requires OnDisk(disk, flushed, stale, pages, wal, last) && Found(found, disk, stale, pages)
    requires AllSane(Scan(wal + tail).applied) && Engine.Replayed(found, meta, Scan(wal + tail).applied, images, meta')
    ensures DiskLags(found, flushed, pages, wal)
    ensures forall p | p in pages :: Engine.At(images, p) == Redo(Replaying, found[p], p, Scan(wal + tail).applied)
    ensures AllRestored(pages, images) <==> Followed(flushed, pages, wal)
  {
    forall p | p in pages ensures Engine.At(images, p) == Redo(Replaying, found[p], p, Scan(wal + tail).applied) {
      assert Engine.At(found, p) == found[p];
    }
    CrashRecoversIff(pages, wal, last, tail, tree, wal + tail, found, flushed, images);
  }

  lemma {:induction false} RestartTree(pages: Store, db: TreeRuns.Db, h: nat, heads: Heads, wal: seq<Record>, last: nat, tail: seq<Record>,
                                       tree: TreeId, origin: Alloc,
                                       flushed: map<PageId, nat>, found: map<PageId, Image>, meta: Meta, images: map<PageId, Image>, meta': Meta)
    requires Healthy(pages, heads.root, db, h) && db.tree.Some? && heads.first == db.first && heads == HeadsAfter(Heads(0, 0), wal)
    requires NewMeta(meta, origin) && VacancyOf(db.alloc) == VacancyAfter(VacancyOf(origin), wal)
    requires Audit(pages, wal, last) == Consistent && Settled(wal) && Unfinished(tail, tree)
    requires SharedLog(wal + tail, tree, wal, tail, pages)
    requires AllSane(wal) && DiskLags(found, flushed, pages, wal) && Followed(flushed, pages, wal)
    requires AllSane(Scan(wal + tail).applied) && Scan(wal + tail).applied == Ops(wal, |wal|)
    requires meta' == ReplayMeta(meta, Scan(wal + tail).applied)
    requires forall p | p in pages :: Engine.At(images, p) == Redo(Replaying, found[p], p, Scan(wal + tail).applied)
    ensures Reborn(images, meta', tree, pages.Keys, ToMap(TreeRuns.View(db)))
  {
    NewMetaLags(meta, origin, tree, wal);
    HeadsRecover(meta, tree, wal + tail, wal, tail, pages, heads, 0);
    AllocRestored(meta, origin, wal, VacancyOf(db.alloc));
    CrashRecovers(pages, db, h, heads.root, wal, last, tail, tree, wal + tail, found, flushed, images);
    var pages' := StoreOf(images, pages.Keys);
    var db' := db.(tree := Some(Reread(pages', db.tree.value)));
    RebornWith(images, meta', tree, pages.Keys, db', h);
  }

  /** Both together, as recovery leaves them. */
  lemma {:induction false} Restarted(pages: Store, db: TreeRuns.Db, h: nat, heads: Heads, wal: seq<Record>, last: nat, tail: seq<Record>,
                                     tree: TreeId, origin: Alloc,
                                     stale: set<PageId>, disk: map<PageId, Image>, flushed: map<PageId, nat>,
                                     found: map<PageId, Image>, meta: Meta,
                                     images: map<PageId, Image>, meta': Meta)
    requires Healthy(pages, heads.root, db, h) && heads.first == db.first && heads == HeadsAfter(Heads(0, 0), wal)
    requires NewMeta(meta, origin) && VacancyOf(db.alloc) == VacancyAfter(VacancyOf(origin), wal)
    requires Audit(pages, wal, last) == Consistent && Settled(wal) && Unfinished(tail, tree)
    requires SharedLog(wal + tail, tree, wal, tail, pages)
    requires OnDisk(disk, flushed, stale, pages, wal, last) && Found(found, disk, stale, pages)
    requires Scan(wal + tail).applied == Ops(wal, |wal|)
    requires AllSane(Scan(wal + tail).applied) && Engine.Replayed(found, meta, Scan(wal + tail).applied, images, meta')
    ensures AllRestored(pages, images) <==> Followed(flushed, pages, wal)
    ensures Followed(flushed, pages, wal) && db.tree.Some? ==> Reborn(images, meta', tree, pages.Keys, ToMap(TreeRuns.View(db)))
  {
    RestartFacts(pages, wal, last, tail, tree, stale, disk, flushed, found, meta, images, meta');
    if Followed(flushed, pages, wal) && db.tree.Some? {
      RestartTree(pages, db, h, heads, wal, last, tail, tree, origin, flushed, found, meta, images, meta');
    }
  }

  /** Recovery of the log from what was on disk. */
  method Restart(bt: BPlusTree, disk: map<PageId, Image>, ghost flushed: map<PageId, nat>, meta: Meta, tail: seq<Record>)
    returns (ok: bool, engine: Engine.StorageEngine)
    requires Durable(bt) && OnDisk(disk, flushed, bt.stale, bt.pages, bt.wal, bt.lastLsn) && NewMeta(meta, bt.origin)
    requires OwnLog(tail, bt.treeId) && Unfinished(tail, bt.treeId) && AllSane(tail) && Increasing(tail)
    requires forall i | 0 <= i < |tail| :: bt.lastLsn < tail[i].lsn
    ensures ok && fresh(engine)
    ensures Followed(flushed, bt.pages, bt.wal) && bt.tree.Some? ==>
      Reborn(engine.pages, engine.meta, bt.treeId, bt.pages.Keys, ToMap(TreeRuns.View(bt.Db())))
    ensures AllRestored(bt.pages, engine.pages) <==> Followed(flushed, bt.pages, bt.wal)
  {
    OwnIsShared(bt.pages, bt.wal, bt.lastLsn, tail, bt.treeId);
    var found := map p | p in bt.pages :: DiskAt(disk, bt.stale, p);
    engine := new Engine.StorageEngine(found, meta);
    ok := engine.Recover(bt.wal + tail);
    Restarted(bt.pages, bt.Db(), bt.height, bt.Track().heads, bt.wal, bt.lastLsn, tail, bt.treeId, bt.origin,
              bt.stale, disk, flushed, found, meta, engine.pages, engine.meta);
  }

  /**
   The whole life: a new tree runs operations, pages are written back between them, the process dies in the middle of a
   further operation and recovery reads the log. Every page comes back if and only if recovery follows the records it
   needs, and then a sound tree with exactly the bindings of the finished operations does. Operations that write over no
   binding always come back.
   */
  method CrashAndRecover(bt: BPlusTree, ops: seq<TreeRuns.Op>, flushes: seq<set<PageId>>, meta: Meta, begun: bool, body: seq<LogOp>)
    returns (replies: seq<TreeRuns.Reply>, engine: Engine.StorageEngine, ghost flushed: map<PageId, nat>)
    requires Durable(bt) && bt.wal == [] && bt.tree.None? && TreeRuns.RunOk(bt.Db(), ops, bt.stale) && NoDeletes(ops) && |flushes| == |ops|
    requires NewMeta(meta, bt.origin)
    requires forall i | 0 <= i < |body| :: IsOp(body[i]) && Sane(body[i])
    modifies bt
    ensures replies == TreeRuns.MapReplies(map[], ops) && AllSane(bt.wal) && fresh(engine)
    ensures AllRestored(bt.pages, engine.pages) <==> Followed(flushed, bt.pages, bt.wal)
    ensures Followed(flushed, bt.pages, bt.wal) && bt.tree.Some? ==>
      Reborn(engine.pages, engine.meta, bt.treeId, bt.pages.Keys, TreeRuns.MapFinal(map[], ops))
    ensures FreshKeys(map[], ops) ==> Followed(flushed, bt.pages, bt.wal)
  {
    var disk;
    replies, disk, flushed := RunAndFlush(bt, ops, flushes, map[], map[]);
    var tail := TailOf(bt.treeId, bt.lastLsn, begun, body);
    TailFacts(bt.treeId, bt.lastLsn, begun, body);
    var ok;
    ok, engine := Restart(bt, disk, flushed, meta, tail);
    if NoUpdates(bt.wal) {
      forall p | p in bt.pages {
        NoUpdatesFollow(p, bt.wal, flushed[p]);
      }
    }
  }
}
