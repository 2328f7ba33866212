/** A crash and the recovery after it, from the log and the pages that happen to be on disk. */
module Crash {
  import opened Bytes
  import opened Assoc
  import opened Pages
  import opened Allocator
  import opened Trees
  import opened TreeStructure
  import opened Wal
  import opened Recovery
  import opened Replay
  import opened LogScan
  import opened MetaRedo
  import Engine
  import opened PageStore
  import opened StoreOps
  import opened StoreLog
  import opened BTree

  // ------------------------------------------------------------ settled logs

  /** The first n records without the marks. */
  ghost function Ops(log: seq<Record>, n: nat): seq<Record>
    requires n <= |log|
  {
    if n == 0 then [] else Ops(log, n - 1) + (if IsOp(log[n - 1].op) then [log[n - 1]] else [])
  }

  /** Every group of the log is committed, and recovery replays all its operations. */
  ghost predicate Settled(log: seq<Record>) {
    Scan(log) == Scanned(Ops(log, |log|), map[], false)
  }

  lemma {:induction false} OpsConcat(a: seq<Record>, b: seq<Record>, n: nat)
    requires n <= |b|
    ensures Ops(a + b, |a| + n) == Ops(a, |a|) + Ops(b, n)
    decreases n
  {
    if n == 0 {
      OpsPrefix(a, b, |a|);
    } else {
      OpsConcat(a, b, n - 1);
    }
  }

  lemma {:induction false} OpsPrefix(a: seq<Record>, b: seq<Record>, n: nat)
    requires n <= |a|
    ensures Ops(a + b, n) == Ops(a, n)
  {
    if n > 0 {
      OpsPrefix(a, b, n - 1);
    }
  }

  lemma {:induction false} OpsAll(body: seq<Record>, tree: TreeId, n: nat)
    requires OpsOf(body, tree) && n <= |body|
    ensures Ops(body, n) == body[..n]
  {
    if n > 0 {
      OpsAll(body, tree, n - 1);
    }
  }

  /** Marks change no page. */
  lemma {:induction false} RedoOps(mode: Mode, d: Image, p: PageId, log: seq<Record>, n: nat)
    requires AllSane(log) && n <= |log|
    ensures AllSane(Ops(log, n)) && Redo(mode, d, p, Ops(log, n)) == RedoTo(mode, d, p, log, n)
  {
    if n > 0 {
      RedoOps(mode, d, p, log, n - 1);
      var s := Ops(log, n - 1);
      if IsOp(log[n - 1].op) {
        RedoAppend(mode, d, p, s, log[n - 1]);
      } else {
        assert s + [] == s;
      }
    }
  }

  /** Marks change neither the root nor the first leaf. */
  lemma {:induction false} HeadsOps(h: Heads, log: seq<Record>, n: nat)
    requires n <= |log|
    ensures HeadsAfter(h, Ops(log, n)) == HeadsAfter(h, log[..n])
  {
    if n > 0 {
      HeadsOps(h, log, n - 1);
      var s := Ops(log, n - 1);
      assert s + [] == s && (s + [log[n - 1]])[..|s|] == s;
      assert log[..n][..n - 1] == log[..n - 1];
    }
  }

  /** Nor the free pages. */
  lemma {:induction false} VacancyOps(v: Vacancy, log: seq<Record>, n: nat)
    requires n <= |log|
    ensures VacancyAfter(v, Ops(log, n)) == VacancyAfter(v, log[..n])
  {
    if n > 0 {
      VacancyOps(v, log, n - 1);
      var s := Ops(log, n - 1);
      assert s + [] == s && (s + [log[n - 1]])[..|s|] == s;
      assert log[..n][..n - 1] == log[..n - 1];
    }
  }

  /** Nor the metadata LSN. */
  lemma {:induction false} MetaLsnOps(lsn: nat, log: seq<Record>, n: nat)
    requires n <= |log|
    ensures MetaLsnAfter(lsn, Ops(log, n)) == MetaLsnAfter(lsn, log[..n])
  {
    if n > 0 {
      MetaLsnOps(lsn, log, n - 1);
      var s := Ops(log, n - 1);
      assert s + [] == s && (s + [log[n - 1]])[..|s|] == s;
      assert log[..n][..n - 1] == log[..n - 1];
    }
  }

  /** A group in progress after a settled log only fills the buffer of its tree. */
  lemma {:induction false} ScanGroup(log: seq<Record>, tree: TreeId, begin: nat, body: seq<Record>, n: nat)
    requires Settled(log) && OpsOf(body, tree) && n <= |body|
    ensures Scan(log + [Record(begin, tree, Begin)] + body[..n]) == Scanned(Ops(log, |log|), map[tree := body[..n]], false)
  {
    var open := log + [Record(begin, tree, Begin)];
    if n == 0 {
      ScanAppend(log, Record(begin, tree, Begin));
      assert open + body[..0] == open;
    } else {
      ScanGroup(log, tree, begin, body, n - 1);
      ScanAppend(open + body[..n - 1], body[n - 1]);
      assert open + body[..n - 1] + [body[n - 1]] == open + body[..n];
      assert body[..n - 1] + [body[n - 1]] == body[..n];
    }
  }

  lemma {:induction false} OpsOfGroup(log: seq<Record>, tree: TreeId, begin: nat, body: seq<Record>, commit: nat)
    requires OpsOf(body, tree)
    ensures var all := log + [Record(begin, tree, Begin)] + body + [Record(commit, tree, Commit)];
      Ops(all, |all|) == Ops(log, |log|) + body
  {
    var open, done := [Record(begin, tree, Begin)], [Record(commit, tree, Commit)];
    OpsConcat(log + open + body, done, 1);
    assert Ops(done, 1) == Ops(done, 0) + [] && Ops(open, 1) == Ops(open, 0) + [];
    OpsConcat(log + open, body, |body|);
    OpsAll(body, tree, |body|);
    OpsConcat(log, open, 1);
    assert body[..|body|] == body;
  }

  /** A finished operation leaves a settled log settled. */
  lemma {:induction false} GroupSettles(a: Trail, b: Trail, tree: TreeId, upd: bool)
    requires Settled(a.wal) && Grouped(a, b, tree, true, upd)
    ensures Settled(b.wal)
  {
    var begin, body, commit :| GroupIs(a, b, tree, true, begin, body, commit);
    OpsOfGroup(a.wal, tree, begin, body, commit);
    ScanGroup(a.wal, tree, begin, body, |body|);
    assert body[..|body|] == body;
    ScanAppend(a.wal + [Record(begin, tree, Begin)] + body, Record(commit, tree, Commit));
  }

  /** The log and the memory of the tree agree on the root and the first leaf. */
  ghost predicate HeadsLogged(t: Trail) {
    t.heads == HeadsAfter(Heads(0, 0), t.wal)
  }

  lemma {:induction false} GroupLogsHeads(a: Trail, b: Trail, tree: TreeId, ok: bool, upd: bool)
    requires HeadsLogged(a) && Grouped(a, b, tree, ok, upd)
    ensures HeadsLogged(b)
  {
    var begin, body, commit :| GroupIs(a, b, tree, ok, begin, body, commit);
    var open, done := [Record(begin, tree, Begin)], if ok then [Record(commit, tree, Commit)] else [];
    HeadsConcat(Heads(0, 0), a.wal, open);
    HeadsConcat(Heads(0, 0), a.wal + open, body);
    HeadsConcat(Heads(0, 0), a.wal + open + body, done);
    assert open[..0] == [] && done[..0] == [];
  }

  /** They agree on the free pages, counted from the allocator the log began with. */
  ghost predicate VacancyLogged(t: Trail, origin: Alloc) {
    t.vacancy == VacancyAfter(VacancyOf(origin), t.wal)
  }

  lemma {:induction false} GroupLogsVacancy(a: Trail, b: Trail, tree: TreeId, ok: bool, upd: bool, origin: Alloc)
    requires VacancyLogged(a, origin) && Grouped(a, b, tree, ok, upd)
    ensures VacancyLogged(b, origin)
  {
    var begin, body, commit :| GroupIs(a, b, tree, ok, begin, body, commit);
    var v, open, done := VacancyOf(origin), [Record(begin, tree, Begin)], if ok then [Record(commit, tree, Commit)] else [];
    VacancyConcat(v, a.wal, open);
    VacancyConcat(v, a.wal + open, body);
    VacancyConcat(v, a.wal + open + body, done);
    assert open[..0] == [] && done[..0] == [];
  }

  /** They agree on the metadata LSN. */
  ghost predicate MetaLsnLogged(t: Trail) {
    t.metaLsn == MetaLsnAfter(0, t.wal)
  }

  lemma {:induction false} GroupLogsMetaLsn(a: Trail, b: Trail, tree: TreeId, ok: bool, upd: bool)
    requires MetaLsnLogged(a) && Grouped(a, b, tree, ok, upd)
    ensures MetaLsnLogged(b)
  {
    var begin, body, commit :| GroupIs(a, b, tree, ok, begin, body, commit);
    var open, done := [Record(begin, tree, Begin)], if ok then [Record(commit, tree, Commit)] else [];
    MetaLsnConcat(0, a.wal, open);
    MetaLsnConcat(0, a.wal + open, body);
    MetaLsnConcat(0, a.wal + open + body, done);
    assert open[..0] == [] && done[..0] == [];
  }

  /** The records of an operation that had not committed. */
  ghost predicate Unfinished(tail: seq<Record>, tree: TreeId) {
    tail != [] ==> tail[0].tree == tree && tail[0].op.Begin? && OpsOf(tail[1..], tree)
  }

  lemma {:induction false} TailIgnored(log: seq<Record>, tail: seq<Record>, tree: TreeId)
    requires Settled(log) && Unfinished(tail, tree)
    ensures !Scan(log + tail).failed && Scan(log + tail).applied == Ops(log, |log|)
  {
    if tail == [] {
      assert log + tail == log;
    } else {
      var body := tail[1..];
      ScanGroup(log, tree, tail[0].lsn, body, |body|);
      assert log + [Record(tail[0].lsn, tree, Begin)] + body[..|body|] == log + tail;
    }
  }

  /**
   The log of the database: the records of tree `tree` in it are the committed ones and the tail, and no other tree
   works on these pages.
   */
  ghost predicate SharedLog(log: seq<Record>, tree: TreeId, wal: seq<Record>, tail: seq<Record>, pages: Store) {
    && Increasing(log) && AllSane(log) && !Scan(log).failed
    && Only(log, tree, |log|) == wal + tail
    && forall p, i | p in pages && 0 <= i < |log| && Concerns(log[i].op, p) :: log[i].tree == tree
  }

  /** Whatever the other trees log and commit, recovery replays on a page the committed records of its tree. */
  lemma {:induction false} ReplaysOwn(log: seq<Record>, tree: TreeId, wal: seq<Record>, tail: seq<Record>, pages: Store, p: PageId,
                                      d: Image)
    requires SharedLog(log, tree, wal, tail, pages) && p in pages && Settled(wal) && Unfinished(tail, tree) && AllSane(wal)
    ensures AllSane(Scan(log).applied) && Redo(Replaying, d, p, Scan(log).applied) == RedoTo(Replaying, d, p, wal, |wal|)
  {
    InterleavingInvisible(Replaying, d, p, log, tree);
    TailIgnored(wal, tail, tree);
    RedoOps(Replaying, d, p, wal, |wal|);
  }

  // ------------------------------------------------------------------- pages

  lemma {:induction false} KindAfter(d: Image, p: PageId, recs: seq<Record>, i: nat, m: nat)
    requires AllSane(recs) && i < m <= |recs| && recs[i].op.CreatePage? && recs[i].op.page == p
    ensures RedoTo(Replaying, d, p, recs, m).internal == RedoTo(Writing, ZERO_IMAGE, p, recs, m).internal
  {
    if i < m - 1 {
      KindAfter(d, p, recs, i, m - 1);
    }
  }

  /** The kind byte of a created page is that of the log, whatever the disk held. */
  lemma {:induction false} KindOfCreated(d: Image, p: PageId, recs: seq<Record>)
    requires AllSane(recs) && Created(p, recs)
    ensures Redo(Replaying, d, p, recs).internal == Redo(Writing, ZERO_IMAGE, p, recs).internal
  {
    var i :| 0 <= i < |recs| && recs[i].op.CreatePage? && recs[i].op.page == p;
    KindAfter(d, p, recs, i, |recs|);
  }

  lemma {:induction false} AlikeVia(a: Content, b: Content, c: Content)
    requires Alike(b, c)
    ensures Alike(a, b) <==> Alike(a, c)
  {
  }

  /**
   Recovery after a crash in the middle of an operation, of a page that was flushed after any n records of the
   committed part: it gets back its kind, and its contents if and only if recovery follows every record on it since its
   contents were last put back as a whole.
   */
  lemma {:induction false} PageRecoversIff(pages: Store, wal: seq<Record>, last: nat, tail: seq<Record>, tree: TreeId, log: seq<Record>,
                                           p: PageId, d: Image, n: nat)
    requires Audit(pages, wal, last) == Consistent && p in pages && Settled(wal) && Unfinished(tail, tree)
    requires SharedLog(log, tree, wal, tail, pages)
    requires n <= |wal| && AllSane(wal) && Lagging(d, p, wal, n)
    ensures AllSane(Scan(log).applied)
    ensures var e := Redo(Replaying, d, p, Scan(log).applied);
      e.internal == pages[p].internal && (SameBody(e, ImageOf(pages[p])) <==> FollowsTo(p, wal, n, |wal|))
  {
    assert PageJournaled(pages[p], p, wal);
    ReplaysOwn(log, tree, wal, tail, pages, p, d);
    JournalAscends(pages, wal, last, p);
    ReplayIff(d, p, wal, n);
    KindOfCreated(d, p, wal);
    AlikeVia(Redo(Replaying, d, p, wal).content, ImageOf(pages[p]).content, Written(p, wal, |wal|));
  }

  // -------------------------------------------------- pages flushed too early

  /** The page as the tree had it after the first m records of an operation that never committed. */
  ghost function Midway(pg: Page, p: PageId, tail: seq<Record>, m: nat): Image
    requires AllSane(tail) && m <= |tail|
  {
    RedoTo(Writing, ImageOf(pg), p, tail, m)
  }

  lemma {:induction false} LsnGrows(d: Image, p: PageId, recs: seq<Record>, m: nat)
    requires AllSane(recs) && m <= |recs|
    ensures d.lsn <= RedoTo(Writing, d, p, recs, m).lsn
  {
    if m > 0 {
      LsnGrows(d, p, recs, m - 1);
    }
  }

  /** What the page after recovery is compared with: the last committed state. */
  ghost predicate Restored(pages: Store, log: seq<Record>, p: PageId, d: Image)
    requires p in pages
  {
    AllSane(Scan(log).applied) && SameBody(Redo(Replaying, d, p, Scan(log).applied), ImageOf(pages[p]))
  }

  /** Recovery has no undo: a page flushed after m records of an operation that never committed keeps what was flushed. */
  lemma {:induction false} NoUndo(pages: Store, wal: seq<Record>, last: nat, tail: seq<Record>, tree: TreeId, log: seq<Record>, p: PageId,
                                  m: nat)
    requires Audit(pages, wal, last) == Consistent && p in pages && Settled(wal) && Unfinished(tail, tree)
    requires SharedLog(log, tree, wal, tail, pages)
    requires AllSane(tail) && m <= |tail|
    ensures AllSane(Scan(log).applied)
    ensures var d := Midway(pages[p], p, tail, m); Redo(Replaying, d, p, Scan(log).applied).content == d.content
  {
    var d := Midway(pages[p], p, tail, m);
    assert PageJournaled(pages[p], p, wal);
    LsnGrows(ImageOf(pages[p]), p, tail, m);
    ReplaysOwn(log, tree, wal, tail, pages, p, d);
    SkipSeen(Replaying, d, p, wal, |wal|);
  }

  lemma {:induction false} ContentStays(d: Image, p: PageId, recs: seq<Record>, a: nat, b: nat)
    requires AllSane(recs) && a <= b <= |recs| && forall i | a <= i < b :: !Touches(recs[i].op, p)
    ensures RedoTo(Writing, d, p, recs, b).content == RedoTo(Writing, d, p, recs, a).content
    ensures RedoTo(Writing, d, p, recs, b).lsn == RedoTo(Writing, d, p, recs, a).lsn
    decreases b
  {
    if a < b {
      ContentStays(d, p, recs, a, b - 1);
    }
  }

  /** A page that none of those m records touches is right after recovery. */
  lemma {:induction false} FlushedUntouched(pages: Store, wal: seq<Record>, last: nat, tail: seq<Record>, tree: TreeId, log: seq<Record>,
                                            p: PageId, m: nat)
    requires Audit(pages, wal, last) == Consistent && p in pages && Settled(wal) && Unfinished(tail, tree)
    requires SharedLog(log, tree, wal, tail, pages)
    requires AllSane(tail) && m <= |tail| && forall i | 0 <= i < m :: !Touches(tail[i].op, p)
    ensures Restored(pages, log, p, Midway(pages[p], p, tail, m))
  {
    NoUndo(pages, wal, last, tail, tree, log, p, m);
    ContentStays(ImageOf(pages[p]), p, tail, 0, m);
  }

  /** The record leaves the contents as they are: an update to the value that is there, or a separator the page refuses. */
  predicate Idle(c: Content, op: LogOp) {
    match op
    case UpdateLeaf(_, k, v) => Has(LeafIn(c).elems, k) && LeafIn(c).elems[Pos(LeafIn(c).elems, k)].value == v
    case InsertInternal(_, k, l, r) => SepInsert(SepsOf(c), k, l, r).SepRefused?
    case _ => false
  }

  /** The list a split logs is that of the page it splits. */
  ghost predicate SplitsIt(c: Content, op: LogOp, p: PageId) {
    && (op.SplitLeaf? ==> p == op.leftPage && op.elems == LeafIn(c).elems)
    && (op.SplitInternal? ==> p == op.leftPage && op.seps == SepsOf(c))
  }

  lemma {:induction false} UpdateIdle(c: Content, p: PageId, k: Bytes, v: Bytes)
    requires Took(c, UpdateLeaf(p, k, v), p)
    ensures Alike(Effect(Writing, UpdateLeaf(p, k, v), p, c), c) <==> Idle(c, UpdateLeaf(p, k, v))
  {
    var s := LeafIn(c).elems;
    var i := Pos(s, k);
    if s[i].value == v {
      assert s[i := KV(k, v)] == s;
    } else {
      assert s[i := KV(k, v)][i] != s[i];
    }
  }

  lemma {:induction false} AllAsFirst(keys: seq<Bytes>, u: nat, j: nat)
    requires u <= j < |keys| && forall i | u < i <= j :: keys[i] == keys[i - 1]
    ensures keys[j] == keys[u]
    decreases j
  {
    if u < j {
      AllAsFirst(keys, u, j - 1);
    }
  }

  /** A smaller key put into the keys before index idx does not give all the keys back. */
  lemma {:induction false} SmallerInFront(keys: seq<Bytes>, idx: nat, u: nat, k: Bytes)
    requires u <= idx < |keys| && Lt(k, keys[idx])
    ensures keys[..u] + [k] + keys[u..idx] != keys
  {
    var more := keys[..u] + [k] + keys[u..idx];
    OrderFacts();
    if more == keys {
      assert more[u] == k;
      forall i | u < i <= idx ensures keys[i] == keys[i - 1] {
        assert more[i] == keys[i - 1];
      }
      AllAsFirst(keys, u, idx);
      assert false;
    }
  }

  function LeafKeys(elems: seq<KV>): (keys: seq<Bytes>)
    ensures |keys| == |elems| && forall i | 0 <= i < |elems| :: keys[i] == elems[i].key
  {
    seq(|elems|, i requires 0 <= i < |elems| => elems[i].key)
  }

  lemma {:induction false} LeafHalfDiffers(elems: seq<KV>, idx: nat, e: KV)
    requires idx < |elems| && Lt(e.key, elems[idx].key)
    ensures InsertElem(elems[..idx], e) != elems
  {
    var half, keys := elems[..idx], LeafKeys(elems);
    var u := Upper(half, e.key);
    SmallerInFront(keys, idx, u, e.key);
    var more, with := InsertElem(half, e), keys[..u] + [e.key] + keys[u..idx];
    forall j | 0 <= j < |more| ensures LeafKeys(more)[j] == with[j] {
      if j < u {
        assert more[j] == elems[j] && with[j] == keys[j];
      } else if j > u {
        assert more[j] == elems[j - 1] && with[j] == keys[j - 1];
      }
    }
    assert LeafKeys(more) == with;
  }

  lemma {:induction false} NodeHalfDiffers(seps: seq<Sep>, idx: nat, k: Bytes, l: PageId, r: PageId)
    requires idx < |seps| && Lt(k, seps[idx].key)
    ensures InsertSep(seps[..idx], k, l, r) != seps
  {
    var half, keys := seps[..idx], KeysOf(seps);
    var u := Route(KeysOf(half), k);
    SmallerInFront(keys, idx, u, k);
    var more, with := InsertSep(half, k, l, r), keys[..u] + [k] + keys[u..idx];
    forall j | 0 <= j < |more| ensures KeysOf(more)[j] == with[j] {
      if j < u {
        assert with[j] == keys[j];
      } else if j > u {
        assert with[j] == keys[j - 1];
      }
    }
    assert KeysOf(more) == with;
  }

  lemma {:induction false} SplitNotIdle(c: Content, op: LogOp, p: PageId)
    requires Sane(op) && Touches(op, p) && Took(c, op, p) && SplitsIt(c, op, p) && Rebuilds(op, p)
    ensures !Alike(Effect(Writing, op, p, c), c)
  {
    match op {
      case SplitLeaf(_, r, idx, _, k, v, elems) =>
        assert !Alike(PutBack(elems[..idx], r), c);
        if Lt(k, elems[idx].key) {
          LeafHalfDiffers(elems, idx, KV(k, v));
        }
      case SplitInternal(_, _, idx, k, l, r, seps) =>
        if Lt(k, seps[idx].key) {
          NodeHalfDiffers(seps, idx, k, l, r);
        }
      case _ =>
    }
  }

  lemma {:induction false} IdleIff(c: Content, op: LogOp, p: PageId)
    requires Sane(op) && Touches(op, p) && Took(c, op, p) && SplitsIt(c, op, p)
    ensures Alike(Effect(Writing, op, p, c), c) <==> Idle(c, op)
  {
    match op {
      case InsertLeaf(_, k, v) => InsertedKeys(LeafIn(c).elems, KV(k, v), k);
      case UpdateLeaf(q, k, v) => UpdateIdle(c, q, k, v);
      case InsertInternal(_, k, l, r) =>
        if SepInsert(SepsOf(c), k, l, r).SepDone? {
          assert |InsertSep(SepsOf(c), k, l, r)| == |SepsOf(c)| + 1;
        }
      case _ => SplitNotIdle(c, op, p);
    }
  }

  lemma {:induction false} TailIsLater(pages: Store, wal: seq<Record>, last: nat, tail: seq<Record>, tree: TreeId, log: seq<Record>,
                                       p: PageId, i: nat)
    requires Audit(pages, wal, last) == Consistent && p in pages && SharedLog(log, tree, wal, tail, pages) && i < |tail|
    ensures pages[p].lsn < tail[i].lsn
  {
    OnlyIncreasing(log, tree, |log|);
    assert PageJournaled(pages[p], p, wal);
    var all := wal + tail;
    assert wal[|wal| - 1] == all[|wal| - 1] && tail[i] == all[|wal| + i];
  }

  /**
   A page that one of those m records touches, as an operation touches a page at most once: it is right after recovery
   if and only if the record wrote nothing new. In particular an insertion that never committed stays.
   */
  lemma {:induction false} FlushedTooEarlyIff(pages: Store, wal: seq<Record>, last: nat, tail: seq<Record>, tree: TreeId, log: seq<Record>,
                                              p: PageId, m: nat, i: nat)
    requires Audit(pages, wal, last) == Consistent && p in pages && Settled(wal) && Unfinished(tail, tree)
    requires SharedLog(log, tree, wal, tail, pages)
    requires AllSane(tail) && i < m <= |tail| && Touches(tail[i].op, p) && forall j | 0 <= j < m && j != i :: !Touches(tail[j].op, p)
    requires Took(ImageOf(pages[p]).content, tail[i].op, p) && SplitsIt(ImageOf(pages[p]).content, tail[i].op, p)
    ensures Restored(pages, log, p, Midway(pages[p], p, tail, m)) <==> Idle(ImageOf(pages[p]).content, tail[i].op)
  {
    NoUndo(pages, wal, last, tail, tree, log, p, m);
    TailIsLater(pages, wal, last, tail, tree, log, p, i);
    ContentStays(ImageOf(pages[p]), p, tail, 0, i);
    ContentStays(ImageOf(pages[p]), p, tail, i + 1, m);
    IdleIff(ImageOf(pages[p]).content, tail[i].op, p);
  }

  /** The first n records of an Insert that a crash cuts short. */
  ghost function CutShort(last: nat, tree: TreeId, db: TreeRuns.Db, k: Bytes, v: Bytes, stale: set<PageId>, n: nat): seq<Record>
    requires TreeRuns.Runnable(db) && n < |InsertLog(db, k, v, stale)|
  {
    Stamped(last, tree, InsertLog(db, k, v, stale))[..n]
  }

  lemma {:induction false} CutShortUnfinished(last: nat, tree: TreeId, db: TreeRuns.Db, k: Bytes, v: Bytes, stale: set<PageId>, n: nat)
    requires TreeRuns.Runnable(db) && n < |InsertLog(db, k, v, stale)|
    ensures Unfinished(CutShort(last, tree, db, k, v, stale, n), tree)
  {
    InsertMarks(db, k, v, stale);
    var ops, tail := InsertLog(db, k, v, stale), CutShort(last, tree, db, k, v, stale, n);
    forall i | 1 <= i < n ensures tail[i].tree == tree && IsOp(tail[i].op) {
      assert ops[i] == ops[1..|ops| - 1][i - 1];
    }
  }

  /** An Insert cut short after n records, with a page flushed after m of them: the page is right unless one of those wrote something new. */
  lemma {:induction false} CutShortIff(pages: Store, wal: seq<Record>, last: nat, tree: TreeId, db: TreeRuns.Db, k: Bytes, v: Bytes,
                                       stale: set<PageId>, n: nat, log: seq<Record>, p: PageId, m: nat, i: nat)
    requires Audit(pages, wal, last) == Consistent && p in pages && Settled(wal) && TreeRuns.Inv(db) && n < |InsertLog(db, k, v, stale)|
    requires var tail := CutShort(last, tree, db, k, v, stale, n);
      && SharedLog(log, tree, wal, tail, pages) && AllSane(tail) && i < m <= n && Touches(tail[i].op, p)
      && Took(ImageOf(pages[p]).content, tail[i].op, p) && SplitsIt(ImageOf(pages[p]).content, tail[i].op, p)
    ensures var tail := CutShort(last, tree, db, k, v, stale, n);
      Restored(pages, log, p, Midway(pages[p], p, tail, m)) <==> Idle(ImageOf(pages[p]).content, tail[i].op)
  {
    var tail := CutShort(last, tree, db, k, v, stale, n);
    CutShortUnfinished(last, tree, db, k, v, stale, n);
    forall j | 0 <= j < m && j != i ensures !Touches(tail[j].op, p) {
      InsertOnce(db, k, v, stale, i, j, p);
    }
    FlushedTooEarlyIff(pages, wal, last, tail, tree, log, p, m, i);
  }

  // -------------------------------------------------------------------- trees

  /** The same tree with the leaf pages read from another store. */
  ghost function Reread(pages: Store, t: Tree): Tree
    decreases t
  {
    match t
    case LeafT(pid, _, _) => if pid in pages then t.(page := LeafOf(pages[pid].body)) else t
    case NodeT(_, _, _, kids) => t.(kids := seq(|kids|, i requires 0 <= i < |kids| => Reread(pages, kids[i])))
  }

  /** The page shows the same kind, elements, separators and next pointer; its leaf accounting may differ but is exact. */
  ghost predicate SameFace(a: Page, b: Page) {
    && a.internal == b.internal && SameBody(ImageOf(a), ImageOf(b))
    && (b.body.LeafB? ==> Exact(b.body.leaf))
  }

  ghost predicate SameFaces(pages: Store, pages': Store) {
    pages'.Keys == pages.Keys && forall p | p in pages :: SameFace(pages[p], pages'[p])
  }

  /** Trees with the same pages, separators and elements; the leaves of the second account for their space exactly. */
  ghost predicate Twin(t: Tree, u: Tree)
    decreases t
  {
    && t.pid == u.pid && t.internal == u.internal
    && match t
       case LeafT(_, _, page) => u.LeafT? && u.page.elems == page.elems && u.page.next == page.next && Exact(u.page)
       case NodeT(_, _, keys, kids) => u.NodeT? && u.keys == keys && Twins(kids, u.kids)
  }

  ghost predicate Twins(a: seq<Tree>, b: seq<Tree>)
    decreases a
  {
    |a| == |b| && forall i | 0 <= i < |a| :: Twin(a[i], b[i])
  }

  lemma {:induction false} RereadTwin(pages: Store, pages': Store, t: Tree)
    requires Rep(pages, t) && SameFaces(pages, pages')
    ensures Twin(t, Reread(pages', t))
    decreases t
  {
    assert SameFace(pages[t.pid], pages'[t.pid]);
    if t.LeafT? {
      EmptyExact();
    } else {
      var ks := Reread(pages', t).kids;
      forall i | 0 <= i < |ks| ensures Twin(t.kids[i], ks[i]) {
        RereadTwin(pages, pages', t.kids[i]);
      }
    }
  }

  lemma {:induction false} RereadRep(pages: Store, pages': Store, t: Tree)
    requires Rep(pages, t) && SameFaces(pages, pages')
    ensures Rep(pages', Reread(pages', t))
    decreases t
  {
    assert SameFace(pages[t.pid], pages'[t.pid]);
    if t.NodeT? {
      var ks := Reread(pages', t).kids;
      forall i | 0 <= i < |ks| ensures ks[i].pid == t.kids[i].pid && Rep(pages', ks[i]) {
        RereadRep(pages, pages', t.kids[i]);
        RereadTwin(pages, pages', t.kids[i]);
      }
      assert Matches(SepsIn(pages'[t.pid].body), t.keys, ks);
    }
  }

  lemma {:induction false} TwinWF(t: Tree, u: Tree, h: nat, lo: Option<Bytes>, hi: Option<Bytes>)
    requires WF(t, h, lo, hi) && Twin(t, u)
    ensures WF(u, h, lo, hi)
    decreases t
  {
    if t.NodeT? {
      forall i | 0 <= i < |t.kids| {
        TwinWF(t.kids[i], u.kids[i], h - 1, LoOf(t.keys, lo, i), HiOf(t.keys, hi, i));
      }
    }
  }

  /** Twins have the same elements, the same pages and leaves linked alike. */
  ghost predicate SameRow(s: seq<Tree>, u: seq<Tree>) {
    |s| == |u| && forall i | 0 <= i < |s| ::
      s[i].pid == u[i].pid && s[i].LeafT? && u[i].LeafT? && s[i].page.next == u[i].page.next && Exact(u[i].page)
  }

  lemma {:induction false} TwinSame(t: Tree, u: Tree)
    requires Twin(t, u)
    ensures Flat(t) == Flat(u) && Pids(t) == Pids(u) && Distinct(t) == Distinct(u) && SameRow(Leaves(t), Leaves(u))
    decreases t, 0
  {
    if t.NodeT? {
      TwinsSame(t.kids, u.kids);
    }
  }

  lemma {:induction false} RowsJoin(a: seq<Tree>, b: seq<Tree>, c: seq<Tree>, d: seq<Tree>)
    requires SameRow(a, b) && SameRow(c, d)
    ensures SameRow(a + c, b + d)
  {
  }

  lemma {:induction false} TwinsSame(a: seq<Tree>, b: seq<Tree>)
    requires Twins(a, b)
    ensures FlatAll(a) == FlatAll(b) && PidsAll(a) == PidsAll(b) && DistinctAll(a) == DistinctAll(b) && SameRow(LeavesAll(a), LeavesAll(b))
    decreases a
  {
    if a != [] {
      var n := |a| - 1;
      assert Twins(a[..n], b[..n]);
      TwinsSame(a[..n], b[..n]);
      TwinSame(a[n], b[n]);
      RowsJoin(LeavesAll(a[..n]), LeavesAll(b[..n]), Leaves(a[n]), Leaves(b[n]));
    }
  }

  lemma {:induction false} RowChained(t: Tree, u: Tree, first: PageId)
    requires SameRow(Leaves(t), Leaves(u)) && TreeRuns.Chained(t, first)
    ensures TreeRuns.Chained(u, first)
  {
  }

  /** A store with the same faces holds a sound tree with the same bindings and the same leaf chain. */
  lemma {:induction false} FacesSuffice(pages: Store, root: PageId, db: TreeRuns.Db, h: nat, pages': Store)
    requires Healthy(pages, root, db, h) && db.tree.Some? && SameFaces(pages, pages')
    ensures var db' := db.(tree := Some(Reread(pages', db.tree.value)));
      Healthy(pages', root, db', h) && TreeRuns.View(db') == TreeRuns.View(db) && TreeAccounts.Accurate(db')
  {
    var t := db.tree.value;
    var u := Reread(pages', t);
    RereadTwin(pages, pages', t);
    RereadRep(pages, pages', t);
    TwinWF(t, u, h, None, None);
    WFShaped(u, h, None, None);
    TwinSame(t, u);
    RowChained(t, u, db.first);
  }

  // ---------------------------------------------------------- a whole recovery

  /** Every slot of every leaf covers its element. */
  ghost predicate LeavesCover(t: Tree)
    decreases t
  {
    match t
    case LeafT(_, _, page) => Covers(page.slots, page.elems)
    case NodeT(_, _, _, kids) => forall i | 0 <= i < |kids| :: LeavesCover(kids[i])
  }

  lemma {:induction false} WFCovers(t: Tree, h: nat, lo: Option<Bytes>, hi: Option<Bytes>)
    requires WF(t, h, lo, hi)
    ensures LeavesCover(t)
    decreases t
  {
    if t.NodeT? {
      forall i | 0 <= i < |t.kids| {
        WFCovers(t.kids[i], h - 1, LoOf(t.keys, lo, i), HiOf(t.keys, hi, i));
      }
    }
  }

  lemma {:induction false} RepCovers(pages: Store, t: Tree, p: PageId)
    requires Rep(pages, t) && LeavesCover(t) && p in Pids(t)
    ensures p in pages && (pages[p].body.LeafB? ==> Covers(pages[p].body.leaf.slots, pages[p].body.leaf.elems))
    decreases t
  {
    if t.NodeT? && p != t.pid {
      var i := KidOf(t.kids, p);
      RepCovers(pages, t.kids[i], p);
    }
  }

  lemma {:induction false} KidOf(kids: seq<Tree>, p: PageId) returns (i: nat)
    requires p in PidsAll(kids)
    ensures i < |kids| && p in Pids(kids[i])
    decreases kids
  {
    var n := |kids| - 1;
    if p in Pids(kids[n]) {
      i := n;
    } else {
      i := KidOf(kids[..n], p);
    }
  }

  /** Each page was flushed after the given number of records of the committed part, from a sound tree; 0 stands for never. */
  ghost predicate DiskLags(disk: map<PageId, Image>, flushed: map<PageId, nat>, pages: Store, wal: seq<Record>)
    requires AllSane(wal)
  {
    forall p | p in pages :: p in disk && p in flushed && flushed[p] <= |wal| && Lagging(disk[p], p, wal, flushed[p]) && ExactIn(disk[p].content)
  }

  /** Recovery follows every record it needs. */
  ghost predicate Followed(flushed: map<PageId, nat>, pages: Store, wal: seq<Record>)
    requires AllSane(wal)
  {
    forall p | p in pages :: p in flushed && flushed[p] <= |wal| && FollowsTo(p, wal, flushed[p], |wal|)
  }

  function PageOf(img: Image): Page {
    var body := match img.content
      case Blank => Empty
      case Slotted(leaf) => LeafB(leaf)
      case Seps(seps) => NodeB(seps)
      case Ruined => Empty;
    Page(img.lsn, img.internal, body)
  }

  /** The pages of a tree after recovery. */
  ghost function StoreOf(images: map<PageId, Image>, keys: set<PageId>): Store {
    map p | p in keys :: PageOf(Engine.At(images, p))
  }

  ghost predicate AllRestored(pages: Store, images: map<PageId, Image>) {
    forall p | p in pages :: Engine.At(images, p).internal == pages[p].internal && SameBody(Engine.At(images, p), ImageOf(pages[p]))
  }

  /**
   After a crash in the middle of an operation recovery gives every page of the tree back, with its space counters,
   if and only if it follows every record on a page since that page was last put back as a whole.
   */
  lemma {:induction false} CrashRecoversIff(pages: Store, wal: seq<Record>, last: nat, tail: seq<Record>, tree: TreeId, log: seq<Record>,
                                            disk: map<PageId, Image>, flushed: map<PageId, nat>, images: map<PageId, Image>)
    requires Audit(pages, wal, last) == Consistent && Settled(wal) && Unfinished(tail, tree) && SharedLog(log, tree, wal, tail, pages)
    requires AllSane(wal) && DiskLags(disk, flushed, pages, wal) && AllSane(Scan(log).applied)
    requires forall p | p in pages :: Engine.At(images, p) == Redo(Replaying, disk[p], p, Scan(log).applied)
    ensures AllRestored(pages, images) <==> Followed(flushed, pages, wal)
  {
    forall p | p in pages
      ensures Engine.At(images, p).internal == pages[p].internal
      ensures SameBody(Engine.At(images, p), ImageOf(pages[p])) <==> FollowsTo(p, wal, flushed[p], |wal|) {
      PageRecoversIff(pages, wal, last, tail, tree, log, p, disk[p], flushed[p]);
    }
  }

  lemma {:induction false} RestoredExact(pages: Store, wal: seq<Record>, last: nat, tail: seq<Record>, tree: TreeId, log: seq<Record>,
                                         p: PageId, d: Image)
    requires Audit(pages, wal, last) == Consistent && p in pages && Settled(wal) && Unfinished(tail, tree)
    requires SharedLog(log, tree, wal, tail, pages)
    requires ExactIn(d.content)
    ensures AllSane(Scan(log).applied) && ExactIn(Redo(Replaying, d, p, Scan(log).applied).content)
  {
    assert PageJournaled(pages[p], p, wal);
    ReplaysOwn(log, tree, wal, tail, pages, p, d);
    ReplayExact(d, p, wal, |wal|);
  }

  /** Then the pages hold a sound tree with exactly the bindings of the committed operations. */
  lemma {:induction false} CrashRecovers(pages: Store, db: TreeRuns.Db, h: nat, root: PageId, wal: seq<Record>, last: nat,
                                         tail: seq<Record>, tree: TreeId,
                                         log: seq<Record>, disk: map<PageId, Image>, flushed: map<PageId, nat>, images: map<PageId, Image>)
    requires Healthy(pages, root, db, h) && db.tree.Some?
    requires Audit(pages, wal, last) == Consistent && Settled(wal) && Unfinished(tail, tree) && SharedLog(log, tree, wal, tail, pages)
    requires AllSane(wal) && DiskLags(disk, flushed, pages, wal) && Followed(flushed, pages, wal) && AllSane(Scan(log).applied)
    requires forall p | p in pages :: Engine.At(images, p) == Redo(Replaying, disk[p], p, Scan(log).applied)
    ensures var pages' := StoreOf(images, pages.Keys);
      var db' := db.(tree := Some(Reread(pages', db.tree.value)));
      Healthy(pages', root, db', h) && TreeRuns.View(db') == TreeRuns.View(db) && TreeAccounts.Accurate(db')
  {
    var pages' := StoreOf(images, pages.Keys);
    CrashRecoversIff(pages, wal, last, tail, tree, log, disk, flushed, images);
    forall p | p in pages ensures SameFace(pages[p], pages'[p]) {
      RestoredExact(pages, wal, last, tail, tree, log, p, disk[p]);
      SameFaceOf(pages[p], Engine.At(images, p));
    }
    FacesSuffice(pages, root, db, h, pages');
  }

  lemma {:induction false} SameFaceOf(pg: Page, img: Image)
    requires img.internal == pg.internal && SameBody(img, ImageOf(pg)) && ExactIn(img.content)
    ensures SameFace(pg, PageOf(img))
  {
  }

  // ----------------------------------------------------------------- metadata

  ghost function HeadsOf(m: Meta, tree: TreeId): Heads {
    Heads(if tree in m.roots then m.roots[tree] else 0, if tree in m.firstLeaves then m.firstLeaves[tree] else 0)
  }

  /** The metadata page names the heads of the tree after the first n records, and its LSN lies between theirs and the later ones. */
  ghost predicate MetaLags(m: Meta, tree: TreeId, recs: seq<Record>, n: nat) {
    && n <= |recs| && HeadsOf(m, tree) == HeadsAfter(Heads(0, 0), Only(recs, tree, n))
    && (forall i | 0 <= i < n && SetsLsn(recs[i].op) :: recs[i].lsn <= m.lsn)
    && (forall i | n <= i < |recs| && ChangesMeta(recs[i].op) :: m.lsn < recs[i].lsn)
  }

  lemma {:induction false} MetaSkips(m: Meta, recs: seq<Record>, k: nat)
    requires k <= |recs| && forall i | 0 <= i < k && SetsLsn(recs[i].op) :: recs[i].lsn <= m.lsn
    ensures var e := ReplayMeta(m, recs[..k]); e.lsn == m.lsn && e.roots == m.roots && e.firstLeaves == m.firstLeaves
  {
    if k > 0 {
      MetaSkips(m, recs, k - 1);
      assert recs[..k][..k - 1] == recs[..k - 1];
    }
  }

  lemma {:induction false} ReplayNext(m: Meta, recs: seq<Record>, k: nat)
    requires k < |recs|
    ensures ReplayMeta(m, recs[..k + 1]) == RedoMeta(ReplayMeta(m, recs[..k]), recs[k])
  {
    assert recs[..k + 1][..k] == recs[..k] && recs[..k + 1][k] == recs[k];
  }

  /** The metadata names the heads of the first k records, and its LSN is below the later ones. */
  ghost predicate UpTo(m: Meta, tree: TreeId, recs: seq<Record>, k: nat)
    requires k <= |recs|
  {
    && HeadsOf(m, tree) == HeadsAfter(Heads(0, 0), Only(recs, tree, k))
    && forall i | k <= i < |recs| && ChangesMeta(recs[i].op) :: m.lsn < recs[i].lsn
  }

  lemma {:induction false} MetaNext(m: Meta, tree: TreeId, recs: seq<Record>, k: nat)
    requires Increasing(recs) && k < |recs| && UpTo(m, tree, recs, k)
    ensures UpTo(RedoMeta(m, recs[k]), tree, recs, k + 1)
  {
    HeadsFollow(m, tree, recs[k]);
    OnlyStep(Heads(0, 0), tree, recs, k);
  }

  lemma {:induction false} MetaFollows(m: Meta, tree: TreeId, recs: seq<Record>, n: nat, k: nat)
    requires Increasing(recs) && MetaLags(m, tree, recs, n) && n <= k <= |recs|
    ensures UpTo(ReplayMeta(m, recs[..k]), tree, recs, k)
    decreases k
  {
    if k == n {
      MetaSkips(m, recs, n);
    } else {
      MetaFollows(m, tree, recs, n, k - 1);
      ReplayNext(m, recs, k - 1);
      MetaNext(ReplayMeta(m, recs[..k - 1]), tree, recs, k - 1);
    }
  }

  lemma {:induction false} OnlyStep(h: Heads, tree: TreeId, recs: seq<Record>, k: nat)
    requires k < |recs|
    ensures var was := HeadsAfter(h, Only(recs, tree, k));
      HeadsAfter(h, Only(recs, tree, k + 1)) == if recs[k].tree == tree then HeadsStep(was, recs[k].op) else was
  {
    var s := Only(recs, tree, k);
    assert s + [] == s && (s + [recs[k]])[..|s|] == s;
  }

  lemma {:induction false} HeadsFollow(m: Meta, tree: TreeId, rec: Record)
    requires ChangesMeta(rec.op) ==> m.lsn < rec.lsn
    ensures HeadsOf(RedoMeta(m, rec), tree) == if rec.tree == tree then HeadsStep(HeadsOf(m, tree), rec.op) else HeadsOf(m, tree)
    ensures RedoMeta(m, rec).lsn == m.lsn || (ChangesMeta(rec.op) && RedoMeta(m, rec).lsn == rec.lsn)
  {
  }

  /**
   Metadata recovery with any number of trees in the log: replayed in LSN order, a metadata page written at any moment
   ends up naming the root and first leaf that the log names for each tree.
   */
  lemma {:induction false} MetaRecovers(m: Meta, tree: TreeId, recs: seq<Record>, n: nat)
    requires Increasing(recs) && MetaLags(m, tree, recs, n)
    ensures HeadsOf(ReplayMeta(m, recs), tree) == HeadsAfter(Heads(0, 0), Only(recs, tree, |recs|))
  {
    MetaFollows(m, tree, recs, n, |recs|);
    assert recs[..|recs|] == recs;
  }

  /** So the metadata names the root and first leaf that the tree had after its last committed operation. */
  lemma {:induction false} HeadsRecover(m: Meta, tree: TreeId, log: seq<Record>, wal: seq<Record>, tail: seq<Record>, pages: Store,
                                        heads: Heads, n: nat)
    requires SharedLog(log, tree, wal, tail, pages) && Settled(wal) && Unfinished(tail, tree) && heads == HeadsAfter(Heads(0, 0), wal)
    requires Increasing(Scan(log).applied) && MetaLags(m, tree, Scan(log).applied, n)
    ensures HeadsOf(ReplayMeta(m, Scan(log).applied), tree) == heads
  {
    MetaRecovers(m, tree, Scan(log).applied, n);
    ProjectScan(log, tree, |log|);
    TailIgnored(wal, tail, tree);
    HeadsOps(Heads(0, 0), wal, |wal|);
    assert wal[..|wal|] == wal;
  }

  // --------------------------------------------------------------------- runs

  ghost predicate OwnLog(wal: seq<Record>, tree: TreeId) {
    forall i | 0 <= i < |wal| :: wal[i].tree == tree
  }

  /** What a restart needs: a journaled tree, a log without open groups, and the heads, the free pages and the metadata LSN in the log. */
  ghost predicate Durable(bt: BPlusTree)
    reads bt
  {
    && bt.Valid() && Audit(bt.pages, bt.wal, bt.lastLsn) == Consistent && Settled(bt.wal) && HeadsLogged(bt.Track())
    && OwnLog(bt.wal, bt.treeId) && VacancyLogged(bt.Track(), bt.origin) && MetaLsnLogged(bt.Track())
  }

  lemma {:induction false} GroupOwned(a: Trail, b: Trail, tree: TreeId, ok: bool, upd: bool)
    requires Grouped(a, b, tree, ok, upd)
    ensures a.wal <= b.wal && (OwnLog(a.wal, tree) ==> OwnLog(b.wal, tree)) && (!upd && NoUpdates(a.wal) ==> NoUpdates(b.wal))
  {
    var begin, body, commit :| GroupIs(a, b, tree, ok, begin, body, commit) && (upd || NoUpdates(body));
  }

  /** One operation on the tree, good at its turn. */
  method Do(bt: BPlusTree, op: TreeRuns.Op) returns (reply: TreeRuns.Reply)
    requires bt.Valid() && TreeRuns.OpOk(bt.Db(), op, bt.stale)
    modifies bt
    ensures bt.Valid() && TreeRuns.Apply(old(bt.Db()), op, bt.stale) == Some((bt.Db(), reply)) && old(bt.wal) <= bt.wal
    ensures old(Durable(bt)) && !op.Delete? ==> Durable(bt)
    ensures NoUpdates(old(bt.wal)) && (op.Insert? ==> Lookup(TreeRuns.View(old(bt.Db())), op.key).None?) ==> NoUpdates(bt.wal)
  {
    match op {
      case Insert(k, v) =>
        ghost var was, upd := bt.Track(), Lookup(TreeRuns.View(bt.Db()), k).Some?;
        var ok := bt.Insert(k, v);
        GroupOwned(was, bt.Track(), bt.treeId, true, upd);
        if old(Durable(bt)) {
          GroupSettles(was, bt.Track(), bt.treeId, upd);
          GroupLogsHeads(was, bt.Track(), bt.treeId, true, upd);
          GroupLogsVacancy(was, bt.Track(), bt.treeId, true, upd, bt.origin);
          GroupLogsMetaLsn(was, bt.Track(), bt.treeId, true, upd);
        }
        reply := TreeRuns.Stored;
      case Get(k) =>
        var v := bt.Get(k);
        TreeRuns.GetCorrect(bt.Db(), k, bt.stale);
        reply := TreeRuns.ReplyOf(v);
      case Delete(k) =>
        var removed := bt.Delete(k);
        reply := if removed then TreeRuns.Deleted else TreeRuns.Missing;
    }
  }

  /**
   Whole runs on the pages: replies and final bindings are those of a finite map, the tree stays sound, and without
   deletions every state is one whose log describes the pages.
   */
  method Execute(bt: BPlusTree, ops: seq<TreeRuns.Op>) returns (replies: seq<TreeRuns.Reply>)
    requires bt.Valid() && TreeRuns.RunOk(bt.Db(), ops, bt.stale)
    modifies bt
    ensures bt.Valid() && replies == TreeRuns.MapReplies(ToMap(TreeRuns.View(old(bt.Db()))), ops)
    ensures ToMap(TreeRuns.View(bt.Db())) == TreeRuns.MapFinal(ToMap(TreeRuns.View(old(bt.Db()))), ops)
    ensures old(Durable(bt)) && (forall i | 0 <= i < |ops| :: !ops[i].Delete?) ==> Durable(bt)
    decreases |ops|
  {
    if ops == [] {
      return [];
    }
    TreeRuns.ApplyCorrect(bt.Db(), ops[0], bt.stale);
    var reply := Do(bt, ops[0]);
    var rest := Execute(bt, ops[1..]);
    replies := [reply] + rest;
  }
}
