/** The recovery code of the storage engine on pages and metadata, refining the replay specification. */
module MetaRedo {
  import opened Pages
  import opened Wal

  /** The metadata page in memory; filePages is the length of the database file in pages. */
  datatype Meta = Meta(lsn: nat, roots: map<TreeId, PageId>, firstLeaves: map<TreeId, PageId>,
                       freeList: seq<PageId>, maxId: PageId, filePages: nat)

  function Max(a: nat, b: nat): nat {
    if a < b then b else a
  }

  /** The first occurrence of id is overwritten by the last element, which is then dropped. */
  function SwapRemove(s: seq<PageId>, id: PageId): seq<PageId> {
    if id in s then s[First(s, id, 0) := s[|s| - 1]][..|s| - 1] else s
  }

  function First(s: seq<PageId>, id: PageId, i: nat): (j: nat)
    requires i <= |s| && id in s[i..]
    ensures i <= j < |s| && s[j] == id && id !in s[i..j]
    decreases |s| - i
  {
    if s[i] == id then i else First(s, id, i + 1)
  }

  /** The change a record makes to the metadata, once its LSN guard has passed. */
  function MetaEffect(m: Meta, rec: Record): Meta {
    match rec.op
    case CreatePage(p, _, fromFreeList) =>
      if fromFreeList then m.(freeList := SwapRemove(m.freeList, p), lsn := rec.lsn)
      else m.(filePages := Max(m.filePages, p + 1), maxId := Max(m.maxId, p))
    case UpdateRoot(p) => m.(roots := m.roots[rec.tree := p], lsn := rec.lsn)
    case UpdateFirstLeaf(p) => m.(firstLeaves := m.firstLeaves[rec.tree := p], lsn := rec.lsn)
    case _ => m
  }

  function RedoMeta(m: Meta, rec: Record): Meta {
    if m.lsn < rec.lsn then MetaEffect(m, rec) else m
  }

  function ReplayMeta(m: Meta, recs: seq<Record>): Meta {
    if recs == [] then m else RedoMeta(ReplayMeta(m, recs[..|recs| - 1]), recs[|recs| - 1])
  }

  /** The records applied to the metadata without any guard. */
  function ApplyMeta(m: Meta, recs: seq<Record>): Meta {
    if recs == [] then m else MetaEffect(ApplyMeta(m, recs[..|recs| - 1]), recs[|recs| - 1])
  }

  // ---------------------------------------------------------------- free list

  /** Removing an id from a duplicate-free list removes exactly that id, and the last one takes its place. */
  lemma {:induction false} SwapRemoveExact(s: seq<PageId>, id: PageId)
    requires forall i, j | 0 <= i < j < |s| :: s[i] != s[j]
    ensures var t := SwapRemove(s, id);
      && (forall x :: x in t <==> x in s && x != id)
      && (forall i, j | 0 <= i < j < |t| :: t[i] != t[j])
      && |t| == |s| - (if id in s then 1 else 0) && forall i | 0 <= i < |t| :: t[i] == if s[i] == id then s[|s| - 1] else s[i]
  {
    if id in s {
      var k := First(s, id, 0);
      var t := SwapRemove(s, id);
      assert forall i | 0 <= i < |t| :: t[i] == (if i == k then s[|s| - 1] else s[i]);
      forall x | x in s && x != id ensures x in t {
        var i :| 0 <= i < |s| && s[i] == x;
        if i == |s| - 1 {
          assert t[k] == x;
        } else {
          assert t[i] == x;
        }
      }
    }
  }

  // --------------------------------------------------------------- restarting

  /** The metadata already reflects the record. */
  ghost predicate MetaAbsorbed(m: Meta, rec: Record) {
    || rec.lsn <= m.lsn
    || match rec.op
       case CreatePage(p, _, fromFreeList) => !fromFreeList && p <= m.maxId && p < m.filePages
       case UpdateRoot(_) => false
       case UpdateFirstLeaf(_) => false
       case _ => true
  }

  lemma {:induction false} MetaMonotone(m: Meta, rec: Record, past: Record)
    requires MetaAbsorbed(m, past)
    ensures MetaAbsorbed(RedoMeta(m, rec), past)
  {
  }

  lemma {:induction false} ReplayAbsorbs(m: Meta, recs: seq<Record>, i: nat)
    requires i < |recs|
    ensures MetaAbsorbed(ReplayMeta(m, recs), recs[i])
    decreases |recs|
  {
    var n := |recs| - 1;
    if i < n {
      ReplayAbsorbs(m, recs[..n], i);
      MetaMonotone(ReplayMeta(m, recs[..n]), recs[n], recs[i]);
    }
  }

  lemma {:induction false} ReplayAbsorbed(m: Meta, recs: seq<Record>)
    requires forall i | 0 <= i < |recs| :: MetaAbsorbed(m, recs[i])
    ensures ReplayMeta(m, recs) == m
    decreases |recs|
  {
    if recs != [] {
      ReplayAbsorbed(m, recs[..|recs| - 1]);
    }
  }

  lemma {:induction false} ReplayMetaConcat(m: Meta, a: seq<Record>, b: seq<Record>)
    ensures ReplayMeta(m, a + b) == ReplayMeta(ReplayMeta(m, a), b)
    decreases |b|
  {
    if b == [] {
      assert a + b == a;
    } else {
      ReplayMetaConcat(m, a, b[..|b| - 1]);
      assert (a + b)[..|a + b| - 1] == a + b[..|b| - 1];
    }
  }

  /** Metadata recovery is restartable: a replayed prefix is absorbed by the next replay, in any record order. */
  lemma {:induction false} MetaRestartable(m: Meta, pre: seq<Record>, post: seq<Record>)
    ensures ReplayMeta(ReplayMeta(m, pre), pre + post) == ReplayMeta(m, pre + post)
  {
    var e := ReplayMeta(m, pre);
    forall i | 0 <= i < |pre| ensures MetaAbsorbed(e, pre[i]) {
      ReplayAbsorbs(m, pre, i);
    }
    ReplayAbsorbed(e, pre);
    ReplayMetaConcat(e, pre, post);
    ReplayMetaConcat(m, pre, post);
  }

  // ------------------------------------------------------------- serial replay

  /** The record advances the metadata LSN when it is applied. */
  predicate SetsLsn(op: LogOp) {
    op.UpdateRoot? || op.UpdateFirstLeaf? || (op.CreatePage? && op.fromFreeList)
  }

  predicate ChangesMeta(op: LogOp) {
    op.UpdateRoot? || op.UpdateFirstLeaf? || op.CreatePage?
  }

  /** Every metadata record comes after the LSN-setting records replayed before it. */
  ghost predicate Serial(m: Meta, recs: seq<Record>) {
    && (forall j | 0 <= j < |recs| && ChangesMeta(recs[j].op) :: m.lsn < recs[j].lsn)
    && forall i, j | 0 <= i < j < |recs| && SetsLsn(recs[i].op) && ChangesMeta(recs[j].op) :: recs[i].lsn < recs[j].lsn
  }

  /** The LSN guard of record j passes exactly when no LSN-setting record replayed before it is as late. */
  lemma {:induction false} GuardIff(m: Meta, recs: seq<Record>, n: nat, lsn: nat)
    requires n <= |recs|
    ensures ReplayMeta(m, recs[..n]).lsn < lsn <==>
      m.lsn < lsn && forall i | 0 <= i < n && SetsLsn(recs[i].op) :: recs[i].lsn < lsn
  {
    if n > 0 {
      GuardIff(m, recs, n - 1, lsn);
      GuardIff(m, recs, n - 1, recs[n - 1].lsn);
      assert recs[..n][..n - 1] == recs[..n - 1];
    }
  }

  /**
   The metadata LSN after a replay is the largest of its own and those of the records that move a root or a first leaf or
   take a page off the free list; a new page at the end of the file does not move it.
   */
  lemma {:induction false} ReplayedLsn(m: Meta, recs: seq<Record>, n: nat)
    requires n <= |recs|
    ensures var e := ReplayMeta(m, recs[..n]);
      && m.lsn <= e.lsn
      && (forall i | 0 <= i < n ::
            recs[i].op.UpdateRoot? || recs[i].op.UpdateFirstLeaf? || (recs[i].op.CreatePage? && recs[i].op.fromFreeList) ==>
              recs[i].lsn <= e.lsn)
      && (e.lsn == m.lsn
          || exists i :: 0 <= i < n && recs[i].lsn == e.lsn
               && (recs[i].op.UpdateRoot? || recs[i].op.UpdateFirstLeaf? || (recs[i].op.CreatePage? && recs[i].op.fromFreeList)))
  {
    if n > 0 {
      ReplayedLsn(m, recs, n - 1);
      assert recs[..n][..n - 1] == recs[..n - 1];
    }
  }

  /** No metadata record is skipped if and only if the replay order is serial. */
  lemma {:induction false} SerialIff(m: Meta, recs: seq<Record>)
    ensures Serial(m, recs) <==>
      forall j | 0 <= j < |recs| && ChangesMeta(recs[j].op) :: ReplayMeta(m, recs[..j]).lsn < recs[j].lsn
  {
    forall j | 0 <= j < |recs| && ChangesMeta(recs[j].op)
      ensures ReplayMeta(m, recs[..j]).lsn < recs[j].lsn <==>
        m.lsn < recs[j].lsn && forall i | 0 <= i < j && SetsLsn(recs[i].op) :: recs[i].lsn < recs[j].lsn {
      GuardIff(m, recs, j, recs[j].lsn);
    }
  }

  lemma {:induction false} SerialPrefix(m: Meta, recs: seq<Record>, n: nat)
    requires Serial(m, recs) && n <= |recs|
    ensures ReplayMeta(m, recs[..n]) == ApplyMeta(m, recs[..n])
  {
    if n > 0 {
      SerialPrefix(m, recs, n - 1);
      GuardIff(m, recs, n - 1, recs[n - 1].lsn);
      assert recs[..n][..n - 1] == recs[..n - 1];
    }
  }

  /** A serial replay leaves what the unguarded history leaves. */
  lemma {:induction false} SerialReplay(m: Meta, recs: seq<Record>)
    requires Serial(m, recs)
    ensures ReplayMeta(m, recs) == ApplyMeta(m, recs)
  {
    SerialPrefix(m, recs, |recs|);
    assert recs[..|recs|] == recs;
  }

  /** Two trees share the metadata LSN: replaying the later-logged root first loses the other tree's root. */
  lemma {:induction false} SharedLsnExample(m: Meta)
    requires m.lsn == 0 && m.roots == map[]
    ensures var recs := [Record(4, 2, UpdateRoot(20)), Record(3, 1, UpdateRoot(10))];
      ReplayMeta(m, recs).roots == map[2 := 20] && ApplyMeta(m, recs).roots == map[2 := 20, 1 := 10]
  {
    var recs := [Record(4, 2, UpdateRoot(20)), Record(3, 1, UpdateRoot(10))];
    assert recs[..1] == [recs[0]] && recs[..1][..0] == [];
    assert ReplayMeta(m, recs[..1]) == MetaEffect(m, recs[0]) && ApplyMeta(m, recs[..1]) == MetaEffect(m, recs[0]);
  }
}

/** Recover and the Redo functions. */
module Engine {
  import opened Bytes
  import opened Assoc
  import opened Pages
  import opened Wal
  import opened Recovery
  import opened Replay
  import opened LogScan
  import opened MetaRedo

  function At(pages: map<PageId, Image>, p: PageId): Image {
    if p in pages then pages[p] else ZERO_IMAGE
  }

  /** Replaying the records brings every page and the metadata to their replayed states. */
  ghost predicate Replayed(pages: map<PageId, Image>, meta: Meta, recs: seq<Record>, pages': map<PageId, Image>, meta': Meta)
    requires AllSane(recs)
  {
    && (forall p :: At(pages', p) == Redo(Replaying, At(pages, p), p, recs))
    && meta' == ReplayMeta(meta, recs)
  }

  lemma {:induction false} ReplayedOne(pages: map<PageId, Image>, meta: Meta, recs: seq<Record>, mid: map<PageId, Image>, midMeta: Meta,
                                       rec: Record, pages': map<PageId, Image>, meta': Meta)
    requires AllSane(recs) && Sane(rec.op) && Replayed(pages, meta, recs, mid, midMeta)
    requires (forall p :: At(pages', p) == RedoPage(Replaying, At(mid, p), p, rec)) && meta' == RedoMeta(midMeta, rec)
    ensures AllSane(recs + [rec]) && Replayed(pages, meta, recs + [rec], pages', meta')
  {
    assert AllSane(recs + [rec]);
    assert (recs + [rec])[..|recs|] == recs;
    forall p ensures At(pages', p) == Redo(Replaying, At(pages, p), p, recs + [rec]) {
      RedoAppend(Replaying, At(pages, p), p, recs, rec);
    }
  }

  class StorageEngine {
    /** Pages through the buffer pool (an absent page is a zero page) and the metadata. */
    var pages: map<PageId, Image>
    var meta: Meta

    constructor (pages: map<PageId, Image>, meta: Meta)
      ensures this.pages == pages && this.meta == meta
    {
      this.pages := pages;
      this.meta := meta;
    }

    /** EnsurePageExists of the disk manager. */
    method EnsurePageExists(p: PageId)
      modifies this`meta
      ensures meta == old(meta).(filePages := Max(old(meta).filePages, p + 1), maxId := Max(old(meta).maxId, p))
    {
      if meta.filePages < p + 1 {
        meta := meta.(filePages := p + 1);
      }
      if meta.maxId < p {
        meta := meta.(maxId := p);
      }
    }

    /** The swap-remove loop of RedoCreatePageOperation. */
    method RemoveFree(id: PageId)
      modifies this`meta
      ensures meta == old(meta).(freeList := SwapRemove(old(meta).freeList, id))
    {
      var list := meta.freeList;
      var i := 0;
      while i < |list|
        invariant 0 <= i <= |list|
        invariant id !in list[..i]
        invariant meta == old(meta) && list == meta.freeList
      {
        if list[i] == id {
          FirstIs(list, id, i);
          list := list[i := list[|list| - 1]];
          meta := meta.(freeList := list[..|list| - 1]);
          return;
        }
        i := i + 1;
      }
    }

    method RedoCreatePage(rec: Record)
      requires rec.op.CreatePage?
      modifies this
      ensures forall p :: At(pages, p) == RedoPage(Replaying, At(old(pages), p), p, rec)
      ensures meta == RedoMeta(old(meta), rec)
    {
      if !rec.op.fromFreeList {
        if meta.lsn < rec.lsn {
          EnsurePageExists(rec.op.page);
        }
      } else {
        if meta.lsn < rec.lsn {
          RemoveFree(rec.op.page);
          meta := meta.(lsn := rec.lsn);
        }
      }
      var img := At(pages, rec.op.page);
      pages := pages[rec.op.page := img.(internal := !rec.op.leaf)];
    }

    method RedoUpdateRoot(rec: Record)
      requires rec.op.UpdateRoot?
      modifies this`meta
      ensures meta == RedoMeta(old(meta), rec)
    {
      if meta.lsn < rec.lsn {
        meta := meta.(roots := meta.roots[rec.tree := rec.op.page]);
        meta := meta.(lsn := rec.lsn);
      }
    }

    method RedoUpdateFirstLeaf(rec: Record)
      requires rec.op.UpdateFirstLeaf?
      modifies this`meta
      ensures meta == RedoMeta(old(meta), rec)
    {
      if meta.lsn < rec.lsn {
        meta := meta.(firstLeaves := meta.firstLeaves[rec.tree := rec.op.page]);
        meta := meta.(lsn := rec.lsn);
      }
    }

    /** InsertKeyValue, whose result the redo functions ignore. */
    method InsertKeyValue(c: Content, k: Bytes, v: Bytes) returns (c': Content)
      ensures c' == InsertedIn(Replaying, c, k, v)
    {
      if c.Seps? || c.Ruined? || |LeafIn(c).slots| != |LeafIn(c).elems| {
        return Ruined;
      }
      match LeafInsert(LeafIn(c), k, v) {
        case Refused => c' := Slotted(LeafIn(c));
        case Done(q) => c' := Slotted(q);
        case Broken => c' := Ruined;
      }
    }

    /** InsertKey of an internal page, its result ignored. */
    method InsertKey(c: Content, k: Bytes, l: PageId, r: PageId) returns (c': Content)
      ensures c' == SepInsertedIn(c, k, l, r)
    {
      if c.Slotted? || c.Ruined? {
        return Ruined;
      }
      match SepInsert(SepsOf(c), k, l, r) {
        case SepRefused => c' := c;
        case SepDone(seps) => c' := Seps(seps);
        case SepBroken => c' := Ruined;
      }
    }

    /** The page gets what the tree had made of it, counters included, if and only if recovery follows the record. */
    method RedoInsertLeafNodeEntry(rec: Record)
      requires rec.op.InsertLeaf?
      modifies this`pages
      ensures forall p :: At(pages, p) == RedoPage(Replaying, At(old(pages), p), p, rec)
      ensures var was := At(old(pages), rec.op.page);
        was.lsn < rec.lsn && Level(was.content) ==>
          (Alike(Effect(Writing, rec.op, rec.op.page, was.content), At(pages, rec.op.page).content) <==> Follows(was.content, rec.op))
    {
      var img := At(pages, rec.op.page);
      if img.lsn < rec.lsn {
        var c := InsertKeyValue(img.content, rec.op.key, rec.op.value);
        pages := pages[rec.op.page := img.(content := c, lsn := rec.lsn)];
        if Level(img.content) {
          StepIff(img.content, rec.op, rec.op.page);
        }
      }
    }

    /** The same for an update; recovery runs SetValue without the check that may compact. */
    method RedoUpdateLeafNodeEntry(rec: Record)
      requires rec.op.UpdateLeaf?
      modifies this`pages
      ensures forall p :: At(pages, p) == RedoPage(Replaying, At(old(pages), p), p, rec)
      ensures var was := At(old(pages), rec.op.page);
        was.lsn < rec.lsn && Level(was.content) ==>
          (Alike(Effect(Writing, rec.op, rec.op.page, was.content), At(pages, rec.op.page).content) <==> Follows(was.content, rec.op))
    {
      var img := At(pages, rec.op.page);
      if img.lsn < rec.lsn {
        var c, leaf := Ruined, LeafIn(img.content);
        if img.content.Slotted? && |leaf.slots| == |leaf.elems| && Has(leaf.elems, rec.op.key) {
          var res := SetValue(leaf, rec.op.key, rec.op.value);
          if res.Done? {
            c := Slotted(res.page);
          }
        }
        pages := pages[rec.op.page := img.(content := c, lsn := rec.lsn)];
        if Level(img.content) {
          StepIff(img.content, rec.op, rec.op.page);
        }
      }
    }

    method RedoInsertInternalNodeEntry(rec: Record)
      requires rec.op.InsertInternal?
      modifies this`pages
      ensures forall p :: At(pages, p) == RedoPage(Replaying, At(old(pages), p), p, rec)
    {
      var img := At(pages, rec.op.page);
      if img.lsn < rec.lsn {
        var c := InsertKey(img.content, rec.op.key, rec.op.left, rec.op.right);
        pages := pages[rec.op.page := img.(content := c, lsn := rec.lsn)];
      }
    }

    /** One half of a split leaf, under its LSN guard. */
    method RedoLeafHalf(p: PageId, rec: Record, elems: seq<KV>, next: PageId, insert: bool)
      requires rec.op.SplitLeaf?
      modifies this`pages
      ensures var was, half := At(old(pages), p), PutBack(elems, next);
        At(pages, p) == if was.lsn < rec.lsn
          then was.(lsn := rec.lsn, content := if insert then InsertedIn(Replaying, half, rec.op.key, rec.op.value) else half) else was
      ensures forall q | q != p :: At(pages, q) == At(old(pages), q)
    {
      var img := At(pages, p);
      if img.lsn < rec.lsn {
        var c := PutBack(elems, next);
        if insert {
          c := InsertKeyValue(c, rec.op.key, rec.op.value);
        }
        pages := pages[p := img.(content := c, lsn := rec.lsn)];
      }
    }

    method RedoSplitLeaf(rec: Record)
      requires rec.op.SplitLeaf? && Sane(rec.op)
      modifies this`pages
      ensures forall p :: At(pages, p) == RedoPage(Replaying, At(old(pages), p), p, rec)
    {
      var op := rec.op;
      var below := Lt(op.key, op.elems[op.index].key);
      RedoLeafHalf(op.rightPage, rec, op.elems[op.index..], op.next, !below);
      RedoLeafHalf(op.leftPage, rec, op.elems[..op.index], op.rightPage, below);
    }

    /** One half of a split internal page, under its LSN guard. */
    method RedoHalf(p: PageId, rec: Record, seps: seq<Sep>, insert: bool)
      requires rec.op.SplitInternal?
      modifies this`pages
      ensures var was, half := At(old(pages), p), Seps(seps);
        At(pages, p) == if was.lsn < rec.lsn
          then was.(lsn := rec.lsn, content := if insert then SepInsertedIn(half, rec.op.key, rec.op.left, rec.op.right) else half) else was
      ensures forall q | q != p :: At(pages, q) == At(old(pages), q)
    {
      var img := At(pages, p);
      if img.lsn < rec.lsn {
        var c := Seps(seps);
        if insert {
          c := InsertKey(c, rec.op.key, rec.op.left, rec.op.right);
        }
        pages := pages[p := img.(content := c, lsn := rec.lsn)];
      }
    }

    method RedoSplitInternal(rec: Record)
      requires rec.op.SplitInternal? && Sane(rec.op)
      modifies this`pages
      ensures forall p :: At(pages, p) == RedoPage(Replaying, At(old(pages), p), p, rec)
    {
      var op := rec.op;
      var below := Lt(op.key, op.seps[op.index].key);
      RedoHalf(op.leftPage, rec, op.seps[..op.index], below);
      RedoHalf(op.rightPage, rec, op.seps[op.index + 1..], !below);
    }

    /** redoFuncMapping. */
    method RedoRecord(rec: Record)
      requires Sane(rec.op) && IsOp(rec.op)
      modifies this
      ensures forall p :: At(pages, p) == RedoPage(Replaying, At(old(pages), p), p, rec)
      ensures meta == RedoMeta(old(meta), rec)
    {
      match rec.op {
        case CreatePage(_, _, _) => RedoCreatePage(rec);
        case UpdateRoot(_) => RedoUpdateRoot(rec);
        case UpdateFirstLeaf(_) => RedoUpdateFirstLeaf(rec);
        case SplitLeaf(_, _, _, _, _, _, _) => RedoSplitLeaf(rec);
        case SplitInternal(_, _, _, _, _, _, _) => RedoSplitInternal(rec);
        case InsertLeaf(_, _, _) => RedoInsertLeafNodeEntry(rec);
        case UpdateLeaf(_, _, _) => RedoUpdateLeafNodeEntry(rec);
        case InsertInternal(_, _, _, _) => RedoInsertInternalNodeEntry(rec);
      }
    }

    /** The committed operations of one tree, in order. */
    method RedoGroup(group: seq<Record>, ghost pages0: map<PageId, Image>, ghost meta0: Meta, ghost done: seq<Record>)
      requires AllSane(done) && AllSane(group) && (forall i | 0 <= i < |group| :: IsOp(group[i].op))
      requires Replayed(pages0, meta0, done, pages, meta)
      modifies this
      ensures AllSane(done + group) && Replayed(pages0, meta0, done + group, pages, meta)
    {
      assert done + group[..0] == done;
      for i := 0 to |group|
        invariant AllSane(done + group[..i]) && Replayed(pages0, meta0, done + group[..i], pages, meta)
      {
        ghost var mid, midMeta := pages, meta;
        RedoRecord(group[i]);
        ReplayedOne(pages0, meta0, done + group[..i], mid, midMeta, group[i], pages, meta);
        assert done + group[..i] + [group[i]] == done + group[..i + 1];
      }
      assert group[..|group|] == group;
    }

    /** One record of the log: open a buffer, fill it, or replay it; not ok when the record has no Begin. */
    method ScanRecord(rec: Record, pending: map<TreeId, seq<Record>>, ghost s: Scanned, ghost pages0: map<PageId, Image>, ghost meta0: Meta)
      returns (ok: bool, pending': map<TreeId, seq<Record>>)
      requires !s.failed && pending == s.pending && CaughtUp(pages0, meta0, s.applied, pages, meta)
      requires rec.tree in pending ==> AllSane(pending[rec.tree]) && forall i | 0 <= i < |pending[rec.tree]| :: IsOp(pending[rec.tree][i].op)
      modifies this
      ensures ok == !ScanStep(s, rec).failed && (ok ==> pending' == ScanStep(s, rec).pending)
      ensures CaughtUp(pages0, meta0, ScanStep(s, rec).applied, pages, meta)
    {
      ok, pending' := true, pending;
      match rec.op {
        case Begin =>
          pending' := pending[rec.tree := []];
        case Commit =>
          if rec.tree !in pending {
            return false, pending;
          }
          RedoGroup(pending[rec.tree], pages0, meta0, s.applied);
          pending' := pending - {rec.tree};
        case _ =>
          if rec.tree !in pending {
            return false, pending;
          }
          pending' := pending[rec.tree := pending[rec.tree] + [rec]];
      }
    }

    /**
     Recover: replays exactly the committed records of the log, in the order of their commits; ok is false when a
     record without its Begin stopped the scan.
     */
    method Recover(log: seq<Record>) returns (ok: bool)
      requires AllSane(log)
      modifies this
      ensures ok == !Scan(log).failed
      ensures AllSane(Scan(log).applied)
      ensures Replayed(old(pages), old(meta), Scan(log).applied, pages, meta)
    {
      var pending: map<TreeId, seq<Record>> := map[];
      for n := 0 to |log|
        invariant !ScanTo(log, n).failed && pending == ScanTo(log, n).pending
        invariant CaughtUp(old(pages), old(meta), ScanTo(log, n).applied, pages, meta)
      {
        if log[n].tree in pending {
          PendingSane(log, n, log[n].tree);
        }
        ok, pending := ScanRecord(log[n], pending, ScanTo(log, n), old(pages), old(meta));
        if !ok {
          StopsHere(log, n + 1, |log|);
          return;
        }
      }
      return true;
    }
  }

  lemma {:induction false} FirstIs(s: seq<PageId>, id: PageId, i: nat)
    requires i < |s| && s[i] == id && id !in s[..i]
    ensures id in s && First(s, id, 0) == i
  {
    var j := First(s, id, 0);
    forall m | 0 <= m < i ensures s[m] != id {
      assert s[m] in s[..i];
    }
    forall m | 0 <= m < j ensures s[m] != id {
      assert s[m] in s[0..j];
    }
  }

  /** The pages and the metadata are those after these records. */
  ghost predicate CaughtUp(pages: map<PageId, Image>, meta: Meta, recs: seq<Record>, pages': map<PageId, Image>, meta': Meta) {
    AllSane(recs) && Replayed(pages, meta, recs, pages', meta')
  }

  lemma {:induction false} StopsHere(log: seq<Record>, m: nat, n: nat)
    requires m <= n <= |log| && ScanTo(log, m).failed
    ensures ScanTo(log, n) == ScanTo(log, m)
    decreases n
  {
    if m < n {
      StopsHere(log, m, n - 1);
    }
  }

  lemma {:induction false} PendingOps(log: seq<Record>, n: nat)
    requires n <= |log|
    ensures forall t, r | t in ScanTo(log, n).pending && r in ScanTo(log, n).pending[t] :: IsOp(r.op)
  {
    if n > 0 {
      PendingOps(log, n - 1);
    }
  }

  lemma {:induction false} PendingSane(log: seq<Record>, n: nat, t: TreeId)
    requires n <= |log| && AllSane(log) && t in ScanTo(log, n).pending
    ensures AllSane(ScanTo(log, n).pending[t])
    ensures forall i | 0 <= i < |ScanTo(log, n).pending[t]| :: IsOp(ScanTo(log, n).pending[t][i].op)
  {
    ScanMembers(log, n);
    PendingOps(log, n);
    var q := ScanTo(log, n).pending[t];
    forall i | 0 <= i < |q| ensures Sane(q[i].op) && IsOp(q[i].op) {
      assert q[i] in q && q[i] in log;
    }
  }
}
