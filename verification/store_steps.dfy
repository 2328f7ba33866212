/** What the splits of the tree do to the page store, and why the new pages hold the new nodes. */
module StoreSteps {
  import opened Bytes
  import opened Pages
  import opened Allocator
  import opened Trees
  import opened TreeFrame
  import opened TreeRoutes
  import opened TreeSplit
  import opened Wal
  import opened Replay
  import opened PageStore

  /** What a write returns and leaves on the pages. */
  ghost predicate Shows(pages: Store, out: Outcome, extra: Option<Bytes>, left: PageId, right: PageId) {
    match out
    case Crash => false
    case Whole(c) => extra.None? && Rep(pages, c)
    case Split(l, sep, r) => extra == Some(sep) && left == l.pid && right == r.pid && Rep(pages, l) && Rep(pages, r)
  }

  function FreshPage(lsn: nat, p: PageId, stale: set<PageId>): Page {
    Page(lsn, p in stale, Empty)
  }

  // -------------------------------------------------------------- leaf splits

  /** The payload HandleLeafNodeSplit logs. */
  function LeafSplitOp(pid: PageId, leaf: Leaf, right: PageId, k: Bytes, v: Bytes): LogOp {
    SplitLeaf(pid, right, SplitIndex(leaf.slots), leaf.next, k, v, leaf.elems)
  }

  /** The two leaves after the split, when it does not crash. */
  function LeafHalves(leaf: Leaf, right: PageId, k: Bytes, v: Bytes): Option<(Leaf, Leaf)>
    requires |leaf.slots| == |leaf.elems|
  {
    var idx := SplitIndex(leaf.slots);
    if idx >= |leaf.elems| then None
    else
      var l, r := SplitLeft(leaf, idx, right), SplitRight(leaf, idx);
      if Lt(k, leaf.elems[idx].key) then
        (match InsertIgnored(l, k, v) case Some(l') => Some((l', r)) case None => None)
      else
        (match InsertIgnored(r, k, v) case Some(r') => Some((l, r')) case None => None)
  }

  /** The store after a leaf split. */
  ghost predicate LeafSplitStore(pages: Store, pid: PageId, right: PageId, halves: (Leaf, Leaf), lsn: nat, stale: set<PageId>,
                                 pages': Store)
    requires pid in pages
  {
    pages' == pages[right := Page(lsn, right in stale, LeafB(halves.1))]
                   [pid := pages[pid].(lsn := lsn, body := LeafB(halves.0))]
  }

  lemma {:induction false} LeafHalvesOut(t: Tree, k: Bytes, v: Bytes, al: Alloc, stale: set<PageId>)
    requires t.LeafT? && |t.page.slots| == |t.page.elems|
    ensures var halves, out := LeafHalves(t.page, NextId(al), k, v), LeafSplit(t, k, v, al, stale).out;
      && (halves.None? <==> out.Crash?)
      && (halves.Some? ==>
           out == Split(t.(page := halves.value.0), t.page.elems[SplitIndex(t.page.slots)].key,
                        LeafT(NextId(al), NextId(al) in stale, halves.value.1)))
  {
  }

  /** The split pages hold the split leaves. */
  lemma {:induction false} LeafSplitShows(pages: Store, t: Tree, k: Bytes, v: Bytes, al: Alloc, stale: set<PageId>, lsn: nat, pages': Store)
    requires t.LeafT? && Rep(pages, t) && |t.page.slots| == |t.page.elems| && NextId(al) != t.pid
    requires LeafHalves(t.page, NextId(al), k, v).Some?
    requires LeafSplitStore(pages, t.pid, NextId(al), LeafHalves(t.page, NextId(al), k, v).value, lsn, stale, pages')
    ensures var st := LeafSplit(t, k, v, al, stale);
      && Shows(pages', st.out, Some(t.page.elems[SplitIndex(t.page.slots)].key), t.pid, NextId(al))
      && Untouched(pages, pages', {t.pid} + st.taken)
      && pages'.Keys == pages.Keys + st.taken
  {
    LeafHalvesOut(t, k, v, al, stale);
  }

  /**
   A logged leaf split makes the two leaves the tree made, with their counters and next pointers, of whatever the two
   pages hold; only the recorded slot sizes may differ. That is so for recovery as for the tree.
   */
  lemma {:induction false} LeafSplitRedo(mode: Mode, leaf: Leaf, pid: PageId, right: PageId, k: Bytes, v: Bytes, c: Content)
    requires Shapely(leaf) && pid != right && LeafHalves(leaf, right, k, v).Some?
    ensures var op, halves := LeafSplitOp(pid, leaf, right, k, v), LeafHalves(leaf, right, k, v).value;
      && Sane(op)
      && Alike(Slotted(halves.0), Effect(mode, op, pid, c))
      && Alike(Slotted(halves.1), Effect(mode, op, right, c))
  {
    var idx := SplitIndex(leaf.slots);
    var l, r := SplitLeft(leaf, idx, right), SplitRight(leaf, idx);
    InsertAlike(l, PutBack(leaf.elems[..idx], right).leaf, k, v);
    InsertAlike(r, PutBack(leaf.elems[idx..], leaf.next).leaf, k, v);
  }

  /** Logging the creation of a page that is not in the store yet. */
  lemma {:induction false} CreateJournal(pages: Store, wal: seq<Record>, last: nat, tree: TreeId, p: PageId, leaf: bool, fromFreeList: bool,
                                         page: Page)
    requires Audit(pages, wal, last) == Consistent && p !in pages && page.body.Empty? && page.internal == !leaf && page.lsn <= last + 1
    ensures Audit(pages[p := page], wal + [Record(last + 1, tree, CreatePage(p, leaf, fromFreeList))], last + 1) == Consistent
  {
    JournalStep(pages, wal, last, Record(last + 1, tree, CreatePage(p, leaf, fromFreeList)), pages[p := page]);
  }

  /** The record did its job on the page, and `now` is what it made of it. */
  ghost predicate Made(was: Page, op: LogOp, p: PageId, now: Page)
    requires Sane(op)
  {
    Touches(op, p) && Took(ImageOf(was).content, op, p) && Alike(ImageOf(now).content, Effect(Writing, op, p, ImageOf(was).content))
  }

  lemma {:induction false} MadeStep(pages: Store, rec: Record, pages': Store, p: PageId)
    requires p in pages && p in pages' && Sane(rec.op) && Made(pages[p], rec.op, p, pages'[p])
    requires pages'[p].lsn == rec.lsn && pages'[p].internal == pages[p].internal
    ensures StepOf(pages, rec, pages', p)
  {
  }

  lemma {:induction false} RaisedStep(pages: Store, rec: Record, pages': Store, p: PageId)
    requires p in pages && p in pages' && Sane(rec.op) && !Touches(rec.op, p) && !rec.op.CreatePage? && pages[p].lsn <= rec.lsn
    requires pages'[p] == pages[p] || pages'[p] == pages[p].(lsn := rec.lsn)
    ensures StepOf(pages, rec, pages', p)
  {
  }

  lemma {:induction false} TwoPageStep(pages: Store, wal: seq<Record>, last: nat, rec: Record, pid: PageId, right: PageId, parent: PageId,
                                       l: Page, r: Page, p: PageId)
    requires rec.lsn == last + 1 && Sane(rec.op) && !rec.op.CreatePage? && pid in pages && right in pages && parent in pages && pid != right
    requires p in pages && Audit(pages, wal, last) == Consistent && (Touches(rec.op, p) <==> p == pid || p == right)
    requires l.lsn == rec.lsn && l.internal == pages[pid].internal && Made(pages[pid], rec.op, pid, l)
    requires r.lsn == rec.lsn && r.internal == pages[right].internal && Made(pages[right], rec.op, right, r)
    ensures StepOf(pages, rec, pages[parent := pages[parent].(lsn := rec.lsn)][right := r][pid := l], p)
  {
    var pages' := pages[parent := pages[parent].(lsn := rec.lsn)][right := r][pid := l];
    if p == pid || p == right {
      MadeStep(pages, rec, pages', p);
    } else {
      RaisedStep(pages, rec, pages', p);
    }
  }

  /** Logging a record that touches two pages; a third page may have its LSN raised. */
  lemma {:induction false} TwoPageJournal(pages: Store, wal: seq<Record>, last: nat, rec: Record, pid: PageId, right: PageId,
                                          parent: PageId, l: Page, r: Page)
    requires Audit(pages, wal, last) == Consistent && rec.lsn == last + 1 && Sane(rec.op)
    requires pid in pages && right in pages && parent in pages && pid != right
    requires forall p :: Touches(rec.op, p) <==> p == pid || p == right
    requires l.lsn == rec.lsn && l.internal == pages[pid].internal && Made(pages[pid], rec.op, pid, l)
    requires r.lsn == rec.lsn && r.internal == pages[right].internal && Made(pages[right], rec.op, right, r)
    ensures Audit(pages[parent := pages[parent].(lsn := rec.lsn)][right := r][pid := l], wal + [rec], last + 1) == Consistent
  {
    assert Touches(rec.op, pid) && !rec.op.CreatePage?;
    var pages' := pages[parent := pages[parent].(lsn := rec.lsn)][right := r][pid := l];
    forall p | p in pages' ensures StepOf(pages, rec, pages', p) {
      TwoPageStep(pages, wal, last, rec, pid, right, parent, l, r, p);
    }
    JournalStep(pages, wal, last, rec, pages');
  }

  /** The journal through the record of a leaf split, once the new page is in the store. */
  lemma {:induction false} LeafSplitJournal(pages: Store, wal: seq<Record>, last: nat, tree: TreeId, pid: PageId, right: PageId,
                                            k: Bytes, v: Bytes, l: Page, r: Page)
    requires Audit(pages, wal, last) == Consistent && pid in pages && right in pages && pid != right
    requires var leaf := LeafOf(pages[pid].body);
      && |leaf.slots| == |leaf.elems| && Used(leaf.elems) <= CAPACITY
      && LeafHalves(leaf, right, k, v) == Some((LeafOf(l.body), LeafOf(r.body)))
    requires l.body.LeafB? && r.body.LeafB? && l.lsn == last + 1 && r.lsn == last + 1
    requires l.internal == pages[pid].internal && r.internal == pages[right].internal
    ensures var op := LeafSplitOp(pid, LeafOf(pages[pid].body), right, k, v);
      Audit(pages[right := r][pid := l], wal + [Record(last + 1, tree, op)], last + 1) == Consistent
  {
    var leaf := LeafOf(pages[pid].body);
    var rec := Record(last + 1, tree, LeafSplitOp(pid, leaf, right, k, v));
    LeafSplitRedo(Writing, leaf, pid, right, k, v, ImageOf(pages[pid]).content);
    LeafSplitRedo(Writing, leaf, pid, right, k, v, ImageOf(pages[right]).content);
    TwoPageJournal(pages, wal, last, rec, pid, right, right, l, r);
    assert pages[right := pages[right].(lsn := rec.lsn)][right := r][pid := l] == pages[right := r][pid := l];
  }

  // ------------------------------------------------------ separators on a page

  /** The page body after InsertKey with its result ignored. */
  function BodyAfter(body: PageBody, k: Bytes, l: PageId, r: PageId): Option<PageBody> {
    match SepInsert(SepsIn(body), k, l, r)
    case SepRefused => Some(body)
    case SepDone(s) => Some(NodeB(s))
    case SepBroken => None
  }

  lemma {:induction false} SameVerdict(seps: seq<Sep>, b: Body, l: Tree, sep: Bytes, r: Tree)
    requires KeysOf(seps) == b.keys && |b.kids| == |b.keys| + 1
    ensures var s, b', i := SepInsert(seps, sep, l.pid, r.pid), PutSep(b, l, sep, r), Route(b.keys, sep);
      match s
      case SepRefused => b' == Some(b.(kids := b.kids[i := l]))
      case SepDone(t) =>
        && t == InsertSep(seps, sep, l.pid, r.pid)
        && b' == Some(Body(b.keys[..i] + [sep] + b.keys[i..], b.kids[..i] + [l, r] + b.kids[i + 1..]))
      case SepBroken => b'.None?
  {
  }

  /** Inserting a separator on the page follows inserting it in the node. */
  lemma {:induction false} PutSepMatches(seps: seq<Sep>, b: Body, l: Tree, sep: Bytes, r: Tree)
    requires Matches(seps, b.keys, b.kids) && l.pid == b.kids[Route(b.keys, sep)].pid
    requires Route(b.keys, sep) > 0 ==> b.keys[Route(b.keys, sep) - 1] != sep
    ensures var s, b' := SepInsert(seps, sep, l.pid, r.pid), PutSep(b, l, sep, r);
      && (s.SepBroken? <==> b'.None?)
      && (b'.Some? ==> Matches(if s.SepDone? then s.seps else seps, b'.value.keys, b'.value.kids))
  {
    assert KeysOf(seps) == b.keys;
    SameVerdict(seps, b, l, sep, r);
    InsertSepMatches(seps, b.keys, b.kids, Route(b.keys, sep), l, sep, r);
    ReplaceMatch(seps, b.keys, b.kids, Route(b.keys, sep), l);
  }

  // ---------------------------------------------------------- internal splits

  function NodeSplitOp(pid: PageId, seps: seq<Sep>, right: PageId, k: Bytes, l: PageId, r: PageId): LogOp {
    SplitInternal(pid, right, SplitIndex(SepSizes(KeysOf(seps))), k, l, r, seps)
  }

  function Kept(res: SepResult, seps: seq<Sep>): seq<Sep> {
    if res.SepDone? then res.seps else seps
  }

  /** The two lists of separators after the split, when it does not crash. */
  function NodeHalves(seps: seq<Sep>, k: Bytes, l: PageId, r: PageId): Option<(seq<Sep>, seq<Sep>)> {
    var idx := SplitIndex(SepSizes(KeysOf(seps)));
    if idx >= |seps| then None
    else if Lt(k, seps[idx].key) then
      var res := SepInsert(seps[..idx], k, l, r);
      if res.SepBroken? then None else Some((Kept(res, seps[..idx]), seps[idx + 1..]))
    else
      var res := SepInsert(seps[idx + 1..], k, l, r);
      if res.SepBroken? then None else Some((seps[..idx], Kept(res, seps[idx + 1..])))
  }

  /** The store after an internal split; the parent's LSN is set too. */
  ghost predicate NodeSplitStore(pages: Store, pid: PageId, right: PageId, parent: PageId, halves: (seq<Sep>, seq<Sep>), lsn: nat,
                                 stale: set<PageId>, pages': Store)
    requires pid in pages && parent in pages
  {
    pages' == pages[parent := pages[parent].(lsn := lsn)]
                   [right := Page(lsn, right in stale, NodeB(halves.1))]
                   [pid := pages[pid].(lsn := lsn, body := NodeB(halves.0))]
  }

  lemma {:induction false} HalfMatches(seps: seq<Sep>, t: Tree, lo: Option<Bytes>, hi: Option<Bytes>, l: Tree, sep: Bytes, r: Tree,
                                       idx: nat)
    requires t.NodeT? && Matches(seps, t.keys, t.kids) && KeysOk(t.keys, lo, hi) && idx < |t.keys|
    requires l.pid == t.kids[Route(t.keys, sep)].pid && forall i | 0 <= i < |t.keys| :: t.keys[i] != sep
    ensures var inLeft := Lt(sep, t.keys[idx]);
      var part := if inLeft then seps[..idx] else seps[idx + 1..];
      var s, b' := SepInsert(part, sep, l.pid, r.pid), PutSep(HalfFor(t, idx, inLeft), l, sep, r);
      && (s.SepBroken? <==> b'.None?)
      && (b'.Some? ==> Matches(Kept(s, part), b'.value.keys, b'.value.kids))
  {
    HalvesMatch(seps, t.keys, t.kids, idx);
    RouteHalves(t.keys, lo, hi, sep, idx);
    var inLeft := Lt(sep, t.keys[idx]);
    PutSepMatches(if inLeft then seps[..idx] else seps[idx + 1..], HalfFor(t, idx, inLeft), l, sep, r);
  }

  /** The lists of separators match the halves of the node. */
  lemma {:induction false} NodeHalvesOut(seps: seq<Sep>, t: Tree, lo: Option<Bytes>, hi: Option<Bytes>, l: Tree, sep: Bytes, r: Tree,
                                         al: Alloc, stale: set<PageId>)
    requires t.NodeT? && Matches(seps, t.keys, t.kids) && KeysOk(t.keys, lo, hi)
    requires l.pid == t.kids[Route(t.keys, sep)].pid && forall i | 0 <= i < |t.keys| :: t.keys[i] != sep
    ensures var halves, out := NodeHalves(seps, sep, l.pid, r.pid), NodeSplit(t, l, sep, r, al, stale).out;
      && (halves.None? <==> out.Crash?) && !out.Whole?
      && (out.Split? ==>
           && out.sep == t.keys[SplitIndex(SepSizes(t.keys))]
           && out.left.NodeT? && out.left.pid == t.pid && out.left.internal == t.internal
           && out.right.NodeT? && out.right.pid == NextId(al) && out.right.internal == (NextId(al) in stale)
           && OutMatches(halves.value, out))
  {
    assert KeysOf(seps) == t.keys;
    var idx := SplitIndex(SepSizes(t.keys));
    if idx < |t.keys| {
      var inLeft := Lt(sep, t.keys[idx]);
      var part, rest := if inLeft then seps[..idx] else seps[idx + 1..], if inLeft then seps[idx + 1..] else seps[..idx];
      var res, half := SepInsert(part, sep, l.pid, r.pid), PutSep(HalfFor(t, idx, inLeft), l, sep, r);
      HalvesMatch(seps, t.keys, t.kids, idx);
      HalfMatches(seps, t, lo, hi, l, sep, r, idx);
      NodeSplitOutcome(t, Step(Split(l, sep, r), al, {}), al, stale, idx, inLeft);
      NodeHalvesAre(seps, sep, l.pid, r.pid, idx);
      if half.Some? {
        HalvesOutMatch(t, idx, inLeft, half.value, NextId(al), stale, Kept(res, part), rest);
      }
    }
  }

  ghost predicate OutMatches(halves: (seq<Sep>, seq<Sep>), out: Outcome) {
    && out.Split? && out.left.NodeT? && out.right.NodeT?
    && Matches(halves.0, out.left.keys, out.left.kids) && Matches(halves.1, out.right.keys, out.right.kids)
  }

  lemma {:induction false} HalvesOutMatch(t: Tree, idx: nat, inLeft: bool, half: Body, rp: PageId, stale: set<PageId>,
                                          part: seq<Sep>, rest: seq<Sep>)
    requires t.NodeT? && |t.kids| == |t.keys| + 1 && idx < |t.keys|
    requires Matches(part, half.keys, half.kids) && Matches(rest, OtherHalf(t, idx, inLeft).keys, OtherHalf(t, idx, inLeft).kids)
    ensures OutMatches(if inLeft then (part, rest) else (rest, part), Halves(t, idx, inLeft, half, rp, stale))
  {
  }

  lemma {:induction false} NodeHalvesAre(seps: seq<Sep>, k: Bytes, l: PageId, r: PageId, idx: nat)
    requires idx == SplitIndex(SepSizes(KeysOf(seps))) && idx < |seps|
    ensures var inLeft := Lt(k, seps[idx].key);
      var part, rest := if inLeft then seps[..idx] else seps[idx + 1..], if inLeft then seps[idx + 1..] else seps[..idx];
      var res := SepInsert(part, k, l, r);
      NodeHalves(seps, k, l, r) ==
        if res.SepBroken? then None else Some(if inLeft then (Kept(res, part), rest) else (rest, Kept(res, part)))
  {
  }

  /** A logged internal split makes the two lists of separators the tree made, for recovery as for the tree. */
  lemma {:induction false} NodeSplitRedo(mode: Mode, seps: seq<Sep>, pid: PageId, right: PageId, k: Bytes, l: PageId, r: PageId, c: Content)
    requires pid != right && NodeHalves(seps, k, l, r).Some?
    ensures var op, halves := NodeSplitOp(pid, seps, right, k, l, r), NodeHalves(seps, k, l, r).value;
      && Sane(op)
      && Effect(mode, op, pid, c) == Seps(halves.0)
      && Effect(mode, op, right, c) == Seps(halves.1)
  {
    var idx, op := SplitIndex(SepSizes(KeysOf(seps))), NodeSplitOp(pid, seps, right, k, l, r);
    assert Effect(mode, op, pid, c) == NodeSplitLeft(op) && Effect(mode, op, right, c) == NodeSplitRight(op);
    if Lt(k, seps[idx].key) {
      IgnoredAs(seps[..idx], k, l, r);
    } else {
      IgnoredAs(seps[idx + 1..], k, l, r);
    }
  }

  lemma {:induction false} IgnoredAs(seps: seq<Sep>, k: Bytes, l: PageId, r: PageId)
    requires !SepInsert(seps, k, l, r).SepBroken?
    ensures SepInsertedIn(Seps(seps), k, l, r) == Seps(Kept(SepInsert(seps, k, l, r), seps))
  {
  }

  lemma {:induction false} SepInsertTaken(seps: seq<Sep>, k: Bytes, l: PageId, r: PageId)
    requires SepSize(k) + SLOT_SIZE <= FreeKeys(KeysOf(seps))
    ensures SepInsert(seps, k, l, r) == SepDone(InsertSep(seps, k, l, r))
  {
    assert FreeKeys(KeysOf(seps)) <= CAPACITY;
  }

  /** The journal through the record of an internal split, once the new page is in the store. */
  lemma {:induction false} NodeSplitJournal(pages: Store, wal: seq<Record>, last: nat, tree: TreeId, pid: PageId, right: PageId,
                                            parent: PageId,
                                            k: Bytes, l: PageId, r: PageId, a: Page, b: Page)
    requires Audit(pages, wal, last) == Consistent && pid in pages && parent in pages && right in pages && right != pid
    requires pages[pid].body.NodeB? && pages[right].body.Empty?
    requires var seps := SepsIn(pages[pid].body);
      NodeHalves(seps, k, l, r) == Some((SepsIn(a.body), SepsIn(b.body)))
    requires a.body.NodeB? && b.body.NodeB? && a.lsn == last + 1 && b.lsn == last + 1
    requires a.internal == pages[pid].internal && b.internal == pages[right].internal
    ensures var op := NodeSplitOp(pid, SepsIn(pages[pid].body), right, k, l, r);
      Audit(pages[parent := pages[parent].(lsn := last + 1)][right := b][pid := a], wal + [Record(last + 1, tree, op)], last + 1) == Consistent
  {
    var seps := SepsIn(pages[pid].body);
    var rec := Record(last + 1, tree, NodeSplitOp(pid, seps, right, k, l, r));
    NodeSplitRedo(Writing, seps, pid, right, k, l, r, ImageOf(pages[pid]).content);
    NodeSplitRedo(Writing, seps, pid, right, k, l, r, ImageOf(pages[right]).content);
    TwoPageJournal(pages, wal, last, rec, pid, right, parent, a, b);
  }

  // -------------------------------------------------------------- whole writes

  /** A write is on the pages: its outcome, the allocator, the frame and the pages taken. */
  ghost predicate Wrote(pages: Store, t: Tree, st: Step, pages': Store, al: Alloc, extra: Option<Bytes>, left: PageId, right: PageId) {
    && Shows(pages', st.out, extra, left, right)
    && al == st.alloc
    && Untouched(pages, pages', Pids(t) + st.taken)
    && pages'.Keys == pages.Keys + st.taken
  }

  lemma {:induction false} LeafStays(pages: Store, t: Tree, q: Leaf, lsn: nat, al: Alloc, pages': Store)
    requires t.LeafT? && Rep(pages, t) && pages' == pages[t.pid := pages[t.pid].(lsn := lsn, body := LeafB(q))]
    ensures Wrote(pages, t, Step(Whole(t.(page := q)), al, {}), pages', al, None, 0, 0)
  {
  }

  /** The new root page holds the two halves of the old root. */
  lemma {:induction false} GrowShows(pages0: Store, pages: Store, t: Tree, st: Step, root: PageId, al: Alloc, sep: Bytes, left: PageId,
                                     right: PageId, lsn: nat, pages': Store)
    requires st.out.Split? && Wrote(pages0, t, st, pages, al, Some(sep), left, right)
    requires root in pages0 && root in pages && pages[root].body.Empty? && root !in OutPids(st.out)
    requires BodyAfter(pages[root].body, sep, left, right).Some?
    requires pages' == pages[root := pages[root].(lsn := lsn, body := BodyAfter(pages[root].body, sep, left, right).value)]
    ensures var up := Grow(root, pages[root].internal, st);
      up.out.Whole? && up.out.t.pid == root && Rep(pages', up.out.t)
  {
    var l, r := st.out.left, st.out.right;
    assert Untouched(pages, pages', {root});
    RepFrame(pages, pages', l, {root});
    RepFrame(pages, pages', r, {root});
    assert KeysOf([]) == [];
    assert UsedKeys([]) == 0;
    var s := InsertSep([], sep, left, right);
    assert s == [Sep(sep, left, right)];
  }

  lemma {:induction false} GrowBroken(body: PageBody, st: Step, root: PageId, internal: bool, left: PageId, right: PageId)
    requires st.out.Split? && body.Empty?
    ensures BodyAfter(body, st.out.sep, left, right).None? <==> Grow(root, internal, st).out.Crash?
  {
    assert KeysOf([]) == [];
    assert UsedKeys([]) == 0;
  }

  /** The whole of a root split: a page for the new root, the split below it, and its first separator. */
  lemma {:induction false} RootGrown(pages: Store, withRoot: Store, t: Tree, st: Step, mid: Store, root: PageId, page: Page, al: Alloc,
                                     sep: Bytes, left: PageId, right: PageId, lsn: nat, pages': Store)
    requires root !in pages && withRoot == pages[root := page] && page.body.Empty?
    requires st.out.Split? && Wrote(withRoot, t, st, mid, al, Some(sep), left, right)
    requires root !in Pids(t) + st.taken && root !in OutPids(st.out)
    requires BodyAfter(mid[root].body, sep, left, right).Some?
    requires pages' == mid[root := mid[root].(lsn := lsn, body := BodyAfter(mid[root].body, sep, left, right).value)]
    ensures var up := Grow(root, page.internal, st);
      Wrote(pages, t, up, pages', al, None, 0, 0) && up.out.Whole? && up.out.t.pid == root
  {
    GrowShows(withRoot, mid, t, st, root, al, sep, left, right, lsn, pages');
    var up := Grow(root, page.internal, st);
    assert up.alloc == st.alloc && up.taken == st.taken + {root};
    assert pages'.Keys == pages.Keys + up.taken;
  }

  /** Two pages taken in a row are new and different. */
  lemma {:induction false} TwoFresh(al: Alloc, used: set<PageId>)
    requires Sound(al, used)
    ensures Available(al, used) && Available(Taken(al), used + {NextId(al)}) && NextId(Taken(al)) !in used
    ensures NextId(Taken(al)) != NextId(al)
    ensures Sound(Taken(al), used + {NextId(al)}) && Sound(Taken(Taken(al)), used + {NextId(al)} + {NextId(Taken(al))})
  {
    AllocateSound(al, used);
    AllocateSound(Taken(al), used + {NextId(al)});
  }

  /** The stores of a leaf root split hold the grown tree. */
  lemma {:induction false} LeafRootWrote(pages: Store, t: Tree, k: Bytes, v: Bytes, al: Alloc, stale: set<PageId>, page: Page,
                                         mid: Store, lsn: nat, lsn': nat, pages': Store)
    requires t.LeafT? && Rep(pages, t) && |t.page.slots| == |t.page.elems| && Sound(al, pages.Keys)
    requires page.internal && page.body.Empty? && LeafHalves(t.page, NextId(Taken(al)), k, v).Some?
    requires LeafSplitStore(pages[NextId(al) := page], t.pid, NextId(Taken(al)),
                            LeafHalves(t.page, NextId(Taken(al)), k, v).value, lsn, stale, mid)
    requires var after := BodyAfter(Empty, t.page.elems[SplitIndex(t.page.slots)].key, t.pid, NextId(Taken(al)));
      after.Some? && pages' == mid[NextId(al) := page.(lsn := lsn', body := after.value)]
    ensures var up := LeafOverflow(t, k, v, true, al, stale);
      Wrote(pages, t, up, pages', Taken(Taken(al)), None, 0, 0) && up.out.Whole? && up.out.t.pid == NextId(al)
  {
    var root, right := NextId(al), NextId(Taken(al));
    var withRoot := pages[root := page];
    TwoFresh(al, pages.Keys);
    assert Untouched(pages, withRoot, {});
    RepFrame(pages, withRoot, t, {});
    LeafSplitShows(withRoot, t, k, v, Taken(al), stale, lsn, mid);
    LeafHalvesOut(t, k, v, Taken(al), stale);
    assert mid[root] == page;
    RootGrown(pages, withRoot, t, LeafSplit(t, k, v, Taken(al), stale), mid, root, page, Taken(Taken(al)),
              t.page.elems[SplitIndex(t.page.slots)].key, t.pid, right, lsn', pages');
  }

  lemma {:induction false} LeafRootCrashes(t: Tree, k: Bytes, v: Bytes, al: Alloc, stale: set<PageId>)
    requires t.LeafT? && |t.page.slots| == |t.page.elems|
    ensures var right := NextId(Taken(al));
      LeafOverflow(t, k, v, true, al, stale).out.Crash? <==>
        || LeafHalves(t.page, right, k, v).None?
        || BodyAfter(Empty, t.page.elems[SplitIndex(t.page.slots)].key, t.pid, right).None?
  {
    LeafHalvesOut(t, k, v, Taken(al), stale);
    var st := LeafSplit(t, k, v, Taken(al), stale);
    if st.out.Split? {
      GrowBroken(Empty, st, NextId(al), true, t.pid, NextId(Taken(al)));
    }
  }
}
