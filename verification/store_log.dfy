/** The log records of an Insert as a function of the tree, and how often they touch a page. */
module StoreLog {
  import opened Bytes
  import opened Assoc
  import opened Pages
  import opened Allocator
  import opened Trees
  import opened TreeStructure
  import opened TreeRoutes
  import opened TreeTheorems
  import opened Wal
  import opened PageStore
  import opened StoreSteps
  import TreeRuns

  // ------------------------------------------------------------------ the records

  function CreateOp(al: Alloc, leaf: bool): LogOp {
    CreatePage(NextId(al), leaf, al.freeList != [])
  }

  /** HandleLeafNodeSplit. */
  function LeafSplitLog(pid: PageId, leaf: Leaf, k: Bytes, v: Bytes, al: Alloc): seq<LogOp> {
    [CreateOp(al, true)] + [LeafSplitOp(pid, leaf, NextId(al), k, v)]
  }

  /** HandleInternalNodeSplit. */
  function NodeSplitLog(pid: PageId, seps: seq<Sep>, k: Bytes, l: PageId, r: PageId, al: Alloc): seq<LogOp> {
    [CreateOp(al, false)] + [NodeSplitOp(pid, seps, NextId(al), k, l, r)]
  }

  /** The first separator of a new root, and the root. */
  function CrownLog(root: PageId, sep: Bytes, left: PageId, right: PageId): seq<LogOp> {
    [InsertInternal(root, sep, left, right)] + [UpdateRoot(root)]
  }

  function LeafOverflowLog(t: Tree, k: Bytes, v: Bytes, isRoot: bool, al: Alloc): seq<LogOp>
    requires t.LeafT?
  {
    var idx := SplitIndex(t.page.slots);
    var sep := if idx < |t.page.elems| then t.page.elems[idx].key else [];
    if isRoot then
      [CreateOp(al, false)] + LeafSplitLog(t.pid, t.page, k, v, Taken(al)) + CrownLog(NextId(al), sep, t.pid, NextId(Taken(al)))
    else LeafSplitLog(t.pid, t.page, k, v, al)
  }

  /** The space test of the leaf case. */
  predicate StaysIn(p: Leaf, k: Bytes, v: Bytes) {
    if Has(p.elems, k) then HasSpaceToUpdate(p, k, p.elems[Pos(p.elems, k)].value, v) else HasSpace(p, ElemSize(KV(k, v)))
  }

  /** The leaf case of writeTraversal. */
  function WriteLeafLog(t: Tree, k: Bytes, v: Bytes, isRoot: bool, al: Alloc): seq<LogOp>
    requires t.LeafT?
  {
    if !StaysIn(t.page, k, v) then LeafOverflowLog(t, k, v, isRoot, al)
    else if Has(t.page.elems, k) then [UpdateLeaf(t.pid, k, v)]
    else [InsertLeaf(t.pid, k, v)]
  }

  /** The separators of a node as its page lists them. */
  function SepsFor(keys: seq<Bytes>, kids: seq<Tree>): (s: seq<Sep>)
    requires |kids| == |keys| + 1
    ensures |s| == |keys|
  {
    seq(|keys|, i requires 0 <= i < |keys| => Sep(keys[i], kids[i].pid, kids[i + 1].pid))
  }

  lemma {:induction false} SepsForMatch(seps: seq<Sep>, keys: seq<Bytes>, kids: seq<Tree>)
    requires Matches(seps, keys, kids)
    ensures seps == SepsFor(keys, kids) && KeysOf(seps) == keys
  {
  }

  function NodeOverflowLog(pid: PageId, seps: seq<Sep>, sep: Bytes, l: PageId, r: PageId, isRoot: bool, al: Alloc): seq<LogOp> {
    var idx := SplitIndex(SepSizes(KeysOf(seps)));
    var up := if idx < |seps| then seps[idx].key else [];
    if isRoot then
      [CreateOp(al, false)] + NodeSplitLog(pid, seps, sep, l, r, Taken(al)) + CrownLog(NextId(al), up, pid, NextId(Taken(al)))
    else NodeSplitLog(pid, seps, sep, l, r, al)
  }

  /** What the node above a written child logs. */
  function NodeLog(t: Tree, st: Step, isRoot: bool): seq<LogOp>
    requires t.NodeT? && |t.kids| == |t.keys| + 1
  {
    match st.out
    case Split(l, sep, r) =>
      if Adequate(FreeKeys(t.keys), SepSize(sep)) then [InsertInternal(t.pid, sep, l.pid, r.pid)]
      else NodeOverflowLog(t.pid, SepsFor(t.keys, t.kids), sep, l.pid, r.pid, isRoot, st.alloc)
    case _ => []
  }

  /** writeTraversal: first what the child logs, then the node. */
  ghost function WriteLog(t: Tree, k: Bytes, v: Bytes, isRoot: bool, al: Alloc, stale: set<PageId>): seq<LogOp>
    requires Shaped(t)
    decreases t
  {
    match t
    case LeafT(_, _, _) => WriteLeafLog(t, k, v, isRoot, al)
    case NodeT(_, _, keys, kids) =>
      var i := Route(keys, k);
      WriteLog(kids[i], k, v, false, al, stale) + NodeLog(t, Write(kids[i], k, v, false, al, stale), isRoot)
  }

  /** The first page of a tree. */
  function FirstRootLog(al: Alloc): seq<LogOp> {
    [CreateOp(al, true)] + [UpdateFirstLeaf(NextId(al))] + [UpdateRoot(NextId(al))]
  }

  function StartLog(db: TreeRuns.Db): seq<LogOp> {
    if db.tree.None? then FirstRootLog(db.alloc) else []
  }

  ghost function BodyLog(db: TreeRuns.Db, k: Bytes, v: Bytes, stale: set<PageId>): seq<LogOp>
    requires TreeRuns.Runnable(db)
  {
    var (t, al) := TreeRuns.Start(db, stale);
    StartLog(db) + WriteLog(t, k, v, true, al, stale)
  }

  /** A whole Insert that finishes. */
  ghost function InsertLog(db: TreeRuns.Db, k: Bytes, v: Bytes, stale: set<PageId>): seq<LogOp>
    requires TreeRuns.Runnable(db)
  {
    [Begin] + BodyLog(db, k, v, stale) + [Commit]
  }

  // ------------------------------------------------------------------ the log

  /** The records of these operations after LSN `last`. */
  function Stamped(last: nat, tree: TreeId, ops: seq<LogOp>): (recs: seq<Record>)
    ensures |recs| == |ops|
  {
    seq(|ops|, i requires 0 <= i < |ops| => Record(last + 1 + i, tree, ops[i]))
  }

  /** Whether the log grew by exactly these operations, with consecutive LSNs. */
  ghost function LogReport(wal: seq<Record>, last: nat, tree: TreeId, ops: seq<LogOp>, wal': seq<Record>, last': nat): Verdict {
    if wal' == wal + Stamped(last, tree, ops) && last' == last + |ops| then Consistent else Inconsistent
  }

  lemma {:induction false} LogOne(wal: seq<Record>, last: nat, tree: TreeId, op: LogOp)
    ensures LogReport(wal, last, tree, [op], wal + [Record(last + 1, tree, op)], last + 1) == Consistent
  {
    assert Stamped(last, tree, [op]) == [Record(last + 1, tree, op)];
  }

  lemma {:induction false} LogNone(wal: seq<Record>, last: nat, tree: TreeId)
    ensures LogReport(wal, last, tree, [], wal, last) == Consistent
  {
    assert wal + Stamped(last, tree, []) == wal;
  }

  lemma {:induction false} LogTwice(wal: seq<Record>, last: nat, tree: TreeId, x: seq<LogOp>, wal1: seq<Record>, last1: nat, y: seq<LogOp>,
                                    wal2: seq<Record>, last2: nat)
    requires LogReport(wal, last, tree, x, wal1, last1) == Consistent && LogReport(wal1, last1, tree, y, wal2, last2) == Consistent
    ensures LogReport(wal, last, tree, x + y, wal2, last2) == Consistent
  {
    StampedConcat(last, tree, x, y);
    var a, b := Stamped(last, tree, x), Stamped(last + |x|, tree, y);
    assert wal + a + b == wal + (a + b);
  }

  lemma {:induction false} StampedConcat(last: nat, tree: TreeId, x: seq<LogOp>, y: seq<LogOp>)
    ensures Stamped(last, tree, x + y) == Stamped(last, tree, x) + Stamped(last + |x|, tree, y)
  {
  }

  lemma {:induction false} LogGroup(wal: seq<Record>, last: nat, tree: TreeId, wal1: seq<Record>, last1: nat, body: seq<LogOp>,
                                    wal2: seq<Record>, last2: nat, wal3: seq<Record>, last3: nat)
    requires LogReport(wal, last, tree, [Begin], wal1, last1) == Consistent
    requires LogReport(wal1, last1, tree, body, wal2, last2) == Consistent
    requires LogReport(wal2, last2, tree, [Commit], wal3, last3) == Consistent
    ensures LogReport(wal, last, tree, [Begin] + body + [Commit], wal3, last3) == Consistent
  {
    LogTwice(wal, last, tree, [Begin], wal1, last1, body, wal2, last2);
    LogTwice(wal, last, tree, [Begin] + body, wal2, last2, [Commit], wal3, last3);
  }

  // ------------------------------------------------------------- pages touched

  /** The operations touch only these pages, and no page twice. */
  ghost predicate Once(ops: seq<LogOp>, pages: set<PageId>) {
    && (forall i, p | 0 <= i < |ops| && Touches(ops[i], p) :: p in pages)
    && (forall i, j, p | 0 <= i < j < |ops| && Touches(ops[i], p) :: !Touches(ops[j], p))
  }

  lemma {:induction false} OnceConcat(x: seq<LogOp>, a: set<PageId>, y: seq<LogOp>, b: set<PageId>)
    requires Once(x, a) && Once(y, b) && a !! b
    ensures Once(x + y, a + b)
  {
    var s := x + y;
    forall i, j, p | 0 <= i < j < |s| && Touches(s[i], p) ensures !Touches(s[j], p) {
      if j < |x| {
        assert s[i] == x[i] && s[j] == x[j];
      } else if i >= |x| {
        assert s[i] == y[i - |x|] && s[j] == y[j - |x|];
      } else {
        assert s[i] == x[i] && s[j] == y[j - |x|] && p in a;
        assert Touches(y[j - |x|], p) ==> p in b;
      }
    }
  }

  lemma {:induction false} OnceMore(ops: seq<LogOp>, a: set<PageId>, b: set<PageId>)
    requires Once(ops, a) && a <= b
    ensures Once(ops, b)
  {
  }

  lemma {:induction false} SplitOnce(al: Alloc, leaf: bool, op: LogOp, pid: PageId, right: PageId)
    requires forall p | Touches(op, p) :: p == pid || p == right
    ensures Once([CreateOp(al, leaf)] + [op], {pid, right})
  {
    assert Once([CreateOp(al, leaf)], {}) && Once([op], {pid, right});
    OnceConcat([CreateOp(al, leaf)], {}, [op], {pid, right});
    assert {} + {pid, right} == {pid, right};
  }

  lemma {:induction false} CrownOnce(root: PageId, sep: Bytes, left: PageId, right: PageId)
    ensures Once(CrownLog(root, sep, left, right), {root})
  {
    OnceConcat([InsertInternal(root, sep, left, right)], {root}, [UpdateRoot(root)], {});
    assert {root} + {} == {root};
  }

  /** A split under a new root. */
  lemma {:induction false} RootOnce(al: Alloc, split: seq<LogOp>, pid: PageId, sep: Bytes)
    requires Once(split, {pid, NextId(Taken(al))}) && NextId(al) != pid && NextId(al) != NextId(Taken(al))
    ensures Once([CreateOp(al, false)] + split + CrownLog(NextId(al), sep, pid, NextId(Taken(al))), {pid, NextId(al), NextId(Taken(al))})
  {
    var root, right := NextId(al), NextId(Taken(al));
    assert Once([CreateOp(al, false)], {});
    OnceConcat([CreateOp(al, false)], {}, split, {pid, right});
    CrownOnce(root, sep, pid, right);
    OnceConcat([CreateOp(al, false)] + split, {} + {pid, right}, CrownLog(root, sep, pid, right), {root});
    assert {} + {pid, right} + {root} == {pid, root, right};
  }

  lemma {:induction false} LeafOverflowOnce(t: Tree, k: Bytes, v: Bytes, isRoot: bool, al: Alloc, used: set<PageId>)
    requires t.LeafT? && t.pid in used && Sound(al, used)
    ensures Once(LeafOverflowLog(t, k, v, isRoot, al), if isRoot then {t.pid, NextId(al), NextId(Taken(al))} else {t.pid, NextId(al)})
  {
    TwoFresh(al, used);
    var idx := SplitIndex(t.page.slots);
    var sep := if idx < |t.page.elems| then t.page.elems[idx].key else [];
    if isRoot {
      SplitOnce(Taken(al), true, LeafSplitOp(t.pid, t.page, NextId(Taken(al)), k, v), t.pid, NextId(Taken(al)));
      RootOnce(al, LeafSplitLog(t.pid, t.page, k, v, Taken(al)), t.pid, sep);
    } else {
      SplitOnce(al, true, LeafSplitOp(t.pid, t.page, NextId(al), k, v), t.pid, NextId(al));
    }
  }

  lemma {:induction false} LeafTakes(t: Tree, k: Bytes, v: Bytes, isRoot: bool, al: Alloc, stale: set<PageId>)
    requires t.LeafT? && |t.page.slots| == |t.page.elems|
    ensures var own := WriteLeaf(t, k, v, isRoot, al, stale).taken;
      if StaysIn(t.page, k, v) then own == {} else own == if isRoot then {NextId(al), NextId(Taken(al))} else {NextId(al)}
  {
  }

  lemma {:induction false} LeafOnce(t: Tree, k: Bytes, v: Bytes, isRoot: bool, al: Alloc, stale: set<PageId>, used: set<PageId>)
    requires t.LeafT? && |t.page.slots| == |t.page.elems| && t.pid in used && Sound(al, used)
    ensures Once(WriteLeafLog(t, k, v, isRoot, al), {t.pid} + WriteLeaf(t, k, v, isRoot, al, stale).taken)
  {
    LeafTakes(t, k, v, isRoot, al, stale);
    var own := WriteLeaf(t, k, v, isRoot, al, stale).taken;
    if StaysIn(t.page, k, v) {
      assert {t.pid} + own == {t.pid};
    } else {
      LeafOverflowOnce(t, k, v, isRoot, al, used);
      assert {t.pid} + own == if isRoot then {t.pid, NextId(al), NextId(Taken(al))} else {t.pid, NextId(al)};
    }
  }

  /** What the node above logs touches its own page and the pages it takes itself. */
  lemma {:induction false} NodeOnce(t: Tree, i: nat, st: Step, isRoot: bool, stale: set<PageId>, busy: set<PageId>)
    requires t.NodeT? && |t.kids| == |t.keys| + 1 && i < |t.kids| && t.pid in busy && Sound(st.alloc, busy)
    ensures exists own :: own !! busy && Once(NodeLog(t, st, isRoot), {t.pid} + own) && own <= WriteNode(t, i, st, isRoot, stale).taken
  {
    TwoFresh(st.alloc, busy);
    var root, right := NextId(st.alloc), NextId(Taken(st.alloc));
    var none: set<PageId> := {};
    match st.out
    case Split(l, sep, r) =>
      var seps := SepsFor(t.keys, t.kids);
      var idx := SplitIndex(SepSizes(KeysOf(seps)));
      if Adequate(FreeKeys(t.keys), SepSize(sep)) {
        assert Once([InsertInternal(t.pid, sep, l.pid, r.pid)], {t.pid} + none);
      } else if isRoot {
        SplitOnce(Taken(st.alloc), false, NodeSplitOp(t.pid, seps, right, sep, l.pid, r.pid), t.pid, right);
        RootOnce(st.alloc, NodeSplitLog(t.pid, seps, sep, l.pid, r.pid, Taken(st.alloc)), t.pid, if idx < |seps| then seps[idx].key else []);
        assert {t.pid} + {root, right} == {t.pid, root, right};
        OverflowTakes(t, i, st, isRoot, stale);
      } else {
        SplitOnce(st.alloc, false, NodeSplitOp(t.pid, seps, root, sep, l.pid, r.pid), t.pid, root);
        assert {t.pid} + {root} == {t.pid, root};
        OverflowTakes(t, i, st, isRoot, stale);
      }
    case _ =>
      assert Once([], {t.pid} + none);
  }

  lemma {:induction false} OverflowTakes(t: Tree, i: nat, st: Step, isRoot: bool, stale: set<PageId>)
    requires t.NodeT? && |t.kids| == |t.keys| + 1 && i < |t.kids| && st.out.Split? && !Adequate(FreeKeys(t.keys), SepSize(st.out.sep))
    ensures var own := if isRoot then {NextId(st.alloc), NextId(Taken(st.alloc))} else {NextId(st.alloc)};
      WriteNode(t, i, st, isRoot, stale).taken == st.taken + own
  {
  }

  /** A sound subtree within the used pages. */
  ghost predicate Standing(t: Tree, h: nat, lo: Option<Bytes>, hi: Option<Bytes>, used: set<PageId>) {
    WF(t, h, lo, hi) && Shaped(t) && Distinct(t) && Pids(t) <= used
  }

  lemma {:induction false} KidStands(t: Tree, h: nat, lo: Option<Bytes>, hi: Option<Bytes>, k: Bytes, used: set<PageId>)
    requires t.NodeT? && Standing(t, h, lo, hi, used)
    ensures var i := Route(t.keys, k);
      h > 0 && |t.kids| == |t.keys| + 1 && Standing(t.kids[i], h - 1, LoOf(t.keys, lo, i), HiOf(t.keys, hi, i), used)
  {
    RoutedKid(t, h, lo, hi, k, used);
  }

  lemma {:induction false} LeafStands(t: Tree, h: nat, lo: Option<Bytes>, hi: Option<Bytes>, used: set<PageId>)
    requires t.LeafT? && Standing(t, h, lo, hi, used)
    ensures |t.page.slots| == |t.page.elems| && t.pid in used && Pids(t) == {t.pid}
  {
  }

  lemma {:induction false} KidFramed(t: Tree, h: nat, lo: Option<Bytes>, hi: Option<Bytes>, k: Bytes, v: Bytes, al: Alloc, stale: set<PageId>,
                                     used: set<PageId>)
    requires t.NodeT? && Standing(t, h, lo, hi, used) && Sound(al, used)
    ensures var st := Write(t.kids[Route(t.keys, k)], k, v, false, al, stale); st.taken !! used && Sound(st.alloc, used + st.taken)
  {
    NodeReady(t, h, lo, hi, k, v, al, stale, used);
  }

  lemma {:induction false} NodeWriteOnce(t: Tree, h: nat, lo: Option<Bytes>, hi: Option<Bytes>, i: nat, st: Step, log: seq<LogOp>, isRoot: bool,
                                         stale: set<PageId>, used: set<PageId>)
    requires t.NodeT? && |t.kids| == |t.keys| + 1 && i < |t.kids| && Standing(t, h, lo, hi, used)
    requires st.taken !! used && Sound(st.alloc, used + st.taken) && Once(log, Pids(t.kids[i]) + st.taken)
    ensures Once(log + NodeLog(t, st, isRoot), Pids(t) + WriteNode(t, i, st, isRoot, stale).taken)
  {
    NodeOnce(t, i, st, isRoot, stale, used + st.taken);
    JoinOnce(t, i, st, log, isRoot, stale, used);
  }

  /** An Insert touches pages of the tree and pages it takes, each with at most one record. */
  lemma {:induction false} WriteOnce(t: Tree, h: nat, lo: Option<Bytes>, hi: Option<Bytes>, k: Bytes, v: Bytes, isRoot: bool, al: Alloc,
                                     stale: set<PageId>, used: set<PageId>)
    requires Shaped(t) && Standing(t, h, lo, hi, used) && Sound(al, used)
    ensures Once(WriteLog(t, k, v, isRoot, al, stale), Pids(t) + Write(t, k, v, isRoot, al, stale).taken)
    decreases t
  {
    if t.LeafT? {
      LeafStands(t, h, lo, hi, used);
      LeafOnce(t, k, v, isRoot, al, stale, used);
    } else {
      var i := Route(t.keys, k);
      var st := Write(t.kids[i], k, v, false, al, stale);
      KidStands(t, h, lo, hi, k, used);
      WriteOnce(t.kids[i], h - 1, LoOf(t.keys, lo, i), HiOf(t.keys, hi, i), k, v, false, al, stale, used);
      KidFramed(t, h, lo, hi, k, v, al, stale, used);
      NodeWriteOnce(t, h, lo, hi, i, st, WriteLog(t.kids[i], k, v, false, al, stale), isRoot, stale, used);
    }
  }

  lemma {:induction false} JoinOnce(t: Tree, i: nat, st: Step, log: seq<LogOp>, isRoot: bool, stale: set<PageId>, used: set<PageId>)
    requires t.NodeT? && |t.kids| == |t.keys| + 1 && i < |t.kids| && Pids(t) <= used && st.taken !! used && Distinct(t)
    requires Once(log, Pids(t.kids[i]) + st.taken)
    requires exists own ::
      own !! used + st.taken && Once(NodeLog(t, st, isRoot), {t.pid} + own) && own <= WriteNode(t, i, st, isRoot, stale).taken
    ensures Once(log + NodeLog(t, st, isRoot), Pids(t) + WriteNode(t, i, st, isRoot, stale).taken)
  {
    var own :| own !! used + st.taken && Once(NodeLog(t, st, isRoot), {t.pid} + own) && own <= WriteNode(t, i, st, isRoot, stale).taken;
    PidsAt(t.kids, i);
    OnceConcat(log, Pids(t.kids[i]) + st.taken, NodeLog(t, st, isRoot), {t.pid} + own);
    OnceMore(log + NodeLog(t, st, isRoot), Pids(t.kids[i]) + st.taken + ({t.pid} + own), Pids(t) + WriteNode(t, i, st, isRoot, stale).taken);
  }

  /** The write under the root, whether the tree had one or gets it now. */
  lemma {:induction false} RootWriteOnce(db: TreeRuns.Db, k: Bytes, v: Bytes, stale: set<PageId>)
    requires TreeRuns.Inv(db)
    ensures var (t, al) := TreeRuns.Start(db, stale);
      Once(WriteLog(t, k, v, true, al, stale), Pids(t) + Write(t, k, v, true, al, stale).taken)
  {
    var (t, al) := TreeRuns.Start(db, stale);
    if db.tree.None? {
      AllocateSound(db.alloc, {});
      assert {} + {t.pid} == Pids(t) == {t.pid};
      LeafOnce(t, k, v, true, al, stale, {t.pid});
    } else {
      var h: nat :| WF(t, h, None, None);
      WriteOnce(t, h, None, None, k, v, true, al, stale, Pids(t));
    }
  }

  lemma {:induction false} GroupOnce(first: seq<LogOp>, body: seq<LogOp>, own: set<PageId>)
    requires Once(first, {}) && Once(body, own)
    ensures Once([Begin] + (first + body) + [Commit], own)
  {
    assert Once([Begin], {}) && Once([Commit], {});
    OnceConcat(first, {}, body, own);
    assert {} + own == own;
    OnceConcat([Begin], {}, first + body, own);
    OnceConcat([Begin] + (first + body), own, [Commit], {});
    assert own + {} == own;
  }

  /** So the records of a whole Insert touch no page twice. */
  lemma {:induction false} InsertOnce(db: TreeRuns.Db, k: Bytes, v: Bytes, stale: set<PageId>, i: nat, j: nat, p: PageId)
    requires TreeRuns.Inv(db)
    requires i < |InsertLog(db, k, v, stale)| && j < |InsertLog(db, k, v, stale)| && i != j && Touches(InsertLog(db, k, v, stale)[i], p)
    ensures !Touches(InsertLog(db, k, v, stale)[j], p)
  {
    RootWriteOnce(db, k, v, stale);
    var (t, al) := TreeRuns.Start(db, stale);
    assert Once(StartLog(db), {});
    GroupOnce(StartLog(db), WriteLog(t, k, v, true, al, stale), Pids(t) + Write(t, k, v, true, al, stale).taken);
  }

  // --------------------------------------------------------------------- marks

  ghost predicate NoMarks(ops: seq<LogOp>) {
    forall i | 0 <= i < |ops| :: LogScan.IsOp(ops[i])
  }

  lemma {:induction false} LeafMarks(t: Tree, k: Bytes, v: Bytes, isRoot: bool, al: Alloc)
    requires t.LeafT?
    ensures NoMarks(WriteLeafLog(t, k, v, isRoot, al))
  {
  }

  lemma {:induction false} NodeMarks(t: Tree, st: Step, isRoot: bool)
    requires t.NodeT? && |t.kids| == |t.keys| + 1
    ensures NoMarks(NodeLog(t, st, isRoot))
  {
  }

  lemma {:induction false} WriteMarks(t: Tree, k: Bytes, v: Bytes, isRoot: bool, al: Alloc, stale: set<PageId>)
    requires Shaped(t)
    ensures NoMarks(WriteLog(t, k, v, isRoot, al, stale))
    decreases t
  {
    if t.LeafT? {
      LeafMarks(t, k, v, isRoot, al);
    } else {
      var kid := t.kids[Route(t.keys, k)];
      WriteMarks(kid, k, v, false, al, stale);
      NodeMarks(t, Write(kid, k, v, false, al, stale), isRoot);
    }
  }

  /** Begin opens an Insert, Commit closes it, and neither stands between. */
  lemma {:induction false} InsertMarks(db: TreeRuns.Db, k: Bytes, v: Bytes, stale: set<PageId>)
    requires TreeRuns.Runnable(db)
    ensures var ops := InsertLog(db, k, v, stale);
      |ops| >= 2 && ops[0].Begin? && ops[|ops| - 1].Commit? && NoMarks(ops[1..|ops| - 1])
  {
    var (t, al) := TreeRuns.Start(db, stale);
    WriteMarks(t, k, v, true, al, stale);
    var body := BodyLog(db, k, v, stale);
    assert NoMarks(StartLog(db));
    assert ([Begin] + body + [Commit])[1..1 + |body|] == body;
  }

  // ---------------------------------------------------------------- pages drawn

  /** The pages the operations create, in order. */
  function PagesOf(ops: seq<LogOp>): seq<PageId> {
    if ops == [] then [] else PagesOf(ops[..|ops| - 1]) + (if ops[|ops| - 1].CreatePage? then [ops[|ops| - 1].page] else [])
  }

  lemma {:induction false} PagesConcat(x: seq<LogOp>, y: seq<LogOp>)
    ensures PagesOf(x + y) == PagesOf(x) + PagesOf(y)
    decreases |y|
  {
    if y == [] {
      assert x + y == x;
    } else {
      assert (x + y)[..|x + y| - 1] == x + y[..|y| - 1];
      PagesConcat(x, y[..|y| - 1]);
    }
  }

  lemma {:induction false} PagesOne(op: LogOp)
    ensures PagesOf([op]) == if op.CreatePage? then [op.page] else []
  {
    assert [op][..0] == [];
  }

  function NewIds(a: nat, b: nat): seq<PageId>
    requires a <= b
  {
    seq(b - a, i => a + 1 + i)
  }

  /** The ids drawn are the free pages from the front and then new ones, in order; what is left comes next. */
  ghost predicate Draws(al: Alloc, ids: seq<PageId>, al': Alloc) {
    al.maxId <= al'.maxId && ids + al'.freeList == al.freeList + NewIds(al.maxId, al'.maxId)
  }

  lemma {:induction false} DrawNone(al: Alloc)
    ensures Draws(al, [], al)
  {
    assert [] + al.freeList == al.freeList + NewIds(al.maxId, al.maxId);
  }

  lemma {:induction false} DrawOne(al: Alloc)
    ensures Draws(al, [NextId(al)], Taken(al))
  {
    var b := Taken(al);
    assert [NextId(al)] + b.freeList == al.freeList + NewIds(al.maxId, b.maxId);
  }

  lemma {:induction false} DrawTwice(a: Alloc, x: seq<PageId>, b: Alloc, y: seq<PageId>, c: Alloc)
    requires Draws(a, x, b) && Draws(b, y, c)
    ensures Draws(a, x + y, c)
  {
    assert x + y + c.freeList == x + (y + c.freeList) == x + b.freeList + NewIds(b.maxId, c.maxId);
    assert NewIds(a.maxId, b.maxId) + NewIds(b.maxId, c.maxId) == NewIds(a.maxId, c.maxId);
    assert a.freeList + NewIds(a.maxId, b.maxId) + NewIds(b.maxId, c.maxId) == a.freeList + NewIds(a.maxId, c.maxId);
  }

  /** A page for the split, and the record of the split. */
  lemma {:induction false} SplitCreates(al: Alloc, leaf: bool, op: LogOp)
    requires !op.CreatePage?
    ensures PagesOf([CreateOp(al, leaf)] + [op]) == [NextId(al)] && Draws(al, [NextId(al)], Taken(al))
  {
    PagesConcat([CreateOp(al, leaf)], [op]);
    PagesOne(CreateOp(al, leaf));
    PagesOne(op);
    DrawOne(al);
  }

  /** A page for the new root, then the split below it. */
  lemma {:induction false} RootCreates(al: Alloc, split: seq<LogOp>, root: PageId, sep: Bytes, left: PageId, right: PageId)
    requires PagesOf(split) == [NextId(Taken(al))]
    ensures var log := [CreateOp(al, false)] + split + CrownLog(root, sep, left, right);
      PagesOf(log) == [NextId(al), NextId(Taken(al))] && Draws(al, PagesOf(log), Taken(Taken(al)))
  {
    var crown := CrownLog(root, sep, left, right);
    PagesConcat([CreateOp(al, false)] + split, crown);
    PagesConcat([CreateOp(al, false)], split);
    PagesOne(CreateOp(al, false));
    PagesConcat([InsertInternal(root, sep, left, right)], [UpdateRoot(root)]);
    PagesOne(InsertInternal(root, sep, left, right));
    PagesOne(UpdateRoot(root));
    DrawOne(al);
    DrawOne(Taken(al));
    DrawTwice(al, [NextId(al)], Taken(al), [NextId(Taken(al))], Taken(Taken(al)));
  }

  lemma {:induction false} LeafAlloc(t: Tree, k: Bytes, v: Bytes, isRoot: bool, al: Alloc, stale: set<PageId>)
    requires t.LeafT? && |t.page.slots| == |t.page.elems|
    ensures WriteLeaf(t, k, v, isRoot, al, stale).alloc ==
            if StaysIn(t.page, k, v) then al else if isRoot then Taken(Taken(al)) else Taken(al)
  {
  }

  lemma {:induction false} LeafDraws(t: Tree, k: Bytes, v: Bytes, isRoot: bool, al: Alloc, stale: set<PageId>)
    requires t.LeafT? && |t.page.slots| == |t.page.elems|
    ensures Draws(al, PagesOf(WriteLeafLog(t, k, v, isRoot, al)), WriteLeaf(t, k, v, isRoot, al, stale).alloc)
  {
    LeafAlloc(t, k, v, isRoot, al, stale);
    if StaysIn(t.page, k, v) {
      PagesOne(UpdateLeaf(t.pid, k, v));
      PagesOne(InsertLeaf(t.pid, k, v));
      DrawNone(al);
    } else if isRoot {
      var idx := SplitIndex(t.page.slots);
      var sep := if idx < |t.page.elems| then t.page.elems[idx].key else [];
      SplitCreates(Taken(al), true, LeafSplitOp(t.pid, t.page, NextId(Taken(al)), k, v));
      RootCreates(al, LeafSplitLog(t.pid, t.page, k, v, Taken(al)), NextId(al), sep, t.pid, NextId(Taken(al)));
    } else {
      SplitCreates(al, true, LeafSplitOp(t.pid, t.page, NextId(al), k, v));
    }
  }

  lemma {:induction false} NodeDraws(t: Tree, i: nat, st: Step, isRoot: bool, stale: set<PageId>)
    requires t.NodeT? && |t.kids| == |t.keys| + 1 && i < |t.kids|
    ensures Draws(st.alloc, PagesOf(NodeLog(t, st, isRoot)), WriteNode(t, i, st, isRoot, stale).alloc)
  {
    var al := st.alloc;
    DrawNone(al);
    match st.out
    case Split(l, sep, r) =>
      var seps := SepsFor(t.keys, t.kids);
      var idx := SplitIndex(SepSizes(KeysOf(seps)));
      if Adequate(FreeKeys(t.keys), SepSize(sep)) {
        PagesOne(InsertInternal(t.pid, sep, l.pid, r.pid));
      } else if isRoot {
        SplitCreates(Taken(al), false, NodeSplitOp(t.pid, seps, NextId(Taken(al)), sep, l.pid, r.pid));
        RootCreates(al, NodeSplitLog(t.pid, seps, sep, l.pid, r.pid, Taken(al)), NextId(al), if idx < |seps| then seps[idx].key else [], t.pid,
                    NextId(Taken(al)));
      } else {
        SplitCreates(al, false, NodeSplitOp(t.pid, seps, NextId(al), sep, l.pid, r.pid));
      }
    case _ =>
  }

  lemma {:induction false} WriteDraws(t: Tree, k: Bytes, v: Bytes, isRoot: bool, al: Alloc, stale: set<PageId>)
    requires Shaped(t)
    ensures Draws(al, PagesOf(WriteLog(t, k, v, isRoot, al, stale)), Write(t, k, v, isRoot, al, stale).alloc)
    decreases t
  {
    if t.LeafT? {
      LeafDraws(t, k, v, isRoot, al, stale);
    } else {
      var i := Route(t.keys, k);
      var st := Write(t.kids[i], k, v, false, al, stale);
      WriteDraws(t.kids[i], k, v, false, al, stale);
      NodeDraws(t, i, st, isRoot, stale);
      JoinDraws(al, WriteLog(t.kids[i], k, v, false, al, stale), st.alloc, NodeLog(t, st, isRoot), WriteNode(t, i, st, isRoot, stale).alloc);
    }
  }

  lemma {:induction false} JoinDraws(a: Alloc, x: seq<LogOp>, b: Alloc, y: seq<LogOp>, c: Alloc)
    requires Draws(a, PagesOf(x), b) && Draws(b, PagesOf(y), c)
    ensures Draws(a, PagesOf(x + y), c)
  {
    PagesConcat(x, y);
    DrawTwice(a, PagesOf(x), b, PagesOf(y), c);
  }

  lemma {:induction false} StartDraws(db: TreeRuns.Db, stale: set<PageId>)
    ensures Draws(db.alloc, PagesOf(StartLog(db)), TreeRuns.Start(db, stale).1)
  {
    if db.tree.None? {
      var root := NextId(db.alloc);
      SplitCreates(db.alloc, true, UpdateFirstLeaf(root));
      PagesConcat([CreateOp(db.alloc, true)] + [UpdateFirstLeaf(root)], [UpdateRoot(root)]);
      PagesOne(UpdateRoot(root));
    } else {
      DrawNone(db.alloc);
    }
  }

  lemma {:induction false} BodyDraws(db: TreeRuns.Db, k: Bytes, v: Bytes, stale: set<PageId>)
    requires TreeRuns.Runnable(db)
    ensures var (t, al) := TreeRuns.Start(db, stale);
      Draws(db.alloc, PagesOf(BodyLog(db, k, v, stale)), Write(t, k, v, true, al, stale).alloc)
  {
    var (t, al) := TreeRuns.Start(db, stale);
    StartDraws(db, stale);
    WriteDraws(t, k, v, true, al, stale);
    JoinDraws(db.alloc, StartLog(db), al, WriteLog(t, k, v, true, al, stale), Write(t, k, v, true, al, stale).alloc);
  }

  lemma {:induction false} MarksCreateNothing(body: seq<LogOp>)
    ensures PagesOf([Begin] + body + [Commit]) == PagesOf(body)
  {
    PagesConcat([Begin] + body, [Commit]);
    PagesConcat([Begin], body);
    PagesOne(Begin);
    PagesOne(Commit);
  }

  /** An Insert logs the pages it draws in the order in which the allocator hands them out: no page is skipped or drawn twice. */
  lemma {:induction false} InsertDraws(db: TreeRuns.Db, k: Bytes, v: Bytes, stale: set<PageId>)
    requires TreeRuns.Runnable(db) && TreeRuns.Apply(db, TreeRuns.Insert(k, v), stale).Some?
    ensures Draws(db.alloc, PagesOf(InsertLog(db, k, v, stale)), TreeRuns.Apply(db, TreeRuns.Insert(k, v), stale).value.0.alloc)
  {
    BodyDraws(db, k, v, stale);
    MarksCreateNothing(BodyLog(db, k, v, stale));
  }
}
