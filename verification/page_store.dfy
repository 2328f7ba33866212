/** Trees laid out on pages: which page holds which node, and the journal that recovery replays. */
module PageStore {
  import opened Bytes
  import opened Pages
  import opened Trees
  import opened TreeStructure
  import opened Wal
  import opened Recovery
  import opened Replay
  import opened LogScan

  /** An unfilled page, or a slotted page holding leaf elements or separators. */
  datatype PageBody = Empty | LeafB(leaf: Leaf) | NodeB(seps: seq<Sep>)

  /** `internal` is the kind byte, which need not agree with what was written to the page. */
  datatype Page = Page(lsn: nat, internal: bool, body: PageBody)

  type Store = map<PageId, Page>

  /** IsLeafNode: an unfilled page reads as a leaf. */
  predicate ReadsAsLeaf(p: Page) {
    p.body.Empty? || !p.internal
  }

  function LeafOf(b: PageBody): Leaf {
    if b.LeafB? then b.leaf else EMPTY_LEAF
  }

  function SepsIn(b: PageBody): seq<Sep> {
    if b.NodeB? then b.seps else []
  }

  // ------------------------------------------------------------ representation

  /** The separators of a page and the children of a node: adjacent separators share the child between them. */
  ghost predicate Matches(seps: seq<Sep>, keys: seq<Bytes>, kids: seq<Tree>) {
    && |seps| == |keys| && |kids| == |keys| + 1
    && forall i | 0 <= i < |seps| :: seps[i].key == keys[i] && seps[i].left == kids[i].pid && seps[i].right == kids[i + 1].pid
  }

  /** The pages hold the tree. */
  ghost predicate Rep(pages: Store, t: Tree)
    decreases t
  {
    && t.pid in pages && pages[t.pid].internal == t.internal
    && match t
       case LeafT(pid, _, page) => !pages[pid].body.NodeB? && LeafOf(pages[pid].body) == page
       case NodeT(pid, _, keys, kids) =>
         && !pages[pid].body.LeafB? && Matches(SepsIn(pages[pid].body), keys, kids)
         && RepAll(pages, kids)
  }

  ghost predicate RepAll(pages: Store, kids: seq<Tree>)
    decreases kids
  {
    forall i | 0 <= i < |kids| :: Rep(pages, kids[i])
  }

  /** Outside `except` no page disappears and only LSNs change, upwards. */
  ghost predicate Untouched(pages: Store, pages': Store, except: set<PageId>) {
    && pages.Keys <= pages'.Keys
    && forall p | p in pages && p !in except :: pages'[p].internal == pages[p].internal && pages'[p].body == pages[p].body
  }

  lemma {:induction false} RepFrame(pages: Store, pages': Store, t: Tree, except: set<PageId>)
    requires Rep(pages, t) && Untouched(pages, pages', except) && Pids(t) !! except
    ensures Rep(pages', t)
    decreases t, 0
  {
    if t.NodeT? {
      RepAllFrame(pages, pages', t.kids, except);
    }
  }

  lemma {:induction false} RepAllFrame(pages: Store, pages': Store, kids: seq<Tree>, except: set<PageId>)
    requires RepAll(pages, kids) && Untouched(pages, pages', except) && PidsAll(kids) !! except
    ensures RepAll(pages', kids)
    decreases kids
  {
    forall i | 0 <= i < |kids| ensures Rep(pages', kids[i]) {
      PidsAt(kids, i);
      RepFrame(pages, pages', kids[i], except);
    }
  }

  lemma {:induction false} RepPids(pages: Store, t: Tree)
    requires Rep(pages, t)
    ensures Pids(t) <= pages.Keys
    decreases t, 0
  {
    if t.NodeT? {
      RepAllPids(pages, t.kids);
    }
  }

  lemma {:induction false} RepAllPids(pages: Store, kids: seq<Tree>)
    requires RepAll(pages, kids)
    ensures PidsAll(kids) <= pages.Keys
    decreases kids
  {
    if kids != [] {
      var n := |kids| - 1;
      assert RepAll(pages, kids[..n]);
      RepAllPids(pages, kids[..n]);
      RepPids(pages, kids[n]);
    }
  }

  // -------------------------------------------------- separators and children

  /**
   Inserting a fresh separator whose left child is already the child in its gap: keys stay ascending, neighbours'
   pointers agree, and the child sequence is the old one with the right child inserted after the left one.
   */
  lemma {:induction false} InsertSepMatches(seps: seq<Sep>, keys: seq<Bytes>, kids: seq<Tree>, i: nat, l: Tree, sep: Bytes, r: Tree)
    requires Matches(seps, keys, kids) && i == Route(keys, sep) && l.pid == kids[i].pid
    requires i > 0 ==> keys[i - 1] != sep
    ensures Matches(InsertSep(seps, sep, l.pid, r.pid), keys[..i] + [sep] + keys[i..], kids[..i] + [l, r] + kids[i + 1..])
  {
    assert KeysOf(seps) == keys;
    var s := InsertSep(seps, sep, l.pid, r.pid);
    var keys', kids' := keys[..i] + [sep] + keys[i..], kids[..i] + [l, r] + kids[i + 1..];
    forall j | 0 <= j < |s| ensures s[j].key == keys'[j] && s[j].left == kids'[j].pid && s[j].right == kids'[j + 1].pid {
      if j < i {
        assert s[j].key == seps[j].key && s[j].left == seps[j].left;
      } else if j > i {
        assert s[j].key == seps[j - 1].key && s[j].right == seps[j - 1].right;
      }
    }
  }

  lemma {:induction false} HalvesMatch(seps: seq<Sep>, keys: seq<Bytes>, kids: seq<Tree>, idx: nat)
    requires Matches(seps, keys, kids) && idx < |keys|
    ensures Matches(seps[..idx], keys[..idx], kids[..idx + 1])
    ensures Matches(seps[idx + 1..], keys[idx + 1..], kids[idx + 1..])
  {
  }

  lemma {:induction false} ReplaceMatch(seps: seq<Sep>, keys: seq<Bytes>, kids: seq<Tree>, i: nat, c: Tree)
    requires Matches(seps, keys, kids) && i < |kids| && c.pid == kids[i].pid
    ensures Matches(seps, keys, kids[i := c])
  {
  }

  // ------------------------------------------------------------------ journal

  function ImageOf(p: Page): Image {
    match p.body
    case Empty => Image(p.lsn, p.internal, Blank)
    case LeafB(leaf) => Image(p.lsn, p.internal, Slotted(leaf))
    case NodeB(seps) => Image(p.lsn, p.internal, Seps(seps))
  }

  ghost predicate Created(p: PageId, wal: seq<Record>) {
    exists i | 0 <= i < |wal| :: wal[i].op.CreatePage? && wal[i].op.page == p
  }

  /**
   The log creates the page, its records on the page are those of operations that did their job, the page shows what
   these made of a zero page, and its LSN covers them.
   */
  ghost predicate PageJournaled(pg: Page, p: PageId, wal: seq<Record>)
    requires AllSane(wal)
  {
    && Created(p, wal) && Earned(p, wal)
    && SameBody(ImageOf(pg), Redo(Writing, ZERO_IMAGE, p, wal))
    && pg.internal == Redo(Writing, ZERO_IMAGE, p, wal).internal
    && forall i | 0 <= i < |wal| && Touches(wal[i].op, p) :: wal[i].lsn <= pg.lsn
  }

  /** Every page is journaled in a log of ascending LSNs up to `last`. */
  ghost predicate Journaled(pages: Store, wal: seq<Record>, last: nat) {
    && AllSane(wal) && Increasing(wal) && last == (if wal == [] then 0 else wal[|wal| - 1].lsn)
    && (forall i | 0 <= i < |wal| :: 0 < wal[i].lsn <= last)
    && (forall p | p in pages :: PageJournaled(pages[p], p, wal) && pages[p].lsn <= last)
    && (forall p, i | p !in pages && 0 <= i < |wal| :: !Touches(wal[i].op, p))
  }

  datatype Verdict = Consistent | Inconsistent

  /** The verdict on the whole journal. */
  ghost function Audit(pages: Store, wal: seq<Record>, last: nat): Verdict {
    if Journaled(pages, wal, last) then Consistent else Inconsistent
  }

  /** The accounting of a journaled page is exact. */
  lemma {:induction false} JournalLevel(pages: Store, wal: seq<Record>, last: nat, p: PageId)
    requires Audit(pages, wal, last) == Consistent && p in pages
    ensures Level(ImageOf(pages[p]).content)
  {
    assert PageJournaled(pages[p], p, wal);
    WrittenExact(p, wal, |wal|);
  }

  /** One logged step: touched pages change as the record says, others keep their contents. */
  ghost predicate StepOf(pages: Store, rec: Record, pages': Store, p: PageId)
    requires p in pages' && Sane(rec.op)
  {
    if Touches(rec.op, p) then
      && p in pages && pages'[p].lsn == rec.lsn && pages'[p].internal == pages[p].internal
      && Took(ImageOf(pages[p]).content, rec.op, p)
      && Alike(ImageOf(pages'[p]).content, Effect(Writing, rec.op, p, ImageOf(pages[p]).content))
    else if p in pages then
      && pages[p].lsn <= pages'[p].lsn <= Latest(pages[p].lsn, rec.lsn)
      && pages'[p].body == pages[p].body && pages'[p].internal == pages[p].internal
      && !(rec.op.CreatePage? && rec.op.page == p)
    else
      && rec.op.CreatePage? && rec.op.page == p
      && pages'[p].internal == !rec.op.leaf && pages'[p].body.Empty? && pages'[p].lsn <= rec.lsn
  }

  function Latest(a: nat, b: nat): nat {
    if a < b then b else a
  }

  lemma {:induction false} RedoLsnBound(p: PageId, wal: seq<Record>, last: nat, n: nat)
    requires AllSane(wal) && n <= |wal| && forall i | 0 <= i < |wal| :: wal[i].lsn <= last
    ensures RedoTo(Writing, ZERO_IMAGE, p, wal, n).lsn <= last
  {
    if n > 0 {
      RedoLsnBound(p, wal, last, n - 1);
    }
  }

  lemma {:induction false} RedoUntouched(p: PageId, wal: seq<Record>, n: nat)
    requires AllSane(wal) && n <= |wal| && forall i | 0 <= i < |wal| :: !Touches(wal[i].op, p)
    ensures SameBody(ZERO_IMAGE, RedoTo(Writing, ZERO_IMAGE, p, wal, n))
  {
    if n > 0 {
      RedoUntouched(p, wal, n - 1);
    }
  }

  lemma {:induction false} StillCreated(p: PageId, wal: seq<Record>, rec: Record)
    requires Created(p, wal) || (rec.op.CreatePage? && rec.op.page == p)
    ensures Created(p, wal + [rec])
  {
    var all := wal + [rec];
    if Created(p, wal) {
      var i :| 0 <= i < |wal| && wal[i].op.CreatePage? && wal[i].op.page == p;
      assert all[i] == wal[i];
    } else {
      assert all[|wal|] == rec;
    }
  }

  /** A page of the store after one more record. */
  lemma {:induction false} OldPageStep(was: Page, p: PageId, wal: seq<Record>, last: nat, rec: Record, now: Page, z: Image)
    requires AllSane(wal) && AllSane(wal + [rec]) && Sane(rec.op) && PageJournaled(was, p, wal) && was.lsn <= last && rec.lsn == last + 1
    requires z == Redo(Writing, ZERO_IMAGE, p, wal) && z.lsn <= last && !(rec.op.CreatePage? && rec.op.page == p)
    requires now.internal == was.internal && was.lsn <= now.lsn <= rec.lsn
    requires if Touches(rec.op, p) then
        now.lsn == rec.lsn && Took(ImageOf(was).content, rec.op, p)
        && Alike(ImageOf(now).content, Effect(Writing, rec.op, p, ImageOf(was).content))
      else now.body == was.body
    ensures PageJournaled(now, p, wal + [rec])
  {
    RedoAppend(Writing, ZERO_IMAGE, p, wal, rec);
    StillCreated(p, wal, rec);
    if Touches(rec.op, p) {
      StepTogether(Writing, ImageOf(was), z, p, rec);
      TookAlike(ImageOf(was).content, z.content, rec.op, p);
    }
    EarnedAppend(p, wal, rec);
  }

  /** A page that the record creates. */
  lemma {:induction false} NewPageStep(p: PageId, wal: seq<Record>, rec: Record, now: Page)
    requires AllSane(wal) && AllSane(wal + [rec]) && rec.op.CreatePage? && rec.op.page == p
    requires forall i | 0 <= i < |wal| :: !Touches(wal[i].op, p)
    requires now.internal == !rec.op.leaf && now.body.Empty?
    ensures PageJournaled(now, p, wal + [rec])
  {
    RedoAppend(Writing, ZERO_IMAGE, p, wal, rec);
    StillCreated(p, wal, rec);
    RedoUntouched(p, wal, |wal|);
    EarnedAppend(p, wal, rec);
  }

  lemma {:induction false} PageStep(pages: Store, wal: seq<Record>, last: nat, rec: Record, pages': Store, p: PageId)
    requires Journaled(pages, wal, last) && rec.lsn == last + 1 && Sane(rec.op) && AllSane(wal + [rec])
    requires p in pages' && StepOf(pages, rec, pages', p)
    ensures PageJournaled(pages'[p], p, wal + [rec]) && pages'[p].lsn <= rec.lsn
  {
    if p in pages {
      RedoLsnBound(p, wal, last, |wal|);
      OldPageStep(pages[p], p, wal, last, rec, pages'[p], Redo(Writing, ZERO_IMAGE, p, wal));
    } else {
      NewPageStep(p, wal, rec, pages'[p]);
    }
  }

  /** A step that follows its record keeps the journal. */
  lemma {:induction false} JournalStep(pages: Store, wal: seq<Record>, last: nat, rec: Record, pages': Store)
    requires Audit(pages, wal, last) == Consistent && rec.lsn == last + 1 && Sane(rec.op)
    requires pages.Keys <= pages'.Keys && (forall p | p in pages' :: StepOf(pages, rec, pages', p))
    requires forall p | p !in pages' :: !Touches(rec.op, p)
    ensures Audit(pages', wal + [rec], last + 1) == Consistent
  {
    assert AllSane(wal + [rec]);
    forall p | p in pages' ensures PageJournaled(pages'[p], p, wal + [rec]) && pages'[p].lsn <= last + 1 {
      PageStep(pages, wal, last, rec, pages', p);
    }
  }

  // ----------------------------------------------------------- crash recovery

  /** A page flushed while the log was `wal` lags behind any longer log, at the position where it was flushed. */
  lemma {:induction false} FlushedLags(pages: Store, wal: seq<Record>, last: nat, more: seq<Record>, p: PageId)
    requires Journaled(pages, wal, last) && p in pages && AllSane(wal + more)
    requires forall i | 0 <= i < |more| :: last < more[i].lsn
    ensures Lagging(ImageOf(pages[p]), p, wal + more, |wal|)
  {
    var all := wal + more;
    RedoPrefix(Writing, ZERO_IMAGE, p, wal, more, |wal|);
    assert PageJournaled(pages[p], p, wal);
    forall i | |wal| <= i < |all| && Touches(all[i].op, p) ensures ImageOf(pages[p]).lsn < all[i].lsn {
      assert all[i] == more[i - |wal|];
    }
  }

  lemma {:induction false} JournalAscends(pages: Store, wal: seq<Record>, last: nat, p: PageId)
    requires Journaled(pages, wal, last)
    ensures Ascending(wal, p)
  {
  }
}
