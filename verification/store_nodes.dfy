/** What the nodes above a written child do to the page store. */
module StoreNodes {
  import opened Bytes
  import opened Assoc
  import opened Pages
  import opened Allocator
  import opened Trees
  import opened TreeStructure
  import opened TreeFrame
  import opened TreeRoutes
  import opened TreeNode
  import opened TreeSplit
  import opened TreeTheorems
  import opened Wal
  import opened PageStore
  import opened StoreSteps

  /** A write below the root keeps the page of its subtree's top. */
  lemma {:induction false} WriteKeepsPage(t: Tree, k: Bytes, v: Bytes, al: Alloc, stale: set<PageId>)
    requires Shaped(t)
    ensures var out := Write(t, k, v, false, al, stale).out;
      (out.Whole? ==> out.t.pid == t.pid) && (out.Split? ==> out.left.pid == t.pid)
  {
  }

  lemma {:induction false} RepAllParts(pages: Store, kids: seq<Tree>, a: nat, b: nat)
    requires RepAll(pages, kids) && a <= b <= |kids|
    ensures RepAll(pages, kids[a..b])
  {
    forall i | 0 <= i < |kids[a..b]| ensures Rep(pages, kids[a..b][i]) {
      assert kids[a..b][i] == kids[a + i];
    }
  }

  lemma {:induction false} RepAllConcat(pages: Store, a: seq<Tree>, m: seq<Tree>, c: seq<Tree>)
    requires RepAll(pages, a) && RepAll(pages, m) && RepAll(pages, c)
    ensures RepAll(pages, a + m + c)
  {
    var s := a + m + c;
    forall i | 0 <= i < |s| ensures Rep(pages, s[i]) {
      assert s[i] in a || s[i] in m || s[i] in c;
    }
  }

  /** The node's page and its other children are where they were when the child has been written. */
  ghost predicate OthersStay(pages: Store, t: Tree, i: nat)
    requires t.NodeT? && i < |t.kids|
  {
    && t.pid in pages && pages[t.pid].internal == t.internal
    && !pages[t.pid].body.LeafB? && Matches(SepsIn(pages[t.pid].body), t.keys, t.kids)
    && RepAll(pages, t.kids[..i]) && RepAll(pages, t.kids[i + 1..])
  }

  lemma {:induction false} KidWritten(pages: Store, mid: Store, t: Tree, i: nat, taken: set<PageId>)
    requires t.NodeT? && i < |t.kids| && Rep(pages, t) && Distinct(t) && taken !! pages.Keys
    requires Untouched(pages, mid, Pids(t.kids[i]) + taken)
    ensures OthersStay(mid, t, i)
    ensures Pids(t.kids[i]) <= Pids(t) && Pids(t) <= pages.Keys
  {
    var except := Pids(t.kids[i]) + taken;
    PidsAt(t.kids, i);
    DistinctKid(t.kids, i);
    RepPids(pages, t);
    assert t.kids[0..i] == t.kids[..i] && t.kids[i + 1..|t.kids|] == t.kids[i + 1..];
    RepAllParts(pages, t.kids, 0, i);
    RepAllParts(pages, t.kids, i + 1, |t.kids|);
    RepAllFrame(pages, mid, t.kids[..i], except);
    RepAllFrame(pages, mid, t.kids[i + 1..], except);
  }

  lemma {:induction false} RepReplaced(pages: Store, t: Tree, i: nat, m: seq<Tree>)
    requires t.NodeT? && i < |t.kids| && OthersStay(pages, t, i) && RepAll(pages, m)
    ensures RepAll(pages, t.kids[..i] + m + t.kids[i + 1..])
  {
    RepAllConcat(pages, t.kids[..i], m, t.kids[i + 1..]);
  }

  /** A child rewritten in place needs no change to the node's page. */
  lemma {:induction false} NodeWhole(pages: Store, t: Tree, i: nat, c: Tree)
    requires t.NodeT? && i < |t.kids| && OthersStay(pages, t, i) && Rep(pages, c) && c.pid == t.kids[i].pid
    ensures Rep(pages, t.(kids := t.kids[i := c]))
  {
    assert RepAll(pages, [c]);
    RepReplaced(pages, t, i, [c]);
    SetAsConcat(t.kids, i, c);
    ReplaceMatch(SepsIn(pages[t.pid].body), t.keys, t.kids, i, c);
  }

  /** The children of a body after the separator was put, or lost, are on the pages. */
  lemma {:induction false} PutSepRep(pages: Store, b: Body, l: Tree, sep: Bytes, r: Tree)
    requires |b.kids| == |b.keys| + 1 && Rep(pages, l) && Rep(pages, r)
    requires var i := Route(b.keys, sep); RepAll(pages, b.kids[..i]) && RepAll(pages, b.kids[i + 1..])
    ensures PutSep(b, l, sep, r).Some? ==> RepAll(pages, PutSep(b, l, sep, r).value.kids)
  {
    var i := Route(b.keys, sep);
    SetAsConcat(b.kids, i, l);
    assert RepAll(pages, [l]) && RepAll(pages, [l, r]);
    RepAllConcat(pages, b.kids[..i], [l], b.kids[i + 1..]);
    RepAllConcat(pages, b.kids[..i], [l, r], b.kids[i + 1..]);
  }

  lemma {:induction false} FreshKey(keys: seq<Bytes>, lo: Option<Bytes>, hi: Option<Bytes>, i: nat, sep: Bytes)
    requires KeysOk(keys, lo, hi) && i <= |keys| && Above(LoOf(keys, lo, i), sep) && Below(sep, HiOf(keys, hi, i))
    ensures Route(keys, sep) == i && forall j | 0 <= j < |keys| :: keys[j] != sep
  {
    RouteSep(keys, lo, hi, i, sep);
    SeparatesKeys(keys, lo, hi, i, sep);
    OrderFacts();
  }

  /** A node that takes, or loses, the separator on its own page. */
  lemma {:induction false} NodeTakes(pages: Store, t: Tree, i: nat, l: Tree, sep: Bytes, r: Tree, lsn: nat, pages': Store)
    requires t.NodeT? && i < |t.kids| && OthersStay(pages, t, i) && Rep(pages, l) && Rep(pages, r) && l.pid == t.kids[i].pid
    requires Route(t.keys, sep) == i && (forall j | 0 <= j < |t.keys| :: t.keys[j] != sep)
    requires t.pid !in PidsAll(t.kids[..i]) + Pids(l) + Pids(r) + PidsAll(t.kids[i + 1..])
    ensures var after, b' := BodyAfter(pages[t.pid].body, sep, l.pid, r.pid), PutSep(Body(t.keys, t.kids), l, sep, r);
      && (after.None? <==> b'.None?)
      && (after.Some? && pages' == pages[t.pid := pages[t.pid].(lsn := lsn, body := after.value)] ==>
            Rep(pages', t.(keys := b'.value.keys, kids := b'.value.kids)))
  {
    PutSepMatches(SepsIn(pages[t.pid].body), Body(t.keys, t.kids), l, sep, r);
    var after := BodyAfter(pages[t.pid].body, sep, l.pid, r.pid);
    if after.Some? && pages' == pages[t.pid := pages[t.pid].(lsn := lsn, body := after.value)] {
      PartsStay(pages, pages', t.kids[..i], l, r, t.kids[i + 1..], {t.pid});
      PutSepRep(pages', Body(t.keys, t.kids), l, sep, r);
    }
  }

  /** The children around and under a gap stay on the pages when only other pages change. */
  lemma {:induction false} PartsStay(pages: Store, pages': Store, a: seq<Tree>, l: Tree, r: Tree, c: seq<Tree>, except: set<PageId>)
    requires RepAll(pages, a) && Rep(pages, l) && Rep(pages, r) && RepAll(pages, c) && Untouched(pages, pages', except)
    requires except !! PidsAll(a) + Pids(l) + Pids(r) + PidsAll(c)
    ensures RepAll(pages', a) && Rep(pages', l) && Rep(pages', r) && RepAll(pages', c)
  {
    RepFrame(pages, pages', l, except);
    RepFrame(pages, pages', r, except);
    RepAllFrame(pages, pages', a, except);
    RepAllFrame(pages, pages', c, except);
  }

  // ---------------------------------------------------------- internal splits

  /** The children of both halves are on the pages. */
  lemma {:induction false} HalvesRep(pages: Store, t: Tree, lo: Option<Bytes>, hi: Option<Bytes>, i: nat, l: Tree, sep: Bytes, r: Tree,
                                     al: Alloc, stale: set<PageId>)
    requires t.NodeT? && |t.kids| == |t.keys| + 1 && KeysOk(t.keys, lo, hi) && i == Route(t.keys, sep)
    requires RepAll(pages, t.kids[..i]) && RepAll(pages, t.kids[i + 1..]) && Rep(pages, l) && Rep(pages, r)
    ensures var out := NodeSplit(t, l, sep, r, al, stale).out;
      out.Split? ==> out.left.NodeT? && out.right.NodeT? && RepAll(pages, out.left.kids) && RepAll(pages, out.right.kids)
  {
    var idx := SplitIndex(SepSizes(t.keys));
    if idx < |t.keys| {
      RouteHalves(t.keys, lo, hi, sep, idx);
      var inLeft := Lt(sep, t.keys[idx]);
      HalfRep(pages, t, i, idx, inLeft);
      PutSepRep(pages, HalfFor(t, idx, inLeft), l, sep, r);
      NodeSplitOutcome(t, Step(Split(l, sep, r), al, {}), al, stale, idx, inLeft);
    }
  }

  lemma {:induction false} HalfRep(pages: Store, t: Tree, i: nat, idx: nat, inLeft: bool)
    requires t.NodeT? && |t.kids| == |t.keys| + 1 && idx < |t.keys| && i < |t.kids| && (inLeft <==> i <= idx)
    requires RepAll(pages, t.kids[..i]) && RepAll(pages, t.kids[i + 1..])
    ensures RepAll(pages, OtherHalf(t, idx, inLeft).kids)
    ensures var b, j := HalfFor(t, idx, inLeft).kids, if inLeft then i else i - idx - 1;
      RepAll(pages, b[..j]) && RepAll(pages, b[j + 1..])
  {
    var before, after := t.kids[..i], t.kids[i + 1..];
    if inLeft {
      var b := t.kids[..idx + 1];
      assert b[..i] == before && b[i + 1..] == after[..idx - i] && t.kids[idx + 1..] == after[idx - i..];
      assert after[0..idx - i] == after[..idx - i] && after[idx - i..|after|] == after[idx - i..];
      RepAllParts(pages, after, 0, idx - i);
      RepAllParts(pages, after, idx - i, |after|);
    } else {
      var b, j := t.kids[idx + 1..], i - idx - 1;
      assert b[..j] == before[idx + 1..] && b[j + 1..] == after && t.kids[..idx + 1] == before[..idx + 1];
      assert before[0..idx + 1] == before[..idx + 1] && before[idx + 1..|before|] == before[idx + 1..];
      RepAllParts(pages, before, 0, idx + 1);
      RepAllParts(pages, before, idx + 1, |before|);
    }
  }

  /** The split pages hold the split nodes. */
  lemma {:induction false} NodeSplitShows(mid: Store, t: Tree, lo: Option<Bytes>, hi: Option<Bytes>, i: nat, l: Tree, sep: Bytes, r: Tree,
                                          al: Alloc, stale: set<PageId>, parent: PageId, lsn: nat, pages': Store)
    requires t.NodeT? && i < |t.kids| && OthersStay(mid, t, i) && Rep(mid, l) && Rep(mid, r) && KeysOk(t.keys, lo, hi)
    requires l.pid == t.kids[i].pid && i == Route(t.keys, sep) && (forall j | 0 <= j < |t.keys| :: t.keys[j] != sep)
    requires parent in mid && NextId(al) !in mid && OutDistinct(NodeSplit(t, l, sep, r, al, stale).out)
    requires var halves := NodeHalves(SepsIn(mid[t.pid].body), sep, l.pid, r.pid);
      halves.Some? && NodeSplitStore(mid, t.pid, NextId(al), parent, halves.value, lsn, stale, pages')
    ensures var st := NodeSplit(t, l, sep, r, al, stale);
      && st.out.Split? && Shows(pages', st.out, Some(st.out.sep), t.pid, NextId(al))
      && Untouched(mid, pages', {t.pid, NextId(al)})
      && pages'.Keys == mid.Keys + {NextId(al)}
  {
    var halves := NodeHalves(SepsIn(mid[t.pid].body), sep, l.pid, r.pid).value;
    NodeHalvesOut(SepsIn(mid[t.pid].body), t, lo, hi, l, sep, r, al, stale);
    HalvesRep(mid, t, lo, hi, i, l, sep, r, al, stale);
    SplitStoreShows(mid, pages', NodeSplit(t, l, sep, r, al, stale).out, halves, parent, lsn, stale);
  }

  lemma {:induction false} SplitStoreShows(mid: Store, pages': Store, out: Outcome, halves: (seq<Sep>, seq<Sep>), parent: PageId, lsn: nat,
                                           stale: set<PageId>)
    requires out.Split? && out.left.NodeT? && out.right.NodeT? && OutDistinct(out)
    requires RepAll(mid, out.left.kids) && RepAll(mid, out.right.kids)
    requires out.left.pid in mid && parent in mid && out.right.pid !in mid
    requires mid[out.left.pid].internal == out.left.internal && out.right.internal == (out.right.pid in stale)
    requires Matches(halves.0, out.left.keys, out.left.kids) && Matches(halves.1, out.right.keys, out.right.kids)
    requires NodeSplitStore(mid, out.left.pid, out.right.pid, parent, halves, lsn, stale, pages')
    ensures Shows(pages', out, Some(out.sep), out.left.pid, out.right.pid)
    ensures Untouched(mid, pages', {out.left.pid, out.right.pid})
    ensures pages'.Keys == mid.Keys + {out.right.pid}
  {
    SplitKidsStay(mid, pages', out, {out.left.pid, out.right.pid});
  }

  lemma {:induction false} SplitKidsStay(mid: Store, pages': Store, out: Outcome, except: set<PageId>)
    requires out.Split? && out.left.NodeT? && out.right.NodeT? && OutDistinct(out) && except == {out.left.pid, out.right.pid}
    requires RepAll(mid, out.left.kids) && RepAll(mid, out.right.kids) && Untouched(mid, pages', except)
    ensures RepAll(pages', out.left.kids) && RepAll(pages', out.right.kids)
  {
    RepAllFrame(mid, pages', out.left.kids, except);
    RepAllFrame(mid, pages', out.right.kids, except);
  }

  // -------------------------------------------------- absorbing a split child

  /** A child of t was written and split: what the code above it starts from. */
  ghost predicate KidSplit(pages: Store, mid: Store, t: Tree, lo: Option<Bytes>, hi: Option<Bytes>, i: nat, st: Step, al: Alloc) {
    && t.NodeT? && |t.kids| == |t.keys| + 1 && |t.keys| >= 1 && i < |t.kids| && KeysOk(t.keys, lo, hi) && Distinct(t) && Rep(pages, t)
    && st.out.Split? && Framed(Pids(t.kids[i]), pages.Keys, st)
    && Wrote(pages, t.kids[i], st, mid, al, Some(st.out.sep), st.out.left.pid, st.out.right.pid)
    && st.out.left.pid == t.kids[i].pid
    && Above(LoOf(t.keys, lo, i), st.out.sep) && Below(st.out.sep, HiOf(t.keys, hi, i))
  }

  /** Its consequences for the node's own page. */
  lemma {:induction false} BelowReady(pages: Store, mid: Store, t: Tree, lo: Option<Bytes>, hi: Option<Bytes>, i: nat, st: Step, al: Alloc)
    requires KidSplit(pages, mid, t, lo, hi, i, st, al)
    ensures OthersStay(mid, t, i) && KeysOk(t.keys, lo, hi) && Rep(mid, st.out.left) && Rep(mid, st.out.right)
    ensures Route(t.keys, st.out.sep) == i && (forall j | 0 <= j < |t.keys| :: t.keys[j] != st.out.sep)
    ensures t.pid !in PidsAll(t.kids[..i]) + Pids(st.out.left) + Pids(st.out.right) + PidsAll(t.kids[i + 1..])
    ensures Pids(t.kids[i]) <= Pids(t) && Pids(t) <= pages.Keys && mid.Keys == pages.Keys + st.taken && Sound(al, mid.Keys)
    ensures KeysOf(SepsIn(mid[t.pid].body)) == t.keys && mid[t.pid].body.NodeB?
  {
    KidWritten(pages, mid, t, i, st.taken);
    FreshKey(t.keys, lo, hi, i, st.out.sep);
    TopApart(t, i, st, pages.Keys);
    MatchingKeys(SepsIn(mid[t.pid].body), t.keys, t.kids);
  }

  lemma {:induction false} MatchingKeys(seps: seq<Sep>, keys: seq<Bytes>, kids: seq<Tree>)
    requires Matches(seps, keys, kids)
    ensures KeysOf(seps) == keys
  {
  }

  lemma {:induction false} TopApart(t: Tree, i: nat, st: Step, used: set<PageId>)
    requires t.NodeT? && i < |t.kids| && Distinct(t) && Pids(t) <= used && st.out.Split? && Framed(Pids(t.kids[i]), used, st)
    ensures t.pid !in PidsAll(t.kids[..i]) + Pids(st.out.left) + Pids(st.out.right) + PidsAll(t.kids[i + 1..])
  {
    PidsAt(t.kids, i);
  }

  lemma {:induction false} ComposeWrote(pages: Store, mid: Store, kid: set<PageId>, taken: set<PageId>, t: Tree, up: Step, pages': Store,
                                        al: Alloc, extra: Option<Bytes>, left: PageId, right: PageId)
    requires Untouched(pages, mid, kid + taken) && kid <= Pids(t) && mid.Keys == pages.Keys + taken
    requires Wrote(mid, t, up, pages', al, extra, left, right)
    ensures Wrote(pages, t, up.(taken := taken + up.taken), pages', al, extra, left, right)
  {
  }

  lemma {:induction false} TakenStep(t: Tree, i: nat, st: Step, isRoot: bool, stale: set<PageId>)
    requires t.NodeT? && |t.kids| == |t.keys| + 1 && i < |t.kids| && st.out.Split? && Adequate(FreeKeys(t.keys), SepSize(st.out.sep))
    ensures var b := PutSep(Body(t.keys, t.kids), st.out.left, st.out.sep, st.out.right);
      WriteNode(t, i, st, isRoot, stale) == st.(out := if b.None? then Crash else Whole(t.(keys := b.value.keys, kids := b.value.kids)))
  {
  }

  lemma {:induction false} AbsorbedWrote(pages: Store, mid: Store, kid: set<PageId>, t: Tree, st: Step, c: Tree, page: Page, al: Alloc,
                                         pages': Store)
    requires Untouched(pages, mid, kid + st.taken) && kid <= Pids(t) && Pids(t) <= pages.Keys && mid.Keys == pages.Keys + st.taken
    requires pages' == mid[t.pid := page] && Rep(pages', c) && al == st.alloc && t.pid in Pids(t)
    ensures Wrote(pages, t, st.(out := Whole(c)), pages', al, None, 0, 0)
  {
  }

  /** The separator goes to the node's page. */
  lemma {:induction false} AbsorbTakes(pages: Store, mid: Store, t: Tree, lo: Option<Bytes>, hi: Option<Bytes>, i: nat, st: Step, al: Alloc,
                                       isRoot: bool, stale: set<PageId>, lsn: nat, pages': Store)
    requires KidSplit(pages, mid, t, lo, hi, i, st, al) && Adequate(FreeKeys(t.keys), SepSize(st.out.sep)) && t.pid in mid
    ensures var after, up := BodyAfter(mid[t.pid].body, st.out.sep, st.out.left.pid, st.out.right.pid), WriteNode(t, i, st, isRoot, stale);
      && (after.None? <==> up.out.Crash?)
      && (after.Some? && pages' == mid[t.pid := mid[t.pid].(lsn := lsn, body := after.value)] ==>
            Wrote(pages, t, up, pages', al, None, 0, 0) && up.out.Whole? && up.out.t.pid == t.pid)
  {
    BelowReady(pages, mid, t, lo, hi, i, st, al);
    NodeTakes(mid, t, i, st.out.left, st.out.sep, st.out.right, lsn, pages');
    TakenStep(t, i, st, isRoot, stale);
    var after, up := BodyAfter(mid[t.pid].body, st.out.sep, st.out.left.pid, st.out.right.pid), WriteNode(t, i, st, isRoot, stale);
    if after.Some? && pages' == mid[t.pid := mid[t.pid].(lsn := lsn, body := after.value)] {
      AbsorbedWrote(pages, mid, Pids(t.kids[i]), t, st, up.out.t, mid[t.pid].(lsn := lsn, body := after.value), al, pages');
    }
  }

  lemma {:induction false} SplitIsDistinct(pages: Store, mid: Store, t: Tree, lo: Option<Bytes>, hi: Option<Bytes>, i: nat, st: Step,
                                           al: Alloc,
                                           al': Alloc, busy: set<PageId>, stale: set<PageId>)
    requires KidSplit(pages, mid, t, lo, hi, i, st, al) && mid.Keys <= busy && Sound(al', busy)
    ensures var up := NodeSplit(t, st.out.left, st.out.sep, st.out.right, al', stale);
      OutDistinct(up.out) && OutPids(up.out) <= Pids(t) + st.taken + {NextId(al')}
  {
    BelowReady(pages, mid, t, lo, hi, i, st, al);
    NodeSplitFrame(t, st.out.left, st.out.sep, st.out.right, al', stale, pages.Keys, st.taken, busy);
  }

  lemma {:induction false} SplitWrote(pages: Store, mid: Store, t: Tree, lo: Option<Bytes>, hi: Option<Bytes>, i: nat, st: Step, al: Alloc,
                                      stale: set<PageId>, parent: PageId, lsn: nat, pages': Store)
    requires KidSplit(pages, mid, t, lo, hi, i, st, al) && t.pid in mid && parent in mid
    requires var halves := NodeHalves(SepsIn(mid[t.pid].body), st.out.sep, st.out.left.pid, st.out.right.pid);
      halves.Some? && NodeSplitStore(mid, t.pid, NextId(al), parent, halves.value, lsn, stale, pages')
    ensures var up := NodeSplit(t, st.out.left, st.out.sep, st.out.right, al, stale);
      up.out.Split? && Wrote(mid, t, up, pages', Taken(al), Some(up.out.sep), t.pid, NextId(al))
  {
    BelowReady(pages, mid, t, lo, hi, i, st, al);
    AllocateSound(al, mid.Keys);
    SplitIsDistinct(pages, mid, t, lo, hi, i, st, al, al, mid.Keys, stale);
    NodeSplitShows(mid, t, lo, hi, i, st.out.left, st.out.sep, st.out.right, al, stale, parent, lsn, pages');
  }

  /** The node splits below its parent. */
  lemma {:induction false} AbsorbSplits(pages: Store, mid: Store, t: Tree, lo: Option<Bytes>, hi: Option<Bytes>, i: nat, st: Step,
                                        al: Alloc,
                                        stale: set<PageId>, parent: PageId, lsn: nat, pages': Store)
    requires KidSplit(pages, mid, t, lo, hi, i, st, al) && !Adequate(FreeKeys(t.keys), SepSize(st.out.sep)) && t.pid in mid && parent in mid
    requires var halves := NodeHalves(SepsIn(mid[t.pid].body), st.out.sep, st.out.left.pid, st.out.right.pid);
      halves.Some? && NodeSplitStore(mid, t.pid, NextId(al), parent, halves.value, lsn, stale, pages')
    ensures var up := WriteNode(t, i, st, false, stale);
      up.out.Split? && Wrote(pages, t, up, pages', Taken(al), Some(up.out.sep), t.pid, NextId(al))
  {
    SplitWrote(pages, mid, t, lo, hi, i, st, al, stale, parent, lsn, pages');
    PidsAt(t.kids, i);
    var up := NodeSplit(t, st.out.left, st.out.sep, st.out.right, al, stale);
    ComposeWrote(pages, mid, Pids(t.kids[i]), st.taken, t, up, pages', Taken(al), Some(up.out.sep), t.pid, NextId(al));
  }

  lemma {:induction false} SplitCrashes(pages: Store, mid: Store, t: Tree, lo: Option<Bytes>, hi: Option<Bytes>, i: nat, st: Step,
                                        al: Alloc,
                                        al': Alloc, stale: set<PageId>)
    requires KidSplit(pages, mid, t, lo, hi, i, st, al) && t.pid in mid
    ensures var halves, out := NodeHalves(SepsIn(mid[t.pid].body), st.out.sep, st.out.left.pid, st.out.right.pid),
                               NodeSplit(t, st.out.left, st.out.sep, st.out.right, al', stale).out;
      && (halves.None? <==> out.Crash?) && !out.Whole?
      && (out.Split? ==> var seps := SepsIn(mid[t.pid].body);
            var idx := SplitIndex(SepSizes(KeysOf(seps)));
            idx < |seps| && out.sep == seps[idx].key)
  {
    BelowReady(pages, mid, t, lo, hi, i, st, al);
    NodeHalvesOut(SepsIn(mid[t.pid].body), t, lo, hi, st.out.left, st.out.sep, st.out.right, al', stale);
  }

  lemma {:induction false} AddPageStays(mid: Store, t: Tree, i: nat, l: Tree, r: Tree, root: PageId, page: Page)
    requires t.NodeT? && i < |t.kids| && OthersStay(mid, t, i) && Rep(mid, l) && Rep(mid, r) && root !in mid
    ensures OthersStay(mid[root := page], t, i) && Rep(mid[root := page], l) && Rep(mid[root := page], r)
  {
    assert Untouched(mid, mid[root := page], {});
    PartsStay(mid, mid[root := page], t.kids[..i], l, r, t.kids[i + 1..], {});
  }

  /** The split below a page just taken for the new root, which it leaves empty. */
  lemma {:induction false} RootHalves(pages: Store, mid: Store, t: Tree, lo: Option<Bytes>, hi: Option<Bytes>, i: nat, st: Step, al: Alloc,
                                      stale: set<PageId>, page: Page, mid2: Store, lsn: nat)
    requires KidSplit(pages, mid, t, lo, hi, i, st, al) && t.pid in mid
    requires page.body.Empty?
    requires var halves := NodeHalves(SepsIn(mid[t.pid].body), st.out.sep, st.out.left.pid, st.out.right.pid);
      halves.Some? && NodeSplitStore(mid[NextId(al) := page], t.pid, NextId(Taken(al)), NextId(al), halves.value, lsn, stale, mid2)
    ensures var root, sp := NextId(al), NodeSplit(t, st.out.left, st.out.sep, st.out.right, Taken(al), stale);
      && root !in mid && sp.out.Split? && root in mid2 && mid2[root].body.Empty?
      && root !in Pids(t) + sp.taken && root !in OutPids(sp.out)
      && Wrote(mid[root := page], t, sp, mid2, Taken(Taken(al)), Some(sp.out.sep), t.pid, NextId(Taken(al)))
  {
    var root := NextId(al);
    BelowReady(pages, mid, t, lo, hi, i, st, al);
    TwoFresh(al, mid.Keys);
    AddPageStays(mid, t, i, st.out.left, st.out.right, root, page);
    SplitIsDistinct(pages, mid, t, lo, hi, i, st, al, Taken(al), mid.Keys + {root}, stale);
    NodeSplitShows(mid[root := page], t, lo, hi, i, st.out.left, st.out.sep, st.out.right, Taken(al), stale, root, lsn, mid2);
  }

  /** An internal root splits under a new root. */
  lemma {:induction false} AbsorbRoot(pages: Store, mid: Store, t: Tree, lo: Option<Bytes>, hi: Option<Bytes>, i: nat, st: Step, al: Alloc,
                                      stale: set<PageId>, page: Page, mid2: Store, lsn: nat, lsn': nat, pages': Store)
    requires KidSplit(pages, mid, t, lo, hi, i, st, al) && !Adequate(FreeKeys(t.keys), SepSize(st.out.sep)) && t.pid in mid
    requires page.body.Empty? && page.internal == (NextId(al) in stale)
    requires var halves := NodeHalves(SepsIn(mid[t.pid].body), st.out.sep, st.out.left.pid, st.out.right.pid);
      halves.Some? && NodeSplitStore(mid[NextId(al) := page], t.pid, NextId(Taken(al)), NextId(al), halves.value, lsn, stale, mid2)
    requires var up := NodeSplit(t, st.out.left, st.out.sep, st.out.right, Taken(al), stale);
      up.out.Split? ==>
        var after := BodyAfter(Empty, up.out.sep, t.pid, NextId(Taken(al)));
        after.Some? && NextId(al) in mid2 && pages' == mid2[NextId(al) := mid2[NextId(al)].(lsn := lsn', body := after.value)]
    ensures var up := WriteNode(t, i, st, true, stale);
      up.out.Whole? && up.out.t.pid == NextId(al) && Wrote(pages, t, up, pages', Taken(Taken(al)), None, 0, 0)
  {
    RootHalves(pages, mid, t, lo, hi, i, st, al, stale, page, mid2, lsn);
    PidsAt(t.kids, i);
    var root, right, sp := NextId(al), NextId(Taken(al)), NodeSplit(t, st.out.left, st.out.sep, st.out.right, Taken(al), stale);
    RootGrown(mid, mid[root := page], t, sp, mid2, root, page, Taken(Taken(al)), sp.out.sep, t.pid, right, lsn', pages');
    ComposeWrote(pages, mid, Pids(t.kids[i]), st.taken, t, Grow(root, page.internal, sp), pages', Taken(Taken(al)), None, 0, 0);
  }

  /** When an internal root split crashes. */
  lemma {:induction false} AbsorbRootOutcome(pages: Store, mid: Store, t: Tree, lo: Option<Bytes>, hi: Option<Bytes>, i: nat, st: Step,
                                             al: Alloc, stale: set<PageId>)
    requires KidSplit(pages, mid, t, lo, hi, i, st, al) && t.pid in mid && !Adequate(FreeKeys(t.keys), SepSize(st.out.sep))
    ensures var seps := SepsIn(mid[t.pid].body);
      var idx := SplitIndex(SepSizes(KeysOf(seps)));
      WriteNode(t, i, st, true, stale).out.Crash? <==>
        || NodeHalves(seps, st.out.sep, st.out.left.pid, st.out.right.pid).None?
        || BodyAfter(Empty, seps[idx].key, t.pid, NextId(Taken(al))).None?
  {
    SplitCrashes(pages, mid, t, lo, hi, i, st, al, Taken(al), stale);
    var sp := NodeSplit(t, st.out.left, st.out.sep, st.out.right, Taken(al), stale);
    if sp.out.Split? {
      GrowBroken(Empty, sp, NextId(al), NextId(al) in stale, t.pid, NextId(Taken(al)));
    }
  }

  // ------------------------------------------------------------- the descent

  /** What the descent may use about the child it enters. */
  lemma {:induction false} EnterKid(pages: Store, t: Tree, h: nat, lo: Option<Bytes>, hi: Option<Bytes>, k: Bytes)
    requires t.NodeT? && Rep(pages, t) && WF(t, h, lo, hi) && Shaped(t) && Distinct(t) && InRange(k, lo, hi)
    ensures var i := Route(t.keys, k);
      && Rep(pages, t.kids[i]) && Shaped(t.kids[i]) && Distinct(t.kids[i]) && Pids(t.kids[i]) <= Pids(t) && t.pid !in Pids(t.kids[i])
      && h > 0 && WF(t.kids[i], h - 1, LoOf(t.keys, lo, i), HiOf(t.keys, hi, i)) && InRange(k, LoOf(t.keys, lo, i), HiOf(t.keys, hi, i))
    ensures pages[t.pid].internal && pages[t.pid].body.NodeB? && Matches(SepsIn(pages[t.pid].body), t.keys, t.kids)
    ensures SortedKeys(t.keys) && KeysOk(t.keys, lo, hi) && |t.keys| >= 1 && t.pid in Pids(t)
  {
    var i := Route(t.keys, k);
    PidsAt(t.kids, i);
    DistinctKid(t.kids, i);
    RouteInRange(t.keys, lo, hi, k);
  }

  /** A child that was rewritten in place. */
  lemma {:induction false} AbsorbWhole(pages: Store, mid: Store, t: Tree, i: nat, st: Step, al: Alloc, isRoot: bool, stale: set<PageId>)
    requires t.NodeT? && |t.kids| == |t.keys| + 1 && i < |t.kids| && Rep(pages, t) && Distinct(t)
    requires st.out.Whole? && st.taken !! pages.Keys && Wrote(pages, t.kids[i], st, mid, al, None, 0, 0) && st.out.t.pid == t.kids[i].pid
    ensures var up := WriteNode(t, i, st, isRoot, stale);
      up.out.Whole? && up.out.t.pid == t.pid && Wrote(pages, t, up, mid, al, None, 0, 0)
  {
    KidWritten(pages, mid, t, i, st.taken);
    NodeWhole(mid, t, i, st.out.t);
  }

  lemma {:induction false} KidSplitFacts(pages: Store, mid: Store, t: Tree, h: nat, lo: Option<Bytes>, hi: Option<Bytes>, k: Bytes,
                                         v: Bytes,
                                         al: Alloc, stale: set<PageId>, al': Alloc, extra: Option<Bytes>, l: PageId, r: PageId)
    requires t.NodeT? && Rep(pages, t) && WF(t, h, lo, hi) && Shaped(t) && Distinct(t) && Sound(al, pages.Keys)
    requires var i := Route(t.keys, k);
      var st := Write(t.kids[i], k, v, false, al, stale);
      Wrote(pages, t.kids[i], st, mid, al', extra, l, r)
    ensures var i := Route(t.keys, k);
      var st := Write(t.kids[i], k, v, false, al, stale);
      && st.taken !! pages.Keys
      && (st.out.Whole? ==> extra.None? && st.out.t.pid == t.kids[i].pid)
      && (st.out.Split? ==>
            && KidSplit(pages, mid, t, lo, hi, i, st, al')
            && extra == Some(st.out.sep) && l == st.out.left.pid && r == st.out.right.pid)
  {
    RepPids(pages, t);
    NodeReady(t, h, lo, hi, k, v, al, stale, pages.Keys);
    WriteKeepsPage(t.kids[Route(t.keys, k)], k, v, al, stale);
  }
}
