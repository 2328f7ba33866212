/** Page ownership: a write touches its own subtree and freshly allocated pages, and never shares a page. */
module TreeFrame {
  import opened Pages
  import opened Allocator
  import opened Trees
  import opened TreeStructure

  ghost function OutPids(out: Outcome): set<PageId> {
    match out
    case Crash => {}
    case Whole(c) => Pids(c)
    case Split(l, _, r) => Pids(l) + Pids(r)
  }

  ghost predicate OutDistinct(out: Outcome) {
    match out
    case Crash => true
    case Whole(c) => Distinct(c)
    case Split(l, _, r) => Distinct(l) && Distinct(r) && Pids(l) !! Pids(r)
  }

  /** The written pages come from the subtree's pages `own` and from pages outside `used`. */
  ghost predicate Framed(own: set<PageId>, used: set<PageId>, st: Step) {
    && st.taken !! used
    && Sound(st.alloc, used + st.taken)
    && OutPids(st.out) <= own + st.taken
    && OutDistinct(st.out)
  }

  lemma {:induction false} ReplaceOneFrame(kids: seq<Tree>, i: nat, m: seq<Tree>, used: set<PageId>, taken: set<PageId>)
    requires i < |kids| && DistinctAll(kids) && PidsAll(kids) <= used && taken !! used
    requires DistinctAll(m) && PidsAll(m) <= Pids(kids[i]) + taken
    ensures var ks := kids[..i] + m + kids[i + 1..];
      DistinctAll(ks) && PidsAll(ks) <= PidsAll(kids) + taken
  {
    PidsAt(kids, i);
    PidsOne(kids[i]);
    assert kids == kids[..i] + [kids[i]] + kids[i + 1..];
    DistinctThree(kids[..i], [kids[i]], kids[i + 1..]);
    DistinctThree(kids[..i], m, kids[i + 1..]);
    PidsThree(kids[..i], m, kids[i + 1..]);
  }

  /** Installing one or two children in place of the written one. */
  lemma {:induction false} ReplaceFrame(kids: seq<Tree>, i: nat, l: Tree, r: Tree, used: set<PageId>, taken: set<PageId>)
    requires i < |kids| && DistinctAll(kids) && PidsAll(kids) <= used && taken !! used
    requires Distinct(l) && Distinct(r) && Pids(l) !! Pids(r) && Pids(l) + Pids(r) <= Pids(kids[i]) + taken
    ensures DistinctAll(kids[i := l]) && PidsAll(kids[i := l]) <= PidsAll(kids) + taken
    ensures var ks := kids[..i] + [l, r] + kids[i + 1..];
      DistinctAll(ks) && PidsAll(ks) <= PidsAll(kids) + taken
  {
    PidsOne(l);
    DistinctOne(l);
    ReplaceOneFrame(kids, i, [l], used, taken);
    assert kids[..i] + [l] + kids[i + 1..] == kids[i := l];
    PidsTwo(l, r);
    DistinctTwo(l, r);
    ReplaceOneFrame(kids, i, [l, r], used, taken);
  }

  lemma {:induction false} ReplaceKidFrame(kids: seq<Tree>, i: nat, c: Tree, used: set<PageId>, taken: set<PageId>)
    requires i < |kids| && DistinctAll(kids) && PidsAll(kids) <= used && taken !! used
    requires Distinct(c) && Pids(c) <= Pids(kids[i]) + taken
    ensures DistinctAll(kids[i := c]) && PidsAll(kids[i := c]) <= PidsAll(kids) + taken
  {
    PidsOne(c);
    DistinctOne(c);
    ReplaceOneFrame(kids, i, [c], used, taken);
    assert kids[..i] + [c] + kids[i + 1..] == kids[i := c];
  }
}

/** Where separators go, and page ownership of a whole write. */
module TreeRoutes {
  import opened Bytes
  import opened Assoc
  import opened Pages
  import opened Allocator
  import opened Trees
  import opened TreeStructure
  import opened TreeFrame

  lemma {:induction false} RouteUnique(keys: seq<Bytes>, k: Bytes, i: nat)
    requires i <= |keys|
    requires forall j | 0 <= j < i :: !Lt(k, keys[j])
    requires i < |keys| ==> Lt(k, keys[i])
    ensures Route(keys, k) == i
  {
  }

  /** A separator strictly between the bounds of child i goes to gap i. */
  lemma {:induction false} RouteSep(keys: seq<Bytes>, lo: Option<Bytes>, hi: Option<Bytes>, i: nat, sep: Bytes)
    requires KeysOk(keys, lo, hi) && i <= |keys|
    requires Above(LoOf(keys, lo, i), sep) && Below(sep, HiOf(keys, hi, i))
    ensures Route(keys, sep) == i
    ensures Above(lo, sep) && Below(sep, hi)
  {
    OrderFacts();
    RouteUnique(keys, sep, i);
  }

  lemma {:induction false} RouteInRange(keys: seq<Bytes>, lo: Option<Bytes>, hi: Option<Bytes>, k: Bytes)
    requires InRange(k, lo, hi)
    ensures InRange(k, LoOf(keys, lo, Route(keys, k)), HiOf(keys, hi, Route(keys, k)))
  {
  }

  lemma {:induction false} RouteHalves(keys: seq<Bytes>, lo: Option<Bytes>, hi: Option<Bytes>, k: Bytes, idx: nat)
    requires KeysOk(keys, lo, hi) && idx < |keys|
    ensures var i := Route(keys, k);
      && (Lt(k, keys[idx]) <==> i <= idx)
      && (i <= idx ==> Route(keys[..idx], k) == i)
      && (i > idx ==> Route(keys[idx + 1..], k) == i - idx - 1)
  {
    OrderFacts();
    var i := Route(keys, k);
    if i <= idx {
      RouteUnique(keys[..idx], k, i);
    } else {
      RouteUnique(keys[idx + 1..], k, i - idx - 1);
    }
  }

  /** The promoted separator lies strictly inside the bounds of the subtree, whatever else went wrong. */
  lemma {:induction false} SepInside(t: Tree, h: nat, lo: Option<Bytes>, hi: Option<Bytes>, k: Bytes, v: Bytes, al: Alloc,
                                     stale: set<PageId>)
    requires WF(t, h, lo, hi) && Shaped(t)
    ensures var st := Write(t, k, v, false, al, stale);
      st.out.Split? ==> Above(lo, st.out.sep) && Below(st.out.sep, hi)
    decreases t
  {
    OrderFacts();
    var st := Write(t, k, v, false, al, stale);
    if st.out.Split? {
      if t.LeafT? {
        var idx := SplitIndex(t.page.slots);
        assert idx >= 1 && st.out.sep == t.page.elems[idx].key;
        assert Lt(t.page.elems[0].key, t.page.elems[idx].key);
      } else {
        assert st.out.sep in t.keys;
      }
    }
  }

  lemma {:induction false} PutSepFrame(b: Body, l: Tree, sep: Bytes, r: Tree, used: set<PageId>, taken: set<PageId>)
    requires |b.kids| == |b.keys| + 1 && DistinctAll(b.kids) && PidsAll(b.kids) <= used && taken !! used
    requires Distinct(l) && Distinct(r) && Pids(l) !! Pids(r)
    requires Pids(l) + Pids(r) <= Pids(b.kids[Route(b.keys, sep)]) + taken
    ensures var b' := PutSep(b, l, sep, r);
      b'.Some? ==>
        && |b'.value.kids| == |b'.value.keys| + 1
        && DistinctAll(b'.value.kids) && PidsAll(b'.value.kids) <= PidsAll(b.kids) + taken
  {
    ReplaceFrame(b.kids, Route(b.keys, sep), l, r, used, taken);
  }

  lemma {:induction false} LeafSplitFrame(t: Tree, k: Bytes, v: Bytes, al: Alloc, stale: set<PageId>, used: set<PageId>)
    requires t.LeafT? && |t.page.slots| == |t.page.elems| && t.pid in used && Sound(al, used)
    ensures Framed({t.pid}, used, LeafSplit(t, k, v, al, stale))
  {
    AllocateSound(al, used);
  }

  lemma {:induction false} GrowFrame(own: set<PageId>, used: set<PageId>, root: PageId, internal: bool, st: Step)
    requires own <= used && root !in used && Framed(own, used + {root}, st)
    ensures Framed(own, used, Grow(root, internal, st))
  {
    assert used + {root} + st.taken == used + (st.taken + {root});
    if st.out.Split? {
      var l, r := st.out.left, st.out.right;
      PidsOne(l);
      DistinctOne(l);
      PidsTwo(l, r);
      DistinctTwo(l, r);
    }
  }

  /** The two halves of a split node, one of which received the pending separator. */
  lemma {:induction false} HalvesFrame(t: Tree, idx: nat, l: Tree, sep: Bytes, r: Tree, used: set<PageId>, taken: set<PageId>)
    requires t.NodeT? && |t.kids| == |t.keys| + 1 && SortedKeys(t.keys) && idx < |t.keys|
    requires Distinct(t) && Pids(t) <= used && taken !! used
    requires Distinct(l) && Distinct(r) && Pids(l) !! Pids(r)
    requires Pids(l) + Pids(r) <= Pids(t.kids[Route(t.keys, sep)]) + taken
    ensures var left, right := LeftBody(t, idx), RightBody(t, idx);
      var inLeft := Lt(sep, t.keys[idx]);
      var half := PutSep(if inLeft then left else right, l, sep, r);
      half.Some? ==>
        var lk, rk := if inLeft then half.value.kids else left.kids, if inLeft then right.kids else half.value.kids;
        && DistinctAll(lk) && DistinctAll(rk) && PidsAll(lk) !! PidsAll(rk)
        && PidsAll(lk) + PidsAll(rk) <= PidsAll(t.kids) + taken
  {
    var left, right := LeftBody(t, idx), RightBody(t, idx);
    assert t.kids == left.kids + right.kids;
    PidsConcat(left.kids, right.kids);
    DistinctConcat(left.kids, right.kids);
    RouteHalves(t.keys, None, None, sep, idx);
    var half := if Lt(sep, t.keys[idx]) then left else right;
    assert half.kids[Route(half.keys, sep)] == t.kids[Route(t.keys, sep)];
    PutSepFrame(half, l, sep, r, used, taken);
  }

  lemma {:induction false} NodeSplitFrame(t: Tree, l: Tree, sep: Bytes, r: Tree, al: Alloc, stale: set<PageId>,
                                          used: set<PageId>, taken: set<PageId>, busy: set<PageId>)
    requires t.NodeT? && |t.kids| == |t.keys| + 1 && SortedKeys(t.keys)
    requires Distinct(t) && Pids(t) <= used && taken !! used && used + taken <= busy && Sound(al, busy)
    requires Distinct(l) && Distinct(r) && Pids(l) !! Pids(r)
    requires Pids(l) + Pids(r) <= Pids(t.kids[Route(t.keys, sep)]) + taken
    ensures Framed(Pids(t) + taken, busy, NodeSplit(t, l, sep, r, al, stale))
  {
    AllocateSound(al, busy);
    var idx := SplitIndex(SepSizes(t.keys));
    if idx < |t.keys| {
      HalvesFrame(t, idx, l, sep, r, used, taken);
      var st := NodeSplit(t, l, sep, r, al, stale);
      if st.out.Split? {
        PairFrame(st.out.left, st.out.right, PidsAll(t.kids) + taken, t.pid, NextId(al));
      }
    }
  }

  lemma {:induction false} PairFrame(a: Tree, b: Tree, own: set<PageId>, pid: PageId, rp: PageId)
    requires a.NodeT? && b.NodeT? && a.pid == pid && b.pid == rp && pid != rp && pid !in own && rp !in own
    requires DistinctAll(a.kids) && DistinctAll(b.kids) && PidsAll(a.kids) !! PidsAll(b.kids)
    requires PidsAll(a.kids) + PidsAll(b.kids) <= own
    ensures Distinct(a) && Distinct(b) && Pids(a) !! Pids(b) && Pids(a) + Pids(b) <= own + {pid, rp}
  {
  }

  /** What the node above a written child does stays inside the frame. */
  lemma {:induction false} WriteNodeFrame(t: Tree, i: nat, st: Step, isRoot: bool, stale: set<PageId>, used: set<PageId>)
    requires t.NodeT? && |t.kids| == |t.keys| + 1 && SortedKeys(t.keys) && i < |t.kids|
    requires Distinct(t) && Pids(t) <= used
    requires Framed(Pids(t.kids[i]), used, st)
    requires st.out.Split? ==> Route(t.keys, st.out.sep) == i
    ensures Framed(Pids(t), used, WriteNode(t, i, st, isRoot, stale))
  {
    match st.out
    case Crash =>
    case Whole(c) =>
      ReplaceKidFrame(t.kids, i, c, used, st.taken);
    case Split(l, sep, r) =>
      if Adequate(FreeKeys(t.keys), SepSize(sep)) {
        PutSepFrame(Body(t.keys, t.kids), l, sep, r, used, st.taken);
      } else {
        NodeOverflowFrame(t, st, isRoot, stale, used);
      }
  }

  lemma {:induction false} NodeOverflowFrame(t: Tree, st: Step, isRoot: bool, stale: set<PageId>, used: set<PageId>)
    requires t.NodeT? && |t.kids| == |t.keys| + 1 && SortedKeys(t.keys) && st.out.Split?
    requires Distinct(t) && Pids(t) <= used
    requires Framed(Pids(t.kids[Route(t.keys, st.out.sep)]), used, st)
    ensures var up := NodeOverflow(t, st.out.left, st.out.sep, st.out.right, isRoot, st.alloc, stale);
      Framed(Pids(t), used, up.(taken := st.taken + up.taken))
  {
    var l, sep, r := st.out.left, st.out.sep, st.out.right;
    var root := NextId(st.alloc);
    if isRoot {
      AllocateSound(st.alloc, used + st.taken);
      NodeSplitFrame(t, l, sep, r, Taken(st.alloc), stale, used, st.taken, used + st.taken + {root});
      GrowFrame(Pids(t) + st.taken, used + st.taken, root, root in stale, NodeSplit(t, l, sep, r, Taken(st.alloc), stale));
    } else {
      NodeSplitFrame(t, l, sep, r, st.alloc, stale, used, st.taken, used + st.taken);
    }
    var up := NodeOverflow(t, l, sep, r, isRoot, st.alloc, stale);
    assert used + st.taken + up.taken == used + (st.taken + up.taken);
  }

  /** A write never shares a page and never touches a page in use outside its subtree. */
  lemma {:induction false} WriteFrame(t: Tree, h: nat, lo: Option<Bytes>, hi: Option<Bytes>, k: Bytes, v: Bytes, isRoot: bool,
                                      al: Alloc, stale: set<PageId>, used: set<PageId>)
    requires WF(t, h, lo, hi) && Shaped(t) && Distinct(t) && Pids(t) <= used && Sound(al, used)
    ensures Framed(Pids(t), used, Write(t, k, v, isRoot, al, stale))
    decreases t
  {
    if t.LeafT? {
      WriteLeafFrame(t, k, v, isRoot, al, stale, used);
    } else {
      var i := Route(t.keys, k);
      RoutedKid(t, h, lo, hi, k, used);
      WriteFrame(t.kids[i], h - 1, LoOf(t.keys, lo, i), HiOf(t.keys, hi, i), k, v, false, al, stale, used);
      RoutedFrame(t, h, lo, hi, k, v, isRoot, al, stale, used);
    }
  }

  /** What the write to a node may use about the child it routes to. */
  lemma {:induction false} RoutedKid(t: Tree, h: nat, lo: Option<Bytes>, hi: Option<Bytes>, k: Bytes, used: set<PageId>)
    requires t.NodeT? && WF(t, h, lo, hi) && Shaped(t) && Distinct(t) && Pids(t) <= used
    ensures var i := Route(t.keys, k);
      && h > 0 && |t.kids| == |t.keys| + 1
      && WF(t.kids[i], h - 1, LoOf(t.keys, lo, i), HiOf(t.keys, hi, i)) && Shaped(t.kids[i]) && Distinct(t.kids[i]) && Pids(t.kids[i]) <= used
  {
    var i := Route(t.keys, k);
    PidsAt(t.kids, i);
    DistinctKid(t.kids, i);
  }

  /** A node whose routed child was written inside its frame. */
  lemma {:induction false} RoutedFrame(t: Tree, h: nat, lo: Option<Bytes>, hi: Option<Bytes>, k: Bytes, v: Bytes, isRoot: bool,
                                       al: Alloc, stale: set<PageId>, used: set<PageId>)
    requires t.NodeT? && WF(t, h, lo, hi) && Shaped(t) && Distinct(t) && Pids(t) <= used && |t.kids| == |t.keys| + 1
    requires var i := Route(t.keys, k); Framed(Pids(t.kids[i]), used, Write(t.kids[i], k, v, false, al, stale))
    ensures Framed(Pids(t), used, Write(t, k, v, isRoot, al, stale))
  {
    var i := Route(t.keys, k);
    RoutedKid(t, h, lo, hi, k, used);
    SepInside(t.kids[i], h - 1, LoOf(t.keys, lo, i), HiOf(t.keys, hi, i), k, v, al, stale);
    KidFrame(t, h, lo, hi, i, Write(t.kids[i], k, v, false, al, stale), isRoot, stale, used);
  }

  lemma {:induction false} KidFrame(t: Tree, h: nat, lo: Option<Bytes>, hi: Option<Bytes>, i: nat, st: Step, isRoot: bool,
                                    stale: set<PageId>, used: set<PageId>)
    requires t.NodeT? && WF(t, h, lo, hi) && |t.kids| == |t.keys| + 1 && i < |t.kids| && Distinct(t) && Pids(t) <= used
    requires Framed(Pids(t.kids[i]), used, st)
    requires st.out.Split? ==> Above(LoOf(t.keys, lo, i), st.out.sep) && Below(st.out.sep, HiOf(t.keys, hi, i))
    ensures Framed(Pids(t), used, WriteNode(t, i, st, isRoot, stale))
  {
    if st.out.Split? {
      RouteSep(t.keys, lo, hi, i, st.out.sep);
    }
    WriteNodeFrame(t, i, st, isRoot, stale, used);
  }

  lemma {:induction false} WriteLeafFrame(t: Tree, k: Bytes, v: Bytes, isRoot: bool, al: Alloc, stale: set<PageId>, used: set<PageId>)
    requires t.LeafT? && |t.page.slots| == |t.page.elems| && t.pid in used && Sound(al, used)
    ensures Framed({t.pid}, used, WriteLeaf(t, k, v, isRoot, al, stale))
  {
    assert used + {} == used;
    LeafOverflowFrame(t, k, v, isRoot, al, stale, used);
  }

  lemma {:induction false} LeafOverflowFrame(t: Tree, k: Bytes, v: Bytes, isRoot: bool, al: Alloc, stale: set<PageId>, used: set<PageId>)
    requires t.LeafT? && |t.page.slots| == |t.page.elems| && t.pid in used && Sound(al, used)
    ensures Framed({t.pid}, used, LeafOverflow(t, k, v, isRoot, al, stale))
  {
    if isRoot {
      AllocateSound(al, used);
      LeafSplitFrame(t, k, v, Taken(al), stale, used + {NextId(al)});
      GrowFrame({t.pid}, used, NextId(al), true, LeafSplit(t, k, v, Taken(al), stale));
    } else {
      LeafSplitFrame(t, k, v, al, stale, used);
    }
  }

  lemma {:induction false} DistinctKid(kids: seq<Tree>, i: nat)
    requires i < |kids| && DistinctAll(kids)
    ensures Distinct(kids[i])
    ensures Pids(kids[i]) !! PidsAll(kids[..i]) && Pids(kids[i]) !! PidsAll(kids[i + 1..])
    ensures PidsAll(kids[..i]) !! PidsAll(kids[i + 1..])
  {
    assert kids == kids[..i] + [kids[i]] + kids[i + 1..];
    DistinctThree(kids[..i], [kids[i]], kids[i + 1..]);
    DistinctOne(kids[i]);
    PidsOne(kids[i]);
  }
}
