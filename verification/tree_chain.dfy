/** The leaf chain: next pointers list the leaves in key order, from the first leaf to the last, through every split. */
module TreeChain {
  import opened Bytes
  import opened Assoc
  import opened Pages
  import opened Allocator
  import opened Trees
  import opened TreeStructure
  import opened TreeRoutes
  import opened TreeInsert
  import opened TreeNode
  import opened TreeSplit

  /** Each leaf points to the one after it. */
  ghost predicate Linked(s: seq<Tree>) {
    && (forall i | 0 <= i < |s| :: s[i].LeafT?)
    && forall i | 0 <= i < |s| - 1 :: s[i].page.next == s[i + 1].pid
  }

  /** Two runs of leaves that begin at the same page and end with the same pointer. */
  ghost predicate SameSpan(x: seq<Tree>, m: seq<Tree>) {
    && x != [] && m != [] && x[|x| - 1].LeafT? && m[|m| - 1].LeafT?
    && x[0].pid == m[0].pid && x[|x| - 1].page.next == m[|m| - 1].page.next
  }

  ghost function OutLeaves(out: Outcome): seq<Tree> {
    match out
    case Crash => []
    case Whole(c) => Leaves(c)
    case Split(l, _, r) => Leaves(l) + Leaves(r)
  }

  lemma {:induction false} LinkedPart(a: seq<Tree>, x: seq<Tree>, c: seq<Tree>)
    requires Linked(a + x + c)
    ensures Linked(x)
  {
    var s := a + x + c;
    assert forall i | 0 <= i < |x| :: x[i] == s[|a| + i];
  }

  /** A run of leaves may be replaced by another over the same span. */
  lemma {:induction false} ReplaceLinked(a: seq<Tree>, x: seq<Tree>, m: seq<Tree>, c: seq<Tree>)
    requires Linked(a + x + c) && Linked(m) && SameSpan(x, m)
    ensures Linked(a + m + c) && SameSpan(a + x + c, a + m + c)
  {
    var s, n := a + x + c, a + m + c;
    forall i | 0 <= i < |n| ensures n[i].LeafT? {
      assert i >= |a| + |m| ==> n[i] == s[i - |m| + |x|];
      assert i < |a| ==> n[i] == s[i];
    }
    forall i | 0 <= i < |n| - 1 ensures n[i].page.next == n[i + 1].pid {
      NextLinked(a, x, m, c, i);
    }
  }

  lemma {:induction false} NextLinked(a: seq<Tree>, x: seq<Tree>, m: seq<Tree>, c: seq<Tree>, i: nat)
    requires Linked(a + x + c) && Linked(m) && SameSpan(x, m) && i + 1 < |a + m + c|
    ensures var n := a + m + c; n[i].LeafT? && n[i].page.next == n[i + 1].pid
  {
    var s, n := a + x + c, a + m + c;
    if i < |a| {
      assert s[i].page.next == s[i + 1].pid;
    } else if i < |a| + |m| - 1 {
      assert m[i - |a|].page.next == m[i - |a| + 1].pid;
    } else {
      var j := i - |m| + |x|;
      assert s[j].page.next == s[j + 1].pid;
    }
  }

  // --------------------------------------------------------------- leaf writes

  lemma {:induction false} LeafStayLinked(t: Tree, lo: Option<Bytes>, hi: Option<Bytes>, k: Bytes, v: Bytes, isRoot: bool, al: Alloc,
                                          stale: set<PageId>)
    requires t.LeafT? && WF(t, 0, lo, hi) && InRange(k, lo, hi) && LeafOk(t, k, v, isRoot, al, stale)
    requires Has(t.page.elems, k) || HasSpace(t.page, ElemSize(KV(k, v)))
    ensures var s := OutLeaves(WriteLeaf(t, k, v, isRoot, al, stale).out);
      Linked(s) && SameSpan([t], s)
  {
    LeafStayIff(t, lo, hi, k, v, isRoot, al, stale);
  }

  lemma {:induction false} LeafSplitLinked(t: Tree, lo: Option<Bytes>, hi: Option<Bytes>, k: Bytes, v: Bytes, al: Alloc, stale: set<PageId>)
    requires t.LeafT? && WF(t, 0, lo, hi) && InRange(k, lo, hi) && !Has(t.page.elems, k) && LeafSplitOk(t.page, k, v, NextId(al), stale)
    ensures var out := LeafSplit(t, k, v, al, stale).out;
      && out.Split? && out.sep == t.page.elems[SplitIndex(t.page.slots)].key
      && Linked(OutLeaves(out)) && SameSpan([t], OutLeaves(out))
  {
    LeafSplitFine(t, lo, hi, k, v, al, stale);
    PairLinked(t, LeafSplit(t, k, v, al, stale).out);
  }

  lemma {:induction false} PairLinked(t: Tree, out: Outcome)
    requires t.LeafT? && out.Split? && out.left.LeafT? && out.right.LeafT?
    requires out.left.pid == t.pid && out.left.page.next == out.right.pid && out.right.page.next == t.page.next
    ensures Linked(OutLeaves(out)) && SameSpan([t], OutLeaves(out))
  {
    assert OutLeaves(out) == [out.left, out.right];
  }

  lemma {:induction false} LeafLinked(t: Tree, lo: Option<Bytes>, hi: Option<Bytes>, k: Bytes, v: Bytes, isRoot: bool, al: Alloc,
                                      stale: set<PageId>)
    requires t.LeafT? && WF(t, 0, lo, hi) && InRange(k, lo, hi) && LeafOk(t, k, v, isRoot, al, stale)
    ensures var s := OutLeaves(WriteLeaf(t, k, v, isRoot, al, stale).out);
      Linked(s) && SameSpan([t], s)
  {
    if Has(t.page.elems, k) || HasSpace(t.page, ElemSize(KV(k, v))) {
      LeafStayLinked(t, lo, hi, k, v, isRoot, al, stale);
    } else if isRoot {
      LeafSplitLinked(t, lo, hi, k, v, Taken(al), stale);
      GrowLeaves(NextId(al), true, LeafSplit(t, k, v, Taken(al), stale));
    } else {
      LeafSplitLinked(t, lo, hi, k, v, al, stale);
    }
  }

  lemma {:induction false} GrowLeaves(root: PageId, internal: bool, st: Step)
    requires st.out.Split? && GrowOk(st.out.sep)
    ensures OutLeaves(Grow(root, internal, st).out) == OutLeaves(st.out)
  {
    LeavesTwo(st.out.left, st.out.right);
  }

  // --------------------------------------------------------------- node writes

  lemma {:induction false} BodyLeaves(b: Body, i: nat, l: Tree, sep: Bytes, r: Tree)
    requires i < |b.kids| && i <= |b.keys|
    ensures LeavesAll(InsertedBody(b, i, l, sep, r).kids) == LeavesAll(b.kids[..i]) + (Leaves(l) + Leaves(r)) + LeavesAll(b.kids[i + 1..])
  {
    LeavesThree(b.kids[..i], [l, r], b.kids[i + 1..]);
    LeavesTwo(l, r);
  }

  /** Leaves of the children before and after child i, with the other half joined on. */
  lemma {:induction false} HalfLeaves(t: Tree, idx: nat, inLeft: bool, i: nat, j: nat, m: seq<Tree>)
    requires t.NodeT? && |t.kids| == |t.keys| + 1 && idx < |t.keys| && i < |t.kids|
    requires if inLeft then i <= idx && j == i else i > idx && j == i - idx - 1
    ensures var b, other := HalfFor(t, idx, inLeft).kids, LeavesAll(OtherHalf(t, idx, inLeft).kids);
      var x := LeavesAll(b[..j]) + m + LeavesAll(b[j + 1..]);
      LeavesAll(t.kids[..i]) + m + LeavesAll(t.kids[i + 1..]) == if inLeft then x + other else other + x
  {
    var b := HalfFor(t, idx, inLeft).kids;
    if inLeft {
      assert b[..j] == t.kids[..i];
      assert t.kids[i + 1..] == b[j + 1..] + t.kids[idx + 1..];
      LeavesConcat(b[j + 1..], t.kids[idx + 1..]);
    } else {
      assert b[j + 1..] == t.kids[i + 1..];
      assert t.kids[..i] == t.kids[..idx + 1] + b[..j];
      LeavesConcat(t.kids[..idx + 1], b[..j]);
    }
  }

  /** The leaves of the two halves when one of them takes the pending separator. */
  lemma {:induction false} SplitLeaves(t: Tree, lo: Option<Bytes>, hi: Option<Bytes>, k: Bytes, st: Step, al: Alloc, stale: set<PageId>)
    requires t.NodeT? && |t.kids| == |t.keys| + 1 && KeysOk(t.keys, lo, hi) && st.out.Split?
    requires var i := Route(t.keys, k); Above(LoOf(t.keys, lo, i), st.out.sep) && Below(st.out.sep, HiOf(t.keys, hi, i))
    requires NodeSplitOk(t.keys, st.out.sep, NextId(al), stale)
    ensures var i := Route(t.keys, k);
      var up := NodeSplit(t, st.out.left, st.out.sep, st.out.right, al, stale);
      && up.out.Split? && up.out.sep == t.keys[SplitIndex(SepSizes(t.keys))]
      && OutLeaves(up.out) == LeavesAll(t.kids[..i]) + OutLeaves(st.out) + LeavesAll(t.kids[i + 1..])
  {
    var idx := SplitIndex(SepSizes(t.keys));
    RouteSep(t.keys, lo, hi, Route(t.keys, k), st.out.sep);
    RouteHalves(t.keys, lo, hi, st.out.sep, idx);
    SplitLeavesAt(t, Route(t.keys, k), st, al, stale, idx, Lt(st.out.sep, t.keys[idx]));
  }

  lemma {:induction false} SplitLeavesAt(t: Tree, i: nat, st: Step, al: Alloc, stale: set<PageId>, idx: nat, inLeft: bool)
    requires t.NodeT? && |t.kids| == |t.keys| + 1 && st.out.Split? && i < |t.kids|
    requires idx == SplitIndex(SepSizes(t.keys)) && idx < |t.keys| && inLeft == Lt(st.out.sep, t.keys[idx])
    requires SepSize(st.out.sep) + SLOT_SIZE <= FreeKeys(HalfFor(t, idx, inLeft).keys)
    requires var j := Route(HalfFor(t, idx, inLeft).keys, st.out.sep);
      if inLeft then i <= idx && j == i else i > idx && j == i - idx - 1
    ensures var up := NodeSplit(t, st.out.left, st.out.sep, st.out.right, al, stale);
      && up.out.Split? && up.out.sep == t.keys[idx]
      && OutLeaves(up.out) == LeavesAll(t.kids[..i]) + OutLeaves(st.out) + LeavesAll(t.kids[i + 1..])
  {
    var l, sep, r := st.out.left, st.out.sep, st.out.right;
    var b := HalfFor(t, idx, inLeft);
    var j := Route(b.keys, sep);
    PutSepTaken(b, l, sep, r, j);
    NodeSplitOutcome(t, st, al, stale, idx, inLeft);
    BodyLeaves(b, j, l, sep, r);
    HalfLeaves(t, idx, inLeft, i, j, Leaves(l) + Leaves(r));
    HalvesLeaves(t, idx, inLeft, InsertedBody(b, j, l, sep, r), NextId(al), stale);
  }

  lemma {:induction false} HalvesLeaves(t: Tree, idx: nat, inLeft: bool, b': Body, rp: PageId, stale: set<PageId>)
    requires t.NodeT? && |t.kids| == |t.keys| + 1 && idx < |t.keys|
    ensures var other := LeavesAll(OtherHalf(t, idx, inLeft).kids);
      OutLeaves(Halves(t, idx, inLeft, b', rp, stale)) == if inLeft then LeavesAll(b'.kids) + other else other + LeavesAll(b'.kids)
  {
  }

  /** However the node absorbs the write, its leaves are the old ones with the child's part replaced. */
  lemma {:induction false} NodeLeaves(t: Tree, lo: Option<Bytes>, hi: Option<Bytes>, k: Bytes, st: Step, isRoot: bool, stale: set<PageId>)
    requires t.NodeT? && |t.kids| == |t.keys| + 1 && KeysOk(t.keys, lo, hi) && !st.out.Crash?
    requires st.out.Split? ==>
      var i := Route(t.keys, k);
      && Above(LoOf(t.keys, lo, i), st.out.sep) && Below(st.out.sep, HiOf(t.keys, hi, i))
      && NodeOk(t.keys, st.out.sep, isRoot, st.alloc, stale)
    ensures var i := Route(t.keys, k);
      OutLeaves(WriteNode(t, i, st, isRoot, stale).out) == LeavesAll(t.kids[..i]) + OutLeaves(st.out) + LeavesAll(t.kids[i + 1..])
  {
    var i := Route(t.keys, k);
    match st.out
    case Whole(c) =>
      SetAsConcat(t.kids, i, c);
      LeavesThree(t.kids[..i], [c], t.kids[i + 1..]);
      LeavesOne(c);
    case Split(l, sep, r) =>
      if Adequate(FreeKeys(t.keys), SepSize(sep)) {
        RouteSep(t.keys, lo, hi, i, sep);
        PutSepTaken(Body(t.keys, t.kids), l, sep, r, i);
        BodyLeaves(Body(t.keys, t.kids), i, l, sep, r);
      } else if isRoot {
        SplitLeaves(t, lo, hi, k, st, Taken(st.alloc), stale);
        GrowLeaves(NextId(st.alloc), NextId(st.alloc) in stale, NodeSplit(t, l, sep, r, Taken(st.alloc), stale));
      } else {
        SplitLeaves(t, lo, hi, k, st, st.alloc, stale);
      }
  }

  /** A right write keeps the chain: the leaves stay linked in key order over the same span. */
  lemma {:induction false} WriteLinked(t: Tree, h: nat, lo: Option<Bytes>, hi: Option<Bytes>, k: Bytes, v: Bytes, isRoot: bool, al: Alloc,
                                       stale: set<PageId>)
    requires WF(t, h, lo, hi) && Shaped(t) && InRange(k, lo, hi) && WriteOk(t, k, v, isRoot, al, stale)
    requires Linked(Leaves(t))
    ensures var out := Write(t, k, v, isRoot, al, stale).out;
      !out.Crash? && Linked(OutLeaves(out)) && SameSpan(Leaves(t), OutLeaves(out))
    decreases t
  {
    if t.LeafT? {
      LeafLinked(t, lo, hi, k, v, isRoot, al, stale);
    } else {
      var i := Route(t.keys, k);
      var lo', hi' := LoOf(t.keys, lo, i), HiOf(t.keys, hi, i);
      KidLinked(t.kids, i);
      RouteInRange(t.keys, lo, hi, k);
      WriteLinked(t.kids[i], h - 1, lo', hi', k, v, false, al, stale);
      ParentLinked(t, h, lo, hi, k, v, isRoot, al, stale);
    }
  }

  lemma {:induction false} KidLinked(kids: seq<Tree>, i: nat)
    requires i < |kids| && Linked(LeavesAll(kids))
    ensures Linked(Leaves(kids[i]))
  {
    LeavesAt(kids, i);
    LinkedPart(LeavesAll(kids[..i]), Leaves(kids[i]), LeavesAll(kids[i + 1..]));
  }

  lemma {:induction false} ParentLinked(t: Tree, h: nat, lo: Option<Bytes>, hi: Option<Bytes>, k: Bytes, v: Bytes, isRoot: bool, al: Alloc,
                                        stale: set<PageId>)
    requires t.NodeT? && WF(t, h, lo, hi) && Shaped(t) && WriteOk(t, k, v, isRoot, al, stale) && Linked(Leaves(t))
    requires var kid := t.kids[Route(t.keys, k)];
      var out := Write(kid, k, v, false, al, stale).out;
      !out.Crash? && Linked(OutLeaves(out)) && SameSpan(Leaves(kid), OutLeaves(out))
    ensures var out := Write(t, k, v, isRoot, al, stale).out;
      !out.Crash? && Linked(OutLeaves(out)) && SameSpan(Leaves(t), OutLeaves(out))
  {
    var i := Route(t.keys, k);
    SepInside(t.kids[i], h - 1, LoOf(t.keys, lo, i), HiOf(t.keys, hi, i), k, v, al, stale);
    NodeLinked(t, lo, hi, k, Write(t.kids[i], k, v, false, al, stale), isRoot, stale);
  }

  lemma {:induction false} NodeLinked(t: Tree, lo: Option<Bytes>, hi: Option<Bytes>, k: Bytes, st: Step, isRoot: bool, stale: set<PageId>)
    requires t.NodeT? && |t.kids| == |t.keys| + 1 && KeysOk(t.keys, lo, hi) && !st.out.Crash? && Linked(Leaves(t))
    requires Linked(OutLeaves(st.out)) && SameSpan(Leaves(t.kids[Route(t.keys, k)]), OutLeaves(st.out))
    requires st.out.Split? ==>
      var i := Route(t.keys, k);
      && Above(LoOf(t.keys, lo, i), st.out.sep) && Below(st.out.sep, HiOf(t.keys, hi, i))
      && NodeOk(t.keys, st.out.sep, isRoot, st.alloc, stale)
    ensures var out := WriteNode(t, Route(t.keys, k), st, isRoot, stale).out;
      !out.Crash? && Linked(OutLeaves(out)) && SameSpan(Leaves(t), OutLeaves(out))
  {
    var i := Route(t.keys, k);
    LeavesAt(t.kids, i);
    NodeLeaves(t, lo, hi, k, st, isRoot, stale);
    ReplaceLinked(LeavesAll(t.kids[..i]), Leaves(t.kids[i]), OutLeaves(st.out), LeavesAll(t.kids[i + 1..]));
  }

  /** A delete keeps the chain. */
  lemma {:induction false} RemoveLinked(t: Tree, k: Bytes)
    requires Shaped(t) && Linked(Leaves(t)) && Remove(t, k).Some?
    ensures Linked(Leaves(Remove(t, k).value)) && SameSpan(Leaves(t), Leaves(Remove(t, k).value))
    decreases t
  {
    if t.NodeT? {
      var i := Route(t.keys, k);
      var a, x, c := LeavesAll(t.kids[..i]), Leaves(t.kids[i]), LeavesAll(t.kids[i + 1..]);
      LeavesAt(t.kids, i);
      LinkedPart(a, x, c);
      RemoveLinked(t.kids[i], k);
      var d := Remove(t.kids[i], k).value;
      SetAsConcat(t.kids, i, d);
      LeavesThree(t.kids[..i], [d], t.kids[i + 1..]);
      LeavesOne(d);
      ReplaceLinked(a, x, Leaves(d), c);
    }
  }
}
