/** The main results about one Insert, Delete and Get on the tree. */
module TreeTheorems {
  import opened Bytes
  import opened Assoc
  import opened Pages
  import opened Allocator
  import opened Trees
  import opened TreeStructure
  import opened TreeFrame
  import opened TreeRoutes
  import opened TreeInsert
  import opened TreeNode
  import opened TreeSplit

  /** A node keeps its page when the write stays below it. */
  lemma {:induction false} NodeBodyIff(t: Tree, h: nat, lo: Option<Bytes>, hi: Option<Bytes>, k: Bytes, v: Bytes, b': Body, al: Alloc,
                                       taken: set<PageId>)
    requires t.NodeT? && WF(t, h, lo, hi) && Distinct(t) && taken !! Pids(t) && |b'.keys| >= 1
    ensures Correct(t, h, lo, hi, k, v, Step(Whole(t.(keys := b'.keys, kids := b'.kids)), al, taken)) <==>
            BodyCorrect(Body(t.keys, t.kids), h - 1, lo, hi, k, v, taken, b')
  {
    SameRootOwnsIff(t.pid, PidsAll(t.kids), PidsAll(b'.kids), taken);
  }

  lemma {:induction false} SameRootOwnsIff(pid: PageId, own: set<PageId>, x: set<PageId>, taken: set<PageId>)
    requires pid !in own + taken
    ensures {pid} + own + taken <= {pid} + x <==> own + taken <= x
  {
    if {pid} + own + taken <= {pid} + x {
      forall p | p in own + taken ensures p in x {
        assert p in {pid} + own + taken;
      }
    }
  }

  /** What is known when the child for k has been written. */
  lemma {:induction false} NodeReady(t: Tree, h: nat, lo: Option<Bytes>, hi: Option<Bytes>, k: Bytes, v: Bytes, al: Alloc,
                                     stale: set<PageId>, used: set<PageId>)
    requires t.NodeT? && WF(t, h, lo, hi) && Shaped(t) && Distinct(t) && Pids(t) <= used && Sound(al, used)
    ensures var st := Write(t.kids[Route(t.keys, k)], k, v, false, al, stale);
      BodyReady(Body(t.keys, t.kids), h - 1, lo, hi, k, st) && Framed(Pids(t.kids[Route(t.keys, k)]), used, st)
  {
    var i := Route(t.keys, k);
    var lo', hi' := LoOf(t.keys, lo, i), HiOf(t.keys, hi, i);
    PidsAt(t.kids, i);
    DistinctKid(t.kids, i);
    WriteFrame(t.kids[i], h - 1, lo', hi', k, v, false, al, stale, used);
    SepInside(t.kids[i], h - 1, lo', hi', k, v, al, stale);
  }

  /** A child's write that stays below the node. */
  lemma {:induction false} NodeStayIff(t: Tree, h: nat, lo: Option<Bytes>, hi: Option<Bytes>, k: Bytes, v: Bytes, st: Step, isRoot: bool,
                                       stale: set<PageId>)
    requires t.NodeT? && |t.kids| == |t.keys| + 1 && WF(t, h, lo, hi) && Distinct(t) && st.taken !! Pids(t)
    requires BodyReady(Body(t.keys, t.kids), h - 1, lo, hi, k, st)
    requires st.out.Split? ==> Adequate(FreeKeys(t.keys), SepSize(st.out.sep))
    ensures var i := Route(t.keys, k);
      var up := WriteNode(t, i, st, isRoot, stale);
      && (Correct(t, h, lo, hi, k, v, up) <==>
           && Correct(t.kids[i], h - 1, LoOf(t.keys, lo, i), HiOf(t.keys, hi, i), k, v, st)
           && (st.out.Split? ==> NodeOk(t.keys, st.out.sep, isRoot, st.alloc, stale)))
      && (up.out.Whole? ==> up.out.t.pid == t.pid) && !up.out.Split?
  {
    var i := Route(t.keys, k);
    var b := Body(t.keys, t.kids);
    match st.out
    case Crash =>
    case Whole(c) =>
      WholeIff(b, h - 1, lo, hi, k, v, st);
      NodeBodyIff(t, h, lo, hi, k, v, b.(kids := b.kids[i := c]), st.alloc, st.taken);
    case Split(l, sep, r) =>
      PutSepIff(b, h - 1, lo, hi, k, v, st);
      PutSepKeys(b, l, sep, r);
      var b' := PutSep(b, l, sep, r);
      if b'.Some? {
        NodeBodyIff(t, h, lo, hi, k, v, b'.value, st.alloc, st.taken);
      }
  }

  /** Below the root: a write is right if and only if the guards along its path hold. */
  lemma {:induction false} WriteIff(t: Tree, h: nat, lo: Option<Bytes>, hi: Option<Bytes>, k: Bytes, v: Bytes, al: Alloc,
                                    stale: set<PageId>, used: set<PageId>)
    requires WF(t, h, lo, hi) && Shaped(t) && Distinct(t) && Pids(t) <= used && Sound(al, used) && InRange(k, lo, hi)
    ensures Correct(t, h, lo, hi, k, v, Write(t, k, v, false, al, stale)) <==> WriteOk(t, k, v, false, al, stale)
    decreases t
  {
    if t.LeafT? {
      WriteLeafIff(t, lo, hi, k, v, al, stale);
    } else {
      var i := Route(t.keys, k);
      NodeReady(t, h, lo, hi, k, v, al, stale, used);
      KidIff(t, h, lo, hi, k, v, al, stale, used);
      var st := Write(t.kids[i], k, v, false, al, stale);
      if st.out.Split? && !Adequate(FreeKeys(t.keys), SepSize(st.out.sep)) {
        AllocateSound(st.alloc, used + st.taken);
        NodeSplitIff(t, h, lo, hi, k, v, st, st.alloc, stale);
      } else {
        NodeStayIff(t, h, lo, hi, k, v, st, false, stale);
      }
    }
  }

  lemma {:induction false} KidIff(t: Tree, h: nat, lo: Option<Bytes>, hi: Option<Bytes>, k: Bytes, v: Bytes, al: Alloc, stale: set<PageId>,
                                  used: set<PageId>)
    requires t.NodeT? && WF(t, h, lo, hi) && Shaped(t) && Distinct(t) && Pids(t) <= used && Sound(al, used) && InRange(k, lo, hi)
    ensures var i := Route(t.keys, k);
      Correct(t.kids[i], h - 1, LoOf(t.keys, lo, i), HiOf(t.keys, hi, i), k, v, Write(t.kids[i], k, v, false, al, stale)) <==>
        WriteOk(t.kids[i], k, v, false, al, stale)
    decreases t, 0
  {
    var i := Route(t.keys, k);
    PidsAt(t.kids, i);
    DistinctKid(t.kids, i);
    RouteInRange(t.keys, lo, hi, k);
    WriteIff(t.kids[i], h - 1, LoOf(t.keys, lo, i), HiOf(t.keys, hi, i), k, v, al, stale, used);
  }

  /**
   Insert is right if and only if the guards along its path hold: then the tree is well formed, of the same height
   or one more, holds exactly the old elements with k put to v, and no page is lost.
   */
  lemma {:induction false} InsertIff(t: Tree, h: nat, k: Bytes, v: Bytes, al: Alloc, stale: set<PageId>)
    requires WF(t, h, None, None) && Shaped(t) && Distinct(t) && Sound(al, Pids(t))
    ensures RootCorrect(t, h, k, v, Write(t, k, v, true, al, stale)) <==> WriteOk(t, k, v, true, al, stale)
  {
    if t.LeafT? {
      RootLeafIff(t, k, v, al, stale);
    } else {
      var used := Pids(t);
      var i := Route(t.keys, k);
      NodeReady(t, h, None, None, k, v, al, stale, used);
      KidIff(t, h, None, None, k, v, al, stale, used);
      var st := Write(t.kids[i], k, v, false, al, stale);
      if st.out.Split? && !Adequate(FreeKeys(t.keys), SepSize(st.out.sep)) {
        RootNodeSplitIff(t, h, k, v, st, stale);
      } else {
        NodeStayIff(t, h, None, None, k, v, st, true, stale);
      }
    }
  }

  lemma {:induction false} RootNodeSplitIff(t: Tree, h: nat, k: Bytes, v: Bytes, st: Step, stale: set<PageId>)
    requires t.NodeT? && |t.kids| == |t.keys| + 1 && WF(t, h, None, None) && Distinct(t)
    requires BodyReady(Body(t.keys, t.kids), h - 1, None, None, k, st) && st.out.Split?
    requires st.taken !! Pids(t) && Sound(st.alloc, Pids(t) + st.taken)
    requires !Adequate(FreeKeys(t.keys), SepSize(st.out.sep))
    ensures var i := Route(t.keys, k);
      RootCorrect(t, h, k, v, WriteNode(t, i, st, true, stale)) <==>
        && Correct(t.kids[i], h - 1, LoOf(t.keys, None, i), HiOf(t.keys, None, i), k, v, st)
        && NodeOk(t.keys, st.out.sep, true, st.alloc, stale)
  {
    var root := NextId(st.alloc);
    var al := Taken(st.alloc);
    AllocateSound(st.alloc, Pids(t) + st.taken);
    AllocateSound(al, Pids(t) + st.taken + {root});
    NodeSplitIff(t, h, None, None, k, v, st, al, stale);
    var up := NodeSplit(t, st.out.left, st.out.sep, st.out.right, al, stale);
    GrowIff(t, h, k, v, root, root in stale, up.(taken := st.taken + up.taken));
    GrowTaken(root, root in stale, up, st.taken);
  }

  lemma {:induction false} GrowTaken(root: PageId, internal: bool, up: Step, taken: set<PageId>)
    ensures var grown := Grow(root, internal, up);
      Grow(root, internal, up.(taken := taken + up.taken)) == grown.(taken := taken + grown.taken)
  {
    assert taken + (up.taken + {root}) == (taken + up.taken) + {root};
  }

  // ------------------------------------------------------------------ delete

  /** Delete did its job on the subtree t. */
  ghost predicate Removed(t: Tree, h: nat, lo: Option<Bytes>, hi: Option<Bytes>, k: Bytes, res: Option<Tree>)
    requires Shaped(t)
  {
    && (res.None? <==> Lookup(Flat(t), k).None?)
    && (res.Some? ==>
          && Flat(res.value) == Del(Flat(t), k) && Pids(res.value) == Pids(t) && res.value.pid == t.pid
          && WF(res.value, h, lo, hi))
  }

  /**
   Delete removes exactly its key, or reports it missing; it keeps every page and the tree well formed,
   whatever the slot of the key records.
   */
  lemma {:induction false} RemoveCorrect(t: Tree, h: nat, lo: Option<Bytes>, hi: Option<Bytes>, k: Bytes)
    requires WF(t, h, lo, hi) && Shaped(t)
    ensures Removed(t, h, lo, hi, k, Remove(t, k))
    decreases t
  {
    if t.LeafT? {
      RemoveLeaf(t, lo, hi, k);
    } else {
      var i := Route(t.keys, k);
      RemoveCorrect(t.kids[i], h - 1, LoOf(t.keys, lo, i), HiOf(t.keys, hi, i), k);
      RemoveNode(t, h, lo, hi, k);
    }
  }

  lemma {:induction false} RemoveNode(t: Tree, h: nat, lo: Option<Bytes>, hi: Option<Bytes>, k: Bytes)
    requires t.NodeT? && WF(t, h, lo, hi) && Shaped(t)
    requires var i := Route(t.keys, k); Removed(t.kids[i], h - 1, LoOf(t.keys, lo, i), HiOf(t.keys, hi, i), k, Remove(t.kids[i], k))
    ensures Removed(t, h, lo, hi, k, Remove(t, k))
  {
    var i := Route(t.keys, k);
    LookupKid(t, h, lo, hi, k);
    if Remove(t.kids[i], k).Some? {
      var c := Remove(t.kids[i], k).value;
      RemoveBody(t, h, lo, hi, k, c);
      ReplaceKidIff(t.keys, t.kids, h - 1, lo, hi, i, c);
    }
  }

  lemma {:induction false} LookupKid(t: Tree, h: nat, lo: Option<Bytes>, hi: Option<Bytes>, k: Bytes)
    requires t.NodeT? && WF(t, h, lo, hi) && |t.kids| == |t.keys| + 1
    ensures Lookup(Flat(t), k) == Lookup(Flat(t.kids[Route(t.keys, k)]), k)
  {
    var i := Route(t.keys, k);
    RouteAround(t.keys, t.kids, h - 1, lo, hi, k);
    FlatAt(t.kids, i);
    LookupInContext(FlatAll(t.kids[..i]), Flat(t.kids[i]), FlatAll(t.kids[i + 1..]), k);
  }

  lemma {:induction false} RemoveLeaf(t: Tree, lo: Option<Bytes>, hi: Option<Bytes>, k: Bytes)
    requires t.LeafT? && WF(t, 0, lo, hi) && Shaped(t)
    ensures Removed(t, 0, lo, hi, k, Remove(t, k))
  {
    if Has(t.page.elems, k) {
      DeleteRoomy(t.page, k);
      DelWithin(t.page.elems, k, lo, hi);
    }
  }

  lemma {:induction false} DelWithin(s: seq<KV>, k: Bytes, lo: Option<Bytes>, hi: Option<Bytes>)
    requires Has(s, k) && Sorted(s) && Within(s, lo, hi)
    ensures Sorted(Del(s, k)) && Within(Del(s, k), lo, hi)
  {
    DelSorted(s, k);
    DelElements(s, k);
  }

  lemma {:induction false} RemoveBody(t: Tree, h: nat, lo: Option<Bytes>, hi: Option<Bytes>, k: Bytes, c: Tree)
    requires t.NodeT? && WF(t, h, lo, hi) && |t.kids| == |t.keys| + 1
    requires var kid := t.kids[Route(t.keys, k)]; Flat(c) == Del(Flat(kid), k) && Pids(c) == Pids(kid)
    ensures var ks := t.kids[Route(t.keys, k) := c];
      FlatAll(ks) == Del(FlatAll(t.kids), k) && PidsAll(ks) == PidsAll(t.kids)
  {
    var i := Route(t.keys, k);
    RouteAround(t.keys, t.kids, h - 1, lo, hi, k);
    DelInContext(FlatAll(t.kids[..i]), Flat(t.kids[i]), FlatAll(t.kids[i + 1..]), k);
    FlatAt(t.kids, i);
    PidsAt(t.kids, i);
    SetAsConcat(t.kids, i, c);
    FlatThree(t.kids[..i], [c], t.kids[i + 1..]);
    PidsThree(t.kids[..i], [c], t.kids[i + 1..]);
    FlatOne(c);
    PidsOne(c);
  }
}
