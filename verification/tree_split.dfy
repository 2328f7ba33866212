/** Splitting an internal node: routing is preserved, and when the whole write is right. */
module TreeSplit {
  import opened Bytes
  import opened Assoc
  import opened Pages
  import opened Allocator
  import opened Trees
  import opened TreeStructure
  import opened TreeRoutes
  import opened TreeInsert
  import opened TreeNode

  lemma {:induction false} BodyBounds(keys: seq<Bytes>, kids: seq<Tree>, h: nat, lo: Option<Bytes>, hi: Option<Bytes>)
    requires KidsWF(keys, kids, h, lo, hi)
    ensures Within(FlatAll(kids), lo, hi)
  {
    SegmentOk(keys, kids, h, lo, hi, 0, |kids|);
    assert kids[0..|kids|] == kids;
  }

  /** Keys left of the promoted separator are put in the left half. */
  lemma {:induction false} LeftFlatIff(t: Tree, h: nat, lo: Option<Bytes>, hi: Option<Bytes>, k: Bytes, v: Bytes, idx: nat, x: seq<KV>)
    requires t.NodeT? && KidsWF(t.keys, t.kids, h, lo, hi) && idx < |t.keys| && Lt(k, t.keys[idx])
    ensures x + FlatAll(RightBody(t, idx).kids) == Put(FlatAll(t.kids), k, v) <==> x == Put(FlatAll(LeftBody(t, idx).kids), k, v)
  {
    var a, c := FlatAll(LeftBody(t, idx).kids), FlatAll(RightBody(t, idx).kids);
    HalvesWF(t.keys, t.kids, h, lo, hi, idx);
    BodyBounds(RightBody(t, idx).keys, RightBody(t, idx).kids, h, Some(t.keys[idx]), hi);
    AfterKey(c, t.keys[idx], hi, k);
    assert t.kids == LeftBody(t, idx).kids + RightBody(t, idx).kids;
    FlatConcat(LeftBody(t, idx).kids, RightBody(t, idx).kids);
    PutLeft(a, c, k, v);
    CancelRight(x, Put(a, k, v), c);
  }

  lemma {:induction false} EmptyFront(x: seq<KV>)
    ensures [] + x == x
  {
  }

  lemma {:induction false} PutLeft(a: seq<KV>, c: seq<KV>, k: Bytes, v: Bytes)
    requires Around([], k, c)
    ensures Put(a + c, k, v) == Put(a, k, v) + c
  {
    PutInContext([], a, c, k, v);
    EmptyFront(a);
    EmptyFront(Put(a, k, v));
  }

  lemma {:induction false} CancelRight(x: seq<KV>, y: seq<KV>, c: seq<KV>)
    ensures x + c == y + c <==> x == y
  {
    CancelSeq([], x, y, c);
    EmptyFront(x);
    EmptyFront(y);
  }

  /** Keys at or right of the promoted separator are put in the right half. */
  lemma {:induction false} RightFlatIff(t: Tree, h: nat, lo: Option<Bytes>, hi: Option<Bytes>, k: Bytes, v: Bytes, idx: nat, x: seq<KV>)
    requires t.NodeT? && KidsWF(t.keys, t.kids, h, lo, hi) && idx < |t.keys| && !Lt(k, t.keys[idx])
    ensures FlatAll(LeftBody(t, idx).kids) + x == Put(FlatAll(t.kids), k, v) <==> x == Put(FlatAll(RightBody(t, idx).kids), k, v)
  {
    var a, c := FlatAll(LeftBody(t, idx).kids), FlatAll(RightBody(t, idx).kids);
    HalvesWF(t.keys, t.kids, h, lo, hi, idx);
    BodyBounds(LeftBody(t, idx).keys, LeftBody(t, idx).kids, h, lo, Some(t.keys[idx]));
    BeforeKey(a, lo, t.keys[idx], k);
    assert t.kids == LeftBody(t, idx).kids + RightBody(t, idx).kids;
    FlatConcat(LeftBody(t, idx).kids, RightBody(t, idx).kids);
    PutInContext(a, c, [], k, v);
    assert a + c + [] == a + c && a + Put(c, k, v) + [] == a + Put(c, k, v);
    CancelSeq(a, x, Put(c, k, v), []);
    assert a + x + [] == a + x;
  }

  /** The halves of a distinct node. */
  lemma {:induction false} HalvesDistinct(t: Tree, idx: nat)
    requires t.NodeT? && Distinct(t) && |t.kids| == |t.keys| + 1 && idx < |t.keys|
    ensures var a, c := LeftBody(t, idx).kids, RightBody(t, idx).kids;
      && DistinctAll(a) && DistinctAll(c) && PidsAll(a) !! PidsAll(c)
      && PidsAll(t.kids) == PidsAll(a) + PidsAll(c) && t.pid !in PidsAll(a) && t.pid !in PidsAll(c)
  {
    var a, c := LeftBody(t, idx).kids, RightBody(t, idx).kids;
    assert t.kids == a + c;
    PidsConcat(a, c);
    DistinctConcat(a, c);
  }

  /** The half the key belongs to. */
  function HalfFor(t: Tree, idx: nat, inLeft: bool): Body
    requires t.NodeT? && |t.kids| == |t.keys| + 1 && idx < |t.keys|
  {
    if inLeft then LeftBody(t, idx) else RightBody(t, idx)
  }

  ghost function LoFor(t: Tree, lo: Option<Bytes>, idx: nat, inLeft: bool): Option<Bytes>
    requires t.NodeT? && idx < |t.keys|
  {
    if inLeft then lo else Some(t.keys[idx])
  }

  ghost function HiFor(t: Tree, hi: Option<Bytes>, idx: nat, inLeft: bool): Option<Bytes>
    requires t.NodeT? && idx < |t.keys|
  {
    if inLeft then Some(t.keys[idx]) else hi
  }

  /** Choosing a half by the promoted key and searching it finds the child the unsplit node finds, with its bounds. */
  lemma {:induction false} SplitRouting(t: Tree, lo: Option<Bytes>, hi: Option<Bytes>, k: Bytes, idx: nat)
    requires t.NodeT? && |t.kids| == |t.keys| + 1 && KeysOk(t.keys, lo, hi) && idx < |t.keys|
    ensures var inLeft := Lt(k, t.keys[idx]);
      var b, i := HalfFor(t, idx, inLeft), Route(t.keys, k);
      var j := Route(b.keys, k);
      && |b.kids| == |b.keys| + 1
      && b.kids[j] == t.kids[i]
      && LoOf(b.keys, LoFor(t, lo, idx, inLeft), j) == LoOf(t.keys, lo, i)
      && HiOf(b.keys, HiFor(t, hi, idx, inLeft), j) == HiOf(t.keys, hi, i)
  {
    RouteHalves(t.keys, lo, hi, k, idx);
  }

  /** The chosen half is ready for what was written below the child. */
  lemma {:induction false} HalfReady(t: Tree, h: nat, lo: Option<Bytes>, hi: Option<Bytes>, k: Bytes, st: Step, idx: nat)
    requires t.NodeT? && Distinct(t) && BodyReady(Body(t.keys, t.kids), h, lo, hi, k, st) && idx < |t.keys|
    ensures var inLeft := Lt(k, t.keys[idx]);
      BodyReady(HalfFor(t, idx, inLeft), h, LoFor(t, lo, idx, inLeft), HiFor(t, hi, idx, inLeft), k, st)
  {
    SplitRouting(t, lo, hi, k, idx);
    HalvesWF(t.keys, t.kids, h, lo, hi, idx);
    HalvesDistinct(t, idx);
    UsedKeysHalves(t.keys, idx);
  }

  /** A pending separator goes to the half of the key below which it arose. */
  lemma {:induction false} SepSide(keys: seq<Bytes>, lo: Option<Bytes>, hi: Option<Bytes>, k: Bytes, sep: Bytes, idx: nat)
    requires KeysOk(keys, lo, hi) && idx < |keys|
    requires var i := Route(keys, k); Above(LoOf(keys, lo, i), sep) && Below(sep, HiOf(keys, hi, i))
    ensures Lt(sep, keys[idx]) <==> Lt(k, keys[idx])
  {
    RouteSep(keys, lo, hi, Route(keys, k), sep);
    RouteHalves(keys, lo, hi, k, idx);
    RouteHalves(keys, lo, hi, sep, idx);
  }

  // ------------------------------------------------------------ whole splits

  /** The half the write did not touch. */
  function OtherHalf(t: Tree, idx: nat, inLeft: bool): Body
    requires t.NodeT? && |t.kids| == |t.keys| + 1 && idx < |t.keys|
  {
    if inLeft then RightBody(t, idx) else LeftBody(t, idx)
  }

  /** The two pages after the half for k became b'. */
  ghost function Halves(t: Tree, idx: nat, inLeft: bool, b': Body, rp: PageId, stale: set<PageId>): Outcome
    requires t.NodeT? && |t.kids| == |t.keys| + 1 && idx < |t.keys|
  {
    var l, r := if inLeft then b' else LeftBody(t, idx), if inLeft then RightBody(t, idx) else b';
    Split(NodeT(t.pid, t.internal, l.keys, l.kids), t.keys[idx], NodeT(rp, rp in stale, r.keys, r.kids))
  }

  lemma {:induction false} SplitFlatIff(t: Tree, h: nat, lo: Option<Bytes>, hi: Option<Bytes>, k: Bytes, v: Bytes, idx: nat, b': Body,
                                        rp: PageId, stale: set<PageId>)
    requires t.NodeT? && KidsWF(t.keys, t.kids, h, lo, hi) && idx < |t.keys|
    ensures var inLeft := Lt(k, t.keys[idx]);
      var out := Halves(t, idx, inLeft, b', rp, stale);
      Flat(out.left) + Flat(out.right) == Put(Flat(t), k, v) <==> FlatAll(b'.kids) == Put(FlatAll(HalfFor(t, idx, inLeft).kids), k, v)
  {
    if Lt(k, t.keys[idx]) {
      LeftFlatIff(t, h, lo, hi, k, v, idx, FlatAll(b'.kids));
    } else {
      RightFlatIff(t, h, lo, hi, k, v, idx, FlatAll(b'.kids));
    }
  }

  lemma {:induction false} SplitPidsIff(t: Tree, idx: nat, inLeft: bool, b': Body, rp: PageId, stale: set<PageId>, taken: set<PageId>)
    requires t.NodeT? && Distinct(t) && |t.kids| == |t.keys| + 1 && idx < |t.keys|
    requires taken !! Pids(t) && rp !in Pids(t) + taken
    ensures var out := Halves(t, idx, inLeft, b', rp, stale);
      Pids(t) + (taken + {rp}) <= Pids(out.left) + Pids(out.right) <==> PidsAll(HalfFor(t, idx, inLeft).kids) + taken <= PidsAll(b'.kids)
  {
    HalvesDistinct(t, idx);
    var half, other := PidsAll(HalfFor(t, idx, inLeft).kids), PidsAll(OtherHalf(t, idx, inLeft).kids);
    SplitOwnsIff(t.pid, rp, half, other, PidsAll(b'.kids), taken);
    assert Pids(t) + (taken + {rp}) == {t.pid, rp} + half + other + taken;
    var out := Halves(t, idx, inLeft, b', rp, stale);
    assert Pids(out.left) + Pids(out.right) == {t.pid, rp} + PidsAll(b'.kids) + other;
  }

  lemma {:induction false} SplitOwnsIff(pid: PageId, rp: PageId, half: set<PageId>, other: set<PageId>, x: set<PageId>, taken: set<PageId>)
    requires pid !in half + taken && rp !in half + taken && half !! other && taken !! other
    ensures {pid, rp} + half + other + taken <= {pid, rp} + x + other <==> half + taken <= x
  {
    if {pid, rp} + half + other + taken <= {pid, rp} + x + other {
      forall p | p in half + taken ensures p in x {
        assert p in {pid, rp} + half + other + taken;
      }
    }
  }

  lemma {:induction false} SplitWFIff(t: Tree, h: nat, lo: Option<Bytes>, hi: Option<Bytes>, idx: nat, inLeft: bool, b': Body, rp: PageId,
                                      stale: set<PageId>)
    requires t.NodeT? && |t.kids| == |t.keys| + 1 && WF(t, h, lo, hi) && 0 < idx < |t.keys| && |b'.keys| >= |HalfFor(t, idx, inLeft).keys|
    requires !inLeft ==> |b'.keys| >= 1
    ensures var out := Halves(t, idx, inLeft, b', rp, stale);
      WF(out.left, h, lo, Some(out.sep)) && WF(out.right, h, Some(out.sep), hi) <==>
        && KidsWF(b'.keys, b'.kids, h - 1, LoFor(t, lo, idx, inLeft), HiFor(t, hi, idx, inLeft)) && FreeKeys(b'.keys) >= 0
        && rp in stale && (inLeft ==> idx + 1 < |t.keys|)
  {
    HalvesWF(t.keys, t.kids, h - 1, lo, hi, idx);
    UsedKeysHalves(t.keys, idx);
  }

  /** What makes the pair of halves right. */
  lemma {:induction false} HalvesIff(t: Tree, h: nat, lo: Option<Bytes>, hi: Option<Bytes>, k: Bytes, v: Bytes, idx: nat, b': Body,
                                     rp: PageId, stale: set<PageId>, st: Step, al: Alloc)
    requires t.NodeT? && |t.kids| == |t.keys| + 1 && WF(t, h, lo, hi) && Distinct(t) && 0 < idx < |t.keys|
    requires st.taken !! Pids(t) && rp !in Pids(t) + st.taken
    requires |b'.keys| >= |HalfFor(t, idx, Lt(k, t.keys[idx])).keys| && (!Lt(k, t.keys[idx]) ==> |b'.keys| >= 1)
    ensures var inLeft := Lt(k, t.keys[idx]);
      Correct(t, h, lo, hi, k, v, Step(Halves(t, idx, inLeft, b', rp, stale), al, st.taken + {rp})) <==>
        && BodyCorrect(HalfFor(t, idx, inLeft), h - 1, LoFor(t, lo, idx, inLeft), HiFor(t, hi, idx, inLeft), k, v, st.taken, b')
        && rp in stale && (inLeft ==> idx + 1 < |t.keys|)
  {
    var inLeft := Lt(k, t.keys[idx]);
    SplitFlatIff(t, h - 1, lo, hi, k, v, idx, b', rp, stale);
    SplitPidsIff(t, idx, inLeft, b', rp, stale, st.taken);
    SplitWFIff(t, h, lo, hi, idx, inLeft, b', rp, stale);
  }

  lemma {:induction false} PutSepKeys(b: Body, l: Tree, sep: Bytes, r: Tree)
    requires |b.kids| == |b.keys| + 1
    ensures var b' := PutSep(b, l, sep, r);
      && (b'.Some? ==> |b'.value.keys| >= |b.keys|)
      && (SepSize(sep) + SLOT_SIZE <= FreeKeys(b.keys) ==> b'.Some? && |b'.value.keys| >= 1)
  {
    if SepSize(sep) + SLOT_SIZE <= FreeKeys(b.keys) {
      PutSepTaken(b, l, sep, r, Route(b.keys, sep));
    }
  }

  /** Installing the pending separator in a ready body. */
  lemma {:induction false} PutSepIff(b: Body, h: nat, lo: Option<Bytes>, hi: Option<Bytes>, k: Bytes, v: Bytes, st: Step)
    requires BodyReady(b, h, lo, hi, k, st) && st.out.Split?
    ensures var i := Route(b.keys, k);
      var b' := PutSep(b, st.out.left, st.out.sep, st.out.right);
      b'.Some? && BodyCorrect(b, h, lo, hi, k, v, st.taken, b'.value) <==>
        Correct(b.kids[i], h, LoOf(b.keys, lo, i), HiOf(b.keys, hi, i), k, v, st) && SepSize(st.out.sep) + SLOT_SIZE <= FreeKeys(b.keys)
  {
    if SepSize(st.out.sep) + SLOT_SIZE <= FreeKeys(b.keys) {
      TakenSepIff(b, h, lo, hi, k, v, st);
    } else {
      LostSepWrong(b, h, lo, hi, k, v, st);
    }
  }

  /** An empty right half, whose only hope was the refused separator, is never right. */
  lemma {:induction false} EmptyHalfWrong(t: Tree, h: nat, lo: Option<Bytes>, hi: Option<Bytes>, k: Bytes, v: Bytes, st: Step)
    requires st.out.Split? && st.out.right.NodeT? && |st.out.right.keys| == 0
    ensures !Correct(t, h, lo, hi, k, v, st)
  {
  }

  /** The chosen half takes the pending separator. */
  predicate HalfRoom(t: Tree, idx: nat, inLeft: bool, sep: Bytes)
    requires t.NodeT? && |t.kids| == |t.keys| + 1 && idx < |t.keys|
  {
    SepSize(sep) + SLOT_SIZE <= FreeKeys(HalfFor(t, idx, inLeft).keys)
  }

  lemma {:induction false} GuardsOfHalf(t: Tree, sep: Bytes, rp: PageId, stale: set<PageId>, idx: nat)
    requires t.NodeT? && |t.kids| == |t.keys| + 1 && idx == SplitIndex(SepSizes(t.keys)) && idx < |t.keys|
    ensures var inLeft := Lt(sep, t.keys[idx]);
      NodeSplitOk(t.keys, sep, rp, stale) <==> HalfRoom(t, idx, inLeft, sep) && rp in stale && (inLeft ==> idx + 1 < |t.keys|)
  {
  }

  /** The chosen half with the bounds around it, ready for what was written below its child. */
  lemma {:induction false} HalfStage(t: Tree, h: nat, lo: Option<Bytes>, hi: Option<Bytes>, k: Bytes, st: Step, idx: nat)
    returns (b: Body, lo': Option<Bytes>, hi': Option<Bytes>)
    requires t.NodeT? && |t.kids| == |t.keys| + 1 && KeysOk(t.keys, lo, hi) && Distinct(t) && idx < |t.keys|
    requires BodyReady(Body(t.keys, t.kids), h, lo, hi, k, st)
    ensures var inLeft := Lt(k, t.keys[idx]);
      b == HalfFor(t, idx, inLeft) && lo' == LoFor(t, lo, idx, inLeft) && hi' == HiFor(t, hi, idx, inLeft)
    ensures BodyReady(b, h, lo', hi', k, st)
    ensures var i, j := Route(t.keys, k), Route(b.keys, k);
      b.kids[j] == t.kids[i] && LoOf(b.keys, lo', j) == LoOf(t.keys, lo, i) && HiOf(b.keys, hi', j) == HiOf(t.keys, hi, i)
  {
    var inLeft := Lt(k, t.keys[idx]);
    b, lo', hi' := HalfFor(t, idx, inLeft), LoFor(t, lo, idx, inLeft), HiFor(t, hi, idx, inLeft);
    HalfReady(t, h, lo, hi, k, st, idx);
    SplitRouting(t, lo, hi, k, idx);
  }

  /** The half that was written is right if and only if the child's write was and the separator fits. */
  lemma {:induction false} HalfIff(b: Body, h: nat, lo: Option<Bytes>, hi: Option<Bytes>, k: Bytes, v: Bytes, st: Step,
                                   kid: Tree, lo': Option<Bytes>, hi': Option<Bytes>, half: Option<Body>)
    requires BodyReady(b, h, lo, hi, k, st) && st.out.Split? && half == PutSep(b, st.out.left, st.out.sep, st.out.right)
    requires var j := Route(b.keys, k);
      b.kids[j] == kid && LoOf(b.keys, lo, j) == lo' && HiOf(b.keys, hi, j) == hi'
    ensures half.Some? && BodyCorrect(b, h, lo, hi, k, v, st.taken, half.value) <==>
      Correct(kid, h, lo', hi', k, v, st) && SepSize(st.out.sep) + SLOT_SIZE <= FreeKeys(b.keys)
    ensures half.Some? ==> |half.value.keys| >= |b.keys|
    ensures SepSize(st.out.sep) + SLOT_SIZE <= FreeKeys(b.keys) ==> half.Some? && |half.value.keys| >= 1
  {
    PutSepIff(b, h, lo, hi, k, v, st);
    PutSepKeys(b, st.out.left, st.out.sep, st.out.right);
  }

  lemma {:induction false} SplitHalfIff(t: Tree, h: nat, lo: Option<Bytes>, hi: Option<Bytes>, k: Bytes, v: Bytes, st: Step, al: Alloc,
                                        stale: set<PageId>, idx: nat, rp: PageId)
    requires t.NodeT? && |t.kids| == |t.keys| + 1 && WF(t, h, lo, hi) && Distinct(t) && 0 < idx < |t.keys|
    requires BodyReady(Body(t.keys, t.kids), h - 1, lo, hi, k, st) && st.out.Split?
    requires st.taken !! Pids(t) && rp !in Pids(t) + st.taken
    ensures var inLeft, i := Lt(k, t.keys[idx]), Route(t.keys, k);
      var half := PutSep(HalfFor(t, idx, inLeft), st.out.left, st.out.sep, st.out.right);
      var out := if half.Some? then Halves(t, idx, inLeft, half.value, rp, stale) else Crash;
      Correct(t, h, lo, hi, k, v, Step(out, al, st.taken + {rp})) <==>
        && Correct(t.kids[i], h - 1, LoOf(t.keys, lo, i), HiOf(t.keys, hi, i), k, v, st)
        && HalfRoom(t, idx, inLeft, st.out.sep) && rp in stale && (inLeft ==> idx + 1 < |t.keys|)
  {
    var inLeft, i := Lt(k, t.keys[idx]), Route(t.keys, k);
    var b, lo', hi' := HalfStage(t, h - 1, lo, hi, k, st, idx);
    var half := PutSep(b, st.out.left, st.out.sep, st.out.right);
    HalfIff(b, h - 1, lo', hi', k, v, st, t.kids[i], LoOf(t.keys, lo, i), HiOf(t.keys, hi, i), half);
    if half.Some? {
      if !inLeft && |half.value.keys| == 0 {
        EmptyHalfWrong(t, h, lo, hi, k, v, Step(Halves(t, idx, inLeft, half.value, rp, stale), al, st.taken + {rp}));
      } else {
        HalvesIff(t, h, lo, hi, k, v, idx, half.value, rp, stale, st, al);
      }
    }
  }

  /** Splitting an internal node is right if and only if the child's write was and the guards of the split hold. */
  lemma {:induction false} NodeSplitIff(t: Tree, h: nat, lo: Option<Bytes>, hi: Option<Bytes>, k: Bytes, v: Bytes, st: Step, al: Alloc,
                                        stale: set<PageId>)
    requires t.NodeT? && |t.kids| == |t.keys| + 1 && WF(t, h, lo, hi) && Distinct(t)
    requires BodyReady(Body(t.keys, t.kids), h - 1, lo, hi, k, st) && st.out.Split?
    requires st.taken !! Pids(t) && NextId(al) !in Pids(t) + st.taken
    ensures var up := NodeSplit(t, st.out.left, st.out.sep, st.out.right, al, stale);
      var i := Route(t.keys, k);
      Correct(t, h, lo, hi, k, v, up.(taken := st.taken + up.taken)) <==>
        && Correct(t.kids[i], h - 1, LoOf(t.keys, lo, i), HiOf(t.keys, hi, i), k, v, st)
        && NodeSplitOk(t.keys, st.out.sep, NextId(al), stale)
  {
    var sep, idx := st.out.sep, SplitIndex(SepSizes(t.keys));
    if idx < |t.keys| {
      SepSide(t.keys, lo, hi, k, sep, idx);
      SplitHalfIff(t, h, lo, hi, k, v, st, Taken(al), stale, idx, NextId(al));
      NodeSplitOutcome(t, st, al, stale, idx, Lt(k, t.keys[idx]));
      GuardsOfHalf(t, sep, NextId(al), stale, idx);
    }
  }

  lemma {:induction false} NodeSplitOutcome(t: Tree, st: Step, al: Alloc, stale: set<PageId>, idx: nat, inLeft: bool)
    requires t.NodeT? && |t.kids| == |t.keys| + 1 && st.out.Split?
    requires idx == SplitIndex(SepSizes(t.keys)) && idx < |t.keys| && inLeft == Lt(st.out.sep, t.keys[idx])
    ensures var half := PutSep(HalfFor(t, idx, inLeft), st.out.left, st.out.sep, st.out.right);
      NodeSplit(t, st.out.left, st.out.sep, st.out.right, al, stale) ==
        Step(if half.Some? then Halves(t, idx, inLeft, half.value, NextId(al), stale) else Crash, Taken(al), {NextId(al)})
  {
  }

  // ------------------------------------------------------------ pages taken

  /** The ids an allocator hands out, in order: the free pages, then new ones. */
  function Upcoming(al: Alloc): seq<PageId> {
    al.freeList + [al.maxId + 1, al.maxId + 2]
  }

  /** A leaf root that splits takes a page for the new root first and one for the right half second. */
  lemma {:induction false} LeafRootPages(t: Tree, k: Bytes, v: Bytes, al: Alloc, stale: set<PageId>)
    requires t.LeafT? && |t.page.slots| == |t.page.elems| && LeafOverflow(t, k, v, true, al, stale).out.Whole?
    ensures var root := LeafOverflow(t, k, v, true, al, stale).out.t;
      root.NodeT? && root.pid == Upcoming(al)[0] && |root.kids| >= 1 && root.kids[0].pid == t.pid
      && (|root.kids| == 2 ==> root.kids[1].pid == Upcoming(al)[1])
  {
  }

  /** So does an internal root. */
  lemma {:induction false} NodeRootPages(t: Tree, l: Tree, sep: Bytes, r: Tree, al: Alloc, stale: set<PageId>)
    requires t.NodeT? && |t.kids| == |t.keys| + 1 && NodeOverflow(t, l, sep, r, true, al, stale).out.Whole?
    ensures var root := NodeOverflow(t, l, sep, r, true, al, stale).out.t;
      root.NodeT? && root.pid == Upcoming(al)[0] && |root.kids| >= 1 && root.kids[0].pid == t.pid
      && (|root.kids| == 2 ==> root.kids[1].pid == Upcoming(al)[1])
  {
  }
}
