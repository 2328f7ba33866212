/** Structure of well-formed trees: concatenation of children, key bounds and lookup. */
module TreeStructure {
  import opened Bytes
  import opened Assoc
  import opened Pages
  import opened Trees

  lemma {:induction false} FlatConcat(a: seq<Tree>, b: seq<Tree>)
    ensures FlatAll(a + b) == FlatAll(a) + FlatAll(b)
  {
    if b == [] {
      assert a + b == a;
    } else {
      FlatConcat(a, b[..|b| - 1]);
      assert (a + b)[..|a + b| - 1] == a + b[..|b| - 1];
    }
  }

  lemma {:induction false} FlatOne(t: Tree)
    ensures FlatAll([t]) == Flat(t)
  {
    assert [t][..0] == [];
    assert FlatAll([t][..0]) == [];
  }

  /** Flat around a middle part of the children. */
  lemma {:induction false} FlatThree(a: seq<Tree>, m: seq<Tree>, c: seq<Tree>)
    ensures FlatAll(a + m + c) == FlatAll(a) + FlatAll(m) + FlatAll(c)
  {
    FlatConcat(a + m, c);
    FlatConcat(a, m);
  }

  lemma {:induction false} FlatTwo(l: Tree, r: Tree)
    ensures FlatAll([l, r]) == Flat(l) + Flat(r)
  {
    assert [l, r] == [l] + [r];
    FlatConcat([l], [r]);
    FlatOne(l);
    FlatOne(r);
  }

  lemma {:induction false} FlatAt(kids: seq<Tree>, i: nat)
    requires i < |kids|
    ensures FlatAll(kids) == FlatAll(kids[..i]) + Flat(kids[i]) + FlatAll(kids[i + 1..])
  {
    assert kids == kids[..i] + [kids[i]] + kids[i + 1..];
    FlatThree(kids[..i], [kids[i]], kids[i + 1..]);
    FlatOne(kids[i]);
  }

  lemma {:induction false} LeavesConcat(a: seq<Tree>, b: seq<Tree>)
    ensures LeavesAll(a + b) == LeavesAll(a) + LeavesAll(b)
  {
    if b == [] {
      assert a + b == a;
    } else {
      LeavesConcat(a, b[..|b| - 1]);
      assert (a + b)[..|a + b| - 1] == a + b[..|b| - 1];
    }
  }

  lemma {:induction false} LeavesOne(t: Tree)
    ensures LeavesAll([t]) == Leaves(t)
  {
    assert [t][..0] == [];
    assert LeavesAll([t][..0]) == [];
  }

  /** Leaves around a middle part of the children. */
  lemma {:induction false} LeavesThree(a: seq<Tree>, m: seq<Tree>, c: seq<Tree>)
    ensures LeavesAll(a + m + c) == LeavesAll(a) + LeavesAll(m) + LeavesAll(c)
  {
    LeavesConcat(a + m, c);
    LeavesConcat(a, m);
  }

  lemma {:induction false} LeavesTwo(l: Tree, r: Tree)
    ensures LeavesAll([l, r]) == Leaves(l) + Leaves(r)
  {
    assert [l, r] == [l] + [r];
    LeavesConcat([l], [r]);
    LeavesOne(l);
    LeavesOne(r);
  }

  lemma {:induction false} LeavesAt(kids: seq<Tree>, i: nat)
    requires i < |kids|
    ensures LeavesAll(kids) == LeavesAll(kids[..i]) + Leaves(kids[i]) + LeavesAll(kids[i + 1..])
  {
    assert kids == kids[..i] + [kids[i]] + kids[i + 1..];
    LeavesThree(kids[..i], [kids[i]], kids[i + 1..]);
    LeavesOne(kids[i]);
  }

  lemma {:induction false} PidsConcat(a: seq<Tree>, b: seq<Tree>)
    ensures PidsAll(a + b) == PidsAll(a) + PidsAll(b)
  {
    if b == [] {
      assert a + b == a;
    } else {
      PidsConcat(a, b[..|b| - 1]);
      assert (a + b)[..|a + b| - 1] == a + b[..|b| - 1];
    }
  }

  lemma {:induction false} PidsOne(t: Tree)
    ensures PidsAll([t]) == Pids(t)
  {
    assert [t][..0] == [];
    assert PidsAll([t][..0]) == {};
  }

  /** Pids around a middle part of the children. */
  lemma {:induction false} PidsThree(a: seq<Tree>, m: seq<Tree>, c: seq<Tree>)
    ensures PidsAll(a + m + c) == PidsAll(a) + PidsAll(m) + PidsAll(c)
  {
    PidsConcat(a + m, c);
    PidsConcat(a, m);
  }

  lemma {:induction false} PidsTwo(l: Tree, r: Tree)
    ensures PidsAll([l, r]) == Pids(l) + Pids(r)
  {
    assert [l, r] == [l] + [r];
    PidsConcat([l], [r]);
    PidsOne(l);
    PidsOne(r);
  }

  lemma {:induction false} PidsAt(kids: seq<Tree>, i: nat)
    requires i < |kids|
    ensures PidsAll(kids) == PidsAll(kids[..i]) + Pids(kids[i]) + PidsAll(kids[i + 1..])
  {
    assert kids == kids[..i] + [kids[i]] + kids[i + 1..];
    PidsThree(kids[..i], [kids[i]], kids[i + 1..]);
    PidsOne(kids[i]);
  }

  lemma {:induction false} DistinctConcat(a: seq<Tree>, b: seq<Tree>)
    ensures DistinctAll(a + b) <==> DistinctAll(a) && DistinctAll(b) && PidsAll(a) !! PidsAll(b)
  {
    if b == [] {
      assert a + b == a;
    } else {
      DistinctConcat(a, b[..|b| - 1]);
      PidsConcat(a, b[..|b| - 1]);
      assert (a + b)[..|a + b| - 1] == a + b[..|b| - 1];
    }
  }

  lemma {:induction false} DistinctThree(a: seq<Tree>, m: seq<Tree>, c: seq<Tree>)
    ensures DistinctAll(a + m + c) <==>
      && DistinctAll(a) && DistinctAll(m) && DistinctAll(c)
      && PidsAll(a) !! PidsAll(m) && PidsAll(a) !! PidsAll(c) && PidsAll(m) !! PidsAll(c)
  {
    PidsConcat(a, m);
    DistinctConcat(a + m, c);
    DistinctConcat(a, m);
  }

  lemma {:induction false} DistinctOne(t: Tree)
    ensures DistinctAll([t]) <==> Distinct(t)
  {
    assert [t][..0] == [];
  }

  lemma {:induction false} DistinctTwo(l: Tree, r: Tree)
    ensures DistinctAll([l, r]) <==> Distinct(l) && Distinct(r) && Pids(l) !! Pids(r)
  {
    assert [l, r] == [l] + [r];
    DistinctConcat([l], [r]);
    DistinctOne(l);
    DistinctOne(r);
    PidsOne(l);
    PidsOne(r);
  }

  lemma {:induction false} WFShaped(t: Tree, h: nat, lo: Option<Bytes>, hi: Option<Bytes>)
    requires WF(t, h, lo, hi)
    ensures Shaped(t)
    decreases t
  {
    if t.NodeT? {
      forall i | 0 <= i < |t.kids| ensures Shaped(t.kids[i]) {
        WFShaped(t.kids[i], h - 1, LoOf(t.keys, lo, i), HiOf(t.keys, hi, i));
      }
    }
  }

  // ------------------------------------------------------------------ bounds

  /** A subtree holds strictly ascending keys inside its bounds. */
  lemma {:induction false} FlatOk(t: Tree, h: nat, lo: Option<Bytes>, hi: Option<Bytes>)
    requires WF(t, h, lo, hi)
    ensures Sorted(Flat(t)) && Within(Flat(t), lo, hi)
    decreases t, 0
  {
    if t.NodeT? {
      assert t.kids[0..|t.kids|] == t.kids;
      SegmentOk(t.keys, t.kids, h - 1, lo, hi, 0, |t.kids|);
    }
  }

  /** The elements of the children a, ..., b - 1. */
  ghost function FlatSpan(kids: seq<Tree>, a: nat, b: nat): seq<KV>
    requires a <= b <= |kids|
  {
    if a == b then [] else FlatSpan(kids, a, b - 1) + Flat(kids[b - 1])
  }

  lemma {:induction false} FlatSpanIs(kids: seq<Tree>, a: nat, b: nat)
    requires a <= b <= |kids|
    ensures FlatAll(kids[a..b]) == FlatSpan(kids, a, b)
    decreases b - a
  {
    if a < b {
      FlatSpanIs(kids, a, b - 1);
      var s := kids[a..b];
      assert s[..|s| - 1] == kids[a..b - 1] && s[|s| - 1] == kids[b - 1];
    }
  }

  /** Ascending keys inside the bounds. */
  ghost predicate Fine(s: seq<KV>, lo: Option<Bytes>, hi: Option<Bytes>) {
    Sorted(s) && Within(s, lo, hi)
  }

  /** Every child holds ascending keys between the separators around it. */
  ghost predicate KidsFine(keys: seq<Bytes>, kids: seq<Tree>, lo: Option<Bytes>, hi: Option<Bytes>) {
    && |kids| == |keys| + 1 && KeysOk(keys, lo, hi)
    && forall i | 0 <= i < |kids| :: Fine(Flat(kids[i]), LoOf(keys, lo, i), HiOf(keys, hi, i))
  }

  lemma {:induction false} KidsAreFine(keys: seq<Bytes>, kids: seq<Tree>, h: nat, lo: Option<Bytes>, hi: Option<Bytes>)
    requires KidsWF(keys, kids, h, lo, hi)
    ensures KidsFine(keys, kids, lo, hi)
    decreases kids, 0
  {
    forall i | 0 <= i < |kids| ensures Fine(Flat(kids[i]), LoOf(keys, lo, i), HiOf(keys, hi, i)) {
      FlatOk(kids[i], h, LoOf(keys, lo, i), HiOf(keys, hi, i));
    }
  }

  /** So do consecutive children together. */
  lemma {:induction false} SpanOk(keys: seq<Bytes>, kids: seq<Tree>, lo: Option<Bytes>, hi: Option<Bytes>, a: nat, b: nat)
    requires KidsFine(keys, kids, lo, hi) && a < b <= |kids|
    ensures Fine(FlatSpan(kids, a, b), LoOf(keys, lo, a), HiOf(keys, hi, b - 1))
    decreases b - a
  {
    SpanUnfolds(kids, a, b);
    if a < b - 1 {
      SpanOk(keys, kids, lo, hi, a, b - 1);
      SpanStep(keys, lo, hi, a, b, FlatSpan(kids, a, b - 1), Flat(kids[b - 1]));
    }
  }

  lemma {:induction false} SpanUnfolds(kids: seq<Tree>, a: nat, b: nat)
    requires a < b <= |kids|
    ensures FlatSpan(kids, a, b) == if a == b - 1 then Flat(kids[a]) else FlatSpan(kids, a, b - 1) + Flat(kids[b - 1])
  {
    if a == b - 1 {
      assert FlatSpan(kids, a, a) + Flat(kids[a]) == Flat(kids[a]);
    }
  }

  lemma {:induction false} SpanStep(keys: seq<Bytes>, lo: Option<Bytes>, hi: Option<Bytes>, a: nat, b: nat, x: seq<KV>, y: seq<KV>)
    requires KeysOk(keys, lo, hi) && a + 1 < b <= |keys| + 1
    requires Fine(x, LoOf(keys, lo, a), HiOf(keys, hi, b - 2)) && Fine(y, LoOf(keys, lo, b - 1), HiOf(keys, hi, b - 1))
    ensures Fine(x + y, LoOf(keys, lo, a), HiOf(keys, hi, b - 1))
  {
    BoundsAscend(keys, lo, hi, a, b - 1);
    GlueBounds(x, y, LoOf(keys, lo, a), keys[b - 2], HiOf(keys, hi, b - 1));
  }

  lemma {:induction false} SegmentOk(keys: seq<Bytes>, kids: seq<Tree>, h: nat, lo: Option<Bytes>, hi: Option<Bytes>, a: nat, b: nat)
    requires KidsWF(keys, kids, h, lo, hi) && a < b <= |kids|
    ensures Sorted(FlatAll(kids[a..b]))
    ensures Within(FlatAll(kids[a..b]), LoOf(keys, lo, a), HiOf(keys, hi, b - 1))
    decreases kids, 1
  {
    KidsAreFine(keys, kids, h, lo, hi);
    SpanOk(keys, kids, lo, hi, a, b);
    FlatSpanIs(kids, a, b);
  }

  lemma {:induction false} BoundsAscend(keys: seq<Bytes>, lo: Option<Bytes>, hi: Option<Bytes>, a: nat, b: nat)
    requires KeysOk(keys, lo, hi) && a < b <= |keys|
    ensures Above(LoOf(keys, lo, a), keys[b - 1]) && Below(keys[b - 1], HiOf(keys, hi, b))
  {
  }

  lemma {:induction false} GlueBounds(x: seq<KV>, y: seq<KV>, lo: Option<Bytes>, m: Bytes, hi: Option<Bytes>)
    requires Sorted(x) && Within(x, lo, Some(m)) && Sorted(y) && Within(y, Some(m), hi)
    requires (lo.Some? ==> Lt(lo.value, m)) && (hi.Some? ==> Lt(m, hi.value))
    ensures Sorted(x + y) && Within(x + y, lo, hi)
  {
    OrderFacts();
  }

  /** The child a key is routed to is the only one that can hold it. */
  lemma {:induction false} RouteAround(keys: seq<Bytes>, kids: seq<Tree>, h: nat, lo: Option<Bytes>, hi: Option<Bytes>, k: Bytes)
    requires KidsWF(keys, kids, h, lo, hi)
    ensures var i := Route(keys, k); Around(FlatAll(kids[..i]), k, FlatAll(kids[i + 1..]))
  {
    var i := Route(keys, k);
    if i > 0 {
      RouteBefore(keys, kids, h, lo, hi, k);
    }
    if i + 1 < |kids| {
      RouteAfter(keys, kids, h, lo, hi, k);
    }
  }

  lemma {:induction false} RouteBefore(keys: seq<Bytes>, kids: seq<Tree>, h: nat, lo: Option<Bytes>, hi: Option<Bytes>, k: Bytes)
    requires KidsWF(keys, kids, h, lo, hi) && Route(keys, k) > 0
    ensures Around(FlatAll(kids[..Route(keys, k)]), k, [])
  {
    var i := Route(keys, k);
    SegmentOk(keys, kids, h, lo, hi, 0, i);
    assert kids[0..i] == kids[..i];
    BeforeKey(FlatAll(kids[..i]), lo, keys[i - 1], k);
  }

  lemma {:induction false} RouteAfter(keys: seq<Bytes>, kids: seq<Tree>, h: nat, lo: Option<Bytes>, hi: Option<Bytes>, k: Bytes)
    requires KidsWF(keys, kids, h, lo, hi) && Route(keys, k) + 1 < |kids|
    ensures Around([], k, FlatAll(kids[Route(keys, k) + 1..]))
  {
    var i := Route(keys, k);
    SegmentOk(keys, kids, h, lo, hi, i + 1, |kids|);
    assert kids[i + 1..|kids|] == kids[i + 1..];
    AfterKey(FlatAll(kids[i + 1..]), keys[i], hi, k);
  }

  lemma {:induction false} BeforeKey(a: seq<KV>, lo: Option<Bytes>, m: Bytes, k: Bytes)
    requires Within(a, lo, Some(m)) && !Lt(k, m)
    ensures forall i | 0 <= i < |a| :: Lt(a[i].key, k)
  {
    OrderFacts();
  }

  lemma {:induction false} AfterKey(c: seq<KV>, m: Bytes, hi: Option<Bytes>, k: Bytes)
    requires Within(c, Some(m), hi) && Lt(k, m)
    ensures forall i | 0 <= i < |c| :: Lt(k, c[i].key)
  {
    OrderFacts();
  }

  /** Lookup in the tree is lookup in its elements. */
  lemma {:induction false} GetIsLookup(t: Tree, h: nat, lo: Option<Bytes>, hi: Option<Bytes>, k: Bytes)
    requires WF(t, h, lo, hi) && Shaped(t)
    ensures Get(t, k) == Lookup(Flat(t), k)
    decreases t
  {
    if t.NodeT? {
      var i := Route(t.keys, k);
      GetIsLookup(t.kids[i], h - 1, LoOf(t.keys, lo, i), HiOf(t.keys, hi, i), k);
      RouteAround(t.keys, t.kids, h - 1, lo, hi, k);
      FlatAt(t.kids, i);
      LookupInContext(FlatAll(t.kids[..i]), Flat(t.kids[i]), FlatAll(t.kids[i + 1..]), k);
    }
  }
}
