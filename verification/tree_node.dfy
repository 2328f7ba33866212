/** Internal nodes: installing written children and splitting, with the exact conditions. */
module TreeNode {
  import opened Bytes
  import opened Assoc
  import opened Pages
  import opened Trees
  import opened TreeStructure
  import opened TreeFrame
  import opened TreeRoutes
  import opened TreeInsert

  // --------------------------------------------------------------- free space

  lemma {:induction false} UsedKeysPrefix(a: seq<Bytes>, b: seq<Bytes>, n: nat)
    requires n <= |a|
    ensures UsedKeysTo(a + b, n) == UsedKeysTo(a, n)
  {
    if n > 0 {
      UsedKeysPrefix(a, b, n - 1);
    }
  }

  lemma {:induction false} UsedKeysSuffix(a: seq<Bytes>, b: seq<Bytes>, n: nat)
    requires n <= |b|
    ensures UsedKeysTo(a + b, |a| + n) == UsedKeysTo(a, |a|) + UsedKeysTo(b, n)
  {
    if n == 0 {
      UsedKeysPrefix(a, b, |a|);
    } else {
      UsedKeysSuffix(a, b, n - 1);
    }
  }

  lemma {:induction false} UsedKeysConcat(a: seq<Bytes>, b: seq<Bytes>)
    ensures UsedKeys(a + b) == UsedKeys(a) + UsedKeys(b)
  {
    UsedKeysSuffix(a, b, |b|);
  }

  lemma {:induction false} UsedKeysInsert(keys: seq<Bytes>, i: nat, sep: Bytes)
    requires i <= |keys|
    ensures FreeKeys(keys[..i] + [sep] + keys[i..]) == FreeKeys(keys) - SepSize(sep) - SLOT_SIZE
  {
    UsedKeysConcat(keys[..i] + [sep], keys[i..]);
    UsedKeysConcat(keys[..i], [sep]);
    UsedKeysConcat(keys[..i], keys[i..]);
    assert keys[..i] + keys[i..] == keys;
    assert UsedKeysTo([sep], 1) == UsedKeysTo([sep], 0) + SepSize(sep) + SLOT_SIZE;
  }

  lemma {:induction false} UsedKeysHalves(keys: seq<Bytes>, idx: nat)
    requires idx < |keys|
    ensures FreeKeys(keys[..idx]) >= FreeKeys(keys) && FreeKeys(keys[idx + 1..]) >= FreeKeys(keys)
  {
    UsedKeysConcat(keys[..idx], keys[idx..]);
    UsedKeysConcat(keys[idx..idx + 1], keys[idx + 1..]);
    assert keys[..idx] + keys[idx..] == keys;
    assert keys[idx..idx + 1] + keys[idx + 1..] == keys[idx..];
  }

  // ------------------------------------------------------------ children lists

  /** Replacing child i keeps the node well formed exactly when the new child is. */
  lemma {:induction false} ReplaceKidIff(keys: seq<Bytes>, kids: seq<Tree>, h: nat, lo: Option<Bytes>, hi: Option<Bytes>, i: nat, c: Tree)
    requires KidsWF(keys, kids, h, lo, hi) && i < |kids|
    ensures KidsWF(keys, kids[i := c], h, lo, hi) <==> WF(c, h, LoOf(keys, lo, i), HiOf(keys, hi, i))
  {
    var ks := kids[i := c];
    if KidsWF(keys, ks, h, lo, hi) {
      assert WF(ks[i], h, LoOf(keys, lo, i), HiOf(keys, hi, i));
    }
  }

  lemma {:induction false} InsertedKeysOk(keys: seq<Bytes>, lo: Option<Bytes>, hi: Option<Bytes>, i: nat, sep: Bytes)
    requires KeysOk(keys, lo, hi) && i <= |keys|
    requires Above(LoOf(keys, lo, i), sep) && Below(sep, HiOf(keys, hi, i))
    ensures KeysOk(keys[..i] + [sep] + keys[i..], lo, hi)
  {
    SeparatesKeys(keys, lo, hi, i, sep);
    var ks := keys[..i] + [sep] + keys[i..];
    InsertedAt(keys, i, sep);
    forall j | 0 <= j < |ks| ensures Above(lo, ks[j]) && Below(ks[j], hi) {
      if j == i {
        SepWithin(keys, lo, hi, i, sep);
      }
    }
  }

  lemma {:induction false} InsertedAt(keys: seq<Bytes>, i: nat, sep: Bytes)
    requires i <= |keys|
    ensures var ks := keys[..i] + [sep] + keys[i..];
      |ks| == |keys| + 1 && forall j | 0 <= j < |ks| :: ks[j] == (if j < i then keys[j] else if j == i then sep else keys[j - 1])
  {
  }

  lemma {:induction false} SepWithin(keys: seq<Bytes>, lo: Option<Bytes>, hi: Option<Bytes>, i: nat, sep: Bytes)
    requires KeysOk(keys, lo, hi) && i <= |keys| && Above(LoOf(keys, lo, i), sep) && Below(sep, HiOf(keys, hi, i))
    ensures Above(lo, sep) && Below(sep, hi)
  {
    OrderFacts();
  }

  lemma {:induction false} SeparatesKeys(keys: seq<Bytes>, lo: Option<Bytes>, hi: Option<Bytes>, i: nat, sep: Bytes)
    requires KeysOk(keys, lo, hi) && i <= |keys|
    requires Above(LoOf(keys, lo, i), sep) && Below(sep, HiOf(keys, hi, i))
    ensures forall j | 0 <= j < |keys| :: if j < i then Lt(keys[j], sep) else Lt(sep, keys[j])
  {
    OrderFacts();
  }

  /** The bounds around each child after a separator is inserted in gap i. */
  lemma {:induction false} InsertedBounds(keys: seq<Bytes>, lo: Option<Bytes>, hi: Option<Bytes>, i: nat, sep: Bytes, j: nat)
    requires i <= |keys| && j <= |keys| + 1
    ensures var ks := keys[..i] + [sep] + keys[i..];
      && (j < i ==> LoOf(ks, lo, j) == LoOf(keys, lo, j) && HiOf(ks, hi, j) == HiOf(keys, hi, j))
      && (j == i ==> LoOf(ks, lo, j) == LoOf(keys, lo, i) && HiOf(ks, hi, j) == Some(sep))
      && (j == i + 1 ==> LoOf(ks, lo, j) == Some(sep) && HiOf(ks, hi, j) == HiOf(keys, hi, i))
      && (j > i + 1 ==> LoOf(ks, lo, j) == LoOf(keys, lo, j - 1) && HiOf(ks, hi, j) == HiOf(keys, hi, j - 1))
  {
  }

  /** Two children and a separator in place of child i. */
  lemma {:induction false} InsertKidsIff(keys: seq<Bytes>, kids: seq<Tree>, h: nat, lo: Option<Bytes>, hi: Option<Bytes>, i: nat, l: Tree,
                                         sep: Bytes, r: Tree)
    requires KidsWF(keys, kids, h, lo, hi) && i < |kids|
    requires Above(LoOf(keys, lo, i), sep) && Below(sep, HiOf(keys, hi, i))
    ensures KidsWF(keys[..i] + [sep] + keys[i..], kids[..i] + [l, r] + kids[i + 1..], h, lo, hi) <==>
      WF(l, h, LoOf(keys, lo, i), Some(sep)) && WF(r, h, Some(sep), HiOf(keys, hi, i))
  {
    var keys', kids' := keys[..i] + [sep] + keys[i..], kids[..i] + [l, r] + kids[i + 1..];
    InsertedKeysOk(keys, lo, hi, i, sep);
    InsertedBounds(keys, lo, hi, i, sep, i);
    InsertedBounds(keys, lo, hi, i, sep, i + 1);
    assert kids'[i] == l && kids'[i + 1] == r;
    KidAt(keys', kids', h, lo, hi, i);
    KidAt(keys', kids', h, lo, hi, i + 1);
    if WF(l, h, LoOf(keys, lo, i), Some(sep)) && WF(r, h, Some(sep), HiOf(keys, hi, i)) {
      forall j | 0 <= j < |kids'| ensures WF(kids'[j], h, LoOf(keys', lo, j), HiOf(keys', hi, j)) {
        InsertedBounds(keys, lo, hi, i, sep, j);
        if j < i {
          assert kids'[j] == kids[j];
        } else if j > i + 1 {
          assert kids'[j] == kids[j - 1];
        }
      }
    }
  }

  lemma {:induction false} KidAt(keys: seq<Bytes>, kids: seq<Tree>, h: nat, lo: Option<Bytes>, hi: Option<Bytes>, i: nat)
    requires |kids| == |keys| + 1 && i < |kids|
    ensures KidsWF(keys, kids, h, lo, hi) ==> WF(kids[i], h, LoOf(keys, lo, i), HiOf(keys, hi, i))
  {
  }

  /** The two sides of separator idx are well formed on their own. */
  lemma {:induction false} HalvesWF(keys: seq<Bytes>, kids: seq<Tree>, h: nat, lo: Option<Bytes>, hi: Option<Bytes>, idx: nat)
    requires KidsWF(keys, kids, h, lo, hi) && idx < |keys|
    ensures KidsWF(keys[..idx], kids[..idx + 1], h, lo, Some(keys[idx]))
    ensures KidsWF(keys[idx + 1..], kids[idx + 1..], h, Some(keys[idx]), hi)
  {
    var up := keys[idx];
    var a, b := keys[..idx], keys[idx + 1..];
    forall j | 0 <= j < idx + 1 ensures WF(kids[..idx + 1][j], h, LoOf(a, lo, j), HiOf(a, Some(up), j)) {
      assert LoOf(a, lo, j) == LoOf(keys, lo, j) && HiOf(a, Some(up), j) == HiOf(keys, hi, j);
      assert WF(kids[j], h, LoOf(keys, lo, j), HiOf(keys, hi, j));
    }
    forall j | 0 <= j < |kids| - idx - 1 ensures WF(kids[idx + 1..][j], h, LoOf(b, Some(up), j), HiOf(b, hi, j)) {
      var n := j + idx + 1;
      assert LoOf(b, Some(up), j) == LoOf(keys, lo, n) && HiOf(b, hi, j) == HiOf(keys, hi, n);
      assert WF(kids[n], h, LoOf(keys, lo, n), HiOf(keys, hi, n));
    }
  }

  // ------------------------------------------------------------- cancellation

  lemma {:induction false} CancelSeq(a: seq<KV>, x: seq<KV>, y: seq<KV>, c: seq<KV>)
    ensures a + x + c == a + y + c <==> x == y
  {
    if a + x + c == a + y + c {
      assert x == (a + x + c)[|a|..|a| + |x|];
      assert y == (a + y + c)[|a|..|a| + |y|];
    }
  }

  // ------------------------------------------------------------- node bodies

  /** The body b' is the body b after k was put to v below it. */
  ghost predicate BodyCorrect(b: Body, h: nat, lo: Option<Bytes>, hi: Option<Bytes>, k: Bytes, v: Bytes, taken: set<PageId>, b': Body) {
    && KidsWF(b'.keys, b'.kids, h, lo, hi) && FreeKeys(b'.keys) >= 0
    && FlatAll(b'.kids) == Put(FlatAll(b.kids), k, v)
    && PidsAll(b.kids) + taken <= PidsAll(b'.kids)
  }

  /** What the caller knows about a body and the write below its child for k. */
  ghost predicate BodyReady(b: Body, h: nat, lo: Option<Bytes>, hi: Option<Bytes>, k: Bytes, st: Step) {
    && KidsWF(b.keys, b.kids, h, lo, hi) && FreeKeys(b.keys) >= 0 && DistinctAll(b.kids)
    && st.taken !! PidsAll(b.kids)
    && OutPids(st.out) <= Pids(b.kids[Route(b.keys, k)]) + st.taken && OutDistinct(st.out)
    && (st.out.Split? ==>
          var i := Route(b.keys, k);
          Above(LoOf(b.keys, lo, i), st.out.sep) && Below(st.out.sep, HiOf(b.keys, hi, i)))
  }

  lemma {:induction false} KidFlatIff(kids: seq<Tree>, keys: seq<Bytes>, h: nat, lo: Option<Bytes>, hi: Option<Bytes>, k: Bytes, v: Bytes,
                                      x: seq<KV>)
    requires KidsWF(keys, kids, h, lo, hi)
    ensures var i := Route(keys, k);
      FlatAll(kids[..i]) + x + FlatAll(kids[i + 1..]) == Put(FlatAll(kids), k, v) <==> x == Put(Flat(kids[i]), k, v)
  {
    var i := Route(keys, k);
    var a, c := FlatAll(kids[..i]), FlatAll(kids[i + 1..]);
    RouteAround(keys, kids, h, lo, hi, k);
    FlatAt(kids, i);
    PutInContext(a, Flat(kids[i]), c, k, v);
    CancelSeq(a, x, Put(Flat(kids[i]), k, v), c);
  }

  lemma {:induction false} ReplaceFlatIff(keys: seq<Bytes>, kids: seq<Tree>, h: nat, lo: Option<Bytes>, hi: Option<Bytes>, k: Bytes,
                                          v: Bytes, m: seq<Tree>)
    requires KidsWF(keys, kids, h, lo, hi)
    ensures var i := Route(keys, k);
      FlatAll(kids[..i] + m + kids[i + 1..]) == Put(FlatAll(kids), k, v) <==> FlatAll(m) == Put(Flat(kids[i]), k, v)
  {
    var i := Route(keys, k);
    FlatThree(kids[..i], m, kids[i + 1..]);
    KidFlatIff(kids, keys, h, lo, hi, k, v, FlatAll(m));
  }

  /** The children own what they should exactly when the new middle part does. */
  lemma {:induction false} ReplacePidsIff(kids: seq<Tree>, i: nat, m: seq<Tree>, taken: set<PageId>)
    requires i < |kids| && DistinctAll(kids) && taken !! PidsAll(kids)
    ensures PidsAll(kids) + taken <= PidsAll(kids[..i] + m + kids[i + 1..]) <==> Pids(kids[i]) + taken <= PidsAll(m)
  {
    PidsThree(kids[..i], m, kids[i + 1..]);
    PidsAt(kids, i);
    DistinctKid(kids, i);
    OwnsIff(PidsAll(kids[..i]), PidsAll(m), PidsAll(kids[i + 1..]), Pids(kids[i]), taken);
  }

  lemma {:induction false} OwnsIff(a: set<PageId>, m: set<PageId>, c: set<PageId>, own: set<PageId>, taken: set<PageId>)
    requires a + c !! own + taken
    ensures (a + own + c) + taken <= a + m + c <==> own + taken <= m
  {
    if (a + own + c) + taken <= a + m + c {
      forall p | p in own + taken ensures p in m {
        assert p in a + own + c + taken;
      }
    }
  }

  lemma {:induction false} SetAsConcat(kids: seq<Tree>, i: nat, c: Tree)
    requires i < |kids|
    ensures kids[i := c] == kids[..i] + [c] + kids[i + 1..]
  {
  }

  /** A child written in place. */
  lemma {:induction false} WholeIff(b: Body, h: nat, lo: Option<Bytes>, hi: Option<Bytes>, k: Bytes, v: Bytes, st: Step)
    requires BodyReady(b, h, lo, hi, k, st) && st.out.Whole?
    ensures var i := Route(b.keys, k);
      BodyCorrect(b, h, lo, hi, k, v, st.taken, b.(kids := b.kids[i := st.out.t])) <==>
        Correct(b.kids[i], h, LoOf(b.keys, lo, i), HiOf(b.keys, hi, i), k, v, st)
  {
    var i, c := Route(b.keys, k), st.out.t;
    ReplaceKidIff(b.keys, b.kids, h, lo, hi, i, c);
    SetAsConcat(b.kids, i, c);
    FlatOne(c);
    PidsOne(c);
    ReplaceFlatIff(b.keys, b.kids, h, lo, hi, k, v, [c]);
    ReplacePidsIff(b.kids, i, [c], st.taken);
  }

  lemma {:induction false} PutSepTaken(b: Body, l: Tree, sep: Bytes, r: Tree, i: nat)
    requires |b.kids| == |b.keys| + 1 && Route(b.keys, sep) == i && SepSize(sep) + SLOT_SIZE <= FreeKeys(b.keys)
    ensures PutSep(b, l, sep, r) == Some(InsertedBody(b, i, l, sep, r))
  {
    assert FreeKeys(b.keys) <= CAPACITY;
  }

  lemma {:induction false} PutSepLost(b: Body, l: Tree, sep: Bytes, r: Tree, i: nat)
    requires |b.kids| == |b.keys| + 1 && Route(b.keys, sep) == i && SepSize(sep) + SLOT_SIZE > FreeKeys(b.keys)
    ensures var b' := PutSep(b, l, sep, r);
      b'.Some? ==> b'.value == b.(kids := b.kids[..i] + [l] + b.kids[i + 1..])
  {
    SetAsConcat(b.kids, i, l);
  }

  function InsertedBody(b: Body, i: nat, l: Tree, sep: Bytes, r: Tree): Body
    requires i <= |b.keys| && i < |b.kids|
  {
    Body(b.keys[..i] + [sep] + b.keys[i..], b.kids[..i] + [l, r] + b.kids[i + 1..])
  }

  lemma {:induction false} InsertedBodyIff(b: Body, h: nat, lo: Option<Bytes>, hi: Option<Bytes>, k: Bytes, v: Bytes, st: Step)
    requires BodyReady(b, h, lo, hi, k, st) && st.out.Split? && SepSize(st.out.sep) + SLOT_SIZE <= FreeKeys(b.keys)
    ensures var i := Route(b.keys, k);
      BodyCorrect(b, h, lo, hi, k, v, st.taken, InsertedBody(b, i, st.out.left, st.out.sep, st.out.right)) <==>
        Correct(b.kids[i], h, LoOf(b.keys, lo, i), HiOf(b.keys, hi, i), k, v, st)
  {
    var i, l, sep, r := Route(b.keys, k), st.out.left, st.out.sep, st.out.right;
    InsertedWFIff(b, h, lo, hi, i, l, sep, r);
    InsertedFlatIff(b, h, lo, hi, k, v, l, sep, r);
    InsertedPidsIff(b, i, l, sep, r, st.taken);
  }

  lemma {:induction false} InsertedWFIff(b: Body, h: nat, lo: Option<Bytes>, hi: Option<Bytes>, i: nat, l: Tree, sep: Bytes, r: Tree)
    requires KidsWF(b.keys, b.kids, h, lo, hi) && i < |b.kids| && SepSize(sep) + SLOT_SIZE <= FreeKeys(b.keys)
    requires Above(LoOf(b.keys, lo, i), sep) && Below(sep, HiOf(b.keys, hi, i))
    ensures var b' := InsertedBody(b, i, l, sep, r);
      KidsWF(b'.keys, b'.kids, h, lo, hi) && FreeKeys(b'.keys) >= 0 <==>
        WF(l, h, LoOf(b.keys, lo, i), Some(sep)) && WF(r, h, Some(sep), HiOf(b.keys, hi, i))
  {
    InsertKidsIff(b.keys, b.kids, h, lo, hi, i, l, sep, r);
    UsedKeysInsert(b.keys, i, sep);
  }

  lemma {:induction false} InsertedFlatIff(b: Body, h: nat, lo: Option<Bytes>, hi: Option<Bytes>, k: Bytes, v: Bytes, l: Tree, sep: Bytes,
                                           r: Tree)
    requires KidsWF(b.keys, b.kids, h, lo, hi)
    ensures var i := Route(b.keys, k);
      FlatAll(InsertedBody(b, i, l, sep, r).kids) == Put(FlatAll(b.kids), k, v) <==> Flat(l) + Flat(r) == Put(Flat(b.kids[i]), k, v)
  {
    FlatTwo(l, r);
    ReplaceFlatIff(b.keys, b.kids, h, lo, hi, k, v, [l, r]);
  }

  lemma {:induction false} InsertedPidsIff(b: Body, i: nat, l: Tree, sep: Bytes, r: Tree, taken: set<PageId>)
    requires i < |b.kids| && i <= |b.keys| && DistinctAll(b.kids) && taken !! PidsAll(b.kids)
    ensures PidsAll(b.kids) + taken <= PidsAll(InsertedBody(b, i, l, sep, r).kids) <==> Pids(b.kids[i]) + taken <= Pids(l) + Pids(r)
  {
    PidsTwo(l, r);
    ReplacePidsIff(b.kids, i, [l, r], taken);
  }

  /** A split child whose separator the page takes. */
  lemma {:induction false} TakenSepIff(b: Body, h: nat, lo: Option<Bytes>, hi: Option<Bytes>, k: Bytes, v: Bytes, st: Step)
    requires BodyReady(b, h, lo, hi, k, st) && st.out.Split? && SepSize(st.out.sep) + SLOT_SIZE <= FreeKeys(b.keys)
    ensures var i := Route(b.keys, k);
      var b' := PutSep(b, st.out.left, st.out.sep, st.out.right);
      && b'.Some?
      && (BodyCorrect(b, h, lo, hi, k, v, st.taken, b'.value) <==>
           Correct(b.kids[i], h, LoOf(b.keys, lo, i), HiOf(b.keys, hi, i), k, v, st))
  {
    var i := Route(b.keys, k);
    RouteSep(b.keys, lo, hi, i, st.out.sep);
    PutSepTaken(b, st.out.left, st.out.sep, st.out.right, i);
    InsertedBodyIff(b, h, lo, hi, k, v, st);
  }

  /** A separator the page refuses loses the pages of the right child. */
  lemma {:induction false} LostSepWrong(b: Body, h: nat, lo: Option<Bytes>, hi: Option<Bytes>, k: Bytes, v: Bytes, st: Step)
    requires BodyReady(b, h, lo, hi, k, st) && st.out.Split? && SepSize(st.out.sep) + SLOT_SIZE > FreeKeys(b.keys)
    ensures var b' := PutSep(b, st.out.left, st.out.sep, st.out.right);
      b'.Some? ==> !BodyCorrect(b, h, lo, hi, k, v, st.taken, b'.value)
  {
    var i, l, sep, r := Route(b.keys, k), st.out.left, st.out.sep, st.out.right;
    RouteSep(b.keys, lo, hi, i, sep);
    PutSepLost(b, l, sep, r, i);
    PidsOne(l);
    ReplacePidsIff(b.kids, i, [l], st.taken);
    MissingRight(Pids(l), Pids(r), r.pid, Pids(b.kids[i]) + st.taken);
  }

  lemma {:induction false} MissingRight(x: set<PageId>, y: set<PageId>, p: PageId, all: set<PageId>)
    requires x !! y && p in y && x + y <= all
    ensures !(all <= x)
  {
    assert p in x + y;
  }
}
