/** Concrete operations on which Insert fails, and how far zero-filled pages let the tree grow. */
module TreeLimits {
  import opened Bytes
  import opened Assoc
  import opened Pages
  import opened Allocator
  import opened Trees
  import opened TreeInsert
  import opened TreeTheorems
  import opened TreeRuns

  function Filler(n: nat): (s: Bytes)
    ensures |s| == n
  {
    seq(n, i => 7)
  }

  /** A root leaf with the given elements, tightly packed. */
  function RootLeaf(elems: seq<KV>, slots: seq<nat>): Db {
    Db(Some(LeafT(1, false, PutAll(elems, slots, 0))), 1, Alloc([], 1))
  }

  lemma {:induction false} OneElement(k: Bytes, v: Bytes)
    ensures Used([KV(k, v)]) == ElemSize(KV(k, v)) + SLOT_SIZE
  {
    assert UsedTo([KV(k, v)], 0) == 0;
  }

  /**
   The space check forgets the slot: with 56 bytes left, an element of 53 bytes passes it, the page refuses the
   element with its slot, Insert still answers Stored and the key is missing.
   */
  lemma {:induction false} DroppedInsertExample()
    ensures var big := KV([], Filler(4000));
      var db := RootLeaf([big], [ElemSize(big)]);
      && Inv(db)
      && Apply(db, Insert([1], Filler(48)), {}) == Some((db, Stored))
      && Apply(db, Get([1]), {}) == Some((db, Missing))
  {
    var big := KV([], Filler(4000));
    OneElement([], Filler(4000));
    var db := RootLeaf([big], [ElemSize(big)]);
    var t := db.tree.value;
    assert WF(t, 0, None, None);
    OrderFacts();
    PosUnique([big], [1], 1) by { assert Compare([], [1]) == -1; }
    assert !Has(t.page.elems, [1]);
    assert t.page.free == 56;
    assert ElemSize(KV([1], Filler(48))) == 53;
    assert InsertIgnored(t.page, [1], Filler(48)) == Some(t.page);
  }

  /**
   A space check that trusts the garbage counter of a leaf compacts it; the element then lands if and only if the bytes
   are really there. Otherwise the page keeps its old elements and Insert drops the key.
   */
  lemma {:induction false} TrustedGarbageIff(p: Leaf, k: Bytes, v: Bytes)
    requires var n := ElemSize(KV(k, v));
      Roomy(p) && n + SLOT_SIZE < U16_LIMIT && !Adequate(p.free, n) && ShouldCompact(p.garbage, n)
    ensures var n := ElemSize(KV(k, v));
      && (LeafInsert(Checked(p, n), k, v).Done? <==> n + SLOT_SIZE <= CAPACITY - Used(p.elems))
      && (!LeafInsert(Checked(p, n), k, v).Done? ==> InsertIgnored(Checked(p, n), k, v) == Some(Compact(p)))
  {
  }

  function LeafDb(p: Leaf): Db {
    Db(Some(LeafT(1, false, p)), 1, Alloc([], 1))
  }

  /** The elements of the example below: the second is updated in place from 2000 bytes to none. */
  function First(): KV {
    KV([1], Filler(2000))
  }

  function Loose(n: nat): Leaf
    requires n <= 2000
  {
    Leaf([First(), KV([2], Filler(n))], [2005, 2005], 46, 2000 - n, 0)
  }

  lemma {:induction false} LooseKeys(n: nat)
    requires n <= 2000
    ensures var s := Loose(n).elems;
      Has(s, [2]) && Pos(s, [2]) == 1 && Del(s, [2]) == [First()]
    ensures !Has([First()], [3]) && Lookup([First()], [3]) == None
  {
    var s := Loose(n).elems;
    OrderFacts();
    assert Compare([1], [2]) == -1 && Compare([1], [3]) == -1;
    PosUnique(s, [2], 1);
    PosUnique([First()], [3], 1);
  }

  /**
   Shrink, delete, insert. The delete counts the 2000 bytes of the shrunk value a second time, the space check believes
   the counter, the page has no room after compaction, and Insert answers Stored for a key that is missing.
   */
  lemma {:induction false} LooseDeleteExample()
    ensures var gone := Leaf([First()], [2005], 46, 4009, 0);
      && Inv(LeafDb(Loose(2000)))
      && Apply(LeafDb(Loose(2000)), Insert([2], []), {}) == Some((LeafDb(Loose(0)), Stored))
      && Apply(LeafDb(Loose(0)), Delete([2]), {}) == Some((LeafDb(gone), Deleted))
      && Apply(LeafDb(gone), Insert([3], Filler(2095)), {}) == Some((LeafDb(Compact(gone)), Stored))
      && Apply(LeafDb(Compact(gone)), Get([3]), {}) == Some((LeafDb(Compact(gone)), Missing))
  {
    LooseStart();
    LooseShrink();
    LooseDelete();
    LooseInsert();
  }

  lemma {:induction false} LooseStart()
    ensures Inv(LeafDb(Loose(2000)))
  {
    var p := Loose(2000);
    LooseKeys(2000);
    OrderFacts();
    assert Compare([1], [2]) == -1;
    assert UsedTo(p.elems, 1) == 2009 && Used(p.elems) == 4018;
    assert WF(LeafDb(p).tree.value, 0, None, None);
  }

  lemma {:induction false} LooseShrink()
    ensures Apply(LeafDb(Loose(2000)), Insert([2], []), {}) == Some((LeafDb(Loose(0)), Stored))
  {
    LooseKeys(2000);
    var p := Loose(2000);
    assert Filler(0) == [];
    assert p.elems[1 := KV([2], [])] == Loose(0).elems;
    assert SetValue(p, [2], []) == Done(Loose(0));
  }

  lemma {:induction false} LooseDelete()
    ensures Apply(LeafDb(Loose(0)), Delete([2]), {}) == Some((LeafDb(Leaf([First()], [2005], 46, 4009, 0)), Deleted))
  {
    LooseKeys(0);
    var p := Loose(0);
    assert p.slots[..1] + p.slots[2..] == [2005];
    assert LeafDelete(p, [2]) == Done(Leaf([First()], [2005], 46, 4009, 0));
  }

  lemma {:induction false} LooseInsert()
    ensures var gone := Leaf([First()], [2005], 46, 4009, 0);
      && Apply(LeafDb(gone), Insert([3], Filler(2095)), {}) == Some((LeafDb(Compact(gone)), Stored))
      && Apply(LeafDb(Compact(gone)), Get([3]), {}) == Some((LeafDb(Compact(gone)), Missing))
  {
    var gone := Leaf([First()], [2005], 46, 4009, 0);
    LooseKeys(0);
    OneElement([1], Filler(2000));
    TrustedGarbageIff(gone, [3], Filler(2095));
  }

  // -------------------------------------------------- updates that must split

  /** Inserting a present key leaves the first occurrence, which a search finds, in place. */
  lemma {:induction false} DuplicateKeepsOld(s: seq<KV>, k: Bytes, v: Bytes)
    requires Has(s, k)
    ensures Lookup(InsertElem(s, KV(k, v)), k) == Lookup(s, k)
  {
    var p := Pos(s, k);
    PosUnique(InsertElem(s, KV(k, v)), k, p) by { OrderFacts(); }
  }

  lemma {:induction false} HalfKeepsOld(p: Leaf, k: Bytes, v: Bytes)
    requires |p.slots| == |p.elems| && Has(p.elems, k) && InsertIgnored(p, k, v).Some?
    ensures Lookup(InsertIgnored(p, k, v).value.elems, k) == Lookup(p.elems, k)
  {
    DuplicateKeepsOld(p.elems, k, v);
  }

  /** Whenever an update splits the root leaf, Insert answers Stored but Get still finds the old value. */
  lemma {:induction false} UpdateSplitKeepsOld(t: Tree, k: Bytes, v: Bytes, al: Alloc, stale: set<PageId>)
    requires t.LeafT? && WF(t, 0, None, None) && Has(t.page.elems, k)
    requires !HasSpaceToUpdate(t.page, k, t.page.elems[Pos(t.page.elems, k)].value, v)
    requires var idx := SplitIndex(t.page.slots); idx < |t.page.elems| && GrowOk(t.page.elems[idx].key)
    requires ElemSize(KV(k, v)) + SLOT_SIZE < U16_LIMIT
    ensures var out := Write(t, k, v, true, al, stale).out;
      && out.Whole? && Shaped(out.t)
      && Trees.Get(out.t, k) == Some(t.page.elems[Pos(t.page.elems, k)].value)
  {
    var p := t.page;
    var idx := SplitIndex(p.slots);
    var sep := p.elems[idx].key;
    HasHalf(p.elems, idx, k, v);
    HalfLookup(p.elems, idx, k);
    PutAllExact(p, idx, NextId(Taken(al)));
    var half := if Lt(k, sep) then SplitLeft(p, idx, NextId(Taken(al))) else SplitRight(p, idx);
    InsertExact(half, k, v);
    HalfKeepsOld(half, k, v);
    RouteOne(sep, k);
    var st := LeafSplit(t, k, v, Taken(al), stale);
    assert st.out.Split?;
    var root := Write(t, k, v, true, al, stale).out.t;
    assert root == NodeT(NextId(al), true, [sep], [st.out.left, st.out.right]);
    assert Shaped(st.out.left) && Shaped(st.out.right);
  }

  lemma {:induction false} RouteOne(sep: Bytes, k: Bytes)
    ensures Route([sep], k) == if Lt(k, sep) then 0 else 1
  {
  }

  lemma {:induction false} HalfLookup(s: seq<KV>, idx: nat, k: Bytes)
    requires Sorted(s) && 0 < idx < |s|
    ensures Lookup(s, k) == Lookup(if Lt(k, s[idx].key) then s[..idx] else s[idx..], k)
  {
    OrderFacts();
    assert s == [] + s[..idx] + s[idx..] && s == s[..idx] + s[idx..] + [];
    if Lt(k, s[idx].key) {
      LookupInContext([], s[..idx], s[idx..], k);
    } else {
      LookupInContext(s[..idx], s[idx..], [], k);
    }
  }

  lemma {:induction false} ThreeSound()
    ensures var elems := [KV([0], Filler(2000)), KV([1], Filler(1)), KV([2], Filler(1990))];
      var db := RootLeaf(elems, [2005, 6, 1995]);
      Sorted(elems) && Has(elems, [1]) && Pos(elems, [1]) == 1 && Inv(db) && WF(db.tree.value, 0, None, None)
  {
    var elems := [KV([0], Filler(2000)), KV([1], Filler(1)), KV([2], Filler(1990))];
    assert Compare([0], [1]) == -1 && Compare([0], [2]) == -1 && Compare([1], [2]) == -1 && Compare([1], [1]) == 0 by {
      assert CompareFrom([1], [1], 1) == 0;
    }
    PosUnique(elems, [1], 1);
    ThreeUsed(elems);
    assert WF(RootLeaf(elems, [2005, 6, 1995]).tree.value, 0, None, None);
  }

  /** Such an update on a page with three elements and 46 free bytes. */
  lemma {:induction false} UpdateSplitExample()
    ensures var elems := [KV([0], Filler(2000)), KV([1], Filler(1)), KV([2], Filler(1990))];
      var db := RootLeaf(elems, [2005, 6, 1995]);
      var r := Apply(db, Insert([1], Filler(100)), {});
      && Inv(db) && r.Some? && r.value.1 == Stored && Runnable(r.value.0)
      && Apply(r.value.0, Get([1]), {}) == Some((r.value.0, Found(Filler(1))))
  {
    var elems := [KV([0], Filler(2000)), KV([1], Filler(1)), KV([2], Filler(1990))];
    var db := RootLeaf(elems, [2005, 6, 1995]);
    var t := db.tree.value;
    ThreeSound();
    ThreeUsed(elems);
    SplitAtOne();
    UpdateSplitKeepsOld(t, [1], Filler(100), db.alloc, {});
  }

  lemma {:induction false} ThreeUsed(elems: seq<KV>)
    requires |elems| == 3
    ensures Used(elems) == ElemSize(elems[0]) + ElemSize(elems[1]) + ElemSize(elems[2]) + 3 * SLOT_SIZE
  {
    assert UsedTo(elems, 1) == ElemSize(elems[0]) + SLOT_SIZE;
    assert UsedTo(elems, 2) == UsedTo(elems, 1) + ElemSize(elems[1]) + SLOT_SIZE;
  }

  lemma {:induction false} SplitAtOne()
    ensures SplitIndex([2005, 6, 1995]) == 1
  {
    var s: seq<nat> := [2005, 6, 1995];
    assert Sum16(s, 1) == 2005;
    assert Sum16(s, 2) == 2011;
    assert Sum16(s, 3) == 4006;
  }

  // ------------------------------------------------------ zero-filled pages

  ghost predicate TwoLevels(db: Db) {
    db.tree.Some? ==> WF(db.tree.value, 0, None, None) || WF(db.tree.value, 1, None, None)
  }

  /**
   When fresh pages are zero-filled (no stale internal kind bytes) a right Insert never splits an internal page,
   so every good run stays within a root and its leaves.
   */
  lemma {:induction false} ZeroFilledTwoLevels(db: Db, op: Op)
    requires Inv(db) && TwoLevels(db) && OpOk(db, op, {})
    ensures var r := Apply(db, op, {}); r.Some? && TwoLevels(r.value.0)
  {
    ApplyCorrect(db, op, {});
    match op
    case Insert(k, v) =>
      StartOk(db, {});
      var (t, al) := Start(db, {});
      if db.tree.None? {
        assert Used([]) == 0;
      }
      var h := if t.LeafT? then 0 else 1;
      assert WF(t, h, None, None);
      InsertIff(t, h, k, v, al, {});
      if h == 1 {
        var c := Write(t, k, v, true, al, {}).out.t;
        assert c.pid == t.pid;
      }
    case Get(k) =>
    case Delete(k) =>
      if db.tree.Some? {
        var h := if db.tree.value.LeafT? then 0 else 1;
        RemoveCorrect(db.tree.value, h, None, None, k);
      }
  }

  lemma {:induction false} ZeroFilledRun(db: Db, ops: seq<Op>)
    requires Inv(db) && TwoLevels(db) && RunOk(db, ops, {})
    ensures Run(db, ops, {}).Some? && TwoLevels(Run(db, ops, {}).value.0)
    decreases |ops|
  {
    if ops != [] {
      ApplyCorrect(db, ops[0], {});
      ZeroFilledTwoLevels(db, ops[0]);
      ZeroFilledRun(Apply(db, ops[0], {}).value.0, ops[1..]);
    }
  }
}
