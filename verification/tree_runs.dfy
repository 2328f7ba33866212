/** Whole runs of Insert, Get and Delete from an empty tree against a finite map. */
module TreeRuns {
  import opened Bytes
  import opened Assoc
  import opened Pages
  import opened Allocator
  import opened Trees
  import opened TreeStructure
  import opened TreeFrame
  import opened TreeRoutes
  import opened TreeInsert
  import opened TreeTheorems
  import opened TreeChain

  /** rootNodePageId with the tree below it (None for 0), firstLeafNodePageId and the allocator. */
  datatype Db = Db(tree: Option<Tree>, first: PageId, alloc: Alloc)

  datatype Op = Insert(key: Bytes, value: Bytes) | Get(key: Bytes) | Delete(key: Bytes)

  datatype Reply = Stored | Found(value: Bytes) | Missing | Deleted

  // ---------------------------------------------------------------- the code

  /** The page Insert starts from: the root, or a fresh page when there is none. */
  ghost function Start(db: Db, stale: set<PageId>): (Tree, Alloc) {
    match db.tree
    case Some(t) => (t, db.alloc)
    case None => (LeafT(NextId(db.alloc), NextId(db.alloc) in stale, EMPTY_LEAF), Taken(db.alloc))
  }

  ghost predicate Runnable(db: Db) {
    db.tree.Some? ==> Shaped(db.tree.value)
  }

  /** One operation; None is a crash. */
  ghost function Apply(db: Db, op: Op, stale: set<PageId>): Option<(Db, Reply)>
    requires Runnable(db)
  {
    match op
    case Insert(k, v) =>
      var (t, al) := Start(db, stale);
      var st := Write(t, k, v, true, al, stale);
      if st.out.Whole? then Some((Db(Some(st.out.t), if db.tree.None? then t.pid else db.first, st.alloc), Stored)) else None
    case Get(k) =>
      if db.tree.None? then Some((db, Missing))
      else Some((db, ReplyOf(Trees.Get(db.tree.value, k))))
    case Delete(k) =>
      if db.tree.None? then Some((db, Missing))
      else
        match Remove(db.tree.value, k)
        case Some(c) => Some((db.(tree := Some(c)), Deleted))
        case None => Some((db, Missing))
  }

  function ReplyOf(v: Option<Bytes>): Reply {
    match v
    case Some(x) => Found(x)
    case None => Missing
  }

  // ----------------------------------------------------------- specification

  /** The same operation on a finite map. */
  function MapReply(m: map<Bytes, Bytes>, op: Op): Reply {
    match op
    case Insert(_, _) => Stored
    case Get(k) => if k in m then Found(m[k]) else Missing
    case Delete(k) => if k in m then Deleted else Missing
  }

  function MapNext(m: map<Bytes, Bytes>, op: Op): map<Bytes, Bytes> {
    match op
    case Insert(k, v) => m[k := v]
    case Get(_) => m
    case Delete(k) => m - {k}
  }

  ghost function View(db: Db): seq<KV> {
    if db.tree.Some? then Flat(db.tree.value) else []
  }

  /** What every good operation keeps. */
  ghost predicate Inv(db: Db) {
    match db.tree
    case None => Sound(db.alloc, {})
    case Some(t) =>
      && Shaped(t) && Distinct(t) && Sound(db.alloc, Pids(t))
      && (exists h: nat :: WF(t, h, None, None))
      && Chained(t, db.first)
  }

  /** The leaf chain starts at the first leaf, follows key order and ends with page 0. */
  ghost predicate Chained(t: Tree, first: PageId) {
    var s := Leaves(t);
    Linked(s) && s != [] && s[0].pid == first && s[|s| - 1].page.next == 0
  }

  /** The guards of the branches that lose data, checked before the operation. */
  ghost predicate OpOk(db: Db, op: Op, stale: set<PageId>)
    requires Runnable(db)
  {
    match op
    case Insert(k, v) =>
      var (t, al) := Start(db, stale);
      (db.tree.None? ==> t.pid !in stale) && WriteOk(t, k, v, true, al, stale)
    case Get(_) => true
    case Delete(_) => true
  }

  // ------------------------------------------------------------------ proofs

  /** The page Insert starts from, as a tree of its own, is sound. */
  lemma {:induction false} StartOk(db: Db, stale: set<PageId>)
    requires Inv(db) && (db.tree.None? ==> NextId(db.alloc) !in stale)
    ensures var (t, al) := Start(db, stale);
      Inv(Db(Some(t), if db.tree.None? then t.pid else db.first, al)) && Flat(t) == View(db)
  {
    if db.tree.None? {
      AllocateSound(db.alloc, {});
      var t := Start(db, stale).0;
      assert {} + {t.pid} == Pids(t);
      assert Exact(EMPTY_LEAF) by { assert Used([]) == 0; }
      assert WF(t, 0, None, None);
    }
  }

  lemma {:induction false} WrittenRoot(t: Tree, h: nat, k: Bytes, v: Bytes, al: Alloc, stale: set<PageId>)
    requires Shaped(t) && Distinct(t) && Sound(al, Pids(t)) && WF(t, h, None, None) && WriteOk(t, k, v, true, al, stale)
    ensures var st := Write(t, k, v, true, al, stale);
      && st.out.Whole? && Shaped(st.out.t) && Distinct(st.out.t) && Sound(st.alloc, Pids(st.out.t))
      && (exists h': nat :: WF(st.out.t, h', None, None)) && Flat(st.out.t) == Put(Flat(t), k, v)
  {
    InsertIff(t, h, k, v, al, stale);
    WriteFrame(t, h, None, None, k, v, true, al, stale, Pids(t));
    var st := Write(t, k, v, true, al, stale);
    var c := st.out.t;
    WFShaped(c, if c.pid == t.pid then h else h + 1, None, None);
    assert Pids(c) == Pids(t) + st.taken;
  }

  lemma {:induction false} WrittenChain(t: Tree, h: nat, first: PageId, k: Bytes, v: Bytes, al: Alloc, stale: set<PageId>)
    requires Shaped(t) && WF(t, h, None, None) && WriteOk(t, k, v, true, al, stale) && Chained(t, first)
    ensures var out := Write(t, k, v, true, al, stale).out; out.Whole? ==> Chained(out.t, first)
  {
    WriteLinked(t, h, None, None, k, v, true, al, stale);
  }

  lemma {:induction false} InsertCorrect(db: Db, k: Bytes, v: Bytes, stale: set<PageId>)
    requires Inv(db) && OpOk(db, Insert(k, v), stale)
    ensures var r := Apply(db, Insert(k, v), stale);
      r.Some? && Inv(r.value.0) && View(r.value.0) == Put(View(db), k, v) && r.value.1 == Stored
  {
    StartOk(db, stale);
    var (t, al) := Start(db, stale);
    var h: nat :| WF(t, h, None, None);
    WrittenRoot(t, h, k, v, al, stale);
    WrittenChain(t, h, if db.tree.None? then t.pid else db.first, k, v, al, stale);
  }

  lemma {:induction false} ViewSorted(db: Db)
    requires Inv(db)
    ensures Sorted(View(db))
  {
    if db.tree.Some? {
      var h: nat :| WF(db.tree.value, h, None, None);
      FlatOk(db.tree.value, h, None, None);
    }
  }

  lemma {:induction false} GetCorrect(db: Db, k: Bytes, stale: set<PageId>)
    requires Inv(db)
    ensures var r := Apply(db, Get(k), stale);
      r == Some((db, ReplyOf(Lookup(View(db), k))))
  {
    if db.tree.Some? {
      var h: nat :| WF(db.tree.value, h, None, None);
      GetIsLookup(db.tree.value, h, None, None, k);
    }
  }

  lemma {:induction false} DeleteCorrect(db: Db, k: Bytes, stale: set<PageId>)
    requires Inv(db) && OpOk(db, Delete(k), stale)
    ensures var r := Apply(db, Delete(k), stale);
      && r.Some? && Inv(r.value.0) && View(r.value.0) == Del(View(db), k)
      && r.value.1 == if Lookup(View(db), k).Some? then Deleted else Missing
  {
    if db.tree.Some? {
      var t := db.tree.value;
      var h: nat :| WF(t, h, None, None);
      RemoveCorrect(t, h, None, None, k);
      if Remove(t, k).Some? {
        var c := Remove(t, k).value;
        WFShaped(c, h, None, None);
        RemoveLinked(t, k);
        RemoveDistinct(t, h, None, None, k);
      }
    }
  }

  lemma {:induction false} RemoveDistinct(t: Tree, h: nat, lo: Option<Bytes>, hi: Option<Bytes>, k: Bytes)
    requires WF(t, h, lo, hi) && Shaped(t) && Distinct(t) && Remove(t, k).Some?
    ensures Distinct(Remove(t, k).value)
    decreases t
  {
    if t.NodeT? {
      var i := Route(t.keys, k);
      PidsAt(t.kids, i);
      DistinctKid(t.kids, i);
      RemoveDistinct(t.kids[i], h - 1, LoOf(t.keys, lo, i), HiOf(t.keys, hi, i), k);
      RemoveCorrect(t.kids[i], h - 1, LoOf(t.keys, lo, i), HiOf(t.keys, hi, i), k);
      ReplaceKidFrame(t.kids, i, Remove(t.kids[i], k).value, Pids(t), {});
    }
  }

  /** One good operation answers as the map does and keeps the invariant. */
  lemma {:induction false} ApplyCorrect(db: Db, op: Op, stale: set<PageId>)
    requires Inv(db) && OpOk(db, op, stale)
    ensures var r := Apply(db, op, stale);
      && r.Some? && Inv(r.value.0)
      && r.value.1 == MapReply(ToMap(View(db)), op)
      && ToMap(View(r.value.0)) == MapNext(ToMap(View(db)), op)
  {
    var s := View(db);
    ViewSorted(db);
    match op
    case Insert(k, v) =>
      InsertCorrect(db, k, v, stale);
      PutIsUpdate(s, k, v);
    case Get(k) =>
      GetCorrect(db, k, stale);
      ToMapKey(s, k);
    case Delete(k) =>
      DeleteCorrect(db, k, stale);
      DelIsRemoval(s, k);
      ToMapKey(s, k);
  }

  // -------------------------------------------------------------------- runs

  /** Every operation is good at its turn. */
  ghost predicate RunOk(db: Db, ops: seq<Op>, stale: set<PageId>)
    decreases |ops|
  {
    Runnable(db) &&
    (ops != [] ==>
       && OpOk(db, ops[0], stale)
       && var r := Apply(db, ops[0], stale);
          r.Some? ==> RunOk(r.value.0, ops[1..], stale))
  }

  /** The replies of a run and the tree it ends with. */
  ghost function Run(db: Db, ops: seq<Op>, stale: set<PageId>): Option<(Db, seq<Reply>)>
    requires RunOk(db, ops, stale)
    decreases |ops|
  {
    if ops == [] then Some((db, []))
    else
      var r := Apply(db, ops[0], stale);
      if r.None? then None
      else
        var rest := Run(r.value.0, ops[1..], stale);
        if rest.None? then None else Some((rest.value.0, [r.value.1] + rest.value.1))
  }

  function MapReplies(m: map<Bytes, Bytes>, ops: seq<Op>): seq<Reply>
    decreases |ops|
  {
    if ops == [] then [] else [MapReply(m, ops[0])] + MapReplies(MapNext(m, ops[0]), ops[1..])
  }

  function MapFinal(m: map<Bytes, Bytes>, ops: seq<Op>): map<Bytes, Bytes>
    decreases |ops|
  {
    if ops == [] then m else MapFinal(MapNext(m, ops[0]), ops[1..])
  }

  /**
   Every run of good operations replies exactly as a finite map driven by the same operations, through leaf,
   internal and root splits; at its end the leaf chain lists the map's bindings in strictly ascending key order.
   */
  lemma {:induction false} RunCorrect(db: Db, ops: seq<Op>, stale: set<PageId>)
    requires Inv(db) && RunOk(db, ops, stale)
    ensures var r := Run(db, ops, stale);
      && r.Some? && Inv(r.value.0)
      && r.value.1 == MapReplies(ToMap(View(db)), ops)
      && ToMap(View(r.value.0)) == MapFinal(ToMap(View(db)), ops)
      && Sorted(View(r.value.0))
    decreases |ops|
  {
    if ops == [] {
      ViewSorted(db);
    } else {
      ApplyCorrect(db, ops[0], stale);
      RunCorrect(Apply(db, ops[0], stale).value.0, ops[1..], stale);
    }
  }

  /** The elements of a tree are the elements of its leaf chain, leaf by leaf. */
  lemma {:induction false} FlatIsChain(t: Tree)
    ensures Flat(t) == Elements(Leaves(t))
    decreases t, 0
  {
    match t
    case LeafT(_, _, page) =>
      assert Elements([t]) == Elements([t][..0]) + page.elems;
      assert Elements([t][..0]) == [];
    case NodeT(_, _, _, kids) =>
      FlatAllIsChain(kids);
  }

  lemma {:induction false} FlatAllIsChain(kids: seq<Tree>)
    ensures FlatAll(kids) == Elements(LeavesAll(kids))
    decreases kids
  {
    if kids != [] {
      var n := |kids| - 1;
      FlatAllIsChain(kids[..n]);
      FlatIsChain(kids[n]);
      ElementsConcat(LeavesAll(kids[..n]), Leaves(kids[n]));
    }
  }

  ghost function Elements(leaves: seq<Tree>): seq<KV> {
    if leaves == [] then []
    else Elements(leaves[..|leaves| - 1]) + (if leaves[|leaves| - 1].LeafT? then leaves[|leaves| - 1].page.elems else [])
  }

  lemma {:induction false} ElementsLast(a: seq<Tree>, t: Tree)
    ensures Elements(a + [t]) == Elements(a) + (if t.LeafT? then t.page.elems else [])
  {
    assert (a + [t])[..|a|] == a;
  }

  lemma {:induction false} ElementsConcat(a: seq<Tree>, b: seq<Tree>)
    ensures Elements(a + b) == Elements(a) + Elements(b)
  {
    if b == [] {
      assert a + b == a;
    } else {
      var n := |b| - 1;
      ElementsConcat(a, b[..n]);
      ElementsLast(b[..n], b[n]);
      ElementsLast(a + b[..n], b[n]);
      assert b[..n] + [b[n]] == b && a + b[..n] + [b[n]] == a + b;
    }
  }
}
