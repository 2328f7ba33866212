/** The disk manager: page ids, the file they live in, and the metadata page across a restart. */
module DiskManager {
  import opened Bytes
  import opened Pages
  import opened Allocator
  import opened MetadataCodec

  const GROWTH := 16

  /** Every id up to the maximum is in use or free. */
  ghost predicate Accounted(a: Alloc, used: set<PageId>) {
    forall p: PageId | 0 < p <= a.maxId :: p in used || p in a.freeList
  }

  /** The pages past the maximum id were never written. */
  ghost predicate BlankPast(file: seq<Bytes>, maxId: PageId) {
    forall i | maxId < i < |file| :: file[i] == Zeros(PAGE_SIZE)
  }

  function Zeros(n: nat): Bytes {
    seq(n, _ => 0)
  }

  ghost predicate WholePages(file: seq<Bytes>) {
    forall i | 0 <= i < |file| :: |file[i]| == PAGE_SIZE
  }

  /** The first page of the file is an encoding of this metadata. */
  ghost predicate Saved(file: seq<Bytes>, m: MetaData, roots: seq<nat>, firsts: seq<nat>) {
    && Visits(roots, m.roots.Keys) && Visits(firsts, m.firstLeaves.Keys)
    && file != [] && |file[0]| == PAGE_SIZE && WordsOn(file[0], Words(m, roots, firsts))
  }

  lemma {:induction false} TakenAccounted(a: Alloc, used: set<PageId>)
    requires Accounted(a, used)
    ensures Accounted(Taken(a), used + {NextId(a)})
  {
    if a.freeList != [] {
      assert a.freeList == [a.freeList[0]] + a.freeList[1..];
    }
  }

  /** Freeing a page keeps the allocator sound exactly when the page was allocated and is not already free. */
  lemma {:induction false} ReleaseIff(a: Alloc, used: set<PageId>, p: PageId)
    requires Sound(a, used)
    ensures Sound(a.(freeList := a.freeList + [p]), used - {p}) <==> 0 < p <= a.maxId && p !in a.freeList
  {
    var b := a.(freeList := a.freeList + [p]);
    assert b.freeList[|a.freeList|] == p;
    assert forall i | 0 <= i < |a.freeList| :: b.freeList[i] == a.freeList[i];
    if p in a.freeList {
      var i :| 0 <= i < |a.freeList| && a.freeList[i] == p;
      assert b.freeList[i] == b.freeList[|a.freeList|];
    }
  }

  lemma {:induction false} ReleaseAccounted(a: Alloc, used: set<PageId>, p: PageId)
    requires Accounted(a, used)
    ensures Accounted(a.(freeList := a.freeList + [p]), used - {p})
  {
    assert p in a.freeList + [p];
  }

  // ------------------------------------------------------- the order of recycling

  datatype IdOp = Take | Give(p: PageId)

  function IdStep(a: Alloc, op: IdOp): Alloc {
    match op
    case Take => Taken(a)
    case Give(p) => a.(freeList := a.freeList + [p])
  }

  function IdsAfter(a: Alloc, ops: seq<IdOp>, n: nat): Alloc
    requires n <= |ops|
  {
    if n == 0 then a else IdStep(IdsAfter(a, ops, n - 1), ops[n - 1])
  }

  /** The recycled ids among those handed out, in their order. */
  function Recycled(a: Alloc, ops: seq<IdOp>, n: nat): seq<PageId>
    requires n <= |ops|
  {
    if n == 0 then []
    else
      var b := IdsAfter(a, ops, n - 1);
      Recycled(a, ops, n - 1) + if ops[n - 1].Take? && b.freeList != [] then [NextId(b)] else []
  }

  /** The ids given back, in their order. */
  function Given(ops: seq<IdOp>, n: nat): seq<PageId>
    requires n <= |ops|
  {
    if n == 0 then [] else Given(ops, n - 1) + if ops[n - 1].Give? then [ops[n - 1].p] else []
  }

  lemma {:induction false} TakeFront(taken: seq<PageId>, free: seq<PageId>, all: seq<PageId>)
    requires taken + free == all && free != []
    ensures taken + [free[0]] + free[1..] == all
  {
    assert [free[0]] + free[1..] == free;
  }

  lemma {:induction false} GiveBack(taken: seq<PageId>, free: seq<PageId>, first: seq<PageId>, given: seq<PageId>, p: PageId)
    requires taken + free == first + given
    ensures taken + (free + [p]) == first + (given + [p])
  {
    assert taken + (free + [p]) == taken + free + [p];
    assert first + (given + [p]) == first + given + [p];
  }

  /** Over all allocations and deallocations pages are recycled in the order in which they were freed. */
  lemma {:induction false} RecycledInOrder(a: Alloc, ops: seq<IdOp>, n: nat)
    requires n <= |ops|
    ensures Recycled(a, ops, n) + IdsAfter(a, ops, n).freeList == a.freeList + Given(ops, n)
  {
    if n > 0 {
      RecycledInOrder(a, ops, n - 1);
      var b, was := IdsAfter(a, ops, n - 1), Recycled(a, ops, n - 1);
      match ops[n - 1]
      case Take =>
        if b.freeList != [] {
          TakeFront(was, b.freeList, a.freeList + Given(ops, n - 1));
        }
      case Give(p) =>
        GiveBack(was, b.freeList, a.freeList, Given(ops, n - 1), p);
    }
  }

  // ------------------------------------------------------------------ the manager

  class DirectIODiskManager {
    var metadata: MetaData
    var file: seq<Bytes>
    ghost var used: set<PageId>

    ghost function Ids(): Alloc
      reads this
    {
      Alloc(metadata.free, metadata.maxId)
    }

    ghost predicate Valid()
      reads this
    {
      metadata.maxId < |file| && WholePages(file) && Sound(Ids(), used)
    }

    /** A new database: one metadata page. */
    constructor ()
      ensures Valid() && used == {} && Accounted(Ids(), used) && BlankPast(file, metadata.maxId)
      ensures exists roots, firsts :: Saved(file, metadata, roots, firsts)
    {
      var m := MetaData(0, 0, map[], 0, [], map[]);
      var ok, page, roots, firsts := EncodeMetaDataPage(m);
      metadata, file, used := m, [page[..]], {};
      new;
      assert Saved(file, metadata, roots, firsts);
    }

    /** An existing file: the metadata is the one that was saved. */
    constructor Open(saved: seq<Bytes>, ghost m: MetaData, ghost roots: seq<nat>, ghost firsts: seq<nat>, ghost inUse: set<PageId>)
      requires Saved(saved, m, roots, firsts) && m.maxId < |saved| && WholePages(saved) && Sound(Alloc(m.free, m.maxId), inUse)
      ensures Valid() && metadata == m && file == saved && used == inUse
    {
      var page := new byte[PAGE_SIZE](i requires 0 <= i < |saved[0]| => saved[0][i]);
      assert page[..] == saved[0];
      var decoded := DecodeMetaDataPage(page, m, roots, firsts);
      metadata, file, used := decoded, saved, inUse;
    }

    /** close: the metadata page is written over page 0; not ok is a panic, exactly when it does not fit. */
    method Close() returns (ok: bool, ghost roots: seq<nat>, ghost firsts: seq<nat>)
      requires Valid() && Meta64(metadata)
      modifies this`file
      ensures Valid() && ok == (8 * Size(metadata) <= PAGE_SIZE)
      ensures if ok then Saved(file, metadata, roots, firsts) && file[1..] == old(file)[1..] else file == old(file)
    {
      var page;
      ok, page, roots, firsts := EncodeMetaDataPage(metadata);
      if ok {
        file := file[0 := page[..]];
      }
    }

    /** allocatePage: never page 0 and never a page in use, and the file holds the page. */
    method AllocatePage() returns (p: PageId, recycled: bool)
      requires Valid()
      modifies this
      ensures Valid() && p != 0 && p !in old(used) && used == old(used) + {p} && p < |file|
      ensures Ids() == IdStep(old(Ids()), Take) && p == NextId(old(Ids())) && recycled == (old(metadata.free) != [])
      ensures metadata == old(metadata).(free := metadata.free, maxId := metadata.maxId)
      ensures old(file) <= file && |file| == |old(file)| + (if !recycled && old(metadata.maxId) + 1 == |old(file)| then GROWTH else 0)
      ensures old(Accounted(Ids(), used)) ==> Accounted(Ids(), used)
      ensures old(BlankPast(file, metadata.maxId)) ==> BlankPast(file, metadata.maxId) && (!recycled ==> file[p] == Zeros(PAGE_SIZE))
    {
      AllocateSound(Ids(), used);
      if Accounted(Ids(), used) {
        TakenAccounted(Ids(), used);
      }
      if |metadata.free| > 0 {
        p, recycled := metadata.free[0], true;
        metadata := metadata.(free := metadata.free[1..]);
      } else {
        if metadata.maxId + 1 == |file| {
          file := file + seq(GROWTH, _ => Zeros(PAGE_SIZE));
        }
        p, recycled := metadata.maxId + 1, false;
        metadata := metadata.(maxId := metadata.maxId + 1);
      }
      used := used + {p};
    }

    /** deallocatePage: the manager stays sound exactly when the page was allocated and not already free. */
    method DeallocatePage(p: PageId)
      requires Valid()
      modifies this
      ensures Valid() <==> 0 < p <= old(metadata.maxId) && p !in old(metadata.free)
      ensures metadata == old(metadata).(free := old(metadata.free) + [p]) && file == old(file) && used == old(used) - {p}
      ensures Ids() == IdStep(old(Ids()), Give(p))
      ensures old(Accounted(Ids(), used)) ==> Accounted(Ids(), used)
    {
      ReleaseIff(Ids(), used, p);
      if Accounted(Ids(), used) {
        ReleaseAccounted(Ids(), used, p);
      }
      metadata := metadata.(free := metadata.free + [p]);
      used := used - {p};
    }

    /** EnsurePageExists: the file and the maximum id reach the page; ids in between are lost to the allocator. */
    method EnsurePageExists(p: PageId)
      requires Valid()
      modifies this`metadata, this`file
      ensures Valid() && p < |file| && p <= metadata.maxId
      ensures metadata == old(metadata).(maxId := metadata.maxId)
      ensures metadata.maxId == (if old(metadata.maxId) < p then p else old(metadata.maxId))
      ensures old(file) <= file && |file| == if |old(file)| < p + 1 then p + 1 else |old(file)|
      ensures (old(BlankPast(file, metadata.maxId)) ==> forall i | old(metadata.maxId) < i < |file| :: file[i] == Zeros(PAGE_SIZE))
      ensures old(Accounted(Ids(), used)) ==> (Accounted(Ids(), used + {p}) <==> p <= old(metadata.maxId) + 1)
    {
      ghost var a := Ids();
      if |file| < p + 1 {
        file := file + seq(p + 1 - |file|, _ => Zeros(PAGE_SIZE));
      }
      if metadata.maxId < p {
        metadata := metadata.(maxId := p);
      }
      if a.maxId + 1 < p {
        assert a.maxId + 1 !in used && a.maxId + 1 !in a.freeList;
      }
    }
  }

  /** What was closed is what a restart opens: the same roots, first leaves, free list and maximum id. */
  method CloseAndOpen(disk: DirectIODiskManager) returns (ok: bool, again: DirectIODiskManager)
    requires disk.Valid() && Meta64(disk.metadata)
    modifies disk`file
    ensures ok == (8 * Size(disk.metadata) <= PAGE_SIZE)
    ensures ok ==> fresh(again) && again.Valid() && again.metadata == disk.metadata && again.used == disk.used && again.file == disk.file
  {
    ghost var roots, firsts;
    ok, roots, firsts := disk.Close();
    again := disk;
    if ok {
      again := new DirectIODiskManager.Open(disk.file, disk.metadata, roots, firsts, disk.used);
    }
  }
}
