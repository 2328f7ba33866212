/** The buffer pool manager as one thread runs it: each method is the run of its protocol steps. */
module BufferPool {
  import opened Bytes
  import opened Pages
  import opened PoolProtocol
  import opened PoolSteps
  import opened PoolRuns
  import opened PoolRecency
  import opened LruReplacer

  /** The pool after the session took these steps, all enabled. */
  ghost predicate Reaches(s: Pool, t: Session, acts: seq<Act>, s': Pool)
    decreases |acts|
  {
    if acts == [] then s' == s
    else Apply(s, t, acts[0]).Some? && Reaches(Apply(s, t, acts[0]).value, t, acts[1..], s')
  }

  lemma {:induction false} ReachesInv(s: Pool, t: Session, acts: seq<Act>, s': Pool)
    requires Inv(s) && Reaches(s, t, acts, s')
    ensures Inv(s')
    decreases |acts|
  {
    if acts != [] {
      StepKeeps(s, t, acts[0], Apply(s, t, acts[0]).value);
      ReachesInv(Apply(s, t, acts[0]).value, t, acts[1..], s');
    }
  }

  /** The steps leave what readers see, when none of them writes or deletes. */
  lemma {:induction false} ReachesView(s: Pool, t: Session, acts: seq<Act>, s': Pool, q: PageId)
    requires Inv(s) && Reaches(s, t, acts, s') && forall i | 0 <= i < |acts| :: !acts[i].Write? && !acts[i].Delete?
    ensures View(s', q) == View(s, q)
    decreases |acts|
  {
    if acts != [] {
      StepKeeps(s, t, acts[0], Apply(s, t, acts[0]).value);
      StepRefines(s, t, acts[0], Apply(s, t, acts[0]).value, q);
      ReachesView(Apply(s, t, acts[0]).value, t, acts[1..], s', q);
    }
  }

  lemma {:induction false} Then(s: Pool, t: Session, a: Act, s1: Pool, acts: seq<Act>, s': Pool)
    requires Apply(s, t, a) == Some(s1) && Reaches(s1, t, acts, s')
    ensures Reaches(s, t, [a] + acts, s')
  {
    assert ([a] + acts)[1..] == acts;
  }

  // ------------------------------------------------------------ whole methods

  /** No other session is inside the pool. */
  ghost predicate Quiet(s: Pool) {
    forall u | u in s.pcs :: s.pcs[u].Guarded?
  }

  /** The pool after a fetch of a page in memory. */
  function Hit(s: Pool, t: Session, p: PageId): Pool
    requires p in s.table && s.table[p] < |s.frames|
  {
    var f := s.table[p];
    var pin := s.frames[f].pin + 1;
    s.(frames := s.frames[f := s.frames[f].(pin := pin)], lru := if pin == 1 then Without(s.lru, f) else s.lru, pcs := s.pcs[t := Guarded(p, f)])
  }

  const HIT_STEPS: seq<Act> := [LookUp] + ([FinishBump] + [])

  lemma {:induction false} HitRun(s: Pool, t: Session, p: PageId)
    requires Quiet(s) && t !in s.pcs && p in s.table && s.table[p] < |s.frames|
    ensures Reaches(s, t, [StartFetch(p)] + HIT_STEPS, Hit(s, t, p))
  {
    var s1 := s.(pcs := s.pcs[t := Look(p)]);
    var s2 := Bumped(s1, t, p, false);
    assert s2.pcs[t := Guarded(p, s.table[p])] == s.pcs[t := Guarded(p, s.table[p])];
    Then(s2, t, FinishBump, Hit(s, t, p), [], Hit(s, t, p));
    Then(s1, t, LookUp, s2, [FinishBump] + [], Hit(s, t, p));
    Then(s, t, StartFetch(p), s1, HIT_STEPS, Hit(s, t, p));
  }

  /** The pool after the page was read into the frame. */
  function Filled(s: Pool, t: Session, p: PageId, f: FrameId, d: Data): Pool
    requires f < |s.frames|
  {
    s.(frames := s.frames[f := Frame(p, 1, false, d)], table := s.table[p := f], pcs := s.pcs[t := Guarded(p, f)])
  }

  /** The pool after a frame was taken for the page, from the free list or from the replacer. */
  function Taken(s: Pool): Pool
    requires s.free != [] || (s.lru != [] && s.lru[|s.lru| - 1] < |s.frames|)
  {
    if s.free != [] then s.(free := s.free[1..])
    else
      var frame := s.frames[s.lru[|s.lru| - 1]];
      s.(lru := s.lru[..|s.lru| - 1], table := s.table - {frame.page}, disk := if frame.dirty then s.disk[frame.page := frame.data] else s.disk)
  }

  function FrameTaken(s: Pool): FrameId
    requires s.free != [] || s.lru != []
  {
    if s.free != [] then s.free[0] else s.lru[|s.lru| - 1]
  }

  const LOAD_STEPS: seq<Act> := [TakeFrame] + ([Install] + [])
  const MISS_STEPS: seq<Act> := [LookUp] + ([GoExclusive] + ([LookAgain] + LOAD_STEPS))

  lemma {:induction false} LoadRun(s: Pool, t: Session, p: PageId, d: Data)
    requires t !in s.pcs && (s.free != [] || (s.lru != [] && s.lru[|s.lru| - 1] < |s.frames|)) && FrameTaken(s) < |s.frames|
    ensures Reaches(s.(pcs := s.pcs[t := Loaded(p, d)]), t, LOAD_STEPS, Filled(Taken(s), t, p, FrameTaken(s), d))
  {
    var f := FrameTaken(s);
    var s4, s5, end := s.(pcs := s.pcs[t := Loaded(p, d)]), Taken(s).(pcs := s.pcs[t := InHand(p, d, f)]), Filled(Taken(s), t, p, f, d);
    assert s4.pcs[t := InHand(p, d, f)] == s5.pcs && s5.pcs[t := Guarded(p, f)] == end.pcs;
    Then(s5, t, Install, end, [], end);
    Then(s4, t, TakeFrame, s5, [Install] + [], end);
  }

  lemma {:induction false} MissRun(s: Pool, t: Session, p: PageId, end: Pool)
    requires Quiet(s) && t !in s.pcs && p !in s.table && Reaches(s.(pcs := s.pcs[t := Loaded(p, OnDisk(s, p))]), t, LOAD_STEPS, end)
    ensures Reaches(s, t, [StartFetch(p)] + MISS_STEPS, end)
  {
    var d := OnDisk(s, p);
    var s1, s2, s3, s4 := s.(pcs := s.pcs[t := Look(p)]), s.(pcs := s.pcs[t := Want(p)]),
                          s.(pcs := s.pcs[t := Again(p)]), s.(pcs := s.pcs[t := Loaded(p, d)]);
    assert s1.pcs[t := Want(p)] == s2.pcs && s2.pcs[t := Again(p)] == s3.pcs && s3.pcs[t := Loaded(p, d)] == s4.pcs;
    Then(s3, t, LookAgain, s4, LOAD_STEPS, end);
    Then(s2, t, GoExclusive, s3, [LookAgain] + LOAD_STEPS, end);
    Then(s1, t, LookUp, s2, [GoExclusive] + ([LookAgain] + LOAD_STEPS), end);
    Then(s, t, StartFetch(p), s1, MISS_STEPS, end);
  }

  /** The pool after the end of a guard. */
  function Unpinned(s: Pool, t: Session, f: FrameId): Pool
    requires f < |s.frames|
  {
    var pin := s.frames[f].pin - 1;
    s.(frames := s.frames[f := s.frames[f].(pin := pin)], lru := if pin == 0 then [f] + s.lru else s.lru, pcs := s.pcs - {t})
  }

  const UNPIN_STEPS: seq<Act> := [StartUnpin] + ([Unpin] + ([FinishUnpin] + []))

  lemma {:induction false} UnpinRun(s: Pool, t: Session)
    requires Quiet(s) && t in s.pcs && s.pcs[t].f < |s.frames|
    ensures Reaches(s, t, UNPIN_STEPS, Unpinned(s, t, s.pcs[t].f))
  {
    var p, f := s.pcs[t].p, s.pcs[t].f;
    var end := Unpinned(s, t, f);
    var s1 := s.(pcs := s.pcs[t := Unpinning(p, f)]);
    var s2 := s.(frames := end.frames, pcs := s.pcs[t := Dropped(p, f)]);
    assert s1.pcs[t := Dropped(p, f)] == s2.pcs && s2.pcs - {t} == end.pcs;
    Then(s2, t, FinishUnpin, end, [], end);
    Then(s1, t, Unpin, s2, [FinishUnpin] + [], end);
    Then(s, t, StartUnpin, s1, [Unpin] + ([FinishUnpin] + []), end);
  }

  const DELETE_STEPS: seq<Act> := [StartDelete] + ([Delete] + [])

  lemma {:induction false} DeleteRun(s: Pool, t: Session, end: Pool)
    requires Quiet(s) && t in s.pcs && s.pcs[t].f < |s.frames|
    requires var p, f := s.pcs[t].p, s.pcs[t].f;
      end == if s.frames[f].pin != 1 then s
             else s.(free := s.free + [f], table := s.table - {p},
                     frames := s.frames[f := s.frames[f].(page := 0, pin := 0)], pcs := s.pcs - {t})
    ensures Reaches(s, t, DELETE_STEPS, end)
  {
    var p, f := s.pcs[t].p, s.pcs[t].f;
    var s1 := s.(pcs := s.pcs[t := Deleting(p, f)]);
    assert s1.pcs[t := Guarded(p, f)] == s.pcs && s1.pcs - {t} == s.pcs - {t};
    Then(s1, t, Delete, end, [], end);
    Then(s, t, StartDelete, s1, [Delete] + [], end);
  }

  // -------------------------------------------------------------- the manager

  class SimpleBufferPoolManager {
    const replacer: LRUReplacer
    var pageTable: map<PageId, FrameId>
    var frames: seq<Frame>
    var freeFrames: seq<FrameId>
    var disk: map<PageId, Data>
    /** The guards handed out and not yet done. */
    ghost var guards: map<Session, Pc>
    /** The frames of all calls of unpinPage so far. */
    ghost var unpins: seq<FrameId>

    ghost function State(): Pool
      reads this, replacer
    {
      Pool(pageTable, frames, freeFrames, replacer.order, disk, guards)
    }

    ghost predicate Valid()
      reads this, replacer
    {
      replacer.Valid() && Inv(State()) && Quiet(State()) && ByRecency(replacer.order, unpins)
    }

    constructor (poolSize: nat, disk: map<PageId, Data>)
      ensures Valid() && fresh(replacer) && State() == Start(poolSize, disk) && unpins == []
    {
      replacer := new LRUReplacer();
      pageTable, frames, freeFrames := map[], seq(poolSize, i => Frame(0, 0, false, [])), seq(poolSize, i => i);
      this.disk, guards, unpins := disk, map[], [];
      new;
      StartInv(poolSize, disk);
    }

    /** The branch of fetchPage for a page in memory. */
    method Pin(pageId: PageId, ghost t: Session) returns (f: FrameId)
      requires Valid() && pageId in pageTable && t !in guards
      modifies this, replacer
      ensures replacer.Valid() && pageId in old(pageTable) && f == old(pageTable)[pageId] < |old(frames)| && unpins == old(unpins)
      ensures State() == Hit(old(State()), t, pageId)
    {
      ghost var s := State();
      f := pageTable[pageId];
      CachedPage(s, pageId);
      frames := frames[f := frames[f].(pin := frames[f].pin + 1)];
      if frames[f].pin == 1 {
        var ok := replacer.Remove(f);
      }
      guards := guards[t := Guarded(pageId, f)];
    }

    /** A frame for a new page: a free one, or the victim, written back if it is dirty. None is a panic in victim. */
    method AllocateFrame() returns (f: Option<FrameId>)
      requires Valid()
      modifies this, replacer
      ensures replacer.Valid() && (f.None? <==> old(freeFrames) == [] && old(replacer.order) == []) && unpins == old(unpins)
      ensures f.Some? ==> var s := old(State());
        (s.lru != [] ==> s.lru[|s.lru| - 1] < |s.frames|) && f.value == FrameTaken(s) < |s.frames| && State() == Taken(s)
    {
      ghost var s := State();
      if s.lru != [] {
        assert s.lru[|s.lru| - 1] in s.lru;
        assert Evictable(s, s.lru[|s.lru| - 1]);
      }
      if |freeFrames| > 0 {
        f := Some(freeFrames[0]);
        assert freeFrames[0] in s.free;
        freeFrames := freeFrames[1..];
        return;
      }
      f := replacer.Victim();
      if f.Some? {
        assert s.lru[|s.lru| - 1] == f.value && s.lru[..|s.lru| - 1] == replacer.order;
        var frame := frames[f.value];
        pageTable := pageTable - {frame.page};
        if frame.dirty {
          disk := disk[frame.page := frame.data];
        }
      }
    }

    /** The rest of fetchPage for a page that is not in memory; not ok is a panic. */
    method Load(pageId: PageId, ghost t: Session) returns (ok: bool, f: FrameId)
      requires Valid() && t !in guards && pageId !in pageTable
      modifies this, replacer
      ensures replacer.Valid() && (!ok <==> old(freeFrames) == [] && old(replacer.order) == []) && unpins == old(unpins)
      ensures ok ==> var s := old(State());
        (s.lru != [] ==> s.lru[|s.lru| - 1] < |s.frames|) && f == FrameTaken(s) < |s.frames|
        && State() == Filled(Taken(s), t, pageId, f, OnDisk(s, pageId))
    {
      var data := At(disk, pageId);
      var frame := AllocateFrame();
      if frame.None? {
        return false, 0;
      }
      ok, f := true, frame.value;
      frames := frames[f := Frame(pageId, 1, false, data)];
      pageTable := pageTable[pageId := f];
      guards := guards[t := Guarded(pageId, f)];
    }

    method FetchHit(pageId: PageId, ghost t: Session) returns (f: FrameId)
      requires Valid() && t !in guards && pageId in pageTable
      modifies this, replacer
      ensures Valid() && FetchedPage(old(State()), t, pageId, f, State()) && unpins == old(unpins)
      ensures pageTable == old(pageTable) && disk == old(disk) && freeFrames == old(freeFrames)
    {
      ghost var s := State();
      f := Pin(pageId, t);
      RecencyWithout(s.lru, unpins, f);
      HitRun(s, t, pageId);
      FetchDone(s, t, pageId, [StartFetch(pageId)] + HIT_STEPS, State());
    }

    method FetchMiss(pageId: PageId, ghost t: Session) returns (ok: bool, f: FrameId)
      requires Valid() && t !in guards && pageId !in pageTable
      modifies this, replacer
      ensures ok ==> Valid() && FetchedPage(old(State()), t, pageId, f, State()) && unpins == old(unpins)
      ensures ok ==> Placed(old(State()), pageId, f, State(), unpins)
      ensures ok <==> exists g: FrameId :: g < |old(frames)| && !(Holds(old(State()), g) && old(frames)[g].pin >= 1)
    {
      ghost var s := State();
      NoVictimHere(s, t, pageId);
      ok, f := Load(pageId, t);
      if ok {
        MissDone(s, t, pageId, State());
        MissPlaced(s, t, pageId, State(), unpins);
      }
    }

    /**
     fetchPage: the page ends up pinned in one frame with what readers of it see, and readers of every page see the
     same as before. A page in memory stays in its frame. Another page takes a free frame, and no page leaves the pool;
     in a full pool it takes the frame of the page that was unpinned least recently. Not ok is a panic: it happens if and
     only if the page is not in memory and every frame is pinned.
     */
    method FetchPage(pageId: PageId, ghost t: Session) returns (ok: bool, f: FrameId)
      requires Valid() && t !in guards
      modifies this, replacer
      ensures ok ==> Valid() && FetchedPage(old(State()), t, pageId, f, State()) && unpins == old(unpins)
      ensures pageId in old(pageTable) ==> pageTable == old(pageTable) && disk == old(disk) && freeFrames == old(freeFrames)
      ensures ok && pageId !in old(pageTable) ==> Placed(old(State()), pageId, f, State(), unpins)
      ensures ok <==>
        pageId in old(pageTable) || exists g: FrameId :: g < |old(frames)| && !(Holds(old(State()), g) && old(frames)[g].pin >= 1)
    {
      if pageId in pageTable {
        ok := true;
        f := FetchHit(pageId, t);
      } else {
        ok, f := FetchMiss(pageId, t);
      }
    }

    method DropPin(pageId: PageId, ghost t: Session)
      requires Valid() && t in guards && guards[t].p == pageId && pageId in pageTable && pageTable[pageId] == guards[t].f < |frames|
      modifies this, replacer
      ensures replacer.Valid() && guards == old(guards) - {t} && State() == Unpinned(old(State()), t, old(guards)[t].f)
      ensures unpins == old(unpins) + [old(guards)[t].f] && ByRecency(replacer.order, unpins)
    {
      var f := pageTable[pageId];
      Unlisted(State(), t, f);
      frames := frames[f := frames[f].(pin := frames[f].pin - 1)];
      RecencyUnpin(replacer.order, unpins, f);
      if frames[f].pin == 0 {
        replacer.Insert(f);
      }
      guards, unpins := guards - {t}, unpins + [f];
    }

    /** unpinPage for a guard on the page: the page stays where it is, now the one unpinned last, and no reader sees a difference. */
    method UnpinPage(pageId: PageId, ghost t: Session) returns (found: bool)
      requires Valid() && t in guards && guards[t].p == pageId
      modifies this, replacer
      ensures found && Valid() && guards == old(guards) - {t} && forall q :: View(State(), q) == View(old(State()), q)
      ensures unpins == old(unpins) + [old(guards)[t].f] && pageTable == old(pageTable) && disk == old(disk) && freeFrames == old(freeFrames)
      ensures var f := old(guards)[t].f; f < |old(frames)| && frames == old(frames)[f := old(frames)[f].(pin := old(frames)[f].pin - 1)]
    {
      ghost var s := State();
      SessionHolds(s, t);
      assert SessionOk(s, s.pcs[t]);
      found := pageId in pageTable;
      if found {
        DropPin(pageId, t);
      }
      UnpinDone(s, t, State());
      UnpinnedParts(s, t, State());
    }

    /** deletePage for a guard on the page: it succeeds if and only if no other guard pins the page. */
    method DeletePage(pageId: PageId, ghost t: Session) returns (deleted: bool)
      requires Valid() && t in guards && guards[t].p == pageId
      modifies this
      ensures Valid() && deleted == (forall u | u in old(guards) && u != t :: old(guards)[u].p != pageId)
      ensures guards == (if deleted then old(guards) - {t} else old(guards))
      ensures forall q | q != pageId :: View(State(), q) == View(old(State()), q)
      ensures deleted ==> pageId !in pageTable
      ensures unpins == old(unpins) && disk == old(disk)
      ensures Reaches(old(State()), t, DELETE_STEPS, State())
    {
      ghost var s := State();
      SessionHolds(s, t);
      assert SessionOk(s, s.pcs[t]);
      OnlyGuardIff(s, t);
      var f := pageTable[pageId];
      if frames[f].pin != 1 {
        DeleteRun(s, t, s);
        return false;
      }
      freeFrames := freeFrames + [f];
      pageTable := pageTable - {pageId};
      frames := frames[f := frames[f].(page := 0, pin := 0)];
      guards := guards - {t};
      deleted := true;
      DeleteRun(s, t, State());
      ReachesInv(s, t, DELETE_STEPS, State());
      DeleteSeen(s, t, State());
    }

    /** FlushAllPages: afterwards the disk alone holds what readers see. */
    method FlushAllPages()
      requires Valid()
      modifies this`disk
      ensures Valid() && (forall p: PageId :: At(disk, p) == View(old(State()), p)) && forall p :: View(State(), p) == View(old(State()), p)
    {
      ghost var s := State();
      var flat := Pool(pageTable, frames, freeFrames, [], disk, map[]);
      assert forall f: FrameId :: Holds(flat, f) == Holds(s, f);
      disk := PoolRuns.FlushAllPages(flat);
      FlushKeeps(s, State());
    }
  }

  lemma {:induction false} FlushKeeps(s: Pool, s': Pool)
    requires Inv(s) && Quiet(s) && s' == s.(disk := s'.disk) && forall p: PageId :: At(s'.disk, p) == View(s, p)
    ensures Inv(s') && Quiet(s') && forall p :: View(s', p) == View(s, p)
  {
    forall f: FrameId ensures Holds(s', f) == Holds(s, f) && Evictable(s', f) == Evictable(s, f) && Holders(s', f) == Holders(s, f) {
      SameMutexes(s, s', 0, f);
    }
    ReplacerKept(s, s');
    forall t | t in s'.pcs ensures SessionOk(s', s'.pcs[t]) {
      assert SessionOk(s, s.pcs[t]);
    }
    forall f: FrameId | f < |s'.frames| ensures f in s'.free || Holds(s', f) || InSomeHand(s', f) {
      assert f in s.free || Holds(s, f) || InSomeHand(s, f);
    }
  }

  /** The page is in the frame of the new guard with what readers of it saw; readers of every page see what they saw. */
  ghost predicate FetchedPage(s: Pool, t: Session, p: PageId, f: FrameId, s': Pool) {
    && s'.pcs == s.pcs[t := Guarded(p, f)] && (forall q :: View(s', q) == View(s, q))
    && f < |s'.frames| && s'.frames[f].page == p && s'.frames[f].data == View(s, p) && (p !in s.table ==> !s'.frames[f].dirty)
    && |s'.frames| == |s.frames| && forall g: FrameId | g < |s.frames| && g != f :: s'.frames[g] == s.frames[g]
  }

  lemma {:induction false} FetchDone(s: Pool, t: Session, p: PageId, acts: seq<Act>, s': Pool)
    requires Inv(s) && Quiet(s) && Reaches(s, t, acts, s') && (forall i | 0 <= i < |acts| :: !acts[i].Write? && !acts[i].Delete?)
    requires t in s'.pcs && s'.pcs[t].Guarded? && s'.pcs[t].p == p && s'.pcs == s.pcs[t := s'.pcs[t]]
    requires var f := s'.pcs[t].f;
      && |s'.frames| == |s.frames| && (forall g: FrameId | g < |s.frames| && g != f :: s'.frames[g] == s.frames[g])
      && (f < |s.frames| && p !in s.table ==> !s'.frames[f].dirty)
    ensures Inv(s') && Quiet(s') && FetchedPage(s, t, p, s'.pcs[t].f, s')
  {
    ReachesInv(s, t, acts, s');
    forall q ensures View(s', q) == View(s, q) {
      ReachesView(s, t, acts, s', q);
    }
    SessionHolds(s', t);
    assert SessionOk(s', s'.pcs[t]);
  }

  lemma {:induction false} MissDone(s: Pool, t: Session, p: PageId, s': Pool)
    requires Inv(s) && Quiet(s) && t !in s.pcs && p !in s.table
    requires (s.free != [] || (s.lru != [] && s.lru[|s.lru| - 1] < |s.frames|)) && FrameTaken(s) < |s.frames|
    requires s' == Filled(Taken(s), t, p, FrameTaken(s), OnDisk(s, p))
    ensures Inv(s') && Quiet(s') && FetchedPage(s, t, p, FrameTaken(s), s')
  {
    LoadRun(s, t, p, OnDisk(s, p));
    MissRun(s, t, p, s');
    FetchDone(s, t, p, [StartFetch(p)] + MISS_STEPS, s');
  }

  /** Where a page that was not in memory went, and what left the pool for it. */
  ghost predicate Placed(s: Pool, p: PageId, f: FrameId, s': Pool, unpins: seq<FrameId>) {
    if s.free != [] then f in s.free && s'.table == s.table[p := f] && s'.disk == s.disk
    else
      && LeastRecent(s, unpins, f) && s'.table == (s.table - {s.frames[f].page})[p := f]
      && s'.disk == if s.frames[f].dirty then s.disk[s.frames[f].page := s.frames[f].data] else s.disk
  }

  lemma {:induction false} MissPlaced(s: Pool, t: Session, p: PageId, s': Pool, unpins: seq<FrameId>)
    requires Inv(s) && Quiet(s) && t !in s.pcs && p !in s.table && ByRecency(s.lru, unpins)
    requires (s.free != [] || (s.lru != [] && s.lru[|s.lru| - 1] < |s.frames|)) && FrameTaken(s) < |s.frames|
    requires s' == Filled(Taken(s), t, p, FrameTaken(s), OnDisk(s, p))
    ensures Placed(s, p, FrameTaken(s), s', unpins) && ByRecency(s'.lru, unpins)
  {
    if s.free == [] {
      BackIsLeastRecent(s, unpins);
    }
  }

  lemma {:induction false} NoVictimHere(s: Pool, t: Session, p: PageId)
    requires Inv(s) && Quiet(s) && t !in s.pcs && p !in s.table
    ensures (s.free == [] && s.lru == []) <==> forall f: FrameId | f < |s.frames| :: Holds(s, f) && s.frames[f].pin >= 1
  {
    forall f: FrameId | f < |s.frames|
      ensures (f in s.free || f in s.lru || (Holds(s, f) && s.frames[f].pin >= 1)) && !(f in s.free && Holds(s, f))
      ensures !(f in s.lru && s.frames[f].pin >= 1) {
      Partition(s, f);
    }
    if s.lru != [] {
      var f := s.lru[0];
      assert f in s.lru && Evictable(s, f) && f < |s.frames|;
    }
    if s.free != [] {
      assert s.free[0] in s.free;
    }
  }

  lemma {:induction false} Unlisted(s: Pool, t: Session, f: FrameId)
    requires Inv(s) && Quiet(s) && t in s.pcs && s.pcs[t].f == f
    ensures f !in s.lru
  {
    SessionHolds(s, t);
    Counted(s, t, f);
    assert !Bumping(s, f);
    assert f in s.lru <==> Evictable(s, f);
  }

  lemma {:induction false} UnpinnedParts(s: Pool, t: Session, s': Pool)
    requires Quiet(s) && t in s.pcs && s.pcs[t].f < |s.frames| && s' == Unpinned(s, t, s.pcs[t].f)
    ensures s'.table == s.table && s'.disk == s.disk && s'.free == s.free
    ensures var f := s.pcs[t].f; s'.frames == s.frames[f := s.frames[f].(pin := s.frames[f].pin - 1)]
  {
  }

  lemma {:induction false} UnpinDone(s: Pool, t: Session, s': Pool)
    requires Inv(s) && Quiet(s) && t in s.pcs && s.pcs[t].f < |s.frames| && s' == Unpinned(s, t, s.pcs[t].f)
    ensures Reaches(s, t, UNPIN_STEPS, s') && Inv(s') && Quiet(s') && forall q :: View(s', q) == View(s, q)
  {
    UnpinRun(s, t);
    ReachesInv(s, t, UNPIN_STEPS, s');
    forall q ensures View(s', q) == View(s, q) {
      ReachesView(s, t, UNPIN_STEPS, s', q);
    }
  }

  lemma {:induction false} OnlyGuardIff(s: Pool, t: Session)
    requires Inv(s) && Quiet(s) && t in s.pcs
    ensures s.pcs[t].f < |s.frames| && (s.frames[s.pcs[t].f].pin == 1 <==> forall u | u in s.pcs && u != t :: s.pcs[u].p != s.pcs[t].p)
  {
    var p, f := s.pcs[t].p, s.pcs[t].f;
    SessionHolds(s, t);
    Counted(s, t, f);
    forall u | u in s.pcs ensures Pins(s.pcs[u], f) <==> s.pcs[u].p == p {
      SessionHolds(s, u);
      assert SessionOk(s, s.pcs[u]) && SessionOk(s, s.pcs[t]);
    }
    if forall u | u in s.pcs && u != t :: s.pcs[u].p != p {
      assert Holders(s, f) == {t};
    }
  }

  lemma {:induction false} DeleteSeen(s: Pool, t: Session, s': Pool)
    requires Inv(s) && Quiet(s) && t in s.pcs && s.pcs[t].f < |s.frames| && s.frames[s.pcs[t].f].pin == 1
    requires s'.table == s.table - {s.pcs[t].p} && s'.disk == s.disk && |s'.frames| == |s.frames| && s'.pcs == s.pcs - {t}
    requires forall g: FrameId | g < |s.frames| && g != s.pcs[t].f :: s'.frames[g] == s.frames[g]
    ensures Quiet(s') && forall q | q != s.pcs[t].p :: View(s', q) == View(s, q)
  {
    assert SessionOk(s, s.pcs[t]);
    forall q | q != s.pcs[t].p ensures View(s', q) == View(s, q) {
      if q in s.table {
        assert s.frames[s.table[q]].page == q;
      }
    }
  }
}
