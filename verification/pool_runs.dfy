/** All runs of the buffer pool: its invariant, and the plain page store it stands for. */
module PoolRuns {
  import opened Bytes
  import opened Pages
  import opened PoolProtocol
  import opened PoolSteps

  // ------------------------------------------------------- install and delete

  lemma {:induction false} InstallPlaces(s: Pool, s': Pool, t: Session)
    requires Inv(s) && t in s.pcs && s.pcs[t].InHand? && Apply(s, t, Install) == Some(s')
    ensures TableOk(s') && HomesOk(s') && Holds(s', s.pcs[t].f) && forall g: FrameId | g != s.pcs[t].f :: Holds(s', g) == Holds(s, g)
  {
    var p, f := s.pcs[t].p, s.pcs[t].f;
    assert SessionOk(s, s.pcs[t]);
    OwnerAlone(s, t);
    forall q | q in s'.table ensures s'.table[q] < |s'.frames| && s'.frames[s'.table[q]].page == q {
      if q != p {
        assert s.frames[s.table[q]].page == q;
        assert Holds(s, s.table[q]);
      }
    }
    forall g: FrameId | g != f ensures Holds(s', g) == Holds(s, g) {
    }
    forall g: FrameId | g < |s'.frames| ensures g in s'.free || Holds(s', g) || InSomeHand(s', g) {
      assert g != f ==> g in s.free || Holds(s, g) || InSomeHand(s, g);
    }
  }

  lemma {:induction false} NoPinsInHand(s: Pool, t: Session)
    requires Inv(s) && t in s.pcs && s.pcs[t].InHand?
    ensures forall u | u in s.pcs :: !Pins(s.pcs[u], s.pcs[t].f) && !InMutex(s.pcs[u], s.pcs[t].f)
  {
    forall u | u in s.pcs ensures !Pins(s.pcs[u], s.pcs[t].f) && !InMutex(s.pcs[u], s.pcs[t].f) {
      var pc := s.pcs[u];
      if pc.Bump? || pc.Guarded? || pc.Unpinning? || pc.Dropped? || pc.Deleting? {
        SessionHolds(s, u);
      }
    }
  }

  lemma {:induction false} InstallCounts(s: Pool, s': Pool, t: Session)
    requires Inv(s) && t in s.pcs && s.pcs[t].InHand? && Apply(s, t, Install) == Some(s')
    requires Holds(s', s.pcs[t].f) && forall g: FrameId | g != s.pcs[t].f :: Holds(s', g) == Holds(s, g)
    ensures PinsOk(s') && ReplacerOk(s')
  {
    var f := s.pcs[t].f;
    NoPinsInHand(s, t);
    assert Holders(s', f) == {t};
    forall g: FrameId | Holds(s', g) ensures s'.frames[g].pin == |Holders(s', g)| {
      if g != f {
        SameHolders(s, s', g);
      }
    }
    assert !Bumping(s', f) && !Dropping(s', f) && !Evictable(s, f);
    forall g: FrameId ensures Evictable(s', g) == Evictable(s, g) {
      SameMutexes(s, s', t, g);
    }
    ReplacerKept(s, s');
  }

  lemma {:induction false} InstallStep(s: Pool, t: Session)
    requires Inv(s) && t in s.pcs && s.pcs[t].InHand?
    ensures Apply(s, t, Install).Some? && Inv(Apply(s, t, Install).value)
  {
    var s' := Apply(s, t, Install).value;
    var p, f := s.pcs[t].p, s.pcs[t].f;
    MovedLocks(s, s', t, Guarded(p, f));
    InstallPlaces(s, s', t);
    InstallCounts(s, s', t);
    assert SessionOk(s, s.pcs[t]);
    OwnerAlone(s, t);
    forall u | u in s'.pcs ensures SessionOk(s', s'.pcs[u]) {
      if u != t {
        assert SessionOk(s, s.pcs[u]);
      }
    }
    forall g: FrameId | Holds(s', g) && !s'.frames[g].dirty ensures s'.frames[g].data == OnDisk(s', s'.frames[g].page) {
      assert g != f ==> Holds(s, g);
    }
  }

  /** Delete of a page that only this session pins. */
  ghost predicate Deletes(s: Pool, t: Session, s': Pool) {
    && t in s.pcs && s.pcs[t].Deleting? && s.pcs[t].f < |s.frames| && s.frames[s.pcs[t].f].pin == 1 && Apply(s, t, Delete) == Some(s')
  }

  lemma {:induction false} DeletePlaces(s: Pool, s': Pool, t: Session)
    requires Inv(s) && Deletes(s, t, s')
    ensures TableOk(s') && HomesOk(s') && !Holds(s', s.pcs[t].f) && forall g: FrameId | g != s.pcs[t].f :: Holds(s', g) == Holds(s, g)
  {
    var f := s.pcs[t].f;
    SessionHolds(s, t);
    OthersHold(s, s', f);
    OwnerAlone(s, t);
    assert f !in s.free;
    assert s'.free[|s.free|] == f;
    forall g: FrameId | g < |s'.frames| ensures g in s'.free || Holds(s', g) || InSomeHand(s', g) {
      assert g != f ==> g in s.free || Holds(s, g) || InSomeHand(s, g);
      assert g in s.free ==> g in s'.free;
    }
  }

  lemma {:induction false} DeleteCounts(s: Pool, s': Pool, t: Session)
    requires Inv(s) && Deletes(s, t, s') && !Holds(s', s.pcs[t].f) && forall g: FrameId | g != s.pcs[t].f :: Holds(s', g) == Holds(s, g)
    ensures PinsOk(s') && ReplacerOk(s')
  {
    var f := s.pcs[t].f;
    SessionHolds(s, t);
    OwnerAlone(s, t);
    forall g: FrameId | Holds(s', g) ensures s'.frames[g].pin == |Holders(s', g)| {
      SameHolders(s, s', g);
    }
    assert !Bumping(s, f);
    assert f !in s.lru;
    forall g: FrameId ensures Evictable(s', g) == Evictable(s, g) {
      SameMutexes(s, s', t, g);
    }
    ReplacerKept(s, s');
  }

  lemma {:induction false} DeleteStep(s: Pool, s': Pool, t: Session)
    requires Inv(s) && Deletes(s, t, s')
    ensures Inv(s')
  {
    var p, f := s.pcs[t].p, s.pcs[t].f;
    SessionHolds(s, t);
    GoneLocks(s, s', t);
    DeletePlaces(s, s', t);
    DeleteCounts(s, s', t);
    Counted(s, t, f);
    OwnerAlone(s, t);
    forall u | u in s'.pcs ensures SessionOk(s', s'.pcs[u]) {
      assert SessionOk(s, s.pcs[u]);
    }
    forall g: FrameId | Holds(s', g) && !s'.frames[g].dirty ensures s'.frames[g].data == OnDisk(s', s'.frames[g].page) {
      assert Holds(s, g);
    }
  }

  // -------------------------------------------------------------- every step

  lemma {:induction false} FetchKeeps(s: Pool, t: Session, a: Act, s': Pool)
    requires Inv(s) && Apply(s, t, a) == Some(s') && (a.StartFetch? || a.LookUp? || a.GoExclusive? || a.LookAgain?)
    ensures Inv(s')
  {
    match a
    case StartFetch(p) => PcStep(s, t, Look(p));
    case LookUp =>
      if s.pcs[t].p in s.table {
        BumpStep(s, t, s.pcs[t].p, false);
      } else {
        PcStep(s, t, Want(s.pcs[t].p));
      }
    case GoExclusive => PcStep(s, t, Again(s.pcs[t].p));
    case LookAgain =>
      OwnerAlone(s, t);
      if s.pcs[t].p in s.table {
        BumpStep(s, t, s.pcs[t].p, true);
      } else {
        PcStep(s, t, Loaded(s.pcs[t].p, OnDisk(s, s.pcs[t].p)));
      }
  }

  lemma {:induction false} FrameKeeps(s: Pool, t: Session, a: Act, s': Pool)
    requires Inv(s) && Apply(s, t, a) == Some(s') && (a.FinishBump? || a.TakeFrame? || a.Install? || a.Write?)
    ensures Inv(s')
  {
    match a
    case FinishBump => FinishBumpStep(s, t);
    case TakeFrame =>
      if s.free != [] {
        TakeFreeStep(s, t);
      } else {
        EvictStep(s, t);
      }
    case Install => InstallStep(s, t);
    case Write(d) => WriteStep(s, t, d);
  }

  lemma {:induction false} EndKeeps(s: Pool, t: Session, a: Act, s': Pool)
    requires Inv(s) && Apply(s, t, a) == Some(s') && (a.StartUnpin? || a.Unpin? || a.FinishUnpin? || a.StartDelete? || a.Delete?)
    ensures Inv(s')
  {
    assert SessionOk(s, s.pcs[t]);
    match a
    case StartUnpin => PcStep(s, t, Unpinning(s.pcs[t].p, s.pcs[t].f));
    case Unpin => UnpinStep(s, t);
    case FinishUnpin => FinishUnpinStep(s, t);
    case StartDelete => PcStep(s, t, Deleting(s.pcs[t].p, s.pcs[t].f));
    case Delete =>
      if s.frames[s.pcs[t].f].pin == 1 {
        DeleteStep(s, s', t);
      } else {
        PcStep(s, t, Guarded(s.pcs[t].p, s.pcs[t].f));
      }
  }

  /** Every enabled step of every session keeps the invariant. */
  lemma {:induction false} StepKeeps(s: Pool, t: Session, a: Act, s': Pool)
    requires Inv(s) && Apply(s, t, a) == Some(s')
    ensures Inv(s')
  {
    if a.StartFetch? || a.LookUp? || a.GoExclusive? || a.LookAgain? {
      FetchKeeps(s, t, a, s');
    } else if a.FinishBump? || a.TakeFrame? || a.Install? || a.Write? {
      FrameKeeps(s, t, a, s');
    } else {
      EndKeeps(s, t, a, s');
    }
  }

  /** An empty pool of n frames over a disk. */
  ghost function Start(n: nat, disk: map<PageId, Data>): Pool {
    Pool(map[], seq(n, i => Frame(0, 0, false, [])), seq(n, i => i), [], disk, map[])
  }

  lemma {:induction false} StartInv(n: nat, disk: map<PageId, Data>)
    ensures Inv(Start(n, disk))
  {
    var s := Start(n, disk);
    forall f: FrameId | f < |s.frames| ensures f in s.free {
      assert s.free[f] == f;
    }
  }

  // --------------------------------------------------------------------- view

  /** What a reader of the page sees: its frame if it has one, otherwise the disk. */
  ghost function View(s: Pool, p: PageId): Data {
    if p in s.table && s.table[p] < |s.frames| then s.frames[s.table[p]].data else OnDisk(s, p)
  }

  /** The effect of a step on a plain page store, seen at page q. */
  ghost function PlainStep(s: Pool, t: Session, a: Act, q: PageId, v: Data): Data {
    if a.Write? && t in s.pcs && s.pcs[t].Guarded? && s.pcs[t].p == q then a.d
    else if a.Delete? && t in s.pcs && s.pcs[t].Deleting? && s.pcs[t].p == q && s.pcs[t].f < |s.frames|
            && s.frames[s.pcs[t].f].pin == 1 then OnDisk(s, q)
    else v
  }

  lemma {:induction false} WriteView(s: Pool, t: Session, d: Data, s': Pool, q: PageId)
    requires Inv(s) && Apply(s, t, Write(d)) == Some(s')
    ensures View(s', q) == PlainStep(s, t, Write(d), q, View(s, q))
  {
    SessionHolds(s, t);
    if q in s.table && q != s.pcs[t].p {
      assert s.frames[s.table[q]].page == q;
    }
  }

  lemma {:induction false} InstallView(s: Pool, t: Session, s': Pool, q: PageId)
    requires Inv(s) && Apply(s, t, Install) == Some(s')
    ensures View(s', q) == View(s, q)
  {
    assert SessionOk(s, s.pcs[t]);
    if q in s.table {
      assert s.frames[s.table[q]].page == q;
      assert Holds(s, s.table[q]);
    }
  }

  lemma {:induction false} EvictView(s: Pool, t: Session, q: PageId)
    requires Inv(s) && t in s.pcs && s.pcs[t].Loaded? && s.lru != [] && s.lru[|s.lru| - 1] < |s.frames|
    ensures View(Evicted(s, t), q) == View(s, q)
  {
    VictimFree(s, t);
    var f := s.lru[|s.lru| - 1];
    if q in s.table && q != s.frames[f].page {
      assert s.frames[s.table[q]].page == q;
    }
  }

  lemma {:induction false} DeleteView(s: Pool, t: Session, s': Pool, q: PageId)
    requires Inv(s) && Apply(s, t, Delete) == Some(s')
    ensures View(s', q) == PlainStep(s, t, Delete, q, View(s, q))
  {
    SessionHolds(s, t);
    if q in s.table && q != s.pcs[t].p {
      assert s.frames[s.table[q]].page == q;
    }
  }

  /** Fetches, evictions, pins and unpins are invisible; a write under a guard and a delete do what they say. */
  lemma {:induction false} StepRefines(s: Pool, t: Session, a: Act, s': Pool, q: PageId)
    requires Inv(s) && Apply(s, t, a) == Some(s')
    ensures View(s', q) == PlainStep(s, t, a, q, View(s, q))
  {
    match a
    case Write(d) => WriteView(s, t, d, s', q);
    case Install => InstallView(s, t, s', q);
    case Delete => DeleteView(s, t, s', q);
    case TakeFrame =>
      if s.free == [] {
        EvictView(s, t, q);
      }
    case LookUp => PinView(s, t, a, s', q);
    case LookAgain => PinView(s, t, a, s', q);
    case Unpin => PinView(s, t, a, s', q);
    case _ =>
  }

  lemma {:induction false} PinView(s: Pool, t: Session, a: Act, s': Pool, q: PageId)
    requires Inv(s) && Apply(s, t, a) == Some(s') && (a.LookUp? || a.LookAgain? || a.Unpin?)
    ensures View(s', q) == View(s, q)
  {
    assert s'.table == s.table && s'.disk == s.disk;
    if q in s.table {
      assert s'.frames[s.table[q]].data == s.frames[s.table[q]].data;
    }
  }

  // --------------------------------------------------------------------- runs

  datatype Turn = Turn(session: Session, act: Act)

  /** The pool after the turns, each enabled when it comes; None otherwise. */
  ghost function RunTo(s: Pool, turns: seq<Turn>, n: nat): Option<Pool>
    requires n <= |turns|
  {
    if n == 0 then Some(s)
    else match RunTo(s, turns, n - 1)
         case None => None
         case Some(m) => Apply(m, turns[n - 1].session, turns[n - 1].act)
  }

  /** The plain page store after the same turns, at page q. */
  ghost function PlainTo(s: Pool, turns: seq<Turn>, n: nat, q: PageId): Data
    requires n <= |turns| && RunTo(s, turns, n).Some?
  {
    if n == 0 then View(s, q)
    else PlainStep(RunTo(s, turns, n - 1).value, turns[n - 1].session, turns[n - 1].act, q, PlainTo(s, turns, n - 1, q))
  }

  /** Over all interleavings the invariant holds and readers see the plain page store. */
  lemma {:induction false} RunRefines(s: Pool, turns: seq<Turn>, n: nat, q: PageId)
    requires Inv(s) && n <= |turns| && RunTo(s, turns, n).Some?
    ensures var m := RunTo(s, turns, n).value; Inv(m) && View(m, q) == PlainTo(s, turns, n, q)
  {
    if n > 0 {
      RunRefines(s, turns, n - 1, q);
      var m := RunTo(s, turns, n - 1).value;
      StepKeeps(m, turns[n - 1].session, turns[n - 1].act, RunTo(s, turns, n).value);
      StepRefines(m, turns[n - 1].session, turns[n - 1].act, RunTo(s, turns, n).value, q);
    }
  }

  // ---------------------------------------------------------------- partition

  /** No session is inside a pin mutex or has a frame in hand. */
  ghost predicate Settled(s: Pool) {
    forall t | t in s.pcs :: !s.pcs[t].Bump? && !s.pcs[t].Dropped? && !s.pcs[t].InHand?
  }

  /** Then free frames, frames in the replacer and pinned frames partition the pool. */
  lemma {:induction false} Partition(s: Pool, f: FrameId)
    requires Inv(s) && Settled(s) && f < |s.frames|
    ensures f in s.free || f in s.lru || (Holds(s, f) && s.frames[f].pin >= 1)
    ensures !(f in s.free && f in s.lru) && !(f in s.free && Holds(s, f)) && !(f in s.lru && s.frames[f].pin >= 1)
  {
    assert !Bumping(s, f) && !Dropping(s, f) && !InSomeHand(s, f);
    assert f in s.lru <==> Evictable(s, f);
    if Holds(s, f) {
      assert s.frames[f].pin == |Holders(s, f)|;
    }
  }

  /** victim() finds no frame, and panics, if and only if every frame holds a page that some session pins. */
  lemma {:induction false} NoVictimIff(s: Pool, t: Session)
    requires Inv(s) && t in s.pcs && s.pcs[t].Loaded?
    ensures Apply(s, t, TakeFrame).None? <==> forall f: FrameId | f < |s.frames| :: Holds(s, f) && s.frames[f].pin >= 1
  {
    OwnerAlone(s, t);
    forall f: FrameId | f < |s.frames|
      ensures (f in s.free || f in s.lru || (Holds(s, f) && s.frames[f].pin >= 1)) && !(f in s.free && Holds(s, f))
      ensures !(f in s.lru && s.frames[f].pin >= 1) {
      Partition(s, f);
    }
    if s.lru != [] {
      var f := s.lru[|s.lru| - 1];
      assert f in s.lru && Evictable(s, f) && f < |s.frames|;
    }
    if s.free != [] {
      assert s.free[0] in s.free;
    }
  }

  // -------------------------------------------------------------------- flush

  lemma {:induction false} CachedPage(s: Pool, p: PageId)
    requires TableOk(s) && CleanOk(s) && p in s.table
    ensures s.table[p] < |s.frames| && View(s, p) == s.frames[s.table[p]].data
    ensures !s.frames[s.table[p]].dirty ==> View(s, p) == At(s.disk, p)
  {
    assert Holds(s, s.table[p]);
  }

  /** What the disk holds while FlushAllPages has the pages of `rest` still to do. */
  ghost predicate FlushedBut(s: Pool, disk: map<PageId, Data>, rest: set<PageId>) {
    forall p: PageId :: At(disk, p) == if p in s.table && p !in rest then View(s, p) else At(s.disk, p)
  }

  lemma {:induction false} FlushOne(s: Pool, disk: map<PageId, Data>, rest: set<PageId>, p: PageId, disk': map<PageId, Data>)
    requires TableOk(s) && CleanOk(s) && p in s.table && p in rest && FlushedBut(s, disk, rest)
    requires s.table[p] < |s.frames| && disk' == if s.frames[s.table[p]].dirty then disk[p := s.frames[s.table[p]].data] else disk
    ensures FlushedBut(s, disk', rest - {p})
  {
    CachedPage(s, p);
  }

  /** FlushAllPages: afterwards the disk alone is what readers see. */
  method FlushAllPages(s: Pool) returns (disk: map<PageId, Data>)
    requires TableOk(s) && CleanOk(s)
    ensures forall p: PageId :: At(disk, p) == View(s, p)
  {
    disk := s.disk;
    var rest := s.table.Keys;
    while rest != {}
      invariant rest <= s.table.Keys && FlushedBut(s, disk, rest)
      decreases |rest|
    {
      var p :| p in rest;
      CachedPage(s, p);
      var frame := s.frames[s.table[p]];
      ghost var was := disk;
      if frame.dirty {
        disk := disk[p := frame.data];
      }
      FlushOne(s, was, rest, p, disk);
      rest := rest - {p};
    }
  }

  // -------------------------------------------------- writes without the dirty flag

  /** The data of frame f was overwritten without setting its dirty flag. */
  function Scribbled(s: Pool, f: FrameId, d: Data): Pool
    requires f < |s.frames|
  {
    s.(frames := s.frames[f := s.frames[f].(data := d)])
  }

  /** The step neither writes to frame f nor takes it from its page. */
  ghost predicate Spares(s: Pool, t: Session, a: Act, f: FrameId) {
    match a
    case Write(_) => t in s.pcs && s.pcs[t].Guarded? ==> s.pcs[t].f != f
    case TakeFrame => s.free == [] && s.lru != [] ==> s.lru[|s.lru| - 1] != f
    case Delete => t in s.pcs && s.pcs[t].Deleting? ==> s.pcs[t].f != f
    case _ => true
  }

  lemma {:induction false} OtherVictim(s: Pool, t: Session, f: FrameId)
    requires Inv(s) && Holds(s, f) && t in s.pcs && s.pcs[t].Loaded? && s.lru != [] && s.lru[|s.lru| - 1] != f
    ensures s.lru[|s.lru| - 1] < |s.frames| && s.frames[s.lru[|s.lru| - 1]].page != s.frames[f].page
  {
    VictimFree(s, t);
  }

  /** The page is still in frame f, with the flag it had, and the disk has what it had for it. */
  ghost predicate StillThere(s: Pool, m: Pool, f: FrameId)
    requires f < |s.frames|
  {
    && |m.frames| == |s.frames| && m.frames[f].dirty == s.frames[f].dirty && m.frames[f].page == s.frames[f].page && Holds(m, f)
    && OnDisk(m, s.frames[f].page) == OnDisk(s, s.frames[f].page)
  }

  lemma {:induction false} HandIsOther(s: Pool, t: Session, f: FrameId)
    requires Inv(s) && Holds(s, f) && t in s.pcs && s.pcs[t].InHand?
    ensures s.pcs[t].f != f && s.pcs[t].p != s.frames[f].page
  {
    assert SessionOk(s, s.pcs[t]);
  }

  lemma {:induction false} DeleteIsOther(s: Pool, t: Session, f: FrameId)
    requires Inv(s) && Holds(s, f) && t in s.pcs && s.pcs[t].Deleting? && s.pcs[t].f != f
    ensures s.pcs[t].p != s.frames[f].page
  {
    assert SessionOk(s, s.pcs[t]);
  }

  /** The step works on another frame and another page than those of f. */
  predicate Apart(s: Pool, t: Session, a: Act, f: FrameId)
    requires f < |s.frames|
  {
    match a
    case Write(_) => t in s.pcs && s.pcs[t].Guarded? ==> s.pcs[t].f != f
    case TakeFrame =>
      s.free == [] && s.lru != [] && t in s.pcs && s.pcs[t].Loaded? ==>
        var g := s.lru[|s.lru| - 1]; g != f && g < |s.frames| && s.frames[g].page != s.frames[f].page
    case Install => t in s.pcs && s.pcs[t].InHand? ==> s.pcs[t].f != f && s.pcs[t].p != s.frames[f].page
    case Delete => t in s.pcs && s.pcs[t].Deleting? ==> s.pcs[t].f != f && s.pcs[t].p != s.frames[f].page
    case _ => true
  }

  lemma {:induction false} SparedApart(s: Pool, f: FrameId, t: Session, a: Act)
    requires Inv(s) && Holds(s, f) && Spares(s, t, a, f)
    ensures Apart(s, t, a, f)
  {
    if a.TakeFrame? && s.free == [] && s.lru != [] && t in s.pcs && s.pcs[t].Loaded? {
      OtherVictim(s, t, f);
    } else if a.Install? && t in s.pcs && s.pcs[t].InHand? {
      HandIsOther(s, t, f);
    } else if a.Delete? && t in s.pcs && s.pcs[t].Deleting? {
      DeleteIsOther(s, t, f);
    }
  }

  lemma {:induction false} ApartStep(s: Pool, f: FrameId, t: Session, a: Act, m: Pool)
    requires Holds(s, f) && Apart(s, t, a, f) && Apply(s, t, a) == Some(m)
    ensures StillThere(s, m, f)
  {
  }

  lemma {:induction false} ScribbledFrame(s: Pool, f: FrameId, d: Data, g: FrameId, x: Frame)
    requires f < |s.frames| && g < |s.frames|
    ensures Scribbled(s, f, d).frames[g] == if g == f then s.frames[f].(data := d) else s.frames[g]
    ensures g != f ==> Scribbled(s, f, d).frames[g := x] == s.frames[g := x][f := s.frames[f].(data := d)]
    ensures x.data == s.frames[f].data ==> Scribbled(s, f, d).frames[f := x.(data := d)] == s.frames[f := x][f := x.(data := d)]
  {
  }

  /** Such a step does the same whether or not the frame was scribbled on. */
  lemma {:induction false} ScribbledStep(s: Pool, f: FrameId, d: Data, t: Session, a: Act, m: Pool)
    requires Holds(s, f) && Apart(s, t, a, f) && Apply(s, t, a) == Some(m)
    ensures f < |m.frames| && Apply(Scribbled(s, f, d), t, a) == Some(Scribbled(m, f, d))
  {
    match a {
      case LookUp => if s.pcs[t].p in s.table { BumpedAlike(s, t, s.pcs[t].p, false, f, d); }
      case LookAgain => if s.pcs[t].p in s.table { BumpedAlike(s, t, s.pcs[t].p, true, f, d); }
      case FinishBump => ScribbledFrame(s, f, d, s.pcs[t].f, s.frames[s.pcs[t].f]);
      case TakeFrame => if s.free == [] { EvictedAlike(s, t, f, d); }
      case Install => ScribbledFrame(s, f, d, s.pcs[t].f, Frame(s.pcs[t].p, 1, false, s.pcs[t].d));
      case Write(x) => ScribbledFrame(s, f, d, s.pcs[t].f, s.frames[s.pcs[t].f].(data := x, dirty := true));
      case Unpin => ScribbledFrame(s, f, d, s.pcs[t].f, s.frames[s.pcs[t].f].(pin := s.frames[s.pcs[t].f].pin - 1));
      case FinishUnpin => ScribbledFrame(s, f, d, s.pcs[t].f, s.frames[s.pcs[t].f]);
      case Delete => ScribbledFrame(s, f, d, s.pcs[t].f, s.frames[s.pcs[t].f].(page := 0, pin := 0));
      case _ =>
    }
  }

  lemma {:induction false} BumpedAlike(s: Pool, t: Session, p: PageId, excl: bool, f: FrameId, d: Data)
    requires f < |s.frames| && p in s.table && s.table[p] < |s.frames|
    ensures Bumped(Scribbled(s, f, d), t, p, excl) == Scribbled(Bumped(s, t, p, excl), f, d)
  {
    var g := s.table[p];
    ScribbledFrame(s, f, d, g, s.frames[g].(pin := s.frames[g].pin + 1));
  }

  lemma {:induction false} EvictedAlike(s: Pool, t: Session, f: FrameId, d: Data)
    requires f < |s.frames| && t in s.pcs && s.pcs[t].Loaded? && s.lru != [] && s.lru[|s.lru| - 1] < |s.frames| && s.lru[|s.lru| - 1] != f
    ensures Evicted(Scribbled(s, f, d), t) == Scribbled(Evicted(s, t), f, d)
  {
  }

  ghost predicate SparedTo(s: Pool, turns: seq<Turn>, n: nat, f: FrameId)
    requires n <= |turns|
  {
    n > 0 ==>
      && SparedTo(s, turns, n - 1, f) && RunTo(s, turns, n - 1).Some?
      && Spares(RunTo(s, turns, n - 1).value, turns[n - 1].session, turns[n - 1].act, f)
  }

  ghost predicate ApartTo(s: Pool, turns: seq<Turn>, n: nat, f: FrameId)
    requires n <= |turns|
  {
    n > 0 ==>
      && ApartTo(s, turns, n - 1, f) && RunTo(s, turns, n - 1).Some? && f < |RunTo(s, turns, n - 1).value.frames|
      && Apart(RunTo(s, turns, n - 1).value, turns[n - 1].session, turns[n - 1].act, f)
  }

  lemma {:induction false} ApartRun(s: Pool, turns: seq<Turn>, n: nat, f: FrameId)
    requires Holds(s, f) && n <= |turns| && RunTo(s, turns, n).Some? && ApartTo(s, turns, n, f)
    ensures StillThere(s, RunTo(s, turns, n).value, f)
  {
    if n > 0 {
      ApartRun(s, turns, n - 1, f);
      ApartStep(RunTo(s, turns, n - 1).value, f, turns[n - 1].session, turns[n - 1].act, RunTo(s, turns, n).value);
    }
  }

  lemma {:induction false} SparedRun(s: Pool, turns: seq<Turn>, n: nat, f: FrameId)
    requires Inv(s) && Holds(s, f) && n <= |turns| && SparedTo(s, turns, n, f)
    ensures ApartTo(s, turns, n, f)
  {
    if n > 0 {
      SparedRun(s, turns, n - 1, f);
      ApartRun(s, turns, n - 1, f);
      RunRefines(s, turns, n - 1, 0);
      SparedApart(RunTo(s, turns, n - 1).value, f, turns[n - 1].session, turns[n - 1].act);
    }
  }

  lemma {:induction false} ScribbledRun(s: Pool, turns: seq<Turn>, n: nat, f: FrameId, d: Data)
    requires Holds(s, f) && n <= |turns| && RunTo(s, turns, n).Some? && ApartTo(s, turns, n, f)
    ensures var m := RunTo(s, turns, n).value; f < |m.frames| && RunTo(Scribbled(s, f, d), turns, n) == Some(Scribbled(m, f, d))
  {
    if n > 0 {
      ScribbledRun(s, turns, n - 1, f, d);
      ApartRun(s, turns, n - 1, f);
      ScribbledStep(RunTo(s, turns, n - 1).value, f, d, turns[n - 1].session, turns[n - 1].act, RunTo(s, turns, n).value);
    }
  }

  /** Session u evicts the least recent frame, and page p then reads as d; or as something else. */
  ghost function EvictedReads(r: Option<Pool>, u: Session, p: PageId, d: Data): Option<bool> {
    if r.None? || Apply(r.value, u, TakeFrame).None? then None else Some(View(Apply(r.value, u, TakeFrame).value, p) == d)
  }

  /** Session u is about to take the frame of f from its page. */
  ghost predicate Takes(m: Pool, u: Session, f: FrameId) {
    u in m.pcs && m.pcs[u].Loaded? && m.free == [] && m.lru != [] && m.lru[|m.lru| - 1] == f
  }

  lemma {:induction false} ScribbledOut(s: Pool, m: Pool, r: Option<Pool>, u: Session, f: FrameId, d: Data)
    requires f < |s.frames| && StillThere(s, m, f) && Takes(m, u, f) && r == Some(Scribbled(m, f, d))
    ensures EvictedReads(r, u, s.frames[f].page, d) ==
      Some(s.frames[f].dirty || d == OnDisk(s, s.frames[f].page))
  {
  }

  /**
   A write that does not set the dirty flag, as SetNodeType of an internal page: over any run in which nobody writes to
   the frame, it survives the eviction of its page if and only if the frame was already dirty or the disk already has it.
   */
  lemma {:induction false} SilentWriteIff(s: Pool, turns: seq<Turn>, m: Pool, f: FrameId, d: Data, u: Session)
    requires Inv(s) && Holds(s, f) && RunTo(s, turns, |turns|) == Some(m) && SparedTo(s, turns, |turns|, f) && Takes(m, u, f)
    ensures EvictedReads(RunTo(Scribbled(s, f, d), turns, |turns|), u, s.frames[f].page, d)
      == Some(s.frames[f].dirty || d == OnDisk(s, s.frames[f].page))
  {
    SparedRun(s, turns, |turns|, f);
    SilentRun(s, turns, |turns|, m, f, d, u);
  }

  lemma {:induction false} SilentRun(s: Pool, turns: seq<Turn>, n: nat, m: Pool, f: FrameId, d: Data, u: Session)
    requires n <= |turns| && Holds(s, f) && RunTo(s, turns, n) == Some(m) && ApartTo(s, turns, n, f) && Takes(m, u, f)
    ensures EvictedReads(RunTo(Scribbled(s, f, d), turns, n), u, s.frames[f].page, d) ==
      Some(s.frames[f].dirty || d == OnDisk(s, s.frames[f].page))
  {
    ApartRun(s, turns, n, f);
    ScribbledRun(s, turns, n, f, d);
    ScribbledOut(s, m, RunTo(Scribbled(s, f, d), turns, n), u, f, d);
  }
}
