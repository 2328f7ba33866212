/**
 The buffer pool as threads interleave in it: the double-checked fetch, unpin and delete, step by step. A session is
 one guard from the fetch of its page to its end; a thread with several guards is several sessions.
 */
module PoolProtocol {
  import opened Bytes
  import opened Pages

  type FrameId = nat
  type Session = nat
  type Data = Bytes

  datatype Frame = Frame(page: PageId, pin: int, dirty: bool, data: Data)

  /** Where a session is. The comments name the locks it holds. */
  datatype Pc =
    | Look(p: PageId)                          // lookupMutex shared
    | Want(p: PageId)                          // none
    | Again(p: PageId)                         // lookupMutex exclusive
    | Bump(p: PageId, f: FrameId, excl: bool)  // lookupMutex, and the pin mutex of f
    | Loaded(p: PageId, d: Data)               // lookupMutex exclusive
    | InHand(p: PageId, d: Data, f: FrameId)   // lookupMutex exclusive
    | Guarded(p: PageId, f: FrameId)           // none
    | Unpinning(p: PageId, f: FrameId)         // lookupMutex shared
    | Dropped(p: PageId, f: FrameId)           // lookupMutex shared, and the pin mutex of f
    | Deleting(p: PageId, f: FrameId)          // lookupMutex exclusive

  /** lru lists frames from the most to the least recently unpinned. */
  datatype Pool = Pool(table: map<PageId, FrameId>, frames: seq<Frame>, free: seq<FrameId>, lru: seq<FrameId>,
                       disk: map<PageId, Data>, pcs: map<Session, Pc>)

  predicate Shares(pc: Pc) {
    pc.Look? || pc.Unpinning? || pc.Dropped? || (pc.Bump? && !pc.excl)
  }

  predicate Owns(pc: Pc) {
    pc.Again? || pc.Loaded? || pc.InHand? || pc.Deleting? || (pc.Bump? && pc.excl)
  }

  /** The session counts in the pin count of the frame. */
  predicate Pins(pc: Pc, f: FrameId) {
    (pc.Bump? || pc.Guarded? || pc.Unpinning? || pc.Deleting?) && pc.f == f
  }

  predicate InMutex(pc: Pc, f: FrameId) {
    (pc.Bump? || pc.Dropped?) && pc.f == f
  }

  function At(disk: map<PageId, Data>, p: PageId): Data {
    if p in disk then disk[p] else []
  }

  function OnDisk(s: Pool, p: PageId): Data {
    At(s.disk, p)
  }

  // -------------------------------------------------------------------- steps

  datatype Act =
    | StartFetch(p: PageId) | LookUp | GoExclusive | LookAgain | FinishBump | TakeFrame | Install
    | Write(d: Data) | StartUnpin | Unpin | FinishUnpin | StartDelete | Delete

  ghost predicate NoOwner(s: Pool, t: Session) {
    forall u | u in s.pcs && u != t :: !Owns(s.pcs[u])
  }

  ghost predicate Alone(s: Pool, t: Session) {
    forall u | u in s.pcs && u != t :: !Owns(s.pcs[u]) && !Shares(s.pcs[u])
  }

  ghost predicate MutexFree(s: Pool, t: Session, f: FrameId) {
    forall u | u in s.pcs && u != t :: !InMutex(s.pcs[u], f)
  }

  function Without(lru: seq<FrameId>, f: FrameId): seq<FrameId> {
    if lru == [] then [] else if lru[0] == f then lru[1..] else [lru[0]] + Without(lru[1..], f)
  }

  /** pinCount++ under the pin mutex, on the frame of the page. */
  function Bumped(s: Pool, t: Session, p: PageId, excl: bool): Pool
    requires p in s.table && s.table[p] < |s.frames|
  {
    var f := s.table[p];
    s.(frames := s.frames[f := s.frames[f].(pin := s.frames[f].pin + 1)], pcs := s.pcs[t := Bump(p, f, excl)])
  }

  /** One step of a session; None when it is not enabled. */
  ghost function Apply(s: Pool, t: Session, a: Act): Option<Pool> {
    match a
    case StartFetch(p) =>
      if t !in s.pcs && NoOwner(s, t) then Some(s.(pcs := s.pcs[t := Look(p)])) else None
    case LookUp =>
      if t in s.pcs && s.pcs[t].Look? then
        var p := s.pcs[t].p;
        if p in s.table then
          if s.table[p] < |s.frames| && MutexFree(s, t, s.table[p]) then Some(Bumped(s, t, p, false)) else None
        else Some(s.(pcs := s.pcs[t := Want(p)]))
      else None
    case GoExclusive =>
      if t in s.pcs && s.pcs[t].Want? && Alone(s, t) then Some(s.(pcs := s.pcs[t := Again(s.pcs[t].p)])) else None
    case LookAgain =>
      if t in s.pcs && s.pcs[t].Again? then
        var p := s.pcs[t].p;
        if p in s.table then
          if s.table[p] < |s.frames| && MutexFree(s, t, s.table[p]) then Some(Bumped(s, t, p, true)) else None
        else Some(s.(pcs := s.pcs[t := Loaded(p, OnDisk(s, p))]))
      else None
    case FinishBump =>
      if t in s.pcs && s.pcs[t].Bump? && s.pcs[t].f < |s.frames| then
        var f := s.pcs[t].f;
        Some(s.(lru := if s.frames[f].pin == 1 then Without(s.lru, f) else s.lru, pcs := s.pcs[t := Guarded(s.pcs[t].p, f)]))
      else None
    case TakeFrame =>
      if t in s.pcs && s.pcs[t].Loaded? then
        if s.free != [] then
          Some(s.(free := s.free[1..], pcs := s.pcs[t := InHand(s.pcs[t].p, s.pcs[t].d, s.free[0])]))
        else if s.lru != [] && s.lru[|s.lru| - 1] < |s.frames| then Some(Evicted(s, t))
        else None
      else None
    case Install =>
      if t in s.pcs && s.pcs[t].InHand? && s.pcs[t].f < |s.frames| then
        var p, f := s.pcs[t].p, s.pcs[t].f;
        Some(s.(frames := s.frames[f := Frame(p, 1, false, s.pcs[t].d)], table := s.table[p := f], pcs := s.pcs[t := Guarded(p, f)]))
      else None
    case Write(d) =>
      if t in s.pcs && s.pcs[t].Guarded? && s.pcs[t].f < |s.frames| then
        var f := s.pcs[t].f;
        Some(s.(frames := s.frames[f := s.frames[f].(data := d, dirty := true)]))
      else None
    case StartUnpin =>
      if t in s.pcs && s.pcs[t].Guarded? && NoOwner(s, t) then Some(s.(pcs := s.pcs[t := Unpinning(s.pcs[t].p, s.pcs[t].f)])) else None
    case Unpin =>
      if t in s.pcs && s.pcs[t].Unpinning? && s.pcs[t].f < |s.frames| && MutexFree(s, t, s.pcs[t].f) then
        var f := s.pcs[t].f;
        Some(s.(frames := s.frames[f := s.frames[f].(pin := s.frames[f].pin - 1)], pcs := s.pcs[t := Dropped(s.pcs[t].p, f)]))
      else None
    case FinishUnpin =>
      if t in s.pcs && s.pcs[t].Dropped? && s.pcs[t].f < |s.frames| then
        var f := s.pcs[t].f;
        Some(s.(lru := if s.frames[f].pin == 0 then [f] + s.lru else s.lru, pcs := s.pcs - {t}))
      else None
    case StartDelete =>
      if t in s.pcs && s.pcs[t].Guarded? && Alone(s, t) then Some(s.(pcs := s.pcs[t := Deleting(s.pcs[t].p, s.pcs[t].f)])) else None
    case Delete =>
      if t in s.pcs && s.pcs[t].Deleting? && s.pcs[t].f < |s.frames| then
        var p, f := s.pcs[t].p, s.pcs[t].f;
        if s.frames[f].pin != 1 then Some(s.(pcs := s.pcs[t := Guarded(p, f)]))
        else Some(s.(free := s.free + [f], table := s.table - {p},
                     frames := s.frames[f := s.frames[f].(page := 0, pin := 0)], pcs := s.pcs - {t}))
      else None
  }

  /** The victim leaves the replacer and the table, written back if it is dirty. */
  function Evicted(s: Pool, t: Session): Pool
    requires t in s.pcs && s.pcs[t].Loaded? && s.lru != [] && s.lru[|s.lru| - 1] < |s.frames|
  {
    var f := s.lru[|s.lru| - 1];
    var frame := s.frames[f];
    s.(lru := s.lru[..|s.lru| - 1], table := s.table - {frame.page},
       disk := if frame.dirty then s.disk[frame.page := frame.data] else s.disk,
       pcs := s.pcs[t := InHand(s.pcs[t].p, s.pcs[t].d, f)])
  }

  // ---------------------------------------------------------------- invariant

  /** The frame holds a page of the table. */
  predicate Holds(s: Pool, f: FrameId) {
    f < |s.frames| && s.frames[f].page in s.table && s.table[s.frames[f].page] == f
  }

  ghost function Holders(s: Pool, f: FrameId): set<Session> {
    set t | t in s.pcs && Pins(s.pcs[t], f)
  }

  ghost predicate LocksOk(s: Pool) {
    forall t, u | t in s.pcs && u in s.pcs && t != u && Owns(s.pcs[t]) :: !Owns(s.pcs[u]) && !Shares(s.pcs[u])
  }

  ghost predicate MutexOk(s: Pool) {
    forall t, u | t in s.pcs && u in s.pcs && t != u && (s.pcs[t].Bump? || s.pcs[t].Dropped?) :: !InMutex(s.pcs[u], s.pcs[t].f)
  }

  /** Each page of the table is in its frame; so no page is in two frames. */
  ghost predicate TableOk(s: Pool) {
    forall p | p in s.table :: s.table[p] < |s.frames| && s.frames[s.table[p]].page == p
  }

  /** Every frame is free, holds a page of the table, or is in the hand of the one owner. */
  ghost predicate HomesOk(s: Pool) {
    && (forall i, j | 0 <= i < j < |s.free| :: s.free[i] != s.free[j])
    && (forall f | f in s.free :: f < |s.frames| && !Holds(s, f))
    && (forall t | t in s.pcs && s.pcs[t].InHand? :: s.pcs[t].f < |s.frames| && s.pcs[t].f !in s.free && !Holds(s, s.pcs[t].f))
    && (forall f: FrameId | f < |s.frames| :: f in s.free || Holds(s, f) || InSomeHand(s, f))
  }

  ghost predicate InSomeHand(s: Pool, f: FrameId) {
    exists t :: t in s.pcs && s.pcs[t].InHand? && s.pcs[t].f == f
  }

  ghost predicate Bumping(s: Pool, f: FrameId) {
    exists t :: t in s.pcs && s.pcs[t].Bump? && s.pcs[t].f == f
  }

  ghost predicate Dropping(s: Pool, f: FrameId) {
    exists t :: t in s.pcs && s.pcs[t].Dropped? && s.pcs[t].f == f
  }

  /** Outside the pin mutexes the replacer holds exactly the frames of the table that nobody pins. */
  ghost predicate Evictable(s: Pool, f: FrameId) {
    Holds(s, f) && if Bumping(s, f) then s.frames[f].pin == 1 else s.frames[f].pin == 0 && !Dropping(s, f)
  }

  ghost predicate ReplacerOk(s: Pool) {
    && (forall i, j | 0 <= i < j < |s.lru| :: s.lru[i] != s.lru[j])
    && (forall f: FrameId :: f in s.lru <==> Evictable(s, f))
  }

  ghost predicate PinsOk(s: Pool) {
    forall f: FrameId | Holds(s, f) :: s.frames[f].pin == |Holders(s, f)|
  }

  /** A session past its fetch has its page in its frame; one about to install finds the page nowhere else. */
  ghost predicate SessionOk(s: Pool, pc: Pc) {
    match pc
    case Look(_) => true
    case Want(_) => true
    case Again(_) => true
    case Loaded(p, d) => p !in s.table && d == OnDisk(s, p)
    case InHand(p, d, _) => p !in s.table && d == OnDisk(s, p)
    case Bump(p, f, _) => p in s.table && s.table[p] == f
    case Guarded(p, f) => p in s.table && s.table[p] == f
    case Unpinning(p, f) => p in s.table && s.table[p] == f
    case Dropped(p, f) => p in s.table && s.table[p] == f
    case Deleting(p, f) => p in s.table && s.table[p] == f
  }

  ghost predicate SessionsOk(s: Pool) {
    forall t | t in s.pcs :: SessionOk(s, s.pcs[t])
  }

  /** A clean frame agrees with the disk. */
  ghost predicate CleanOk(s: Pool) {
    forall f: FrameId | Holds(s, f) && !s.frames[f].dirty :: s.frames[f].data == OnDisk(s, s.frames[f].page)
  }

  ghost predicate Inv(s: Pool) {
    && LocksOk(s) && MutexOk(s) && TableOk(s) && HomesOk(s) && ReplacerOk(s) && PinsOk(s) && SessionsOk(s) && CleanOk(s)
  }
}
