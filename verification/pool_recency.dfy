/** Which page the pool gives up: the order of the replacer over all runs, and the frame an eviction takes. */
module PoolRecency {
  import opened Bytes
  import opened Pages
  import opened PoolProtocol
  import opened PoolSteps
  import opened PoolRuns

  // ------------------------------------------------------------------ recency

  /** When the frame was last unpinned, as a position in the history of unpins; 0 for never. */
  function LastUnpin(unpins: seq<FrameId>, f: FrameId): (k: nat)
    ensures k <= |unpins|
  {
    if unpins == [] then 0 else if unpins[|unpins| - 1] == f then |unpins| else LastUnpin(unpins[..|unpins| - 1], f)
  }

  /** Later unpins stand before earlier ones. */
  ghost predicate ByRecency(order: seq<FrameId>, unpins: seq<FrameId>) {
    forall i, j | 0 <= i < j < |order| :: LastUnpin(unpins, order[i]) > LastUnpin(unpins, order[j])
  }

  lemma {:induction false} LastUnpinStep(unpins: seq<FrameId>, f: FrameId, g: FrameId)
    ensures LastUnpin(unpins + [f], g) == if g == f then |unpins| + 1 else LastUnpin(unpins, g)
  {
    assert (unpins + [f])[..|unpins|] == unpins;
  }

  /** The unpin of a frame that is not listed, whether it is then listed in front or not. */
  lemma {:induction false} RecencyUnpin(order: seq<FrameId>, unpins: seq<FrameId>, f: FrameId)
    requires ByRecency(order, unpins) && f !in order
    ensures ByRecency(order, unpins + [f]) && ByRecency([f] + order, unpins + [f])
  {
    forall g { LastUnpinStep(unpins, f, g); }
    var now := [f] + order;
    forall i, j | 0 <= i < j < |now| ensures LastUnpin(unpins + [f], now[i]) > LastUnpin(unpins + [f], now[j]) {
      assert now[j] == order[j - 1] && order[j - 1] in order && (i > 0 ==> now[i] == order[i - 1] && order[i - 1] in order);
    }
    forall i, j | 0 <= i < j < |order| ensures LastUnpin(unpins + [f], order[i]) > LastUnpin(unpins + [f], order[j]) {
      assert order[i] in order && order[j] in order;
    }
  }

  lemma {:induction false} RecencyTail(s: seq<FrameId>, unpins: seq<FrameId>)
    requires s != [] && ByRecency(s, unpins)
    ensures ByRecency(s[1..], unpins) && forall g | g in s[1..] :: LastUnpin(unpins, s[0]) > LastUnpin(unpins, g)
  {
    var rest := s[1..];
    forall i, j | 0 <= i < j < |rest| ensures LastUnpin(unpins, rest[i]) > LastUnpin(unpins, rest[j]) {
      assert s[i + 1] == rest[i] && s[j + 1] == rest[j];
    }
    forall g | g in rest ensures LastUnpin(unpins, s[0]) > LastUnpin(unpins, g) {
      var i :| 0 <= i < |rest| && rest[i] == g;
      assert s[i + 1] == g;
    }
  }

  lemma {:induction false} RecencyCons(f: FrameId, rest: seq<FrameId>, unpins: seq<FrameId>)
    requires ByRecency(rest, unpins) && forall g | g in rest :: LastUnpin(unpins, f) > LastUnpin(unpins, g)
    ensures ByRecency([f] + rest, unpins)
  {
    var s := [f] + rest;
    forall i, j | 0 <= i < j < |s| ensures LastUnpin(unpins, s[i]) > LastUnpin(unpins, s[j]) {
      assert s[j] == rest[j - 1] && rest[j - 1] in rest;
      if i > 0 {
        assert s[i] == rest[i - 1];
      }
    }
  }

  lemma {:induction false} RecencyWithout(order: seq<FrameId>, unpins: seq<FrameId>, f: FrameId)
    requires ByRecency(order, unpins) && forall i, j | 0 <= i < j < |order| :: order[i] != order[j]
    ensures ByRecency(Without(order, f), unpins)
  {
    if order != [] {
      var rest := order[1..];
      RecencyTail(order, unpins);
      if order[0] != f {
        RecencyWithout(rest, unpins, f);
        WithoutExact(rest, f);
        RecencyCons(order[0], Without(rest, f), unpins);
      }
    }
  }

  // --------------------------------------------------------------------- runs

  /** The history after one more step. */
  ghost function UnpinsStep(s: Pool, t: Session, a: Act, unpins: seq<FrameId>): seq<FrameId> {
    if a.FinishUnpin? && t in s.pcs && s.pcs[t].Dropped? then unpins + [s.pcs[t].f] else unpins
  }

  /** The frames of the FinishUnpin turns, in their order. */
  ghost function Unpins(s: Pool, turns: seq<Turn>, n: nat): seq<FrameId>
    requires n <= |turns| && RunTo(s, turns, n).Some?
  {
    if n == 0 then []
    else UnpinsStep(RunTo(s, turns, n - 1).value, turns[n - 1].session, turns[n - 1].act, Unpins(s, turns, n - 1))
  }

  lemma {:induction false} DroppedUnlisted(s: Pool, t: Session)
    requires Inv(s) && t in s.pcs && s.pcs[t].Dropped?
    ensures s.pcs[t].f !in s.lru
  {
    var f := s.pcs[t].f;
    assert Dropping(s, f) && !Bumping(s, f);
    assert f in s.lru <==> Evictable(s, f);
  }

  lemma {:induction false} RecencyStep(s: Pool, t: Session, a: Act, s': Pool, unpins: seq<FrameId>)
    requires Inv(s) && Apply(s, t, a) == Some(s') && ByRecency(s.lru, unpins)
    ensures ByRecency(s'.lru, UnpinsStep(s, t, a, unpins))
  {
    match a
    case FinishUnpin =>
      DroppedUnlisted(s, t);
      RecencyUnpin(s.lru, unpins, s.pcs[t].f);
    case FinishBump =>
      RecencyWithout(s.lru, unpins, s.pcs[t].f);
    case _ =>
  }

  /** Over every run from an empty pool the replacer lists the frames in the order of their last unpin, latest first. */
  lemma {:induction false} ReplacerByRecency(n: nat, disk: map<PageId, Data>, turns: seq<Turn>, m: nat)
    requires m <= |turns| && RunTo(Start(n, disk), turns, m).Some?
    ensures Inv(RunTo(Start(n, disk), turns, m).value)
    ensures ByRecency(RunTo(Start(n, disk), turns, m).value.lru, Unpins(Start(n, disk), turns, m))
  {
    var s0 := Start(n, disk);
    if m == 0 {
      StartInv(n, disk);
    } else {
      ReplacerByRecency(n, disk, turns, m - 1);
      var s, turn := RunTo(s0, turns, m - 1).value, turns[m - 1];
      StepKeeps(s, turn.session, turn.act, RunTo(s0, turns, m).value);
      RecencyStep(s, turn.session, turn.act, RunTo(s0, turns, m).value, Unpins(s0, turns, m - 1));
    }
  }

  // ---------------------------------------------------------- written pages

  /** The pages written to since they were last read from disk. */
  ghost function MarksStep(s: Pool, t: Session, a: Act, marks: set<PageId>): set<PageId> {
    if a.Write? && t in s.pcs && s.pcs[t].Guarded? then marks + {s.pcs[t].p}
    else if a.Install? && t in s.pcs && s.pcs[t].InHand? then marks - {s.pcs[t].p}
    else marks
  }

  ghost function Marks(s: Pool, turns: seq<Turn>, n: nat): set<PageId>
    requires n <= |turns| && RunTo(s, turns, n).Some?
  {
    if n == 0 then {}
    else MarksStep(RunTo(s, turns, n - 1).value, turns[n - 1].session, turns[n - 1].act, Marks(s, turns, n - 1))
  }

  ghost predicate DirtyAre(s: Pool, marks: set<PageId>) {
    forall f: FrameId | Holds(s, f) :: s.frames[f].dirty <==> s.frames[f].page in marks
  }

  lemma {:induction false} DirtyStep(s: Pool, t: Session, a: Act, s': Pool, marks: set<PageId>)
    requires Inv(s) && Apply(s, t, a) == Some(s') && DirtyAre(s, marks)
    ensures DirtyAre(s', MarksStep(s, t, a, marks))
  {
    assert t in s.pcs ==> SessionOk(s, s.pcs[t]);
    forall f: FrameId | Holds(s', f) ensures s'.frames[f].dirty <==> s'.frames[f].page in MarksStep(s, t, a, marks) {
      assert Holds(s, f) || (a.Install? && f == s.pcs[t].f);
    }
  }

  lemma {:induction false} RunInv(s: Pool, turns: seq<Turn>, n: nat)
    requires Inv(s) && n <= |turns| && RunTo(s, turns, n).Some?
    ensures Inv(RunTo(s, turns, n).value)
  {
    if n > 0 {
      RunInv(s, turns, n - 1);
      StepKeeps(RunTo(s, turns, n - 1).value, turns[n - 1].session, turns[n - 1].act, RunTo(s, turns, n).value);
    }
  }

  lemma {:induction false} DirtyTurn(s: Pool, turns: seq<Turn>, n: nat, m: Pool, m': Pool)
    requires 0 < n <= |turns| && RunTo(s, turns, n) == Some(m') && RunTo(s, turns, n - 1) == Some(m) && Inv(m)
    requires DirtyAre(m, Marks(s, turns, n - 1))
    ensures DirtyAre(m', Marks(s, turns, n))
  {
    DirtyStep(m, turns[n - 1].session, turns[n - 1].act, m', Marks(s, turns, n - 1));
  }

  /** Over every run from an empty pool a cached page is dirty if and only if it was written to since it was read from disk. */
  lemma {:induction false} DirtyIff(n: nat, disk: map<PageId, Data>, turns: seq<Turn>, m: nat)
    requires m <= |turns| && RunTo(Start(n, disk), turns, m).Some?
    ensures DirtyAre(RunTo(Start(n, disk), turns, m).value, Marks(Start(n, disk), turns, m))
  {
    var s0 := Start(n, disk);
    if m == 0 {
      assert s0.table == map[];
    } else {
      DirtyIff(n, disk, turns, m - 1);
      StartInv(n, disk);
      RunInv(s0, turns, m - 1);
      DirtyTurn(s0, turns, m, RunTo(s0, turns, m - 1).value, RunTo(s0, turns, m).value);
    }
  }

  // --------------------------------------------------------------- evictions

  /** Every other cached page that nobody pins was unpinned later than the page of frame v. */
  ghost predicate LeastRecent(s: Pool, unpins: seq<FrameId>, v: FrameId) {
    && Holds(s, v) && s.frames[v].pin == 0
    && forall g: FrameId | g != v && Holds(s, g) && s.frames[g].pin == 0 :: LastUnpin(unpins, g) > LastUnpin(unpins, v)
  }

  lemma {:induction false} BackIsLeastRecent(s: Pool, unpins: seq<FrameId>)
    requires Inv(s) && Settled(s) && ByRecency(s.lru, unpins) && s.lru != []
    ensures LeastRecent(s, unpins, s.lru[|s.lru| - 1])
  {
    var v := s.lru[|s.lru| - 1];
    assert v in s.lru && Evictable(s, v);
    forall g: FrameId | g != v && Holds(s, g) && s.frames[g].pin == 0 ensures LastUnpin(unpins, g) > LastUnpin(unpins, v) {
      assert !Bumping(s, g) && !Dropping(s, g);
      assert Evictable(s, g) && g in s.lru;
    }
    assert !Bumping(s, v) && !Dropping(s, v);
  }

  lemma {:induction false} OwnerSettles(s: Pool, t: Session)
    requires Inv(s) && t in s.pcs && s.pcs[t].Loaded?
    ensures Settled(s)
  {
    OwnerAlone(s, t);
  }

  /**
   The frame a miss takes, at any moment of any run: a free frame if there is one, and then every page stays cached;
   otherwise the frame whose page was unpinned least recently, and that page alone leaves the pool, written to disk if
   and only if it was written to since it was read.
   */
  lemma {:induction false} EvictsLeastRecent(n: nat, disk: map<PageId, Data>, turns: seq<Turn>, m: nat)
    requires m < |turns| && RunTo(Start(n, disk), turns, m + 1).Some? && turns[m].act.TakeFrame?
    ensures var s, s' := RunTo(Start(n, disk), turns, m).value, RunTo(Start(n, disk), turns, m + 1).value;
      var t := turns[m].session;
      && t in s'.pcs && s'.pcs[t].InHand?
      && var f := s'.pcs[t].f;
         if s.free != [] then f in s.free && s'.table == s.table && s'.disk == s.disk
         else
           && f < |s.frames| && LeastRecent(s, Unpins(Start(n, disk), turns, m), f) && s'.table == s.table - {s.frames[f].page}
           && var p := s.frames[f].page;
              s'.disk == if p in Marks(Start(n, disk), turns, m) then s.disk[p := s.frames[f].data] else s.disk
  {
    ReplacerByRecency(n, disk, turns, m);
    DirtyIff(n, disk, turns, m);
    var s := RunTo(Start(n, disk), turns, m).value;
    OwnerSettles(s, turns[m].session);
    if s.free == [] {
      BackIsLeastRecent(s, Unpins(Start(n, disk), turns, m));
    }
  }

  /** A page leaves the pool only by such an eviction or by its own delete. */
  lemma {:induction false} StaysCached(s: Pool, t: Session, a: Act, s': Pool, p: PageId)
    requires Inv(s) && Apply(s, t, a) == Some(s') && p in s.table
    ensures p in s'.table ==> s'.table[p] == s.table[p]
    ensures p !in s'.table <==>
      || (a.TakeFrame? && s.free == [] && s.lru != [] && s.table[p] == s.lru[|s.lru| - 1])
      || (a.Delete? && s.pcs[t].p == p && s.table[p] < |s.frames| && s.frames[s.table[p]].pin == 1)
  {
    assert s.frames[s.table[p]].page == p;
    assert t in s.pcs ==> SessionOk(s, s.pcs[t]);
    if a.TakeFrame? && s.free == [] {
      VictimFree(s, t);
    }
  }

  // -------------------------------------------------------------- free frames

  /** Frames are freed at the back of the free list and taken from its front. */
  ghost function FreedBy(s: Pool, t: Session, a: Act): seq<FrameId> {
    if a.Delete? && t in s.pcs && s.pcs[t].Deleting? && s.pcs[t].f < |s.frames| && s.frames[s.pcs[t].f].pin == 1 then [s.pcs[t].f] else []
  }

  ghost function TakenBy(s: Pool, s': Pool, t: Session, a: Act): seq<FrameId> {
    if a.TakeFrame? && s.free != [] && t in s'.pcs && s'.pcs[t].InHand? then [s'.pcs[t].f] else []
  }

  ghost function Freed(s: Pool, turns: seq<Turn>, n: nat): seq<FrameId>
    requires n <= |turns| && RunTo(s, turns, n).Some?
  {
    if n == 0 then [] else Freed(s, turns, n - 1) + FreedBy(RunTo(s, turns, n - 1).value, turns[n - 1].session, turns[n - 1].act)
  }

  ghost function TakenFree(s: Pool, turns: seq<Turn>, n: nat): seq<FrameId>
    requires n <= |turns| && RunTo(s, turns, n).Some?
  {
    if n == 0 then []
    else TakenFree(s, turns, n - 1) + TakenBy(RunTo(s, turns, n - 1).value, RunTo(s, turns, n).value, turns[n - 1].session, turns[n - 1].act)
  }

  /** Over every run free frames are used in the order in which they became free. */
  lemma {:induction false} FreeInOrder(s: Pool, turns: seq<Turn>, n: nat)
    requires n <= |turns| && RunTo(s, turns, n).Some?
    ensures TakenFree(s, turns, n) + RunTo(s, turns, n).value.free == s.free + Freed(s, turns, n)
  {
    if n > 0 {
      FreeInOrder(s, turns, n - 1);
      var m, m', turn := RunTo(s, turns, n - 1).value, RunTo(s, turns, n).value, turns[n - 1];
      QueueRun(s, turns, n, m, m', TakenBy(m, m', turn.session, turn.act), FreedBy(m, turn.session, turn.act));
    }
  }

  lemma {:induction false} QueueRun(s: Pool, turns: seq<Turn>, n: nat, m: Pool, m': Pool, x: seq<FrameId>, y: seq<FrameId>)
    requires 0 < n <= |turns| && RunTo(s, turns, n) == Some(m') && RunTo(s, turns, n - 1) == Some(m)
    requires x == TakenBy(m, m', turns[n - 1].session, turns[n - 1].act) && y == FreedBy(m, turns[n - 1].session, turns[n - 1].act)
    requires TakenFree(s, turns, n - 1) + m.free == s.free + Freed(s, turns, n - 1)
    ensures TakenFree(s, turns, n) + m'.free == s.free + Freed(s, turns, n)
  {
    QueueStep(m, turns[n - 1].session, turns[n - 1].act, m');
    QueueJoin(TakenFree(s, turns, n - 1), m.free, s.free, Freed(s, turns, n - 1), x, m'.free, y);
  }

  lemma {:induction false} QueueStep(s: Pool, t: Session, a: Act, s': Pool)
    requires Apply(s, t, a) == Some(s')
    ensures TakenBy(s, s', t, a) + s'.free == s.free + FreedBy(s, t, a)
  {
  }

  lemma {:induction false} QueueJoin(taken: seq<FrameId>, free: seq<FrameId>, first: seq<FrameId>, freed: seq<FrameId>,
                                     x: seq<FrameId>, free': seq<FrameId>, y: seq<FrameId>)
    requires taken + free == first + freed && x + free' == free + y
    ensures taken + x + free' == first + (freed + y)
  {
    assert taken + x + free' == taken + (x + free');
    assert taken + (free + y) == (taken + free) + y;
    assert first + freed + y == first + (freed + y);
  }
}
