/** Every step of every session keeps the invariant of the buffer pool. */
module PoolSteps {
  import opened Bytes
  import opened Pages
  import opened PoolProtocol

  lemma {:induction false} OwnerAlone(s: Pool, t: Session)
    requires LocksOk(s) && t in s.pcs && Owns(s.pcs[t])
    ensures Alone(s, t)
  {
  }

  lemma {:induction false} SharerFree(s: Pool, t: Session)
    requires LocksOk(s) && t in s.pcs && Shares(s.pcs[t])
    ensures NoOwner(s, t)
  {
  }

  /** A session moved and the others stayed: locks and mutexes stay exclusive. */
  lemma {:induction false} MovedLocks(s: Pool, s': Pool, t: Session, pc: Pc)
    requires LocksOk(s) && MutexOk(s) && s'.pcs == s.pcs[t := pc]
    requires (Owns(pc) ==> Alone(s, t)) && (Shares(pc) ==> NoOwner(s, t)) && (pc.Bump? || pc.Dropped? ==> MutexFree(s, t, pc.f))
    ensures LocksOk(s') && MutexOk(s')
  {
  }

  lemma {:induction false} GoneLocks(s: Pool, s': Pool, t: Session)
    requires LocksOk(s) && MutexOk(s) && s'.pcs == s.pcs - {t}
    ensures LocksOk(s') && MutexOk(s')
  {
  }

  lemma {:induction false} SameHolders(s: Pool, s': Pool, f: FrameId)
    requires forall u :: (u in s.pcs && Pins(s.pcs[u], f)) <==> (u in s'.pcs && Pins(s'.pcs[u], f))
    ensures Holders(s', f) == Holders(s, f)
  {
  }

  lemma {:induction false} ReplacerKept(s: Pool, s': Pool)
    requires ReplacerOk(s) && s'.lru == s.lru && forall f: FrameId :: Evictable(s', f) == Evictable(s, f)
    ensures ReplacerOk(s')
  {
  }

  /** Apart from one frame, pins and the place of every frame stay. */
  ghost predicate Elsewhere(s: Pool, s': Pool, f: FrameId) {
    && |s'.frames| == |s.frames| && (forall g: FrameId | g < |s.frames| && g != f :: s'.frames[g] == s.frames[g])
    && s'.table == s.table && s'.free == s.free && s'.disk == s.disk
  }

  lemma {:induction false} PinsKept(s: Pool, s': Pool, f: FrameId)
    requires PinsOk(s) && Elsewhere(s, s', f) && (f < |s.frames| ==> s'.frames[f].page == s.frames[f].page)
    requires forall g: FrameId | g != f :: Holders(s', g) == Holders(s, g)
    requires Holds(s, f) ==> s'.frames[f].pin == |Holders(s', f)|
    ensures PinsOk(s')
  {
    forall g: FrameId | Holds(s', g) ensures s'.frames[g].pin == |Holders(s', g)| {
      assert Holds(s, g);
    }
  }

  /** A step that only moves a session between places with the same pins, outside mutexes. */
  lemma {:induction false} PcStep(s: Pool, t: Session, pc: Pc)
    requires Inv(s) && (Owns(pc) ==> Alone(s, t)) && (Shares(pc) ==> NoOwner(s, t)) && SessionOk(s, pc)
    requires !pc.Bump? && !pc.Dropped? && !pc.InHand?
    requires t in s.pcs ==> !s.pcs[t].Bump? && !s.pcs[t].Dropped? && !s.pcs[t].InHand?
    requires forall f :: Pins(pc, f) <==> (t in s.pcs && Pins(s.pcs[t], f))
    ensures Inv(s.(pcs := s.pcs[t := pc]))
  {
    var s' := s.(pcs := s.pcs[t := pc]);
    MovedLocks(s, s', t, pc);
    forall f: FrameId ensures Evictable(s', f) == Evictable(s, f) {
      SameMutexes(s, s', t, f);
    }
    ReplacerKept(s, s');
    PinsStay(s, s', t);
  }

  lemma {:induction false} SameMutexes(s: Pool, s': Pool, t: Session, f: FrameId)
    requires forall u | u != t :: (u in s.pcs <==> u in s'.pcs) && (u in s.pcs ==> s'.pcs[u] == s.pcs[u])
    requires t in s.pcs ==> !InMutex(s.pcs[t], f)
    requires t in s'.pcs ==> !InMutex(s'.pcs[t], f)
    ensures Bumping(s', f) == Bumping(s, f) && Dropping(s', f) == Dropping(s, f)
  {
  }

  lemma {:induction false} SameHands(s: Pool, s': Pool, t: Session)
    requires HomesOk(s) && s'.free == s.free && s'.frames == s.frames && s'.table == s.table
    requires forall u | u != t :: (u in s.pcs <==> u in s'.pcs) && (u in s.pcs ==> s'.pcs[u] == s.pcs[u])
    requires (t in s.pcs ==> !s.pcs[t].InHand?) && (t in s'.pcs ==> !s'.pcs[t].InHand?)
    ensures HomesOk(s')
  {
    forall f: FrameId | f < |s'.frames| ensures f in s'.free || Holds(s', f) || InSomeHand(s', f) {
      if InSomeHand(s, f) {
        var u :| u in s.pcs && s.pcs[u].InHand? && s.pcs[u].f == f;
        assert s'.pcs[u] == s.pcs[u];
      }
    }
  }

  // ------------------------------------------------------------------ pinning

  lemma {:induction false} MoreHolders(s: Pool, s': Pool, t: Session, f: FrameId)
    requires t in s'.pcs && s'.pcs == s.pcs[t := s'.pcs[t]] && Pins(s'.pcs[t], f) && (t in s.pcs ==> !Pins(s.pcs[t], f))
    ensures |Holders(s', f)| == |Holders(s, f)| + 1
  {
    assert Holders(s', f) == Holders(s, f) + {t} && t !in Holders(s, f);
  }

  lemma {:induction false} FewerHolders(s: Pool, s': Pool, t: Session, f: FrameId)
    requires t in s.pcs && Pins(s.pcs[t], f)
    requires (forall u | u != t :: (u in s.pcs <==> u in s'.pcs) && (u in s.pcs ==> s'.pcs[u] == s.pcs[u]))
    requires t in s'.pcs ==> !Pins(s'.pcs[t], f)
    ensures |Holders(s', f)| == |Holders(s, f)| - 1
  {
    assert Holders(s, f) == Holders(s', f) + {t} && t !in Holders(s', f);
  }

  /** Places and tables do not change when only pins, flags or data of a frame do. */
  lemma {:induction false} SamePlaces(s: Pool, s': Pool, t: Session, f: FrameId)
    requires TableOk(s) && HomesOk(s) && Elsewhere(s, s', f) && f < |s.frames| && s'.frames[f].page == s.frames[f].page
    requires forall u | u != t :: (u in s.pcs <==> u in s'.pcs) && (u in s.pcs ==> s'.pcs[u] == s.pcs[u])
    requires (t in s.pcs ==> !s.pcs[t].InHand?) && (t in s'.pcs ==> !s'.pcs[t].InHand?)
    ensures TableOk(s') && HomesOk(s') && forall g: FrameId :: Holds(s', g) == Holds(s, g)
  {
    forall g: FrameId ensures Holds(s', g) == Holds(s, g) {
    }
    forall g: FrameId | g < |s'.frames| ensures g in s'.free || Holds(s', g) || InSomeHand(s', g) {
      if InSomeHand(s, g) {
        var u :| u in s.pcs && s.pcs[u].InHand? && s.pcs[u].f == g;
        assert s'.pcs[u] == s.pcs[u];
      }
    }
  }

  lemma {:induction false} SessionsKept(s: Pool, s': Pool, t: Session)
    requires SessionsOk(s) && s'.table == s.table && s'.disk == s.disk
    requires forall u | u in s'.pcs && u != t :: u in s.pcs && s'.pcs[u] == s.pcs[u]
    requires t in s'.pcs ==> SessionOk(s, s'.pcs[t])
    ensures SessionsOk(s')
  {
    forall u | u in s'.pcs ensures SessionOk(s', s'.pcs[u]) {
      assert SessionOk(s, s'.pcs[u]);
    }
  }

  lemma {:induction false} CleanKept(s: Pool, s': Pool, f: FrameId)
    requires CleanOk(s) && Elsewhere(s, s', f) && (forall g: FrameId :: Holds(s', g) == Holds(s, g))
    requires f < |s.frames|
    requires
      || s'.frames[f].dirty
      || (s'.frames[f].dirty == s.frames[f].dirty && s'.frames[f].data == s.frames[f].data && s'.frames[f].page == s.frames[f].page)
    ensures CleanOk(s')
  {
    forall g: FrameId | Holds(s', g) && !s'.frames[g].dirty ensures s'.frames[g].data == OnDisk(s', s'.frames[g].page) {
      assert Holds(s, g);
    }
  }

  /** Between the increment and the replacer update the frame is still listed exactly when it was unpinned. */
  lemma {:induction false} BumpReplacer(s: Pool, t: Session, p: PageId, excl: bool)
    requires Inv(s) && t in s.pcs && (s.pcs[t].Look? || s.pcs[t].Again?) && p in s.table && MutexFree(s, t, s.table[p])
    ensures ReplacerOk(Bumped(s, t, p, excl))
  {
    var s', f := Bumped(s, t, p, excl), s.table[p];
    assert !Bumping(s, f) && !Dropping(s, f);
    assert s'.pcs[t] == Bump(p, f, excl);
    forall g: FrameId ensures Evictable(s', g) == Evictable(s, g) {
      if g != f {
        SameMutexes(s, s', t, g);
      } else {
        assert Bumping(s', f);
      }
    }
    ReplacerKept(s, s');
  }

  lemma {:induction false} BumpStep(s: Pool, t: Session, p: PageId, excl: bool)
    requires Inv(s) && t in s.pcs && s.pcs[t] == (if excl then Again(p) else Look(p)) && p in s.table && MutexFree(s, t, s.table[p])
    ensures Inv(Bumped(s, t, p, excl))
  {
    var s', f := Bumped(s, t, p, excl), s.table[p];
    if excl {
      OwnerAlone(s, t);
    } else {
      SharerFree(s, t);
    }
    MovedLocks(s, s', t, Bump(p, f, excl));
    SamePlaces(s, s', t, f);
    BumpReplacer(s, t, p, excl);
    MoreHolders(s, s', t, f);
    forall g: FrameId | g != f ensures Holders(s', g) == Holders(s, g) {
      SameHolders(s, s', g);
    }
    PinsKept(s, s', f);
    SessionsKept(s, s', t);
    CleanKept(s, s', f);
  }

  lemma {:induction false} WithoutExact(lru: seq<FrameId>, f: FrameId)
    requires forall i, j | 0 <= i < j < |lru| :: lru[i] != lru[j]
    ensures var w := Without(lru, f);
      (forall x :: x in w <==> x in lru && x != f) && (forall i, j | 0 <= i < j < |w| :: w[i] != w[j])
  {
    if lru != [] {
      var rest := lru[1..];
      assert forall i | 0 <= i < |rest| :: rest[i] == lru[i + 1];
      assert forall x :: x in lru <==> x == lru[0] || x in rest;
      if lru[0] != f {
        WithoutExact(rest, f);
        var w', w := Without(rest, f), [lru[0]] + Without(rest, f);
        forall i, j | 0 <= i < j < |w| ensures w[i] != w[j] {
          assert w[j] == w'[j - 1] && w'[j - 1] in w' && (i > 0 ==> w[i] == w'[i - 1]);
        }
      }
    }
  }

  /** A session that pins a frame is counted there. */
  lemma {:induction false} Counted(s: Pool, t: Session, f: FrameId)
    requires PinsOk(s) && Holds(s, f) && t in s.pcs && Pins(s.pcs[t], f)
    ensures s.frames[f].pin >= 1 && (s.frames[f].pin == 1 ==> forall u | u in s.pcs && u != t :: !Pins(s.pcs[u], f))
  {
    assert t in Holders(s, f);
    if s.frames[f].pin == 1 {
      forall u | u in s.pcs && u != t ensures !Pins(s.pcs[u], f) {
        if Pins(s.pcs[u], f) {
          TwoInSet(Holders(s, f), t, u);
        }
      }
    }
  }

  lemma {:induction false} TwoInSet(a: set<Session>, t: Session, u: Session)
    requires t in a && u in a && t != u
    ensures |a| >= 2
  {
    assert a == (a - {t, u}) + {t} + {u};
  }

  lemma {:induction false} Uncounted(s: Pool, f: FrameId)
    requires PinsOk(s) && Holds(s, f) && s.frames[f].pin == 0
    ensures forall u | u in s.pcs :: !Pins(s.pcs[u], f)
  {
    forall u | u in s.pcs ensures !Pins(s.pcs[u], f) {
      assert u !in Holders(s, f);
    }
  }

  lemma {:induction false} SessionHolds(s: Pool, t: Session)
    requires TableOk(s) && SessionsOk(s) && t in s.pcs
    requires var pc := s.pcs[t]; pc.Bump? || pc.Guarded? || pc.Unpinning? || pc.Dropped? || pc.Deleting?
    ensures Holds(s, s.pcs[t].f) && s.frames[s.pcs[t].f].page == s.pcs[t].p
  {
    assert SessionOk(s, s.pcs[t]);
  }

  /** A step that changes neither frames nor table nor anyone's pins keeps all but locks and replacer. */
  lemma {:induction false} PinsStay(s: Pool, s': Pool, t: Session)
    requires Inv(s) && s'.frames == s.frames && s'.table == s.table && s'.free == s.free && s'.disk == s.disk
    requires forall u | u != t :: (u in s.pcs <==> u in s'.pcs) && (u in s.pcs ==> s'.pcs[u] == s.pcs[u])
    requires forall f :: (t in s'.pcs && Pins(s'.pcs[t], f)) <==> (t in s.pcs && Pins(s.pcs[t], f))
    requires (t in s.pcs ==> !s.pcs[t].InHand?) && (t in s'.pcs ==> !s'.pcs[t].InHand? && SessionOk(s, s'.pcs[t]))
    ensures TableOk(s') && HomesOk(s') && PinsOk(s') && SessionsOk(s') && CleanOk(s')
  {
    SameHands(s, s', t);
    forall g: FrameId ensures Holders(s', g) == Holders(s, g) {
      SameHolders(s, s', g);
    }
    PinsKept(s, s', 0);
    SessionsKept(s, s', t);
  }

  /** The replacer after the pin mutex of a frame was released. */
  lemma {:induction false} ReleasedReplacer(s: Pool, s': Pool, t: Session, f: FrameId)
    requires Inv(s) && t in s.pcs && InMutex(s.pcs[t], f) && Holds(s, f) && Holds(s', f)
    requires s'.frames == s.frames && s'.table == s.table
    requires forall u | u != t :: (u in s.pcs <==> u in s'.pcs) && (u in s.pcs ==> s'.pcs[u] == s.pcs[u])
    requires t in s'.pcs ==> !s'.pcs[t].Bump? && !s'.pcs[t].Dropped?
    requires forall i, j | 0 <= i < j < |s'.lru| :: s'.lru[i] != s'.lru[j]
    requires forall g | g != f :: g in s'.lru <==> g in s.lru
    requires f in s'.lru <==> s.frames[f].pin == 0
    ensures ReplacerOk(s')
  {
    assert !Bumping(s', f) && !Dropping(s', f);
    forall g: FrameId ensures g in s'.lru <==> Evictable(s', g) {
      if g != f {
        SameMutexes(s, s', t, g);
      }
    }
  }

  lemma {:induction false} FinishBumpStep(s: Pool, t: Session)
    requires Inv(s) && t in s.pcs && s.pcs[t].Bump?
    ensures Apply(s, t, FinishBump).Some? && Inv(Apply(s, t, FinishBump).value)
  {
    SessionHolds(s, t);
    var f := s.pcs[t].f;
    var s' := Apply(s, t, FinishBump).value;
    MovedLocks(s, s', t, Guarded(s.pcs[t].p, f));
    Counted(s, t, f);
    WithoutExact(s.lru, f);
    assert Bumping(s, f);
    assert f in s.lru <==> Evictable(s, f);
    ReleasedReplacer(s, s', t, f);
    PinsStay(s, s', t);
  }

  lemma {:induction false} UnpinStep(s: Pool, t: Session)
    requires Inv(s) && t in s.pcs && s.pcs[t].Unpinning? && MutexFree(s, t, s.pcs[t].f)
    ensures Apply(s, t, Unpin).Some? && Inv(Apply(s, t, Unpin).value)
  {
    SessionHolds(s, t);
    var f := s.pcs[t].f;
    var s' := Apply(s, t, Unpin).value;
    SharerFree(s, t);
    MovedLocks(s, s', t, Dropped(s.pcs[t].p, f));
    SamePlaces(s, s', t, f);
    DropReplacer(s, s', t);
    FewerHolders(s, s', t, f);
    forall g: FrameId | g != f ensures Holders(s', g) == Holders(s, g) {
      SameHolders(s, s', g);
    }
    PinsKept(s, s', f);
    SessionsKept(s, s', t);
    CleanKept(s, s', f);
  }

  lemma {:induction false} DropReplacer(s: Pool, s': Pool, t: Session)
    requires Inv(s) && t in s.pcs && s.pcs[t].Unpinning? && MutexFree(s, t, s.pcs[t].f) && Apply(s, t, Unpin) == Some(s')
    requires Holds(s, s.pcs[t].f)
    ensures ReplacerOk(s')
  {
    var f := s.pcs[t].f;
    Counted(s, t, f);
    assert !Bumping(s, f) && !Dropping(s, f);
    forall g: FrameId ensures Evictable(s', g) == Evictable(s, g) {
      if g != f {
        SameMutexes(s, s', t, g);
      } else {
        assert s'.pcs[t].Dropped? && s'.pcs[t].f == f;
        assert Dropping(s', f) && !Bumping(s', f);
      }
    }
    ReplacerKept(s, s');
  }

  lemma {:induction false} FinishUnpinStep(s: Pool, t: Session)
    requires Inv(s) && t in s.pcs && s.pcs[t].Dropped?
    ensures Apply(s, t, FinishUnpin).Some? && Inv(Apply(s, t, FinishUnpin).value)
  {
    SessionHolds(s, t);
    var f := s.pcs[t].f;
    var s' := Apply(s, t, FinishUnpin).value;
    GoneLocks(s, s', t);
    assert Dropping(s, f) && !Bumping(s, f);
    assert f !in s.lru;
    ReleasedReplacer(s, s', t, f);
    PinsStay(s, s', t);
  }

  lemma {:induction false} WriteStep(s: Pool, t: Session, d: Data)
    requires Inv(s) && t in s.pcs && s.pcs[t].Guarded?
    ensures Apply(s, t, Write(d)).Some? && Inv(Apply(s, t, Write(d)).value)
  {
    SessionHolds(s, t);
    var f := s.pcs[t].f;
    var s' := Apply(s, t, Write(d)).value;
    SamePlaces(s, s', t, f);
    forall g: FrameId ensures Evictable(s', g) == Evictable(s, g) && Holders(s', g) == Holders(s, g) {
      assert Bumping(s', g) == Bumping(s, g) && Dropping(s', g) == Dropping(s, g);
    }
    ReplacerKept(s, s');
    PinsKept(s, s', f);
    SessionsKept(s, s', t);
    CleanKept(s, s', f);
  }

  // ------------------------------------------------------------------- frames

  lemma {:induction false} TakeFreeStep(s: Pool, t: Session)
    requires Inv(s) && t in s.pcs && s.pcs[t].Loaded? && s.free != []
    ensures Inv(Apply(s, t, TakeFrame).value)
  {
    var s', f := Apply(s, t, TakeFrame).value, s.free[0];
    OwnerAlone(s, t);
    MovedLocks(s, s', t, s'.pcs[t]);
    assert SessionOk(s, s.pcs[t]);
    TakenHomes(s, s', t, f);
    forall g: FrameId ensures Evictable(s', g) == Evictable(s, g) && Holders(s', g) == Holders(s, g) {
      SameMutexes(s, s', t, g);
      SameHolders(s, s', g);
    }
    ReplacerKept(s, s');
    assert PinsOk(s');
    SessionsKept(s, s', t);
  }

  lemma {:induction false} TakenHomes(s: Pool, s': Pool, t: Session, f: FrameId)
    requires HomesOk(s) && s.free != [] && f == s.free[0] && s'.free == s.free[1..] && s'.table == s.table && s'.frames == s.frames
    requires t in s.pcs && !s.pcs[t].InHand? && t in s'.pcs && s'.pcs == s.pcs[t := s'.pcs[t]] && s'.pcs[t].InHand? && s'.pcs[t].f == f
    ensures HomesOk(s')
  {
    assert forall i | 0 <= i < |s'.free| :: s'.free[i] == s.free[i + 1];
    assert forall g :: g in s.free <==> g == f || g in s'.free;
    forall g: FrameId | g < |s'.frames| ensures g in s'.free || Holds(s', g) || InSomeHand(s', g) {
      if g == f {
        assert s'.pcs[t].f == g;
      } else if InSomeHand(s, g) {
        var u :| u in s.pcs && s.pcs[u].InHand? && s.pcs[u].f == g;
        assert s'.pcs[u] == s.pcs[u];
      }
    }
  }

  /** The victim is a frame of the table that no session pins: no pinned frame is evicted. */
  lemma {:induction false} VictimFree(s: Pool, t: Session)
    requires Inv(s) && t in s.pcs && Owns(s.pcs[t]) && !s.pcs[t].Bump? && s.lru != []
    ensures var f := s.lru[|s.lru| - 1];
      Holds(s, f) && s.frames[f].pin == 0 && forall u | u in s.pcs :: !Pins(s.pcs[u], f) && !s.pcs[u].Dropped?
  {
    var f := s.lru[|s.lru| - 1];
    OwnerAlone(s, t);
    assert f in s.lru;
    assert Evictable(s, f);
    assert !Bumping(s, f);
    Uncounted(s, f);
  }

  /** A page leaves the table with its frame: the other frames stay where they are. */
  lemma {:induction false} OthersHold(s: Pool, s': Pool, f: FrameId)
    requires TableOk(s) && Holds(s, f) && s'.table == s.table - {s.frames[f].page} && |s'.frames| == |s.frames|
    requires forall g: FrameId | g < |s.frames| && g != f :: s'.frames[g] == s.frames[g]
    requires s'.frames[f] == s.frames[f] || s'.frames[f].page == 0
    ensures TableOk(s') && !Holds(s', f) && forall g: FrameId | g != f :: Holds(s', g) == Holds(s, g)
  {
    forall g: FrameId | g != f ensures Holds(s', g) == Holds(s, g) {
    }
    forall p | p in s'.table ensures s'.table[p] < |s'.frames| && s'.frames[s'.table[p]].page == p {
      assert s.table[p] != f;
    }
  }

  lemma {:induction false} EvictedReplacer(s: Pool, t: Session)
    requires Inv(s) && t in s.pcs && s.pcs[t].Loaded? && s.lru != [] && s.lru[|s.lru| - 1] < |s.frames|
    ensures ReplacerOk(Evicted(s, t))
  {
    var s', f := Evicted(s, t), s.lru[|s.lru| - 1];
    VictimFree(s, t);
    OthersHold(s, s', f);
    var n := |s.lru| - 1;
    assert s.lru == s'.lru + [f] && f !in s'.lru;
    forall g: FrameId ensures g in s'.lru <==> Evictable(s', g) {
      SameMutexes(s, s', t, g);
      assert g != f ==> (g in s'.lru <==> g in s.lru);
    }
  }

  lemma {:induction false} EvictedHomes(s: Pool, t: Session)
    requires Inv(s) && t in s.pcs && s.pcs[t].Loaded? && s.free == [] && s.lru != [] && s.lru[|s.lru| - 1] < |s.frames|
    ensures HomesOk(Evicted(s, t)) && TableOk(Evicted(s, t))
  {
    var s', f := Evicted(s, t), s.lru[|s.lru| - 1];
    VictimFree(s, t);
    OthersHold(s, s', f);
    OwnerAlone(s, t);
    assert s'.pcs[t].InHand? && s'.pcs[t].f == f;
    forall g: FrameId | g < |s'.frames| ensures g in s'.free || Holds(s', g) || InSomeHand(s', g) {
      assert g != f ==> Holds(s, g) || InSomeHand(s, g);
    }
  }

  lemma {:induction false} EvictedSessions(s: Pool, t: Session)
    requires Inv(s) && t in s.pcs && s.pcs[t].Loaded? && s.lru != [] && s.lru[|s.lru| - 1] < |s.frames|
    ensures SessionsOk(Evicted(s, t)) && CleanOk(Evicted(s, t)) && PinsOk(Evicted(s, t))
  {
    var s', f := Evicted(s, t), s.lru[|s.lru| - 1];
    VictimFree(s, t);
    OthersHold(s, s', f);
    OwnerAlone(s, t);
    forall u | u in s'.pcs ensures SessionOk(s', s'.pcs[u]) {
      assert SessionOk(s, s.pcs[u]);
    }
    forall g: FrameId | Holds(s', g) ensures s'.frames[g].pin == |Holders(s', g)| {
      SameHolders(s, s', g);
      assert Holds(s, g);
    }
    forall g: FrameId | Holds(s', g) && !s'.frames[g].dirty ensures s'.frames[g].data == OnDisk(s', s'.frames[g].page) {
      assert Holds(s, g) && s.frames[g].page != s.frames[f].page;
    }
  }

  lemma {:induction false} EvictStep(s: Pool, t: Session)
    requires Inv(s) && t in s.pcs && s.pcs[t].Loaded? && s.free == [] && s.lru != [] && s.lru[|s.lru| - 1] < |s.frames|
    ensures Inv(Evicted(s, t))
  {
    OwnerAlone(s, t);
    MovedLocks(s, Evicted(s, t), t, Evicted(s, t).pcs[t]);
    EvictedReplacer(s, t);
    EvictedHomes(s, t);
    EvictedSessions(s, t);
  }
}
