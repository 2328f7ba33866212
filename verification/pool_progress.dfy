/** The locks of the buffer pool never block all sessions: whoever is inside the pool can be let out. */
module PoolProgress {
  import opened Bytes
  import opened Pages
  import opened PoolProtocol
  import opened PoolSteps
  import opened PoolRuns

  /** No session is inside the pool. */
  ghost predicate AtRest(s: Pool) {
    forall t | t in s.pcs :: s.pcs[t].Guarded?
  }

  /** What a session inside the pool does next. */
  function NextAct(pc: Pc): Act
    requires !pc.Guarded?
  {
    match pc
    case Look(_) => LookUp
    case Want(_) => GoExclusive
    case Again(_) => LookAgain
    case Bump(_, _, _) => FinishBump
    case Loaded(_, _) => TakeFrame
    case InHand(_, _, _) => Install
    case Unpinning(_, _) => Unpin
    case Dropped(_, _) => FinishUnpin
    case Deleting(_, _) => Delete
  }

  /** The session is about to panic in the victim search. */
  ghost predicate Panics(s: Pool, t: Session) {
    t in s.pcs && s.pcs[t].Loaded? && s.free == [] && s.lru == []
  }

  ghost predicate CanStep(s: Pool, t: Session) {
    t in s.pcs && !s.pcs[t].Guarded? && (Apply(s, t, NextAct(s.pcs[t])).Some? || Panics(s, t))
  }

  // ------------------------------------------------------------ no deadlock

  /** A session in a pin mutex leaves it. */
  lemma {:induction false} MutexLeaves(s: Pool, t: Session)
    requires Inv(s) && t in s.pcs && (s.pcs[t].Bump? || s.pcs[t].Dropped?)
    ensures CanStep(s, t)
  {
    assert SessionOk(s, s.pcs[t]);
  }

  /** When nobody is in a pin mutex, a session that holds the lookup mutex goes on. */
  lemma {:induction false} HolderGoesOn(s: Pool, t: Session)
    requires Inv(s) && t in s.pcs && (Owns(s.pcs[t]) || Shares(s.pcs[t]))
    requires forall u | u in s.pcs :: !s.pcs[u].Bump? && !s.pcs[u].Dropped?
    ensures CanStep(s, t)
  {
    assert SessionOk(s, s.pcs[t]);
    if s.pcs[t].Loaded? && s.lru != [] {
      assert s.lru[|s.lru| - 1] in s.lru && Evictable(s, s.lru[|s.lru| - 1]);
    }
  }

  /** When nobody holds the lookup mutex, a session that waits for it gets it. */
  lemma {:induction false} WaiterGoesOn(s: Pool, t: Session)
    requires t in s.pcs && s.pcs[t].Want? && forall u | u in s.pcs :: !Owns(s.pcs[u]) && !Shares(s.pcs[u])
    ensures CanStep(s, t)
  {
  }

  /** In every reachable state some session inside the pool can take its next step, if there is one inside. */
  lemma {:induction false} NoDeadlock(s: Pool)
    requires Inv(s) && !AtRest(s)
    ensures exists t :: CanStep(s, t)
  {
    if t :| t in s.pcs && (s.pcs[t].Bump? || s.pcs[t].Dropped?) {
      MutexLeaves(s, t);
    } else if t :| t in s.pcs && (Owns(s.pcs[t]) || Shares(s.pcs[t])) {
      HolderGoesOn(s, t);
    } else {
      var t :| t in s.pcs && !s.pcs[t].Guarded?;
      WaiterGoesOn(s, t);
    }
  }

  // -------------------------------------------------------------- finishing

  /** An upper bound on the steps a session takes until it is outside the pool. */
  function Rank(pc: Pc): nat {
    match pc
    case Look(_) => 6
    case Want(_) => 5
    case Again(_) => 4
    case Loaded(_, _) => 3
    case InHand(_, _, _) => 2
    case Bump(_, _, _) => 1
    case Guarded(_, _) => 0
    case Unpinning(_, _) => 2
    case Dropped(_, _) => 1
    case Deleting(_, _) => 1
  }

  ghost function Work(pcs: map<Session, Pc>): nat
    decreases |pcs|
  {
    if pcs == map[] then 0
    else
      var t :| t in pcs;
      assert |pcs - {t}| < |pcs| by { Smaller(pcs, t); }
      Rank(pcs[t]) + Work(pcs - {t})
  }

  lemma {:induction false} Smaller(pcs: map<Session, Pc>, t: Session)
    requires t in pcs
    ensures |pcs - {t}| < |pcs|
  {
    assert (pcs - {t}).Keys == pcs.Keys - {t};
    assert |pcs.Keys - {t}| == |pcs.Keys| - 1;
    assert |(pcs - {t})| == |(pcs - {t}).Keys| && |pcs| == |pcs.Keys|;
  }

  /** The work of a session can be counted first. */
  lemma {:induction false} WorkOf(pcs: map<Session, Pc>, t: Session)
    requires t in pcs
    ensures Work(pcs) == Rank(pcs[t]) + Work(pcs - {t})
    decreases |pcs|
  {
    var u :| u in pcs && Work(pcs) == Rank(pcs[u]) + Work(pcs - {u});
    if u != t {
      Smaller(pcs, u);
      WorkOf(pcs - {u}, t);
      Smaller(pcs, t);
      WorkOf(pcs - {t}, u);
      assert pcs - {u} - {t} == pcs - {t} - {u};
    }
  }

  /** The step moved the session on, or ended it, and no other session. */
  ghost predicate Moves(pcs: map<Session, Pc>, t: Session, pcs': map<Session, Pc>)
    requires t in pcs
  {
    pcs' == pcs - {t} || (t in pcs' && pcs' == pcs[t := pcs'[t]] && Rank(pcs'[t]) < Rank(pcs[t]))
  }

  lemma {:induction false} SearchMoves(s: Pool, t: Session, s': Pool)
    requires t in s.pcs && (s.pcs[t].Look? || s.pcs[t].Want? || s.pcs[t].Again? || s.pcs[t].Bump?)
    requires Apply(s, t, NextAct(s.pcs[t])) == Some(s')
    ensures Moves(s.pcs, t, s'.pcs)
  {
  }

  lemma {:induction false} LoadMoves(s: Pool, t: Session, s': Pool)
    requires t in s.pcs && (s.pcs[t].Loaded? || s.pcs[t].InHand?) && Apply(s, t, NextAct(s.pcs[t])) == Some(s')
    ensures Moves(s.pcs, t, s'.pcs)
  {
  }

  lemma {:induction false} EndMoves(s: Pool, t: Session, s': Pool)
    requires t in s.pcs && (s.pcs[t].Unpinning? || s.pcs[t].Dropped? || s.pcs[t].Deleting?) && Apply(s, t, NextAct(s.pcs[t])) == Some(s')
    ensures Moves(s.pcs, t, s'.pcs)
  {
  }

  lemma {:induction false} MoveWorks(pcs: map<Session, Pc>, t: Session, pcs': map<Session, Pc>)
    requires t in pcs && Moves(pcs, t, pcs') && Rank(pcs[t]) > 0
    ensures Work(pcs') < Work(pcs)
  {
    WorkOf(pcs, t);
    if pcs' != pcs - {t} {
      assert pcs' - {t} == pcs - {t};
      WorkOf(pcs', t);
    }
  }

  lemma {:induction false} LessWork(s: Pool, t: Session, s': Pool)
    requires t in s.pcs && !s.pcs[t].Guarded? && Apply(s, t, NextAct(s.pcs[t])) == Some(s')
    ensures Work(s'.pcs) < Work(s.pcs)
  {
    if s.pcs[t].Loaded? || s.pcs[t].InHand? {
      LoadMoves(s, t, s');
    } else if s.pcs[t].Unpinning? || s.pcs[t].Dropped? || s.pcs[t].Deleting? {
      EndMoves(s, t, s');
    } else {
      SearchMoves(s, t, s');
    }
    MoveWorks(s.pcs, t, s'.pcs);
  }

  /** The turns one after the other, the first one first. */
  ghost function RunAll(s: Pool, turns: seq<Turn>): Option<Pool>
    decreases |turns|
  {
    if turns == [] then Some(s)
    else match Apply(s, turns[0].session, turns[0].act)
         case None => None
         case Some(s1) => RunAll(s1, turns[1..])
  }

  lemma {:induction false} RunAllLast(s: Pool, turns: seq<Turn>, turn: Turn, m: Option<Pool>)
    requires RunAll(s, turns) == m
    ensures RunAll(s, turns + [turn]) == if m.Some? then Apply(m.value, turn.session, turn.act) else None
    decreases |turns|
  {
    if turns == [] {
      assert ([turn])[1..] == [];
    } else {
      assert (turns + [turn])[1..] == turns[1..] + [turn];
      var r := Apply(s, turns[0].session, turns[0].act);
      if r.Some? {
        RunAllLast(r.value, turns[1..], turn, m);
      }
    }
  }

  /** It is the run. */
  lemma {:induction false} RunAllIsRun(s: Pool, turns: seq<Turn>, n: nat)
    requires n <= |turns|
    ensures RunAll(s, turns[..n]) == RunTo(s, turns, n)
  {
    if n > 0 {
      RunAllIsRun(s, turns, n - 1);
      assert turns[..n] == turns[..n - 1] + [turns[n - 1]];
      RunAllLast(s, turns[..n - 1], turns[n - 1], RunTo(s, turns, n - 1));
    }
  }

  /** The pool is at rest, or somebody panics in it. */
  ghost predicate Finished(r: Option<Pool>) {
    r.Some? && (AtRest(r.value) || exists t :: Panics(r.value, t))
  }

  lemma {:induction false} NextTurn(s: Pool) returns (turn: Turn, s1: Pool)
    requires Inv(s) && !AtRest(s) && forall t :: !Panics(s, t)
    ensures Apply(s, turn.session, turn.act) == Some(s1) && Inv(s1) && Work(s1.pcs) < Work(s.pcs)
  {
    NoDeadlock(s);
    var t :| CanStep(s, t);
    turn := Turn(t, NextAct(s.pcs[t]));
    s1 := Apply(s, t, turn.act).value;
    LessWork(s, t, s1);
    StepKeeps(s, t, turn.act, s1);
  }

  lemma {:induction false} FinishTurns(s: Pool) returns (turns: seq<Turn>)
    requires Inv(s)
    ensures Finished(RunAll(s, turns)) && |turns| <= Work(s.pcs)
    decreases Work(s.pcs)
  {
    turns := [];
    if !AtRest(s) && forall t :: !Panics(s, t) {
      var turn, s1 := NextTurn(s);
      var rest := FinishTurns(s1);
      turns := [turn] + rest;
      assert turns[1..] == rest;
    }
  }

  /**
   From every reachable state there is a run after which no session is inside the pool, or one is about to panic because
   every frame is pinned; it takes no more turns than the sessions inside have work.
   */
  lemma {:induction false} CanFinish(s: Pool)
    requires Inv(s)
    ensures exists turns :: |turns| <= Work(s.pcs) && Finished(RunTo(s, turns, |turns|))
  {
    var turns := FinishTurns(s);
    RunAllIsRun(s, turns, |turns|);
    assert turns[..|turns|] == turns;
  }
}
