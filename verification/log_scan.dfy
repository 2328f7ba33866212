/** Which log records Recover replays: the committed ones, group by group. */
module LogScan {
  import opened Pages
  import opened Wal
  import opened Recovery

  /** Replayed so far, buffered per open tree, and whether a record without its Begin stopped the scan. */
  datatype Scanned = Scanned(applied: seq<Record>, pending: map<TreeId, seq<Record>>, failed: bool)

  predicate IsOp(op: LogOp) {
    !op.Begin? && !op.Commit?
  }

  /** One turn of the loop in Recover. */
  function ScanStep(s: Scanned, rec: Record): Scanned {
    if s.failed then s
    else if rec.op.Begin? then s.(pending := s.pending[rec.tree := []])
    else if rec.tree !in s.pending then s.(failed := true)
    else if rec.op.Commit? then
      s.(applied := s.applied + s.pending[rec.tree], pending := s.pending - {rec.tree})
    else s.(pending := s.pending[rec.tree := s.pending[rec.tree] + [rec]])
  }

  function ScanTo(log: seq<Record>, n: nat): Scanned
    requires n <= |log|
  {
    if n == 0 then Scanned([], map[], false) else ScanStep(ScanTo(log, n - 1), log[n - 1])
  }

  function Scan(log: seq<Record>): Scanned {
    ScanTo(log, |log|)
  }

  // ------------------------------------------------------- a declarative view

  /** No Begin or Commit of tree t at the positions a, ..., b - 1. */
  ghost predicate Quiet(log: seq<Record>, t: TreeId, a: nat, b: nat) {
    forall m | a <= m < b && m < |log| && log[m].tree == t :: IsOp(log[m].op)
  }

  /** Record i is followed by the Commit j of its tree with no Begin or Commit of that tree between. */
  ghost predicate Closes(log: seq<Record>, i: nat, j: nat) {
    i < j < |log| && IsOp(log[i].op) && log[j].op.Commit? && log[j].tree == log[i].tree && Quiet(log, log[i].tree, i + 1, j)
  }

  ghost predicate ClosedBefore(log: seq<Record>, i: nat, n: nat) {
    exists j: nat :: j < n && Closes(log, i, j)
  }

  /** The last Begin or Commit of tree t before position n is a Begin. */
  ghost predicate OpenAt(log: seq<Record>, t: TreeId, n: nat) {
    exists b: nat :: b < n && BeginsAt(log, t, b) && NoCommit(log, t, b + 1, n)
  }

  ghost predicate BeginsAt(log: seq<Record>, t: TreeId, b: nat) {
    b < |log| && log[b].tree == t && log[b].op.Begin?
  }

  ghost predicate NoCommit(log: seq<Record>, t: TreeId, a: nat, b: nat) {
    forall m | a <= m < b && m < |log| && log[m].tree == t :: !log[m].op.Commit?
  }

  /** A Commit or operation outside any open Begin: where Recover gives up. */
  ghost predicate Stray(log: seq<Record>, j: nat) {
    j < |log| && !log[j].op.Begin? && !OpenAt(log, log[j].tree, j)
  }

  ghost predicate Increasing(log: seq<Record>) {
    forall i, j | 0 <= i < j < |log| :: log[i].lsn < log[j].lsn
  }

  // -------------------------------------------------------------- open trees

  lemma {:induction false} OpenStep(log: seq<Record>, t: TreeId, n: nat)
    requires n < |log|
    ensures OpenAt(log, t, n + 1) <==>
      if log[n].tree != t then OpenAt(log, t, n)
      else log[n].op.Begin? || (!log[n].op.Commit? && OpenAt(log, t, n))
  {
    if OpenAt(log, t, n + 1) {
      var b: nat :| b < n + 1 && BeginsAt(log, t, b) && NoCommit(log, t, b + 1, n + 1);
      if b < n {
        assert NoCommit(log, t, b + 1, n);
      }
    }
    if log[n].tree == t && log[n].op.Begin? {
      assert BeginsAt(log, t, n) && NoCommit(log, t, n + 1, n + 1);
    }
    if OpenAt(log, t, n) && (log[n].tree != t || !log[n].op.Commit?) {
      var b: nat :| b < n && BeginsAt(log, t, b) && NoCommit(log, t, b + 1, n);
      assert NoCommit(log, t, b + 1, n + 1);
    }
  }

  /** Before any failure the buffered trees are exactly the open ones; the scan fails exactly at a stray record. */
  lemma {:induction false} ScanOpen(log: seq<Record>, n: nat)
    requires n <= |log|
    ensures ScanTo(log, n).failed <==> exists j: nat :: j < n && Stray(log, j)
    ensures !ScanTo(log, n).failed ==> forall t :: t in ScanTo(log, n).pending <==> OpenAt(log, t, n)
  {
    if n > 0 {
      ScanOpen(log, n - 1);
      var s, rec := ScanTo(log, n - 1), log[n - 1];
      assert Stray(log, n - 1) <==> !rec.op.Begin? && !OpenAt(log, rec.tree, n - 1);
      if !s.failed {
        forall t ensures !ScanTo(log, n).failed ==> (t in ScanTo(log, n).pending <==> OpenAt(log, t, n)) {
          OpenStep(log, t, n - 1);
        }
      }
    }
  }

  // ------------------------------------------------------------- membership

  lemma {:induction false} QuietStep(log: seq<Record>, t: TreeId, a: nat, n: nat)
    requires a <= n < |log|
    ensures Quiet(log, t, a, n + 1) <==> Quiet(log, t, a, n) && (log[n].tree == t ==> IsOp(log[n].op))
  {
  }

  lemma {:induction false} ClosedStep(log: seq<Record>, i: nat, n: nat)
    requires n < |log|
    ensures ClosedBefore(log, i, n + 1) <==> ClosedBefore(log, i, n) || Closes(log, i, n)
  {
  }

  /** What the scan holds after n records, by position. */
  ghost predicate TracksApplied(log: seq<Record>, n: nat, s: Scanned) {
    forall i | 0 <= i < |log| :: log[i] in s.applied <==> ClosedBefore(log, i, n)
  }

  ghost predicate TracksPending(log: seq<Record>, n: nat, s: Scanned) {
    forall t, i | t in s.pending && 0 <= i < |log| :: log[i] in s.pending[t] <==> Waits(log, t, i, n)
  }

  ghost predicate Waits(log: seq<Record>, t: TreeId, i: nat, n: nat) {
    i < n && i < |log| && log[i].tree == t && IsOp(log[i].op) && Quiet(log, t, i + 1, n)
  }

  lemma {:induction false} WaitsStep(log: seq<Record>, t: TreeId, i: nat, n: nat)
    requires n < |log|
    ensures Waits(log, t, i, n + 1) <==>
      if i == n then log[n].tree == t && IsOp(log[n].op)
      else Waits(log, t, i, n) && (log[n].tree == t ==> IsOp(log[n].op))
  {
    if i < n {
      QuietStep(log, t, i + 1, n);
    }
  }

  lemma {:induction false} Distinguish(log: seq<Record>, i: nat, j: nat)
    requires Increasing(log) && i < |log| && j < |log| && log[i] == log[j]
    ensures i == j
  {
  }

  lemma {:induction false} TracksPendingStep(log: seq<Record>, n: nat, s: Scanned)
    requires n < |log| && Increasing(log) && !s.failed && TracksPending(log, n, s)
    ensures TracksPending(log, n + 1, ScanStep(s, log[n]))
  {
    var rec := log[n];
    var s' := ScanStep(s, rec);
    forall t, i | t in s'.pending && 0 <= i < |log| ensures log[i] in s'.pending[t] <==> Waits(log, t, i, n + 1) {
      WaitsStep(log, t, i, n);
      if log[i] == rec {
        Distinguish(log, i, n);
      }
      assert t in s.pending || s'.pending[t] == [];
    }
  }

  lemma {:induction false} TracksAppliedStep(log: seq<Record>, n: nat, s: Scanned)
    requires n < |log| && !s.failed && TracksPending(log, n, s) && TracksApplied(log, n, s)
    requires !ScanStep(s, log[n]).failed
    ensures TracksApplied(log, n + 1, ScanStep(s, log[n]))
  {
    var rec := log[n];
    var s' := ScanStep(s, rec);
    forall i | 0 <= i < |log| ensures log[i] in s'.applied <==> ClosedBefore(log, i, n + 1) {
      ClosedStep(log, i, n);
      if rec.op.Commit? {
        assert Closes(log, i, n) <==> Waits(log, rec.tree, i, n);
        assert log[i] in s'.applied <==> log[i] in s.applied || log[i] in s.pending[rec.tree];
      }
    }
  }

  lemma {:induction false} ScanTracks(log: seq<Record>, n: nat)
    requires n <= |log| && Increasing(log) && !ScanTo(log, n).failed
    ensures TracksApplied(log, n, ScanTo(log, n)) && TracksPending(log, n, ScanTo(log, n))
  {
    if n > 0 {
      ScanTracks(log, n - 1);
      TracksPendingStep(log, n - 1, ScanTo(log, n - 1));
      TracksAppliedStep(log, n - 1, ScanTo(log, n - 1));
    }
  }

  /** No record up to j is stray. */
  ghost predicate StrayFree(log: seq<Record>, j: nat) {
    forall m: nat | m <= j :: !Stray(log, m)
  }

  /** Record i was committed before the first n records end and before any stray record. */
  ghost predicate CommittedBefore(log: seq<Record>, i: nat, n: nat) {
    exists j: nat :: j < n && Closes(log, i, j) && StrayFree(log, j)
  }

  lemma {:induction false} AppliedIs(log: seq<Record>, n: nat)
    requires n <= |log| && Increasing(log)
    ensures forall i | 0 <= i < |log| :: log[i] in ScanTo(log, n).applied <==> CommittedBefore(log, i, n)
  {
    ScanOpen(log, n);
    if !ScanTo(log, n).failed {
      ScanTracks(log, n);
      assert forall i | 0 <= i < |log| :: ClosedBefore(log, i, n) <==> CommittedBefore(log, i, n);
    } else {
      AppliedIs(log, n - 1);
      ScanOpen(log, n - 1);
      assert ScanTo(log, n).applied == ScanTo(log, n - 1).applied;
      assert !StrayFree(log, n - 1);
      assert forall i | 0 <= i < |log| :: CommittedBefore(log, i, n) <==> CommittedBefore(log, i, n - 1);
    }
  }

  /**
   Recover reports an error exactly when some Commit or operation lacks an open Begin. Whether it does or not, it replays
   exactly the records followed by a Commit of their tree, with no Begin or Commit of that tree between and no stray
   record before that Commit: nothing of a stray record, and nothing after it.
   */
  lemma {:induction false} ReplaysCommitted(log: seq<Record>)
    requires Increasing(log)
    ensures Scan(log).failed <==> exists j: nat :: Stray(log, j)
    ensures forall i | 0 <= i < |log| :: log[i] in Scan(log).applied <==> exists j: nat :: Closes(log, i, j) && StrayFree(log, j)
  {
    ScanOpen(log, |log|);
    AppliedIs(log, |log|);
    assert forall i | 0 <= i < |log| :: CommittedBefore(log, i, |log|) <==> exists j: nat :: Closes(log, i, j) && StrayFree(log, j);
  }

  /**
   Begin is logged before the lock of the tree is taken. Two operations on one tree can then log both Begins, the
   first operation with its Commit and the second operation: its records are stray, and recovery fails.
   */
  lemma {:induction false} LateBeginExample(t: TreeId, a: LogOp, b: LogOp)
    requires IsOp(a) && IsOp(b)
    ensures var log := [Record(1, t, Begin), Record(2, t, Begin), Record(3, t, a), Record(4, t, Commit), Record(5, t, b), Record(6, t, Commit)];
      Stray(log, 4) && Scan(log).failed
  {
    var log := [Record(1, t, Begin), Record(2, t, Begin), Record(3, t, a), Record(4, t, Commit), Record(5, t, b), Record(6, t, Commit)];
    forall n: nat | n < 4 && BeginsAt(log, t, n) ensures !NoCommit(log, t, n + 1, 4) {
      assert log[3].op.Commit?;
    }
    var j: nat := 4;
    assert Stray(log, j);
    ScanOpen(log, |log|);
    assert j < |log| && Stray(log, j);
  }

  // -------------------------------------------------------------------- order

  /** Records of one tree are replayed in log order, and what is buffered comes after what was replayed. */
  ghost predicate Ordered(s: Scanned, bound: nat) {
    && (forall a, b | 0 <= a < b < |s.applied| && s.applied[a].tree == s.applied[b].tree :: s.applied[a].lsn < s.applied[b].lsn)
    && (forall r | r in s.applied :: r.lsn < bound)
    && (forall t | t in s.pending :: PendingOrdered(s, t, bound))
  }

  ghost predicate PendingOrdered(s: Scanned, t: TreeId, bound: nat)
    requires t in s.pending
  {
    QueueOrdered(s.pending[t], s.applied, t, bound)
  }

  ghost predicate QueueOrdered(q: seq<Record>, applied: seq<Record>, t: TreeId, bound: nat) {
    && (forall i | 0 <= i < |q| :: q[i].tree == t && q[i].lsn < bound)
    && (forall i, j | 0 <= i < j < |q| :: q[i].lsn < q[j].lsn)
    && (forall i, r | 0 <= i < |q| && r in applied && r.tree == t :: r.lsn < q[i].lsn)
  }

  lemma {:induction false} OrderedCommit(s: Scanned, rec: Record, bound: nat)
    requires Ordered(s, rec.lsn) && rec.lsn < bound && !s.failed && rec.op.Commit? && rec.tree in s.pending
    ensures Ordered(ScanStep(s, rec), bound)
  {
    var s', q := ScanStep(s, rec), s.pending[rec.tree];
    assert PendingOrdered(s, rec.tree, rec.lsn);
    forall t | t in s'.pending ensures PendingOrdered(s', t, bound) {
      assert PendingOrdered(s, t, rec.lsn);
    }
    forall a, b | 0 <= a < b < |s'.applied| && s'.applied[a].tree == s'.applied[b].tree
      ensures s'.applied[a].lsn < s'.applied[b].lsn {
      if b >= |s.applied| > a {
        assert s'.applied[b] == q[b - |s.applied|] && s'.applied[a] in s.applied;
      }
    }
  }

  lemma {:induction false} OrderedOp(s: Scanned, rec: Record, bound: nat)
    requires Ordered(s, rec.lsn) && rec.lsn < bound && !s.failed && IsOp(rec.op) && rec.tree in s.pending
    ensures Ordered(ScanStep(s, rec), bound)
  {
    var s' := ScanStep(s, rec);
    forall t | t in s'.pending ensures PendingOrdered(s', t, bound) {
      assert PendingOrdered(s, t, rec.lsn);
      if t == rec.tree {
        QueueGrows(s.pending[t], s.applied, rec, bound);
      }
    }
  }

  /** A record appended to the queue of its tree comes after everything replayed and queued. */
  lemma {:induction false} QueueGrows(q: seq<Record>, applied: seq<Record>, rec: Record, bound: nat)
    requires rec.lsn < bound && (forall r | r in applied :: r.lsn < rec.lsn) && QueueOrdered(q, applied, rec.tree, rec.lsn)
    ensures QueueOrdered(q + [rec], applied, rec.tree, bound)
  {
    var q' := q + [rec];
    assert forall i | 0 <= i < |q'| :: q'[i] == if i < |q| then q[i] else rec;
  }

  lemma {:induction false} OrderedStep(s: Scanned, rec: Record, bound: nat)
    requires Ordered(s, rec.lsn) && rec.lsn < bound
    ensures Ordered(ScanStep(s, rec), bound)
  {
    if !s.failed && rec.op.Commit? && rec.tree in s.pending {
      OrderedCommit(s, rec, bound);
    } else if !s.failed && IsOp(rec.op) && rec.tree in s.pending {
      OrderedOp(s, rec, bound);
    } else {
      var s' := ScanStep(s, rec);
      forall t | t in s'.pending ensures PendingOrdered(s', t, bound) {
        if t in s.pending {
          assert PendingOrdered(s, t, rec.lsn);
        }
      }
    }
  }

  lemma {:induction false} ScanOrdered(log: seq<Record>, n: nat, bound: nat)
    requires n <= |log| && Increasing(log) && (n > 0 ==> log[n - 1].lsn < bound)
    ensures Ordered(ScanTo(log, n), bound)
  {
    if n > 0 {
      ScanOrdered(log, n - 1, log[n - 1].lsn);
      OrderedStep(ScanTo(log, n - 1), log[n - 1], bound);
    }
  }

  /** Within one tree the replay follows the log. */
  lemma {:induction false} ReplayInOrder(log: seq<Record>, a: nat, b: nat)
    requires Increasing(log) && a < b < |Scan(log).applied|
    requires Scan(log).applied[a].tree == Scan(log).applied[b].tree
    ensures Scan(log).applied[a].lsn < Scan(log).applied[b].lsn
  {
    ScanOrdered(log, |log|, if log == [] then 0 else log[|log| - 1].lsn + 1);
  }

  // ----------------------------------------------------------------- prefixes

  ghost predicate MembersFrom(s: Scanned, recs: seq<Record>) {
    && (forall r | r in s.applied :: r in recs)
    && (forall t, r | t in s.pending && r in s.pending[t] :: r in recs)
  }

  lemma {:induction false} ScanMembers(log: seq<Record>, n: nat)
    requires n <= |log|
    ensures MembersFrom(ScanTo(log, n), log)
  {
    if n > 0 {
      ScanMembers(log, n - 1);
      assert log[n - 1] in log;
    }
  }

  lemma {:induction false} ScanSane(log: seq<Record>, n: nat)
    requires n <= |log| && AllSane(log)
    ensures AllSane(ScanTo(log, n).applied)
  {
    ScanMembers(log, n);
    forall i | 0 <= i < |ScanTo(log, n).applied| ensures Sane(ScanTo(log, n).applied[i].op) {
      assert ScanTo(log, n).applied[i] in log;
    }
  }

  lemma {:induction false} AppliedGrows(log: seq<Record>, m: nat, n: nat)
    requires m <= n <= |log|
    ensures ScanTo(log, m).applied <= ScanTo(log, n).applied
    decreases n
  {
    if m < n {
      AppliedGrows(log, m, n - 1);
    }
  }

  /** The groups are replayed in the order of their Commits, whatever trees they belong to. */
  lemma {:induction false} ReplayByCommit(log: seq<Record>, i: nat, j: nat, i': nat, j': nat, a: nat, b: nat)
    requires Increasing(log) && Closes(log, i, j) && StrayFree(log, j) && Closes(log, i', j') && j < j'
    requires a < |Scan(log).applied| && b < |Scan(log).applied| && Scan(log).applied[a] == log[i] && Scan(log).applied[b] == log[i']
    ensures a < b
  {
    var pre, all := ScanTo(log, j + 1).applied, Scan(log).applied;
    AppliedIs(log, j + 1);
    AppliedGrows(log, j + 1, |log|);
    assert CommittedBefore(log, i, j + 1);
    var c :| 0 <= c < |pre| && pre[c] == log[i];
    assert all[c] == pre[c];
    AppliedOnce(log, a, c);
    forall m: nat | Closes(log, i', m) ensures m == j' {
      ClosesOnce(log, i', j', m);
    }
    assert log[i'] !in pre;
  }

  lemma {:induction false} ClosesOnce(log: seq<Record>, i: nat, j: nat, m: nat)
    requires Closes(log, i, j) && Closes(log, i, m)
    ensures j == m
  {
  }

  lemma {:induction false} AppliedOnce(log: seq<Record>, a: nat, c: nat)
    requires Increasing(log) && a < |Scan(log).applied| && c < |Scan(log).applied| && Scan(log).applied[a] == Scan(log).applied[c]
    ensures a == c
  {
    if a < c {
      ReplayInOrder(log, a, c);
    } else if c < a {
      ReplayInOrder(log, c, a);
    }
  }

  /**
   A recovery that stops after any number of records on a page, also in the middle of a group, and is then run again
   gives the page that recovering once gives.
   */
  lemma {:induction false} RecoverRestartable(mode: Mode, d: Image, p: PageId, log: seq<Record>, m: nat)
    requires AllSane(log) && OneKind(log) && m <= |Scan(log).applied|
    ensures var all := Scan(log).applied;
      AllSane(all) && Redo(mode, RedoTo(mode, d, p, all, m), p, all) == Redo(mode, d, p, all)
  {
    var all := Scan(log).applied;
    var pre, post := all[..m], all[m..];
    ScanSane(log, |log|);
    assert all == pre + post;
    ScanMembers(log, |log|);
    OneKindMembers(log, pre);
    RedoPrefix(mode, d, p, pre, post, m);
    Restartable(mode, d, p, pre, post);
  }

  /** Reading only a prefix of the log stops after such a number of records. */
  lemma {:induction false} PrefixRestartable(mode: Mode, d: Image, p: PageId, log: seq<Record>, m: nat)
    requires m <= |log| && AllSane(log) && OneKind(log)
    ensures AllSane(ScanTo(log, m).applied) && AllSane(Scan(log).applied)
    ensures Redo(mode, Redo(mode, d, p, ScanTo(log, m).applied), p, Scan(log).applied) == Redo(mode, d, p, Scan(log).applied)
  {
    var pre, all := ScanTo(log, m).applied, Scan(log).applied;
    ScanSane(log, m);
    ScanSane(log, |log|);
    AppliedGrows(log, m, |log|);
    assert all == pre + all[|pre|..];
    RedoPrefix(mode, d, p, pre, all[|pre|..], |pre|);
    RecoverRestartable(mode, d, p, log, |pre|);
  }

  lemma {:induction false} OneKindMembers(log: seq<Record>, recs: seq<Record>)
    requires OneKind(log) && forall r | r in recs :: r in log
    ensures OneKind(recs)
  {
    forall i, j | 0 <= i < |recs| && 0 <= j < |recs| && recs[i].op.CreatePage? && recs[j].op.CreatePage?
                  && recs[i].op.page == recs[j].op.page ensures recs[i].op.leaf == recs[j].op.leaf {
      assert recs[i] in log && recs[j] in log;
    }
  }

  // -------------------------------------------------------- interleaved trees

  /** The records of one tree. */
  ghost function Only(log: seq<Record>, t: TreeId, n: nat): seq<Record>
    requires n <= |log|
  {
    if n == 0 then [] else Only(log, t, n - 1) + (if log[n - 1].tree == t then [log[n - 1]] else [])
  }

  lemma {:induction false} ScanPrefix(a: seq<Record>, b: seq<Record>, n: nat)
    requires n <= |a|
    ensures ScanTo(a + b, n) == ScanTo(a, n)
  {
    if n > 0 {
      ScanPrefix(a, b, n - 1);
    }
  }

  lemma {:induction false} ScanAppend(a: seq<Record>, rec: Record)
    ensures Scan(a + [rec]) == ScanStep(Scan(a), rec)
  {
    ScanPrefix(a, [rec], |a|);
  }

  lemma {:induction false} OnlyPrefix(a: seq<Record>, b: seq<Record>, t: TreeId, n: nat)
    requires n <= |a|
    ensures Only(a + b, t, n) == Only(a, t, n)
  {
    if n > 0 {
      OnlyPrefix(a, b, t, n - 1);
    }
  }

  lemma {:induction false} OnlyConcat(a: seq<Record>, b: seq<Record>, t: TreeId, n: nat)
    requires n <= |b|
    ensures Only(a + b, t, |a| + n) == Only(a, t, |a|) + Only(b, t, n)
    decreases n
  {
    if n == 0 {
      OnlyPrefix(a, b, t, |a|);
    } else {
      OnlyConcat(a, b, t, n - 1);
    }
  }

  /** The scan `mine` of the records of tree t agrees with the whole scan s about t. */
  ghost predicate Projects(s: Scanned, mine: Scanned, t: TreeId) {
    && !mine.failed
    && Only(s.applied, t, |s.applied|) == mine.applied
    && (t in s.pending <==> t in mine.pending)
    && (t in s.pending ==> s.pending[t] == mine.pending[t])
  }

  ghost predicate Owned(s: Scanned, t: TreeId) {
    t in s.pending ==> forall i | 0 <= i < |s.pending[t]| :: s.pending[t][i].tree == t
  }

  lemma {:induction false} ProjectCommit(s: Scanned, t: TreeId, rec: Record)
    requires rec.tree in s.pending && Owned(s, rec.tree)
    ensures var a := s.applied + s.pending[rec.tree];
      Only(a, t, |a|) == Only(s.applied, t, |s.applied|) + (if rec.tree == t then s.pending[rec.tree] else [])
  {
    var q := s.pending[rec.tree];
    OnlyConcat(s.applied, q, t, |q|);
    OnlyOne(q, rec.tree, t, |q|);
    assert q[..|q|] == q;
  }

  lemma {:induction false} ProjectStep(s: Scanned, mine: Scanned, t: TreeId, rec: Record)
    requires !s.failed && !ScanStep(s, rec).failed && Projects(s, mine, t) && Owned(s, rec.tree)
    ensures Projects(ScanStep(s, rec), if rec.tree == t then ScanStep(mine, rec) else mine, t)
  {
    if rec.op.Commit? {
      ProjectCommit(s, t, rec);
      assert mine.applied + [] == mine.applied;
    }
  }

  /** The replay of a tree depends only on the records of that tree. */
  lemma {:induction false} ProjectScan(log: seq<Record>, t: TreeId, n: nat)
    requires n <= |log| && Increasing(log) && !ScanTo(log, n).failed
    ensures Projects(ScanTo(log, n), Scan(Only(log, t, n)), t)
  {
    if n > 0 {
      ProjectScan(log, t, n - 1);
      ScanOrdered(log, n - 1, log[n - 1].lsn);
      if log[n - 1].tree in ScanTo(log, n - 1).pending {
        assert PendingOrdered(ScanTo(log, n - 1), log[n - 1].tree, log[n - 1].lsn);
      }
      ProjectStep(ScanTo(log, n - 1), Scan(Only(log, t, n - 1)), t, log[n - 1]);
      if log[n - 1].tree == t {
        ScanAppend(Only(log, t, n - 1), log[n - 1]);
      } else {
        assert Only(log, t, n) == Only(log, t, n - 1);
      }
    }
  }

  lemma {:induction false} OnlyOne(q: seq<Record>, owner: TreeId, t: TreeId, n: nat)
    requires n <= |q| && forall i | 0 <= i < |q| :: q[i].tree == owner
    ensures Only(q, t, n) == if owner == t then q[..n] else []
  {
    if n > 0 {
      OnlyOne(q, owner, t, n - 1);
    }
  }

  lemma {:induction false} OnlySane(recs: seq<Record>, t: TreeId, n: nat)
    requires AllSane(recs) && n <= |recs|
    ensures AllSane(Only(recs, t, n))
  {
    if n > 0 {
      OnlySane(recs, t, n - 1);
    }
  }

  lemma {:induction false} OnlyIncreasing(log: seq<Record>, t: TreeId, n: nat)
    requires Increasing(log) && n <= |log|
    ensures var mine := Only(log, t, n); Increasing(mine) && forall i | 0 <= i < |mine| :: n > 0 && mine[i].lsn <= log[n - 1].lsn
  {
    if n > 0 {
      OnlyIncreasing(log, t, n - 1);
    }
  }

  /** The record concerns page p. */
  predicate Concerns(op: LogOp, p: PageId) {
    Touches(op, p) || (op.CreatePage? && op.page == p)
  }

  lemma {:induction false} RedoOnly(mode: Mode, d: Image, p: PageId, recs: seq<Record>, t: TreeId, n: nat)
    requires AllSane(recs) && n <= |recs|
    requires forall i | 0 <= i < |recs| && Concerns(recs[i].op, p) :: recs[i].tree == t
    ensures AllSane(Only(recs, t, n)) && RedoTo(mode, d, p, recs, n) == Redo(mode, d, p, Only(recs, t, n))
  {
    OnlySane(recs, t, n);
    if n > 0 {
      var q := Only(recs, t, n - 1);
      OnlySane(recs, t, n - 1);
      if recs[n - 1].tree == t {
        RedoAppend(mode, d, p, q, recs[n - 1]);
      } else {
        assert Only(recs, t, n) == q;
      }
      RedoOnly(mode, d, p, recs, t, n - 1);
    }
  }

  /** Page contents do not depend on how the groups of trees with other pages are interleaved in the log. */
  lemma {:induction false} InterleavingInvisible(mode: Mode, d: Image, p: PageId, log: seq<Record>, t: TreeId)
    requires Increasing(log) && !Scan(log).failed && AllSane(log)
    requires forall i | 0 <= i < |log| && Concerns(log[i].op, p) :: log[i].tree == t
    ensures AllSane(Scan(log).applied) && AllSane(Scan(Only(log, t, |log|)).applied)
    ensures Redo(mode, d, p, Scan(log).applied) == Redo(mode, d, p, Scan(Only(log, t, |log|)).applied)
  {
    var recs := Scan(log).applied;
    ScanSane(log, |log|);
    OnlySane(log, t, |log|);
    ScanSane(Only(log, t, |log|), |Only(log, t, |log|)|);
    ProjectScan(log, t, |log|);
    ScanMembers(log, |log|);
    forall i | 0 <= i < |recs| && Concerns(recs[i].op, p) ensures recs[i].tree == t {
      assert recs[i] in log;
    }
    RedoOnly(mode, d, p, recs, t, |recs|);
  }
}
