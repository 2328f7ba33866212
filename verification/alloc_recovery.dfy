/** The page allocator after recovery: the free list, the maximum id and the length of the file that the log gives back. */
module AllocRecovery {
  import opened Allocator
  import opened Wal
  import opened LogScan
  import opened MetaRedo
  import opened BTree

  function AllocOf(m: Meta): Alloc {
    Alloc(m.freeList, m.maxId)
  }

  /** The free list repeats no page and every page up to the maximum lies inside the file. */
  ghost predicate Orderly(m: Meta) {
    (forall i, j | 0 <= i < j < |m.freeList| :: m.freeList[i] != m.freeList[j]) && m.maxId < m.filePages
  }

  /**
   The metadata page was written after the first n records, from an allocator that began at v: it shows the free pages
   and the maximum these leave, and its LSN lies between theirs and the later ones.
   */
  ghost predicate AllocLags(m: Meta, v: Vacancy, recs: seq<Record>, n: nat) {
    && n <= |recs| && Orderly(m) && VacancyOf(AllocOf(m)) == VacancyAfter(v, recs[..n])
    && (forall i | 0 <= i < n && SetsLsn(recs[i].op) :: recs[i].lsn <= m.lsn)
    && (forall i | n <= i < |recs| && ChangesMeta(recs[i].op) :: m.lsn < recs[i].lsn)
  }

  /** No page of the file lies past the maximum. */
  lemma {:induction false} MaximumCovers(v: Vacancy, recs: seq<Record>, n: nat, i: nat)
    requires i < n <= |recs| && recs[i].op.CreatePage? && !recs[i].op.fromFreeList
    ensures recs[i].op.page <= VacancyAfter(v, recs[..n]).maxId
  {
    assert recs[..n][..n - 1] == recs[..n - 1];
    if i < n - 1 {
      MaximumCovers(v, recs, n - 1, i);
    }
  }

  /** The records before the write change nothing. */
  lemma {:induction false} AllocSkips(m: Meta, v: Vacancy, recs: seq<Record>, n: nat, k: nat)
    requires AllocLags(m, v, recs, n) && k <= n
    ensures ReplayMeta(m, recs[..k]) == m
  {
    if k > 0 {
      AllocSkips(m, v, recs, n, k - 1);
      assert recs[..k][..k - 1] == recs[..k - 1];
      if recs[k - 1].op.CreatePage? && !recs[k - 1].op.fromFreeList {
        MaximumCovers(v, recs, n, k - 1);
      }
    }
  }

  /** One record, taken in: a page leaves the free list, or the file and the maximum grow to it. */
  lemma {:induction false} VacancyFollow(m: Meta, rec: Record)
    requires Orderly(m) && (ChangesMeta(rec.op) ==> m.lsn < rec.lsn)
    ensures var e := RedoMeta(m, rec);
      && m.filePages <= e.filePages <= Max(m.filePages, e.maxId + 1) && m.maxId <= e.maxId
      && Orderly(e) && VacancyOf(AllocOf(e)) == VacancyStep(VacancyOf(AllocOf(m)), rec.op)
      && (e.lsn == m.lsn || (ChangesMeta(rec.op) && e.lsn == rec.lsn))
  {
    if rec.op.CreatePage? && rec.op.fromFreeList {
      SwapRemoveExact(m.freeList, rec.op.page);
    }
  }

  lemma {:induction false} VacancyFollows(m: Meta, v: Vacancy, recs: seq<Record>, n: nat, k: nat)
    requires Increasing(recs) && AllocLags(m, v, recs, n) && n <= k <= |recs|
    ensures var e := ReplayMeta(m, recs[..k]);
      && Orderly(e) && VacancyOf(AllocOf(e)) == VacancyAfter(v, recs[..k])
      && m.filePages <= e.filePages <= Max(m.filePages, e.maxId + 1) && m.maxId <= e.maxId
      && forall i | k <= i < |recs| && ChangesMeta(recs[i].op) :: e.lsn < recs[i].lsn
    decreases k
  {
    if k == n {
      AllocSkips(m, v, recs, n, n);
    } else {
      VacancyFollows(m, v, recs, n, k - 1);
      assert recs[..k][..k - 1] == recs[..k - 1] && recs[..k][k - 1] == recs[k - 1];
      VacancyFollow(ReplayMeta(m, recs[..k - 1]), recs[k - 1]);
    }
  }

  /**
   Recovery of the allocator with any number of trees in the log: a metadata page written at any moment ends up with
   the free pages and the maximum the log leaves, no page twice in the free list, and all of them inside the file, which
   grew no further than they need.
   */
  lemma {:induction false} AllocRecovers(m: Meta, v: Vacancy, recs: seq<Record>, n: nat)
    requires Increasing(recs) && AllocLags(m, v, recs, n)
    ensures Orderly(ReplayMeta(m, recs)) && VacancyOf(AllocOf(ReplayMeta(m, recs))) == VacancyAfter(v, recs)
    ensures m.filePages <= ReplayMeta(m, recs).filePages <= Max(m.filePages, ReplayMeta(m, recs).maxId + 1)
  {
    VacancyFollows(m, v, recs, n, |recs|);
    assert recs[..|recs|] == recs;
  }

  // ------------------------------------------------------- a metadata page of a clean close

  ghost predicate MovesHead(op: LogOp) {
    op.UpdateRoot? || op.UpdateFirstLeaf?
  }

  /** The metadata LSN is the LSN of the last record that moved the root or the first leaf, or the old one when none did. */
  lemma {:induction false} MetaLsnIs(lsn: nat, recs: seq<Record>, i: nat)
    requires forall j | i < j < |recs| :: !MovesHead(recs[j].op)
    ensures i < |recs| && MovesHead(recs[i].op) ==> MetaLsnAfter(lsn, recs) == recs[i].lsn
    ensures (forall j | 0 <= j < |recs| :: !MovesHead(recs[j].op)) ==> MetaLsnAfter(lsn, recs) == lsn
    decreases |recs|
  {
    if recs != [] {
      var n := |recs| - 1;
      MetaLsnIs(lsn, recs[..n], i);
    }
  }

  lemma {:induction false} MetaLsnCovers(lsn: nat, recs: seq<Record>, n: nat, i: nat)
    requires Increasing(recs) && i < n <= |recs| && MovesHead(recs[i].op)
    ensures recs[i].lsn <= MetaLsnAfter(lsn, recs[..n])
  {
    assert recs[..n][..n - 1] == recs[..n - 1];
    if i < n - 1 {
      MetaLsnCovers(lsn, recs, n - 1, i);
    }
  }

  lemma {:induction false} TakenStaysOut(v: Vacancy, recs: seq<Record>, n: nat, i: nat)
    requires i < n <= |recs| && recs[i].op.CreatePage? && recs[i].op.fromFreeList
    ensures recs[i].op.page !in VacancyAfter(v, recs[..n]).free
  {
    assert recs[..n][..n - 1] == recs[..n - 1];
    if i < n - 1 {
      TakenStaysOut(v, recs, n - 1, i);
    }
  }

  /** Its LSN covers every change of a root or a first leaf, and its free pages and maximum are those the log leaves. */
  ghost predicate Closed(m: Meta, v: Vacancy, recs: seq<Record>) {
    && Orderly(m) && VacancyOf(AllocOf(m)) == VacancyAfter(v, recs)
    && forall i | 0 <= i < |recs| && MovesHead(recs[i].op) :: recs[i].lsn <= m.lsn
  }

  lemma {:induction false} ClosedStays(m: Meta, v: Vacancy, recs: seq<Record>, n: nat)
    requires Closed(m, v, recs) && n <= |recs|
    ensures var e := ReplayMeta(m, recs[..n]); e == m.(lsn := e.lsn) && m.lsn <= e.lsn
  {
    if n > 0 {
      ClosedStays(m, v, recs, n - 1);
      assert recs[..n][..n - 1] == recs[..n - 1] && recs[..|recs|] == recs;
      var op := recs[n - 1].op;
      if op.CreatePage? {
        if op.fromFreeList {
          TakenStaysOut(v, recs, |recs|, n - 1);
          assert op.page !in VacancyOf(AllocOf(m)).free;
        } else {
          MaximumCovers(v, recs, |recs|, n - 1);
        }
      }
    }
  }

  /** Replaying the log over such a page changes no root, no first leaf, no free page and not the length of the file. */
  lemma {:induction false} ClosedPageStays(m: Meta, v: Vacancy, recs: seq<Record>)
    requires Closed(m, v, recs)
    ensures var e := ReplayMeta(m, recs); e == m.(lsn := e.lsn) && m.lsn <= e.lsn
  {
    ClosedStays(m, v, recs, |recs|);
    assert recs[..|recs|] == recs;
  }
}
