/** Records on one page: what was already seen, what a record changes, and starting over. */
module Recovery {
  import opened Pages
  import opened Wal

  // ------------------------------------------------------------- lagging pages

  /** Records that touch a page carry ascending, positive LSNs. */
  ghost predicate Ascending(recs: seq<Record>, p: PageId) {
    && (forall i | 0 <= i < |recs| && Touches(recs[i].op, p) :: recs[i].lsn > 0)
    && forall i, j | 0 <= i < j < |recs| && Touches(recs[i].op, p) && Touches(recs[j].op, p) :: recs[i].lsn < recs[j].lsn
  }

  /** What the tree had made of the page when it had written the first n records. */
  ghost function Written(p: PageId, recs: seq<Record>, n: nat): Content
    requires AllSane(recs) && n <= |recs|
  {
    RedoTo(Writing, ZERO_IMAGE, p, recs, n).content
  }

  /** The page on disk was flushed after the first n records: its contents are those, and its LSN lies between theirs and the later ones. */
  ghost predicate Lagging(d: Image, p: PageId, recs: seq<Record>, n: nat)
    requires AllSane(recs) && n <= |recs|
  {
    && Alike(d.content, Written(p, recs, n))
    && (forall i | 0 <= i < n && Touches(recs[i].op, p) :: recs[i].lsn <= d.lsn)
    && (forall i | n <= i < |recs| && Touches(recs[i].op, p) :: d.lsn < recs[i].lsn)
  }

  lemma {:induction false} RedoPrefix(mode: Mode, d: Image, p: PageId, a: seq<Record>, b: seq<Record>, n: nat)
    requires AllSane(a) && AllSane(a + b) && n <= |a|
    ensures RedoTo(mode, d, p, a + b, n) == RedoTo(mode, d, p, a, n)
  {
    if n > 0 {
      RedoPrefix(mode, d, p, a, b, n - 1);
    }
  }

  lemma {:induction false} RedoAppend(mode: Mode, d: Image, p: PageId, recs: seq<Record>, rec: Record)
    requires AllSane(recs) && AllSane(recs + [rec])
    ensures Sane(rec.op) && Redo(mode, d, p, recs + [rec]) == RedoPage(mode, Redo(mode, d, p, recs), p, rec)
  {
    assert (recs + [rec])[|recs|] == rec;
    RedoPrefix(mode, d, p, recs, [rec], |recs|);
  }

  /** Records the page has already seen are skipped. */
  lemma {:induction false} SkipSeen(mode: Mode, d: Image, p: PageId, recs: seq<Record>, m: nat)
    requires AllSane(recs) && m <= |recs|
    requires forall i | 0 <= i < m && Touches(recs[i].op, p) :: recs[i].lsn <= d.lsn
    ensures var e := RedoTo(mode, d, p, recs, m); e.content == d.content && e.lsn == d.lsn
  {
    if m > 0 {
      SkipSeen(mode, d, p, recs, m - 1);
    }
  }

  /** A record that neither page has seen changes equal contents equally. */
  lemma {:induction false} StepTogether(mode: Mode, e: Image, z: Image, p: PageId, rec: Record)
    requires Sane(rec.op) && SameBody(e, z) && (Touches(rec.op, p) ==> e.lsn < rec.lsn && z.lsn < rec.lsn)
    ensures var e', z' := RedoPage(mode, e, p, rec), RedoPage(mode, z, p, rec);
      && SameBody(e', z')
      && e'.lsn == (if Touches(rec.op, p) then rec.lsn else e.lsn)
      && z'.lsn == (if Touches(rec.op, p) then rec.lsn else z.lsn)
  {
    if Touches(rec.op, p) {
      EffectAlike(mode, rec.op, p, e.content, z.content);
    }
  }

  /** A page that is behind the records from position n on stays behind the records from any later position on. */
  lemma {:induction false} StaysBehind(mode: Mode, d: Image, p: PageId, recs: seq<Record>, n: nat, m: nat)
    requires AllSane(recs) && n <= m <= |recs| && Ascending(recs, p)
    requires forall i | 0 <= i < n && Touches(recs[i].op, p) :: recs[i].lsn <= d.lsn
    requires forall i | n <= i < |recs| && Touches(recs[i].op, p) :: d.lsn < recs[i].lsn
    ensures forall i | m <= i < |recs| && Touches(recs[i].op, p) :: RedoTo(mode, d, p, recs, m).lsn < recs[i].lsn
    decreases m
  {
    if m == n {
      SkipSeen(mode, d, p, recs, n);
    } else {
      StaysBehind(mode, d, p, recs, n, m - 1);
    }
  }

  // --------------------------------------------------------------- restarting

  /** Each created page is created with one kind only. */
  ghost predicate OneKind(recs: seq<Record>) {
    forall i, j | 0 <= i < |recs| && 0 <= j < |recs| && recs[i].op.CreatePage? && recs[j].op.CreatePage?
                  && recs[i].op.page == recs[j].op.page :: recs[i].op.leaf == recs[j].op.leaf
  }

  /** The page already reflects the record. */
  ghost predicate AbsorbedBy(e: Image, p: PageId, rec: Record) {
    && (Touches(rec.op, p) ==> rec.lsn <= e.lsn)
    && (rec.op.CreatePage? && rec.op.page == p ==> e.internal == !rec.op.leaf)
  }

  lemma {:induction false} RedoAbsorbs(mode: Mode, d: Image, p: PageId, recs: seq<Record>, n: nat, i: nat)
    requires AllSane(recs) && OneKind(recs) && i < n <= |recs|
    ensures AbsorbedBy(RedoTo(mode, d, p, recs, n), p, recs[i])
  {
    if i < n - 1 {
      RedoAbsorbs(mode, d, p, recs, n - 1, i);
    }
  }

  lemma {:induction false} RedoAbsorbed(mode: Mode, e: Image, p: PageId, recs: seq<Record>, n: nat)
    requires AllSane(recs) && n <= |recs| && forall i | 0 <= i < |recs| :: AbsorbedBy(e, p, recs[i])
    ensures RedoTo(mode, e, p, recs, n) == e
  {
    if n > 0 {
      RedoAbsorbed(mode, e, p, recs, n - 1);
    }
  }

  lemma {:induction false} RedoConcat(mode: Mode, d: Image, p: PageId, a: seq<Record>, b: seq<Record>, n: nat)
    requires AllSane(a) && AllSane(b) && AllSane(a + b) && n <= |b|
    ensures RedoTo(mode, d, p, a + b, |a| + n) == RedoTo(mode, Redo(mode, d, p, a), p, b, n)
  {
    if n == 0 {
      RedoPrefix(mode, d, p, a, b, |a|);
    } else {
      RedoConcat(mode, d, p, a, b, n - 1);
    }
  }

  /** Replaying a prefix and then the whole log gives the page that replaying the log once gives. */
  lemma {:induction false} Restartable(mode: Mode, d: Image, p: PageId, pre: seq<Record>, post: seq<Record>)
    requires AllSane(pre) && AllSane(post) && AllSane(pre + post) && OneKind(pre)
    ensures Redo(mode, Redo(mode, d, p, pre), p, pre + post) == Redo(mode, d, p, pre + post)
  {
    var e := Redo(mode, d, p, pre);
    forall i | 0 <= i < |pre| {
      RedoAbsorbs(mode, d, p, pre, |pre|, i);
    }
    RedoAbsorbed(mode, e, p, pre, |pre|);
    RedoConcat(mode, e, p, pre, post, |post|);
    RedoConcat(mode, d, p, pre, post, |post|);
  }

  // ----------------------------------------------------------------- the page LSN

  /** The LSN of a page after the first n records: the largest of its own and those of the records that touch it. */
  lemma {:induction false} RedoLsn(mode: Mode, d: Image, p: PageId, recs: seq<Record>, n: nat)
    requires AllSane(recs) && n <= |recs|
    ensures var e := RedoTo(mode, d, p, recs, n);
      && d.lsn <= e.lsn && (forall i | 0 <= i < n && Touches(recs[i].op, p) :: recs[i].lsn <= e.lsn)
      && (e.lsn == d.lsn || exists i :: 0 <= i < n && Touches(recs[i].op, p) && recs[i].lsn == e.lsn)
  {
    if n > 0 {
      RedoLsn(mode, d, p, recs, n - 1);
    }
  }
}
