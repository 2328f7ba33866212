/** Recovery runs the page operations without the space checks the tree ran before them: when it makes the same page of a record. */
module Replay {
  import opened Bytes
  import opened Assoc
  import opened Pages
  import opened Wal
  import opened Recovery

  // ------------------------------------------------------------------ one record

  /** The free bytes, the counted garbage and the elements with their slots fill the page. */
  ghost predicate Balanced(p: Leaf) {
    p.free >= 0 && p.free + p.garbage + Used(p.elems) == CAPACITY
  }

  ghost predicate Level(c: Content) {
    c.Slotted? ==> Shapely(c.leaf) && Balanced(c.leaf)
  }

  /**
   Recovery follows the tree through the record. An insertion is lost when the tree had to compact and the garbage
   pays for the element but not for its slot; an update in a page that the tree had to compact overruns.
   */
  predicate Follows(c: Content, op: LogOp) {
    var p := LeafIn(c);
    match op
    case InsertLeaf(_, k, v) =>
      var n := ElemSize(KV(k, v));
      n % U16_LIMIT <= p.free || p.garbage < n || n + SLOT_SIZE <= p.garbage
    case UpdateLeaf(_, k, v) =>
      var n := ElemSize(KV(k, v));
      !Has(p.elems, k) || |p.elems[Pos(p.elems, k)].value| >= |v| || n % U16_LIMIT <= p.free || p.garbage < n
    case _ => true
  }

  lemma {:induction false} InsertFollowsIff(c: Content, k: Bytes, v: Bytes, p: PageId)
    requires Level(c)
    ensures Alike(InsertedIn(Writing, c, k, v), InsertedIn(Replaying, c, k, v)) <==> Follows(c, InsertLeaf(p, k, v))
  {
    var l, n := LeafIn(c), ElemSize(KV(k, v));
    if !Adequate(l.free, n) && n <= l.garbage {
      CompactBalanced(l);
      assert n < U16_LIMIT;
    }
  }

  lemma {:induction false} CompactBalanced(p: Leaf)
    requires Balanced(p)
    ensures Balanced(Compact(p)) && Compact(p).free == p.free + p.garbage && p.garbage <= CAPACITY
  {
  }

  lemma {:induction false} UpdateFollowsIff(c: Content, k: Bytes, v: Bytes, p: PageId)
    requires Level(c)
    ensures Alike(UpdatedIn(Writing, c, k, v), UpdatedIn(Replaying, c, k, v)) <==> Follows(c, UpdateLeaf(p, k, v))
  {
    var l, n := LeafIn(c), ElemSize(KV(k, v));
    if !Adequate(l.free, n) && n <= l.garbage {
      CompactBalanced(l);
    }
  }

  /** Recovery makes of a page what the tree made of it, space counters included, if and only if it follows the record. */
  lemma {:induction false} StepIff(c: Content, op: LogOp, p: PageId)
    requires Level(c) && Sane(op) && Touches(op, p)
    ensures Alike(Effect(Writing, op, p, c), Effect(Replaying, op, p, c)) <==> Follows(c, op)
  {
    match op {
      case InsertLeaf(q, k, v) => InsertFollowsIff(c, k, v, q);
      case UpdateLeaf(q, k, v) => UpdateFollowsIff(c, k, v, q);
      case _ =>
    }
  }

  // ------------------------------------------------------------- whole histories

  ghost predicate Absent(s: seq<KV>, k: Bytes) {
    forall i | 0 <= i < |s| :: s[i].key != k
  }

  /** The record was written by an operation that did its job on a page with exact accounting. */
  ghost predicate Took(c: Content, op: LogOp, p: PageId)
    requires Sane(op) && Touches(op, p)
  {
    && !Effect(Writing, op, p, c).Ruined?
    && match op
       case InsertLeaf(_, k, v) => Level(c) && Absent(LeafIn(c).elems, k) && LeafInsert(Checked(LeafIn(c), ElemSize(KV(k, v))), k, v).Done?
       case UpdateLeaf(_, _, _) => Level(c)
       case SplitLeaf(_, _, _, _, _, _, elems) => Used(elems) <= CAPACITY
       case _ => true
  }

  /** Every record on the page was. */
  ghost predicate Earned(p: PageId, recs: seq<Record>)
    requires AllSane(recs)
  {
    forall i | 0 <= i < |recs| && Touches(recs[i].op, p) :: Took(Written(p, recs, i), recs[i].op, p)
  }

  lemma {:induction false} InsertTook(c: Content, p: PageId, k: Bytes, v: Bytes, leaf: Leaf, q: Leaf)
    requires !c.Seps? && !c.Ruined? && Level(c) && leaf == LeafIn(c) && Shapely(leaf) && Absent(leaf.elems, k)
    requires LeafInsert(Checked(leaf, ElemSize(KV(k, v))), k, v) == Done(q)
    ensures Took(c, InsertLeaf(p, k, v), p) && Effect(Writing, InsertLeaf(p, k, v), p, c) == Slotted(q)
  {
  }

  lemma {:induction false} TookAlike(c: Content, d: Content, op: LogOp, p: PageId)
    requires Sane(op) && Touches(op, p) && Took(c, op, p) && Alike(c, d)
    ensures Took(d, op, p)
  {
    EffectAlike(Writing, op, p, c, d);
    if op.InsertLeaf? && c.Slotted? {
      var n := ElemSize(KV(op.key, op.value));
      InsertAlike(Checked(c.leaf, n), Checked(d.leaf, n), op.key, op.value);
    }
  }

  lemma {:induction false} EarnedAppend(p: PageId, recs: seq<Record>, rec: Record)
    requires AllSane(recs) && AllSane(recs + [rec]) && Earned(p, recs)
    requires Touches(rec.op, p) ==> Sane(rec.op) && Took(Written(p, recs, |recs|), rec.op, p)
    ensures Earned(p, recs + [rec])
  {
    var all := recs + [rec];
    forall i | 0 <= i < |all| && Touches(all[i].op, p) ensures Took(Written(p, all, i), all[i].op, p) {
      RedoPrefix(Writing, ZERO_IMAGE, p, recs, [rec], i);
    }
  }

  /** Where the contents of the page after m records were last put back as a whole, after position n. */
  ghost function Since(p: PageId, recs: seq<Record>, n: nat, m: nat): (s: nat)
    requires n <= m <= |recs|
    ensures n <= s <= m
    decreases m
  {
    if m == n then n else if Rebuilds(recs[m - 1].op, p) then m else Since(p, recs, n, m - 1)
  }

  ghost predicate FollowsAll(p: PageId, recs: seq<Record>, a: nat, b: nat)
    requires AllSane(recs) && a <= b <= |recs|
  {
    forall i | a <= i < b && Touches(recs[i].op, p) :: Follows(Written(p, recs, i), recs[i].op)
  }

  lemma {:induction false} WrittenNext(p: PageId, recs: seq<Record>, n: nat)
    requires AllSane(recs) && n < |recs| && Ascending(recs, p)
    ensures Written(p, recs, n + 1) ==
      if Touches(recs[n].op, p) then Effect(Writing, recs[n].op, p, Written(p, recs, n)) else Written(p, recs, n)
  {
    StaysBehind(Writing, ZERO_IMAGE, p, recs, 0, n);
  }

  lemma {:induction false} RedoneNext(d: Image, p: PageId, recs: seq<Record>, n: nat, m: nat)
    requires AllSane(recs) && n <= m < |recs| && Ascending(recs, p) && Lagging(d, p, recs, n)
    ensures var r := RedoTo(Replaying, d, p, recs, m).content;
      RedoTo(Replaying, d, p, recs, m + 1).content == if Touches(recs[m].op, p) then Effect(Replaying, recs[m].op, p, r) else r
  {
    StaysBehind(Replaying, d, p, recs, n, m);
  }

  // -------------------------------------------------------------- strayed pages

  ghost predicate Missing(r: Content, l: Content, k: Bytes) {
    !r.Seps? && l.Slotted? && !Absent(l.leaf.elems, k) && Absent(LeafIn(r).elems, k)
  }

  /** The replayed page r is ruined or lacks a key of the page l. */
  ghost predicate Strayed(r: Content, l: Content) {
    !l.Ruined? && (r.Ruined? || exists k :: Missing(r, l, k))
  }

  lemma {:induction false} StrayedUnlike(r: Content, l: Content)
    requires Strayed(r, l)
    ensures !Alike(r, l)
  {
  }

  lemma {:induction false} StrayedAlike(r: Content, r': Content, l: Content)
    requires Strayed(r, l) && Alike(r, r')
    ensures Strayed(r', l)
  {
    if !r.Ruined? {
      var k :| Missing(r, l, k);
      assert Missing(r', l, k);
    }
  }

  lemma {:induction false} InsertedKeys(s: seq<KV>, e: KV, k: Bytes)
    ensures Absent(InsertElem(s, e), k) <==> Absent(s, k) && e.key != k
  {
    var u := Upper(s, e.key);
    AbsentConcat(s[..u] + [e], s[u..], k);
    AbsentConcat(s[..u], [e], k);
    AbsentConcat(s[..u], s[u..], k);
    assert s[..u] + s[u..] == s;
    assert Absent([e], k) <==> [e][0].key != k;
  }

  lemma {:induction false} AbsentConcat(a: seq<KV>, b: seq<KV>, k: Bytes)
    ensures Absent(a + b, k) <==> Absent(a, k) && Absent(b, k)
  {
    var s := a + b;
    assert forall i | 0 <= i < |a| :: a[i] == s[i];
    assert forall i | 0 <= i < |b| :: b[i] == s[|a| + i];
  }

  lemma {:induction false} UpdatedKeys(s: seq<KV>, i: nat, e: KV, k: Bytes)
    requires i < |s| && s[i].key == e.key
    ensures Absent(s[i := e], k) <==> Absent(s, k)
  {
    var t := s[i := e];
    assert forall j | 0 <= j < |s| :: t[j].key == s[j].key;
  }

  lemma {:induction false} InsertStrays(c: Content, op: LogOp, p: PageId, k: Bytes, v: Bytes)
    requires op == InsertLeaf(p, k, v) && Took(c, op, p) && !Follows(c, op)
    ensures Missing(Effect(Replaying, op, p, c), Effect(Writing, op, p, c), k)
  {
    CompactBalanced(LeafIn(c));
    InsertedKeys(LeafIn(c).elems, KV(k, v), k);
  }

  lemma {:induction false} StepStrays(c: Content, op: LogOp, p: PageId)
    requires Sane(op) && Touches(op, p) && Took(c, op, p) && !Follows(c, op)
    ensures Strayed(Effect(Replaying, op, p, c), Effect(Writing, op, p, c))
  {
    match op {
      case InsertLeaf(_, k, v) => InsertStrays(c, op, p, k, v);
      case UpdateLeaf(_, k, v) =>
      case _ =>
    }
  }

  lemma {:induction false} InsertKeepsMissing(r: Content, l: Content, k: Bytes, x: Bytes, v: Bytes)
    requires Missing(r, l, k) && x != k && !InsertedIn(Writing, l, x, v).Ruined?
    ensures Strayed(InsertedIn(Replaying, r, x, v), InsertedIn(Writing, l, x, v))
  {
    InsertedKeys(l.leaf.elems, KV(x, v), k);
    InsertedKeys(LeafIn(r).elems, KV(x, v), k);
    assert InsertedIn(Replaying, r, x, v).Ruined? || Missing(InsertedIn(Replaying, r, x, v), InsertedIn(Writing, l, x, v), k);
  }

  lemma {:induction false} UpdateKeepsMissing(r: Content, l: Content, k: Bytes, x: Bytes, v: Bytes)
    requires Missing(r, l, k) && !UpdatedIn(Writing, l, x, v).Ruined?
    ensures Strayed(UpdatedIn(Replaying, r, x, v), UpdatedIn(Writing, l, x, v))
  {
    var a, b := l.leaf.elems, LeafIn(r).elems;
    UpdatedKeys(a, Pos(a, x), KV(x, v), k);
    if Has(b, x) {
      UpdatedKeys(b, Pos(b, x), KV(x, v), k);
    }
    assert UpdatedIn(Replaying, r, x, v).Ruined? || Missing(UpdatedIn(Replaying, r, x, v), UpdatedIn(Writing, l, x, v), k);
  }

  /** Once strayed, a page stays so until a split puts its contents back. */
  lemma {:induction false} StaysStrayed(r: Content, l: Content, op: LogOp, p: PageId)
    requires Sane(op) && Touches(op, p) && !Rebuilds(op, p) && Took(l, op, p) && Strayed(r, l)
    ensures Strayed(Effect(Replaying, op, p, r), Effect(Writing, op, p, l))
  {
    if !r.Ruined? {
      var k :| Missing(r, l, k);
      match op {
        case InsertLeaf(_, x, v) => InsertKeepsMissing(r, l, k, x, v);
        case UpdateLeaf(_, x, v) => UpdateKeepsMissing(r, l, k, x, v);
        case _ =>
      }
    }
  }

  // ------------------------------------------------------------- the whole replay

  /** The replayed page r agrees with the page l, or has strayed from it. */
  ghost predicate Agrees(follows: bool, r: Content, l: Content) {
    if follows then Alike(r, l) else Strayed(r, l)
  }

  lemma {:induction false} StepAlike(r: Content, l: Content, op: LogOp, p: PageId)
    requires Sane(op) && Touches(op, p) && Took(l, op, p) && Alike(r, l)
    ensures var r', l' := Effect(Replaying, op, p, r), Effect(Writing, op, p, l); Agrees(Follows(l, op), r', l')
  {
    EffectAlike(Replaying, op, p, r, l);
    if Follows(l, op) {
      if op.InsertLeaf? || op.UpdateLeaf? {
        StepIff(l, op, p);
      }
    } else {
      StepStrays(l, op, p);
      EffectAlike(Replaying, op, p, l, r);
      StrayedAlike(Effect(Replaying, op, p, l), Effect(Replaying, op, p, r), Effect(Writing, op, p, l));
    }
  }

  lemma {:induction false} StepAgrees(follows: bool, r: Content, l: Content, op: LogOp, p: PageId)
    requires Sane(op) && Touches(op, p) && Took(l, op, p) && Agrees(follows, r, l)
    ensures Agrees(Rebuilds(op, p) || (follows && Follows(l, op)), Effect(Replaying, op, p, r), Effect(Writing, op, p, l))
  {
    if !Rebuilds(op, p) {
      if follows {
        StepAlike(r, l, op, p);
      } else {
        StaysStrayed(r, l, op, p);
      }
    }
  }

  /** Recovery follows every record since the contents were last put back. */
  ghost predicate FollowsTo(p: PageId, recs: seq<Record>, n: nat, m: nat)
    requires AllSane(recs) && n <= m <= |recs|
  {
    FollowsAll(p, recs, Since(p, recs, n, m), m)
  }

  lemma {:induction false} FollowsNext(p: PageId, recs: seq<Record>, n: nat, m: nat)
    requires AllSane(recs) && n <= m < |recs|
    ensures FollowsTo(p, recs, n, m + 1) <==>
      Rebuilds(recs[m].op, p) || (FollowsTo(p, recs, n, m) && (Touches(recs[m].op, p) ==> Follows(Written(p, recs, m), recs[m].op)))
  {
  }

  lemma {:induction false} TracksTo(d: Image, p: PageId, recs: seq<Record>, n: nat, m: nat)
    requires AllSane(recs) && n <= m <= |recs| && Ascending(recs, p) && Lagging(d, p, recs, n) && Earned(p, recs)
    ensures Agrees(FollowsTo(p, recs, n, m), RedoTo(Replaying, d, p, recs, m).content, Written(p, recs, m))
    decreases m
  {
    if m == n {
      TracksStart(d, p, recs, n);
    } else {
      TracksTo(d, p, recs, n, m - 1);
      TracksStep(d, p, recs, n, m - 1);
    }
  }

  lemma {:induction false} TracksStart(d: Image, p: PageId, recs: seq<Record>, n: nat)
    requires AllSane(recs) && n <= |recs| && Lagging(d, p, recs, n)
    ensures Agrees(FollowsTo(p, recs, n, n), RedoTo(Replaying, d, p, recs, n).content, Written(p, recs, n))
  {
    SkipSeen(Replaying, d, p, recs, n);
  }

  lemma {:induction false} TracksStep(d: Image, p: PageId, recs: seq<Record>, n: nat, m: nat)
    requires AllSane(recs) && n <= m < |recs| && Ascending(recs, p) && Lagging(d, p, recs, n) && Earned(p, recs)
    requires Agrees(FollowsTo(p, recs, n, m), RedoTo(Replaying, d, p, recs, m).content, Written(p, recs, m))
    ensures Agrees(FollowsTo(p, recs, n, m + 1), RedoTo(Replaying, d, p, recs, m + 1).content, Written(p, recs, m + 1))
  {
    WrittenNext(p, recs, m);
    RedoneNext(d, p, recs, n, m);
    FollowsNext(p, recs, n, m);
    if Touches(recs[m].op, p) {
      StepAgrees(FollowsTo(p, recs, n, m), RedoTo(Replaying, d, p, recs, m).content, Written(p, recs, m), recs[m].op, p);
    }
  }

  /**
   A page flushed after any n records: replaying the whole log gives it the elements, the space counters and the next
   pointer the tree had given it if and only if recovery follows every record on it since its contents were last put
   back as a whole by a split, or since the flush.
   */
  lemma {:induction false} ReplayIff(d: Image, p: PageId, recs: seq<Record>, n: nat)
    requires AllSane(recs) && n <= |recs| && Ascending(recs, p) && Lagging(d, p, recs, n) && Earned(p, recs)
    ensures Alike(Redo(Replaying, d, p, recs).content, Written(p, recs, |recs|)) <==> FollowsTo(p, recs, n, |recs|)
  {
    TracksTo(d, p, recs, n, |recs|);
    if !FollowsTo(p, recs, n, |recs|) {
      StrayedUnlike(Redo(Replaying, d, p, recs).content, Written(p, recs, |recs|));
    }
  }

  // ------------------------------------------------------------ exact accounting

  ghost predicate ExactIn(c: Content) {
    c.Slotted? ==> Exact(c.leaf)
  }

  lemma {:induction false} SizeWithin(s: seq<KV>, i: nat, n: nat)
    requires i < n <= |s|
    ensures ElemSize(s[i]) + SLOT_SIZE <= UsedTo(s, n)
  {
    if i < n - 1 {
      SizeWithin(s, i, n - 1);
    }
  }

  lemma {:induction false} PutBackExact(elems: seq<KV>, next: PageId)
    requires Used(elems) <= CAPACITY
    ensures ExactIn(PutBack(elems, next))
  {
    forall i | 0 <= i < |elems| ensures ElemSize(elems[i]) < U16_LIMIT { SizeWithin(elems, i, |elems|); }
  }

  lemma {:induction false} InsertedExact(c: Content, k: Bytes, v: Bytes)
    requires ExactIn(c)
    ensures ExactIn(InsertedIn(Replaying, c, k, v))
  {
    EmptyExact();
    InsertExact(LeafIn(c), k, v);
  }

  lemma {:induction false} EmptyExact()
    ensures Exact(EMPTY_LEAF)
  {
    assert Used([]) == 0;
  }

  lemma {:induction false} UpdatedExact(c: Content, k: Bytes, v: Bytes)
    requires ExactIn(c)
    ensures ExactIn(UpdatedIn(Replaying, c, k, v))
  {
    if UpdatedIn(Replaying, c, k, v).Slotted? {
      SetValueExact(c.leaf, k, v);
    }
  }

  lemma {:induction false} HalvesExact(op: LogOp)
    requires op.SplitLeaf? && Sane(op) && Used(op.elems) <= CAPACITY
    ensures ExactIn(LeafSplitLeft(op)) && ExactIn(LeafSplitRight(op))
  {
    var a, c := op.elems[..op.index], op.elems[op.index..];
    UsedConcat(a, c);
    assert a + c == op.elems;
    PutBackExact(a, op.rightPage);
    PutBackExact(c, op.next);
    InsertedExact(PutBack(a, op.rightPage), op.key, op.value);
    InsertedExact(PutBack(c, op.next), op.key, op.value);
  }

  lemma {:induction false} EffectExact(op: LogOp, p: PageId, c: Content)
    requires Sane(op) && Touches(op, p) && ExactIn(c) && (op.SplitLeaf? ==> Used(op.elems) <= CAPACITY)
    ensures ExactIn(Effect(Replaying, op, p, c))
  {
    match op {
      case InsertLeaf(_, k, v) => InsertedExact(c, k, v);
      case UpdateLeaf(_, k, v) => UpdatedExact(c, k, v);
      case SplitLeaf(_, _, _, _, _, _, _) => HalvesExact(op);
      case _ =>
    }
  }

  /** Whatever recovery does to a page with exact accounting, the accounting stays exact or the page is ruined. */
  lemma {:induction false} ReplayExact(d: Image, p: PageId, recs: seq<Record>, m: nat)
    requires AllSane(recs) && m <= |recs| && Earned(p, recs) && ExactIn(d.content)
    ensures ExactIn(RedoTo(Replaying, d, p, recs, m).content)
  {
    if m > 0 {
      ReplayExact(d, p, recs, m - 1);
      if Touches(recs[m - 1].op, p) {
        EffectExact(recs[m - 1].op, p, RedoTo(Replaying, d, p, recs, m - 1).content);
      }
    }
  }

  lemma {:induction false} TookExact(op: LogOp, p: PageId, c: Content)
    requires Sane(op) && Touches(op, p) && ExactIn(c) && Took(c, op, p)
    ensures ExactIn(Effect(Writing, op, p, c))
  {
    match op {
      case InsertLeaf(_, k, v) =>
        EmptyExact();
        AddExact(LeafIn(c), k, v);
      case UpdateLeaf(_, k, v) => UpdateExact(LeafIn(c), k, v);
      case SplitLeaf(_, _, _, _, _, _, _) => HalvesExact(op);
      case _ =>
    }
  }

  /** A page whose records all did their job has exact accounting. */
  lemma {:induction false} WrittenExact(p: PageId, recs: seq<Record>, m: nat)
    requires AllSane(recs) && m <= |recs| && Earned(p, recs)
    ensures ExactIn(Written(p, recs, m))
  {
    if m > 0 {
      WrittenExact(p, recs, m - 1);
      if Touches(recs[m - 1].op, p) {
        TookExact(recs[m - 1].op, p, Written(p, recs, m - 1));
      }
    }
  }

  // ---------------------------------------------------- histories without updates

  ghost predicate NoUpdates(recs: seq<Record>) {
    forall i | 0 <= i < |recs| :: !recs[i].op.UpdateLeaf?
  }

  ghost predicate Clean(c: Content) {
    LeafIn(c).garbage == 0
  }

  lemma {:induction false} InsertedClean(mode: Mode, c: Content, k: Bytes, v: Bytes)
    requires Clean(c)
    ensures Clean(InsertedIn(mode, c, k, v))
  {
  }

  lemma {:induction false} EffectClean(op: LogOp, p: PageId, c: Content)
    requires Sane(op) && Touches(op, p) && !op.UpdateLeaf? && Clean(c)
    ensures Clean(Effect(Writing, op, p, c)) && Follows(c, op)
  {
    match op {
      case InsertLeaf(_, k, v) => InsertedClean(Writing, c, k, v);
      case SplitLeaf(_, r, index, next, k, v, elems) =>
        InsertedClean(Replaying, PutBack(elems[..index], r), k, v);
        InsertedClean(Replaying, PutBack(elems[index..], next), k, v);
      case _ =>
    }
  }

  lemma {:induction false} WrittenClean(p: PageId, recs: seq<Record>, m: nat)
    requires AllSane(recs) && m <= |recs| && NoUpdates(recs)
    ensures Clean(Written(p, recs, m))
  {
    if m > 0 {
      WrittenClean(p, recs, m - 1);
      if Touches(recs[m - 1].op, p) {
        EffectClean(recs[m - 1].op, p, Written(p, recs, m - 1));
      }
    }
  }

  /** Without updates no page ever holds garbage, so recovery follows every record. */
  lemma {:induction false} NoUpdatesFollow(p: PageId, recs: seq<Record>, n: nat)
    requires AllSane(recs) && NoUpdates(recs) && n <= |recs|
    ensures FollowsTo(p, recs, n, |recs|)
  {
    forall i | Since(p, recs, n, |recs|) <= i < |recs| && Touches(recs[i].op, p) ensures Follows(Written(p, recs, i), recs[i].op) {
      WrittenClean(p, recs, i);
      EffectClean(recs[i].op, p, Written(p, recs, i));
    }
  }

  // -------------------------------------------------------------------- examples

  /** Two keys of one byte, values of 45, 3995 and 45 bytes. */
  ghost predicate Lossy(k: Bytes, l: Bytes, u: Bytes, w: Bytes, x: Bytes) {
    |k| == 1 && |l| == 1 && Lt(k, l) && |u| == 45 && |w| == 3995 && |x| == 45
  }

  /** A key is inserted, its value grows to most of the page, and a second key is inserted. */
  function LossyLog(p: PageId, k: Bytes, l: Bytes, u: Bytes, w: Bytes, x: Bytes): seq<Record> {
    [Record(1, 0, InsertLeaf(p, k, u)), Record(2, 0, UpdateLeaf(p, k, w)), Record(3, 0, InsertLeaf(p, l, x))]
  }

  /** The page after the first two of them. */
  function Crowded(k: Bytes, w: Bytes): Content {
    Slotted(Leaf([KV(k, w)], [4000], 10, 50, 0))
  }

  lemma {:induction false} FirstFits(mode: Mode, k: Bytes, u: Bytes)
    requires |k| == 1 && |u| == 45
    ensures InsertedIn(mode, Blank, k, u) == Slotted(Leaf([KV(k, u)], [50], 4010, 0, 0))
  {
    assert InsertElem([], KV(k, u)) == [KV(k, u)] && InsertSize([], [], KV(k, u)) == [50];
  }

  lemma {:induction false} FirstGrows(mode: Mode, k: Bytes, u: Bytes, w: Bytes)
    requires |k| == 1 && |u| == 45 && |w| == 3995
    ensures UpdatedIn(mode, Slotted(Leaf([KV(k, u)], [50], 4010, 0, 0)), k, w) == Crowded(k, w)
  {
    var s := [KV(k, u)];
    OrderFacts();
    PosUnique(s, k, 0);
    assert s[0 := KV(k, w)] == [KV(k, w)] && [50][0 := 4000] == [4000];
  }

  lemma {:induction false} SecondIsRefused(k: Bytes, l: Bytes, u: Bytes, w: Bytes, x: Bytes)
    requires Lossy(k, l, u, w, x)
    ensures InsertedIn(Replaying, Crowded(k, w), l, x) == Crowded(k, w)
    ensures InsertedIn(Writing, Crowded(k, w), l, x) == Slotted(Leaf([KV(k, w), KV(l, x)], [4000, 50], 6, 0, 0))
  {
    var s, e := [KV(k, w)], KV(l, x);
    assert Used(s) == UsedTo(s, 0) + ElemSize(s[0]) + SLOT_SIZE;
    PosUnique(s, l, 1);
    assert InsertElem(s, e) == s + [e] && InsertSize(s, [4000], e) == [4000, 50];
  }

  lemma {:induction false} LossyRun(mode: Mode, p: PageId, k: Bytes, l: Bytes, u: Bytes, w: Bytes, x: Bytes)
    requires Lossy(k, l, u, w, x)
    ensures var recs := LossyLog(p, k, l, u, w, x); AllSane(recs) && RedoTo(mode, ZERO_IMAGE, p, recs, 2) == Image(2, false, Crowded(k, w))
  {
    var recs := LossyLog(p, k, l, u, w, x);
    assert AllSane(recs);
    LossySteps(mode, p, k, u, w);
    RedoTwo(mode, ZERO_IMAGE, p, recs);
  }

  lemma {:induction false} RedoTwo(mode: Mode, d: Image, p: PageId, recs: seq<Record>)
    requires AllSane(recs) && |recs| >= 2
    ensures RedoTo(mode, d, p, recs, 2) == RedoPage(mode, RedoPage(mode, d, p, recs[0]), p, recs[1])
  {
    assert RedoTo(mode, d, p, recs, 1) == RedoPage(mode, RedoTo(mode, d, p, recs, 0), p, recs[0]);
  }

  lemma {:induction false} LossySteps(mode: Mode, p: PageId, k: Bytes, u: Bytes, w: Bytes)
    requires |k| == 1 && |u| == 45 && |w| == 3995
    ensures RedoPage(mode, RedoPage(mode, ZERO_IMAGE, p, Record(1, 0, InsertLeaf(p, k, u))), p, Record(2, 0, UpdateLeaf(p, k, w)))
      == Image(2, false, Crowded(k, w))
  {
    var first := Slotted(Leaf([KV(k, u)], [50], 4010, 0, 0));
    FirstFits(mode, k, u);
    InsertedPage(mode, ZERO_IMAGE, p, k, u, 1, first);
    FirstGrows(mode, k, u, w);
    UpdatedPage(mode, Image(1, false, first), p, k, w, 2, Crowded(k, w));
  }

  lemma {:induction false} InsertedPage(mode: Mode, d: Image, p: PageId, k: Bytes, v: Bytes, lsn: nat, c: Content)
    requires d.lsn < lsn && InsertedIn(mode, d.content, k, v) == c
    ensures RedoPage(mode, d, p, Record(lsn, 0, InsertLeaf(p, k, v))) == Image(lsn, d.internal, c)
  {
  }

  lemma {:induction false} UpdatedPage(mode: Mode, d: Image, p: PageId, k: Bytes, v: Bytes, lsn: nat, c: Content)
    requires d.lsn < lsn && UpdatedIn(mode, d.content, k, v) == c
    ensures RedoPage(mode, d, p, Record(lsn, 0, UpdateLeaf(p, k, v))) == Image(lsn, d.internal, c)
  {
  }

  /**
   A committed insertion that recovery loses without any delete, for a page that was never flushed: the tree
   compacted, recovery finds 10 free bytes and 50 bytes of garbage where the element with its slot needs 54.
   */
  lemma {:induction false} LostInsertExample(p: PageId, k: Bytes, l: Bytes, u: Bytes, w: Bytes, x: Bytes)
    requires Lossy(k, l, u, w, x)
    ensures var recs := LossyLog(p, k, l, u, w, x);
      && AllSane(recs) && Written(p, recs, 3) == Slotted(Leaf([KV(k, w), KV(l, x)], [4000, 50], 6, 0, 0))
      && Redo(Replaying, ZERO_IMAGE, p, recs).content == Crowded(k, w)
      && !Follows(Written(p, recs, 2), recs[2].op)
  {
    var recs := LossyLog(p, k, l, u, w, x);
    LossyRun(Writing, p, k, l, u, w, x);
    LossyRun(Replaying, p, k, l, u, w, x);
    SecondIsRefused(k, l, u, w, x);
    assert RedoTo(Writing, ZERO_IMAGE, p, recs, 3) == RedoPage(Writing, RedoTo(Writing, ZERO_IMAGE, p, recs, 2), p, recs[2]);
    assert RedoTo(Replaying, ZERO_IMAGE, p, recs, 3) == RedoPage(Replaying, RedoTo(Replaying, ZERO_IMAGE, p, recs, 2), p, recs[2]);
  }

  /** The same for the page flushed after the second record. */
  lemma {:induction false} LostAfterFlushExample(p: PageId, k: Bytes, l: Bytes, u: Bytes, w: Bytes, x: Bytes)
    requires Lossy(k, l, u, w, x)
    ensures var recs, d := LossyLog(p, k, l, u, w, x), Image(2, false, Crowded(k, w));
      AllSane(recs) && Lagging(d, p, recs, 2) && Redo(Replaying, d, p, recs).content == Crowded(k, w)
  {
    var recs, d := LossyLog(p, k, l, u, w, x), Image(2, false, Crowded(k, w));
    LossyRun(Writing, p, k, l, u, w, x);
    SecondIsRefused(k, l, u, w, x);
    SkipSeen(Replaying, d, p, recs, 2);
    assert Redo(Replaying, d, p, recs) == RedoPage(Replaying, RedoTo(Replaying, d, p, recs, 2), p, recs[2]);
  }

  /** An update after which the tree had compacted: recovery writes over the slots. */
  lemma {:induction false} OverrunExample(k: Bytes, u: Bytes, v: Bytes, next: PageId)
    requires |k| == 1 && |u| == 895 && |v| == 945
    ensures var c := Slotted(Leaf([KV(k, u)], [900], 156, 3004, next));
      && Level(c) && UpdatedIn(Replaying, c, k, v) == Ruined
      && UpdatedIn(Writing, c, k, v) == Slotted(Leaf([KV(k, v)], [950], 2210, 900, next))
  {
    var s := [KV(k, u)];
    OrderFacts();
    PosUnique(s, k, 0);
    assert Used(s) == UsedTo(s, 0) + ElemSize(s[0]) + SLOT_SIZE;
    assert s[0 := KV(k, v)] == [KV(k, v)] && [900][0 := 950] == [950];
  }
}
