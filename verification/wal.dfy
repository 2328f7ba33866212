/** Log records and what redoing one does to one page. */
module Wal {
  import opened Bytes
  import opened Assoc
  import opened Pages

  type TreeId = nat

  datatype LogOp =
    | Begin
    | Commit
    | CreatePage(page: PageId, leaf: bool, fromFreeList: bool)
    | UpdateRoot(page: PageId)
    | UpdateFirstLeaf(page: PageId)
    | InsertLeaf(page: PageId, key: Bytes, value: Bytes)
    | UpdateLeaf(page: PageId, key: Bytes, value: Bytes)
    | InsertInternal(page: PageId, key: Bytes, left: PageId, right: PageId)
    | SplitLeaf(leftPage: PageId, rightPage: PageId, index: nat, next: PageId, key: Bytes, value: Bytes, elems: seq<KV>)
    | SplitInternal(leftPage: PageId, rightPage: PageId, index: nat, key: Bytes, left: PageId, right: PageId, seps: seq<Sep>)

  datatype Record = Record(lsn: nat, tree: TreeId, op: LogOp)

  /** The contents of a page: nothing yet, a slotted leaf, separators, or bytes that an operation wrote outside the free region. */
  datatype Content = Blank | Slotted(leaf: Leaf) | Seps(seps: seq<Sep>) | Ruined

  /** A page as recovery sees it. */
  datatype Image = Image(lsn: nat, internal: bool, content: Content)

  const ZERO_IMAGE: Image := Image(0, false, Blank)

  /** Who carries out a record: the tree that wrote it, or recovery. */
  datatype Mode = Writing | Replaying

  /** A page without contents reads as an empty leaf. */
  function LeafIn(c: Content): Leaf {
    if c.Slotted? then c.leaf else EMPTY_LEAF
  }

  function SepsOf(c: Content): seq<Sep> {
    if c.Seps? then c.seps else []
  }

  predicate Shapely(p: Leaf) {
    |p.slots| == |p.elems|
  }

  // -------------------------------------------------- separators of a page

  function KeysOf(seps: seq<Sep>): (keys: seq<Bytes>)
    ensures |keys| == |seps|
    ensures forall i | 0 <= i < |seps| :: keys[i] == seps[i].key
  {
    seq(|seps|, i requires 0 <= i < |seps| => seps[i].key)
  }

  /**
   InsertElement of an internal page: the new separator goes before the first greater key; the left pointer of
   that key and the right pointer of the last smaller key are patched.
   */
  function InsertSep(seps: seq<Sep>, k: Bytes, l: PageId, r: PageId): (s: seq<Sep>)
    ensures |s| == |seps| + 1
  {
    var i := Route(KeysOf(seps), k);
    var below := if i > 0 && seps[i - 1].key == k then i - 1 else i;
    seq(|seps| + 1, j requires 0 <= j <= |seps| =>
      if j == i then Sep(k, l, r)
      else if j == i + 1 then seps[j - 1].(left := r)
      else if j > i then seps[j - 1]
      else if j + 1 == below then seps[j].(right := l)
      else seps[j])
  }

  datatype SepResult = SepRefused | SepDone(seps: seq<Sep>) | SepBroken

  /** InsertElement of the internal codec; internal pages of the tree never hold garbage. */
  function SepInsert(seps: seq<Sep>, k: Bytes, l: PageId, r: PageId): SepResult {
    var free, need := FreeKeys(KeysOf(seps)), SepSize(k) + SLOT_SIZE;
    if !Adequate(free, need) then SepRefused
    else if need > free then SepBroken
    else SepDone(InsertSep(seps, k, l, r))
  }

  // ------------------------------------------------- what a record does to a page

  /** InsertKeyValue with its result ignored. Only the tree runs HasEnoughSpaceToInsertElement first, which may compact. */
  function InsertedIn(mode: Mode, c: Content, k: Bytes, v: Bytes): Content {
    if c.Seps? || c.Ruined? || !Shapely(LeafIn(c)) then Ruined
    else
      var p := if mode.Writing? then Checked(LeafIn(c), ElemSize(KV(k, v))) else LeafIn(c);
      match LeafInsert(p, k, v)
      case Refused => Slotted(p)
      case Done(q) => Slotted(q)
      case Broken => Ruined
  }

  /** SetValue. Only the tree runs HasEnoughSpaceToUpdateValue first. On a key that is not there it writes over other bytes. */
  function UpdatedIn(mode: Mode, c: Content, k: Bytes, v: Bytes): Content {
    var p := LeafIn(c);
    if !c.Slotted? || !Shapely(p) || !Has(p.elems, k) then Ruined
    else
      var was := p.elems[Pos(p.elems, k)].value;
      match SetValue(if mode.Writing? then CheckedUpdate(p, k, was, v) else p, k, v)
      case Done(q) => Slotted(q)
      case _ => Ruined
  }

  /** InsertKey of an internal page with its result ignored. */
  function SepInsertedIn(c: Content, k: Bytes, l: PageId, r: PageId): Content {
    if c.Slotted? || c.Ruined? then Ruined
    else
      match SepInsert(SepsOf(c), k, l, r)
      case SepRefused => c
      case SepDone(seps) => Seps(seps)
      case SepBroken => Ruined
  }

  function Sizes(elems: seq<KV>): (s: seq<nat>)
    ensures |s| == |elems| && forall i | 0 <= i < |s| :: s[i] == ElemSize(elems[i])
  {
    seq(|elems|, i requires 0 <= i < |elems| => ElemSize(elems[i]))
  }

  /** A leaf put back from a logged list: each slot records the length of its logged element. */
  function PutBack(elems: seq<KV>, next: PageId): Content {
    Slotted(PutAll(elems, Sizes(elems), next))
  }

  /** The left page of a split leaf, and the right one. */
  function LeafSplitLeft(op: LogOp): Content
    requires op.SplitLeaf? && op.index < |op.elems|
  {
    var half := PutBack(op.elems[..op.index], op.rightPage);
    if Lt(op.key, op.elems[op.index].key) then InsertedIn(Replaying, half, op.key, op.value) else half
  }

  function LeafSplitRight(op: LogOp): Content
    requires op.SplitLeaf? && op.index < |op.elems|
  {
    var half := PutBack(op.elems[op.index..], op.next);
    if Lt(op.key, op.elems[op.index].key) then half else InsertedIn(Replaying, half, op.key, op.value)
  }

  function NodeSplitLeft(op: LogOp): Content
    requires op.SplitInternal? && op.index < |op.seps|
  {
    var half := Seps(op.seps[..op.index]);
    if Lt(op.key, op.seps[op.index].key) then SepInsertedIn(half, op.key, op.left, op.right) else half
  }

  function NodeSplitRight(op: LogOp): Content
    requires op.SplitInternal? && op.index < |op.seps|
  {
    var half := Seps(op.seps[op.index + 1..]);
    if Lt(op.key, op.seps[op.index].key) then half else SepInsertedIn(half, op.key, op.left, op.right)
  }

  /** A record the tree can have written: split payloads name two pages and an index inside their list. */
  predicate Sane(op: LogOp) {
    && (op.SplitLeaf? ==> op.leftPage != op.rightPage && op.index < |op.elems|)
    && (op.SplitInternal? ==> op.leftPage != op.rightPage && op.index < |op.seps|)
  }

  /** The record changes the contents of the page under the LSN guard. */
  predicate Touches(op: LogOp, p: PageId) {
    match op
    case InsertLeaf(q, _, _) => p == q
    case UpdateLeaf(q, _, _) => p == q
    case InsertInternal(q, _, _, _) => p == q
    case SplitLeaf(l, r, _, _, _, _, _) => p == l || p == r
    case SplitInternal(l, r, _, _, _, _, _) => p == l || p == r
    case _ => false
  }

  /** The record replaces the whole contents of the page. */
  predicate Rebuilds(op: LogOp, p: PageId) {
    (op.SplitLeaf? || op.SplitInternal?) && Touches(op, p)
  }

  /** The contents of a touched page afterwards. */
  function Effect(mode: Mode, op: LogOp, p: PageId, c: Content): Content
    requires Sane(op) && Touches(op, p)
  {
    match op
    case InsertLeaf(_, k, v) => InsertedIn(mode, c, k, v)
    case UpdateLeaf(_, k, v) => UpdatedIn(mode, c, k, v)
    case InsertInternal(_, k, l, r) => SepInsertedIn(c, k, l, r)
    case SplitLeaf(l, _, _, _, _, _, _) => if p == l then LeafSplitLeft(op) else LeafSplitRight(op)
    case SplitInternal(l, _, _, _, _, _, _) => if p == l then NodeSplitLeft(op) else NodeSplitRight(op)
  }

  /** What a record does to page p: the node kind of a created page, or a change of contents under the LSN guard. */
  function RedoPage(mode: Mode, img: Image, p: PageId, rec: Record): Image
    requires Sane(rec.op)
  {
    if rec.op.CreatePage? then (if rec.op.page == p then img.(internal := !rec.op.leaf) else img)
    else if Touches(rec.op, p) && img.lsn < rec.lsn then img.(lsn := rec.lsn, content := Effect(mode, rec.op, p, img.content))
    else img
  }

  ghost predicate AllSane(recs: seq<Record>) {
    forall i | 0 <= i < |recs| :: Sane(recs[i].op)
  }

  /** The first n records on page p. */
  function RedoTo(mode: Mode, img: Image, p: PageId, recs: seq<Record>, n: nat): Image
    requires AllSane(recs) && n <= |recs|
  {
    if n == 0 then img else RedoPage(mode, RedoTo(mode, img, p, recs, n - 1), p, recs[n - 1])
  }

  function Redo(mode: Mode, img: Image, p: PageId, recs: seq<Record>): Image
    requires AllSane(recs)
  {
    RedoTo(mode, img, p, recs, |recs|)
  }

  // ---------------------------------------------------------------- same contents

  /** The same elements, space counters and next pointer; a page put back from the log may record other slot sizes. */
  ghost predicate SameLeaf(a: Leaf, b: Leaf) {
    a.elems == b.elems && a.free == b.free && a.garbage == b.garbage && a.next == b.next && (Shapely(a) <==> Shapely(b))
  }

  ghost predicate Alike(a: Content, b: Content) {
    if a.Slotted? && b.Slotted? then SameLeaf(a.leaf, b.leaf) else a == b
  }

  ghost predicate SameBody(a: Image, b: Image) {
    Alike(a.content, b.content)
  }

  lemma {:induction false} InsertAlike(p: Leaf, q: Leaf, k: Bytes, v: Bytes)
    requires SameLeaf(p, q) && Shapely(p)
    ensures var a, b := LeafInsert(p, k, v), LeafInsert(q, k, v);
      (a.Refused? <==> b.Refused?) && (a.Broken? <==> b.Broken?) && (a.Done? && b.Done? ==> SameLeaf(a.page, b.page))
  {
  }

  lemma {:induction false} UpdateAlike(p: Leaf, q: Leaf, k: Bytes, v: Bytes)
    requires SameLeaf(p, q) && Shapely(p) && Has(p.elems, k)
    ensures var a, b := SetValue(p, k, v), SetValue(q, k, v); (a.Done? <==> b.Done?) && (a.Done? && b.Done? ==> SameLeaf(a.page, b.page))
  {
  }

  /** What a record does depends only on what the page shows. */
  lemma {:induction false} EffectAlike(mode: Mode, op: LogOp, p: PageId, c: Content, d: Content)
    requires Sane(op) && Touches(op, p) && Alike(c, d)
    ensures Alike(Effect(mode, op, p, c), Effect(mode, op, p, d))
  {
    if c.Slotted? && d.Slotted? && Shapely(c.leaf) {
      match op {
        case InsertLeaf(_, k, v) =>
          InsertAlike(c.leaf, d.leaf, k, v);
          InsertAlike(Checked(c.leaf, ElemSize(KV(k, v))), Checked(d.leaf, ElemSize(KV(k, v))), k, v);
        case UpdateLeaf(_, k, v) =>
          if Has(c.leaf.elems, k) {
            var was := c.leaf.elems[Pos(c.leaf.elems, k)].value;
            UpdateAlike(c.leaf, d.leaf, k, v);
            UpdateAlike(CheckedUpdate(c.leaf, k, was, v), CheckedUpdate(d.leaf, k, was, v), k, v);
          }
        case _ =>
      }
    }
  }
}
