/**
 The B+ tree as a value: what one Insert, Get or Delete of `b_plus_tree.go` does to the pages it visits, with
 every branch of the code, including those that lose data. `btree.dfy` shows that the code on pages refines it.
 */
module Trees {
  import opened Bytes
  import opened Assoc
  import opened Pages
  import opened Allocator

  /** `internal` is the kind byte of the page; children of a node are in key order. */
  datatype Tree =
    | LeafT(pid: PageId, internal: bool, page: Leaf)
    | NodeT(pid: PageId, internal: bool, keys: seq<Bytes>, kids: seq<Tree>)

  // ------------------------------------------------------------ observations

  /** The leaves from left to right. */
  ghost function Leaves(t: Tree): seq<Tree>
    decreases t
  {
    match t
    case LeafT(_, _, _) => [t]
    case NodeT(_, _, _, kids) => LeavesAll(kids)
  }

  ghost function LeavesAll(kids: seq<Tree>): seq<Tree>
    decreases kids
  {
    if kids == [] then [] else LeavesAll(kids[..|kids| - 1]) + Leaves(kids[|kids| - 1])
  }

  /** The elements of the leaves from left to right. */
  ghost function Flat(t: Tree): seq<KV>
    decreases t
  {
    match t
    case LeafT(_, _, page) => page.elems
    case NodeT(_, _, _, kids) => FlatAll(kids)
  }

  ghost function FlatAll(kids: seq<Tree>): seq<KV>
    decreases kids
  {
    if kids == [] then [] else FlatAll(kids[..|kids| - 1]) + Flat(kids[|kids| - 1])
  }

  /** The pages of a subtree. */
  ghost function Pids(t: Tree): set<PageId>
    decreases t
  {
    match t
    case LeafT(pid, _, _) => {pid}
    case NodeT(pid, _, _, kids) => {pid} + PidsAll(kids)
  }

  ghost function PidsAll(kids: seq<Tree>): set<PageId>
    decreases kids
  {
    if kids == [] then {} else PidsAll(kids[..|kids| - 1]) + Pids(kids[|kids| - 1])
  }

  /** No page is reachable twice. */
  ghost predicate Distinct(t: Tree)
    decreases t
  {
    match t
    case LeafT(_, _, _) => true
    case NodeT(pid, _, _, kids) => pid !in PidsAll(kids) && DistinctAll(kids)
  }

  ghost predicate DistinctAll(kids: seq<Tree>)
    decreases kids
  {
    kids != [] ==>
      && DistinctAll(kids[..|kids| - 1])
      && Distinct(kids[|kids| - 1])
      && PidsAll(kids[..|kids| - 1]) !! Pids(kids[|kids| - 1])
  }

  // --------------------------------------------------------- well-formedness

  ghost predicate Above(lo: Option<Bytes>, k: Bytes) {
    lo.Some? ==> Lt(lo.value, k)
  }

  ghost predicate Below(k: Bytes, hi: Option<Bytes>) {
    hi.Some? ==> Lt(k, hi.value)
  }

  ghost predicate SortedKeys(keys: seq<Bytes>) {
    forall i, j | 0 <= i < j < |keys| :: Lt(keys[i], keys[j])
  }

  /** Separators are strictly ascending and strictly inside the bounds. */
  ghost predicate KeysOk(keys: seq<Bytes>, lo: Option<Bytes>, hi: Option<Bytes>) {
    && SortedKeys(keys)
    && forall i | 0 <= i < |keys| :: Above(lo, keys[i]) && Below(keys[i], hi)
  }

  ghost function LoOf(keys: seq<Bytes>, lo: Option<Bytes>, i: nat): Option<Bytes>
    requires i <= |keys|
  {
    if i == 0 then lo else Some(keys[i - 1])
  }

  ghost function HiOf(keys: seq<Bytes>, hi: Option<Bytes>, i: nat): Option<Bytes>
    requires i <= |keys|
  {
    if i == |keys| then hi else Some(keys[i])
  }

  /**
   Height h, keys in [lo, hi): every leaf at the same depth, left keys < separator <= right keys, kind bytes
   that match the contents, and leaves whose free bytes are free (their garbage may be miscounted).
   */
  ghost predicate WF(t: Tree, h: nat, lo: Option<Bytes>, hi: Option<Bytes>)
    decreases t
  {
    match t
    case LeafT(_, internal, page) =>
      && h == 0 && !internal
      && Sorted(page.elems) && Within(page.elems, lo, hi)
      && Roomy(page)
    case NodeT(_, internal, keys, kids) =>
      && h > 0 && internal && |keys| >= 1 && FreeKeys(keys) >= 0
      && KidsWF(keys, kids, h - 1, lo, hi)
  }

  ghost predicate KidsWF(keys: seq<Bytes>, kids: seq<Tree>, h: nat, lo: Option<Bytes>, hi: Option<Bytes>)
    decreases kids
  {
    && |kids| == |keys| + 1
    && KeysOk(keys, lo, hi)
    && forall i | 0 <= i < |kids| :: WF(kids[i], h, LoOf(keys, lo, i), HiOf(keys, hi, i))
  }

  // ------------------------------------------------------------------ lookup

  /** Every page has the shape its kind needs: what a descent requires to run at all. */
  ghost predicate Shaped(t: Tree)
    decreases t
  {
    match t
    case LeafT(_, _, page) => |page.slots| == |page.elems|
    case NodeT(_, _, keys, kids) => |kids| == |keys| + 1 && forall i | 0 <= i < |kids| :: Shaped(kids[i])
  }

  /** readTraversal. */
  ghost function Get(t: Tree, k: Bytes): Option<Bytes>
    requires Shaped(t)
    decreases t
  {
    match t
    case LeafT(_, _, page) => Lookup(page.elems, k)
    case NodeT(_, _, keys, kids) => Get(kids[Route(keys, k)], k)
  }

  /** The leaf a search for k ends at. */
  ghost function LeafFor(t: Tree, k: Bytes): Tree
    requires Shaped(t)
    decreases t
  {
    match t
    case LeafT(_, _, _) => t
    case NodeT(_, _, keys, kids) => LeafFor(kids[Route(keys, k)], k)
  }

  // ------------------------------------------------------------------ insert

  datatype Outcome = Crash | Whole(t: Tree) | Split(left: Tree, sep: Bytes, right: Tree)

  /** What a write did, the allocator afterwards and the pages it took. */
  datatype Step = Step(out: Outcome, alloc: Alloc, taken: set<PageId>)

  /** InsertKeyValue with its result ignored: a refused insertion leaves the page as it was. */
  function InsertIgnored(p: Leaf, k: Bytes, v: Bytes): Option<Leaf>
    requires |p.slots| == |p.elems|
  {
    match LeafInsert(p, k, v)
    case Refused => Some(p)
    case Done(q) => Some(q)
    case Broken => None
  }

  /** HandleLeafNodeSplit. `stale` holds the unused pages whose kind byte says internal. */
  function LeafSplit(t: Tree, k: Bytes, v: Bytes, al: Alloc, stale: set<PageId>): Step
    requires t.LeafT? && |t.page.slots| == |t.page.elems|
  {
    var p := t.page;
    var r := NextId(al);
    var idx := SplitIndex(p.slots);
    if idx >= |p.elems| then Step(Crash, Taken(al), {r})
    else
      var sep := p.elems[idx].key;
      var left, right := SplitLeft(p, idx, r), SplitRight(p, idx);
      var half := InsertIgnored(if Lt(k, sep) then left else right, k, v);
      if half.None? then Step(Crash, Taken(al), {r})
      else if Lt(k, sep) then
        Step(Split(t.(page := half.value), sep, LeafT(r, r in stale, right)), Taken(al), {r})
      else
        Step(Split(t.(page := left), sep, LeafT(r, r in stale, half.value)), Taken(al), {r})
  }

  /** The keys and children of an internal page. */
  datatype Body = Body(keys: seq<Bytes>, kids: seq<Tree>)

  /** InsertKey with its result ignored: the right child is lost if the page refuses the separator. */
  function PutSep(b: Body, l: Tree, sep: Bytes, r: Tree): Option<Body>
    requires |b.kids| == |b.keys| + 1
  {
    var i := Route(b.keys, sep);
    var need := SepSize(sep) + SLOT_SIZE;
    if !Adequate(FreeKeys(b.keys), need) then Some(b.(kids := b.kids[i := l]))
    else if need > FreeKeys(b.keys) then None
    else Some(Body(b.keys[..i] + [sep] + b.keys[i..], b.kids[..i] + [l, r] + b.kids[i + 1..]))
  }

  function LeftBody(t: Tree, idx: nat): Body
    requires t.NodeT? && |t.kids| == |t.keys| + 1 && idx < |t.keys|
  {
    Body(t.keys[..idx], t.kids[..idx + 1])
  }

  function RightBody(t: Tree, idx: nat): Body
    requires t.NodeT? && |t.kids| == |t.keys| + 1 && idx < |t.keys|
  {
    Body(t.keys[idx + 1..], t.kids[idx + 1..])
  }

  /** HandleInternalNodeSplit: the middle separator moves up and the new page keeps its old kind byte. */
  function NodeSplit(t: Tree, l: Tree, sep: Bytes, r: Tree, al: Alloc, stale: set<PageId>): Step
    requires t.NodeT? && |t.kids| == |t.keys| + 1
  {
    var rp := NextId(al);
    var idx := SplitIndex(SepSizes(t.keys));
    if idx >= |t.keys| then Step(Crash, Taken(al), {rp})
    else
      var up := t.keys[idx];
      var left, right := LeftBody(t, idx), RightBody(t, idx);
      var half := PutSep(if Lt(sep, up) then left else right, l, sep, r);
      if half.None? then Step(Crash, Taken(al), {rp})
      else
        var left', right' := if Lt(sep, up) then half.value else left, if Lt(sep, up) then right else half.value;
        Step(Split(NodeT(t.pid, t.internal, left'.keys, left'.kids), up,
                   NodeT(rp, rp in stale, right'.keys, right'.kids)),
             Taken(al), {rp})
  }

  /** A new root over a split one: the first separator of an empty page. */
  function Grow(root: PageId, internal: bool, st: Step): Step {
    match st.out
    case Split(l, sep, r) =>
      var need := SepSize(sep) + SLOT_SIZE;
      var out :=
        if !Adequate(CAPACITY, need) then Whole(NodeT(root, internal, [], [l]))
        else if need > CAPACITY then Crash
        else Whole(NodeT(root, internal, [sep], [l, r]));
      Step(out, st.alloc, st.taken + {root})
    case _ => Step(Crash, st.alloc, st.taken + {root})
  }

  /** A leaf that cannot take the element; a root first takes a page for the new root, marked internal. */
  function LeafOverflow(t: Tree, k: Bytes, v: Bytes, isRoot: bool, al: Alloc, stale: set<PageId>): Step
    requires t.LeafT? && |t.page.slots| == |t.page.elems|
  {
    if isRoot then Grow(NextId(al), true, LeafSplit(t, k, v, Taken(al), stale))
    else LeafSplit(t, k, v, al, stale)
  }

  /** The leaf case of writeTraversal. */
  function WriteLeaf(t: Tree, k: Bytes, v: Bytes, isRoot: bool, al: Alloc, stale: set<PageId>): Step
    requires t.LeafT? && |t.page.slots| == |t.page.elems|
  {
    var p := t.page;
    var n := ElemSize(KV(k, v));
    if Has(p.elems, k) then
      var was := p.elems[Pos(p.elems, k)].value;
      if HasSpaceToUpdate(p, k, was, v) then
        match SetValue(CheckedUpdate(p, k, was, v), k, v)
        case Done(q) => Step(Whole(t.(page := q)), al, {})
        case _ => Step(Crash, al, {})
      else LeafOverflow(t, k, v, isRoot, al, stale)
    else if HasSpace(p, n) then
      match InsertIgnored(Checked(p, n), k, v)
      case Some(q) => Step(Whole(t.(page := q)), al, {})
      case None => Step(Crash, al, {})
    else LeafOverflow(t, k, v, isRoot, al, stale)
  }

  /** An internal root is split under a new root whose kind byte is left alone (HandleInternalRootNodeSplit). */
  function NodeOverflow(t: Tree, l: Tree, sep: Bytes, r: Tree, isRoot: bool, al: Alloc, stale: set<PageId>): Step
    requires t.NodeT? && |t.kids| == |t.keys| + 1
  {
    if isRoot then Grow(NextId(al), NextId(al) in stale, NodeSplit(t, l, sep, r, Taken(al), stale))
    else NodeSplit(t, l, sep, r, al, stale)
  }

  /** A child has been written; what the node above it does. */
  function WriteNode(t: Tree, i: nat, st: Step, isRoot: bool, stale: set<PageId>): Step
    requires t.NodeT? && |t.kids| == |t.keys| + 1 && i < |t.kids|
  {
    match st.out
    case Crash => st
    case Whole(c) => st.(out := Whole(t.(kids := t.kids[i := c])))
    case Split(l, sep, r) =>
      if Adequate(FreeKeys(t.keys), SepSize(sep)) then
        match PutSep(Body(t.keys, t.kids), l, sep, r)
        case Some(b) => st.(out := Whole(t.(keys := b.keys, kids := b.kids)))
        case None => st.(out := Crash)
      else
        var up := NodeOverflow(t, l, sep, r, isRoot, st.alloc, stale);
        up.(taken := st.taken + up.taken)
  }

  /** writeTraversal from the root of the subtree t. */
  ghost function Write(t: Tree, k: Bytes, v: Bytes, isRoot: bool, al: Alloc, stale: set<PageId>): Step
    requires Shaped(t)
    decreases t
  {
    match t
    case LeafT(_, _, _) => WriteLeaf(t, k, v, isRoot, al, stale)
    case NodeT(_, _, keys, kids) =>
      var i := Route(keys, k);
      WriteNode(t, i, Write(kids[i], k, v, false, al, stale), isRoot, stale)
  }

  // ------------------------------------------------------------------ delete

  /** findLeafNodePageId followed by DeleteKeyValue; None when the key is not found. */
  ghost function Remove(t: Tree, k: Bytes): Option<Tree>
    requires Shaped(t)
    decreases t
  {
    match t
    case LeafT(_, _, page) =>
      (match LeafDelete(page, k)
       case Done(q) => Some(t.(page := q))
       case _ => None)
    case NodeT(_, _, keys, kids) =>
      var i := Route(keys, k);
      match Remove(kids[i], k)
      case Some(c) => Some(t.(kids := kids[i := c]))
      case None => None
  }
}
