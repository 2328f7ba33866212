/**
 Pages as the tree sees them: the live elements of a slotted page in slot order, the sizes recorded in their
 slots, and the two space counters of the header. `leaf_codec.dfy` and the files beside it show that the byte-level page refines this view.
 */
module Pages {
  import opened Bytes
  import opened Assoc

  type PageId = nat

  const PAGE_SIZE: int := 4096
  const HEADER_SIZE: int := 32
  const SLOT_SIZE: int := 4
  const CAPACITY: int := PAGE_SIZE - HEADER_SIZE

  // --------------------------------------------------------------- leaf pages

  /** elems[i] is stored under a slot whose size field is slots[i]; free is freeSpaceEnd - freeSpaceBegin. */
  datatype Leaf = Leaf(elems: seq<KV>, slots: seq<nat>, free: int, garbage: nat, next: PageId)

  const EMPTY_LEAF: Leaf := Leaf([], [], CAPACITY, 0, 0)

  function ElemSize(e: KV): nat {
    2 + |e.key| + 2 + |e.value|
  }

  /** Bytes taken by the first n elements and their slots. */
  function UsedTo(s: seq<KV>, n: nat): nat
    requires n <= |s|
  {
    if n == 0 then 0 else UsedTo(s, n - 1) + ElemSize(s[n - 1]) + SLOT_SIZE
  }

  function Used(s: seq<KV>): nat {
    UsedTo(s, |s|)
  }

  /** Every slot is at least as large as its element. */
  ghost predicate Covers(slots: seq<nat>, elems: seq<KV>) {
    && |slots| == |elems|
    && forall i | 0 <= i < |elems| :: ElemSize(elems[i]) <= slots[i] < U16_LIMIT
  }

  /** Space is conserved: free bytes, counted garbage and live elements with their slots fill the page. */
  ghost predicate Exact(p: Leaf) {
    && Covers(p.slots, p.elems)
    && p.free >= 0
    && p.free + p.garbage + Used(p.elems) == CAPACITY
  }

  /** The bytes counted as free are free; the garbage counter may say anything. */
  ghost predicate Roomy(p: Leaf) {
    && Covers(p.slots, p.elems)
    && p.free >= 0
    && p.free + Used(p.elems) <= CAPACITY
  }

  /** Every slot records the size of its element. */
  ghost predicate Tight(p: Leaf) {
    && |p.slots| == |p.elems|
    && forall i | 0 <= i < |p.elems| :: p.slots[i] == ElemSize(p.elems[i])
  }

  /** isAdequate: the requirement is truncated to 16 bits before it is compared. */
  predicate Adequate(free: int, need: nat) {
    free >= need % U16_LIMIT
  }

  predicate ShouldCompact(garbage: nat, need: nat) {
    need <= garbage
  }

  function PutAll(elems: seq<KV>, slots: seq<nat>, next: PageId): Leaf {
    Leaf(elems, slots, CAPACITY - Used(elems), 0, next)
  }

  function Compact(p: Leaf): Leaf {
    PutAll(p.elems, p.slots, p.next)
  }

  /** HasEnoughSpaceToInsertElement: the verdict for an element of n bytes, without its slot. */
  predicate HasSpace(p: Leaf, n: nat) {
    Adequate(p.free, n) || ShouldCompact(p.garbage, n)
  }

  /** The page HasEnoughSpaceToInsertElement leaves behind. */
  function Checked(p: Leaf, n: nat): Leaf {
    if !Adequate(p.free, n) && ShouldCompact(p.garbage, n) then Compact(p) else p
  }

  predicate HasSpaceToUpdate(p: Leaf, k: Bytes, was: Bytes, v: Bytes) {
    |was| >= |v| || HasSpace(p, ElemSize(KV(k, v)))
  }

  function CheckedUpdate(p: Leaf, k: Bytes, was: Bytes, v: Bytes): Leaf {
    if |was| >= |v| then p else Checked(p, ElemSize(KV(k, v)))
  }

  /** Refused: the operation returned false. Broken: it wrote outside the free region, over slots or past the start of the page. */
  datatype LeafResult = Refused | Done(page: Leaf) | Broken

  /** Where InsertSlot places a key: before the first greater key. */
  function Upper(s: seq<KV>, k: Bytes): (u: nat)
    ensures u <= |s|
  {
    if Has(s, k) then Pos(s, k) + 1 else Pos(s, k)
  }

  function InsertElem(s: seq<KV>, e: KV): seq<KV> {
    s[..Upper(s, e.key)] + [e] + s[Upper(s, e.key)..]
  }

  function InsertSize(s: seq<KV>, slots: seq<nat>, e: KV): seq<nat>
    requires |slots| == |s|
  {
    slots[..Upper(s, e.key)] + [ElemSize(e) % U16_LIMIT] + slots[Upper(s, e.key)..]
  }

  function LeafInsert(p: Leaf, k: Bytes, v: Bytes): LeafResult
    requires |p.slots| == |p.elems|
  {
    var e := KV(k, v);
    var need := ElemSize(e) + SLOT_SIZE;
    if !Adequate(p.free, need) && !ShouldCompact(p.garbage, need) then Refused
    else
      var q := if Adequate(p.free, need) then p else Compact(p);
      if need > q.free then Broken
      else Done(q.(elems := InsertElem(q.elems, e), slots := InsertSize(q.elems, q.slots, e), free := q.free - need))
  }

  function SetValue(p: Leaf, k: Bytes, v: Bytes): LeafResult
    requires |p.slots| == |p.elems| && Has(p.elems, k)
  {
    var i := Pos(p.elems, k);
    var was := p.elems[i];
    var e := KV(k, v);
    if |was.value| >= |v| then
      Done(p.(elems := p.elems[i := e], garbage := (p.garbage + |was.value| - |v|) % U16_LIMIT))
    else if ElemSize(e) > p.free then Broken
    else
      Done(p.(elems := p.elems[i := e], slots := p.slots[i := ElemSize(e) % U16_LIMIT],
              free := p.free - ElemSize(e), garbage := (p.garbage + ElemSize(was)) % U16_LIMIT))
  }

  /** DeleteElement: the tombstoned slot and its recorded size become garbage. */
  function LeafDelete(p: Leaf, k: Bytes): LeafResult
    requires |p.slots| == |p.elems|
  {
    var i := Pos(p.elems, k);
    if !Has(p.elems, k) then Refused
    else Done(p.(elems := Del(p.elems, k), slots := p.slots[..i] + p.slots[i + 1..],
                 garbage := (p.garbage + p.slots[i] + SLOT_SIZE) % U16_LIMIT))
  }

  // -------------------------------------------------- room, as arithmetic on the page

  /** The space check before an insertion of n bytes is positive: the tree does not split. */
  predicate StaysWith(p: Leaf, n: nat) {
    n % U16_LIMIT <= p.free || n <= p.garbage
  }

  /** Then the page holds the element and its slot, after the compaction that the space check or the insertion runs. */
  predicate InsertFits(p: Leaf, n: nat) {
    var need, after := n + SLOT_SIZE, CAPACITY - Used(p.elems);
    if p.free < n % U16_LIMIT then need <= after else need <= p.free || (need <= p.garbage && need <= after)
  }

  /** A value of v bytes replaces one of was bytes in an element that then takes n bytes. */
  predicate UpdateFits(p: Leaf, was: nat, v: nat, n: nat) {
    v <= was || n <= p.free || (n <= p.garbage && n <= CAPACITY - Used(p.elems))
  }

  /** A freshly packed half takes one more element of n bytes. */
  predicate HalfFits(elems: seq<KV>, n: nat) {
    Used(elems) + n + SLOT_SIZE <= CAPACITY
  }

  // -------------------------------------------------------------- split index

  /** getTotalDataRegionSize of the first n slots, in 16-bit arithmetic. */
  function Sum16(sizes: seq<nat>, n: nat): (t: nat)
    requires n <= |sizes|
    ensures t < U16_LIMIT
  {
    if n == 0 then 0 else (Sum16(sizes, n - 1) + sizes[n - 1]) % U16_LIMIT
  }

  function SplitFrom(sizes: seq<nat>, left: nat, i: nat): (idx: nat)
    requires i <= |sizes|
    ensures i <= idx <= |sizes|
    decreases |sizes| - i
  {
    if i < |sizes| && left <= Sum16(sizes, |sizes|) / 2 then SplitFrom(sizes, (left + sizes[i]) % U16_LIMIT, i + 1) else i
  }

  /** FindSplitNodeIndex: the first prefix above half of the total, in 16-bit arithmetic. */
  function SplitIndex(sizes: seq<nat>): (idx: nat)
    ensures idx <= |sizes|
    ensures sizes != [] ==> idx >= 1
  {
    SplitFrom(sizes, 0, 0)
  }

  function SplitLeft(p: Leaf, idx: nat, right: PageId): Leaf
    requires |p.slots| == |p.elems| && idx <= |p.elems|
  {
    PutAll(p.elems[..idx], p.slots[..idx], right)
  }

  function SplitRight(p: Leaf, idx: nat): Leaf
    requires |p.slots| == |p.elems| && idx <= |p.elems|
  {
    PutAll(p.elems[idx..], p.slots[idx..], p.next)
  }

  // ----------------------------------------------------------- internal pages

  /** A separator with both neighbouring children; adjacent separators repeat the child between them. */
  datatype Sep = Sep(key: Bytes, left: PageId, right: PageId)

  function SepSize(k: Bytes): nat {
    2 + |k| + 8 + 8
  }

  function UsedKeysTo(keys: seq<Bytes>, n: nat): nat
    requires n <= |keys|
  {
    if n == 0 then 0 else UsedKeysTo(keys, n - 1) + SepSize(keys[n - 1]) + SLOT_SIZE
  }

  function UsedKeys(keys: seq<Bytes>): nat {
    UsedKeysTo(keys, |keys|)
  }

  /** Internal pages never hold garbage in the tree, so the free space follows from the keys. */
  function FreeKeys(keys: seq<Bytes>): int {
    CAPACITY - UsedKeys(keys)
  }

  function SepSizes(keys: seq<Bytes>): (s: seq<nat>)
    ensures |s| == |keys|
  {
    seq(|keys|, i requires 0 <= i < |keys| => SepSize(keys[i]))
  }

  /** The number of leading keys at or below k: where the search turns left. */
  function Route(keys: seq<Bytes>, k: Bytes): (i: nat)
    ensures i <= |keys|
    ensures forall j | 0 <= j < i :: !Lt(k, keys[j])
    ensures i < |keys| ==> Lt(k, keys[i])
  {
    RouteFrom(keys, k, 0)
  }

  function RouteFrom(keys: seq<Bytes>, k: Bytes, i: nat): (r: nat)
    requires i <= |keys|
    ensures i <= r <= |keys|
    ensures forall j | i <= j < r :: !Lt(k, keys[j])
    ensures r < |keys| ==> Lt(k, keys[r])
    decreases |keys| - i
  {
    if i == |keys| || Lt(k, keys[i]) then i else RouteFrom(keys, k, i + 1)
  }

  // ------------------------------------------------------ conservation of space

  lemma {:induction false} UsedToConcat(a: seq<KV>, b: seq<KV>, n: nat)
    requires n <= |b|
    ensures UsedTo(a + b, |a|) == Used(a)
    ensures UsedTo(a + b, |a| + n) == Used(a) + UsedTo(b, n)
    decreases |a| + n
  {
    if n > 0 {
      UsedToConcat(a, b, n - 1);
    } else if |a| > 0 {
      UsedToConcat(a[..|a| - 1], a[|a| - 1..] + b, 0);
      assert a[..|a| - 1] + (a[|a| - 1..] + b) == a + b;
      UsedToConcat(a[..|a| - 1], a[|a| - 1..], 0);
      assert a[..|a| - 1] + a[|a| - 1..] == a;
    }
  }

  lemma {:induction false} UsedConcat(a: seq<KV>, b: seq<KV>)
    ensures Used(a + b) == Used(a) + Used(b)
  {
    UsedToConcat(a, b, |b|);
  }

  lemma {:induction false} UsedInsert(s: seq<KV>, i: nat, e: KV)
    requires i <= |s|
    ensures Used(s[..i] + [e] + s[i..]) == Used(s) + ElemSize(e) + SLOT_SIZE
  {
    UsedConcat(s[..i] + [e], s[i..]);
    UsedConcat(s[..i], [e]);
    UsedConcat(s[..i], s[i..]);
    assert s[..i] + s[i..] == s;
    assert Used([e]) == UsedTo([e], 0) + ElemSize(e) + SLOT_SIZE;
  }

  lemma {:induction false} UsedUpdate(s: seq<KV>, i: nat, e: KV)
    requires i < |s|
    ensures Used(s[i := e]) == Used(s) - ElemSize(s[i]) + ElemSize(e)
    ensures Used(s[..i] + s[i + 1..]) == Used(s) - ElemSize(s[i]) - SLOT_SIZE
  {
    var rest := s[..i] + s[i + 1..];
    assert rest[..i] == s[..i] && rest[i..] == s[i + 1..];
    UsedInsert(rest, i, e);
    UsedInsert(rest, i, s[i]);
    assert rest[..i] + [e] + rest[i..] == s[i := e];
    assert rest[..i] + [s[i]] + rest[i..] == s;
  }

  /** Compaction makes the accounting exact and keeps the elements; it returns the counted garbage if that was exact before. */
  lemma {:induction false} CompactExact(p: Leaf)
    requires Roomy(p)
    ensures Exact(Compact(p))
    ensures Compact(p).elems == p.elems
    ensures Exact(p) ==> Compact(p).free == p.free + p.garbage
  {
  }

  lemma {:induction false} CoversInsert(slots: seq<nat>, elems: seq<KV>, e: KV)
    requires Covers(slots, elems) && ElemSize(e) < U16_LIMIT
    ensures Covers(InsertSize(elems, slots, e), InsertElem(elems, e))
  {
    var u := Upper(elems, e.key);
    var s, t := InsertElem(elems, e), InsertSize(elems, slots, e);
    assert forall i | 0 <= i < |s| :: s[i] == (if i < u then elems[i] else if i == u then e else elems[i - 1]);
    assert forall i | 0 <= i < |t| :: t[i] == (if i < u then slots[i] else if i == u then ElemSize(e) else slots[i - 1]);
  }

  /** An insertion that stays inside the free region leaves a page with room, and keeps exact accounting exact. */
  lemma {:induction false} InsertRoomy(p: Leaf, k: Bytes, v: Bytes)
    requires Roomy(p) && LeafInsert(p, k, v).Done?
    ensures Roomy(LeafInsert(p, k, v).page)
    ensures Exact(p) ==> Exact(LeafInsert(p, k, v).page)
  {
    var e := KV(k, v);
    CompactExact(p);
    UsedInsert(p.elems, Upper(p.elems, k), e);
    CoversInsert(p.slots, p.elems, e);
  }

  /** On an exact page InsertElement never crosses the free-space pointers unless the element overflows 16 bits. */
  lemma {:induction false} InsertExact(p: Leaf, k: Bytes, v: Bytes)
    requires Exact(p)
    ensures LeafInsert(p, k, v).Done? ==> Exact(LeafInsert(p, k, v).page)
    ensures LeafInsert(p, k, v).Broken? ==> ElemSize(KV(k, v)) + SLOT_SIZE >= U16_LIMIT
  {
    CompactExact(p);
    if LeafInsert(p, k, v).Done? {
      InsertRoomy(p, k, v);
    }
  }

  /** Whatever the garbage counter says: when an insertion after a positive space check lands. */
  lemma {:induction false} InsertFitsIff(p: Leaf, k: Bytes, v: Bytes)
    requires Roomy(p)
    ensures var n := ElemSize(KV(k, v));
      && (HasSpace(p, n) <==> StaysWith(p, n))
      && (StaysWith(p, n) ==> (LeafInsert(Checked(p, n), k, v).Done? <==> InsertFits(p, n)))
  {
    CompactExact(p);
    var n := ElemSize(KV(k, v));
    if n + SLOT_SIZE < U16_LIMIT {
      SmallMod(n);
      SmallMod(n + SLOT_SIZE);
    }
  }

  lemma {:induction false} HalfFitsIff(elems: seq<KV>, slots: seq<nat>, next: PageId, k: Bytes, v: Bytes)
    requires |slots| == |elems|
    ensures LeafInsert(PutAll(elems, slots, next), k, v).Done? <==> HalfFits(elems, ElemSize(KV(k, v)))
  {
    var need := ElemSize(KV(k, v)) + SLOT_SIZE;
    if need < U16_LIMIT {
      SmallMod(need);
    }
  }

  /** The counters after an insertion into an exact page. */
  ghost predicate Landed(p: Leaf, k: Bytes, v: Bytes, q: Leaf)
    requires |p.slots| == |p.elems|
  {
    var need := ElemSize(KV(k, v)) + SLOT_SIZE;
    && q.elems == InsertElem(p.elems, KV(k, v)) && q.slots == InsertSize(p.elems, p.slots, KV(k, v)) && q.next == p.next
    && q.free == (if need <= p.free then p.free else p.free + p.garbage) - need
    && q.garbage == if need <= p.free then p.garbage else 0
  }

  /**
   InsertElement on an exact page: it lands if and only if the element and its slot fit the free bytes or the counted
   garbage, and is refused otherwise. It compacts only when the free bytes do not do.
   */
  lemma {:induction false} InsertLandsIff(p: Leaf, k: Bytes, v: Bytes)
    requires Exact(p) && ElemSize(KV(k, v)) + SLOT_SIZE < U16_LIMIT
    ensures var need := ElemSize(KV(k, v)) + SLOT_SIZE;
      && (LeafInsert(p, k, v).Done? <==> need <= p.free || need <= p.garbage)
      && (!LeafInsert(p, k, v).Done? ==> LeafInsert(p, k, v).Refused?)
    ensures LeafInsert(p, k, v).Done? ==> Landed(p, k, v, LeafInsert(p, k, v).page)
  {
    CompactExact(p);
    SmallMod(ElemSize(KV(k, v)) + SLOT_SIZE);
  }

  lemma {:induction false} CoversUpdate(slots: seq<nat>, elems: seq<KV>, i: nat, e: KV, size: nat)
    requires Covers(slots, elems) && i < |elems| && ElemSize(e) <= size < U16_LIMIT
    ensures Covers(slots[i := size], elems[i := e])
    ensures Covers(slots[..i] + slots[i + 1..], elems[..i] + elems[i + 1..])
  {
    var s, t := elems[..i] + elems[i + 1..], slots[..i] + slots[i + 1..];
    assert forall j | 0 <= j < |s| :: s[j] == (if j < i then elems[j] else elems[j + 1]);
    assert forall j | 0 <= j < |t| :: t[j] == (if j < i then slots[j] else slots[j + 1]);
  }

  lemma {:induction false} PutInPlace(s: seq<KV>, k: Bytes, v: Bytes)
    requires Has(s, k)
    ensures s[Pos(s, k) := KV(k, v)] == Put(s, k, v)
  {
  }

  /** A value that is not longer, in the place of the old one. */
  lemma {:induction false} ShrinkExact(p: Leaf, i: nat, e: KV, garbage: nat)
    requires Exact(p) && i < |p.elems| && e.key == p.elems[i].key && |e.value| <= |p.elems[i].value|
    requires garbage == p.garbage + |p.elems[i].value| - |e.value|
    ensures garbage < U16_LIMIT && Exact(p.(elems := p.elems[i := e], garbage := garbage))
  {
    UsedUpdate(p.elems, i, e);
    CoversUpdate(p.slots, p.elems, i, e, p.slots[i]);
    assert p.slots[i := p.slots[i]] == p.slots;
  }

  /** A longer value in the free region; the old element becomes garbage. */
  lemma {:induction false} GrowExact(p: Leaf, i: nat, e: KV, garbage: nat)
    requires Exact(p) && i < |p.elems| && ElemSize(e) < U16_LIMIT && ElemSize(e) <= p.free && garbage == p.garbage + ElemSize(p.elems[i])
    ensures garbage < U16_LIMIT
    ensures Exact(p.(elems := p.elems[i := e], slots := p.slots[i := ElemSize(e)], free := p.free - ElemSize(e), garbage := garbage))
  {
    UsedUpdate(p.elems, i, e);
    CoversUpdate(p.slots, p.elems, i, e, ElemSize(e));
  }

  lemma {:induction false} SmallMod(n: nat)
    requires n < U16_LIMIT
    ensures n % U16_LIMIT == n
  {
  }

  /** SetValue with the room it needs keeps the accounting exact. */
  lemma {:induction false} SetValueExact(p: Leaf, k: Bytes, v: Bytes)
    requires Exact(p) && Has(p.elems, k) && ElemSize(KV(k, v)) < U16_LIMIT
    requires |v| > |p.elems[Pos(p.elems, k)].value| ==> ElemSize(KV(k, v)) <= p.free
    ensures SetValue(p, k, v).Done? && Exact(SetValue(p, k, v).page)
    ensures SetValue(p, k, v).page.elems == Put(p.elems, k, v)
    ensures SetValue(p, k, v).page.free == p.free - if |v| > |p.elems[Pos(p.elems, k)].value| then ElemSize(KV(k, v)) else 0
  {
    var i, e := Pos(p.elems, k), KV(k, v);
    PutInPlace(p.elems, k, v);
    if |p.elems[i].value| >= |v| {
      var garbage := p.garbage + |p.elems[i].value| - |v|;
      ShrinkExact(p, i, e, garbage);
      SmallMod(garbage);
    } else {
      var garbage := p.garbage + ElemSize(p.elems[i]);
      GrowExact(p, i, e, garbage);
      SmallMod(garbage);
      SmallMod(ElemSize(e));
    }
  }

  /** So does a value set within the free region. */
  lemma {:induction false} SetValueRoomy(p: Leaf, k: Bytes, v: Bytes)
    requires Roomy(p) && Has(p.elems, k) && SetValue(p, k, v).Done?
    ensures Roomy(SetValue(p, k, v).page) && SetValue(p, k, v).page.elems == Put(p.elems, k, v)
  {
    var i, e := Pos(p.elems, k), KV(k, v);
    PutInPlace(p.elems, k, v);
    UsedUpdate(p.elems, i, e);
    if |p.elems[i].value| >= |v| {
      CoversUpdate(p.slots, p.elems, i, e, p.slots[i]);
      assert p.slots[i := p.slots[i]] == p.slots;
    } else {
      SmallMod(ElemSize(e));
      CoversUpdate(p.slots, p.elems, i, e, ElemSize(e));
    }
  }

  /** Whatever the garbage counter says: when an update passes its space check and lands. */
  lemma {:induction false} UpdateFitsIff(p: Leaf, k: Bytes, v: Bytes)
    requires Roomy(p) && Has(p.elems, k)
    ensures var was := p.elems[Pos(p.elems, k)].value;
      HasSpaceToUpdate(p, k, was, v) && SetValue(CheckedUpdate(p, k, was, v), k, v).Done? <==>
        UpdateFits(p, |was|, |v|, ElemSize(KV(k, v)))
  {
    CompactExact(p);
    var n := ElemSize(KV(k, v));
    if n < U16_LIMIT {
      SmallMod(n);
    }
  }

  /** On an exact page that is so if and only if the value is not longer, or the element fits the free bytes or the garbage. */
  lemma {:induction false} UpdateLandsIff(p: Leaf, k: Bytes, v: Bytes)
    requires Exact(p) && Has(p.elems, k) && ElemSize(KV(k, v)) < U16_LIMIT
    ensures var was, n := p.elems[Pos(p.elems, k)].value, ElemSize(KV(k, v));
      && (UpdateFits(p, |was|, |v|, n) <==> |v| <= |was| || n <= p.free || n <= p.garbage)
      && (HasSpaceToUpdate(p, k, was, v) <==> |v| <= |was| || n <= p.free || n <= p.garbage)
  {
    SmallMod(ElemSize(KV(k, v)));
  }

  /** A positive space check leaves an exact page with the same elements and at least the room asked for. */
  lemma {:induction false} CheckedExact(p: Leaf, n: nat)
    requires Exact(p) && HasSpace(p, n) && n < U16_LIMIT
    ensures Exact(Checked(p, n)) && Checked(p, n).elems == p.elems && Checked(p, n).next == p.next
    ensures Checked(p, n).free >= n
  {
    CompactExact(p);
  }

  /** An update after its space check keeps the accounting exact, if it stays inside the free region. */
  lemma {:induction false} UpdateExact(p: Leaf, k: Bytes, v: Bytes)
    requires Exact(p) && Has(p.elems, k)
    requires SetValue(CheckedUpdate(p, k, p.elems[Pos(p.elems, k)].value, v), k, v).Done?
    ensures Exact(SetValue(CheckedUpdate(p, k, p.elems[Pos(p.elems, k)].value, v), k, v).page)
  {
    var i := Pos(p.elems, k);
    var q := CheckedUpdate(p, k, p.elems[i].value, v);
    CompactExact(p);
    assert Exact(q) && q.elems == p.elems && ElemSize(p.elems[i]) <= p.slots[i];
    SetValueExact(q, k, v);
  }

  /** So does an insertion after its space check. */
  lemma {:induction false} AddExact(p: Leaf, k: Bytes, v: Bytes)
    requires Exact(p) && LeafInsert(Checked(p, ElemSize(KV(k, v))), k, v).Done?
    ensures Exact(LeafInsert(Checked(p, ElemSize(KV(k, v))), k, v).page)
  {
    CompactExact(p);
    InsertRoomy(Checked(p, ElemSize(KV(k, v))), k, v);
  }

  /** A delete leaves the free region alone. */
  lemma {:induction false} DeleteRoomy(p: Leaf, k: Bytes)
    requires Roomy(p) && Has(p.elems, k)
    ensures Roomy(LeafDelete(p, k).page) && LeafDelete(p, k).page.elems == Del(p.elems, k)
  {
    var i := Pos(p.elems, k);
    UsedUpdate(p.elems, i, p.elems[i]);
    CoversUpdate(p.slots, p.elems, i, p.elems[i], p.slots[i]);
  }

  /** A delete keeps the accounting exact if and only if the slot still records its element's size. */
  lemma {:induction false} DeleteExact(p: Leaf, k: Bytes)
    requires Exact(p) && Has(p.elems, k)
    ensures LeafDelete(p, k).page.elems == Del(p.elems, k) && LeafDelete(p, k).page.free == p.free
    ensures var i := Pos(p.elems, k);
            Exact(LeafDelete(p, k).page) <==> p.slots[i] == ElemSize(p.elems[i])
  {
    var i := Pos(p.elems, k);
    UsedUpdate(p.elems, i, p.elems[i]);
    CoversUpdate(p.slots, p.elems, i, p.elems[i], p.slots[i]);
    var q := LeafDelete(p, k).page;
    assert q.free + q.garbage + Used(q.elems) == CAPACITY <==> p.slots[i] == ElemSize(p.elems[i]);
  }
}
