/**
 Association lists in ascending key order: the specification of a leaf page, of a subtree and of the whole
 tree. A list stands for a finite map; Put, Del and Lookup are the map operations.
 */
module Assoc {
  import opened Bytes

  datatype KV = KV(key: Bytes, value: Bytes)

  ghost predicate Sorted(s: seq<KV>) {
    forall i, j | 0 <= i < j < |s| :: Lt(s[i].key, s[j].key)
  }

  /** lo <= k < hi, an absent bound being no bound. */
  ghost predicate InRange(k: Bytes, lo: Option<Bytes>, hi: Option<Bytes>) {
    && (lo.Some? ==> !Lt(k, lo.value))
    && (hi.Some? ==> Lt(k, hi.value))
  }

  ghost predicate Within(s: seq<KV>, lo: Option<Bytes>, hi: Option<Bytes>) {
    forall i | 0 <= i < |s| :: InRange(s[i].key, lo, hi)
  }

  /** The number of leading keys below k. */
  function Pos(s: seq<KV>, k: Bytes): (p: nat)
    ensures p <= |s|
    ensures forall i | 0 <= i < p :: Lt(s[i].key, k)
    ensures p < |s| ==> !Lt(s[p].key, k)
  {
    PosFrom(s, k, 0)
  }

  function PosFrom(s: seq<KV>, k: Bytes, i: nat): (p: nat)
    requires i <= |s|
    ensures i <= p <= |s|
    ensures forall j | i <= j < p :: Lt(s[j].key, k)
    ensures p < |s| ==> !Lt(s[p].key, k)
    decreases |s| - i
  {
    if i == |s| || !Lt(s[i].key, k) then i else PosFrom(s, k, i + 1)
  }

  /** The position is determined by its two sides. */
  lemma PosUnique(s: seq<KV>, k: Bytes, p: nat)
    requires p <= |s|
    requires forall i | 0 <= i < p :: Lt(s[i].key, k)
    requires p < |s| ==> !Lt(s[p].key, k)
    ensures Pos(s, k) == p
  {
  }

  predicate Has(s: seq<KV>, k: Bytes) {
    var p := Pos(s, k);
    p < |s| && s[p].key == k
  }

  function Lookup(s: seq<KV>, k: Bytes): Option<Bytes> {
    if Has(s, k) then Some(s[Pos(s, k)].value) else None
  }

  function Put(s: seq<KV>, k: Bytes, v: Bytes): seq<KV> {
    var p := Pos(s, k);
    if Has(s, k) then s[p := KV(k, v)] else s[..p] + [KV(k, v)] + s[p..]
  }

  function Del(s: seq<KV>, k: Bytes): seq<KV> {
    var p := Pos(s, k);
    if Has(s, k) then s[..p] + s[p + 1..] else s
  }

  // ------------------------------------------------------------ finite maps

  ghost function ToMap(s: seq<KV>): map<Bytes, Bytes> {
    if s == [] then map[] else ToMap(s[..|s| - 1])[s[|s| - 1].key := s[|s| - 1].value]
  }

  lemma {:induction false} ToMapAt(s: seq<KV>)
    requires Sorted(s)
    ensures forall i | 0 <= i < |s| :: s[i].key in ToMap(s) && ToMap(s)[s[i].key] == s[i].value
    ensures forall k | k in ToMap(s) :: exists i :: 0 <= i < |s| && s[i].key == k
  {
    if s != [] {
      ToMapAt(s[..|s| - 1]);
      OrderFacts();
    }
  }

  lemma {:induction false} ToMapKey(s: seq<KV>, k: Bytes)
    requires Sorted(s)
    ensures Lookup(s, k) == if k in ToMap(s) then Some(ToMap(s)[k]) else None
  {
    ToMapAt(s);
    OrderFacts();
    if k in ToMap(s) {
      var i :| 0 <= i < |s| && s[i].key == k;
      PosUnique(s, k, i);
    }
  }

  lemma {:induction false} PutElements(s: seq<KV>, k: Bytes, v: Bytes)
    ensures var p, t := Pos(s, k), Put(s, k, v);
      && |t| == |s| + (if Has(s, k) then 0 else 1) && p < |t| && t[p] == KV(k, v)
      && (forall i | 0 <= i < p :: t[i] == s[i])
      && (forall i | p < i < |t| :: t[i] == if Has(s, k) then s[i] else s[i - 1])
  {
  }

  lemma {:induction false} PutSorted(s: seq<KV>, k: Bytes, v: Bytes)
    requires Sorted(s)
    ensures Sorted(Put(s, k, v))
  {
    OrderFacts();
    PutElements(s, k, v);
    var p, t := Pos(s, k), Put(s, k, v);
    forall i, j | 0 <= i < j < |t| ensures Lt(t[i].key, t[j].key) {
      assert p < |s| && !Has(s, k) ==> Lt(k, s[p].key);
    }
  }

  lemma {:induction false} DelElements(s: seq<KV>, k: Bytes)
    requires Has(s, k)
    ensures var p, t := Pos(s, k), Del(s, k);
      && |t| == |s| - 1
      && (forall i | 0 <= i < p :: t[i] == s[i])
      && (forall i | p <= i < |t| :: t[i] == s[i + 1])
  {
  }

  lemma {:induction false} DelSorted(s: seq<KV>, k: Bytes)
    requires Sorted(s)
    ensures Sorted(Del(s, k))
  {
    OrderFacts();
  }

  /** Put is the map update. */
  lemma {:induction false} PutIsUpdate(s: seq<KV>, k: Bytes, v: Bytes)
    requires Sorted(s)
    ensures Sorted(Put(s, k, v))
    ensures ToMap(Put(s, k, v)) == ToMap(s)[k := v]
  {
    PutSorted(s, k, v);
    forall x ensures Lookup(Put(s, k, v), x) == if x == k then Some(v) else Lookup(s, x) {
      LookupPut(s, k, v, x);
    }
    SameLookups(Put(s, k, v), ToMap(s)[k := v]) by {
      forall x ensures Lookup(Put(s, k, v), x) == if x in ToMap(s)[k := v] then Some(ToMap(s)[k := v][x]) else None {
        ToMapKey(s, x);
      }
    }
  }

  /** Del is the map removal. */
  lemma {:induction false} DelIsRemoval(s: seq<KV>, k: Bytes)
    requires Sorted(s)
    ensures Sorted(Del(s, k))
    ensures ToMap(Del(s, k)) == ToMap(s) - {k}
  {
    DelSorted(s, k);
    var m := ToMap(s) - {k};
    forall x ensures Lookup(Del(s, k), x) == if x in m then Some(m[x]) else None {
      LookupDel(s, k, x);
      ToMapKey(s, x);
    }
    SameLookups(Del(s, k), m);
  }

  lemma {:induction false} SameLookups(s: seq<KV>, m: map<Bytes, Bytes>)
    requires Sorted(s)
    requires forall x :: Lookup(s, x) == if x in m then Some(m[x]) else None
    ensures ToMap(s) == m
  {
    forall x ensures x in ToMap(s) <==> x in m
             ensures x in m ==> ToMap(s)[x] == m[x] {
      ToMapKey(s, x);
    }
  }

  lemma {:induction false} LookupPut(s: seq<KV>, k: Bytes, v: Bytes, x: Bytes)
    requires Sorted(s)
    ensures Lookup(Put(s, k, v), x) == if x == k then Some(v) else Lookup(s, x)
  {
    OrderFacts();
    PutElements(s, k, v);
    var p, q := Pos(s, k), Pos(s, x);
    if x == k {
      PosUnique(Put(s, k, v), x, p);
    } else if Has(s, k) || Lt(x, k) {
      PosUnique(Put(s, k, v), x, q);
    } else {
      assert q >= p;
      PosUnique(Put(s, k, v), x, q + 1);
    }
  }

  lemma {:induction false} LookupDel(s: seq<KV>, k: Bytes, x: Bytes)
    requires Sorted(s)
    ensures Lookup(Del(s, k), x) == if x == k then None else Lookup(s, x)
  {
    if Has(s, k) {
      OrderFacts();
      DelElements(s, k);
      var p, q := Pos(s, k), Pos(s, x);
      if Lt(k, x) {
        assert q > p;
        PosUnique(Del(s, k), x, q - 1);
      } else {
        PosUnique(Del(s, k), x, q);
      }
    }
  }

  // ---------------------------------------------------------- concatenation

  /** The context of a key: every key to the left is below it, every key to the right above it. */
  ghost predicate Around(a: seq<KV>, k: Bytes, c: seq<KV>) {
    && (forall i | 0 <= i < |a| :: Lt(a[i].key, k))
    && (forall i | 0 <= i < |c| :: Lt(k, c[i].key))
  }

  lemma {:induction false} PosInContext(a: seq<KV>, b: seq<KV>, c: seq<KV>, k: Bytes)
    requires Around(a, k, c)
    ensures Pos(a + b + c, k) == |a| + Pos(b, k)
    ensures Has(a + b + c, k) <==> Has(b, k)
  {
    OrderFacts();
    PosUnique(a + b + c, k, |a| + Pos(b, k));
  }

  lemma {:induction false} MiddleUpdate(a: seq<KV>, b: seq<KV>, c: seq<KV>, p: nat, e: KV)
    requires p < |b|
    ensures (a + b + c)[|a| + p := e] == a + b[p := e] + c
  {
  }

  lemma {:induction false} MiddleInsert(a: seq<KV>, b: seq<KV>, c: seq<KV>, p: nat, e: KV)
    requires p <= |b|
    ensures (a + b + c)[..|a| + p] + [e] + (a + b + c)[|a| + p..] == a + (b[..p] + [e] + b[p..]) + c
  {
    assert (a + b + c)[..|a| + p] == a + b[..p];
    assert (a + b + c)[|a| + p..] == b[p..] + c;
  }

  /** Operating on the middle of a list operates on the list. */
  lemma {:induction false} PutInContext(a: seq<KV>, b: seq<KV>, c: seq<KV>, k: Bytes, v: Bytes)
    requires Around(a, k, c)
    ensures Put(a + b + c, k, v) == a + Put(b, k, v) + c
  {
    PosInContext(a, b, c, k);
    if Has(b, k) {
      MiddleUpdate(a, b, c, Pos(b, k), KV(k, v));
    } else {
      MiddleInsert(a, b, c, Pos(b, k), KV(k, v));
    }
  }

  lemma {:induction false} DelInContext(a: seq<KV>, b: seq<KV>, c: seq<KV>, k: Bytes)
    requires Around(a, k, c)
    ensures Del(a + b + c, k) == a + Del(b, k) + c
  {
    PosInContext(a, b, c, k);
    var p := Pos(b, k);
    if Has(b, k) {
      assert (a + b + c)[..|a| + p] == a + b[..p];
      assert (a + b + c)[|a| + p + 1..] == b[p + 1..] + c;
    }
  }

  lemma {:induction false} LookupInContext(a: seq<KV>, b: seq<KV>, c: seq<KV>, k: Bytes)
    requires Around(a, k, c)
    ensures Lookup(a + b + c, k) == Lookup(b, k)
  {
    PosInContext(a, b, c, k);
  }
}
