/** The LRU replacer, and what its order means. */
module LruReplacer {
  import opened Bytes
  import opened PoolProtocol
  import opened PoolSteps

  class LRUReplacer {
    /** From the front of the list, the most recently inserted frame, to its back. */
    var order: seq<FrameId>
    var frameMap: set<FrameId>

    /** The map knows exactly the frames of the list, each once. */
    ghost predicate Valid()
      reads this
    {
      && (forall i, j | 0 <= i < j < |order| :: order[i] != order[j])
      && (forall f :: f in frameMap <==> f in order)
    }

    constructor ()
      ensures Valid() && order == []
    {
      order, frameMap := [], {};
    }

    /** victim: the frame at the back; None is a panic on an empty list. */
    method Victim() returns (f: Option<FrameId>)
      requires Valid()
      modifies this
      ensures Valid() && (f.None? <==> old(order) == [])
      ensures f.Some? ==> old(order) == order + [f.value]
      ensures f.None? ==> order == []
    {
      if order == [] {
        return None;
      }
      var n := |order| - 1;
      f := Some(order[n]);
      frameMap := frameMap - {order[n]};
      order := order[..n];
    }

    /** insert: the frame becomes the most recent one. The list stays duplicate-free if and only if the frame was not listed. */
    method Insert(f: FrameId)
      requires Valid()
      modifies this
      ensures order == [f] + old(order) && (Valid() <==> f !in old(order))
    {
      ghost var was := order;
      order := [f] + order;
      frameMap := frameMap + {f};
      if f in was {
        var i :| 0 <= i < |was| && was[i] == f;
        assert order[0] == order[i + 1];
      }
    }

    /** remove: not ok is a panic on a frame that is not listed. */
    method Remove(f: FrameId) returns (ok: bool)
      requires Valid()
      modifies this
      ensures Valid() && ok == (f in old(order)) && order == Without(old(order), f)
      ensures forall g :: g in order <==> g in old(order) && g != f
    {
      WithoutExact(order, f);
      if f !in frameMap {
        WithoutAbsent(order, f);
        return false;
      }
      frameMap := frameMap - {f};
      order := Without(order, f);
      return true;
    }
  }

  lemma {:induction false} WithoutAbsent(s: seq<FrameId>, f: FrameId)
    requires f !in s
    ensures Without(s, f) == s
  {
    if s != [] {
      WithoutAbsent(s[1..], f);
    }
  }

  // ------------------------------------------------------------------ recency

  datatype LruOp = Inserted(f: FrameId) | Removed(f: FrameId) | Evicted

  function Order(ops: seq<LruOp>, n: nat): seq<FrameId>
    requires n <= |ops|
  {
    if n == 0 then []
    else
      var was := Order(ops, n - 1);
      match ops[n - 1]
      case Inserted(f) => [f] + was
      case Removed(f) => Without(was, f)
      case Evicted => if was == [] then [] else was[..|was| - 1]
  }

  /** When the frame was last inserted among the first n operations; 0 for never. */
  function LastInsert(ops: seq<LruOp>, n: nat, f: FrameId): (k: nat)
    requires n <= |ops|
    ensures k <= n
  {
    if n == 0 then 0 else if ops[n - 1] == Inserted(f) then n else LastInsert(ops, n - 1, f)
  }

  /** Frames are inserted only while they are not listed, as the pin counts guarantee. */
  ghost predicate Proper(ops: seq<LruOp>) {
    forall i | 0 <= i < |ops| && ops[i].Inserted? :: ops[i].f !in Order(ops, i)
  }

  ghost predicate ByLastInsert(ops: seq<LruOp>, n: nat, s: seq<FrameId>)
    requires n <= |ops|
  {
    && (forall i, j | 0 <= i < j < |s| :: s[i] != s[j])
    && (forall i, j | 0 <= i < j < |s| :: LastInsert(ops, n, s[i]) > LastInsert(ops, n, s[j]))
  }

  lemma {:induction false} WithoutRecency(ops: seq<LruOp>, n: nat, s: seq<FrameId>, f: FrameId)
    requires n <= |ops| && ByLastInsert(ops, n, s)
    ensures ByLastInsert(ops, n, Without(s, f))
  {
    if s != [] {
      var rest := s[1..];
      assert forall i | 0 <= i < |rest| :: rest[i] == s[i + 1];
      if s[0] != f {
        WithoutRecency(ops, n, rest, f);
        WithoutExact(rest, f);
        var w', w := Without(rest, f), [s[0]] + Without(rest, f);
        forall i, j | 0 <= i < j < |w| ensures w[i] != w[j] && LastInsert(ops, n, w[i]) > LastInsert(ops, n, w[j]) {
          assert w[j] == w'[j - 1] && w'[j - 1] in w' && w'[j - 1] in rest && (i > 0 ==> w[i] == w'[i - 1]);
        }
      }
    }
  }

  /** The list is ordered by the last insertion, so the victim is the frame that was unpinned least recently. */
  lemma {:induction false} OrderIsRecency(ops: seq<LruOp>, n: nat)
    requires n <= |ops| && Proper(ops)
    ensures ByLastInsert(ops, n, Order(ops, n))
  {
    if n > 0 {
      OrderIsRecency(ops, n - 1);
      var was := Order(ops, n - 1);
      match ops[n - 1]
      case Inserted(f) =>
        var s := [f] + was;
        forall i, j | 0 <= i < j < |s| ensures s[i] != s[j] && LastInsert(ops, n, s[i]) > LastInsert(ops, n, s[j]) {
          assert s[j] == was[j - 1] && was[j - 1] in was && (i > 0 ==> s[i] == was[i - 1]);
        }
      case Removed(f) =>
        WithoutRecency(ops, n - 1, was, f);
        assert forall g :: LastInsert(ops, n, g) == LastInsert(ops, n - 1, g);
      case Evicted =>
        assert forall g :: LastInsert(ops, n, g) == LastInsert(ops, n - 1, g);
    }
  }
}
