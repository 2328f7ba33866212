/** The searches and the split index of the node codecs, as loops over a decoded element list. */
module NodeCodec {
  import opened Bytes
  import opened Assoc
  import opened Pages
  import opened Trees
  import opened TreeRoutes
  import opened PageStore

  /** FindValue: the value of the first element with this key; on ascending keys that is the lookup. */
  method FindValue(elems: seq<KV>, k: Bytes) returns (v: Option<Bytes>)
    ensures v.None? ==> forall i | 0 <= i < |elems| :: elems[i].key != k
    ensures v.Some? ==> exists i | 0 <= i < |elems| :: elems[i] == KV(k, v.value) && forall j | 0 <= j < i :: elems[j].key != k
    ensures Sorted(elems) ==> v == Lookup(elems, k)
  {
    OrderFacts();
    for i := 0 to |elems|
      invariant forall j | 0 <= j < i :: elems[j].key != k
    {
      if Compare(elems[i].key, k) == 0 {
        if Sorted(elems) {
          PosUnique(elems, k, i);
        }
        return Some(elems[i].value);
      }
    }
    return None;
  }

  /** FindNextChildNodePageId: the child routed to, and 0 on a page without separators. */
  method FindNextChild(seps: seq<Sep>, k: Bytes, ghost keys: seq<Bytes>, ghost kids: seq<Tree>) returns (child: PageId)
    requires Matches(seps, keys, kids) && SortedKeys(keys)
    ensures child == if keys == [] then 0 else kids[Route(keys, k)].pid
  {
    OrderFacts();
    child := 0;
    for i := 0 to |seps|
      invariant forall j | 0 <= j < i :: Lt(keys[j], k)
      invariant child == if i == 0 then 0 else kids[i].pid
    {
      var c := Compare(seps[i].key, k);
      if c == 0 {
        RouteUnique(keys, k, i + 1);
        return seps[i].right;
      } else if c == 1 {
        RouteUnique(keys, k, i);
        return seps[i].left;
      }
      child := seps[i].right;
    }
    RouteUnique(keys, k, |keys|);
  }

  /** getTotalDataRegionSize. */
  method TotalDataRegionSize(sizes: seq<nat>) returns (size: nat)
    ensures size == Sum16(sizes, |sizes|)
  {
    size := 0;
    for i := 0 to |sizes|
      invariant size == Sum16(sizes, i)
    {
      size := (size + sizes[i]) % U16_LIMIT;
    }
  }

  /** FindSplitNodeIndex. */
  method FindSplitNodeIndex(sizes: seq<nat>) returns (index: nat)
    ensures index == SplitIndex(sizes)
  {
    var total := TotalDataRegionSize(sizes);
    var left: nat := 0;
    index := 0;
    while index < |sizes| && left <= total / 2
      invariant index <= |sizes| && SplitFrom(sizes, left, index) == SplitIndex(sizes)
      decreases |sizes| - index
    {
      left := (left + sizes[index]) % U16_LIMIT;
      index := index + 1;
    }
  }
}
