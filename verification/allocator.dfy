/** The page-id allocator of the disk manager, as a value. */
module Allocator {
  import opened Pages

  /** DeallocatedPageIdList and MaxAllocatedPageId of the metadata page. */
  datatype Alloc = Alloc(freeList: seq<PageId>, maxId: PageId)

  /** allocatePage: reuse the first deallocated page, otherwise extend. */
  function NextId(a: Alloc): PageId {
    if a.freeList != [] then a.freeList[0] else a.maxId + 1
  }

  function Taken(a: Alloc): Alloc {
    if a.freeList != [] then a.(freeList := a.freeList[1..]) else a.(maxId := a.maxId + 1)
  }

  /** Page 0 is the metadata page; free and used ids are distinct, nonzero and at most the maximum. */
  ghost predicate Sound(a: Alloc, used: set<PageId>) {
    && (forall i | 0 <= i < |a.freeList| :: 0 < a.freeList[i] <= a.maxId && a.freeList[i] !in used)
    && (forall i, j | 0 <= i < j < |a.freeList| :: a.freeList[i] != a.freeList[j])
    && (forall p | p in used :: 0 < p <= a.maxId)
  }

  /** The next page is not in use and will not be handed out again. */
  ghost predicate Available(a: Alloc, used: set<PageId>) {
    NextId(a) !in used && NextId(a) !in Taken(a).freeList
  }

  /** The ids an allocator can still hand out, whatever their order. */
  datatype Vacancy = Vacancy(free: set<PageId>, maxId: PageId)

  function VacancyOf(a: Alloc): Vacancy {
    Vacancy((set p | p in a.freeList), a.maxId)
  }

  lemma {:induction false} TakenVacancy(a: Alloc)
    requires NextId(a) !in Taken(a).freeList
    ensures VacancyOf(Taken(a)) == if a.freeList == [] then Vacancy({}, NextId(a)) else Vacancy(VacancyOf(a).free - {NextId(a)}, a.maxId)
  {
    if a.freeList != [] {
      assert a.freeList == [a.freeList[0]] + a.freeList[1..];
    }
  }

  /** Soundness is a matter of the ids and not of their order. */
  lemma {:induction false} SoundVacancy(a: Alloc, b: Alloc, used: set<PageId>)
    requires Sound(a, used) && VacancyOf(b) == VacancyOf(a) && forall i, j | 0 <= i < j < |b.freeList| :: b.freeList[i] != b.freeList[j]
    ensures Sound(b, used)
  {
    forall i | 0 <= i < |b.freeList| ensures 0 < b.freeList[i] <= b.maxId && b.freeList[i] !in used {
      assert b.freeList[i] in VacancyOf(b).free;
    }
  }

  /** An allocated page is not in use and is not the metadata page. */
  lemma {:induction false} AllocateSound(a: Alloc, used: set<PageId>)
    requires Sound(a, used)
    ensures NextId(a) != 0 && Available(a, used)
    ensures Sound(Taken(a), used + {NextId(a)})
  {
    if a.freeList != [] {
      var b := Taken(a);
      assert forall i | 0 <= i < |b.freeList| :: b.freeList[i] == a.freeList[i + 1];
    }
  }
}
