/** One slab page: a five-word header, then objects of s words each, the free ones threaded on a
    list through their own first word. */
module SlabPage {
  import opened Words
  import opened Hardware

  /** Header words: next slab, owning cache, first free object, free count, capacity. */
  const NEXT: nat := 0
  const CACHE: nat := 1
  const FREE_LIST: nat := 2
  const FREE_COUNT: nat := 3
  const CAPACITY: nat := 4
  const HEADER: nat := 5

  /** How many objects fit: `(PAGE_SIZE - sizeof(slab_t)) / object_size`, in words. */
  function Capacity(s: nat): (n: nat)
    requires s > 0
    ensures n <= 1019
  {
    1019 / s
  }

  /** The page's i-th object starts at this word. */
  function ObjectAt(s: nat, i: nat): nat {
    5 + i * s
  }

  /** Word o is a whole number of objects past the header. */
  ghost predicate OnGrid(s: nat, o: nat)
    requires s > 0
  {
    o == 5 || (o >= 5 + s && OnGrid(s, o - s))
  }

  /** An object of s words starts at word o of a slab page. */
  ghost predicate IsObject(s: nat, o: nat) {
    s > 0 && 5 <= o && o + s <= 1024 && OnGrid(s, o)
  }

  /** The address of word o of frame f. */
  function Address(f: nat, o: nat): (a: Word)
    requires f < FRAME_COUNT && o < 1024
    ensures a / 0x1000 == f && a % 0x1000 / 4 == o && a % 4 == 0
    ensures o > 0 ==> a != 0
  {
    f * 0x1000 + 4 * o
  }

  /** The pointer that leads to entry i of the list: an object's address, or 0 past the end. */
  function Link(f: nat, list: seq<nat>, i: nat): Word
    requires f < FRAME_COUNT && forall k | 0 <= k < |list| :: list[k] < 1024
  {
    if i < |list| then Address(f, list[i]) else 0
  }

  /** Entry i of the free list holds the pointer to entry i + 1. */
  ghost predicate LinkedAt(page: Frame, f: nat, free: seq<nat>, i: nat)
    requires f < FRAME_COUNT && i < |free| && forall k | 0 <= k < |free| :: free[k] < 1024
  {
    page[free[i]] == Link(f, free, i + 1)
  }

  /** The page of frame f belongs to the cache and has exactly these free objects, in this order. */
  ghost predicate PageOk(page: Frame, f: nat, cache: Word, s: nat, free: seq<nat>)
  {
    && f < FRAME_COUNT && s > 0
    && (forall i | 0 <= i < |free| :: IsObject(s, free[i]))
    && Distinct(free)
    && page[CACHE] == cache
    && page[FREE_LIST] == Link(f, free, 0)
    && page[FREE_COUNT] == |free|
    && page[CAPACITY] == Capacity(s)
    && forall i | 0 <= i < |free| :: LinkedAt(page, f, free, i)
  }

  /** Two objects of one page do not overlap. */
  lemma ObjectsDisjoint(s: nat, o: nat, p: nat)
    requires IsObject(s, o) && IsObject(s, p) && o < p
    ensures o + s <= p
  {
    GridGap(s, o, p);
  }

  lemma {:induction false} GridGap(s: nat, o: nat, p: nat)
    requires s > 0 && 5 <= o < p && OnGrid(s, o) && OnGrid(s, p)
    ensures o + s <= p
  {
    if o > 5 {
      GridGap(s, o - s, p - s);
    }
  }

  lemma MulMonotone(s: nat, i: nat, j: nat)
    requires i <= j
    ensures i * s <= j * s
  {}

  lemma {:induction false} GridAt(s: nat, i: nat)
    requires s > 0
    ensures OnGrid(s, ObjectAt(s, i))
  {
    if i > 0 {
      GridAt(s, i - 1);
      assert ObjectAt(s, i) == ObjectAt(s, i - 1) + s;
      MulMonotone(s, 1, i);
    }
  }

  /** The objects are exactly those at index 0 .. capacity: the next one would not fit. */
  lemma ObjectIndex(s: nat, i: nat)
    requires s > 0
    ensures i < Capacity(s) <==> IsObject(s, ObjectAt(s, i))
  {
    GridAt(s, i);
    var c := Capacity(s);
    assert c * s <= 1019 < c * s + s;
    if i < c {
      MulMonotone(s, i + 1, c);
      assert (i + 1) * s == i * s + s;
    } else {
      MulMonotone(s, c, i);
    }
  }

  lemma {:induction false} GridIndex(s: nat, o: nat) returns (i: nat)
    requires s > 0 && 5 <= o && OnGrid(s, o)
    ensures o == ObjectAt(s, i)
  {
    if o == 5 {
      i := 0;
    } else {
      var j := GridIndex(s, o - s);
      i := j + 1;
    }
  }

  /** The first n objects of the page. */
  ghost function Objects(s: nat, n: nat): set<nat> {
    if n == 0 then {} else Objects(s, n - 1) + {ObjectAt(s, n - 1)}
  }

  lemma {:induction false} ObjectsCount(s: nat, n: nat)
    requires s > 0
    ensures |Objects(s, n)| == n
    ensures forall o | o in Objects(s, n) :: o < ObjectAt(s, n)
    ensures forall i | 0 <= i < n :: ObjectAt(s, i) in Objects(s, n)
  {
    if n > 0 {
      ObjectsCount(s, n - 1);
      assert n * s == (n - 1) * s + s;
    }
  }

  ghost function ToSet(list: seq<nat>): set<nat> {
    set o | o in list
  }

  lemma {:induction false} DistinctCount(list: seq<nat>)
    requires Distinct(list)
    ensures |ToSet(list)| == |list|
  {
    if list != [] {
      var rest := list[1..];
      DistinctCount(rest);
      assert ToSet(list) == ToSet(rest) + {list[0]};
      assert list[0] !in rest;
    }
  }

  lemma SubsetCount(a: set<nat>, b: set<nat>)
    requires a <= b
    ensures |a| <= |b| && (|a| == |b| ==> a == b) && |b - a| == |b| - |a|
  {
    assert b == a + (b - a);
  }

  /** The objects of the page that are not on its free list. */
  ghost function LiveObjects(s: nat, free: seq<nat>): set<nat>
    requires s > 0
  {
    Objects(s, Capacity(s)) - ToSet(free)
  }

  lemma {:induction false} ObjectsAreObjects(s: nat, n: nat, o: nat)
    requires s > 0 && n <= Capacity(s) && o in Objects(s, n)
    ensures IsObject(s, o)
  {
    if o == ObjectAt(s, n - 1) {
      ObjectIndex(s, n - 1);
    } else {
      ObjectsAreObjects(s, n - 1, o);
    }
  }

  /** Live plus free objects make up the capacity; all are free exactly when the counter reaches
      the capacity. */
  lemma LivePlusFree(page: Frame, f: nat, cache: Word, s: nat, free: seq<nat>)
    requires PageOk(page, f, cache, s, free)
    ensures |LiveObjects(s, free)| + |free| == Capacity(s)
    ensures |LiveObjects(s, free)| + page[FREE_COUNT] == page[CAPACITY]
    ensures forall o :: o in LiveObjects(s, free) <==> IsObject(s, o) && o !in free
    ensures |free| == Capacity(s) <==> LiveObjects(s, free) == {}
  {
    var all := Objects(s, Capacity(s));
    ObjectsCount(s, Capacity(s));
    DistinctCount(free);
    forall o | IsObject(s, o) ensures o in all {
      var i := GridIndex(s, o);
      ObjectIndex(s, i);
    }
    forall o | o in all ensures IsObject(s, o) {
      ObjectsAreObjects(s, Capacity(s), o);
    }
    SubsetCount(ToSet(free), all);
  }

  /** A live object leaves room on the free list. */
  lemma LiveLeavesRoom(page: Frame, f: nat, cache: Word, s: nat, free: seq<nat>, o: nat)
    requires PageOk(page, f, cache, s, free) && IsObject(s, o) && o !in free
    ensures |free| < Capacity(s)
  {
    LivePlusFree(page, f, cache, s, free);
    assert o in LiveObjects(s, free);
  }

  /** `slab_take` on the page's words: the head comes off the list. */
  function Taken(page: Frame): Frame
    requires page[FREE_COUNT] > 0
  {
    page[FREE_LIST := page[page[FREE_LIST] % 0x1000 / 4]][FREE_COUNT := page[FREE_COUNT] - 1]
  }

  lemma TakenOk(page: Frame, f: nat, cache: Word, s: nat, free: seq<nat>)
    requires PageOk(page, f, cache, s, free) && free != []
    ensures PageOk(Taken(page), f, cache, s, free[1..])
    ensures forall w | 0 <= w < 1024 && w != FREE_LIST && w != FREE_COUNT :: Taken(page)[w] == page[w]
  {
    var rest := free[1..];
    assert LinkedAt(page, f, free, 0);
    forall i | 0 <= i < |rest| ensures LinkedAt(Taken(page), f, rest, i) {
      assert rest[i] == free[i + 1] && LinkedAt(page, f, free, i + 1);
    }
  }

  /** `slab_free` on the page's words: the object goes on the front of the list. */
  function Put(page: Frame, f: nat, o: nat): Frame
    requires f < FRAME_COUNT && o < 1024 && page[FREE_COUNT] < 0xFFFF_FFFF
  {
    page[o := page[FREE_LIST]][FREE_LIST := Address(f, o)][FREE_COUNT := page[FREE_COUNT] + 1]
  }

  lemma PutLinks(page: Frame, f: nat, free: seq<nat>, o: nat)
    requires f < FRAME_COUNT && 5 <= o < 1024 && o !in free && page[FREE_COUNT] < 0xFFFF_FFFF
    requires forall i | 0 <= i < |free| :: 5 <= free[i] < 1024
    requires page[FREE_LIST] == Link(f, free, 0)
    requires forall i | 0 <= i < |free| :: LinkedAt(page, f, free, i)
    ensures forall i | 0 <= i < |[o] + free| :: LinkedAt(Put(page, f, o), f, [o] + free, i)
  {
    var list := [o] + free;
    forall i | 0 <= i < |list| ensures LinkedAt(Put(page, f, o), f, list, i) {
      assert i > 0 ==> list[i] == free[i - 1] && LinkedAt(page, f, free, i - 1);
      assert i + 1 < |list| ==> list[i + 1] == free[i];
    }
  }

  lemma PutOk(page: Frame, f: nat, cache: Word, s: nat, free: seq<nat>, o: nat)
    requires PageOk(page, f, cache, s, free) && IsObject(s, o) && o !in free
    ensures page[FREE_COUNT] < 0xFFFF_FFFF
    ensures PageOk(Put(page, f, o), f, cache, s, [o] + free)
    ensures forall w | 0 <= w < 1024 && w != FREE_LIST && w != FREE_COUNT && w != o ::
              Put(page, f, o)[w] == page[w]
  {
    LiveLeavesRoom(page, f, cache, s, free, o);
    assert page[FREE_COUNT] < 1024;
    PutLinks(page, f, free, o);
  }

  /** Taking an object and putting it back restores the page but for the object's first word. */
  lemma PutUndoesTake(page: Frame, f: nat, cache: Word, s: nat, free: seq<nat>)
    requires PageOk(page, f, cache, s, free) && free != []
    ensures Put(Taken(page), f, free[0]) == page
  {}

  /** The free list that creating a slab builds: the last object first. */
  function Built(s: nat, n: nat): (list: seq<nat>)
    ensures |list| == n
    ensures forall k | 0 <= k < n :: list[k] == ObjectAt(s, n - 1 - k)
  {
    if n == 0 then [] else [ObjectAt(s, n - 1)] + Built(s, n - 1)
  }

  lemma BuiltOk(s: nat, n: nat)
    requires s > 0 && n <= Capacity(s)
    ensures forall i | 0 <= i < n :: IsObject(s, Built(s, n)[i])
    ensures Distinct(Built(s, n))
  {
    forall i | 0 <= i < n ensures IsObject(s, Built(s, n)[i]) {
      ObjectIndex(s, n - 1 - i);
    }
    forall i, j | 0 <= i < j < n ensures Built(s, n)[i] != Built(s, n)[j] {
      MulMonotone(s, n - j, n - 1 - i);
      assert (n - j) * s == (n - 1 - j) * s + s;
    }
  }

  lemma BuiltHolds(s: nat, o: nat)
    requires IsObject(s, o)
    ensures o in Built(s, Capacity(s))
  {
    var i := GridIndex(s, o);
    ObjectIndex(s, i);
    assert Built(s, Capacity(s))[Capacity(s) - 1 - i] == o;
  }

  /** A store inside a live object leaves the page well-formed. */
  lemma StoreInObject(page: Frame, f: nat, cache: Word, s: nat, free: seq<nat>, o: nat, k: nat, v: Word)
    requires PageOk(page, f, cache, s, free) && IsObject(s, o) && o !in free && o <= k < o + s
    ensures PageOk(page[k := v], f, cache, s, free)
  {
    var page' := page[k := v];
    forall i | 0 <= i < |free| ensures LinkedAt(page', f, free, i) {
      assert LinkedAt(page, f, free, i) && IsObject(s, free[i]);
      if free[i] < o {
        ObjectsDisjoint(s, free[i], o);
      } else {
        ObjectsDisjoint(s, o, free[i]);
      }
    }
  }

  /** A page under construction: its first i objects are on the free list. */
  ghost predicate Chained(page: Frame, f: nat, s: nat, i: nat) {
    && f < FRAME_COUNT && s > 0 && i <= Capacity(s)
    && (forall k | 0 <= k < i :: IsObject(s, Built(s, i)[k]))
    && Distinct(Built(s, i))
    && page[FREE_LIST] == Link(f, Built(s, i), 0)
    && page[FREE_COUNT] == i
    && forall k | 0 <= k < i :: LinkedAt(page, f, Built(s, i), k)
  }

  lemma ChainedStep(page: Frame, f: nat, s: nat, i: nat)
    requires Chained(page, f, s, i) && i < Capacity(s)
    ensures 5 <= ObjectAt(s, i) < 1024 && page[FREE_COUNT] < 0xFFFF_FFFF
    ensures Chained(Put(page, f, ObjectAt(s, i)), f, s, i + 1)
    ensures Put(page, f, ObjectAt(s, i))[NEXT] == page[NEXT] && Put(page, f, ObjectAt(s, i))[CACHE] == page[CACHE]
  {
    var o := ObjectAt(s, i);
    ObjectIndex(s, i);
    BuiltOk(s, i + 1);
    assert Built(s, i + 1) == [o] + Built(s, i);
    assert o !in Built(s, i) by {
      assert Built(s, i + 1)[0] == o;
      assert forall k | 0 <= k < i :: Built(s, i)[k] == Built(s, i + 1)[k + 1];
    }
    PutLinks(page, f, Built(s, i), o);
  }

  lemma ChainedPage(page: Frame, f: nat, cache: Word, s: nat)
    requires s > 0 && Chained(page, f, s, Capacity(s)) && page[CACHE] == cache
    ensures PageOk(page[CAPACITY := Capacity(s)], f, cache, s, Built(s, Capacity(s)))
  {
    var free := Built(s, Capacity(s));
    var page' := page[CAPACITY := Capacity(s)];
    forall k | 0 <= k < |free| ensures LinkedAt(page', f, free, k) {
      assert LinkedAt(page, f, free, k) && IsObject(s, free[k]);
    }
  }
}
