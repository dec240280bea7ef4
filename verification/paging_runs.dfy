/** Over every run of maps, unmaps and other activity the page tables are a finite map. */
module PagingRuns {
  import opened Words
  import opened Hardware
  import opened Paging

  /** Physical memory and the frames in use. */
  datatype Tables = Tables(mem: Memory, used: set<nat>)

  /** `paging_map` of a page, `paging_unmap`, or anything else that keeps off the paging structures:
      stores, and frames taken and given back. */
  datatype Event = Map(page: nat, physical: Word, flags: Word) | Unmap(page: nat) | Other

  /** What a page was last mapped to, and whether the present flag was set. */
  datatype Mapping = Mapping(frame: nat, present: bool)

  /** The step is one that the event can make. Pages of the window and the directory's own page are
      named by no event. */
  ghost predicate Follows(s: Tables, s': Tables, e: Event, dir: nat)
    requires TablesOk(s.mem, dir, s.used)
  {
    match e
    case Map(page, physical, flags) =>
      && page < FRAME_COUNT && page != dir
      && MapStep(s.mem, s.used, s'.mem, s'.used, dir, page, MakeEntry(physical, flags))
    case Unmap(page) =>
      page < FRAME_COUNT && page != dir && UnmapStep(s.mem, s'.mem, dir, page) && s'.used == s.used
    case Other =>
      && TablesOk(s'.mem, dir, s'.used)
      && forall f | 0 <= f < FRAME_COUNT && IsTable(s.mem, dir, f) :: s'.mem[f] == s.mem[f]
  }

  /** The finite map after the event; a map that gets no table for its page does nothing. */
  ghost function Applied(m: map<nat, Mapping>, s: Tables, e: Event, dir: nat): map<nat, Mapping>
    requires dir < FRAME_COUNT
  {
    match e
    case Map(page, physical, flags) =>
      if page < FRAME_COUNT && CanMap(s.mem, dir, s.used, page)
      then m[page := Mapping(physical / 0x1000, flags % 2 == 1)]
      else m
    case Unmap(page) => m - {page}
    case Other => m
  }

  /** What the walk finds by the map. */
  function Found(m: map<nat, Mapping>, p: nat): Option<nat> {
    if p in m && m[p].present then Some(m[p].frame) else None
  }

  /** What `paging_get_physical` returns by the map. */
  function Reading(m: map<nat, Mapping>, p: nat): nat {
    if p in m && p < WINDOW then m[p].frame * 0x1000 else 0
  }

  /** Below the window the walk finds exactly what the map says, and `paging_get_physical` returns
      exactly what the map says for every page. */
  ghost predicate Refines(s: Tables, dir: nat, m: map<nat, Mapping>)
    requires dir < FRAME_COUNT
  {
    && (forall p | 0 <= p < WINDOW :: Walk(s.mem, dir, p) == Found(m, p))
    && (forall p | 0 <= p < FRAME_COUNT :: PhysicalOf(s.mem, dir, p) == Reading(m, p))
  }

  lemma StepRefines(s: Tables, s': Tables, e: Event, dir: nat, m: map<nat, Mapping>)
    requires TablesOk(s.mem, dir, s.used) && Follows(s, s', e, dir) && Refines(s, dir, m)
    ensures TablesOk(s'.mem, dir, s'.used) && Refines(s', dir, Applied(m, s, e, dir))
  {
    hide TablesOk, Walk, PhysicalOf, MapStep, UnmapStep, IsTable, MakeEntry, Translation;
    match e
    case Map(page, physical, flags) =>
      EntryParts(physical, flags);
      MapTranslates(s.mem, s.used, s'.mem, s'.used, dir, page, MakeEntry(physical, flags));
      MapPhysical(s.mem, s.used, s'.mem, s'.used, dir, page, physical, flags);
    case Unmap(page) =>
      UnmapTranslates(s.mem, s.used, s'.mem, dir, page);
      UnmapPhysical(s.mem, s.used, s'.mem, dir, page);
    case Other =>
      SameTables(s.mem, s'.mem, dir, s.used);
      SamePhysical(s.mem, s'.mem, dir, s.used);
  }

  /** The states are those of a run of the events. */
  ghost predicate IsRun(states: seq<Tables>, events: seq<Event>, dir: nat)
    decreases |events|
  {
    && |states| == |events| + 1 && TablesOk(states[0].mem, dir, states[0].used)
    && (events != [] ==> Follows(states[0], states[1], events[0], dir) && IsRun(states[1..], events[1..], dir))
  }

  ghost function AppliedAll(m: map<nat, Mapping>, states: seq<Tables>, events: seq<Event>, dir: nat)
    : map<nat, Mapping>
    requires dir < FRAME_COUNT && |states| == |events| + 1
    decreases |events|
  {
    if events == [] then m else AppliedAll(Applied(m, states[0], events[0], dir), states[1..], events[1..], dir)
  }

  /** Refinement: at the end of every run the hardware walk and `paging_get_physical` are the map. */
  lemma {:induction false} RunRefines(states: seq<Tables>, events: seq<Event>, dir: nat, m: map<nat, Mapping>)
    requires IsRun(states, events, dir) && Refines(states[0], dir, m)
    ensures Refines(states[|events|], dir, AppliedAll(m, states, events, dir))
    decreases |events|
  {
    if events != [] {
      hide Follows, Applied, Refines, TablesOk;
      StepRefines(states[0], states[1], events[0], dir, m);
      RunRefines(states[1..], events[1..], dir, Applied(m, states[0], events[0], dir));
    }
  }

  /** Boot's map: the first 4 MiB, each page present on its own frame. */
  function BootMap(): map<nat, Mapping> {
    map p: nat | 0 <= p < 1024 :: Mapping(p, true)
  }

  lemma BootRefines(s: Tables, dir: nat, bootTable: nat)
    requires TablesOk(s.mem, dir, s.used) && BootMapped(s.mem, dir, bootTable)
    ensures Refines(s, dir, BootMap())
  {
    forall p | 0 <= p < FRAME_COUNT ensures PhysicalOf(s.mem, dir, p) == Reading(BootMap(), p) {
      if p < 1024 {
        PhysicalIsTranslation(s.mem, dir, p);
      }
    }
  }

  /** From boot on, whatever happens, a page below the window reads the address it was last mapped to
      and not unmapped since, and every other page reads 0. */
  lemma PhysicalReadsMap(states: seq<Tables>, events: seq<Event>, dir: nat, bootTable: nat, page: nat)
    requires IsRun(states, events, dir) && BootMapped(states[0].mem, dir, bootTable) && page < FRAME_COUNT
    ensures var m := AppliedAll(BootMap(), states, events, dir);
            PhysicalOf(states[|events|].mem, dir, page) ==
            if page in m && page < WINDOW then m[page].frame * 0x1000 else 0
  {
    hide TablesOk;
    BootRefines(states[0], dir, bootTable);
    RunRefines(states, events, dir, BootMap());
  }

  /** A page just unmapped reads 0 and does not translate. */
  lemma UnmappedReadsZero(s: Tables, s': Tables, dir: nat, page: nat)
    requires TablesOk(s.mem, dir, s.used) && Follows(s, s', Unmap(page), dir)
    ensures PhysicalOf(s'.mem, dir, page) == 0 && (page < WINDOW ==> Walk(s'.mem, dir, page) == None)
  {
    UnmapTranslates(s.mem, s.used, s'.mem, dir, page);
    UnmapPhysical(s.mem, s.used, s'.mem, dir, page);
  }
}
