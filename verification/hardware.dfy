/** Physical memory, the two-level page walk and the translation cache
    (Intel SDM Vol. 3A, sections 4.3 and 4.10). */
module Hardware {
  import opened Words

  /** The 1024 words of one frame. */
  type Frame = f: seq<Word> | |f| == 1024 witness seq(1024, _ => 0)

  /** All of physical memory. */
  type Memory = m: seq<Frame> | |m| == 0x10_0000 witness seq<Frame>(0x10_0000, _ => Blank())

  /** A cleared frame. */
  function Blank(): (f: Frame)
    ensures forall i | 0 <= i < 1024 :: f[i] == 0
  {
    seq(1024, _ => 0)
  }

  /** Bit 0 of a directory or table entry. */
  predicate Present(entry: Word) {
    entry % 2 == 1
  }

  /** Bits 31-12 of an entry, as a frame number. */
  function Target(entry: Word): (f: nat)
    ensures f < FRAME_COUNT
  {
    entry / 0x1000
  }

  /** What the hardware walk finds through directory slot pdi and table slot pti. */
  function Lookup(mem: Memory, cr3: nat, pdi: nat, pti: nat): (r: Option<nat>)
    requires cr3 < FRAME_COUNT && pdi < 1024 && pti < 1024
    ensures r.Some? ==> r.value < FRAME_COUNT
  {
    var pde := mem[cr3][pdi];
    if !Present(pde) then None
    else
      var pte := mem[Target(pde)][pti];
      if Present(pte) then Some(Target(pte)) else None
  }

  /** The translation of a virtual page: bits 31-22 choose the directory slot, bits 21-12 the
      table slot. */
  function Walk(mem: Memory, cr3: nat, page: nat): (r: Option<nat>)
    requires cr3 < FRAME_COUNT && page < FRAME_COUNT
    ensures r.Some? ==> r.value < FRAME_COUNT
  {
    Lookup(mem, cr3, page / 1024, page % 1024)
  }

  /** No cached translation disagrees with the page-table walk. */
  ghost predicate Coherent(mem: Memory, cr3: nat, tlb: map<nat, nat>)
    requires cr3 < FRAME_COUNT
  {
    forall p | p in tlb :: p < FRAME_COUNT && Walk(mem, cr3, p) == Some(tlb[p])
  }

  function SetWord(mem: Memory, f: nat, i: nat, w: Word): Memory
    requires f < FRAME_COUNT && i < 1024
  {
    mem[f := mem[f][i := w]]
  }

  class Processor {
    var mem: Memory
    var cr3: nat
    /** Translations the processor has cached: virtual page to frame. */
    var tlb: map<nat, nat>

    ghost predicate Ok()
      reads this
    {
      cr3 < FRAME_COUNT && forall p | p in tlb :: p < FRAME_COUNT && tlb[p] < FRAME_COUNT
    }

    /** Memory contents are arbitrary at power-up. */
    constructor (contents: Memory)
      ensures mem == contents && tlb == map[] && cr3 == 0
    {
      mem, tlb, cr3 := contents, map[], 0;
    }

    /** The frame an access goes to: the cached one, or else what the walk finds. */
    function Resolve(page: nat): (r: Option<nat>)
      requires Ok() && page < FRAME_COUNT
      reads this
      ensures r.Some? ==> r.value < FRAME_COUNT
    {
      if page in tlb then Some(tlb[page]) else Walk(mem, cr3, page)
    }

    /** `mov cr3`: a new directory and an empty cache. */
    method LoadCr3(frame: nat)
      modifies this`cr3, this`tlb
      ensures cr3 == frame && tlb == map[]
    {
      cr3, tlb := frame, map[];
    }

    method Load(va: Word) returns (w: Word)
      requires Ok() && va % 4 == 0 && Resolve(va / 0x1000).Some?
      modifies this`tlb
      ensures w == mem[old(Resolve(va / 0x1000)).value][va % 0x1000 / 4]
      ensures tlb == old(tlb)[va / 0x1000 := old(Resolve(va / 0x1000)).value]
    {
      var f := Resolve(va / 0x1000).value;
      tlb := tlb[va / 0x1000 := f];
      w := mem[f][va % 0x1000 / 4];
    }

    method Store(va: Word, w: Word)
      requires Ok() && va % 4 == 0 && Resolve(va / 0x1000).Some?
      modifies this`tlb, this`mem
      ensures mem == SetWord(old(mem), old(Resolve(va / 0x1000)).value, va % 0x1000 / 4, w)
      ensures tlb == old(tlb)[va / 0x1000 := old(Resolve(va / 0x1000)).value]
    {
      var f := Resolve(va / 0x1000).value;
      tlb := tlb[va / 0x1000 := f];
      mem := SetWord(mem, f, va % 0x1000 / 4, w);
    }

    /** A store made before paging is on goes straight to memory. */
    method StorePhysical(f: nat, i: nat, w: Word)
      requires f < FRAME_COUNT && i < 1024
      modifies this`mem
      ensures mem == SetWord(old(mem), f, i, w)
    {
      mem := SetWord(mem, f, i, w);
    }

    /** `invlpg` */
    method Invlpg(va: Word)
      modifies this`tlb
      ensures tlb == old(tlb) - {va / 0x1000}
    {
      tlb := tlb - {va / 0x1000};
    }
  }
}
