/** Starting the memory stack: frames, then paging, then the heap. */
module Startup {
  import opened Words
  import opened Hardware
  import opened Multiboot
  import opened Pmm
  import opened Paging
  import opened World
  import opened Transitions
  import opened KernelMemory

  /** The page of frame f lies in the kernel image. */
  predicate InImage(f: nat, kernelStart: Word, kernelEnd: Word) {
    kernelStart <= f * 0x1000 && (f + 1) * 0x1000 <= kernelEnd
  }

  /** What the frame allocator has marked used by then: the frames of the image, the lowest frame, and
      what the memory map does not offer. */
  lemma ReservedAtBoot(used: set<nat>, entries: seq<Region>, kernelStart: Word, kernelEnd: Word, f: nat)
    requires kernelStart < kernelEnd && BootExact(used, entries, kernelStart, kernelEnd) && f < FRAME_COUNT
    requires f == 0 || InImage(f, kernelStart, kernelEnd) || !Offered(entries, f)
    ensures f in used
  {}

  /** `pmm_initialize`, `paging_initialize`, `heap_initialize`: on any machine whose memory map offers no
      frame from 3 GiB up, for a kernel image within the first 4 MiB that holds the page directory and
      the boot table, the memory stack comes up valid and empty. */
  method Start(contents: Memory, info: seq<Byte>, kernelStart: Word, kernelEnd: Word, dir: nat, bootTable: nat,
               caches: seq<Word>)
    returns (kernel: Kernel)
    requires InfoOk(info) && 0 < kernelStart < kernelEnd <= 0x40_0000
    requires FoundTag(info, TAG_MMAP).Some? ==> MapOk(info, FoundTag(info, TAG_MMAP).value)
    requires forall f | 0xC_0000 <= f < FRAME_COUNT :: !Offered(MemoryMap(info, FoundTag(info, TAG_MMAP)), f)
    requires InImage(dir, kernelStart, kernelEnd) && InImage(bootTable, kernelStart, kernelEnd) && dir != bootTable
    requires |caches| == CACHES && Distinct(caches)
    ensures fresh(kernel) && kernel.Valid() && kernel.paging.dir == dir && kernel.caches == caches
    ensures BootExact(kernel.paging.pmm.used, MemoryMap(info, FoundTag(info, TAG_MMAP)), kernelStart, kernelEnd)
    ensures forall d | Describes(d, info) && EntriesRight(d.entries) ::
              BootFrees(kernel.paging.pmm.used, d.entries, kernelStart, kernelEnd)
    ensures BootMapped(kernel.paging.cpu.mem, dir, bootTable)
    ensures forall f | 0 <= f < FRAME_COUNT && f != dir && f != bootTable :: kernel.paging.cpu.mem[f] == contents[f]
    ensures Orphans(kernel.Snapshot()) == {} && forall x :: !LiveBlock(kernel.Snapshot(), x)
    ensures kernel.view.boot == kernel.paging.pmm.used - {bootTable} && kernel.nextThreadId == 1
  {
    ghost var entries := MemoryMap(info, FoundTag(info, TAG_MMAP));
    var cpu := new Processor(contents);
    var pmm := new FrameAllocator();
    pmm.Initialize(info, kernelStart, kernelEnd);
    forall f | f == 0 || f == dir || f == bootTable || 0xC_0000 <= f < FRAME_COUNT ensures f in pmm.used {
      ReservedAtBoot(pmm.used, entries, kernelStart, kernelEnd, f);
    }
    var paging := new PagingUnit.Initialize(cpu, pmm, dir, bootTable);
    kernel := new Kernel.Initialize(paging, caches, bootTable);
  }
}
