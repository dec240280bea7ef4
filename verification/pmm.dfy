/** The physical frame allocator: one bit per 4 KiB frame and a roving word hint. */
module Pmm {
  import opened Words
  import opened Bits
  import opened Multiboot

  /** The bit of frame f in the bitmap. */
  predicate IsUsed(bm: seq<Word>, f: nat)
    requires f < 32 * |bm|
  {
    Bit(bm[f / 32], f % 32)
  }

  /** Every word below the hint is full. */
  ghost predicate FullBelow(bm: seq<Word>, hint: nat)
    requires hint <= |bm|
  {
    forall i | 0 <= i < hint :: bm[i] == FULL
  }

  /** The first word in [lo, hi) that is not full, or hi. */
  function ScanWords(bm: seq<Word>, lo: nat, hi: nat): (k: nat)
    requires lo <= hi <= |bm|
    ensures lo <= k <= hi
    ensures forall i :: lo <= i < k ==> bm[i] == FULL
    ensures k < hi ==> bm[k] != FULL
    decreases hi - lo
  {
    if lo == hi || bm[lo] != FULL then lo else ScanWords(bm, lo + 1, hi)
  }

  /** What the scan that starts at the hint and wraps around returns. */
  function HintedScan(bm: seq<Word>, hint: nat): Word
    requires hint <= |bm| == BITMAP_SIZE
  {
    var k := ScanWords(bm, hint, |bm|);
    if k < |bm| then k * 32 + LowestZero(bm[k])
    else
      var j := ScanWords(bm, 0, hint);
      if j < hint then j * 32 + LowestZero(bm[j]) else NO_FRAME
  }

  /** The reference: r is the lowest-numbered free frame, or NO_FRAME when there is none. */
  ghost predicate IsFirstFit(bm: seq<Word>, r: Word)
  {
    if r == NO_FRAME then
      forall f | 0 <= f < 32 * |bm| :: IsUsed(bm, f)
    else
      r < 32 * |bm| && !IsUsed(bm, r) && forall f | 0 <= f < r :: IsUsed(bm, f)
  }

  lemma FullWordFrames(bm: seq<Word>, f: nat)
    requires f < 32 * |bm| && bm[f / 32] == FULL
    ensures IsUsed(bm, f)
  {
    FullHasBit(f % 32);
  }

  lemma FoundIsFree(bm: seq<Word>, k: nat)
    requires k < |bm| && bm[k] != FULL
    ensures !IsUsed(bm, k * 32 + LowestZero(bm[k]))
    ensures forall f | 32 * k <= f < k * 32 + LowestZero(bm[k]) :: IsUsed(bm, f)
  {
    var b := LowestZero(bm[k]);
    assert (k * 32 + b) / 32 == k && (k * 32 + b) % 32 == b;
    forall f | 32 * k <= f < k * 32 + b ensures IsUsed(bm, f) {
      assert f / 32 == k && f % 32 == f - 32 * k;
    }
  }

  lemma WordsBelowFull(bm: seq<Word>, k: nat)
    requires k <= |bm| && FullBelow(bm, k)
    ensures forall f | 0 <= f < 32 * k :: IsUsed(bm, f)
  {
    forall f | 0 <= f < 32 * k ensures IsUsed(bm, f) {
      FullWordFrames(bm, f);
    }
  }

  /** The hinted scan agrees with first-fit for exactly these hints: every word below the hint
      is full, or every word from the hint on is. */
  lemma HintedScanExact(bm: seq<Word>, hint: nat)
    requires hint <= |bm| == BITMAP_SIZE
    ensures IsFirstFit(bm, HintedScan(bm, hint)) <==>
            FullBelow(bm, hint) || forall i | hint <= i < |bm| :: bm[i] == FULL
  {
    var k := ScanWords(bm, hint, |bm|);
    if k < |bm| {
      FoundIsFree(bm, k);
      if FullBelow(bm, hint) {
        assert FullBelow(bm, k);
        WordsBelowFull(bm, k);
      } else {
        var i :| 0 <= i < hint && bm[i] != FULL;
        FoundIsFree(bm, i);
      }
    } else {
      var j := ScanWords(bm, 0, hint);
      WordsBelowFull(bm, j);
      if j < hint {
        FoundIsFree(bm, j);
      } else {
        WordsBelowFull(bm, |bm|);
      }
    }
  }

  /** With every word below the hint full, the wrap-around loop never finds a frame. */
  lemma WrapNeverFinds(bm: seq<Word>, hint: nat)
    requires hint <= |bm| == BITMAP_SIZE && FullBelow(bm, hint)
    ensures HintedScan(bm, hint) != NO_FRAME ==> HintedScan(bm, hint) >= 32 * hint
    ensures ScanWords(bm, 0, hint) == hint
  {}

  ghost predicate LowestFree(used: set<nat>, f: nat) {
    f < FRAME_COUNT && f !in used && forall g | 0 <= g < f :: g in used
  }

  ghost predicate AllUsed(used: set<nat>) {
    forall f | 0 <= f < FRAME_COUNT :: f in used
  }

  /** The lowest-numbered frame that is not used. */
  ghost function Lowest(used: set<nat>): (f: nat)
    requires !AllUsed(used)
    ensures LowestFree(used, f)
  {
    LowestFrom(used, 0)
  }

  ghost function LowestFrom(used: set<nat>, i: nat): (f: nat)
    requires !AllUsed(used) && i <= FRAME_COUNT && forall g | 0 <= g < i :: g in used
    ensures LowestFree(used, f)
    decreases FRAME_COUNT - i
  {
    if i < FRAME_COUNT && i !in used then i else LowestFrom(used, i + 1)
  }

  lemma FrameAddress(frame: nat)
    ensures frame * 0x1000 % 0x1000 == 0 && frame * 0x1000 / 0x1000 == frame
  {}

  lemma LowestUnique(used: set<nat>, f: nat)
    requires LowestFree(used, f)
    ensures !AllUsed(used) && f == Lowest(used)
  {}

  ghost function FramesBelow(n: nat): (s: set<nat>)
    ensures forall f: nat :: f in s <==> f < n
  {
    if n == 0 then {} else FramesBelow(n - 1) + {n - 1}
  }

  /** Some available entry of the memory map holds frame f whole. */
  ghost predicate Offered(entries: seq<Region>, f: nat) {
    exists i :: 0 <= i < |entries| && entries[i].available && Inside(f, entries[i])
  }

  /** The free frames are exactly the offered ones. */
  ghost predicate FreeExactly(used: set<nat>, entries: seq<Region>) {
    forall f | 0 <= f < FRAME_COUNT :: f !in used <==> Offered(entries, f)
  }

  ghost predicate Freed(before: set<nat>, after: set<nat>, base: nat, length: nat) {
    forall f | 0 <= f < FRAME_COUNT ::
      f in after <==> f in before && !(FreeFirst(base) <= f < FreeLast(base, length))
  }

  ghost predicate Reserved(before: set<nat>, after: set<nat>, base: nat, length: nat) {
    forall f | 0 <= f < FRAME_COUNT ::
      f in after <==> f in before || ReserveFirst(base) <= f < ReserveLast(base, length)
  }

  /** Freed so, exactly the frames wholly inside the region have become free. */
  lemma FreedInside(before: set<nat>, after: set<nat>, r: Region)
    requires Freed(before, after, r.base, r.length) && r.base < U64_LIMIT && r.length < U64_LIMIT
    requires RoundsRight(r.base, r.length)
    ensures forall f | 0 <= f < FRAME_COUNT :: f in after <==> f in before && !Inside(f, r)
  {
    forall f | 0 <= f < FRAME_COUNT ensures f in after <==> f in before && !Inside(f, r) {
      FreeRounding(f, r);
    }
  }

  /** Reserved so, exactly the frames that the region touches have become used. */
  lemma ReservedTouched(before: set<nat>, after: set<nat>, base: nat, length: nat)
    requires Reserved(before, after, base, length) && base + length + 0x1000 <= U64_LIMIT
    requires length > 0 || base % 0x1000 == 0
    ensures forall f | 0 <= f < FRAME_COUNT :: f in after <==> f in before || Touches(f, base, length)
  {
    forall f | 0 <= f < FRAME_COUNT ensures f in after <==> f in before || Touches(f, base, length) {
      ReserveRounding(f, base, length);
    }
  }

  /** A frame is free if and only if one available map entry holds it whole and it touches
      neither the low 1 MiB nor the kernel image. */
  ghost predicate BootExact(used: set<nat>, entries: seq<Region>, kernelStart: nat, kernelEnd: nat)
    requires kernelStart <= kernelEnd
  {
    forall f | 0 <= f < FRAME_COUNT ::
      f !in used <==>
      && Offered(entries, f)
      && !Touches(f, 0, 0x10_0000)
      && !Touches(f, kernelStart, kernelEnd - kernelStart)
  }

  /** The same in the numbers of the memory map: a frame is free if and only if an entry of type 1 holds
      its 4096 bytes, they do not begin below 1 MiB, and none of them is of the kernel image. */
  ghost predicate BootFrees(used: set<nat>, entries: seq<MapEntry>, kernelStart: nat, kernelEnd: nat) {
    forall f | 0 <= f < FRAME_COUNT ::
      f !in used <==>
      && (exists i :: 0 <= i < |entries| && entries[i].kind == 1 &&
                      entries[i].base <= f * 4096 && f * 4096 + 4096 <= entries[i].base + entries[i].length)
      && f * 4096 >= 1048576
      && (f * 4096 + 4096 <= kernelStart || kernelEnd <= f * 4096)
  }

  lemma BootInNumbers(used: set<nat>, regions: seq<Region>, entries: seq<MapEntry>, kernelStart: nat, kernelEnd: nat)
    requires kernelStart < kernelEnd && BootExact(used, regions, kernelStart, kernelEnd) && |regions| == |entries|
    requires forall i | 0 <= i < |entries| :: regions[i] == AsRegion(entries[i])
    ensures BootFrees(used, entries, kernelStart, kernelEnd)
  {
    forall f | 0 <= f < FRAME_COUNT
      ensures Offered(regions, f) <==>
              exists i :: 0 <= i < |entries| && entries[i].kind == 1 &&
                          entries[i].base <= f * 4096 && f * 4096 + 4096 <= entries[i].base + entries[i].length
    {
      if Offered(regions, f) {
        var i :| 0 <= i < |regions| && regions[i].available && Inside(f, regions[i]);
        assert regions[i] == AsRegion(entries[i]);
      }
      if i :| 0 <= i < |entries| && entries[i].kind == 1 && entries[i].base <= f * 4096 &&
              f * 4096 + 4096 <= entries[i].base + entries[i].length {
        assert regions[i] == AsRegion(entries[i]) && Inside(f, regions[i]);
      }
    }
  }

  lemma OfferedAppend(entries: seq<Region>, e: Region, f: nat)
    ensures Offered(entries + [e], f) <==> Offered(entries, f) || (e.available && Inside(f, e))
  {
    var all := entries + [e];
    if Offered(entries, f) {
      var i :| 0 <= i < |entries| && entries[i].available && Inside(f, entries[i]);
      assert all[i] == entries[i];
    }
    assert all[|entries|] == e;
  }

  lemma NoneOffered(used: set<nat>)
    requires AllUsed(used)
    ensures FreeExactly(used, [])
  {}

  /** One memory map entry, freed if available, keeps the account exact. */
  lemma EntryFreed(before: set<nat>, after: set<nat>, done: seq<Region>, e: Region)
    requires FreeExactly(before, done) && e.base < U64_LIMIT && e.length < U64_LIMIT
    requires e.available ==> RoundsRight(e.base, e.length)
    requires if e.available then Freed(before, after, e.base, e.length) else after == before
    ensures FreeExactly(after, done + [e])
  {
    forall f | 0 <= f < FRAME_COUNT ensures f !in after <==> Offered(done + [e], f) {
      if e.available {
        FreeRounding(f, e);
      }
      OfferedAppend(done, e, f);
    }
  }

  lemma BootReserved(u0: set<nat>, u1: set<nat>, u2: set<nat>, entries: seq<Region>, start: Word, end: Word)
    requires FreeExactly(u0, entries) && start < end
    requires Reserved(u0, u1, 0, 0x10_0000) && Reserved(u1, u2, start, end - start)
    ensures BootExact(u2, entries, start, end)
  {
    forall f | 0 <= f < FRAME_COUNT
      ensures f !in u2 <==>
              Offered(entries, f) && !Touches(f, 0, 0x10_0000) && !Touches(f, start, end - start)
    {
      ReserveRounding(f, 0, 0x10_0000);
      ReserveRounding(f, start, end - start);
    }
  }

  lemma DescribedBoot(used: set<nat>, info: seq<Byte>, kernelStart: Word, kernelEnd: Word)
    requires InfoOk(info) && kernelStart < kernelEnd
    requires FoundTag(info, TAG_MMAP).Some? ==> MapOk(info, FoundTag(info, TAG_MMAP).value)
    requires BootExact(used, MemoryMap(info, FoundTag(info, TAG_MMAP)), kernelStart, kernelEnd)
    ensures forall d | Describes(d, info) && EntriesRight(d.entries) ::
              BootFrees(used, d.entries, kernelStart, kernelEnd)
  {
    hide BootExact, BootFrees, Describes, EntriesRight, MapOk;
    forall d | Describes(d, info) && EntriesRight(d.entries)
      ensures BootFrees(used, d.entries, kernelStart, kernelEnd)
    {
      DescribedMap(d, info);
      BootInNumbers(used, MemoryMap(info, FoundTag(info, TAG_MMAP)), d.entries, kernelStart, kernelEnd);
    }
  }

  /** `bitmap` and `search_hint`, with the set of used frames they stand for. */
  class FrameAllocator {
    const bitmap: array<Word>
    var searchHint: nat
    ghost var used: set<nat>

    ghost predicate Represents()
      reads this, bitmap
    {
      && bitmap.Length == BITMAP_SIZE
      && (forall f :: f in used ==> f < FRAME_COUNT)
      && (forall f {:trigger IsUsed(bitmap[..], f)} | 0 <= f < FRAME_COUNT :: f in used <==> IsUsed(bitmap[..], f))
    }

    /** The bits, wherever a frame's membership is in question. */
    lemma UsedBits()
      requires Represents()
      ensures forall f {:trigger f in used} | 0 <= f < FRAME_COUNT :: f in used <==> IsUsed(bitmap[..], f)
    {
      forall f | 0 <= f < FRAME_COUNT ensures f in used <==> IsUsed(bitmap[..], f) {
        assert IsUsed(bitmap[..], f) || !IsUsed(bitmap[..], f);
      }
    }

    ghost predicate Valid()
      reads this, bitmap
    {
      Represents() && searchHint <= BITMAP_SIZE && FullBelow(bitmap[..], searchHint)
    }

    /** The zero-initialised statics. */
    constructor ()
      ensures Valid() && fresh(bitmap) && used == {} && searchHint == 0
    {
      bitmap := new Word[BITMAP_SIZE](_ => 0);
      searchHint := 0;
      used := {};
      new;
      forall f | 0 <= f < FRAME_COUNT ensures !IsUsed(bitmap[..], f) {
        ZeroHasNoBit(f % 32);
      }
    }

    method SetFrame(frame: nat)
      requires Represents() && frame < FRAME_COUNT
      modifies this`used, bitmap
      ensures Represents() && used == old(used) + {frame}
      ensures forall i | 0 <= i < BITMAP_SIZE :: old(bitmap[i]) == FULL ==> bitmap[i] == FULL
    {
      ghost var was := bitmap[..];
      var i, b := frame / 32, frame % 32;
      Pow2Of32();
      WithBitBound(bitmap[i], b, 32);
      bitmap[i] := WithBit(bitmap[i], b);
      used := used + {frame};
      forall f | 0 <= f < FRAME_COUNT ensures IsUsed(bitmap[..], f) <==> f == frame || IsUsed(was, f) {
        WithBitBits(was[i], b, f % 32);
      }
      if was[i] == FULL {
        forall j | 0 <= j < 32 ensures Bit(bitmap[i], j) {
          WithBitBits(was[i], b, j);
          FullHasBit(j);
        }
        AllOnes(bitmap[i]);
      }
    }

    method ClearFrame(frame: nat)
      requires Represents() && frame < FRAME_COUNT
      modifies this`used, bitmap
      ensures Represents() && used == old(used) - {frame}
      ensures forall i | 0 <= i < BITMAP_SIZE && i != frame / 32 :: bitmap[i] == old(bitmap[i])
    {
      ghost var was := bitmap[..];
      var i, b := frame / 32, frame % 32;
      WithoutBitBound(bitmap[i], b);
      bitmap[i] := WithoutBit(bitmap[i], b);
      used := used - {frame};
      forall f | 0 <= f < FRAME_COUNT ensures IsUsed(bitmap[..], f) <==> f != frame && IsUsed(was, f) {
        WithoutBitBits(was[i], b, f % 32);
      }
    }

    method FreeRegion(base: nat, length: nat)
      requires Represents() && base < U64_LIMIT && length < U64_LIMIT
      modifies this`used, bitmap
      ensures Represents()
      ensures Freed(old(used), used, base, length)
      ensures RoundsRight(base, length) ==>
                forall f | 0 <= f < FRAME_COUNT ::
                  f in used <==> f in old(used) && !Inside(f, Region(base, length, true))
    {
      var last := FreeLast(base, length);
      var frame := FreeFirst(base);
      while frame < last && frame < FRAME_COUNT
        invariant Represents() && FreeFirst(base) <= frame
        invariant forall f | 0 <= f < FRAME_COUNT ::
                    f in used <==> f in old(used) && !(FreeFirst(base) <= f < last && f < frame)
      {
        ClearFrame(frame);
        frame := frame + 1;
      }
      if RoundsRight(base, length) {
        FreedInside(old(used), used, Region(base, length, true));
      }
    }

    method ReserveRegion(base: nat, length: nat)
      requires Represents() && base < U64_LIMIT && length < U64_LIMIT
      modifies this`used, bitmap
      ensures Represents()
      ensures Reserved(old(used), used, base, length)
      ensures base + length + 0x1000 <= U64_LIMIT && (length > 0 || base % 0x1000 == 0) ==>
                forall f | 0 <= f < FRAME_COUNT :: f in used <==> f in old(used) || Touches(f, base, length)
    {
      var last := ReserveLast(base, length);
      var frame := ReserveFirst(base);
      while frame < last && frame < FRAME_COUNT
        invariant Represents() && ReserveFirst(base) <= frame
        invariant forall f | 0 <= f < FRAME_COUNT ::
                    f in used <==> f in old(used) || (ReserveFirst(base) <= f < last && f < frame)
      {
        SetFrame(frame);
        frame := frame + 1;
      }
      if base + length + 0x1000 <= U64_LIMIT && (length > 0 || base % 0x1000 == 0) {
        ReservedTouched(old(used), used, base, length);
      }
    }

    /** Every word of the bitmap set to all ones. */
    method MarkAllUsed()
      requires bitmap.Length == BITMAP_SIZE
      modifies this`used, bitmap
      ensures Represents() && AllUsed(used) && FreeExactly(used, [])
    {
      var i := 0;
      while i < BITMAP_SIZE
        invariant i <= BITMAP_SIZE
        invariant forall j | 0 <= j < i :: bitmap[j] == FULL
      {
        bitmap[i] := FULL;
        i := i + 1;
      }
      used := FramesBelow(FRAME_COUNT);
      forall f | 0 <= f < FRAME_COUNT ensures IsUsed(bitmap[..], f) {
        FullWordFrames(bitmap[..], f);
      }
    }

    /** The walk over the memory map frees what its available entries hold whole. */
    method FreeAvailable(info: seq<Byte>, tag: nat)
      requires Represents() && AllUsed(used) && MapOk(info, tag)
      modifies this`used, bitmap
      ensures Represents()
      ensures FreeExactly(used, MemoryMap(info, Some(tag)))
    {
      hide Represents, FreeExactly, Freed, Entries, EntriesOk, EntryAt, Read32;
      NoneOffered(used);
      var at := tag + 16;
      var end := tag + Read32(info, tag + 4);
      var step := Read32(info, tag + 8);
      ghost var entries := Entries(info, at, end, step);
      ghost var done: seq<Region> := [];
      NextEntry(info, at, end, step, done, entries);
      while at < end
        invariant EntriesOk(info, at, end, step)
        invariant entries == done + Entries(info, at, end, step)
        invariant Represents() && FreeExactly(used, done)
        decreases end - at
      {
        NextEntry(info, at, end, step, done, entries);
        var entry := EntryAt(info, at);
        ghost var before := used;
        if entry.available {
          FreeRegion(entry.base, entry.length);
        }
        EntryFreed(before, used, done, entry);
        done := done + [entry];
        at := at + step;
      }
      NextEntry(info, at, end, step, done, entries);
    }

    method Initialize(info: seq<Byte>, kernelStart: Word, kernelEnd: Word)
      requires Valid() && searchHint == 0
      requires InfoOk(info) && kernelStart < kernelEnd
      requires FoundTag(info, TAG_MMAP).Some? ==> MapOk(info, FoundTag(info, TAG_MMAP).value)
      modifies this`used, bitmap
      ensures Valid() && searchHint == 0
      ensures BootExact(used, MemoryMap(info, FoundTag(info, TAG_MMAP)), kernelStart, kernelEnd)
      ensures forall d | Describes(d, info) && EntriesRight(d.entries) ::
                BootFrees(used, d.entries, kernelStart, kernelEnd)
    {
      MarkAllUsed();
      var mmap := FindTag(info, TAG_MMAP);
      if mmap.Some? {
        FreeAvailable(info, mmap.value);
      }
      ghost var u0 := used;
      ghost var entries := MemoryMap(info, mmap);
      assert FreeExactly(u0, entries);
      ReserveRegion(0, 0x10_0000);
      ghost var u1 := used;
      ReserveRegion(kernelStart, kernelEnd - kernelStart);
      BootReserved(u0, u1, used, entries, kernelStart, kernelEnd);
      DescribedBoot(used, info, kernelStart, kernelEnd);
    }

    method FirstFreeFrame() returns (frame: Word)
      requires bitmap.Length == BITMAP_SIZE && searchHint <= BITMAP_SIZE
      modifies this`searchHint
      ensures frame == HintedScan(bitmap[..], old(searchHint))
      ensures searchHint == if frame == NO_FRAME then old(searchHint) else frame / 32
    {
      var i := searchHint;
      while i < BITMAP_SIZE
        invariant searchHint <= i <= BITMAP_SIZE && searchHint == old(searchHint)
        invariant ScanWords(bitmap[..], searchHint, BITMAP_SIZE) == ScanWords(bitmap[..], i, BITMAP_SIZE)
      {
        if bitmap[i] != FULL {
          searchHint := i;
          return i * 32 + LowestZero(bitmap[i]);
        }
        i := i + 1;
      }

      i := 0;
      while i < searchHint
        invariant i <= searchHint == old(searchHint)
        invariant ScanWords(bitmap[..], 0, searchHint) == ScanWords(bitmap[..], i, searchHint)
      {
        if bitmap[i] != FULL {
          searchHint := i;
          return i * 32 + LowestZero(bitmap[i]);
        }
        i := i + 1;
      }
      return NO_FRAME;
    }

    /** The address of the lowest free frame, now used; NO_FRAME exactly when none is free. */
    method Alloc() returns (address: Word)
      requires Valid()
      modifies this, bitmap
      ensures Valid()
      ensures address == NO_FRAME <==> AllUsed(old(used))
      ensures address == NO_FRAME ==> used == old(used)
      ensures address != NO_FRAME ==>
                && address % 0x1000 == 0
                && address / 0x1000 == Lowest(old(used))
                && used == old(used) + {address / 0x1000}
    {
      UsedBits();
      HintedScanExact(bitmap[..], searchHint);
      WrapNeverFinds(bitmap[..], searchHint);
      var frame := FirstFreeFrame();
      if frame == NO_FRAME {
        return NO_FRAME;
      }
      ghost var was := bitmap[..];
      assert FullBelow(was, searchHint) by {
        forall i | 0 <= i < searchHint ensures was[i] == FULL {
          assert i < ScanWords(was, old(searchHint), BITMAP_SIZE);
        }
      }
      assert LowestFree(used, frame);
      LowestUnique(used, frame);
      SetFrame(frame);
      assert forall i | 0 <= i < searchHint :: bitmap[..][i] == FULL;
      FrameAddress(frame);
      return frame * 0x1000;
    }

    /** The frame holding the address is free again, and the hint still has only full words below. */
    method Free(address: Word)
      requires Valid()
      modifies this, bitmap
      ensures Valid() && used == old(used) - {address / 0x1000}
    {
      var frame := address / 0x1000;
      ClearFrame(frame);
      var word := frame / 32;
      if word < searchHint {
        searchHint := word;
      }
    }
  }

  lemma {:induction false} ZeroHasNoBit(k: nat)
    ensures !Bit(0, k)
  {
    if k > 0 {
      ZeroHasNoBit(k - 1);
    }
  }
}
