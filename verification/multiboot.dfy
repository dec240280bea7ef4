/** The Multiboot2 boot information: a byte stream of 8-byte-aligned tags
    (sections 3.6.2 and 3.6.8 of the Multiboot2 specification). Addresses are offsets from
    the start of the structure. */
module Multiboot {
  import opened Words

  type Byte = x: nat | x < 256

  const TAG_END: Word := 0
  const TAG_MMAP: Word := 6
  const TYPE_AVAILABLE: Word := 1
  const U64_LIMIT: nat := 0x1_0000_0000_0000_0000

  function Read32(b: seq<Byte>, at: nat): Word
    requires at + 4 <= |b|
  {
    var b0: nat, b1: nat, b2: nat, b3: nat := b[at], b[at + 1], b[at + 2], b[at + 3];
    b0 + 0x100 * b1 + 0x1_0000 * b2 + 0x100_0000 * b3
  }

  function Read64(b: seq<Byte>, at: nat): (r: nat)
    requires at + 8 <= |b|
    ensures r < U64_LIMIT
  {
    Read32(b, at) + 0x1_0000_0000 * Read32(b, at + 4)
  }

  function Power256(i: nat): (p: nat)
    ensures p > 0
  {
    if i == 0 then 1 else 256 * Power256(i - 1)
  }

  /** The n bytes at the offset are the base-256 digits of v, the lowest one first. */
  ghost predicate Digits(b: seq<Byte>, at: nat, n: nat, v: nat) {
    at + n <= |b| && v < Power256(n) && forall i | 0 <= i < n :: b[at + i] == v / Power256(i) % 256
  }

  lemma SmallPowers()
    ensures Power256(1) == 0x100 && Power256(2) == 0x1_0000 && Power256(3) == 0x100_0000
    ensures Power256(4) == 0x1_0000_0000 && Power256(5) == 0x100_0000_0000
    ensures Power256(6) == 0x1_0000_0000_0000 && Power256(7) == 0x100_0000_0000_0000 && Power256(8) == U64_LIMIT
  {
    assert Power256(2) == 256 * Power256(1);
    assert Power256(4) == 256 * Power256(3);
    assert Power256(6) == 256 * Power256(5);
    assert Power256(8) == 256 * Power256(7);
  }

  /** A 32-bit field reads as the number whose digits its bytes are. */
  lemma Read32Digits(b: seq<Byte>, at: nat, v: nat)
    requires at + 4 <= |b|
    ensures Digits(b, at, 4, v) <==> Read32(b, at) == v
  {
    SmallPowers();
    var b0: nat, b1: nat, b2: nat, b3: nat := b[at], b[at + 1], b[at + 2], b[at + 3];
    DigitsOfSum(b0, b1, b2, b3);
    if Digits(b, at, 4, v) {
      assert b[at + 0] == v / Power256(0) % 256 && b[at + 1] == v / Power256(1) % 256;
      assert b[at + 2] == v / Power256(2) % 256 && b[at + 3] == v / Power256(3) % 256;
      SumOfDigits(v);
    }
  }

  lemma DigitsOfSum(b0: Byte, b1: Byte, b2: Byte, b3: Byte)
    ensures var v: nat := b0 + 0x100 * b1 + 0x1_0000 * b2 + 0x100_0000 * b3;
            v < 0x1_0000_0000 && v % 256 == b0 && v / 0x100 % 256 == b1 && v / 0x1_0000 % 256 == b2 &&
            v / 0x100_0000 % 256 == b3
  {
    var v: nat := b0 + 0x100 * b1 + 0x1_0000 * b2 + 0x100_0000 * b3;
    LowestDigit(b0, b1 + 0x100 * b2 + 0x1_0000 * b3);
    LowestDigit(b1, b2 + 0x100 * b3);
    LowestDigit(b2, b3);
    DigitByDigit(v);
  }

  lemma LowestDigit(d: Byte, rest: nat)
    ensures (d + 256 * rest) % 256 == d && (d + 256 * rest) / 256 == rest
  {}

  lemma DigitByDigit(v: nat)
    ensures v / 0x1_0000 == v / 0x100 / 0x100 && v / 0x100_0000 == v / 0x1_0000 / 0x100
  {}

  lemma SumOfDigits(v: nat)
    requires v < 0x1_0000_0000
    ensures v == v % 256 + 0x100 * (v / 0x100 % 256) + 0x1_0000 * (v / 0x1_0000 % 256)
              + 0x100_0000 * (v / 0x100_0000 % 256)
  {
    var v1, v2, v3 := v / 0x100, v / 0x1_0000, v / 0x100_0000;
    DigitByDigit(v);
    assert v == v % 256 + 256 * v1;
    assert v1 == v1 % 256 + 256 * v2;
    assert v2 == v2 % 256 + 256 * v3;
    assert v3 < 256;
  }

  /** And so does a 64-bit field. */
  lemma Read64Digits(b: seq<Byte>, at: nat, v: nat)
    requires at + 8 <= |b|
    ensures Digits(b, at, 8, v) <==> Read64(b, at) == v
  {
    SmallPowers();
    var low, high := Read32(b, at), Read32(b, at + 4);
    Read32Digits(b, at, low);
    Read32Digits(b, at + 4, high);
    HalvesDigits(b, at, low, high);
    if Digits(b, at, 8, v) {
      WholeDigits(b, at, v);
      Read32Digits(b, at, v % 0x1_0000_0000);
      Read32Digits(b, at + 4, v / 0x1_0000_0000);
    }
  }

  lemma HalvesDigits(b: seq<Byte>, at: nat, low: Word, high: Word)
    requires at + 8 <= |b| && Digits(b, at, 4, low) && Digits(b, at + 4, 4, high)
    ensures Digits(b, at, 8, low + 0x1_0000_0000 * high)
  {
    SmallPowers();
    var v: nat := low + 0x1_0000_0000 * high;
    forall i | 0 <= i < 8 ensures b[at + i] == v / Power256(i) % 256 {
      if i < 4 {
        assert b[at + i] == low / Power256(i) % 256;
        LowDigit(low, high, i);
      } else {
        assert b[at + 4 + (i - 4)] == high / Power256(i - 4) % 256;
        HighDigit(low, high, i - 4);
      }
    }
  }

  lemma LowDigit(low: Word, high: Word, i: nat)
    requires i < 4
    ensures (low + 0x1_0000_0000 * high) / Power256(i) % 256 == low / Power256(i) % 256
  {
    SmallPowers();
    var v: nat := low + 0x1_0000_0000 * high;
    if i == 0 {
      MultiplesVanish(low, 0x100_0000 * high);
    } else if i == 1 {
      assert v / 0x100 == low / 0x100 + 256 * (0x1_0000 * high);
      MultiplesVanish(low / 0x100, 0x1_0000 * high);
    } else if i == 2 {
      assert v / 0x1_0000 == low / 0x1_0000 + 256 * (0x100 * high);
      MultiplesVanish(low / 0x1_0000, 0x100 * high);
    } else {
      assert v / 0x100_0000 == low / 0x100_0000 + 256 * high;
      MultiplesVanish(low / 0x100_0000, high);
    }
  }

  lemma MultiplesVanish(x: nat, k: nat)
    ensures (x + 256 * k) % 256 == x % 256
  {}

  lemma HighDigit(low: Word, high: Word, i: nat)
    requires i < 4
    ensures (low + 0x1_0000_0000 * high) / Power256(i + 4) % 256 == high / Power256(i) % 256
  {
    SmallPowers();
    var v: nat := low + 0x1_0000_0000 * high;
    if i == 0 {
      assert v / Power256(4) == high;
    } else if i == 1 {
      assert v / Power256(5) == high / 0x100;
    } else if i == 2 {
      assert v / Power256(6) == high / 0x1_0000;
    } else {
      assert v / Power256(7) == high / 0x100_0000;
    }
  }

  lemma WholeDigits(b: seq<Byte>, at: nat, v: nat)
    requires Digits(b, at, 8, v)
    ensures v % 0x1_0000_0000 < 0x1_0000_0000 && v / 0x1_0000_0000 < 0x1_0000_0000
    ensures Digits(b, at, 4, v % 0x1_0000_0000) && Digits(b, at + 4, 4, v / 0x1_0000_0000)
  {
    SmallPowers();
    var low, high := v % 0x1_0000_0000, v / 0x1_0000_0000;
    assert v == low + 0x1_0000_0000 * high;
    forall i | 0 <= i < 4 ensures b[at + i] == low / Power256(i) % 256 {
      LowDigit(low, high, i);
    }
    forall i | 0 <= i < 4 ensures b[at + 4 + i] == high / Power256(i) % 256 {
      assert b[at + (i + 4)] == v / Power256(i + 4) % 256;
      HighDigit(low, high, i);
    }
  }

  /** The first multiple of 8 at or after a number. */
  predicate FirstMultiple(from: nat, to: nat) {
    to % 8 == 0 && from <= to < from + 8
  }

  /** `(size + 7) & ~7u` */
  function Align8(size: Word): (r: Word)
    ensures size <= 0xFFFF_FFF8 ==> FirstMultiple(size, r)
  {
    Wrap(size + 7) / 8 * 8
  }

  /** From offset at on, every tag lies inside the structure, up to the end tag or the end. */
  ghost predicate TagsOk(b: seq<Byte>, at: nat, end: nat)
    decreases end - at
  {
    end <= |b| < 0x8000_0000 &&
    (at < end ==>
      && at + 8 <= end
      && (Read32(b, at) != TAG_END ==>
        && 8 <= Read32(b, at + 4) <= end - at
        && TagsOk(b, at + Align8(Read32(b, at + 4)), end)))
  }

  /** A well-formed structure: the 8-byte header, then the tags. */
  ghost predicate InfoOk(b: seq<Byte>) {
    8 <= |b| && Read32(b, 0) <= |b| && TagsOk(b, 8, Read32(b, 0))
  }

  /** The offsets of all tags before the end tag, in stream order. */
  ghost function Tags(b: seq<Byte>, at: nat, end: nat): (offsets: seq<nat>)
    requires TagsOk(b, at, end)
    ensures forall i | 0 <= i < |offsets| :: offsets[i] + 8 <= |b|
    decreases end - at
  {
    if at >= end || Read32(b, at) == TAG_END then []
    else [at] + Tags(b, at + Align8(Read32(b, at + 4)), end)
  }

  /** The search for a type among the tags at the offsets. */
  ghost function FirstOfType(b: seq<Byte>, offsets: seq<nat>, kind: Word): (r: Option<nat>)
    requires forall i | 0 <= i < |offsets| :: offsets[i] + 8 <= |b|
    ensures r.Some? ==> r.value + 8 <= |b|
  {
    if offsets == [] then None
    else if Read32(b, offsets[0]) == kind then Some(offsets[0])
    else FirstOfType(b, offsets[1..], kind)
  }

  /** It ends at the first tag of the type, and finds none only when no tag has the type. */
  lemma {:induction false} FirstOfTypeIsFirst(b: seq<Byte>, offsets: seq<nat>, kind: Word)
    requires forall i | 0 <= i < |offsets| :: offsets[i] + 8 <= |b|
    ensures FirstOfType(b, offsets, kind) == None <==>
            forall i | 0 <= i < |offsets| :: Read32(b, offsets[i]) != kind
    ensures FirstOfType(b, offsets, kind).Some? ==>
              exists i :: 0 <= i < |offsets| && FirstOfType(b, offsets, kind) == Some(offsets[i]) &&
                          Read32(b, offsets[i]) == kind && forall j | 0 <= j < i :: Read32(b, offsets[j]) != kind
  {
    if offsets != [] && Read32(b, offsets[0]) != kind {
      var rest := offsets[1..];
      FirstOfTypeIsFirst(b, rest, kind);
      if FirstOfType(b, rest, kind).Some? {
        var i :| 0 <= i < |rest| && FirstOfType(b, rest, kind) == Some(rest[i]) &&
                 Read32(b, rest[i]) == kind && forall j | 0 <= j < i :: Read32(b, rest[j]) != kind;
        forall j | 0 <= j < i + 1 ensures Read32(b, offsets[j]) != kind {
          assert j > 0 ==> offsets[j] == rest[j - 1];
        }
        assert offsets[i + 1] == rest[i];
      } else {
        forall i | 0 <= i < |offsets| ensures Read32(b, offsets[i]) != kind {
          assert i > 0 ==> offsets[i] == rest[i - 1];
        }
      }
    }
  }

  /** The tag that `multiboot_find_tag` is to return. */
  ghost function FoundTag(b: seq<Byte>, kind: Word): Option<nat>
    requires InfoOk(b)
  {
    FirstOfType(b, Tags(b, 8, Read32(b, 0)), kind)
  }

  /** A tag: its offset and its two header fields. */
  datatype Tag = Tag(at: nat, kind: Word, size: Word)

  ghost predicate TagAt(b: seq<Byte>, total: nat, t: Tag) {
    && Digits(b, t.at, 4, t.kind) && Digits(b, t.at + 4, 4, t.size)
    && t.kind != 0 && 8 <= t.size && t.at + t.size <= total
  }

  /** From the offset on, up to the given size of the structure, these tags follow one another, each at
      the first multiple of 8 after the one before; then comes the end tag, or the end. */
  ghost predicate TagsFrom(b: seq<Byte>, total: nat, at: nat, tags: seq<Tag>)
    decreases |tags|
  {
    at % 8 == 0 &&
    if tags == [] then at >= total || (at + 8 <= total && Digits(b, at, 4, 0))
    else
      && tags[0].at == at && TagAt(b, total, tags[0])
      && exists next :: FirstMultiple(at + tags[0].size, next) && TagsFrom(b, total, next, tags[1..])
  }

  /** The structure: its size in the first field, the tags from offset 8 on. */
  ghost predicate Stream(b: seq<Byte>, total: Word, tags: seq<Tag>) {
    8 <= |b| < 0x8000_0000 && Digits(b, 0, 4, total) && total <= |b| && TagsFrom(b, total, 8, tags)
  }

  /** The answer is the offset of the first of the tags that has the type, none if none has. */
  ghost predicate Finds(tags: seq<Tag>, kind: Word, r: Option<nat>) {
    && (r == None <==> forall i | 0 <= i < |tags| :: tags[i].kind != kind)
    && (r.Some? ==>
          exists i :: 0 <= i < |tags| && r == Some(tags[i].at) && tags[i].kind == kind &&
                      forall j | 0 <= j < i :: tags[j].kind != kind)
  }

  lemma SameMultiple(at: nat, size: Word, next: nat)
    requires at % 8 == 0 && size <= 0xFFFF_FFF8 && FirstMultiple(at + size, next)
    ensures next == at + Align8(size)
  {}

  lemma NextMultiple(at: nat, size: Word)
    requires at % 8 == 0 && size <= 0xFFFF_FFF8
    ensures FirstMultiple(at + size, at + Align8(size)) && (at + Align8(size)) % 8 == 0
  {}

  lemma {:induction false} TagsFromFinds(b: seq<Byte>, total: Word, at: nat, tags: seq<Tag>, kind: Word)
    requires |b| < 0x8000_0000 && total <= |b| && TagsFrom(b, total, at, tags)
    ensures TagsOk(b, at, total)
    ensures Finds(tags, kind, FirstOfType(b, Tags(b, at, total), kind))
    decreases |tags|
  {
    hide Digits, Read32, Align8, FirstMultiple, Finds;
    if tags == [] {
      NoneFinds(kind);
      if at < total {
        Read32Digits(b, at, 0);
      }
    } else {
      var next :| FirstMultiple(at + tags[0].size, next) && TagsFrom(b, total, next, tags[1..]);
      Read32Digits(b, at, tags[0].kind);
      Read32Digits(b, at + 4, tags[0].size);
      SameMultiple(at, tags[0].size, next);
      TagsFromFinds(b, total, next, tags[1..], kind);
      assert Tags(b, at, total)[1..] == Tags(b, next, total);
      FindsNext(tags, kind, FirstOfType(b, Tags(b, next, total), kind));
    }
  }

  lemma NoneFinds(kind: Word)
    ensures Finds([], kind, None)
  {}

  lemma FindsNext(tags: seq<Tag>, kind: Word, r: Option<nat>)
    requires tags != [] && Finds(tags[1..], kind, r)
    ensures Finds(tags, kind, if tags[0].kind == kind then Some(tags[0].at) else r)
  {
    if tags[0].kind != kind {
      if r.Some? {
        var i :| 0 <= i < |tags[1..]| && r == Some(tags[1..][i].at) && tags[1..][i].kind == kind &&
                 forall j | 0 <= j < i :: tags[1..][j].kind != kind;
        forall j | 0 <= j < i + 1 ensures tags[j].kind != kind {
          assert j > 0 ==> tags[j] == tags[1..][j - 1];
        }
        assert tags[i + 1] == tags[1..][i];
      } else {
        forall i | 0 <= i < |tags| ensures tags[i].kind != kind {
          assert i > 0 ==> tags[i] == tags[1..][i - 1];
        }
      }
    }
  }

  /** Every structure described so is well-formed, and the tag found is the first one of the type. */
  lemma StreamFinds(b: seq<Byte>, total: Word, tags: seq<Tag>, kind: Word)
    requires Stream(b, total, tags)
    ensures InfoOk(b) && Finds(tags, kind, FoundTag(b, kind))
  {
    Read32Digits(b, 0, total);
    TagsFromFinds(b, total, 8, tags, kind);
  }

  lemma {:induction false} TagsAreFrom(b: seq<Byte>, at: nat, total: Word) returns (tags: seq<Tag>)
    requires at % 8 == 0 && TagsOk(b, at, total)
    ensures TagsFrom(b, total, at, tags)
    decreases total - at
  {
    hide Digits, Read32, Align8, FirstMultiple;
    tags := [];
    if at < total {
      Read32Digits(b, at, Read32(b, at));
      if Read32(b, at) != TAG_END {
        var kind, size := Read32(b, at), Read32(b, at + 4);
        Read32Digits(b, at + 4, size);
        NextMultiple(at, size);
        var rest := TagsAreFrom(b, at + Align8(size), total);
        tags := [Tag(at, kind, size)] + rest;
        assert tags[1..] == rest;
      }
    }
  }

  /** Every well-formed structure is described by some tags. */
  lemma InfoIsStream(b: seq<Byte>) returns (tags: seq<Tag>)
    requires InfoOk(b)
    ensures Stream(b, Read32(b, 0), tags)
  {
    Read32Digits(b, 0, Read32(b, 0));
    tags := TagsAreFrom(b, 8, Read32(b, 0));
  }

  /** The walk finds the first tag of the type before the end tag. */
  method FindTag(b: seq<Byte>, kind: Word) returns (r: Option<nat>)
    requires InfoOk(b)
    ensures r == FoundTag(b, kind)
    ensures forall total, tags | Stream(b, total, tags) :: Finds(tags, kind, r)
  {
    hide Stream, Finds, Digits;
    forall total, tags | Stream(b, total, tags) ensures Finds(tags, kind, FoundTag(b, kind)) {
      StreamFinds(b, total, tags, kind);
    }
    var ptr := 8;
    var end := Read32(b, 0);
    while ptr < end
      invariant TagsOk(b, ptr, end)
      invariant FoundTag(b, kind) == FirstOfType(b, Tags(b, ptr, end), kind)
      decreases end - ptr
    {
      var tagType, size := Read32(b, ptr), Read32(b, ptr + 4);
      if tagType == TAG_END {
        return None;
      }
      if tagType == kind {
        return Some(ptr);
      }
      assert Tags(b, ptr, end)[1..] == Tags(b, ptr + Align8(size), end);
      ptr := ptr + Align8(size);
    }
    return None;
  }

  /** One entry of the memory map. */
  datatype Region = Region(base: nat, length: nat, available: bool)

  /** The memory map's entries of `step` bytes each fill [at, end) exactly. */
  ghost predicate EntriesOk(b: seq<Byte>, at: nat, end: nat, step: nat)
    decreases end - at
  {
    24 <= step && at <= end <= |b| && (at < end ==> at + step <= end && EntriesOk(b, at + step, end, step))
  }

  function EntryAt(b: seq<Byte>, at: nat): (r: Region)
    requires at + 20 <= |b|
    ensures r.base < U64_LIMIT && r.length < U64_LIMIT
  {
    Region(Read64(b, at), Read64(b, at + 8), Read32(b, at + 16) == TYPE_AVAILABLE)
  }

  ghost function Entries(b: seq<Byte>, at: nat, end: nat, step: nat): seq<Region>
    requires EntriesOk(b, at, end, step)
    decreases end - at
  {
    if at >= end then [] else [EntryAt(b, at)] + Entries(b, at + step, end, step)
  }

  /** The walk over the map comes to the next entry, or to the end. */
  lemma NextEntry(b: seq<Byte>, at: nat, end: nat, step: nat, done: seq<Region>, entries: seq<Region>)
    requires EntriesOk(b, at, end, step) && entries == done + Entries(b, at, end, step)
    ensures at < end ==>
              && at + 24 <= |b| && step > 0 && EntriesOk(b, at + step, end, step)
              && entries == done + [EntryAt(b, at)] + Entries(b, at + step, end, step)
              && EntryAt(b, at) in entries
    ensures at >= end ==> entries == done
  {
    if at < end {
      assert entries[|done|] == EntryAt(b, at);
    }
  }

  /** The exact condition for `free_region` to free what it should: its 64-bit sums do not wrap, or
      they wrap beyond the frames that the bitmap tracks. */
  predicate RoundsRight(base: nat, length: nat) {
    if base + 0xFFF < U64_LIMIT then
      base + length < U64_LIMIT || base > 0xFFFF_F000 || base + length - U64_LIMIT >= 0x1_0000_0000
    else U64_LIMIT <= base + length < U64_LIMIT + 0x1000
  }

  /** A well-formed memory map tag: its size covers the 16-byte header and whole entries, and no
      available region makes the rounding go wrong. */
  ghost predicate MapOk(b: seq<Byte>, tag: nat) {
    tag + 16 <= |b| && Read32(b, tag + 4) >= 16 &&
    EntriesOk(b, tag + 16, tag + Read32(b, tag + 4), Read32(b, tag + 8)) &&
    forall e | e in Entries(b, tag + 16, tag + Read32(b, tag + 4), Read32(b, tag + 8)) ::
      e.available ==> RoundsRight(e.base, e.length)
  }

  /** The memory map that boot reads: the entries of the first map tag, none without one. */
  ghost function MemoryMap(b: seq<Byte>, r: Option<nat>): seq<Region>
    requires r.Some? ==> MapOk(b, r.value)
  {
    match r
    case None => []
    case Some(tag) => Entries(b, tag + 16, tag + Read32(b, tag + 4), Read32(b, tag + 8))
  }

  /** The numbers of one memory map entry. */
  datatype MapEntry = MapEntry(base: nat, length: nat, kind: nat)

  /** The entry's fields: 8 bytes of base, 8 of length, 4 of type. */
  ghost predicate EntryListed(b: seq<Byte>, at: nat, e: MapEntry) {
    Digits(b, at, 8, e.base) && Digits(b, at + 8, 8, e.length) && Digits(b, at + 16, 4, e.kind)
  }

  /** Entries of step bytes each fill the bytes from at to end. */
  ghost predicate EntriesListed(b: seq<Byte>, at: nat, end: nat, step: nat, entries: seq<MapEntry>)
    decreases |entries|
  {
    if entries == [] then at == end
    else EntryListed(b, at, entries[0]) && at + step <= end && EntriesListed(b, at + step, end, step, entries[1..])
  }

  /** The memory map tag at the offset: size, entry size and entries. */
  ghost predicate MapListed(b: seq<Byte>, tag: nat, size: Word, step: Word, entries: seq<MapEntry>) {
    && 16 <= size && 24 <= step && tag + size <= |b|
    && Digits(b, tag + 4, 4, size) && Digits(b, tag + 8, 4, step)
    && EntriesListed(b, tag + 16, tag + size, step, entries)
  }

  /** The entry as the frame allocator reads it. */
  function AsRegion(e: MapEntry): Region {
    Region(e.base, e.length, e.kind == 1)
  }

  lemma EntryRead(b: seq<Byte>, at: nat, e: MapEntry)
    requires EntryListed(b, at, e)
    ensures at + 20 <= |b| && EntryAt(b, at) == AsRegion(e)
  {
    Read64Digits(b, at, e.base);
    Read64Digits(b, at + 8, e.length);
    Read32Digits(b, at + 16, e.kind);
  }

  /** The entries read are the ones listed, in their order. */
  lemma {:induction false} EntriesRead(b: seq<Byte>, at: nat, end: nat, step: nat, entries: seq<MapEntry>)
    requires EntriesListed(b, at, end, step, entries) && 24 <= step && end <= |b|
    ensures EntriesOk(b, at, end, step) && |Entries(b, at, end, step)| == |entries|
    ensures forall i | 0 <= i < |entries| :: Entries(b, at, end, step)[i] == AsRegion(entries[i])
    decreases |entries|
  {
    hide Digits, EntryListed, EntryAt;
    if entries != [] {
      EntryRead(b, at, entries[0]);
      EntriesRead(b, at + step, end, step, entries[1..]);
    }
  }

  /** The other way round, every sequence of entries can be listed. */
  lemma {:induction false} EntriesAreListed(b: seq<Byte>, at: nat, end: nat, step: nat) returns (entries: seq<MapEntry>)
    requires EntriesOk(b, at, end, step)
    ensures EntriesListed(b, at, end, step, entries)
    decreases end - at
  {
    hide Digits;
    entries := [];
    if at < end {
      Read64Digits(b, at, Read64(b, at));
      Read64Digits(b, at + 8, Read64(b, at + 8));
      Read32Digits(b, at + 16, Read32(b, at + 16));
      var rest := EntriesAreListed(b, at + step, end, step);
      entries := [MapEntry(Read64(b, at), Read64(b, at + 8), Read32(b, at + 16))] + rest;
      assert entries[1..] == rest;
    }
  }

  /** The boot information in numbers: its size, its tags, which of them is the first memory map (one
      past the last if none is), that map's entry size and its entries. */
  datatype BootInfo = BootInfo(total: Word, tags: seq<Tag>, first: nat, step: Word, entries: seq<MapEntry>)

  ghost predicate Describes(d: BootInfo, b: seq<Byte>) {
    && Stream(b, d.total, d.tags) && d.first <= |d.tags|
    && (forall i | 0 <= i < d.first :: d.tags[i].kind != 6)
    && (if d.first == |d.tags| then d.entries == []
        else d.tags[d.first].kind == 6 && MapListed(b, d.tags[d.first].at, d.tags[d.first].size, d.step, d.entries))
  }

  /** No available entry makes the rounding go wrong. */
  predicate EntriesRight(entries: seq<MapEntry>) {
    forall i | 0 <= i < |entries| :: entries[i].kind == 1 ==> RoundsRight(entries[i].base, entries[i].length)
  }

  /** The tag that boot finds is the described one. */
  lemma DescribedTag(d: BootInfo, b: seq<Byte>)
    requires Describes(d, b)
    ensures InfoOk(b)
    ensures FoundTag(b, TAG_MMAP) == if d.first == |d.tags| then None else Some(d.tags[d.first].at)
  {
    hide Stream, MapListed;
    StreamFinds(b, d.total, d.tags, TAG_MMAP);
    var r := FoundTag(b, TAG_MMAP);
    if d.first < |d.tags| {
      assert d.tags[d.first].kind == TAG_MMAP;
      var i :| 0 <= i < |d.tags| && r == Some(d.tags[i].at) && d.tags[i].kind == TAG_MMAP &&
               forall j | 0 <= j < i :: d.tags[j].kind != TAG_MMAP;
      assert i == d.first;
    }
  }

  lemma MapRead(b: seq<Byte>, tag: nat, size: Word, step: Word, entries: seq<MapEntry>)
    requires MapListed(b, tag, size, step, entries) && EntriesRight(entries)
    ensures MapOk(b, tag) && |MemoryMap(b, Some(tag))| == |entries|
    ensures forall i | 0 <= i < |entries| :: MemoryMap(b, Some(tag))[i] == AsRegion(entries[i])
  {
    hide Digits, RoundsRight, EntriesListed, EntriesRight, Entries, EntriesOk, Read32;
    Read32Digits(b, tag + 4, size);
    Read32Digits(b, tag + 8, step);
    EntriesRead(b, tag + 16, tag + size, step, entries);
    RegionsRight(Entries(b, tag + 16, tag + size, step), entries);
  }

  lemma RegionsRight(regions: seq<Region>, entries: seq<MapEntry>)
    requires |regions| == |entries| && forall i | 0 <= i < |entries| :: regions[i] == AsRegion(entries[i])
    requires EntriesRight(entries)
    ensures forall e | e in regions :: e.available ==> RoundsRight(e.base, e.length)
  {
    hide RoundsRight;
    forall e | e in regions && e.available ensures RoundsRight(e.base, e.length) {
      var i :| 0 <= i < |regions| && regions[i] == e;
      assert e == AsRegion(entries[i]);
    }
  }

  /** What boot reads is what the numbers say: the entries of the first memory map, or none. */
  lemma DescribedMap(d: BootInfo, b: seq<Byte>)
    requires Describes(d, b) && EntriesRight(d.entries)
    ensures InfoOk(b) && (FoundTag(b, TAG_MMAP).Some? ==> MapOk(b, FoundTag(b, TAG_MMAP).value))
    ensures |MemoryMap(b, FoundTag(b, TAG_MMAP))| == |d.entries|
    ensures forall i | 0 <= i < |d.entries| :: MemoryMap(b, FoundTag(b, TAG_MMAP))[i] == AsRegion(d.entries[i])
  {
    hide Stream, MapListed, EntriesRight, MapOk;
    DescribedTag(d, b);
    if d.first < |d.tags| {
      MapRead(b, d.tags[d.first].at, d.tags[d.first].size, d.step, d.entries);
    }
  }

  /** Every well-formed boot information is described by some numbers, and they round right. */
  lemma InfoDescribed(b: seq<Byte>) returns (d: BootInfo)
    requires InfoOk(b) && (FoundTag(b, TAG_MMAP).Some? ==> MapOk(b, FoundTag(b, TAG_MMAP).value))
    ensures Describes(d, b) && EntriesRight(d.entries)
  {
    hide Digits, Stream, MapListed, MapOk, TagsOk, Tags;
    var total := Read32(b, 0);
    var tags := InfoIsStream(b);
    StreamFinds(b, total, tags, TAG_MMAP);
    d := BootInfo(total, tags, |tags|, 24, []);
    if FoundTag(b, TAG_MMAP).Some? {
      var i :| 0 <= i < |tags| && FoundTag(b, TAG_MMAP) == Some(tags[i].at) && tags[i].kind == TAG_MMAP &&
               forall j | 0 <= j < i :: tags[j].kind != TAG_MMAP;
      StreamTag(b, total, tags, i);
      var step, entries := MapIsListed(b, tags[i].at, tags[i].size);
      d := BootInfo(total, tags, i, step, entries);
    }
  }

  lemma StreamTag(b: seq<Byte>, total: Word, tags: seq<Tag>, i: nat)
    requires Stream(b, total, tags) && i < |tags|
    ensures Digits(b, tags[i].at + 4, 4, tags[i].size)
  {
    TagOf(b, total, 8, tags, i);
  }

  lemma {:induction false} TagOf(b: seq<Byte>, total: nat, at: nat, tags: seq<Tag>, i: nat)
    requires TagsFrom(b, total, at, tags) && i < |tags|
    ensures TagAt(b, total, tags[i])
    decreases |tags|
  {
    hide TagAt, Digits;
    if i > 0 {
      var next :| FirstMultiple(at + tags[0].size, next) && TagsFrom(b, total, next, tags[1..]);
      TagOf(b, total, next, tags[1..], i - 1);
    }
  }

  lemma MapIsListed(b: seq<Byte>, tag: nat, size: Word) returns (step: Word, entries: seq<MapEntry>)
    requires MapOk(b, tag) && Digits(b, tag + 4, 4, size)
    ensures MapListed(b, tag, size, step, entries) && EntriesRight(entries)
  {
    hide Digits, RoundsRight, EntriesListed, EntriesRight, Entries, Read32;
    Read32Digits(b, tag + 4, size);
    Read32Digits(b, tag + 8, Read32(b, tag + 8));
    step := Read32(b, tag + 8);
    entries := EntriesAreListed(b, tag + 16, tag + size, step);
    StepLarge(b, tag, size, step);
    EntriesRead(b, tag + 16, tag + size, step, entries);
    ListedRight(Entries(b, tag + 16, tag + size, step), entries);
  }

  lemma ListedRight(regions: seq<Region>, entries: seq<MapEntry>)
    requires |regions| == |entries| && forall i | 0 <= i < |entries| :: regions[i] == AsRegion(entries[i])
    requires forall e | e in regions :: e.available ==> RoundsRight(e.base, e.length)
    ensures EntriesRight(entries)
  {
    hide RoundsRight;
    forall i | 0 <= i < |entries| && entries[i].kind == 1 ensures RoundsRight(entries[i].base, entries[i].length) {
      assert regions[i] in regions;
    }
  }

  lemma StepLarge(b: seq<Byte>, tag: nat, size: nat, step: nat)
    requires 16 <= size && EntriesOk(b, tag + 16, tag + size, step)
    ensures 24 <= step && tag + size <= |b|
  {}

  /** Frame f lies wholly inside the region. */
  predicate Inside(f: nat, r: Region) {
    r.base <= f * 0x1000 && (f + 1) * 0x1000 <= r.base + r.length
  }

  /** Frame f shares at least one byte with [base, base + length). */
  predicate Touches(f: nat, base: nat, length: nat) {
    length > 0 && f * 0x1000 < base + length && base < (f + 1) * 0x1000
  }

  /** `free_region`'s bounds, in 64-bit arithmetic: the base rounded up, the end rounded down. */
  function FreeFirst(base: nat): nat {
    (base + 0x1000 - 1) % 0x1_0000_0000_0000_0000 / 0x1000
  }

  function FreeLast(base: nat, length: nat): nat {
    (base + length) % 0x1_0000_0000_0000_0000 / 0x1000
  }

  /** `reserve_region`'s bounds: the base rounded down, the end rounded up. */
  function ReserveFirst(base: nat): nat {
    base / 0x1000
  }

  function ReserveLast(base: nat, length: nat): nat {
    (base + length + 0x1000 - 1) % 0x1_0000_0000_0000_0000 / 0x1000
  }

  /** Rounding inwards frees exactly the frames wholly inside. */
  lemma FreeRounding(f: nat, r: Region)
    requires f < FRAME_COUNT && r.base < U64_LIMIT && r.length < U64_LIMIT && RoundsRight(r.base, r.length)
    ensures FreeFirst(r.base) <= f < FreeLast(r.base, r.length) <==> Inside(f, r)
  {}

  /** And it does so for all frames under no other condition. */
  lemma FreeRoundingExact(r: Region)
    requires r.base < U64_LIMIT && r.length < U64_LIMIT
    ensures RoundsRight(r.base, r.length) <==>
            forall f | 0 <= f < FRAME_COUNT :: FreeFirst(r.base) <= f < FreeLast(r.base, r.length) <==> Inside(f, r)
  {
    var first, last := FreeFirst(r.base), FreeLast(r.base, r.length);
    if RoundsRight(r.base, r.length) {
      forall f | 0 <= f < FRAME_COUNT ensures first <= f < last <==> Inside(f, r) {
        FreeRounding(f, r);
      }
    } else if r.base + 0xFFF < U64_LIMIT {
      var f := if first < last then last else first;
      assert f < FRAME_COUNT && Inside(f, r) && f >= last;
    } else {
      assert first <= 0 < last && !Inside(0, r);
    }
  }

  /** Rounding outwards reserves exactly the frames touched, unless the region is empty and starts
      inside a frame. */
  lemma ReserveRounding(f: nat, base: nat, length: nat)
    requires base + length + 0x1000 <= U64_LIMIT && (length > 0 || base % 0x1000 == 0)
    ensures ReserveFirst(base) <= f < ReserveLast(base, length) <==> Touches(f, base, length)
  {}

  lemma ReserveRoundingExact(base: Word, length: Word)
    ensures length > 0 || base % 0x1000 == 0 <==>
            forall f | 0 <= f < FRAME_COUNT ::
              ReserveFirst(base) <= f < ReserveLast(base, length) <==> Touches(f, base, length)
  {
    if length > 0 || base % 0x1000 == 0 {
      forall f | 0 <= f < FRAME_COUNT
        ensures ReserveFirst(base) <= f < ReserveLast(base, length) <==> Touches(f, base, length)
      {
        ReserveRounding(f, base, length);
      }
    } else {
      var f := base / 0x1000;
      assert ReserveFirst(base) <= f < ReserveLast(base, length) && !Touches(f, base, length);
    }
  }
}
