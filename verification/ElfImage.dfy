/**
  Placement of ELF segments in memory (`LoadedElf::LoadSegments`,
  `MemoryMappable::Map`, `LoadedElf::MapFilePiece`).

  Addresses and sizes are unbounded; the page size is any positive number.
 */
module ElfImage {
  import opened Bytes
  import opened PageArithmetic

  /** The permission bits of a segment. */
  datatype Flags = Flags(read: bool, write: bool, execute: bool)

  datatype ProgramHeader = ProgramHeader(
    isLoad: bool, flags: Flags, fileOffset: nat, memoryOffset: nat, memorySize: nat, alignment: bv64)

  /** The test for a power of two: clearing the lowest bit leaves nothing. */
  predicate IsPowerOfTwo(x: bv64) {
    x & (x - 1) == 0 && x != 0
  }

  /** One, doubled `k` times. */
  function Doubled(k: nat): bv64 {
    if k == 0 then 1 else Doubled(k - 1) << 1
  }

  ghost predicate PowerOfTwo(x: bv64) {
    x != 0 && exists k: nat :: x == Doubled(k)
  }

  lemma OnlyOneIsOdd(x: bv64)
    requires IsPowerOfTwo(x) && x != 1
    ensures x & 1 == 0
  {
  }

  lemma Halved(x: bv64)
    requires x & 1 == 0 && x != 0
    ensures (x >> 1) << 1 == x && x >> 1 < x
  {
  }

  lemma HalfPower(x: bv64)
    requires x & 1 == 0 && IsPowerOfTwo(x)
    ensures IsPowerOfTwo(x >> 1)
  {
  }

  lemma DoublePower(x: bv64)
    requires IsPowerOfTwo(x) && x << 1 != 0
    ensures IsPowerOfTwo(x << 1)
  {
  }

  lemma {:induction false} PowerIsDoubled(x: bv64) returns (k: nat)
    requires IsPowerOfTwo(x)
    ensures x == Doubled(k)
    decreases x
  {
    if x == 1 {
      k := 0;
    } else {
      OnlyOneIsOdd(x);
      Halved(x);
      HalfPower(x);
      var j := PowerIsDoubled(x >> 1);
      k := j + 1;
    }
  }

  lemma {:induction false} DoubledIsPower(k: nat)
    ensures Doubled(k) != 0 ==> IsPowerOfTwo(Doubled(k))
  {
    if k > 0 {
      DoubledIsPower(k - 1);
      if Doubled(k - 1) != 0 && Doubled(k) != 0 { DoublePower(Doubled(k - 1)); }
    }
  }

  /** The test accepts exactly the powers of two that fit a word. */
  lemma PowerOfTwoExactly(x: bv64)
    ensures IsPowerOfTwo(x) <==> PowerOfTwo(x)
  {
    if IsPowerOfTwo(x) {
      var k := PowerIsDoubled(x);
    }
    if PowerOfTwo(x) {
      var k: nat :| x == Doubled(k);
      DoubledIsPower(k);
    }
  }

  /** A byte of the file; reading past its end gives zero. */
  function ByteAt(file: seq<Byte>, i: nat): Byte {
    if i < |file| then file[i] else 0
  }

  // ----- Where a segment goes

  function Adjustment(h: ProgramHeader, page: nat): nat
    requires page > 0
  {
    h.memoryOffset % page
  }

  function MemoryStart(h: ProgramHeader, page: nat): int
    requires page > 0
  {
    h.memoryOffset - Adjustment(h, page)
  }

  function FileStart(h: ProgramHeader, dataOffset: nat, page: nat): int
    requires page > 0
  {
    dataOffset + h.fileOffset - Adjustment(h, page)
  }

  function Length(h: ProgramHeader, page: nat): nat
    requires page > 0
  {
    h.memorySize + Adjustment(h, page)
  }

  /** The difference between file and memory offset is a multiple of the page size. */
  predicate Congruent(h: ProgramHeader, page: nat)
    requires page > 0
  {
    h.memoryOffset % page == h.fileOffset % page
  }

  predicate SupportedFlags(f: Flags) {
    f == Flags(true, true, false) || f == Flags(true, false, true) || f == Flags(true, false, false)
  }

  /** What the loader checks of a segment before and while mapping it. */
  predicate Accepted(h: ProgramHeader, file: seq<Byte>, dataOffset: nat, page: nat)
    requires page > 0
  {
    h.isLoad ==>
      IsPowerOfTwo(h.alignment) && Congruent(h, page) && SupportedFlags(h.flags) && FileStart(h, dataOffset, page) <= |file|
  }

  /**
    A segment that can be loaded: it is readable and not both writable and
    executable, its alignment is a power of two, its offsets in memory and in the
    file differ by whole pages, and its first page starts within the file.
   */
  ghost predicate Loadable(h: ProgramHeader, file: seq<Byte>, dataOffset: nat, page: nat)
    requires page > 0
  {
    && h.flags.read && !(h.flags.write && h.flags.execute)
    && PowerOfTwo(h.alignment)
    && Aligned(h.memoryOffset - h.fileOffset, page)
    && dataOffset + RoundDown(h.fileOffset, page) <= |file|
  }

  /** The loader's checks let pass exactly the segments that can be loaded. */
  lemma AcceptedExactly(h: ProgramHeader, file: seq<Byte>, dataOffset: nat, page: nat)
    requires page > 0
    ensures Accepted(h, file, dataOffset, page) <==> (h.isLoad ==> Loadable(h, file, dataOffset, page))
  {
    hide IsPowerOfTwo, PowerOfTwo, Aligned, Congruent, SupportedFlags, FileStart, RoundDown;
    PowerOfTwoExactly(h.alignment);
    CongruentExactly(h, page);
    FlagsExactly(h.flags);
    if Congruent(h, page) { SameFileStart(h, dataOffset, page); }
  }

  lemma FlagsExactly(f: Flags)
    ensures SupportedFlags(f) <==> f.read && !(f.write && f.execute)
    ensures SupportedFlags(f) ==> (ModeFor(f).ReadWrite? <==> f.write) && (ModeFor(f).ReadExecute? <==> f.execute)
  {
  }

  lemma SameFileStart(h: ProgramHeader, dataOffset: nat, page: nat)
    requires page > 0 && Congruent(h, page)
    ensures FileStart(h, dataOffset, page) == dataOffset + RoundDown(h.fileOffset, page)
  {
  }

  lemma CongruentExactly(h: ProgramHeader, page: nat)
    requires page > 0
    ensures Congruent(h, page) <==> Aligned(h.memoryOffset - h.fileOffset, page)
  {
    SamePosition(h.fileOffset, h.memoryOffset - h.fileOffset, page);
  }

  ghost predicate AllLoadable(headers: seq<ProgramHeader>, file: seq<Byte>, dataOffset: nat, page: nat)
    requires page > 0
  {
    forall i | 0 <= i < |headers| && headers[i].isLoad :: Loadable(headers[i], file, dataOffset, page)
  }

  lemma AllAcceptedExactly(headers: seq<ProgramHeader>, file: seq<Byte>, dataOffset: nat, page: nat)
    requires page > 0
    ensures AllAccepted(headers, file, dataOffset, page) <==> AllLoadable(headers, file, dataOffset, page)
  {
    hide Accepted, Loadable;
    forall i | 0 <= i < |headers|
      ensures Accepted(headers[i], file, dataOffset, page) <==>
              (headers[i].isLoad ==> Loadable(headers[i], file, dataOffset, page))
    {
      AcceptedExactly(headers[i], file, dataOffset, page);
    }
  }

  /** The end of the highest segment. */
  function HighestEnd(headers: seq<ProgramHeader>): nat {
    if headers == [] then 0 else
    var last, rest := headers[|headers| - 1], HighestEnd(headers[..|headers| - 1]);
    if last.isLoad && last.memoryOffset + last.memorySize > rest then last.memoryOffset + last.memorySize else rest
  }

  lemma {:induction false} HighestEndBound(headers: seq<ProgramHeader>, i: nat)
    requires i < |headers| && headers[i].isLoad
    ensures headers[i].memoryOffset + headers[i].memorySize <= HighestEnd(headers)
    decreases |headers|
  {
    if i < |headers| - 1 {
      HighestEndBound(headers[..|headers| - 1], i);
    }
  }

  /** The reserved memory: the segments' extent, in whole pages. */
  function Reservation(headers: seq<ProgramHeader>, page: nat): int
    requires page > 0
  {
    RoundUp(HighestEnd(headers), page)
  }

  /**
    Every loaded segment starts on a page boundary of the memory and of the file,
    and lies, rounded up to whole pages, within the reservation.
   */
  lemma SegmentPlacement(headers: seq<ProgramHeader>, i: nat, dataOffset: nat, page: nat)
    requires page > 0 && Aligned(dataOffset, page)
    requires i < |headers| && headers[i].isLoad && Congruent(headers[i], page)
    ensures var h := headers[i];
      && 0 <= MemoryStart(h, page) && 0 <= FileStart(h, dataOffset, page)
      && Aligned(MemoryStart(h, page), page) && Aligned(FileStart(h, dataOffset, page), page)
      && MemoryStart(h, page) + Length(h, page) == h.memoryOffset + h.memorySize
      && MemoryStart(h, page) + RoundUp(Length(h, page), page) <= Reservation(headers, page)
  {
    hide Aligned, RoundUp;
    var h := headers[i];
    SegmentAligned(h, dataOffset, page);
    HighestEndBound(headers, i);
    WithinReservation(MemoryStart(h, page), Length(h, page), HighestEnd(headers), page);
  }

  lemma SegmentAligned(h: ProgramHeader, dataOffset: nat, page: nat)
    requires page > 0 && Aligned(dataOffset, page) && Congruent(h, page)
    ensures 0 <= MemoryStart(h, page) && 0 <= FileStart(h, dataOffset, page)
    ensures Aligned(MemoryStart(h, page), page) && Aligned(FileStart(h, dataOffset, page), page)
  {
    assert MemoryStart(h, page) == RoundDown(h.memoryOffset, page);
    assert FileStart(h, dataOffset, page) == dataOffset + RoundDown(h.fileOffset, page);
    hide RoundDown, Aligned, MemoryStart, FileStart, Congruent;
    RoundDownAligned(h.memoryOffset, page);
    RoundDownAligned(h.fileOffset, page);
    RoundDownNonNegative(h.memoryOffset, page);
    RoundDownNonNegative(h.fileOffset, page);
    AlignedSum(dataOffset, RoundDown(h.fileOffset, page), page);
  }

  lemma WithinReservation(start: int, length: nat, end: nat, page: nat)
    requires page > 0 && Aligned(start, page) && start + length <= end
    ensures start + RoundUp(length, page) <= RoundUp(end, page)
  {
    hide Aligned, RoundUp;
    RoundUpAligned(end, page);
    var total := RoundUp(end, page);
    AlignedSum(start, total - start, page);
    RoundUpLeast(length, total - start, page);
  }

  // ----- The image

  /** Whether the mapping of a segment covers address `a`. */
  predicate Covers(h: ProgramHeader, page: nat, a: int)
    requires page > 0
  {
    h.isLoad && MemoryStart(h, page) <= a < MemoryStart(h, page) + Length(h, page)
  }

  /** The byte that a segment's mapping puts at address `a`. */
  function SegmentByte(h: ProgramHeader, file: seq<Byte>, dataOffset: nat, page: nat, a: int): Byte
    requires page > 0 && Covers(h, page, a) && FileStart(h, dataOffset, page) >= 0
  {
    ByteAt(file, FileStart(h, dataOffset, page) + (a - MemoryStart(h, page)))
  }

  /** The byte at address `a` once the segments are mapped in order: the last mapping that covers it counts. */
  ghost function ImageByte(headers: seq<ProgramHeader>, file: seq<Byte>, dataOffset: nat, page: nat, a: int): Byte
    requires page > 0 && forall i | 0 <= i < |headers| :: headers[i].isLoad ==> FileStart(headers[i], dataOffset, page) >= 0
  {
    if headers == [] then 0 else
    var last := headers[|headers| - 1];
    if Covers(last, page, a) then SegmentByte(last, file, dataOffset, page, a)
    else ImageByte(headers[..|headers| - 1], file, dataOffset, page, a)
  }

  /** No two mappings share a page. */
  ghost predicate PageDisjoint(headers: seq<ProgramHeader>, page: nat)
    requires page > 0
  {
    forall i, j | 0 <= i < j < |headers| && headers[i].isLoad && headers[j].isLoad ::
      || MemoryStart(headers[i], page) + RoundUp(Length(headers[i], page), page) <= MemoryStart(headers[j], page)
      || MemoryStart(headers[j], page) + RoundUp(Length(headers[j], page), page) <= MemoryStart(headers[i], page)
  }

  /** With page-disjoint segments, each segment's memory holds its bytes of the file, zero past the end. */
  lemma {:induction false} SegmentContents(headers: seq<ProgramHeader>, file: seq<Byte>, dataOffset: nat, page: nat, i: nat, k: nat)
    requires page > 0 && PageDisjoint(headers, page)
    requires forall j | 0 <= j < |headers| :: headers[j].isLoad ==> FileStart(headers[j], dataOffset, page) >= 0
    requires i < |headers| && headers[i].isLoad && k < headers[i].memorySize
    ensures ImageByte(headers, file, dataOffset, page, headers[i].memoryOffset + k)
         == ByteAt(file, dataOffset + headers[i].fileOffset + k)
    decreases |headers|
  {
    var h, last := headers[i], headers[|headers| - 1];
    RoundUpAligned(Length(h, page), page);
    RoundUpAligned(Length(last, page), page);
    hide RoundUp, Aligned;
    if i < |headers| - 1 {
      SegmentContents(headers[..|headers| - 1], file, dataOffset, page, i, k);
    }
  }

  // ----- Page protection

  /** Whether address `a` lies in the whole pages of a segment's mapping, which get its protection. */
  predicate OnPages(h: ProgramHeader, page: nat, a: int)
    requires page > 0
  {
    h.isLoad && MemoryStart(h, page) <= a < MemoryStart(h, page) + RoundUp(Length(h, page), page)
  }

  /** The protection of a page. */
  datatype Mode = ReadOnly | ReadWrite | ReadExecute

  function ModeFor(f: Flags): Mode {
    if f.write then ReadWrite else if f.execute then ReadExecute else ReadOnly
  }

  /** The protection of address `a` once the segments are mapped in order: the last one counts. */
  ghost function ModeAt(headers: seq<ProgramHeader>, page: nat, a: int): Mode
    requires page > 0
  {
    if headers == [] then ReadWrite else
    var last := headers[|headers| - 1];
    if OnPages(last, page, a) then ModeFor(last.flags) else ModeAt(headers[..|headers| - 1], page, a)
  }

  ghost predicate Writable(headers: seq<ProgramHeader>, page: nat, a: int)
    requires page > 0
  {
    ModeAt(headers, page, a).ReadWrite?
  }

  /** With page-disjoint segments, the pages of each segment allow reading, and what else its flags ask for. */
  lemma {:induction false} SegmentMode(headers: seq<ProgramHeader>, page: nat, i: nat, a: int)
    requires page > 0 && PageDisjoint(headers, page)
    requires i < |headers| && OnPages(headers[i], page, a) && !(headers[i].flags.write && headers[i].flags.execute)
    ensures ModeAt(headers, page, a).ReadWrite? <==> headers[i].flags.write
    ensures ModeAt(headers, page, a).ReadExecute? <==> headers[i].flags.execute
    decreases |headers|
  {
    if i < |headers| - 1 {
      SegmentMode(headers[..|headers| - 1], page, i, a);
    }
  }

  /** Copying a segment writes to no page that is protected by then. */
  ghost predicate CopySafe(headers: seq<ProgramHeader>, h: ProgramHeader, page: nat)
    requires page > 0
  {
    forall a | Covers(h, page, a) :: Writable(headers, page, a)
  }

  /** No segment has a page in common with an earlier one that is not writable. */
  ghost predicate NoSharing(headers: seq<ProgramHeader>, page: nat)
    requires page > 0
  {
    forall i, j | 0 <= i < j < |headers| && headers[i].isLoad && !headers[i].flags.write :: !SharePage(headers[i], headers[j], page)
  }

  ghost predicate SharePage(h: ProgramHeader, g: ProgramHeader, page: nat)
    requires page > 0
  {
    exists a :: OnPages(h, page, a) && OnPages(g, page, a)
  }

  lemma OwnPage(h: ProgramHeader, page: nat, a: int)
    requires page > 0 && OnPages(h, page, a)
    ensures Covers(h, page, RoundDown(a, page)) && OnPages(h, page, RoundDown(a, page))
  {
    RoundDownAligned(h.memoryOffset, page);
    PageStart(MemoryStart(h, page), Length(h, page), a, page);
    RoundUpAligned(Length(h, page), page);
  }

  lemma CoversOnPages(h: ProgramHeader, page: nat, a: int)
    requires page > 0 && Covers(h, page, a)
    ensures OnPages(h, page, a)
  {
    RoundUpAligned(Length(h, page), page);
  }

  /** As long as no copy has hit a protected page, protected is what some earlier segment protects. */
  lemma {:induction false} ProtectedExactly(headers: seq<ProgramHeader>, page: nat, a: int)
    requires page > 0 && NoSharing(headers, page)
    ensures Writable(headers, page, a) <==> forall i | 0 <= i < |headers| && OnPages(headers[i], page, a) :: headers[i].flags.write
    decreases |headers|
  {
    hide OnPages;
    if headers != [] {
      var front, last := headers[..|headers| - 1], headers[|headers| - 1];
      NoSharingFront(headers, page);
      ProtectedExactly(front, page, a);
      assert forall i | 0 <= i < |front| :: front[i] == headers[i];
      if OnPages(last, page, a) {
        forall i | 0 <= i < |front| && OnPages(front[i], page, a) ensures front[i].flags.write {
          LoadedOnPages(front[i], page, a);
          assert SharePage(headers[i], headers[|headers| - 1], page);
        }
      }
    }
  }

  lemma LoadedOnPages(h: ProgramHeader, page: nat, a: int)
    requires page > 0 && OnPages(h, page, a)
    ensures h.isLoad
  {
  }

  lemma NoSharingFront(headers: seq<ProgramHeader>, page: nat)
    requires page > 0 && headers != [] && NoSharing(headers, page)
    ensures NoSharing(headers[..|headers| - 1], page)
  {
    hide SharePage;
  }

  /** The next segment can be copied exactly when it shares no page with an earlier one that is not writable. */
  lemma CopySafeExactly(headers: seq<ProgramHeader>, h: ProgramHeader, page: nat)
    requires page > 0 && NoSharing(headers, page)
    ensures CopySafe(headers, h, page) <==> NoSharing(headers + [h], page)
  {
    var all := headers + [h];
    hide OnPages, Covers, Writable, NoSharing;
    if NoSharing(all, page) {
      forall a | Covers(h, page, a) ensures Writable(headers, page, a) {
        CoversOnPages(h, page, a);
        ProtectedExactly(headers, page, a);
        NotShared(headers, h, page, a);
      }
    }
    if CopySafe(headers, h, page) {
      forall i | 0 <= i < |headers| && headers[i].isLoad && !headers[i].flags.write
        ensures !SharePage(headers[i], h, page)
      {
        forall a ensures !(OnPages(headers[i], page, a) && OnPages(h, page, a)) {
          if OnPages(headers[i], page, a) && OnPages(h, page, a) {
            OwnPage(headers[i], page, a);
            OwnPage(h, page, a);
            ProtectedExactly(headers, page, RoundDown(a, page));
          }
        }
      }
      SharingSplit(headers, h, page);
    }
  }

  lemma NotShared(headers: seq<ProgramHeader>, h: ProgramHeader, page: nat, a: int)
    requires page > 0 && NoSharing(headers + [h], page) && OnPages(h, page, a)
    ensures forall i | 0 <= i < |headers| && OnPages(headers[i], page, a) :: headers[i].flags.write
  {
    var all := headers + [h];
    forall i | 0 <= i < |headers| && OnPages(headers[i], page, a) ensures headers[i].flags.write {
      assert all[i] == headers[i] && all[|headers|] == h;
      assert all[i].isLoad && SharePage(all[i], all[|headers|], page);
    }
  }

  lemma SharingSplit(headers: seq<ProgramHeader>, h: ProgramHeader, page: nat)
    requires page > 0 && NoSharing(headers, page)
    requires forall i | 0 <= i < |headers| && headers[i].isLoad && !headers[i].flags.write :: !SharePage(headers[i], h, page)
    ensures NoSharing(headers + [h], page)
  {
    hide SharePage;
  }

  lemma FirstPage(h: ProgramHeader, page: nat)
    requires page > 0 && h.isLoad && h.memoryOffset < page && h.memoryOffset + h.memorySize > 0
    ensures OnPages(h, page, 0)
  {
    DivModUnique(h.memoryOffset, page, 0, h.memoryOffset);
    RoundUpAligned(Length(h, page), page);
  }

  lemma SharedBy(g: ProgramHeader, h: ProgramHeader, page: nat, a: int)
    requires page > 0 && OnPages(g, page, a) && OnPages(h, page, a) && !g.flags.write
    ensures !NoSharing([g, h], page)
  {
    hide OnPages;
    LoadedOnPages(g, page, a);
    assert [g, h][0] == g && [g, h][1] == h;
    assert SharePage([g, h][0], [g, h][1], page);
  }

  /** A writable segment behind a read-only one on the same page is accepted, and cannot be copied. */
  lemma SharedPage(file: seq<Byte>, page: nat)
    requires page > 32
    ensures var headers := [ProgramHeader(true, Flags(true, false, false), 0, 0, 16, 1),
                            ProgramHeader(true, Flags(true, true, false), 32, 32, 16, 1)];
      AllAccepted(headers, file, 0, page) && !NoSharing(headers, page)
  {
    var g := ProgramHeader(true, Flags(true, false, false), 0, 0, 16, 1);
    var h := ProgramHeader(true, Flags(true, true, false), 32, 32, 16, 1);
    FirstPage(g, page);
    FirstPage(h, page);
    SharedBy(g, h, page, 0);
    DivModUnique(0, page, 0, 0);
    DivModUnique(32, page, 0, 32);
    hide NoSharing;
  }

  // ----- Loading from memory

  /** A copy to a protected page ends the process. */
  datatype Result = Failed | Faulted | Done

  /**
    Copies part of the file into the image, with zeros past the end of the file,
    and then protects the pages.
   */
  method Map(file: seq<Byte>, position: nat, length: nat, image: array<Byte>, modes: array<Mode>, start: nat,
             mapSize: nat, mode: Mode)
    returns (r: Result)
    requires image.Length == modes.Length && length <= mapSize && start + mapSize <= image.Length
    modifies image, modes
    ensures r.Failed? <==> position > |file|
    ensures r.Done? <==> position <= |file| && forall a | start <= a < start + length :: old(modes[a]).ReadWrite?
    ensures r.Done? ==> forall a | 0 <= a < image.Length ::
      image[a] == if start <= a < start + length then ByteAt(file, position + (a - start)) else old(image[a])
    ensures r.Done? ==> forall a | 0 <= a < image.Length ::
      modes[a] == if start <= a < start + mapSize then mode else old(modes[a])
  {
    if position > |file| {
      return Failed;
    }
    var length', remainder := length, 0;
    if position + length > |file| {
      remainder := position + length - |file|;
      length' := |file| - position;
    }
    var k := 0;
    while k < length'
      invariant 0 <= k <= length' && forall a | start <= a < start + k :: old(modes[a]).ReadWrite?
      invariant forall a | 0 <= a < modes.Length :: modes[a] == old(modes[a])
      invariant forall a | 0 <= a < image.Length ::
        image[a] == if start <= a < start + k then ByteAt(file, position + (a - start)) else old(image[a])
      modifies image
    {
      if !modes[start + k].ReadWrite? {
        return Faulted;
      }
      image[start + k] := file[position + k];
      k := k + 1;
    }
    var z := 0;
    while z < remainder
      invariant 0 <= z <= remainder && forall a | start <= a < start + length' + z :: old(modes[a]).ReadWrite?
      invariant forall a | 0 <= a < modes.Length :: modes[a] == old(modes[a])
      invariant forall a | 0 <= a < image.Length ::
        image[a] == if start <= a < start + length' + z then ByteAt(file, position + (a - start)) else old(image[a])
      modifies image
    {
      if !modes[start + length' + z].ReadWrite? {
        return Faulted;
      }
      image[start + length' + z] := 0;
      z := z + 1;
    }
    forall a | start <= a < start + mapSize {
      modes[a] := mode;
    }
    r := Done;
  }

  /**
    Reserves the memory and maps the segments in order.  It completes exactly when
    the reservation does, every segment is loadable, and no segment shares a page
    with an earlier one that is not writable.  The image then holds, at every
    address, the byte of the last segment mapped there, under its protection.
   */
  method LoadSegments(headers: seq<ProgramHeader>, file: seq<Byte>, dataOffset: nat, page: nat, reserves: bool)
    returns (r: Result, image: array<Byte>, modes: array<Mode>)
    requires page > 0 && Aligned(dataOffset, page)
    ensures r.Done? <==> reserves && AllLoadable(headers, file, dataOffset, page) && NoSharing(headers, page)
    ensures r.Failed? ==> !reserves || !AllLoadable(headers, file, dataOffset, page)
    ensures r.Faulted? ==> !NoSharing(headers, page)
    ensures r.Done? ==> image.Length == modes.Length == Reservation(headers, page)
    ensures r.Done? ==> forall i | 0 <= i < |headers| :: headers[i].isLoad ==> FileStart(headers[i], dataOffset, page) >= 0
    ensures r.Done? ==> forall a | 0 <= a < image.Length :: image[a] == ImageByte(headers, file, dataOffset, page, a)
    ensures r.Done? ==> forall a | 0 <= a < modes.Length :: modes[a] == ModeAt(headers, page, a)
  {
    hide NoSharing, AllLoadable, IsPowerOfTwo;
    AllAcceptedExactly(headers, file, dataOffset, page);
    image, modes := new Byte[0], new Mode[0];
    var total := 0;
    for i := 0 to |headers|
      invariant total == HighestEnd(headers[..i])
      invariant forall j | 0 <= j < i && headers[j].isLoad :: IsPowerOfTwo(headers[j].alignment)
    {
      assert headers[..i + 1][..i] == headers[..i];
      var h := headers[i];
      if !h.isLoad { continue; }
      if h.memoryOffset + h.memorySize > total {
        total := h.memoryOffset + h.memorySize;
      }
      if !IsPowerOfTwo(h.alignment) {
        assert !Accepted(headers[i], file, dataOffset, page);
        return Failed, image, modes;
      }
    }
    assert headers[..|headers|] == headers;
    RoundUpAligned(total, page);
    total := RoundUp(total, page);
    if !reserves {
      return Failed, image, modes;
    }
    image := new Byte[total](_ => 0);
    modes := new Mode[total](_ => ReadWrite);
    r := MapSegments(headers, file, dataOffset, page, image, modes);
  }

  predicate AllAccepted(headers: seq<ProgramHeader>, file: seq<Byte>, dataOffset: nat, page: nat)
    requires page > 0
  {
    forall i | 0 <= i < |headers| :: Accepted(headers[i], file, dataOffset, page)
  }

  /** Image and protection are what mapping these segments in order makes of zeroed, writable memory. */
  ghost predicate Loaded(headers: seq<ProgramHeader>, file: seq<Byte>, dataOffset: nat, page: nat, image: array<Byte>,
                         modes: array<Mode>)
    requires page > 0
    reads image, modes
  {
    && image.Length == modes.Length
    && (forall i | 0 <= i < |headers| :: headers[i].isLoad ==> FileStart(headers[i], dataOffset, page) >= 0)
    && (forall a | 0 <= a < image.Length :: image[a] == ImageByte(headers, file, dataOffset, page, a))
    && (forall a | 0 <= a < image.Length :: modes[a] == ModeAt(headers, page, a))
  }

  /** The mapping that a segment's flags ask for. */
  method ChooseMode(f: Flags) returns (ok: bool, mode: Mode)
    ensures ok <==> SupportedFlags(f)
    ensures ok ==> mode == ModeFor(f)
  {
    ok, mode := true, ReadOnly;
    if f == Flags(true, true, false) {
      mode := ReadWrite;
    } else if f == Flags(true, false, true) {
      mode := ReadExecute;
    } else if f == Flags(true, false, false) {
      mode := ReadOnly;
    } else {
      ok := false;
    }
  }

  lemma CopySafeHere(before: seq<ProgramHeader>, h: ProgramHeader, page: nat, modes: array<Mode>)
    requires page > 0 && h.isLoad && 0 <= MemoryStart(h, page) && MemoryStart(h, page) + Length(h, page) <= modes.Length
    requires forall a | 0 <= a < modes.Length :: modes[a] == ModeAt(before, page, a)
    ensures CopySafe(before, h, page) <==>
      forall a | MemoryStart(h, page) <= a < MemoryStart(h, page) + Length(h, page) :: modes[a].ReadWrite?
  {
    hide MemoryStart, Length, ModeAt;
    if CopySafe(before, h, page) {
      forall a | MemoryStart(h, page) <= a < MemoryStart(h, page) + Length(h, page) ensures modes[a].ReadWrite? {
        assert Covers(h, page, a) && Writable(before, page, a);
      }
    }
  }

  /** What a segment makes of loaded memory: its bytes on its addresses, its protection on its pages. */
  lemma OneMoreLoaded(before: seq<ProgramHeader>, h: ProgramHeader, file: seq<Byte>, dataOffset: nat, page: nat,
                      bytes: seq<Byte>, was: seq<Mode>, image: array<Byte>, modes: array<Mode>)
    requires page > 0 && h.isLoad && FileStart(h, dataOffset, page) >= 0 && |bytes| == |was| == image.Length == modes.Length
    requires forall i | 0 <= i < |before| :: before[i].isLoad ==> FileStart(before[i], dataOffset, page) >= 0
    requires forall a | 0 <= a < |bytes| ::
      bytes[a] == ImageByte(before, file, dataOffset, page, a) && was[a] == ModeAt(before, page, a)
    requires forall a | 0 <= a < image.Length ::
      image[a] == if Covers(h, page, a) then SegmentByte(h, file, dataOffset, page, a) else bytes[a]
    requires forall a | 0 <= a < image.Length :: modes[a] == if OnPages(h, page, a) then ModeFor(h.flags) else was[a]
    ensures Loaded(before + [h], file, dataOffset, page, image, modes)
  {
    hide ModeFor, SegmentByte, OnPages, Covers, FileStart;
    assert (before + [h])[..|before|] == before;
  }

  /** Maps one segment. */
  method MapSegment(ghost before: seq<ProgramHeader>, h: ProgramHeader, file: seq<Byte>, dataOffset: nat, page: nat,
                    image: array<Byte>, modes: array<Mode>)
    returns (r: Result)
    requires page > 0 && Aligned(dataOffset, page) && IsPowerOfTwo(h.alignment)
    requires Loaded(before, file, dataOffset, page, image, modes)
    requires h.isLoad && MemoryStart(h, page) + RoundUp(Length(h, page), page) <= image.Length
    modifies image, modes
    ensures r.Failed? <==> !Accepted(h, file, dataOffset, page)
    ensures r.Done? <==> Accepted(h, file, dataOffset, page) && CopySafe(before, h, page)
    ensures r.Done? ==> Loaded(before + [h], file, dataOffset, page, image, modes)
  {
    hide Aligned, RoundUp, IsPowerOfTwo, SupportedFlags, ModeFor, CopySafe, ModeAt, ImageByte;
    if !Congruent(h, page) {
      return Failed;
    }
    SegmentAligned(h, dataOffset, page);
    RoundUpAligned(Length(h, page), page);
    var adjustment := h.memoryOffset % page;
    var memoryStart := h.memoryOffset - adjustment;
    var fileStart := dataOffset + h.fileOffset - adjustment;
    var length := h.memorySize + adjustment;
    var ok, mode := ChooseMode(h.flags);
    if !ok {
      return Failed;
    }
    ghost var bytes, was := image[..], modes[..];
    CopySafeHere(before, h, page, modes);
    r := Map(file, fileStart, length, image, modes, memoryStart, RoundUp(length, page), mode);
    if r.Done? {
      OneMoreLoaded(before, h, file, dataOffset, page, bytes, was, image, modes);
    }
  }

  /** Maps the segments one after the other into zeroed, writable memory. */
  method MapSegments(headers: seq<ProgramHeader>, file: seq<Byte>, dataOffset: nat, page: nat, image: array<Byte>,
                     modes: array<Mode>)
    returns (r: Result)
    requires page > 0 && Aligned(dataOffset, page) && image.Length == modes.Length == Reservation(headers, page)
    requires forall a | 0 <= a < image.Length :: image[a] == 0 && modes[a] == ReadWrite
    requires forall j | 0 <= j < |headers| && headers[j].isLoad :: IsPowerOfTwo(headers[j].alignment)
    modifies image, modes
    ensures r.Done? <==> AllAccepted(headers, file, dataOffset, page) && NoSharing(headers, page)
    ensures r.Failed? ==> !AllAccepted(headers, file, dataOffset, page)
    ensures r.Faulted? ==> !NoSharing(headers, page)
    ensures r.Done? ==> Loaded(headers, file, dataOffset, page, image, modes)
  {
    hide Aligned, RoundUp, IsPowerOfTwo, NoSharing, CopySafe, Loaded, Congruent;
    NothingLoaded(file, dataOffset, page, image, modes);
    for i := 0 to |headers|
      invariant forall j | 0 <= j < i :: Accepted(headers[j], file, dataOffset, page)
      invariant NoSharing(headers[..i], page) && Loaded(headers[..i], file, dataOffset, page, image, modes)
    {
      assert headers[..i + 1] == headers[..i] + [headers[i]];
      var h := headers[i];
      if !h.isLoad {
        SkippedLoaded(headers[..i], h, file, dataOffset, page, image, modes);
        continue;
      }
      InReservation(headers, i, page);
      CopySafeExactly(headers[..i], h, page);
      r := MapSegment(headers[..i], h, file, dataOffset, page, image, modes);
      if !r.Done? {
        SharingPrefix(headers, i + 1, page);
        return;
      }
    }
    assert headers[..|headers|] == headers;
    r := Done;
  }

  lemma NothingLoaded(file: seq<Byte>, dataOffset: nat, page: nat, image: array<Byte>, modes: array<Mode>)
    requires page > 0 && image.Length == modes.Length && forall a | 0 <= a < image.Length :: image[a] == 0 && modes[a] == ReadWrite
    ensures Loaded([], file, dataOffset, page, image, modes) && NoSharing([], page)
  {
  }

  lemma SkippedLoaded(before: seq<ProgramHeader>, h: ProgramHeader, file: seq<Byte>, dataOffset: nat, page: nat,
                      image: array<Byte>, modes: array<Mode>)
    requires page > 0 && !h.isLoad && NoSharing(before, page) && Loaded(before, file, dataOffset, page, image, modes)
    ensures Loaded(before + [h], file, dataOffset, page, image, modes) && NoSharing(before + [h], page)
  {
    assert (before + [h])[..|before|] == before;
    assert forall i | 0 <= i < |before| :: !SharePage(before[i], h, page);
    SharingSplit(before, h, page);
  }

  lemma InReservation(headers: seq<ProgramHeader>, i: nat, page: nat)
    requires page > 0 && i < |headers| && headers[i].isLoad
    ensures MemoryStart(headers[i], page) + RoundUp(Length(headers[i], page), page) <= Reservation(headers, page)
  {
    var h := headers[i];
    RoundDownAligned(h.memoryOffset, page);
    HighestEndBound(headers, i);
    WithinReservation(MemoryStart(h, page), Length(h, page), HighestEnd(headers), page);
  }

  lemma SharingPrefix(headers: seq<ProgramHeader>, n: nat, page: nat)
    requires page > 0 && n <= |headers|
    ensures NoSharing(headers, page) ==> NoSharing(headers[..n], page)
  {
    hide SharePage;
  }

  // ----- Pieces of the file

  /** What a mapping shows: file bytes from `offset` on, zero past the end. */
  function Mapping(file: seq<Byte>, offset: nat, length: nat): seq<Byte> {
    seq<Byte>(length, k requires 0 <= k < length => ByteAt(file, offset + k))
  }

  /**
    Maps the pages around a piece of the file and returns where the piece is in
    the mapping.  With a page-aligned data offset the piece lies inside the
    mapping and holds the requested bytes.
   */
  method MapFilePiece(file: seq<Byte>, dataOffset: nat, start: nat, length: nat, page: nat)
    returns (ok: bool, mapping: seq<Byte>, at: nat)
    requires page > 0
    ensures ok <==> RoundDown(dataOffset + start, page) <= |file|
    ensures ok && Aligned(dataOffset, page) ==>
      at + length <= |mapping| && mapping[at..at + length] == Mapping(file, dataOffset + start, length)
  {
    var adjustment := (dataOffset + start) % page;
    var mappingOffset := dataOffset + start - adjustment;
    PieceFits(dataOffset, start, length, page);
    hide Aligned, RoundUp;
    var mappingLength := RoundUp(dataOffset + start + length, page) - mappingOffset;
    ok, mapping, at := false, [], 0;
    if mappingOffset <= |file| {
      ok, mapping := true, Mapping(file, mappingOffset, mappingLength);
      at := start % page;
    }
  }

  /** The mapping of a piece starts at or before it and ends at or after its end. */
  lemma PieceFits(dataOffset: nat, start: nat, length: nat, page: nat)
    requires page > 0
    ensures 0 <= start % page && 0 <= RoundDown(dataOffset + start, page) <= dataOffset + start
    ensures dataOffset + start + length <= RoundUp(dataOffset + start + length, page)
    ensures Aligned(dataOffset, page) ==> RoundDown(dataOffset + start, page) + start % page == dataOffset + start
  {
    RoundDownAligned(dataOffset + start, page);
    RoundUpAligned(dataOffset + start + length, page);
    hide RoundUp;
    SamePosition(start, dataOffset, page);
    RoundDownNonNegative(dataOffset + start, page);
  }

  /** The position within the page is right exactly for a page-aligned data offset. */
  lemma PiecePosition(dataOffset: nat, start: nat, page: nat)
    requires page > 0
    ensures RoundDown(dataOffset + start, page) + start % page == dataOffset + start <==> Aligned(dataOffset, page)
  {
    SamePosition(start, dataOffset, page);
  }
}
