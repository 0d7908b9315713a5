/** getFileList: follow the directory's sector chain from track 18, sector 1,
    decoding the eight slots of every sector visited. */
module Walker {
  import opened Image
  import opened Entry

  const SlotsPerSector: nat := 8

  /** The file offset the chain step computes for a sector number. It always
      counts from the start of track 18, whatever track the chain link names. */
  function SectorStart(sector: nat): (start: nat)
    ensures start % SectorSize == 0
    ensures sector < 0xFF ==> BamBase <= start && start + SectorSize <= ChainReach
  {
    BamBase + SectorSize * sector
  }

  /** The loop goes on only while the chain track is not 0 and the chain
      sector is not 0xFF. */
  predicate Continues(track: byte, sector: byte)
    ensures Continues(track, sector) ==> sector < 0xFF
  {
    track != 0 && sector != 0xFF
  }

  /** The decodes of the eight slots of the sector at `start`, in slot order. */
  function SlotDecodes(disk: seq<byte>, start: nat): (slots: seq<Option<DirectoryEntry>>)
    requires start + SectorSize <= |disk|
    ensures |slots| == SlotsPerSector
  {
    seq(SlotsPerSector, j requires 0 <= j < SlotsPerSector => DecodeEntry(disk, start + SlotSize * j))
  }

  lemma SlotDecodeAt(disk: seq<byte>, start: nat, j: nat, entry: Option<DirectoryEntry>)
    requires j < SlotsPerSector && start + SectorSize <= |disk|
    requires entry == DecodeEntry(disk, start + SlotSize * j)
    ensures SlotDecodes(disk, start)[j] == entry
  {
  }

  /** The entries of the slots that are not null, in order. */
  function NonNull(slots: seq<Option<DirectoryEntry>>): (r: seq<DirectoryEntry>)
    ensures |r| <= |slots|
  {
    if slots == [] then []
    else
      var last := slots[|slots| - 1];
      NonNull(slots[..|slots| - 1]) + (if last.Some? then [last.value] else [])
  }

  /** Taking one more slot appends its entry, if it has one. */
  lemma NonNullStep(slots: seq<Option<DirectoryEntry>>, n: nat)
    requires n < |slots|
    ensures NonNull(slots[..n + 1]) ==
      NonNull(slots[..n]) + (if slots[n].Some? then [slots[n].value] else [])
  {
    assert slots[..n + 1][..n] == slots[..n];
  }

  /** The inner loop's step: appending slot n's entry, if any, to the
      entries of the slots before it. */
  lemma ScanStep(slots: seq<Option<DirectoryEntry>>, n: nat, list0: seq<DirectoryEntry>, list: seq<DirectoryEntry>)
    requires n < |slots| && list == list0 + NonNull(slots[..n])
    ensures (if slots[n].Some? then list + [slots[n].value] else list) == list0 + NonNull(slots[..n + 1])
  {
    NonNullStep(slots, n);
    if slots[n].Some? {
      assert list + [slots[n].value] == list0 + (NonNull(slots[..n]) + [slots[n].value]);
    }
  }

  /** An entry is kept exactly when some slot decodes to it. */
  lemma {:induction false} NonNullMembers(slots: seq<Option<DirectoryEntry>>, x: DirectoryEntry)
    ensures x in NonNull(slots) <==> Some(x) in slots
  {
    if slots != [] {
      var init := slots[..|slots| - 1];
      NonNullMembers(init, x);
      assert slots == init + [slots[|slots| - 1]];
    }
  }

  /** The entries one directory sector contributes. */
  function SectorEntries(disk: seq<byte>, start: nat): (r: seq<DirectoryEntry>)
    requires start + SectorSize <= |disk|
    ensures |r| <= SlotsPerSector
  {
    NonNull(SlotDecodes(disk, start))
  }

  /** The source's loop has no bound; the model gives it `fuel` sectors and
      says whether the chain ended within them. */
  datatype WalkResult = Finished(files: seq<DirectoryEntry>) | OutOfFuel(files: seq<DirectoryEntry>)
  {
    function Prepend(entries: seq<DirectoryEntry>): (r: WalkResult)
      ensures r.Finished? == Finished? && r.files == entries + files
    {
      match this
      case Finished(f) => Finished(entries + f)
      case OutOfFuel(f) => OutOfFuel(entries + f)
    }
  }

  lemma PrependTwice(r: WalkResult, first: seq<DirectoryEntry>, second: seq<DirectoryEntry>)
    ensures r.Prepend(first).Prepend(second) == r.Prepend(second + first)
  {
    assert second + (first + r.files) == (second + first) + r.files;
  }

  /** The walk from the sector at `start`, scanning at most `fuel` sectors. */
  function WalkFrom(disk: seq<byte>, start: nat, fuel: nat): (r: WalkResult)
    requires ChainReach <= |disk| && start + SectorSize <= |disk|
    ensures |r.files| <= SlotsPerSector * fuel
    ensures fuel > 0 ==> SectorEntries(disk, start) <= r.files
    decreases fuel
  {
    if fuel == 0 then OutOfFuel([])
    else
      var here := SectorEntries(disk, start);
      if Continues(disk[start], disk[start + 1]) then
        WalkFrom(disk, SectorStart(disk[start + 1]), fuel - 1).Prepend(here)
      else
        Finished(here)
  }

  /** One sector of the walk: scan it, then follow its chain pointer or stop. */
  lemma WalkStep(disk: seq<byte>, start: nat, fuel: nat)
    requires ChainReach <= |disk| && start + SectorSize <= |disk| && fuel > 0
    ensures WalkFrom(disk, start, fuel) ==
      if Continues(disk[start], disk[start + 1])
      then WalkFrom(disk, SectorStart(disk[start + 1]), fuel - 1).Prepend(SectorEntries(disk, start))
      else Finished(SectorEntries(disk, start))
  {
  }

  /** The walk getFileList performs: it starts at track 18, sector 1. */
  function Walk(disk: seq<byte>, fuel: nat): (r: WalkResult)
    requires ChainReach <= |disk|
    ensures |r.files| <= SlotsPerSector * fuel
    ensures fuel > 0 ==> SectorEntries(disk, DirectoryStart) <= r.files
    ensures fuel == 0 ==> r == OutOfFuel([])
  {
    WalkFrom(disk, DirectoryStart, fuel)
  }

  /** getFileList with at most `fuel` passes of its outer loop: scan the eight
      slots at stride 0x20, keep what decodes, then step along the chain. */
  method GetFileList(disk: seq<byte>, fuel: nat) returns (r: WalkResult)
    requires ChainReach <= |disk|
    ensures r == Walk(disk, fuel)
  {
    var start: nat := DirectoryStart;
    var list: seq<DirectoryEntry> := [];
    // the initial link 18/4 only gets the loop started
    var nextListingTrack: byte := 0x12;
    var nextListingSector: byte := 0x04;
    var passes := 0;
    while Continues(nextListingTrack, nextListingSector) && passes < fuel
      invariant passes <= fuel
      invariant Continues(nextListingTrack, nextListingSector) ==>
        start + SectorSize <= |disk| && Walk(disk, fuel) == WalkFrom(disk, start, fuel - passes).Prepend(list)
      invariant !Continues(nextListingTrack, nextListingSector) ==> Walk(disk, fuel) == Finished(list)
      decreases fuel - passes
    {
      ghost var before := list;
      list := ScanSector(disk, start, list);
      ghost var here := SectorEntries(disk, start);
      WalkStep(disk, start, fuel - passes);
      if Continues(disk[start], disk[start + 1]) {
        PrependTwice(WalkFrom(disk, SectorStart(disk[start + 1]), fuel - passes - 1), here, before);
      }
      nextListingTrack := disk[start];
      nextListingSector := disk[start + 0x01];
      start := SectorStart(nextListingSector);
      passes := passes + 1;
    }
    if Continues(nextListingTrack, nextListingSector) {
      r := OutOfFuel(list);
    } else {
      r := Finished(list);
    }
  }

  /** The inner `for` loop of getFileList: decode the slots at offsets 0x00,
      0x20, ..., 0xE0 of the sector and append every entry that is not null. */
  method ScanSector(disk: seq<byte>, start: nat, list0: seq<DirectoryEntry>) returns (list: seq<DirectoryEntry>)
    requires start + SectorSize <= |disk|
    ensures list == list0 + SectorEntries(disk, start)
  {
    ghost var slots := SlotDecodes(disk, start);
    list := list0;
    var i := 0x00;
    ghost var slot := 0;
    while i <= 0xE0
      invariant slot <= SlotsPerSector && i == SlotSize * slot
      invariant list == list0 + NonNull(slots[..slot])
    {
      var entry := DecodeEntry(disk, start + i);
      SlotDecodeAt(disk, start, slot, entry);
      ScanStep(slots, slot, list0, list);
      if entry.Some? {
        list := list + [entry.value];
      }
      i := i + 0x20;
      slot := slot + 1;
    }
    assert slots[..slot] == slots;
  }

  /** More fuel changes nothing once the chain has ended. */
  lemma {:induction false} WalkFuelMonotone(disk: seq<byte>, start: nat, fuel: nat, more: nat)
    requires ChainReach <= |disk| && start + SectorSize <= |disk|
    requires WalkFrom(disk, start, fuel).Finished? && fuel <= more
    ensures WalkFrom(disk, start, more) == WalkFrom(disk, start, fuel)
    decreases fuel
  {
    WalkStep(disk, start, fuel);
    WalkStep(disk, start, more);
    if Continues(disk[start], disk[start + 1]) {
      WalkFuelMonotone(disk, SectorStart(disk[start + 1]), fuel - 1, more - 1);
    }
  }

  /** A sector whose chain track is 0 or whose chain sector is 0xFF is the
      last one scanned. */
  lemma WalkStopsAtChainEnd(disk: seq<byte>, start: nat, fuel: nat)
    requires ChainReach <= |disk| && start + SectorSize <= |disk|
    requires fuel > 0 && !Continues(disk[start], disk[start + 1])
    ensures WalkFrom(disk, start, fuel) == Finished(SectorEntries(disk, start))
  {
  }

  /** Two images that differ at most in the values of chain track bytes
      (offset 0 of a sector), where either both are 0 or neither is. */
  predicate SameButTrackValues(d1: seq<byte>, d2: seq<byte>) {
    && |d1| == |d2|
    && forall k :: 0 <= k < |d1| ==>
         if k % SectorSize == 0 then (d1[k] == 0 <==> d2[k] == 0) else d1[k] == d2[k]
  }

  lemma InsideSlot(o: nat, k: nat)
    requires o % SlotSize == 0 && o + StatusOffset <= k < o + SlotSize
    ensures k % SectorSize != 0
  {
    var a, b := o / SlotSize, k / SectorSize;
    assert o == SlotSize * a;
    assert k == SectorSize * b + k % SectorSize;
  }

  /** A sector's slots decode alike in two images that differ only in
      chain track values. */
  lemma SectorEntriesIgnoreTrackValues(d1: seq<byte>, d2: seq<byte>, start: nat)
    requires start + SectorSize <= |d1| && start % SectorSize == 0
    requires SameButTrackValues(d1, d2)
    ensures SectorEntries(d1, start) == SectorEntries(d2, start)
  {
    var slots1, slots2 := SlotDecodes(d1, start), SlotDecodes(d2, start);
    forall j | 0 <= j < SlotsPerSector
      ensures slots1[j] == slots2[j]
    {
      var o := start + SlotSize * j;
      SlotAligned(start, j);
      SlotFieldsIgnoreTrackValues(d1, d2, o);
      DecodeEntryReadsSlotFields(d1, o, d2, o);
    }
    assert slots1 == slots2;
  }

  /** Inside a slot, every byte decoding reads lies off the sector's first
      byte, so the two images agree on it. */
  lemma SlotFieldsIgnoreTrackValues(d1: seq<byte>, d2: seq<byte>, o: nat)
    requires o % SlotSize == 0 && o + SlotSize <= |d1|
    requires SameButTrackValues(d1, d2)
    ensures SameSlotFields(d1, o, d2, o)
  {
    forall k | o + StatusOffset <= k < o + SlotSize
      ensures d1[k] == d2[k]
    {
      InsideSlot(o, k);
    }
    assert d1[o + NameOffset .. o + NameOffset + NameLength] == d2[o + NameOffset .. o + NameOffset + NameLength];
  }

  lemma SlotAligned(start: nat, k: nat)
    requires start % SectorSize == 0
    ensures (start + SlotSize * k) % SlotSize == 0
  {
  }

  lemma SectorAlignedApart(start: nat)
    requires start % SectorSize == 0
    ensures (start + 1) % SectorSize != 0
  {
  }

  /** The documented "track 18 only" limitation: a chain track byte is only
      ever compared with 0, so images whose chain track bytes differ only in
      their non-zero values give the same walk. */
  lemma {:induction false} WalkIgnoresChainTrack(d1: seq<byte>, d2: seq<byte>, start: nat, fuel: nat)
    requires ChainReach <= |d1| && start + SectorSize <= |d1| && start % SectorSize == 0
    requires SameButTrackValues(d1, d2)
    ensures WalkFrom(d1, start, fuel) == WalkFrom(d2, start, fuel)
    decreases fuel
  {
    if fuel > 0 {
      SectorEntriesIgnoreTrackValues(d1, d2, start);
      var here := SectorEntries(d1, start);
      SectorAlignedApart(start);
      assert d1[start + 1] == d2[start + 1];
      assert Continues(d1[start], d1[start + 1]) == Continues(d2[start], d2[start + 1]);
      WalkStep(d1, start, fuel);
      WalkStep(d2, start, fuel);
      if Continues(d1[start], d1[start + 1]) {
        WalkIgnoresChainTrack(d1, d2, SectorStart(d1[start + 1]), fuel - 1);
      }
    }
  }
}
