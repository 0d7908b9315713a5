/** getBAMInfo: disk-level metadata read from fixed offsets of the Block
    Availability Map sector (track 18, sector 0). */
module Bam {
  import opened Image

  /** Offsets inside the BAM sector. */
  const DosVersionOffset: nat := 0x02
  const DiskNameOffset: nat := 0x90
  const DiskNameLength: nat := 16
  const IdOffset: nat := 0xA2
  const DosTypeOffset: nat := 0xA5
  /** The per-track BAM entries are 4 bytes long, for tracks 1 to 35, from
      offset 0x04; the first byte of each is the count the source adds up. */
  const EntryStride: nat := 0x04
  const TrackCount: nat := 35

  /** `String.fromCharCode` of one byte: the character with that code. */
  function CharOf(b: byte): (c: char)
    ensures c as int == b
  {
    b as char
  }

  /** The disk name is kept as the raw bytes the source turns into text. */
  datatype BamInfo = BamInfo(
    dosVersionType: char,
    name: seq<byte>,
    id: string,
    dosType: string,
    free: nat)

  /** The first byte of the BAM entries of tracks 1 to k, added up. */
  function FreeSum(disk: seq<byte>, k: nat): (r: nat)
    requires k <= TrackCount && BamBase + SectorSize <= |disk|
    ensures r <= 0xFF * k
  {
    if k == 0 then 0 else FreeSum(disk, k - 1) + disk[BamBase + EntryStride * k]
  }

  /** The metadata getBAMInfo returns for `disk`. */
  function BamOf(disk: seq<byte>): (info: BamInfo)
    requires BamBase + SectorSize <= |disk|
    ensures info.dosVersionType as int == disk[BamBase + DosVersionOffset]
    ensures |info.name| <= DiskNameLength && Padding !in info.name
    ensures |info.id| == 2 && info.id[0] as int == disk[BamBase + IdOffset] && info.id[1] as int == disk[BamBase + IdOffset + 1]
    ensures |info.dosType| == 2 && info.dosType[0] as int == disk[BamBase + DosTypeOffset]
      && info.dosType[1] as int == disk[BamBase + DosTypeOffset + 1]
    ensures info.free <= 0xFF * TrackCount
  {
    BamInfo(
      CharOf(disk[BamBase + DosVersionOffset]),
      StripPadding(disk[BamBase + DiskNameOffset .. BamBase + DiskNameOffset + DiskNameLength]),
      [CharOf(disk[BamBase + IdOffset]), CharOf(disk[BamBase + IdOffset + 1])],
      [CharOf(disk[BamBase + DosTypeOffset]), CharOf(disk[BamBase + DosTypeOffset + 1])],
      FreeSum(disk, TrackCount))
  }

  /** getBAMInfo fills the fields one by one and adds up `free` over the
      offsets 0x04, 0x08, ..., 0x8C. */
  method GetBamInfo(disk: seq<byte>) returns (info: BamInfo)
    requires BamBase + SectorSize <= |disk|
    ensures info == BamOf(disk)
    ensures info.free <= 0xFF * TrackCount
    ensures |info.name| <= DiskNameLength && Padding !in info.name
    ensures |info.id| == 2 && |info.dosType| == 2
  {
    var dosVersionType := CharOf(disk[BamBase + DosVersionOffset]);
    var name := StripPadding(disk[BamBase + DiskNameOffset .. BamBase + DiskNameOffset + DiskNameLength]);
    var id := [CharOf(disk[BamBase + IdOffset])] + [CharOf(disk[BamBase + IdOffset + 1])];
    var dosType := [CharOf(disk[BamBase + DosTypeOffset])] + [CharOf(disk[BamBase + DosTypeOffset + 1])];
    var free: nat := 0;
    var i := 0x04;
    while i <= 0x8C
      invariant 0x04 <= i <= 0x90 && i % EntryStride == 0
      invariant free == FreeSum(disk, i / EntryStride - 1)
    {
      free := free + disk[BamBase + i];
      i := i + 0x04;
    }
    info := BamInfo(dosVersionType, name, id, dosType, free);
  }

  /** `free` is the sum of the 35 bytes at BAM offsets 0x04 * k, k = 1..35,
      and no other byte of the image affects it. */
  lemma {:induction false} FreeSumReadsEntryBytes(d1: seq<byte>, d2: seq<byte>, k: nat)
    requires k <= TrackCount && BamBase + SectorSize <= |d1| && BamBase + SectorSize <= |d2|
    requires forall j :: 1 <= j <= k ==> d1[BamBase + EntryStride * j] == d2[BamBase + EntryStride * j]
    ensures FreeSum(d1, k) == FreeSum(d2, k)
  {
    if k > 0 {
      FreeSumReadsEntryBytes(d1, d2, k - 1);
    }
  }

  /** Every entry byte equal to c gives a free count of 35 * c. */
  lemma {:induction false} FreeSumOfUniformEntries(disk: seq<byte>, c: byte, k: nat)
    requires k <= TrackCount && BamBase + SectorSize <= |disk|
    requires forall j :: 1 <= j <= k ==> disk[BamBase + EntryStride * j] == c
    ensures FreeSum(disk, k) == c * k
  {
    if k > 0 {
      FreeSumOfUniformEntries(disk, c, k - 1);
    }
  }
}
