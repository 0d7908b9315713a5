/** The vocabulary shared by every part of the .d64 decoder: bytes, the fixed
    offsets the decoder hard-codes, the size check that gates decoding, and the
    removal of the 0xA0 padding byte from names. */
module Image {

  /** One byte of the image buffer, as a Node.js Buffer element reads it. */
  type byte = x: int | 0 <= x < 256

  datatype Option<T> = None | Some(value: T)

  /** Bytes per sector (block). */
  const SectorSize: nat := 0x100
  /** Sectors on a 35-track disk: 17 tracks of 21, 7 of 19, 6 of 18 and 5 of 17. */
  const SectorCount: nat := 21 * 17 + 19 * 7 + 18 * 6 + 17 * 5
  /** File offset of track 18, sector 0: the Block Availability Map. */
  const BamBase: nat := 0x16500
  /** File offset of track 18, sector 1: where the directory listing starts. */
  const DirectoryStart: nat := 0x16600
  /** The byte that pads disk and file names to 16 characters. */
  const Padding: byte := 0xA0
  /** One past the last byte the directory walk can read: the chain step lands
      at BamBase + SectorSize * s for a sector byte s other than 0xFF. */
  const ChainReach: nat := BamBase + 0xFF * SectorSize

  /** validate: only the two 35-track image sizes are accepted, without and
      with the trailing error byte per sector. */
  function Validate(disk: seq<byte>): (ok: bool)
    ensures ok <==> |disk| == SectorCount * SectorSize
                    || |disk| == SectorCount * SectorSize + SectorCount
  {
    match |disk|
    case 174848 => true
    case 175531 => true
    case _ => false
  }

  /** Every image validate accepts holds the BAM sector and every sector the
      directory walk can reach. */
  lemma ValidImageCoversDecoder(disk: seq<byte>)
    requires Validate(disk)
    ensures DirectoryStart == BamBase + SectorSize
    ensures BamBase + SectorSize <= ChainReach <= |disk|
  {
  }

  /** The 40-track sizes, which the source keeps commented out, are rejected. */
  lemma FortyTrackImagesRejected(disk: seq<byte>)
    requires |disk| == 196608 || |disk| == 197376
    ensures !Validate(disk)
  {
  }

  /** `.filter(ch => ch !== 0xA0)`: drop every padding byte, wherever it
      sits, and keep the others. */
  function StripPadding(s: seq<byte>): (r: seq<byte>)
    ensures |r| <= |s|
    ensures Padding !in r
    ensures forall b :: b != Padding ==> multiset(r)[b] == multiset(s)[b]
  {
    if s == [] then []
    else
      assert s == [s[0]] + s[1..];
      if s[0] == Padding then StripPadding(s[1..])
      else [s[0]] + StripPadding(s[1..])
  }

  /** Stripping works piecewise, so the kept bytes stay in their order. */
  lemma {:induction false} StripPaddingAppend(a: seq<byte>, b: seq<byte>)
    ensures StripPadding(a + b) == StripPadding(a) + StripPadding(b)
  {
    if a == [] {
      assert a + b == b;
    } else {
      assert (a + b)[1..] == a[1..] + b;
      StripPaddingAppend(a[1..], b);
    }
  }

  /** A sequence without padding bytes comes through unchanged. */
  lemma {:induction false} StripPaddingKeeps(s: seq<byte>)
    requires Padding !in s
    ensures StripPadding(s) == s
  {
    if s != [] {
      StripPaddingKeeps(s[1..]);
    }
  }

  /** Stripping twice is stripping once. */
  lemma StripPaddingIdempotent(s: seq<byte>)
    ensures StripPadding(StripPadding(s)) == StripPadding(s)
  {
    StripPaddingKeeps(StripPadding(s));
  }

  /** k padding bytes. */
  function Pads(k: nat): (r: seq<byte>)
    ensures |r| == k
    ensures forall i :: 0 <= i < k ==> r[i] == Padding
  {
    if k == 0 then [] else Pads(k - 1) + [Padding]
  }

  /** A name padded to its field with 0xA0 decodes back to the name. */
  lemma {:induction false} StripPaddingUnpads(name: seq<byte>, k: nat)
    requires Padding !in name
    ensures StripPadding(name + Pads(k)) == name
  {
    StripPaddingAppend(name, Pads(k));
    StripPaddingKeeps(name);
    StripAllPads(k);
  }

  lemma {:induction false} StripAllPads(k: nat)
    ensures StripPadding(Pads(k)) == []
  {
    if k > 0 {
      StripPaddingAppend(Pads(k - 1), [Padding]);
      StripAllPads(k - 1);
    }
  }
}
