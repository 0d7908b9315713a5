# A verified model of the c1541 .d64 decoder

`c1541.js` reads a Commodore 1541 floppy image, a 35-track `.d64` file, from a
Node.js `Buffer`. It provides the following views of the image:

- `validate` accepts only the two 35-track image sizes.
- `getBAMInfo` reads the disk's metadata from the Block Availability Map
  (track 18, sector 0, at file offset 0x16500). The metadata is the DOS
  version character, the disk name with its 0xA0 padding removed, the
  two-character id, the DOS type and a free-block count.
- `getDirectoryEntryForOffset` decodes one 32-byte directory slot into an
  entry or rejects it as null. The decisions come from the status byte, read
  through its base-2 string, and from the file's track/sector pointer.
- `getFileList` walks the directory's sector chain from track 18, sector 1,
  and keeps the non-null entries of every sector's eight slots in order. The
  chain step always counts from the start of track 18.
- `list` renders the header line, one line per file, and the
  `<free> BLOCKS FREE` footer.

The model is in seven modules:

| module | models |
|---|---|
| `Image` | shared vocabulary: the byte type, the offsets, `validate` and the removal of the 0xA0 padding |
| `BinaryString` | `toString(2)` on a byte |
| `Entry` | `getDirectoryEntryForOffset` |
| `Bam` | `getBAMInfo` |
| `Walker` | `getFileList` |
| `Chain` | the number of passes the walk can take |
| `Listing` | `list`, together with `String(n)` and `padEnd` |

The image is a `seq<byte>`, where `byte` is the subset type `0..255`.

Where the source updates variables in loops, the model does too:
- `getBAMInfo`'s free-block sum and `getFileList`'s two nested loops are
  methods with loop invariants.
- `list`'s `forEach` is also a method with loop invariants.
- Each method is proved equal to a specification function: `BamOf`, `Walk`
  with its per-sector `SectorEntries`, and `ListingLines`. The lemmas are
  stated about those functions.

The source's directory loop has no bound, so the model's walk takes a fuel
argument. It answers `Finished(files)` or `OutOfFuel(files)`. `Chain` proves
that 255 passes decide the walk. A chain that has not ended after 255 sectors
has entered a cycle, because every sector it can move to is numbered 0x00 to
0xFE. The source's loop then never returns. `List` therefore uses 255 passes
and returns `None` exactly in that case.

The free-block count is the sum of the 35 bytes at BAM offsets 0x04, 0x08,
..., 0x8C, the first byte of each track's BAM entry, exactly as the loop at
c1541.js:152-155 adds them up.

## Model

| member | source | states |
|---|---|---|
| `Image.Validate` | c1541.js:78-93 | true exactly when the image has 683 × 256 bytes or 683 × 257 bytes, the second with one error byte per sector; every other size is rejected |
| `Image.FortyTrackImagesRejected` | c1541.js:83-84 | the 40-track sizes 196608 and 197376, commented out in the source, are rejected |
| `Image.ValidImageCoversDecoder` | c1541.js:80-82 | every image that validate accepts holds the BAM sector and every sector the directory walk can reach |
| `Image.StripPadding` | c1541.js:130 | the `filter(ch => ch !== 0xA0)` result holds no 0xA0, is never longer than its input, and keeps every other byte value exactly as often as the input has it |
| `Image.StripPaddingAppend` | c1541.js:130 | the filter works piecewise on a concatenation, so the kept bytes stay in their original order |
| `Image.StripPaddingKeeps` | c1541.js:130 | a name without 0xA0 bytes comes through unchanged |
| `Image.StripPaddingIdempotent` | c1541.js:130 | filtering twice gives the same result as filtering once |
| `Image.StripPaddingUnpads` | c1541.js:129-130 | a name padded out with 0xA0 bytes decodes back to the name |
| `BinaryString.ToBinaryString` | c1541.js:181 | `toString(2)` gives at least one digit, only '0' and '1' digits, and a leading '1' for every value above zero |
| `BinaryString.BinaryLength` | c1541.js:181 | the string has at most k digits exactly when the value is below 2^k |
| `BinaryString.BinaryDigit` | c1541.js:181 | the j-th digit from the right is bit j of the value |
| `BinaryString.EightDigitByte` | c1541.js:181 | a byte of 0x80 or more prints as exactly eight digits, bit 7 first |
| `BinaryString.ShortByte` | c1541.js:181 | a byte below 0x80 prints as at most seven digits |
| `BinaryString.StatusBits` | c1541.js:181-182 | for a byte of 0x80 or more: bit 7 is 1; bit 6 is set exactly when the byte mod 0x80 is at least 0x40; bits 2..0 spell the byte mod 8 |
| `Entry.TypeOfBits` | c1541.js:184-192 | the switch accepts exactly the three-digit base-2 strings of 0 to 4, and the type it gives has that value as its code; any other string is rejected |
| `Entry.StatusDigits` | c1541.js:181 | the digit string of a status byte: at most seven digits below 0x80; otherwise eight digits, where `closed` is '1', `locked` is bit 6 and the three type digits are bits 2..0 |
| `Entry.DecodeStatus` | c1541.js:181-192 | the status is null exactly when the byte is below 0x80 or its low three bits are 5, 6 or 7. Otherwise the type is DEL, SEQ, PRG, USR or REL for low bits 0 to 4, `closed` is '1' and `locked` is bit 6 |
| `Entry.DecodeEntry` | c1541.js:173-225 | three cases give null: a status byte below 0x80, low status bits of 5 or more, and a zero file track with a zero file sector. Otherwise the entry has the status byte's type, closed and locked; the size is the sum of the bytes at 0x1E and 0x1F (at most 510); the name is the 16 bytes from 0x05 with every 0xA0 removed (at most 16 bytes, none of them 0xA0) |
| `Entry.DecodeEntryReadsSlotFields` | c1541.js:181-216 | a slot's decode depends only on its status byte, file pointer, name bytes and size bytes, not on its position or on any other byte of the image |
| `Entry.ZeroFilePointerRejected` | c1541.js:197-201 | a slot with file track 0 and file sector 0 is null, whatever its status byte |
| `Bam.CharOf` | c1541.js:122 | `String.fromCharCode` of a byte is the character whose code is the byte |
| `Bam.FreeSum` | c1541.js:152-155 | the count over tracks 1..k is at most 255 × k |
| `Bam.BamOf` | c1541.js:113-158 | the BAM metadata: the DOS version character has the code of the byte at 0x02; the name has at most 16 bytes and no 0xA0; the id and DOS type are two characters each, with the codes of the bytes at 0xA2-0xA3 and 0xA5-0xA6; the free count is at most 35 × 255 |
| `Bam.GetBamInfo` | c1541.js:113-158 | the method's result equals the BAM specification. The DOS version is the byte at 0x02 and the name the 16 bytes from 0x90 without the 0xA0 bytes (at most 16 bytes). The id and DOS type are two characters each, from the bytes at 0xA2 and 0xA5. The free count is the sum of the 35 bytes at 0x04, 0x08, ..., 0x8C, so at most 35 × 255 |
| `Bam.FreeSumReadsEntryBytes` | c1541.js:152-155 | only the 35 bytes at BAM offsets 0x04 × k, for k = 1..35, affect the free count |
| `Bam.FreeSumOfUniformEntries` | c1541.js:152-155 | when all those bytes equal c, the count is 35 × c (for example, all ones give 35) |
| `Walker.SectorStart` | c1541.js:257 | the chain step lands on a sector boundary, and for a chain sector below 0xFF on a whole sector between 0x16500 and 0x26400 |
| `Walker.Continues` | c1541.js:238 | the loop can only go on to a chain sector below 0xFF |
| `Walker.NonNullMembers` | c1541.js:247-249 | an entry is kept exactly when some slot decodes to it; nothing that was null is kept |
| `Walker.ScanSector` | c1541.js:240-250 | the inner loop appends the non-null decodes of the slots at 0x00, 0x20, ..., 0xE0, in slot order, to the list it is given |
| `Walker.SectorEntries` | c1541.js:240-250 | a sector contributes at most 8 entries, the non-null decodes of its slots (`Walker.NonNullMembers`) |
| `Walker.WalkFrom` | c1541.js:236-258 | a walk over at most n sectors yields at most 8 × n entries, and the first sector's entries come first |
| `Walker.Walk` | c1541.js:227-262 | the walk of getFileList starts with track 18, sector 1: that sector's entries come first, and at most 8 entries arrive per sector scanned; with no passes it gives nothing |
| `Walker.GetFileList` | c1541.js:227-262 | the nested loops compute `Walk`. They start at 0x16600 (track 18, sector 1), continue while the chain track is not 0 and the chain sector is not 0xFF, and step to 0x16500 + 256 × the chain sector |
| `Walker.WalkStopsAtChainEnd` | c1541.js:236-238 | a sector whose chain track is 0 or whose chain sector is 0xFF is the last one scanned |
| `Walker.WalkFuelMonotone` | c1541.js:238 | once the chain has ended, more passes change nothing |
| `Walker.SectorEntriesIgnoreTrackValues` | c1541.js:240-250 | a sector's entries do not depend on the non-zero value of any sector's chain track byte |
| `Walker.WalkIgnoresChainTrack` | c1541.js:253-257 | the track-18-only limitation: the chain track byte is only compared with 0, so two images whose chain track bytes differ only in their non-zero values give the same walk |
| `Chain.FinishedHasEnd` | c1541.js:236-258 | a walk that finishes within n sectors ends at a first sector of its chain, at a pass below n, and every earlier sector continues |
| `Chain.EndFinishes` | c1541.js:236-258 | a chain that ends at pass k gives a walk that finishes with more than k passes |
| `Chain.FirstEndDistinct` | c1541.js:253-257 | before the chain ends, no sector is visited twice |
| `Chain.FirstEndBelow` | c1541.js:238 | a chain that ends does so within 255 passes |
| `Chain.WalkDecidedWithin` | c1541.js:236-258 | if the walk finishes with any number of passes, it finishes with 255 passes and gives the same files |
| `Chain.EndlessBeyond` | c1541.js:238 | a walk still going after 255 passes never finishes, whatever the bound: the source's loop does not terminate |
| `Listing.Decimal` | c1541.js:273 | `String(n)` gives at least one digit, only decimal digits, and no leading zero |
| `Listing.DecimalRoundTrip` | c1541.js:276 | reading the rendered digits back gives the number |
| `Listing.DecimalLength` | c1541.js:273 | a number takes at most k digits exactly when it is below 10^k |
| `Listing.PadEnd` | c1541.js:273 | `padEnd(w, ' ')` never truncates: the result has length max(|s|, w), starts with s and continues with spaces only |
| `Listing.NameText` | c1541.js:268 | each name byte becomes the character with that code |
| `Listing.HeaderLineShape` | c1541.js:268 | `HeaderLine`, for any name length: the header starts with `0 "`, ends with the DOS type, and is 6 characters longer than the padded name, the id and the DOS type together |
| `Listing.FileLineShape` | c1541.js:272-273 | `FileLine`, for any field widths: a file line starts with the file's size in decimal and ends with its three-letter type; its length is the padded size field, the padded quoted name and 4 more |
| `Listing.FooterLineShape` | c1541.js:276 | `FooterLine`: the footer is the free count in decimal followed by ` BLOCKS FREE` |
| `Listing.FileLines` | c1541.js:271-274 | one line per file, in the files' order |
| `Listing.ListingLines` | c1541.js:264-280 | the listing has \|files\| + 2 lines: the header, then file line i + 1 for file i, then the footer with the free count |
| `Listing.List` | c1541.js:264-280 | for a walk that ends, the header line, the file lines and the footer line. The result is None exactly when the source's directory loop would never return |
| `Listing.HeaderLayout` | c1541.js:268 | a disk name of at most 16 bytes fills its field exactly: the name starts at column 3, spaces run to column 19, and the id starts at column 21 |
| `Listing.FileLineLayout` | c1541.js:272-273 | a size of at most six digits with a name of at most 17 bytes gives a 29-column line. The size field takes columns 0-5 and the quoted name starts at column 6. A space sits at column 25 and the type at columns 26-28 |
| `Listing.FileLineSizeReadsBack` | c1541.js:273 | the size column of a file line reads back as the file's size |
| `Listing.HeaderExample` | c1541.js:268 | the disk "TEST DISK" with id "01" and DOS type "2A" gives `0 "TEST DISK       " 01 2A` |
| `Listing.FileLineExample` | c1541.js:272-273 | a five-block PRG named "HELLO" gives `5     "HELLO"             PRG` |
| `Listing.FooterExample` | c1541.js:276 | 664 free blocks give `664 BLOCKS FREE` |

## Left out

- `attach` (c1541.js:102-104) reads a file with `fs.readFileSync`. That is I/O, so the model takes the image as a byte sequence.
- `index.js`, the command-line wrapper that prints the listing, is not part of this model.
- Text decoding of names: `Buffer.toString()` decodes the filtered name bytes as UTF-8, and `padEnd` counts the UTF-16 units of that text. The model keeps the names as raw bytes (`BamInfo.name`, `DirectoryEntry.name`).
- Listing.NameText: renders each name byte as the character with that code, while `Buffer.toString()` decodes UTF-8, so the two agree only for bytes below 0x80.
- Reads past the end of a short buffer: the source sees `undefined` there. For example, `getDirectoryEntryForOffset` then fails at `.toString(2)`. `getBAMInfo` and `getDirectoryEntryForOffset` are modelled with preconditions that the image reaches every offset they read. The walk (`Walker.WalkFrom`, `Walker.Walk`, `Walker.GetFileList`, `Listing.List`) requires more: every sector the chain could reach, up to 0x16500 + 0xFE × 256 + 256 = 0x26400 bytes, even when the chain ends sooner. A short buffer whose chain ends early, which the source lists without reading out of range, is therefore outside the model. `Image.ValidImageCoversDecoder` shows that every image `validate` accepts holds all of it.
- The unbounded `while` loop of getFileList: the model walks at most `fuel` sectors.
  - `Chain.WalkDecidedWithin` shows that 255 sectors decide the walk, so `Listing.List` loses nothing against the source except the hang itself, which it reports as `None`.
- `closed` and `locked` are one-character JavaScript strings. They are modelled as `char`.
- The JavaScript object shapes (`{name, size, type, closed, locked}` and the BAM object's field names) are modelled as the datatypes `DirectoryEntry` and `BamInfo`. An entry's type is given as the enum `FileType`, with its three-letter mnemonic (`Entry.Mnemonic`) used by the listing.
