/** list: the directory listing as text lines, a header from the BAM, one
    line per file in walk order, and the free-block footer. */
module Listing {
  import opened Image
  import opened Bam
  import opened Entry
  import opened Walker
  import opened Chain

  // ---------------------------------------------------------------------
  // Decimal rendering: `String(n)` and `${n}` on a non-negative integer

  function DigitChar(d: nat): (c: char)
    requires d < 10
    ensures '0' <= c <= '9' && c as int - '0' as int == d
  {
    ('0' as int + d) as char
  }

  /** The decimal digits of n, most significant first, without leading zeros. */
  function Decimal(n: nat): (s: string)
    ensures 1 <= |s|
    ensures forall i :: 0 <= i < |s| ==> '0' <= s[i] <= '9'
    ensures |s| > 1 ==> s[0] != '0'
    decreases n
  {
    if n < 10 then [DigitChar(n)] else Decimal(n / 10) + [DigitChar(n % 10)]
  }

  /** The value a string of decimal digits denotes. */
  function DecimalValue(s: string): nat
    requires forall i :: 0 <= i < |s| ==> '0' <= s[i] <= '9'
  {
    if s == [] then 0
    else 10 * DecimalValue(s[..|s| - 1]) + (s[|s| - 1] as int - '0' as int)
  }

  /** Reading the rendered digits back gives the number. */
  lemma {:induction false} DecimalRoundTrip(n: nat)
    ensures DecimalValue(Decimal(n)) == n
    decreases n
  {
    if n >= 10 {
      DecimalRoundTrip(n / 10);
      var s := Decimal(n);
      assert s[..|s| - 1] == Decimal(n / 10);
    }
  }

  function Pow10(k: nat): (r: nat)
    ensures r >= 1
  {
    if k == 0 then 1 else 10 * Pow10(k - 1)
  }

  /** n takes at most k digits exactly when it is below 10^k. */
  lemma {:induction false} DecimalLength(n: nat, k: nat)
    requires 1 <= k
    ensures n < Pow10(k) <==> |Decimal(n)| <= k
    decreases n
  {
    if n >= 10 {
      if k == 1 {
        assert Pow10(1) == 10;
      } else {
        DecimalLength(n / 10, k - 1);
      }
    }
  }

  // ---------------------------------------------------------------------
  // String.prototype.padEnd(width, ' ')

  function Spaces(k: nat): (r: string)
    ensures |r| == k
    ensures forall i :: 0 <= i < k ==> r[i] == ' '
  {
    if k == 0 then "" else Spaces(k - 1) + " "
  }

  /** Pad with spaces up to `width`; a longer string is kept whole. */
  function PadEnd(s: string, width: nat): (r: string)
    ensures |r| == if |s| < width then width else |s|
    ensures r[..|s|] == s
    ensures forall i :: |s| <= i < |r| ==> r[i] == ' '
  {
    if |s| < width then s + Spaces(width - |s|) else s
  }

  // ---------------------------------------------------------------------
  // The lines

  /** A decoded name on screen: each byte becomes the character with that
      code. */
  function NameText(name: seq<byte>): (t: string)
    ensures |t| == |name|
    ensures forall i :: 0 <= i < |name| ==> t[i] as int == name[i]
  {
    seq(|name|, i requires 0 <= i < |name| => name[i] as char)
  }

  const DiskNameWidth: nat := 16
  const SizeWidth: nat := 6
  const QuotedNameWidth: nat := 19

  /** `0 "<name padded to 16>" <id> <dostype>` */
  function HeaderLine(bam: BamInfo): string {
    "0 \"" + PadEnd(NameText(bam.name), DiskNameWidth) + "\" " + bam.id + " " + bam.dosType
  }

  /** `<size padded to 6>"<name>" padded to 19, a space, the type` */
  function FileLine(file: DirectoryEntry): string {
    PadEnd(Decimal(file.size), SizeWidth)
      + PadEnd("\"" + NameText(file.name) + "\"", QuotedNameWidth)
      + " " + Mnemonic(file.fileType)
  }

  /** `<free> BLOCKS FREE` */
  function FooterLine(free: nat): string {
    Decimal(free) + " BLOCKS FREE"
  }

  /** One line per file, in the files' order. */
  function FileLines(files: seq<DirectoryEntry>): (lines: seq<string>)
    ensures |lines| == |files|
    ensures forall i :: 0 <= i < |files| ==> lines[i] == FileLine(files[i])
  {
    if files == [] then []
    else FileLines(files[..|files| - 1]) + [FileLine(files[|files| - 1])]
  }

  /** The whole listing for a BAM and the files of a finished walk. */
  function ListingLines(bam: BamInfo, files: seq<DirectoryEntry>): (lines: seq<string>)
    ensures |lines| == |files| + 2
    ensures lines[0] == HeaderLine(bam)
    ensures forall i :: 0 <= i < |files| ==> lines[i + 1] == FileLine(files[i])
    ensures lines[|files| + 1] == FooterLine(bam.free)
  {
    [HeaderLine(bam)] + FileLines(files) + [FooterLine(bam.free)]
  }

  /** list: read the BAM, walk the directory, then push the header, one line
      per file (the `forEach`) and the footer. The source's walk has no cycle
      guard; the model walks at most 255 sectors, which decides it, and gives
      None exactly when the source would never return. */
  method List(disk: seq<byte>) returns (r: Option<seq<string>>)
    requires ChainReach <= |disk|
    ensures Walk(disk, MaxChainLength).OutOfFuel? ==> r == None
    ensures Walk(disk, MaxChainLength).Finished? ==> r == Some(ListingLines(BamOf(disk), Walk(disk, MaxChainLength).files))
    ensures r == None <==> forall fuel: nat :: Walk(disk, fuel).OutOfFuel?
  {
    var bam := GetBamInfo(disk);
    var walk := GetFileList(disk, MaxChainLength);
    if walk.OutOfFuel? {
      forall fuel: nat
        ensures Walk(disk, fuel).OutOfFuel?
      {
        EndlessBeyond(disk, fuel);
      }
      return None;
    }
    var files := walk.files;
    ghost var header := [HeaderLine(bam)];
    var list := [HeaderLine(bam)];
    var i := 0;
    while i < |files|
      invariant i <= |files|
      invariant list == header + FileLines(files[..i])
    {
      FileLinesStep(files, i, header, list);
      list := list + [FileLine(files[i])];
      i := i + 1;
    }
    assert files[..i] == files;
    list := list + [FooterLine(bam.free)];
    r := Some(list);
  }

  /** Pushing the line of the next file extends the lines of the files so far. */
  lemma FileLinesStep(files: seq<DirectoryEntry>, i: nat, header: seq<string>, list: seq<string>)
    requires i < |files| && list == header + FileLines(files[..i])
    ensures list + [FileLine(files[i])] == header + FileLines(files[..i + 1])
  {
    assert files[..i + 1][..i] == files[..i];
  }

  // ---------------------------------------------------------------------
  // Layout

  /** A header line, whatever the name's length: `0 "`, then the name padded
      to at least 16 columns, then 6 characters besides the id and the DOS
      type, which it ends with. */
  lemma HeaderLineShape(bam: BamInfo)
    ensures var h := HeaderLine(bam);
      && |h| == 6 + (if |bam.name| < DiskNameWidth then DiskNameWidth else |bam.name|) + |bam.id| + |bam.dosType|
      && h[..3] == "0 \""
      && h[|h| - |bam.dosType|..] == bam.dosType
  {
    var padded := PadEnd(NameText(bam.name), DiskNameWidth);
    assert HeaderLine(bam) == ("0 \"" + padded + "\" " + bam.id + " ") + bam.dosType;
  }

  /** A file line, whatever the field widths: it starts with the size in
      decimal, ends with the type, and is as long as the padded size field,
      the padded quoted name and 4 more. */
  lemma FileLineShape(file: DirectoryEntry)
    ensures var line := FileLine(file);
      && |line| == (if |Decimal(file.size)| < SizeWidth then SizeWidth else |Decimal(file.size)|)
         + (if |file.name| + 2 < QuotedNameWidth then QuotedNameWidth else |file.name| + 2) + 4
      && line[..|Decimal(file.size)|] == Decimal(file.size)
      && line[|line| - 3..] == Mnemonic(file.fileType)
  {
    var digits := Decimal(file.size);
    var size := PadEnd(digits, SizeWidth);
    var front := size + PadEnd("\"" + NameText(file.name) + "\"", QuotedNameWidth) + " ";
    var line := FileLine(file);
    assert line == front + Mnemonic(file.fileType);
    assert line[..|digits|] == front[..|digits|] == size[..|digits|];
    assert line[|line| - 3..] == Mnemonic(file.fileType);
  }

  /** The footer: the free count in decimal, then " BLOCKS FREE". */
  lemma FooterLineShape(free: nat)
    ensures var line := FooterLine(free);
      && |line| == |Decimal(free)| + 12
      && line[..|Decimal(free)|] == Decimal(free)
      && line[|Decimal(free)|..] == " BLOCKS FREE"
  {
  }

  /** A disk name of at most 16 bytes fills its field exactly, so the id
      always starts in column 21. */
  lemma HeaderLayout(bam: BamInfo)
    requires |bam.name| <= DiskNameWidth
    ensures var h := HeaderLine(bam);
      && |h| == 22 + |bam.id| + |bam.dosType|
      && h[..3] == "0 \""
      && h[3..3 + |bam.name|] == NameText(bam.name)
      && (forall i :: 3 + |bam.name| <= i < 19 ==> h[i] == ' ')
      && h[19..21] == "\" "
      && h[21..21 + |bam.id|] == bam.id
  {
    var padded := PadEnd(NameText(bam.name), DiskNameWidth);
    var h := HeaderLine(bam);
    assert h == "0 \"" + padded + "\" " + bam.id + " " + bam.dosType;
    assert h[3..19] == padded;
  }

  /** With a size of at most six digits and a name of at most 17 bytes, every
      field of a file line sits in a fixed column: the quoted name at 6, the
      type at 26. */
  lemma FileLineLayout(file: DirectoryEntry)
    requires file.size < Pow10(SizeWidth) && |file.name| <= QuotedNameWidth - 2
    ensures var line := FileLine(file);
      && |line| == 29
      && line[..6] == PadEnd(Decimal(file.size), SizeWidth)
      && line[6] == '"'
      && line[7..7 + |file.name|] == NameText(file.name)
      && line[7 + |file.name|] == '"'
      && line[25] == ' '
      && line[26..] == Mnemonic(file.fileType)
  {
    DecimalLength(file.size, SizeWidth);
    var quoted := "\"" + NameText(file.name) + "\"";
    var line := FileLine(file);
    assert line == PadEnd(Decimal(file.size), SizeWidth) + PadEnd(quoted, QuotedNameWidth)
      + " " + Mnemonic(file.fileType);
    assert line[6..25] == PadEnd(quoted, QuotedNameWidth);
    assert quoted[0] == '"' && quoted[1..1 + |file.name|] == NameText(file.name);
  }

  /** The size column of a file line reads back as the file's size. */
  lemma FileLineSizeReadsBack(file: DirectoryEntry)
    requires file.size < Pow10(SizeWidth)
    ensures var digits := Decimal(file.size);
      && FileLine(file)[..|digits|] == digits
      && DecimalValue(FileLine(file)[..|digits|]) == file.size
  {
    DecimalRoundTrip(file.size);
    var digits := Decimal(file.size);
    var line := FileLine(file);
    DecimalLength(file.size, SizeWidth);
    assert line[..|digits|] == PadEnd(digits, SizeWidth)[..|digits|];
  }

  // ---------------------------------------------------------------------
  // Examples

  lemma PaddedDiskName()
    ensures PadEnd(NameText([0x54, 0x45, 0x53, 0x54, 0x20, 0x44, 0x49, 0x53, 0x4B]), DiskNameWidth)
      == "TEST DISK       "
  {
    assert NameText([0x54, 0x45, 0x53, 0x54, 0x20, 0x44, 0x49, 0x53, 0x4B]) == "TEST DISK";
    assert Spaces(7) == "       ";
  }

  /** A BAM with name "TEST DISK", id "01" and DOS type "2A". */
  lemma HeaderExample()
    ensures HeaderLine(BamInfo('A', [0x54, 0x45, 0x53, 0x54, 0x20, 0x44, 0x49, 0x53, 0x4B], "01", "2A", 664))
      == "0 \"TEST DISK       \" 01 2A"
  {
    PaddedDiskName();
  }

  lemma PaddedSize()
    ensures PadEnd(Decimal(5), SizeWidth) == "5     "
  {
    assert Decimal(5) == "5";
    assert Spaces(5) == "     ";
  }

  lemma PaddedQuotedName()
    ensures PadEnd("\"" + NameText([0x48, 0x45, 0x4C, 0x4C, 0x4F]) + "\"", QuotedNameWidth)
      == "\"HELLO\"            "
  {
    assert NameText([0x48, 0x45, 0x4C, 0x4C, 0x4F]) == "HELLO";
    assert Spaces(12) == "            ";
  }

  /** A five-block program called "HELLO": the size padded to six columns,
      the quoted name to nineteen, then the type. */
  lemma FileLineExample()
    ensures FileLine(DirectoryEntry([0x48, 0x45, 0x4C, 0x4C, 0x4F], 5, PRG, '1', '0'))
      == "5     " + "\"HELLO\"            " + " " + "PRG"
  {
    PaddedSize();
    PaddedQuotedName();
  }

  lemma DecimalSixtySix()
    ensures Decimal(66) == "66"
  {
    assert Decimal(66) == Decimal(6) + "6";
  }

  /** The footer of a disk with 664 free blocks, the count of an empty
      formatted disk. */
  lemma FooterExample()
    ensures FooterLine(664) == "664 BLOCKS FREE"
  {
    DecimalSixtySix();
    assert Decimal(664) == Decimal(66) + "4";
  }
}
