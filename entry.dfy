/** getDirectoryEntryForOffset: one 32-byte directory slot, decoded into an
    entry or rejected. */
module Entry {
  import opened Image
  import opened BinaryString

  /** Offsets inside a slot. Bytes 0x00-0x01 (the sector's chain pointer in
      the first slot) and 0x15-0x1D (REL and GEOS data) are never read here. */
  const SlotSize: nat := 0x20
  const StatusOffset: nat := 0x02
  const FileTrackOffset: nat := 0x03
  const FileSectorOffset: nat := 0x04
  const NameOffset: nat := 0x05
  const NameLength: nat := 16
  const SizeLowOffset: nat := 0x1E
  const SizeHighOffset: nat := 0x1F

  datatype FileType = DEL | SEQ | PRG | USR | REL

  /** The three-letter name the listing shows. */
  function Mnemonic(t: FileType): (s: string)
    ensures |s| == 3
  {
    match t
    case DEL => "DEL"
    case SEQ => "SEQ"
    case PRG => "PRG"
    case USR => "USR"
    case REL => "REL"
  }

  /** The value of the low three status bits that selects each type. */
  function TypeCode(t: FileType): (c: nat)
    ensures c < 5
  {
    match t
    case DEL => 0
    case SEQ => 1
    case PRG => 2
    case USR => 3
    case REL => 4
  }

  /** The value of a base-2 digit. */
  function DigitValue(c: char): (v: nat)
    ensures v < 2
  {
    if c == '1' then 1 else 0
  }

  /** The switch over the joined type digits: exactly the three-digit binary
      strings of 0 to 4 are accepted, each giving the type with that code;
      anything else is rejected. */
  function TypeOfBits(bits: string): (r: Option<FileType>)
    ensures r.Some? <==>
      && |bits| == 3
      && (forall i :: 0 <= i < 3 ==> bits[i] == '0' || bits[i] == '1')
      && 4 * DigitValue(bits[0]) + 2 * DigitValue(bits[1]) + DigitValue(bits[2]) < 5
    ensures r.Some? ==> TypeCode(r.value) == 4 * DigitValue(bits[0]) + 2 * DigitValue(bits[1]) + DigitValue(bits[2])
  {
    if bits == "000" then Some(DEL)
    else if bits == "001" then Some(SEQ)
    else if bits == "010" then Some(PRG)
    else if bits == "011" then Some(USR)
    else if bits == "100" then Some(REL)
    else None
  }

  /** What the status byte yields: the type, and the one-character strings
      the source keeps as `closed` and `locked`. */
  datatype Status = Status(fileType: FileType, closed: char, locked: char)

  /** `let [closed, locked,,,, ...typeBits] = status.toString(2).split('')`
      followed by the switch on `typeBits.join('')`. The string has no leading
      zeros, so a byte below 0x80 leaves fewer than three type digits and is
      rejected, whatever its low bits. */
  function DecodeStatus(status: byte): (r: Option<Status>)
    ensures r.None? <==> status < 0x80 || status % 8 >= 5
    ensures r.Some? ==> TypeCode(r.value.fileType) == status % 8
    ensures r.Some? ==> r.value.closed == '1'
    ensures r.Some? ==> r.value.locked == (if status % 0x80 >= 0x40 then '1' else '0')
  {
    StatusDigits(status);
    var bits := ToBinaryString(status);
    var typeBits := if |bits| > 5 then bits[5..] else "";
    match TypeOfBits(typeBits)
    case None => None
    case Some(t) => Some(Status(t, bits[0], bits[1]))
  }

  /** The digit string of a status byte: at most seven digits below 0x80,
      otherwise bits 7..0 in that order. */
  lemma StatusDigits(status: byte)
    ensures status < 0x80 ==> |ToBinaryString(status)| <= 7
    ensures status >= 0x80 ==>
      var bits := ToBinaryString(status);
      && |bits| == 8
      && bits[0] == '1'
      && bits[1] == (if status % 0x80 >= 0x40 then '1' else '0')
      && bits[5..] == [Digit(Bit(status, 2)), Digit(Bit(status, 1)), Digit(Bit(status, 0))]
      && 4 * Bit(status, 2) + 2 * Bit(status, 1) + Bit(status, 0) == status % 8
  {
    if status < 0x80 {
      ShortByte(status);
    } else {
      EightDigitByte(status);
      StatusBits(status);
      var bits := ToBinaryString(status);
      assert bits[5..] == [bits[5], bits[6], bits[7]];
    }
  }

  datatype DirectoryEntry = DirectoryEntry(
    name: seq<byte>,
    size: nat,
    fileType: FileType,
    closed: char,
    locked: char)

  /** One slot at `offset`: rejected for an unrecognised status byte or for a
      zero file track and sector; otherwise the padded name with every 0xA0
      removed and the two size bytes added. */
  function DecodeEntry(disk: seq<byte>, offset: nat): (r: Option<DirectoryEntry>)
    requires offset + SlotSize <= |disk|
    ensures r.None? <==>
      || disk[offset + StatusOffset] < 0x80
      || disk[offset + StatusOffset] % 8 >= 5
      || (disk[offset + FileTrackOffset] == 0 && disk[offset + FileSectorOffset] == 0)
    ensures r.Some? ==>
      && TypeCode(r.value.fileType) == disk[offset + StatusOffset] % 8
      && r.value.closed == '1'
      && r.value.locked == (if disk[offset + StatusOffset] % 0x80 >= 0x40 then '1' else '0')
    ensures r.Some? ==>
      && r.value.size == disk[offset + SizeLowOffset] as int + disk[offset + SizeHighOffset]
      && r.value.size <= 2 * 0xFF
    ensures r.Some? ==>
      && r.value.name == StripPadding(disk[offset + NameOffset .. offset + NameOffset + NameLength])
      && |r.value.name| <= NameLength
      && Padding !in r.value.name
  {
    match DecodeStatus(disk[offset + StatusOffset])
    case None => None
    case Some(status) =>
      if disk[offset + FileTrackOffset] == 0 && disk[offset + FileSectorOffset] == 0 then None
      else
        Some(DirectoryEntry(
          StripPadding(disk[offset + NameOffset .. offset + NameOffset + NameLength]),
          disk[offset + SizeLowOffset] as int + disk[offset + SizeHighOffset],
          status.fileType,
          status.closed,
          status.locked))
  }

  /** The bytes of a slot that decoding reads: status, file track and sector,
      name, and the two size bytes. */
  predicate SameSlotFields(d1: seq<byte>, o1: nat, d2: seq<byte>, o2: nat)
    requires o1 + SlotSize <= |d1| && o2 + SlotSize <= |d2|
  {
    && d1[o1 + StatusOffset] == d2[o2 + StatusOffset]
    && d1[o1 + FileTrackOffset] == d2[o2 + FileTrackOffset]
    && d1[o1 + FileSectorOffset] == d2[o2 + FileSectorOffset]
    && d1[o1 + NameOffset .. o1 + NameOffset + NameLength]
       == d2[o2 + NameOffset .. o2 + NameOffset + NameLength]
    && d1[o1 + SizeLowOffset] == d2[o2 + SizeLowOffset]
    && d1[o1 + SizeHighOffset] == d2[o2 + SizeHighOffset]
  }

  /** A slot's decode depends on those bytes only: neither on where the slot
      sits nor on any other byte of the image. */
  lemma DecodeEntryReadsSlotFields(d1: seq<byte>, o1: nat, d2: seq<byte>, o2: nat)
    requires o1 + SlotSize <= |d1| && o2 + SlotSize <= |d2|
    requires SameSlotFields(d1, o1, d2, o2)
    ensures DecodeEntry(d1, o1) == DecodeEntry(d2, o2)
  {
  }

  /** A slot whose file track and sector are both zero is unused, whatever
      its status byte says. */
  lemma ZeroFilePointerRejected(disk: seq<byte>, offset: nat)
    requires offset + SlotSize <= |disk|
    requires disk[offset + FileTrackOffset] == 0 && disk[offset + FileSectorOffset] == 0
    ensures DecodeEntry(disk, offset) == None
  {
  }
}
