/**
 The filesystem profile registry: the closed set of supported filesystems,
 their names, and the two fixed tables the sanitizer consults — the illegal
 characters and the length rule (limit, unit, encoding, normal form).
 */
module Profiles {
  import opened Unicode
  import opened Outcomes

  /** Every filesystem that is a key of both tables. */
  datatype Filesystem =
    | Btrfs | Ext | Ext2 | Ext3 | Ext3cow | Ext4 | Exfat | Fat32
    | HfsPlus | NtfsWin32 | NtfsPosix | Reiser4 | Reiserfs | Xfs | Zfs

  /** The case-sensitive identifier the tables are keyed by. */
  function Name(fs: Filesystem): string {
    match fs
    case Btrfs => "btrfs"
    case Ext => "ext"
    case Ext2 => "ext2"
    case Ext3 => "ext3"
    case Ext3cow => "ext3cow"
    case Ext4 => "ext4"
    case Exfat => "exfat"
    case Fat32 => "fat32"
    case HfsPlus => "hfs+"
    case NtfsWin32 => "ntfs_win32"
    case NtfsPosix => "ntfs_posix"
    case Reiser4 => "reiser4"
    case Reiserfs => "reiserfs"
    case Xfs => "xfs"
    case Zfs => "zfs"
  }

  /** The table lookup by identifier: None exactly when no filesystem has that name. */
  function Parse(name: string): (r: Option<Filesystem>)
    ensures r.Some? ==> Name(r.value) == name
    ensures r.None? <==> forall fs: Filesystem :: Name(fs) != name
  {
    if name == "btrfs" then Some(Btrfs)
    else if name == "ext" then Some(Ext)
    else if name == "ext2" then Some(Ext2)
    else if name == "ext3" then Some(Ext3)
    else if name == "ext3cow" then Some(Ext3cow)
    else if name == "ext4" then Some(Ext4)
    else if name == "exfat" then Some(Exfat)
    else if name == "fat32" then Some(Fat32)
    else if name == "hfs+" then Some(HfsPlus)
    else if name == "ntfs_win32" then Some(NtfsWin32)
    else if name == "ntfs_posix" then Some(NtfsPosix)
    else if name == "reiser4" then Some(Reiser4)
    else if name == "reiserfs" then Some(Reiserfs)
    else if name == "xfs" then Some(Xfs)
    else if name == "zfs" then Some(Zfs)
    else None
  }

  /** Names and filesystems correspond one to one: parsing a name gives its filesystem back. */
  lemma ParseName()
    ensures forall fs :: Parse(Name(fs)) == Some(fs)
  {
    forall fs: Filesystem
      ensures Parse(Name(fs)) == Some(fs)
    {
    }
  }

  /** The advertised list of supported filesystems (the `FILE_SYSTEMS` tuple). */
  const FileSystems: seq<string> := [
    "btrfs", "ext", "ext2", "ext3", "ext3cow", "ext4", "exfat", "fat32",
    "hfs+", "ntfs_win32", "reiser4", "reiserfs", "xfs", "zfs"]

  /** Whether a name is advertised as supported. */
  predicate Listed(name: string) {
    name in FileSystems
  }

  /** Every advertised name is a table key. */
  lemma ListedAreKeys()
    ensures forall i :: 0 <= i < |FileSystems| ==> Parse(FileSystems[i]).Some?
  {
    forall i | 0 <= i < |FileSystems|
      ensures Parse(FileSystems[i]).Some?
    {
      assert FileSystems[i] in FileSystems;
    }
  }

  /**
   The advertised list and the tables disagree in one place: every table
   key except "ntfs_posix" is listed.
   */
  lemma ListedExceptNtfsPosix(fs: Filesystem)
    ensures Listed(Name(fs)) <==> fs != NtfsPosix
  {
  }

  // Code points named in the illegal-character table.
  const Nul: int := 0x00
  const Quote: int := 0x22
  const Asterisk: int := 0x2A
  const Slash: int := 0x2F
  const Colon: int := 0x3A
  const Less: int := 0x3C
  const Greater: int := 0x3E
  const Question: int := 0x3F
  const At: int := 0x40
  const Backslash: int := 0x5C
  const Pipe: int := 0x7C

  /** The thirty-two C0 control characters U+0000 to U+001F. */
  const ControlCharacters: seq<int> := [
    0x00, 0x01, 0x02, 0x03, 0x04, 0x05, 0x06, 0x07,
    0x08, 0x09, 0x0A, 0x0B, 0x0C, 0x0D, 0x0E, 0x0F,
    0x10, 0x11, 0x12, 0x13, 0x14, 0x15, 0x16, 0x17,
    0x18, 0x19, 0x1A, 0x1B, 0x1C, 0x1D, 0x1E, 0x1F]

  /** The characters the Windows-family filesystems forbid besides control characters. */
  const WindowsReserved: seq<int> :=
    [Slash, Backslash, Colon, Asterisk, Question, Quote, Less, Greater, Pipe]

  /**
   The illegal-character table, each set listed as written in the source.
   Every profile forbids NUL and '/', none forbids the placeholder '_', and
   all forbidden characters are ASCII, so replacing them by '_' leaves none
   behind.
   */
  function IllegalCharacters(fs: Filesystem): (r: seq<int>)
    ensures Nul in r && Slash in r
    ensures Underscore !in r
    ensures forall c :: c in r ==> 0 <= c < 0x80
  {
    ControlAndWindowsFacts();
    match fs
    case Ext3cow => [Nul, Slash, At]
    case Exfat => ControlCharacters + WindowsReserved
    case Fat32 => ControlCharacters + WindowsReserved
    case HfsPlus => [Nul, Slash, Colon]
    case NtfsWin32 => [Nul, Slash, Backslash, Colon, Asterisk, Question, Quote, Less, Greater, Pipe]
    case _ => [Nul, Slash]
  }

  /** The control characters are exactly the code points below U+0020. */
  lemma ControlCharactersRange()
    ensures forall c :: c in ControlCharacters <==> 0 <= c < 0x20
  {
    forall c | 0 <= c < 0x20
      ensures c in ControlCharacters
    {
      assert ControlCharacters[c] == c;
    }
  }

  /**
   The filesystem-specific punctuation: '@' is forbidden only by ext3cow,
   and ':' only by the Windows-family profiles and HFS+.
   */
  lemma IllegalPunctuation(fs: Filesystem)
    ensures At in IllegalCharacters(fs) <==> fs == Ext3cow
    ensures Colon in IllegalCharacters(fs) <==> fs in {Exfat, Fat32, HfsPlus, NtfsWin32}
  {
    if fs == Exfat || fs == Fat32 {
      ControlAndWindowsFacts();
    }
  }

  /** The exFAT/FAT32 set: control characters plus the Windows-reserved punctuation. */
  lemma ControlAndWindowsFacts()
    ensures Nul in ControlCharacters + WindowsReserved
    ensures Slash in ControlCharacters + WindowsReserved
    ensures Colon in ControlCharacters + WindowsReserved
    ensures Underscore !in ControlCharacters + WindowsReserved
    ensures At !in ControlCharacters + WindowsReserved
    ensures forall c :: c in ControlCharacters + WindowsReserved ==> 0 <= c < 0x80
  {
    ControlCharactersRange();
    assert Slash in WindowsReserved && Colon in WindowsReserved;
  }

  /** The encodings named by the length table. */
  datatype Encoding = Utf8Encoding | Utf16Encoding

  /** One row of the length table. */
  datatype LengthRule = LengthRule(maxLength: nat, unit: Unit, encoding: Encoding, form: NormalForm)

  /**
   The length table. Limits are 255 except reiser4 (3976) and reiserfs
   (4032); the profiles limited in characters are exactly exFAT, FAT32, HFS+
   and the two NTFS namespaces, and they are the UTF-16 ones; only HFS+
   works in the decomposed form.
   */
  function Lengths(fs: Filesystem): (r: LengthRule)
    ensures r.maxLength == (if fs == Reiser4 then 3976 else if fs == Reiserfs then 4032 else 255)
    ensures r.unit == Characters <==> fs in {Exfat, Fat32, HfsPlus, NtfsWin32, NtfsPosix}
    ensures r.unit == Characters <==> r.encoding == Utf16Encoding
    ensures r.form == NFD <==> fs == HfsPlus
  {
    match fs
    case Exfat => LengthRule(255, Characters, Utf16Encoding, NFC)
    case Fat32 => LengthRule(255, Characters, Utf16Encoding, NFC)
    case HfsPlus => LengthRule(255, Characters, Utf16Encoding, NFD)
    case NtfsWin32 => LengthRule(255, Characters, Utf16Encoding, NFC)
    case NtfsPosix => LengthRule(255, Characters, Utf16Encoding, NFC)
    case Reiser4 => LengthRule(3976, Bytes, Utf8Encoding, NFC)
    case Reiserfs => LengthRule(4032, Bytes, Utf8Encoding, NFC)
    case _ => LengthRule(255, Bytes, Utf8Encoding, NFC)
  }
}
