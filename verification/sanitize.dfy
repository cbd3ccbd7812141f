/**
 The sanitizer's pipeline for one filename and one filesystem: normalise the
 whole name to NFC, replace the profile's illegal characters by '_', walk the
 result greedily keeping whole per-character normalised fragments while they
 fit the profile's limit, and normalise what was kept to NFC again.
 */
module Sanitize {
  import opened Unicode
  import opened Outcomes
  import opened Profiles
  import opened Scrubbing
  import opened Truncation
  import Utf8

  /** The one failure: the filesystem name is not a key of the tables. */
  datatype Error = UnknownFilesystem(name: string)

  /**
   The name after NFC and scrubbing: same length as the NFC form, every
   position either kept or turned into '_', and no illegal character left.
   */
  function Scrubbed(u: Normalizer, filename: seq<int>, fs: Filesystem): (r: seq<int>)
    requires u.Sound() && IsText(filename)
    ensures IsText(r)
    ensures |r| == |u.current(NFC, filename)|
    ensures forall i :: 0 <= i < |r| ==>
      r[i] == (if u.current(NFC, filename)[i] in IllegalCharacters(fs) then Underscore else u.current(NFC, filename)[i])
    ensures forall i :: 0 <= i < |r| ==> r[i] !in IllegalCharacters(fs)
  {
    Scrub(u.current(NFC, filename), IllegalCharacters(fs))
  }

  /**
   The per-character normalisation of the walk, in the profile's form:
   HFS+ uses the Unicode 3.2.0 tables in NFD, every other profile the
   current tables in NFC.
   */
  function Fragment(u: Normalizer, fs: Filesystem, c: int): (r: seq<int>)
    ensures fs == HfsPlus ==> r == u.ucd320(NFD, [c])
    ensures fs != HfsPlus ==> r == u.current(NFC, [c])
    ensures u.Sound() && IsScalar(c) ==> IsText(r)
  {
    if fs == HfsPlus then u.ucd320(Lengths(fs).form, [c]) else u.current(Lengths(fs).form, [c])
  }

  /** `Fragment` as the function value the walk is parameterised by. */
  function FragmentOf(u: Normalizer, fs: Filesystem): int -> seq<int> {
    c => Fragment(u, fs, c)
  }

  /** Every code point of a valid text normalises to a valid fragment. */
  lemma FragmentsOfTextAreText(u: Normalizer, fs: Filesystem, s: seq<int>)
    requires u.Sound() && IsText(s)
    ensures forall j :: 0 <= j < |s| ==> IsText(FragmentOf(u, fs)(s[j]))
  {
    forall j | 0 <= j < |s|
      ensures IsText(FragmentOf(u, fs)(s[j]))
    {
      assert FragmentOf(u, fs)(s[j]) == Fragment(u, fs, s[j]);
    }
  }

  /**
   The accumulator the walk ends with, before the final NFC: whole fragments
   of a prefix of the scrubbed name, at most the profile's limit in the
   profile's unit (UTF-8 octets for the byte profiles, code points for the
   character profiles), cut at the greedy stopping point.
   */
  function Accumulated(u: Normalizer, filename: seq<int>, fs: Filesystem): (r: Cut)
    requires u.Sound() && IsText(filename)
    ensures r.consumed <= |Scrubbed(u, filename, fs)|
    ensures IsText(r.text)
    ensures r.text == Fragments(Scrubbed(u, filename, fs), FragmentOf(u, fs), r.consumed)
    ensures GreedyCut(Scrubbed(u, filename, fs), FragmentOf(u, fs), Lengths(fs).unit, Lengths(fs).maxLength, r.consumed)
    ensures Lengths(fs).unit == Bytes ==>
      Utf8.EncodedLength(r.text) <= (if fs == Reiser4 then 3976 else if fs == Reiserfs then 4032 else 255)
    ensures Lengths(fs).unit == Characters ==> |r.text| <= 255
  {
    var s := Scrubbed(u, filename, fs);
    var r := Truncate(s, FragmentOf(u, fs), Lengths(fs).unit, Lengths(fs).maxLength);
    FragmentsOfTextAreText(u, fs, s);
    FragmentsText(s, FragmentOf(u, fs), r.consumed);
    TruncateIsGreedyCut(s, FragmentOf(u, fs), Lengths(fs).unit, Lengths(fs).maxLength, r.consumed);
    r
  }

  /**
   The sanitized name. Byte profiles run the walk on a UTF-8 octet buffer and
   decode it; character profiles run it on text. Either way the result is
   valid text and is the NFC form of the accumulator: the octet buffer never
   holds a split character, so decoding it loses nothing.
   */
  function SanitizeFilename(u: Normalizer, filename: seq<int>, fs: Filesystem): (r: seq<int>)
    requires u.Sound() && IsText(filename)
    ensures IsText(r)
    ensures r == u.current(NFC, Accumulated(u, filename, fs).text)
  {
    var s := Scrubbed(u, filename, fs);
    var rule := Lengths(fs);
    FragmentsOfTextAreText(u, fs, s);
    if rule.unit == Bytes then
      var buffer := TruncateBytes(s, FragmentOf(u, fs), rule.maxLength);
      TruncateBytesAgrees(s, FragmentOf(u, fs), rule.maxLength);
      u.current(NFC, Utf8.Decode(buffer).value)
    else
      var cut := Truncate(s, FragmentOf(u, fs), Characters, rule.maxLength);
      FragmentsText(s, FragmentOf(u, fs), cut.consumed);
      u.current(NFC, cut.text)
  }

  /** A text holds none of the profile's illegal characters. */
  ghost predicate Avoids(s: seq<int>, fs: Filesystem) {
    forall i :: 0 <= i < |s| ==> s[i] !in IllegalCharacters(fs)
  }

  /**
   An assumption about the tables the pipeline consults, stated because the
   tables are parameters: the current NFC, and for HFS+ the Unicode 3.2.0
   NFD, turn a text free of the profile's illegal characters into one free
   of them too.
   */
  ghost predicate KeepsLegal(u: Normalizer, fs: Filesystem) {
    && (forall s {:trigger u.current(NFC, s)} :: Avoids(s, fs) ==> Avoids(u.current(NFC, s), fs))
    && (fs == HfsPlus ==> forall s {:trigger u.ucd320(NFD, s)} :: Avoids(s, fs) ==> Avoids(u.ucd320(NFD, s), fs))
  }

  /** Under that assumption, a legal code point normalises to a legal fragment. */
  lemma FragmentAvoids(u: Normalizer, fs: Filesystem, c: int)
    requires KeepsLegal(u, fs) && c !in IllegalCharacters(fs)
    ensures Avoids(FragmentOf(u, fs)(c), fs)
  {
    assert FragmentOf(u, fs)(c) == Fragment(u, fs, c);
    assert Avoids([c], fs);
  }

  /** Texts free of illegal characters stay free of them when joined. */
  lemma AvoidsAppend(a: seq<int>, b: seq<int>, fs: Filesystem)
    requires Avoids(a, fs) && Avoids(b, fs)
    ensures Avoids(a + b, fs)
  {
    forall i | 0 <= i < |a + b|
      ensures (a + b)[i] !in IllegalCharacters(fs)
    {
      if i < |a| {
        assert (a + b)[i] == a[i];
      } else {
        assert (a + b)[i] == b[i - |a|];
      }
    }
  }

  /** Under that assumption, the fragments of a scrubbed prefix hold no illegal character. */
  lemma {:induction false} FragmentsAvoid(u: Normalizer, fs: Filesystem, s: seq<int>, k: nat)
    requires KeepsLegal(u, fs) && Avoids(s, fs) && k <= |s|
    ensures Avoids(Fragments(s, FragmentOf(u, fs), k), fs)
  {
    if k > 0 {
      FragmentsAvoid(u, fs, s, k - 1);
      FragmentAvoids(u, fs, s[k - 1]);
      AvoidsAppend(Fragments(s, FragmentOf(u, fs), k - 1), FragmentOf(u, fs)(s[k - 1]), fs);
    }
  }

  /**
   The returned name holds none of the profile's illegal characters,
   provided the tables never introduce one (`KeepsLegal`).
   */
  lemma NoIllegalCharacterReturned(u: Normalizer, filename: seq<int>, fs: Filesystem)
    requires u.Sound() && IsText(filename) && KeepsLegal(u, fs)
    ensures forall i :: 0 <= i < |SanitizeFilename(u, filename, fs)| ==>
      SanitizeFilename(u, filename, fs)[i] !in IllegalCharacters(fs)
  {
    var s := Scrubbed(u, filename, fs);
    var cut := Accumulated(u, filename, fs);
    assert Avoids(s, fs);
    FragmentsAvoid(u, fs, s, cut.consumed);
    assert Avoids(u.current(NFC, cut.text), fs);
  }

  /**
   Sanitizing by filesystem name: fails with UnknownFilesystem exactly when
   the name is not a table key, and otherwise sanitizes for that filesystem.
   Names missing from the advertised list but present in the tables
   ("ntfs_posix") are accepted.
   */
  function SanitizeByName(u: Normalizer, filename: seq<int>, name: string): (r: Result<seq<int>, Error>)
    requires u.Sound() && IsText(filename)
    ensures r.Err? <==> forall fs: Filesystem :: Name(fs) != name
    ensures r.Err? ==> r.error == UnknownFilesystem(name)
    ensures forall fs: Filesystem :: Name(fs) == name ==> r == Ok(SanitizeFilename(u, filename, fs))
  {
    ParseName();
    match Parse(name)
    case None => Err(UnknownFilesystem(name))
    case Some(fs) => Ok(SanitizeFilename(u, filename, fs))
  }

  /**
   Only two tables matter: the current NFC table, and for HFS+ the Unicode
   3.2.0 NFD table. Normalisers that agree on those give the same result, so
   the current NFD table is never consulted and HFS+ never falls back to it.
   */
  lemma TablesUsed(u1: Normalizer, u2: Normalizer, filename: seq<int>, fs: Filesystem)
    requires u1.Sound() && u2.Sound() && IsText(filename)
    requires forall s :: u1.current(NFC, s) == u2.current(NFC, s)
    requires fs == HfsPlus ==> forall s :: u1.ucd320(NFD, s) == u2.ucd320(NFD, s)
    ensures SanitizeFilename(u1, filename, fs) == SanitizeFilename(u2, filename, fs)
  {
    var s := Scrubbed(u1, filename, fs);
    assert s == Scrubbed(u2, filename, fs);
    FragmentsAgree(u1, u2, fs);
    TruncateCongruent(s, FragmentOf(u1, fs), FragmentOf(u2, fs), Lengths(fs).unit, Lengths(fs).maxLength);
  }

  /** The per-character step only consults the tables `TablesUsed` lets differ nowhere. */
  lemma FragmentsAgree(u1: Normalizer, u2: Normalizer, fs: Filesystem)
    requires forall s :: u1.current(NFC, s) == u2.current(NFC, s)
    requires fs == HfsPlus ==> forall s :: u1.ucd320(NFD, s) == u2.ucd320(NFD, s)
    ensures forall c :: FragmentOf(u1, fs)(c) == FragmentOf(u2, fs)(c)
  {
    forall c
      ensures FragmentOf(u1, fs)(c) == FragmentOf(u2, fs)(c)
    {
      assert FragmentOf(u1, fs)(c) == Fragment(u1, fs, c);
      assert FragmentOf(u2, fs)(c) == Fragment(u2, fs, c);
    }
  }

  /** Under ASCII-fixing tables an ASCII character is its own fragment. */
  lemma AsciiFragment(u: Normalizer, fs: Filesystem, c: int)
    requires u.AsciiFixed() && 0 <= c < 0x80
    ensures FragmentOf(u, fs)(c) == [c]
  {
    assert IsAscii([c]);
    assert FragmentOf(u, fs)(c) == Fragment(u, fs, c);
  }

  /** The fragments of ASCII text under ASCII-fixing tables are the text itself. */
  lemma {:induction false} AsciiFragments(u: Normalizer, fs: Filesystem, s: seq<int>, k: nat)
    requires u.AsciiFixed() && IsAscii(s) && k <= |s|
    ensures Fragments(s, FragmentOf(u, fs), k) == s[..k]
  {
    if k > 0 {
      AsciiFragments(u, fs, s, k - 1);
      AsciiFragment(u, fs, s[k - 1]);
      assert s[..k] == s[..k - 1] + [s[k - 1]];
    }
  }

  /** Every ASCII character takes one octet, so an ASCII text's size is its length in both units. */
  lemma {:induction false} AsciiSize(unit: Unit, s: seq<int>)
    requires IsAscii(s)
    ensures Size(unit, s) == |s|
  {
    if unit == Bytes && s != [] {
      AsciiSize(unit, s[1..]);
    }
  }

  /** The walk keeps as many ASCII characters as the limit allows. */
  lemma AsciiTruncate(u: Normalizer, fs: Filesystem, s: seq<int>, unit: Unit, limit: nat)
    requires u.AsciiFixed() && IsAscii(s)
    ensures Truncate(s, FragmentOf(u, fs), unit, limit).text == s[..if |s| <= limit then |s| else limit]
    ensures IsAscii(Truncate(s, FragmentOf(u, fs), unit, limit).text)
  {
    var k := if |s| <= limit then |s| else limit;
    AsciiFragments(u, fs, s, k);
    AsciiSize(unit, s[..k]);
    if k < |s| {
      AsciiFragments(u, fs, s, k + 1);
      AsciiSize(unit, s[..k + 1]);
    }
    assert GreedyCut(s, FragmentOf(u, fs), unit, limit, k);
    TruncateIsGreedyCut(s, FragmentOf(u, fs), unit, limit, k);
  }

  /** Scrubbing an ASCII name under ASCII-fixing tables scrubs the name itself and stays ASCII. */
  lemma AsciiScrubbed(u: Normalizer, filename: seq<int>, fs: Filesystem)
    requires u.Sound() && u.AsciiFixed() && IsText(filename) && IsAscii(filename)
    ensures Scrubbed(u, filename, fs) == Scrub(filename, IllegalCharacters(fs))
    ensures IsAscii(Scrubbed(u, filename, fs))
  {
    assert u.current(NFC, filename) == filename;
  }

  /** The accumulator for an ASCII name is the scrubbed name cut to the limit. */
  lemma AsciiAccumulated(u: Normalizer, filename: seq<int>, fs: Filesystem)
    requires u.Sound() && u.AsciiFixed() && IsText(filename) && IsAscii(filename)
    ensures var limit := Lengths(fs).maxLength;
      Accumulated(u, filename, fs).text
      == Scrub(filename, IllegalCharacters(fs))[..if |filename| <= limit then |filename| else limit]
    ensures IsAscii(Accumulated(u, filename, fs).text)
  {
    AsciiScrubbed(u, filename, fs);
    AsciiTruncate(u, fs, Scrubbed(u, filename, fs), Lengths(fs).unit, Lengths(fs).maxLength);
  }

  /**
   For an ASCII name, with tables that leave ASCII alone, the sanitized name
   is the scrubbed name cut to the profile's limit.
   */
  lemma AsciiSanitize(u: Normalizer, filename: seq<int>, fs: Filesystem)
    requires u.Sound() && u.AsciiFixed() && IsText(filename) && IsAscii(filename)
    ensures var limit := Lengths(fs).maxLength;
      SanitizeFilename(u, filename, fs)
      == Scrub(filename, IllegalCharacters(fs))[..if |filename| <= limit then |filename| else limit]
  {
    AsciiAccumulated(u, filename, fs);
    var t := Accumulated(u, filename, fs).text;
    assert u.current(NFC, t) == t;
  }

  /**
   The worked examples below (`SlashExample`, `WindowsExample`,
   `AtExt3cowExample`, `AtExt4Example`, `LongNameExample`) follow from
   `AsciiSanitize`: an ASCII name
   and an expected result that is, position by position, the name with its
   illegal characters replaced, cut to the limit.
   */
  lemma AsciiExample(u: Normalizer, filename: seq<int>, fs: Filesystem, expected: seq<int>)
    requires u.Sound() && u.AsciiFixed() && IsText(filename) && IsAscii(filename)
    requires |expected| == if |filename| <= Lengths(fs).maxLength then |filename| else Lengths(fs).maxLength
    requires forall i :: 0 <= i < |expected| ==>
      expected[i] == (if filename[i] in IllegalCharacters(fs) then Underscore else filename[i])
    ensures SanitizeFilename(u, filename, fs) == expected
  {
    AsciiSanitize(u, filename, fs);
  }

  /** "a/b" (U+0061 U+002F U+0062) for ext4 becomes "a_b". */
  lemma SlashExample(u: Normalizer)
    requires u.Sound() && u.AsciiFixed()
    ensures SanitizeFilename(u, [0x61, 0x2F, 0x62], Ext4) == [0x61, 0x5F, 0x62]
  {
    AsciiExample(u, [0x61, 0x2F, 0x62], Ext4, [0x61, 0x5F, 0x62]);
  }

  /** "a:b*c?" for ntfs_win32 becomes "a_b_c_". */
  lemma WindowsExample(u: Normalizer)
    requires u.Sound() && u.AsciiFixed()
    ensures SanitizeFilename(u, [0x61, 0x3A, 0x62, 0x2A, 0x63, 0x3F], NtfsWin32) == [0x61, 0x5F, 0x62, 0x5F, 0x63, 0x5F]
  {
    AsciiExample(u, [0x61, 0x3A, 0x62, 0x2A, 0x63, 0x3F], NtfsWin32, [0x61, 0x5F, 0x62, 0x5F, 0x63, 0x5F]);
  }

  /** "@" becomes "_" for ext3cow, which forbids it. */
  lemma AtExt3cowExample(u: Normalizer)
    requires u.Sound() && u.AsciiFixed()
    ensures SanitizeFilename(u, [0x40], Ext3cow) == [0x5F]
  {
    AsciiExample(u, [0x40], Ext3cow, [0x5F]);
  }

  /** "@" stays "@" for ext4, which allows it. */
  lemma AtExt4Example(u: Normalizer)
    requires u.Sound() && u.AsciiFixed()
    ensures SanitizeFilename(u, [0x40], Ext4) == [0x40]
  {
    AsciiExample(u, [0x40], Ext4, [0x40]);
  }

  /** Three hundred 'x' for ext4 become exactly 255 'x'. */
  lemma LongNameExample(u: Normalizer)
    requires u.Sound() && u.AsciiFixed()
    ensures SanitizeFilename(u, seq(300, _ => 0x78), Ext4) == seq(255, _ => 0x78)
  {
    AsciiExample(u, seq(300, _ => 0x78), Ext4, seq(255, _ => 0x78));
  }

  /** A name that is not a table key is rejected. */
  lemma UnknownExample(u: Normalizer, filename: seq<int>)
    requires u.Sound() && IsText(filename)
    ensures SanitizeByName(u, filename, "not_a_real_fs") == Err(UnknownFilesystem("not_a_real_fs"))
  {
    assert Parse("not_a_real_fs") == None;
  }
}
