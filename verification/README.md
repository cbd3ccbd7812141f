# Filename sanitizer — a Dafny model

This project models `sanitize_filename`, the core of the `sanitize` package.
It takes a filename and a target filesystem and returns a name that the
filesystem accepts. The pipeline is:

1. normalise the whole name to NFC;
2. replace every character the filesystem forbids by `'_'`;
3. walk the result one code point at a time. Each code point is normalised
   on its own, in the profile's form, into a *fragment*. Fragments are kept
   only while the running size stays within the profile's limit. The first
   fragment that does not fit ends the walk;
4. normalise what was kept to NFC again.

Byte-limited profiles measure the UTF-8 length of an octet buffer and decode
it at the end. Character-limited profiles measure the number of code points.

Modules, one per file:

- `Unicode` (`unicode.dfy`): code points, valid text, and the `Normalizer`.
  The normaliser is a pair of function values: the current Unicode tables,
  and the separate Unicode 3.2.0 tables that HFS+ uses.
- `Utf8` (`utf8.dfy`): the UTF-8 encoder and strict decoder of section 3 of
  RFC 3629. The model proves both round trips.
- `Scrubbing` (`scrubbing.dfy`): the replace-by-`'_'` step.
- `Truncation` (`truncation.dfy`): one greedy walk, generic in the unit it
  measures. It unifies the source's two near-duplicate branches. The byte
  branch is also modelled literally, on an octet buffer, and proved equal to
  the generic walk.
- `Profiles` (`profiles.dfy`): the filesystem enumeration, the advertised
  `FILE_SYSTEMS` list, the illegal-character table and the length table.
- `Sanitize` (`sanitize.dfy`): the pipeline, lookup by name, and the
  worked examples `SlashExample`, `WindowsExample`, `AtExt3cowExample`,
  `AtExt4Example`, `LongNameExample` and `UnknownExample`.
- `Outcomes` (`outcomes.dfy`): `Option` and `Result`.

Facts about the code that the model keeps:

- Character-limited profiles count code points (`len`, sanitize.py:126),
  although the length table labels them `'utf-16'`. That label is recorded
  in the model but nothing measures with it.
- Every profile forbids NUL and `'/'`.
- `FILE_SYSTEMS` omits `ntfs_posix`, but both tables have an entry for it.
  `Filesystem` is built from the table keys. Being listed is the separate
  predicate `Listed`.
- The final NFC step can change sizes, so the code bounds the text before
  that step, not the returned string. The model proves its bounds on that
  earlier text, the accumulator.

## Model

| member | source | states |
|---|---|---|
| Profiles.Parse | sanitize/sanitize.py:25-60 | Looking up a name gives a filesystem whose name it is, and fails exactly when no filesystem has that name. |
| Profiles.ParseName | sanitize/sanitize.py:25-60 | Every table key looks up to its own filesystem, so names and filesystems correspond one to one. |
| Profiles.ListedAreKeys | sanitize/sanitize.py:3-18 | Every name in `FILE_SYSTEMS` is a key of the tables. |
| Profiles.ListedExceptNtfsPosix | sanitize/sanitize.py:3-18 | A table key is listed in `FILE_SYSTEMS` if and only if it is not `ntfs_posix`. |
| Profiles.ControlCharactersRange | sanitize/sanitize.py:32-36 | The control-character block of the exFAT/FAT32 sets is exactly U+0000 to U+001F. |
| Profiles.IllegalCharacters | sanitize/sanitize.py:25-60 | The illegal-character table. Every profile forbids NUL and `'/'`. No profile forbids `'_'`. Every forbidden character is ASCII. |
| Profiles.IllegalPunctuation | sanitize/sanitize.py:30-53 | `'@'` is forbidden only by ext3cow. `':'` is forbidden exactly by exFAT, FAT32, HFS+ and NTFS Win32. |
| Profiles.ControlAndWindowsFacts | sanitize/sanitize.py:32-47 | The exFAT/FAT32 set holds NUL, `'/'` and `':'`, but not `'_'` or `'@'`, and is all ASCII. |
| Profiles.Lengths | sanitize/sanitize.py:67-102 | The length table. The limit is 255, except 3976 for reiser4 and 4032 for reiserfs. Character units apply exactly to exFAT, FAT32, HFS+ and both NTFS namespaces, and these are the UTF-16 rows. Only HFS+ uses NFD. |
| Scrubbing.Replace | sanitize/sanitize.py:64 | `str.replace` of one character keeps the length. It changes exactly the occurrences of that character and leaves every other position alone. |
| Scrubbing.Scrub | sanitize/sanitize.py:63-64 | After the replace loop, a position holds `'_'` exactly when its character was listed, and is otherwise unchanged. The length is kept. If `'_'` is not listed, no listed character remains. Valid text stays valid. |
| Scrubbing.ScrubOrderIrrelevant | sanitize/sanitize.py:63-64 | The order in which the set is iterated does not change the result. |
| Utf8.EncodeScalar | sanitize/sanitize.py:108 | A scalar's UTF-8 encoding is 1 to 4 octets (its RFC 3629 length), and every octet after the first is a continuation octet. |
| Utf8.Encode | sanitize/sanitize.py:108 | The encoding of a text is as long as the sum of its scalars' UTF-8 lengths. |
| Utf8.DecodeScalarOfEncoding | sanitize/sanitize.py:115 | Decoding a scalar's encoding, whatever follows it, gives back that scalar and its length. |
| Utf8.DecodeScalarSound | sanitize/sanitize.py:115 | Whatever the strict decoder accepts is a scalar value, and the octets it consumed are exactly that scalar's encoding. |
| Utf8.EncodeAppend | sanitize/sanitize.py:109-110 | Encoding commutes with concatenation, so extending the buffer by an encoded fragment encodes the joined text. |
| Utf8.Decode | sanitize/sanitize.py:115 | The strict decoder accepts only sequences that decode to valid text with no more code points than octets. Only the empty sequence decodes to the empty text. |
| Utf8.DecodeEncode | sanitize/sanitize.py:108-115 | Decoding the encoding of any valid text gives the text back. |
| Utf8.EncodeDecode | sanitize/sanitize.py:115 | Any octet sequence that decodes is exactly the encoding of its decoded text. |
| Utf8.EncodedLengthAppend | sanitize/sanitize.py:109 | The UTF-8 length of a concatenation is the sum of the lengths. |
| Truncation.SizeAppend | sanitize/sanitize.py:109-126 | In both units, the size of `acc + fragment` is the size of `acc` plus the size of the fragment. |
| Truncation.FragmentsSizeMonotone | sanitize/sanitize.py:106-112 | Taking more code points never makes the accumulated size smaller. |
| Truncation.TruncateFrom | sanitize/sanitize.py:124-129 | From an accumulator made of whole fragments that fits, the walk ends with whole fragments of a longer prefix, still within the limit. It stops only at the end of the input or at a fragment that would overflow. |
| Truncation.Truncate | sanitize/sanitize.py:118-129 | The kept text is whole fragments of a prefix of the input and fits the limit. Either all input was consumed, or the next fragment would overflow. |
| Truncation.TruncateIsGreedyCut | sanitize/sanitize.py:106-112 | A position is where the walk stops if and only if the prefix up to it fits and the next fragment would overflow. There is exactly one such position. |
| Truncation.TruncateLongestFit | sanitize/sanitize.py:109-112 | No longer prefix fits, so once a fragment fails nothing after it is kept. |
| Truncation.TruncateCongruent | sanitize/sanitize.py:124-125 | The walk depends only on the fragments of the code points actually present. |
| Truncation.TruncateBytesFrom | sanitize/sanitize.py:106-112 | The octet-buffer walk only extends the buffer. It stays within the limit when it starts within it. |
| Truncation.TruncateBytes | sanitize/sanitize.py:105-112 | The octet buffer never exceeds the limit. |
| Truncation.TruncateBytesAgrees | sanitize/sanitize.py:104-116 | The octet buffer is the UTF-8 encoding of the generic walk's text measured in bytes. It never ends inside a character and decodes to exactly the kept fragments. |
| Truncation.GreedyStopExample | sanitize/sanitize.py:109-112 | With a 3-octet limit, "aa€b" keeps "aa". The walk stops at the euro sign and never adds the later `b`, though `b` would fit. |
| Sanitize.Scrubbed | sanitize/sanitize.py:23-64 | The name after NFC and scrubbing is valid text of the NFC form's length. Each position is `'_'` if the NFC character is illegal, and that character otherwise. No illegal character is left. |
| Sanitize.Fragment | sanitize/sanitize.py:107-125 | Each code point is normalised on its own. HFS+ uses the Unicode 3.2.0 tables in NFD. Every other profile uses the current tables in NFC. A scalar normalises to valid text. |
| Sanitize.Accumulated | sanitize/sanitize.py:104-129 | The accumulator is whole fragments of a prefix of the scrubbed name, cut at the greedy stopping point. Its UTF-8 length is at most 255, 3976 (reiser4) or 4032 (reiserfs) for byte profiles. Its code-point count is at most 255 for character profiles. |
| Sanitize.SanitizeFilename | sanitize/sanitize.py:21-132 | The result is valid text, and is the NFC form of the accumulator. For byte profiles, decoding the octet buffer loses nothing. |
| Sanitize.FragmentsAvoid | sanitize/sanitize.py:106-127 | If the current NFC, and for HFS+ the Unicode 3.2.0 NFD, never introduce an illegal character, the fragments of a scrubbed prefix hold none. |
| Sanitize.NoIllegalCharacterReturned | sanitize/sanitize.py:21-132 | If the current NFC, and for HFS+ the Unicode 3.2.0 NFD, never introduce an illegal character, the returned name holds none of the profile's illegal characters. |
| Sanitize.SanitizeByName | sanitize/sanitize.py:21-63 | Fails with `UnknownFilesystem` exactly when the name is not a table key, and otherwise sanitizes for that filesystem. `ntfs_posix` is accepted. |
| Sanitize.TablesUsed | sanitize/sanitize.py:104-130 | Only the current NFC table and, for HFS+, the Unicode 3.2.0 NFD table affect the result. The current NFD table is never consulted. |
| Sanitize.AsciiTruncate | sanitize/sanitize.py:104-129 | With tables that leave ASCII alone, the walk keeps as many ASCII characters as the limit allows. |
| Sanitize.AsciiSanitize | sanitize/sanitize.py:21-132 | With tables that leave ASCII alone, an ASCII name sanitizes to its scrubbed form, cut to the profile's limit. |
| Sanitize.SlashExample | sanitize/sanitize.py:23-116 | `"a/b"` for ext4 gives `"a_b"`. |
| Sanitize.WindowsExample | sanitize/sanitize.py:23-130 | `"a:b*c?"` for ntfs_win32 gives `"a_b_c_"`. |
| Sanitize.AtExt3cowExample | sanitize/sanitize.py:23-116 | `"@"` for ext3cow gives `"_"`. |
| Sanitize.AtExt4Example | sanitize/sanitize.py:23-116 | `"@"` for ext4 stays `"@"`. |
| Sanitize.LongNameExample | sanitize/sanitize.py:79-116 | 300 `'x'` for ext4 give exactly 255 `'x'`. |
| Sanitize.UnknownExample | sanitize/sanitize.py:60-63 | A name that is not a table key, such as `"not_a_real_fs"`, is rejected. |

## Left out

- `sanitize_directory.py`: argument parsing, the directory walk, renames,
  test-mode file creation and logging are I/O around per-component calls.
  The one check it makes, membership in `FILE_SYSTEMS`, is modelled as
  `Profiles.Listed`.
- The Unicode normalisation tables (`unicodedata` and its `ucd_3_2_0`) are
  foreign library data. They are parameters of type `Normalizer`. The model
  assumes of them:
  - everywhere, that they map valid text to valid text (`Sound`);
  - for the worked examples and the ASCII lemmas, that they leave ASCII
    unchanged (`AsciiFixed`);
  - for `NoIllegalCharacterReturned`, that the tables the pipeline consults
    introduce no illegal character (`KeepsLegal`). These are the current
    NFC, and for HFS+ the Unicode 3.2.0 NFD.
- Idempotence of the whole function, and a length bound on the returned
  string: the final NFC can change the size, and the code does not establish
  either property. The bounds are proved on the accumulator before that step.
- The `'utf-16'` encoding field of the length table is recorded but, as in
  the code, never used for measuring.
- Lone surrogates: inputs are required to be valid text (`IsText`). This
  excludes names the source handles without error. The byte profiles raise
  at the UTF-8 encoding (sanitize.py:108) only when the walk reaches a
  surrogate. The character profiles keep a surrogate the walk reaches. In
  both branches, a surrogate after the cut is dropped without error. For
  example, ext4 with 256 `'x'` and then a surrogate returns 255 `'x'`.
- The iteration order of a Python set is not modelled. `Scrub` takes any
  order, and `ScrubOrderIrrelevant` shows the order does not matter. The
  model uses the order in which the set is written.
- No concrete HFS+ example is computed, because the tables are parameters.
  `TablesUsed` and `Fragment` state what the HFS+ branch does: its
  fragments come from the Unicode 3.2.0 tables and never from the current
  NFD table.
- Sanitize.SanitizeFilename: the absence of illegal characters is proved
  unconditionally only for the scrubbed name (`Scrubbed`), that is, before
  the per-character and final normalisations. For the returned name it is
  proved under the assumption `KeepsLegal` (`NoIllegalCharacterReturned`).
  This is conditional only because the tables are parameters, not because
  a counterexample is known.
