/**
 Text as the sanitizer sees it: a sequence of Unicode code points, plus the
 Unicode normalisation service it calls into.

 The normalisation tables themselves (both the current ones and the frozen
 Unicode 3.2.0 ones) are foreign data; they are passed around as function
 values inside a `Normalizer`. What the model assumes of them is stated as
 predicates: `Sound` (valid text normalises to valid text) everywhere,
 `AsciiFixed` (ASCII text is left alone) for the ASCII lemmas and worked
 examples, and `KeepsLegal` in module `Sanitize` for the lemma that the
 returned name holds no illegal character.
 */
module Unicode {

  /** A Unicode scalar value: a code point that is not a surrogate. */
  predicate IsScalar(c: int) {
    0 <= c <= 0x10FFFF && !(0xD800 <= c <= 0xDFFF)
  }

  /** Well-formed text: every element is a scalar value. */
  predicate IsText(s: seq<int>) {
    forall i :: 0 <= i < |s| ==> IsScalar(s[i])
  }

  /** Text made only of ASCII code points. */
  predicate IsAscii(s: seq<int>) {
    forall i :: 0 <= i < |s| ==> 0 <= s[i] < 0x80
  }

  /** The placeholder that replaces illegal characters: '_' (U+005F). */
  const Underscore: int := 0x5F

  /** What a profile's length limit counts: UTF-8 octets or code points. */
  datatype Unit = Bytes | Characters

  /** The two normalisation forms the sanitizer asks for. */
  datatype NormalForm = NFC | NFD

  /**
   The normalisation service: `current` stands for the library's current
   tables, `ucd320` for its separately kept Unicode 3.2.0 tables. Both take a
   form and a text. They are distinct data and are never conflated.
   */
  datatype Normalizer = Normalizer(
    current: (NormalForm, seq<int>) -> seq<int>,
    ucd320: (NormalForm, seq<int>) -> seq<int>)
  {
    /** Normalising valid text yields valid text, whichever table is used. */
    ghost predicate Sound() {
      && (forall f, s {:trigger current(f, s)} :: IsText(s) ==> IsText(current(f, s)))
      && (forall f, s {:trigger ucd320(f, s)} :: IsText(s) ==> IsText(ucd320(f, s)))
    }

    /** Both tables leave pure-ASCII text unchanged, in either form. */
    ghost predicate AsciiFixed() {
      && (forall f, s {:trigger current(f, s)} :: IsAscii(s) ==> current(f, s) == s)
      && (forall f, s {:trigger ucd320(f, s)} :: IsAscii(s) ==> ucd320(f, s) == s)
    }
  }
}
