/**
 * The private header of the string library (src/str_p.h): the byte type, the
 * constants, the byte classes, and the helpers that read NUL-terminated C text
 * (`__str_literal_len`, `__str_literal_contains`, `__to_lower`, `__to_upper`).
 */
module StrPrivate {
  import opened Wrappers

  /** A byte as the source reads a `char`: through an `(unsigned char)` cast. */
  newtype byte = b: int | 0 <= b < 0x100

  /**
   * A `const char*` argument: None for NULL, otherwise the bytes it points at.
   * The text ends at the first NUL byte, or at the end of the sequence.
   */
  type CStr = Option<seq<byte>>

  /** STR_DEFAULT_CAPACITY */
  const DefaultCapacity: nat := 32

  /** ASCII_LETTER_CASE_CODE_SHIFT: the distance between 'A' and 'a'. */
  const LetterCaseShift: byte := 32

  /** The byte written in place of a non-ASCII byte: '?'. */
  const Placeholder: byte := 0x3F

  /** `__is_blank`: space and the five control bytes 0x09 to 0x0D. */
  function IsBlank(c: byte): (r: bool)
    ensures r <==> c in {0x20, 0x09, 0x0A, 0x0B, 0x0C, 0x0D}
  {
    c == 0x20 || (0x09 <= c && c <= 0x0D)
  }

  /** `__is_ascii`: the low half of the byte range, which holds the letters and the blanks. */
  predicate IsAscii(c: byte): (r: bool)
    ensures r <==> c < 0x80
    ensures IsLetter(c) || IsBlank(c) ==> r
  {
    c <= 0x7F
  }

  predicate IsUpper(c: byte)
  {
    0x41 <= c <= 0x5A
  }

  predicate IsLower(c: byte)
  {
    0x61 <= c <= 0x7A
  }

  /** `__is_letter`: the two ranges 'A'..'Z' and 'a'..'z', that is, the upper- and the lower-case letters. */
  predicate IsLetter(c: byte): (r: bool)
    ensures r <==> IsUpper(c) || IsLower(c)
    ensures r ==> c != 0 && !IsBlank(c)
  {
    (0x41 <= c && c <= 0x5A) || (0x61 <= c && c <= 0x7A)
  }

  /** `__to_lower`: an upper-case letter moves up by the case shift; every other byte stays. */
  function ToLower(c: byte): (r: byte)
    ensures !IsUpper(r)
    ensures IsLetter(r) <==> IsLetter(c)
    ensures !IsUpper(c) ==> r == c
    ensures IsUpper(c) ==> r as int == c as int + LetterCaseShift as int
  {
    if IsLetter(c) && c <= 0x5A then c + LetterCaseShift else c
  }

  /** `__to_upper`: a lower-case letter moves down by the case shift; every other byte stays. */
  function ToUpper(c: byte): (r: byte)
    ensures !IsLower(r)
    ensures IsLetter(r) <==> IsLetter(c)
    ensures !IsLower(c) ==> r == c
    ensures IsLower(c) ==> r as int == c as int - LetterCaseShift as int
  {
    if IsLetter(c) && c >= 0x61 then c - LetterCaseShift else c
  }

  lemma ToLowerIdempotent(c: byte)
    ensures ToLower(ToLower(c)) == ToLower(c)
  {
  }

  lemma ToUpperIdempotent(c: byte)
    ensures ToUpper(ToUpper(c)) == ToUpper(c)
  {
  }

  lemma LowerOfUpper(c: byte)
    ensures ToLower(ToUpper(c)) == ToLower(c)
    ensures ToUpper(ToLower(c)) == ToUpper(c)
  {
  }

  /** The letters are exactly the bytes on which the two case maps disagree. */
  lemma LetterIffCasesDiffer(c: byte)
    ensures IsLetter(c) <==> ToLower(c) != ToUpper(c)
  {
  }

  /** The byte stored for `c` by `str_new` and `str_append`. */
  function Normalize(c: byte): (r: byte)
    ensures IsAscii(r)
    ensures IsAscii(c) ==> r == c
    ensures !IsAscii(c) ==> r == Placeholder
  {
    if IsAscii(c) then c else Placeholder
  }

  /** Bytes a buffer may hold before its terminator: ASCII and never NUL. */
  ghost predicate IsText(s: seq<byte>)
  {
    forall i :: 0 <= i < |s| ==> s[i] != 0 && IsAscii(s[i])
  }

  function Normalized(s: seq<byte>): (r: seq<byte>)
    ensures |r| == |s|
    ensures forall i :: 0 <= i < |s| ==> r[i] == Normalize(s[i])
    ensures (forall i :: 0 <= i < |s| ==> s[i] != 0) ==> IsText(r)
    ensures IsText(s) ==> r == s
  {
    seq(|s|, i requires 0 <= i < |s| => Normalize(s[i]))
  }

  /** The index of the first NUL byte of `s`, or `|s|` when there is none. */
  function TerminatorIndex(s: seq<byte>): (n: nat)
    ensures n <= |s|
    ensures forall i :: 0 <= i < n ==> s[i] != 0
    ensures n < |s| ==> s[n] == 0
  {
    if s == [] || s[0] == 0 then 0 else 1 + TerminatorIndex(s[1..])
  }

  /** `__str_literal_len`: the number of bytes before the terminator; 0 for NULL. */
  function LiteralLen(s: CStr): (n: nat)
    ensures s.None? ==> n == 0
    ensures s.Some? ==> n <= |s.value| && (n < |s.value| ==> s.value[n] == 0)
    ensures s.Some? ==> forall i :: 0 <= i < n ==> s.value[i] != 0
  {
    match s
    case None => 0
    case Some(bytes) => TerminatorIndex(bytes)
  }

  /** The text a C string denotes: its bytes up to the terminator; nothing for NULL. */
  function Literal(s: CStr): (t: seq<byte>)
    ensures |t| == LiteralLen(s)
    ensures forall i :: 0 <= i < |t| ==> t[i] != 0
    ensures s.Some? ==> t <= s.value
  {
    if s.None? then [] else s.value[..LiteralLen(s)]
  }

  /** A sequence without NUL bytes, followed by a terminator or by nothing, is read back whole. */
  lemma {:induction false} LiteralOfTerminated(t: seq<byte>, rest: seq<byte>)
    requires forall i :: 0 <= i < |t| ==> t[i] != 0
    requires rest == [] || rest[0] == 0
    ensures Literal(Some(t + rest)) == t
  {
    assert forall i :: 0 <= i < |t| ==> (t + rest)[i] == t[i];
    assert |t| < |t + rest| ==> (t + rest)[|t|] == 0;
    assert (t + rest)[..|t|] == t;
  }

  /** `__str_literal_contains`: whether `ch` is one of the bytes before the terminator. */
  function LiteralContains(s: CStr, ch: byte): (r: bool)
    ensures r <==> ch in Literal(s)
  {
    if s.None? || LiteralLen(s) == 0 || ch == 0 then false
    else exists i :: 0 <= i < LiteralLen(s) && s.value[i] == ch
  }
}
