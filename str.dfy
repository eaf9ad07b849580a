/**
 * The growable ASCII buffer `str_t` (src/str.c): its constructors, its
 * in-place mutators, and its read-only queries.
 *
 * A `str_t` is a class with the three fields of `struct __str`. A read-only
 * query is a function of what it reads: the buffer's content, with None for a
 * NULL handle, and the pattern as a C string.
 */
module Strings {
  import opened Wrappers
  import opened StrPrivate

  /**
   * The capacity a doubling loop `while (n >= cap) cap *= 2;` reaches from `c`:
   * strictly above `n`, and either `c` itself or at most twice `n`.
   */
  function Grown(c: nat, n: nat): (r: nat)
    requires c > 0
    ensures n < r && c <= r
    ensures r == c || r <= 2 * n
    decreases n - c
  {
    if n < c then c else Grown(2 * c, n)
  }

  function Pow2(k: nat): (p: nat)
    ensures p >= 1
  {
    if k == 0 then 1 else 2 * Pow2(k - 1)
  }

  /** The grown capacity is `c * 2^k` for the smallest `k` that puts it above `n`. */
  lemma {:induction false} GrownIsSmallestDoubling(c: nat, n: nat) returns (k: nat)
    requires c > 0
    ensures Grown(c, n) == c * Pow2(k)
    ensures k > 0 ==> c * Pow2(k - 1) <= n
    decreases n - c
  {
    if n < c {
      k := 0;
    } else {
      var k' := GrownIsSmallestDoubling(2 * c, n);
      k := k' + 1;
      var q := Pow2(k');
      assert Pow2(k) == 2 * q;
      DoublingMoves(c, q);
      if k' > 0 {
        var q' := Pow2(k' - 1);
        assert q == 2 * q';
        DoublingMoves(c, q');
      }
    }
  }

  /** Doubling the factor of a product is doubling the other one. */
  lemma DoublingMoves(c: nat, q: nat)
    ensures c * (2 * q) == (2 * c) * q
  {
  }

  class Str {
    var buf: array<byte>
    var len: nat
    var cap: nat

    /**
     * The buffer holds `len` ASCII bytes, none of them NUL, followed by a
     * terminator within the capacity; capacity 0 means no storage and no content.
     */
    ghost predicate Valid()
      reads this, buf
    {
      && buf.Length == cap
      && (cap == 0 ==> len == 0)
      && (cap > 0 ==> len < cap && buf[len] == 0)
      && IsText(buf[..len])
    }

    function Content(): (s: seq<byte>)
      reads this, buf
      requires Valid()
      ensures |s| == len && IsText(s)
    {
      buf[..len]
    }

    /**
     * `str_as_ptr`: NULL for a buffer without storage, otherwise the storage,
     * which reads as a C string back to exactly the content.
     */
    function AsPtr(): (p: CStr)
      reads this, buf
      requires Valid()
      ensures p.None? <==> cap == 0
      ensures Literal(p) == Content()
    {
      if cap == 0 then None
      else
        LiteralOfTerminated(buf[..len], buf[len..]);
        assert buf[..len] + buf[len..] == buf[..];
        Some(buf[..])
    }

    /** `str_with_capacity`: no content, exactly the requested capacity, no storage for 0. */
    constructor WithCapacity(capacity: nat)
      ensures Valid() && fresh(buf)
      ensures len == 0 && cap == capacity
    {
      var a := new byte[capacity];
      if capacity > 0 {
        a[0] := 0;
      }
      buf := a;
      len := 0;
      cap := capacity;
    }

    /**
     * `str_new`: the C string's bytes with every non-ASCII byte replaced by '?',
     * in the smallest capacity 32 * 2^k above the length; NULL gives an empty
     * buffer of capacity 32.
     */
    static method New(s: CStr) returns (r: Str)
      ensures fresh(r) && fresh(r.buf) && r.Valid()
      ensures r.Content() == Normalized(Literal(s))
      ensures r.cap == Grown(DefaultCapacity, |Literal(s)|)
    {
      if s.None? {
        r := new Str.WithCapacity(DefaultCapacity);
        return;
      }
      var n := LiteralLen(s);
      var c := DefaultCapacity;
      while n >= c
        invariant c > 0 && Grown(c, n) == Grown(DefaultCapacity, n)
        decreases n as int - c as int
      {
        c := c * 2;
      }
      r := new Str.WithCapacity(c);
      for i := 0 to n
        modifies r.buf
        invariant forall j :: 0 <= j < i ==> r.buf[j] == Normalize(s.value[j])
      {
        r.buf[i] := Normalize(s.value[i]);
      }
      r.buf[n] := 0;
      r.len := n;
      assert r.buf[..n] == Normalized(Literal(s));
    }

    /**
     * `str_copy`: the same bytes in fresh storage of capacity `len + 1`;
     * NULL gives an empty buffer of capacity 32.
     */
    static method Copy(other: Str?) returns (r: Str)
      requires other != null ==> other.Valid()
      ensures fresh(r) && fresh(r.buf) && r.Valid()
      ensures other == null ==> r.Content() == [] && r.cap == DefaultCapacity
      ensures other != null ==> r.Content() == other.Content() && r.cap == other.len + 1
    {
      if other == null {
        r := new Str.WithCapacity(DefaultCapacity);
        return;
      }
      // The capacity `len + 1` is never 0, so the source's branch for it is dead.
      r := new Str.WithCapacity(other.len + 1);
      for i := 0 to other.len
        modifies r.buf
        invariant forall j :: 0 <= j < i ==> r.buf[j] == other.buf[j]
      {
        r.buf[i] := other.buf[i];
      }
      r.buf[other.len] := 0;
      r.len := other.len;
      assert r.buf[..r.len] == other.buf[..other.len];
    }

    /**
     * `str_append`: the C string's bytes, made ASCII, go after the content.
     * NULL or empty text changes nothing; otherwise the capacity doubles until it
     * exceeds the new length. The text is a value, so appending a buffer's own
     * content to it is safe.
     */
    method Append(t: CStr)
      requires Valid()
      requires Literal(t) != [] ==> cap > 0
      modifies this, buf
      ensures Valid()
      ensures buf == old(buf) || fresh(buf)
      ensures Content() == old(Content()) + Normalized(Literal(t))
      ensures Literal(t) == [] ==> len == old(len) && cap == old(cap) && buf == old(buf)
      ensures Literal(t) != [] ==> cap == Grown(old(cap), old(len) + |Literal(t)|)
      ensures cap == old(cap) ==> buf == old(buf)
    {
      if t.None? || LiteralLen(t) == 0 {
        return;
      }
      var n := LiteralLen(t);
      var newLen := len + n;
      if newLen >= cap {
        var c := cap;
        while newLen >= c
          invariant c > 0 && Grown(c, newLen) == Grown(cap, newLen)
          decreases newLen as int - c as int
        {
          c := c * 2;
        }
        Reallocate(c);
      }
      PutNormalized(t.value[..n]);
    }

    /**
     * The copy loop of `str_append`: writes the bytes, made ASCII, after the
     * content and moves the terminator, in storage already large enough.
     */
    method PutNormalized(text: seq<byte>)
      requires Valid() && len + |text| < cap
      requires forall i :: 0 <= i < |text| ==> text[i] != 0
      modifies this, buf
      ensures Valid() && buf == old(buf) && cap == old(cap)
      ensures Content() == old(Content()) + Normalized(text)
    {
      ghost var before := buf[..len];
      var n := |text|;
      for i := 0 to n
        modifies buf
        invariant buf[..len] == before
        invariant forall j :: 0 <= j < i ==> buf[len + j] == Normalize(text[j])
      {
        buf[len + i] := Normalize(text[i]);
      }
      buf[len + n] := 0;
      len := len + n;
      assert buf[..len] == before + Normalized(text);
    }

    /** `realloc` to a larger capacity: new storage holding the old bytes. */
    method Reallocate(newCap: nat)
      requires Valid() && newCap > cap
      modifies this
      ensures Valid() && fresh(buf) && cap == newCap
      ensures len == old(len) && Content() == old(Content())
    {
      var a := new byte[newCap];
      for i := 0 to buf.Length
        modifies a
        invariant forall j :: 0 <= j < i ==> a[j] == buf[j]
      {
        a[i] := buf[i];
      }
      if cap == 0 {
        // malloc: the storage is new, its first byte terminates the empty content
        a[0] := 0;
      }
      assert a[..len] == buf[..len];
      buf := a;
      cap := newCap;
    }

    /**
     * `str_trim`: drops the maximal leading and trailing runs of `__is_blank`
     * bytes, shifting what is left to the front of the same storage.
     */
    method Trim()
      requires Valid()
      modifies this, buf
      ensures Valid() && buf == old(buf) && cap == old(cap)
      ensures Content() == Trimmed(old(Content()))
    {
      if len == 0 {
        return;
      }
      ghost var s := buf[..len];
      var front := 0;
      var back := len;
      while front != back && IsBlank(buf[front])
        invariant front <= back == len
        invariant forall j :: 0 <= j < front ==> IsBlank(s[j])
      {
        front := front + 1;
      }
      while back != front && IsBlank(buf[back - 1])
        invariant front <= back <= len
        invariant forall j :: back <= j < len ==> IsBlank(s[j])
      {
        back := back - 1;
      }
      TrimmedBetween(s, front, back);
      ShiftToFront(front, back);
    }

    /**
     * The second half of `str_trim`: the bytes from `front` to `back` move to
     * the start of the storage (they are already there when `front` is 0) and
     * become the whole content.
     */
    method ShiftToFront(front: nat, back: nat)
      requires Valid() && cap > 0 && front <= back <= len
      modifies this, buf
      ensures Valid() && buf == old(buf) && cap == old(cap)
      ensures Content() == old(Content())[front..back]
    {
      ghost var s := buf[..len];
      var newLen := back - front;
      if newLen != 0 && front != 0 {
        var from := front;
        var position := 0;
        while from != back
          modifies buf
          invariant front <= from <= back && position == from - front
          invariant forall j :: 0 <= j < position ==> buf[j] == s[front + j]
          invariant forall j :: from <= j < len ==> buf[j] == s[j]
        {
          buf[position] := buf[from];
          from := from + 1;
          position := position + 1;
        }
      }
      buf[newLen] := 0;
      len := newLen;
      assert buf[..len] == s[front..back];
    }

    /** `str_truncate`: keeps the first `n` bytes when there are more; never grows. */
    method Truncate(n: nat)
      requires Valid()
      modifies this, buf
      ensures Valid() && buf == old(buf) && cap == old(cap)
      ensures Content() <= old(Content())
      ensures len == if old(len) > n then n else old(len)
    {
      if len > n {
        buf[n] := 0;
        len := n;
      }
    }

    /** `str_to_lowercase`: every letter to lower case, in place. */
    method ToLowercase()
      requires Valid()
      modifies buf
      ensures Valid() && Content() == Lowered(old(Content()))
    {
      if len == 0 {
        return;
      }
      for i := 0 to len
        modifies buf
        invariant forall j :: 0 <= j < i ==> buf[j] == ToLower(old(buf[j]))
        invariant forall j :: i <= j < buf.Length ==> buf[j] == old(buf[j])
      {
        buf[i] := ToLower(buf[i]);
      }
    }

    /** `str_to_uppercase`: every letter to upper case, in place. */
    method ToUppercase()
      requires Valid()
      modifies buf
      ensures Valid() && Content() == Uppered(old(Content()))
    {
      if len == 0 {
        return;
      }
      for i := 0 to len
        modifies buf
        invariant forall j :: 0 <= j < i ==> buf[j] == ToUpper(old(buf[j]))
        invariant forall j :: i <= j < buf.Length ==> buf[j] == old(buf[j])
      {
        buf[i] := ToUpper(buf[i]);
      }
    }
  }

  /** The content of a handle that may be NULL, as `str_concat` treats it: NULL reads as empty. */
  ghost function ContentOrEmpty(s: Str?): seq<byte>
    reads s, if s == null then {} else {s.buf}
    requires s != null ==> s.Valid()
  {
    if s == null then [] else s.Content()
  }

  /**
   * `str_concat`: a new buffer holding `a` then `b`, both left as they are.
   * Both empty gives an empty buffer of capacity 32; exactly one empty gives a
   * copy of the other (capacity `len + 1`); otherwise the capacity is the
   * smallest 32 * 2^k above the total length.
   */
  method Concat(a: Str?, b: Str?) returns (r: Str)
    requires a != null ==> a.Valid()
    requires b != null ==> b.Valid()
    ensures fresh(r) && fresh(r.buf) && r.Valid()
    ensures r.Content() == ContentOrEmpty(a) + ContentOrEmpty(b)
    ensures ContentOrEmpty(a) == [] && ContentOrEmpty(b) == [] ==> r.cap == DefaultCapacity
    ensures ContentOrEmpty(a) != [] && ContentOrEmpty(b) == [] ==> r.cap == a.len + 1
    ensures ContentOrEmpty(a) == [] && ContentOrEmpty(b) != [] ==> r.cap == b.len + 1
    ensures ContentOrEmpty(a) != [] && ContentOrEmpty(b) != [] ==>
              r.cap == Grown(DefaultCapacity, a.len + b.len)
  {
    var isNullA := a == null;
    var isNullB := b == null;
    var isEmptyA := isNullA || a.len == 0;
    var isEmptyB := isNullB || b.len == 0;
    if (isNullA && isNullB) || (isEmptyA && isEmptyB) {
      r := new Str.WithCapacity(DefaultCapacity);
      return;
    }
    if !isNullA && !isEmptyA && (isNullB || isEmptyB) {
      r := Str.Copy(a);
      return;
    }
    if !isNullB && !isEmptyB && (isNullA || isEmptyA) {
      r := Str.Copy(b);
      return;
    }
    r := ConcatBoth(a, b);
  }

  /** The last case of `str_concat`: both contents non-empty. */
  method ConcatBoth(a: Str, b: Str) returns (r: Str)
    requires a.Valid() && b.Valid() && a.len > 0 && b.len > 0
    ensures fresh(r) && fresh(r.buf) && r.Valid()
    ensures r.Content() == a.Content() + b.Content()
    ensures r.cap == Grown(DefaultCapacity, a.len + b.len)
  {
    var n := a.len + b.len;
    var c := DefaultCapacity;
    while n >= c
      invariant c > 0 && Grown(c, n) == Grown(DefaultCapacity, n)
      decreases n as int - c as int
    {
      c := c * 2;
    }
    r := new Str.WithCapacity(c);
    CopyBytes(r.buf, 0, a.buf, a.len);
    CopyBytes(r.buf, a.len, b.buf, b.len);
    r.buf[n] := 0;
    r.len := n;
    assert r.buf[..n] == r.buf[..a.len] + r.buf[a.len..n];
  }

  /** One copy loop of `str_concat`: the first `n` bytes of `src` go to `dst` from `at` on. */
  method CopyBytes(dst: array<byte>, at: nat, src: array<byte>, n: nat)
    requires n <= src.Length && at + n <= dst.Length && dst != src
    modifies dst
    ensures dst[..at] == old(dst[..at])
    ensures dst[at..at + n] == src[..n]
    ensures dst[at + n..] == old(dst[at + n..])
  {
    for i := 0 to n
      invariant dst[..at] == old(dst[..at])
      invariant dst[at..at + i] == src[..i]
      invariant dst[at + n..] == old(dst[at + n..])
    {
      dst[at + i] := src[i];
    }
  }

  /** The number of `__is_blank` bytes at the front of `s`. */
  function LeadingBlanks(s: seq<byte>): (k: nat)
    ensures k <= |s|
    ensures forall i :: 0 <= i < k ==> IsBlank(s[i])
    ensures k < |s| ==> !IsBlank(s[k])
  {
    if s == [] || !IsBlank(s[0]) then 0 else 1 + LeadingBlanks(s[1..])
  }

  /** The number of `__is_blank` bytes at the back of `s`. */
  function TrailingBlanks(s: seq<byte>): (k: nat)
    ensures k <= |s|
    ensures forall i :: |s| - k <= i < |s| ==> IsBlank(s[i])
    ensures k < |s| ==> !IsBlank(s[|s| - 1 - k])
  {
    if s == [] || !IsBlank(s[|s| - 1]) then 0 else 1 + TrailingBlanks(s[..|s| - 1])
  }

  ghost predicate AllBlank(s: seq<byte>)
  {
    forall i :: 0 <= i < |s| ==> IsBlank(s[i])
  }

  /** What `str_trim` leaves of `s`: the part between the leading and the trailing blank runs. */
  function Trimmed(s: seq<byte>): (r: seq<byte>)
  {
    var f := LeadingBlanks(s);
    s[f..|s| - TrailingBlanks(s[f..])]
  }

  /** A blank run of `n` bytes followed by a non-blank byte or the end is the leading blank run. */
  lemma {:induction false} LeadingBlanksIs(s: seq<byte>, n: nat)
    requires n <= |s|
    requires forall j :: 0 <= j < n ==> IsBlank(s[j])
    requires n < |s| ==> !IsBlank(s[n])
    ensures LeadingBlanks(s) == n
  {
    if n > 0 {
      LeadingBlanksIs(s[1..], n - 1);
    }
  }

  /** A blank run of `n` bytes preceded by a non-blank byte or the start is the trailing blank run. */
  lemma {:induction false} TrailingBlanksIs(s: seq<byte>, n: nat)
    requires n <= |s|
    requires forall j :: |s| - n <= j < |s| ==> IsBlank(s[j])
    requires n < |s| ==> !IsBlank(s[|s| - 1 - n])
    ensures TrailingBlanks(s) == n
  {
    if n > 0 {
      TrailingBlanksIs(s[..|s| - 1], n - 1);
    }
  }

  /**
   * The scans of `str_trim`: `front` stops at the first non-blank byte and
   * `back` after the last one, so the bytes between them are the trimmed text.
   */
  lemma TrimmedBetween(s: seq<byte>, front: nat, back: nat)
    requires front <= back <= |s|
    requires forall j :: 0 <= j < front ==> IsBlank(s[j])
    requires front < |s| ==> !IsBlank(s[front])
    requires front < back ==> !IsBlank(s[back - 1])
    requires forall j :: back <= j < |s| ==> IsBlank(s[j])
    ensures Trimmed(s) == s[front..back]
  {
    LeadingBlanksIs(s, front);
    var t := s[front..];
    TrailingBlanksIs(t, |s| - back);
  }

  /**
   * The trimmed text sits in `s`, unchanged, right after the leading blank
   * run and followed only by blanks.
   */
  lemma TrimmedPlace(s: seq<byte>)
    ensures var r, f := Trimmed(s), LeadingBlanks(s);
      && f + |r| <= |s|
      && s[f..f + |r|] == r
      && AllBlank(s[..f]) && AllBlank(s[f + |r|..])
  {
    var f := LeadingBlanks(s);
    var t := s[f..];
    var k := TrailingBlanks(t);
    var r := Trimmed(s);
    assert r == s[f..|s| - k];
    assert |r| == |s| - k - f;
    var prefix, suffix := s[..f], s[f + |r|..];
    forall i | 0 <= i < |prefix| ensures IsBlank(prefix[i]) {
      assert prefix[i] == s[i];
    }
    forall i | 0 <= i < |suffix| ensures IsBlank(suffix[i]) {
      assert suffix[i] == t[|t| - k + i];
    }
  }

  /** A non-empty trimmed text begins and ends with a non-blank byte. */
  lemma TrimmedEnds(s: seq<byte>)
    ensures var r := Trimmed(s);
      r == [] || (!IsBlank(r[0]) && !IsBlank(r[|r| - 1]))
  {
    var f := LeadingBlanks(s);
    var t := s[f..];
    var k := TrailingBlanks(t);
    var r := Trimmed(s);
    if r != [] {
      assert r[0] == s[f];
      assert r[|r| - 1] == t[|t| - 1 - k];
    }
  }

  /** Trimming leaves nothing exactly when every byte is blank. */
  lemma TrimmedEmptyIffBlank(s: seq<byte>)
    ensures Trimmed(s) == [] <==> AllBlank(s)
  {
    var f := LeadingBlanks(s);
    if Trimmed(s) != [] {
      TrimmedEnds(s);
      TrimmedPlace(s);
      assert s[f] == Trimmed(s)[0];
    }
  }

  /** `str_trim` applied twice trims no more than once. */
  lemma TrimmedIdempotent(s: seq<byte>)
    ensures Trimmed(Trimmed(s)) == Trimmed(s)
  {
    var r := Trimmed(s);
    TrimmedEnds(s);
    if r != [] {
      assert LeadingBlanks(r) == 0;
      assert r[0..] == r;
      assert TrailingBlanks(r) == 0;
    }
  }

  /** Content mapped through `__to_lower`. */
  function Lowered(s: seq<byte>): (r: seq<byte>)
    ensures |r| == |s|
    ensures forall i :: 0 <= i < |r| ==> !IsUpper(r[i])
  {
    seq(|s|, i requires 0 <= i < |s| => ToLower(s[i]))
  }

  /** Content mapped through `__to_upper`. */
  function Uppered(s: seq<byte>): (r: seq<byte>)
    ensures |r| == |s|
    ensures forall i :: 0 <= i < |r| ==> !IsLower(r[i])
  {
    seq(|s|, i requires 0 <= i < |s| => ToUpper(s[i]))
  }

  /** Lower-casing is idempotent and forgets an earlier upper-casing; the same the other way round. */
  lemma CaseMapsAbsorb(s: seq<byte>)
    ensures Lowered(Lowered(s)) == Lowered(s)
    ensures Uppered(Uppered(s)) == Uppered(s)
    ensures Lowered(Uppered(s)) == Lowered(s)
    ensures Uppered(Lowered(s)) == Uppered(s)
  {
    forall i | 0 <= i < |s| ensures ToLower(ToUpper(s[i])) == ToLower(s[i]) {
      LowerOfUpper(s[i]);
    }
  }

  /** Case mapping keeps ASCII text ASCII text. */
  lemma CaseMapsKeepText(s: seq<byte>)
    requires IsText(s)
    ensures IsText(Lowered(s)) && IsText(Uppered(s))
  {
  }

  /** `str_len`: the content's length, 0 for NULL. */
  function Len(s: Option<seq<byte>>): (n: nat)
    ensures s.None? ==> n == 0
    ensures s.Some? ==> n == |s.value|
  {
    if s.None? then 0 else |s.value|
  }

  /** `str_is_empty`: true for NULL and for a buffer without content. */
  function IsEmpty(s: Option<seq<byte>>): (r: bool)
    ensures r <==> s.None? || s.value == []
    ensures r <==> Len(s) == 0
  {
    s.None? || |s.value| == 0
  }

  /** `str_at`: the byte at `pos` inside the content, 0 outside it or for NULL. */
  function At(s: Option<seq<byte>>, pos: nat): (c: byte)
    ensures s.Some? && pos < |s.value| ==> c == s.value[pos]
    ensures s.None? || pos >= |s.value| ==> c == 0
  {
    if s.None? || |s.value| == 0 || pos >= |s.value| then 0 else s.value[pos]
  }

  /** On a valid buffer the sentinel 0 is returned exactly for positions outside the content. */
  lemma AtZeroIffOutside(s: Str, pos: nat)
    requires s.Valid()
    ensures At(Some(s.Content()), pos) == 0 <==> pos >= s.len
  {
  }

  /** `str_eq`: false when either side is NULL (even both); otherwise byte-for-byte equality. */
  function Eq(a: Option<seq<byte>>, b: Option<seq<byte>>): (r: bool)
    ensures r <==> a.Some? && b.Some? && a.value == b.value
  {
    if a.None? || b.None? then false
    else if |a.value| != |b.value| then false
    else forall i :: 0 <= i < |a.value| ==> a.value[i] == b.value[i]
  }

  /** `str_starts_with`: NULL on either side is false; otherwise the pattern's text is a prefix. */
  function StartsWith(s: Option<seq<byte>>, pattern: CStr): (r: bool)
    ensures r <==> s.Some? && pattern.Some? && Literal(pattern) <= s.value
  {
    if s.None? || pattern.None? then false
    else
      var p := Literal(pattern);
      if |s.value| == 0 then |p| == 0
      else if |p| == 0 then true
      else if |p| > |s.value| then false
      else forall i :: 0 <= i < |p| ==> s.value[i] == p[i]
  }

  ghost predicate IsSuffix(p: seq<byte>, s: seq<byte>)
  {
    |p| <= |s| && s[|s| - |p|..] == p
  }

  /** `str_ends_with`: NULL on either side is false; otherwise the pattern's text is a suffix. */
  function EndsWith(s: Option<seq<byte>>, pattern: CStr): (r: bool)
    ensures r <==> s.Some? && pattern.Some? && IsSuffix(Literal(pattern), s.value)
  {
    if s.None? || pattern.None? then false
    else
      var p := Literal(pattern);
      if |s.value| == 0 then |p| == 0
      else if |p| == 0 then true
      else if |p| > |s.value| then false
      else
        // the source compares from the last byte backwards
        forall k :: 0 <= k < |p| ==> s.value[|s.value| - |p| + k] == p[k]
  }

  ghost predicate OccursAt(p: seq<byte>, s: seq<byte>, i: nat)
  {
    i + |p| <= |s| && s[i..i + |p|] == p
  }

  ghost predicate IsSubstring(p: seq<byte>, s: seq<byte>)
  {
    exists i: nat :: OccursAt(p, s, i)
  }

  /** Sliding-window search for `p` in `s` from window `i` on. */
  function SearchFrom(s: seq<byte>, p: seq<byte>, i: nat): (r: bool)
    ensures r <==> exists j: nat :: i <= j && OccursAt(p, s, j)
    decreases |s| - i
  {
    if i + |p| > |s| then false
    else if s[i..i + |p|] == p then
      assert OccursAt(p, s, i);
      true
    else SearchFrom(s, p, i + 1)
  }

  /**
   * `str_contains` as its contract states it: NULL on either side is false;
   * otherwise the pattern's text occurs somewhere in the content. A one-byte
   * pattern takes the source's direct scan; longer ones a sliding window.
   */
  function Contains(s: Option<seq<byte>>, pattern: CStr): (r: bool)
    ensures r <==> s.Some? && pattern.Some? && IsSubstring(Literal(pattern), s.value)
  {
    if s.None? || pattern.None? then false
    else
      var p := Literal(pattern);
      if |s.value| == 0 then
        assert OccursAt(p, s.value, 0) <== |p| == 0;
        |p| == 0
      else if |p| == 0 then
        assert OccursAt(p, s.value, 0);
        true
      else if |p| > |s.value| then false
      else if |p| == 1 then
        assert forall i: nat :: OccursAt(p, s.value, i) <==> i < |s.value| && s.value[i] == p[0] by {
          forall i: nat ensures OccursAt(p, s.value, i) <==> i < |s.value| && s.value[i] == p[0] {
            if i < |s.value| {
              assert s.value[i..i + 1] == [s.value[i]];
            }
          }
        }
        p[0] in s.value
      else SearchFrom(s.value, p, 0)
  }

  /**
   * The multi-byte loop of `str_contains` from window `i` on, as written: the
   * first window whose first byte matches answers true, whatever follows, since
   * the inner loop's `continue` only moves on to the next pattern byte.
   */
  function FirstByteScan(s: seq<byte>, p: seq<byte>, i: nat): (r: bool)
    requires |p| > 0
    ensures r <==> exists j: nat :: i <= j && j + |p| <= |s| && s[j] == p[0]
    decreases |s| - i
  {
    if i >= |s| then false
    else if i + |p| > |s| then false
    else if s[i] == p[0] then true
    else FirstByteScan(s, p, i + 1)
  }

  /** `str_contains` as written in src/str.c. */
  function ContainsAsWritten(s: Option<seq<byte>>, pattern: CStr): (r: bool)
    ensures r <==> (s.Some? && pattern.Some? &&
                    (Literal(pattern) == [] ||
                     exists j: nat :: j + |Literal(pattern)| <= |s.value| && s.value[j] == Literal(pattern)[0]))
  {
    if s.None? || pattern.None? then false
    else
      var p := Literal(pattern);
      if |s.value| == 0 then |p| == 0
      else if |p| == 0 then true
      else if |p| > |s.value| then false
      else if |p| == 1 && p[0] in s.value then true
      else FirstByteScan(s.value, p, 0)
  }

  /** Up to one byte of pattern, the code as written agrees with the contract. */
  lemma ContainsAsWrittenShortPatterns(s: Option<seq<byte>>, pattern: CStr)
    requires |Literal(pattern)| <= 1
    ensures ContainsAsWritten(s, pattern) == Contains(s, pattern)
  {
    if s.Some? && pattern.Some? && |Literal(pattern)| == 1 {
      var p := Literal(pattern);
      if ContainsAsWritten(s, pattern) {
        var j: nat :| j + 1 <= |s.value| && s.value[j] == p[0];
        assert s.value[j..j + 1] == p;
        assert OccursAt(p, s.value, j);
      }
    }
  }

  /** The code as written never misses an occurrence. */
  lemma ContainsAsWrittenNeverMisses(s: Option<seq<byte>>, pattern: CStr)
    ensures Contains(s, pattern) ==> ContainsAsWritten(s, pattern)
  {
    if Contains(s, pattern) && Literal(pattern) != [] {
      var p := Literal(pattern);
      var j: nat :| OccursAt(p, s.value, j);
      assert s.value[j..j + |p|][0] == s.value[j];
    }
  }

  /** "ac" does not contain "ab", yet the code as written says it does. */
  lemma ContainsAsWrittenFalsePositive()
    ensures ContainsAsWritten(Some([0x61, 0x63]), Some([0x61, 0x62]))
    ensures !Contains(Some([0x61, 0x63]), Some([0x61, 0x62]))
  {
    var s: seq<byte> := [0x61, 0x63];
    var p: seq<byte> := [0x61, 0x62];
    LiteralOfTerminated(p, []);
    assert p + [] == p;
    assert s[0] == p[0];
    forall j: nat ensures !OccursAt(p, s, j) {
      if j + |p| <= |s| {
        assert j == 0;
        assert s[0..2][1] != p[1];
      }
    }
  }

  /** A prefix or a suffix is an occurrence. */
  lemma PrefixSuffixAreOccurrences(s: Option<seq<byte>>, pattern: CStr)
    ensures StartsWith(s, pattern) ==> Contains(s, pattern)
    ensures EndsWith(s, pattern) ==> Contains(s, pattern)
  {
    if StartsWith(s, pattern) {
      var p := Literal(pattern);
      assert s.value[0..|p|] == p;
      assert OccursAt(p, s.value, 0);
    }
    if EndsWith(s, pattern) {
      var p := Literal(pattern);
      var i: nat := |s.value| - |p|;
      assert s.value[i..i + |p|] == p;
      assert OccursAt(p, s.value, i);
    }
  }

  /** Appending a buffer's own text to it doubles the content: "ab" becomes "abab". */
  method AppendToItself(s: Str)
    requires s.Valid()
    modifies s, s.buf
    ensures s.Valid()
    ensures s.Content() == old(s.Content()) + old(s.Content())
  {
    s.Append(s.AsPtr());
  }
}
