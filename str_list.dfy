/**
 * The owning list `str_list_t` (src/str_list.c): a growable array of buffer
 * handles, with split and join between buffers and lists.
 *
 * Split and join are first stated as functions over byte sequences (`Fields`,
 * `Joined`); the methods that build lists and buffers are proved against them.
 */
module StrLists {
  import opened Wrappers
  import opened StrPrivate
  import Strings

  /** `STR_LIST_DEFAULT_CAPACITY`. */
  const DefaultListCapacity: nat := 32

  /** The delimiter set of `str_split_whitespace`: space, tab, vertical tab, newline, carriage return. */
  const WhitespaceDelimiters: seq<byte> := [0x20, 0x09, 0x0B, 0x0A, 0x0D]

  /** Every buffer in `items` satisfies its invariant. */
  ghost predicate AllValid(items: seq<Strings.Str>)
    reads items, set x | x in items :: x.buf
  {
    forall i :: 0 <= i < |items| ==> items[i].Valid()
  }

  /**
   * No two elements share a handle or a byte buffer: every slot owns its own
   * allocation, so freeing the slots one by one frees nothing twice.
   */
  ghost predicate Unaliased(items: seq<Strings.Str>)
    reads items
  {
    forall i, j :: 0 <= i < j < |items| ==> items[i] != items[j] && items[i].buf != items[j].buf
  }

  /** The contents of the buffers in `items`, in order. */
  function Contents(items: seq<Strings.Str>): (cs: seq<seq<byte>>)
    reads items, set x | x in items :: x.buf
    requires AllValid(items)
    ensures |cs| == |items|
    ensures forall i :: 0 <= i < |items| ==> cs[i] == items[i].Content()
  {
    seq(|items|, i requires 0 <= i < |items| && items[i].Valid() reads items, set x | x in items :: x.buf =>
      items[i].Content())
  }

  class StrList {
    var buf: array<Strings.Str?>
    var size: nat
    var cap: nat

    /** The first `size` slots of the storage hold buffer handles; the storage is `cap` slots long. */
    ghost predicate Valid()
      reads this, buf
    {
      && buf.Length == cap
      && size <= cap
      && forall i :: 0 <= i < size ==> buf[i] != null
    }

    /** The elements, in order. */
    function Items(): (xs: seq<Strings.Str>)
      reads this, buf
      requires Valid()
      ensures |xs| == size
      ensures forall i :: 0 <= i < size ==> xs[i] == buf[i]
    {
      seq(size, i requires 0 <= i < size && Valid() reads this, buf => buf[i] as Strings.Str)
    }

    /** `str_list_with_capacity`: no elements, exactly the requested capacity, every slot NULL. */
    constructor WithCapacity(capacity: nat)
      ensures Valid() && fresh(buf)
      ensures size == 0 && cap == capacity
      ensures forall i :: 0 <= i < buf.Length ==> buf[i] == null
    {
      var a := new Strings.Str?[capacity];
      for i := 0 to capacity
        invariant forall j :: 0 <= j < i ==> a[j] == null
      {
        a[i] := null;
      }
      buf := a;
      size := 0;
      cap := capacity;
    }

    /** `str_list_new`: an empty list of capacity 32. */
    static method New() returns (l: StrList)
      ensures fresh(l) && fresh(l.buf) && l.Valid()
      ensures l.Items() == [] && l.cap == DefaultListCapacity
    {
      l := new StrList.WithCapacity(DefaultListCapacity);
    }

    /**
     * `str_list_push`: a NULL handle changes nothing; otherwise the handle
     * becomes the last element, and a full list doubles its capacity first.
     */
    method Push(s: Strings.Str?)
      requires Valid()
      requires s != null ==> cap > 0
      modifies this, buf
      ensures Valid()
      ensures buf == old(buf) || fresh(buf)
      ensures s == null ==> Items() == old(Items()) && cap == old(cap) && buf == old(buf)
      ensures s != null ==> Items() == old(Items()) + [s]
      ensures s != null ==> cap == if old(size) == old(cap) then 2 * old(cap) else old(cap)
    {
      if s == null {
        return;
      }
      if size == cap {
        Reallocate(cap * 2);
      }
      buf[size] := s;
      size := size + 1;
    }

    /** `realloc` of the slot array to a larger capacity: new storage holding the old slots. */
    method Reallocate(newCap: nat)
      requires Valid() && newCap > cap
      modifies this
      ensures Valid() && fresh(buf) && cap == newCap
      ensures size == old(size) && Items() == old(Items())
    {
      var a := new Strings.Str?[newCap];
      for i := 0 to buf.Length
        modifies a
        invariant forall j :: 0 <= j < i ==> a[j] == buf[j]
      {
        a[i] := buf[i];
      }
      buf := a;
      cap := newCap;
    }

    /**
     * `str_list_pop`: an empty list gives NULL and stays as it is; otherwise
     * the last element is returned and removed, its slot set to NULL.
     */
    method Pop() returns (r: Strings.Str?)
      requires Valid()
      modifies this, buf
      ensures Valid() && buf == old(buf) && cap == old(cap)
      ensures old(size) == 0 ==> r == null && size == 0
      ensures old(size) > 0 ==> r == old(Items())[old(size) - 1]
      ensures old(size) > 0 ==> Items() == old(Items())[..old(size) - 1] && buf[size] == null
    {
      if size == 0 {
        return null;
      }
      size := size - 1;
      r := buf[size];
      buf[size] := null;
    }

    /**
     * `str_list_copy`: a deep copy. The capacity is exactly the size, every
     * element is a fresh buffer with the same bytes and capacity `len + 1`;
     * NULL gives an empty list of capacity 32.
     */
    static method Copy(other: StrList?) returns (r: StrList)
      requires other != null ==> other.Valid() && AllValid(other.Items())
      ensures fresh(r) && fresh(r.buf) && r.Valid() && AllValid(r.Items())
      ensures other == null ==> r.Items() == [] && r.cap == DefaultListCapacity
      ensures other != null ==> r.cap == other.size
      ensures other != null ==> Contents(r.Items()) == Contents(other.Items())
      ensures forall i :: 0 <= i < r.size ==> fresh(r.Items()[i]) && fresh(r.Items()[i].buf)
      ensures Unaliased(r.Items())
      ensures forall i :: 0 <= i < r.size ==> r.Items()[i].cap == r.Items()[i].len + 1
    {
      if other == null {
        r := New();
        return;
      }
      r := new StrList.WithCapacity(other.size);
      CopyElements(r, other);
    }
  }

  /**
   * The loop of `str_list_copy` on an empty list `r` with room for every
   * element: slot `i` gets a `str_copy` of element `i` of `other`.
   */
  method CopyElements(r: StrList, other: StrList)
    requires r.Valid() && r.size == 0 && other.size <= r.cap && r != other && r.buf != other.buf
    requires other.Valid() && AllValid(other.Items())
    modifies r, r.buf
    ensures r.Valid() && r.buf == old(r.buf) && r.cap == old(r.cap) && AllValid(r.Items())
    ensures Contents(r.Items()) == Contents(other.Items())
    ensures forall i :: 0 <= i < r.size ==> fresh(r.Items()[i]) && fresh(r.Items()[i].buf)
    ensures Unaliased(r.Items())
    ensures forall i :: 0 <= i < r.size ==> r.Items()[i].cap == r.Items()[i].len + 1
  {
    FillSlots(r.buf, other);
    r.size := other.size;
    SlotsHeld(r.Items(), r.buf, other);
  }

  /** What the filled slots say, in terms of the list's elements. */
  lemma SlotsHeld(xs: seq<Strings.Str>, a: array<Strings.Str?>, other: StrList)
    requires other.Valid() && AllValid(other.Items()) && |xs| == other.size <= a.Length
    requires forall j :: 0 <= j < |xs| ==> xs[j] == a[j]
    requires forall j :: 0 <= j < other.size ==> a[j] != null
    requires forall j :: 0 <= j < other.size ==> a[j].Valid() && a[j].Content() == other.buf[j].Content()
    requires forall j :: 0 <= j < other.size ==> a[j].cap == a[j].len + 1
    requires forall j, k :: 0 <= j < k < other.size ==> a[j] != a[k] && a[j].buf != a[k].buf
    ensures AllValid(xs) && Contents(xs) == Contents(other.Items()) && Unaliased(xs)
    ensures forall j :: 0 <= j < |xs| ==> xs[j].cap == xs[j].len + 1
  {
  }

  /** The loop of `str_list_copy`: slot `i` of `a` gets a `str_copy` of element `i` of `other`. */
  method FillSlots(a: array<Strings.Str?>, other: StrList)
    requires other.Valid() && AllValid(other.Items()) && other.size <= a.Length && a != other.buf
    modifies a
    ensures forall j :: 0 <= j < other.size ==> a[j] != null
    ensures forall j :: 0 <= j < other.size ==> fresh(a[j]) && fresh(a[j].buf)
    ensures forall j :: 0 <= j < other.size ==> a[j].Valid() && a[j].Content() == other.buf[j].Content()
    ensures forall j :: 0 <= j < other.size ==> a[j].cap == a[j].len + 1
    ensures forall j, k :: 0 <= j < k < other.size ==> a[j] != a[k] && a[j].buf != a[k].buf
    ensures forall j :: other.size <= j < a.Length ==> a[j] == old(a[j])
  {
    for i := 0 to other.size
      invariant forall j :: 0 <= j < i ==>
        && a[j] != null && fresh(a[j]) && fresh(a[j].buf) && a[j].Valid()
        && a[j].Content() == other.buf[j].Content() && a[j].cap == a[j].len + 1
      invariant forall j, k :: 0 <= j < k < i ==> a[j] != a[k] && a[j].buf != a[k].buf
      invariant forall j :: i <= j < a.Length ==> a[j] == old(a[j])
    {
      CopyElement(a, other, i);
    }
  }

  /** One turn of the loop of `str_list_copy`: slot `i` gets its own fresh copy of element `i`. */
  method CopyElement(a: array<Strings.Str?>, other: StrList, i: nat)
    requires other.Valid() && AllValid(other.Items()) && i < other.size <= a.Length && a != other.buf
    requires forall j :: 0 <= j < i ==> a[j] != null
    modifies a
    ensures fresh(a[i]) && fresh(a[i].buf) && a[i].Valid()
    ensures a[i].Content() == other.buf[i].Content() && a[i].cap == a[i].len + 1
    ensures forall j :: 0 <= j < i ==> a[j] != null && a[j] != a[i] && a[j].buf != a[i].buf
    ensures forall j :: 0 <= j < a.Length && j != i ==> a[j] == old(a[j])
  {
    assert other.Items()[i] == other.buf[i];
    a[i] := Strings.Str.Copy(other.buf[i]);
  }

  /** `str_list_size`: the number of elements, 0 for NULL. */
  function Size(l: Option<seq<Strings.Str>>): (n: nat)
    ensures l.None? ==> n == 0
    ensures l.Some? ==> n == |l.value|
  {
    if l.None? then 0 else |l.value|
  }

  /** `str_list_is_empty`: true for NULL and for a list without elements. */
  function IsEmpty(l: Option<seq<Strings.Str>>): (r: bool)
    ensures r <==> l.None? || l.value == []
  {
    l.None? || |l.value| == 0
  }

  /** `str_list_at`: the element at `idx`, NULL for a NULL list or an index at or past the size. */
  function At(l: Option<seq<Strings.Str>>, idx: nat): (r: Strings.Str?)
    ensures r != null <==> l.Some? && idx < |l.value|
    ensures r != null ==> r == l.value[idx]
  {
    if l.None? || |l.value| == 0 || idx >= |l.value| then null else l.value[idx]
  }

  /** The three queries agree: a list is empty exactly when its size is 0 and no index holds an element. */
  lemma QueriesAgree(l: Option<seq<Strings.Str>>)
    ensures IsEmpty(l) <==> Size(l) == 0
    ensures IsEmpty(l) <==> forall idx: nat :: At(l, idx) == null
  {
    if !IsEmpty(l) {
      assert At(l, 0) != null;
    }
  }

  /** The loop of `str_list_contains` from element `i` on, for a non-empty query. */
  function AnyEqualFrom(items: seq<seq<byte>>, q: seq<byte>, i: nat): (r: bool)
    ensures r <==> exists j :: i <= j < |items| && items[j] == q
    decreases |items| - i
  {
    if i >= |items| then false
    else if Strings.Eq(Some(items[i]), Some(q)) then true
    else AnyEqualFrom(items, q, i + 1)
  }

  /** The loop of `str_list_contains` from element `i` on, for an empty query: some element is empty. */
  function AnyEmptyFrom(items: seq<seq<byte>>, i: nat): (r: bool)
    ensures r <==> exists j :: i <= j < |items| && items[j] == []
    decreases |items| - i
  {
    if i >= |items| then false
    else if |items[i]| == 0 then true
    else AnyEmptyFrom(items, i + 1)
  }

  /**
   * `str_list_contains`: false for a NULL list, a NULL query or an empty list;
   * otherwise true exactly when some element has the query's bytes.
   */
  function Contains(l: Option<seq<seq<byte>>>, q: Option<seq<byte>>): (r: bool)
    ensures r <==> l.Some? && q.Some? && q.value in l.value
  {
    if l.None? || q.None? || |l.value| == 0 then false
    else if |q.value| == 0 then AnyEmptyFrom(l.value, 0)
    else AnyEqualFrom(l.value, q.value, 0)
  }

  // ---------------------------------------------------------------------------
  // Split, as a function over bytes

  /** The length of the run of non-delimiter bytes at the front of `s`. */
  function RunLength(s: seq<byte>, d: seq<byte>): (k: nat)
    ensures k <= |s|
    ensures forall i :: 0 <= i < k ==> s[i] !in d
    ensures k < |s| ==> s[k] in d
  {
    if s == [] || s[0] in d then 0 else 1 + RunLength(s[1..], d)
  }

  /** A field of a split: non-empty and free of delimiter bytes. */
  ghost predicate IsField(f: seq<byte>, d: seq<byte>)
  {
    f != [] && forall i :: 0 <= i < |f| ==> f[i] !in d
  }

  /** The maximal runs of bytes of `s` not in `d`, in order. */
  function Fields(s: seq<byte>, d: seq<byte>): (fs: seq<seq<byte>>)
    ensures forall i :: 0 <= i < |fs| ==> IsField(fs[i], d)
    decreases |s|
  {
    if s == [] then []
    else if s[0] in d then Fields(s[1..], d)
    else
      var k := RunLength(s, d);
      [s[..k]] + Fields(s[k..], d)
  }

  /** The run length is pinned down by its two ends. */
  lemma RunLengthIs(s: seq<byte>, d: seq<byte>, k: nat)
    requires k <= |s|
    requires forall i :: 0 <= i < k ==> s[i] !in d
    requires k < |s| ==> s[k] in d
    ensures RunLength(s, d) == k
  {
  }

  /** One step of the split loop: a maximal run of `k > 0` non-delimiter bytes is the next field. */
  lemma FieldsStep(s: seq<byte>, d: seq<byte>, k: nat)
    requires 0 < k <= |s|
    requires forall i :: 0 <= i < k ==> s[i] !in d
    requires k < |s| ==> s[k] in d
    ensures Fields(s, d) == [s[..k]] + Fields(s[k..], d)
  {
    RunLengthIs(s, d, k);
  }

  /** Delimiter bytes in front of `s` add no field. */
  lemma {:induction false} FieldsSkipDelims(x: seq<byte>, s: seq<byte>, d: seq<byte>)
    requires forall i :: 0 <= i < |x| ==> x[i] in d
    ensures Fields(x + s, d) == Fields(s, d)
    decreases |x|
  {
    if x == [] {
      assert x + s == s;
    } else {
      assert (x + s)[0] == x[0];
      assert (x + s)[1..] == x[1..] + s;
      FieldsSkipDelims(x[1..], s, d);
    }
  }

  /** A non-empty run of delimiter bytes separates the fields on its two sides. */
  lemma {:induction false} FieldsAround(a: seq<byte>, x: seq<byte>, b: seq<byte>, d: seq<byte>)
    requires x != [] && forall i :: 0 <= i < |x| ==> x[i] in d
    ensures Fields(a + x + b, d) == Fields(a, d) + Fields(b, d)
    decreases |a|
  {
    var s := a + x + b;
    if a == [] {
      assert s == x + b;
      FieldsSkipDelims(x, b, d);
    } else if a[0] in d {
      assert s[1..] == a[1..] + x + b;
      FieldsAround(a[1..], x, b, d);
    } else {
      var k := RunLength(a, d);
      assert k < |a| ==> s[k] == a[k];
      assert k == |a| ==> s[k] == x[0];
      FieldsStep(s, d, k);
      assert s[..k] == a[..k];
      assert s[k..] == a[k..] + x + b;
      FieldsAround(a[k..], x, b, d);
    }
  }

  /** A field splits into itself. */
  lemma FieldsOfField(f: seq<byte>, d: seq<byte>)
    requires IsField(f, d)
    ensures Fields(f, d) == [f]
  {
    FieldsStep(f, d, |f|);
    assert f[..|f|] == f;
    assert f[|f|..] == [];
  }

  /** Splitting with no delimiters gives the whole text as the one field, or nothing for empty text. */
  lemma FieldsWithoutDelimiters(s: seq<byte>)
    ensures Fields(s, []) == if s == [] then [] else [s]
  {
    if s != [] {
      FieldsOfField(s, []);
    }
  }

  /**
   * The example in the header comment of `str_split`: " .One, Two; Three" split
   * on " ,;" keeps the '.' that is not a delimiter, so the first field is ".One".
   */
  lemma SplitHeaderExample()
    ensures Fields([0x20] + ([0x2E, 0x4F, 0x6E, 0x65] + [0x2C, 0x20] +
                             ([0x54, 0x77, 0x6F] + [0x3B, 0x20] + [0x54, 0x68, 0x72, 0x65, 0x65])),
                   [0x20, 0x2C, 0x3B])
         == [[0x2E, 0x4F, 0x6E, 0x65], [0x54, 0x77, 0x6F], [0x54, 0x68, 0x72, 0x65, 0x65]]
  {
    var d: seq<byte> := [0x20, 0x2C, 0x3B];
    var one: seq<byte> := [0x2E, 0x4F, 0x6E, 0x65];
    var tail: seq<byte> := [0x54, 0x77, 0x6F] + [0x3B, 0x20] + [0x54, 0x68, 0x72, 0x65, 0x65];
    SplitHeaderExampleTail();
    FieldsOfField(one, d);
    FieldsAround(one, [0x2C, 0x20], tail, d);
    FieldsSkipDelims([0x20], one + [0x2C, 0x20] + tail, d);
  }

  /** The last two fields of the example: "Two; Three" on " ,;". */
  lemma SplitHeaderExampleTail()
    ensures Fields([0x54, 0x77, 0x6F] + [0x3B, 0x20] + [0x54, 0x68, 0x72, 0x65, 0x65], [0x20, 0x2C, 0x3B])
         == [[0x54, 0x77, 0x6F], [0x54, 0x68, 0x72, 0x65, 0x65]]
  {
    var d: seq<byte> := [0x20, 0x2C, 0x3B];
    var two: seq<byte> := [0x54, 0x77, 0x6F];
    var three: seq<byte> := [0x54, 0x68, 0x72, 0x65, 0x65];
    FieldsOfField(two, d);
    FieldsOfField(three, d);
    FieldsAround(two, [0x3B, 0x20], three, d);
  }

  // ---------------------------------------------------------------------------
  // Join, as a function over bytes

  /** `e0 ++ sep ++ e1 ++ … ++ e(n-1)`: no separator before the first or after the last. */
  function Joined(xs: seq<seq<byte>>, sep: seq<byte>): (r: seq<byte>)
  {
    if xs == [] then []
    else if |xs| == 1 then xs[0]
    else Joined(xs[..|xs| - 1], sep) + sep + xs[|xs| - 1]
  }

  /** The total length of the elements. */
  function TotalLen(xs: seq<seq<byte>>): (n: nat)
  {
    if xs == [] then 0 else TotalLen(xs[..|xs| - 1]) + |xs[|xs| - 1]|
  }

  /** Taking one more element adds its length. */
  lemma TotalLenStep(xs: seq<seq<byte>>, i: nat)
    requires i < |xs|
    ensures TotalLen(xs[..i + 1]) == TotalLen(xs[..i]) + |xs[i]|
  {
    assert xs[..i + 1][..i] == xs[..i];
  }

  /** A prefix of the elements is no longer in total than all of them. */
  lemma {:induction false} TotalLenPrefix(xs: seq<seq<byte>>, i: nat)
    requires i <= |xs|
    ensures TotalLen(xs[..i]) <= TotalLen(xs)
    decreases |xs|
  {
    if i < |xs| {
      assert xs[..|xs| - 1][..i] == xs[..i];
      TotalLenPrefix(xs[..|xs| - 1], i);
    } else {
      assert xs[..i] == xs;
    }
  }

  /** The joined text is the elements' bytes plus one separator between each neighbouring pair. */
  lemma {:induction false} JoinedLength(xs: seq<seq<byte>>, sep: seq<byte>)
    requires xs != []
    ensures |Joined(xs, sep)| == TotalLen(xs) + |sep| * (|xs| - 1)
    decreases |xs|
  {
    if |xs| == 1 {
      assert xs[..0] == [];
    } else {
      JoinedLength(xs[..|xs| - 1], sep);
    }
  }

  /** The bytes taken by `count` separators of `delimLen` bytes each. */
  function SeparatorBytes(count: nat, delimLen: nat): (n: nat)
  {
    if count == 0 then 0 else SeparatorBytes(count - 1, delimLen) + delimLen
  }

  lemma {:induction false} SeparatorBytesIsProduct(count: nat, delimLen: nat)
    ensures SeparatorBytes(count, delimLen) == delimLen * count
  {
    if count > 0 {
      SeparatorBytesIsProduct(count - 1, delimLen);
    }
  }

  lemma {:induction false} SeparatorBytesMonotone(i: nat, k: nat, delimLen: nat)
    requires i <= k
    ensures SeparatorBytes(i, delimLen) <= SeparatorBytes(k, delimLen)
    decreases k
  {
    if i < k {
      SeparatorBytesMonotone(i, k - 1, delimLen);
    }
  }

  /** Splitting text joined with a separator of delimiter bytes gives the fields back. */
  lemma {:induction false} SplitJoinRoundTrip(fs: seq<seq<byte>>, sep: seq<byte>, d: seq<byte>)
    requires forall i :: 0 <= i < |fs| ==> IsField(fs[i], d)
    requires sep != [] && forall i :: 0 <= i < |sep| ==> sep[i] in d
    ensures Fields(Joined(fs, sep), d) == fs
    decreases |fs|
  {
    if |fs| == 1 {
      FieldsOfField(fs[0], d);
    } else if |fs| > 1 {
      var init, last := fs[..|fs| - 1], fs[|fs| - 1];
      SplitJoinRoundTrip(init, sep, d);
      FieldsAround(Joined(init, sep), sep, last, d);
      FieldsOfField(last, d);
      assert init + [last] == fs;
    }
  }

  /** The bytes of `s` that are not delimiters, in order. */
  function Kept(s: seq<byte>, d: seq<byte>): (r: seq<byte>)
  {
    if s == [] then [] else (if s[0] in d then [] else [s[0]]) + Kept(s[1..], d)
  }

  /** All fields, concatenated. */
  function Concatenation(fs: seq<seq<byte>>): (r: seq<byte>)
  {
    if fs == [] then [] else fs[0] + Concatenation(fs[1..])
  }

  lemma {:induction false} KeptOfField(s: seq<byte>, d: seq<byte>)
    requires forall i :: 0 <= i < |s| ==> s[i] !in d
    ensures Kept(s, d) == s
    decreases |s|
  {
    if s != [] {
      KeptOfField(s[1..], d);
    }
  }

  lemma {:induction false} KeptAppend(a: seq<byte>, b: seq<byte>, d: seq<byte>)
    ensures Kept(a + b, d) == Kept(a, d) + Kept(b, d)
    decreases |a|
  {
    if a != [] {
      assert (a + b)[1..] == a[1..] + b;
      KeptAppend(a[1..], b, d);
    } else {
      assert a + b == b;
    }
  }

  /** Split loses exactly the delimiter bytes: its fields, put back together, are the kept bytes. */
  lemma {:induction false} FieldsKeepEveryOtherByte(s: seq<byte>, d: seq<byte>)
    ensures Concatenation(Fields(s, d)) == Kept(s, d)
    decreases |s|
  {
    if s == [] {
    } else if s[0] in d {
      FieldsKeepEveryOtherByte(s[1..], d);
    } else {
      var k := RunLength(s, d);
      FieldsKeepEveryOtherByte(s[k..], d);
      assert s == s[..k] + s[k..];
      KeptAppend(s[..k], s[k..], d);
      KeptOfField(s[..k], d);
      var fs := Fields(s, d);
      assert fs[0] == s[..k] && fs[1..] == Fields(s[k..], d);
    }
  }

  // ---------------------------------------------------------------------------
  // Split and join on buffers

  /**
   * `str_split`: a list of fresh buffers holding, in order, the maximal runs of
   * the content's bytes that are not in the delimiter text. NULL or empty
   * content gives an empty list; a NULL or empty delimiter text gives one copy
   * of the whole buffer. Every list starts from `str_list_new`.
   */
  method Split(s: Strings.Str?, delim: CStr) returns (r: StrList)
    requires s != null ==> s.Valid()
    ensures fresh(r) && fresh(r.buf) && r.Valid() && AllValid(r.Items())
    ensures Contents(r.Items()) == Fields(Strings.ContentOrEmpty(s), Literal(delim))
    ensures r.cap >= DefaultListCapacity
    ensures forall i :: 0 <= i < r.size ==> fresh(r.Items()[i]) && fresh(r.Items()[i].buf)
    ensures Unaliased(r.Items())
    ensures s != null && s.len > 0 && Literal(delim) == [] ==> r.Items()[0].cap == s.len + 1
    ensures Literal(delim) != [] ==> forall x :: x in r.Items() ==> x.cap == Strings.Grown(DefaultCapacity, x.len)
  {
    if s == null || s.len == 0 {
      r := StrList.New();
      return;
    }
    ghost var src := s.Content();
    if delim.None? || LiteralLen(delim) == 0 {
      r := StrList.New();
      var c := Strings.Str.Copy(s);
      r.Push(c);
      FieldsWithoutDelimiters(src);
      return;
    }
    r := SplitOnDelimiters(s, delim);
    ChunksHeldItems(r.Items(), Fields(src, Literal(delim)));
  }

  /**
   * The loop of `str_split` for a non-empty content and a non-empty delimiter
   * text: each turn pushes the next field, if any.
   */
  method SplitOnDelimiters(s: Strings.Str, delim: CStr) returns (r: StrList)
    requires s.Valid() && Literal(delim) != []
    ensures fresh(r) && fresh(r.buf) && r.Valid() && r.cap >= DefaultListCapacity
    ensures forall i :: 0 <= i < r.size ==> fresh(r.Items()[i]) && fresh(r.Items()[i].buf)
    ensures Unaliased(r.Items())
    ensures ChunksHeld(r.Items(), Fields(s.Content(), Literal(delim)))
  {
    ghost var src := s.Content();
    ghost var d := Literal(delim);
    r := StrList.New();
    ghost var chunks: seq<seq<byte>> := [];
    ghost var items: seq<Strings.Str> := [];
    var bound := s.len;
    var front := 0;
    while front != bound
      invariant front <= bound
      invariant fresh(r) && fresh(r.buf) && r.Valid() && r.cap >= DefaultListCapacity
      invariant r.Items() == items && Unaliased(items)
      invariant forall i :: 0 <= i < |items| ==> fresh(items[i]) && fresh(items[i].buf)
      invariant ChunksHeld(items, chunks)
      invariant Fields(src, d) == chunks + Fields(src[front..], d)
      decreases bound - front
    {
      ghost var added, pushed;
      front, added, pushed := SplitStep(r, s, delim, front, chunks);
      Associative(chunks, added, Fields(src[front..], d));
      chunks, items := chunks + added, items + pushed;
    }
    assert src[bound..] == [];
  }

  /** What `ChunksHeld` says, in terms of the list's elements. */
  lemma ChunksHeldItems(items: seq<Strings.Str>, chunks: seq<seq<byte>>)
    requires ChunksHeld(items, chunks)
    ensures AllValid(items) && Contents(items) == chunks
    ensures forall x :: x in items ==> x.cap == Strings.Grown(DefaultCapacity, x.len)
  {
  }

  /**
   * One turn of the loop of `str_split`: skip the delimiters from `front`, then
   * take the run of non-delimiters up to `back` and, if it is not empty, push
   * it as a fresh buffer. `added` is the field pushed, if any, and `pushed`
   * the buffer holding it: the earlier elements keep their slots.
   */
  method SplitStep(r: StrList, s: Strings.Str, delim: CStr, front: nat, ghost chunks: seq<seq<byte>>)
    returns (back: nat, ghost added: seq<seq<byte>>, ghost pushed: seq<Strings.Str>)
    requires s.Valid() && front < s.len && Literal(delim) != []
    requires r.Valid() && r.cap > 0 && ChunksHeld(r.Items(), chunks) && Unaliased(r.Items())
    modifies r, r.buf
    ensures front < back <= s.len
    ensures r.Valid() && (r.buf == old(r.buf) || fresh(r.buf)) && r.cap >= old(r.cap)
    ensures r.Items() == old(r.Items()) + pushed && |pushed| == |added| <= 1
    ensures forall i :: 0 <= i < |pushed| ==> fresh(pushed[i]) && fresh(pushed[i].buf)
    ensures Unaliased(r.Items())
    ensures ChunksHeld(r.Items(), chunks + added)
    ensures Fields(s.Content()[front..], Literal(delim)) == added + Fields(s.Content()[back..], Literal(delim))
  {
    ghost var src := s.Content();
    ghost var d := Literal(delim);
    var start;
    start, back := ScanField(s, delim, front);
    if start != back {
      var c := PushChunk(r, s, start, back, chunks);
      added, pushed := [src[start..back]], [c];
    } else {
      added, pushed := [], [];
      assert chunks + added == chunks;
      assert r.Items() == old(r.Items()) + pushed;
    }
  }

  /**
   * The two scans of one turn of `str_split`: `start` is past the delimiters
   * from `front`, `back` past the non-delimiters from `start`; the run between
   * them is the next field, if it is not empty.
   */
  method ScanField(s: Strings.Str, delim: CStr, front: nat) returns (start: nat, back: nat)
    requires s.Valid() && front < s.len && Literal(delim) != []
    ensures front <= start <= back <= s.len && front < back
    ensures Fields(s.Content()[front..], Literal(delim))
         == (if start < back then [s.Content()[start..back]] else []) + Fields(s.Content()[back..], Literal(delim))
  {
    ghost var src := s.Content();
    ghost var d := Literal(delim);
    var bound := s.len;
    start := front;
    while start != bound && LiteralContains(delim, s.buf[start])
      invariant front <= start <= bound
      invariant forall j :: front <= j < start ==> src[j] in d
    {
      start := start + 1;
    }
    back := start;
    while back != bound && !LiteralContains(delim, s.buf[back])
      invariant start <= back <= bound
      invariant forall j :: start <= j < back ==> src[j] !in d
    {
      back := back + 1;
    }
    SplitAdvance(src, d, front, start, back);
  }

  lemma Associative<T>(a: seq<T>, b: seq<T>, c: seq<T>)
    ensures (a + b) + c == a + (b + c)
  {
  }

  /**
   * The buffers hold one chunk each, in order: each valid, holding the
   * chunk's bytes, in the capacity `str_new` chooses for it.
   */
  ghost predicate ChunksHeld(items: seq<Strings.Str>, chunks: seq<seq<byte>>)
    reads items, set x | x in items :: x.buf
  {
    && |chunks| == |items|
    && (forall j :: 0 <= j < |items| ==> items[j].Valid() && items[j].Content() == chunks[j])
    && (forall j :: 0 <= j < |items| ==> items[j].cap == Strings.Grown(DefaultCapacity, items[j].len))
  }

  /**
   * One turn of the loop of `str_split`: skipping delimiters from `start` to
   * `mid` and taking the run of non-delimiters from `mid` to `back` yields that
   * run as the next field, if it is not empty.
   */
  lemma SplitAdvance(src: seq<byte>, d: seq<byte>, start: nat, mid: nat, back: nat)
    requires start <= mid <= back <= |src|
    requires forall j :: start <= j < mid ==> src[j] in d
    requires forall j :: mid <= j < back ==> src[j] !in d
    requires back < |src| ==> mid < back && src[back] in d
    ensures Fields(src[start..], d) == (if mid < back then [src[mid..back]] else []) + Fields(src[back..], d)
  {
    assert src[start..] == src[start..mid] + src[mid..];
    FieldsSkipDelims(src[start..mid], src[mid..], d);
    if mid < back {
      FieldsStep(src[mid..], d, back - mid);
      assert src[mid..][..back - mid] == src[mid..back];
      assert src[mid..][back - mid..] == src[back..];
    }
  }

  /**
   * One chunk of `str_split`: the bytes from `front` to `back`, a maximal run
   * of non-delimiters, go through `str_new` into a fresh buffer pushed onto
   * the list.
   */
  method PushChunk(r: StrList, s: Strings.Str, front: nat, back: nat, ghost chunks: seq<seq<byte>>)
    returns (c: Strings.Str)
    requires r.Valid() && r.cap > 0 && s.Valid() && front < back <= s.len
    requires ChunksHeld(r.Items(), chunks) && Unaliased(r.Items())
    modifies r, r.buf
    ensures r.Valid() && (r.buf == old(r.buf) || fresh(r.buf)) && r.cap >= old(r.cap)
    ensures r.size == old(r.size) + 1
    ensures fresh(c) && fresh(c.buf) && r.Items() == old(r.Items()) + [c]
    ensures Unaliased(r.Items())
    ensures ChunksHeld(r.Items(), chunks + [s.Content()[front..back]])
  {
    c := NewChunk(s, front, back);
    assert forall x :: x in r.Items() ==> x != c && x.buf != c.buf;
    PushHeld(r, c, chunks, s.Content()[front..back]);
  }

  /**
   * `str_list_push` of a buffer holding the next chunk and sharing nothing with
   * the elements: the list still holds its chunks, one buffer each.
   */
  method PushHeld(r: StrList, c: Strings.Str, ghost chunks: seq<seq<byte>>, ghost chunk: seq<byte>)
    requires r.Valid() && r.cap > 0 && ChunksHeld(r.Items(), chunks) && Unaliased(r.Items())
    requires c.Valid() && c.Content() == chunk && c.cap == Strings.Grown(DefaultCapacity, c.len)
    requires forall x :: x in r.Items() ==> x != c && x.buf != c.buf
    modifies r, r.buf
    ensures r.Valid() && (r.buf == old(r.buf) || fresh(r.buf)) && r.cap >= old(r.cap)
    ensures r.Items() == old(r.Items()) + [c]
    ensures Unaliased(r.Items()) && ChunksHeld(r.Items(), chunks + [chunk])
  {
    ghost var before := r.Items();
    r.Push(c);
    assert r.Items() == before + [c];
    UnaliasedAppend(before, c);
    ChunksHeldAppend(before, chunks, c, chunk);
  }

  /** `str_new` on the chunk copied out of `s`: a fresh buffer holding exactly those bytes. */
  method NewChunk(s: Strings.Str, front: nat, back: nat) returns (c: Strings.Str)
    requires s.Valid() && front < back <= s.len
    ensures fresh(c) && fresh(c.buf) && c.Valid() && c.Content() == s.Content()[front..back]
    ensures c.cap == Strings.Grown(DefaultCapacity, c.len)
  {
    ghost var chunk := s.Content()[front..back];
    assert s.buf[front..back] == chunk;
    LiteralOfTerminated(chunk, []);
    assert chunk + [] == chunk;
    c := Strings.Str.New(Some(s.buf[front..back]));
  }

  /** A valid buffer holding one more chunk, in the capacity `str_new` gives it, extends the held chunks. */
  lemma ChunksHeldAppend(items: seq<Strings.Str>, chunks: seq<seq<byte>>, c: Strings.Str, chunk: seq<byte>)
    requires ChunksHeld(items, chunks)
    requires c.Valid() && c.Content() == chunk && c.cap == Strings.Grown(DefaultCapacity, c.len)
    ensures ChunksHeld(items + [c], chunks + [chunk])
  {
    var ys, cs := items + [c], chunks + [chunk];
    forall j | 0 <= j < |ys|
      ensures ys[j].Valid() && ys[j].Content() == cs[j] && ys[j].cap == Strings.Grown(DefaultCapacity, ys[j].len)
    {
      if j < |items| {
        assert ys[j] == items[j] && cs[j] == chunks[j];
      }
    }
  }

  /** Appending a buffer that shares nothing with the elements keeps them unaliased. */
  lemma UnaliasedAppend(items: seq<Strings.Str>, c: Strings.Str)
    requires Unaliased(items)
    requires forall x :: x in items ==> x != c && x.buf != c.buf
    ensures Unaliased(items + [c])
  {
    var ys := items + [c];
    forall i, j | 0 <= i < j < |ys| ensures ys[i] != ys[j] && ys[i].buf != ys[j].buf {
      assert ys[i] == items[i] && items[i] in items;
      if j < |items| {
        assert ys[j] == items[j];
      }
    }
  }

  /** `str_split_whitespace`: split on space, tab, vertical tab, newline and carriage return. */
  method SplitWhitespace(s: Strings.Str?) returns (r: StrList)
    requires s != null ==> s.Valid()
    ensures fresh(r) && fresh(r.buf) && r.Valid() && AllValid(r.Items())
    ensures Contents(r.Items()) == Fields(Strings.ContentOrEmpty(s), WhitespaceDelimiters)
    ensures forall i :: 0 <= i < r.size ==> fresh(r.Items()[i]) && fresh(r.Items()[i].buf)
    ensures Unaliased(r.Items())
  {
    LiteralOfTerminated(WhitespaceDelimiters, []);
    assert WhitespaceDelimiters + [] == WhitespaceDelimiters;
    r := Split(s, Some(WhitespaceDelimiters));
  }

  /**
   * `__is_blank` counts form feed as blank but the whitespace delimiters do
   * not: trimming a lone form feed leaves nothing, splitting it on whitespace
   * gives it back as a field.
   */
  lemma FormFeedIsBlankButNotWhitespace()
    ensures Strings.Trimmed([0x0C]) == []
    ensures Fields([0x0C], WhitespaceDelimiters) == [[0x0C]]
  {
    var s: seq<byte> := [0x0C];
    assert Strings.LeadingBlanks(s) == 1 by {
      assert s[1..] == [];
    }
    FieldsOfField(s, WhitespaceDelimiters);
  }

  /** The contents of a list that may be NULL; `str_list_join` treats NULL as empty. */
  ghost function ContentsOrEmpty(l: StrList?): seq<seq<byte>>
    reads l, if l == null then {} else {l.buf}
    reads if l == null || !l.Valid() then {} else set x | x in l.Items()
    reads if l == null || !l.Valid() then {} else set x | x in l.Items() :: x.buf
    requires l != null ==> l.Valid() && AllValid(l.Items())
  {
    if l == null then [] else Contents(l.Items())
  }

  /**
   * `str_list_join`: one fresh buffer holding the elements with the delimiter
   * text, made ASCII, between neighbours. Its capacity is the precomputed
   * total plus one, which the appends never outgrow. A NULL or empty list
   * gives an empty buffer of capacity 32; a NULL delimiter counts as empty.
   */
  method Join(l: StrList?, delim: CStr) returns (r: Strings.Str)
    requires l != null ==> l.Valid() && AllValid(l.Items())
    ensures fresh(r) && fresh(r.buf) && r.Valid()
    ensures r.Content() == Joined(old(ContentsOrEmpty(l)), Normalized(Literal(delim)))
    ensures l == null || l.size == 0 ==> r.cap == DefaultCapacity
    ensures l != null && l.size > 0 ==> r.cap == r.len + 1
  {
    if l == null || l.size == 0 {
      r := Strings.Str.New(None);
      return;
    }
    ghost var elems := l.Items();
    ghost var cs := Contents(elems);
    ghost var sep := Normalized(Literal(delim));
    var n := l.size;
    assert forall j :: 0 <= j < n ==> l.buf[j] == elems[j];
    var total := TotalLength(l, delim, cs);
    r := new Strings.Str.WithCapacity(total + 1);
    assert forall j :: 0 <= j < n ==> elems[j] != r && elems[j].buf != r.buf;
    AppendElements(r, l, delim, cs);
    JoinedBySeparators(cs, sep);
  }

  /** What the loop of `str_list_join` has written after `i` of the elements. */
  function JoinedUpTo(cs: seq<seq<byte>>, i: nat, sep: seq<byte>): (r: seq<byte>)
    requires i <= |cs|
  {
    if i == 0 then [] else if i < |cs| then Joined(cs[..i], sep) + sep else Joined(cs, sep)
  }

  /** One turn of the loop writes the next element, then a separator unless it was the last. */
  lemma JoinedUpToStep(cs: seq<seq<byte>>, i: nat, sep: seq<byte>)
    requires i < |cs|
    ensures JoinedUpTo(cs, i + 1, sep) == JoinedUpTo(cs, i, sep) + cs[i] + (if i < |cs| - 1 then sep else [])
  {
    assert cs[..i + 1][..i] == cs[..i];
    if i + 1 == |cs| {
      assert cs[..i + 1] == cs;
    }
  }

  /** Before the last element, the loop has written the earlier elements and one separator after each. */
  lemma {:induction false} JoinedUpToLength(cs: seq<seq<byte>>, i: nat, sep: seq<byte>)
    requires i < |cs|
    ensures |JoinedUpTo(cs, i, sep)| == TotalLen(cs[..i]) + SeparatorBytes(i, |sep|)
  {
    if i > 0 {
      JoinedUpToLength(cs, i - 1, sep);
      JoinedUpToStep(cs, i - 1, sep);
      assert cs[..i][..i - 1] == cs[..i - 1];
    }
  }

  /** The joined text is as long as the elements plus `|cs| - 1` separators. */
  lemma JoinedBySeparators(cs: seq<seq<byte>>, sep: seq<byte>)
    requires cs != []
    ensures |Joined(cs, sep)| == TotalLen(cs) + SeparatorBytes(|cs| - 1, |sep|)
  {
    var n := |cs|;
    JoinedUpToLength(cs, n - 1, sep);
    JoinedUpToStep(cs, n - 1, sep);
    assert cs[..n][..n - 1] == cs[..n - 1];
    assert cs[..n] == cs;
  }

  /** What the loop of `str_list_join` writes never exceeds the precomputed total. */
  lemma JoinBudget(cs: seq<seq<byte>>, i: nat, sep: seq<byte>)
    requires i < |cs|
    ensures |JoinedUpTo(cs, i + 1, sep)| <= TotalLen(cs) + SeparatorBytes(|cs| - 1, |sep|)
  {
    if i + 1 < |cs| {
      JoinedUpToLength(cs, i + 1, sep);
      TotalLenPrefix(cs, i + 1);
      SeparatorBytesMonotone(i + 1, |cs| - 1, |sep|);
    } else {
      JoinedBySeparators(cs, sep);
    }
  }

  /**
   * The first loop of `str_list_join`: the delimiter's length times one less
   * than the size, plus every element's length.
   */
  method TotalLength(l: StrList, delim: CStr, ghost cs: seq<seq<byte>>) returns (total: nat)
    requires l.Valid() && |cs| == l.size > 0
    requires forall j :: 0 <= j < l.size ==> l.buf[j].Valid() && l.buf[j].Content() == cs[j]
    ensures total == TotalLen(cs) + SeparatorBytes(|cs| - 1, |Literal(delim)|)
  {
    var n := l.size;
    var delimLen := LiteralLen(delim);
    total := SeparatorTotal(n - 1, delimLen);
    ghost var separators := total;
    for i := 0 to n
      invariant total == separators + TotalLen(cs[..i])
    {
      TotalLenStep(cs, i);
      total := total + l.buf[i].len;
    }
    assert cs[..n] == cs;
  }

  /** The separator bytes of the join: the delimiter's length times their count. */
  method SeparatorTotal(count: nat, delimLen: nat) returns (t: nat)
    ensures t == SeparatorBytes(count, delimLen)
  {
    t := delimLen * count;
    SeparatorBytesIsProduct(count, delimLen);
  }

  /**
   * The second loop of `str_list_join`: every element's text, with the
   * delimiter text between neighbours, into an empty buffer with room for all.
   */
  method AppendElements(r: Strings.Str, l: StrList, delim: CStr, ghost cs: seq<seq<byte>>)
    requires l.Valid() && |cs| == l.size > 0
    requires forall j :: 0 <= j < l.size ==> l.buf[j].Valid() && l.buf[j].Content() == cs[j]
    requires forall j :: 0 <= j < l.size ==> l.buf[j] != r && l.buf[j].buf != r.buf
    requires r.Valid() && r.len == 0
    requires TotalLen(cs) + SeparatorBytes(|cs| - 1, |Literal(delim)|) < r.cap
    modifies r, r.buf
    ensures r.Valid() && r.buf == old(r.buf) && r.cap == old(r.cap)
    ensures r.Content() == Joined(cs, Normalized(Literal(delim)))
  {
    ghost var sep := Normalized(Literal(delim));
    var n := l.size;
    for i := 0 to n
      modifies r, r.buf
      invariant r.buf == old(r.buf) && r.Valid() && r.cap == old(r.cap)
      invariant r.Content() == JoinedUpTo(cs, i, sep)
    {
      var e := l.buf[i];
      JoinedUpToStep(cs, i, sep);
      JoinBudget(cs, i, sep);
      AppendElement(r, e, delim, i < n - 1);
    }
  }

  /**
   * One turn of the loop of `str_list_join`: the element's text, then the
   * delimiter text when more elements follow, into a buffer with room for both.
   */
  method AppendElement(r: Strings.Str, e: Strings.Str, delim: CStr, more: bool)
    requires r.Valid() && e.Valid() && r != e && r.buf != e.buf
    requires r.len + e.len + (if more then |Literal(delim)| else 0) < r.cap
    modifies r, r.buf
    ensures r.Valid() && r.buf == old(r.buf) && r.cap == old(r.cap)
    ensures r.Content() == old(r.Content()) + old(e.Content()) + (if more then Normalized(Literal(delim)) else [])
  {
    r.Append(e.AsPtr());
    if more {
      r.Append(delim);
    }
  }

  // ---------------------------------------------------------------------------
  // Scenarios

  /** Pushing a buffer and popping it again gives it back and leaves the elements as they were. */
  method PushThenPop(l: StrList, s: Strings.Str) returns (popped: Strings.Str?)
    requires l.Valid() && l.cap > 0
    modifies l, l.buf
    ensures l.Valid() && l.Items() == old(l.Items())
    ensures popped == s
  {
    l.Push(s);
    popped := l.Pop();
  }

  /** A list of capacity 2 doubles once, to 4, on the third push. */
  method ThirdPushDoublesCapacity(a: Strings.Str, b: Strings.Str, c: Strings.Str) returns (l: StrList)
    ensures l.Valid() && l.Items() == [a, b, c] && l.cap == 4
  {
    l := new StrList.WithCapacity(2);
    l.Push(a);
    l.Push(b);
    assert l.cap == 2;
    l.Push(c);
  }
}
