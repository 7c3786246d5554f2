/** Byte strings as the client handles them: C `char` buffers that are
    concatenated with `memcpy`, cut at the first NUL byte, and searched the way
    `strstr` and `strrchr` search them. */
module ByteStrings {

  /** One C `char`, read as an unsigned octet. */
  type byte = x: int | 0 <= x < 256

  datatype Option<+T> = None | Some(value: T)

  const NUL: byte := 0
  const LF: byte := 10
  const CR: byte := 13
  const SPACE: byte := 32
  const SLASH: byte := 47
  const COLON: byte := 58
  const CRLF: seq<byte> := [CR, LF]

  /** The empty line that ends a header block: CR LF CR LF. */
  const DELIMITER: seq<byte> := [CR, LF, CR, LF]

  /** The bytes of an ASCII literal. */
  function Bytes(s: string): seq<byte>
    requires forall i :: 0 <= i < |s| ==> s[i] as int < 256
  {
    seq(|s|, i requires 0 <= i < |s| => s[i] as int)
  }

  /** The bytes of a list of chunks, one after the other. */
  function Flatten(chunks: seq<seq<byte>>): seq<byte>
  {
    if chunks == [] then [] else chunks[0] + Flatten(chunks[1..])
  }

  lemma {:induction false} FlattenAppend(a: seq<seq<byte>>, b: seq<seq<byte>>)
    ensures Flatten(a + b) == Flatten(a) + Flatten(b)
  {
    if a == [] {
      assert a + b == b;
    } else {
      assert (a + b)[1..] == a[1..] + b;
      FlattenAppend(a[1..], b);
    }
  }

  /** Flattening the first i + 1 chunks appends chunk i to the first i. */
  lemma FlattenSnoc(chunks: seq<seq<byte>>, i: nat)
    requires i < |chunks|
    ensures Flatten(chunks[..i + 1]) == Flatten(chunks[..i]) + chunks[i]
  {
    assert chunks[..i + 1] == chunks[..i] + [chunks[i]];
    FlattenAppend(chunks[..i], [chunks[i]]);
    assert Flatten([chunks[i]]) == chunks[i] + Flatten([]);
  }

  /** The bytes of the first k chunks are a prefix of the bytes of all of them. */
  lemma FlattenSplit(chunks: seq<seq<byte>>, k: nat)
    requires k <= |chunks|
    ensures Flatten(chunks) == Flatten(chunks[..k]) + Flatten(chunks[k..])
  {
    assert chunks == chunks[..k] + chunks[k..];
    FlattenAppend(chunks[..k], chunks[k..]);
  }

  /** What C string functions see of a buffer: the bytes before its first NUL. */
  function CString(s: seq<byte>): (r: seq<byte>)
    ensures r <= s && NUL !in r
    ensures |r| < |s| ==> s[|r|] == NUL
  {
    if s == [] || s[0] == NUL then [] else [s[0]] + CString(s[1..])
  }

  /** Appending to a buffer only extends its C string, and only when the
      buffer held no NUL yet. */
  lemma {:induction false} CStringAppend(a: seq<byte>, b: seq<byte>)
    ensures CString(a + b) == if NUL in a then CString(a) else a + CString(b)
  {
    if a == [] {
      assert a + b == b;
    } else {
      assert (a + b)[0] == a[0];
      assert (a + b)[1..] == a[1..] + b;
      CStringAppend(a[1..], b);
    }
  }

  /** A buffer without NUL bytes is its own C string. */
  lemma CStringOfText(s: seq<byte>)
    requires NUL !in s
    ensures CString(s) == s
  {
    CStringAppend(s, []);
    assert s + [] == s;
  }

  /** pat occurs in s at offset i. */
  predicate OccursAt(s: seq<byte>, pat: seq<byte>, i: int)
  {
    0 <= i && i + |pat| <= |s| && s[i..i + |pat|] == pat
  }

  /** The first occurrence of pat in s at or after offset i. */
  function IndexFrom(s: seq<byte>, pat: seq<byte>, i: nat): (r: Option<nat>)
    requires i <= |s|
    ensures r.Some? ==> i <= r.value && OccursAt(s, pat, r.value)
    ensures forall j :: i <= j && (r.None? || j < r.value) ==> !OccursAt(s, pat, j)
    decreases |s| - i
  {
    if i + |pat| > |s| then None
    else if s[i..i + |pat|] == pat then Some(i)
    else IndexFrom(s, pat, i + 1)
  }

  /** `strstr`: the offset of the first occurrence of pat in s. */
  function IndexOf(s: seq<byte>, pat: seq<byte>): (r: Option<nat>)
    ensures r.Some? ==> OccursAt(s, pat, r.value)
    ensures r.Some? ==> forall j :: 0 <= j < r.value ==> !OccursAt(s, pat, j)
    ensures r.None? ==> forall j :: !OccursAt(s, pat, j)
  {
    IndexFrom(s, pat, 0)
  }

  /** An occurrence with none before it is the one `IndexOf` finds. */
  lemma IndexOfFirst(s: seq<byte>, pat: seq<byte>, k: nat)
    requires OccursAt(s, pat, k)
    requires forall j :: 0 <= j < k ==> !OccursAt(s, pat, j)
    ensures IndexOf(s, pat) == Some(k)
  {
  }

  /** Occurrences in a prefix are occurrences in the whole. */
  lemma OccursInExtension(s: seq<byte>, t: seq<byte>, pat: seq<byte>, i: int)
    requires s <= t && OccursAt(s, pat, i)
    ensures OccursAt(t, pat, i)
  {
    assert t[i..i + |pat|] == s[i..i + |pat|];
  }

  /** Once a prefix of t contains pat, searching t finds the same first occurrence. */
  lemma {:induction false} IndexOfPrefix(s: seq<byte>, t: seq<byte>, pat: seq<byte>)
    requires s <= t && IndexOf(s, pat).Some?
    ensures IndexOf(t, pat) == IndexOf(s, pat)
  {
    var k := IndexOf(s, pat).value;
    OccursInExtension(s, t, pat, k);
    forall j | 0 <= j < k
      ensures !OccursAt(t, pat, j)
    {
      if OccursAt(t, pat, j) {
        assert s[j..j + |pat|] == t[j..j + |pat|];
        assert OccursAt(s, pat, j);
      }
    }
    IndexOfFirst(t, pat, k);
  }

  /** A pattern whose first byte is absent does not occur. */
  lemma AbsentFirstByte(s: seq<byte>, pat: seq<byte>)
    requires |pat| > 0 && pat[0] !in s
    ensures IndexOf(s, pat) == None
  {
    forall j | 0 <= j < |s|
      ensures !OccursAt(s, pat, j)
    {
      assert s[j] in s;
      assert j + |pat| <= |s| ==> s[j..j + |pat|][0] == s[j];
    }
  }

  /** `strrchr`: the offset of the last occurrence of byte b in s. */
  function LastIndexOf(s: seq<byte>, b: byte): (r: Option<nat>)
    ensures r.Some? ==> r.value < |s| && s[r.value] == b && b !in s[r.value + 1..]
    ensures r.None? ==> b !in s
  {
    if s == [] then None
    else if s[|s| - 1] == b then Some(|s| - 1)
    else
      var r := LastIndexOf(s[..|s| - 1], b);
      assert s == s[..|s| - 1] + [s[|s| - 1]];
      r
  }

  /** An occurrence of b with no b after it is the one `LastIndexOf` finds. */
  lemma {:induction false} LastIndexOfLast(s: seq<byte>, b: byte, k: nat)
    requires k < |s| && s[k] == b && b !in s[k + 1..]
    ensures LastIndexOf(s, b) == Some(k)
    decreases |s|
  {
    if k < |s| - 1 {
      assert s[|s| - 1] == s[k + 1..][|s| - k - 2];
      assert s[..|s| - 1][k + 1..] == s[k + 1..|s| - 1];
      LastIndexOfLast(s[..|s| - 1], b, k);
    }
  }

  /** Dropping bytes from the front of a concatenation. */
  lemma DropFront(a: seq<byte>, b: seq<byte>, k: nat)
    requires k <= |a|
    ensures (a + b)[k..] == a[k..] + b
  {
  }

  /** When h starts with a and h + f == a + b, what follows a in h, then f, is b. */
  lemma RestAfterFront(h: seq<byte>, a: seq<byte>, f: seq<byte>, b: seq<byte>)
    requires a <= h && h + f == a + b
    ensures h == a + h[|a|..]
    ensures h[|a|..] + f == b
  {
    assert h == a + h[|a|..];
    assert a + (h[|a|..] + f) == a + b;
    CancelFront(a, h[|a|..] + f, b);
  }

  /** The same prefix followed by two texts that agree: the texts agree. */
  lemma CancelFront(a: seq<byte>, x: seq<byte>, y: seq<byte>)
    requires a + x == a + y
    ensures x == y
  {
    assert x == (a + x)[|a|..];
  }
}
