/** String helpers with the meaning of Python's `str.strip()` (no argument)
    and of `s.split(sep)[0]`. */
module Text {

  /** Python's `str.isspace` for one character: the characters of the
      Unicode bidirectional classes WS, B and S and of category Zs. */
  predicate IsSpace(c: char)
  {
    var n := c as int;
    (0x09 <= n <= 0x0D) || (0x1C <= n <= 0x20) || n == 0x85 || n == 0xA0 ||
    n == 0x1680 || (0x2000 <= n <= 0x200A) || n == 0x2028 || n == 0x2029 ||
    n == 0x202F || n == 0x205F || n == 0x3000
  }

  /** Neither the first nor the last character of `s` is whitespace. */
  predicate NoEdgeSpace(s: string)
  {
    s == [] || (!IsSpace(s[0]) && !IsSpace(s[|s| - 1]))
  }

  /** The slice `s[i..j]` is what `s.strip()` keeps: it has no whitespace at
      its edges, and only whitespace lies outside it. */
  ghost predicate StripsTo(s: string, i: int, j: int)
  {
    0 <= i <= j <= |s| &&
    (i == j || (!IsSpace(s[i]) && !IsSpace(s[j - 1]))) &&
    (forall k :: 0 <= k < i ==> IsSpace(s[k])) &&
    (forall k :: j <= k < |s| ==> IsSpace(s[k]))
  }

  /** `r` is what `s.strip()` returns. */
  ghost predicate IsStripOf(r: string, s: string)
  {
    exists i, j :: StripsTo(s, i, j) && r == s[i..j]
  }

  /** `s.lstrip()`: drops the leading whitespace. */
  function TrimStart(s: string): (r: string)
    ensures |r| <= |s| && r == s[|s| - |r|..]
    ensures forall k :: 0 <= k < |s| - |r| ==> IsSpace(s[k])
    ensures r == [] || !IsSpace(r[0])
  {
    if s != [] && IsSpace(s[0]) then TrimStart(s[1..]) else s
  }

  /** `s.rstrip()`: drops the trailing whitespace. */
  function TrimEnd(s: string): (r: string)
    ensures |r| <= |s| && r == s[..|r|]
    ensures forall k :: |r| <= k < |s| ==> IsSpace(s[k])
    ensures r == [] || !IsSpace(r[|r| - 1])
  {
    if s != [] && IsSpace(s[|s| - 1]) then TrimEnd(s[..|s| - 1]) else s
  }

  /** `s.strip()`. */
  function Strip(s: string): (r: string)
    ensures NoEdgeSpace(r) && IsStripOf(r, s)
  {
    var t := TrimStart(s);
    var r := TrimEnd(t);
    var i := |s| - |t|;
    assert s[i..i + |r|] == r;
    assert StripsTo(s, i, i + |r|);
    r
  }

  /** Two positions that both end a prefix of whitespace and hold a
      non-space are the same position. */
  lemma {:induction false} FirstNonSpaceUnique(s: string, a: nat, b: nat)
    requires a < |s| && b < |s| && !IsSpace(s[a]) && !IsSpace(s[b])
    requires forall k :: 0 <= k < a ==> IsSpace(s[k])
    requires forall k :: 0 <= k < b ==> IsSpace(s[k])
    ensures a == b
  {
  }

  /** The mirror image: two positions that both start a suffix of
      whitespace and follow a non-space are the same position. */
  lemma {:induction false} LastNonSpaceUnique(s: string, a: nat, b: nat)
    requires 0 < a <= |s| && 0 < b <= |s| && !IsSpace(s[a - 1]) && !IsSpace(s[b - 1])
    requires forall k :: a <= k < |s| ==> IsSpace(s[k])
    requires forall k :: b <= k < |s| ==> IsSpace(s[k])
    ensures a == b
  {
  }

  /** At most one slice is what `strip` keeps. */
  lemma {:induction false} StripsToUnique(s: string, i1: int, j1: int, i2: int, j2: int)
    requires StripsTo(s, i1, j1) && StripsTo(s, i2, j2)
    ensures s[i1..j1] == s[i2..j2]
  {
    if i1 < j1 && i2 < j2 {
      FirstNonSpaceUnique(s, i1, i2);
      LastNonSpaceUnique(s, j1, j2);
    } else if i1 < j1 {
      assert false;
    } else if i2 < j2 {
      assert false;
    }
  }

  /** The contract of `Strip` determines its result: two strings that are
      both "the strip of s" are equal. */
  lemma {:induction false} StripUnique(r1: string, r2: string, s: string)
    requires IsStripOf(r1, s) && IsStripOf(r2, s)
    ensures r1 == r2
  {
    var i1, j1 :| StripsTo(s, i1, j1) && r1 == s[i1..j1];
    var i2, j2 :| StripsTo(s, i2, j2) && r2 == s[i2..j2];
    StripsToUnique(s, i1, j1, i2, j2);
  }

  /** Stripping a string that has no whitespace at its edges returns it
      unchanged; in particular `Strip` is idempotent. */
  lemma {:induction false} StripNoEdgeSpace(s: string)
    requires NoEdgeSpace(s)
    ensures Strip(s) == s
  {
    assert s[0..|s|] == s;
    assert StripsTo(s, 0, |s|);
    StripUnique(Strip(s), s, s);
  }

  /** Whitespace padding on both sides is exactly what `Strip` removes. */
  lemma {:induction false} StripPadded(left: string, core: string, right: string)
    requires NoEdgeSpace(core)
    requires forall k :: 0 <= k < |left| ==> IsSpace(left[k])
    requires forall k :: 0 <= k < |right| ==> IsSpace(right[k])
    ensures Strip(left + core + right) == core
  {
    var v := left + core + right;
    var i, j := |left|, |left| + |core|;
    assert v[i..j] == core;
    assert forall k :: 0 <= k < i ==> v[k] == left[k];
    assert forall k :: j <= k < |v| ==> v[k] == right[k - j];
    assert StripsTo(v, i, j);
    StripUnique(Strip(v), core, v);
  }

  lemma {:induction false} StripIdempotent(s: string)
    ensures Strip(Strip(s)) == Strip(s)
  {
    StripNoEdgeSpace(Strip(s));
  }

  /** `s.split(sep)[0]`: everything before the first `sep`, or all of `s`. */
  function FirstField(s: string, sep: char): (r: string)
    ensures |r| <= |s| && r == s[..|r|]
    ensures sep !in r
    ensures |r| < |s| ==> s[|r|] == sep
  {
    if s == [] || s[0] == sep then [] else [s[0]] + FirstField(s[1..], sep)
  }

  /** A field without the separator, followed by the separator, is what
      `FirstField` returns whatever comes after it. */
  lemma {:induction false} FirstFieldOfJoin(field: string, sep: char, rest: string)
    requires sep !in field
    ensures FirstField(field + [sep] + rest, sep) == field
  {
    var s := field + [sep] + rest;
    assert s[|field|] == sep && s[..|field|] == field;
  }

  /** A string without the separator is its own first field. */
  lemma {:induction false} FirstFieldWhole(s: string, sep: char)
    requires sep !in s
    ensures FirstField(s, sep) == s
  {
  }
}
