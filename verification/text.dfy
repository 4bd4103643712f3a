/**
 Text normalisation used by the join between seasons: Python's `str.strip()`
 and an upper-casing, composed into the key that identifies a state or county.
 */
module Text {

  /** Python's `str.isspace()` for one character: the Unicode whitespace set. */
  predicate IsSpace(c: char) {
    var n := c as int;
    || 0x09 <= n <= 0x0D
    || 0x1C <= n <= 0x20
    || n == 0x85 || n == 0xA0 || n == 0x1680
    || 0x2000 <= n <= 0x200A
    || n == 0x2028 || n == 0x2029 || n == 0x202F || n == 0x205F || n == 0x3000
  }

  predicate AllSpace(s: string) {
    forall i :: 0 <= i < |s| ==> IsSpace(s[i])
  }

  lemma AllSpaceCons(c: char, rest: string)
    requires IsSpace(c) && AllSpace(rest)
    ensures AllSpace([c] + rest)
  {
  }

  lemma AllSpaceSnoc(rest: string, c: char)
    requires AllSpace(rest) && IsSpace(c)
    ensures AllSpace(rest + [c])
  {
  }

  /** The number of whitespace characters `s` starts with. */
  function LeadingSpaces(s: string): (n: nat)
    ensures n <= |s| && AllSpace(s[..n])
    ensures n < |s| ==> !IsSpace(s[n])
  {
    if |s| > 0 && IsSpace(s[0]) then
      var t := s[1..];
      var m := LeadingSpaces(t);
      assert s[..m + 1] == [s[0]] + t[..m];
      AllSpaceCons(s[0], t[..m]);
      m + 1
    else
      0
  }

  /** The number of whitespace characters `s` ends with. */
  function TrailingSpaces(s: string): (n: nat)
    ensures n <= |s| && AllSpace(s[|s| - n..])
    ensures n < |s| ==> !IsSpace(s[|s| - n - 1])
  {
    if |s| > 0 && IsSpace(s[|s| - 1]) then
      var t := s[..|s| - 1];
      var m := TrailingSpaces(t);
      assert s[|s| - (m + 1)..] == t[|t| - m..] + [s[|s| - 1]];
      AllSpaceSnoc(t[|t| - m..], s[|s| - 1]);
      m + 1
    else
      0
  }

  /** `str.lstrip()`: the suffix left after removing every leading space. */
  function TrimStart(s: string): (r: string)
    ensures |r| <= |s| && r == s[|s| - |r|..]
    ensures AllSpace(s[..|s| - |r|])
    ensures |r| == 0 || !IsSpace(r[0])
  {
    s[LeadingSpaces(s)..]
  }

  /** `str.rstrip()`: the prefix left after removing every trailing space. */
  function TrimEnd(s: string): (r: string)
    ensures |r| <= |s| && r == s[..|r|]
    ensures AllSpace(s[|r|..])
    ensures |r| == 0 || !IsSpace(r[|r| - 1])
  {
    s[..|s| - TrailingSpaces(s)]
  }

  /** `str.strip()`: `s` without its leading and trailing whitespace. */
  function Strip(s: string): (r: string)
    ensures |r| <= |s|
    ensures |r| == 0 || (!IsSpace(r[0]) && !IsSpace(r[|r| - 1]))
  {
    TrimEnd(TrimStart(s))
  }

  /**
   What strip keeps is one contiguous slice of `s`, starting after the
   leading whitespace, and everything it drops before and after that slice
   is whitespace.
   */
  lemma StripKeepsInnerSlice(s: string)
    ensures var r := Strip(s);
            var i := |s| - |TrimStart(s)|;
            && 0 <= i && i + |r| <= |s| && r == s[i..i + |r|]
            && AllSpace(s[..i]) && AllSpace(s[i + |r|..])
  {
    var t := TrimStart(s);
    var r := TrimEnd(t);
    assert Strip(s) == r;
    var i := |s| - |t|;
    assert t == s[i..];
    assert r == s[i..i + |r|];
    assert s[..i] == s[..|s| - |t|];
    assert s[i + |r|..] == t[|r|..];
    assert AllSpace(s[..i]) && AllSpace(s[i + |r|..]);
  }

  /** Upper-casing of one character (ASCII letters only). */
  function UpperChar(c: char): (u: char)
    ensures 'a' <= c <= 'z' ==> 'A' <= u <= 'Z' && u as int == c as int - 32
    ensures !('a' <= c <= 'z') ==> u == c
  {
    if 'a' <= c <= 'z' then (c as int - 32) as char else c
  }

  /** Upper-casing never turns a space into a non-space or back. */
  lemma UpperCharKeepsSpace(c: char)
    ensures IsSpace(UpperChar(c)) <==> IsSpace(c)
  {
  }

  /** `str.upper()`, character by character. */
  function Upper(s: string): (r: string)
    ensures |r| == |s|
    ensures forall i :: 0 <= i < |s| ==> r[i] == UpperChar(s[i])
  {
    seq(|s|, i requires 0 <= i < |s| => UpperChar(s[i]))
  }

  /**
   The join key of a state or county name: stripped, then upper-cased. The
   key is no longer than the name.
   */
  function Normalize(s: string): (r: string)
    ensures |r| <= |s|
  {
    Upper(Strip(s))
  }

  /**
   `r` is the upper-casing of the slice of `s` starting at `i`, only
   whitespace lies before and after that slice, and `r` does not start or
   end with whitespace.
   */
  ghost predicate IsUpperedSlice(s: string, r: string, i: int) {
    && 0 <= i && i + |r| <= |s|
    && AllSpace(s[..i]) && AllSpace(s[i + |r|..])
    && (forall k :: 0 <= k < |r| ==> r[k] == UpperChar(s[i + k]))
    && (|r| == 0 || (!IsSpace(r[0]) && !IsSpace(r[|r| - 1])))
  }

  /** The join key is the upper-casing of the slice `strip` keeps. */
  lemma NormalizeKeepsInnerSlice(s: string)
    ensures IsUpperedSlice(s, Normalize(s), |s| - |TrimStart(s)|)
  {
    var t := Strip(s);
    StripKeepsInnerSlice(s);
    UpperedSlice(s, |s| - |TrimStart(s)|, t);
    assert Normalize(s) == Upper(t);
  }

  /** Upper-casing a stripped slice of `s` gives an upper-cased slice of `s`. */
  lemma UpperedSlice(s: string, i: nat, t: string)
    requires i + |t| <= |s| && t == s[i..i + |t|]
    requires AllSpace(s[..i]) && AllSpace(s[i + |t|..])
    requires |t| == 0 || (!IsSpace(t[0]) && !IsSpace(t[|t| - 1]))
    ensures IsUpperedSlice(s, Upper(t), i)
  {
    UpperOfSlice(s, i, t);
    UpperKeepsEnds(t);
  }

  /** Upper-casing a slice of `s` upper-cases the characters of `s` it covers. */
  lemma UpperOfSlice(s: string, i: nat, t: string)
    requires i + |t| <= |s| && t == s[i..i + |t|]
    ensures forall k :: 0 <= k < |t| ==> Upper(t)[k] == UpperChar(s[i + k])
  {
    forall k | 0 <= k < |t|
      ensures Upper(t)[k] == UpperChar(s[i + k])
    {
      assert t[k] == s[i + k];
    }
  }

  /** Upper-casing keeps non-space ends non-space. */
  lemma UpperKeepsEnds(t: string)
    requires |t| == 0 || (!IsSpace(t[0]) && !IsSpace(t[|t| - 1]))
    ensures |Upper(t)| == 0 || (!IsSpace(Upper(t)[0]) && !IsSpace(Upper(t)[|t| - 1]))
  {
    if |t| > 0 {
      UpperCharKeepsSpace(t[0]);
      UpperCharKeepsSpace(t[|t| - 1]);
    }
  }

  /** A join key is in normal form: stripping or upper-casing it changes nothing. */
  lemma NormalizeIsNormalForm(s: string)
    ensures Strip(Normalize(s)) == Normalize(s)
    ensures Upper(Normalize(s)) == Normalize(s)
  {
    var t := Strip(s);
    UpperKeepsStripped(t);
    UpperIdempotent(t);
  }

  /** A string that neither starts nor ends with a space is its own strip. */
  lemma StripOfStripped(s: string)
    requires |s| == 0 || (!IsSpace(s[0]) && !IsSpace(s[|s| - 1]))
    ensures Strip(s) == s
  {
  }

  /** Stripping twice is stripping once. */
  lemma StripIdempotent(s: string)
    ensures Strip(Strip(s)) == Strip(s)
  {
    StripOfStripped(Strip(s));
  }

  /** Upper-casing twice is upper-casing once. */
  lemma UpperIdempotent(t: string)
    ensures Upper(Upper(t)) == Upper(t)
  {
    var n := Upper(t);
    forall i | 0 <= i < |n|
      ensures Upper(n)[i] == n[i]
    {
      assert n[i] == UpperChar(t[i]);
    }
  }

  /** Upper-casing keeps a stripped string stripped. */
  lemma UpperKeepsStripped(t: string)
    requires |t| == 0 || (!IsSpace(t[0]) && !IsSpace(t[|t| - 1]))
    ensures Strip(Upper(t)) == Upper(t)
  {
    var n := Upper(t);
    if |n| > 0 {
      assert n[0] == UpperChar(t[0]);
      assert n[|n| - 1] == UpperChar(t[|t| - 1]);
      UpperCharKeepsSpace(t[0]);
      UpperCharKeepsSpace(t[|t| - 1]);
    }
    StripOfStripped(n);
  }

  /**
   Normalising a key again changes nothing, so a name read back from a
   normalised column joins with its original.
   */
  lemma NormalizeIdempotent(s: string)
    ensures Normalize(Normalize(s)) == Normalize(s)
  {
    var t := Strip(s);
    UpperKeepsStripped(t);
    UpperIdempotent(t);
  }
}
