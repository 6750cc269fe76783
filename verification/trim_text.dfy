/** `String.prototype.trim`: removal of leading and trailing white space and
    line terminators as ECMA-262 defines them (sections 12.2 and 12.3 of the
    ECMAScript Language Specification). */
module TrimText {

  /** WhiteSpace (TAB, VT, FF, ZWNBSP and the Space_Separator category) and
      LineTerminator (LF, CR, LS, PS). */
  predicate IsWhiteSpace(c: char)
  {
    c in WhiteSpaceChars
  }

  const WhiteSpaceChars: set<char> := {
    '\t', '\U{000B}', '\U{000C}', ' ', '\U{00A0}', '\U{1680}',
    '\U{2000}', '\U{2001}', '\U{2002}', '\U{2003}', '\U{2004}', '\U{2005}',
    '\U{2006}', '\U{2007}', '\U{2008}', '\U{2009}', '\U{200A}',
    '\U{202F}', '\U{205F}', '\U{3000}', '\U{FEFF}',
    '\n', '\r', '\U{2028}', '\U{2029}'
  }

  /** Every character is white space. */
  predicate AllWhiteSpace(s: string)
  {
    s == [] || (IsWhiteSpace(s[0]) && AllWhiteSpace(s[1..]))
  }

  lemma {:induction false} AllWhiteSpaceAppend(a: string, b: string)
    requires AllWhiteSpace(a) && AllWhiteSpace(b)
    ensures AllWhiteSpace(a + b)
  {
    if a == [] {
      assert a + b == b;
    } else {
      assert (a + b)[1..] == a[1..] + b;
      AllWhiteSpaceAppend(a[1..], b);
    }
  }

  lemma {:induction false} AllWhiteSpaceAt(s: string, j: int)
    requires AllWhiteSpace(s) && 0 <= j < |s|
    ensures IsWhiteSpace(s[j])
  {
    if j > 0 {
      AllWhiteSpaceAt(s[1..], j - 1);
    }
  }

  /** Drops the white space at the front: what is left is a suffix of `s`
      that starts with a non-space character (or is empty). */
  function TrimStart(s: string): (r: string)
    ensures |r| <= |s| && r == s[|s| - |r|..]
    ensures AllWhiteSpace(s[..|s| - |r|])
    ensures r == [] || !IsWhiteSpace(r[0])
  {
    if s == [] || !IsWhiteSpace(s[0]) then s
    else
      var r := TrimStart(s[1..]);
      var dropped := s[..|s| - |r|];
      assert dropped[1..] == s[1..][..|s| - 1 - |r|];
      r
  }

  /** Drops the white space at the back: what is left is a prefix of `s`
      that ends with a non-space character (or is empty). */
  function TrimEnd(s: string): (r: string)
    ensures |r| <= |s| && r == s[..|r|]
    ensures AllWhiteSpace(s[|r|..])
    ensures r == [] || !IsWhiteSpace(r[|r| - 1])
  {
    if s == [] || !IsWhiteSpace(s[|s| - 1]) then s
    else
      var r := TrimEnd(s[..|s| - 1]);
      var last := [s[|s| - 1]];
      assert last[1..] == [];
      assert s[|r|..] == s[..|s| - 1][|r|..] + last;
      AllWhiteSpaceAppend(s[..|s| - 1][|r|..], last);
      r
  }

  /** `s.trim()`: neither end of the result is white space. */
  function Trim(s: string): (r: string)
    ensures |r| <= |s|
    ensures r == [] || (!IsWhiteSpace(r[0]) && !IsWhiteSpace(r[|r| - 1]))
  {
    TrimEnd(TrimStart(s))
  }

  /** `r` is the slice of `s` starting at `i`, and only white space lies
      before and after it. */
  predicate IsInnerSlice(s: string, r: string, i: nat)
  {
    && i + |r| <= |s| && r == s[i..i + |r|]
    && AllWhiteSpace(s[..i]) && AllWhiteSpace(s[i + |r|..])
  }

  /** What `Trim` keeps is the slice of `s` left between a white-space
      prefix of length `i` and a white-space suffix. */
  lemma TrimIsSlice(s: string) returns (i: nat)
    ensures IsInnerSlice(s, Trim(s), i)
  {
    var front := TrimStart(s);
    i := |s| - |front|;
    var r := TrimEnd(front);
    InnerSliceOfParts(s, front, r, i);
  }

  /** Dropping white space at the front and then at the back leaves an
      inner slice. */
  lemma InnerSliceOfParts(s: string, front: string, r: string, i: nat)
    requires i + |front| == |s| && front == s[i..] && AllWhiteSpace(s[..i])
    requires |r| <= |front| && r == front[..|r|] && AllWhiteSpace(front[|r|..])
    ensures IsInnerSlice(s, r, i)
  {
    SuffixSlices(s, i, |r|);
  }

  /** Slicing a suffix is slicing the whole further along. */
  lemma SuffixSlices(s: string, i: nat, n: nat)
    requires i + n <= |s|
    ensures s[i..][..n] == s[i..i + n] && s[i..][n..] == s[i + n..]
  {
  }

  /** Trimming a trimmed string changes nothing. */
  lemma TrimIdempotent(s: string)
    ensures Trim(Trim(s)) == Trim(s)
  {
    var r := Trim(s);
    if r != [] {
      assert TrimStart(r) == r;
      assert TrimEnd(r) == r;
    }
  }

  /** A string trims to nothing exactly when it is all white space. */
  lemma TrimEmptyIff(s: string)
    ensures Trim(s) == [] <==> AllWhiteSpace(s)
  {
    var i := TrimIsSlice(s);
    EmptyInnerSliceIff(s, Trim(s), i);
  }

  /** An inner slice that does not start with white space is empty exactly
      when the whole string is white space. */
  lemma EmptyInnerSliceIff(s: string, r: string, i: nat)
    requires IsInnerSlice(s, r, i) && (r == [] || !IsWhiteSpace(r[0]))
    ensures r == [] <==> AllWhiteSpace(s)
  {
    if r == [] {
      assert s == s[..i] + s[i..];
      AllWhiteSpaceAppend(s[..i], s[i..]);
    } else if AllWhiteSpace(s) {
      AllWhiteSpaceAt(s, i);
    }
  }

  /** Non-empty, and neither first nor last character is white space. */
  predicate EdgesNotWhiteSpace(s: string)
  {
    s != [] && !IsWhiteSpace(s[0]) && !IsWhiteSpace(s[|s| - 1])
  }

  /** A string that neither starts nor ends with white space is its own trim. */
  lemma TrimKeepsTrimmed(s: string)
    ensures EdgesNotWhiteSpace(s) ==> Trim(s) == s
  {
    if EdgesNotWhiteSpace(s) {
      assert TrimStart(s) == s;
    }
  }
}
