/** Whitespace trimming, the part of Python's `str.strip()` the to-do list relies on. */
module Text {

  /** The characters Python's `str.isspace()` accepts, which an argument-less `strip()`
      removes: tab to carriage return, the four information separators, space, next line,
      no-break space, and the Unicode space and line/paragraph separators. */
  predicate IsSpace(c: char)
  {
    if c <= ' ' then '\t' <= c <= '\r' || '\U{001C}' <= c
    else if c < '\U{1680}' then c == '\U{0085}' || c == '\U{00A0}'
    else
      (c == '\U{1680}' || '\U{2000}' <= c <= '\U{200A}' || c == '\U{2028}' || c == '\U{2029}' ||
       c == '\U{202F}' || c == '\U{205F}' || c == '\U{3000}')
  }

  predicate AllSpace(s: string)
  {
    forall k :: 0 <= k < |s| ==> IsSpace(s[k])
  }

  /** A suffix of `s[1..]` behind whitespace is one of `s` when `s[0]` is whitespace too. */
  lemma DropFirst(s: string, r: string)
    requires s != [] && IsSpace(s[0])
    requires |r| <= |s| - 1 && r == s[1..][|s| - 1 - |r|..] && AllSpace(s[1..][..|s| - 1 - |r|])
    ensures |r| <= |s| && r == s[|s| - |r|..] && AllSpace(s[..|s| - |r|])
  {
    var n := |s| - |r|;
    forall k | 0 <= k < n ensures IsSpace(s[..n][k]) {
      if k > 0 {
        assert s[..n][k] == s[1..][..n - 1][k - 1];
      }
    }
  }

  /** A prefix of `s[..|s| - 1]` before whitespace is one of `s` when its last character is
      whitespace too. */
  lemma DropLast(s: string, r: string)
    requires s != [] && IsSpace(s[|s| - 1])
    requires |r| <= |s| - 1 && r == s[..|s| - 1][..|r|] && AllSpace(s[..|s| - 1][|r|..])
    ensures |r| <= |s| && r == s[..|r|] && AllSpace(s[|r|..])
  {
    forall j | 0 <= j < |s| - |r| ensures IsSpace(s[|r|..][j]) {
      if j < |s| - 1 - |r| {
        assert s[|r|..][j] == s[..|s| - 1][|r|..][j];
      }
    }
  }

  /** `s` without its leading whitespace: a suffix of `s` whose dropped part is all whitespace. */
  function TrimLeft(s: string): (r: string)
    ensures |r| <= |s| && r == s[|s| - |r|..]
    ensures AllSpace(s[..|s| - |r|])
    ensures r != [] ==> !IsSpace(r[0])
  {
    if s != [] && IsSpace(s[0]) then
      var r := TrimLeft(s[1..]);
      DropFirst(s, r);
      r
    else
      assert s[..0] == [];
      s
  }

  /** `s` without its trailing whitespace: a prefix of `s` whose dropped part is all whitespace. */
  function TrimRight(s: string): (r: string)
    ensures |r| <= |s| && r == s[..|r|]
    ensures AllSpace(s[|r|..])
    ensures r != [] ==> !IsSpace(r[|r| - 1])
  {
    if s != [] && IsSpace(s[|s| - 1]) then
      var r := TrimRight(s[..|s| - 1]);
      DropLast(s, r);
      r
    else
      assert s[|s|..] == [];
      s
  }

  /** The length of the whitespace run `s` starts with. */
  function LeadingSpace(s: string): (n: nat)
    ensures n <= |s| && AllSpace(s[..n])
    ensures n < |s| ==> !IsSpace(s[n])
  {
    |s| - |TrimLeft(s)|
  }

  /** `str.strip()`: the part of `s` that starts after its leading whitespace and is followed
      only by whitespace; it is empty exactly when `s` is all whitespace, and otherwise
      neither starts nor ends with whitespace. */
  function Trim(s: string): (r: string)
    ensures LeadingSpace(s) + |r| <= |s| && r == s[LeadingSpace(s)..LeadingSpace(s) + |r|]
    ensures AllSpace(s[LeadingSpace(s) + |r|..])
    ensures r == [] <==> AllSpace(s)
    ensures r != [] ==> !IsSpace(r[0]) && !IsSpace(r[|r| - 1])
  {
    var l := TrimLeft(s);
    var r := TrimRight(l);
    TrimFacts(s, l, r);
    r
  }

  /** The contract of `Trim`, for the two trimming steps it is made of. */
  lemma TrimFacts(s: string, l: string, r: string)
    requires l == TrimLeft(s) && r == TrimRight(l)
    ensures LeadingSpace(s) + |r| <= |s| && r == s[LeadingSpace(s)..LeadingSpace(s) + |r|]
    ensures AllSpace(s[LeadingSpace(s) + |r|..])
    ensures r == [] <==> AllSpace(s)
    ensures r != [] ==> !IsSpace(r[0]) && !IsSpace(r[|r| - 1])
  {
    TrimSlice(s, l, r, LeadingSpace(s));
    TrimShape(s, l, r);
  }

  /** Emptiness and the first character of the two-step trim. */
  lemma TrimShape(s: string, l: string, r: string)
    requires l == TrimLeft(s) && r == TrimRight(l)
    ensures r == [] <==> AllSpace(s)
    ensures r != [] ==> !IsSpace(r[0])
  {
    if r == [] {
      BlankParts(s, l, r);
    } else {
      assert r[0] == l[0];
    }
  }

  /** The first `m` elements of the suffix `s[a..]`, and what follows them, as slices of `s`. */
  lemma SliceOfSuffix<T>(s: seq<T>, a: nat, l: seq<T>, m: nat)
    requires a <= |s| && l == s[a..] && m <= |l|
    ensures a + m <= |s| && l[..m] == s[a..a + m] && l[m..] == s[a + m..]
  {
  }

  /** A prefix `r` of the suffix `l` of `s` from `n`, followed in `l` by whitespace only, is
      the slice of `s` from `n`, followed in `s` by whitespace only. */
  lemma TrimSlice(s: string, l: string, r: string, n: nat)
    requires n == |s| - |l| && l == s[n..]
    requires |r| <= |l| && r == l[..|r|] && AllSpace(l[|r|..])
    ensures n + |r| <= |s| && r == s[n..n + |r|]
    ensures AllSpace(s[n + |r|..])
  {
    SliceOfSuffix(s, n, l, |r|);
  }

  /** A text both steps reduce to nothing is whitespace throughout. */
  lemma BlankParts(s: string, l: string, r: string)
    requires l == TrimLeft(s) && r == TrimRight(l) && r == []
    ensures AllSpace(s)
  {
    var n := |s| - |l|;
    assert AllSpace(l) by { assert l[|r|..] == l; }
    assert AllSpace(s[..n]);
    forall k | 0 <= k < |s| ensures IsSpace(s[k]) {
      if k < n { assert s[k] == s[..n][k]; } else { assert s[k] == l[k - n]; }
    }
  }

  /** A text the to-do list rejects: it trims to nothing. */
  predicate IsBlank(s: string)
  {
    Trim(s) == []
  }

  /** Trimming an already trimmed text changes nothing. */
  lemma TrimIdempotent(s: string)
    ensures Trim(Trim(s)) == Trim(s)
  {
    var r := Trim(s);
    if r != [] {
      TrimUnchanged(r);
    }
  }

  /** A text with no whitespace at either end is its own trim. */
  lemma TrimUnchanged(s: string)
    requires s != [] && !IsSpace(s[0]) && !IsSpace(s[|s| - 1])
    ensures Trim(s) == s
  {
    assert TrimLeft(s) == s;
    assert TrimRight(s) == s;
  }
}
