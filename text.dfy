/** String primitives of the Python runtime that the pipeline relies on:
    `str.strip`, `str.lower`, `str.find`, `str.rfind`, `str.count('\n')`,
    `''.join` and slicing with Python's clamping rule. */
module Text {

  datatype Option<T> = None | Some(value: T)

  /** The characters for which Python's `str.isspace()` holds. This is the same class as
      `IsSpace` below, listed as a set for `strip` and checked equal to it by
      `SpaceIsWhitespace`; the set form keeps the stripping proofs cheap, the ranges read
      like the Unicode table. */
  const Whitespace: set<char> :=
    {'\t', '\n', '\U{B}', '\U{C}', '\r', '\U{1C}', '\U{1D}', '\U{1E}', '\U{1F}', ' ',
     '\U{85}', '\U{A0}', '\U{1680}',
     '\U{2000}', '\U{2001}', '\U{2002}', '\U{2003}', '\U{2004}', '\U{2005}',
     '\U{2006}', '\U{2007}', '\U{2008}', '\U{2009}', '\U{200A}',
     '\U{2028}', '\U{2029}', '\U{202F}', '\U{205F}', '\U{3000}'}

  /** Python's `c.isspace()`, written as ranges of code points. */
  predicate IsSpace(c: char)
  {
    || c == ' ' || '\t' <= c <= '\r' || '\U{1C}' <= c <= '\U{1F}' || c == '\U{85}' || c == '\U{A0}'
    || c == '\U{1680}' || '\U{2000}' <= c <= '\U{200A}' || c == '\U{2028}' || c == '\U{2029}'
    || c == '\U{202F}' || c == '\U{205F}' || c == '\U{3000}'
  }

  lemma SpaceIsWhitespace(c: char)
    ensures IsSpace(c) <==> c in Whitespace
  {
  }

  /** The first position at or after `k` whose character is not in `cs` (or `|s|`). */
  function LeadingFrom(s: string, cs: set<char>, k: nat): (n: nat)
    requires k <= |s|
    ensures k <= n <= |s|
    ensures forall i :: k <= i < n ==> s[i] in cs
    ensures n < |s| ==> s[n] !in cs
    decreases |s| - k
  {
    if k == |s| || s[k] !in cs then k else LeadingFrom(s, cs, k + 1)
  }

  /** Number of leading characters of `s` that belong to `cs`. */
  function LeadingIn(s: string, cs: set<char>): (n: nat)
    ensures n <= |s|
    ensures forall i :: 0 <= i < n ==> s[i] in cs
    ensures n < |s| ==> s[n] !in cs
  {
    LeadingFrom(s, cs, 0)
  }

  /** The end of `s[..k]` once its trailing characters in `cs` are dropped. */
  function TrailingDownTo(s: string, cs: set<char>, k: nat): (m: nat)
    requires k <= |s|
    ensures m <= k
    ensures forall i :: m <= i < k ==> s[i] in cs
    ensures m > 0 ==> s[m - 1] !in cs
  {
    if k == 0 || s[k - 1] !in cs then k else TrailingDownTo(s, cs, k - 1)
  }

  /** Python's `s.strip(chars)`: `s` without its longest prefix and suffix made of `cs`. */
  function StripIn(s: string, cs: set<char>): (r: string)
    ensures LeadingIn(s, cs) + |r| <= |s| && r == s[LeadingIn(s, cs)..LeadingIn(s, cs) + |r|]
    ensures r == [] || (r[0] !in cs && r[|r| - 1] !in cs)
  {
    var a := LeadingIn(s, cs);
    if a == |s| then [] else s[a..TrailingDownTo(s, cs, |s|)]
  }

  /** Python's `s.strip()`. */
  function Strip(s: string): (r: string)
    ensures LeadingIn(s, Whitespace) + |r| <= |s| && r == s[LeadingIn(s, Whitespace)..LeadingIn(s, Whitespace) + |r|]
  {
    StripIn(s, Whitespace)
  }

  /** `not s.strip()`: the string holds whitespace only (or nothing). */
  predicate IsBlank(s: string)
  {
    forall i :: 0 <= i < |s| ==> IsSpace(s[i])
  }

  lemma StripInEmptyIff(s: string, cs: set<char>)
    ensures StripIn(s, cs) == [] <==> forall i :: 0 <= i < |s| ==> s[i] in cs
  {
  }

  /** Python's `bool(s.strip())` agrees with non-blankness. */
  lemma StripEmptyIffBlank(s: string)
    ensures Strip(s) == [] <==> IsBlank(s)
  {
    StripInEmptyIff(s, Whitespace);
    forall i | 0 <= i < |s|
      ensures IsSpace(s[i]) <==> s[i] in Whitespace
    {
      SpaceIsWhitespace(s[i]);
    }
  }

  /** Python's `c.lower()` restricted to ASCII. */
  function LowerChar(c: char): char
  {
    if 'A' <= c <= 'Z' then (c as int + 32) as char else c
  }

  /** Python's `s.lower()` restricted to ASCII: length-preserving, character by character. */
  function Lower(s: string): (r: string)
    ensures |r| == |s|
    ensures forall i :: 0 <= i < |s| ==> r[i] == LowerChar(s[i])
  {
    seq(|s|, i requires 0 <= i < |s| => LowerChar(s[i]))
  }

  /** `p` occurs in `s` starting at position `i`. */
  predicate OccursAt(s: string, p: string, i: int)
  {
    0 <= i && i + |p| <= |s| && s[i..i + |p|] == p
  }

  function FindFrom(s: string, p: string, k: nat): (r: int)
    requires k <= |s|
    ensures r == -1 || (k <= r && OccursAt(s, p, r))
    ensures forall i :: k <= i && (r == -1 || i < r) ==> !OccursAt(s, p, i)
    decreases |s| - k
  {
    if OccursAt(s, p, k) then k
    else if k == |s| then -1
    else FindFrom(s, p, k + 1)
  }

  /** Python's `s.find(p)`: the first position where `p` occurs, or -1. */
  function Find(s: string, p: string): (r: int)
    ensures r == -1 || OccursAt(s, p, r)
    ensures forall i :: 0 <= i && (r == -1 || i < r) ==> !OccursAt(s, p, i)
  {
    FindFrom(s, p, 0)
  }

  function RFindFrom(s: string, p: string, k: nat): (r: int)
    requires k <= |s|
    ensures r == -1 || (r <= k && OccursAt(s, p, r))
    ensures forall i :: i <= k && r < i ==> !OccursAt(s, p, i)
  {
    if OccursAt(s, p, k) then k
    else if k == 0 then -1
    else RFindFrom(s, p, k - 1)
  }

  /** Python's `s.rfind(p)`: the last position where `p` occurs, or -1. */
  function RFind(s: string, p: string): (r: int)
    ensures r == -1 || OccursAt(s, p, r)
    ensures forall i :: r < i ==> !OccursAt(s, p, i)
  {
    RFindFrom(s, p, |s|)
  }

  /** Python's `s[a:b]` for `0 <= a` and `b <= len(s)`: empty when `a >= b`. */
  function PySlice(s: string, a: nat, b: nat): (r: string)
    requires a <= |s| && b <= |s|
    ensures a < b ==> r == s[a..b]
    ensures b <= a ==> r == []
  {
    if a < b then s[a..b] else []
  }

  lemma SliceOfSlice(s: string, a: nat, b: nat, c: nat, d: nat)
    requires a <= b <= |s| && c <= d <= b - a
    ensures s[a..b][c..d] == s[a + c..a + d]
  {
    assert forall k :: 0 <= k < d - c ==> s[a..b][c..d][k] == s[a + c + k];
  }

  /** Python's `s.count('\n')`. */
  function Newlines(s: string): nat
  {
    if s == [] then 0 else (if s[0] == '\n' then 1 else 0) + Newlines(s[1..])
  }

  lemma {:induction false} NewlinesAppend(s: string, t: string)
    ensures Newlines(s + t) == Newlines(s) + Newlines(t)
  {
    if s != [] {
      assert (s + t)[1..] == s[1..] + t;
      NewlinesAppend(s[1..], t);
    } else {
      assert s + t == t;
    }
  }

  /** Python's `''.join(lines)`. */
  function Concat(lines: seq<string>): string
  {
    if lines == [] then [] else lines[0] + Concat(lines[1..])
  }

  lemma {:induction false} ConcatAppend(a: seq<string>, b: seq<string>)
    ensures Concat(a + b) == Concat(a) + Concat(b)
  {
    if a != [] {
      assert (a + b)[1..] == a[1..] + b;
      ConcatAppend(a[1..], b);
    } else {
      assert a + b == b;
    }
  }

  /** Newlines of a joined range split at any point. */
  lemma NewlinesSplit(lines: seq<string>, i: nat, j: nat, k: nat)
    requires i <= j <= k <= |lines|
    ensures Newlines(Concat(lines[i..k])) == Newlines(Concat(lines[i..j])) + Newlines(Concat(lines[j..k]))
  {
    assert lines[i..k] == lines[i..j] + lines[j..k];
    ConcatAppend(lines[i..j], lines[j..k]);
    NewlinesAppend(Concat(lines[i..j]), Concat(lines[j..k]));
  }
}
