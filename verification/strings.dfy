/** The Python `str` operations the parser relies on: `isspace`, `lower`,
    `capitalize`, `strip`, `split(sep)`, `endswith` and the `in` substring test.
    Case mapping covers the ASCII letters only. */
module Strings {

  /** The characters for which `str.isspace()` holds: what `str.split()`
      separates on and what `str.strip()` removes. */
  const SpaceChars: set<char> := {'\t', '\n', '\U{0B}', '\U{0C}', '\r', '\U{1C}', '\U{1D}', '\U{1E}', '\U{1F}', ' ', '\U{85}', '\U{A0}', '\U{1680}', '\U{2000}', '\U{2001}', '\U{2002}', '\U{2003}', '\U{2004}', '\U{2005}', '\U{2006}', '\U{2007}', '\U{2008}', '\U{2009}', '\U{200A}', '\U{2028}', '\U{2029}', '\U{202F}', '\U{205F}', '\U{3000}'}

  predicate IsSpace(c: char)
  {
    c in SpaceChars
  }

  predicate IsUpper(c: char) { 'A' <= c <= 'Z' }

  predicate IsLower(c: char) { 'a' <= c <= 'z' }

  function LowerChar(c: char): (d: char)
    ensures !IsUpper(d)
    ensures IsSpace(d) <==> IsSpace(c)
    ensures !IsUpper(c) ==> d == c
  {
    if IsUpper(c) then (c as int + 32) as char else c
  }

  function UpperChar(c: char): (d: char)
    ensures !IsLower(d)
    ensures LowerChar(d) == LowerChar(c)
  {
    if IsLower(c) then (c as int - 32) as char else c
  }

  /** `str.lower()`. */
  function Lower(s: string): (r: string)
    ensures |r| == |s|
    ensures forall k :: 0 <= k < |s| ==> r[k] == LowerChar(s[k])
  {
    seq(|s|, k requires 0 <= k < |s| => LowerChar(s[k]))
  }

  predicate HasNoUpper(s: string)
  {
    forall k :: 0 <= k < |s| ==> !IsUpper(s[k])
  }

  lemma LowerOfLowerCase(s: string)
    requires HasNoUpper(s)
    ensures Lower(s) == s
  {
  }

  lemma LowerIdempotent(s: string)
    ensures HasNoUpper(Lower(s))
    ensures Lower(Lower(s)) == Lower(s)
  {
    LowerOfLowerCase(Lower(s));
  }

  /** What `str.capitalize()` returns: a first character that is not a
      lower-case letter, then no upper-case letters. */
  predicate IsCapitalized(s: string)
  {
    && (|s| > 0 ==> !IsLower(s[0]))
    && forall k :: 1 <= k < |s| ==> !IsUpper(s[k])
  }

  /** `str.capitalize()`: the result is in capitalised form and lower-casing it
      gives back the lower-cased input, so two strings capitalise alike exactly
      when they lower-case alike. */
  function Capitalize(s: string): (r: string)
    ensures |r| == |s|
    ensures IsCapitalized(r)
    ensures Lower(r) == Lower(s)
  {
    if |s| == 0 then ""
    else
      var r := [UpperChar(s[0])] + Lower(s[1..]);
      CapitalizeLowers(s, r);
      r
  }

  lemma CapitalizeLowers(s: string, r: string)
    requires |s| > 0 && r == [UpperChar(s[0])] + Lower(s[1..])
    ensures Lower(r) == Lower(s)
  {
    forall k | 0 <= k < |s|
      ensures Lower(r)[k] == Lower(s)[k]
    {
      if k > 0 {
        assert r[k] == LowerChar(s[k]);
      }
    }
  }

  lemma CapitalizeInjectiveOnLower(a: string, b: string)
    requires Capitalize(Lower(a)) == Capitalize(Lower(b))
    ensures Lower(a) == Lower(b)
  {
    LowerIdempotent(a);
    LowerIdempotent(b);
  }

  /** Drops the leading characters satisfying `drop`. */
  function TrimStart(s: string, drop: set<char>): (r: string)
    ensures |r| <= |s| && r == s[|s| - |r|..]
    ensures forall k :: 0 <= k < |s| - |r| ==> s[k] in drop
    ensures |r| > 0 ==> r[0] !in drop
    decreases |s|
  {
    if |s| > 0 && s[0] in drop then TrimStart(s[1..], drop) else s
  }

  /** Drops the trailing characters satisfying `drop`. */
  function TrimEnd(s: string, drop: set<char>): (r: string)
    ensures |r| <= |s| && r == s[..|r|]
    ensures forall k :: |r| <= k < |s| ==> s[k] in drop
    ensures |r| > 0 ==> r[|r| - 1] !in drop
    decreases |s|
  {
    if |s| > 0 && s[|s| - 1] in drop then TrimEnd(s[..|s| - 1], drop) else s
  }

  /** `str.strip(chars)`: drop matching characters at both ends. */
  function StripBy(s: string, drop: set<char>): string
  {
    TrimEnd(TrimStart(s, drop), drop)
  }

  /** What `StripBy` keeps is one slice `s[lo..lo + |r|]` of its input, and
      everything around that slice is dropped. */
  lemma StripBySlice(s: string, drop: set<char>) returns (lo: nat)
    ensures lo + |StripBy(s, drop)| <= |s|
    ensures StripBy(s, drop) == s[lo..lo + |StripBy(s, drop)|]
    ensures forall k :: 0 <= k < lo ==> s[k] in drop
    ensures forall k :: lo + |StripBy(s, drop)| <= k < |s| ==> s[k] in drop
  {
    var t := TrimStart(s, drop);
    var r := TrimEnd(t, drop);
    lo := |s| - |t|;
    assert r == t[..|r|];
    forall k | lo + |r| <= k < |s|
      ensures s[k] in drop
    {
      assert s[k] == t[k - lo];
    }
  }

  /** `StripBy` leaves no droppable character at either end. */
  lemma StripByEnds(s: string, drop: set<char>)
    ensures |StripBy(s, drop)| > 0 ==> StripBy(s, drop)[0] !in drop && StripBy(s, drop)[|StripBy(s, drop)| - 1] !in drop
  {
    var t := TrimStart(s, drop);
    var r := TrimEnd(t, drop);
    if |r| > 0 {
      assert r[0] == t[0];
    }
  }

  /** `str.strip()` with no argument. */
  function Strip(s: string): string
  {
    StripBy(s, SpaceChars)
  }

  /** A stripped string is empty exactly when the input is all whitespace. */
  lemma StripEmptyIff(s: string)
    ensures Strip(s) == "" <==> forall k :: 0 <= k < |s| ==> IsSpace(s[k])
  {
    var t := TrimStart(s, SpaceChars);
    if Strip(s) == "" {
      assert |t| == 0;
    } else {
      var r := Strip(s);
      assert r[0] == t[0] == s[|s| - |t|];
    }
  }

  /** Stripping cannot introduce an upper-case letter. */
  lemma StripKeepsNoUpper(s: string)
    requires HasNoUpper(s)
    ensures HasNoUpper(Strip(s))
  {
    var t := TrimStart(s, SpaceChars);
    var r := TrimEnd(t, SpaceChars);
    forall k | 0 <= k < |r|
      ensures !IsUpper(r[k])
    {
      assert r[k] == t[k] == s[|s| - |t| + k];
    }
    assert Strip(s) == r;
  }

  /** The first position of `c` in `s`. */
  function IndexOf(s: string, c: char): (i: nat)
    requires c in s
    ensures i < |s| && s[i] == c
    ensures forall k :: 0 <= k < i ==> s[k] != c
  {
    if s[0] == c then 0 else 1 + IndexOf(s[1..], c)
  }

  /** `sep.join(parts)` for a one-character separator. */
  function JoinOn(parts: seq<string>, sep: char): string
  {
    if |parts| == 0 then ""
    else if |parts| == 1 then parts[0]
    else parts[0] + [sep] + JoinOn(parts[1..], sep)
  }

  /** `s.split(sep)` for a one-character separator: never empty, no piece holds
      the separator, and joining the pieces back gives `s`. */
  function SplitOn(s: string, sep: char): (parts: seq<string>)
    ensures |parts| > 0
    ensures forall i :: 0 <= i < |parts| ==> sep !in parts[i]
    ensures JoinOn(parts, sep) == s
    decreases |s|
  {
    if sep !in s then [s]
    else
      var i := IndexOf(s, sep);
      var rest := SplitOn(s[i + 1..], sep);
      var parts := [s[..i]] + rest;
      assert parts[1..] == rest;
      assert s == s[..i] + [sep] + s[i + 1..];
      parts
  }

  /** `s.endswith(suffix)`. */
  predicate EndsWith(s: string, suffix: string)
  {
    |suffix| <= |s| && s[|s| - |suffix|..] == suffix
  }

  predicate StartsWith(s: string, prefix: string)
  {
    |prefix| <= |s| && s[..|prefix|] == prefix
  }

  /** `sub in s`. */
  predicate Occurs(sub: string, s: string)
    decreases |s|
  {
    StartsWith(s, sub) || (|s| > 0 && Occurs(sub, s[1..]))
  }
}
