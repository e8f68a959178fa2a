/** The gender extractor `extract_gender` (utils.py:208-223): the first match
    of `(gender|sex)\s*:\s*(male|female)` under `re.IGNORECASE`, reported as
    its second group in lower case. */
module Gender {
  import opened Wrappers
  import opened Strings
  import opened Search

  /** Case-insensitive comparison of a text character with a lower-case
      pattern letter: the letter itself, its upper-case form, and for `s` also
      the long s (U+017F), which Python's matcher folds to `s`. */
  predicate Caseless(c: char, p: char)
  {
    LowerChar(c) == p || (p == 's' && c == 'ſ')
  }

  /** The lower-case word `w` at `i`, ignoring case. */
  predicate WordAt(text: string, i: nat, w: string)
  {
    i + |w| <= |text| && forall k :: 0 <= k < |w| ==> Caseless(text[i + k], w[k])
  }

  /** `(gender|sex)` at `i`: where it ends. */
  function KeywordEnd(text: string, i: nat): (r: Option<nat>)
    ensures r.Some? ==> r.value <= |text|
  {
    if WordAt(text, i, "gender") then Some(i + 6)
    else if WordAt(text, i, "sex") then Some(i + 3)
    else None
  }

  /** `(male|female)` at `v`, lower-cased: the text the group matched, in
      lower case. `male` is tried first, as the alternation does. */
  function GroupAt(text: string, v: nat): (r: Option<string>)
    ensures r.Some? ==> r.value in {"male", "female"}
    ensures r.Some? ==> v + |r.value| <= |text| && Lower(text[v..v + |r.value|]) == r.value
    ensures r == Some("male") <==> WordAt(text, v, "male")
  {
    if WordAt(text, v, "male") then Some("male")
    else if WordAt(text, v, "female") then Some("female")
    else None
  }

  /** `\s*:\s*` at `p`: where the second group has to start. The greedy
      `\s*` never gives back usefully, since what follows it, `:` or a
      letter, is not whitespace. */
  function AfterColon(text: string, p: nat): (r: Option<nat>)
    requires p <= |text|
    ensures r.Some? ==> p < r.value <= |text|
  {
    var q := RunEnd(text, p, IsSpace);
    if q < |text| && text[q] == ':' then Some(RunEnd(text, q + 1, IsSpace)) else None
  }

  /** `\s*:\s*(male|female)` at `p`: the lower-cased second group. */
  function ValueAt(text: string, p: nat): (r: Option<string>)
    requires p <= |text|
    ensures r.Some? ==> r.value in {"male", "female"}
  {
    match AfterColon(text, p)
    case None => None
    case Some(v) => GroupAt(text, v)
  }

  /** The whole pattern at `i`: the lower-cased second group, found where the
      keyword and the colon stage leave off. */
  function GenderAt(text: string, i: nat): (r: Option<string>)
    ensures r.Some? ==> r.value in {"male", "female"}
    ensures r.Some? ==> exists p, v :: KeywordEnd(text, i) == Some(p) && p <= v && AfterColon(text, p) == Some(v)
                                       && GroupAt(text, v) == r
  {
    match KeywordEnd(text, i)
    case None => None
    case Some(p) => ValueAt(text, p)
  }

  function GenderStarts(text: string): (s: seq<Option<string>>)
    ensures |s| == |text|
    ensures forall i :: 0 <= i < |text| ==> s[i] == GenderAt(text, i)
  {
    seq(|text|, i requires 0 <= i < |text| => GenderAt(text, i))
  }

  /** `extract_gender(text)`: `"male"` or `"female"` when the pattern matches
      somewhere, and `None` exactly when it matches nowhere. */
  function ExtractGender(text: string): (r: Option<string>)
    ensures r.None? <==> forall i :: 0 <= i < |text| ==> GenderAt(text, i).None?
    ensures r.Some? ==> r.value in {"male", "female"}
    ensures r.Some? ==> exists i :: 0 <= i < |text| && GenderAt(text, i) == r
                                  && forall k :: 0 <= k < i ==> GenderAt(text, k).None?
  {
    match Leftmost(GenderStarts(text), 0)
    case None => None
    case Some((_, g)) => Some(g)
  }

  /** A match needs its colon: a text without `:` yields nothing. */
  lemma GenderNeedsColon(text: string)
    requires ':' !in text
    ensures ExtractGender(text).None?
  {
    forall i | 0 <= i < |text|
      ensures GenderAt(text, i).None?
    {
      if KeywordEnd(text, i).Some? {
        var q := RunEnd(text, KeywordEnd(text, i).value, IsSpace);
        assert q < |text| ==> text[q] in text;
        assert AfterColon(text, KeywordEnd(text, i).value).None?;
      }
    }
  }

  /** Lower-casing the text does not change what matches where. */
  lemma CaselessLower(c: char, p: char)
    requires !IsUpper(p)
    ensures Caseless(LowerChar(c), p) <==> Caseless(c, p)
  {
  }

  lemma WordAtLower(text: string, i: nat, w: string)
    requires forall k :: 0 <= k < |w| ==> !IsUpper(w[k])
    ensures WordAt(Lower(text), i, w) <==> WordAt(text, i, w)
  {
    if i + |w| <= |text| {
      forall k | 0 <= k < |w|
        ensures Caseless(Lower(text)[i + k], w[k]) <==> Caseless(text[i + k], w[k])
      {
        CaselessLower(text[i + k], w[k]);
      }
    }
  }

  /** Two texts with whitespace and colons at the same places. */
  predicate SameLayout(a: string, b: string)
  {
    |a| == |b| && forall k :: 0 <= k < |a| ==> (IsSpace(a[k]) <==> IsSpace(b[k])) && (a[k] == ':' <==> b[k] == ':')
  }

  lemma LowerSameLayout(text: string)
    ensures SameLayout(Lower(text), text)
  {
    forall k | 0 <= k < |text|
      ensures Lower(text)[k] == ':' <==> text[k] == ':'
    {
      ColonLower(text[k]);
    }
  }

  lemma {:induction false} RunEndSame(a: string, b: string, p: nat)
    requires SameLayout(a, b) && p <= |a|
    ensures RunEnd(a, p, IsSpace) == RunEnd(b, p, IsSpace)
    decreases |a| - p
  {
    if p < |a| {
      RunEndSame(a, b, p + 1);
    }
  }

  lemma AfterColonSame(a: string, b: string, p: nat)
    requires SameLayout(a, b) && p <= |a|
    ensures AfterColon(a, p) == AfterColon(b, p)
  {
    RunEndSame(a, b, p);
    var q := RunEnd(a, p, IsSpace);
    if q < |a| && a[q] == ':' {
      RunEndSame(a, b, q + 1);
    }
  }

  lemma KeywordEndLower(text: string, i: nat)
    ensures KeywordEnd(Lower(text), i) == KeywordEnd(text, i)
  {
    WordAtLower(text, i, "gender");
    WordAtLower(text, i, "sex");
  }

  lemma ValueAtLower(text: string, p: nat)
    requires p <= |text|
    ensures ValueAt(Lower(text), p) == ValueAt(text, p)
  {
    LowerSameLayout(text);
    AfterColonSame(Lower(text), text, p);
    if AfterColon(text, p).Some? {
      GroupAtLower(text, AfterColon(text, p).value);
    }
  }

  lemma ColonLower(c: char)
    ensures LowerChar(c) == ':' <==> c == ':'
  {
  }

  lemma GroupAtLower(text: string, v: nat)
    ensures GroupAt(Lower(text), v) == GroupAt(text, v)
  {
    WordAtLower(text, v, "male");
    WordAtLower(text, v, "female");
  }

  lemma GenderAtLower(text: string, i: nat)
    ensures GenderAt(Lower(text), i) == GenderAt(text, i)
  {
    KeywordEndLower(text, i);
    if KeywordEnd(text, i).Some? {
      ValueAtLower(text, KeywordEnd(text, i).value);
    }
  }

  /** The extractor ignores case. */
  lemma GenderIgnoresCase(text: string)
    ensures ExtractGender(Lower(text)) == ExtractGender(text)
  {
    forall i | 0 <= i < |text|
      ensures GenderAt(Lower(text), i) == GenderAt(text, i)
    {
      GenderAtLower(text, i);
    }
    assert GenderStarts(Lower(text)) == GenderStarts(text);
  }
}
