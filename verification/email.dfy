/** The e-mail extractor `extract_email` (utils.py:72-84). The pattern
    `([^@|\s]+@[^@]+\.[^@|\s]+)` is matched the way Python's backtracking
    engine does it: leftmost start, greedy repetitions. The first match is then
    cut at its first whitespace and stripped of `;` at both ends. */
module Email {
  import opened Wrappers
  import opened Strings
  import opened Whitespace
  import opened Search

  /** `[^@|\s]`: the characters of the local part and of the final label. */
  predicate LocalChar(c: char)
  {
    c != '@' && c != '|' && !IsSpace(c)
  }

  /** `[^@]`: the characters between the `@` and the last dot. */
  predicate NotAt(c: char)
  {
    c != '@'
  }

  /** `text[i..j]` matches the pattern with its `@` at `a` and the dot that
      `\.` matches at `d`. */
  predicate Span(text: string, i: int, a: int, d: int, j: int)
  {
    && 0 <= i < a
    && a + 2 <= d
    && d + 1 < j <= |text|
    && (forall k :: i <= k < a ==> LocalChar(text[k]))
    && text[a] == '@'
    && (forall k :: a < k < d ==> NotAt(text[k]))
    && text[d] == '.'
    && (forall k :: d < k < j ==> LocalChar(text[k]))
  }

  /** A dot at `d` that the final `[^@|\s]+` can follow. */
  predicate DotAt(text: string, d: nat)
  {
    d + 1 < |text| && text[d] == '.' && LocalChar(text[d + 1])
  }

  /** Backtracking `[^@]+` from its greedy end: the last usable dot in `lo..hi`. */
  function LastDot(text: string, lo: nat, hi: nat): (r: Option<nat>)
    ensures r.None? <==> forall k :: lo <= k < hi ==> !DotAt(text, k)
    ensures r.Some? ==> lo <= r.value < hi && DotAt(text, r.value)
    ensures r.Some? ==> forall k :: r.value < k < hi ==> !DotAt(text, k)
    decreases hi
  {
    if hi <= lo then None
    else if DotAt(text, hi - 1) then Some(hi - 1)
    else LastDot(text, lo, hi - 1)
  }

  /** What any match starting at `i` forces on the greedy scan: the local
      part ends at its `@`, the `[^@]` run reaches past its dot, and its dot is
      usable. */
  lemma SpanFacts(text: string, i: nat, a: nat, d: nat, j: nat)
    requires Span(text, i, a, d, j)
    ensures RunEnd(text, i, LocalChar) == a
    ensures d + 1 < RunEnd(text, a + 1, NotAt)
    ensures DotAt(text, d)
  {
    RunEndAt(text, i, a, LocalChar);
    assert forall k :: a + 1 <= k < d + 2 ==> NotAt(text[k]);
    RunEndAtLeast(text, a + 1, d + 2, NotAt);
  }

  /** The end of the match that starts at `i`, if one does. */
  function EmailAt(text: string, i: nat): (r: Option<nat>)
    ensures r.Some? ==> exists a, d :: Span(text, i, a, d, r.value)
    ensures r.Some? ==> r.value == |text| || !LocalChar(text[r.value])
    ensures (exists a, d, j :: Span(text, i, a, d, j)) ==> r.Some?
    ensures r.Some? ==> forall a, d, j :: Span(text, i, a, d, j) ==> j <= r.value
  {
    if i >= |text| then
      None
    else
      var a := RunEnd(text, i, LocalChar);
      if a == i || a == |text| || text[a] != '@' then
        forall a', d, j | Span(text, i, a', d, j) {
          SpanFacts(text, i, a', d, j);
        }
        None
      else
        var e := RunEnd(text, a + 1, NotAt);
        var dot := LastDot(text, a + 2, e);
        if dot.None? then
          forall a', d, j | Span(text, i, a', d, j) {
            SpanFacts(text, i, a', d, j);
          }
          None
        else
          var d := dot.value;
          var j := RunEnd(text, d + 1, LocalChar);
          assert Span(text, i, a, d, j);
          forall a', d', j' | Span(text, i, a', d', j')
            ensures j' <= j
          {
            GreedyEnd(text, i, a, d, j, a', d', j');
          }
          Some(j)
  }

  /** The end `EmailAt` picks is the greedy one: with the local part, the last
      usable dot before the end of the `[^@]` run and the longest final label,
      no match starting at `i` ends later. */
  lemma GreedyEnd(text: string, i: nat, a: nat, d: nat, j: nat, a': nat, d': nat, j': nat)
    requires i <= |text| && a == RunEnd(text, i, LocalChar) && a < |text| && text[a] == '@'
    requires LastDot(text, a + 2, RunEnd(text, a + 1, NotAt)) == Some(d)
    requires j == RunEnd(text, d + 1, LocalChar)
    requires Span(text, i, a', d', j')
    ensures j' <= j
  {
    SpanFacts(text, i, a', d', j');
  }

  /** What the pattern matches at each start position. */
  function Starts(text: string): (s: seq<Option<nat>>)
    ensures |s| == |text|
    ensures forall i :: 0 <= i < |text| ==> s[i] == EmailAt(text, i)
  {
    seq(|text|, i requires 0 <= i < |text| => EmailAt(text, i))
  }

  /** The leftmost match, `re.findall(...)[0]`: its start and end. There is
      one exactly when the pattern matches somewhere, and no match starts
      before it. */
  function FirstMatch(text: string): (r: Option<(nat, nat)>)
    ensures r.None? <==> forall i, a, d, j :: !Span(text, i, a, d, j)
    ensures r.Some? ==> r.value.0 < r.value.1 <= |text|
    ensures r.Some? ==> exists a, d :: Span(text, r.value.0, a, d, r.value.1)
    ensures r.Some? ==> forall i, a, d, j :: Span(text, i, a, d, j) ==> r.value.0 <= i
    ensures r.Some? ==> forall a, d, j :: Span(text, r.value.0, a, d, j) ==> j <= r.value.1
  {
    var starts := Starts(text);
    var r := Leftmost(starts, 0);
    assert r.None? ==> forall i, a, d, j :: !Span(text, i, a, d, j) by {
      forall i, a, d, j | Span(text, i, a, d, j)
        ensures starts[i].Some?
      {
      }
    }
    assert r.Some? ==> forall i, a, d, j :: Span(text, i, a, d, j) ==> r.value.0 <= i by {
      forall i, a, d, j | r.Some? && Span(text, i, a, d, j)
        ensures r.value.0 <= i
      {
        assert starts[i].Some?;
      }
    }
    r
  }

  /** The first word of a match (`split()[0]`), with `;` stripped at both ends;
      `None` stands for the `IndexError` of an empty split. */
  function Trimmed(m: string): (r: Option<string>)
    ensures |m| > 0 && !IsSpace(m[0]) ==> r.Some?
  {
    var ws := Split(m);
    if |ws| == 0 then None
    else Some(StripBy(ws[0], {';'}))
  }

  /** `extract_email(text)`. The `IndexError` handler of utils.py:82-84 is
      modelled, and the contract shows it is dead: there is a result exactly
      when the pattern matches somewhere. */
  function ExtractEmail(text: string): (r: Option<string>)
    ensures r.None? <==> forall i, a, d, j :: !Span(text, i, a, d, j)
  {
    var first := FirstMatch(text);
    if first.None? then None else Trimmed(text[first.value.0..first.value.1])
  }

  /** The first word of a match runs from its start past its `@`. */
  lemma FirstWordOfSpan(text: string, i: nat, a: nat, d: nat, j: nat) returns (w: nat)
    requires Span(text, i, a, d, j)
    ensures a < w <= j
    ensures forall k :: i <= k < w ==> !IsSpace(text[k])
    ensures w < j ==> IsSpace(text[w])
    ensures |Split(text[i..j])| > 0 && Split(text[i..j])[0] == text[i..w]
  {
    var m := text[i..j];
    w := i + WordLength(m);
    assert forall k :: 0 <= k <= a - i ==> m[k] == text[i + k];
    assert Split(m)[0] == m[..WordLength(m)];
  }

  /** `word` holds `@` at `p` and nowhere else. */
  predicate SingleAtAt(word: string, p: nat)
  {
    p < |word| && word[p] == '@' && forall q :: 0 <= q < |word| && q != p ==> word[q] != '@'
  }

  predicate NoSpaceIn(word: string)
  {
    forall k :: 0 <= k < |word| ==> !IsSpace(word[k])
  }

  /** The shape every extracted address has: exactly one `@`, no whitespace,
      and no `;` at either end. */
  predicate IsAddress(v: string)
  {
    && |v| > 0
    && '@' in v
    && (forall p, q :: 0 <= p < q < |v| ==> !(v[p] == '@' && v[q] == '@'))
    && (forall k :: 0 <= k < |v| ==> !IsSpace(v[k]))
    && v[0] != ';' && v[|v| - 1] != ';'
  }

  /** A slice of a whitespace-free word that keeps its single `@` and does not
      start or end with `;` is an address. */
  lemma SliceIsAddress(word: string, p: nat, lo: nat, n: nat, v: string)
    requires lo <= p < lo + n <= |word| && v == word[lo..lo + n]
    requires SingleAtAt(word, p) && NoSpaceIn(word)
    requires word[lo] != ';' && word[lo + n - 1] != ';'
    ensures IsAddress(v)
  {
    assert forall k :: 0 <= k < |v| ==> v[k] == word[lo + k];
    assert v[p - lo] == '@';
  }

  /** What stripping `;` keeps of a whitespace-free word with a single `@`:
      one slice of the word, with nothing but `;` around it and no `;` at
      either end of it, so an address. */
  lemma KeptIsAddress(word: string, p: nat, lo: nat, v: string)
    requires SingleAtAt(word, p) && NoSpaceIn(word)
    requires lo + |v| <= |word| && v == word[lo..lo + |v|]
    requires forall k :: 0 <= k < lo ==> word[k] == ';'
    requires forall k :: lo + |v| <= k < |word| ==> word[k] == ';'
    requires |v| > 0 ==> v[0] != ';' && v[|v| - 1] != ';'
    ensures IsAddress(v)
  {
    assert lo <= p < lo + |v|;
    assert v[0] == word[lo] && v[|v| - 1] == word[lo + |v| - 1];
    SliceIsAddress(word, p, lo, |v|, v);
  }

  /** Stripping `;` from a whitespace-free word with a single `@` gives an
      address. */
  lemma StripSemicolons(word: string, p: nat)
    requires SingleAtAt(word, p) && NoSpaceIn(word)
    ensures IsAddress(StripBy(word, {';'}))
  {
    var v := StripBy(word, {';'});
    var lo := StripBySlice(word, {';'});
    StripByEnds(word, {';'});
    assert forall k :: 0 <= k < lo ==> word[k] == ';';
    assert forall k :: lo + |v| <= k < |word| ==> word[k] == ';';
    KeptIsAddress(word, p, lo, v);
  }

  lemma TrimmedIs(m: string, word: string)
    requires |Split(m)| > 0 && Split(m)[0] == word
    ensures Trimmed(m) == Some(StripBy(word, {';'}))
  {
  }

  /** A match holds exactly one `@`. */
  lemma SpanSingleAt(text: string, i: nat, a: nat, d: nat, j: nat)
    requires Span(text, i, a, d, j)
    ensures forall k :: i <= k < j && k != a ==> text[k] != '@'
  {
    forall k | i <= k < j && k != a
      ensures text[k] != '@'
    {
      if k < a {
        assert LocalChar(text[k]);
      } else if k < d {
        assert NotAt(text[k]);
      } else if d < k {
        assert LocalChar(text[k]);
      }
    }
  }

  /** The leftmost match, when there is one, is what the result is cut from. */
  lemma LeftmostSpan(text: string) returns (i: nat, a: nat, d: nat, j: nat)
    requires ExtractEmail(text).Some?
    ensures Span(text, i, a, d, j)
    ensures forall i', a', d', j' :: Span(text, i', a', d', j') ==> i <= i'
    ensures forall a', d', j' :: Span(text, i, a', d', j') ==> j' <= j
    ensures ExtractEmail(text) == Trimmed(text[i..j])
  {
    var first := FirstMatch(text).value;
    i, j := first.0, first.1;
    a, d :| Span(text, i, a, d, j);
  }

  /** A whitespace-free prefix of a match that reaches past its `@`. */
  lemma WordHasSingleAt(text: string, i: nat, a: nat, d: nat, j: nat, w: nat)
    requires Span(text, i, a, d, j) && a < w <= j
    requires forall k :: i <= k < w ==> !IsSpace(text[k])
    ensures SingleAtAt(text[i..w], a - i) && NoSpaceIn(text[i..w])
  {
    SpanSingleAt(text, i, a, d, j);
    var word := text[i..w];
    assert forall q :: 0 <= q < |word| ==> word[q] == text[i + q];
  }

  lemma WordIsAddress(text: string, i: nat, a: nat, d: nat, j: nat, w: nat)
    requires Span(text, i, a, d, j) && a < w <= j
    requires forall k :: i <= k < w ==> !IsSpace(text[k])
    ensures IsAddress(StripBy(text[i..w], {';'}))
  {
    WordHasSingleAt(text, i, a, d, j, w);
    StripSemicolons(text[i..w], a - i);
  }

  /** The first word of a match, as the string `StripSemicolons` works on. */
  lemma WordOfSpan(text: string, i: nat, a: nat, d: nat, j: nat) returns (w: nat)
    requires Span(text, i, a, d, j)
    ensures a < w <= j
    ensures forall k :: i <= k < w ==> !IsSpace(text[k])
    ensures w < j ==> IsSpace(text[w])
    ensures Trimmed(text[i..j]) == Some(StripBy(text[i..w], {';'}))
    ensures IsAddress(StripBy(text[i..w], {';'}))
  {
    w := FirstWordOfSpan(text, i, a, d, j);
    TrimmedIs(text[i..j], text[i..w]);
    WordIsAddress(text, i, a, d, j, w);
  }

  /** Where the extracted address comes from: the leftmost match starts at
      `i`, and the address is that match's first whitespace-free word with `;`
      stripped from both ends. */
  lemma EmailIsFirstWordOfLeftmostMatch(text: string) returns (v: string, i: nat, a: nat, d: nat, j: nat, w: nat)
    requires ExtractEmail(text).Some?
    ensures ExtractEmail(text) == Some(v)
    ensures Span(text, i, a, d, j)
    ensures forall i', a', d', j' :: Span(text, i', a', d', j') ==> i <= i'
    ensures forall a', d', j' :: Span(text, i, a', d', j') ==> j' <= j
    ensures a < w <= j
    ensures forall k :: i <= k < w ==> !IsSpace(text[k])
    ensures w < j ==> IsSpace(text[w])
    ensures v == StripBy(text[i..w], {';'}) && IsAddress(v)
  {
    i, a, d, j := LeftmostSpan(text);
    w := WordOfSpan(text, i, a, d, j);
    v := StripBy(text[i..w], {';'});
  }

  /** The shape of the extracted address: it holds exactly one `@`, no
      whitespace, and neither starts nor ends with `;`. */
  lemma EmailShape(text: string)
    ensures ExtractEmail(text).Some? ==> IsAddress(ExtractEmail(text).value)
  {
    if ExtractEmail(text).Some? {
      var v, i, a, d, j, w := EmailIsFirstWordOfLeftmostMatch(text);
    }
  }
}
