/** The phone extractor `extract_mobile_number` (utils.py:87-112). Without a
    custom pattern it runs the built-in pattern of utils.py:104-105, whose three
    alternatives are, in the order the engine tries them:
      1. `\d{3}[-\.\s]??\d{3}[-\.\s]??\d{4}`            ten digits;
      2. `\(\d{3}\)`, a line break and 24 spaces (the pattern's own text spans
         two lines), `[-\.\s]*\d{3}[-\.\s]??\d{4}`        ten digits;
      3. `\d{3}[-\.\s]??\d{4}`                          seven digits.
    The first match of `re.findall` is the leftmost start position, and at that
    position the first alternative that matches. The whole pattern is one
    group, so the match text is what the function returns. */
module Phone {
  import opened Wrappers
  import opened Strings
  import opened Search

  /** `\d`, for ASCII digits. */
  predicate IsDigit(c: char)
  {
    '0' <= c <= '9'
  }

  /** `[-\.\s]`. */
  predicate IsSep(c: char)
  {
    c == '-' || c == '.' || IsSpace(c)
  }

  /** What a match of the built-in pattern is made of. */
  predicate PhoneChar(c: char)
  {
    IsDigit(c) || IsSep(c) || c == '(' || c == ')'
  }

  /** `\d{n}` at `p`. */
  predicate DigitsAt(text: string, p: nat, n: nat)
  {
    p + n <= |text| && forall k :: p <= k < p + n ==> IsDigit(text[k])
  }

  /** The literal text between `\)` and `[-\.\s]*` in the second alternative:
      a line break and 24 spaces. */
  const Gap: string := "\n                        "

  lemma GapIsSeparators()
    ensures |Gap| == 25 && Gap[0] == '\n'
    ensures forall k :: 0 <= k < |Gap| ==> IsSep(Gap[k]) && !IsDigit(Gap[k])
  {
    assert forall k :: 1 <= k < |Gap| ==> Gap[k] == ' ';
  }

  /** `[-\.\s]??\d{n}` at `p`, trying the lazy `??` without a separator
      first. Returns where the match ends. */
  function SepDigits(text: string, p: nat, n: nat): (r: Option<nat>)
    ensures r.Some? ==> r.value - n in {p, p + 1} && DigitsAt(text, r.value - n, n)
    ensures r.Some? && r.value - n == p + 1 ==> IsSep(text[p])
    ensures DigitsAt(text, p, n) || (p < |text| && IsSep(text[p]) && DigitsAt(text, p + 1, n)) ==> r.Some?
    ensures DigitsAt(text, p, n) ==> r == Some(p + n)
  {
    if DigitsAt(text, p, n) then Some(p + n)
    else if p < |text| && IsSep(text[p]) && DigitsAt(text, p + 1, n) then Some(p + 1 + n)
    else None
  }

  /** First alternative at `i`. When the first `??` cannot continue without a
      separator, the engine backtracks into it and takes one. */
  function TenDigits(text: string, i: nat): (r: Option<nat>)
  {
    if !DigitsAt(text, i, 3) then None
    else
      var s := i + 3;
      var bare := if DigitsAt(text, s, 3) then SepDigits(text, s + 3, 4) else None;
      if bare.Some? then bare
      else if s < |text| && IsSep(text[s]) && DigitsAt(text, s + 1, 3) then SepDigits(text, s + 4, 4)
      else None
  }

  /** Second alternative at `i`. The greedy `[-\.\s]*` never gives characters
      back usefully: what follows it must start with a digit, and a character it
      gave back would be a separator. */
  function ParenForm(text: string, i: nat): (r: Option<nat>)
  {
    if ParenOpening(text, i) then
      var q := RunEnd(text, i + 5 + |Gap|, IsSep);
      if DigitsAt(text, q, 3) then SepDigits(text, q + 3, 4) else None
    else None
  }

  /** Third alternative at `i`. */
  function SevenDigits(text: string, i: nat): (r: Option<nat>)
  {
    if DigitsAt(text, i, 3) then SepDigits(text, i + 3, 4) else None
  }

  /** Where the built-in pattern's match starting at `i` ends, if it has one. */
  function PhoneAt(text: string, i: nat): (r: Option<nat>)
  {
    var ten := TenDigits(text, i);
    if ten.Some? then ten
    else
      var paren := ParenForm(text, i);
      if paren.Some? then paren else SevenDigits(text, i)
  }

  /** What the pattern matches at each start position. */
  function PhoneStarts(text: string): (s: seq<Option<nat>>)
    ensures |s| == |text|
    ensures forall i :: 0 <= i < |text| ==> s[i] == PhoneAt(text, i)
  {
    seq(|text|, i requires 0 <= i < |text| => PhoneAt(text, i))
  }

  /** The first match of the built-in pattern: its start and end. No match
      starts earlier, and there is none at all exactly when no position starts
      one. */
  function FirstPhone(text: string): (r: Option<(nat, nat)>)
    ensures r.None? <==> forall i :: 0 <= i < |text| ==> PhoneAt(text, i).None?
    ensures r.Some? ==> r.value.0 < |text| && PhoneAt(text, r.value.0) == Some(r.value.1)
    ensures r.Some? ==> forall i :: 0 <= i < r.value.0 ==> PhoneAt(text, i).None?
  {
    Leftmost(PhoneStarts(text), 0)
  }

  /** `m` is the text of the leftmost match of the built-in pattern: a match
      starts at `i`, ends where `m` ends, and no match starts earlier. */
  predicate IsLeftmostMatch(text: string, m: string)
  {
    exists i :: 0 <= i && i + |m| <= |text| && PhoneAt(text, i) == Some(i + |m|) && text[i..i + |m|] == m
      && forall k :: 0 <= k < i ==> PhoneAt(text, k).None?
  }

  /** The built-in pattern's result: the text of its first match. With one
      group in the pattern, `"".join(phone[0])` is that text itself. */
  function DefaultPhone(text: string): (r: Option<string>)
    ensures r.None? <==> forall i :: 0 <= i < |text| ==> PhoneAt(text, i).None?
    ensures r.Some? ==> IsLeftmostMatch(text, r.value)
  {
    match FirstPhone(text)
    case None => None
    case Some((i, e)) =>
      if i <= e <= |text| then
        LeftmostMatchAt(text, i, e);
        Some(text[i..e])
      else None
  }

  lemma LeftmostMatchAt(text: string, i: nat, e: nat)
    requires i <= e <= |text| && PhoneAt(text, i) == Some(e)
    requires forall k :: 0 <= k < i ==> PhoneAt(text, k).None?
    ensures IsLeftmostMatch(text, text[i..e])
  {
    assert text[i..e] == text[i..i + |text[i..e]|];
  }

  // Digit counting

  function DigitCount(s: string): nat
    decreases |s|
  {
    if |s| == 0 then 0 else (if IsDigit(s[0]) then 1 else 0) + DigitCount(s[1..])
  }

  lemma {:induction false} DigitCountAppend(a: string, b: string)
    ensures DigitCount(a + b) == DigitCount(a) + DigitCount(b)
    decreases |a|
  {
    if |a| == 0 {
      assert a + b == b;
    } else {
      assert (a + b)[0] == a[0];
      assert (a + b)[1..] == a[1..] + b;
      DigitCountAppend(a[1..], b);
    }
  }

  lemma DigitCountSplit(text: string, lo: nat, mid: nat, hi: nat)
    requires lo <= mid <= hi <= |text|
    ensures DigitCount(text[lo..hi]) == DigitCount(text[lo..mid]) + DigitCount(text[mid..hi])
  {
    assert text[lo..hi] == text[lo..mid] + text[mid..hi];
    DigitCountAppend(text[lo..mid], text[mid..hi]);
  }

  lemma {:induction false} DigitCountAll(s: string)
    requires forall k :: 0 <= k < |s| ==> IsDigit(s[k])
    ensures DigitCount(s) == |s|
    decreases |s|
  {
    if |s| > 0 {
      DigitCountAll(s[1..]);
    }
  }

  lemma SepNotDigit(c: char)
    requires IsSep(c)
    ensures !IsDigit(c)
  {
  }

  /** A run of `n` digits counts `n`. */
  lemma DigitsCount(text: string, p: nat, n: nat)
    requires DigitsAt(text, p, n)
    ensures DigitCount(text[p..p + n]) == n
  {
    DigitCountAll(text[p..p + n]);
  }

  /** A stretch without digits counts nothing. */
  lemma NoDigitsCount(text: string, lo: nat, hi: nat)
    requires lo <= hi <= |text|
    requires forall k :: lo <= k < hi ==> !IsDigit(text[k])
    ensures DigitCount(text[lo..hi]) == 0
  {
    NoDigitCount(text[lo..hi]);
  }

  /** A single separator counts nothing. */
  lemma SepCount(text: string, p: nat)
    requires p < |text| && IsSep(text[p])
    ensures DigitCount(text[p..p + 1]) == 0
  {
    SepNotDigit(text[p]);
    NoDigitsCount(text, p, p + 1);
  }

  /** The characters of `text[lo..hi]` all belong to a phone number. */
  predicate PhoneChars(text: string, lo: nat, hi: nat)
  {
    hi <= |text| && forall k :: lo <= k < hi ==> PhoneChar(text[k])
  }

  /** What `[-\.\s]??\d{n}` consumes holds `n` digits and ends with one. */
  lemma SepDigitsShape(text: string, p: nat, n: nat) returns (e: nat)
    requires n > 0 && SepDigits(text, p, n).Some?
    ensures e == SepDigits(text, p, n).value
    ensures p + n <= e <= |text| && IsDigit(text[e - 1])
    ensures DigitCount(text[p..e]) == n && PhoneChars(text, p, e)
  {
    e := SepDigits(text, p, n).value;
    if e - n == p {
      DigitsCount(text, p, n);
    } else {
      SepCount(text, p);
      DigitsCount(text, p + 1, n);
      DigitCountSplit(text, p, p + 1, e);
    }
  }

  /** A match of the first alternative holds ten digits. */
  lemma TenDigitsShape(text: string, i: nat) returns (e: nat)
    requires TenDigits(text, i).Some?
    ensures e == TenDigits(text, i).value
    ensures i + 10 <= e <= |text| && IsDigit(text[i]) && IsDigit(text[e - 1])
    ensures DigitCount(text[i..e]) == 10 && PhoneChars(text, i, e)
  {
    e := TenDigits(text, i).value;
    var s := i + 3;
    DigitsCount(text, i, 3);
    var bare := if DigitsAt(text, s, 3) then SepDigits(text, s + 3, 4) else None;
    if bare.Some? {
      DigitsCount(text, s, 3);
      var e' := SepDigitsShape(text, s + 3, 4);
      DigitCountSplit(text, s, s + 3, e);
    } else {
      SepCount(text, s);
      DigitsCount(text, s + 1, 3);
      var e' := SepDigitsShape(text, s + 4, 4);
      DigitCountSplit(text, s + 1, s + 4, e);
      DigitCountSplit(text, s, s + 1, e);
    }
    DigitCountSplit(text, i, s, e);
  }

  /** The opening of the second alternative, `\(\d{3}\)` and the line break
      with its spaces. */
  predicate ParenOpening(text: string, i: nat)
  {
    i + 5 + |Gap| <= |text| && text[i] == '(' && DigitsAt(text, i + 1, 3) && text[i + 4] == ')'
    && text[i + 5..i + 5 + |Gap|] == Gap
  }

  /** The line break and spaces in the text are separators. */
  lemma GapInText(text: string, lo: nat)
    requires lo + |Gap| <= |text| && text[lo..lo + |Gap|] == Gap
    ensures text[lo] == '\n'
    ensures forall k :: lo <= k < lo + |Gap| ==> IsSep(text[k]) && !IsDigit(text[k])
  {
    GapIsSeparators();
    assert forall k :: lo <= k < lo + |Gap| ==> text[k] == Gap[k - lo];
  }

  lemma ParenOpeningChars(text: string, i: nat)
    requires ParenOpening(text, i)
    ensures text[i + 5] == '\n' && PhoneChars(text, i, i + 5 + |Gap|)
  {
    GapInText(text, i + 5);
    forall k | i <= k < i + 5 + |Gap|
      ensures PhoneChar(text[k])
    {
      if k == i || k == i + 4 {
      } else if k < i + 4 {
        assert IsDigit(text[k]);
      } else {
        assert IsSep(text[k]);
      }
    }
  }

  lemma ParenOpeningCount(text: string, i: nat)
    requires ParenOpening(text, i)
    ensures DigitCount(text[i..i + 5 + |Gap|]) == 3
  {
    var g := i + 5 + |Gap|;
    GapInText(text, i + 5);
    DigitsCount(text, i + 1, 3);
    NoDigitsCount(text, i, i + 1);
    NoDigitsCount(text, i + 4, g);
    DigitCountSplit(text, i, i + 1, i + 4);
    DigitCountSplit(text, i, i + 4, g);
  }

  /** What `[-\.\s]*` consumes counts no digit. */
  lemma SepRunShape(text: string, g: nat)
    requires g <= |text|
    ensures DigitCount(text[g..RunEnd(text, g, IsSep)]) == 0 && PhoneChars(text, g, RunEnd(text, g, IsSep))
  {
    var q := RunEnd(text, g, IsSep);
    forall k | g <= k < q
      ensures !IsDigit(text[k])
    {
      SepNotDigit(text[k]);
    }
    NoDigitsCount(text, g, q);
  }

  /** After the gap, `[-\.\s]*\d{3}[-\.\s]??\d{4}` consumes seven digits and
      separators and ends with a digit. */
  lemma ParenTailShape(text: string, g: nat) returns (e: nat)
    requires g <= |text|
    requires DigitsAt(text, RunEnd(text, g, IsSep), 3)
    requires SepDigits(text, RunEnd(text, g, IsSep) + 3, 4).Some?
    ensures e == SepDigits(text, RunEnd(text, g, IsSep) + 3, 4).value
    ensures g + 7 <= e <= |text| && IsDigit(text[e - 1])
    ensures DigitCount(text[g..e]) == 7 && PhoneChars(text, g, e)
  {
    var q := RunEnd(text, g, IsSep);
    assert DigitCount(text[g..q]) == 0 && PhoneChars(text, g, q) by {
      SepRunShape(text, g);
    }
    assert DigitCount(text[q..q + 3]) == 3 by {
      DigitsCount(text, q, 3);
    }
    e := SepDigitsShape(text, q + 3, 4);
    TailCount(text, g, q, e);
  }

  /** A separator run, three digits and a four-digit stretch hold seven
      digits together. */
  lemma TailCount(text: string, g: nat, q: nat, e: nat)
    requires g <= q && q + 3 <= e <= |text|
    requires DigitCount(text[g..q]) == 0 && DigitCount(text[q..q + 3]) == 3 && DigitCount(text[q + 3..e]) == 4
    requires PhoneChars(text, g, q) && DigitsAt(text, q, 3) && PhoneChars(text, q + 3, e)
    ensures DigitCount(text[g..e]) == 7 && PhoneChars(text, g, e)
  {
    DigitCountSplit(text, q, q + 3, e);
    DigitCountSplit(text, g, q, e);
  }

  /** A match of the second alternative holds ten digits, starts with `(`
      and spans a line break. */
  lemma ParenFormShape(text: string, i: nat) returns (e: nat)
    requires ParenForm(text, i).Some?
    ensures e == ParenForm(text, i).value
    ensures i + 5 + |Gap| + 7 <= e <= |text| && text[i] == '(' && text[i + 5] == '\n' && IsDigit(text[e - 1])
    ensures DigitCount(text[i..e]) == 10 && PhoneChars(text, i, e)
  {
    var g := i + 5 + |Gap|;
    assert ParenOpening(text, i);
    ParenOpeningChars(text, i);
    ParenOpeningCount(text, i);
    e := ParenTailShape(text, g);
    DigitCountSplit(text, i, g, e);
  }

  lemma {:induction false} NoDigitCount(s: string)
    requires forall k :: 0 <= k < |s| ==> !IsDigit(s[k])
    ensures DigitCount(s) == 0
    decreases |s|
  {
    if |s| > 0 {
      NoDigitCount(s[1..]);
    }
  }

  /** A match of the third alternative holds seven digits. */
  lemma SevenDigitsShape(text: string, i: nat) returns (e: nat)
    requires SevenDigits(text, i).Some?
    ensures e == SevenDigits(text, i).value
    ensures i + 7 <= e <= |text| && IsDigit(text[i]) && IsDigit(text[e - 1])
    ensures DigitCount(text[i..e]) == 7 && PhoneChars(text, i, e)
  {
    e := SevenDigits(text, i).value;
    DigitsCount(text, i, 3);
    var e' := SepDigitsShape(text, i + 3, 4);
    DigitCountSplit(text, i, i + 3, e);
  }

  /** Any match of the built-in pattern holds seven or ten digits, separators
      and brackets only; it ends with a digit and starts with one, unless it is
      the bracketed form, which spans a line break. */
  lemma PhoneAtShape(text: string, i: nat) returns (e: nat)
    requires PhoneAt(text, i).Some?
    ensures e == PhoneAt(text, i).value
    ensures i < e <= |text| && IsDigit(text[e - 1]) && PhoneChars(text, i, e)
    ensures DigitCount(text[i..e]) in {7, 10}
    ensures IsDigit(text[i]) || (text[i] == '(' && i + 5 < e && text[i + 5] == '\n')
  {
    if TenDigits(text, i).Some? {
      e := TenDigitsShape(text, i);
    } else if ParenForm(text, i).Some? {
      e := ParenFormShape(text, i);
    } else {
      e := SevenDigitsShape(text, i);
    }
  }

  /** The number the built-in pattern finds has the form of a phone number. */
  lemma NumberShape(text: string)
    ensures DefaultPhone(text).Some? ==> NumberForm(DefaultPhone(text).value)
  {
    if DefaultPhone(text).Some? {
      var first := FirstPhone(text).value;
      var i := first.0;
      var e := PhoneAtShape(text, i);
      assert DefaultPhone(text) == Some(text[i..e]);
      MatchForm(text, i, e);
    }
  }

  /** In text without line breaks the bracketed alternative cannot match, so
      the number found starts with a digit. */
  lemma NumberWithoutLineBreaks(text: string)
    requires '\n' !in text && DefaultPhone(text).Some?
    ensures NumberForm(DefaultPhone(text).value) && IsDigit(DefaultPhone(text).value[0])
  {
    NumberShape(text);
    var i := FirstPhone(text).value.0;
    var e := PhoneAtShape(text, i);
    assert DefaultPhone(text) == Some(text[i..e]);
    assert i + 5 < |text| ==> text[i + 5] in text;
  }

  /** Seven or ten digits and nothing but digits, separators and brackets;
      the last character a digit, and the first one a digit too unless the
      string is the bracketed form, which holds a line break. */
  predicate NumberForm(m: string)
  {
    && |m| >= 7 && DigitCount(m) in {7, 10} && IsDigit(m[|m| - 1])
    && (forall k :: 0 <= k < |m| ==> PhoneChar(m[k]))
    && (IsDigit(m[0]) || (m[0] == '(' && '\n' in m))
  }

  lemma MatchForm(text: string, i: nat, e: nat)
    requires i < e <= |text| && IsDigit(text[e - 1]) && PhoneChars(text, i, e)
    requires DigitCount(text[i..e]) in {7, 10}
    requires IsDigit(text[i]) || (text[i] == '(' && i + 5 < e && text[i + 5] == '\n')
    ensures NumberForm(text[i..e])
  {
    var m := text[i..e];
    assert forall k :: 0 <= k < |m| ==> m[k] == text[i + k];
    assert |m| >= 7 by {
      if |m| < 7 {
        LengthBoundsCount(m);
      }
    }
    if !IsDigit(m[0]) {
      assert m[5] == '\n';
    }
  }

  lemma {:induction false} LengthBoundsCount(s: string)
    ensures DigitCount(s) <= |s|
    decreases |s|
  {
    if |s| > 0 {
      LengthBoundsCount(s[1..]);
    }
  }

  /** Seven digits in a row anywhere are found: the result starts there or
      earlier. */
  lemma SevenInARowFound(text: string, p: nat)
    requires DigitsAt(text, p, 7)
    ensures FirstPhone(text).Some? && FirstPhone(text).value.0 <= p
  {
    assert DigitsAt(text, p + 3, 4);
    assert SevenDigits(text, p).Some?;
    assert PhoneAt(text, p).Some?;
  }

  /** The layout of the first alternative at `i`: three digits, an optional
      separator (`a` is 1 when present), three digits, an optional separator
      (`b`), four digits. */
  predicate TenForm(text: string, i: nat, a: nat, b: nat)
  {
    && a <= 1 && b <= 1
    && DigitsAt(text, i, 3) && DigitsAt(text, i + 3 + a, 3) && DigitsAt(text, i + 6 + a + b, 4)
    && (a == 1 ==> IsSep(text[i + 3]))
    && (b == 1 ==> IsSep(text[i + 6 + a]))
  }

  /** The layout of the third alternative at `i`: three digits, an optional
      separator (`b`), four digits. */
  predicate SevenForm(text: string, i: nat, b: nat)
  {
    && b <= 1
    && DigitsAt(text, i, 3) && DigitsAt(text, i + 3 + b, 4)
    && (b == 1 ==> IsSep(text[i + 3]))
  }

  /** Ten digits laid out as the first alternative allows match there, and the
      match takes exactly those characters: separators are accepted where the
      pattern has `[-\.\s]??`, and this alternative wins over the others. */
  lemma TenFormMatches(text: string, i: nat, a: nat, b: nat)
    requires TenForm(text, i, a, b)
    ensures PhoneAt(text, i) == Some(i + 10 + a + b)
  {
    if a == 1 {
      SepNotDigit(text[i + 3]);
    }
    if b == 1 {
      SepNotDigit(text[i + 6 + a]);
    }
  }

  /** Seven digits laid out as the third alternative allows match there, and
      the match reaches at least their end. */
  lemma SevenFormMatches(text: string, i: nat, b: nat)
    requires SevenForm(text, i, b)
    ensures PhoneAt(text, i).Some? && i + 7 + b <= PhoneAt(text, i).value
  {
    if b == 1 {
      SepNotDigit(text[i + 3]);
    }
    assert !ParenOpening(text, i);
    if TenDigits(text, i).Some? {
      var e := TenDigitsShape(text, i);
    }
  }

  /** Where no ten-digit layout starts, a seven-digit layout is the match: the
      first alternative is tried before the third. */
  lemma SevenFormOnly(text: string, i: nat, b: nat)
    requires SevenForm(text, i, b)
    requires forall a, b' :: !TenForm(text, i, a, b')
    ensures PhoneAt(text, i) == Some(i + 7 + b)
  {
    if b == 1 {
      SepNotDigit(text[i + 3]);
    }
    assert !ParenOpening(text, i);
    if TenDigits(text, i).Some? {
      var a, b' := TenDigitsForm(text, i);
      assert false;
    }
  }

  /** A first-alternative match has a ten-digit layout that ends where the
      match ends. */
  lemma TenDigitsForm(text: string, i: nat) returns (a: nat, b: nat)
    requires TenDigits(text, i).Some?
    ensures TenForm(text, i, a, b) && TenDigits(text, i) == Some(i + 10 + a + b)
  {
    var s := i + 3;
    var bare := if DigitsAt(text, s, 3) then SepDigits(text, s + 3, 4) else None;
    if bare.Some? {
      a := 0;
      b := bare.value - 4 - (s + 3);
    } else {
      a := 1;
      b := TenDigits(text, i).value - 4 - (s + 4);
    }
  }

  /** Conversely, every match of the built-in pattern is a ten-digit layout,
      the bracketed form, or a seven-digit layout where no ten-digit layout
      starts; the layout ends where the match ends. */
  lemma PhoneAtLayout(text: string, i: nat)
    requires PhoneAt(text, i).Some?
    ensures var e := PhoneAt(text, i).value;
      || (exists a, b :: TenForm(text, i, a, b) && e == i + 10 + a + b)
      || ParenOpening(text, i)
      || ((exists b :: SevenForm(text, i, b) && e == i + 7 + b) && forall a, b :: !TenForm(text, i, a, b))
  {
    var e := PhoneAt(text, i).value;
    if TenDigits(text, i).Some? {
      var a, b := TenDigitsForm(text, i);
    } else if !ParenOpening(text, i) {
      var b := SevenDigits(text, i).value - 4 - (i + 3);
      assert SevenForm(text, i, b) && e == i + 7 + b;
      forall a, b' ensures !TenForm(text, i, a, b') {
        if TenForm(text, i, a, b') {
          TenFormMatchesFirst(text, i, a, b');
        }
      }
    }
  }

  /** A ten-digit layout is matched by the first alternative itself. */
  lemma TenFormMatchesFirst(text: string, i: nat, a: nat, b: nat)
    requires TenForm(text, i, a, b)
    ensures TenDigits(text, i).Some?
  {
    if a == 1 {
      SepNotDigit(text[i + 3]);
    }
    if b == 1 {
      SepNotDigit(text[i + 6 + a]);
    }
  }

  /** A text without a digit yields no number. */
  lemma NoDigitNoNumber(text: string)
    requires forall k :: 0 <= k < |text| ==> !IsDigit(text[k])
    ensures DefaultPhone(text).None?
  {
    forall i | 0 <= i < |text|
      ensures PhoneAt(text, i).None?
    {
      if PhoneAt(text, i).Some? {
        var e := PhoneAtShape(text, i);
      }
    }
  }

  /** An element of `re.findall`'s result: the match text when the pattern
      has at most one group, the tuple of its groups otherwise. */
  datatype Found = Text(s: string) | Groups(parts: seq<string>)

  /** `"".join(parts)`. */
  function Concat(parts: seq<string>): (r: string)
    decreases |parts|
  {
    if |parts| == 0 then "" else parts[0] + Concat(parts[1..])
  }

  lemma {:induction false} ConcatAppend(a: seq<string>, b: seq<string>)
    ensures Concat(a + b) == Concat(a) + Concat(b)
    decreases |a|
  {
    if |a| == 0 {
      assert a + b == b;
    } else {
      assert (a + b)[1..] == a[1..] + b;
      ConcatAppend(a[1..], b);
    }
  }

  /** `"".join(phone[0])`: joining a string character by character gives it
      back, and joining a tuple of groups lays the groups whole, in order,
      end to end. */
  function JoinFound(f: Found): (r: string)
    ensures f.Text? ==> r == f.s
    ensures f.Groups? ==> |r| == TotalLength(f.parts)
    ensures f.Groups? ==> LaidEndToEnd(f.parts, r)
  {
    match f
    case Text(s) => s
    case Groups(parts) => ConcatLength(parts); ConcatContents(parts); Concat(parts)
  }

  function TotalLength(parts: seq<string>): nat
    decreases |parts|
  {
    if |parts| == 0 then 0 else |parts[0]| + TotalLength(parts[1..])
  }

  lemma {:induction false} ConcatLength(parts: seq<string>)
    ensures |Concat(parts)| == TotalLength(parts)
    decreases |parts|
  {
    if |parts| > 0 {
      ConcatLength(parts[1..]);
    }
  }

  /** `r` holds each part whole, right after the parts before it. */
  predicate LaidEndToEnd(parts: seq<string>, r: string)
  {
    forall i :: 0 <= i < |parts| ==>
      && TotalLength(parts[..i]) + |parts[i]| <= |r|
      && r[TotalLength(parts[..i])..TotalLength(parts[..i]) + |parts[i]|] == parts[i]
  }

  /** Part `i` sits in the join right after the parts before it. */
  lemma ConcatAt(parts: seq<string>, i: nat)
    requires i < |parts|
    ensures TotalLength(parts[..i]) + |parts[i]| <= |Concat(parts)|
    ensures Concat(parts)[TotalLength(parts[..i])..TotalLength(parts[..i]) + |parts[i]|] == parts[i]
  {
    var before, rest := parts[..i], parts[i + 1..];
    assert parts == before + ([parts[i]] + rest);
    assert ([parts[i]] + rest)[1..] == rest;
    ConcatAppend(before, [parts[i]] + rest);
    ConcatLength(before);
    var a, c := Concat(before), Concat(rest);
    assert Concat(parts) == a + (parts[i] + c);
    assert (a + (parts[i] + c))[|a|..|a| + |parts[i]|] == parts[i];
  }

  /** `"".join(parts)` lays every part whole, in order, end to end. */
  lemma ConcatContents(parts: seq<string>)
    ensures LaidEndToEnd(parts, Concat(parts))
  {
    forall i | 0 <= i < |parts|
      ensures TotalLength(parts[..i]) + |parts[i]| <= |Concat(parts)|
      ensures Concat(parts)[TotalLength(parts[..i])..TotalLength(parts[..i]) + |parts[i]|] == parts[i]
    {
      ConcatAt(parts, i);
    }
  }

  /** `extract_mobile_number(text, custom_regex)`. A missing or empty
      `custom_regex` selects the built-in pattern. A custom pattern is run by
      the caller's engine, which supplies the first element of its `findall`
      result, or `None` when the list is empty. */
  function ExtractMobileNumber(text: string, customRegex: Option<string>, customFirst: Option<Found>): (r: Option<string>)
    ensures (customRegex.None? || customRegex == Some("")) ==>
              (r.None? <==> forall i :: 0 <= i < |text| ==> PhoneAt(text, i).None?)
    ensures (customRegex.None? || customRegex == Some("")) && r.Some? ==> IsLeftmostMatch(text, r.value)
    ensures customRegex.Some? && customRegex != Some("") ==> (r.None? <==> customFirst.None?)
    ensures customRegex.Some? && customRegex != Some("") && customFirst.Some? ==> r == Some(JoinFound(customFirst.value))
  {
    if customRegex.None? || customRegex.value == "" then DefaultPhone(text)
    else
      match customFirst
      case None => None
      case Some(f) => Some(JoinFound(f))
  }
}
