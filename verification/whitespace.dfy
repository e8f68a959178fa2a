/** Python's `str.split()` (no separator), `" ".join(words)` and the
    normaliser `" ".join(text.split())` that main.py applies to the decoded
    resume text before any field is extracted. */
module Whitespace {
  import opened Strings

  /** A piece `str.split()` can return: non-empty, no whitespace in it. */
  predicate IsWord(w: string)
  {
    |w| > 0 && forall k :: 0 <= k < |w| ==> !IsSpace(w[k])
  }

  predicate AllWords(ws: seq<string>)
  {
    forall i :: 0 <= i < |ws| ==> IsWord(ws[i])
  }

  /** Length of the run of non-whitespace characters that starts `s`. */
  function WordLength(s: string): (n: nat)
    ensures n <= |s|
    ensures forall k :: 0 <= k < n ==> !IsSpace(s[k])
    ensures n < |s| ==> IsSpace(s[n])
  {
    if |s| == 0 || IsSpace(s[0]) then 0 else 1 + WordLength(s[1..])
  }

  /** `s.split()`: the maximal runs of non-whitespace characters, in order. */
  function Split(s: string): (ws: seq<string>)
    ensures AllWords(ws)
    decreases |s|
  {
    if |s| == 0 then []
    else if IsSpace(s[0]) then Split(s[1..])
    else
      var n := WordLength(s);
      [s[..n]] + Split(s[n..])
  }

  /** `" ".join(ws)`. */
  function Join(ws: seq<string>): string
  {
    if |ws| == 0 then ""
    else if |ws| == 1 then ws[0]
    else ws[0] + " " + Join(ws[1..])
  }

  /** The normaliser of main.py:32: its result has the normalised shape and
      the same words as its input. */
  function Normalize(s: string): (r: string)
    ensures IsNormalized(r)
    ensures Split(r) == Split(s)
  {
    var ws := Split(s);
    JoinIsNormalized(ws);
    SplitJoin(ws);
    Join(ws)
  }

  /** The shape of normalised text: no whitespace at either end, no whitespace
      character other than the plain space, never two spaces in a row. */
  predicate IsNormalized(t: string)
  {
    && (|t| > 0 ==> !IsSpace(t[0]) && !IsSpace(t[|t| - 1]))
    && (forall k :: 0 <= k < |t| && IsSpace(t[k]) ==> t[k] == ' ')
    && (forall k :: 0 <= k < |t| - 1 ==> !(t[k] == ' ' && t[k + 1] == ' '))
  }

  /** A word followed by whitespace (or nothing) splits off as one word. */
  lemma SplitWordThen(w: string, t: string)
    requires IsWord(w)
    requires |t| == 0 || IsSpace(t[0])
    ensures Split(w + t) == [w] + Split(t)
  {
    var s := w + t;
    var n := WordLength(s);
    assert forall k :: 0 <= k < |w| ==> s[k] == w[k];
    assert |t| > 0 ==> s[|w|] == t[0];
    assert n == |w|;
    assert s[..n] == w;
    assert s[n..] == t;
  }

  /** A leading whitespace character is dropped by the split. */
  lemma SplitSpaceThen(c: char, t: string)
    requires IsSpace(c)
    ensures Split([c] + t) == Split(t)
  {
    assert ([c] + t)[1..] == t;
  }

  /** A leading run of whitespace is dropped by the split. */
  lemma {:induction false} SplitSpacesThen(g: string, t: string)
    requires forall k :: 0 <= k < |g| ==> IsSpace(g[k])
    ensures Split(g + t) == Split(t)
    decreases |g|
  {
    if |g| > 0 {
      assert g + t == [g[0]] + (g[1..] + t);
      SplitSpaceThen(g[0], g[1..] + t);
      SplitSpacesThen(g[1..], t);
    } else {
      assert g + t == t;
    }
  }

  /** The text made of the gaps `gaps[0]`, then `ws[0]`, `gaps[1]`, `ws[1]`,
      …, ending with the last gap. */
  function Layout(gaps: seq<string>, ws: seq<string>): string
    requires |gaps| == |ws| + 1
    decreases |ws|
  {
    if |ws| == 0 then gaps[0] else gaps[0] + (ws[0] + Layout(gaps[1..], ws[1..]))
  }

  /** Gaps that may stand between words: all whitespace, and non-empty
      between two words (the first and last gap may be empty). */
  predicate Separates(gaps: seq<string>, ws: seq<string>)
  {
    && |gaps| == |ws| + 1
    && (forall i, k :: 0 <= i < |gaps| && 0 <= k < |gaps[i]| ==> IsSpace(gaps[i][k]))
    && (forall i :: 0 < i < |ws| ==> |gaps[i]| > 0)
  }

  /** The declarative reading of `str.split()`: any text laid out as words
      separated by whitespace gaps splits into exactly those words. Since
      every text has such a layout, this fixes `Split` on every input. */
  lemma {:induction false} SplitLayout(gaps: seq<string>, ws: seq<string>)
    requires AllWords(ws) && Separates(gaps, ws)
    ensures Split(Layout(gaps, ws)) == ws
    decreases |ws|
  {
    if |ws| == 0 {
      SplitSpacesThen(gaps[0], "");
      assert gaps[0] + "" == gaps[0];
    } else {
      var rest := Layout(gaps[1..], ws[1..]);
      assert Separates(gaps[1..], ws[1..]) by {
        assert forall i :: 0 <= i < |gaps| - 1 ==> gaps[1..][i] == gaps[i + 1];
      }
      assert AllWords(ws[1..]) by {
        assert forall i :: 0 <= i < |ws| - 1 ==> ws[1..][i] == ws[i + 1];
      }
      SplitLayout(gaps[1..], ws[1..]);
      assert |rest| == 0 || IsSpace(rest[0]) by {
        if |ws| > 1 {
          assert |gaps[1]| > 0 && rest[0] == gaps[1][0];
        } else {
          assert rest == gaps[1];
          assert |rest| > 0 ==> IsSpace(gaps[1][0]);
        }
      }
      SplitSpacesThen(gaps[0], ws[0] + rest);
      SplitWordThen(ws[0], rest);
      assert ws == [ws[0]] + ws[1..];
    }
  }

  /** Conversely, every text is laid out as its own split words separated by
      whitespace gaps; with `SplitLayout`, `Split(s) == ws` holds exactly
      when `s` is a layout of the words `ws`. */
  lemma {:induction false} SplitHasLayout(s: string) returns (gaps: seq<string>)
    ensures Separates(gaps, Split(s)) && Layout(gaps, Split(s)) == s
    decreases |s|
  {
    if |s| == 0 {
      gaps := [""];
    } else if IsSpace(s[0]) {
      var inner := SplitHasLayout(s[1..]);
      gaps := LayoutAfterSpace(s, inner);
    } else {
      var n := WordLength(s);
      var inner := SplitHasLayout(s[n..]);
      gaps := LayoutAfterWord(s, n, inner);
    }
  }

  /** A leading whitespace character joins the first gap. */
  lemma LayoutAfterSpace(s: string, inner: seq<string>) returns (gaps: seq<string>)
    requires |s| > 0 && IsSpace(s[0])
    requires Separates(inner, Split(s[1..])) && Layout(inner, Split(s[1..])) == s[1..]
    ensures Separates(gaps, Split(s)) && Layout(gaps, Split(s)) == s
  {
    var ws := Split(s);
    gaps := [[s[0]] + inner[0]] + inner[1..];
    assert forall i :: 0 < i < |gaps| ==> gaps[i] == inner[i];
    if |ws| == 0 {
      assert Layout(gaps, ws) == [s[0]] + s[1..];
    } else {
      assert Layout(gaps, ws) == ([s[0]] + inner[0]) + (ws[0] + Layout(gaps[1..], ws[1..]));
      assert Layout(gaps, ws) == [s[0]] + Layout(inner, ws);
    }
    assert s == [s[0]] + s[1..];
  }

  /** A leading word comes after an empty first gap. */
  lemma LayoutAfterWord(s: string, n: nat, inner: seq<string>) returns (gaps: seq<string>)
    requires |s| > 0 && !IsSpace(s[0]) && n == WordLength(s)
    requires Separates(inner, Split(s[n..])) && Layout(inner, Split(s[n..])) == s[n..]
    ensures Separates(gaps, Split(s)) && Layout(gaps, Split(s)) == s
  {
    var ws := Split(s);
    var tail := Split(s[n..]);
    assert ws == [s[..n]] + tail;
    gaps := [""] + inner;
    assert |tail| > 0 ==> |inner[0]| > 0;
    assert forall i :: 0 < i < |gaps| ==> gaps[i] == inner[i - 1];
    assert gaps[1..] == inner && ws[1..] == tail;
    assert Layout(gaps, ws) == "" + (s[..n] + s[n..]);
    assert s == s[..n] + s[n..];
  }

  /** Splitting a join of words gives the words back. */
  lemma {:induction false} SplitJoin(ws: seq<string>)
    requires AllWords(ws)
    ensures Split(Join(ws)) == ws
    decreases |ws|
  {
    if |ws| == 0 {
    } else if |ws| == 1 {
      SplitWordThen(ws[0], "");
      assert ws[0] + "" == ws[0];
    } else {
      var rest := Join(ws[1..]);
      assert Join(ws) == ws[0] + (" " + rest);
      SplitWordThen(ws[0], " " + rest);
      assert (" " + rest)[1..] == rest;
      SplitJoin(ws[1..]);
      assert ws == [ws[0]] + ws[1..];
    }
  }

  /** Joining words with single spaces gives normalised text. */
  lemma {:induction false} JoinIsNormalized(ws: seq<string>)
    requires AllWords(ws)
    ensures IsNormalized(Join(ws))
    ensures |ws| > 0 ==> |Join(ws)| > 0
    decreases |ws|
  {
    if |ws| == 0 {
    } else if |ws| == 1 {
    } else {
      var w := ws[0];
      var j := Join(ws[1..]);
      JoinIsNormalized(ws[1..]);
      var t := w + " " + j;
      assert t == Join(ws);
      assert t[0] == w[0];
      assert t[|t| - 1] == j[|j| - 1];
      forall k | 0 <= k < |t|
        ensures IsSpace(t[k]) ==> t[k] == ' '
      {
        if k < |w| {
          assert t[k] == w[k];
        } else if k > |w| {
          assert t[k] == j[k - |w| - 1];
        }
      }
      forall k | 0 <= k < |t| - 1
        ensures !(t[k] == ' ' && t[k + 1] == ' ')
      {
        if k < |w| {
          assert t[k] == w[k];
        } else if k == |w| {
          assert t[k + 1] == j[0];
        } else {
          assert t[k] == j[k - |w| - 1] && t[k + 1] == j[k - |w|];
        }
      }
    }
  }

  /** Whitespace-only text splits into no words, and any other text into some. */
  lemma {:induction false} SplitEmptyIff(s: string)
    ensures Split(s) == [] <==> forall k :: 0 <= k < |s| ==> IsSpace(s[k])
    decreases |s|
  {
    if |s| > 0 && IsSpace(s[0]) {
      SplitEmptyIff(s[1..]);
      assert forall k :: 1 <= k < |s| ==> s[k] == s[1..][k - 1];
    }
  }

  /** Normalising twice is normalising once. */
  lemma NormalizeIdempotent(s: string)
    ensures Normalize(Normalize(s)) == Normalize(s)
  {
    var r := Normalize(s);
    assert Split(r) == Split(s);
  }

  /** Empty or all-whitespace text, and only such text, normalises to "". */
  lemma NormalizeEmptyIff(s: string)
    ensures Normalize(s) == "" <==> forall k :: 0 <= k < |s| ==> IsSpace(s[k])
  {
    SplitEmptyIff(s);
    JoinIsNormalized(Split(s));
  }
}
