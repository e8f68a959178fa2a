/** How Python's `re.search` and the first element of `re.findall` pick a
    match: the engine tries each start position from the left and keeps the
    first one where the pattern matches. A pattern is given here by the
    function that says what it matches at one start position. */
module Search {
  import opened Wrappers

  /** The first position at `from` or later where the pattern matches,
      given what it matches at each start position, with that match. */
  function Leftmost<T>(at: seq<Option<T>>, from: nat): (r: Option<(nat, T)>)
    requires from <= |at|
    ensures r.None? <==> forall i :: from <= i < |at| ==> at[i].None?
    ensures r.Some? ==> from <= r.value.0 < |at| && at[r.value.0] == Some(r.value.1)
    ensures r.Some? ==> forall i :: from <= i < r.value.0 ==> at[i].None?
    decreases |at| - from
  {
    if from == |at| then None
    else if at[from].Some? then Some((from, at[from].value))
    else Leftmost(at, from + 1)
  }

  /** The first position that matches is the one `Leftmost` finds. */
  lemma LeftmostIs<T>(at: seq<Option<T>>, from: nat, p: nat)
    requires from <= p < |at| && at[p].Some?
    requires forall i :: from <= i < p ==> at[i].None?
    ensures Leftmost(at, from) == Some((p, at[p].value))
  {
  }

  /** End of the run of characters satisfying `p` that starts at `i`: what a
      greedy `[...]*` consumes. */
  function RunEnd(text: string, i: nat, p: char -> bool): (e: nat)
    requires i <= |text|
    ensures i <= e <= |text|
    ensures forall k :: i <= k < e ==> p(text[k])
    ensures e < |text| ==> !p(text[e])
    decreases |text| - i
  {
    if i < |text| && p(text[i]) then RunEnd(text, i + 1, p) else i
  }

  /** A run that is known to stop at `e` ends there. */
  lemma RunEndAt(text: string, i: nat, e: nat, p: char -> bool)
    requires i <= e <= |text|
    requires forall k :: i <= k < e ==> p(text[k])
    requires e == |text| || !p(text[e])
    ensures RunEnd(text, i, p) == e
    decreases e - i
  {
    if i < e {
      RunEndAt(text, i + 1, e, p);
    }
  }

  /** A run covering `i..e` ends at `e` or later. */
  lemma RunEndAtLeast(text: string, i: nat, e: nat, p: char -> bool)
    requires i <= e <= |text|
    requires forall k :: i <= k < e ==> p(text[k])
    ensures e <= RunEnd(text, i, p)
    decreases e - i
  {
    if i < e {
      RunEndAtLeast(text, i + 1, e, p);
    }
  }
}
