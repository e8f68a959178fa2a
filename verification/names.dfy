/** The name picker `extract_name` (utils.py:53-69): the token matcher
    proposes candidate spans in document order, and the first one whose text
    does not mention "name" (in any case) is the candidate's name. */
module Names {
  import opened Wrappers
  import opened Strings

  /** `"name" in span.text.lower()`: a label such as "Name:" or "Full name". */
  predicate MentionsName(span: string)
  {
    Occurs("name", Lower(span))
  }

  /** The loop of utils.py:66-69 over the matched spans' texts. Returns
      `None` when the loop runs out, the implicit `return None`. */
  function ExtractName(spans: seq<string>): (r: Option<string>)
    ensures r.None? <==> forall i :: 0 <= i < |spans| ==> MentionsName(spans[i])
    ensures r.Some? ==> exists i :: 0 <= i < |spans| && spans[i] == r.value && !MentionsName(spans[i])
                          && forall k :: 0 <= k < i ==> MentionsName(spans[k])
    decreases |spans|
  {
    if |spans| == 0 then None
    else if !MentionsName(spans[0]) then Some(spans[0])
    else
      var r := ExtractName(spans[1..]);
      assert forall i :: 1 <= i < |spans| ==> spans[i] == spans[1..][i - 1];
      if r.Some? then
        var j :| 0 <= j < |spans[1..]| && spans[1..][j] == r.value && !MentionsName(spans[1..][j])
                 && forall k :: 0 <= k < j ==> MentionsName(spans[1..][k]);
        assert spans[j + 1] == r.value;
        r
      else r
  }

  /** Spans that mention "name" ahead of the first real candidate change
      nothing. */
  lemma {:induction false} LabelsSkipped(labels: seq<string>, rest: seq<string>)
    requires forall i :: 0 <= i < |labels| ==> MentionsName(labels[i])
    ensures ExtractName(labels + rest) == ExtractName(rest)
    decreases |labels|
  {
    if |labels| > 0 {
      assert (labels + rest)[0] == labels[0];
      assert (labels + rest)[1..] == labels[1..] + rest;
      LabelsSkipped(labels[1..], rest);
    } else {
      assert labels + rest == rest;
    }
  }
}
