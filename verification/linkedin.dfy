/** The profile-link extractor `extract_linkedin` (utils.py:189-205). The
    pattern `linkedin.com/in/([A-Za-z0-9_-]+)` has an unescaped `.`, which
    matches any character except a line break. The first element of
    `re.findall` is the handle of the leftmost match, and the result is the
    canonical profile URL built from it. */
module LinkedIn {
  import opened Wrappers
  import opened Search

  /** `[A-Za-z0-9_-]`. */
  predicate HandleChar(c: char)
  {
    ('A' <= c <= 'Z') || ('a' <= c <= 'z') || ('0' <= c <= '9') || c == '_' || c == '-'
  }

  const UrlPrefix: string := "https://www.linkedin.com/in/"

  /** `linkedin.com/in/` at `i`, the `.` standing for any character but a
      line break. */
  predicate LinkAt(text: string, i: nat)
  {
    && i + 16 <= |text|
    && text[i..i + 8] == "linkedin"
    && text[i + 8] != '\n'
    && text[i + 9..i + 16] == "com/in/"
  }

  /** The pattern matches at `i`: the link text and at least one handle
      character after it. */
  predicate ProfileAt(text: string, i: nat)
  {
    LinkAt(text, i) && i + 16 < |text| && HandleChar(text[i + 16])
  }

  /** The handle captured at `i`: the greedy `[A-Za-z0-9_-]+`. */
  function HandleAt(text: string, i: nat): (r: Option<string>)
    ensures r.Some? <==> ProfileAt(text, i)
    ensures r.Some? ==> |r.value| > 0 && forall k :: 0 <= k < |r.value| ==> HandleChar(r.value[k])
  {
    if ProfileAt(text, i) then Some(text[i + 16..RunEnd(text, i + 16, HandleChar)]) else None
  }

  function HandleStarts(text: string): (s: seq<Option<string>>)
    ensures |s| == |text|
    ensures forall i :: 0 <= i < |text| ==> s[i] == HandleAt(text, i)
  {
    seq(|text|, i requires 0 <= i < |text| => HandleAt(text, i))
  }

  /** `extract_linkedin(text)`: there is a result exactly when the pattern
      matches somewhere, and it is always a profile URL: the prefix followed
      by a non-empty handle. */
  function ExtractLinkedIn(text: string): (r: Option<string>)
    ensures r.None? <==> forall i :: 0 <= i < |text| ==> !ProfileAt(text, i)
    ensures r.Some? ==> |r.value| > |UrlPrefix| && r.value[..|UrlPrefix|] == UrlPrefix
    ensures r.Some? ==> forall k :: |UrlPrefix| <= k < |r.value| ==> HandleChar(r.value[k])
  {
    var starts := HandleStarts(text);
    var first := Leftmost(starts, 0);
    assert first.None? <==> forall i :: 0 <= i < |text| ==> !ProfileAt(text, i) by {
      assert forall i :: 0 <= i < |text| ==> (starts[i].None? <==> !ProfileAt(text, i));
    }
    match first
    case None => None
    case Some((_, handle)) => Some(UrlPrefix + handle)
  }

  /** The URL's handle is the longest run of handle characters after the
      leftmost `linkedin.com/in/`. */
  lemma LinkedInHandle(text: string) returns (i: nat, e: nat)
    requires ExtractLinkedIn(text).Some?
    ensures ProfileAt(text, i) && forall k :: 0 <= k < i ==> !ProfileAt(text, k)
    ensures i + 16 < e <= |text| && (forall k :: i + 16 <= k < e ==> HandleChar(text[k]))
    ensures e == |text| || !HandleChar(text[e])
    ensures ExtractLinkedIn(text) == Some(UrlPrefix + text[i + 16..e])
  {
    var starts := HandleStarts(text);
    var first := Leftmost(starts, 0).value;
    i := first.0;
    e := RunEnd(text, i + 16, HandleChar);
    assert starts[i] == HandleAt(text, i);
    forall k | 0 <= k < i
      ensures !ProfileAt(text, k)
    {
      assert starts[k] == HandleAt(text, k);
    }
  }

  /** A run of handle characters that stops at `e` is what the greedy
      repetition takes. */
  lemma HandleRun(text: string, lo: nat, e: nat)
    requires lo < e <= |text| && (forall k :: lo <= k < e ==> HandleChar(text[k]))
    requires e == |text| || !HandleChar(text[e])
    ensures RunEnd(text, lo, HandleChar) == e
  {
    RunEndAt(text, lo, e, HandleChar);
  }

  /** Extracting from a profile URL gives the URL back: the result is a fixed
      point of the extractor. */
  lemma ExtractLinkedInIdempotent(text: string)
    requires ExtractLinkedIn(text).Some?
    ensures ExtractLinkedIn(ExtractLinkedIn(text).value) == ExtractLinkedIn(text)
  {
    var i, e := LinkedInHandle(text);
    var h := text[i + 16..e];
    UrlRoundTrip(h);
  }

  /** The profile URL of a handle yields that handle. */
  lemma UrlRoundTrip(h: string)
    requires |h| > 0 && forall k :: 0 <= k < |h| ==> HandleChar(h[k])
    ensures ExtractLinkedIn(UrlPrefix + h) == Some(UrlPrefix + h)
  {
    var u := UrlPrefix + h;
    var starts := HandleStarts(u);
    assert ProfileAt(u, 12) by {
      assert u[12..20] == "linkedin";
      assert u[20] == '.';
      assert u[21..28] == "com/in/";
      assert u[28] == h[0];
    }
    forall k | 0 <= k < 12
      ensures starts[k].None?
    {
      assert u[k] != 'l';
      assert u[k..k + 8][0] == u[k];
    }
    assert forall k :: 28 <= k < |u| ==> u[k] == h[k - 28];
    HandleRun(u, 28, |u|);
    assert u[28..|u|] == h;
    assert starts[12] == Some(h);
    LeftmostIs(starts, 0, 12);
  }
}
