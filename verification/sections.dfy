/** The section segmenter `extract_entity_sections_grad` (utils.py:142-186):
    one left-to-right pass over the stripped lines of the raw text that opens a
    section at every header line and files each later non-blank line under the
    section opened last. */
module Sections {
  import opened Wrappers
  import opened Strings
  import opened Whitespace

  /** The recognised section names (`RESUME_SECTIONS_GRAD`). */
  type Vocabulary = set<string>

  /** `list(candidates)[0]`: Python takes whichever element the set iterates
      first. The model leaves that choice to the caller. */
  type Picker = set<string> -> string

  ghost predicate ValidPicker(pick: Picker)
  {
    forall s: set<string> :: s != {} ==> pick(s) in s
  }

  /** Whether a stripped line opens a section: a one-character line when it is
      itself a section name, a longer line when one of its lower-cased words is. */
  predicate IsHeader(line: string, vocab: Vocabulary)
  {
    if |line| == 1 then line in vocab
    else exists w :: w in Split(Lower(line)) && w in vocab
  }

  /** The section a line opens, if any (utils.py:155-165). */
  function HeaderKey(line: string, vocab: Vocabulary, pick: Picker): (key: Option<string>)
    requires ValidPicker(pick)
    ensures key.Some? <==> IsHeader(line, vocab)
    ensures key.Some? ==> key.value in vocab
    ensures key.Some? && |line| == 1 ==> key.value == line
    ensures key.Some? && |line| != 1 ==> key.value in Split(Lower(line))
  {
    if |line| == 1 then
      if line in vocab then Some(line) else None
    else
      var hits := set w | w in Split(Lower(line)) && w in vocab;
      if hits == {} then
        assert forall w :: w in Split(Lower(line)) && w in vocab ==> w in hits;
        None
      else Some(pick(hits))
  }

  /** A line the segmenter files under the open section: not blank after `strip()`. */
  predicate IsContent(line: string)
  {
    Strip(line) != ""
  }

  /** How one stripped line drives the loop: it opens a section, is filed
      under the open one, or is skipped as blank. */
  datatype LineKind = Opens(key: string) | Content(text: string) | Skipped

  /** The classification the loop body makes before it updates its state
      (utils.py:155-166). */
  function Classify(line: string, vocab: Vocabulary, pick: Picker): (kind: LineKind)
    requires ValidPicker(pick)
    ensures kind.Opens? <==> IsHeader(line, vocab)
    ensures kind.Opens? ==> HeaderKey(line, vocab, pick) == Some(kind.key)
    ensures kind.Content? <==> !IsHeader(line, vocab) && IsContent(line)
    ensures kind.Content? ==> kind.text == line
  {
    match HeaderKey(line, vocab, pick)
    case Some(k) => Opens(k)
    case None => if IsContent(line) then Content(line) else Skipped
  }

  function Kinds(lines: seq<string>, vocab: Vocabulary, pick: Picker): (kinds: seq<LineKind>)
    requires ValidPicker(pick)
    ensures |kinds| == |lines|
    ensures forall i :: 0 <= i < |lines| ==> kinds[i] == Classify(lines[i], vocab, pick)
  {
    seq(|lines|, i requires 0 <= i < |lines| => Classify(lines[i], vocab, pick))
  }

  /** Every section a sequence of kinds opens is named from the vocabulary. */
  predicate KeyedFrom(kinds: seq<LineKind>, vocab: Vocabulary)
  {
    forall i :: 0 <= i < |kinds| && kinds[i].Opens? ==> kinds[i].key in vocab
  }

  /** `entities` and `key` of the loop; `key = False` is `current == None`. */
  datatype State = State(sections: map<string, seq<string>>, current: Option<string>)

  const Start := State(map[], None)

  /** The open section exists (so `entities[key].append` never raises) and every
      section is named from the vocabulary. */
  predicate Consistent(st: State, vocab: Vocabulary)
  {
    && (st.current.Some? ==> st.current.value in st.sections)
    && forall k :: k in st.sections ==> k in vocab
  }

  /** One iteration of the loop body (utils.py:163-167): a header resets its
      section to `[]` and makes it the open one; a content line is appended to
      the open section, if any. */
  function Step(st: State, kind: LineKind, vocab: Vocabulary): (next: State)
    requires Consistent(st, vocab)
    requires kind.Opens? ==> kind.key in vocab
    ensures Consistent(next, vocab)
  {
    match kind
    case Opens(k) => State(st.sections[k := []], Some(k))
    case Content(line) =>
      if st.current.Some? then
        var c := st.current.value;
        State(st.sections[c := st.sections[c] + [line]], st.current)
      else st
    case Skipped => st
  }

  /** The loop over the lines, as a left fold. */
  function Run(st: State, kinds: seq<LineKind>, vocab: Vocabulary): (last: State)
    requires Consistent(st, vocab)
    requires KeyedFrom(kinds, vocab)
    ensures Consistent(last, vocab)
    decreases |kinds|
  {
    if |kinds| == 0 then st
    else Run(Step(st, kinds[0], vocab), kinds[1..], vocab)
  }

  /** The sections found in a sequence of stripped lines. */
  function Segment(lines: seq<string>, vocab: Vocabulary, pick: Picker): (sections: map<string, seq<string>>)
    requires ValidPicker(pick)
    ensures forall k :: k in sections ==> k in vocab
  {
    Run(Start, Kinds(lines, vocab, pick), vocab).sections
  }

  /** `[i.strip() for i in text.split("\n")]` (utils.py:150). */
  function Lines(text: string): (lines: seq<string>)
    ensures |lines| == |SplitOn(text, '\n')|
    ensures forall i :: 0 <= i < |lines| ==> lines[i] == Strip(SplitOn(text, '\n')[i])
  {
    var parts := SplitOn(text, '\n');
    seq(|parts|, i requires 0 <= i < |parts| => Strip(parts[i]))
  }

  /** `extract_entity_sections_grad(text)`: every section it returns is named
      from the vocabulary. */
  function ExtractSections(text: string, vocab: Vocabulary, pick: Picker): (sections: map<string, seq<string>>)
    requires ValidPicker(pick)
    ensures forall k :: k in sections ==> k in vocab
  {
    Segment(Lines(text), vocab, pick)
  }

  // ---------------------------------------------------------------------------
  // Reference description of the result

  /** What a section opened just before `lines` collects: its content lines up
      to the next header line. */
  function Collected(lines: seq<string>, vocab: Vocabulary): (body: seq<string>)
    decreases |lines|
  {
    if |lines| == 0 || IsHeader(lines[0], vocab) then []
    else (if IsContent(lines[0]) then [lines[0]] else []) + Collected(lines[1..], vocab)
  }

  /** What `Collected` keeps are non-blank, non-header lines of its input. */
  lemma {:induction false} CollectedFrom(lines: seq<string>, vocab: Vocabulary, x: string)
    requires x in Collected(lines, vocab)
    ensures x in lines && IsContent(x) && !IsHeader(x, vocab)
    decreases |lines|
  {
    if x != lines[0] || !IsContent(lines[0]) {
      CollectedFrom(lines[1..], vocab, x);
    }
  }

  /** `Collected`, read off the classified lines. */
  function Body(kinds: seq<LineKind>): seq<string>
    decreases |kinds|
  {
    if |kinds| == 0 || kinds[0].Opens? then []
    else (if kinds[0].Content? then [kinds[0].text] else []) + Body(kinds[1..])
  }

  /** The position of the last header opening section `k`. */
  function LastOpening(kinds: seq<LineKind>, k: string): (r: Option<nat>)
    ensures r.None? <==> forall i :: 0 <= i < |kinds| ==> kinds[i] != Opens(k)
    ensures r.Some? ==> r.value < |kinds| && kinds[r.value] == Opens(k)
    ensures r.Some? ==> forall j :: r.value < j < |kinds| ==> kinds[j] != Opens(k)
    decreases |kinds|
  {
    if |kinds| == 0 then None
    else if kinds[|kinds| - 1] == Opens(k) then Some(|kinds| - 1)
    else LastOpening(kinds[..|kinds| - 1], k)
  }

  // ---------------------------------------------------------------------------
  // Proof

  lemma {:induction false} RunAppend(st: State, a: seq<LineKind>, b: seq<LineKind>, vocab: Vocabulary)
    requires Consistent(st, vocab)
    requires KeyedFrom(a, vocab) && KeyedFrom(b, vocab)
    ensures KeyedFrom(a + b, vocab)
    ensures Run(st, a + b, vocab) == Run(Run(st, a, vocab), b, vocab)
    decreases |a|
  {
    if |a| == 0 {
      assert a + b == b;
    } else {
      assert (a + b)[0] == a[0];
      assert (a + b)[1..] == a[1..] + b;
      RunAppend(Step(st, a[0], vocab), a[1..], b, vocab);
    }
  }

  /** No section is ever removed. */
  lemma {:induction false} RunKeepsKeys(st: State, kinds: seq<LineKind>, vocab: Vocabulary, k: string)
    requires Consistent(st, vocab) && KeyedFrom(kinds, vocab)
    requires k in st.sections
    ensures k in Run(st, kinds, vocab).sections
    decreases |kinds|
  {
    if |kinds| > 0 {
      RunKeepsKeys(Step(st, kinds[0], vocab), kinds[1..], vocab, k);
    }
  }

  /** A section no line opens never appears. */
  lemma {:induction false} RunAddsOnlyOpened(st: State, kinds: seq<LineKind>, vocab: Vocabulary, k: string)
    requires Consistent(st, vocab) && KeyedFrom(kinds, vocab)
    requires k !in st.sections
    requires forall i :: 0 <= i < |kinds| ==> kinds[i] != Opens(k)
    ensures k !in Run(st, kinds, vocab).sections
    decreases |kinds|
  {
    if |kinds| > 0 {
      RunAddsOnlyOpened(Step(st, kinds[0], vocab), kinds[1..], vocab, k);
    }
  }

  /** A section that is not open and is not opened again keeps its lines. */
  lemma {:induction false} RunLeavesClosed(st: State, kinds: seq<LineKind>, vocab: Vocabulary, k: string)
    requires Consistent(st, vocab) && KeyedFrom(kinds, vocab)
    requires k in st.sections && st.current != Some(k)
    requires forall i :: 0 <= i < |kinds| ==> kinds[i] != Opens(k)
    ensures k in Run(st, kinds, vocab).sections
    ensures Run(st, kinds, vocab).sections[k] == st.sections[k]
    decreases |kinds|
  {
    if |kinds| > 0 {
      RunLeavesClosed(Step(st, kinds[0], vocab), kinds[1..], vocab, k);
    }
  }

  /** The open section gains the body of the lines that follow, and nothing
      after the next header unless it is opened again. */
  lemma {:induction false} RunCollects(st: State, kinds: seq<LineKind>, vocab: Vocabulary, k: string)
    requires Consistent(st, vocab) && KeyedFrom(kinds, vocab)
    requires st.current == Some(k)
    requires forall i :: 0 <= i < |kinds| ==> kinds[i] != Opens(k)
    ensures k in Run(st, kinds, vocab).sections
    ensures Run(st, kinds, vocab).sections[k] == st.sections[k] + Body(kinds)
    decreases |kinds|
  {
    if |kinds| == 0 {
      assert st.sections[k] + [] == st.sections[k];
    } else {
      var next := Step(st, kinds[0], vocab);
      if kinds[0].Opens? {
        RunLeavesClosed(next, kinds[1..], vocab, k);
        assert st.sections[k] + [] == st.sections[k];
      } else {
        var added := if kinds[0].Content? then [kinds[0].text] else [];
        StepCollects(st, kinds[0], vocab, k);
        RunCollects(next, kinds[1..], vocab, k);
        assert Body(kinds) == added + Body(kinds[1..]);
        assert st.sections[k] + added + Body(kinds[1..]) == st.sections[k] + (added + Body(kinds[1..]));
      }
    }
  }

  /** A line that opens nothing leaves the open section open, with the line
      appended when it is content. */
  lemma StepCollects(st: State, kind: LineKind, vocab: Vocabulary, k: string)
    requires Consistent(st, vocab) && st.current == Some(k) && !kind.Opens?
    ensures var next := Step(st, kind, vocab);
      && next.current == Some(k) && k in next.sections
      && next.sections[k] == st.sections[k] + (if kind.Content? then [kind.text] else [])
  {
    if kind.Skipped? {
      assert st.sections[k] + [] == st.sections[k];
    }
  }

  /** The section opened at position `i` and not opened again holds the body
      after `i`. */
  lemma SectionFromLastOpening(kinds: seq<LineKind>, vocab: Vocabulary, i: nat, k: string)
    requires KeyedFrom(kinds, vocab)
    requires i < |kinds| && kinds[i] == Opens(k)
    requires forall j :: i < j < |kinds| ==> kinds[j] != Opens(k)
    ensures k in Run(Start, kinds, vocab).sections
    ensures Run(Start, kinds, vocab).sections[k] == Body(kinds[i + 1..])
  {
    var pre := kinds[..i];
    var post := kinds[i + 1..];
    assert kinds == pre + [Opens(k)] + post;
    RunAppend(Start, pre, [Opens(k)], vocab);
    RunAppend(Start, pre + [Opens(k)], post, vocab);
    var st := Run(Start, pre, vocab);
    assert Run(st, [Opens(k)], vocab) == Step(st, Opens(k), vocab);
    RunCollects(Step(st, Opens(k), vocab), post, vocab, k);
  }

  lemma {:induction false} BodyOfKinds(kinds: seq<LineKind>, lines: seq<string>, vocab: Vocabulary, pick: Picker)
    requires ValidPicker(pick)
    requires |kinds| == |lines|
    requires forall j :: 0 <= j < |lines| ==> kinds[j] == Classify(lines[j], vocab, pick)
    ensures Body(kinds) == Collected(lines, vocab)
    decreases |lines|
  {
    if |lines| > 0 {
      BodyOfKinds(kinds[1..], lines[1..], vocab, pick);
    }
  }

  lemma KindsAppend(a: seq<string>, b: seq<string>, vocab: Vocabulary, pick: Picker)
    requires ValidPicker(pick)
    ensures Kinds(a + b, vocab, pick) == Kinds(a, vocab, pick) + Kinds(b, vocab, pick)
  {
    var l := Kinds(a + b, vocab, pick);
    var r := Kinds(a, vocab, pick) + Kinds(b, vocab, pick);
    forall i | 0 <= i < |l|
      ensures l[i] == r[i]
    {
      if i < |a| {
        assert (a + b)[i] == a[i];
      } else {
        assert (a + b)[i] == b[i - |a|];
      }
    }
  }

  lemma KindsKeyed(lines: seq<string>, vocab: Vocabulary, pick: Picker)
    requires ValidPicker(pick)
    ensures KeyedFrom(Kinds(lines, vocab, pick), vocab)
  {
  }

  // ---------------------------------------------------------------------------
  // Properties

  /** A section is present exactly when some line opens it. */
  lemma SectionPresentIff(lines: seq<string>, vocab: Vocabulary, pick: Picker, k: string)
    requires ValidPicker(pick)
    ensures k in Segment(lines, vocab, pick)
        <==> exists i :: 0 <= i < |lines| && HeaderKey(lines[i], vocab, pick) == Some(k)
  {
    var kinds := Kinds(lines, vocab, pick);
    KindsKeyed(lines, vocab, pick);
    match LastOpening(kinds, k)
    case Some(i) =>
      SectionFromLastOpening(kinds, vocab, i, k);
      assert HeaderKey(lines[i], vocab, pick) == Some(k);
    case None =>
      RunAddsOnlyOpened(Start, kinds, vocab, k);
      forall i | 0 <= i < |lines|
        ensures HeaderKey(lines[i], vocab, pick) != Some(k)
      {
        assert kinds[i] != Opens(k);
      }
  }

  /** A section holds exactly the content lines between the LAST line that opens
      it and the next header line: a repeated header discards what the earlier
      occurrence collected. */
  lemma SectionContent(lines: seq<string>, vocab: Vocabulary, pick: Picker, i: nat)
    requires ValidPicker(pick)
    requires i < |lines| && IsHeader(lines[i], vocab)
    requires forall j :: i < j < |lines| ==> HeaderKey(lines[j], vocab, pick) != HeaderKey(lines[i], vocab, pick)
    ensures HeaderKey(lines[i], vocab, pick).value in Segment(lines, vocab, pick)
    ensures Segment(lines, vocab, pick)[HeaderKey(lines[i], vocab, pick).value] == Collected(lines[i + 1..], vocab)
  {
    var kinds := Kinds(lines, vocab, pick);
    KindsKeyed(lines, vocab, pick);
    var k := HeaderKey(lines[i], vocab, pick).value;
    assert kinds[i] == Opens(k);
    SectionFromLastOpening(kinds, vocab, i, k);
    BodyOfKinds(kinds[i + 1..], lines[i + 1..], vocab, pick);
  }

  /** The section `k` of the result, described by the last line opening it. */
  lemma LastOpeningOf(lines: seq<string>, vocab: Vocabulary, pick: Picker, k: string) returns (i: nat)
    requires ValidPicker(pick)
    requires k in Segment(lines, vocab, pick)
    ensures i < |lines| && HeaderKey(lines[i], vocab, pick) == Some(k)
    ensures forall j :: i < j < |lines| ==> HeaderKey(lines[j], vocab, pick) != Some(k)
    ensures Segment(lines, vocab, pick)[k] == Collected(lines[i + 1..], vocab)
  {
    var kinds := Kinds(lines, vocab, pick);
    KindsKeyed(lines, vocab, pick);
    if LastOpening(kinds, k).None? {
      RunAddsOnlyOpened(Start, kinds, vocab, k);
    }
    i := LastOpening(kinds, k).value;
    SectionFromLastOpening(kinds, vocab, i, k);
    BodyOfKinds(kinds[i + 1..], lines[i + 1..], vocab, pick);
  }

  /** Every filed line is a non-blank, non-header line that comes after a line
      opening its section. */
  lemma FiledLinesFollowTheirHeader(lines: seq<string>, vocab: Vocabulary, pick: Picker, k: string, x: string)
    requires ValidPicker(pick)
    requires k in Segment(lines, vocab, pick) && x in Segment(lines, vocab, pick)[k]
    ensures IsContent(x) && !IsHeader(x, vocab)
    ensures exists i, j :: 0 <= i < j < |lines| && HeaderKey(lines[i], vocab, pick) == Some(k) && lines[j] == x
  {
    var i := LastOpeningOf(lines, vocab, pick, k);
    var rest := lines[i + 1..];
    CollectedFrom(rest, vocab, x);
    var m :| 0 <= m < |rest| && rest[m] == x;
    assert lines[i + 1 + m] == x;
  }

  /** Lines before the first header are dropped. */
  lemma HeaderlessPrefixDropped(pre: seq<string>, rest: seq<string>, vocab: Vocabulary, pick: Picker)
    requires ValidPicker(pick)
    requires forall i :: 0 <= i < |pre| ==> !IsHeader(pre[i], vocab)
    ensures Segment(pre + rest, vocab, pick) == Segment(rest, vocab, pick)
  {
    var a := Kinds(pre, vocab, pick);
    var b := Kinds(rest, vocab, pick);
    KindsAppend(pre, rest, vocab, pick);
    KindsKeyed(pre, vocab, pick);
    KindsKeyed(rest, vocab, pick);
    RunAppend(Start, a, b, vocab);
    HeaderlessRunIsStart(a, vocab);
  }

  lemma {:induction false} HeaderlessRunIsStart(kinds: seq<LineKind>, vocab: Vocabulary)
    requires forall i :: 0 <= i < |kinds| ==> !kinds[i].Opens?
    ensures Run(Start, kinds, vocab) == Start
    decreases |kinds|
  {
    if |kinds| > 0 {
      HeaderlessRunIsStart(kinds[1..], vocab);
    }
  }
}
