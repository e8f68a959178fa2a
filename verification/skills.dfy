/** The skill matcher `extract_skills` (utils.py:114-139): non-stopword
    tokens and noun chunks are looked up in the vocabulary (the column names of
    the skills table), then lower-cased, deduplicated and capitalised. */
module Skills {
  import opened Strings
  import opened Seqs

  /** A token of the annotated text: its text and whether it is a stopword. */
  datatype Token = Token(text: string, isStop: bool)

  /** A token counts as a skill when it is not a stopword and its lower-cased
      text is a vocabulary entry (utils.py:122, 131). */
  predicate TokenMatches(t: Token, vocab: set<string>)
  {
    !t.isStop && Lower(t.text) in vocab
  }

  /** `chunk.text.lower().strip()` (utils.py:136): already lower-case. */
  function ChunkKey(chunk: string): (k: string)
    ensures HasNoUpper(k)
  {
    LowerIdempotent(chunk);
    StripKeepsNoUpper(Lower(chunk));
    Strip(Lower(chunk))
  }

  /** The one-gram pass (utils.py:130-132): the matching tokens' texts, as written. */
  function TokenHits(tokens: seq<Token>, vocab: set<string>): (hits: seq<string>)
    ensures forall x :: x in hits ==> exists i :: 0 <= i < |tokens| && TokenMatches(tokens[i], vocab) && tokens[i].text == x
    ensures forall i :: 0 <= i < |tokens| && TokenMatches(tokens[i], vocab) ==> tokens[i].text in hits
    decreases |tokens|
  {
    if |tokens| == 0 then []
    else
      var rest := TokenHits(tokens[1..], vocab);
      assert forall i :: 1 <= i < |tokens| ==> tokens[i] == tokens[1..][i - 1];
      (if TokenMatches(tokens[0], vocab) then [tokens[0].text] else []) + rest
  }

  /** The keys of the noun chunks, in order. */
  function ChunkKeys(chunks: seq<string>): (keys: seq<string>)
    ensures |keys| == |chunks|
    ensures forall j :: 0 <= j < |chunks| ==> keys[j] == ChunkKey(chunks[j])
  {
    seq(|chunks|, j requires 0 <= j < |chunks| => ChunkKey(chunks[j]))
  }

  /** The keys that are vocabulary entries, in order. */
  function InVocab(keys: seq<string>, vocab: set<string>): (hits: seq<string>)
    ensures forall x :: x in hits <==> x in keys && x in vocab
    decreases |keys|
  {
    if |keys| == 0 then []
    else (if keys[0] in vocab then [keys[0]] else []) + InVocab(keys[1..], vocab)
  }

  /** The noun-chunk pass (utils.py:135-138): the matching chunks' keys. */
  function ChunkHits(chunks: seq<string>, vocab: set<string>): (hits: seq<string>)
    ensures forall x :: x in hits <==> x in vocab && exists j :: 0 <= j < |chunks| && ChunkKey(chunks[j]) == x
  {
    var keys := ChunkKeys(chunks);
    assert forall x :: x in keys <==> exists j :: 0 <= j < |chunks| && ChunkKey(chunks[j]) == x by {
      forall x | x in keys
        ensures exists j :: 0 <= j < |chunks| && ChunkKey(chunks[j]) == x
      {
        var j :| 0 <= j < |keys| && keys[j] == x;
      }
    }
    InVocab(keys, vocab)
  }

  /** `skillset` after both passes. */
  function Candidates(tokens: seq<Token>, chunks: seq<string>, vocab: set<string>): seq<string>
  {
    TokenHits(tokens, vocab) + ChunkHits(chunks, vocab)
  }

  function LowerAll(xs: seq<string>): (r: seq<string>)
    ensures |r| == |xs|
    ensures forall i :: 0 <= i < |xs| ==> r[i] == Lower(xs[i])
  {
    seq(|xs|, i requires 0 <= i < |xs| => Lower(xs[i]))
  }

  function CapitalizeAll(xs: seq<string>): (r: seq<string>)
    ensures |r| == |xs|
    ensures forall i :: 0 <= i < |xs| ==> r[i] == Capitalize(xs[i])
  {
    seq(|xs|, i requires 0 <= i < |xs| => Capitalize(xs[i]))
  }

  /** Every candidate lower-cases to a vocabulary entry. */
  lemma CandidatesInVocab(tokens: seq<Token>, chunks: seq<string>, vocab: set<string>, c: string)
    ensures c in Candidates(tokens, chunks, vocab) ==> Lower(c) in vocab
  {
    if c in Candidates(tokens, chunks, vocab) && c !in TokenHits(tokens, vocab) {
      assert c in ChunkHits(chunks, vocab);
      var j :| 0 <= j < |chunks| && ChunkKey(chunks[j]) == c;
      LowerOfLowerCase(c);
    }
  }

  /** Capitalising distinct lower-case strings keeps them distinct. */
  lemma CapitalizeKeepsDistinct(xs: seq<string>)
    requires NoDuplicates(xs)
    requires forall i :: 0 <= i < |xs| ==> HasNoUpper(xs[i])
    ensures NoDuplicates(CapitalizeAll(xs))
  {
    var ys := CapitalizeAll(xs);
    forall i, j | 0 <= i < j < |ys|
      ensures ys[i] != ys[j]
    {
      LowerOfLowerCase(xs[i]);
      LowerOfLowerCase(xs[j]);
    }
  }

  /** `[i.capitalize() for i in set([i.lower() for i in skillset])]`
      (utils.py:139), listing the set in first-occurrence order. The result has
      no duplicates, and every element is in capitalised form and lower-cases
      to a vocabulary entry. */
  function ExtractSkills(tokens: seq<Token>, chunks: seq<string>, vocab: set<string>): (skills: seq<string>)
    ensures NoDuplicates(skills)
    ensures forall s :: s in skills ==> IsCapitalized(s) && Lower(s) in vocab
  {
    var cands := Candidates(tokens, chunks, vocab);
    var lowered := Distinct(LowerAll(cands));
    var skills := CapitalizeAll(lowered);
    forall i | 0 <= i < |lowered|
      ensures HasNoUpper(lowered[i])
      ensures exists c :: c in cands && lowered[i] == Lower(c)
    {
      assert lowered[i] in LowerAll(cands);
      var m :| 0 <= m < |cands| && LowerAll(cands)[m] == lowered[i];
      LowerIdempotent(cands[m]);
    }
    CapitalizeKeepsDistinct(lowered);
    forall s | s in skills
      ensures IsCapitalized(s) && Lower(s) in vocab
    {
      var i :| 0 <= i < |skills| && skills[i] == s;
      var c :| c in cands && lowered[i] == Lower(c);
      LowerIdempotent(c);
      CandidatesInVocab(tokens, chunks, vocab, c);
    }
    skills
  }

  /** Every skill comes from a matching token or a matching chunk. */
  lemma SkillsSound(tokens: seq<Token>, chunks: seq<string>, vocab: set<string>, s: string)
    requires s in ExtractSkills(tokens, chunks, vocab)
    ensures || (exists i :: 0 <= i < |tokens| && TokenMatches(tokens[i], vocab) && s == Capitalize(Lower(tokens[i].text)))
            || (exists j :: 0 <= j < |chunks| && ChunkKey(chunks[j]) in vocab && s == Capitalize(ChunkKey(chunks[j])))
  {
    var cands := Candidates(tokens, chunks, vocab);
    var lowered := Distinct(LowerAll(cands));
    var skills := CapitalizeAll(lowered);
    var i :| 0 <= i < |skills| && skills[i] == s;
    assert lowered[i] in LowerAll(cands);
    var m :| 0 <= m < |cands| && LowerAll(cands)[m] == lowered[i];
    var c := cands[m];
    assert s == Capitalize(Lower(c));
    if c in TokenHits(tokens, vocab) {
      var t :| 0 <= t < |tokens| && TokenMatches(tokens[t], vocab) && tokens[t].text == c;
    } else {
      assert c in ChunkHits(chunks, vocab);
      var j :| 0 <= j < |chunks| && ChunkKey(chunks[j]) == c;
      LowerOfLowerCase(c);
    }
  }

  lemma InSkills(cands: seq<string>, lowered: seq<string>, skills: seq<string>, c: string)
    requires lowered == Distinct(LowerAll(cands)) && skills == CapitalizeAll(lowered)
    requires c in cands
    ensures Capitalize(Lower(c)) in skills
  {
    var m :| 0 <= m < |cands| && cands[m] == c;
    assert LowerAll(cands)[m] == Lower(c);
    assert Lower(c) in LowerAll(cands);
    assert Lower(c) in lowered;
    var i :| 0 <= i < |lowered| && lowered[i] == Lower(c);
    assert skills[i] == Capitalize(Lower(c));
  }

  /** The skills are exactly the capitalised forms of the matching non-stopword
      tokens and of the matching noun-chunk keys. */
  lemma SkillsExact(tokens: seq<Token>, chunks: seq<string>, vocab: set<string>, s: string)
    ensures s in ExtractSkills(tokens, chunks, vocab)
        <==> || (exists i :: 0 <= i < |tokens| && TokenMatches(tokens[i], vocab) && s == Capitalize(Lower(tokens[i].text)))
             || (exists j :: 0 <= j < |chunks| && ChunkKey(chunks[j]) in vocab && s == Capitalize(ChunkKey(chunks[j])))
  {
    var cands := Candidates(tokens, chunks, vocab);
    var lowered := Distinct(LowerAll(cands));
    var skills := ExtractSkills(tokens, chunks, vocab);
    if s in skills {
      SkillsSound(tokens, chunks, vocab, s);
    }
    if exists i :: 0 <= i < |tokens| && TokenMatches(tokens[i], vocab) && s == Capitalize(Lower(tokens[i].text)) {
      var i :| 0 <= i < |tokens| && TokenMatches(tokens[i], vocab) && s == Capitalize(Lower(tokens[i].text));
      var c := tokens[i].text;
      assert c in cands;
      InSkills(cands, lowered, skills, c);
    }
    if exists j :: 0 <= j < |chunks| && ChunkKey(chunks[j]) in vocab && s == Capitalize(ChunkKey(chunks[j])) {
      var j :| 0 <= j < |chunks| && ChunkKey(chunks[j]) in vocab && s == Capitalize(ChunkKey(chunks[j]));
      var c := ChunkKey(chunks[j]);
      assert c in ChunkHits(chunks, vocab);
      assert c in cands;
      LowerOfLowerCase(c);
      InSkills(cands, lowered, skills, c);
    }
  }

  lemma {:induction false} TokenHitsAppend(a: seq<Token>, b: seq<Token>, vocab: set<string>)
    ensures TokenHits(a + b, vocab) == TokenHits(a, vocab) + TokenHits(b, vocab)
    decreases |a|
  {
    if |a| == 0 {
      assert a + b == b;
    } else {
      assert (a + b)[0] == a[0];
      assert (a + b)[1..] == a[1..] + b;
      TokenHitsAppend(a[1..], b, vocab);
    }
  }

  /** A stopword token contributes nothing, wherever it stands. */
  lemma StopwordsIgnored(a: seq<Token>, b: seq<Token>, text: string, chunks: seq<string>, vocab: set<string>)
    ensures ExtractSkills(a + [Token(text, true)] + b, chunks, vocab) == ExtractSkills(a + b, chunks, vocab)
  {
    var stop := [Token(text, true)];
    TokenHitsAppend(a + stop, b, vocab);
    TokenHitsAppend(a, stop, vocab);
    TokenHitsAppend(a, b, vocab);
    assert TokenHits(stop, vocab) == [];
    assert TokenHits(a, vocab) + [] == TokenHits(a, vocab);
  }
}
