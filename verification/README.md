# Resume parser: field extraction, modelled in Dafny

This project models the rule-based core of a small resume parser written in
Python (the `resparser` package). The parser does four things:

- It reads a PDF or DOCX file.
- It normalises the text's whitespace.
- It runs a set of extractors: a name picker over the spans a token matcher
  proposes, regular-expression extractors for e-mail, phone number, LinkedIn
  profile and gender, and a skill matcher over tokens and noun chunks against
  a skills vocabulary.
- It files the results in a fixed thirteen-key details record.

A section segmenter over the raw lines (`extract_entity_sections_grad`) is
also modelled. The parser does not call it at present.

Each module is one file:

| module | file | models |
|---|---|---|
| `Wrappers` | wrappers.dfy | `Option` and `Result` |
| `Seqs` | seqs.dfy | duplicate-freedom and first-occurrence deduplication (how `set(...)` is listed) |
| `Strings` | strings.dfy | `str.isspace`, `lower`, `capitalize`, `strip`, `split(sep)`, `endswith`, `in` |
| `Whitespace` | whitespace.dfy | `str.split()`, `" ".join` and the normaliser of main.py:32 |
| `Search` | search.dfy | the leftmost-start scan of `re.search`/`re.findall`, greedy character runs |
| `Sections` | sections.dfy | the section segmenter, as a fold over classified lines |
| `Skills` | skills.dfy | `extract_skills` |
| `Names` | names.dfy | `extract_name` over the matcher's spans |
| `Email` | email.dfy | `extract_email` and its pattern, matched concretely |
| `Phone` | phone.dfy | `extract_mobile_number`, with the built-in pattern matched concretely |
| `LinkedIn` | linkedin.dfy | `extract_linkedin` |
| `Gender` | gender.dfy | `extract_gender` under `re.IGNORECASE` |
| `Documents` | documents.dfy | the extension dispatch of `extract_raw_text` |
| `Profile` | profile.dfy | the details record and `ResumeParser` end to end |

The regular expressions are not treated as black boxes. Each built-in pattern
is written out as a function that says where a match starting at a given
position ends. The code follows Python's engine:

- it tries start positions from the left;
- it tries alternatives in order;
- greedy repetitions take as much as they can;
- the lazy `??` first tries to match nothing;
- it backtracks where the pattern forces it to.

The "first element of `re.findall`" is then the leftmost start position that
matches.

The per-start definitions of the patterns are:

- `Email.Span` for `([^@|\s]+@[^@]+\.[^@|\s]+)` (utils.py:78);
- `Phone.PhoneAt` for the built-in phone pattern (utils.py:104-105);
- `LinkedIn.ProfileAt` and `LinkedIn.HandleAt` for
  `linkedin.com/in/([A-Za-z0-9_-]+)` (utils.py:200);
- `Gender.WordAt`, `Gender.KeywordEnd`, `Gender.AfterColon` and
  `Gender.GroupAt` for `(gender|sex)\s*:\s*(male|female)` under
  `re.IGNORECASE` (utils.py:218).

The model table below states what the extractors promise in terms of these
definitions.

Inputs that come from outside the modelled code are parameters:

- the decoded text of the file, through the two decoders;
- the spaCy analysis: the name matcher's span texts, the tokens with their
  stopword flag, and the noun chunks;
- the skills vocabulary;
- the custom phone pattern, together with the first `findall` element it
  produces on the text;
- for the segmenter, the section vocabulary and a choice function for
  `list(set)[0]`.

Some behaviours of the code worth noting:

- The phone number is returned with its separators. The built-in pattern has
  one group, so `"".join(phone[0])` gives back the matched text.
- Skills come out in whatever order the set yields them. The model proves the
  result duplicate-free and does not sort it.
- The vocabulary is not lower-cased. Only the token side is lower-cased
  before lookup.
- The colon in the gender pattern is mandatory.
- The `.` in `linkedin.com/in/` is not escaped, so it matches any character
  except a line break.
- The bracketed alternative of the built-in phone pattern cannot fire on the
  text it is given. The triple-quoted pattern (utils.py:104-105) contains a line
  break and 24 spaces after `\(\d{3}\)`. The text has been normalised
  (main.py:32), so it holds no line break. `Phone.ParenFormShape` shows that
  every match of that alternative spans a line break. `Profile.ParsedMobile`
  shows that, with the built-in pattern, the parser's number always starts
  with a digit.

## Model

| member | source | states |
|---|---|---|
| Strings.LowerIdempotent | resparser/utils.py:68 | a lower-cased string has no upper-case letter left, and lower-casing it again changes nothing |
| Strings.Capitalize | resparser/utils.py:139 | `capitalize()` keeps the length, yields capitalised form (first character not lower-case, the rest not upper-case) and lower-cases back to the input's lower-case form |
| Strings.CapitalizeInjectiveOnLower | resparser/utils.py:139 | two lower-cased strings that capitalise alike are equal, so capitalising after deduplication cannot merge skills |
| Strings.StripBySlice | resparser/utils.py:81 | `strip(chars)` keeps one contiguous slice of its input, and every character dropped around it is in `chars` |
| Strings.StripByEnds | resparser/utils.py:81 | after `strip(chars)` neither end is a character of `chars` |
| Strings.StripEmptyIff | resparser/utils.py:166 | `phrase.strip()` is empty exactly when the phrase is all whitespace |
| Strings.StripKeepsNoUpper | resparser/utils.py:136 | stripping a lower-cased chunk keeps it lower-case |
| Strings.SplitOn | resparser/utils.py:150 | `text.split("\n")` returns at least one piece, no piece holds a line break, and joining the pieces with line breaks gives the text back |
| Whitespace.WordLength | resparser/main.py:32 | the first word of a string is a run of non-whitespace that stops at whitespace or the end |
| Whitespace.Split | resparser/main.py:32 | every piece of `str.split()` is non-empty and holds no whitespace |
| Whitespace.SplitSpaceThen | resparser/main.py:32 | a leading whitespace character (space, tab, line break, …) contributes nothing to `str.split()` |
| Whitespace.SplitSpacesThen | resparser/main.py:32 | a leading run of whitespace contributes nothing to `str.split()` |
| Whitespace.SplitLayout | resparser/main.py:32 | any text made of whitespace-free words separated by non-empty whitespace gaps (with optional whitespace at both ends) splits into exactly those words |
| Whitespace.SplitHasLayout | resparser/main.py:32 | every text is its own split words separated by such whitespace gaps, so with `SplitLayout` `split(s) == ws` holds exactly when `s` is laid out as `ws` |
| Whitespace.SplitJoin | resparser/main.py:32 | splitting the space-join of whitespace-free words gives the words back |
| Whitespace.JoinIsNormalized | resparser/main.py:32 | a space-join of words has no whitespace at its ends, no whitespace but `' '`, no two spaces in a row, and is non-empty when there is a word |
| Whitespace.SplitEmptyIff | resparser/main.py:32 | `split()` is empty exactly when the string is all whitespace |
| Whitespace.SplitWordThen | resparser/main.py:32 | a word followed by whitespace or nothing splits off as the first piece |
| Whitespace.Normalize | resparser/main.py:32 | the normalised text has no leading or trailing whitespace, no whitespace character other than `' '` and never two spaces in a row, and it keeps the word sequence: `split(normalise(s)) == split(s)` |
| Whitespace.NormalizeIdempotent | resparser/main.py:32 | normalising twice is normalising once |
| Whitespace.NormalizeEmptyIff | resparser/main.py:32 | the normalised text is empty exactly when the input is all whitespace |
| Seqs.Distinct | resparser/utils.py:139 | `set([...])` listed in first-occurrence order: no duplicates, the same members, no longer than the input |
| Sections.HeaderKey | resparser/utils.py:155-165 | a line yields a key exactly when it is a header; the key is in the vocabulary; a one-character line's key is the line itself; a longer line's key is one of its lower-cased words |
| Sections.Classify | resparser/utils.py:155-167 | a line opens a section iff it is a header, is filed iff it is not a header and not blank after `strip()`, and is skipped otherwise |
| Sections.Step | resparser/utils.py:163-167 | one loop iteration keeps the state consistent: the open section exists and every section is named from the vocabulary |
| Sections.Run | resparser/utils.py:153-167 | the loop keeps the state consistent from start to end |
| Sections.Segment | resparser/utils.py:152-186 | every key of the result is a vocabulary entry |
| Sections.ExtractSections | resparser/utils.py:142-186 | every key of `extract_entity_sections_grad(text)` is a vocabulary entry |
| Sections.CollectedFrom | resparser/utils.py:166-167 | every line collected from a stretch of lines is one of those lines, non-blank and not a header |
| Sections.LastOpening | resparser/utils.py:163-165 | finds the last header that opens a given section, or says there is none |
| Sections.RunAppend | resparser/utils.py:154 | the loop over two stretches of lines is the loop over the first, continued over the second |
| Sections.RunKeepsKeys | resparser/utils.py:164 | a section, once created, is never removed |
| Sections.RunAddsOnlyOpened | resparser/utils.py:163-165 | a section that no line opens never appears |
| Sections.RunLeavesClosed | resparser/utils.py:166-167 | a section that is not open and not opened again keeps its lines unchanged |
| Sections.RunCollects | resparser/utils.py:164-167 | the open section gains exactly the content lines up to the next header, and nothing after it |
| Sections.StepCollects | resparser/utils.py:166-167 | a line that opens nothing leaves the open section open and appends itself to it when it is not blank |
| Sections.SectionFromLastOpening | resparser/utils.py:164-167 | the section opened by its last header holds exactly the content lines that follow, up to the next header |
| Sections.BodyOfKinds | resparser/utils.py:155-167 | the content read from classified lines is the content of the lines themselves |
| Sections.KindsAppend | resparser/utils.py:154 | classifying two stretches of lines is classifying each |
| Sections.KindsKeyed | resparser/utils.py:163 | every section a line opens is named from the vocabulary |
| Sections.SectionPresentIff | resparser/utils.py:163-165 | a section is in the result exactly when some line yields it as its key |
| Sections.SectionContent | resparser/utils.py:164-167 | a section whose header is not repeated later holds exactly the non-blank, non-header lines between that header and the next header line |
| Sections.LastOpeningOf | resparser/utils.py:164-167 | every section in the result was opened by a header line with no later header opening it again, and it holds the non-blank, non-header lines after that line |
| Sections.FiledLinesFollowTheirHeader | resparser/utils.py:163-167 | every filed line is non-blank, is not itself a header, and comes after a header line of its section |
| Sections.HeaderlessPrefixDropped | resparser/utils.py:153-166 | lines before the first header are dropped |
| Sections.HeaderlessRunIsStart | resparser/utils.py:153-166 | without a header the loop leaves its state untouched |
| Skills.ChunkKey | resparser/utils.py:136 | `chunk.text.lower().strip()` has no upper-case letter |
| Skills.TokenHits | resparser/utils.py:122-132 | the one-gram pass collects exactly the texts of the non-stopword tokens whose lower-case form is a vocabulary entry |
| Skills.InVocab | resparser/utils.py:137-138 | keeps exactly the keys that are vocabulary entries |
| Skills.ChunkHits | resparser/utils.py:135-138 | the noun-chunk pass collects exactly the chunk keys that are vocabulary entries |
| Skills.CandidatesInVocab | resparser/utils.py:130-138 | every candidate lower-cases to a vocabulary entry |
| Skills.CapitalizeKeepsDistinct | resparser/utils.py:139 | capitalising distinct lower-case strings keeps them distinct |
| Skills.ExtractSkills | resparser/utils.py:114-139 | the result has no duplicates; each skill is in capitalised form and lower-cases to a vocabulary entry |
| Skills.SkillsSound | resparser/utils.py:130-139 | every skill comes from a matching non-stopword token or a matching noun chunk |
| Skills.InSkills | resparser/utils.py:139 | every candidate appears, lower-cased and capitalised, in the result |
| Skills.SkillsExact | resparser/utils.py:122-139 | a string is a skill exactly when it is the capitalised lower-case form of a matching non-stopword token or of a matching noun-chunk key |
| Skills.TokenHitsAppend | resparser/utils.py:130-132 | the one-gram pass over two stretches of tokens is the two passes joined |
| Skills.StopwordsIgnored | resparser/utils.py:122 | inserting a stopword token anywhere does not change the skills |
| Names.ExtractName | resparser/utils.py:53-69 | the result is `None` exactly when every span mentions "name" (in any case); otherwise it is one of the spans that does not |
| Names.LabelsSkipped | resparser/utils.py:66-69 | spans that mention "name" ahead of the others change nothing: the loop returns the first span that does not mention it |
| Email.LastDot | resparser/utils.py:78 | finds the last `.` the greedy `[^@]+` can back off to inside a stretch, or says there is none |
| Email.SpanFacts | resparser/utils.py:78 | a match of the pattern takes the whole local run up to `@` and has a `.` before the end of its `[^@]` run |
| Email.EmailAt | resparser/utils.py:78 | the match at one start is a match of the pattern; there is one whenever the pattern can match there; its end is the greedy one: no match from that start ends later, and the final label runs to its end |
| Email.GreedyEnd | resparser/utils.py:78 | with the local part up to `@`, the last usable dot of the `[^@]` run and the full final label, no match from the same start ends later |
| Email.FirstMatch | resparser/utils.py:78 | there is none exactly when the pattern matches nowhere; otherwise it is a match, starts at or before every other match, and ends at or after every other match from its start |
| Email.Trimmed | resparser/utils.py:80-83 | `split()[0]` does not raise when the match starts with a non-whitespace character |
| Email.ExtractEmail | resparser/utils.py:72-84 | the result is `None` exactly when the pattern matches nowhere in the text |
| Email.FirstWordOfSpan | resparser/utils.py:78-81 | the first word of a match runs from its start past the `@` up to the first whitespace |
| Email.SliceIsAddress | resparser/utils.py:81 | a slice of a whitespace-free word around its only `@`, not starting or ending with `;`, has the shape of an address |
| Email.KeptIsAddress | resparser/utils.py:81 | what `strip(";")` keeps of such a word has the shape of an address |
| Email.StripSemicolons | resparser/utils.py:81 | `word.strip(";")` of a whitespace-free word with a single `@` has the shape of an address |
| Email.SpanSingleAt | resparser/utils.py:78 | a match holds exactly one `@` |
| Email.LeftmostSpan | resparser/utils.py:78-81 | the result is the transform of the leftmost match, taken to its greedy end |
| Email.WordHasSingleAt | resparser/utils.py:78-81 | the first word of a match holds a single `@` and no whitespace |
| Email.WordIsAddress | resparser/utils.py:78-81 | the first word of a match, stripped of `;`, has the shape of an address |
| Email.WordOfSpan | resparser/utils.py:78-81 | the transform of a match is its first word stripped of `;`, and that has the shape of an address |
| Email.EmailIsFirstWordOfLeftmostMatch | resparser/utils.py:78-83 | the result is the first word of the leftmost, greedily ended match, stripped of `;` |
| Email.EmailShape | resparser/utils.py:78-83 | the result is non-empty, holds exactly one `@`, holds no whitespace, and neither starts nor ends with `;` |
| Phone.GapIsSeparators | resparser/utils.py:104-105 | the text inside the pattern between its two lines is a line break and 24 spaces, all separators and no digits |
| Phone.SepDigits | resparser/utils.py:104-105 | the lazy `[-\.\s]??\d{n}` matches exactly when `n` digits, or one separator and then `n` digits, follow; it takes the `n` digits right away when they are there |
| Phone.FirstPhone | resparser/utils.py:106 | the leftmost start where the pattern matches, or none exactly when it matches nowhere |
| Phone.DefaultPhone | resparser/utils.py:103-111 | the built-in pattern's result is `None` exactly when the pattern matches nowhere; otherwise it is the text of the leftmost match, from its start to the end the pattern gives there |
| Phone.DigitCountAppend | resparser/utils.py:104-105 | digits of a concatenation add up |
| Phone.SepDigitsShape | resparser/utils.py:104-105 | `[-\.\s]??\d{n}` consumes exactly `n` digits, only digits and separators, and ends with a digit |
| Phone.TenDigitsShape | resparser/utils.py:104 | a match of the first alternative starts and ends with a digit and holds ten digits |
| Phone.ParenOpeningChars | resparser/utils.py:104-105 | `\(\d{3}\)` and the embedded line break and spaces are phone characters, with a line break after the bracket |
| Phone.ParenOpeningCount | resparser/utils.py:104-105 | that opening holds three digits |
| Phone.SepRunShape | resparser/utils.py:105 | `[-\.\s]*` consumes separators and no digit |
| Phone.ParenTailShape | resparser/utils.py:105 | `[-\.\s]*\d{3}[-\.\s]??\d{4}` consumes seven digits and ends with a digit |
| Phone.ParenFormShape | resparser/utils.py:104-105 | a match of the bracketed alternative starts with `(`, holds ten digits and spans a line break |
| Phone.SevenDigitsShape | resparser/utils.py:105 | a match of the third alternative starts and ends with a digit and holds seven digits |
| Phone.PhoneAtShape | resparser/utils.py:104-105 | any match holds seven or ten digits and only digits, separators and brackets; it ends with a digit and starts with one unless it is the bracketed form |
| Phone.NumberShape | resparser/utils.py:103-111 | the built-in pattern's result has the form of a phone number |
| Phone.NumberWithoutLineBreaks | resparser/utils.py:104-111 | in text without line breaks the result also starts with a digit |
| Phone.MatchForm | resparser/utils.py:104-110 | a matched stretch of that shape has the form of a phone number |
| Phone.LengthBoundsCount | resparser/utils.py:104-105 | a string holds no more digits than characters |
| Phone.TenFormMatches | resparser/utils.py:104-105 | three digits, an optional separator, three digits, an optional separator and four digits match at their start, and the match is exactly those characters: the first alternative wins |
| Phone.SevenFormMatches | resparser/utils.py:104-105 | three digits, an optional separator and four digits match at their start, and the match reaches at least their end |
| Phone.SevenFormOnly | resparser/utils.py:104-105 | where no ten-digit layout starts, a seven-digit layout is the whole match: the ten-digit alternative is tried first |
| Phone.TenDigitsForm | resparser/utils.py:104-105 | a match of the first alternative is a ten-digit layout ending where the match ends |
| Phone.TenFormMatchesFirst | resparser/utils.py:104-105 | every ten-digit layout is matched by the first alternative |
| Phone.PhoneAtLayout | resparser/utils.py:104-105 | every match is a ten-digit layout, the bracketed form, or a seven-digit layout where no ten-digit layout starts, ending where the layout ends |
| Phone.SevenInARowFound | resparser/utils.py:105-106 | seven digits in a row anywhere guarantee a match starting there or earlier |
| Phone.NoDigitNoNumber | resparser/utils.py:103-111 | a text without a digit yields no number |
| Phone.ConcatAppend | resparser/utils.py:110 | `"".join` of two lists of parts is the two joins concatenated |
| Phone.ConcatAt | resparser/utils.py:110 | in `"".join(parts)`, part `i` appears whole right after the parts before it |
| Phone.ConcatContents | resparser/utils.py:110 | `"".join(parts)` lays every part whole, in order, end to end |
| Phone.JoinFound | resparser/utils.py:110 | `"".join` of a string found by `findall` is that string; of a tuple of groups, the groups laid whole, in order, end to end, with nothing else |
| Phone.ExtractMobileNumber | resparser/utils.py:86-112 | a missing or empty custom pattern selects the built-in one: `None` exactly when it matches nowhere, otherwise the text of its leftmost match; with a custom pattern the result is `None` exactly when it has no match, and otherwise `"".join` of its first match |
| LinkedIn.HandleAt | resparser/utils.py:200-201 | a handle is captured at a position exactly when the pattern matches there, and it is a non-empty run of `[A-Za-z0-9_-]` |
| LinkedIn.ExtractLinkedIn | resparser/utils.py:189-205 | the result is `None` exactly when the pattern matches nowhere; otherwise it is the profile URL prefix followed by a non-empty handle of `[A-Za-z0-9_-]` characters |
| LinkedIn.LinkedInHandle | resparser/utils.py:200-203 | the result is the prefix plus the whole run of handle characters after the leftmost match of `linkedin.com/in/` |
| LinkedIn.HandleRun | resparser/utils.py:200 | the greedy handle group ends where the run of handle characters ends |
| LinkedIn.ExtractLinkedInIdempotent | resparser/utils.py:189-205 | extracting from a profile URL the extractor produced gives that URL back |
| LinkedIn.UrlRoundTrip | resparser/utils.py:200-203 | for any non-empty handle, extracting from the canonical URL gives the URL back |
| Gender.KeywordEnd | resparser/utils.py:218 | `(gender|sex)` ends inside the text |
| Gender.GroupAt | resparser/utils.py:218-221 | the second group is `"male"` exactly when `male` matches there in any case, and otherwise `"female"` or nothing; its value is the lower-cased text it matched |
| Gender.AfterColon | resparser/utils.py:218 | `\s*:\s*` consumes at least the colon and stays in the text |
| Gender.ValueAt | resparser/utils.py:218-221 | what follows the keyword yields `"male"` or `"female"` or nothing |
| Gender.GenderAt | resparser/utils.py:218-221 | the match at one start is the second group, lower-cased, found after the keyword and the colon stage |
| Gender.ExtractGender | resparser/utils.py:207-222 | the result is `None` exactly when the pattern matches nowhere; otherwise it is the lower-cased second group of the leftmost match, so `"male"` or `"female"` |
| Gender.GenderNeedsColon | resparser/utils.py:218 | a text without a colon yields no gender |
| Gender.CaselessLower | resparser/utils.py:218 | ignoring case, a character and its lower-case form match the same pattern letters |
| Gender.WordAtLower | resparser/utils.py:218 | ignoring case, a word matches in the lower-cased text exactly where it matches in the text |
| Gender.LowerSameLayout | resparser/utils.py:218 | lower-casing keeps whitespace and colons where they are |
| Gender.RunEndSame | resparser/utils.py:218 | `\s*` ends at the same place in two texts with the same layout |
| Gender.AfterColonSame | resparser/utils.py:218 | `\s*:\s*` ends at the same place in two texts with the same layout |
| Gender.KeywordEndLower | resparser/utils.py:218 | the keyword matches the same way in the lower-cased text |
| Gender.ValueAtLower | resparser/utils.py:218-221 | the value matches the same way in the lower-cased text |
| Gender.ColonLower | resparser/utils.py:218 | lower-casing neither makes nor removes a colon |
| Gender.GroupAtLower | resparser/utils.py:218-221 | the second group matches the same way in the lower-cased text |
| Gender.GenderAtLower | resparser/utils.py:218-221 | the match at one start is the same in the lower-cased text |
| Gender.GenderIgnoresCase | resparser/utils.py:218-221 | the gender found in a text and in its lower-cased form are the same |
| Documents.FormatOf | resparser/utils.py:43-48 | PDF exactly when the lower-cased name ends in `.pdf`; DOCX exactly when it ends in `.docx` (and not `.pdf`); an error exactly when it ends in neither |
| Documents.ExtractRawText | resparser/utils.py:36-50 | an error exactly for unsupported names; otherwise the text of the matching decoder |
| Documents.LowerAppend | resparser/utils.py:43-45 | lower-casing distributes over concatenation |
| Documents.EndsWithAppend | resparser/utils.py:43-45 | a string ends with what was appended to it |
| Documents.FormatIgnoresCase | resparser/utils.py:43-48 | the dispatch does not depend on the file name's case |
| Documents.PdfByExtension | resparser/utils.py:43-44 | any name ending in `.pdf`, in any case, is read as PDF |
| Documents.DocxByExtension | resparser/utils.py:45-46 | any name ending in `.docx`, in any case, is read as DOCX |
| Profile.Assign | resparser/main.py:53-66 | `d[k] = v`: the key then holds `v`, every other key keeps its value, an existing key keeps its place and a new key goes last |
| Profile.AssignValid | resparser/main.py:53-66 | assignment keeps a dict a dict: every key listed once, and listed exactly when it has a value |
| Profile.InitialOrder | resparser/main.py:16-28 | the eleven initial keys, each at its position in the record's order, and exactly the fields other than `linkedin_profile` and `gender` |
| Profile.Initial | resparser/main.py:16-28 | the record `__init__` creates lists the eleven keys in order, each mapping to `None`, and has no `linkedin_profile` or `gender` |
| Profile.InitialValid | resparser/main.py:16-28 | the initial record lists no key twice |
| Profile.FillFields | resparser/main.py:53-66 | after the six assignments each of the six fields holds its assigned value |
| Profile.FillKeeps | resparser/main.py:53-66 | the six assignments leave every other field as it was |
| Profile.FillOrder | resparser/main.py:53-66 | the four fields already present keep their places and `linkedin_profile`, `gender` are appended in that order |
| Profile.FillComplete | resparser/main.py:53-66 | after the assignments the six fields and every field that had a value have one |
| Profile.RecordOrder | resparser/main.py:16-66 | the record lists the eleven initial keys, then `linkedin_profile`, then `gender`, and no other key |
| Profile.RecordKeyNames | resparser/main.py:16-66 | the finished record's keys, spelt out, are `name` through `total_experience` in the order of the dict literal, then `linkedin_profile`, then `gender` |
| Profile.FullOrderNames | resparser/main.py:16-66 | the thirteen keys in record order, spelt out as the source spells them |
| Profile.KeyNameInjective | resparser/main.py:16-28 | distinct fields are spelt differently, so they are distinct dict keys |
| Profile.RecordComplete | resparser/main.py:16-66 | every one of the thirteen fields has a value (possibly `None`) |
| Profile.FullOrderLists | resparser/main.py:16-66 | the thirteen keys are distinct and cover every field |
| Profile.RecordValid | resparser/main.py:16-66 | the finished record is a dict over exactly the thirteen keys |
| Profile.RecordFields | resparser/main.py:53-66 | `name`, `email`, `mobile_number`, `skills`, `linkedin_profile` and `gender` hold what was assigned to them |
| Profile.RecordNulls | resparser/main.py:16-66 | `college_name`, `degree`, `designation`, `experience`, `company_names`, `no_of_pages` and `total_experience` stay `None` |
| Profile.ParseFile | resparser/main.py:29-35 | among the failures the model keeps, parsing a file fails exactly when its name has an unsupported extension |
| Profile.Parse | resparser/main.py:16-66 | every record lists the same thirteen keys in the same order, each once, with a value under each |
| Profile.ParsedFields | resparser/main.py:32-66 | each assigned field holds its extractor's result on the normalised text (name and skills: on the analysis), and the other seven stay `None` |
| Profile.ParseNormalizes | resparser/main.py:31-48 | the raw text feeds the record only through its normalised form: normalising first gives the same record |
| Profile.NoLineBreak | resparser/main.py:32 | normalised text holds no line break |
| Profile.ParsedName | resparser/main.py:41-53 | the name is a span that does not mention "name", and is `None` exactly when every span mentions it |
| Profile.ParsedEmail | resparser/main.py:42-56 | the email has the shape of an address, and is `None` exactly when the normalised text holds no match |
| Profile.ParsedMobile | resparser/main.py:43-59 | without a custom pattern, or with an empty one, the number is the text of the leftmost match of the built-in pattern in the normalised text, has the form of a phone number and starts with a digit, and is `None` exactly when the pattern matches nowhere |
| Profile.ParsedSkills | resparser/main.py:44-62 | the skills field is a list of distinct capitalised skills, each a vocabulary entry once lower-cased |
| Profile.ParsedLinkedIn | resparser/main.py:47-64 | the profile link is the URL prefix followed by a non-empty handle of `[A-Za-z0-9_-]` characters, and is `None` exactly when no profile is linked |
| Profile.ParsedGender | resparser/main.py:48-66 | the gender is the lower-cased second group of the leftmost match in the normalised text, so `"male"` or `"female"`, and is `None` exactly when the pattern matches nowhere |

## Left out

- PDF and DOCX decoding (`pdfminer`, `docx2txt`, utils.py:10-33): foreign libraries. The decoders are function parameters.
- spaCy: loading the model, tokenising, tagging, noun chunks and the `Matcher` (main.py:12-15, 33-34, utils.py:62-64). Their outputs are inputs to the model: the span texts in match order, the tokens with their stopword flags, and the chunk texts. That `matcher.add` mutates the matcher on every call is not modelled.
- Reading the skills table with pandas (utils.py:123-127). The column names are a `set<string>` parameter. Python's `in` on the column list is the same membership test.
- Running a custom phone pattern (utils.py:108): a caller-supplied regular expression would need a general regex engine. Its first `findall` element is a parameter.
- Failures outside the extension check: a malformed custom phone pattern (`re.error` from `re.compile`, utils.py:108), a missing or unreadable skills table (utils.py:124-126), a corrupt PDF or DOCX in the decoders, and a failing `spacy.load` (main.py:12). The model takes the results of these calls as given, so it cannot fail on them. Profile.ParseFile keeps only the `ValueError` for an unsupported extension.
- Sections.Segment: the result is a `map`, so the insertion order of the Python dict is not kept. The parser's call to the segmenter is commented out (main.py:50), so no output depends on that order.
- The `__main__` block that writes JSON (main.py:105-108) and all commented-out code (utils.py:169-185, main.py:50, 68-102).
- Strings.LowerChar: case mapping covers ASCII letters only. Python's `lower()` and `capitalize()` also map non-ASCII letters.
- Phone.IsDigit: `\d` is taken as the ASCII digits. Python's `\d` on `str` also matches other Unicode decimal digits.
- Sections.HeaderKey: which word `list(set)[0]` picks among several matching words depends on Python's set iteration order. The model takes a caller-supplied choice function and states properties by membership only.
- Skills.ExtractSkills: the order of the result is whatever the set yields. The model fixes one order (first occurrence) and states the contract without reference to order.
- Gender.Caseless: among non-ASCII characters, `re.IGNORECASE` folding is modelled only for the long s (U+017F), the one non-ASCII character that folds onto a letter of the pattern.
