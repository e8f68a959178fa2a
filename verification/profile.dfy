/** The parser object of main.py: it reads the resume, normalises its text
    (main.py:32), runs the extractors and files their results in the details
    record (main.py:16-28, 39-66). The record is a Python dict, modelled as its
    list of entries in insertion order. The language pipeline's outputs for the
    normalised text (the name matcher's spans, the tokens and the noun chunks)
    and the custom phone pattern's first match are inputs. */
module Profile {
  import opened Wrappers
  import opened Seqs
  import Strings
  import Whitespace
  import Names
  import Email
  import Phone
  import Skills
  import LinkedIn
  import Gender
  import Documents

  /** The record's keys. */
  datatype Field =
    | Name | EmailAddress | MobileNumber | SkillList | CollegeName | Degree | Designation | Experience
    | CompanyNames | NoOfPages | TotalExperience | LinkedInProfile | GenderField

  /** The key as it is spelt in the record. */
  function KeyName(f: Field): string
  {
    match f
    case Name => "name"
    case EmailAddress => "email"
    case MobileNumber => "mobile_number"
    case SkillList => "skills"
    case CollegeName => "college_name"
    case Degree => "degree"
    case Designation => "designation"
    case Experience => "experience"
    case CompanyNames => "company_names"
    case NoOfPages => "no_of_pages"
    case TotalExperience => "total_experience"
    case LinkedInProfile => "linkedin_profile"
    case GenderField => "gender"
  }

  /** A field value: `None`, a string, or a list of strings. */
  datatype Value = Null | Text(s: string) | Texts(xs: seq<string>)

  /** A dict from fields to values: its keys in insertion order and the
      values filed under them. */
  datatype Details = Details(order: seq<Field>, values: map<Field, Value>)

  /** Every key is listed once, and listed exactly when it has a value. */
  predicate Valid(d: Details)
  {
    && NoDuplicates(d.order)
    && forall k :: k in d.values <==> k in d.order
  }

  /** `d.get(k)`. */
  function Lookup(d: Details, k: Field): Option<Value>
  {
    if k in d.values then Some(d.values[k]) else None
  }

  /** `d[k] = v`: the key now holds `v`, every other key keeps its value, and
      an existing key keeps its place while a new one goes last. */
  function Assign(d: Details, k: Field, v: Value): (r: Details)
    ensures Lookup(r, k) == Some(v)
    ensures forall k' :: k' != k ==> Lookup(r, k') == Lookup(d, k')
    ensures r.order == if Lookup(d, k).Some? then d.order else d.order + [k]
  {
    Details(if k in d.values then d.order else d.order + [k], d.values[k := v])
  }

  /** Assignment keeps a dict a dict. */
  lemma AssignValid(d: Details, k: Field, v: Value)
    requires Valid(d)
    ensures Valid(Assign(d, k, v))
  {
    var r := Assign(d, k, v);
    if k !in d.values {
      forall i, j | 0 <= i < j < |r.order| ensures r.order[i] != r.order[j] {
        if j == |d.order| {
          assert r.order[i] == d.order[i];
        }
      }
    }
  }

  /** The position of a field in the record's key order. */
  function Position(f: Field): nat
  {
    match f
    case Name => 0 case EmailAddress => 1 case MobileNumber => 2 case SkillList => 3
    case CollegeName => 4 case Degree => 5 case Designation => 6 case Experience => 7
    case CompanyNames => 8 case NoOfPages => 9 case TotalExperience => 10 case LinkedInProfile => 11
    case GenderField => 12
  }

  /** The eleven keys `__init__` creates (main.py:16-28), in order; the two
      that `__get_basic_details` adds come after them. */
  function InitialOrder(): (s: seq<Field>)
    ensures |s| == 11 && forall i :: 0 <= i < |s| ==> Position(s[i]) == i
    ensures forall k :: k in s <==> !Added(k)
  {
    [Name, EmailAddress, MobileNumber, SkillList, CollegeName, Degree, Designation, Experience,
     CompanyNames, NoOfPages, TotalExperience]
  }

  /** The two keys `__init__` does not create. */
  predicate Added(k: Field)
  {
    k == LinkedInProfile || k == GenderField
  }

  /** All thirteen keys in the order the finished record lists them. */
  function FullOrder(): seq<Field>
  {
    InitialOrder() + [LinkedInProfile] + [GenderField]
  }

  /** The fields no code path fills: their assignments are commented out. */
  predicate NeverAssigned(k: Field)
  {
    || k.CollegeName? || k.Degree? || k.Designation? || k.Experience?
    || k.CompanyNames? || k.NoOfPages? || k.TotalExperience?
  }

  /** The record as `__init__` creates it: the eleven keys, each mapping to
      `None`, and nothing else. */
  function Initial(): (d: Details)
    ensures d.order == InitialOrder()
    ensures forall k :: Lookup(d, k) == if Added(k) then None else Some(Null)
  {
    var s := InitialOrder();
    Details(s, map k | k in s :: Null)
  }

  /** The initial record is a dict: no key is listed twice. */
  lemma InitialValid()
    ensures Valid(Initial())
  {
    var s := InitialOrder();
    forall i, j | 0 <= i < j < |s| ensures s[i] != s[j] {
      assert Position(s[i]) != Position(s[j]);
    }
  }

  /** The assignments of `__get_basic_details` (main.py:53-66), in order,
      applied to any record. */
  function Fill(d: Details, name: Value, email: Value, mobile: Value, skills: Value, linkedin: Value, gender: Value): Details
  {
    Assign(Assign(Assign(Assign(Assign(Assign(d, Name, name), EmailAddress, email), MobileNumber, mobile),
                         SkillList, skills), LinkedInProfile, linkedin), GenderField, gender)
  }

  /** The record `__init__` creates, once `__get_basic_details` has run. */
  function Record(name: Value, email: Value, mobile: Value, skills: Value, linkedin: Value, gender: Value): Details
  {
    Fill(Initial(), name, email, mobile, skills, linkedin, gender)
  }

  /** The six fields hold what was assigned to them. */
  lemma FillFields(d: Details, name: Value, email: Value, mobile: Value, skills: Value, linkedin: Value, gender: Value)
    ensures var r := Fill(d, name, email, mobile, skills, linkedin, gender);
      && Lookup(r, Name) == Some(name)
      && Lookup(r, EmailAddress) == Some(email)
      && Lookup(r, MobileNumber) == Some(mobile)
      && Lookup(r, SkillList) == Some(skills)
      && Lookup(r, LinkedInProfile) == Some(linkedin)
      && Lookup(r, GenderField) == Some(gender)
  {
    var d1 := Assign(d, Name, name);
    var d2 := Assign(d1, EmailAddress, email);
    var d3 := Assign(d2, MobileNumber, mobile);
    var d4 := Assign(d3, SkillList, skills);
    var d5 := Assign(d4, LinkedInProfile, linkedin);
    var d6 := Assign(d5, GenderField, gender);
    assert Lookup(d6, Name) == Lookup(d5, Name) == Lookup(d4, Name) == Lookup(d3, Name) == Lookup(d2, Name) == Lookup(d1, Name);
    assert Lookup(d6, EmailAddress) == Lookup(d5, EmailAddress) == Lookup(d4, EmailAddress) == Lookup(d3, EmailAddress) == Lookup(d2, EmailAddress);
    assert Lookup(d6, MobileNumber) == Lookup(d5, MobileNumber) == Lookup(d4, MobileNumber) == Lookup(d3, MobileNumber);
    assert Lookup(d6, SkillList) == Lookup(d5, SkillList) == Lookup(d4, SkillList);
    assert Lookup(d6, LinkedInProfile) == Lookup(d5, LinkedInProfile);
  }

  /** The six fields the assignments name. */
  predicate Filled(k: Field)
  {
    k.Name? || k.EmailAddress? || k.MobileNumber? || k.SkillList? || k.LinkedInProfile? || k.GenderField?
  }

  /** Every other field keeps its value. */
  lemma FillKeeps(d: Details, name: Value, email: Value, mobile: Value, skills: Value, linkedin: Value, gender: Value, k: Field)
    requires !Filled(k)
    ensures Lookup(Fill(d, name, email, mobile, skills, linkedin, gender), k) == Lookup(d, k)
  {
    var d1 := Assign(d, Name, name);
    var d2 := Assign(d1, EmailAddress, email);
    var d3 := Assign(d2, MobileNumber, mobile);
    var d4 := Assign(d3, SkillList, skills);
    var d5 := Assign(d4, LinkedInProfile, linkedin);
    var d6 := Assign(d5, GenderField, gender);
    assert Lookup(d6, k) == Lookup(d5, k) == Lookup(d4, k) == Lookup(d3, k) == Lookup(d2, k) == Lookup(d1, k) == Lookup(d, k);
  }

  /** On a record that already holds the first four fields and not the last
      two, the first four keep their places and the last two are appended in
      assignment order. */
  lemma FillOrder(d: Details, name: Value, email: Value, mobile: Value, skills: Value, linkedin: Value, gender: Value)
    requires Lookup(d, Name).Some? && Lookup(d, EmailAddress).Some?
    requires Lookup(d, MobileNumber).Some? && Lookup(d, SkillList).Some?
    requires Lookup(d, LinkedInProfile).None? && Lookup(d, GenderField).None?
    ensures Fill(d, name, email, mobile, skills, linkedin, gender).order == d.order + [LinkedInProfile] + [GenderField]
  {
    var d1 := Assign(d, Name, name);
    var d2 := Assign(d1, EmailAddress, email);
    var d3 := Assign(d2, MobileNumber, mobile);
    var d4 := Assign(d3, SkillList, skills);
    var d5 := Assign(d4, LinkedInProfile, linkedin);
    assert d4.order == d3.order == d2.order == d1.order == d.order;
    assert Lookup(d4, LinkedInProfile) == Lookup(d, LinkedInProfile);
    assert Lookup(d5, GenderField) == Lookup(d4, GenderField) == Lookup(d, GenderField);
  }

  /** The record lists the eleven initial keys, then "linkedin_profile",
      then "gender". */
  lemma RecordOrder(name: Value, email: Value, mobile: Value, skills: Value, linkedin: Value, gender: Value)
    ensures Record(name, email, mobile, skills, linkedin, gender).order == FullOrder()
  {
    var d0 := Initial();
    assert Lookup(d0, Name) == Lookup(d0, EmailAddress) == Lookup(d0, MobileNumber) == Lookup(d0, SkillList) == Some(Null);
    FillOrder(d0, name, email, mobile, skills, linkedin, gender);
  }

  /** A key order spelt out as strings. */
  function KeyNames(order: seq<Field>): (names: seq<string>)
    ensures |names| == |order|
    ensures forall i :: 0 <= i < |order| ==> names[i] == KeyName(order[i])
  {
    seq(|order|, i requires 0 <= i < |order| => KeyName(order[i]))
  }

  /** Distinct fields are spelt differently, so the record's thirteen fields
      are thirteen distinct dict keys. */
  lemma KeyNameInjective(a: Field, b: Field)
    ensures KeyName(a) == KeyName(b) ==> a == b
  {
  }

  /** The finished record lists exactly the keys of the dict literal in
      `__init__`, in its order, then "linkedin_profile" and "gender". */
  lemma RecordKeyNames(name: Value, email: Value, mobile: Value, skills: Value, linkedin: Value, gender: Value)
    ensures KeyNames(Record(name, email, mobile, skills, linkedin, gender).order)
         == ["name", "email", "mobile_number", "skills", "college_name", "degree", "designation",
             "experience", "company_names", "no_of_pages", "total_experience", "linkedin_profile", "gender"]
  {
    RecordOrder(name, email, mobile, skills, linkedin, gender);
    FullOrderNames();
  }

  lemma FullOrderNames()
    ensures KeyNames(FullOrder())
         == ["name", "email", "mobile_number", "skills", "college_name", "degree", "designation",
             "experience", "company_names", "no_of_pages", "total_experience", "linkedin_profile", "gender"]
  {
    var names := KeyNames(FullOrder());
    assert |names| == 13;
  }

  /** After the assignments, the six fields and every field that had a value
      have one. */
  lemma FillComplete(d: Details, name: Value, email: Value, mobile: Value, skills: Value, linkedin: Value, gender: Value)
    ensures forall k :: Lookup(d, k).Some? || Filled(k) ==> Lookup(Fill(d, name, email, mobile, skills, linkedin, gender), k).Some?
  {
    var r := Fill(d, name, email, mobile, skills, linkedin, gender);
    FillFields(d, name, email, mobile, skills, linkedin, gender);
    forall k | Lookup(d, k).Some? && !Filled(k) ensures Lookup(r, k).Some? {
      FillKeeps(d, name, email, mobile, skills, linkedin, gender, k);
    }
  }

  /** Every field has a value in the finished record. */
  lemma RecordComplete(name: Value, email: Value, mobile: Value, skills: Value, linkedin: Value, gender: Value)
    ensures forall k :: Lookup(Record(name, email, mobile, skills, linkedin, gender), k).Some?
  {
    FillComplete(Initial(), name, email, mobile, skills, linkedin, gender);
  }

  /** The full key order lists every field exactly once. */
  lemma FullOrderLists()
    ensures NoDuplicates(FullOrder())
    ensures forall k :: k in FullOrder()
  {
    var s := FullOrder();
    forall i, j | 0 <= i < j < |s| ensures s[i] != s[j] {
      assert Position(s[i]) == i && Position(s[j]) == j;
    }
    forall k ensures k in s {
      if Added(k) {
        assert k == s[11] || k == s[12];
      } else {
        assert k in InitialOrder();
      }
    }
  }

  /** The finished record is a dict. */
  lemma RecordValid(name: Value, email: Value, mobile: Value, skills: Value, linkedin: Value, gender: Value)
    ensures Valid(Record(name, email, mobile, skills, linkedin, gender))
  {
    var d := Record(name, email, mobile, skills, linkedin, gender);
    RecordOrder(name, email, mobile, skills, linkedin, gender);
    RecordComplete(name, email, mobile, skills, linkedin, gender);
    FullOrderLists();
    assert NoDuplicates(d.order);
    forall k ensures k in d.values && k in d.order {
      assert Lookup(d, k).Some?;
    }
  }

  /** The six extracted fields hold what was assigned to them. */
  lemma RecordFields(name: Value, email: Value, mobile: Value, skills: Value, linkedin: Value, gender: Value)
    ensures var d := Record(name, email, mobile, skills, linkedin, gender);
      && Lookup(d, Name) == Some(name)
      && Lookup(d, EmailAddress) == Some(email)
      && Lookup(d, MobileNumber) == Some(mobile)
      && Lookup(d, SkillList) == Some(skills)
      && Lookup(d, LinkedInProfile) == Some(linkedin)
      && Lookup(d, GenderField) == Some(gender)
  {
    FillFields(Initial(), name, email, mobile, skills, linkedin, gender);
  }

  /** The seven fields no code path fills stay `None`. */
  lemma RecordNulls(name: Value, email: Value, mobile: Value, skills: Value, linkedin: Value, gender: Value, k: Field)
    requires NeverAssigned(k)
    ensures Lookup(Record(name, email, mobile, skills, linkedin, gender), k) == Some(Null)
  {
    FillKeeps(Initial(), name, email, mobile, skills, linkedin, gender, k);
  }

  function OptText(o: Option<string>): Value
  {
    if o.None? then Null else Text(o.value)
  }

  /** What the language pipeline gives for the normalised text. */
  datatype Analysis = Analysis(nameSpans: seq<string>, tokens: seq<Skills.Token>, chunks: seq<string>)

  /** The constructor's options: the skills vocabulary (the columns of the
      skills file), the custom phone pattern, and that pattern's first match
      in the normalised text. */
  datatype Settings = Settings(vocab: set<string>, customRegex: Option<string>, customFirst: Option<Phone.Found>)

  /** The record for a resume whose raw text is `raw` (main.py:31-34, 39-66).
      Every extractor reads the normalised text; the raw text reaches the
      record only through it. */
  function Parse(raw: string, nlp: Analysis, settings: Settings): (d: Details)
    ensures Valid(d) && d.order == FullOrder()
    ensures forall k :: Lookup(d, k).Some?
  {
    var text := Whitespace.Normalize(raw);
    var name := OptText(Names.ExtractName(nlp.nameSpans));
    var email := OptText(Email.ExtractEmail(text));
    var mobile := OptText(Phone.ExtractMobileNumber(text, settings.customRegex, settings.customFirst));
    var skills := Texts(Skills.ExtractSkills(nlp.tokens, nlp.chunks, settings.vocab));
    var linkedin := OptText(LinkedIn.ExtractLinkedIn(text));
    var gender := OptText(Gender.ExtractGender(text));
    RecordValid(name, email, mobile, skills, linkedin, gender);
    RecordOrder(name, email, mobile, skills, linkedin, gender);
    RecordComplete(name, email, mobile, skills, linkedin, gender);
    Record(name, email, mobile, skills, linkedin, gender)
  }

  /** `ResumeParser(resume).get_extracted_data()` for the file at `path`; the
      decoders are parameters, and an unsupported file name is the error. */
  function ParseFile(path: string, readPdf: string -> string, readDocx: string -> string,
                     nlp: Analysis, settings: Settings): (r: Result<Details, Documents.DocumentError>)
    ensures r.Err? <==> Documents.FormatOf(path).Err?
  {
    match Documents.ExtractRawText(path, readPdf, readDocx)
    case Err(e) => Err(e)
    case Ok(raw) => Ok(Parse(raw, nlp, settings))
  }
  /** The string filed under `f`, if any. */
  function TextOf(d: Details, f: Field): Option<string>
  {
    match Lookup(d, f)
    case Some(Text(v)) => Some(v)
    case _ => None
  }

  lemma TextOfOpt(d: Details, f: Field, o: Option<string>)
    requires Lookup(d, f) == Some(OptText(o))
    ensures TextOf(d, f) == o
  {
  }

  /** Each extracted field holds its extractor's result on the normalised
      text, and the seven fields nothing fills stay `None`. */
  lemma ParsedFields(raw: string, nlp: Analysis, settings: Settings)
    ensures var d := Parse(raw, nlp, settings); var text := Whitespace.Normalize(raw);
      && TextOf(d, Name) == Names.ExtractName(nlp.nameSpans)
      && TextOf(d, EmailAddress) == Email.ExtractEmail(text)
      && TextOf(d, MobileNumber) == Phone.ExtractMobileNumber(text, settings.customRegex, settings.customFirst)
      && Lookup(d, SkillList) == Some(Texts(Skills.ExtractSkills(nlp.tokens, nlp.chunks, settings.vocab)))
      && TextOf(d, LinkedInProfile) == LinkedIn.ExtractLinkedIn(text)
      && TextOf(d, GenderField) == Gender.ExtractGender(text)
      && forall k :: NeverAssigned(k) ==> Lookup(d, k) == Some(Null)
  {
    var text := Whitespace.Normalize(raw);
    var name := OptText(Names.ExtractName(nlp.nameSpans));
    var email := OptText(Email.ExtractEmail(text));
    var mobile := OptText(Phone.ExtractMobileNumber(text, settings.customRegex, settings.customFirst));
    var skills := Texts(Skills.ExtractSkills(nlp.tokens, nlp.chunks, settings.vocab));
    var linkedin := OptText(LinkedIn.ExtractLinkedIn(text));
    var gender := OptText(Gender.ExtractGender(text));
    var d := Record(name, email, mobile, skills, linkedin, gender);
    assert Parse(raw, nlp, settings) == d;
    RecordFields(name, email, mobile, skills, linkedin, gender);
    TextOfOpt(d, Name, Names.ExtractName(nlp.nameSpans));
    TextOfOpt(d, EmailAddress, Email.ExtractEmail(text));
    TextOfOpt(d, MobileNumber, Phone.ExtractMobileNumber(text, settings.customRegex, settings.customFirst));
    TextOfOpt(d, LinkedInProfile, LinkedIn.ExtractLinkedIn(text));
    TextOfOpt(d, GenderField, Gender.ExtractGender(text));
    forall k | NeverAssigned(k) ensures Lookup(d, k) == Some(Null) {
      RecordNulls(name, email, mobile, skills, linkedin, gender, k);
    }
  }

  /** Parsing reads the raw text only through its normalised form, so a text
      that is normalised first gives the same record. */
  lemma ParseNormalizes(raw: string, nlp: Analysis, settings: Settings)
    ensures Parse(Whitespace.Normalize(raw), nlp, settings) == Parse(raw, nlp, settings)
  {
    Whitespace.NormalizeIdempotent(raw);
  }

  /** Normalised text has no line break left. */
  lemma NoLineBreak(raw: string)
    ensures '\n' !in Whitespace.Normalize(raw)
  {
    var t := Whitespace.Normalize(raw);
    forall k | 0 <= k < |t| ensures t[k] != '\n' {
      if Strings.IsSpace(t[k]) {
        assert t[k] == ' ';
      }
    }
  }

  /** The name is the first candidate span that does not mention "name", and
      there is none exactly when every span mentions it. */
  lemma ParsedName(raw: string, nlp: Analysis, settings: Settings)
    ensures var v := TextOf(Parse(raw, nlp, settings), Name);
      && (v.None? <==> forall i :: 0 <= i < |nlp.nameSpans| ==> Names.MentionsName(nlp.nameSpans[i]))
      && (v.Some? ==> v.value in nlp.nameSpans && !Names.MentionsName(v.value))
  {
    ParsedFields(raw, nlp, settings);
  }

  /** The email is a single address, and there is none exactly when the
      normalised text holds no match of the address pattern. */
  lemma ParsedEmail(raw: string, nlp: Analysis, settings: Settings)
    ensures var v := TextOf(Parse(raw, nlp, settings), EmailAddress); var text := Whitespace.Normalize(raw);
      && (v.None? <==> forall i, a, d, j :: !Email.Span(text, i, a, d, j))
      && (v.Some? ==> Email.IsAddress(v.value))
  {
    ParsedFields(raw, nlp, settings);
    var text := Whitespace.Normalize(raw);
    if Email.ExtractEmail(text).Some? {
      Email.EmailShape(text);
    }
  }

  /** Without a custom pattern, or with an empty one, the number is the text
      of the leftmost match of the built-in pattern in the normalised text. It
      has seven or ten digits, is made of digits and separators only and starts
      with a digit, since normalised text cannot hold the line break the
      bracketed form needs; there is none exactly when the pattern matches
      nowhere. */
  lemma ParsedMobile(raw: string, nlp: Analysis, settings: Settings)
    requires settings.customRegex.None? || settings.customRegex == Some("")
    ensures var v := TextOf(Parse(raw, nlp, settings), MobileNumber); var text := Whitespace.Normalize(raw);
      && (v.None? <==> forall i :: 0 <= i < |text| ==> Phone.PhoneAt(text, i).None?)
      && (v.Some? ==> Phone.IsLeftmostMatch(text, v.value))
      && (v.Some? ==> Phone.NumberForm(v.value) && Phone.IsDigit(v.value[0]))
  {
    ParsedFields(raw, nlp, settings);
    var text := Whitespace.Normalize(raw);
    if Phone.DefaultPhone(text).Some? {
      NoLineBreak(raw);
      Phone.NumberWithoutLineBreaks(text);
    }
  }

  /** The skills are distinct, capitalised, and each is a vocabulary entry
      once lower-cased. */
  lemma ParsedSkills(raw: string, nlp: Analysis, settings: Settings)
    ensures var v := Lookup(Parse(raw, nlp, settings), SkillList);
      && v.Some? && v.value.Texts?
      && NoDuplicates(v.value.xs)
      && forall s :: s in v.value.xs ==> Strings.IsCapitalized(s) && Strings.Lower(s) in settings.vocab
  {
    ParsedFields(raw, nlp, settings);
  }

  /** The profile link is the profile URL prefix followed by a non-empty
      handle, and there is none exactly when the text links no profile. */
  lemma ParsedLinkedIn(raw: string, nlp: Analysis, settings: Settings)
    ensures var v := TextOf(Parse(raw, nlp, settings), LinkedInProfile); var text := Whitespace.Normalize(raw);
      && (v.None? <==> forall i :: 0 <= i < |text| ==> !LinkedIn.ProfileAt(text, i))
      && (v.Some? ==> |v.value| > |LinkedIn.UrlPrefix| && v.value[..|LinkedIn.UrlPrefix|] == LinkedIn.UrlPrefix)
      && (v.Some? ==> forall k :: |LinkedIn.UrlPrefix| <= k < |v.value| ==> LinkedIn.HandleChar(v.value[k]))
  {
    ParsedFields(raw, nlp, settings);
  }

  /** The gender is the lower-cased value of the leftmost keyword-colon-value
      form in the normalised text, so "male" or "female"; there is none
      exactly when no such form occurs. */
  lemma ParsedGender(raw: string, nlp: Analysis, settings: Settings)
    ensures var v := TextOf(Parse(raw, nlp, settings), GenderField); var text := Whitespace.Normalize(raw);
      && (v.None? <==> forall i :: 0 <= i < |text| ==> Gender.GenderAt(text, i).None?)
      && (v.Some? ==> v.value in {"male", "female"})
      && (v.Some? ==> exists i :: 0 <= i < |text| && Gender.GenderAt(text, i) == v
                                  && forall k :: 0 <= k < i ==> Gender.GenderAt(text, k).None?)
  {
    ParsedFields(raw, nlp, settings);
  }
}
