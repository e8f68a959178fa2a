/** The input dispatch of `extract_raw_text` (utils.py:36-50): the lower-cased
    file name decides which decoder reads the file. The decoders themselves,
    `pdfminer` and `docx2txt`, are given as functions from path to text. */
module Documents {
  import opened Wrappers
  import opened Strings

  datatype Format = Pdf | Docx

  /** The `ValueError` raised for any other file name. */
  datatype DocumentError = UnsupportedFormat

  /** Which decoder `extract_raw_text` uses, decided on `file_path.lower()`:
      `.pdf` wins, then `.docx`, and anything else is refused. */
  function FormatOf(path: string): (r: Result<Format, DocumentError>)
    ensures r == Ok(Pdf) <==> EndsWith(Lower(path), ".pdf")
    ensures r == Ok(Docx) <==> EndsWith(Lower(path), ".docx")
    ensures r.Err? <==> !EndsWith(Lower(path), ".pdf") && !EndsWith(Lower(path), ".docx")
  {
    var p := Lower(path);
    if EndsWith(p, ".pdf") then
      assert p[|p| - 1] == ".pdf"[3] == 'f';
      Ok(Pdf)
    else if EndsWith(p, ".docx") then
      Ok(Docx)
    else
      Err(UnsupportedFormat)
  }

  /** `extract_raw_text(file_path)`, with the two decoders as parameters. */
  function ExtractRawText(path: string, readPdf: string -> string, readDocx: string -> string): (r: Result<string, DocumentError>)
    ensures r.Err? <==> FormatOf(path).Err?
    ensures FormatOf(path) == Ok(Pdf) ==> r == Ok(readPdf(path))
    ensures FormatOf(path) == Ok(Docx) ==> r == Ok(readDocx(path))
  {
    match FormatOf(path)
    case Ok(Pdf) => Ok(readPdf(path))
    case Ok(Docx) => Ok(readDocx(path))
    case Err(e) => Err(e)
  }

  lemma LowerAppend(a: string, b: string)
    ensures Lower(a + b) == Lower(a) + Lower(b)
  {
    assert forall k :: 0 <= k < |a + b| ==> Lower(a + b)[k] == (Lower(a) + Lower(b))[k];
  }

  lemma EndsWithAppend(s: string, suffix: string)
    ensures EndsWith(s + suffix, suffix)
  {
    assert (s + suffix)[|s|..] == suffix;
  }

  /** The test ignores case: a file name and its lower-cased form go to the
      same decoder. */
  lemma FormatIgnoresCase(path: string)
    ensures FormatOf(Lower(path)) == FormatOf(path)
  {
    LowerIdempotent(path);
  }

  /** Any name whose extension is `.pdf` in some mix of cases is read as a
      PDF. */
  lemma PdfByExtension(stem: string, ext: string)
    requires Lower(ext) == ".pdf"
    ensures FormatOf(stem + ext) == Ok(Pdf)
  {
    LowerAppend(stem, ext);
    EndsWithAppend(Lower(stem), ".pdf");
  }

  /** Any name whose extension is `.docx` in some mix of cases is read as a
      Word document. */
  lemma DocxByExtension(stem: string, ext: string)
    requires Lower(ext) == ".docx"
    ensures FormatOf(stem + ext) == Ok(Docx)
  {
    LowerAppend(stem, ext);
    EndsWithAppend(Lower(stem), ".docx");
    var p := Lower(stem + ext);
    assert p[|p| - 1] == 'x';
  }
}
