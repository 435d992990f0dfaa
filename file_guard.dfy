/** The check `is_drm_protected` (app.py) runs on an upload before anything
    is sent to storage: a decision on the file's extension, with the PDF
    library and the zip reader as oracles whose possible answers are
    spelled out as datatypes. */
module FileGuard {
  import opened Wrappers
  import opened Text
  import Percent

  type Bytes = seq<Percent.Byte>

  /** What opening the bytes with the PDF library gives: an open document,
      encrypted or not, or an exception. */
  datatype PdfOpen = PdfDocument(isEncrypted: bool) | PdfOpenError

  /** What the zip reader makes of the bytes: not a zip archive at all, an
      archive with its member names, or an exception while reading it. */
  datatype ZipOpen = NotZip | ZipArchive(names: seq<string>) | ZipOpenError

  /** The Office formats whose package structure is inspected. */
  const OfficeTypes: seq<string> := ["docx", "pptx", "xlsx"]

  /** The member every Office Open XML package carries. */
  const ContentTypesEntry: string := "[Content_Types].xml"

  /** `name.split('.')[-1].lower()`. */
  function FileType(name: string): (r: string)
    ensures '.' !in r && |r| <= |name|
  {
    var parts := Split(name, '.');
    SplitLastPiece(name);
    LowerSpec(parts[|parts| - 1]);
    Lower(parts[|parts| - 1])
  }

  /** `raw` is the text after the last `.` of `name`, or all of `name` when
      it has no `.`. */
  predicate LastExtension(name: string, raw: string) {
    EndsWith(name, raw) && '.' !in raw && (|raw| == |name| || name[|name| - |raw| - 1] == '.')
  }

  /** The last piece `split` produces is the text after the last separator. */
  lemma SplitLastPiece(s: string)
    ensures var parts := Split(s, '.'); LastExtension(s, parts[|parts| - 1])
  {
    var parts := Split(s, '.');
    JoinSplit(s, '.');
    JoinLastPiece(parts);
  }

  /** Joining dot-free pieces with `.` puts the last piece after the last
      dot. */
  lemma JoinLastPiece(parts: seq<string>)
    requires |parts| >= 1 && forall p :: p in parts ==> '.' !in p
    ensures LastExtension(Join(parts, '.'), parts[|parts| - 1])
  {
    var last := parts[|parts| - 1];
    assert last in parts;
    if |parts| >= 2 {
      JoinLast(parts, '.');
      AfterDot(Join(parts[..|parts| - 1], '.'), last);
    }
  }

  /** What follows the last dot of `head.last`, for a dot-free `last`. */
  lemma AfterDot(head: string, last: string)
    requires '.' !in last
    ensures LastExtension(head + ['.'] + last, last)
  {
    var s := head + ['.'] + last;
    assert s[|head|] == '.';
    assert s[|head| + 1..] == last;
  }

  /** A join of several pieces ends with the separator and the last piece. */
  lemma {:induction false} JoinLast(parts: seq<string>, sep: char)
    requires |parts| >= 2
    ensures Join(parts, sep) == Join(parts[..|parts| - 1], sep) + [sep] + parts[|parts| - 1]
  {
    var n := |parts|;
    if n > 2 {
      JoinLast(parts[1..], sep);
      assert parts[1..][..n - 2] == parts[..n - 1][1..];
      assert parts[1..][n - 2] == parts[n - 1];
    }
  }

  /** The file type is the lower-cased text after the last `.` of the name. */
  lemma FileTypeSpec(name: string)
    ensures exists raw :: LastExtension(name, raw) && FileType(name) == Lower(raw)
  {
    var parts := Split(name, '.');
    SplitLastPiece(name);
    assert LastExtension(name, parts[|parts| - 1]);
  }

  /** `is_drm_protected(uploaded_file)`. `name` is `None` when reading the
      upload's name raises, which the outer handler turns into "not
      protected"; every failure of the PDF library or the zip reader is
      caught inside and turned into "protected". */
  function IsDrmProtected(name: Option<string>, data: Bytes,
                          openPdf: Bytes -> PdfOpen, openZip: Bytes -> ZipOpen): (r: bool)
    ensures name.None? ==> !r
    ensures name.Some? && FileType(name.value) == "pdf" ==>
              (r <==> openPdf(data).PdfOpenError? || openPdf(data).isEncrypted)
    ensures name.Some? && FileType(name.value) in OfficeTypes ==>
              (r <==> !openZip(data).ZipArchive? || ContentTypesEntry !in openZip(data).names)
    ensures name.Some? && FileType(name.value) != "pdf" && FileType(name.value) !in OfficeTypes ==> !r
  {
    match name
    case None => false
    case Some(n) =>
      var fileType := FileType(n);
      if fileType == "pdf" then
        match openPdf(data)
        case PdfOpenError => true
        case PdfDocument(encrypted) => encrypted
      else if fileType in OfficeTypes then
        match openZip(data)
        case NotZip => true
        case ZipOpenError => true
        case ZipArchive(names) => ContentTypesEntry !in names
      else
        false
  }

  /** Only the four supported extensions are inspected: for any other name
      the verdict does not depend on the bytes or on either library. */
  lemma OtherTypesNeverInspected(name: string, d1: Bytes, d2: Bytes,
                                 p1: Bytes -> PdfOpen, p2: Bytes -> PdfOpen,
                                 z1: Bytes -> ZipOpen, z2: Bytes -> ZipOpen)
    requires FileType(name) != "pdf" && FileType(name) !in OfficeTypes
    ensures IsDrmProtected(Some(name), d1, p1, z1) == IsDrmProtected(Some(name), d2, p2, z2) == false
  {
  }

  /** The text after the last `.` is determined by the name. */
  lemma LastExtensionUnique(name: string, a: string, b: string)
    requires LastExtension(name, a) && LastExtension(name, b)
    ensures a == b
  {
  }

  /** The file type of `stem.ext`, where `ext` has no dot, is `ext` in lower
      case: the test looks only past the last dot. */
  lemma FileTypeAfterLastDot(stem: string, ext: string)
    requires '.' !in ext
    ensures FileType(stem + "." + ext) == Lower(ext)
  {
    var name := stem + "." + ext;
    var parts := Split(name, '.');
    SplitLastPiece(name);
    assert name[|stem|] == '.';
    assert name[|name| - |ext|..] == ext;
    assert LastExtension(name, ext);
    LastExtensionUnique(name, parts[|parts| - 1], ext);
  }

  /** The extension test ignores case: `Report.PDF` is a PDF. */
  lemma FileTypeIgnoresCase()
    ensures FileType("Report.PDF") == "pdf"
  {
    FileTypeAfterLastDot("Report", "PDF");
    assert "Report" + "." + "PDF" == "Report.PDF";
    assert Lower("PDF") == "pdf";
  }

  /** Only the last extension counts: `minutes.pdf.docx` is a Word file. */
  lemma FileTypeUsesLastDot()
    ensures FileType("minutes.pdf.docx") == "docx"
  {
    FileTypeAfterLastDot("minutes.pdf", "docx");
    assert "minutes.pdf" + "." + "docx" == "minutes.pdf.docx";
    assert Lower("docx") == "docx";
  }
}
