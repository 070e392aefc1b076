/** The upload form of src/components/Upload.jsx: it keeps the chosen file
    in its state and lets only PDF files through to reading. */
module Upload {
  import opened Wrappers
  import opened Text

  /** A browser File; only its name is used. */
  datatype BrowserFile = BrowserFile(name: string)

  /** The form's `supportedTypes`. */
  const SupportedTypes: seq<string> := [".pdf"]

  /** `file.name.split('.').pop().toLowerCase()`. */
  function FileType(name: string): (r: string)
    ensures |r| == |LastPiece(name, '.')|
    ensures forall k :: 0 <= k < |r| ==> !IsUpper(r[k])
  {
    Lower(LastPiece(name, '.'))
  }

  /** `supportedTypes.includes(`.${fileType}`)`. */
  predicate Supported(fileType: string) {
    "." + fileType in SupportedTypes
  }

  /** How one file change ends: no file, a type the form refuses, the type
      guard of parseFile refusing, or the file being read. */
  datatype ChangeOutcome = NoFileSelected | UnsupportedType | ParseRefused | ReadStarted

  /** parseFile: anything but "pdf" is refused before the file is read. */
  function ParseFile(fileType: string): (r: ChangeOutcome)
    ensures r == ReadStarted <==> fileType == "pdf"
    ensures r != ReadStarted ==> r == ParseRefused
  {
    if fileType != "pdf" then ParseRefused else ReadStarted
  }

  /** The type test lets through exactly the type "pdf". */
  lemma SupportedIsPdf(fileType: string)
    ensures Supported(fileType) <==> fileType == "pdf"
  {
    if Supported(fileType) {
      assert "." + fileType == ".pdf";
      assert fileType == ("." + fileType)[1..];
    }
    if fileType == "pdf" {
      assert "." + fileType == ".pdf";
    }
  }

  /** The file type is the lower-cased text after the last '.' of the name,
      or of the whole name when it holds no '.'. */
  lemma FileTypeSpec(name: string)
    ensures exists i :: 0 <= i <= |name| && (i == 0 || name[i - 1] == '.') && '.' !in name[i..]
                        && FileType(name) == Lower(name[i..])
  {
    LastPieceSpec(name, '.');
    var p := LastPiece(name, '.');
    var i := |name| - |p|;
    assert FileType(name) == Lower(name[i..]);
  }

  /** Upper-case extensions are accepted. */
  lemma UpperCaseAccepted()
    ensures FileType("Statement.PDF") == "pdf" && Supported(FileType("Statement.PDF"))
  {
    LastPieceAfter("Statement.PDF", '.', 9);
    assert LastPiece("Statement.PDF", '.') == "PDF";
    SupportedIsPdf("pdf");
  }

  /** Only the last extension counts. */
  lemma LastExtensionCounts()
    ensures FileType("statement.pdf.zip") == "zip" && !Supported(FileType("statement.pdf.zip"))
  {
    LastPieceAfter("statement.pdf.zip", '.', 13);
    assert LastPiece("statement.pdf.zip", '.') == "zip";
    SupportedIsPdf("zip");
  }

  /** A name with no '.' is its own type: a file named "pdf" is let through. */
  lemma NameWithoutDot()
    ensures FileType("pdf") == "pdf" && Supported(FileType("pdf"))
  {
    LastPieceNoSep("pdf", '.');
    SupportedIsPdf("pdf");
  }

  /** The form's state: the file last chosen, or none. */
  class UploadForm {
    var file: Option<BrowserFile>

    constructor()
      ensures file == None
    {
      file := None;
    }

    /** handleFileChange over the input's file list: the first file is
        stored before anything is checked, so an unsupported file still
        replaces the stored one; only a PDF reaches reading, and so the
        guard of parseFile never refuses here. */
    method HandleFileChange(files: seq<BrowserFile>) returns (outcome: ChangeOutcome)
      modifies this
      ensures file == (if files == [] then None else Some(files[0]))
      ensures outcome == NoFileSelected <==> files == []
      ensures outcome == UnsupportedType <==> files != [] && FileType(files[0].name) != "pdf"
      ensures outcome == ReadStarted <==> files != [] && FileType(files[0].name) == "pdf"
      ensures outcome != ParseRefused
    {
      var chosen := if files == [] then None else Some(files[0]);
      file := chosen;
      if chosen.None? {
        return NoFileSelected;
      }
      var fileType := FileType(chosen.value.name);
      SupportedIsPdf(fileType);
      if !Supported(fileType) {
        return UnsupportedType;
      }
      outcome := ParseFile(fileType);
    }
  }
}
