/**
 * The decision logic of `check_zip_file`: which issues an archive yields, in
 * which order, and the verdict derived from them. The archive is given by
 * the outcome of opening it, its member listing and the outcome of reading
 * `index.html`; the tokenizer is a parameter.
 */
module Report {
  import opened Wrappers
  import opened PyStrings
  import opened TagBalance
  import opened Structure
  import opened CssLink

  const AssignmentName: string := "hw1"

  /** What reading the `index.html` member gives. */
  datatype IndexRead =
    | Text(content: string)  // the bytes, decoded as UTF-8 with invalid bytes dropped
    | NotFound               // `KeyError` from the archive
    | Corrupt                // `BadZipFile` or `OSError` while reading the member

  /** An archive that could be opened: its member names in listing order, and how `index.html` reads. */
  datatype Archive = Archive(names: seq<string>, index: IndexRead)

  datatype Report = Report(
    studentId: Option<string>,
    filename: string,
    assignment: string,
    formatOk: bool,
    formatIssues: seq<string>)

  function NestedZip(name: string): string { "Nested zip found: " + name }

  // IndexUnreadable, NoStyle and OpenFailed are each written as two literals only to keep
  // verification within its resource limit; each value is the one message.
  const NoIndex: string := "No index.html found at zip root."
  const IndexUnreadable: string := "Could not read index.html " + "from the zip archive."
  const NoStyle: string := "No style.css found. " + "Expected style.css at root or css/style.css."
  const OpenFailed: string := "Could not open zip file " + "(corrupted or invalid)."
  const NoCssLink: string := "index.html does not link to a CSS file."

  /** A member that is itself an archive, judged by its name. */
  predicate IsZipName(name: string) {
    EndsWith(Lower(name), ".zip")
  }

  /** One issue per nested archive, in listing order. */
  function NestedZipIssues(names: seq<string>): seq<string>
    decreases |names|
  {
    if names == [] then []
    else
      var last := names[|names| - 1];
      NestedZipIssues(names[..|names| - 1]) + (if IsZipName(last) then [NestedZip(last)] else [])
  }

  /**
   * The archive-level issues and the decoded `index.html`, if any. A failure
   * to open the archive, or a corrupt `index.html`, ends the archive checks
   * with a single "Could not open" issue after what was already found.
   */
  function InspectArchive(archive: Option<Archive>): (r: (Option<string>, seq<string>))
    ensures r.0.Some? <==>
              archive.Some? && "index.html" in archive.value.names && archive.value.index.Text?
    ensures r.0.Some? ==> r.0.value == archive.value.index.content
    ensures archive.Some? ==>
              var nested := NestedZipIssues(archive.value.names);
              |nested| <= |r.1| && r.1[..|nested|] == nested
  {
    match archive
    case None => (None, [OpenFailed])
    case Some(a) =>
      var nested := NestedZipIssues(a.names);
      if "index.html" !in a.names then
        (None, nested + [NoIndex] + StyleIssues(a.names))
      else
        match a.index
        case Text(c) => (Some(c), nested + StyleIssues(a.names))
        case NotFound => (None, nested + [IndexUnreadable] + StyleIssues(a.names))
        case Corrupt => (None, nested + [OpenFailed])
  }

  function StyleIssues(names: seq<string>): seq<string> {
    if "style.css" in names || "css/style.css" in names then [] else [NoStyle]
  }

  /** The checks run on the text of `index.html`, in the order they are run. */
  function ContentIssues(content: string, tokenize: string -> Tokenized): seq<string> {
    StructureIssues(content) + BalanceIssues(tokenize(content)) +
    (if HasCssLink(content) then [] else [NoCssLink])
  }

  /** `check_zip_file`: the report for one submission. */
  function CheckZip(filename: string, archive: Option<Archive>, tokenize: string -> Tokenized): (r: Report)
    ensures r.formatOk <==> r.formatIssues == []
    ensures r.studentId == None && r.filename == filename && r.assignment == AssignmentName
    ensures var archiveIssues := InspectArchive(archive).1;
            |archiveIssues| <= |r.formatIssues| && r.formatIssues[..|archiveIssues|] == archiveIssues
  {
    var (index, archiveIssues) := InspectArchive(archive);
    var contentIssues := match index case Some(c) => ContentIssues(c, tokenize) case None => [];
    var issues := archiveIssues + contentIssues;
    assert issues[..|archiveIssues|] == archiveIssues;
    Report(None, filename, AssignmentName, |issues| == 0, issues)
  }
}
