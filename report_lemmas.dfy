/** Properties of the report assembly. */
module ReportLemmas {
  import opened Wrappers
  import opened PyStrings
  import opened TagBalance
  import opened Structure
  import opened CssLink
  import opened Report
  import TagBalanceLemmas
  import StructureLemmas

  ghost predicate StrictlyIncreasing(idx: seq<nat>) {
    forall a, b :: 0 <= a < b < |idx| ==> idx[a] < idx[b]
  }

  /** The positions of the nested archives in the listing, in increasing order. */
  function ZipPositions(names: seq<string>): (idx: seq<nat>)
    ensures StrictlyIncreasing(idx)
    ensures forall k :: 0 <= k < |idx| ==> idx[k] < |names|
    ensures forall j :: 0 <= j < |names| ==> (IsZipName(names[j]) <==> j in idx)
    decreases |names|
  {
    if names == [] then []
    else
      var n := |names| - 1;
      var front := ZipPositions(names[..n]);
      assert forall j :: 0 <= j < n ==> names[..n][j] == names[j];
      front + (if IsZipName(names[n]) then [n] else [])
  }

  /**
   * The nested-archive issues name exactly the members whose lower-cased
   * names end in `.zip`, one each, in listing order.
   */
  lemma {:induction false} NestedZipIssuesInListingOrder(names: seq<string>)
    ensures var idx := ZipPositions(names);
            |NestedZipIssues(names)| == |idx| &&
            forall k :: 0 <= k < |idx| ==> NestedZipIssues(names)[k] == NestedZip(names[idx[k]])
    decreases |names|
  {
    if names != [] {
      var n := |names| - 1;
      var front := names[..n];
      NestedZipIssuesInListingOrder(front);
      assert forall j :: 0 <= j < n ==> front[j] == names[j];
      var last: seq<string> := if IsZipName(names[n]) then [NestedZip(names[n])] else [];
      var lastIdx: seq<nat> := if IsZipName(names[n]) then [n] else [];
      assert ZipPositions(names) == ZipPositions(front) + lastIdx;
      assert NestedZipIssues(names) == NestedZipIssues(front) + last;
    }
  }

  /** No nested-archive issue iff no member name ends in `.zip`. */
  lemma NoNestedZipIssues(names: seq<string>)
    ensures NestedZipIssues(names) == [] <==> forall j :: 0 <= j < |names| ==> !IsZipName(names[j])
  {
    NestedZipIssuesInListingOrder(names);
    var idx := ZipPositions(names);
    if idx != [] {
      assert IsZipName(names[idx[0]]);
    }
  }

  /** An archive that cannot be opened yields exactly the one "Could not open" issue. */
  lemma UnopenableArchive(filename: string, tokenize: string -> Tokenized)
    ensures CheckZip(filename, None, tokenize).formatIssues == [OpenFailed]
    ensures !CheckZip(filename, None, tokenize).formatOk
  {
  }

  /** The nested-archive issues always come first. */
  lemma NestedZipsReportedFirst(filename: string, a: Archive, tokenize: string -> Tokenized)
    ensures var issues := CheckZip(filename, Some(a), tokenize).formatIssues;
            |NestedZipIssues(a.names)| <= |issues| &&
            issues[..|NestedZipIssues(a.names)|] == NestedZipIssues(a.names)
  {
    var nested := NestedZipIssues(a.names);
    var archiveIssues := InspectArchive(Some(a)).1;
    var rest: seq<string>;
    if "index.html" !in a.names {
      rest := [NoIndex] + StyleIssues(a.names);
    } else {
      match a.index
      case Text(_) => rest := StyleIssues(a.names);
      case NotFound => rest := [IndexUnreadable] + StyleIssues(a.names);
      case Corrupt => rest := [OpenFailed];
    }
    assert archiveIssues == nested + rest;
    var issues := CheckZip(filename, Some(a), tokenize).formatIssues;
    assert issues[..|archiveIssues|] == archiveIssues;
    assert issues[..|nested|] == archiveIssues[..|nested|];
  }

  /** What the archive inspection obtained as the text of `index.html`. */
  function IndexContent(archive: Option<Archive>): Option<string> {
    InspectArchive(archive).0
  }

  /**
   * Without the text of `index.html` none of the content checks runs: the
   * report does not depend on the tokenizer and holds only the archive
   * issues, among them the one that says why the text is missing.
   */
  lemma NoIndexTextSkipsContentChecks(filename: string, archive: Option<Archive>,
                                      tokenize: string -> Tokenized, other: string -> Tokenized)
    requires IndexContent(archive) == None
    ensures CheckZip(filename, archive, tokenize) == CheckZip(filename, archive, other)
    ensures CheckZip(filename, archive, tokenize).formatIssues == InspectArchive(archive).1
    ensures archive.Some? && "index.html" !in archive.value.names ==>
              NoIndex in CheckZip(filename, archive, tokenize).formatIssues
    ensures archive.Some? && "index.html" in archive.value.names && archive.value.index.NotFound? ==>
              IndexUnreadable in CheckZip(filename, archive, tokenize).formatIssues
    ensures archive.None? || ("index.html" in archive.value.names && archive.value.index.Corrupt?) ==>
              OpenFailed in CheckZip(filename, archive, tokenize).formatIssues
  {
  }

  // ---------------------------------------------------------------------
  // Which stage a message comes from.
  // ---------------------------------------------------------------------

  /** How often `m` occurs in `s`. */
  function Count(s: seq<string>, m: string): (n: nat)
    ensures n == 0 <==> m !in s
    ensures n <= |s|
  {
    if s == [] then 0 else (if s[0] == m then 1 else 0) + Count(s[1..], m)
  }

  lemma {:induction false} CountAppend(a: seq<string>, b: seq<string>, m: string)
    ensures Count(a + b, m) == Count(a, m) + Count(b, m)
    decreases |a|
  {
    if a == [] {
      assert a + b == b;
    } else {
      assert (a + b)[1..] == a[1..] + b;
      CountAppend(a[1..], b, m);
    }
  }

  /** The leading characters that tell the archive-level messages apart. */
  lemma ArchiveMessageHeads()
    ensures NoIndex[..4] == "No i" && NoStyle[..4] == "No s"
    ensures IndexUnreadable[..11] == "Could not r" && OpenFailed[..11] == "Could not o"
  {
  }

  /** Every nested-archive issue starts with "Nest". */
  lemma {:induction false} NestedZipIssuesPrefix(names: seq<string>)
    ensures forall m :: m in NestedZipIssues(names) ==> |m| >= 4 && m[..4] == "Nest"
    decreases |names|
  {
    if names != [] {
      NestedZipIssuesPrefix(names[..|names| - 1]);
    }
  }

  /** `m` begins with `p`. */
  ghost predicate StartsWith(m: string, p: string) {
    |p| <= |m| && m[..|p|] == p
  }

  lemma StartsWithConcat(a: string, b: string, p: string)
    requires StartsWith(a, p)
    ensures StartsWith(a + b, p)
  {
    assert (a + b)[..|p|] == a[..|p|];
  }

  /**
   * Messages produced by the checks on the text of `index.html`: they start
   * with "index.html", "Unexpected", "Mismatched", "Unclosed" or "HTML parsing".
   */
  ghost predicate ContentMessage(m: string) {
    StartsWith(m, "index.html") || StartsWith(m, "Unexpected") || StartsWith(m, "Mismatched") ||
    StartsWith(m, "Unclosed") || StartsWith(m, "HTML parsing")
  }

  /** The first character of a content message, which no archive-level message starts with. */
  ghost predicate ContentHead(m: string) {
    |m| > 0 && (m[0] == 'i' || m[0] == 'U' || m[0] == 'M' || m[0] == 'H')
  }

  lemma ContentMessagesHaveContentHead(s: seq<string>)
    requires forall m :: m in s ==> ContentMessage(m)
    ensures forall m :: m in s ==> ContentHead(m)
  {
    forall m | m in s
      ensures ContentHead(m)
    {
      var p := if StartsWith(m, "index.html") then "index.html"
               else if StartsWith(m, "Unexpected") then "Unexpected"
               else if StartsWith(m, "Mismatched") then "Mismatched"
               else if StartsWith(m, "Unclosed") then "Unclosed"
               else "HTML parsing";
      assert m[0] == m[..|p|][0] == p[0];
    }
  }

  /** Each tag-balance message starts with its fixed word. */
  lemma BalanceMessagePrefixes(t: string, e: string)
    ensures StartsWith(UnexpectedClosing(t), "Unexpected")
    ensures StartsWith(Mismatched(t, e), "Mismatched")
    ensures StartsWith(Unclosed(t), "Unclosed")
    ensures StartsWith(ParseError, "HTML parsing")
  {
    StartsWithConcat("Unexpected closing tag </", t, "Unexpected");
    StartsWithConcat("Unexpected closing tag </" + t, ">.", "Unexpected");
    var mm := "Mismatched closing tag </";
    StartsWithConcat(mm, t, "Mismatched");
    StartsWithConcat(mm + t, "> (expected </", "Mismatched");
    StartsWithConcat(mm + t + "> (expected </", e, "Mismatched");
    StartsWithConcat(mm + t + "> (expected </" + e, ">).", "Mismatched");
    StartsWithConcat("Unclosed tag <", t, "Unclosed");
    StartsWithConcat("Unclosed tag <" + t, ">.", "Unclosed");
    StartsWithConcat("HTML parsing error ", "(possibly malformed tags).", "HTML parsing");
  }

  /** Each structure and CSS-link message starts with "index.html". */
  lemma StructureMessagePrefixes(t: string)
    ensures StartsWith(MissingOpen(t), "index.html")
    ensures StartsWith(MissingClose(t), "index.html")
    ensures StartsWith(BadOrder, "index.html")
    ensures StartsWith(NoCssLink, "index.html")
  {
    StartsWithConcat("index.html is missing <", t, "index.html");
    StartsWithConcat("index.html is missing <" + t, "> tag.", "index.html");
    StartsWithConcat("index.html is missing </", t, "index.html");
    StartsWithConcat("index.html is missing </" + t, "> closing tag.", "index.html");
    StartsWithConcat("index.html has an unexpected order of ", "<html>, <head>, and <body> tags.", "index.html");
  }

  /** The events only ever add "Unexpected" and "Mismatched" issues. */
  lemma {:induction false} RunIssuesAreContentMessages(events: seq<Event>)
    ensures forall m :: m in Run(Init, events).issues ==> ContentMessage(m)
    decreases |events|
  {
    if events != [] {
      var n := |events| - 1;
      RunIssuesAreContentMessages(events[..n]);
      var s := Run(Init, events[..n]);
      match events[n]
      case End(t) =>
        if s.stack != [] {
          BalanceMessagePrefixes(t, s.stack[|s.stack| - 1]);
        } else {
          BalanceMessagePrefixes(t, t);
        }
      case _ =>
    }
  }

  /** The structure check's messages all start with "index.html". */
  lemma StructureIssuesAreContentMessages(content: string)
    ensures forall m :: m in StructureIssues(content) ==> ContentMessage(m)
  {
    forall m | m in StructureIssues(content)
      ensures ContentMessage(m)
    {
      var l := Lower(content);
      StructureMessagePrefixes("html");
      StructureMessagePrefixes("head");
      StructureMessagePrefixes("body");
      StructureLemmas.InStructureIssues(content, m);
      StructureLemmas.TagPresenceIssuesContent(l, "html", m);
      StructureLemmas.TagPresenceIssuesContent(l, "head", m);
      StructureLemmas.TagPresenceIssuesContent(l, "body", m);
      StructureLemmas.OrderIssuesContent(l);
    }
  }

  /** The tag-balance check's messages start with "Unexpected", "Mismatched", "Unclosed" or "HTML parsing". */
  lemma BalanceIssuesAreContentMessages(t: Tokenized)
    ensures forall m :: m in BalanceIssues(t) ==> ContentMessage(m)
  {
    var s := Run(Init, t.events);
    RunIssuesAreContentMessages(t.events);
    forall m | m in UnclosedIssues(s.stack)
      ensures ContentMessage(m)
    {
      var i :| 0 <= i < |s.stack| && m == Unclosed(s.stack[i]);
      BalanceMessagePrefixes(s.stack[i], "");
    }
    BalanceMessagePrefixes("", "");
  }

  /**
   * The content checks only produce messages starting with "index.html",
   * "Unexpected", "Mismatched", "Unclosed" or "HTML parsing", and so never an
   * archive-level message.
   */
  lemma ContentIssuesAreContentMessages(content: string, tokenize: string -> Tokenized)
    ensures forall m :: m in ContentIssues(content, tokenize) ==> ContentMessage(m)
    ensures NoIndex !in ContentIssues(content, tokenize) && NoStyle !in ContentIssues(content, tokenize)
    ensures IndexUnreadable !in ContentIssues(content, tokenize) && OpenFailed !in ContentIssues(content, tokenize)
    ensures forall name :: NestedZip(name) !in ContentIssues(content, tokenize)
  {
    StructureIssuesAreContentMessages(content);
    BalanceIssuesAreContentMessages(tokenize(content));
    StructureMessagePrefixes("");
    var issues := ContentIssues(content, tokenize);
    ContentMessagesHaveContentHead(issues);
    ArchiveMessageHeads();
    forall name
      ensures NestedZip(name) !in issues
    {
      assert NestedZip(name)[0] == 'N';
    }
  }

  /**
   * A corrupt `index.html` ends the archive checks: the nested-archive issues,
   * then "Could not open zip file", and no stylesheet issue and no content
   * check.
   */
  lemma CorruptIndexReportsOpenFailed(filename: string, names: seq<string>, tokenize: string -> Tokenized)
    requires "index.html" in names
    ensures CheckZip(filename, Some(Archive(names, Corrupt)), tokenize).formatIssues
         == NestedZipIssues(names) + [OpenFailed]
    ensures !CheckZip(filename, Some(Archive(names, Corrupt)), tokenize).formatOk
  {
  }

  /** The issues of the content checks, when the text of `index.html` was obtained. */
  function ContentPart(archive: Option<Archive>, tokenize: string -> Tokenized): seq<string> {
    match IndexContent(archive)
    case Some(c) => ContentIssues(c, tokenize)
    case None => []
  }

  /** A report's issues are the archive issues followed by the content issues. */
  lemma IssuesSplit(filename: string, archive: Option<Archive>, tokenize: string -> Tokenized)
    ensures CheckZip(filename, archive, tokenize).formatIssues ==
              InspectArchive(archive).1 + ContentPart(archive, tokenize)
    ensures forall m :: m in ContentPart(archive, tokenize) ==> ContentHead(m)
  {
    var index := IndexContent(archive);
    if index.Some? {
      ContentIssuesAreContentMessages(index.value, tokenize);
      ContentMessagesHaveContentHead(ContentPart(archive, tokenize));
    }
  }

  /** A message that does not start with "Nest" is no nested-archive issue. */
  lemma NotNestedZipIssue(names: seq<string>, m: string)
    requires |m| >= 4 && m[..4] != "Nest"
    ensures m !in NestedZipIssues(names)
  {
    NestedZipIssuesPrefix(names);
  }

  /** No nested-archive issue is one of the other archive-level messages. */
  lemma NestedZipIssuesAreNotArchiveMessages(names: seq<string>)
    ensures NoIndex !in NestedZipIssues(names) && NoStyle !in NestedZipIssues(names)
    ensures IndexUnreadable !in NestedZipIssues(names) && OpenFailed !in NestedZipIssues(names)
  {
    ArchiveMessageHeads();
    NotNestedZipIssue(names, NoIndex);
    NotNestedZipIssue(names, NoStyle);
    assert IndexUnreadable[..4] == IndexUnreadable[..11][..4];
    NotNestedZipIssue(names, IndexUnreadable);
    assert OpenFailed[..4] == OpenFailed[..11][..4];
    NotNestedZipIssue(names, OpenFailed);
  }

  /** The archive issues after the nested-archive ones. */
  function ArchiveTail(a: Archive): seq<string> {
    if "index.html" !in a.names then [NoIndex] + StyleIssues(a.names)
    else match a.index
         case Text(_) => StyleIssues(a.names)
         case NotFound => [IndexUnreadable] + StyleIssues(a.names)
         case Corrupt => [OpenFailed]
  }

  lemma ArchiveIssuesSplit(a: Archive)
    ensures InspectArchive(Some(a)).1 == NestedZipIssues(a.names) + ArchiveTail(a)
  {
  }

  /** The archive checks report a missing stylesheet unless a corrupt `index.html` cut them short. */
  lemma ArchiveStyleIssue(archive: Option<Archive>)
    ensures NoStyle in InspectArchive(archive).1 <==>
              archive.Some? &&
              !("index.html" in archive.value.names && archive.value.index.Corrupt?) &&
              !("style.css" in archive.value.names || "css/style.css" in archive.value.names)
  {
    ArchiveMessageHeads();
    assert NoStyle != OpenFailed;
    if archive.Some? {
      var a := archive.value;
      ArchiveIssuesSplit(a);
      NestedZipIssuesAreNotArchiveMessages(a.names);
      assert NoStyle != NoIndex && NoStyle != IndexUnreadable;
      assert NoStyle in ArchiveTail(a) <==>
               !("index.html" in a.names && a.index.Corrupt?) &&
               !("style.css" in a.names || "css/style.css" in a.names);
    }
  }

  /**
   * The stylesheet issue is reported iff the archive opened, reading
   * `index.html` did not fail as a corrupt archive, and neither `style.css`
   * nor `css/style.css` is listed.
   */
  lemma StyleIssueIffNoStylesheet(filename: string, archive: Option<Archive>, tokenize: string -> Tokenized)
    ensures NoStyle in CheckZip(filename, archive, tokenize).formatIssues <==>
              archive.Some? &&
              !("index.html" in archive.value.names && archive.value.index.Corrupt?) &&
              !("style.css" in archive.value.names || "css/style.css" in archive.value.names)
  {
    IssuesSplit(filename, archive, tokenize);
    ArchiveStyleIssue(archive);
    ArchiveMessageHeads();
  }

  /** How often the three index-related messages occur in `s`, together. */
  function IndexIssueCount(s: seq<string>): nat {
    Count(s, NoIndex) + Count(s, IndexUnreadable) + Count(s, OpenFailed)
  }

  lemma IndexIssueCountAppend(a: seq<string>, b: seq<string>)
    ensures IndexIssueCount(a + b) == IndexIssueCount(a) + IndexIssueCount(b)
  {
    CountAppend(a, b, NoIndex);
    CountAppend(a, b, IndexUnreadable);
    CountAppend(a, b, OpenFailed);
  }

  /** The archive issues of an archive that opened hold one index-related message, unless the text was read. */
  lemma ArchiveIndexIssueCount(a: Archive)
    ensures IndexIssueCount(InspectArchive(Some(a)).1) ==
              if IndexContent(Some(a)) == None then 1 else 0
  {
    ArchiveMessageHeads();
    var nested, style := NestedZipIssues(a.names), StyleIssues(a.names);
    NestedZipIssuesAreNotArchiveMessages(a.names);
    assert IndexIssueCount(nested) == 0;
    assert NoStyle != NoIndex && NoStyle != IndexUnreadable && NoStyle != OpenFailed;
    assert IndexIssueCount(style) == 0;
    assert NoIndex != IndexUnreadable && NoIndex != OpenFailed && IndexUnreadable != OpenFailed;
    assert IndexIssueCount([NoIndex]) == 1;
    assert IndexIssueCount([IndexUnreadable]) == 1;
    assert IndexIssueCount([OpenFailed]) == 1;
    ArchiveIssuesSplit(a);
    IndexIssueCountAppend(nested, ArchiveTail(a));
    if "index.html" !in a.names {
      IndexIssueCountAppend([NoIndex], style);
    } else if a.index.NotFound? {
      IndexIssueCountAppend([IndexUnreadable], style);
    }
  }

  /**
   * Exactly one of "No index.html", "Could not read index.html" and "Could
   * not open zip file" is reported, once, when the text of `index.html` was
   * not obtained, and none of them otherwise.
   */
  lemma IndexIssueExactlyOnce(filename: string, archive: Option<Archive>, tokenize: string -> Tokenized)
    ensures IndexIssueCount(CheckZip(filename, archive, tokenize).formatIssues) ==
              if IndexContent(archive) == None then 1 else 0
  {
    IssuesSplit(filename, archive, tokenize);
    var content := ContentPart(archive, tokenize);
    ArchiveMessageHeads();
    assert IndexIssueCount(content) == 0;
    IndexIssueCountAppend(InspectArchive(archive).1, content);
    if archive.Some? {
      ArchiveIndexIssueCount(archive.value);
    } else {
      assert IndexIssueCount([OpenFailed]) == 1;
    }
  }

  /**
   * A submission passes iff the archive opens, holds no nested archive,
   * `index.html` reads, a stylesheet is present, and the text passes the
   * structure check, the tag-balance check and the CSS-link check.
   */
  lemma FormatOkIffAllChecksPass(filename: string, archive: Option<Archive>, tokenize: string -> Tokenized)
    ensures CheckZip(filename, archive, tokenize).formatOk <==>
      archive.Some? &&
      (forall j :: 0 <= j < |archive.value.names| ==> !IsZipName(archive.value.names[j])) &&
      "index.html" in archive.value.names && archive.value.index.Text? &&
      ("style.css" in archive.value.names || "css/style.css" in archive.value.names) &&
      StructureIssues(archive.value.index.content) == [] &&
      BalanceIssues(tokenize(archive.value.index.content)) == [] &&
      PatternMatches(archive.value.index.content)
  {
    if archive.Some? {
      NoNestedZipIssues(archive.value.names);
    }
  }

  /**
   * An archive with `index.html` and a stylesheet and no nested archive,
   * whose page has the six markers in order, correctly nested tags and a
   * stylesheet link, gets a passing report with no issue.
   */
  lemma WellFormedSubmissionPasses(filename: string, names: seq<string>, content: string,
                                   tokenize: string -> Tokenized, page: seq<TagBalanceLemmas.Node>)
    requires "index.html" in names && ("style.css" in names || "css/style.css" in names)
    requires forall j :: 0 <= j < |names| ==> !IsZipName(names[j])
    requires StructureLemmas.AllMarkersPresent(Lower(content))
    requires StructureLemmas.FirstOccurrencesInOrder(Lower(content))
    requires TagBalanceLemmas.WellFormedForest(page)
    requires tokenize(content) == Tokenized(TagBalanceLemmas.ForestEvents(page), false)
    requires PatternMatches(content)
    ensures CheckZip(filename, Some(Archive(names, Text(content))), tokenize)
         == Report(None, filename, AssignmentName, true, [])
  {
    NoNestedZipIssues(names);
    StructureLemmas.StructurePassesIffWellOrdered(content);
    TagBalanceLemmas.BalancedInputHasNoIssues(page);
  }
}
