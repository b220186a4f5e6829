# Submission format checker — Dafny model

This project models the core of `check_format.py`, a tool that checks that a
student's ZIP submission holds a minimally well-formed static web page
(`index.html` plus a stylesheet) and produces one report per submission:

- **Tag-balance validator** (`TagBalance`, `TagBalanceLemmas`): the
  `HTMLStructureValidator` class is a Dafny `class Validator` with a `stack`
  and an `issues` field, updated in place by `HandleStartTag`,
  `HandleStartEndTag`, `HandleEndTag` and `Finalize`. `CheckTagBalance` feeds
  the tokenizer's events to a fresh validator in a loop, records a tokenizer
  failure, and finalizes. It is proved equal to the specification function
  `BalanceIssues`, which is defined by a pure `Step`/`Run` over the event
  sequence; the lemmas are stated about that function.
- **Textual structure check** (`Structure`, `StructureLemmas`):
  `_check_basic_html_structure` as a pure function over the lower-cased text,
  built on a model of Python's `str.find` (`PyStrings`).
- **CSS link detection** (`CssLink`): the regular expression
  `<link[^>]+href="[^"]+\.css"` (case-insensitive search) written out as a
  matcher, proved equivalent to a declarative statement of when the pattern
  matches.
- **Report assembly** (`Report`, `ReportLemmas`): the decision logic of
  `check_zip_file` over an abstract archive: whether it opened, its member
  names in listing order, and what reading `index.html` gave. The HTML
  tokenizer is a parameter `tokenize: string -> Tokenized` that gives the
  events it dispatched and whether it raised afterwards.

Three behaviours of the code are worth stating explicitly:

- `finalize` walks the stack from the bottom, so the outermost unclosed tag
  is reported first (`UnclosedReportedOutermostFirst`).
- `index.html` is decoded as UTF-8 with invalid bytes silently dropped
  (`errors="ignore"`). Decoding is outside the model: the archive gives the
  decoded text.
- A `BadZipFile` or `OSError` raised while reading `index.html` is caught by
  the same handler as a failure to open the archive. The "Could not open zip
  file" issue then follows the nested-archive issues already found, and the
  stylesheet check does not run (`IndexRead.Corrupt` in `Report.InspectArchive`,
  `ReportLemmas.CorruptIndexReportsOpenFailed`).

## Model

| member | source | states |
|---|---|---|
| TagBalance.Validator.constructor | check_format.py:101-104 | a new validator has an empty stack and no issues |
| TagBalance.Validator.HandleStartTag | check_format.py:106-108 | a void start tag changes nothing; any other start tag is pushed and nothing else changes; the stack keeps no void name |
| TagBalance.Validator.HandleStartEndTag | check_format.py:110-112 | a self-closing tag changes neither the stack nor the issues, whatever its name |
| TagBalance.Validator.HandleEndTag | check_format.py:114-128 | void end tag: nothing changes; empty stack: exactly one "Unexpected closing tag" issue, stack stays empty; otherwise exactly one entry is popped and a "Mismatched closing tag" issue naming the popped tag is added iff it differs from the tag |
| TagBalance.Validator.Finalize | check_format.py:130-133 | the stack is unchanged; exactly one "Unclosed tag" issue per stack entry is appended, bottom of the stack first, after the earlier issues |
| TagBalance.CheckTagBalance | check_format.py:136-149 | the loop over the events, the parse-error issue on tokenizer failure and the final drain return exactly `BalanceIssues` of the tokenizer output |
| TagBalanceLemmas.RunKeepsNoVoid | check_format.py:106-118 | from a stack with no void name, any events leave a stack with no void name |
| TagBalanceLemmas.RunOnlyAppendsIssues | check_format.py:114-128 | events only append issues: earlier issues stay, in place |
| TagBalanceLemmas.NodeLeavesStateUnchanged | check_format.py:106-128 | the events of a correctly nested element leave stack and issues exactly as they were |
| TagBalanceLemmas.BalancedInputHasNoIssues | check_format.py:136-149 | a correctly nested document, fully tokenized, yields no issue |
| TagBalanceLemmas.NoIssuesOnlyForBalancedInput | check_format.py:136-149 | if a fully tokenized document yields no issue, its events are those of a correctly nested document |
| TagBalanceLemmas.NoIssuesIffBalanced | check_format.py:136-149 | no issue iff the events are those of a correctly nested document (both directions) |
| TagBalanceLemmas.IgnoredEventChangesNothing | check_format.py:106-118 | inserting a self-closing tag, or a start or end tag of a void element, anywhere in the events does not change the returned issues |
| TagBalanceLemmas.TokenizerFailureAddsParseError | check_format.py:142-148 | a tokenizer failure adds exactly one parse-error issue, after the issues found in the events and before the unclosed-tag issues |
| TagBalanceLemmas.CrossedTagsGiveTwoMismatches | check_format.py:120-128 | `<a><b></a></b>` gives "</a> expected </b>" then "</b> expected </a>" and nothing else |
| TagBalanceLemmas.MismatchLeavesOuterTagOpen | check_format.py:124-133 | `<div><span></div>` gives one mismatch (expected </span>) and then "Unclosed tag <div>" |
| TagBalanceLemmas.UnclosedReportedOutermostFirst | check_format.py:130-133 | `<a><b>` gives "Unclosed tag <a>" before "Unclosed tag <b>" |
| PyStrings.Find | check_format.py:59-62 | `find` returns -1 iff the marker does not occur, otherwise the index of its first occurrence |
| PyStrings.Contains | check_format.py:53-55 | `in` on strings holds iff the marker occurs as a substring |
| Structure.StructureIssues | check_format.py:41-86 | at most six issues: the order issue is only checked when all six markers were found, so it never comes with a presence issue |
| StructureLemmas.StructureIssuesExact | check_format.py:41-86 | the exact issue list in detection order: missing `<html`, `</html>`, `<head`, `</head>`, `<body`, `</body>` (each iff the marker does not occur in the lower-cased text), then the order issue last, iff all markers occur and their first occurrences are out of order |
| StructureLemmas.StructureIssuesNoRepeats | check_format.py:41-86 | no message appears twice in the list |
| StructureLemmas.MissingTagReportedIffAbsent | check_format.py:52-56 | for html, head and body: "missing <t> tag" iff `<t` does not occur in the lower-cased text, "missing </t> closing tag" iff `</t>` does not |
| StructureLemmas.OrderIssuesContent | check_format.py:64-84 | the order part is empty or the single order issue, and it is the issue iff all six markers occur and their first occurrences are not in document order |
| StructureLemmas.OrderIssueReportedIffMisordered | check_format.py:59-84 | the order issue is reported iff all six markers occur and their first occurrences are out of order; when reported it is the only issue |
| StructureLemmas.StructurePassesIffWellOrdered | check_format.py:41-86 | no structure issue iff all six markers occur with first occurrences `<html` < `<head` < `</head>` < `<body` < `</body>` < `</html>` |
| CssLink.HasCssLink | check_format.py:36-38 | true iff the pattern `<link[^>]+href="[^"]+\.css"` matches somewhere in the text, ignoring ASCII case |
| CssLink.LinkFrom | check_format.py:11 | the search finds a match at or after a position iff one exists there |
| Report.CheckZip | check_format.py:152-207 | `format_ok` holds iff the issue list is empty; the archive issues come first, before any content issue; no student id, the file name and the assignment name are carried over |
| Report.InspectArchive | check_format.py:162-189 | the text of `index.html` is obtained iff the archive opens, `index.html` is listed and reading it succeeds, and it is then the member's text; for an archive that opens, the nested-archive issues come first |
| ReportLemmas.ZipPositions | check_format.py:170-171 | the positions of the members whose lower-cased names end in `.zip`, increasing, and no other |
| ReportLemmas.NestedZipIssuesInListingOrder | check_format.py:170-172 | one "Nested zip found" issue per such member, naming it, in listing order |
| ReportLemmas.NoNestedZipIssues | check_format.py:170-172 | no nested-archive issue iff no member name ends in `.zip` |
| ReportLemmas.UnopenableArchive | check_format.py:188-189 | an archive that does not open gives exactly the one "Could not open zip file" issue and fails |
| ReportLemmas.NestedZipsReportedFirst | check_format.py:162-172 | the nested-archive issues are the first issues of the report |
| ReportLemmas.NoIndexTextSkipsContentChecks | check_format.py:162-198 | without the text of `index.html` the report does not depend on the tokenizer and holds only the archive issues: "No index.html" when it is not listed, "Could not read" when reading raised `KeyError`, "Could not open zip file" when the archive or the member read was corrupt |
| ReportLemmas.IndexIssueExactlyOnce | check_format.py:162-198 | the three messages "No index.html", "Could not read index.html" and "Could not open zip file" together occur exactly once when the text of `index.html` was not obtained, and not at all otherwise |
| ReportLemmas.CorruptIndexReportsOpenFailed | check_format.py:174-189 | a listed `index.html` whose read fails as a corrupt archive gives exactly the nested-archive issues followed by "Could not open zip file": no stylesheet issue and no content check |
| ReportLemmas.StyleIssueIffNoStylesheet | check_format.py:162-189 | "No style.css found" is reported iff the archive opened, reading `index.html` did not fail as a corrupt archive, and neither `style.css` nor `css/style.css` is listed |
| ReportLemmas.ContentIssuesAreContentMessages | check_format.py:191-198 | the structure, tag-balance and CSS-link checks only produce messages starting with "index.html", "Unexpected", "Mismatched", "Unclosed" or "HTML parsing", and never "No index.html", "Could not read", "No style.css", "Could not open" or a "Nested zip found" message |
| ReportLemmas.FormatOkIffAllChecksPass | check_format.py:152-207 | a report passes iff the archive opens, no member is a nested archive, `index.html` reads, a stylesheet is present, and structure, tag balance and CSS link all pass |
| ReportLemmas.WellFormedSubmissionPasses | check_format.py:152-207 | a submission with `index.html`, a stylesheet, ordered markers, correctly nested tags and a stylesheet link gets `format_ok` true and no issue |

## Left out

- `parse_args` and `main` (check_format.py:14-33, 210-225): argument checks, exit codes, directory iteration, creating the reports directory and writing the JSON reports are I/O.
- Opening the ZIP file, listing and reading members: the archive is an input (`Option<Archive>`), with the outcome of reading `index.html` as `Text`, `NotFound` (`KeyError`) or `Corrupt` (`BadZipFile`/`OSError`).
- Exceptions that `check_zip_file` does not catch (for instance an encrypted or unsupported-compression member while reading `index.html`) end the whole run in the source; the model has no such outcome.
- UTF-8 decoding with invalid bytes dropped: the decoded text is given.
- The HTML tokenizer (`html.parser.HTMLParser`), its lower-casing of tag names and the `attrs` it passes: the model takes its events, and whether it raised, as `tokenize`'s result.
- `student_id` is always `None` in the source, and the model carries it as `None`.
- PyStrings.Lower: lower-cases ASCII letters only, where Python's `str.lower()` follows Unicode; the markers searched for are ASCII, but a non-ASCII letter whose lower case is ASCII would be treated differently.
- CssLink.HasCssLink: case-insensitivity is modelled as ASCII lower-casing of the text; Python's `re.IGNORECASE` also matches a few non-ASCII letters (such as the Kelvin sign for `k`) that this does not.
