/**
 * The textual structure check of `index.html`: presence of the opening and
 * closing `html`, `head` and `body` tags, and the order of their first
 * occurrences, all by substring search in the lower-cased text.
 */
module Structure {
  import opened PyStrings

  function MissingOpen(tag: string): string {
    "index.html is missing <" + tag + "> tag."
  }

  function MissingClose(tag: string): string {
    "index.html is missing </" + tag + "> closing tag."
  }

  // Written as two literals only to keep its verification within the resource limit; the value is one message.
  const BadOrder: string := "index.html has an unexpected order of " + "<html>, <head>, and <body> tags."

  /** The tag names checked, in the order they are checked. */
  const StructureTags: seq<string> := ["html", "head", "body"]

  /** What is searched for to find an opening tag (attributes may follow). */
  function OpenMarker(tag: string): string { "<" + tag }

  /** What is searched for to find a closing tag. */
  function CloseMarker(tag: string): string { "</" + tag + ">" }

  /** The issues about one tag name: its opening tag, then its closing tag. */
  function TagPresenceIssues(lowered: string, tag: string): seq<string> {
    (if !Contains(lowered, OpenMarker(tag)) then [MissingOpen(tag)] else []) +
    (if !Contains(lowered, CloseMarker(tag)) then [MissingClose(tag)] else [])
  }

  /** The first-occurrence positions of the six markers (-1 when absent). */
  datatype Positions = Positions(
    htmlOpen: int, headOpen: int, headClose: int,
    bodyOpen: int, bodyClose: int, htmlClose: int)

  function FindPositions(lowered: string): Positions {
    Positions(
      Find(lowered, OpenMarker("html")), Find(lowered, OpenMarker("head")),
      Find(lowered, CloseMarker("head")), Find(lowered, OpenMarker("body")),
      Find(lowered, CloseMarker("body")), Find(lowered, CloseMarker("html")))
  }

  /** The order issue, checked only when all six markers were found. */
  function OrderIssues(lowered: string): seq<string> {
    var p := FindPositions(lowered);
    if p.htmlOpen != -1 && p.headOpen != -1 && p.headClose != -1 &&
       p.bodyOpen != -1 && p.bodyClose != -1 && p.htmlClose != -1
    then
      if !(p.htmlOpen < p.headOpen < p.headClose < p.bodyOpen < p.bodyClose < p.htmlClose)
      then [BadOrder] else []
    else []
  }

  /**
   * `_check_basic_html_structure`. At most six issues: the order issue is
   * only checked when all six markers were found, so it never comes with a
   * presence issue.
   */
  function StructureIssues(content: string): (r: seq<string>)
    ensures |r| <= 6
  {
    var lowered := Lower(content);
    TagPresenceIssues(lowered, "html") + TagPresenceIssues(lowered, "head") +
    TagPresenceIssues(lowered, "body") + OrderIssues(lowered)
  }
}
