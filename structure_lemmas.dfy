/** What the structure check reports, stated with substring occurrence. */
module StructureLemmas {
  import opened PyStrings
  import opened Structure

  /** The seven messages the check can produce are pairwise different. */
  lemma MessagesDistinct(t: string, u: string)
    requires t in StructureTags && u in StructureTags
    ensures MissingOpen(t) == MissingOpen(u) ==> t == u
    ensures MissingClose(t) == MissingClose(u) ==> t == u
    ensures MissingOpen(t) != MissingClose(u)
    ensures MissingOpen(t) != BadOrder && MissingClose(t) != BadOrder
  {
    var openHead, openTail := "index.html is missing <", "> tag.";
    var closeHead, closeTail := "index.html is missing </", "> closing tag.";
    assert MissingOpen(t) == openHead + t + openTail;
    assert MissingOpen(u) == openHead + u + openTail;
    assert MissingClose(t) == closeHead + t + closeTail;
    assert MissingClose(u) == closeHead + u + closeTail;
    // All three tag names have the same length, so the message lengths
    // differ between kinds and the tag sits at the same place within a kind.
    assert |t| == |u| == 4;
    assert |MissingOpen(t)| != |MissingClose(u)|;
    assert |MissingOpen(t)| != |BadOrder| && |MissingClose(t)| != |BadOrder|;
    if MissingOpen(t) == MissingOpen(u) {
      assert MissingOpen(t)[|openHead|..|openHead| + |t|] == t;
      assert MissingOpen(u)[|openHead|..|openHead| + |u|] == u;
    }
    if MissingClose(t) == MissingClose(u) {
      assert MissingClose(t)[|closeHead|..|closeHead| + |t|] == t;
      assert MissingClose(u)[|closeHead|..|closeHead| + |u|] == u;
    }
  }

  /** Each of the six markers occurs somewhere in the lower-cased text. */
  ghost predicate AllMarkersPresent(lowered: string) {
    Occurs(lowered, OpenMarker("html")) && Occurs(lowered, CloseMarker("html")) &&
    Occurs(lowered, OpenMarker("head")) && Occurs(lowered, CloseMarker("head")) &&
    Occurs(lowered, OpenMarker("body")) && Occurs(lowered, CloseMarker("body"))
  }

  /** The first occurrence of `p` comes strictly before the first occurrence of `q`. */
  ghost predicate FirstBefore(lowered: string, p: string, q: string) {
    forall i, j :: FirstAt(lowered, p, i) && FirstAt(lowered, q, j) ==> i < j
  }

  /**
   * The first occurrences come as `<html`, `<head`, `</head>`, `<body`,
   * `</body>`, `</html>`, each strictly after the previous one.
   */
  ghost predicate FirstOccurrencesInOrder(lowered: string) {
    FirstBefore(lowered, OpenMarker("html"), OpenMarker("head")) &&
    FirstBefore(lowered, OpenMarker("head"), CloseMarker("head")) &&
    FirstBefore(lowered, CloseMarker("head"), OpenMarker("body")) &&
    FirstBefore(lowered, OpenMarker("body"), CloseMarker("body")) &&
    FirstBefore(lowered, CloseMarker("body"), CloseMarker("html"))
  }

  /** For markers that occur, `FirstBefore` compares their `Find` positions. */
  lemma FirstBeforeFind(lowered: string, p: string, q: string)
    requires Occurs(lowered, p) && Occurs(lowered, q)
    ensures FirstBefore(lowered, p, q) <==> Find(lowered, p) < Find(lowered, q)
  {
    FirstAtFind(lowered, p);
    FirstAtFind(lowered, q);
    assert FirstAt(lowered, p, Find(lowered, p)) && FirstAt(lowered, q, Find(lowered, q));
  }

  /** Which messages the presence part reports for one tag name. */
  lemma TagPresenceIssuesContent(lowered: string, tag: string, m: string)
    requires tag in StructureTags
    ensures m in TagPresenceIssues(lowered, tag) <==>
              (m == MissingOpen(tag) && !Occurs(lowered, OpenMarker(tag))) ||
              (m == MissingClose(tag) && !Occurs(lowered, CloseMarker(tag)))
  {
  }

  /** The order issue is reported iff all markers occur and their first occurrences are out of order. */
  lemma OrderIssuesContent(lowered: string)
    ensures OrderIssues(lowered) == [] || OrderIssues(lowered) == [BadOrder]
    ensures OrderIssues(lowered) == [BadOrder] <==>
              AllMarkersPresent(lowered) && !FirstOccurrencesInOrder(lowered)
  {
    if AllMarkersPresent(lowered) {
      FirstBeforeFind(lowered, OpenMarker("html"), OpenMarker("head"));
      FirstBeforeFind(lowered, OpenMarker("head"), CloseMarker("head"));
      FirstBeforeFind(lowered, CloseMarker("head"), OpenMarker("body"));
      FirstBeforeFind(lowered, OpenMarker("body"), CloseMarker("body"));
      FirstBeforeFind(lowered, CloseMarker("body"), CloseMarker("html"));
    }
  }

  /** The issues are those of the three tags' presence checks and of the order check. */
  lemma InStructureIssues(content: string, m: string)
    ensures var l := Lower(content);
            m in StructureIssues(content) <==>
              m in TagPresenceIssues(l, "html") || m in TagPresenceIssues(l, "head") ||
              m in TagPresenceIssues(l, "body") || m in OrderIssues(l)
  {
  }

  /**
   * `index.html is missing <t> tag.` is reported iff `<t` does not occur in
   * the lower-cased content, and `... missing </t> closing tag.` iff `</t>`
   * does not, for each of html, head and body.
   */
  lemma MissingTagReportedIffAbsent(content: string, tag: string)
    requires tag in StructureTags
    ensures MissingOpen(tag) in StructureIssues(content) <==> !Occurs(Lower(content), OpenMarker(tag))
    ensures MissingClose(tag) in StructureIssues(content) <==> !Occurs(Lower(content), CloseMarker(tag))
  {
    var l := Lower(content);
    InStructureIssues(content, MissingOpen(tag));
    InStructureIssues(content, MissingClose(tag));
    MessagesDistinct(tag, "html");
    MessagesDistinct(tag, "head");
    MessagesDistinct(tag, "body");
    TagPresenceIssuesContent(l, "html", MissingOpen(tag));
    TagPresenceIssuesContent(l, "head", MissingOpen(tag));
    TagPresenceIssuesContent(l, "body", MissingOpen(tag));
    TagPresenceIssuesContent(l, "html", MissingClose(tag));
    TagPresenceIssuesContent(l, "head", MissingClose(tag));
    TagPresenceIssuesContent(l, "body", MissingClose(tag));
    OrderIssuesContent(l);
  }

  /**
   * The order issue is reported iff all six markers occur and their first
   * occurrences do not follow `<html < <head < </head> < <body < </body> < </html>`;
   * when it is reported it is the only issue.
   */
  lemma OrderIssueReportedIffMisordered(content: string)
    ensures BadOrder in StructureIssues(content) <==>
              AllMarkersPresent(Lower(content)) && !FirstOccurrencesInOrder(Lower(content))
    ensures BadOrder in StructureIssues(content) ==> StructureIssues(content) == [BadOrder]
  {
    var l := Lower(content);
    InStructureIssues(content, BadOrder);
    MessagesDistinct("html", "html");
    MessagesDistinct("head", "head");
    MessagesDistinct("body", "body");
    TagPresenceIssuesContent(l, "html", BadOrder);
    TagPresenceIssuesContent(l, "head", BadOrder);
    TagPresenceIssuesContent(l, "body", BadOrder);
    OrderIssuesContent(l);
  }

  /**
   * The structure check finds nothing iff all six markers occur and their
   * first occurrences are in document order.
   */
  lemma StructurePassesIffWellOrdered(content: string)
    ensures StructureIssues(content) == [] <==>
            AllMarkersPresent(Lower(content)) && FirstOccurrencesInOrder(Lower(content))
  {
    var l := Lower(content);
    MissingTagReportedIffAbsent(content, "html");
    MissingTagReportedIffAbsent(content, "head");
    MissingTagReportedIffAbsent(content, "body");
    OrderIssueReportedIffMisordered(content);
    var r := StructureIssues(content);
    if r != [] {
      var m := r[0];
      InStructureIssues(content, m);
      TagPresenceIssuesContent(l, "html", m);
      TagPresenceIssuesContent(l, "head", m);
      TagPresenceIssuesContent(l, "body", m);
      OrderIssuesContent(l);
    }
  }

  /** The presence issues for one tag name, stated with substring occurrence. */
  ghost function Absent(lowered: string, tag: string): seq<string> {
    (if !Occurs(lowered, OpenMarker(tag)) then [MissingOpen(tag)] else []) +
    (if !Occurs(lowered, CloseMarker(tag)) then [MissingClose(tag)] else [])
  }

  /**
   * The exact issue list, in the order it is built: opening then closing
   * tag for html, then head, then body, and the order issue last.
   */
  lemma StructureIssuesExact(content: string)
    ensures var l := Lower(content);
            StructureIssues(content) ==
              Absent(l, "html") + Absent(l, "head") + Absent(l, "body") +
              (if AllMarkersPresent(l) && !FirstOccurrencesInOrder(l) then [BadOrder] else [])
  {
    OrderIssuesContent(Lower(content));
  }

  /** No element of `s` occurs twice. */
  ghost predicate NoRepeats(s: seq<string>) {
    forall i, j :: 0 <= i < j < |s| ==> s[i] != s[j]
  }

  lemma NoRepeatsAppend(a: seq<string>, b: seq<string>)
    requires NoRepeats(a) && NoRepeats(b)
    requires forall m :: m in a ==> m !in b
    ensures NoRepeats(a + b)
  {
    forall i, j | 0 <= i < j < |a + b|
      ensures (a + b)[i] != (a + b)[j]
    {
      if j >= |a| && i < |a| {
        assert (a + b)[i] in a && (a + b)[j] in b;
      }
    }
  }

  /** The presence issues of one tag hold at most its two messages, once each. */
  lemma AbsentShape(lowered: string, tag: string)
    requires tag in StructureTags
    ensures NoRepeats(Absent(lowered, tag))
    ensures forall m :: m in Absent(lowered, tag) ==> m == MissingOpen(tag) || m == MissingClose(tag)
  {
    MessagesDistinct(tag, tag);
  }

  /** No message is reported twice. */
  lemma StructureIssuesNoRepeats(content: string)
    ensures NoRepeats(StructureIssues(content))
  {
    var l := Lower(content);
    StructureIssuesExact(content);
    var html, head, body := Absent(l, "html"), Absent(l, "head"), Absent(l, "body");
    var order := if AllMarkersPresent(l) && !FirstOccurrencesInOrder(l) then [BadOrder] else [];
    AbsentShape(l, "html");
    AbsentShape(l, "head");
    AbsentShape(l, "body");
    MessagesDistinct("html", "head");
    MessagesDistinct("head", "html");
    MessagesDistinct("html", "body");
    MessagesDistinct("body", "html");
    MessagesDistinct("head", "body");
    MessagesDistinct("body", "head");
    NoRepeatsAppend(html, head);
    NoRepeatsAppend(html + head, body);
    NoRepeatsAppend(html + head + body, order);
  }
}
