/**
 * The tag-balance validator: an HTML tokenizer (not modelled; its output is
 * the input here) feeds start, self-closing and end events to a stack
 * machine that records unexpected, mismatched and unclosed tags.
 */
module TagBalance {

  /** The three callbacks the tokenizer drives, with the (lower-cased) tag name. */
  datatype Event = Start(name: string) | StartEnd(name: string) | End(name: string)

  /**
   * What the tokenizer produced for a document: the events it dispatched and
   * whether it then raised an exception (in which case `events` is the prefix
   * dispatched before the failure).
   */
  datatype Tokenized = Tokenized(events: seq<Event>, failed: bool)

  /** Elements that never have content, so never wait for a closing tag. */
  const VoidTags: set<string> :=
    {"area", "base", "br", "col", "embed", "hr", "img",
     "input", "link", "meta", "param", "source", "track", "wbr"}

  function UnexpectedClosing(tag: string): string {
    "Unexpected closing tag </" + tag + ">."
  }

  function Mismatched(tag: string, expected: string): string {
    "Mismatched closing tag </" + tag + "> (expected </" + expected + ">)."
  }

  function Unclosed(tag: string): string {
    "Unclosed tag <" + tag + ">."
  }

  // Written as two literals only to keep its verification within the resource limit; the value is one message.
  const ParseError: string := "HTML parsing error " + "(possibly malformed tags)."

  /** The invariant of the stack: no void element is ever waiting to be closed. */
  ghost predicate NoVoid(stack: seq<string>) {
    forall i :: 0 <= i < |stack| ==> stack[i] !in VoidTags
  }

  // ---------------------------------------------------------------------
  // Specification: the validator's state as a value, and its transitions.
  // ---------------------------------------------------------------------

  datatype State = State(stack: seq<string>, issues: seq<string>)

  const Init: State := State([], [])

  /** The effect of one event on the state. */
  function Step(s: State, e: Event): State {
    match e
    case Start(t) =>
      if t in VoidTags then s else s.(stack := s.stack + [t])
    case StartEnd(_) =>
      s
    case End(t) =>
      if t in VoidTags then s
      else if s.stack == [] then s.(issues := s.issues + [UnexpectedClosing(t)])
      else
        var expected := s.stack[|s.stack| - 1];
        State(s.stack[..|s.stack| - 1],
              if expected != t then s.issues + [Mismatched(t, expected)] else s.issues)
  }

  /** The state after feeding `events`, in order, starting from `s`. */
  function Run(s: State, events: seq<Event>): State
    decreases |events|
  {
    if events == [] then s
    else Step(Run(s, events[..|events| - 1]), events[|events| - 1])
  }

  /** One "Unclosed tag" issue per stack entry, bottom of the stack first. */
  function UnclosedIssues(stack: seq<string>): seq<string> {
    seq(|stack|, i requires 0 <= i < |stack| => Unclosed(stack[i]))
  }

  /**
   * The issues `_check_tag_balance` returns: run the events, add the
   * parse-error issue if the tokenizer failed, then report what is still open.
   */
  function BalanceIssues(t: Tokenized): seq<string> {
    var s := Run(Init, t.events);
    var issues := if t.failed then s.issues + [ParseError] else s.issues;
    issues + UnclosedIssues(s.stack)
  }

  // ---------------------------------------------------------------------
  // The validator object.
  // ---------------------------------------------------------------------

  class Validator {
    var stack: seq<string>
    var issues: seq<string>

    ghost predicate Valid()
      reads this
    {
      NoVoid(stack)
    }

    /** The validator's state as a value. */
    ghost function Snapshot(): State
      reads this
    {
      State(stack, issues)
    }

    constructor ()
      ensures Valid()
      ensures stack == [] && issues == []
    {
      stack := [];
      issues := [];
    }

    /** A void start tag is ignored; any other start tag is pushed. */
    method HandleStartTag(tag: string)
      requires Valid()
      modifies this
      ensures Valid()
      ensures issues == old(issues)
      ensures tag in VoidTags ==> stack == old(stack)
      ensures tag !in VoidTags ==> stack == old(stack) + [tag]
    {
      if tag !in VoidTags {
        stack := stack + [tag];
      }
    }

    /** A self-closing tag has nothing to close, whatever its name. */
    method HandleStartEndTag(tag: string)
      requires Valid()
      ensures Valid()
      ensures stack == old(stack) && issues == old(issues)
    {
    }

    /**
     * An end tag for a void element is ignored. Otherwise, with nothing open,
     * it is unexpected; else the innermost open tag is popped, and reported
     * if it is not the one being closed.
     */
    method HandleEndTag(tag: string)
      requires Valid()
      modifies this
      ensures Valid()
      ensures tag in VoidTags ==> stack == old(stack) && issues == old(issues)
      ensures tag !in VoidTags && old(stack) == [] ==>
        stack == [] && issues == old(issues) + [UnexpectedClosing(tag)]
      ensures tag !in VoidTags && old(stack) != [] ==>
        var expected := old(stack)[|old(stack)| - 1];
        stack == old(stack)[..|old(stack)| - 1] &&
        issues == old(issues) + (if expected != tag then [Mismatched(tag, expected)] else [])
    {
      if tag in VoidTags {
        return;
      }
      if stack == [] {
        issues := issues + [UnexpectedClosing(tag)];
        return;
      }
      var expected := stack[|stack| - 1];
      stack := stack[..|stack| - 1];
      if expected != tag {
        issues := issues + [Mismatched(tag, expected)];
      }
    }

    /** Reports every tag still open, from the bottom of the stack up; the stack is kept. */
    method Finalize()
      requires Valid()
      modifies this
      ensures Valid()
      ensures stack == old(stack)
      ensures |issues| == |old(issues)| + |stack|
      ensures issues[..|old(issues)|] == old(issues)
      ensures forall i :: 0 <= i < |stack| ==> issues[|old(issues)| + i] == Unclosed(stack[i])
    {
      for i := 0 to |stack|
        invariant stack == old(stack)
        invariant |issues| == |old(issues)| + i
        invariant issues[..|old(issues)|] == old(issues)
        invariant forall j :: 0 <= j < i ==> issues[|old(issues)| + j] == Unclosed(stack[j])
      {
        issues := issues + [Unclosed(stack[i])];
      }
    }
  }

  /** Feeds the events to a fresh validator, records a tokenizer failure, then finalizes. */
  method CheckTagBalance(t: Tokenized) returns (issues: seq<string>)
    ensures issues == BalanceIssues(t)
  {
    var v := new Validator();
    for i := 0 to |t.events|
      invariant v.Valid()
      invariant v.Snapshot() == Run(Init, t.events[..i])
    {
      assert t.events[..i + 1][..i] == t.events[..i];
      match t.events[i]
      case Start(name) => v.HandleStartTag(name);
      case StartEnd(name) => v.HandleStartEndTag(name);
      case End(name) => v.HandleEndTag(name);
    }
    assert t.events[..|t.events|] == t.events;
    if t.failed {
      v.issues := v.issues + [ParseError];
    }
    v.Finalize();
    issues := v.issues;
  }
}
