/** What the tag-balance validator guarantees, proved about its specification. */
module TagBalanceLemmas {
  import opened TagBalance

  /** Feeding two batches of events is feeding their concatenation. */
  lemma {:induction false} RunAppend(s: State, a: seq<Event>, b: seq<Event>)
    ensures Run(s, a + b) == Run(Run(s, a), b)
    decreases |b|
  {
    if b == [] {
      assert a + b == a;
    } else {
      var b' := b[..|b| - 1];
      assert (a + b)[..|a + b| - 1] == a + b';
      assert (a + b)[|a + b| - 1] == b[|b| - 1];
      RunAppend(s, a, b');
    }
  }

  /** Feeding one more event is one more step. */
  lemma RunSnoc(s: State, events: seq<Event>, e: Event)
    ensures Run(s, events + [e]) == Step(Run(s, events), e)
  {
    assert (events + [e])[..|events|] == events;
  }

  /** The stack never holds a void element, whatever the events. */
  lemma {:induction false} RunKeepsNoVoid(s: State, events: seq<Event>)
    requires NoVoid(s.stack)
    ensures NoVoid(Run(s, events).stack)
    decreases |events|
  {
    if events != [] {
      RunKeepsNoVoid(s, events[..|events| - 1]);
    }
  }

  /** Issues are only ever appended: earlier findings are never withdrawn. */
  lemma {:induction false} RunOnlyAppendsIssues(s: State, events: seq<Event>)
    ensures |s.issues| <= |Run(s, events).issues|
    ensures Run(s, events).issues[..|s.issues|] == s.issues
    decreases |events|
  {
    if events != [] {
      RunOnlyAppendsIssues(s, events[..|events| - 1]);
    }
  }

  // ---------------------------------------------------------------------
  // Balanced input.
  // ---------------------------------------------------------------------

  /** A correctly nested document, as the tree its events describe. */
  datatype Node =
    | Element(name: string, children: seq<Node>)  // <name> children </name>
    | VoidElement(name: string)                   // <br>, <img ...>, ...
    | SelfClosing(name: string)                   // <name/>
    | StrayVoidEnd(name: string)                  // </br>, an end tag of a void element

  ghost predicate WellFormed(n: Node)
    decreases n, 1
  {
    match n
    case Element(name, children) => name !in VoidTags && WellFormedForest(children)
    case VoidElement(name) => name in VoidTags
    case SelfClosing(_) => true
    case StrayVoidEnd(name) => name in VoidTags
  }

  ghost predicate WellFormedForest(f: seq<Node>)
    decreases f, 0
  {
    forall i :: 0 <= i < |f| ==> WellFormed(f[i])
  }

  /** The events the tokenizer emits for a tree. */
  function NodeEvents(n: Node): seq<Event>
    decreases n, 1
  {
    match n
    case Element(name, children) => [Start(name)] + ForestEvents(children) + [End(name)]
    case VoidElement(name) => [Start(name)]
    case SelfClosing(name) => [StartEnd(name)]
    case StrayVoidEnd(name) => [End(name)]
  }

  function ForestEvents(f: seq<Node>): seq<Event>
    decreases f, 0
  {
    if f == [] then [] else NodeEvents(f[0]) + ForestEvents(f[1..])
  }

  /** A well-formed tree leaves the validator exactly as it found it. */
  lemma {:induction false} NodeLeavesStateUnchanged(s: State, n: Node)
    requires WellFormed(n)
    ensures Run(s, NodeEvents(n)) == s
    decreases n, 1
  {
    match n
    case Element(name, children) =>
      var pushed := s.(stack := s.stack + [name]);
      calc {
        Run(s, NodeEvents(n));
        { RunAppend(s, [Start(name)] + ForestEvents(children), [End(name)]); }
        Run(Run(s, [Start(name)] + ForestEvents(children)), [End(name)]);
        { RunAppend(s, [Start(name)], ForestEvents(children));
          assert Run(s, [Start(name)]) == pushed;
          ForestLeavesStateUnchanged(pushed, children); }
        Run(pushed, [End(name)]);
        s;
      }
    case VoidElement(name) =>
    case SelfClosing(name) =>
    case StrayVoidEnd(name) =>
  }

  lemma {:induction false} ForestLeavesStateUnchanged(s: State, f: seq<Node>)
    requires WellFormedForest(f)
    ensures Run(s, ForestEvents(f)) == s
    decreases f, 0
  {
    if f != [] {
      RunAppend(s, NodeEvents(f[0]), ForestEvents(f[1..]));
      NodeLeavesStateUnchanged(s, f[0]);
      ForestLeavesStateUnchanged(s, f[1..]);
    }
  }

  /** Correctly nested input, fully tokenized, yields no issue at all. */
  lemma BalancedInputHasNoIssues(f: seq<Node>)
    requires WellFormedForest(f)
    ensures BalanceIssues(Tokenized(ForestEvents(f), false)) == []
  {
    ForestLeavesStateUnchanged(Init, f);
  }

  /** Appending a tree to a forest appends its events. */
  lemma {:induction false} ForestEventsSnoc(f: seq<Node>, n: Node)
    ensures ForestEvents(f + [n]) == ForestEvents(f) + NodeEvents(n)
    decreases |f|
  {
    if f == [] {
      assert [] + [n] == [n];
      assert ForestEvents([n]) == NodeEvents(n) + ForestEvents([]);
    } else {
      assert (f + [n])[0] == f[0] && (f + [n])[1..] == f[1..] + [n];
      ForestEventsSnoc(f[1..], n);
    }
  }

  /**
   * The events seen so far, when the validator holds `stack` and has found
   * nothing: a complete forest, then for each open tag its start event
   * followed by the forest of its children seen so far.
   */
  ghost function Zipped(ctx: seq<seq<Node>>, stack: seq<string>): seq<Event>
    requires |ctx| == |stack| + 1
    decreases |stack|
  {
    if stack == [] then ForestEvents(ctx[0])
    else
      var n := |stack|;
      Zipped(ctx[..n], stack[..n - 1]) + [Start(stack[n - 1])] + ForestEvents(ctx[n])
  }

  ghost predicate AllWellFormed(ctx: seq<seq<Node>>) {
    forall i :: 0 <= i < |ctx| ==> WellFormedForest(ctx[i])
  }

  /** Adding a tree to the innermost forest of the context. */
  lemma ZippedAddNode(outer: seq<seq<Node>>, f: seq<Node>, stack: seq<string>, n: Node)
    requires |outer| == |stack|
    ensures Zipped(outer + [f + [n]], stack) == Zipped(outer + [f], stack) + NodeEvents(n)
  {
    ForestEventsSnoc(f, n);
    if stack == [] {
      assert outer + [f + [n]] == [f + [n]] && outer + [f] == [f];
    } else {
      ZippedAddNodeInner(outer, f, stack, n);
    }
  }

  lemma ZippedAddNodeInner(outer: seq<seq<Node>>, f: seq<Node>, stack: seq<string>, n: Node)
    requires |outer| == |stack| && stack != []
    requires ForestEvents(f + [n]) == ForestEvents(f) + NodeEvents(n)
    ensures Zipped(outer + [f + [n]], stack) == Zipped(outer + [f], stack) + NodeEvents(n)
  {
    var k := |stack|;
    assert (outer + [f + [n]])[k] == f + [n] && (outer + [f])[k] == f;
    assert (outer + [f + [n]])[..k] == outer && (outer + [f])[..k] == outer;
  }

  /** The innermost open tag's start event, followed by its children seen so far. */
  lemma ZippedTop(ctx: seq<seq<Node>>, stack: seq<string>, t: string, children: seq<Node>)
    requires |ctx| == |stack| + 1
    ensures Zipped(ctx + [children], stack + [t]) == Zipped(ctx, stack) + [Start(t)] + ForestEvents(children)
  {
    var n := |stack| + 1;
    assert (ctx + [children])[..n] == ctx && (ctx + [children])[n] == children;
    assert (stack + [t])[..n - 1] == stack;
  }

  /** A matching end tag turns the innermost forest into the children of a new element. */
  lemma ZippedClose(outer: seq<seq<Node>>, f: seq<Node>, children: seq<Node>, below: seq<string>, t: string)
    requires |outer| == |below|
    ensures Zipped(outer + [f + [Element(t, children)]], below) ==
            Zipped(outer + [f] + [children], below + [t]) + [End(t)]
  {
    var node := Element(t, children);
    ZippedAddNode(outer, f, below, node);
    ZippedTop(outer + [f], below, t, children);
    var z := Zipped(outer + [f], below);
    var inner := ForestEvents(children);
    assert NodeEvents(node) == [Start(t)] + inner + [End(t)];
    ConcatAssoc(z, [Start(t)], inner, [End(t)]);
  }

  lemma ConcatAssoc(z: seq<Event>, a: seq<Event>, b: seq<Event>, c: seq<Event>)
    ensures z + (a + b + c) == z + a + b + c
  {
  }

  /** Adding a well-formed tree to the innermost forest keeps every forest well-formed. */
  lemma AddNodeKeepsWellFormed(outer: seq<seq<Node>>, f: seq<Node>, n: Node)
    requires AllWellFormed(outer + [f]) && WellFormed(n)
    ensures AllWellFormed(outer + [f + [n]])
  {
    assert WellFormedForest((outer + [f])[|outer|]);
    assert forall i :: 0 <= i < |outer| ==> (outer + [f])[i] == outer[i];
  }

  /** Opening a new, empty innermost forest keeps every forest well-formed. */
  lemma OpenKeepsWellFormed(ctx: seq<seq<Node>>)
    requires AllWellFormed(ctx)
    ensures AllWellFormed(ctx + [[]])
  {
    assert forall i :: 0 <= i < |ctx| ==> (ctx + [[]])[i] == ctx[i];
  }

  /** Closing the innermost forest into a non-void element keeps every forest well-formed. */
  lemma CloseKeepsWellFormed(outer: seq<seq<Node>>, f: seq<Node>, children: seq<Node>, t: string)
    requires AllWellFormed(outer + [f] + [children]) && t !in VoidTags
    ensures AllWellFormed(outer + [f + [Element(t, children)]])
  {
    var ctx := outer + [f] + [children];
    assert ctx[|outer| + 1] == children && ctx[|outer|] == f;
    assert forall i :: 0 <= i < |outer| ==> ctx[i] == outer[i];
    assert WellFormedForest(children);
    assert WellFormed(Element(t, children));
    assert AllWellFormed(outer + [f]) by {
      assert forall i :: 0 <= i <= |outer| ==> (outer + [f])[i] == ctx[i];
    }
    AddNodeKeepsWellFormed(outer, f, Element(t, children));
  }

  /** One more event without a new issue keeps the events seen so far zipped. */
  lemma ZippedStep(ctx: seq<seq<Node>>, stack: seq<string>, e: Event) returns (ctx': seq<seq<Node>>)
    requires |ctx| == |stack| + 1 && AllWellFormed(ctx)
    requires Step(State(stack, []), e).issues == []
    ensures |ctx'| == |Step(State(stack, []), e).stack| + 1
    ensures AllWellFormed(ctx')
    ensures Zipped(ctx', Step(State(stack, []), e).stack) == Zipped(ctx, stack) + [e]
  {
    var n := |stack|;
    var outer, f := ctx[..n], ctx[n];
    assert ctx == outer + [f];
    match e
    case Start(t) =>
      if t in VoidTags {
        ctx' := outer + [f + [VoidElement(t)]];
        ZippedAddNode(outer, f, stack, VoidElement(t));
        AddNodeKeepsWellFormed(outer, f, VoidElement(t));
      } else {
        ctx' := ctx + [[]];
        ZippedTop(ctx, stack, t, []);
        OpenKeepsWellFormed(ctx);
      }
    case StartEnd(t) =>
      ctx' := outer + [f + [SelfClosing(t)]];
      ZippedAddNode(outer, f, stack, SelfClosing(t));
      AddNodeKeepsWellFormed(outer, f, SelfClosing(t));
    case End(t) =>
      if t in VoidTags {
        ctx' := outer + [f + [StrayVoidEnd(t)]];
        ZippedAddNode(outer, f, stack, StrayVoidEnd(t));
        AddNodeKeepsWellFormed(outer, f, StrayVoidEnd(t));
      } else {
        var below := stack[..n - 1];
        assert stack == below + [t];
        assert ctx == ctx[..n - 1] + [ctx[n - 1]] + [ctx[n]];
        ctx' := ctx[..n - 1] + [ctx[n - 1] + [Element(t, ctx[n])]];
        ZippedClose(ctx[..n - 1], ctx[n - 1], ctx[n], below, t);
        CloseKeepsWellFormed(ctx[..n - 1], ctx[n - 1], ctx[n], t);
      }
  }

  /**
   * While no issue has been found, the events seen so far are the open tags'
   * start events interleaved with well-formed forests.
   */
  lemma {:induction false} NoIssuesSoFarIsZipped(events: seq<Event>) returns (ctx: seq<seq<Node>>)
    requires Run(Init, events).issues == []
    ensures |ctx| == |Run(Init, events).stack| + 1
    ensures AllWellFormed(ctx)
    ensures Zipped(ctx, Run(Init, events).stack) == events
    decreases |events|
  {
    if events == [] {
      ctx := [[]];
      return;
    }
    var front := events[..|events| - 1];
    var e := events[|events| - 1];
    assert events == front + [e];
    var s := Run(Init, front);
    RunOnlyAppendsIssues(s, [e]);
    RunSnoc(Init, front, e);
    var c := NoIssuesSoFarIsZipped(front);
    ctx := ZippedStep(c, s.stack, e);
  }

  /** Only correctly nested input, fully tokenized, yields no issue at all. */
  lemma NoIssuesOnlyForBalancedInput(events: seq<Event>)
    requires BalanceIssues(Tokenized(events, false)) == []
    ensures exists f :: WellFormedForest(f) && ForestEvents(f) == events
  {
    var s := Run(Init, events);
    assert s.issues == [] && s.stack == [];
    var ctx := NoIssuesSoFarIsZipped(events);
    assert WellFormedForest(ctx[0]);
  }

  /**
   * A fully tokenized document yields no issue exactly when its events are
   * those of a correctly nested document.
   */
  lemma NoIssuesIffBalanced(events: seq<Event>)
    ensures BalanceIssues(Tokenized(events, false)) == [] <==>
            exists f :: WellFormedForest(f) && ForestEvents(f) == events
  {
    if BalanceIssues(Tokenized(events, false)) == [] {
      NoIssuesOnlyForBalancedInput(events);
    }
    if exists f :: WellFormedForest(f) && ForestEvents(f) == events {
      var f :| WellFormedForest(f) && ForestEvents(f) == events;
      BalancedInputHasNoIssues(f);
    }
  }

  // ---------------------------------------------------------------------
  // Events that are ignored.
  // ---------------------------------------------------------------------

  /** Self-closing tags, and start or end tags of void elements. */
  predicate Ignored(e: Event) {
    e.StartEnd? || e.name in VoidTags
  }

  /** Inserting an ignored event anywhere changes nothing in the result. */
  lemma IgnoredEventChangesNothing(a: seq<Event>, e: Event, b: seq<Event>, failed: bool)
    requires Ignored(e)
    ensures BalanceIssues(Tokenized(a + [e] + b, failed)) == BalanceIssues(Tokenized(a + b, failed))
  {
    RunAppend(Init, a + [e], b);
    RunAppend(Init, a, [e]);
    RunAppend(Init, a, b);
  }

  /**
   * A tokenizer failure adds exactly one parse-error issue, placed after
   * everything found in the events and before the unclosed-tag reports.
   */
  lemma TokenizerFailureAddsParseError(events: seq<Event>)
    ensures var ok := BalanceIssues(Tokenized(events, false));
            var k := |Run(Init, events).issues|;
            k <= |ok| &&
            BalanceIssues(Tokenized(events, true)) == ok[..k] + [ParseError] + ok[k..]
  {
    var s := Run(Init, events);
    var ok := s.issues + UnclosedIssues(s.stack);
    assert ok[..|s.issues|] == s.issues;
    assert ok[|s.issues|..] == UnclosedIssues(s.stack);
  }

  // ---------------------------------------------------------------------
  // The greedy mismatch policy and the reporting order, on small inputs.
  // ---------------------------------------------------------------------

  /** `<a><b></a></b>`: each closing tag consumes the innermost open tag. */
  lemma CrossedTagsGiveTwoMismatches(a: string, b: string)
    requires a !in VoidTags && b !in VoidTags && a != b
    ensures BalanceIssues(Tokenized([Start(a), Start(b), End(a), End(b)], false))
         == [Mismatched(a, b), Mismatched(b, a)]
  {
    var e1 := [Start(a)];
    var e2 := e1 + [Start(b)];
    var e3 := e2 + [End(a)];
    var e4 := e3 + [End(b)];
    RunSnoc(Init, [], Start(a));
    assert [] + [Start(a)] == e1;
    RunSnoc(Init, e1, Start(b));
    RunSnoc(Init, e2, End(a));
    RunSnoc(Init, e3, End(b));
    assert Run(Init, e2) == State([a, b], []);
    assert [a, b][..1] == [a];
    assert Run(Init, e3) == State([a], [Mismatched(a, b)]);
    assert Run(Init, e4) == State([], [Mismatched(a, b), Mismatched(b, a)]);
    assert e4 == [Start(a), Start(b), End(a), End(b)];
  }

  /** `<div><span></div>`: `span` is consumed by the mismatch, `div` stays open. */
  lemma MismatchLeavesOuterTagOpen(outer: string, inner: string)
    requires outer !in VoidTags && inner !in VoidTags && outer != inner
    ensures BalanceIssues(Tokenized([Start(outer), Start(inner), End(outer)], false))
         == [Mismatched(outer, inner), Unclosed(outer)]
  {
    var e1 := [Start(outer)];
    var e2 := e1 + [Start(inner)];
    var e3 := e2 + [End(outer)];
    RunSnoc(Init, [], Start(outer));
    assert [] + [Start(outer)] == e1;
    RunSnoc(Init, e1, Start(inner));
    RunSnoc(Init, e2, End(outer));
    assert Run(Init, e2) == State([outer, inner], []);
    assert [outer, inner][..1] == [outer];
    assert Run(Init, e3) == State([outer], [Mismatched(outer, inner)]);
    assert e3 == [Start(outer), Start(inner), End(outer)];
  }

  /** `<a><b>`: the outermost unclosed tag is reported first. */
  lemma UnclosedReportedOutermostFirst(a: string, b: string)
    requires a !in VoidTags && b !in VoidTags
    ensures BalanceIssues(Tokenized([Start(a), Start(b)], false)) == [Unclosed(a), Unclosed(b)]
  {
    var e1 := [Start(a)];
    var e2 := e1 + [Start(b)];
    RunSnoc(Init, [], Start(a));
    assert [] + [Start(a)] == e1;
    RunSnoc(Init, e1, Start(b));
    assert Run(Init, e2) == State([a, b], []);
    assert e2 == [Start(a), Start(b)];
  }
}
