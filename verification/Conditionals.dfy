/**
  The $if, $else and $endif directives of the init file (bind.c).
 */
module Conditionals {

  /** A line of an init file.  `holds` is what the test of an $if comes to. */
  datatype Line = If(holds: bool) | Else | Endif | Binding(id: nat)

  /** _rl_parsing_conditionalized_out and the stack of its earlier values. */
  datatype Parser = Parser(off: bool, stack: seq<bool>)

  function Step(p: Parser, l: Line): Parser {
    match l
    case If(holds) => Parser(p.off || !holds, p.stack + [p.off])
    case Else => if p.stack == [] || true in p.stack then p else p.(off := !p.off)
    case Endif => if p.stack == [] then p else Parser(p.stack[|p.stack| - 1], p.stack[..|p.stack| - 1])
    case Binding(_) => p
  }

  /** The state after some lines. */
  function After(p: Parser, lines: seq<Line>): Parser
    decreases |lines|
  {
    if lines == [] then p else After(Step(p, lines[0]), lines[1..])
  }

  /** The binding acted on, if this line is one. */
  function Act(active: bool, l: Line): seq<nat> {
    if active && l.Binding? then [l.id] else []
  }

  /** The bindings that are acted on, in order. */
  function Run(p: Parser, lines: seq<Line>): seq<nat>
    decreases |lines|
  {
    if lines == [] then [] else Act(!p.off, lines[0]) + Run(Step(p, lines[0]), lines[1..])
  }

  // ----- Any sequence of lines -----

  /** For every open block, whether its own test selects the branch it is in. */
  type Blocks = seq<bool>

  function Enter(b: Blocks, l: Line): Blocks {
    match l
    case If(holds) => b + [holds]
    case Else => if b == [] then b else b[|b| - 1 := !b[|b| - 1]]
    case Endif => if b == [] then b else b[..|b| - 1]
    case Binding(_) => b
  }

  /** A line counts when every block around it is in its selected branch. */
  predicate Selected(b: Blocks) { false !in b }

  function Meaning(b: Blocks, lines: seq<Line>): seq<nat>
    decreases |lines|
  {
    if lines == [] then [] else Act(Selected(b), lines[0]) + Meaning(Enter(b, lines[0]), lines[1..])
  }

  /** The flag and the stack say of every level whether it is switched off. */
  ghost predicate Agrees(p: Parser, b: Blocks) {
    && |p.stack| == |b|
    && p.off == !Selected(b)
    && (forall i | 0 <= i < |b| :: p.stack[i] == !Selected(b[..i]))
  }

  lemma SelectedGrows(b: Blocks, last: bool)
    ensures Selected(b + [last]) <==> Selected(b) && last
  {
    if !Selected(b) {
      var i :| 0 <= i < |b| && !b[i];
      assert !(b + [last])[i];
    } else {
      assert (b + [last])[|b|] == last;
    }
  }

  lemma AgreesIf(p: Parser, b: Blocks, holds: bool)
    requires Agrees(p, b)
    ensures Agrees(Step(p, If(holds)), Enter(b, If(holds)))
  {
    SelectedGrows(b, holds);
    assert forall i | 0 <= i <= |b| :: (b + [holds])[..i] == b[..i];
    assert b[..|b|] == b;
  }

  lemma AgreesElse(p: Parser, b: Blocks)
    requires Agrees(p, b)
    ensures Agrees(Step(p, Else), Enter(b, Else))
  {
    if b != [] {
      var c, last := Enter(b, Else), |b| - 1;
      assert forall i | 0 <= i < |b| :: c[..i] == b[..i];
      assert b == b[..last] + [b[last]] && c == b[..last] + [!b[last]];
      SelectedGrows(b[..last], b[last]);
      SelectedGrows(b[..last], !b[last]);
      OffAbove(p, b);
    }
  }

  /** Some level is off exactly when the level around the innermost block is. */
  lemma OffAbove(p: Parser, b: Blocks)
    requires Agrees(p, b) && b != []
    ensures true in p.stack <==> !Selected(b[..|b| - 1])
  {
    var last := |b| - 1;
    assert p.stack[last] == !Selected(b[..last]);
    if true in p.stack {
      var i :| 0 <= i < |p.stack| && p.stack[i];
      var k :| 0 <= k < |b[..i]| && !b[..i][k];
      assert !b[..last][k];
    }
  }

  lemma AgreesEndif(p: Parser, b: Blocks)
    requires Agrees(p, b)
    ensures Agrees(Step(p, Endif), Enter(b, Endif))
  {
    if b != [] {
      assert forall i | 0 <= i < |b| :: b[..|b| - 1][..i] == b[..i];
    }
  }

  lemma AgreesStep(p: Parser, b: Blocks, l: Line)
    requires Agrees(p, b)
    ensures Agrees(Step(p, l), Enter(b, l))
  {
    match l
    case If(holds) => AgreesIf(p, b, holds);
    case Else => AgreesElse(p, b);
    case Endif => AgreesEndif(p, b);
    case Binding(_) =>
  }

  /** Over every run, balanced or not, a binding is acted on exactly when every block around it is selected. */
  lemma {:induction false} RunMeans(p: Parser, b: Blocks, lines: seq<Line>)
    requires Agrees(p, b)
    ensures Run(p, lines) == Meaning(b, lines)
    decreases |lines|
  {
    if lines != [] {
      AgreesStep(p, b, lines[0]);
      RunMeans(Step(p, lines[0]), Enter(b, lines[0]), lines[1..]);
    }
  }

  /** Once a level is off, so are all the levels inside it. */
  lemma OffUpward(p: Parser, b: Blocks, i: nat, j: nat)
    requires Agrees(p, b) && i < j < |b| && p.stack[i]
    ensures p.stack[j] && p.off
  {
    assert b[..i] <= b[..j] <= b;
    assert b[..j][..i] == b[..i];
  }

  // ----- Nested blocks -----

  /** Bindings, and blocks with a test and one branch more than they have $else lines. */
  datatype Item = Single(id: nat) | Block(holds: bool, branches: Branches)
  datatype Items = Nil | Cons(head: Item, tail: Items)
  datatype Branches = Only(items: Items) | More(items: Items, rest: Branches)

  function Lines(items: Items): seq<Line> {
    match items
    case Nil => []
    case Cons(Single(id), tail) => [Binding(id)] + Lines(tail)
    case Cons(Block(holds, branches), tail) => [If(holds)] + (BranchLines(branches) + ([Endif] + Lines(tail)))
  }

  function BranchLines(branches: Branches): seq<Line> {
    match branches
    case Only(items) => Lines(items)
    case More(items, rest) => Lines(items) + ([Else] + BranchLines(rest))
  }

  /** What the items come to when the lines around them are acted on or not. */
  function Evaluate(items: Items, active: bool): seq<nat> {
    match items
    case Nil => []
    case Cons(Single(id), tail) => (if active then [id] else []) + Evaluate(tail, active)
    case Cons(Block(holds, branches), tail) => EvaluateBranches(branches, active, holds) + Evaluate(tail, active)
  }

  /** Branches are selected in turn, the first one when the test holds. */
  function EvaluateBranches(branches: Branches, active: bool, selected: bool): seq<nat> {
    match branches
    case Only(items) => Evaluate(items, active && selected)
    case More(items, rest) => Evaluate(items, active && selected) + EvaluateBranches(rest, active, !selected)
  }

  lemma {:induction false} RunJoin(p: Parser, a: seq<Line>, b: seq<Line>)
    ensures After(p, a + b) == After(After(p, a), b)
    ensures Run(p, a + b) == Run(p, a) + Run(After(p, a), b)
    decreases |a|
  {
    if a == [] {
      assert a + b == b;
    } else {
      assert (a + b)[0] == a[0] && (a + b)[1..] == a[1..] + b;
      RunJoin(Step(p, a[0]), a[1..], b);
    }
  }

  lemma RunFirst(p: Parser, l: Line, rest: seq<Line>)
    ensures After(p, [l] + rest) == After(Step(p, l), rest)
    ensures Run(p, [l] + rest) == Act(!p.off, l) + Run(Step(p, l), rest)
  {
    assert ([l] + rest)[0] == l && ([l] + rest)[1..] == rest;
  }

  /** A part and the line that ends it. */
  lemma RunPart(q: Parser, part: seq<Line>, l: Line, rest: seq<Line>)
    requires l.Else? || l.Endif?
    ensures
      var q' := Step(After(q, part), l);
      var lines := part + ([l] + rest);
      After(q, lines) == After(q', rest) && Run(q, lines) == Run(q, part) + Run(q', rest)
  {
    RunJoin(q, part, [l] + rest);
    RunFirst(After(q, part), l, rest);
  }

  lemma RunBlock(p: Parser, holds: bool, body: seq<Line>, tail: seq<Line>)
    ensures
      var q := Step(p, If(holds));
      var q' := Step(After(q, body), Endif);
      var lines := [If(holds)] + (body + ([Endif] + tail));
      After(p, lines) == After(q', tail) && Run(p, lines) == Run(q, body) + Run(q', tail)
  {
    RunFirst(p, If(holds), body + ([Endif] + tail));
    RunPart(Step(p, If(holds)), body, Endif, tail);
  }

  /** Nothing on the stack is off unless parsing is off. */
  predicate Closed(p: Parser) { true in p.stack ==> p.off }

  /** A block is entered on top of where it stands, one branch of two acted on if any is. */
  predicate Inside(p: Parser, q: Parser, selected: bool) {
    Closed(p) && q == Parser(p.off || !selected, p.stack + [p.off])
  }

  lemma InsideIsClosed(p: Parser, q: Parser, selected: bool)
    requires Inside(p, q, selected)
    ensures Closed(q) && Inside(p, Step(q, Else), !selected) && Step(q, Endif) == p
  {
    assert q.stack[|p.stack|] == p.off;
    assert q.stack[..|q.stack| - 1] == p.stack;
  }

  /**
    Nested blocks are evaluated branch by branch, and whatever is inside them
    a block leaves the flag and the stack as it found them.
   */
  lemma {:induction false} BlocksEvaluate(p: Parser, items: Items)
    requires Closed(p)
    ensures After(p, Lines(items)) == p && Run(p, Lines(items)) == Evaluate(items, !p.off)
    decreases items
  {
    match items
    case Nil =>
    case Cons(Single(id), tail) =>
      RunFirst(p, Binding(id), Lines(tail));
      BlocksEvaluate(p, tail);
    case Cons(Block(holds, branches), tail) =>
      BranchesEvaluate(p, Step(p, If(holds)), branches, holds);
      RunBlock(p, holds, BranchLines(branches), Lines(tail));
      BlocksEvaluate(p, tail);
  }

  lemma {:induction false} BranchesEvaluate(p: Parser, q: Parser, branches: Branches, selected: bool)
    requires Inside(p, q, selected)
    ensures Step(After(q, BranchLines(branches)), Endif) == p
    ensures Run(q, BranchLines(branches)) == EvaluateBranches(branches, !p.off, selected)
    decreases branches
  {
    InsideIsClosed(p, q, selected);
    match branches
    case Only(items) =>
      BlocksEvaluate(q, items);
    case More(items, rest) =>
      BlocksEvaluate(q, items);
      RunPart(q, Lines(items), Else, BranchLines(rest));
      BranchesEvaluate(p, Step(q, Else), rest, !selected);
  }

  /** The parser's globals, the stack in an array that grows by twenty. */
  class InitFileParser {
    var off: bool
    var ifStack: array<bool>
    var depth: nat

    constructor ()
      ensures Valid() && fresh(ifStack) && View() == Parser(false, [])
    {
      off, depth := false, 0;
      ifStack := new bool[0];
    }

    ghost predicate Valid()
      reads this
    {
      depth <= ifStack.Length
    }

    ghost function View(): Parser
      requires Valid()
      reads this, ifStack
    {
      Parser(off, ifStack[..depth])
    }

    /** parser_if, its test already looked up. */
    method ParserIf(holds: bool)
      requires Valid()
      modifies this, ifStack
      ensures Valid() && View() == Step(old(View()), If(holds)) && (ifStack == old(ifStack) || fresh(ifStack))
    {
      if depth + 1 >= ifStack.Length {
        var bigger := new bool[ifStack.Length + 20];
        for i := 0 to depth
          invariant Valid() && ifStack == old(ifStack) && ifStack[..] == old(ifStack[..])
          invariant depth == old(depth) && off == old(off)
          invariant bigger[..i] == ifStack[..i]
        {
          bigger[i] := ifStack[i];
        }
        ifStack := bigger;
      }
      ifStack[depth] := off;
      depth := depth + 1;
      if off {
        return;
      }
      off := !holds;
    }

    /** parser_else */
    method ParserElse() returns (ok: bool)
      requires Valid()
      modifies this
      ensures Valid() && View() == Step(old(View()), Else) && ok == (old(depth) > 0)
    {
      if depth == 0 {
        return false;
      }
      for i := 0 to depth
        invariant forall j | 0 <= j < i :: !ifStack[j]
        invariant Valid() && unchanged(this)
      {
        if ifStack[i] {
          assert ifStack[..depth][i];
          return true;
        }
      }
      off := !off;
      return true;
    }

    /** parser_endif */
    method ParserEndif() returns (ok: bool)
      requires Valid()
      modifies this
      ensures Valid() && View() == Step(old(View()), Endif) && ok == (old(depth) > 0)
    {
      if depth == 0 {
        return false;
      }
      depth := depth - 1;
      off := ifStack[depth];
      return true;
    }
  }
}
