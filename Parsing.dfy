/**
 * The recursive-descent parser `parse` of src/brainfuck.cpp, as written.
 *
 * The input file is a string read through a `Stream` whose `Read` behaves
 * like `file >> c` (skips whitespace, then takes one character) and whose
 * `Peek` behaves like `file.peek()` (no skipping).  `ParseFrom` is the
 * specification of one call of `parse`; the `Parse` method follows the C++
 * loop step by step and is proved to build exactly what `ParseFrom` says.
 *
 * As in the source, there is no `else` between the `[` branch and the
 * `if (c == ']') ... else` that follows it, so after every loop the `[`
 * character also starts a run and yields a command node whose tag was never
 * set (`Invalid`).
 */
module Parsing {
  import opened Wrappers
  import opened Ast

  /** The characters `operator>>` skips: space and '\t' through '\r'. */
  predicate IsSpace(c: char)
    ensures IsSpace(c) <==>
      c == ' ' || c == '\t' || c == '\n' || c as int == 0x0B || c as int == 0x0C || c == '\r'
  {
    c == ' ' || '\t' <= c <= '\r'
  }

  /** Where `file >> c` finds its character: the first non-space at or after `pos`. */
  function SkipSpace(text: string, pos: nat): (p: nat)
    requires pos <= |text|
    ensures pos <= p <= |text|
    ensures p < |text| ==> !IsSpace(text[p])
    decreases |text| - pos
  {
    if pos < |text| && IsSpace(text[pos]) then SkipSpace(text, pos + 1) else pos
  }

  /** How many times `c == file.peek()` succeeds from `q`: the maximal run of `c` there. */
  function RunLength(text: string, q: nat, c: char): (n: nat)
    requires q <= |text|
    ensures q + n <= |text|
    ensures q + n == |text| || text[q + n] != c
    decreases |text| - q
  {
    if q < |text| && text[q] == c then 1 + RunLength(text, q + 1, c) else 0
  }

  /** `file >> c` skips only whitespace. */
  lemma {:induction false} SkipSpaceSkipsOnlySpace(text: string, pos: nat)
    requires pos <= |text|
    ensures forall i :: pos <= i < SkipSpace(text, pos) ==> IsSpace(text[i])
    decreases |text| - pos
  {
    if pos < |text| && IsSpace(text[pos]) {
      SkipSpaceSkipsOnlySpace(text, pos + 1);
    }
  }

  /** The characters `RunLength` counts are all `c`. */
  lemma {:induction false} RunLengthIsRun(text: string, q: nat, c: char)
    requires q <= |text|
    ensures forall i :: q <= i < q + RunLength(text, q, c) ==> text[i] == c
    decreases |text| - q
  {
    if q < |text| && text[q] == c {
      RunLengthIsRun(text, q + 1, c);
    }
  }

  /** A maximal run of `n` copies of `c` at `q` is what `RunLength` counts. */
  lemma {:induction false} RunLengthOfMaximalRun(text: string, q: nat, c: char, n: nat)
    requires q + n <= |text|
    requires forall i :: q <= i < q + n ==> text[i] == c
    requires q + n == |text| || text[q + n] != c
    ensures RunLength(text, q, c) == n
    decreases n
  {
    if n > 0 {
      RunLengthOfMaximalRun(text, q + 1, c, n - 1);
    }
  }

  /**
   * What one call of `parse` appends to its container, where it leaves the
   * stream, and whether it returned on a `]` (closed) or at end of input.
   */
  datatype Parsed = Parsed(nodes: seq<Node>, pos: nat, closed: bool)

  /** What one turn of the `while (file >> c)` loop appends, and where it leaves the stream. */
  datatype Unit = Unit(nodes: seq<Node>, next: nat)

  /** One call of `parse` on the stream positioned at `pos`, as written. */
  function ParseFrom(text: string, pos: nat): (r: Parsed)
    requires pos <= |text|
    ensures pos <= r.pos <= |text|
    ensures r.closed ==> pos < r.pos && text[r.pos - 1] == ']'
    ensures !r.closed ==> r.pos == |text|
    decreases |text| - pos, 1
  {
    var p := SkipSpace(text, pos);
    if p == |text| then Parsed([], |text|, false)
    else if text[p] == ']' then Parsed([], p + 1, true)
    else
      var unit := ParseUnit(text, p);
      var rest := ParseFrom(text, unit.next);
      Parsed(unit.nodes + rest.nodes, rest.pos, rest.closed)
  }

  /**
   * One turn of the loop on a character `c` at `p` other than `]`.  A `[`
   * first parses the nested loop; then, there being no `else`, `c` starts a
   * run, which for `[` swallows any `[` that follows the loop's `]` at once.
   */
  function ParseUnit(text: string, p: nat): (u: Unit)
    requires p < |text| && text[p] != ']'
    ensures p < u.next <= |text|
    decreases |text| - p, 0
  {
    var c := text[p];
    if c == '[' then
      var inner := ParseFrom(text, p + 1);
      var n := RunLength(text, inner.pos, c);
      Unit([Loop(inner.nodes)] + [CommandNode(CommandOf(c), 1 + n)], inner.pos + n)
    else
      var n := RunLength(text, p + 1, c);
      Unit([CommandNode(CommandOf(c), 1 + n)], p + 1 + n)
  }

  /**
   * Reading `]` returns from the current call without appending anything;
   * the stream is left just after the `]`.
   */
  lemma ParseStopsAtClose(text: string, pos: nat)
    requires pos <= |text|
    requires SkipSpace(text, pos) < |text| && text[SkipSpace(text, pos)] == ']'
    ensures ParseFrom(text, pos) == Parsed([], SkipSpace(text, pos) + 1, true)
  {
  }

  /** Any other character: the nodes of one loop turn, followed by the rest of the call. */
  lemma ParseFromTurn(text: string, pos: nat)
    requires pos <= |text|
    requires SkipSpace(text, pos) < |text| && text[SkipSpace(text, pos)] != ']'
    ensures var unit := ParseUnit(text, SkipSpace(text, pos));
      var rest := ParseFrom(text, unit.next);
      ParseFrom(text, pos) == Parsed(unit.nodes + rest.nodes, rest.pos, rest.closed)
  {
  }

  /** The same turn, seen from the children a container already holds. */
  lemma AppendTurn(text: string, pos: nat, before: seq<Node>)
    requires pos <= |text|
    requires SkipSpace(text, pos) < |text| && text[SkipSpace(text, pos)] != ']'
    ensures var unit := ParseUnit(text, SkipSpace(text, pos));
      var rest := ParseFrom(text, unit.next);
      before + ParseFrom(text, pos).nodes == (before + unit.nodes) + rest.nodes &&
      ParseFrom(text, pos).pos == rest.pos
  {
    ParseFromTurn(text, pos);
    var unit := ParseUnit(text, SkipSpace(text, pos));
    var rest := ParseFrom(text, unit.next);
    assert (before + unit.nodes) + rest.nodes == before + (unit.nodes + rest.nodes);
  }

  /** Every command node the parser builds, at any depth, has a count of at least 1. */
  lemma {:induction false} ParseCountsPositive(text: string, pos: nat)
    requires pos <= |text|
    ensures CountsPositive(ParseFrom(text, pos).nodes)
    decreases |text| - pos, 1
  {
    var p := SkipSpace(text, pos);
    if p < |text| && text[p] != ']' {
      ParseUnitCountsPositive(text, p);
      var unit := ParseUnit(text, p);
      ParseCountsPositive(text, unit.next);
      CountsPositiveAppend(unit.nodes, ParseFrom(text, unit.next).nodes);
    }
  }

  lemma {:induction false} ParseUnitCountsPositive(text: string, p: nat)
    requires p < |text| && text[p] != ']'
    ensures CountsPositive(ParseUnit(text, p).nodes)
    decreases |text| - p, 0
  {
    var c := text[p];
    if c == '[' {
      var inner := ParseFrom(text, p + 1);
      ParseCountsPositive(text, p + 1);
      var run := [CommandNode(CommandOf(c), 1 + RunLength(text, inner.pos, c))];
      assert run[1..] == [] && CountsPositive(run[1..]) && CountsPositive(run);
      var nodes := [Loop(inner.nodes)] + run;
      assert nodes[0] == Loop(inner.nodes) && nodes[1..] == run;
    } else {
      var nodes := [CommandNode(CommandOf(c), 1 + RunLength(text, p + 1, c))];
      assert nodes[1..] == [] && CountsPositive(nodes[1..]);
    }
  }

  /**
   * A maximal run of `n` identical characters other than brackets, where
   * `file >> c` lands, becomes exactly one command node with that character
   * and count `n`, and parsing carries on right after the `n` characters.
   */
  lemma ParseRun(text: string, pos: nat, n: nat)
    requires pos <= |text|
    requires var p := SkipSpace(text, pos);
      1 <= n && p + n <= |text| && text[p] != '[' && text[p] != ']' &&
      (forall i :: p <= i < p + n ==> text[i] == text[p]) &&
      (p + n == |text| || text[p + n] != text[p])
    ensures var p := SkipSpace(text, pos);
      var rest := ParseFrom(text, p + n);
      ParseFrom(text, pos) == Parsed([CommandNode(CommandOf(text[p]), n)] + rest.nodes, rest.pos, rest.closed)
  {
    var p := SkipSpace(text, pos);
    RunLengthOfMaximalRun(text, p + 1, text[p], n - 1);
  }

  /** The children of one call, at the top level, that are loops. */
  predicate LoopsFollowedByInvalid(ns: seq<Node>)
  {
    forall i :: 0 <= i < |ns| && ns[i].Loop? ==>
      i + 1 < |ns| && ns[i + 1].CommandNode? && ns[i + 1].command == Invalid
  }

  /**
   * The missing `else`: every loop the parser appends is directly followed
   * by a command node built from `[`, whose tag was never set.
   */
  lemma {:induction false} ParseLoopsFollowedByInvalid(text: string, pos: nat)
    requires pos <= |text|
    ensures LoopsFollowedByInvalid(ParseFrom(text, pos).nodes)
    decreases |text| - pos
  {
    var p := SkipSpace(text, pos);
    if p < |text| && text[p] != ']' {
      var unit := ParseUnit(text, p);
      var rest := ParseFrom(text, unit.next);
      ParseLoopsFollowedByInvalid(text, unit.next);
      var ns := unit.nodes + rest.nodes;
      assert CommandOf('[') == Invalid;
      forall i | 0 <= i < |ns| && ns[i].Loop?
        ensures i + 1 < |ns| && ns[i + 1].CommandNode? && ns[i + 1].command == Invalid
      {
        if i >= |unit.nodes| {
          assert ns[i] == rest.nodes[i - |unit.nodes|];
          assert ns[i + 1] == rest.nodes[i + 1 - |unit.nodes|];
        }
      }
    }
  }

  /** `SkipSpace` looks no further than the character it stops at. */
  lemma {:induction false} SkipSpaceLocal(a: string, b: string, pos: nat, k: nat)
    requires pos <= |a| && pos <= |b| && k <= |a| && k <= |b| && a[..k] == b[..k]
    requires SkipSpace(a, pos) < k
    ensures SkipSpace(b, pos) == SkipSpace(a, pos)
    decreases |a| - pos
  {
    assert a[..k][pos] == a[pos] && b[..k][pos] == b[pos];
    if IsSpace(a[pos]) {
      SkipSpaceLocal(a, b, pos + 1, k);
    }
  }

  /** `RunLength` looks no further than the character that ends the run. */
  lemma {:induction false} RunLengthLocal(a: string, b: string, q: nat, c: char, k: nat)
    requires q <= |a| && q <= |b| && k <= |a| && k <= |b| && a[..k] == b[..k]
    requires q + RunLength(a, q, c) < k
    ensures RunLength(b, q, c) == RunLength(a, q, c)
    decreases |a| - q
  {
    assert a[..k][q] == a[q] && b[..k][q] == b[q];
    if a[q] == c {
      RunLengthLocal(a, b, q + 1, c, k);
    }
  }

  /**
   * A call that returned on `]` has read nothing beyond that `]`: the same
   * call on any stream that agrees up to there gives the same result.
   */
  lemma {:induction false} ParseIgnoresRest(a: string, b: string, pos: nat, k: nat)
    requires pos <= |a| && pos <= |b| && k <= |a| && k <= |b| && a[..k] == b[..k]
    requires ParseFrom(a, pos).closed && ParseFrom(a, pos).pos <= k
    ensures ParseFrom(b, pos) == ParseFrom(a, pos)
    decreases |a| - pos, 1
  {
    var p := SkipSpace(a, pos);
    SkipSpaceLocal(a, b, pos, k);
    assert a[..k][p] == a[p] && b[..k][p] == b[p];
    if a[p] != ']' {
      var unit := ParseUnit(a, p);
      ParseUnitIgnoresRest(a, b, p, k);
      ParseIgnoresRest(a, b, unit.next, k);
    }
  }

  lemma {:induction false} ParseUnitIgnoresRest(a: string, b: string, p: nat, k: nat)
    requires p < |a| && p < |b| && k <= |a| && k <= |b| && a[..k] == b[..k]
    requires a[p] != ']' && ParseUnit(a, p).next < k
    ensures b[p] == a[p] && ParseUnit(b, p) == ParseUnit(a, p)
    decreases |a| - p, 0
  {
    assert a[..k][p] == a[p] && b[..k][p] == b[p];
    if a[p] == '[' {
      var inner := ParseFrom(a, p + 1);
      ParseIgnoresRest(a, b, p + 1, k);
      RunLengthLocal(a, b, inner.pos, '[', k);
    } else {
      RunLengthLocal(a, b, p + 1, a[p], k);
    }
  }

  /**
   * A `]` that closes the top-level call stops parsing: whatever follows it
   * in the file is ignored.
   */
  lemma UnmatchedCloseIgnoresRest(text: string, junk: string)
    requires ParseFrom(text, 0).closed
    ensures ParseFrom(text + junk, 0) == ParseFrom(text, 0)
  {
    var k := ParseFrom(text, 0).pos;
    assert (text + junk)[..k] == text[..k];
    ParseIgnoresRest(text, text + junk, 0, k);
  }

  /** The character stream `fstream` as the parser uses it. */
  class Stream {
    const text: string
    var pos: nat

    ghost predicate Valid()
      reads this
    {
      pos <= |text|
    }

    constructor (text: string)
      ensures Valid() && this.text == text && pos == 0
    {
      this.text := text;
      pos := 0;
    }

    /** `file >> c`: skip whitespace, then take one character; `None` at end of input. */
    method Read() returns (c: Option<char>)
      requires Valid()
      modifies this
      ensures Valid()
      ensures var p := SkipSpace(text, old(pos));
        if p < |text| then c == Some(text[p]) && pos == p + 1
        else c == None && pos == |text|
    {
      while pos < |text| && IsSpace(text[pos])
        invariant Valid() && old(pos) <= pos
        invariant SkipSpace(text, pos) == SkipSpace(text, old(pos))
        decreases |text| - pos
      {
        pos := pos + 1;
      }
      if pos < |text| {
        c := Some(text[pos]);
        pos := pos + 1;
      } else {
        c := None;
      }
    }

    /** `file.peek()`: the next character, whitespace included; `None` at end of input. */
    method Peek() returns (c: Option<char>)
      requires Valid()
      ensures c == if pos < |text| then Some(text[pos]) else None
    {
      c := if pos < |text| then Some(text[pos]) else None;
    }
  }

  /** A `Loop` or `Program` under construction: its `children` vector. */
  class Container {
    var children: seq<Node>

    constructor ()
      ensures children == []
    {
      children := [];
    }
  }

  /**
   * `parse(file, contain)`: appends to `contain.children`, in source order,
   * exactly the nodes `ParseFrom` describes, and never removes or reorders
   * the children already there.
   */
  method Parse(file: Stream, contain: Container)
    requires file.Valid()
    modifies file, contain
    ensures file.Valid()
    ensures var r := ParseFrom(file.text, old(file.pos));
      contain.children == old(contain.children) + r.nodes && file.pos == r.pos
    decreases |file.text| - file.pos, 1
  {
    ghost var text := file.text;
    ghost var goal := old(contain.children) + ParseFrom(text, file.pos).nodes;
    ghost var end := ParseFrom(text, file.pos).pos;
    ghost var start := file.pos;  // where the latest `file >> c` began
    var c := file.Read();
    while c.Some?
      invariant file.Valid() && file.text == text
      invariant old(file.pos) <= start <= |text|
      invariant var p := SkipSpace(text, start);
        if p < |text| then c == Some(text[p]) && file.pos == p + 1
        else c == None && file.pos == |text|
      invariant goal == contain.children + ParseFrom(text, start).nodes
      invariant end == ParseFrom(text, start).pos
      decreases |text| - file.pos + (if c.Some? then 1 else 0)
    {
      var ch := c.value;
      ghost var p := SkipSpace(text, start);
      assert p < |text| && ch == text[p] && file.pos == p + 1 && !IsSpace(ch);
      if ch == ']' {
        ParseStopsAtClose(text, start);
        assert contain.children + [] == contain.children;
        return;  // close loop container
      }
      AppendTurn(text, start, contain.children);
      ParseTurn(file, contain, ch, p);
      start := file.pos;
      c := file.Read();
    }
    assert contain.children + [] == contain.children;
  }

  /**
   * The body of the `while (file >> c)` loop for a character `ch` other than
   * `]`, which the stream has just delivered: a `[` first fills a fresh `Loop`
   * by a recursive `parse` and appends it; then, there being no `else`, the
   * run that `ch` starts is counted and appended as one command node.
   */
  method ParseTurn(file: Stream, contain: Container, ch: char, ghost p: nat)
    requires file.Valid() && file.pos == p + 1 && p < |file.text| && file.text[p] == ch
    requires ch != ']' && !IsSpace(ch)
    modifies file, contain
    ensures file.Valid()
    ensures contain.children == old(contain.children) + ParseUnit(file.text, p).nodes
    ensures file.pos == ParseUnit(file.text, p).next
    decreases |file.text| - file.pos + 1, 0
  {
    ghost var before := contain.children;
    ghost var loop: seq<Node> := [];
    if ch == '[' {
      var looper := new Container();
      Parse(file, looper);
      assert looper.children == ParseFrom(file.text, p + 1).nodes;
      contain.children := contain.children + [Loop(looper.children)];
      loop := [Loop(looper.children)];
    } else {
      assert contain.children == before + loop;
    }
    var count := ReadRun(file, ch);
    contain.children := contain.children + [CommandNode(CommandOf(ch), count)];
    assert (before + loop) + [CommandNode(CommandOf(ch), count)] == before + (loop + [CommandNode(CommandOf(ch), count)]);
  }

  /**
   * The run loop of `parse`: while `c == file.peek()`, take the character
   * with `file >> c` and count it.  The count includes the character that
   * started the run, which the caller has already read.
   */
  method ReadRun(file: Stream, ch: char) returns (count: int)
    requires file.Valid() && !IsSpace(ch)
    modifies file
    ensures file.Valid()
    ensures count == 1 + RunLength(file.text, old(file.pos), ch)
    ensures file.pos == old(file.pos) + count - 1
  {
    count := 1;
    var next := file.Peek();
    while next == Some(ch)
      invariant file.Valid() && old(file.pos) <= file.pos
      invariant next == if file.pos < |file.text| then Some(file.text[file.pos]) else None
      invariant RunLength(file.text, old(file.pos), ch) == RunLength(file.text, file.pos, ch) + (count - 1)
      invariant file.pos == old(file.pos) + count - 1
      decreases |file.text| - file.pos
    {
      var c := file.Read();  // `file >> c` takes exactly the peeked character
      count := count + 1;
      next := file.Peek();
    }
  }

  /** Parsing a whole file into a fresh `Program` root. */
  method ParseProgram(text: string) returns (program: Program)
    ensures program == Program(ParseFrom(text, 0).nodes)
  {
    var file := new Stream(text);
    var contain := new Container();
    Parse(file, contain);
    program := Program(contain.children);
  }
}
