/**
 * The parser as its authors evidently meant it: the same recursive descent
 * as `Parsing.ParseFrom`, but with the `[` branch and the run branch as
 * alternatives, so a loop is appended on its own and the character after
 * its `]` is read afresh.  Against this parser the tree determines its
 * source: parsing the text a well-formed tree stands for gives back that
 * tree, a round trip that the parser as written fails for every tree with a
 * loop.
 */
module IntendedParsing {
  import opened Ast
  import opened Parsing

  /** One call of `parse` with `else` between the `[` branch and the rest. */
  function ParseIntended(text: string, pos: nat): (r: Parsed)
    requires pos <= |text|
    ensures pos <= r.pos <= |text|
    ensures r.closed ==> pos < r.pos && text[r.pos - 1] == ']'
    ensures !r.closed ==> r.pos == |text|
    decreases |text| - pos, 1
  {
    var p := SkipSpace(text, pos);
    if p == |text| then Parsed([], |text|, false)
    else if text[p] == ']' then Parsed([], p + 1, true)
    else
      var unit := ParseUnitIntended(text, p);
      var rest := ParseIntended(text, unit.next);
      Parsed(unit.nodes + rest.nodes, rest.pos, rest.closed)
  }

  /** A turn that reads one node at `pos` prepends it to the parse from where the turn ended. */
  lemma ParseIntendedStep(text: string, pos: nat, node: Node, next: nat)
    requires pos < |text| && SkipSpace(text, pos) == pos && text[pos] != ']'
    requires ParseUnitIntended(text, pos) == Unit([node], next)
    ensures var rest := ParseIntended(text, next);
      ParseIntended(text, pos) == Parsed([node] + rest.nodes, rest.pos, rest.closed)
  {
  }

  /** One loop turn: a nested loop for `[`, otherwise one run. */
  function ParseUnitIntended(text: string, p: nat): (u: Unit)
    requires p < |text| && text[p] != ']'
    ensures p < u.next <= |text|
    decreases |text| - p, 0
  {
    var c := text[p];
    if c == '[' then
      var inner := ParseIntended(text, p + 1);
      Unit([Loop(inner.nodes)], inner.pos)
    else
      var n := RunLength(text, p + 1, c);
      Unit([CommandNode(CommandOf(c), 1 + n)], p + 1 + n)
  }

  /** The Brainfuck text a tree stands for: runs written out, loops in brackets. */
  function Expand(ns: seq<Node>): string
    decreases NodesSize(ns)
  {
    if ns == [] then [] else ExpandNode(ns[0]) + Expand(ns[1..])
  }

  function ExpandNode(n: Node): string
    decreases NodeSize(n)
  {
    match n
    case CommandNode(command, count) =>
      if command == Invalid || count <= 0 then [] else Replicate(SourceChar(command), count)
    case Loop(children) => ['['] + Expand(children) + [']']
  }

  /**
   * The trees a parser can be asked to give back: valid tags, positive
   * counts, and no two neighbouring runs of the same command (they would
   * have been one run).
   */
  predicate Canonical(ns: seq<Node>)
    decreases NodesSize(ns)
  {
    ns == [] ||
    (NodeCanonical(ns[0]) && Canonical(ns[1..]) &&
     (|ns| >= 2 && ns[0].CommandNode? && ns[1].CommandNode? ==> ns[0].command != ns[1].command))
  }

  predicate NodeCanonical(n: Node)
    decreases NodeSize(n)
  {
    match n
    case CommandNode(command, count) => command != Invalid && count >= 1
    case Loop(children) => Canonical(children)
  }

  /** The first character of a non-empty canonical tree's text. */
  lemma {:induction false} ExpandFirst(ns: seq<Node>)
    requires Canonical(ns) && ns != []
    ensures ns[0].CommandNode? ==> ns[0].command != Invalid && ns[0].count >= 1
    ensures |Expand(ns)| > 0
    ensures Expand(ns)[0] == if ns[0].Loop? then '[' else SourceChar(ns[0].command)
  {
    assert Expand(ns) == ExpandNode(ns[0]) + Expand(ns[1..]);
  }

  /** The text of `ns` lies at `pos` in `text`, followed by `]` or by the end of the text. */
  predicate ExpandedAt(text: string, pos: nat, ns: seq<Node>)
  {
    var t := Expand(ns);
    pos + |t| <= |text| && text[pos..pos + |t|] == t && (pos + |t| == |text| || text[pos + |t|] == ']')
  }

  /** The text of a canonical node lies at `pos` in `text`, and a run is not followed by its own character. */
  predicate NodeExpandedAt(text: string, pos: nat, n: Node)
  {
    var t := ExpandNode(n);
    pos + |t| <= |text| && text[pos..pos + |t|] == t &&
    (n.CommandNode? && n.command != Invalid && pos + |t| < |text| ==> text[pos + |t|] != SourceChar(n.command))
  }

  /**
   * The corrected parser at `pos` gives back `ns`, and stops just after a
   * `]` at `end` or, when `end` is the end of the text, there.
   */
  predicate ParsesBack(text: string, pos: nat, ns: seq<Node>, end: nat)
    requires pos <= |text|
  {
    var r := ParseIntended(text, pos);
    r.nodes == ns && r.closed == (end < |text|) && (r.closed ==> r.pos == end + 1)
  }

  /**
   * Parsing, at `pos`, the text of a canonical tree that is followed by `]`
   * or by the end of input gives back exactly that tree, and stops after
   * the `]` or at the end.
   */
  lemma {:induction false} ParseExpand(ns: seq<Node>, text: string, pos: nat)
    requires Canonical(ns) && ExpandedAt(text, pos, ns)
    ensures ParsesBack(text, pos, ns, pos + |Expand(ns)|)
    decreases NodesSize(ns), 1
  {
    if ns == [] {
      ParseExpandEnd(text, pos, ns);
    } else {
      var mid := pos + |ExpandNode(ns[0])|;
      ExpandCons(ns, text, pos);
      UnitExpand(ns[0], text, pos);
      ParseExpand(ns[1..], text, mid);
      ConsStep(text, pos, ns, mid, pos + |Expand(ns)|);
    }
  }

  /** At the end of the text or at a `]`, the corrected parser reads no nodes. */
  lemma ParseExpandEnd(text: string, pos: nat, ns: seq<Node>)
    requires ns == [] && ExpandedAt(text, pos, ns)
    ensures ParsesBack(text, pos, ns, pos + |Expand(ns)|)
  {
    assert Expand(ns) == [];
    assert SkipSpace(text, pos) == pos;
  }

  /** The last step of `ParseExpand`: the first node's turn, then the parse of the rest. */
  lemma ConsStep(text: string, pos: nat, ns: seq<Node>, mid: nat, end: nat)
    requires ns != [] && pos < mid <= end <= |text|
    requires SkipSpace(text, pos) == pos && pos < |text| && text[pos] != ']'
    requires ParseUnitIntended(text, pos) == Unit([ns[0]], mid)
    requires ParsesBack(text, mid, ns[1..], end)
    ensures ParsesBack(text, pos, ns, end)
  {
    ParseIntendedStep(text, pos, ns[0], mid);
    assert [ns[0]] + ns[1..] == ns;
  }

  /** The last step of `UnitExpand` for a loop: `[`, the body's parse, and past its `]`. */
  lemma LoopStep(text: string, pos: nat, body: seq<Node>, e: nat)
    requires pos + 2 + e <= |text| && text[pos] == '['
    requires ParseIntended(text, pos + 1).nodes == body
    requires ParseIntended(text, pos + 1).pos == pos + 2 + e
    ensures ParseUnitIntended(text, pos) == Unit([Loop(body)], pos + 2 + e)
  {
  }

  /** How the text of a non-empty canonical tree divides at its first node. */
  lemma ExpandCons(ns: seq<Node>, text: string, pos: nat)
    requires Canonical(ns) && ns != [] && ExpandedAt(text, pos, ns)
    ensures NodeSize(ns[0]) < NodesSize(ns) && NodesSize(ns[1..]) < NodesSize(ns)
    ensures NodeCanonical(ns[0]) && Canonical(ns[1..])
    ensures var mid := pos + |ExpandNode(ns[0])|;
      mid + |Expand(ns[1..])| == pos + |Expand(ns)| &&
      NodeExpandedAt(text, pos, ns[0]) && ExpandedAt(text, mid, ns[1..])
  {
    CanonicalTail(ns);
    ExpandSplit(ns, text, pos);
    FirstNodeAt(ns, text, pos);
  }

  /** The first node of a canonical tree whose text lies at `pos` lies there too. */
  lemma FirstNodeAt(ns: seq<Node>, text: string, pos: nat)
    requires Canonical(ns) && ns != []
    requires var head, mid := ExpandNode(ns[0]), pos + |ExpandNode(ns[0])|;
      mid <= |text| && text[pos..mid] == head && ExpandedAt(text, mid, ns[1..])
    ensures NodeExpandedAt(text, pos, ns[0])
  {
    var n, mid := ns[0], pos + |ExpandNode(ns[0])|;
    if n.CommandNode? && n.command != Invalid && mid < |text| {
      RunEndsBeforeNext(ns, text, pos);
    }
  }

  /** The first node and the rest of a canonical tree are canonical, and smaller. */
  lemma CanonicalTail(ns: seq<Node>)
    requires Canonical(ns) && ns != []
    ensures NodeSize(ns[0]) < NodesSize(ns) && NodesSize(ns[1..]) < NodesSize(ns)
    ensures NodeCanonical(ns[0]) && Canonical(ns[1..])
  {
  }

  /** The text of a tree at `pos`: the first node's text, then the rest's. */
  lemma ExpandSplit(ns: seq<Node>, text: string, pos: nat)
    requires ns != [] && ExpandedAt(text, pos, ns)
    ensures var head, mid := ExpandNode(ns[0]), pos + |ExpandNode(ns[0])|;
      mid + |Expand(ns[1..])| == pos + |Expand(ns)| &&
      mid <= |text| && text[pos..mid] == head && ExpandedAt(text, mid, ns[1..])
  {
    var head, tail := ExpandNode(ns[0]), Expand(ns[1..]);
    assert Expand(ns) == head + tail;
    FollowedAt(text, pos, head, tail);
  }

  /**
   * Text `a + b` at `pos`, followed by `]` or the end: `a` at `pos`, and `b`
   * after it, followed by the same.
   */
  lemma FollowedAt(text: string, pos: nat, a: string, b: string)
    requires var e := pos + |a + b|;
      e <= |text| && text[pos..e] == a + b && (e == |text| || text[e] == ']')
    ensures var m, e := pos + |a|, pos + |a| + |b|;
      e <= |text| && text[pos..m] == a && text[m..e] == b && (e == |text| || text[e] == ']')
  {
    SliceSplit(text, pos, a, b);
  }

  /** In the text of a canonical tree, the first run is followed by a different character. */
  lemma RunEndsBeforeNext(ns: seq<Node>, text: string, pos: nat)
    requires Canonical(ns) && ns != [] && ns[0].CommandNode?
    requires var mid := pos + |ExpandNode(ns[0])|;
      mid < |text| && ExpandedAt(text, mid, ns[1..])
    ensures ns[0].command != Invalid
    ensures text[pos + |ExpandNode(ns[0])|] != SourceChar(ns[0].command)
  {
    var cmd, mid, tail := ns[0].command, pos + |ExpandNode(ns[0])|, ns[1..];
    NextChar(tail, text, mid);
    var next := text[mid];
    assert cmd != Invalid;
    CommandOfSourceChar(cmd);
    if next != ']' && next != '[' {
      CommandOfSourceChar(tail[0].command);
    }
  }

  /**
   * The character after a run in the text of a canonical tree: the `]` or
   * the end that follows the tree when the run is its last node, and
   * otherwise the first character of the next node, a `[` or a command of a
   * different kind.
   */
  lemma NextChar(tail: seq<Node>, text: string, mid: nat)
    requires Canonical(tail) && mid < |text| && ExpandedAt(text, mid, tail)
    ensures text[mid] == ']' || text[mid] == '[' ||
      (tail != [] && tail[0].CommandNode? && tail[0].command != Invalid && text[mid] == SourceChar(tail[0].command))
    ensures tail == [] ==> text[mid] == ']'
  {
    if tail != [] {
      ExpandFirst(tail);
      assert text[mid..mid + |Expand(tail)|][0] == Expand(tail)[0];
    }
  }

  /**
   * One canonical node's text, followed by something that does not extend
   * its run, is read by one turn of the parse loop as exactly that node.
   */
  lemma {:induction false} UnitExpand(n: Node, text: string, pos: nat)
    requires NodeCanonical(n) && NodeExpandedAt(text, pos, n)
    ensures |ExpandNode(n)| >= 1 && SkipSpace(text, pos) == pos && pos < |text| && text[pos] != ']'
    ensures ParseUnitIntended(text, pos) == Unit([n], pos + |ExpandNode(n)|)
    decreases NodeSize(n), 0
  {
    match n
    case CommandNode(cmd, count) =>
      RunExpand(cmd, count, text, pos);
    case Loop(body) =>
      LoopSlices(body, text, pos);
      ParseExpand(body, text, pos + 1);
      LoopStep(text, pos, body, |Expand(body)|);
  }

  /** A loop's text: `[`, then its body's text, then `]`. */
  lemma LoopSlices(body: seq<Node>, text: string, pos: nat)
    requires NodeExpandedAt(text, pos, Loop(body))
    ensures ExpandedAt(text, pos + 1, body)
    ensures var e := |Expand(body)|;
      |ExpandNode(Loop(body))| == e + 2 && pos + 2 + e <= |text| &&
      text[pos] == '[' && text[pos + 1..pos + 1 + e] == Expand(body) && text[pos + 1 + e] == ']'
  {
    var inner := Expand(body);
    assert ExpandNode(Loop(body)) == ['['] + inner + [']'];
    BracketSlices(text, pos, inner);
  }

  /** A maximal run of one command character is read as one leaf. */
  lemma RunExpand(cmd: Command, count: int, text: string, pos: nat)
    requires cmd != Invalid && count >= 1
    requires pos + count <= |text| && text[pos..pos + count] == Replicate(SourceChar(cmd), count)
    requires pos + count < |text| ==> text[pos + count] != SourceChar(cmd)
    ensures SkipSpace(text, pos) == pos && pos < |text| && text[pos] != ']'
    ensures ParseUnitIntended(text, pos) == Unit([CommandNode(cmd, count)], pos + count)
  {
    var c := SourceChar(cmd);
    CommandOfSourceChar(cmd);
    assert text[pos] == c by {
      assert text[pos..pos + count][0] == c;
    }
    forall i | pos + 1 <= i < pos + count ensures text[i] == c {
      assert text[pos..pos + count][i - pos] == c;
    }
    RunLengthOfMaximalRun(text, pos + 1, c, count - 1);
  }

  /** Round trip: the intended parser gives a canonical tree back from its text. */
  lemma RoundTrip(ns: seq<Node>)
    requires Canonical(ns)
    ensures ParseIntended(Expand(ns), 0) == Parsed(ns, |Expand(ns)|, false)
  {
    assert Expand(ns)[0..|Expand(ns)|] == Expand(ns);
    ParseExpand(ns, Expand(ns), 0);
  }

  /** No top-level node of a canonical tree carries the `Invalid` tag. */
  lemma {:induction false} CanonicalHasNoInvalid(ns: seq<Node>, j: nat)
    requires Canonical(ns) && j < |ns| && ns[j].CommandNode?
    ensures ns[j].command != Invalid
    decreases j
  {
    if j > 0 {
      CanonicalHasNoInvalid(ns[1..], j - 1);
    }
  }

  /**
   * The parser as written fails the round trip for every canonical tree
   * with a loop at the top level.
   */
  lemma AsWrittenRoundTripFails(ns: seq<Node>, i: nat)
    requires Canonical(ns) && i < |ns| && ns[i].Loop?
    ensures ParseFrom(Expand(ns), 0).nodes != ns
  {
    ParseLoopsFollowedByInvalid(Expand(ns), 0);
    if ParseFrom(Expand(ns), 0).nodes == ns {
      CanonicalHasNoInvalid(ns, i + 1);
    }
  }

  /** The text `[+]`: the parser as written appends an extra untagged node after the loop. */
  lemma MissingElseAddsNode(t: string)
    requires |t| == 3 && t[0] == '[' && t[1] == '+' && t[2] == ']'
    ensures ParseFrom(t, 0).nodes == [Loop([CommandNode(Increment, 1)]), CommandNode(Invalid, 1)]
    ensures ParseIntended(t, 0).nodes == [Loop([CommandNode(Increment, 1)])]
  {
    var body := [CommandNode(Increment, 1)];
    assert ParseFrom(t, 1) == Parsed(body, 3, true) by {
      assert ParseFrom(t, 2) == Parsed([], 3, true);
      assert ParseUnit(t, 1) == Unit(body, 2);
    }
    assert ParseFrom(t, 0).nodes == [Loop(body), CommandNode(Invalid, 1)] by {
      assert RunLength(t, 3, '[') == 0;
      assert ParseUnit(t, 0) == Unit([Loop(body), CommandNode(Invalid, 1)], 3);
      assert ParseFrom(t, 3) == Parsed([], 3, false);
    }
    assert ParseIntended(t, 1) == Parsed(body, 3, true) by {
      assert ParseIntended(t, 2) == Parsed([], 3, true);
      assert ParseUnitIntended(t, 1) == Unit(body, 2);
    }
    assert ParseIntended(t, 0).nodes == [Loop(body)] by {
      assert ParseUnitIntended(t, 0) == Unit([Loop(body)], 3);
      assert ParseIntended(t, 3) == Parsed([], 3, false);
    }
  }

  /**
   * The text `[+][-]`: the second `[` is swallowed into the run after the first loop,
   * its body is parsed at the top level, and its `]` ends the whole parse.
   */
  lemma MissingElseSwallowsLoop(t: string)
    requires |t| == 6 && t[0] == '[' && t[1] == '+' && t[2] == ']'
    requires t[3] == '[' && t[4] == '-' && t[5] == ']'
    ensures ParseFrom(t, 0) ==
      Parsed([Loop([CommandNode(Increment, 1)]), CommandNode(Invalid, 2), CommandNode(Decrement, 1)], 6, true)
    ensures ParseIntended(t, 0) ==
      Parsed([Loop([CommandNode(Increment, 1)]), Loop([CommandNode(Decrement, 1)])], 6, false)
  {
    var inc := [CommandNode(Increment, 1)];
    var dec := [CommandNode(Decrement, 1)];
    assert ParseFrom(t, 1) == Parsed(inc, 3, true) by {
      assert ParseFrom(t, 2) == Parsed([], 3, true);
      assert ParseUnit(t, 1) == Unit(inc, 2);
    }
    assert ParseFrom(t, 4) == Parsed(dec, 6, true) by {
      assert ParseFrom(t, 5) == Parsed([], 6, true);
      assert ParseUnit(t, 4) == Unit(dec, 5);
    }
    assert ParseUnit(t, 0) == Unit([Loop(inc), CommandNode(Invalid, 2)], 4) by {
      assert RunLength(t, 4, '[') == 0;
      assert RunLength(t, 3, '[') == 1;
    }
    assert ParseIntended(t, 1) == Parsed(inc, 3, true) by {
      assert ParseIntended(t, 2) == Parsed([], 3, true);
      assert ParseUnitIntended(t, 1) == Unit(inc, 2);
    }
    assert ParseIntended(t, 4) == Parsed(dec, 6, true) by {
      assert ParseIntended(t, 5) == Parsed([], 6, true);
      assert ParseUnitIntended(t, 4) == Unit(dec, 5);
    }
    assert ParseIntended(t, 3) == Parsed([Loop(dec)], 6, false) by {
      assert ParseUnitIntended(t, 3) == Unit([Loop(dec)], 6);
      assert ParseIntended(t, 6) == Parsed([], 6, false);
    }
    assert ParseUnitIntended(t, 0) == Unit([Loop(inc)], 3);
  }

  /** Without `[` in the text, the two parsers agree. */
  lemma {:induction false} AgreeWithoutLoops(text: string, pos: nat)
    requires pos <= |text| && '[' !in text
    ensures ParseFrom(text, pos) == ParseIntended(text, pos)
    decreases |text| - pos
  {
    var p := SkipSpace(text, pos);
    if p < |text| && text[p] != ']' {
      AgreeWithoutLoops(text, ParseUnit(text, p).next);
    }
  }

  // ---------------------------------------------------------------------
  // From text to tree and back

  /** The characters of a Brainfuck text without whitespace: the seven commands and the brackets. */
  predicate InAlphabet(c: char)
  {
    CommandOf(c) != Invalid || c == '[' || c == ']'
  }

  /** From `pos` on, the text holds only command characters and brackets. */
  predicate OverAlphabet(text: string, pos: nat)
  {
    forall i :: pos <= i < |text| ==> InAlphabet(text[i])
  }

  /** How many more loops `s` opens than it closes. */
  function Depth(s: string): int
  {
    if s == [] then 0
    else (if s[0] == '[' then 1 else if s[0] == ']' then -1 else 0) + Depth(s[1..])
  }

  /** Matched brackets: no prefix closes more loops than it opened, and every loop is closed. */
  predicate Balanced(s: string)
  {
    Depth(s) == 0 && forall i :: 0 <= i <= |s| ==> Depth(s[..i]) >= 0
  }

  lemma {:induction false} DepthAppend(a: string, b: string)
    ensures Depth(a + b) == Depth(a) + Depth(b)
    decreases |a|
  {
    if a == [] {
      assert a + b == b;
    } else {
      assert (a + b)[0] == a[0] && (a + b)[1..] == a[1..] + b;
      DepthAppend(a[1..], b);
    }
  }

  /** A text without brackets opens and closes nothing. */
  lemma {:induction false} DepthWithoutBrackets(s: string)
    requires forall i :: 0 <= i < |s| ==> s[i] != '[' && s[i] != ']'
    ensures Depth(s) == 0
    decreases |s|
  {
    if s != [] {
      DepthWithoutBrackets(s[1..]);
    }
  }

  lemma {:induction false} DepthCloses(k: nat)
    ensures Depth(Replicate(']', k)) == -(k as int)
  {
    if k > 0 {
      assert Replicate(']', k)[1..] == Replicate(']', k - 1);
      DepthCloses(k - 1);
    }
  }

  lemma {:induction false} DepthRun(c: char, k: nat)
    requires c != '[' && c != ']'
    ensures Depth(Replicate(c, k)) == 0
  {
    if k > 0 {
      assert Replicate(c, k)[1..] == Replicate(c, k - 1);
      DepthRun(c, k - 1);
    }
  }

  /** The text of any tree has matched brackets overall. */
  lemma {:induction false} ExpandDepth(ns: seq<Node>)
    ensures Depth(Expand(ns)) == 0
    decreases NodesSize(ns), 1
  {
    if ns != [] {
      ExpandNodeDepth(ns[0]);
      ExpandDepth(ns[1..]);
      DepthAppend(ExpandNode(ns[0]), Expand(ns[1..]));
    }
  }

  lemma {:induction false} ExpandNodeDepth(n: Node)
    ensures Depth(ExpandNode(n)) == 0
    decreases NodeSize(n), 0
  {
    match n
    case CommandNode(command, count) =>
      if command != Invalid && count > 0 {
        DepthRun(SourceChar(command), count);
      }
    case Loop(children) =>
      ExpandDepth(children);
      DepthAppend(['['], Expand(children));
      DepthAppend(['['] + Expand(children), [']']);
  }

  /** Command characters and brackets are not whitespace, and brackets are not commands. */
  lemma AlphabetChars(c: char)
    requires InAlphabet(c)
    ensures !IsSpace(c)
    ensures (c == '[' || c == ']') <==> CommandOf(c) == Invalid
  {
  }

  /** A canonical node in front of a canonical tree, unless it extends the tree's first run. */
  lemma CanonicalCons(n: Node, rest: seq<Node>)
    requires NodeCanonical(n) && Canonical(rest)
    requires n.CommandNode? && rest != [] && rest[0].CommandNode? ==> n.command != rest[0].command
    ensures ([n] + rest)[0] == n && Canonical([n] + rest)
  {
    assert ([n] + rest)[1..] == rest;
  }

  /** Two different characters that both name commands name different commands. */
  lemma DistinctCommands(a: char, b: char)
    requires CommandOf(a) != Invalid && a != b
    ensures CommandOf(a) != CommandOf(b)
  {
  }

  /**
   * One turn of the corrected parser on command-and-bracket text reads one
   * canonical node.  A leaf is the maximal run at `p`; the node's text is
   * what the turn consumed, followed by the `]`s of loops that the end of
   * input left open.
   */
  lemma {:induction false} UnitReadsText(text: string, p: nat)
    requires p < |text| && text[p] != ']' && OverAlphabet(text, p)
    ensures var u := ParseUnitIntended(text, p);
      var e := ExpandNode(u.nodes[0]);
      |u.nodes| == 1 && NodeCanonical(u.nodes[0]) &&
      (u.nodes[0].CommandNode? ==>
        u.nodes[0].command == CommandOf(text[p]) && (u.next < |text| ==> text[u.next] != text[p])) &&
      u.next - p <= |e| && e == text[p..u.next] + Replicate(']', |e| - (u.next - p)) &&
      (|e| > u.next - p ==> u.next == |text|)
    decreases |text| - p, 1
  {
    var c := text[p];
    AlphabetChars(c);
    if c == '[' {
      LoopReadsText(text, p);
    } else {
      LeafReadsText(text, p);
    }
  }

  /** The `[` case of `UnitReadsText`. */
  lemma LoopReadsText(text: string, p: nat)
    requires p < |text| && text[p] == '[' && OverAlphabet(text, p)
    ensures var u := ParseUnitIntended(text, p);
      var e := ExpandNode(u.nodes[0]);
      |u.nodes| == 1 && u.nodes[0].Loop? && NodeCanonical(u.nodes[0]) &&
      u.next - p <= |e| && e == text[p..u.next] + Replicate(']', |e| - (u.next - p)) &&
      (|e| > u.next - p ==> u.next == |text|)
    decreases |text| - p, 0
  {
    var inner := ParseIntended(text, p + 1);
    ParseReadsText(text, p + 1);
    var x := Expand(inner.nodes);
    assert ParseUnitIntended(text, p) == Unit([Loop(inner.nodes)], inner.pos);
    assert ExpandNode(Loop(inner.nodes)) == ['['] + x + [']'];
    if inner.closed {
      WrapClosed(text, p, inner.pos, x);
    } else {
      WrapOpen(text, p, x, |x| - (|text| - (p + 1)));
    }
  }

  /** A `[`, then a loop's text and its `]`. */
  lemma WrapClosed(text: string, p: nat, q: nat, x: string)
    requires p < q <= |text| && text[p] == '[' && text[p + 1..q] == x + [']']
    ensures text[p..q] == ['['] + x + [']'] + Replicate(']', 0)
  {
    assert text[p..q] == [text[p]] + text[p + 1..q];
  }

  /** A `[`, then a loop's text that the end of input cut short of `k` closing brackets. */
  lemma WrapOpen(text: string, p: nat, x: string, k: nat)
    requires p < |text| && text[p] == '[' && x == text[p + 1..] + Replicate(']', k)
    ensures ['['] + x + [']'] == text[p..] + Replicate(']', k + 1)
  {
    assert text[p..] == [text[p]] + text[p + 1..];
    assert Replicate(']', k) + [']'] == Replicate(']', k + 1);
  }

  /** The run case of `UnitReadsText`. */
  lemma LeafReadsText(text: string, p: nat)
    requires p < |text| && text[p] != '[' && text[p] != ']' && CommandOf(text[p]) != Invalid
    ensures var u := ParseUnitIntended(text, p);
      var e := ExpandNode(u.nodes[0]);
      |u.nodes| == 1 && u.nodes[0].CommandNode? && NodeCanonical(u.nodes[0]) &&
      u.nodes[0].command == CommandOf(text[p]) && (u.next < |text| ==> text[u.next] != text[p]) &&
      e == text[p..u.next] && u.next - p == |e|
  {
    LeafUnit(text, p);
    LeafText(text, p);
  }

  /** The leaf for the maximal run at `p` is canonical and stands for exactly that run. */
  lemma LeafText(text: string, p: nat)
    requires p < |text| && text[p] != '[' && text[p] != ']' && CommandOf(text[p]) != Invalid
    ensures var n := RunLength(text, p + 1, text[p]);
      var leaf := CommandNode(CommandOf(text[p]), 1 + n);
      NodeCanonical(leaf) && ExpandNode(leaf) == text[p..p + 1 + n]
  {
    RunText(text, p);
    LeafExpands(text[p], 1 + RunLength(text, p + 1, text[p]));
  }

  /** One turn of the corrected parser on a command character reads the maximal run there. */
  lemma LeafUnit(text: string, p: nat)
    requires p < |text| && text[p] != '[' && text[p] != ']' && CommandOf(text[p]) != Invalid
    ensures var n := RunLength(text, p + 1, text[p]);
      ParseUnitIntended(text, p) == Unit([CommandNode(CommandOf(text[p]), 1 + n)], p + 1 + n)
  {
  }

  /** The maximal run at `p` is that many copies of its character. */
  lemma RunText(text: string, p: nat)
    requires p < |text|
    ensures var n := RunLength(text, p + 1, text[p]);
      text[p..p + 1 + n] == Replicate(text[p], 1 + n)
  {
    RunLengthIsRun(text, p + 1, text[p]);
  }

  /** A run of a command character stands for a canonical leaf of that command. */
  lemma LeafExpands(c: char, k: int)
    requires CommandOf(c) != Invalid && k >= 1
    ensures var leaf := CommandNode(CommandOf(c), k);
      NodeCanonical(leaf) && ExpandNode(leaf) == Replicate(c, k)
  {
  }

  /**
   * The text of a node followed by the text of a parse from where the node
   * ended is the text of the node and the parse together.
   */
  lemma ConsText(text: string, pos: nat, n: Node, next: nat, rest: Parsed)
    requires pos < next <= rest.pos <= |text|
    requires var e := ExpandNode(n);
      next - pos <= |e| && e == text[pos..next] + Replicate(']', |e| - (next - pos)) &&
      (|e| > next - pos ==> next == |text|)
    requires next == |text| ==> rest == Parsed([], |text|, false)
    requires rest.closed ==> text[next..rest.pos] == Expand(rest.nodes) + [']']
    requires !rest.closed ==> (rest.pos == |text| && |text| - next <= |Expand(rest.nodes)| &&
      Expand(rest.nodes) == text[next..] + Replicate(']', |Expand(rest.nodes)| - (|text| - next)))
    ensures var x := Expand([n] + rest.nodes);
      (rest.closed ==> text[pos..rest.pos] == x + [']']) &&
      (!rest.closed ==> |text| - pos <= |x| && x == text[pos..] + Replicate(']', |x| - (|text| - pos)))
  {
    var ns := [n] + rest.nodes;
    assert ns[0] == n && ns[1..] == rest.nodes;
    assert Expand(ns) == ExpandNode(n) + Expand(rest.nodes);
    var e, x := ExpandNode(n), Expand(rest.nodes);
    if |e| > next - pos {
      assert rest.nodes == [] && x == [];
      assert e + x == e;
    } else {
      assert Replicate(']', 0) == [];
      assert e == text[pos..next];
      if rest.closed {
        ClosedTextCons(text, pos, next, rest.pos, x);
      } else {
        OpenTextCons(text, pos, next, x);
      }
    }
  }

  /** A node's full text, then text up to a `]`, is the text from the node's start up to that `]`. */
  lemma ClosedTextCons(text: string, pos: nat, next: nat, end: nat, x: string)
    requires pos <= next <= end <= |text|
    requires text[next..end] == x + [']']
    ensures text[pos..end] == text[pos..next] + x + [']']
  {
    assert text[pos..end] == text[pos..next] + text[next..end];
  }

  /** A node's full text, then the rest of the input with loops closed, is the input from the node on with loops closed. */
  lemma OpenTextCons(text: string, pos: nat, next: nat, x: string)
    requires pos <= next <= |text| && |text| - next <= |x|
    requires x == text[next..] + Replicate(']', |x| - (|text| - next))
    ensures var y := text[pos..next] + x;
      |text| - pos <= |y| && y == text[pos..] + Replicate(']', |y| - (|text| - pos))
  {
    assert text[pos..] == text[pos..next] + text[next..];
  }

  /**
   * What a call of the corrected parser at `pos` read, as a tree: a
   * canonical tree whose first leaf, if it starts with one, is the
   * character at `pos`.  Its text is what the call consumed up to the `]` it
   * returned on; when it ran out of input instead, its text is the rest of
   * the input followed by the `]`s of the loops left open.
   */
  predicate ReadsText(text: string, pos: nat, r: Parsed)
    requires pos <= r.pos <= |text|
  {
    var x := Expand(r.nodes);
    Canonical(r.nodes) &&
    (r.nodes != [] && r.nodes[0].CommandNode? ==> pos < |text| && r.nodes[0].command == CommandOf(text[pos])) &&
    (r.closed ==> text[pos..r.pos] == x + [']']) &&
    (!r.closed ==> |text| - pos <= |x| && x == text[pos..] + Replicate(']', |x| - (|text| - pos)))
  }

  /** Every call of the corrected parser on command-and-bracket text reads its text as a tree. */
  lemma {:induction false} ParseReadsText(text: string, pos: nat)
    requires pos <= |text| && OverAlphabet(text, pos)
    ensures ReadsText(text, pos, ParseIntended(text, pos))
    decreases |text| - pos, 2
  {
    if pos < |text| {
      AlphabetChars(text[pos]);
      assert SkipSpace(text, pos) == pos;
      if text[pos] == ']' {
        assert text[pos..pos + 1] == [']'];
      } else {
        UnitReadsText(text, pos);
        ParseReadsText(text, ParseUnitIntended(text, pos).next);
        TurnReadsText(text, pos);
      }
    } else {
      assert text[pos..] == [] && Replicate(']', 0) == [];
    }
  }

  /** The turn case of `ParseReadsText`: one node, then the rest of the call. */
  lemma TurnReadsText(text: string, pos: nat)
    requires pos < |text| && text[pos] != ']' && SkipSpace(text, pos) == pos
    requires var u := ParseUnitIntended(text, pos);
      var e := ExpandNode(u.nodes[0]);
      |u.nodes| == 1 && NodeCanonical(u.nodes[0]) &&
      (u.nodes[0].CommandNode? ==>
        u.nodes[0].command == CommandOf(text[pos]) && (u.next < |text| ==> text[u.next] != text[pos])) &&
      u.next - pos <= |e| && e == text[pos..u.next] + Replicate(']', |e| - (u.next - pos)) &&
      (|e| > u.next - pos ==> u.next == |text|)
    requires ReadsText(text, ParseUnitIntended(text, pos).next, ParseIntended(text, ParseUnitIntended(text, pos).next))
    ensures ReadsText(text, pos, ParseIntended(text, pos))
  {
    var u := ParseUnitIntended(text, pos);
    var rest := ParseIntended(text, u.next);
    assert ParseIntended(text, pos) == Parsed(u.nodes + rest.nodes, rest.pos, rest.closed);
    ConsReadsText(text, pos, u.nodes[0], u.next, rest);
  }

  /** A canonical node read at `pos`, followed by what was read from where it ended. */
  lemma ConsReadsText(text: string, pos: nat, n: Node, next: nat, rest: Parsed)
    requires pos < next <= rest.pos <= |text|
    requires NodeCanonical(n)
    requires n.CommandNode? ==> n.command == CommandOf(text[pos]) && (next < |text| ==> text[next] != text[pos])
    requires var e := ExpandNode(n);
      next - pos <= |e| && e == text[pos..next] + Replicate(']', |e| - (next - pos)) &&
      (|e| > next - pos ==> next == |text|)
    requires next == |text| ==> rest == Parsed([], |text|, false)
    requires !rest.closed ==> rest.pos == |text|
    requires ReadsText(text, next, rest)
    ensures ReadsText(text, pos, Parsed([n] + rest.nodes, rest.pos, rest.closed))
  {
    if n.CommandNode? && rest.nodes != [] && rest.nodes[0].CommandNode? {
      DistinctCommands(text[pos], text[next]);
    }
    CanonicalCons(n, rest.nodes);
    ConsText(text, pos, n, next, rest);
  }

  /**
   * Text to tree to text: the corrected parser reads balanced text of
   * command characters and brackets to its end as a canonical tree, and the
   * tree's text is the source text.
   */
  lemma TextRoundTrip(w: string)
    requires OverAlphabet(w, 0) && Balanced(w)
    ensures var r := ParseIntended(w, 0);
      !r.closed && r.pos == |w| && Canonical(r.nodes) && Expand(r.nodes) == w
  {
    BalancedTextExpands(w);
    BalancedRunsToEnd(w);
    ParseReadsText(w, 0);
  }

  /** The tree the corrected parser reads from balanced text has that text as its own. */
  lemma BalancedTextExpands(w: string)
    requires OverAlphabet(w, 0) && Balanced(w)
    ensures Expand(ParseIntended(w, 0).nodes) == w
  {
    var r := ParseIntended(w, 0);
    ParseReadsText(w, 0);
    BalancedRunsToEnd(w);
    ExpandDepth(r.nodes);
    NothingLeftOpen(w, Expand(r.nodes));
  }

  /** On balanced text the corrected parser never returns on a `]` at the top level. */
  lemma BalancedRunsToEnd(w: string)
    requires OverAlphabet(w, 0) && Balanced(w)
    ensures !ParseIntended(w, 0).closed
  {
    var r := ParseIntended(w, 0);
    if r.closed {
      ParseReadsText(w, 0);
      var x := Expand(r.nodes);
      ExpandDepth(r.nodes);
      DepthAppend(x, [']']);
    }
  }

  /** Text that closes all its loops needs no closing brackets added to be a tree's text. */
  lemma NothingLeftOpen(w: string, x: string)
    requires |w| <= |x| && x == w[0..] + Replicate(']', |x| - |w|) && Depth(x) == 0 && Depth(w) == 0
    ensures x == w
  {
    var k := |x| - |w|;
    assert w[0..] == w;
    DepthAppend(w, Replicate(']', k));
    DepthCloses(k);
    assert Replicate(']', 0) == [];
  }

  /**
   * The parser as written passes the same round trip on text without
   * brackets, where it agrees with the corrected parser.
   */
  lemma AsWrittenTextRoundTrip(w: string)
    requires OverAlphabet(w, 0) && '[' !in w && ']' !in w
    ensures var r := ParseFrom(w, 0);
      !r.closed && r.pos == |w| && Canonical(r.nodes) && Expand(r.nodes) == w
  {
    assert forall i :: 0 <= i < |w| ==> w[i] in w;
    DepthWithoutBrackets(w);
    forall i | 0 <= i <= |w| ensures Depth(w[..i]) >= 0 {
      DepthWithoutBrackets(w[..i]);
    }
    AgreeWithoutLoops(w, 0);
    TextRoundTrip(w);
  }

  /** A canonical tree has valid tags and positive counts at every depth. */
  lemma {:induction false} CanonicalIsValid(ns: seq<Node>)
    requires Canonical(ns)
    ensures NoInvalid(ns) && CountsPositive(ns)
    decreases NodesSize(ns), 1
  {
    if ns != [] {
      NodeCanonicalIsValid(ns[0]);
      CanonicalIsValid(ns[1..]);
    }
  }

  lemma {:induction false} NodeCanonicalIsValid(n: Node)
    requires NodeCanonical(n)
    ensures NodeValid(n) && CountPositive(n)
    decreases NodeSize(n), 0
  {
    match n
    case CommandNode(_, _) =>
    case Loop(children) => CanonicalIsValid(children);
  }
}
