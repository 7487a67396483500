/**
 * The `Printer` visitor of src/brainfuck.cpp: each command leaf prints as
 * its count in decimal followed by a one-character marker (`Z` for the
 * zeroing command), a loop prints its children between brackets, and the
 * program prints its children followed by a newline.  The printer writes to
 * standard output; here it returns the text it would write.
 *
 * `ReadPrinted` is a reader for that notation, written only to state what
 * the printer preserves: reading back the printed text of a tree whose
 * leaves have valid tags and non-negative counts gives the tree back.
 */
module Printing {
  import opened Ast
  import opened Parsing
  import opened IntendedParsing

  /** The character printed after a leaf's count. */
  function Marker(cmd: Command): char
    requires cmd != Invalid
  {
    match cmd
    case Increment => '+'
    case Decrement => '-'
    case ShiftLeft => '<'
    case ShiftRight => '>'
    case Input => ','
    case Output => '.'
    case Zero => 'Z'
  }

  predicate IsDigit(c: char) {
    '0' <= c <= '9'
  }

  function DigitChar(d: nat): (c: char)
    requires d < 10
    ensures IsDigit(c)
  {
    ('0' as int + d) as char
  }

  /** The decimal digits of a natural number, most significant first. */
  function Natural(n: nat): (s: string)
    ensures |s| >= 1
  {
    if n < 10 then [DigitChar(n)] else Natural(n / 10) + [DigitChar(n % 10)]
  }

  /** How `operator<<` writes an `int`: a minus sign for negatives. */
  function Decimal(n: int): string
  {
    if n < 0 then ['-'] + Natural(-n) else Natural(n)
  }

  /**
   * `Decimal` writes a minus sign exactly for negatives, then decimal digits
   * whose value is the magnitude.
   */
  lemma DecimalDigits(n: int)
    ensures var s := Decimal(n);
      |s| >= 1 && (s[0] == '-' <==> n < 0) &&
      (forall i :: 0 <= i < |s| ==> IsDigit(s[i]) || (i == 0 && s[i] == '-')) &&
      Value(if n < 0 then s[1..] else s) == if n < 0 then -n else n
  {
    var m: nat := if n < 0 then -n else n;
    NaturalDigits(m);
    ValueNatural(m);
    assert (['-'] + Natural(m))[1..] == Natural(m);
  }

  /**
   * `Printer::visit(const CommandNode *)` and `Printer::visit(const Loop *)`.
   * A leaf whose tag was never set matches no `case` and prints nothing;
   * a loop prints inside brackets.
   */
  function PrintNode(n: Node): (s: string)
    ensures n.CommandNode? ==> (s == [] <==> n.command == Invalid)
    ensures n.Loop? ==> |s| >= 2 && s[0] == '[' && s[|s| - 1] == ']'
    decreases NodeSize(n)
  {
    match n
    case CommandNode(command, count) =>
      if command == Invalid then [] else Decimal(count) + [Marker(command)]
    case Loop(children) => ['['] + PrintNodes(children) + [']']
  }

  /** The children of a container, printed in order. */
  function PrintNodes(ns: seq<Node>): string
    decreases NodesSize(ns)
  {
    if ns == [] then [] else PrintNode(ns[0]) + PrintNodes(ns[1..])
  }

  /** `Printer::visit(const Program *)`: the children, then a newline. */
  function PrintProgram(program: Program): (s: string)
    ensures |s| >= 1 && s[|s| - 1] == '\n'
  {
    PrintNodes(program.children) + ['\n']
  }

  /** Text without a newline. */
  predicate OneLine(s: string)
  {
    forall i :: 0 <= i < |s| ==> s[i] != '\n'
  }

  /** Printed children lie on one line, with their brackets matched. */
  lemma {:induction false} PrintedBalanced(ns: seq<Node>)
    ensures Depth(PrintNodes(ns)) == 0 && OneLine(PrintNodes(ns))
    decreases NodesSize(ns), 1
  {
    if ns != [] {
      PrintedNodeBalanced(ns[0]);
      PrintedBalanced(ns[1..]);
      DepthAppend(PrintNode(ns[0]), PrintNodes(ns[1..]));
    }
  }

  /** A printed node lies on one line, with its brackets matched. */
  lemma {:induction false} PrintedNodeBalanced(n: Node)
    ensures Depth(PrintNode(n)) == 0 && OneLine(PrintNode(n))
    decreases NodeSize(n), 0
  {
    match n
    case CommandNode(command, count) =>
      if command != Invalid {
        var digits := Decimal(count);
        assert PrintNode(n) == digits + [Marker(command)];
        DecimalDigits(count);
        MarkerOf(command);
        DepthWithoutBrackets(PrintNode(n));
      }
    case Loop(children) =>
      var inner := PrintNodes(children);
      PrintedBalanced(children);
      DepthAppend(['['], inner);
      DepthAppend(['['] + inner, [']']);
  }

  /** The printed program is one line with its brackets matched, ended by its only newline. */
  lemma PrintedProgramLine(program: Program)
    ensures var s := PrintProgram(program);
      OneLine(s[..|s| - 1]) && Depth(s) == 0
  {
    var body := PrintNodes(program.children);
    PrintedBalanced(program.children);
    DepthAppend(body, ['\n']);
    assert PrintProgram(program)[..|body|] == body;
  }

  // ---------------------------------------------------------------------
  // Reading the printed notation back

  /** The value of a string of digits. */
  function Value(s: string): nat
  {
    if s == [] then 0
    else
      var last := s[|s| - 1];
      Value(s[..|s| - 1]) * 10 + (if IsDigit(last) then last as int - '0' as int else 0)
  }

  /** The number of digits starting at `pos`. */
  function DigitRun(s: string, pos: nat): (k: nat)
    requires pos <= |s|
    ensures pos + k <= |s|
    ensures pos + k == |s| || !IsDigit(s[pos + k])
    decreases |s| - pos
  {
    if pos < |s| && IsDigit(s[pos]) then 1 + DigitRun(s, pos + 1) else 0
  }

  /** The command a marker character stands for. */
  function CommandOfMarker(m: char): Command
  {
    match m
    case '+' => Increment
    case '-' => Decrement
    case '<' => ShiftLeft
    case '>' => ShiftRight
    case ',' => Input
    case '.' => Output
    case 'Z' => Zero
    case _ => Invalid
  }

  /**
   * Reads printed nodes from `pos` up to an unmatched `]` (consumed) or the
   * end of the text.
   */
  function ReadPrinted(s: string, pos: nat): (r: Parsed)
    requires pos <= |s|
    ensures pos <= r.pos <= |s|
    ensures !r.closed ==> r.pos == |s|
    decreases |s| - pos, 1
  {
    if pos == |s| then Parsed([], |s|, false)
    else if s[pos] == ']' then Parsed([], pos + 1, true)
    else
      var unit := ReadUnit(s, pos);
      var rest := ReadPrinted(s, unit.next);
      Parsed(unit.nodes + rest.nodes, rest.pos, rest.closed)
  }

  /** One printed node: a bracketed loop, or a count and its marker. */
  function ReadUnit(s: string, pos: nat): (u: Unit)
    requires pos < |s| && s[pos] != ']'
    ensures pos < u.next <= |s|
    decreases |s| - pos, 0
  {
    if s[pos] == '[' then
      var inner := ReadPrinted(s, pos + 1);
      Unit([Loop(inner.nodes)], inner.pos)
    else
      var k := DigitRun(s, pos);
      if pos + k == |s| then Unit([], |s|)
      else Unit([CommandNode(CommandOfMarker(s[pos + k]), Value(s[pos..pos + k]))], pos + k + 1)
  }

  // ---------------------------------------------------------------------
  // The printed notation reads back

  /** A natural number prints as digits only. */
  lemma {:induction false} NaturalDigits(n: nat)
    ensures forall i :: 0 <= i < |Natural(n)| ==> IsDigit(Natural(n)[i])
  {
    if n >= 10 {
      NaturalDigits(n / 10);
    }
  }

  /** The digits of `n` have the value `n`. */
  lemma {:induction false} ValueNatural(n: nat)
    ensures Value(Natural(n)) == n
  {
    if n >= 10 {
      var s := Natural(n);
      assert s[..|s| - 1] == Natural(n / 10);
      ValueNatural(n / 10);
    }
  }

  /** A maximal block of `k` digits at `pos` is what `DigitRun` measures. */
  lemma {:induction false} DigitRunOf(s: string, pos: nat, k: nat)
    requires pos + k <= |s|
    requires forall i :: pos <= i < pos + k ==> IsDigit(s[i])
    requires pos + k == |s| || !IsDigit(s[pos + k])
    ensures DigitRun(s, pos) == k
    decreases k
  {
    if k > 0 {
      DigitRunOf(s, pos + 1, k - 1);
    }
  }

  /** Markers are neither digits nor brackets, and name their command. */
  lemma MarkerOf(cmd: Command)
    requires cmd != Invalid
    ensures !IsDigit(Marker(cmd)) && Marker(cmd) != '[' && Marker(cmd) != ']'
    ensures CommandOfMarker(Marker(cmd)) == cmd
  {
  }

  /** A turn that reads one node at `pos` prepends it to the rest of the reading. */
  lemma ReadStep(s: string, pos: nat, node: Node, next: nat)
    requires pos < |s| && s[pos] != ']'
    requires ReadUnit(s, pos) == Unit([node], next)
    ensures var rest := ReadPrinted(s, next);
      ReadPrinted(s, pos) == Parsed([node] + rest.nodes, rest.pos, rest.closed)
  {
  }

  /**
   * Reading, at `pos`, the printed form of a tree with valid tags and
   * positive counts that is followed by `]` or by the end of the text gives
   * back exactly that tree, and stops after the `]` or at the end.
   */
  lemma {:induction false} ReadPrint(ns: seq<Node>, s: string, pos: nat)
    requires NoInvalid(ns) && CountsPositive(ns) && PrintedAt(s, pos, ns)
    ensures ReadsBack(s, pos, ns, pos + |PrintNodes(ns)|)
    decreases NodesSize(ns), 1
  {
    if ns == [] {
      ReadPrintEnd(s, pos, ns);
    } else {
      var mid := pos + |PrintNode(ns[0])|;
      PrintCons(ns, s, pos);
      ReadNode(ns[0], s, pos);
      ReadPrint(ns[1..], s, mid);
      ReadConsStep(s, pos, ns, mid, pos + |PrintNodes(ns)|);
    }
  }

  /** The printed form of `ns` lies at `pos` in `s`, followed by `]` or by the end of the text. */
  predicate PrintedAt(s: string, pos: nat, ns: seq<Node>)
  {
    var t := PrintNodes(ns);
    pos + |t| <= |s| && s[pos..pos + |t|] == t && (pos + |t| == |s| || s[pos + |t|] == ']')
  }

  /** The printed form of `n` lies at `pos` in `s`. */
  predicate NodePrintedAt(s: string, pos: nat, n: Node)
  {
    var t := PrintNode(n);
    pos + |t| <= |s| && s[pos..pos + |t|] == t
  }

  /**
   * Reading at `pos` gives back `ns`, and stops just after a `]` at `end`
   * or, when `end` is the end of the text, there.
   */
  predicate ReadsBack(s: string, pos: nat, ns: seq<Node>, end: nat)
    requires pos <= |s|
  {
    var r := ReadPrinted(s, pos);
    r.nodes == ns && r.closed == (end < |s|) && (r.closed ==> r.pos == end + 1)
  }

  /** At the end of the text or at a `]`, the reader reads no nodes. */
  lemma ReadPrintEnd(s: string, pos: nat, ns: seq<Node>)
    requires ns == [] && PrintedAt(s, pos, ns)
    ensures ReadsBack(s, pos, ns, pos + |PrintNodes(ns)|)
  {
    assert PrintNodes(ns) == [];
  }

  /** The last step of `ReadPrint`: the first node's turn, then the reading of the rest. */
  lemma ReadConsStep(s: string, pos: nat, ns: seq<Node>, mid: nat, end: nat)
    requires ns != [] && pos < mid <= end <= |s| && s[pos] != ']'
    requires ReadUnit(s, pos) == Unit([ns[0]], mid)
    requires ReadsBack(s, mid, ns[1..], end)
    ensures ReadsBack(s, pos, ns, end)
  {
    ReadStep(s, pos, ns[0], mid);
    assert [ns[0]] + ns[1..] == ns;
  }

  /** How the printed form of a non-empty tree divides at its first node. */
  lemma {:induction false} PrintCons(ns: seq<Node>, s: string, pos: nat)
    requires NoInvalid(ns) && CountsPositive(ns) && ns != [] && PrintedAt(s, pos, ns)
    ensures NodeSize(ns[0]) < NodesSize(ns) && NodesSize(ns[1..]) < NodesSize(ns)
    ensures NodeValid(ns[0]) && CountPositive(ns[0]) && NoInvalid(ns[1..]) && CountsPositive(ns[1..])
    ensures var mid := pos + |PrintNode(ns[0])|;
      mid + |PrintNodes(ns[1..])| == pos + |PrintNodes(ns)| &&
      NodePrintedAt(s, pos, ns[0]) && PrintedAt(s, mid, ns[1..])
  {
    ValidCons(ns);
    var head, tail := PrintNode(ns[0]), PrintNodes(ns[1..]);
    assert PrintNodes(ns) == head + tail;
    SliceSplit(s, pos, head, tail);
  }

  /** The first node and the rest of a tree with valid tags and positive counts have them too. */
  lemma ValidCons(ns: seq<Node>)
    requires NoInvalid(ns) && CountsPositive(ns) && ns != []
    ensures NodeValid(ns[0]) && CountPositive(ns[0]) && NoInvalid(ns[1..]) && CountsPositive(ns[1..])
  {
  }

  /** One printed node, followed by anything, is read by one turn as that node. */
  lemma {:induction false} ReadNode(n: Node, s: string, pos: nat)
    requires NodeValid(n) && CountPositive(n) && NodePrintedAt(s, pos, n)
    ensures |PrintNode(n)| >= 1 && pos < |s| && s[pos] != ']'
    ensures ReadUnit(s, pos) == Unit([n], pos + |PrintNode(n)|)
    decreases NodeSize(n), 0
  {
    match n
    case CommandNode(cmd, count) =>
      ReadLeaf(cmd, count, s, pos);
    case Loop(body) =>
      PrintLoopSlices(body, s, pos);
      ReadPrint(body, s, pos + 1);
      ReadLoopStep(s, pos, body, |PrintNodes(body)|);
  }

  /** A printed loop: `[`, then its body's printed form, then `]`. */
  lemma PrintLoopSlices(body: seq<Node>, s: string, pos: nat)
    requires NodePrintedAt(s, pos, Loop(body))
    ensures PrintedAt(s, pos + 1, body)
    ensures var e := |PrintNodes(body)|;
      |PrintNode(Loop(body))| == e + 2 && pos + 2 + e <= |s| &&
      s[pos] == '[' && s[pos + 1..pos + 1 + e] == PrintNodes(body) && s[pos + 1 + e] == ']'
  {
    var inner := PrintNodes(body);
    assert PrintNode(Loop(body)) == ['['] + inner + [']'];
    BracketSlices(s, pos, inner);
  }

  /** The last step of `ReadNode` for a loop: `[`, the body's reading, and past its `]`. */
  lemma ReadLoopStep(s: string, pos: nat, body: seq<Node>, e: nat)
    requires pos + 2 + e <= |s| && s[pos] == '['
    requires ReadPrinted(s, pos + 1).nodes == body
    requires ReadPrinted(s, pos + 1).pos == pos + 2 + e
    ensures ReadUnit(s, pos) == Unit([Loop(body)], pos + 2 + e)
  {
  }

  /** A printed leaf: its count's digits, then its marker. */
  lemma ReadLeaf(cmd: Command, count: int, s: string, pos: nat)
    requires cmd != Invalid && count >= 1
    requires var printed := PrintNode(CommandNode(cmd, count));
      pos + |printed| <= |s| && s[pos..pos + |printed|] == printed
    ensures pos < |s| && IsDigit(s[pos])
    ensures ReadUnit(s, pos) == Unit([CommandNode(cmd, count)], pos + |PrintNode(CommandNode(cmd, count))|)
  {
    var digits := Natural(count);
    var k := |digits|;
    LeafDigits(cmd, count, s, pos);
    NaturalDigits(count);
    assert IsDigit(s[pos]) by {
      assert s[pos] == s[pos..pos + k][0] == digits[0];
    }
    assert Value(s[pos..pos + k]) == count by {
      ValueNatural(count);
    }
    MarkerOf(cmd);
    ReadDigitsUnit(s, pos, k);
  }

  /** A turn that starts on a digit reads the digit run and the marker after it. */
  lemma ReadDigitsUnit(s: string, pos: nat, k: nat)
    requires pos + k < |s| && IsDigit(s[pos]) && DigitRun(s, pos) == k
    ensures s[pos] != ']'
    ensures ReadUnit(s, pos) == Unit([CommandNode(CommandOfMarker(s[pos + k]), Value(s[pos..pos + k]))], pos + k + 1)
  {
  }

  /** The digit run of a printed leaf is exactly its count's digits. */
  lemma LeafDigits(cmd: Command, count: int, s: string, pos: nat)
    requires cmd != Invalid && count >= 1
    requires var printed := PrintNode(CommandNode(cmd, count));
      pos + |printed| <= |s| && s[pos..pos + |printed|] == printed
    ensures var k := |Natural(count)|;
      |PrintNode(CommandNode(cmd, count))| == k + 1 && pos + k < |s| &&
      s[pos..pos + k] == Natural(count) && s[pos + k] == Marker(cmd) &&
      DigitRun(s, pos) == k
  {
    var digits := Natural(count);
    var k := |digits|;
    var tag := [Marker(cmd)];
    assert PrintNode(CommandNode(cmd, count)) == digits + tag;
    SliceSplit(s, pos, digits, tag);
    NaturalDigits(count);
    MarkerOf(cmd);
    forall i | pos <= i < pos + k ensures IsDigit(s[i]) {
      assert s[pos..pos + k][i - pos] == digits[i - pos];
    }
    assert s[pos + k] == Marker(cmd) by {
      assert s[pos + k..pos + k + 1][0] == tag[0];
    }
    DigitRunOf(s, pos, k);
  }

  /**
   * Round trip: the program's printed text, without its final newline,
   * reads back as the program's children.
   */
  lemma PrintRoundTrip(program: Program)
    requires NoInvalid(program.children) && CountsPositive(program.children)
    ensures var printed := PrintProgram(program);
      printed[|printed| - 1] == '\n' &&
      ReadPrinted(printed[..|printed| - 1], 0) == Parsed(program.children, |printed| - 1, false)
  {
    var s := PrintNodes(program.children);
    assert PrintProgram(program)[..|PrintProgram(program)| - 1] == s;
    assert s[0..|s|] == s;
    ReadPrint(program.children, s, 0);
  }

  // ---------------------------------------------------------------------
  // Source text, tree, printed text, tree, source text

  /**
   * Printing what the corrected parser reads from balanced text of command
   * characters and brackets, and reading the printed text back, gives a
   * tree whose runs, written out, are the source text.
   */
  lemma PrintParsedText(w: string)
    requires OverAlphabet(w, 0) && Balanced(w)
    ensures var ns := ParseIntended(w, 0).nodes;
      var printed := PrintProgram(Program(ns));
      ReadPrinted(printed[..|printed| - 1], 0).nodes == ns && Expand(ns) == w
  {
    var ns := ParseIntended(w, 0).nodes;
    TextRoundTrip(w);
    CanonicalIsValid(ns);
    PrintRoundTrip(Program(ns));
  }

  /**
   * The same for the parser as written, on text of command characters
   * without brackets.
   */
  lemma PrintParsedTextAsWritten(w: string)
    requires OverAlphabet(w, 0) && '[' !in w && ']' !in w
    ensures var ns := ParseFrom(w, 0).nodes;
      var printed := PrintProgram(Program(ns));
      ReadPrinted(printed[..|printed| - 1], 0).nodes == ns && Expand(ns) == w
  {
    var ns := ParseFrom(w, 0).nodes;
    AsWrittenTextRoundTrip(w);
    CanonicalIsValid(ns);
    PrintRoundTrip(Program(ns));
  }
}
