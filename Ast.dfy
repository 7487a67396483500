/**
 * The abstract syntax tree of src/brainfuck.cpp: command leaves carrying a
 * run-length count, loops, and the program root.  The C++ `Visitor`/`accept`
 * double dispatch becomes pattern matching over these datatypes.
 */
module Ast {

  /**
   * The seven primitive commands of the source's `Command` enum, plus
   * `Invalid` for a node whose tag the constructor's switch never assigned.
   */
  datatype Command =
    | Increment    // +
    | Decrement    // -
    | ShiftLeft    // <
    | ShiftRight   // >
    | Input        // ,
    | Output       // .
    | Zero         // 0
    | Invalid

  /** A command leaf (a run of `count` identical commands) or a loop. */
  datatype Node =
    | CommandNode(command: Command, count: int)
    | Loop(children: seq<Node>)

  /** The root of a parsed file. */
  datatype Program = Program(children: seq<Node>)

  /** The source characters the `CommandNode` constructor recognises. */
  const CommandChars: string := "+-<>,.0"

  /** The source character that the constructor maps to a valid command. */
  function SourceChar(cmd: Command): char
    requires cmd != Invalid
  {
    match cmd
    case Increment => '+'
    case Decrement => '-'
    case ShiftLeft => '<'
    case ShiftRight => '>'
    case Input => ','
    case Output => '.'
    case Zero => '0'
  }

  /**
   * The `switch` of the `CommandNode` constructor: it assigns a tag exactly
   * for the seven command characters, and that tag is written with the same
   * character; any other character leaves the tag unset.
   */
  function CommandOf(c: char): (cmd: Command)
    ensures cmd != Invalid ==> SourceChar(cmd) == c
  {
    match c
    case '+' => Increment
    case '-' => Decrement
    case '<' => ShiftLeft
    case '>' => ShiftRight
    case ',' => Input
    case '.' => Output
    case '0' => Zero
    case _ => Invalid
  }

  /** The constructor sets a tag exactly for the seven command characters. */
  lemma CommandOfChars(c: char)
    ensures CommandOf(c) != Invalid <==> c in CommandChars
  {
  }

  /** Each valid tag comes from exactly one of the seven characters. */
  lemma CommandOfSourceChar(cmd: Command)
    requires cmd != Invalid
    ensures SourceChar(cmd) in CommandChars
    ensures CommandOf(SourceChar(cmd)) == cmd
  {
  }

  /** `n` copies of `x`. */
  function Replicate<T>(x: T, n: nat): (s: seq<T>)
    ensures |s| == n && forall i :: 0 <= i < n ==> s[i] == x
  {
    if n == 0 then [] else [x] + Replicate(x, n - 1)
  }

  /** A slice that spells `a + b` spells `a` and then `b`. */
  lemma {:induction false} SliceSplit<T>(text: seq<T>, pos: nat, a: seq<T>, b: seq<T>)
    requires pos + |a| + |b| <= |text| && text[pos..pos + |a| + |b|] == a + b
    ensures text[pos..pos + |a|] == a
    ensures text[pos + |a|..pos + |a| + |b|] == b
  {
    forall i | 0 <= i < |a| ensures text[pos + i] == a[i] {
      assert text[pos..pos + |a| + |b|][i] == (a + b)[i];
    }
    forall i | 0 <= i < |b| ensures text[pos + |a| + i] == b[i] {
      assert text[pos..pos + |a| + |b|][|a| + i] == (a + b)[|a| + i];
    }
  }

  /** Text in brackets at `pos`: the `[`, the text inside, and the `]`. */
  lemma BracketSlices(s: string, pos: nat, inner: string)
    requires pos + |inner| + 2 <= |s| && s[pos..pos + |inner| + 2] == ['['] + inner + [']']
    ensures s[pos] == '[' && s[pos + 1..pos + 1 + |inner|] == inner && s[pos + 1 + |inner|] == ']'
  {
    var e := |inner|;
    var open, close := ['['], [']'];
    var front := open + inner;
    assert |front| == 1 + e;
    assert open + inner + close == front + close;
    SliceSplit(s, pos, front, close);
    SliceSplit(s, pos, open, inner);
    assert s[pos] == '[' by {
      assert s[pos..pos + 1][0] == open[0];
    }
    assert s[pos + 1 + e] == ']' by {
      assert s[pos + 1 + e..pos + 2 + e][0] == close[0];
    }
  }

  /** Size measures used to prove termination of traversals. */
  function NodeSize(n: Node): (size: nat)
    ensures size >= 1
  {
    match n
    case CommandNode(_, _) => 1
    case Loop(children) => NodesSize(children) + 1
  }

  function NodesSize(ns: seq<Node>): (size: nat)
    ensures size >= 1
  {
    if ns == [] then 1 else NodeSize(ns[0]) + NodesSize(ns[1..])
  }

  /** Every command leaf, at any depth, has a positive count. */
  predicate CountsPositive(ns: seq<Node>)
    decreases NodesSize(ns)
  {
    ns == [] || (CountPositive(ns[0]) && CountsPositive(ns[1..]))
  }

  predicate CountPositive(n: Node)
    decreases NodeSize(n)
  {
    match n
    case CommandNode(_, count) => count >= 1
    case Loop(children) => CountsPositive(children)
  }

  lemma {:induction false} CountsPositiveAppend(a: seq<Node>, b: seq<Node>)
    requires CountsPositive(a) && CountsPositive(b)
    ensures CountsPositive(a + b)
    decreases |a|
  {
    if a != [] {
      assert (a + b)[0] == a[0] && (a + b)[1..] == a[1..] + b;
      CountsPositiveAppend(a[1..], b);
    } else {
      assert a + b == b;
    }
  }

  /** No command leaf, at any depth, carries the `Invalid` tag. */
  predicate NoInvalid(ns: seq<Node>)
    decreases NodesSize(ns)
  {
    ns == [] || (NodeValid(ns[0]) && NoInvalid(ns[1..]))
  }

  predicate NodeValid(n: Node)
    decreases NodeSize(n)
  {
    match n
    case CommandNode(command, _) => command != Invalid
    case Loop(children) => NoInvalid(children)
  }
}
