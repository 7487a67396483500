/**
 * Whole runs of src/brainfuck.cpp on small sources: the tree the parser as
 * written builds, and what the interpreter then writes.  Texts are given by
 * their characters.
 */
module Scenarios {
  import opened Ast
  import opened Parsing
  import opened Semantics

  /** Running the children `ns`, a first node and then the rest. */
  lemma ExecCons(test: LoopTest, ns: seq<Node>, st: State, fuel: nat)
    requires Valid(st) && ns != []
    ensures var first := ExecNode(test, ns[0], st, fuel);
      ExecNodes(test, ns, st, fuel) ==
        if first.Fail? then first else ExecNodes(test, ns[1..], first.state, fuel)
  {
  }

  /** Running the children `ns` when the first node ends normally in `next`. */
  lemma ExecThen(test: LoopTest, ns: seq<Node>, st: State, fuel: nat, next: State)
    requires Valid(st) && ns != [] && ExecNode(test, ns[0], st, fuel) == Ok(next)
    ensures ExecNodes(test, ns, st, fuel) == ExecNodes(test, ns[1..], next, fuel)
  {
  }

  /** `+++.` parses as a run of three increments and one output. */
  lemma ParseThreePlus(t: string)
    requires |t| == 4 && t[0] == '+' && t[1] == '+' && t[2] == '+' && t[3] == '.'
    ensures ParseFrom(t, 0) == Parsed([CommandNode(Increment, 3), CommandNode(Output, 1)], 4, false)
  {
    ParseRun(t, 0, 3);
    ParseRun(t, 3, 1);
    assert ParseFrom(t, 4) == Parsed([], 4, false);
  }

  /** Three increments and an output write one byte of value 3, then the newline. */
  lemma RunThreePlus(ns: seq<Node>, st: State, fuel: nat)
    requires ns == [CommandNode(Increment, 3), CommandNode(Output, 1)]
    ensures var o := RunProgram(SignedPositive, Program(ns), st, fuel);
      o.Ok? && o.state.output == st.output + [3, NewLine]
  {
    var s0 := Reset(st);
    var s1 := s0.(tape := s0.tape[0 := 3]);
    ExecCons(SignedPositive, ns, s0, fuel);
    ExecCons(SignedPositive, ns[1..], s1, fuel);
    assert ExecNodes(SignedPositive, ns, s0, fuel) == Ok(s1.(output := st.output + [3]));
  }

  /** Source to output: `+++.` writes the byte 3 and then the newline. */
  lemma ThreePlusWritesThree(t: string, st: State, fuel: nat)
    requires |t| == 4 && t[0] == '+' && t[1] == '+' && t[2] == '+' && t[3] == '.'
    ensures var o := RunProgram(SignedPositive, Program(ParseFrom(t, 0).nodes), st, fuel);
      o.Ok? && o.state.output == st.output + [3, NewLine]
  {
    ParseThreePlus(t);
    RunThreePlus(ParseFrom(t, 0).nodes, st, fuel);
  }

  // ---------------------------------------------------------------------
  // `++[>++<-]>.`

  /** The body `>++<-` of the doubling loop. */
  function DoubleBody(): seq<Node>
  {
    [CommandNode(ShiftRight, 1), CommandNode(Increment, 2), CommandNode(ShiftLeft, 1), CommandNode(Decrement, 1)]
  }

  /**
   * `++[>++<-]>.` as the parser as written builds it: the loop is followed
   * by an untagged node for the `[`.
   */
  lemma ParseDoubling(t: string)
    requires |t| == 11 && t[0] == '+' && t[1] == '+' && t[2] == '[' && t[3] == '>' && t[4] == '+'
    requires t[5] == '+' && t[6] == '<' && t[7] == '-' && t[8] == ']' && t[9] == '>' && t[10] == '.'
    ensures ParseFrom(t, 0).nodes ==
      [CommandNode(Increment, 2), Loop(DoubleBody()), CommandNode(Invalid, 1),
       CommandNode(ShiftRight, 1), CommandNode(Output, 1)]
  {
    ParseDoublingLoop(t);
    ParseRun(t, 0, 2);
  }

  /** From the `[` on: the loop, the untagged node, then `>` and `.`. */
  lemma ParseDoublingLoop(t: string)
    requires |t| == 11 && t[2] == '[' && t[3] == '>' && t[4] == '+'
    requires t[5] == '+' && t[6] == '<' && t[7] == '-' && t[8] == ']' && t[9] == '>' && t[10] == '.'
    ensures ParseFrom(t, 2) ==
      Parsed([Loop(DoubleBody()), CommandNode(Invalid, 1), CommandNode(ShiftRight, 1), CommandNode(Output, 1)], 11, false)
  {
    assert ParseUnit(t, 2) == Unit([Loop(DoubleBody())] + [CommandNode(Invalid, 1)], 9) by {
      ParseDoublingBody(t);
      assert RunLength(t, 9, '[') == 0;
    }
    assert SkipSpace(t, 2) == 2;
    ParseDoublingTail(t);
    ParseFromTurn(t, 2);
  }

  /** Inside the loop: `>++<-]` parses as the body and closes the call after the `]`. */
  lemma ParseDoublingBody(t: string)
    requires |t| >= 9 && t[3] == '>' && t[4] == '+' && t[5] == '+' && t[6] == '<' && t[7] == '-' && t[8] == ']'
    ensures ParseFrom(t, 3) == Parsed(DoubleBody(), 9, true)
  {
    var b := DoubleBody();
    ParseDoublingBodyMiddle(t);
    ParseRun(t, 3, 1);
    assert b == [b[0]] + b[1..];
  }

  /** `++<-]`: the last three leaves of the body, then the close. */
  lemma ParseDoublingBodyMiddle(t: string)
    requires |t| >= 9 && t[4] == '+' && t[5] == '+' && t[6] == '<' && t[7] == '-' && t[8] == ']'
    ensures ParseFrom(t, 4) == Parsed(DoubleBody()[1..], 9, true)
  {
    var b := DoubleBody();
    ParseDoublingBodyEnd(t);
    ParseRun(t, 4, 2);
    assert b[1..] == [b[1]] + b[2..];
  }

  /** `<-]`: the last two leaves of the body, then the close. */
  lemma ParseDoublingBodyEnd(t: string)
    requires |t| >= 9 && t[6] == '<' && t[7] == '-' && t[8] == ']'
    ensures ParseFrom(t, 6) == Parsed(DoubleBody()[2..], 9, true)
  {
    var b := DoubleBody();
    assert ParseFrom(t, 8) == Parsed([], 9, true) by {
      ParseStopsAtClose(t, 8);
    }
    assert ParseFrom(t, 7) == Parsed(b[3..], 9, true) by {
      ParseRun(t, 7, 1);
    }
    ParseRun(t, 6, 1);
    assert b[2..] == [b[2]] + b[3..];
  }

  /** After the loop, `>.` parses as one shift and one output, up to the end of the text. */
  lemma ParseDoublingTail(t: string)
    requires |t| == 11 && t[9] == '>' && t[10] == '.'
    ensures ParseFrom(t, 9) == Parsed([CommandNode(ShiftRight, 1), CommandNode(Output, 1)], 11, false)
  {
    ParseRun(t, 9, 1);
    ParseRun(t, 10, 1);
    assert ParseFrom(t, 11) == Parsed([], 11, false);
  }

  /** Two nodes that both end normally. */
  lemma ExecPair(test: LoopTest, m: Node, n: Node, st: State, fuel: nat, mid: State, after: State)
    requires Valid(st) && ExecNode(test, m, st, fuel) == Ok(mid) && ExecNode(test, n, mid, fuel) == Ok(after)
    ensures ExecNodes(test, [m, n], st, fuel) == Ok(after)
  {
    var ns := [m, n];
    assert ExecNodes(test, ns, st, fuel) == ExecNodes(test, ns[1..], mid, fuel);
    assert ns[1..] == [n];
    var last := [n];
    assert ExecNodes(test, last, mid, fuel) == ExecNodes(test, last[1..], after, fuel);
    assert last[1..] == [];
  }

  /** `>++` moves to the right neighbour and adds 2 to it. */
  lemma DoubleBodyRight(test: LoopTest, st: State, fuel: nat)
    requires Valid(st) && st.ptr + 1 < TapeSize
    ensures var s1 := st.(ptr := st.ptr + 1);
      ExecNodes(test, [CommandNode(ShiftRight, 1), CommandNode(Increment, 2)], st, fuel) ==
        Ok(s1.(tape := s1.tape[s1.ptr := Add(Current(s1), 2)]))
  {
    var s1 := st.(ptr := st.ptr + 1);
    var s2 := s1.(tape := s1.tape[s1.ptr := Add(Current(s1), 2)]);
    assert ExecNode(test, CommandNode(ShiftRight, 1), st, fuel) == Ok(s1);
    assert ExecNode(test, CommandNode(Increment, 2), s1, fuel) == Ok(s2);
    ExecPair(test, CommandNode(ShiftRight, 1), CommandNode(Increment, 2), st, fuel, s1, s2);
  }

  /** `<-` moves back to the left neighbour and takes 1 from it. */
  lemma DoubleBodyLeft(test: LoopTest, st: State, fuel: nat)
    requires Valid(st) && 0 < st.ptr
    ensures var s1 := st.(ptr := st.ptr - 1);
      ExecNodes(test, [CommandNode(ShiftLeft, 1), CommandNode(Decrement, 1)], st, fuel) ==
        Ok(s1.(tape := s1.tape[s1.ptr := Add(Current(s1), -1)]))
  {
    var s1 := st.(ptr := st.ptr - 1);
    var s2 := s1.(tape := s1.tape[s1.ptr := Add(Current(s1), -1)]);
    assert ExecNode(test, CommandNode(ShiftLeft, 1), st, fuel) == Ok(s1);
    assert ExecNode(test, CommandNode(Decrement, 1), s1, fuel) == Ok(s2);
    ExecPair(test, CommandNode(ShiftLeft, 1), CommandNode(Decrement, 1), st, fuel, s1, s2);
  }

  /** One pass of `>++<-` adds 2 to the right neighbour and takes 1 from the cell. */
  lemma DoubleBodyOnce(test: LoopTest, st: State, fuel: nat)
    requires Valid(st) && st.ptr + 1 < TapeSize
    ensures ExecNodes(test, DoubleBody(), st, fuel) ==
      Ok(st.(tape := st.tape[st.ptr + 1 := Add(st.tape[st.ptr + 1], 2)][st.ptr := Add(Current(st), -1)]))
  {
    var right := [CommandNode(ShiftRight, 1), CommandNode(Increment, 2)];
    var left := [CommandNode(ShiftLeft, 1), CommandNode(Decrement, 1)];
    var s2 := st.(ptr := st.ptr + 1, tape := st.tape[st.ptr + 1 := Add(st.tape[st.ptr + 1], 2)]);
    DoubleBodyRight(test, st, fuel);
    DoubleBodyLeft(test, s2, fuel);
    assert DoubleBody() == right + left;
    ExecNodesAppend(test, right, left, st, fuel);
  }

  /**
   * The loop `[>++<-]` empties a cell holding 0..127 into its right
   * neighbour, twice over.
   */
  lemma {:induction false} DoublingLoop(st: State, fuel: nat)
    requires Valid(st) && st.ptr + 1 < TapeSize && Current(st) < 128 && Current(st) as int <= fuel
    ensures ExecLoop(SignedPositive, DoubleBody(), st, fuel) ==
      Ok(st.(tape := st.tape[st.ptr + 1 := Add(st.tape[st.ptr + 1], 2 * Current(st) as int)][st.ptr := 0]))
    decreases fuel
  {
    var c := Current(st);
    if c == 0 {
      assert st.tape[st.ptr + 1 := Add(st.tape[st.ptr + 1], 0)][st.ptr := 0] == st.tape;
    } else {
      var next := st.(tape := st.tape[st.ptr + 1 := Add(st.tape[st.ptr + 1], 2)][st.ptr := Add(c, -1)]);
      DoubleBodyOnce(SignedPositive, st, fuel - 1);
      LoopTurn(SignedPositive, DoubleBody(), st, fuel);
      DoublingLoop(next, fuel - 1);
      AddAdd(st.tape[st.ptr + 1], 2, 2 * (c as int - 1));
      assert next.tape[st.ptr + 1 := Add(next.tape[st.ptr + 1], 2 * (c as int - 1))][st.ptr := 0] ==
        st.tape[st.ptr + 1 := Add(st.tape[st.ptr + 1], 2 * c as int)][st.ptr := 0];
    }
  }

  /** The doubling program writes 4, then the newline. */
  lemma RunDoubling(ns: seq<Node>, st: State, fuel: nat)
    requires ns == [CommandNode(Increment, 2), Loop(DoubleBody()), CommandNode(Invalid, 1),
                    CommandNode(ShiftRight, 1), CommandNode(Output, 1)]
    requires fuel >= 2
    ensures var o := RunProgram(SignedPositive, Program(ns), st, fuel);
      o.Ok? && o.state.output == st.output + [4, NewLine]
  {
    var s0 := Reset(st);
    var s1 := s0.(tape := s0.tape[0 := 2]);
    var s2 := s1.(tape := s1.tape[1 := 4][0 := 0]);
    var s3 := s2.(ptr := 1, output := st.output + [4]);
    var tail := ns[1..];
    assert ExecNodes(SignedPositive, tail, s1, fuel) == Ok(s3) by {
      assert ExecNode(SignedPositive, tail[0], s1, fuel) == Ok(s2) by {
        DoublingLoop(s1, fuel);
        assert s1.tape[1] == 0;
      }
      ExecThen(SignedPositive, tail, s1, fuel, s2);
      DoublingTail(tail[1..], s2, fuel);
    }
    assert ExecNodes(SignedPositive, ns, s0, fuel) == Ok(s3) by {
      assert ExecNode(SignedPositive, ns[0], s0, fuel) == Ok(s1);
      ExecThen(SignedPositive, ns, s0, fuel, s1);
    }
  }

  /** After the loop, `>.` writes the neighbouring cell; the untagged node does nothing. */
  lemma DoublingTail(ns: seq<Node>, st: State, fuel: nat)
    requires Valid(st) && st.ptr + 1 < TapeSize
    requires ns == [CommandNode(Invalid, 1), CommandNode(ShiftRight, 1), CommandNode(Output, 1)]
    ensures ExecNodes(SignedPositive, ns, st, fuel) ==
      Ok(st.(ptr := st.ptr + 1, output := st.output + [st.tape[st.ptr + 1]]))
  {
    var s1 := st.(ptr := st.ptr + 1);
    var s2 := s1.(output := s1.output + [Current(s1)]);
    SkipUntagged(SignedPositive, 1, st, fuel);
    ShiftRightOnce(SignedPositive, st, fuel);
    OutputOnce(SignedPositive, s1, fuel);
    ExecPair(SignedPositive, ns[1], ns[2], st, fuel, s1, s2);
    assert ns[1..] == [ns[1], ns[2]];
    ExecThen(SignedPositive, ns, st, fuel, st);
  }

  /** An untagged node leaves the state as it is. */
  lemma SkipUntagged(test: LoopTest, count: int, st: State, fuel: nat)
    requires Valid(st)
    ensures ExecNode(test, CommandNode(Invalid, count), st, fuel) == Ok(st)
  {
  }

  /** One `>` moves the cursor one cell right. */
  lemma ShiftRightOnce(test: LoopTest, st: State, fuel: nat)
    requires Valid(st) && st.ptr + 1 < TapeSize
    ensures ExecNode(test, CommandNode(ShiftRight, 1), st, fuel) == Ok(st.(ptr := st.ptr + 1))
  {
  }

  /** One `.` writes the cell under the cursor. */
  lemma OutputOnce(test: LoopTest, st: State, fuel: nat)
    requires Valid(st)
    ensures ExecNode(test, CommandNode(Output, 1), st, fuel) == Ok(st.(output := st.output + [Current(st)]))
  {
    assert Replicate(Current(st), 1) == [Current(st)];
  }

  /** Source to output: `++[>++<-]>.` writes 4, then the newline. */
  lemma DoublingWritesFour(t: string, st: State, fuel: nat)
    requires |t| == 11 && t[0] == '+' && t[1] == '+' && t[2] == '[' && t[3] == '>' && t[4] == '+'
    requires t[5] == '+' && t[6] == '<' && t[7] == '-' && t[8] == ']' && t[9] == '>' && t[10] == '.'
    requires fuel >= 2
    ensures var o := RunProgram(SignedPositive, Program(ParseFrom(t, 0).nodes), st, fuel);
      o.Ok? && o.state.output == st.output + [4, NewLine]
  {
    ParseDoubling(t);
    RunDoubling(ParseFrom(t, 0).nodes, st, fuel);
  }

  // ---------------------------------------------------------------------
  // A run followed by `[-]`: `+++++[-]`, and `-[-]`

  /**
   * A run of `n` copies of one command character followed by `[-]` parses
   * as that run, the clearing loop, and the untagged node after the loop.
   */
  lemma ParseRunThenClear(t: string, n: nat)
    requires |t| == n + 3 && n >= 1 && !IsSpace(t[0]) && t[0] != '[' && t[0] != ']'
    requires forall i :: 0 <= i < n ==> t[i] == t[0]
    requires t[n] == '[' && t[n + 1] == '-' && t[n + 2] == ']'
    ensures ParseFrom(t, 0).nodes == [CommandNode(CommandOf(t[0]), n), Loop(ClearBody()), CommandNode(Invalid, 1)]
  {
    ParseClearAtEnd(t, n);
    ParseRun(t, 0, n);
  }

  /** `[-]` at the end of the text: the loop and the untagged node after it. */
  lemma ParseClearAtEnd(t: string, n: nat)
    requires |t| == n + 3 && t[n] == '[' && t[n + 1] == '-' && t[n + 2] == ']'
    ensures ParseFrom(t, n) == Parsed([Loop(ClearBody()), CommandNode(Invalid, 1)], n + 3, false)
  {
    assert ParseFrom(t, n + 1) == Parsed(ClearBody(), n + 3, true) by {
      ParseStopsAtClose(t, n + 2);
      ParseRun(t, n + 1, 1);
    }
    assert RunLength(t, n + 3, '[') == 0;
    assert ParseFrom(t, n + 3) == Parsed([], n + 3, false);
    ParseFromTurn(t, n);
  }

  /** `+++++[-]`: the loop drains the cell, and the whole tape is zero again. */
  lemma DrainLeavesZero(t: string, st: State, fuel: nat)
    requires |t| == 8 && t[0] == '+' && t[1] == '+' && t[2] == '+' && t[3] == '+' && t[4] == '+'
    requires t[5] == '[' && t[6] == '-' && t[7] == ']'
    requires fuel >= 5
    ensures var o := RunProgram(SignedPositive, Program(ParseFrom(t, 0).nodes), st, fuel);
      o.Ok? && o.state.ptr == 0 && o.state.tape == seq(TapeSize, _ => 0) &&
      o.state.output == st.output + [NewLine]
  {
    ParseRunThenClear(t, 5);
    RunThenClear(SignedPositive, ParseFrom(t, 0).nodes, Increment, 5, st, fuel);
  }

  /** Running a run of increments or decrements and then `[-]`, under either loop test. */
  lemma RunThenClear(test: LoopTest, ns: seq<Node>, cmd: Command, n: nat, st: State, fuel: nat)
    requires cmd == Increment || cmd == Decrement
    requires ns == [CommandNode(cmd, n), Loop(ClearBody()), CommandNode(Invalid, 1)]
    requires var c := Add(0, if cmd == Increment then n else -(n as int));
      test == SignedPositive ==> c < 128 ==> c as int <= fuel
    requires var c := Add(0, if cmd == Increment then n else -(n as int));
      test == NonZero ==> c as int <= fuel
    ensures var c := Add(0, if cmd == Increment then n else -(n as int));
      var o := RunProgram(test, Program(ns), st, fuel);
      o.Ok? && o.state.ptr == 0 && o.state.output == st.output + [NewLine] &&
      o.state.tape == seq(TapeSize, _ => 0)[0 := if test == SignedPositive && c >= 128 then c else 0]
  {
    var c := Add(0, if cmd == Increment then n else -(n as int));
    var s0 := Reset(st);
    var s1 := s0.(tape := s0.tape[0 := c]);
    var kept := if test == SignedPositive && c >= 128 then c else 0;
    var s2 := s0.(tape := s0.tape[0 := kept]);
    assert ExecNodes(test, ns[2..], s2, fuel) == Ok(s2) by {
      ExecCons(test, ns[2..], s2, fuel);
      assert ns[2..][1..] == [];
    }
    assert ExecNode(test, ns[1], s1, fuel) == Ok(s2) by {
      if test == SignedPositive {
        ClearLoopSigned(s1, fuel);
        if c >= 128 {
          assert s1 == s2;
        }
      } else {
        ClearLoopClears(s1, fuel);
      }
    }
    assert ExecNodes(test, ns[1..], s1, fuel) == Ok(s2) by {
      ExecCons(test, ns[1..], s1, fuel);
      assert ns[1..][1..] == ns[2..];
    }
    assert ExecNode(test, ns[0], s0, fuel) == Ok(s1);
    ExecCons(test, ns, s0, fuel);
  }

  /**
   * `-[-]` under the source's loop test: the decrement leaves 255, a
   * negative `char`, so the loop never runs and the cell stays at 255.
   * Under the non-zero test the same program clears the cell.
   */
  lemma MinusClearAsWrittenAndIntended(t: string, st: State, fuel: nat)
    requires |t| == 4 && t[0] == '-' && t[1] == '[' && t[2] == '-' && t[3] == ']'
    requires fuel >= 255
    ensures var o := RunProgram(SignedPositive, Program(ParseFrom(t, 0).nodes), st, fuel);
      o.Ok? && o.state.ptr == 0 && o.state.tape[0] == 255
    ensures var o := RunProgram(NonZero, Program(ParseFrom(t, 0).nodes), st, fuel);
      o.Ok? && o.state.ptr == 0 && o.state.tape == seq(TapeSize, _ => 0)
  {
    ParseRunThenClear(t, 1);
    assert Add(0, -1) == 255;
    RunThenClear(SignedPositive, ParseFrom(t, 0).nodes, Decrement, 1, st, fuel);
    RunThenClear(NonZero, ParseFrom(t, 0).nodes, Decrement, 1, st, fuel);
  }

  // ---------------------------------------------------------------------
  // Empty source and unmatched `]`

  /** An empty source parses to no children, and running it writes only the newline. */
  lemma EmptySourceWritesNewline(t: string, st: State, fuel: nat)
    requires |t| == 0
    ensures ParseFrom(t, 0) == Parsed([], 0, false)
    ensures var o := RunProgram(SignedPositive, Program(ParseFrom(t, 0).nodes), st, fuel);
      o.Ok? && o.state.output == st.output + [NewLine]
  {
    RunProgramOutput(SignedPositive, Program([]), st, fuel);
  }

  /**
   * A source whose first non-blank character is `]` parses to no children
   * whatever follows, so running it writes only the newline.
   */
  lemma LeadingCloseWritesNewline(t: string, st: State, fuel: nat)
    requires SkipSpace(t, 0) < |t| && t[SkipSpace(t, 0)] == ']'
    ensures ParseFrom(t, 0).nodes == []
    ensures var o := RunProgram(SignedPositive, Program(ParseFrom(t, 0).nodes), st, fuel);
      o.Ok? && o.state.output == st.output + [NewLine]
  {
    ParseStopsAtClose(t, 0);
    RunProgramOutput(SignedPositive, Program([]), st, fuel);
  }
}
