/**
 * What the `Interpreter` visitor of src/brainfuck.cpp computes, as pure
 * functions over an explicit machine state: a 30000-cell tape of bytes, a
 * cursor index, the input not yet read and the output written so far.
 *
 * Cells hold the bit pattern of a C `char` (0..255).  The loop test of the
 * source, `*ptr > 0` on a signed `char`, holds exactly for 1..127; the test
 * Brainfuck prescribes, a non-zero cell, is kept beside it (`LoopTest`) so
 * that the two can be compared.  A shift that would leave the tape, which
 * is undefined behaviour in the source, is an explicit error, and loops run
 * under a fuel bound so that every execution is a total function.
 */
module Semantics {
  import opened Ast

  newtype Cell = x: int | 0 <= x < 256

  /** The length of `Interpreter::memory`. */
  const TapeSize: nat := 30000
  /** The byte `'\n'` written after the program's own output. */
  const NewLine: Cell := 10
  /** `getchar()` at end of input returns -1, stored in a `char` as all bits set. */
  const EofCell: Cell := 255

  /** Byte arithmetic: `k` increments (or `-k` decrements) of a `char`, modulo 256. */
  function Add(c: Cell, k: int): Cell
  {
    ((c as int + k) % 256) as Cell
  }

  /** `Add(c, k)` is the one byte congruent to `c + k` modulo 256. */
  lemma AddCongruent(c: Cell, k: int, r: Cell)
    ensures r == Add(c, k) <==> (r as int - (c as int + k)) % 256 == 0
  {
    if (r as int - (c as int + k)) % 256 == 0 {
      var q := (r as int - (c as int + k)) / 256;
      assert r as int == c as int + k + 256 * q;
    }
  }

  /** The loop test of the source, and the test Brainfuck prescribes. */
  datatype LoopTest = SignedPositive | NonZero

  /** The value of a cell read as a signed (two's complement) `char`. */
  function Signed(c: Cell): (v: int)
    ensures -128 <= v < 128 && (v < 0 <==> 128 <= c)
  {
    if c < 128 then c as int else c as int - 256
  }

  /**
   * Whether a loop runs its body again: under the source's test exactly for
   * the bytes 1..127, under the non-zero test for every byte but 0.
   */
  predicate Enters(test: LoopTest, c: Cell)
    ensures Enters(test, c) <==> c != 0 && (test == SignedPositive ==> c < 128)
  {
    match test
    case SignedPositive => Signed(c) > 0
    case NonZero => c != 0
  }

  datatype State = State(tape: seq<Cell>, ptr: int, input: seq<Cell>, output: seq<Cell>)

  /** The tape has its fixed length and the cursor is on it. */
  predicate Valid(st: State)
  {
    |st.tape| == TapeSize && 0 <= st.ptr < TapeSize
  }

  datatype Error = TapeBoundsExceeded | OutOfFuel

  /**
   * How an execution ends: normally, or at an error together with the state
   * reached when it was raised, so that the output written before the error
   * is kept.
   */
  datatype Outcome = Ok(state: State) | Fail(error: Error, state: State)

  /** An execution that was cut short by its fuel bound. */
  predicate OutOfFuelAt(o: Outcome)
  {
    o.Fail? && o.error == OutOfFuel
  }

  /** `while (count > 0) … count--;` runs this many times. */
  function Steps(count: int): nat
  {
    if count > 0 then count else 0
  }

  function Current(st: State): Cell
    requires Valid(st)
  {
    st.tape[st.ptr]
  }

  /** Output only grows and input is only consumed from the front. */
  predicate Advances(st: State, st': State)
  {
    st.output <= st'.output &&
    |st'.input| <= |st.input| && st'.input == st.input[|st.input| - |st'.input|..]
  }

  /** One `Interpreter::visit(const CommandNode *)`. */
  function ExecCommand(cmd: Command, count: int, st: State): (o: Outcome)
    requires Valid(st)
    ensures Valid(o.state) && Advances(st, o.state)
    ensures o.Fail? ==> o.error == TapeBoundsExceeded && (cmd == ShiftLeft || cmd == ShiftRight)
    ensures o.Fail? ==> o.state == st.(ptr := if cmd == ShiftLeft then 0 else TapeSize - 1)
  {
    var k: int := Steps(count);
    match cmd
    case Increment => Ok(st.(tape := st.tape[st.ptr := Add(Current(st), k)]))
    case Decrement => Ok(st.(tape := st.tape[st.ptr := Add(Current(st), -k)]))
    case ShiftLeft =>
      if 0 <= st.ptr - k then Ok(st.(ptr := st.ptr - k)) else Fail(TapeBoundsExceeded, st.(ptr := 0))
    case ShiftRight =>
      if st.ptr + k < TapeSize then Ok(st.(ptr := st.ptr + k)) else Fail(TapeBoundsExceeded, st.(ptr := TapeSize - 1))
    case Input =>
      if k == 0 then Ok(st)
      else if k <= |st.input| then Ok(st.(tape := st.tape[st.ptr := st.input[k - 1]], input := st.input[k..]))
      else Ok(st.(tape := st.tape[st.ptr := EofCell], input := []))
    case Output => Ok(st.(output := st.output + Replicate(Current(st), k)))
    case Zero => Ok(st.(tape := st.tape[st.ptr := 0]))
    case Invalid => Ok(st)
  }

  /**
   * The children of a container, in order, stopping at the first error.
   * `fuel` bounds the number of iterations of each loop, counted down along
   * the nesting of loops.
   */
  function ExecNodes(test: LoopTest, ns: seq<Node>, st: State, fuel: nat): (o: Outcome)
    requires Valid(st)
    ensures Valid(o.state)
    decreases fuel, NodesSize(ns), 1
  {
    if ns == [] then Ok(st)
    else
      match ExecNode(test, ns[0], st, fuel)
      case Fail(e, at) => Fail(e, at)
      case Ok(next) => ExecNodes(test, ns[1..], next, fuel)
  }

  /** `accept`: a node runs the visit of its own kind. */
  function ExecNode(test: LoopTest, n: Node, st: State, fuel: nat): (o: Outcome)
    requires Valid(st)
    ensures Valid(o.state)
    decreases fuel, NodeSize(n), 1
  {
    match n
    case CommandNode(command, count) => ExecCommand(command, count, st)
    case Loop(children) => ExecLoop(test, children, st, fuel)
  }

  /** `Interpreter::visit(const Loop *)`: re-run the body while the test holds. */
  function ExecLoop(test: LoopTest, body: seq<Node>, st: State, fuel: nat): (o: Outcome)
    requires Valid(st)
    ensures Valid(o.state)
    decreases fuel, NodesSize(body) + 1, 0
  {
    if !Enters(test, Current(st)) then Ok(st)
    else if fuel == 0 then Fail(OutOfFuel, st)
    else
      match ExecNodes(test, body, st, fuel - 1)
      case Fail(e, at) => Fail(e, at)
      case Ok(next) => ExecLoop(test, body, next, fuel - 1)
  }

  /** `memset(memory, 0, 30000); ptr = memory;`: a zeroed tape, the cursor on its first cell. */
  function Reset(st: State): (r: State)
    ensures Valid(r)
  {
    State(seq(TapeSize, _ => 0), 0, st.input, st.output)
  }

  /**
   * `Interpreter::visit(const Program *)`: the children run on a reset tape,
   * then a newline is written.  Only the input and output of `st` matter.
   */
  function RunProgram(test: LoopTest, program: Program, st: State, fuel: nat): Outcome
  {
    match ExecNodes(test, program.children, Reset(st), fuel)
    case Fail(e, at) => Fail(e, at)
    case Ok(final) => Ok(final.(output := final.output + [NewLine]))
  }

  // ---------------------------------------------------------------------
  // A command node is its command repeated `count` times

  /** The commands whose `case` is a count-down loop around one step. */
  predicate Repeated(cmd: Command)
  {
    cmd != Zero && cmd != Invalid
  }

  /** One pass through the body of the count-down loop of `cmd`. */
  function Step(cmd: Command, st: State): (o: Outcome)
    requires Repeated(cmd) && Valid(st)
    ensures Valid(o.state)
  {
    match cmd
    case Increment => Ok(st.(tape := st.tape[st.ptr := Add(Current(st), 1)]))
    case Decrement => Ok(st.(tape := st.tape[st.ptr := Add(Current(st), -1)]))
    case ShiftLeft => if st.ptr == 0 then Fail(TapeBoundsExceeded, st) else Ok(st.(ptr := st.ptr - 1))
    case ShiftRight => if st.ptr == TapeSize - 1 then Fail(TapeBoundsExceeded, st) else Ok(st.(ptr := st.ptr + 1))
    case Input =>
      if st.input == [] then Ok(st.(tape := st.tape[st.ptr := EofCell]))
      else Ok(st.(tape := st.tape[st.ptr := st.input[0]], input := st.input[1..]))
    case Output => Ok(st.(output := st.output + [Current(st)]))
  }

  /** One pass of a count-down loop body is a node of that command with count 1. */
  lemma StepIsSingleCommand(cmd: Command, st: State)
    requires Repeated(cmd) && Valid(st)
    ensures Step(cmd, st) == ExecCommand(cmd, 1, st)
  {
    if cmd == Output {
      assert Replicate(Current(st), 1) == [Current(st)];
    }
  }

  /** `n` passes through the loop body, stopping at the first error. */
  function Iterate(cmd: Command, n: nat, st: State): Outcome
    requires Repeated(cmd) && Valid(st)
  {
    if n == 0 then Ok(st)
    else
      match Step(cmd, st)
      case Fail(e, at) => Fail(e, at)
      case Ok(next) => Iterate(cmd, n - 1, next)
  }

  /** Byte additions compose. */
  lemma AddAdd(c: Cell, a: int, b: int)
    ensures Add(Add(c, a), b) == Add(c, a + b)
  {
  }

  /** `n` increments add `n` to the cursor cell, `n` decrements subtract it, modulo 256. */
  lemma {:induction false} IterateAdd(cmd: Command, n: nat, st: State)
    requires (cmd == Increment || cmd == Decrement) && Valid(st)
    ensures Iterate(cmd, n, st) ==
      Ok(st.(tape := st.tape[st.ptr := Add(Current(st), if cmd == Increment then n else -(n as int))]))
  {
    if n > 0 {
      var unit: int := if cmd == Increment then 1 else -1;
      var next := st.(tape := st.tape[st.ptr := Add(Current(st), unit)]);
      assert Step(cmd, st) == Ok(next);
      assert Iterate(cmd, n, st) == Iterate(cmd, n - 1, next);
      IterateAdd(cmd, n - 1, next);
      var rest: int := unit * (n - 1);
      AddAdd(Current(st), unit, rest);
      assert next.tape[next.ptr := Add(Current(next), rest)] == st.tape[st.ptr := Add(Current(st), unit + rest)];
    }
  }

  /** `n` shifts move the cursor by `n`, failing when a step would leave the tape. */
  lemma {:induction false} IterateShift(cmd: Command, n: nat, st: State)
    requires (cmd == ShiftLeft || cmd == ShiftRight) && Valid(st)
    ensures var target := if cmd == ShiftLeft then st.ptr - n else st.ptr + n;
      var edge := if cmd == ShiftLeft then 0 else TapeSize - 1;
      Iterate(cmd, n, st) == if 0 <= target < TapeSize then Ok(st.(ptr := target)) else Fail(TapeBoundsExceeded, st.(ptr := edge))
  {
    if n > 0 && Step(cmd, st).Ok? {
      IterateShift(cmd, n - 1, Step(cmd, st).state);
    }
  }

  /** `n` reads leave the `n`-th byte in the cell, or the end-of-input byte once input runs out. */
  lemma {:induction false} IterateInput(n: nat, st: State)
    requires Valid(st)
    ensures Iterate(Input, n, st) ==
      if n == 0 then Ok(st)
      else if n <= |st.input| then Ok(st.(tape := st.tape[st.ptr := st.input[n - 1]], input := st.input[n..]))
      else Ok(st.(tape := st.tape[st.ptr := EofCell], input := []))
  {
    if n > 0 {
      var next := Step(Input, st).state;
      IterateInput(n - 1, next);
      if st.input != [] && n <= |st.input| {
        assert next.input[n - 1..] == st.input[n..];
      }
    }
  }

  /** `n` writes append `n` copies of the cursor cell to the output. */
  lemma {:induction false} IterateOutput(n: nat, st: State)
    requires Valid(st)
    ensures Iterate(Output, n, st) == Ok(st.(output := st.output + Replicate(Current(st), n)))
  {
    if n > 0 {
      IterateOutput(n - 1, Step(Output, st).state);
      assert st.output + [Current(st)] + Replicate(Current(st), n - 1) == st.output + Replicate(Current(st), n);
    }
  }

  /**
   * The closed form of a command node agrees with performing its one-step
   * loop body `count` times, as the count-down loops of the source do.
   */
  lemma ExecCommandIsIterate(cmd: Command, count: int, st: State)
    requires Repeated(cmd) && Valid(st)
    ensures ExecCommand(cmd, count, st) == Iterate(cmd, Steps(count), st)
  {
    if cmd == Increment || cmd == Decrement {
      AddIsIterate(cmd, count, st);
    } else if cmd == ShiftLeft || cmd == ShiftRight {
      ShiftIsIterate(cmd, count, st);
    } else if cmd == Input {
      InputIsIterate(count, st);
    } else {
      OutputIsIterate(count, st);
    }
  }

  /** The increment and decrement cases of `ExecCommandIsIterate`. */
  lemma AddIsIterate(cmd: Command, count: int, st: State)
    requires (cmd == Increment || cmd == Decrement) && Valid(st)
    ensures ExecCommand(cmd, count, st) == Iterate(cmd, Steps(count), st)
  {
    IterateAdd(cmd, Steps(count), st);
  }

  /** The shift cases of `ExecCommandIsIterate`. */
  lemma ShiftIsIterate(cmd: Command, count: int, st: State)
    requires (cmd == ShiftLeft || cmd == ShiftRight) && Valid(st)
    ensures ExecCommand(cmd, count, st) == Iterate(cmd, Steps(count), st)
  {
    IterateShift(cmd, Steps(count), st);
  }

  /** The input case of `ExecCommandIsIterate`. */
  lemma InputIsIterate(count: int, st: State)
    requires Valid(st)
    ensures ExecCommand(Input, count, st) == Iterate(Input, Steps(count), st)
  {
    IterateInput(Steps(count), st);
  }

  /** The output case of `ExecCommandIsIterate`. */
  lemma OutputIsIterate(count: int, st: State)
    requires Valid(st)
    ensures ExecCommand(Output, count, st) == Iterate(Output, Steps(count), st)
  {
    IterateOutput(Steps(count), st);
  }

  // ---------------------------------------------------------------------
  // Algebra of the commands

  /** `k` decrements undo `k` increments. */
  lemma DecrementUndoesIncrement(k: int, st: State)
    requires Valid(st)
    ensures ExecCommand(Increment, k, st).Ok?
    ensures ExecCommand(Decrement, k, ExecCommand(Increment, k, st).state) == Ok(st)
  {
    AddAdd(Current(st), Steps(k), -(Steps(k) as int));
    assert st.tape[st.ptr := Current(st)] == st.tape;
  }

  /** 256 increments bring a cell back to where it was. */
  lemma IncrementWrapsAround(st: State)
    requires Valid(st)
    ensures ExecCommand(Increment, 256, st) == Ok(st)
  {
    assert st.tape[st.ptr := Current(st)] == st.tape;
  }

  /**
   * `k` increments or decrements change only the cell under the cursor, by
   * `k` or `-k` modulo 256; the cursor, the other cells and the streams stay.
   */
  lemma AddChangesOnlyCursorCell(cmd: Command, k: int, st: State)
    requires (cmd == Increment || cmd == Decrement) && Valid(st)
    ensures var o := ExecCommand(cmd, k, st);
      o.Ok? && o.state.ptr == st.ptr && o.state.input == st.input && o.state.output == st.output &&
      |o.state.tape| == |st.tape| &&
      o.state.tape[st.ptr] == Add(st.tape[st.ptr], if cmd == Increment then Steps(k) else -(Steps(k) as int)) &&
      forall i :: 0 <= i < |st.tape| && i != st.ptr ==> o.state.tape[i] == st.tape[i]
  {
    var d := if cmd == Increment then Steps(k) else -(Steps(k) as int);
    var tape := st.tape[st.ptr := Add(Current(st), d)];
    assert ExecCommand(cmd, k, st) == Ok(st.(tape := tape));
  }

  /** A shift that stays on the tape is undone by the opposite shift. */
  lemma ShiftLeftUndoesShiftRight(k: int, st: State)
    requires Valid(st) && ExecCommand(ShiftRight, k, st).Ok?
    ensures ExecCommand(ShiftLeft, k, ExecCommand(ShiftRight, k, st).state) == Ok(st)
  {
  }

  /** Shifts move the cursor only, and fail exactly when the target is off the tape. */
  lemma ShiftMovesCursor(cmd: Command, k: int, st: State)
    requires (cmd == ShiftLeft || cmd == ShiftRight) && Valid(st)
    ensures var target := if cmd == ShiftLeft then st.ptr - Steps(k) else st.ptr + Steps(k);
      ExecCommand(cmd, k, st).Ok? <==> 0 <= target < TapeSize
    ensures ExecCommand(cmd, k, st).Ok? ==>
      var st' := ExecCommand(cmd, k, st).state;
      st'.tape == st.tape && st'.input == st.input && st'.output == st.output
  {
  }

  /** `Zero` clears the cell whatever its count, and clearing twice is clearing once. */
  lemma ZeroIdempotent(j: int, k: int, st: State)
    requires Valid(st)
    ensures ExecCommand(Zero, j, st) == ExecCommand(Zero, k, st)
    ensures ExecCommand(Zero, j, ExecCommand(Zero, k, st).state) == ExecCommand(Zero, k, st)
    ensures Current(ExecCommand(Zero, k, st).state) == 0
  {
  }

  // ---------------------------------------------------------------------
  // Loops

  /** A loop whose test fails on entry runs its body zero times. */
  lemma LoopSkipped(test: LoopTest, body: seq<Node>, st: State, fuel: nat)
    requires Valid(st) && !Enters(test, Current(st))
    ensures ExecLoop(test, body, st, fuel) == Ok(st)
  {
  }

  /** A loop that finishes leaves a cell on which its test fails under the cursor. */
  lemma {:induction false} LoopExit(test: LoopTest, body: seq<Node>, st: State, fuel: nat)
    requires Valid(st) && ExecLoop(test, body, st, fuel).Ok?
    ensures !Enters(test, Current(ExecLoop(test, body, st, fuel).state))
    decreases fuel
  {
    if Enters(test, Current(st)) {
      LoopExit(test, body, ExecNodes(test, body, st, fuel - 1).state, fuel - 1);
    }
  }

  /** Under the source's test a finished loop leaves 0 or a byte of 128..255 under the cursor. */
  lemma LoopExitSigned(body: seq<Node>, st: State, fuel: nat)
    requires Valid(st) && ExecLoop(SignedPositive, body, st, fuel).Ok?
    ensures var c := Current(ExecLoop(SignedPositive, body, st, fuel).state);
      c == 0 || 128 <= c
  {
    LoopExit(SignedPositive, body, st, fuel);
  }

  /** One turn of a loop whose test holds. */
  lemma LoopTurn(test: LoopTest, body: seq<Node>, st: State, fuel: nat)
    requires Valid(st) && Enters(test, Current(st)) && fuel > 0
    ensures ExecLoop(test, body, st, fuel) ==
      match ExecNodes(test, body, st, fuel - 1)
      case Fail(e, at) => Fail(e, at)
      case Ok(next) => ExecLoop(test, body, next, fuel - 1)
  {
  }

  /**
   * Fuel only cuts executions short: a run that does not run out of fuel
   * gives the same outcome with any larger amount.
   */
  lemma {:induction false} NodesFuelMonotone(test: LoopTest, ns: seq<Node>, st: State, fuel: nat, more: nat)
    requires Valid(st) && fuel <= more && !OutOfFuelAt(ExecNodes(test, ns, st, fuel))
    ensures ExecNodes(test, ns, st, more) == ExecNodes(test, ns, st, fuel)
    decreases fuel, NodesSize(ns), 1
  {
    if ns != [] {
      NodeFuelMonotone(test, ns[0], st, fuel, more);
      match ExecNode(test, ns[0], st, fuel)
      case Fail(_, _) =>
      case Ok(next) => NodesFuelMonotone(test, ns[1..], next, fuel, more);
    }
  }

  lemma {:induction false} NodeFuelMonotone(test: LoopTest, n: Node, st: State, fuel: nat, more: nat)
    requires Valid(st) && fuel <= more && !OutOfFuelAt(ExecNode(test, n, st, fuel))
    ensures ExecNode(test, n, st, more) == ExecNode(test, n, st, fuel)
    decreases fuel, NodeSize(n), 1
  {
    match n
    case CommandNode(_, _) =>
    case Loop(body) => LoopFuelMonotone(test, body, st, fuel, more);
  }

  lemma {:induction false} LoopFuelMonotone(test: LoopTest, body: seq<Node>, st: State, fuel: nat, more: nat)
    requires Valid(st) && fuel <= more && !OutOfFuelAt(ExecLoop(test, body, st, fuel))
    ensures ExecLoop(test, body, st, more) == ExecLoop(test, body, st, fuel)
    decreases fuel, NodesSize(body) + 1, 0
  {
    if Enters(test, Current(st)) {
      var r := ExecNodes(test, body, st, fuel - 1);
      LoopTurn(test, body, st, fuel);
      LoopTurn(test, body, st, more);
      NodesFuelMonotone(test, body, st, fuel - 1, more - 1);
      if r.Ok? {
        LoopFuelMonotone(test, body, r.state, fuel - 1, more - 1);
      }
    }
  }

  /**
   * Children run in sequence: running `xs + ys` is running `xs`, then `ys`
   * from where `xs` ended, unless `xs` already stopped at an error.
   */
  lemma {:induction false} ExecNodesAppend(test: LoopTest, xs: seq<Node>, ys: seq<Node>, st: State, fuel: nat)
    requires Valid(st)
    ensures ExecNodes(test, xs + ys, st, fuel) ==
      match ExecNodes(test, xs, st, fuel)
      case Fail(e, at) => Fail(e, at)
      case Ok(mid) => ExecNodes(test, ys, mid, fuel)
    decreases |xs|
  {
    if xs == [] {
      assert xs + ys == ys;
    } else {
      assert (xs + ys)[0] == xs[0] && (xs + ys)[1..] == xs[1..] + ys;
      var first := ExecNode(test, xs[0], st, fuel);
      if first.Ok? {
        ExecNodesAppend(test, xs[1..], ys, first.state, fuel);
      }
    }
  }

  /** The body of the clearing idiom `[-]`: one decrement. */
  function ClearBody(): seq<Node>
  {
    [CommandNode(Decrement, 1)]
  }

  /** One run of the body of `[-]` decrements the cursor cell. */
  lemma ClearBodyDecrements(test: LoopTest, st: State, fuel: nat)
    requires Valid(st)
    ensures ExecNodes(test, ClearBody(), st, fuel) ==
      Ok(st.(tape := st.tape[st.ptr := Add(Current(st), -1)]))
  {
    var body := ClearBody();
    assert body[1..] == [];
  }

  /**
   * The clearing idiom `[-]` under the test Brainfuck prescribes: with
   * enough fuel it sets any cell to 0 and changes nothing else.
   */
  lemma {:induction false} ClearLoopClears(st: State, fuel: nat)
    requires Valid(st) && Current(st) as int <= fuel
    ensures ExecLoop(NonZero, ClearBody(), st, fuel) == Ok(st.(tape := st.tape[st.ptr := 0]))
    decreases fuel
  {
    var c := Current(st);
    if c != 0 {
      var next := st.(tape := st.tape[st.ptr := c - 1]);
      assert ExecLoop(NonZero, ClearBody(), st, fuel) == ExecLoop(NonZero, ClearBody(), next, fuel - 1) by {
        assert Add(c, -1) == c - 1;
        ClearBodyDecrements(NonZero, st, fuel - 1);
        LoopTurn(NonZero, ClearBody(), st, fuel);
      }
      assert Valid(next) && Current(next) == c - 1;
      ClearLoopClears(next, fuel - 1);
      assert next.tape[next.ptr := 0] == st.tape[st.ptr := 0];
    } else {
      assert st.tape[st.ptr := 0] == st.tape;
    }
  }

  /**
   * The same idiom under the source's test: it clears cells holding 1..127,
   * but a cell holding 128..255 (a negative `char`) fails the test at once
   * and is left as it is.
   */
  lemma {:induction false} ClearLoopSigned(st: State, fuel: nat)
    requires Valid(st) && (Current(st) < 128 ==> Current(st) as int <= fuel)
    ensures ExecLoop(SignedPositive, ClearBody(), st, fuel) ==
      if Current(st) < 128 then Ok(st.(tape := st.tape[st.ptr := 0])) else Ok(st)
    decreases fuel
  {
    var c := Current(st);
    if 0 < c < 128 {
      var next := st.(tape := st.tape[st.ptr := c - 1]);
      assert ExecLoop(SignedPositive, ClearBody(), st, fuel) == ExecLoop(SignedPositive, ClearBody(), next, fuel - 1) by {
        assert Add(c, -1) == c - 1;
        ClearBodyDecrements(SignedPositive, st, fuel - 1);
        LoopTurn(SignedPositive, ClearBody(), st, fuel);
      }
      assert Valid(next) && Current(next) == c - 1;
      ClearLoopSigned(next, fuel - 1);
      assert next.tape[next.ptr := 0] == st.tape[st.ptr := 0];
    } else if c == 0 {
      assert st.tape[st.ptr := 0] == st.tape;
    }
  }

  // ---------------------------------------------------------------------
  // Input and output

  lemma AdvancesTransitive(a: State, b: State, c: State)
    requires Advances(a, b) && Advances(b, c)
    ensures Advances(a, c)
  {
    assert c.input == a.input[|a.input| - |c.input|..] by {
      assert c.input == b.input[|b.input| - |c.input|..];
      assert b.input[|b.input| - |c.input|..] == a.input[|a.input| - |b.input|..][|b.input| - |c.input|..];
    }
  }

  /**
   * Execution only appends to the output and only consumes input from the
   * front, also when it stops at an error: what was written before the
   * error is kept.
   */
  lemma {:induction false} NodesAdvance(test: LoopTest, ns: seq<Node>, st: State, fuel: nat)
    requires Valid(st)
    ensures Advances(st, ExecNodes(test, ns, st, fuel).state)
    decreases fuel, NodesSize(ns), 1
  {
    if ns == [] {
      assert st.input[|st.input| - |st.input|..] == st.input;
    } else {
      var first := ExecNode(test, ns[0], st, fuel);
      NodeAdvances(test, ns[0], st, fuel);
      if first.Ok? {
        NodesAdvance(test, ns[1..], first.state, fuel);
        AdvancesTransitive(st, first.state, ExecNodes(test, ns, st, fuel).state);
      }
    }
  }

  lemma {:induction false} NodeAdvances(test: LoopTest, n: Node, st: State, fuel: nat)
    requires Valid(st)
    ensures Advances(st, ExecNode(test, n, st, fuel).state)
    decreases fuel, NodeSize(n), 1
  {
    match n
    case CommandNode(_, _) =>
    case Loop(body) => LoopAdvances(test, body, st, fuel);
  }

  lemma {:induction false} LoopAdvances(test: LoopTest, body: seq<Node>, st: State, fuel: nat)
    requires Valid(st)
    ensures Advances(st, ExecLoop(test, body, st, fuel).state)
    decreases fuel, NodesSize(body) + 1, 0
  {
    if Enters(test, Current(st)) && fuel > 0 {
      var turn := ExecNodes(test, body, st, fuel - 1);
      NodesAdvance(test, body, st, fuel - 1);
      if turn.Ok? {
        LoopAdvances(test, body, turn.state, fuel - 1);
        AdvancesTransitive(st, turn.state, ExecLoop(test, body, st, fuel).state);
      }
    } else {
      assert st.input[|st.input| - |st.input|..] == st.input;
    }
  }

  /** Whether an `Output` leaf occurs anywhere in the tree. */
  predicate Writes(ns: seq<Node>)
    decreases NodesSize(ns)
  {
    ns != [] && (NodeWrites(ns[0]) || Writes(ns[1..]))
  }

  predicate NodeWrites(n: Node)
    decreases NodeSize(n)
  {
    match n
    case CommandNode(command, _) => command == Output
    case Loop(children) => Writes(children)
  }

  /** A tree without `Output` leaves writes nothing, whether or not it stops at an error. */
  lemma {:induction false} SilentNodes(test: LoopTest, ns: seq<Node>, st: State, fuel: nat)
    requires Valid(st) && !Writes(ns)
    ensures ExecNodes(test, ns, st, fuel).state.output == st.output
    decreases fuel, NodesSize(ns), 1
  {
    if ns != [] {
      var first := ExecNode(test, ns[0], st, fuel);
      SilentNode(test, ns[0], st, fuel);
      if first.Ok? {
        SilentNodes(test, ns[1..], first.state, fuel);
      }
    }
  }

  lemma {:induction false} SilentNode(test: LoopTest, n: Node, st: State, fuel: nat)
    requires Valid(st) && !NodeWrites(n)
    ensures ExecNode(test, n, st, fuel).state.output == st.output
    decreases fuel, NodeSize(n), 1
  {
    match n
    case CommandNode(_, _) =>
    case Loop(body) => SilentLoop(test, body, st, fuel);
  }

  lemma {:induction false} SilentLoop(test: LoopTest, body: seq<Node>, st: State, fuel: nat)
    requires Valid(st) && !Writes(body)
    ensures ExecLoop(test, body, st, fuel).state.output == st.output
    decreases fuel, NodesSize(body) + 1, 0
  {
    if Enters(test, Current(st)) && fuel > 0 {
      var turn := ExecNodes(test, body, st, fuel - 1);
      SilentNodes(test, body, st, fuel - 1);
      if turn.Ok? {
        SilentLoop(test, body, turn.state, fuel - 1);
      }
    }
  }

  /**
   * A finished program's output is the output it started with, then what
   * its children wrote, then one newline; a program without `Output` leaves
   * adds only the newline.
   */
  lemma RunProgramOutput(test: LoopTest, program: Program, st: State, fuel: nat)
    requires RunProgram(test, program, st, fuel).Ok?
    ensures var written := ExecNodes(test, program.children, Reset(st), fuel).state.output;
      var out := RunProgram(test, program, st, fuel).state.output;
      st.output <= written && out == written + [NewLine] && out[|out| - 1] == NewLine &&
      (!Writes(program.children) ==> out == st.output + [NewLine])
  {
    NodesAdvance(test, program.children, Reset(st), fuel);
    if !Writes(program.children) {
      SilentNodes(test, program.children, Reset(st), fuel);
    }
  }

  /**
   * A program stopped by an error keeps the output written until then and
   * writes no newline.
   */
  lemma RunProgramFailureOutput(test: LoopTest, program: Program, st: State, fuel: nat)
    requires RunProgram(test, program, st, fuel).Fail?
    ensures var out := RunProgram(test, program, st, fuel).state.output;
      st.output <= out && out == ExecNodes(test, program.children, Reset(st), fuel).state.output
    ensures !Writes(program.children) ==> RunProgram(test, program, st, fuel).state.output == st.output
  {
    NodesAdvance(test, program.children, Reset(st), fuel);
    if !Writes(program.children) {
      SilentNodes(test, program.children, Reset(st), fuel);
    }
  }
}
