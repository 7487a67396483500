/**
 * The `Interpreter` visitor of src/brainfuck.cpp as a class: a fixed
 * 30000-cell array, a cursor index in place of the `char *` pointer, and
 * the standard input and output streams as a sequence still to be read and
 * a sequence written so far.  Each `visit` becomes a method with the
 * source's loops, proved to end in the state the functions of `Semantics`
 * compute, with the source's loop test `*ptr > 0` on a signed `char`.
 */
module Execution {
  import opened Wrappers
  import opened Ast
  import opened Semantics

  class Interpreter {
    /** `char memory[30000]`. */
    const memory: array<Cell>
    /** The index `ptr - memory`. */
    var ptr: int
    /** What `getchar()` has yet to return. */
    var input: seq<Cell>
    /** What `putchar` and `cout` have written. */
    var output: seq<Cell>

    ghost predicate Valid()
      reads this
    {
      memory.Length == TapeSize && 0 <= ptr < TapeSize
    }

    /** The machine state the interpreter is in. */
    function Snapshot(): State
      reads this, memory
    {
      State(memory[..], ptr, input, output)
    }

    constructor(stdin: seq<Cell>)
      ensures Valid() && fresh(memory)
      ensures input == stdin && output == []
    {
      memory := new Cell[TapeSize];
      ptr := 0;
      input := stdin;
      output := [];
    }

    /** `Interpreter::visit(const CommandNode *)`. */
    method VisitCommand(cmd: Command, count: int) returns (err: Option<Error>)
      requires Valid()
      modifies this, memory
      ensures Valid()
      ensures Snapshot() == ExecCommand(cmd, count, old(Snapshot())).state
      ensures err == ErrorOf(ExecCommand(cmd, count, old(Snapshot())))
    {
      if cmd == Zero {
        memory[ptr] := 0;
        return None;
      } else if cmd == Invalid {
        return None;
      }
      ExecCommandIsIterate(cmd, count, Snapshot());
      err := CountDown(cmd, count);
    }

    /** `while (count > 0) { <step>; count--; }`, the loop of every `case` but `ZERO`. */
    method CountDown(cmd: Command, count: int) returns (err: Option<Error>)
      requires Valid() && Repeated(cmd)
      modifies this, memory
      ensures Valid()
      ensures Snapshot() == Iterate(cmd, Steps(count), old(Snapshot())).state
      ensures err == ErrorOf(Iterate(cmd, Steps(count), old(Snapshot())))
    {
      var n := count;
      while n > 0
        invariant Valid()
        invariant Iterate(cmd, Steps(n), Snapshot()) == Iterate(cmd, Steps(count), old(Snapshot()))
        decreases n
      {
        ghost var before := Snapshot();
        err := StepOnce(cmd);
        if err.Some? {
          assert Iterate(cmd, Steps(n), before) == Fail(err.value, Snapshot());
          return;
        }
        n := n - 1;
      }
      return None;
    }

    /** The body of the count-down loop in the `case` of `cmd`. */
    method StepOnce(cmd: Command) returns (err: Option<Error>)
      requires Valid() && Repeated(cmd)
      modifies this, memory
      ensures Valid()
      ensures Snapshot() == Step(cmd, old(Snapshot())).state
      ensures err == ErrorOf(Step(cmd, old(Snapshot())))
    {
      match cmd {
        case Increment =>
          memory[ptr] := Add(memory[ptr], 1);
        case Decrement =>
          memory[ptr] := Add(memory[ptr], -1);
        case ShiftLeft =>
          if ptr == 0 {
            return Some(TapeBoundsExceeded);
          }
          ptr := ptr - 1;
        case ShiftRight =>
          if ptr == TapeSize - 1 {
            return Some(TapeBoundsExceeded);
          }
          ptr := ptr + 1;
        case Input =>
          if input == [] {
            memory[ptr] := EofCell;
          } else {
            memory[ptr] := input[0];
            input := input[1..];
          }
        case Output =>
          output := output + [memory[ptr]];
      }
      return None;
    }

    /** The children of a container, visited in order; the first error stops the walk. */
    method VisitNodes(ns: seq<Node>, fuel: nat) returns (err: Option<Error>)
      requires Valid()
      modifies this, memory
      ensures Valid()
      ensures Snapshot() == ExecNodes(SignedPositive, ns, old(Snapshot()), fuel).state
      ensures err == ErrorOf(ExecNodes(SignedPositive, ns, old(Snapshot()), fuel))
      decreases fuel, NodesSize(ns), 1
    {
      var i := 0;
      while i < |ns|
        invariant 0 <= i <= |ns| && Valid()
        invariant ExecNodes(SignedPositive, ns[i..], Snapshot(), fuel) ==
          ExecNodes(SignedPositive, ns, old(Snapshot()), fuel)
      {
        NodeSizeBelow(ns, i);
        ExecNodesStep(ns, i, Snapshot(), fuel);
        err := VisitNode(ns[i], fuel);
        if err.Some? {
          return;
        }
        i := i + 1;
      }
      return None;
    }

    /** `accept`: dispatch on the kind of node. */
    method VisitNode(n: Node, fuel: nat) returns (err: Option<Error>)
      requires Valid()
      modifies this, memory
      ensures Valid()
      ensures Snapshot() == ExecNode(SignedPositive, n, old(Snapshot()), fuel).state
      ensures err == ErrorOf(ExecNode(SignedPositive, n, old(Snapshot()), fuel))
      decreases fuel, NodeSize(n), 1
    {
      match n
      case CommandNode(command, count) =>
        err := VisitCommand(command, count);
      case Loop(children) =>
        err := VisitLoop(children, fuel);
    }

    /** `Interpreter::visit(const Loop *)`: `while (*ptr > 0)` re-runs the children. */
    method VisitLoop(body: seq<Node>, fuel: nat) returns (err: Option<Error>)
      requires Valid()
      modifies this, memory
      ensures Valid()
      ensures Snapshot() == ExecLoop(SignedPositive, body, old(Snapshot()), fuel).state
      ensures err == ErrorOf(ExecLoop(SignedPositive, body, old(Snapshot()), fuel))
      decreases fuel, NodesSize(body) + 1, 0
    {
      var f: nat := fuel;
      while Signed(memory[ptr]) > 0
        invariant Valid() && f <= fuel
        invariant ExecLoop(SignedPositive, body, Snapshot(), f) == ExecLoop(SignedPositive, body, old(Snapshot()), fuel)
        decreases f
      {
        if f == 0 {
          return Some(OutOfFuel);
        }
        LoopTurn(SignedPositive, body, Snapshot(), f);
        err := VisitNodes(body, f - 1);
        if err.Some? {
          return;
        }
        f := f - 1;
      }
      return None;
    }

    /**
     * `Interpreter::visit(const Program *)`: zero the tape, put the cursor
     * on its first cell, visit the children, write a newline.
     */
    method VisitProgram(program: Program, fuel: nat) returns (err: Option<Error>)
      requires Valid()
      modifies this, memory
      ensures Valid()
      ensures Snapshot() == RunProgram(SignedPositive, program, old(Snapshot()), fuel).state
      ensures err == ErrorOf(RunProgram(SignedPositive, program, old(Snapshot()), fuel))
    {
      forall i | 0 <= i < memory.Length {
        memory[i] := 0;
      }
      ptr := 0;
      assert Snapshot() == Reset(old(Snapshot()));
      err := VisitNodes(program.children, fuel);
      if err.None? {
        output := output + [NewLine];
      }
    }
  }

  /** The error an outcome reports, if any. */
  function ErrorOf(o: Outcome): Option<Error>
  {
    if o.Ok? then None else Some(o.error)
  }

  /** Every child of a container is smaller than the container's children together. */
  lemma {:induction false} NodeSizeBelow(ns: seq<Node>, i: nat)
    requires i < |ns|
    ensures NodeSize(ns[i]) < NodesSize(ns)
  {
    if i > 0 {
      NodeSizeBelow(ns[1..], i - 1);
    }
  }

  /** Running the children from the `i`-th on is running the `i`-th, then the rest. */
  lemma ExecNodesStep(ns: seq<Node>, i: nat, st: State, fuel: nat)
    requires i < |ns| && Valid(st)
    ensures ExecNodes(SignedPositive, ns[i..], st, fuel) ==
      match ExecNode(SignedPositive, ns[i], st, fuel)
      case Fail(e, at) => Fail(e, at)
      case Ok(next) => ExecNodes(SignedPositive, ns[i + 1..], next, fuel)
  {
    assert ns[i..][0] == ns[i] && ns[i..][1..] == ns[i + 1..];
  }
}
