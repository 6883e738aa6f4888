/** The tape machine (the second loop of `eval` in tri.cxx): a sparse tape
    of 16-bit cells, a 16-bit data pointer and a 16-bit instruction pointer,
    run until the instruction pointer leaves the program. */
module Machine {
  import opened Words
  import opened Instructions
  import opened Resolve

  /** Machine state: the tape (absent cells read 0), the data pointer, the
      instruction pointer and the bytes written to standard output so far. */
  datatype State = State(tape: map<Word, Word>, dataPtr: Word, instPtr: Word, out: seq<Byte>)

  /** Fresh tape, both pointers 0, nothing written. */
  const Initial: State := State(map[], 0, 0, [])

  /** How a bounded run ends: the loop exits (with the final instruction
      pointer, which `eval` reports on standard error), or the step budget
      runs out first. */
  datatype Outcome = Halted(out: seq<Byte>, instPtr: Word) | OutOfFuel(out: seq<Byte>)

  /** `tape[data_ptr]`: a cell never written reads 0. */
  function Read(tape: map<Word, Word>, a: Word): (v: Word)
    ensures a !in tape ==> v == 0
    ensures a in tape ==> v == tape[a]
  {
    if a in tape then tape[a] else 0
  }

  /** A write to one cell is seen by a read of that cell and by no other. */
  lemma ReadAfterWrite(tape: map<Word, Word>, a: Word, v: Word, b: Word)
    ensures Read(tape[a := v], b) == if a == b then v else Read(tape, b)
  {
  }

  function Repeat(b: Byte, n: nat): (r: seq<Byte>)
    ensures |r| == n && forall k :: 0 <= k < n ==> r[k] == b
  {
    seq(n, _ => b)
  }

  /** `inst_ptr++` on a 16-bit pointer. */
  function Next(ip: Word): (n: Word)
    ensures ip < Modulus - 1 ==> n == ip + 1
    ensures ip == Modulus - 1 ==> n == 0
  {
    Wrap(ip + 1)
  }

  /** One iteration of the machine loop. Only the current cell may change,
      and output is only ever appended. */
  function Step(prog: seq<Instr>, s: State): (r: State)
    requires s.instPtr < |prog|
    ensures forall a :: a != s.dataPtr ==> Read(r.tape, a) == Read(s.tape, a)
    ensures s.out <= r.out
  {
    var instr := prog[s.instPtr];
    var cell := Read(s.tape, s.dataPtr);
    match instr.op
    case '+' => s.(tape := s.tape[s.dataPtr := Wrap(cell + instr.arg)], instPtr := Next(s.instPtr))
    case '-' => s.(tape := s.tape[s.dataPtr := Wrap(cell - instr.arg)], instPtr := Next(s.instPtr))
    case '>' => s.(dataPtr := Wrap(s.dataPtr + instr.arg), instPtr := Next(s.instPtr))
    case '<' => s.(dataPtr := Wrap(s.dataPtr - instr.arg), instPtr := Next(s.instPtr))
    case '.' => s.(out := s.out + Repeat(LowByte(cell), instr.arg), instPtr := Next(s.instPtr))
    case '[' => s.(instPtr := if cell == 0 then Wrap(s.instPtr + instr.arg) else Next(s.instPtr))
    case ']' => s.(instPtr := if cell != 0 then Wrap(s.instPtr - instr.arg) else Next(s.instPtr))
    case _ => s.(instPtr := Next(s.instPtr))
  }

  /** At most `fuel` iterations of the machine loop from `s`. The loop stops
      exactly when the instruction pointer is at or past the end. */
  function Run(prog: seq<Instr>, s: State, fuel: nat): (r: Outcome)
    ensures r.Halted? ==> r.instPtr >= |prog|
    ensures s.out <= r.out
    decreases fuel
  {
    if s.instPtr >= |prog| then Halted(s.out, s.instPtr)
    else if fuel == 0 then OutOfFuel(s.out)
    else Run(prog, Step(prog, s), fuel - 1)
  }

  /** The machine loop of `eval`, with the tape, the two pointers and the
      output as local state. */
  method Execute(prog: seq<Instr>, fuel: nat) returns (r: Outcome)
    ensures r == Run(prog, Initial, fuel)
  {
    var tape: map<Word, Word> := map[];
    var dataPtr: Word := 0;
    var instPtr: Word := 0;
    var out: seq<Byte> := [];
    var steps := fuel;
    while instPtr < |prog| && steps > 0
      invariant Run(prog, State(tape, dataPtr, instPtr, out), steps) == Run(prog, Initial, fuel)
      decreases steps
    {
      tape, dataPtr, instPtr, out := ExecuteOne(prog, tape, dataPtr, instPtr, out);
      steps := steps - 1;
    }
    if instPtr < |prog| {
      r := OutOfFuel(out);
    } else {
      r := Halted(out, instPtr);
    }
  }

  /** The body of the machine loop: dispatch on the current operator. */
  method ExecuteOne(prog: seq<Instr>, tape: map<Word, Word>, dataPtr: Word, instPtr: Word, out: seq<Byte>)
    returns (tape': map<Word, Word>, dataPtr': Word, instPtr': Word, out': seq<Byte>)
    requires instPtr < |prog|
    ensures State(tape', dataPtr', instPtr', out') == Step(prog, State(tape, dataPtr, instPtr, out))
  {
    var instr := prog[instPtr];
    var cell := Read(tape, dataPtr);
    tape', dataPtr', instPtr', out' := tape, dataPtr, Wrap(instPtr + 1), out;
    match instr.op {
    case '+' =>
      tape' := tape[dataPtr := Wrap(cell + instr.arg)];
    case '-' =>
      tape' := tape[dataPtr := Wrap(cell - instr.arg)];
    case '>' =>
      dataPtr' := Wrap(dataPtr + instr.arg);
    case '<' =>
      dataPtr' := Wrap(dataPtr - instr.arg);
    case '.' =>
      out' := Emit(out, LowByte(cell), instr.arg);
    case '[' =>
      if cell == 0 {
        instPtr' := Wrap(instPtr + instr.arg);
      }
    case ']' =>
      if cell != 0 {
        instPtr' := Wrap(instPtr - instr.arg);
      }
    case _ =>
    }
  }

  /** The inner loop of `.`: write the byte `b` to the output `n` times. */
  method Emit(out: seq<Byte>, b: Byte, n: nat) returns (out': seq<Byte>)
    ensures |out'| == |out| + n
    ensures out' == out + Repeat(b, n)
  {
    out' := out;
    var i := 0;
    while i < n
      invariant 0 <= i <= n
      invariant out' == out + Repeat(b, i)
    {
      out' := out' + [b];
      i := i + 1;
    }
  }

  // ---------------------------------------------------------------------
  // Properties of a step

  /** What one step does, per operator: `+`/`-` change the current cell by
      the argument modulo 2^16, `>`/`<` move the data pointer by the argument
      modulo 2^16, `.` writes the cell's low byte `arg` times, `[` jumps
      forward by `arg` on a zero cell, `]` jumps back by `arg` on a non-zero
      cell, and every other case (`,` and unknown operators included) only
      advances to the next instruction. */
  lemma StepSemantics(prog: seq<Instr>, s: State)
    requires s.instPtr < |prog|
    ensures var r := Step(prog, s);
      var instr := prog[s.instPtr];
      var cell := Read(s.tape, s.dataPtr);
      var cell' := Read(r.tape, s.dataPtr);
      && ((cell' - cell) % Modulus
          == (if instr.op == '+' then instr.arg % Modulus
              else if instr.op == '-' then (-(instr.arg as int)) % Modulus
              else 0))
      && ((r.dataPtr - s.dataPtr) % Modulus
          == (if instr.op == '>' then instr.arg % Modulus
              else if instr.op == '<' then (-(instr.arg as int)) % Modulus
              else 0))
      && r.out == s.out + (if instr.op == '.' then Repeat(LowByte(cell), instr.arg) else [])
      && r.instPtr == Wrap(s.instPtr + (
           if instr.op == '[' && cell == 0 then instr.arg
           else if instr.op == ']' && cell != 0 then -(instr.arg as int)
           else 1))
  {
    StepCell(prog, s);
    StepDataPtr(prog, s);
  }

  lemma StepCell(prog: seq<Instr>, s: State)
    requires s.instPtr < |prog|
    ensures var instr := prog[s.instPtr];
      (Read(Step(prog, s).tape, s.dataPtr) - Read(s.tape, s.dataPtr)) % Modulus
      == (if instr.op == '+' then instr.arg % Modulus
          else if instr.op == '-' then (-(instr.arg as int)) % Modulus
          else 0)
  {
    var instr := prog[s.instPtr];
    var cell := Read(s.tape, s.dataPtr);
    var cell' := Read(Step(prog, s).tape, s.dataPtr);
    if instr.op == '+' {
      assert cell' == Wrap(cell + instr.arg);
      WrapOffset(cell, instr.arg);
    } else if instr.op == '-' {
      assert cell' == Wrap(cell + -(instr.arg as int));
      WrapOffset(cell, -(instr.arg as int));
    } else {
      assert Read(Step(prog, s).tape, s.dataPtr) == cell;
    }
  }

  lemma StepDataPtr(prog: seq<Instr>, s: State)
    requires s.instPtr < |prog|
    ensures var instr := prog[s.instPtr];
      (Step(prog, s).dataPtr - s.dataPtr) % Modulus
      == (if instr.op == '>' then instr.arg % Modulus
          else if instr.op == '<' then (-(instr.arg as int)) % Modulus
          else 0)
  {
    var instr := prog[s.instPtr];
    if instr.op == '>' {
      assert Step(prog, s).dataPtr == Wrap(s.dataPtr + instr.arg);
      WrapOffset(s.dataPtr, instr.arg);
    } else if instr.op == '<' {
      assert Step(prog, s).dataPtr == Wrap(s.dataPtr + -(instr.arg as int));
      WrapOffset(s.dataPtr, -(instr.arg as int));
    }
  }

  /** A `+` run followed by a `-` run of the same count leaves the tape as
      it was (and likewise `>` then `<` for the data pointer): wrap-around
      arithmetic is undone exactly. */
  lemma AddThenSubtractRestores(prog: seq<Instr>, s: State, up: char, down: char)
    requires |prog| < Modulus && s.instPtr + 1 < |prog|
    requires (up == '+' && down == '-') || (up == '>' && down == '<')
    requires prog[s.instPtr].op == up && prog[s.instPtr + 1].op == down
    requires prog[s.instPtr].arg == prog[s.instPtr + 1].arg
    ensures var t := Step(prog, Step(prog, s));
      && (forall a :: Read(t.tape, a) == Read(s.tape, a))
      && t.dataPtr == s.dataPtr && t.out == s.out && t.instPtr == s.instPtr + 2
  {
    var r := Step(prog, s);
    var t := Step(prog, r);
    assert r.instPtr == s.instPtr + 1;
    if up == '+' {
      assert Read(t.tape, s.dataPtr) == Read(s.tape, s.dataPtr);
    }
  }

  // ---------------------------------------------------------------------
  // Properties of a run

  /** A run that halted within `f` steps gives the same result with any
      larger budget. */
  lemma {:induction false} RunMoreFuel(prog: seq<Instr>, s: State, f: nat, g: nat)
    requires f <= g && Run(prog, s, f).Halted?
    ensures Run(prog, s, g) == Run(prog, s, f)
    decreases f
  {
    if s.instPtr < |prog| {
      RunMoreFuel(prog, Step(prog, s), f - 1, g - 1);
    }
  }

  /** More fuel never takes back output: the output of a shorter run is a
      prefix of the output of a longer one. */
  lemma {:induction false} RunOutputGrows(prog: seq<Instr>, s: State, f: nat, g: nat)
    requires f <= g
    ensures Run(prog, s, f).out <= Run(prog, s, g).out
    decreases f
  {
    if s.instPtr < |prog| && f > 0 {
      RunOutputGrows(prog, Step(prog, s), f - 1, g - 1);
    }
  }

  /** With jumps that stay inside a program of fewer than 2^16 slots, a step
      from inside the program lands at most one past its end. */
  lemma StepStaysInRange(prog: seq<Instr>, s: State)
    requires JumpsInRange(prog) && |prog| < Modulus && s.instPtr < |prog|
    ensures Step(prog, s).instPtr <= |prog|
  {
    assert prog[s.instPtr].op == '[' ==> s.instPtr + prog[s.instPtr].arg <= |prog| - 1;
    assert prog[s.instPtr].op == ']' ==> s.instPtr - prog[s.instPtr].arg >= 1;
  }

  /** Under the same conditions a halted run stops with the instruction
      pointer exactly at the end of the program. */
  lemma {:induction false} RunHaltsAtEnd(prog: seq<Instr>, s: State, fuel: nat)
    requires JumpsInRange(prog) && |prog| < Modulus && s.instPtr <= |prog|
    ensures Run(prog, s, fuel).Halted? ==> Run(prog, s, fuel).instPtr == |prog|
    decreases fuel
  {
    if s.instPtr < |prog| && fuel > 0 {
      StepStaysInRange(prog, s);
      RunHaltsAtEnd(prog, Step(prog, s), fuel - 1);
    }
  }

  /** The loop round trip on a matched pair `[`@i / `]`@j: at `i` a zero
      cell jumps to `j` and any other value enters the body at `i + 1`; at
      `j` a non-zero cell jumps back to `i` (to 1 when `i` is 0) and a zero
      cell leaves the loop at `j + 1`. */
  lemma LoopRoundTrip(p: seq<Instr>, i: int, j: int, s: State)
    requires NoLeadingClose(p) && IsMatch(p, i, j) && |p| < Modulus
    ensures var cell := Read(s.tape, s.dataPtr);
      && (s.instPtr == i ==> Step(Resolved(p), s).instPtr == if cell == 0 then j else i + 1)
      && (s.instPtr == j ==> Step(Resolved(p), s).instPtr
                             == if cell == 0 then j + 1 else if i >= 1 then i else 1)
  {
    ResolvedMatchedPair(p, i, j);
    var r := Resolved(p);
    if s.instPtr == i || s.instPtr == j {
      StepSemantics(r, s);
    }
  }

  /** On the blank tape, a first `[` with argument `d` jumps to `d`. */
  lemma FirstJump(prog: seq<Instr>, d: Word)
    requires |prog| > 0 && prog[0] == Instr('[', d)
    ensures Step(prog, Initial).instPtr == d
  {
    assert Read(Initial.tape, Initial.dataPtr) == 0;
  }
}
