/** End-to-end runs of `eval` on small sources, computed through every
    stage of the pipeline. */
module Traces {
  import opened Instructions
  import opened Rle
  import opened Scan
  import opened Resolve
  import opened Machine
  import opened Interpreter

  /** `+++.` writes the byte 3. */
  lemma TracePlusDot()
    ensures EvalSpec("+++.", 10) == Success(Halted([3], 2))
  {
    TracePlusDotReduced(Parsed("+++."));
    TracePlusDotResolved([Instr('+', 3), Instr('.', 1)]);
    TracePlusDotRun([Instr('+', 3), Instr('.', 1)]);
  }

  lemma TracePlusDotRun(prog: seq<Instr>)
    requires prog == [Instr('+', 3), Instr('.', 1)]
    ensures Run(prog, Initial, 10) == Halted([3], 2)
  {
    calc {
      Run(prog, Initial, 10);
      { assert prog[0] == Instr('+', 3) && Read(map[], 0) == 0;
        assert Step(prog, Initial) == State(map[0 := 3], 0, 1, []); }
      Run(prog, State(map[0 := 3], 0, 1, []), 9);
      { assert prog[1] == Instr('.', 1) && Read(map[0 := 3], 0) == 3;
        assert Step(prog, State(map[0 := 3], 0, 1, [])) == State(map[0 := 3], 0, 2, [3]); }
      Run(prog, State(map[0 := 3], 0, 2, [3]), 8);
      Halted([3], 2);
    }
  }

  lemma TracePlusDotReduced(program: seq<Instr>)
    requires program == Parsed("+++.")
    ensures Reduce(program) == Success([Instr('+', 3), Instr('.', 1)])
  {
    assert program == [Instr('+', 1), Instr('+', 1), Instr('+', 1), Instr('.', 1)];
    calc {
      Reduce(program);
      { assert program[0..] == program; }
      Success(Fold([Instr('+', 0)], program[0..]));
      { assert program[0..][1..] == program[1..]; assert Absorb([Instr('+', 0)], program[0]) == [Instr('+', 1)]; }
      Success(Fold([Instr('+', 1)], program[1..]));
      { assert program[1..][1..] == program[2..]; assert Absorb([Instr('+', 1)], program[1]) == [Instr('+', 2)]; }
      Success(Fold([Instr('+', 2)], program[2..]));
      { assert program[2..][1..] == program[3..]; assert Absorb([Instr('+', 2)], program[2]) == [Instr('+', 3)]; }
      Success(Fold([Instr('+', 3)], program[3..]));
      { assert program[3..][1..] == program[4..]; assert Absorb([Instr('+', 3)], program[3]) == [Instr('+', 3), Instr('.', 1)]; }
      Success(Fold([Instr('+', 3), Instr('.', 1)], program[4..]));
      { assert program[4..] == []; }
      Success([Instr('+', 3), Instr('.', 1)]);
    }
  }

  lemma TracePlusDotResolved(rle: seq<Instr>)
    requires rle == [Instr('+', 3), Instr('.', 1)]
    ensures Resolved(rle) == [Instr('+', 3), Instr('.', 1)]
  {
    assert forall i :: 0 <= i < |rle| ==> Resolved(rle)[i] == [Instr('+', 3), Instr('.', 1)][i];
  }

  /** `++>+.<.` writes 1 from cell 1, then 2 from cell 0. */
  lemma TraceTwoCells()
    ensures EvalSpec("++>+.<.", 10) == Success(Halted([1, 2], 6))
  {
    TraceTwoCellsReduced(Parsed("++>+.<."));
    TraceTwoCellsResolved([Instr('+', 2), Instr('>', 1), Instr('+', 1), Instr('.', 1), Instr('<', 1), Instr('.', 1)]);
    TraceTwoCellsRun([Instr('+', 2), Instr('>', 1), Instr('+', 1), Instr('.', 1), Instr('<', 1), Instr('.', 1)]);
  }

  lemma TraceTwoCellsRun(prog: seq<Instr>)
    requires prog == [Instr('+', 2), Instr('>', 1), Instr('+', 1), Instr('.', 1), Instr('<', 1), Instr('.', 1)]
    ensures Run(prog, Initial, 10) == Halted([1, 2], 6)
  {
    TraceTwoCellsRunFrom2(prog);
    calc {
      Run(prog, Initial, 10);
      { assert prog[0] == Instr('+', 2) && Read(map[], 0) == 0;
        assert Step(prog, Initial) == State(map[0 := 2], 0, 1, []); }
      Run(prog, State(map[0 := 2], 0, 1, []), 9);
      { assert prog[1] == Instr('>', 1) && Read(map[0 := 2], 0) == 2;
        assert Step(prog, State(map[0 := 2], 0, 1, [])) == State(map[0 := 2], 1, 2, []); }
      Run(prog, State(map[0 := 2], 1, 2, []), 8);
      Halted([1, 2], 6);
    }
  }

  lemma TraceTwoCellsRunFrom2(prog: seq<Instr>)
    requires prog == [Instr('+', 2), Instr('>', 1), Instr('+', 1), Instr('.', 1), Instr('<', 1), Instr('.', 1)]
    ensures Run(prog, State(map[0 := 2], 1, 2, []), 8) == Halted([1, 2], 6)
  {
    TraceTwoCellsRunFrom4(prog);
    calc {
      Run(prog, State(map[0 := 2], 1, 2, []), 8);
      { assert prog[2] == Instr('+', 1) && Read(map[0 := 2], 1) == 0;
        assert Step(prog, State(map[0 := 2], 1, 2, [])) == State(map[0 := 2, 1 := 1], 1, 3, []); }
      Run(prog, State(map[0 := 2, 1 := 1], 1, 3, []), 7);
      { assert prog[3] == Instr('.', 1) && Read(map[0 := 2, 1 := 1], 1) == 1;
        assert Step(prog, State(map[0 := 2, 1 := 1], 1, 3, [])) == State(map[0 := 2, 1 := 1], 1, 4, [1]); }
      Run(prog, State(map[0 := 2, 1 := 1], 1, 4, [1]), 6);
      Halted([1, 2], 6);
    }
  }

  lemma TraceTwoCellsRunFrom4(prog: seq<Instr>)
    requires prog == [Instr('+', 2), Instr('>', 1), Instr('+', 1), Instr('.', 1), Instr('<', 1), Instr('.', 1)]
    ensures Run(prog, State(map[0 := 2, 1 := 1], 1, 4, [1]), 6) == Halted([1, 2], 6)
  {
    calc {
      Run(prog, State(map[0 := 2, 1 := 1], 1, 4, [1]), 6);
      { assert prog[4] == Instr('<', 1) && Read(map[0 := 2, 1 := 1], 1) == 1;
        assert Step(prog, State(map[0 := 2, 1 := 1], 1, 4, [1])) == State(map[0 := 2, 1 := 1], 0, 5, [1]); }
      Run(prog, State(map[0 := 2, 1 := 1], 0, 5, [1]), 5);
      { assert prog[5] == Instr('.', 1) && Read(map[0 := 2, 1 := 1], 0) == 2;
        assert Step(prog, State(map[0 := 2, 1 := 1], 0, 5, [1])) == State(map[0 := 2, 1 := 1], 0, 6, [1, 2]); }
      Run(prog, State(map[0 := 2, 1 := 1], 0, 6, [1, 2]), 4);
      Halted([1, 2], 6);
    }
  }

  lemma TraceTwoCellsReduced(program: seq<Instr>)
    requires program == Parsed("++>+.<.")
    ensures Reduce(program) == Success([Instr('+', 2), Instr('>', 1), Instr('+', 1), Instr('.', 1), Instr('<', 1), Instr('.', 1)])
  {
    assert program == [Instr('+', 1), Instr('+', 1), Instr('>', 1), Instr('+', 1), Instr('.', 1), Instr('<', 1), Instr('.', 1)];
    calc {
      Reduce(program);
      { assert program[0..] == program; }
      Success(Fold([Instr('+', 0)], program[0..]));
      { assert program[0..][1..] == program[1..]; assert Absorb([Instr('+', 0)], program[0]) == [Instr('+', 1)]; }
      Success(Fold([Instr('+', 1)], program[1..]));
      { assert program[1..][1..] == program[2..]; assert Absorb([Instr('+', 1)], program[1]) == [Instr('+', 2)]; }
      Success(Fold([Instr('+', 2)], program[2..]));
      { assert program[2..][1..] == program[3..]; assert Absorb([Instr('+', 2)], program[2]) == [Instr('+', 2), Instr('>', 1)]; }
      Success(Fold([Instr('+', 2), Instr('>', 1)], program[3..]));
      { assert program[3..][1..] == program[4..]; assert Absorb([Instr('+', 2), Instr('>', 1)], program[3]) == [Instr('+', 2), Instr('>', 1), Instr('+', 1)]; }
      Success(Fold([Instr('+', 2), Instr('>', 1), Instr('+', 1)], program[4..]));
      { assert program[4..][1..] == program[5..]; assert Absorb([Instr('+', 2), Instr('>', 1), Instr('+', 1)], program[4]) == [Instr('+', 2), Instr('>', 1), Instr('+', 1), Instr('.', 1)]; }
      Success(Fold([Instr('+', 2), Instr('>', 1), Instr('+', 1), Instr('.', 1)], program[5..]));
      { assert program[5..][1..] == program[6..]; assert Absorb([Instr('+', 2), Instr('>', 1), Instr('+', 1), Instr('.', 1)], program[5]) == [Instr('+', 2), Instr('>', 1), Instr('+', 1), Instr('.', 1), Instr('<', 1)]; }
      Success(Fold([Instr('+', 2), Instr('>', 1), Instr('+', 1), Instr('.', 1), Instr('<', 1)], program[6..]));
      { assert program[6..][1..] == program[7..]; assert Absorb([Instr('+', 2), Instr('>', 1), Instr('+', 1), Instr('.', 1), Instr('<', 1)], program[6]) == [Instr('+', 2), Instr('>', 1), Instr('+', 1), Instr('.', 1), Instr('<', 1), Instr('.', 1)]; }
      Success(Fold([Instr('+', 2), Instr('>', 1), Instr('+', 1), Instr('.', 1), Instr('<', 1), Instr('.', 1)], program[7..]));
      { assert program[7..] == []; }
      Success([Instr('+', 2), Instr('>', 1), Instr('+', 1), Instr('.', 1), Instr('<', 1), Instr('.', 1)]);
    }
  }

  lemma TraceTwoCellsResolved(rle: seq<Instr>)
    requires rle == [Instr('+', 2), Instr('>', 1), Instr('+', 1), Instr('.', 1), Instr('<', 1), Instr('.', 1)]
    ensures Resolved(rle) == [Instr('+', 2), Instr('>', 1), Instr('+', 1), Instr('.', 1), Instr('<', 1), Instr('.', 1)]
  {
    assert forall i :: 0 <= i < |rle| ==> Resolved(rle)[i] == [Instr('+', 2), Instr('>', 1), Instr('+', 1), Instr('.', 1), Instr('<', 1), Instr('.', 1)][i];
  }

  /** Comment characters vanish: `+hi+.` behaves as `++.`. */
  lemma TraceComments()
    ensures EvalSpec("+hi+.", 10) == Success(Halted([2], 2))
  {
    TraceCommentsReduced(Parsed("+hi+."));
    TraceCommentsResolved([Instr('+', 2), Instr('.', 1)]);
    TraceCommentsRun([Instr('+', 2), Instr('.', 1)]);
  }

  lemma TraceCommentsRun(prog: seq<Instr>)
    requires prog == [Instr('+', 2), Instr('.', 1)]
    ensures Run(prog, Initial, 10) == Halted([2], 2)
  {
    calc {
      Run(prog, Initial, 10);
      { assert prog[0] == Instr('+', 2) && Read(map[], 0) == 0;
        assert Step(prog, Initial) == State(map[0 := 2], 0, 1, []); }
      Run(prog, State(map[0 := 2], 0, 1, []), 9);
      { assert prog[1] == Instr('.', 1) && Read(map[0 := 2], 0) == 2;
        assert Step(prog, State(map[0 := 2], 0, 1, [])) == State(map[0 := 2], 0, 2, [2]); }
      Run(prog, State(map[0 := 2], 0, 2, [2]), 8);
      Halted([2], 2);
    }
  }

  lemma TraceCommentsReduced(program: seq<Instr>)
    requires program == Parsed("+hi+.")
    ensures Reduce(program) == Success([Instr('+', 2), Instr('.', 1)])
  {
    assert program == [Instr('+', 1), Instr('h', 1), Instr('i', 1), Instr('+', 1), Instr('.', 1)];
    calc {
      Reduce(program);
      { assert program[0..] == program; }
      Success(Fold([Instr('+', 0)], program[0..]));
      { assert program[0..][1..] == program[1..]; assert Absorb([Instr('+', 0)], program[0]) == [Instr('+', 1)]; }
      Success(Fold([Instr('+', 1)], program[1..]));
      { assert program[1..][1..] == program[2..]; assert Absorb([Instr('+', 1)], program[1]) == [Instr('+', 1)]; }
      Success(Fold([Instr('+', 1)], program[2..]));
      { assert program[2..][1..] == program[3..]; assert Absorb([Instr('+', 1)], program[2]) == [Instr('+', 1)]; }
      Success(Fold([Instr('+', 1)], program[3..]));
      { assert program[3..][1..] == program[4..]; assert Absorb([Instr('+', 1)], program[3]) == [Instr('+', 2)]; }
      Success(Fold([Instr('+', 2)], program[4..]));
      { assert program[4..][1..] == program[5..]; assert Absorb([Instr('+', 2)], program[4]) == [Instr('+', 2), Instr('.', 1)]; }
      Success(Fold([Instr('+', 2), Instr('.', 1)], program[5..]));
      { assert program[5..] == []; }
      Success([Instr('+', 2), Instr('.', 1)]);
    }
  }

  lemma TraceCommentsResolved(rle: seq<Instr>)
    requires rle == [Instr('+', 2), Instr('.', 1)]
    ensures Resolved(rle) == [Instr('+', 2), Instr('.', 1)]
  {
    assert forall i :: 0 <= i < |rle| ==> Resolved(rle)[i] == [Instr('+', 2), Instr('.', 1)][i];
  }

  /** `[-]` on a zero cell writes nothing; the duplicated leading `[` jumps
      to the last instruction. */
  lemma TraceSkippedLoop()
    ensures EvalSpec("[-]", 10) == Success(Halted([], 4))
  {
    TraceSkippedLoopReduced(Parsed("[-]"));
    TraceSkippedLoopResolved([Instr('[', 0), Instr('[', 1), Instr('-', 1), Instr(']', 1)]);
    TraceSkippedLoopRun([Instr('[', 3), Instr('[', 2), Instr('-', 1), Instr(']', 2)]);
  }

  lemma TraceSkippedLoopRun(prog: seq<Instr>)
    requires prog == [Instr('[', 3), Instr('[', 2), Instr('-', 1), Instr(']', 2)]
    ensures Run(prog, Initial, 10) == Halted([], 4)
  {
    calc {
      Run(prog, Initial, 10);
      { assert prog[0] == Instr('[', 3) && Read(map[], 0) == 0;
        assert Step(prog, Initial) == State(map[], 0, 3, []); }
      Run(prog, State(map[], 0, 3, []), 9);
      { assert prog[3] == Instr(']', 2) && Read(map[], 0) == 0;
        assert Step(prog, State(map[], 0, 3, [])) == State(map[], 0, 4, []); }
      Run(prog, State(map[], 0, 4, []), 8);
      Halted([], 4);
    }
  }

  lemma TraceSkippedLoopReduced(program: seq<Instr>)
    requires program == Parsed("[-]")
    ensures Reduce(program) == Success([Instr('[', 0), Instr('[', 1), Instr('-', 1), Instr(']', 1)])
  {
    assert program == [Instr('[', 1), Instr('-', 1), Instr(']', 1)];
    calc {
      Reduce(program);
      { assert program[0..] == program; }
      Success(Fold([Instr('[', 0)], program[0..]));
      { assert program[0..][1..] == program[1..]; assert Absorb([Instr('[', 0)], program[0]) == [Instr('[', 0), Instr('[', 1)]; }
      Success(Fold([Instr('[', 0), Instr('[', 1)], program[1..]));
      { assert program[1..][1..] == program[2..]; assert Absorb([Instr('[', 0), Instr('[', 1)], program[1]) == [Instr('[', 0), Instr('[', 1), Instr('-', 1)]; }
      Success(Fold([Instr('[', 0), Instr('[', 1), Instr('-', 1)], program[2..]));
      { assert program[2..][1..] == program[3..]; assert Absorb([Instr('[', 0), Instr('[', 1), Instr('-', 1)], program[2]) == [Instr('[', 0), Instr('[', 1), Instr('-', 1), Instr(']', 1)]; }
      Success(Fold([Instr('[', 0), Instr('[', 1), Instr('-', 1), Instr(']', 1)], program[3..]));
      { assert program[3..] == []; }
      Success([Instr('[', 0), Instr('[', 1), Instr('-', 1), Instr(']', 1)]);
    }
  }

  lemma TraceSkippedLoopResolved(rle: seq<Instr>)
    requires rle == [Instr('[', 0), Instr('[', 1), Instr('-', 1), Instr(']', 1)]
    ensures Resolved(rle) == [Instr('[', 3), Instr('[', 2), Instr('-', 1), Instr(']', 2)]
  {
    TraceSkippedLoopResolvedAt0(rle);
    TraceSkippedLoopResolvedAt1(rle);
    TraceSkippedLoopResolvedAt3(rle);
    assert forall i :: 0 <= i < |rle| ==> Resolved(rle)[i] == [Instr('[', 3), Instr('[', 2), Instr('-', 1), Instr(']', 2)][i];
  }

  lemma TraceSkippedLoopResolvedAt0(rle: seq<Instr>)
    requires rle == [Instr('[', 0), Instr('[', 1), Instr('-', 1), Instr(']', 1)]
    ensures ResolveAt(rle, 0) == Instr('[', 3)
  {
    assert Slots(rle, 4, 4, 1) == [];
    assert Slots(rle, 3, 4, 1) == [']'];
    assert Slots(rle, 2, 4, 1) == ['-', ']'];
    assert Slots(rle, 1, 4, 1) == ['[', '-', ']'];
    assert ScanCount([], ']', '[', 0) == 0;
    assert ScanCount([']'], ']', '[', 1) == 1;
    assert ScanCount(['-', ']'], ']', '[', 1) == 2;
    assert ScanCount(['[', '-', ']'], ']', '[', 0) == 3;
  }

  lemma TraceSkippedLoopResolvedAt1(rle: seq<Instr>)
    requires rle == [Instr('[', 0), Instr('[', 1), Instr('-', 1), Instr(']', 1)]
    ensures ResolveAt(rle, 1) == Instr('[', 2)
  {
    assert Slots(rle, 4, 4, 1) == [];
    assert Slots(rle, 3, 4, 1) == [']'];
    assert Slots(rle, 2, 4, 1) == ['-', ']'];
    assert ScanCount([']'], ']', '[', 0) == 1;
    assert ScanCount(['-', ']'], ']', '[', 0) == 2;
  }

  lemma TraceSkippedLoopResolvedAt3(rle: seq<Instr>)
    requires rle == [Instr('[', 0), Instr('[', 1), Instr('-', 1), Instr(']', 1)]
    ensures ResolveAt(rle, 3) == Instr(']', 2)
  {
    assert Slots(rle, 0, 0, -1) == [];
    assert Slots(rle, 1, 0, -1) == ['['];
    assert Slots(rle, 2, 0, -1) == ['-', '['];
    assert ScanCount(['['], '[', ']', 0) == 1;
    assert ScanCount(['-', '['], '[', ']', 0) == 2;
  }

  /** In `+++[-.]` the decrement comes before the output: 2, 1, 0. */
  lemma TraceCountdown()
    ensures EvalSpec("+++[-.]", 20) == Success(Halted([2, 1, 0], 5))
  {
    TraceCountdownReduced(Parsed("+++[-.]"));
    TraceCountdownResolved([Instr('+', 3), Instr('[', 1), Instr('-', 1), Instr('.', 1), Instr(']', 1)]);
    TraceCountdownRun([Instr('+', 3), Instr('[', 3), Instr('-', 1), Instr('.', 1), Instr(']', 3)]);
  }

  lemma TraceCountdownRun(prog: seq<Instr>)
    requires prog == [Instr('+', 3), Instr('[', 3), Instr('-', 1), Instr('.', 1), Instr(']', 3)]
    ensures Run(prog, Initial, 20) == Halted([2, 1, 0], 5)
  {
    TraceCountdownRunFrom2(prog);
    calc {
      Run(prog, Initial, 20);
      { assert prog[0] == Instr('+', 3) && Read(map[], 0) == 0;
        assert Step(prog, Initial) == State(map[0 := 3], 0, 1, []); }
      Run(prog, State(map[0 := 3], 0, 1, []), 19);
      { assert prog[1] == Instr('[', 3) && Read(map[0 := 3], 0) == 3;
        assert Step(prog, State(map[0 := 3], 0, 1, [])) == State(map[0 := 3], 0, 2, []); }
      Run(prog, State(map[0 := 3], 0, 2, []), 18);
      Halted([2, 1, 0], 5);
    }
  }

  lemma TraceCountdownRunFrom2(prog: seq<Instr>)
    requires prog == [Instr('+', 3), Instr('[', 3), Instr('-', 1), Instr('.', 1), Instr(']', 3)]
    ensures Run(prog, State(map[0 := 3], 0, 2, []), 18) == Halted([2, 1, 0], 5)
  {
    TraceCountdownRunFrom4(prog);
    calc {
      Run(prog, State(map[0 := 3], 0, 2, []), 18);
      { assert prog[2] == Instr('-', 1) && Read(map[0 := 3], 0) == 3;
        assert Step(prog, State(map[0 := 3], 0, 2, [])) == State(map[0 := 2], 0, 3, []); }
      Run(prog, State(map[0 := 2], 0, 3, []), 17);
      { assert prog[3] == Instr('.', 1) && Read(map[0 := 2], 0) == 2;
        assert Step(prog, State(map[0 := 2], 0, 3, [])) == State(map[0 := 2], 0, 4, [2]); }
      Run(prog, State(map[0 := 2], 0, 4, [2]), 16);
      Halted([2, 1, 0], 5);
    }
  }

  lemma TraceCountdownRunFrom4(prog: seq<Instr>)
    requires prog == [Instr('+', 3), Instr('[', 3), Instr('-', 1), Instr('.', 1), Instr(']', 3)]
    ensures Run(prog, State(map[0 := 2], 0, 4, [2]), 16) == Halted([2, 1, 0], 5)
  {
    TraceCountdownRunFrom6(prog);
    calc {
      Run(prog, State(map[0 := 2], 0, 4, [2]), 16);
      { assert prog[4] == Instr(']', 3) && Read(map[0 := 2], 0) == 2;
        assert Step(prog, State(map[0 := 2], 0, 4, [2])) == State(map[0 := 2], 0, 1, [2]); }
      Run(prog, State(map[0 := 2], 0, 1, [2]), 15);
      { assert prog[1] == Instr('[', 3) && Read(map[0 := 2], 0) == 2;
        assert Step(prog, State(map[0 := 2], 0, 1, [2])) == State(map[0 := 2], 0, 2, [2]); }
      Run(prog, State(map[0 := 2], 0, 2, [2]), 14);
      Halted([2, 1, 0], 5);
    }
  }

  lemma TraceCountdownRunFrom6(prog: seq<Instr>)
    requires prog == [Instr('+', 3), Instr('[', 3), Instr('-', 1), Instr('.', 1), Instr(']', 3)]
    ensures Run(prog, State(map[0 := 2], 0, 2, [2]), 14) == Halted([2, 1, 0], 5)
  {
    TraceCountdownRunFrom8(prog);
    calc {
      Run(prog, State(map[0 := 2], 0, 2, [2]), 14);
      { assert prog[2] == Instr('-', 1) && Read(map[0 := 2], 0) == 2;
        assert Step(prog, State(map[0 := 2], 0, 2, [2])) == State(map[0 := 1], 0, 3, [2]); }
      Run(prog, State(map[0 := 1], 0, 3, [2]), 13);
      { assert prog[3] == Instr('.', 1) && Read(map[0 := 1], 0) == 1;
        assert Step(prog, State(map[0 := 1], 0, 3, [2])) == State(map[0 := 1], 0, 4, [2, 1]); }
      Run(prog, State(map[0 := 1], 0, 4, [2, 1]), 12);
      Halted([2, 1, 0], 5);
    }
  }

  lemma TraceCountdownRunFrom8(prog: seq<Instr>)
    requires prog == [Instr('+', 3), Instr('[', 3), Instr('-', 1), Instr('.', 1), Instr(']', 3)]
    ensures Run(prog, State(map[0 := 1], 0, 4, [2, 1]), 12) == Halted([2, 1, 0], 5)
  {
    TraceCountdownRunFrom10(prog);
    calc {
      Run(prog, State(map[0 := 1], 0, 4, [2, 1]), 12);
      { assert prog[4] == Instr(']', 3) && Read(map[0 := 1], 0) == 1;
        assert Step(prog, State(map[0 := 1], 0, 4, [2, 1])) == State(map[0 := 1], 0, 1, [2, 1]); }
      Run(prog, State(map[0 := 1], 0, 1, [2, 1]), 11);
      { assert prog[1] == Instr('[', 3) && Read(map[0 := 1], 0) == 1;
        assert Step(prog, State(map[0 := 1], 0, 1, [2, 1])) == State(map[0 := 1], 0, 2, [2, 1]); }
      Run(prog, State(map[0 := 1], 0, 2, [2, 1]), 10);
      Halted([2, 1, 0], 5);
    }
  }

  lemma TraceCountdownRunFrom10(prog: seq<Instr>)
    requires prog == [Instr('+', 3), Instr('[', 3), Instr('-', 1), Instr('.', 1), Instr(']', 3)]
    ensures Run(prog, State(map[0 := 1], 0, 2, [2, 1]), 10) == Halted([2, 1, 0], 5)
  {
    TraceCountdownRunFrom12(prog);
    calc {
      Run(prog, State(map[0 := 1], 0, 2, [2, 1]), 10);
      { assert prog[2] == Instr('-', 1) && Read(map[0 := 1], 0) == 1;
        assert Step(prog, State(map[0 := 1], 0, 2, [2, 1])) == State(map[0 := 0], 0, 3, [2, 1]); }
      Run(prog, State(map[0 := 0], 0, 3, [2, 1]), 9);
      { assert prog[3] == Instr('.', 1) && Read(map[0 := 0], 0) == 0;
        assert Step(prog, State(map[0 := 0], 0, 3, [2, 1])) == State(map[0 := 0], 0, 4, [2, 1, 0]); }
      Run(prog, State(map[0 := 0], 0, 4, [2, 1, 0]), 8);
      Halted([2, 1, 0], 5);
    }
  }

  lemma TraceCountdownRunFrom12(prog: seq<Instr>)
    requires prog == [Instr('+', 3), Instr('[', 3), Instr('-', 1), Instr('.', 1), Instr(']', 3)]
    ensures Run(prog, State(map[0 := 0], 0, 4, [2, 1, 0]), 8) == Halted([2, 1, 0], 5)
  {
    calc {
      Run(prog, State(map[0 := 0], 0, 4, [2, 1, 0]), 8);
      { assert prog[4] == Instr(']', 3) && Read(map[0 := 0], 0) == 0;
        assert Step(prog, State(map[0 := 0], 0, 4, [2, 1, 0])) == State(map[0 := 0], 0, 5, [2, 1, 0]); }
      Run(prog, State(map[0 := 0], 0, 5, [2, 1, 0]), 7);
      Halted([2, 1, 0], 5);
    }
  }

  lemma TraceCountdownReduced(program: seq<Instr>)
    requires program == Parsed("+++[-.]")
    ensures Reduce(program) == Success([Instr('+', 3), Instr('[', 1), Instr('-', 1), Instr('.', 1), Instr(']', 1)])
  {
    assert program == [Instr('+', 1), Instr('+', 1), Instr('+', 1), Instr('[', 1), Instr('-', 1), Instr('.', 1), Instr(']', 1)];
    calc {
      Reduce(program);
      { assert program[0..] == program; }
      Success(Fold([Instr('+', 0)], program[0..]));
      { assert program[0..][1..] == program[1..]; assert Absorb([Instr('+', 0)], program[0]) == [Instr('+', 1)]; }
      Success(Fold([Instr('+', 1)], program[1..]));
      { assert program[1..][1..] == program[2..]; assert Absorb([Instr('+', 1)], program[1]) == [Instr('+', 2)]; }
      Success(Fold([Instr('+', 2)], program[2..]));
      { assert program[2..][1..] == program[3..]; assert Absorb([Instr('+', 2)], program[2]) == [Instr('+', 3)]; }
      Success(Fold([Instr('+', 3)], program[3..]));
      { assert program[3..][1..] == program[4..]; assert Absorb([Instr('+', 3)], program[3]) == [Instr('+', 3), Instr('[', 1)]; }
      Success(Fold([Instr('+', 3), Instr('[', 1)], program[4..]));
      { assert program[4..][1..] == program[5..]; assert Absorb([Instr('+', 3), Instr('[', 1)], program[4]) == [Instr('+', 3), Instr('[', 1), Instr('-', 1)]; }
      Success(Fold([Instr('+', 3), Instr('[', 1), Instr('-', 1)], program[5..]));
      { assert program[5..][1..] == program[6..]; assert Absorb([Instr('+', 3), Instr('[', 1), Instr('-', 1)], program[5]) == [Instr('+', 3), Instr('[', 1), Instr('-', 1), Instr('.', 1)]; }
      Success(Fold([Instr('+', 3), Instr('[', 1), Instr('-', 1), Instr('.', 1)], program[6..]));
      { assert program[6..][1..] == program[7..]; assert Absorb([Instr('+', 3), Instr('[', 1), Instr('-', 1), Instr('.', 1)], program[6]) == [Instr('+', 3), Instr('[', 1), Instr('-', 1), Instr('.', 1), Instr(']', 1)]; }
      Success(Fold([Instr('+', 3), Instr('[', 1), Instr('-', 1), Instr('.', 1), Instr(']', 1)], program[7..]));
      { assert program[7..] == []; }
      Success([Instr('+', 3), Instr('[', 1), Instr('-', 1), Instr('.', 1), Instr(']', 1)]);
    }
  }

  lemma TraceCountdownResolved(rle: seq<Instr>)
    requires rle == [Instr('+', 3), Instr('[', 1), Instr('-', 1), Instr('.', 1), Instr(']', 1)]
    ensures Resolved(rle) == [Instr('+', 3), Instr('[', 3), Instr('-', 1), Instr('.', 1), Instr(']', 3)]
  {
    TraceCountdownResolvedAt1(rle);
    TraceCountdownResolvedAt4(rle);
    assert forall i :: 0 <= i < |rle| ==> Resolved(rle)[i] == [Instr('+', 3), Instr('[', 3), Instr('-', 1), Instr('.', 1), Instr(']', 3)][i];
  }

  lemma TraceCountdownResolvedAt1(rle: seq<Instr>)
    requires rle == [Instr('+', 3), Instr('[', 1), Instr('-', 1), Instr('.', 1), Instr(']', 1)]
    ensures ResolveAt(rle, 1) == Instr('[', 3)
  {
    assert Slots(rle, 5, 5, 1) == [];
    assert Slots(rle, 4, 5, 1) == [']'];
    assert Slots(rle, 3, 5, 1) == ['.', ']'];
    assert Slots(rle, 2, 5, 1) == ['-', '.', ']'];
    assert ScanCount([']'], ']', '[', 0) == 1;
    assert ScanCount(['.', ']'], ']', '[', 0) == 2;
    assert ScanCount(['-', '.', ']'], ']', '[', 0) == 3;
  }

  lemma TraceCountdownResolvedAt4(rle: seq<Instr>)
    requires rle == [Instr('+', 3), Instr('[', 1), Instr('-', 1), Instr('.', 1), Instr(']', 1)]
    ensures ResolveAt(rle, 4) == Instr(']', 3)
  {
    assert Slots(rle, 0, 0, -1) == [];
    assert Slots(rle, 1, 0, -1) == ['['];
    assert Slots(rle, 2, 0, -1) == ['-', '['];
    assert Slots(rle, 3, 0, -1) == ['.', '-', '['];
    assert ScanCount(['['], '[', ']', 0) == 1;
    assert ScanCount(['-', '['], '[', ']', 0) == 2;
    assert ScanCount(['.', '-', '['], '[', ']', 0) == 3;
  }

  /** In `[-]+.` the duplicated leading `[` is unmatched and jumps straight
      to the final `.`, which writes the untouched 0. */
  lemma TraceLeadingBracket()
    ensures EvalSpec("[-]+.", 10) == Success(Halted([0], 6))
  {
    TraceLeadingBracketReduced(Parsed("[-]+."));
    TraceLeadingBracketResolved([Instr('[', 0), Instr('[', 1), Instr('-', 1), Instr(']', 1), Instr('+', 1), Instr('.', 1)]);
    TraceLeadingBracketRun([Instr('[', 5), Instr('[', 2), Instr('-', 1), Instr(']', 2), Instr('+', 1), Instr('.', 1)]);
  }

  lemma TraceLeadingBracketRun(prog: seq<Instr>)
    requires prog == [Instr('[', 5), Instr('[', 2), Instr('-', 1), Instr(']', 2), Instr('+', 1), Instr('.', 1)]
    ensures Run(prog, Initial, 10) == Halted([0], 6)
  {
    calc {
      Run(prog, Initial, 10);
      { assert prog[0] == Instr('[', 5) && Read(map[], 0) == 0;
        assert Step(prog, Initial) == State(map[], 0, 5, []); }
      Run(prog, State(map[], 0, 5, []), 9);
      { assert prog[5] == Instr('.', 1) && Read(map[], 0) == 0;
        assert Step(prog, State(map[], 0, 5, [])) == State(map[], 0, 6, [0]); }
      Run(prog, State(map[], 0, 6, [0]), 8);
      Halted([0], 6);
    }
  }

  lemma TraceLeadingBracketReduced(program: seq<Instr>)
    requires program == Parsed("[-]+.")
    ensures Reduce(program) == Success([Instr('[', 0), Instr('[', 1), Instr('-', 1), Instr(']', 1), Instr('+', 1), Instr('.', 1)])
  {
    assert program == [Instr('[', 1), Instr('-', 1), Instr(']', 1), Instr('+', 1), Instr('.', 1)];
    calc {
      Reduce(program);
      { assert program[0..] == program; }
      Success(Fold([Instr('[', 0)], program[0..]));
      { assert program[0..][1..] == program[1..]; assert Absorb([Instr('[', 0)], program[0]) == [Instr('[', 0), Instr('[', 1)]; }
      Success(Fold([Instr('[', 0), Instr('[', 1)], program[1..]));
      { assert program[1..][1..] == program[2..]; assert Absorb([Instr('[', 0), Instr('[', 1)], program[1]) == [Instr('[', 0), Instr('[', 1), Instr('-', 1)]; }
      Success(Fold([Instr('[', 0), Instr('[', 1), Instr('-', 1)], program[2..]));
      { assert program[2..][1..] == program[3..]; assert Absorb([Instr('[', 0), Instr('[', 1), Instr('-', 1)], program[2]) == [Instr('[', 0), Instr('[', 1), Instr('-', 1), Instr(']', 1)]; }
      Success(Fold([Instr('[', 0), Instr('[', 1), Instr('-', 1), Instr(']', 1)], program[3..]));
      { assert program[3..][1..] == program[4..]; assert Absorb([Instr('[', 0), Instr('[', 1), Instr('-', 1), Instr(']', 1)], program[3]) == [Instr('[', 0), Instr('[', 1), Instr('-', 1), Instr(']', 1), Instr('+', 1)]; }
      Success(Fold([Instr('[', 0), Instr('[', 1), Instr('-', 1), Instr(']', 1), Instr('+', 1)], program[4..]));
      { assert program[4..][1..] == program[5..]; assert Absorb([Instr('[', 0), Instr('[', 1), Instr('-', 1), Instr(']', 1), Instr('+', 1)], program[4]) == [Instr('[', 0), Instr('[', 1), Instr('-', 1), Instr(']', 1), Instr('+', 1), Instr('.', 1)]; }
      Success(Fold([Instr('[', 0), Instr('[', 1), Instr('-', 1), Instr(']', 1), Instr('+', 1), Instr('.', 1)], program[5..]));
      { assert program[5..] == []; }
      Success([Instr('[', 0), Instr('[', 1), Instr('-', 1), Instr(']', 1), Instr('+', 1), Instr('.', 1)]);
    }
  }

  lemma TraceLeadingBracketResolved(rle: seq<Instr>)
    requires rle == [Instr('[', 0), Instr('[', 1), Instr('-', 1), Instr(']', 1), Instr('+', 1), Instr('.', 1)]
    ensures Resolved(rle) == [Instr('[', 5), Instr('[', 2), Instr('-', 1), Instr(']', 2), Instr('+', 1), Instr('.', 1)]
  {
    TraceLeadingBracketResolvedAt0(rle);
    TraceLeadingBracketResolvedAt1(rle);
    TraceLeadingBracketResolvedAt3(rle);
    assert forall i :: 0 <= i < |rle| ==> Resolved(rle)[i] == [Instr('[', 5), Instr('[', 2), Instr('-', 1), Instr(']', 2), Instr('+', 1), Instr('.', 1)][i];
  }

  lemma TraceLeadingBracketResolvedAt0(rle: seq<Instr>)
    requires rle == [Instr('[', 0), Instr('[', 1), Instr('-', 1), Instr(']', 1), Instr('+', 1), Instr('.', 1)]
    ensures ResolveAt(rle, 0) == Instr('[', 5)
  {
    assert Slots(rle, 6, 6, 1) == [];
    assert Slots(rle, 5, 6, 1) == ['.'];
    assert Slots(rle, 4, 6, 1) == ['+', '.'];
    assert Slots(rle, 3, 6, 1) == [']', '+', '.'];
    assert Slots(rle, 2, 6, 1) == ['-', ']', '+', '.'];
    assert Slots(rle, 1, 6, 1) == ['[', '-', ']', '+', '.'];
    assert ScanCount([], ']', '[', 0) == 0;
    assert ScanCount(['.'], ']', '[', 0) == 1;
    assert ScanCount(['+', '.'], ']', '[', 0) == 2;
    assert ScanCount([']', '+', '.'], ']', '[', 1) == 3;
    assert ScanCount(['-', ']', '+', '.'], ']', '[', 1) == 4;
    assert ScanCount(['[', '-', ']', '+', '.'], ']', '[', 0) == 5;
  }

  lemma TraceLeadingBracketResolvedAt1(rle: seq<Instr>)
    requires rle == [Instr('[', 0), Instr('[', 1), Instr('-', 1), Instr(']', 1), Instr('+', 1), Instr('.', 1)]
    ensures ResolveAt(rle, 1) == Instr('[', 2)
  {
    assert Slots(rle, 6, 6, 1) == [];
    assert Slots(rle, 5, 6, 1) == ['.'];
    assert Slots(rle, 4, 6, 1) == ['+', '.'];
    assert Slots(rle, 3, 6, 1) == [']', '+', '.'];
    assert Slots(rle, 2, 6, 1) == ['-', ']', '+', '.'];
    assert ScanCount([']', '+', '.'], ']', '[', 0) == 1;
    assert ScanCount(['-', ']', '+', '.'], ']', '[', 0) == 2;
  }

  lemma TraceLeadingBracketResolvedAt3(rle: seq<Instr>)
    requires rle == [Instr('[', 0), Instr('[', 1), Instr('-', 1), Instr(']', 1), Instr('+', 1), Instr('.', 1)]
    ensures ResolveAt(rle, 3) == Instr(']', 2)
  {
    assert Slots(rle, 0, 0, -1) == [];
    assert Slots(rle, 1, 0, -1) == ['['];
    assert Slots(rle, 2, 0, -1) == ['-', '['];
    assert ScanCount(['['], '[', ']', 0) == 1;
    assert ScanCount(['-', '['], '[', ']', 0) == 2;
  }

  lemma TraceEndlessLoopReduced(program: seq<Instr>)
    requires program == Parsed("+[]")
    ensures Reduce(program) == Success([Instr('+', 1), Instr('[', 1), Instr(']', 1)])
  {
    assert program == [Instr('+', 1), Instr('[', 1), Instr(']', 1)];
    calc {
      Reduce(program);
      { assert program[0..] == program; }
      Success(Fold([Instr('+', 0)], program[0..]));
      { assert program[0..][1..] == program[1..]; assert Absorb([Instr('+', 0)], program[0]) == [Instr('+', 1)]; }
      Success(Fold([Instr('+', 1)], program[1..]));
      { assert program[1..][1..] == program[2..]; assert Absorb([Instr('+', 1)], program[1]) == [Instr('+', 1), Instr('[', 1)]; }
      Success(Fold([Instr('+', 1), Instr('[', 1)], program[2..]));
      { assert program[2..][1..] == program[3..]; assert Absorb([Instr('+', 1), Instr('[', 1)], program[2]) == [Instr('+', 1), Instr('[', 1), Instr(']', 1)]; }
      Success(Fold([Instr('+', 1), Instr('[', 1), Instr(']', 1)], program[3..]));
      { assert program[3..] == []; }
      Success([Instr('+', 1), Instr('[', 1), Instr(']', 1)]);
    }
  }

  lemma TraceEndlessLoopResolved(rle: seq<Instr>)
    requires rle == [Instr('+', 1), Instr('[', 1), Instr(']', 1)]
    ensures Resolved(rle) == [Instr('+', 1), Instr('[', 1), Instr(']', 1)]
  {
    TraceEndlessLoopResolvedAt1(rle);
    TraceEndlessLoopResolvedAt2(rle);
    assert forall i :: 0 <= i < |rle| ==> Resolved(rle)[i] == [Instr('+', 1), Instr('[', 1), Instr(']', 1)][i];
  }

  lemma TraceEndlessLoopResolvedAt1(rle: seq<Instr>)
    requires rle == [Instr('+', 1), Instr('[', 1), Instr(']', 1)]
    ensures ResolveAt(rle, 1) == Instr('[', 1)
  {
    assert Slots(rle, 3, 3, 1) == [];
    assert Slots(rle, 2, 3, 1) == [']'];
    assert ScanCount([']'], ']', '[', 0) == 1;
  }

  lemma TraceEndlessLoopResolvedAt2(rle: seq<Instr>)
    requires rle == [Instr('+', 1), Instr('[', 1), Instr(']', 1)]
    ensures ResolveAt(rle, 2) == Instr(']', 1)
  {
    assert Slots(rle, 0, 0, -1) == [];
    assert Slots(rle, 1, 0, -1) == ['['];
    assert ScanCount(['['], '[', ']', 0) == 1;
  }

  /** `+[]` never terminates: whatever the budget, the run is still going. */
  lemma TraceEndlessLoop(fuel: nat)
    ensures EvalSpec("+[]", fuel) == Success(OutOfFuel([]))
  {
    TraceEndlessLoopReduced(Parsed("+[]"));
    TraceEndlessLoopResolved([Instr('+', 1), Instr('[', 1), Instr(']', 1)]);
    var prog := [Instr('+', 1), Instr('[', 1), Instr(']', 1)];
    if fuel > 0 {
      var s := Step(prog, Initial);
      assert s == State(map[0 := 1], 0, 1, []);
      SpinsForever(prog, s, fuel - 1);
    }
  }

  /** From the loop head of `+[]` with a non-zero cell, the machine cycles
      between slots 1 and 2 forever, writing nothing. */
  lemma {:induction false} SpinsForever(prog: seq<Instr>, s: State, fuel: nat)
    requires prog == [Instr('+', 1), Instr('[', 1), Instr(']', 1)]
    requires s.instPtr == 1 && s.out == [] && Read(s.tape, s.dataPtr) != 0
    ensures Run(prog, s, fuel) == OutOfFuel([])
    decreases fuel
  {
    if fuel > 0 {
      var s1 := Step(prog, s);
      assert s1 == s.(instPtr := 2);
      if fuel > 1 {
        var s2 := Step(prog, s1);
        assert s2 == s;
        SpinsForever(prog, s, fuel - 2);
      }
    }
  }
}
