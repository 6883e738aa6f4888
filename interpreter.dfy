/** The whole pipeline of `eval` in tri.cxx: parse, reduce, resolve the
    jumps in place, then run the tape machine. */
module Interpreter {
  import opened Words
  import opened Instructions
  import opened Rle
  import opened Resolve
  import opened Machine

  /** A source starting with `]` makes the resolver form `cbegin() - 1`
      (undefined behaviour); every other source, the empty one included, is
      accepted. */
  predicate Accepted(source: string) {
    |source| == 0 || source[0] != ']'
  }

  /** What `eval` produces within `fuel` machine steps: the
      `std::out_of_range` of an empty source, or the outcome of the run on
      the reduced and resolved program. */
  function EvalSpec(source: string, fuel: nat): (r: Result<Outcome>)
    requires Accepted(source)
    ensures r.Failure? <==> |source| == 0
  {
    match Reduce(Parsed(source))
    case Failure(e) => Failure(e)
    case Success(rle) => Success(Run(Resolved(rle), Initial, fuel))
  }

  /** `eval`, stage by stage; the reduced program lives in an array whose
      bracket arguments are overwritten in place. */
  method Eval(source: string, fuel: nat) returns (r: Result<Outcome>)
    requires Accepted(source)
    ensures r == EvalSpec(source, fuel)
  {
    var rawProgram := Parse(source);
    var reduced := ReduceRle(rawProgram);
    if reduced.Failure? {
      return Failure(reduced.error);
    }
    var rle := reduced.value;
    var program := new Instr[|rle|](k requires 0 <= k < |rle| => rle[k]);
    assert program[..] == rle;
    ResolveJumps(program);
    var outcome := Execute(program[..], fuel);
    r := Success(outcome);
  }

  // ---------------------------------------------------------------------
  // Whole-pipeline properties

  /** For every recognised operator, the reduced program's arguments add
      up, modulo 2^16, to the number of times the character occurs in the
      source. */
  lemma ReducedCountsSource(source: string, c: char)
    requires |source| > 0 && Recognised(c)
    ensures SumArg(Reduce(Parsed(source)).value, c) % Modulus == CountOp(Parsed(source), c) % Modulus
  {
    ReduceArgSum(Parsed(source), c);
    UnitSumIsCount(Parsed(source), c);
  }

  /** For a non-empty accepted source whose reduced program has fewer than
      2^16 instructions, a run that halts leaves the instruction pointer
      exactly at the end of the reduced program. */
  lemma EvalHaltsAtEnd(source: string, fuel: nat)
    requires |source| > 0 && Accepted(source)
    requires |Reduce(Parsed(source)).value| < Modulus
    requires EvalSpec(source, fuel).value.Halted?
    ensures EvalSpec(source, fuel).value.instPtr == |Reduce(Parsed(source)).value|
  {
    var rle := Reduce(Parsed(source)).value;
    ResolvedJumpsInRange(rle);
    RunHaltsAtEnd(Resolved(rle), Initial, fuel);
  }

  /** A source that starts with `[` and never closes more loops than it has
      opened: the seed `[` that the reducer prepends finds no partner, so
      it jumps to the last instruction, skipping the whole program. */
  lemma LeadingBracketJumpsToEnd(source: string)
    requires 0 < |source| < Modulus && source[0] == '[' && NoPrefixUnderflows(source)
    ensures var rle := Reduce(Parsed(source)).value;
      && 1 <= |rle| <= |source| + 1
      && Resolved(rle)[0] == Instr('[', |rle| - 1)
      && Step(Resolved(rle), Initial).instPtr == |rle| - 1
  {
    var program := Parsed(source);
    var rle := Reduce(program).value;
    var ops := Ops(rle);
    ReduceLength(program);
    ReduceLeadingBracket(program);
    ReduceBracketOrder(program);
    assert Ops(program) == source;
    assert BracketSeq([program[0].op]) == ['['] by {
      assert [program[0].op][..0] == [];
    }
    assert ops == [rle[0].op] + ops[1..];
    BracketSeqAppend([rle[0].op], ops[1..]);
    assert BracketSeq([rle[0].op]) == ['['] by {
      assert [rle[0].op][..0] == [];
    }
    var tail := BracketSeq(ops[1..]);
    assert ['['] + tail == ['['] + BracketSeq(source);
    assert tail == (['['] + tail)[1..];
    assert tail == BracketSeq(source);
    NoPrefixUnderflowsOfBrackets(source);
    NoPrefixUnderflowsOfBrackets(ops[1..]);
    NeverUnderflowsFromOps(rle, 1);
    SeedScansToEnd(rle);
    FirstJump(Resolved(rle), |rle| - 1);
  }
}
