/** The instruction stream and the parser that produces it (`Instr`,
    `parse` in tri.cxx). */
module Instructions {
  import opened Words

  /** One instruction: an operator character and a 16-bit argument (a
      repetition count, or after resolution a jump distance). */
  datatype Instr = Instr(op: char, arg: Word)

  /** The one failure of the pipeline: `std::out_of_range`, thrown by
      `program.at(0)` when the source is empty. */
  datatype Error = OutOfRange

  datatype Result<T> = Success(value: T) | Failure(error: Error)

  /** The operators the reducer keeps; every other character is a comment.
      Both brackets are operators, and every operator is a single ASCII
      byte. */
  function Recognised(c: char): (b: bool)
    ensures IsBracket(c) ==> b
    ensures b ==> c as int < 0x80
  {
    c == '[' || c == ']' || c == '+' || c == '-' || c == '<' || c == '>' || c == '.' || c == ','
  }

  /** Loop brackets are never merged by the reducer. */
  predicate IsBracket(c: char) {
    c == '[' || c == ']'
  }

  /** The unit instruction stream of `input`: one instruction per character. */
  function Parsed(input: string): seq<Instr> {
    seq(|input|, k requires 0 <= k < |input| => Instr(input[k], 1))
  }

  /** `parse`: every source character, recognised or not, becomes an
      instruction with argument 1, in source order. */
  method Parse(input: string) returns (program: seq<Instr>)
    ensures |program| == |input|
    ensures forall k :: 0 <= k < |input| ==> program[k] == Instr(input[k], 1)
    ensures program == Parsed(input)
  {
    program := [];
    var i := 0;
    while i < |input|
      invariant 0 <= i <= |input|
      invariant |program| == i
      invariant forall k :: 0 <= k < i ==> program[k] == Instr(input[k], 1)
    {
      program := program + [Instr(input[i], 1)];
      i := i + 1;
    }
  }

  // ---------------------------------------------------------------------
  // Operator sequences

  /** The operators of a program, in order. */
  function Ops(p: seq<Instr>): seq<char> {
    seq(|p|, k requires 0 <= k < |p| => p[k].op)
  }

  /** The brackets of `cs`, in order. */
  function BracketSeq(cs: seq<char>): seq<char> {
    if cs == [] then []
    else BracketSeq(cs[..|cs| - 1]) + (if IsBracket(cs[|cs| - 1]) then [cs[|cs| - 1]] else [])
  }

  lemma {:induction false} BracketSeqAppend(x: seq<char>, y: seq<char>)
    ensures BracketSeq(x + y) == BracketSeq(x) + BracketSeq(y)
    decreases |y|
  {
    if y != [] {
      assert (x + y)[..|x + y| - 1] == x + y[..|y| - 1];
      BracketSeqAppend(x, y[..|y| - 1]);
    } else {
      assert x + y == x;
    }
  }

  lemma AppendAssoc(a: seq<char>, b: seq<char>, c: seq<char>)
    ensures a + (b + c) == a + b + c
  {
  }

  /** `[` opens a loop, `]` closes one. */
  function Weight(c: char): int {
    if c == '[' then 1 else if c == ']' then -1 else 0
  }

  /** Opened minus closed brackets in `cs`. */
  function Nesting(cs: seq<char>): int {
    if cs == [] then 0 else Nesting(cs[..|cs| - 1]) + Weight(cs[|cs| - 1])
  }

  /** No prefix of `cs` closes more brackets than it has opened. */
  predicate NoPrefixUnderflows(cs: seq<char>) {
    forall k :: 0 <= k <= |cs| ==> Nesting(cs[..k]) >= 0
  }

  lemma NestingSnoc(x: seq<char>, c: char)
    ensures Nesting(x + [c]) == Nesting(x) + Weight(c)
  {
    assert (x + [c])[..|x|] == x;
  }

  /** Only the brackets count towards the nesting. */
  lemma {:induction false} NestingOfBrackets(cs: seq<char>)
    ensures Nesting(BracketSeq(cs)) == Nesting(cs)
    decreases |cs|
  {
    if cs != [] {
      var front, c := cs[..|cs| - 1], cs[|cs| - 1];
      NestingOfBrackets(front);
      if IsBracket(c) {
        NestingSnoc(BracketSeq(front), c);
      } else {
        assert BracketSeq(cs) == BracketSeq(front);
      }
    }
  }

  lemma NoPrefixUnderflowsSnoc(x: seq<char>, c: char)
    ensures NoPrefixUnderflows(x + [c]) <==> NoPrefixUnderflows(x) && Nesting(x + [c]) >= 0
  {
    var y := x + [c];
    forall k | 0 <= k <= |x|
      ensures y[..k] == x[..k]
    {
    }
    assert y[..|y|] == y;
  }

  /** Dropping the comments and non-bracket operators does not change
      whether some prefix closes more loops than it opens. */
  lemma {:induction false} NoPrefixUnderflowsOfBrackets(cs: seq<char>)
    ensures NoPrefixUnderflows(BracketSeq(cs)) <==> NoPrefixUnderflows(cs)
    decreases |cs|
  {
    if cs == [] {
      assert BracketSeq(cs) == [];
    } else {
      var front, c := cs[..|cs| - 1], cs[|cs| - 1];
      assert cs == front + [c];
      NoPrefixUnderflowsOfBrackets(front);
      NoPrefixUnderflowsSnoc(front, c);
      NestingOfBrackets(cs);
      if IsBracket(c) {
        NoPrefixUnderflowsSnoc(BracketSeq(front), c);
      } else {
        assert BracketSeq(cs) == BracketSeq(front);
        NestingSnoc(front, c);
        assert front[..|front|] == front;
      }
    }
  }
}
