/** Run-length reduction (`reduce_rle` in tri.cxx): consecutive equal
    non-bracket operators collapse into one instruction whose argument is
    the wrapped sum of their arguments; brackets and the other recognised
    operators start new instructions; unrecognised characters are dropped,
    except that the output is seeded with the first input operator. */
module Rle {
  import opened Words
  import opened Instructions

  /** One iteration of the reducer's loop, with `acc` the output so far. */
  function Absorb(acc: seq<Instr>, inst: Instr): (r: seq<Instr>)
    requires |acc| > 0
    ensures |r| > 0 && r[0].op == acc[0].op
  {
    var top := acc[|acc| - 1];
    if inst.op == top.op && !IsBracket(inst.op) then
      acc[|acc| - 1 := Instr(top.op, Wrap(top.arg + inst.arg))]
    else if Recognised(inst.op) then
      acc + [inst]
    else
      acc
  }

  /** The reducer's loop run over the instructions `s`, starting from `acc`. */
  function Fold(acc: seq<Instr>, s: seq<Instr>): (r: seq<Instr>)
    requires |acc| > 0
    ensures |r| > 0 && r[0].op == acc[0].op
    decreases |s|
  {
    if s == [] then acc else Fold(Absorb(acc, s[0]), s[1..])
  }

  /** `reduce_rle`: fails with `std::out_of_range` on an empty program;
      otherwise the output is non-empty and starts with the input's first
      operator (the seed `{program.at(0).op, 0}`). */
  function Reduce(program: seq<Instr>): (r: Result<seq<Instr>>)
    ensures r.Failure? <==> |program| == 0
    ensures r.Success? ==> |r.value| > 0 && r.value[0].op == program[0].op
  {
    if |program| == 0 then Failure(OutOfRange)
    else Success(Fold([Instr(program[0].op, 0)], program))
  }

  /** `reduce_rle`, with the output vector and the in-place update of its
      back element. */
  method ReduceRle(program: seq<Instr>) returns (r: Result<seq<Instr>>)
    ensures r == Reduce(program)
  {
    if |program| == 0 {
      return Failure(OutOfRange);
    }
    var out := [Instr(program[0].op, 0)];
    var i := 0;
    while i < |program|
      invariant 0 <= i <= |program|
      invariant |out| > 0
      invariant Fold(out, program[i..]) == Fold([Instr(program[0].op, 0)], program)
    {
      var inst := program[i];
      var top := out[|out| - 1];
      if inst.op == top.op && inst.op != '[' && inst.op != ']' {
        out := out[|out| - 1 := Instr(top.op, Wrap(top.arg + inst.arg))];
      } else if inst.op == '[' || inst.op == ']' || inst.op == '+' || inst.op == '-'
             || inst.op == '<' || inst.op == '>' || inst.op == '.' || inst.op == ',' {
        out := out + [inst];
      }
      assert program[i..][1..] == program[i + 1..];
      i := i + 1;
    }
    assert program[i..] == [];
    r := Success(out);
  }

  // ---------------------------------------------------------------------
  // Shape of the output

  /** No two adjacent instructions share an operator, unless it is a bracket. */
  predicate Collapsed(s: seq<Instr>) {
    forall k :: 0 <= k < |s| - 1 && s[k].op == s[k + 1].op ==> IsBracket(s[k].op)
  }

  /** Only the first instruction may carry an unrecognised operator. */
  predicate CommentsOnlyFirst(s: seq<Instr>) {
    forall k :: 1 <= k < |s| ==> Recognised(s[k].op)
  }

  lemma AbsorbShape(acc: seq<Instr>, inst: Instr)
    requires |acc| > 0 && Collapsed(acc) && CommentsOnlyFirst(acc)
    ensures Collapsed(Absorb(acc, inst)) && CommentsOnlyFirst(Absorb(acc, inst))
  {
  }

  lemma {:induction false} FoldShape(acc: seq<Instr>, s: seq<Instr>)
    requires |acc| > 0 && Collapsed(acc) && CommentsOnlyFirst(acc)
    ensures Collapsed(Fold(acc, s)) && CommentsOnlyFirst(Fold(acc, s))
    decreases |s|
  {
    if s != [] {
      AbsorbShape(acc, s[0]);
      FoldShape(Absorb(acc, s[0]), s[1..]);
    }
  }

  /** The reduced program never has two adjacent instructions with the same
      non-bracket operator, and a character outside `+-<>.,[]` survives only
      at index 0, through the seed. */
  lemma ReduceShape(program: seq<Instr>)
    requires |program| > 0
    ensures Collapsed(Reduce(program).value)
    ensures CommentsOnlyFirst(Reduce(program).value)
  {
    FoldShape([Instr(program[0].op, 0)], program);
  }

  // ---------------------------------------------------------------------
  // Counting brackets

  /** Number of instructions whose operator is `c`. */
  function CountOp(s: seq<Instr>, c: char): nat {
    if s == [] then 0
    else CountOp(s[..|s| - 1], c) + (if s[|s| - 1].op == c then 1 else 0)
  }

  lemma {:induction false} CountOpAppend(s: seq<Instr>, t: seq<Instr>, c: char)
    ensures CountOp(s + t, c) == CountOp(s, c) + CountOp(t, c)
    decreases |t|
  {
    if t != [] {
      assert (s + t)[..|s + t| - 1] == s + t[..|t| - 1];
      CountOpAppend(s, t[..|t| - 1], c);
    } else {
      assert s + t == s;
    }
  }

  lemma AbsorbBrackets(acc: seq<Instr>, inst: Instr, c: char)
    requires |acc| > 0 && IsBracket(c)
    ensures CountOp(Absorb(acc, inst), c) == CountOp(acc, c) + (if inst.op == c then 1 else 0)
  {
    var top := acc[|acc| - 1];
    if inst.op == top.op && !IsBracket(inst.op) {
      var r := Absorb(acc, inst);
      assert r[..|r| - 1] == acc[..|acc| - 1];
    } else if Recognised(inst.op) {
      assert (acc + [inst])[..|acc|] == acc;
    }
  }

  lemma {:induction false} FoldBrackets(acc: seq<Instr>, s: seq<Instr>, c: char)
    requires |acc| > 0 && IsBracket(c)
    ensures CountOp(Fold(acc, s), c) == CountOp(acc, c) + CountOp(s, c)
    decreases |s|
  {
    if s != [] {
      AbsorbBrackets(acc, s[0], c);
      FoldBrackets(Absorb(acc, s[0]), s[1..], c);
      assert s == [s[0]] + s[1..];
      CountOpAppend([s[0]], s[1..], c);
    }
  }

  /** Every bracket of the input becomes its own output instruction; a
      bracket that starts the input is there twice (seed and copy). */
  lemma ReduceBracketCount(program: seq<Instr>, c: char)
    requires |program| > 0 && IsBracket(c)
    ensures CountOp(Reduce(program).value, c)
            == CountOp(program, c) + (if program[0].op == c then 1 else 0)
  {
    FoldBrackets([Instr(program[0].op, 0)], program, c);
  }

  // ---------------------------------------------------------------------
  // Summing repetition counts

  /** Sum of the arguments of the instructions whose operator is `c`. */
  function SumArg(s: seq<Instr>, c: char): int {
    if s == [] then 0
    else SumArg(s[..|s| - 1], c) + (if s[|s| - 1].op == c then s[|s| - 1].arg else 0)
  }

  lemma {:induction false} SumArgAppend(s: seq<Instr>, t: seq<Instr>, c: char)
    ensures SumArg(s + t, c) == SumArg(s, c) + SumArg(t, c)
    decreases |t|
  {
    if t != [] {
      assert (s + t)[..|s + t| - 1] == s + t[..|t| - 1];
      SumArgAppend(s, t[..|t| - 1], c);
    } else {
      assert s + t == s;
    }
  }

  lemma AbsorbSum(acc: seq<Instr>, inst: Instr, c: char)
    requires |acc| > 0 && Recognised(c)
    ensures SumArg(Absorb(acc, inst), c) % Modulus
            == (SumArg(acc, c) + (if inst.op == c then inst.arg else 0)) % Modulus
  {
    var top := acc[|acc| - 1];
    if inst.op == top.op && !IsBracket(inst.op) {
      AbsorbSumMerge(acc, inst, c);
    } else if Recognised(inst.op) {
      AbsorbSumPush(acc, inst, c);
    } else {
      assert Absorb(acc, inst) == acc && inst.op != c;
    }
  }

  lemma AbsorbSumMerge(acc: seq<Instr>, inst: Instr, c: char)
    requires |acc| > 0 && inst.op == acc[|acc| - 1].op && !IsBracket(inst.op)
    ensures SumArg(Absorb(acc, inst), c) % Modulus
            == (SumArg(acc, c) + (if inst.op == c then inst.arg else 0)) % Modulus
  {
    var top := acc[|acc| - 1];
    var r := Absorb(acc, inst);
    assert r[..|r| - 1] == acc[..|acc| - 1];
    var rest := SumArg(acc[..|acc| - 1], c);
    if c == top.op {
      assert SumArg(r, c) == rest + (top.arg + inst.arg) % Modulus;
      assert SumArg(acc, c) == rest + top.arg;
      ModAddRight(rest, top.arg + inst.arg);
    } else {
      assert SumArg(r, c) == rest == SumArg(acc, c);
    }
  }

  lemma AbsorbSumPush(acc: seq<Instr>, inst: Instr, c: char)
    requires |acc| > 0 && !(inst.op == acc[|acc| - 1].op && !IsBracket(inst.op)) && Recognised(inst.op)
    ensures SumArg(Absorb(acc, inst), c) == SumArg(acc, c) + (if inst.op == c then inst.arg else 0)
  {
    var r := Absorb(acc, inst);
    assert r == acc + [inst];
    assert r[..|acc|] == acc;
  }

  /** Reducing a summand modulo 2^16 does not change a sum modulo 2^16. */
  lemma ModAddRight(a: int, b: int)
    ensures (a + b % Modulus) % Modulus == (a + b) % Modulus
  {
    var q := b / Modulus;
    assert b == q * Modulus + b % Modulus;
    assert a + b == (a + b % Modulus) + q * Modulus;
    ModShift(a + b % Modulus, q);
  }

  /** Adding the same term to two values congruent modulo 2^16 keeps them
      congruent. */
  lemma ModAddCongruent(a: int, b: int, t: int)
    requires a % Modulus == b % Modulus
    ensures (a + t) % Modulus == (b + t) % Modulus
  {
    ModAddRight(t, a);
    ModAddRight(t, b);
  }

  lemma {:induction false} FoldSum(acc: seq<Instr>, s: seq<Instr>, c: char)
    requires |acc| > 0 && Recognised(c)
    ensures SumArg(Fold(acc, s), c) % Modulus == (SumArg(acc, c) + SumArg(s, c)) % Modulus
    decreases |s|
  {
    if s != [] {
      var a := Absorb(acc, s[0]);
      var t := s[1..];
      var x := if s[0].op == c then s[0].arg else 0;
      assert SumArg(s, c) == x + SumArg(t, c) by {
        assert s == [s[0]] + t;
        SumArgAppend([s[0]], t, c);
        assert SumArg([s[0]], c) == x;
      }
      calc {
        SumArg(Fold(acc, s), c) % Modulus;
        { assert Fold(acc, s) == Fold(a, t); }
        SumArg(Fold(a, t), c) % Modulus;
        { FoldSum(a, t, c); }
        (SumArg(a, c) + SumArg(t, c)) % Modulus;
        { AbsorbSum(acc, s[0], c);
          ModAddCongruent(SumArg(a, c), SumArg(acc, c) + x, SumArg(t, c)); }
        (SumArg(acc, c) + x + SumArg(t, c)) % Modulus;
      }
    }
  }

  /** For every recognised operator, the reduced program's arguments add up,
      modulo 2^16, to the input's (for a parsed source: to the number of
      occurrences of that character). */
  lemma ReduceArgSum(program: seq<Instr>, c: char)
    requires |program| > 0 && Recognised(c)
    ensures SumArg(Reduce(program).value, c) % Modulus == SumArg(program, c) % Modulus
  {
    var seed := [Instr(program[0].op, 0)];
    calc {
      SumArg(Reduce(program).value, c) % Modulus;
      SumArg(Fold(seed, program), c) % Modulus;
      { FoldSum(seed, program, c); }
      (SumArg(seed, c) + SumArg(program, c)) % Modulus;
      { assert SumArg(seed, c) == 0; }
      SumArg(program, c) % Modulus;
    }
  }

  /** In a unit stream the arguments of `c` add up to the number of `c`s. */
  lemma {:induction false} UnitSumIsCount(s: seq<Instr>, c: char)
    requires forall k :: 0 <= k < |s| ==> s[k].arg == 1
    ensures SumArg(s, c) == CountOp(s, c)
    decreases |s|
  {
    if s != [] {
      UnitSumIsCount(s[..|s| - 1], c);
    }
  }

  // ---------------------------------------------------------------------
  // The seed

  lemma {:induction false} FoldKeepsPrefix(acc: seq<Instr>, s: seq<Instr>)
    requires |acc| > 0
    ensures |Fold(acc, s)| >= |acc|
    ensures Fold(acc, s)[..|acc| - 1] == acc[..|acc| - 1]
    decreases |s|
  {
    if s != [] {
      var a := Absorb(acc, s[0]);
      FoldKeepsPrefix(a, s[1..]);
      assert a[..|acc| - 1] == acc[..|acc| - 1];
      assert Fold(acc, s)[..|acc| - 1] == Fold(a, s[1..])[..|a| - 1][..|acc| - 1];
    }
  }

  lemma {:induction false} FoldKeepsBracket(acc: seq<Instr>, s: seq<Instr>)
    requires |acc| > 0 && IsBracket(acc[|acc| - 1].op)
    ensures |Fold(acc, s)| >= |acc|
    ensures Fold(acc, s)[..|acc|] == acc
    decreases |s|
  {
    if s != [] {
      var a := Absorb(acc, s[0]);
      if a == acc {
        FoldKeepsBracket(acc, s[1..]);
      } else {
        assert a == acc + [s[0]];
        FoldKeepsPrefix(a, s[1..]);
        assert Fold(acc, s)[..|acc|] == Fold(a, s[1..])[..|a| - 1];
      }
    }
  }

  /** A program that starts with a bracket is reduced to one that starts
      with that bracket twice: the seed with argument 0, then the bracket
      itself. */
  lemma ReduceLeadingBracket(program: seq<Instr>)
    requires |program| > 0 && IsBracket(program[0].op)
    ensures |Reduce(program).value| >= 2
    ensures Reduce(program).value[0] == Instr(program[0].op, 0)
    ensures Reduce(program).value[1] == program[0]
  {
    var seed := [Instr(program[0].op, 0)];
    var a := Absorb(seed, program[0]);
    assert a == [Instr(program[0].op, 0), program[0]];
    assert Fold(seed, program) == Fold(a, program[1..]);
    FoldKeepsBracket(a, program[1..]);
    assert Fold(a, program[1..])[..2] == a;
  }

  lemma {:induction false} FoldLength(acc: seq<Instr>, s: seq<Instr>)
    requires |acc| > 0
    ensures |acc| <= |Fold(acc, s)| <= |acc| + |s|
    decreases |s|
  {
    if s != [] {
      FoldLength(Absorb(acc, s[0]), s[1..]);
    }
  }

  /** The reduced program is never longer than the input plus the seed. */
  lemma ReduceLength(program: seq<Instr>)
    requires |program| > 0
    ensures 1 <= |Reduce(program).value| <= |program| + 1
  {
    FoldLength([Instr(program[0].op, 0)], program);
  }

  // ---------------------------------------------------------------------
  // Order: brackets

  lemma AbsorbBracketOrder(acc: seq<Instr>, inst: Instr)
    requires |acc| > 0
    ensures BracketSeq(Ops(Absorb(acc, inst))) == BracketSeq(Ops(acc)) + BracketSeq([inst.op])
  {
    var top := acc[|acc| - 1];
    var r := Absorb(acc, inst);
    assert [inst.op][..0] == [];
    if inst.op == top.op && !IsBracket(inst.op) {
      assert Ops(r) == Ops(acc);
    } else if Recognised(inst.op) {
      assert Ops(r) == Ops(acc) + [inst.op];
      BracketSeqAppend(Ops(acc), [inst.op]);
    } else {
      assert r == acc;
    }
  }

  lemma {:induction false} FoldBracketOrder(acc: seq<Instr>, s: seq<Instr>)
    requires |acc| > 0
    ensures BracketSeq(Ops(Fold(acc, s))) == BracketSeq(Ops(acc)) + BracketSeq(Ops(s))
    decreases |s|
  {
    if s == [] {
      assert Ops(s) == [];
    } else {
      var a := Absorb(acc, s[0]);
      var t := s[1..];
      calc {
        BracketSeq(Ops(Fold(acc, s)));
        { assert Fold(acc, s) == Fold(a, t); }
        BracketSeq(Ops(Fold(a, t)));
        { FoldBracketOrder(a, t); }
        BracketSeq(Ops(a)) + BracketSeq(Ops(t));
        { AbsorbBracketOrder(acc, s[0]); }
        BracketSeq(Ops(acc)) + BracketSeq([s[0].op]) + BracketSeq(Ops(t));
        { AppendAssoc(BracketSeq(Ops(acc)), BracketSeq([s[0].op]), BracketSeq(Ops(t))); }
        BracketSeq(Ops(acc)) + (BracketSeq([s[0].op]) + BracketSeq(Ops(t)));
        { assert Ops(s) == [s[0].op] + Ops(t);
          BracketSeqAppend([s[0].op], Ops(t)); }
        BracketSeq(Ops(acc)) + BracketSeq(Ops(s));
      }
    }
  }

  /** The brackets of the reduced program are those of the input, in the
      same order, after the seed (itself a bracket when the input starts
      with one). */
  lemma ReduceBracketOrder(program: seq<Instr>)
    requires |program| > 0
    ensures BracketSeq(Ops(Reduce(program).value))
            == BracketSeq([program[0].op]) + BracketSeq(Ops(program))
  {
    var seed := [Instr(program[0].op, 0)];
    FoldBracketOrder(seed, program);
    assert Ops(seed) == [program[0].op];
  }

  // ---------------------------------------------------------------------
  // Order: the reduced program spells out the source

  /** `n` copies of `c`. */
  function Copies(c: char, n: nat): seq<char> {
    if n == 0 then [] else Copies(c, n - 1) + [c]
  }

  /** The characters a program stands for: each instruction's operator,
      repeated `arg` times. */
  function Expand(p: seq<Instr>): seq<char> {
    if p == [] then []
    else Expand(p[..|p| - 1]) + Copies(p[|p| - 1].op, p[|p| - 1].arg)
  }

  /** The recognised operators of `cs`, in order. */
  function Visible(cs: seq<char>): seq<char> {
    if cs == [] then []
    else Visible(cs[..|cs| - 1]) + (if Recognised(cs[|cs| - 1]) then [cs[|cs| - 1]] else [])
  }

  lemma {:induction false} VisibleAppend(x: seq<char>, y: seq<char>)
    ensures Visible(x + y) == Visible(x) + Visible(y)
    decreases |y|
  {
    if y != [] {
      assert (x + y)[..|x + y| - 1] == x + y[..|y| - 1];
      VisibleAppend(x, y[..|y| - 1]);
    } else {
      assert x + y == x;
    }
  }

  lemma {:induction false} VisibleNone(c: char, n: nat)
    requires !Recognised(c)
    ensures Visible(Copies(c, n)) == []
    decreases n
  {
    if n > 0 {
      assert Copies(c, n)[..|Copies(c, n)| - 1] == Copies(c, n - 1);
      VisibleNone(c, n - 1);
    }
  }

  /** Every argument of `p` is at most `b`. */
  predicate ArgsAtMost(p: seq<Instr>, b: int) {
    forall k :: 0 <= k < |p| ==> p[k].arg <= b
  }

  /** Absorbing an instruction adds its expansion, unless a merge wraps. */
  lemma AbsorbExpand(acc: seq<Instr>, inst: Instr)
    requires |acc| > 0
    requires inst.op == acc[|acc| - 1].op && !IsBracket(inst.op) ==> acc[|acc| - 1].arg + inst.arg < Modulus
    ensures Visible(Expand(Absorb(acc, inst))) == Visible(Expand(acc)) + Visible(Copies(inst.op, inst.arg))
  {
    var top := acc[|acc| - 1];
    var rep := Copies(inst.op, inst.arg);
    if inst.op == top.op && !IsBracket(inst.op) {
      var front := acc[..|acc| - 1];
      var merged := Instr(top.op, top.arg + inst.arg);
      calc {
        Expand(Absorb(acc, inst));
      == { AbsorbMergeShape(acc, inst); }
        Expand(front + [merged]);
      == { ExpandMerge(front, top, merged, inst.arg); }
        Expand(front + [top]) + Copies(top.op, inst.arg);
      == { SplitLast(acc); }
        Expand(acc) + Copies(top.op, inst.arg);
      ==
        Expand(acc) + rep;
      }
      VisibleAppend(Expand(acc), rep);
    } else if Recognised(inst.op) {
      AbsorbExpandPush(acc, inst);
      VisibleAppend(Expand(acc), rep);
    } else {
      assert Absorb(acc, inst) == acc;
      VisibleNone(inst.op, inst.arg);
    }
  }

  lemma SplitLast(p: seq<Instr>)
    requires |p| > 0
    ensures p == p[..|p| - 1] + [p[|p| - 1]]
  {
  }

  /** Merging `n` more copies into the last instruction appends `n` copies. */
  lemma ExpandMerge(front: seq<Instr>, top: Instr, merged: Instr, n: nat)
    requires merged.op == top.op && merged.arg == top.arg + n
    ensures Expand(front + [merged]) == Expand(front + [top]) + Copies(top.op, n)
  {
    ExpandSnoc(front, merged);
    ExpandSnoc(front, top);
    CopiesSplit(top.op, top.arg, n);
    AppendAssoc(Expand(front), Copies(top.op, top.arg), Copies(top.op, n));
  }

  lemma AbsorbMergeShape(acc: seq<Instr>, inst: Instr)
    requires |acc| > 0 && inst.op == acc[|acc| - 1].op && !IsBracket(inst.op)
    requires acc[|acc| - 1].arg + inst.arg < Modulus
    ensures Absorb(acc, inst) == acc[..|acc| - 1] + [Instr(inst.op, acc[|acc| - 1].arg + inst.arg)]
  {
    UpdateLast(acc, Instr(inst.op, acc[|acc| - 1].arg + inst.arg));
  }

  lemma UpdateLast(p: seq<Instr>, x: Instr)
    requires |p| > 0
    ensures p[|p| - 1 := x] == p[..|p| - 1] + [x]
  {
  }

  lemma {:induction false} CopiesSplit(c: char, a: nat, b: nat)
    ensures Copies(c, a + b) == Copies(c, a) + Copies(c, b)
    decreases b
  {
    if b > 0 {
      CopiesSplit(c, a, b - 1);
    }
  }

  lemma ExpandSnoc(p: seq<Instr>, x: Instr)
    ensures Expand(p + [x]) == Expand(p) + Copies(x.op, x.arg)
  {
    assert (p + [x])[..|p|] == p;
  }

  lemma AbsorbExpandPush(acc: seq<Instr>, inst: Instr)
    requires |acc| > 0 && !(inst.op == acc[|acc| - 1].op && !IsBracket(inst.op)) && Recognised(inst.op)
    ensures Expand(Absorb(acc, inst)) == Expand(acc) + Copies(inst.op, inst.arg)
  {
    var r := Absorb(acc, inst);
    assert r == acc + [inst];
    assert r[..|acc|] == acc;
  }

  lemma AbsorbArgsAtMost(acc: seq<Instr>, inst: Instr, b: int)
    requires |acc| > 0 && ArgsAtMost(acc, b) && inst.arg <= 1 && b + 1 < Modulus
    ensures ArgsAtMost(Absorb(acc, inst), b + 1)
  {
  }

  lemma {:induction false} FoldExpand(acc: seq<Instr>, s: seq<Instr>, b: nat)
    requires |acc| > 0 && ArgsAtMost(acc, b) && b + |s| < Modulus
    requires forall k :: 0 <= k < |s| ==> s[k].arg == 1
    ensures Visible(Expand(Fold(acc, s))) == Visible(Expand(acc)) + Visible(Ops(s))
    decreases |s|
  {
    if s == [] {
      assert Ops(s) == [];
    } else {
      var a := Absorb(acc, s[0]);
      var t := s[1..];
      calc {
        Visible(Expand(Fold(acc, s)));
        { assert Fold(acc, s) == Fold(a, t); }
        Visible(Expand(Fold(a, t)));
        { AbsorbArgsAtMost(acc, s[0], b);
          FoldExpand(a, t, b + 1); }
        Visible(Expand(a)) + Visible(Ops(t));
        { AbsorbExpand(acc, s[0]);
          assert Copies(s[0].op, s[0].arg) == [s[0].op]; }
        Visible(Expand(acc)) + Visible([s[0].op]) + Visible(Ops(t));
        { AppendAssoc(Visible(Expand(acc)), Visible([s[0].op]), Visible(Ops(t))); }
        Visible(Expand(acc)) + (Visible([s[0].op]) + Visible(Ops(t)));
        { assert Ops(s) == [s[0].op] + Ops(t);
          VisibleAppend([s[0].op], Ops(t)); }
        Visible(Expand(acc)) + Visible(Ops(s));
      }
    }
  }

  /** Round trip: for a source of fewer than 2^16 characters (so that no
      merged count wraps), expanding every reduced instruction `arg` times
      gives back exactly the source's operators, in source order. */
  lemma ReduceRoundTrip(source: string)
    requires 0 < |source| < Modulus
    ensures Visible(Expand(Reduce(Parsed(source)).value)) == Visible(source)
  {
    var p := Parsed(source);
    var seed := [Instr(p[0].op, 0)];
    assert seed[..0] == [];
    assert Expand(seed) == [];
    FoldExpand(seed, p, 0);
    assert Ops(p) == source;
  }
}
