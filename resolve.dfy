/** Jump resolution (the first loop of `eval` in tri.cxx): every `[` gets
    the forward scan distance to its `]`, every `]` the backward scan
    distance to its `[`, written into the argument in place. */
module Resolve {
  import opened Words
  import opened Instructions
  import opened Scan

  /** The backward scan of a `]` at index 0 starts at `cbegin() - 1`, which
      is undefined behaviour; callers must not present such a program. */
  predicate NoLeadingClose(p: seq<Instr>) {
    |p| == 0 || p[0].op != ']'
  }

  /** Scan for the `]` of the `[` at `i`: slots `i+1 .. |p|-1`. */
  function ForwardDistance(p: seq<Instr>, i: int): (n: nat)
    requires 0 <= i < |p|
    ensures i + n <= |p| - 1
    ensures n == 0 <==> i == |p| - 1
  {
    ScanCount(Slots(p, i + 1, |p|, 1), ']', '[', 0)
  }

  /** Scan for the `[` of the `]` at `j`: slots `j-1` down to 1 (the walk
      stops at `cbegin()`, so index 0 is never visited). */
  function BackwardDistance(p: seq<Instr>, j: int): (n: nat)
    requires 1 <= j < |p|
    ensures j - n >= 1
    ensures n == 0 <==> j == 1
  {
    ScanCount(Slots(p, j - 1, 0, -1), '[', ']', 0)
  }

  /** The resolved form of the instruction at `i`; the `int` distance is
      truncated to the 16-bit argument. */
  function ResolveAt(p: seq<Instr>, i: int): (r: Instr)
    requires 0 <= i < |p| && NoLeadingClose(p)
    ensures r.op == p[i].op
    ensures !IsBracket(p[i].op) ==> r == p[i]
    ensures |p| <= Modulus && r.op == '[' ==> i + r.arg <= |p| - 1
    ensures |p| <= Modulus && r.op == ']' ==> i - r.arg >= 1
  {
    if p[i].op == '[' then Instr('[', Wrap(ForwardDistance(p, i)))
    else if p[i].op == ']' then Instr(']', Wrap(BackwardDistance(p, i)))
    else p[i]
  }

  /** The program after resolution: same operators, brackets carry their
      jump distances, every other instruction is unchanged. */
  function Resolved(p: seq<Instr>): (r: seq<Instr>)
    requires NoLeadingClose(p)
    ensures |r| == |p|
    ensures forall i :: 0 <= i < |p| ==> r[i].op == p[i].op
    ensures forall i :: 0 <= i < |p| && !IsBracket(p[i].op) ==> r[i] == p[i]
  {
    seq(|p|, i requires 0 <= i < |p| => ResolveAt(p, i))
  }

  /** One iteration of the resolution loop: the `switch` on the operator at
      `offset`, scanning the array whose operators are still those of `p`. */
  method ResolveOne(a: array<Instr>, offset: int, ghost p: seq<Instr>) returns (r: Instr)
    requires NoLeadingClose(p) && |p| == a.Length && 0 <= offset < a.Length
    requires a[offset] == p[offset]
    requires forall k :: 0 <= k < a.Length ==> a[k].op == p[k].op
    ensures r == ResolveAt(p, offset)
  {
    r := a[offset];
    assert forall k :: 0 <= k < a.Length ==> a[..][k].op == p[k].op;
    if r.op == '[' {
      var n := LinearScan(a, offset + 1, a.Length, ']', '[', 1);
      SlotsReadOnlyOps(a[..], p, offset + 1, a.Length, 1);
      r := r.(arg := Wrap(n));
    } else if r.op == ']' {
      var n := LinearScan(a, offset - 1, 0, '[', ']', -1);
      SlotsReadOnlyOps(a[..], p, offset - 1, 0, -1);
      r := r.(arg := Wrap(n));
    }
  }

  /** The resolution loop, overwriting each bracket's argument in place
      while the later scans read the same vector. */
  method ResolveJumps(a: array<Instr>)
    requires NoLeadingClose(a[..])
    modifies a
    ensures a[..] == Resolved(old(a[..]))
  {
    ghost var p := a[..];
    var offset := 0;
    while offset < a.Length
      invariant 0 <= offset <= a.Length
      invariant forall k :: 0 <= k < offset ==> a[k] == ResolveAt(p, k)
      invariant forall k :: offset <= k < a.Length ==> a[k] == p[k]
    {
      var instr := ResolveOne(a, offset, p);
      a[offset] := instr;
      offset := offset + 1;
    }
  }

  // ---------------------------------------------------------------------
  // Jumps stay inside the program

  /** Every `[` at `i` jumps to at most the last slot, and every `]` at `j`
      jumps back to at least slot 1. */
  predicate JumpsInRange(r: seq<Instr>) {
    forall i :: 0 <= i < |r| ==>
      && (r[i].op == '[' ==> i + r[i].arg <= |r| - 1)
      && (r[i].op == ']' ==> i - r[i].arg >= 1)
  }

  /** For a program not starting with `]`, resolution never produces a jump
      that leaves the program. */
  lemma ResolvedJumpsInRange(p: seq<Instr>)
    requires NoLeadingClose(p)
    ensures JumpsInRange(Resolved(p))
  {
    var r := Resolved(p);
    forall i | 0 <= i < |r|
      ensures r[i].op == '[' ==> i + r[i].arg <= |r| - 1
      ensures r[i].op == ']' ==> i - r[i].arg >= 1
    {
      if p[i].op == '[' {
        assert r[i].arg <= ForwardDistance(p, i);
      } else if p[i].op == ']' {
        assert r[i].arg <= BackwardDistance(p, i);
      }
    }
  }

  // ---------------------------------------------------------------------
  // Matched brackets

  /** Nesting depth change over slots `a .. b-1`: opens minus closes. */
  function Depth(p: seq<Instr>, a: int, b: int): int
    requires 0 <= a <= b <= |p|
    decreases b - a
  {
    if a == b then 0 else Depth(p, a, b - 1) + Weight(p[b - 1].op)
  }

  /** `[` at `i` and `]` at `j` are partners: the slots strictly between
      them are balanced and never close more than they open. */
  predicate IsMatch(p: seq<Instr>, i: int, j: int) {
    && 0 <= i < j < |p|
    && p[i].op == '[' && p[j].op == ']'
    && Depth(p, i + 1, j) == 0
    && NeverUnderflows(p, i + 1, j)
  }

  /** No prefix of slots `a .. b-1` closes more brackets than it opens. */
  predicate NeverUnderflows(p: seq<Instr>, a: int, b: int)
    requires 0 <= a <= b <= |p|
  {
    forall k :: a <= k <= b ==> Depth(p, a, k) >= 0
  }

  lemma {:induction false} DepthSplit(p: seq<Instr>, a: int, b: int, c: int)
    requires 0 <= a <= b <= c <= |p|
    ensures Depth(p, a, c) == Depth(p, a, b) + Depth(p, b, c)
    decreases c - b
  {
    if b < c {
      DepthSplit(p, a, b, c - 1);
    }
  }

  lemma {:induction false} ForwardBalance(p: seq<Instr>, a: int, b: int)
    requires 0 <= a <= b <= |p|
    ensures Balance(Slots(p, a, b, 1), '[', ']') == Depth(p, a, b)
    decreases b - a
  {
    if a < b {
      ForwardBalance(p, a + 1, b);
      DepthSplit(p, a, a + 1, b);
      assert Depth(p, a, a + 1) == Weight(p[a].op);
    }
  }

  lemma {:induction false} BackwardBalance(p: seq<Instr>, a: int, b: int)
    requires 1 <= a <= b <= |p|
    ensures Balance(Slots(p, b - 1, a - 1, -1), ']', '[') == -Depth(p, a, b)
    decreases b - a
  {
    if a < b {
      BackwardBalance(p, a, b - 1);
    }
  }

  lemma {:induction false} SlotsForwardAt(p: seq<Instr>, a: int, b: int, k: int)
    requires 0 <= a <= b <= |p| && 0 <= k <= b - a
    ensures Slots(p, a, b, 1)[..k] == Slots(p, a, a + k, 1)
    ensures k < b - a ==> Slots(p, a, b, 1)[k] == p[a + k].op
    decreases k
  {
    if k > 0 {
      SlotsForwardAt(p, a + 1, b, k - 1);
    }
  }

  lemma {:induction false} SlotsBackwardAt(p: seq<Instr>, s: int, e: int, k: int)
    requires 0 <= e <= s < |p| && 0 <= k <= s - e
    ensures Slots(p, s, e, -1)[..k] == Slots(p, s, s - k, -1)
    ensures k < s - e ==> Slots(p, s, e, -1)[k] == p[s - k].op
    decreases k
  {
    if k > 0 {
      SlotsBackwardAt(p, s - 1, e, k - 1);
    }
  }

  /** The forward scan of the `[` of a matched pair stops at its partner. */
  lemma ForwardFindsPartner(p: seq<Instr>, i: int, j: int)
    requires IsMatch(p, i, j)
    ensures ForwardDistance(p, i) == j - i
  {
    var ops := Slots(p, i + 1, |p|, 1);
    var k0 := j - i - 1;
    forall k | 0 <= k <= k0
      ensures Hit(ops, ']', '[', 0, k) <==> (p[i + 1 + k].op == ']' && Depth(p, i + 1, i + 1 + k) == 0)
    {
      SlotsForwardAt(p, i + 1, |p|, k);
      ForwardBalance(p, i + 1, i + 1 + k);
    }
    forall k | 0 <= k < k0 ensures !Hit(ops, ']', '[', 0, k) {
      var q := i + 1 + k;
      assert Depth(p, i + 1, q + 1) == Depth(p, i + 1, q) + Weight(p[q].op) >= 0;
    }
    assert Hit(ops, ']', '[', 0, k0);
    ScanFindsFirstHit(ops, ']', '[', 0);
  }

  /** The backward scan of the `]` of a matched pair stops at its partner,
      unless the partner is at index 0, which the scan never reaches. */
  lemma BackwardFindsPartner(p: seq<Instr>, i: int, j: int)
    requires IsMatch(p, i, j)
    ensures BackwardDistance(p, j) == if i >= 1 then j - i else j - 1
  {
    var ops := Slots(p, j - 1, 0, -1);
    forall k | 0 <= k < j - 1
      ensures Hit(ops, '[', ']', 0, k) <==> (p[j - 1 - k].op == '[' && Depth(p, j - k, j) == 0)
    {
      SlotsBackwardAt(p, j - 1, 0, k);
      BackwardBalance(p, j - k, j);
    }
    forall k | 0 <= k < j - 1 && j - 1 - k > i ensures !Hit(ops, '[', ']', 0, k) {
      var q := j - 1 - k;
      if p[q].op == '[' {
        DepthSplit(p, i + 1, q + 1, j);
        assert Depth(p, i + 1, q + 1) == Depth(p, i + 1, q) + 1;
      }
    }
    ScanFindsFirstHit(ops, '[', ']', 0);
    if i >= 1 {
      assert Hit(ops, '[', ']', 0, j - 1 - i);
    }
  }

  /** For a matched pair `[`@i / `]`@j in a program of at most 2^16 slots,
      resolution stores `j - i` at `i`, and at `j` stores `j - i` too,
      except that it stores `j - 1` when `i` is 0. */
  lemma ResolvedMatchedPair(p: seq<Instr>, i: int, j: int)
    requires NoLeadingClose(p) && IsMatch(p, i, j) && |p| <= Modulus
    ensures Resolved(p)[i] == Instr('[', j - i)
    ensures Resolved(p)[j] == Instr(']', if i >= 1 then j - i else j - 1)
  {
    ForwardFindsPartner(p, i, j);
    BackwardFindsPartner(p, i, j);
  }

  /** `Depth` is the nesting of the operators in the slots. */
  lemma {:induction false} DepthIsNesting(p: seq<Instr>, a: int, b: int)
    requires 0 <= a <= b <= |p|
    ensures Depth(p, a, b) == Nesting(Ops(p)[a..b])
    decreases b - a
  {
    if a < b {
      DepthIsNesting(p, a, b - 1);
      assert Ops(p)[a..b] == Ops(p)[a..b - 1] + [p[b - 1].op];
      NestingSnoc(Ops(p)[a..b - 1], p[b - 1].op);
    } else {
      assert Ops(p)[a..b] == [];
    }
  }

  /** The slots from `a` on never close more than they open when no prefix
      of their operators does. */
  lemma NeverUnderflowsFromOps(p: seq<Instr>, a: int)
    requires 0 <= a <= |p| && NoPrefixUnderflows(Ops(p)[a..])
    ensures NeverUnderflows(p, a, |p|)
  {
    forall k | a <= k <= |p|
      ensures Depth(p, a, k) >= 0
    {
      DepthIsNesting(p, a, k);
      assert Ops(p)[a..k] == Ops(p)[a..][..k - a];
    }
  }

  /** A `[` at index 0 followed by slots that never close more brackets
      than they open (the duplicated seed of a source that starts with `[`
      and is otherwise balanced) has no partner: its scan runs to the end,
      so it jumps to the last instruction. */
  lemma SeedScansToEnd(p: seq<Instr>)
    requires NoLeadingClose(p) && 0 < |p| <= Modulus && p[0].op == '['
    requires NeverUnderflows(p, 1, |p|)
    ensures Resolved(p)[0] == Instr('[', |p| - 1)
  {
    var ops := Slots(p, 1, |p|, 1);
    forall k | 0 <= k < |ops| ensures !Hit(ops, ']', '[', 0, k) {
      SlotsForwardAt(p, 1, |p|, k);
      ForwardBalance(p, 1, 1 + k);
      assert Depth(p, 1, 2 + k) == Depth(p, 1, 1 + k) + Weight(p[1 + k].op) >= 0;
    }
    ScanFindsFirstHit(ops, ']', '[', 0);
  }
}
