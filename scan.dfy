/** The nesting-aware bracket scan (`linear_scan` in tri.cxx). It walks
    from `start` toward `end` one slot at a time in direction `delta`,
    counting the slots it visits; a `clobber` operator raises the skip depth,
    a `target` operator lowers it, and a `target` met at depth 0 ends the
    scan. Only the operators of the slots are read. */
module Scan {
  import opened Instructions

  /** The iterator walk of `linear_scan` over a program of `n` slots stays in
      range: forward from `start` up to (excluding) `end`, or backward from
      `start` down to (excluding) `end`. */
  predicate ValidWalk(n: int, start: int, end: int, delta: int) {
    || (delta == 1 && 0 <= start <= end <= n)
    || (delta == -1 && 0 <= end <= start < n)
  }

  /** Length of the walk from `start` to `end`. */
  function WalkLength(start: int, end: int, delta: int): int {
    if delta == 1 then end - start else start - end
  }

  /** The operators of the slots visited by the walk, in visiting order. */
  function Slots(p: seq<Instr>, start: int, end: int, delta: int): (ops: seq<char>)
    requires ValidWalk(|p|, start, end, delta)
    ensures |ops| == WalkLength(start, end, delta)
    decreases WalkLength(start, end, delta)
  {
    if start == end then [] else [p[start].op] + Slots(p, start + delta, end, delta)
  }

  /** What `linear_scan` returns for the visited operators `ops`, when the
      skip depth is `skip` on entry. */
  function ScanCount(ops: seq<char>, target: char, clobber: char, skip: nat): (n: nat)
    ensures n <= |ops|
  {
    if ops == [] then 0
    else if ops[0] == target && skip == 0 then 1
    else
      var skip' := (if ops[0] == target then skip - 1 else skip) + (if ops[0] == clobber then 1 else 0);
      1 + ScanCount(ops[1..], target, clobber, skip')
  }

  /** `linear_scan` over the program held in `a`. */
  method LinearScan(a: array<Instr>, start: int, end: int, target: char, clobber: char, delta: int)
    returns (n: int)
    requires ValidWalk(a.Length, start, end, delta)
    ensures n == ScanCount(Slots(a[..], start, end, delta), target, clobber, 0)
  {
    var skip: nat := 0;
    n := 0;
    var ptr := start;
    while ptr != end
      invariant ValidWalk(a.Length, ptr, end, delta)
      invariant n + ScanCount(Slots(a[..], ptr, end, delta), target, clobber, skip)
                == ScanCount(Slots(a[..], start, end, delta), target, clobber, 0)
      decreases WalkLength(ptr, end, delta)
    {
      n := n + 1;
      if a[ptr].op == target {
        if skip == 0 {
          return;
        }
        skip := skip - 1;
      }
      if a[ptr].op == clobber {
        skip := skip + 1;
      }
      ptr := ptr + delta;
    }
  }

  // ---------------------------------------------------------------------
  // What the scan finds

  /** Number of `open` minus number of `close` operators in `ops`. */
  function Balance(ops: seq<char>, open: char, close: char): int {
    if ops == [] then 0
    else (if ops[0] == open then 1 else 0) - (if ops[0] == close then 1 else 0)
         + Balance(ops[1..], open, close)
  }

  /** Slot `k` holds a `target` reached at skip depth 0, starting at depth
      `skip`. */
  predicate Hit(ops: seq<char>, target: char, clobber: char, skip: int, k: int) {
    0 <= k < |ops| && ops[k] == target && skip + Balance(ops[..k], clobber, target) == 0
  }

  lemma HitShift(ops: seq<char>, target: char, clobber: char, skip: int, skip': int, k: int)
    requires |ops| > 0 && 0 <= k
    requires skip' == skip + (if ops[0] == clobber then 1 else 0) - (if ops[0] == target then 1 else 0)
    ensures Hit(ops, target, clobber, skip, k + 1) <==> Hit(ops[1..], target, clobber, skip', k)
  {
    if k + 1 < |ops| {
      assert ops[..k + 1][1..] == ops[1..][..k];
    }
  }

  /** `linear_scan` returns the 1-based position of the first `target`
      met at skip depth 0; when there is none, the number of slots visited. */
  lemma {:induction false} ScanFindsFirstHit(ops: seq<char>, target: char, clobber: char, skip: nat)
    ensures var n := ScanCount(ops, target, clobber, skip);
      && (forall k :: 0 <= k < n - 1 ==> !Hit(ops, target, clobber, skip, k))
      && ((0 < n && Hit(ops, target, clobber, skip, n - 1))
          || (n == |ops| && forall k :: 0 <= k < |ops| ==> !Hit(ops, target, clobber, skip, k)))
    decreases |ops|
  {
    if ops != [] && !(ops[0] == target && skip == 0) {
      var skip' := (if ops[0] == target then skip - 1 else skip) + (if ops[0] == clobber then 1 else 0);
      ScanFindsFirstHit(ops[1..], target, clobber, skip');
      assert !Hit(ops, target, clobber, skip, 0);
      forall k | 0 <= k < |ops| - 1
        ensures Hit(ops, target, clobber, skip, k + 1) <==> Hit(ops[1..], target, clobber, skip', k)
      {
        HitShift(ops, target, clobber, skip, skip', k);
      }
      var n := ScanCount(ops, target, clobber, skip);
      forall k | 0 <= k < n - 1 ensures !Hit(ops, target, clobber, skip, k) {
        if k > 0 {
          HitShift(ops, target, clobber, skip, skip', k - 1);
        }
      }
      if n - 1 > 0 {
        HitShift(ops, target, clobber, skip, skip', n - 2);
      }
      forall k | 0 < k < |ops| ensures Hit(ops, target, clobber, skip, k) <==> Hit(ops[1..], target, clobber, skip', k - 1) {
        HitShift(ops, target, clobber, skip, skip', k - 1);
      }
    }
  }

  /** The visited operators depend only on the operators of the program,
      never on the arguments: the scan reads only `op`. */
  lemma {:induction false} SlotsReadOnlyOps(p: seq<Instr>, q: seq<Instr>, start: int, end: int, delta: int)
    requires |p| == |q| && ValidWalk(|p|, start, end, delta)
    requires forall k :: 0 <= k < |p| ==> p[k].op == q[k].op
    ensures Slots(p, start, end, delta) == Slots(q, start, end, delta)
    decreases WalkLength(start, end, delta)
  {
    if start != end {
      SlotsReadOnlyOps(p, q, start + delta, end, delta);
    }
  }
}
