# tri: a verified model of a 16-bit Brainfuck-style interpreter

`tri.cxx` interprets a Brainfuck-like language whose cells and pointers are
16-bit unsigned words (`TriWord`). `eval` runs a source string through four
stages:

1. `parse` turns every character into an instruction `{ch, 1}`.
2. `reduce_rle` collapses runs of equal non-bracket operators into one
   instruction carrying the wrapped count. It seeds its output with
   `{program.at(0).op, 0}` and drops characters that are not operators.
3. The bracket-resolution loop writes into the argument of every `[` and `]`
   the distance `linear_scan` finds to its partner. The scan goes forward
   for `[` and backward for `]`, and the argument is overwritten in place.
4. The tape machine runs the program on a sparse tape of 16-bit cells.
   `.` writes the low byte of the current cell `arg` times, and the loop
   stops when the instruction pointer reaches the end.

The Dafny modules follow those stages. Each source loop is an imperative
method proved equal to a specification function:

- `Words`: `Word`, `Byte`, and `Wrap`, which is every `uint16_t` truncation.
- `Instructions`: `Instr`, the `std::out_of_range` error, and `Parse`.
- `Rle`: the reducer.
- `Scan`: `linear_scan` over an `array`.
- `Resolve`: the in-place resolution loop, plus matched-bracket reasoning.
- `Machine`: one step, fuel-bounded runs, and the machine loop.
- `Interpreter`: `eval`, end to end.
- `Traces`: concrete runs of `eval`.

The quirks of the code are modelled as written:

- **Empty source.** It raises `std::out_of_range`, modelled as `Failure(OutOfRange)`.
- **Leading bracket.** A source starting with `[` or `]` has that bracket twice after reduction (`Rle.ReduceLeadingBracket`). When the source's loops never close more than they open, the extra `[` finds no partner, so on the blank tape it jumps straight to the last instruction (`Interpreter.LeadingBracketJumpsToEnd`).
- **Backward scan.** It never looks at index 0.
- **Leading `]`.** The backward scan of every `]` starts at `(cbegin() - 1) + offset` (tri.cxx:135). For a `]` at index 0 that is one slot before the vector. The walk then moves away from `cbegin()`, so it never reaches its end. The model makes a leading `]` a precondition (`NoLeadingClose`, `Accepted`).
- **Integer widths.** Every `int`-to-`uint16_t` store, and every wrap of a cell or pointer, goes through `Wrap`. No operation needs a size bound.

`+++[-.]` decrements before it writes, so it outputs 2, 1, 0
(`Traces.TraceCountdown`).

## Model

| member | source | states |
|---|---|---|
| Words.Wrap | tri.cxx:46 | storing an integer into a `TriWord` keeps the value when it is in range and otherwise changes it by a multiple of 2^16 |
| Words.LowByte | tri.cxx:181 | `static_cast<char>` of a cell keeps the cell modulo 256, and keeps cells below 256 unchanged |
| Instructions.Recognised | tri.cxx:111 | the reducer keeps exactly `[ ] + - < > . ,`; both brackets are among them, and each is a single ASCII byte |
| Instructions.Parse | tri.cxx:85-95 | the program has one instruction per input character, and instruction k is `{input[k], 1}` in source order |
| Rle.Absorb | tri.cxx:105-114 | one reducer iteration never empties the output and never changes its first operator |
| Rle.Fold | tri.cxx:103-115 | the reducer loop keeps the output non-empty and keeps its first operator |
| Rle.Reduce | tri.cxx:97-118 | fails exactly on the empty program; otherwise the output is non-empty and starts with the input's first operator |
| Rle.ReduceRle | tri.cxx:97-118 | the vector-building loop, with the in-place increment of the back element, yields `Reduce` |
| Rle.ReduceShape | tri.cxx:105-114 | no two adjacent output instructions share a non-bracket operator, and a non-operator character can appear only at index 0 (the seed) |
| Rle.ReduceBracketCount | tri.cxx:101-114 | the output has as many `[` (resp. `]`) as the input, plus one when the input starts with that bracket |
| Rle.ReduceArgSum | tri.cxx:107-113 | for every recognised operator, the output's arguments add up to the input's modulo 2^16 |
| Rle.UnitSumIsCount | tri.cxx:91 | in a parsed program, the arguments of an operator add up to the number of its occurrences |
| Rle.ReduceLength | tri.cxx:97-118 | the output holds at least the seed and at most one instruction more than the input |
| Rle.ReduceBracketOrder | tri.cxx:101-114 | the output's brackets, in order, are the seed's operator when it is a bracket, followed by exactly the input's brackets in input order |
| Rle.ReduceRoundTrip | tri.cxx:97-118 | for a source of fewer than 2^16 characters, repeating each reduced operator `arg` times gives back exactly the source's operators, in source order, with the comments dropped |
| Rle.ReduceLeadingBracket | tri.cxx:101-113 | a program starting with a bracket reduces to the seed `{op, 0}` followed by the original first instruction |
| Scan.Slots | tri.cxx:59-61 | the walk from `start` to `end` visits exactly `abs(end - start)` slots |
| Scan.ScanCount | tri.cxx:54-77 | the scan result never exceeds the number of visited slots |
| Scan.LinearScan | tri.cxx:54-77 | the iterator loop, with its post-decrement of the skip depth, returns `ScanCount` of the visited operators |
| Scan.ScanFindsFirstHit | tri.cxx:61-76 | the result is the 1-based position of the first `target` met at skip depth 0; when there is none, it is the number of visited slots |
| Scan.SlotsReadOnlyOps | tri.cxx:65-70 | the scan depends only on the operators, never on the arguments |
| Resolve.ForwardDistance | tri.cxx:130-131 | the forward scan from the slot after `i` never jumps past the last instruction, and it is 0 only when `i` is the last instruction |
| Resolve.BackwardDistance | tri.cxx:134-135 | the backward scan from the slot before `j` never jumps back past index 1, and it is 0 only when `j` is 1 |
| Resolve.ResolveAt | tri.cxx:128-140 | one iteration of the resolution loop keeps the operator, leaves a non-bracket unchanged, and for a program of at most 2^16 instructions gives each bracket a jump that stays in range |
| Resolve.Resolved | tri.cxx:125-143 | resolution keeps the length and every operator, and leaves non-bracket instructions unchanged |
| Resolve.ResolveOne | tri.cxx:126-140 | the `switch` of one loop iteration, scanning the vector as it stands, computes `ResolveAt` of the original program, because the earlier overwrites changed only arguments |
| Resolve.ResolveJumps | tri.cxx:125-143 | the in-place loop, whose later scans read the vector it is overwriting, produces `Resolved` of the original program |
| Resolve.ResolvedJumpsInRange | tri.cxx:130-136 | for a program not starting with `]`, every `[` at i gets `i + arg <= size - 1` and every `]` at j gets `j - arg >= 1` |
| Resolve.ForwardFindsPartner | tri.cxx:130-132 | the forward scan of a matched `[` at i stops at its partner `]` at j, returning `j - i` |
| Resolve.BackwardFindsPartner | tri.cxx:134-136 | the backward scan of a matched `]` at j returns `j - i`, or `j - 1` when the partner is at index 0, which the scan never visits |
| Resolve.ResolvedMatchedPair | tri.cxx:125-143 | for a matched pair, resolution stores `j - i` at i, and at j stores `j - i` (`j - 1` when i = 0) |
| Resolve.SeedScansToEnd | tri.cxx:130-132 | a leading `[` whose remaining slots never close more than they open has no partner, so it jumps to the last instruction |
| Machine.Read | tri.cxx:159 | `tape[data_ptr]` on the `std::map` reads the stored value, and 0 for a cell never written |
| Machine.ReadAfterWrite | tri.cxx:159-166 | a write to one cell is seen by a read of that cell and by no other |
| Machine.Next | tri.cxx:160 | `inst_ptr++` on a 16-bit pointer adds 1, except at 65535, where it wraps to 0 |
| Machine.Step | tri.cxx:152-213 | one machine iteration changes no cell except the current one, and only ever appends output |
| Machine.Run | tri.cxx:150-214 | a run that halts stops with the instruction pointer at or past the end, and never loses output |
| Machine.Execute | tri.cxx:145-214 | the machine loop over the local tape, pointers and output computes `Run` from the initial state |
| Machine.ExecuteOne | tri.cxx:152-213 | the switch on the current operator performs exactly one `Step` |
| Machine.Emit | tri.cxx:178-182 | the inner loop of `.` appends the byte exactly `arg` times |
| Machine.StepSemantics | tri.cxx:156-213 | per operator: `+`/`-` move the cell and `>`/`<` the data pointer by `arg` modulo 2^16; `.` appends `arg` copies of the cell's low byte; `[` on zero adds `arg` and `]` on non-zero subtracts `arg`; every other operator advances by 1 |
| Machine.StepCell | tri.cxx:158-166 | `+`/`-` change the current cell by `+arg`/`-arg` modulo 2^16, and nothing else changes it |
| Machine.StepDataPtr | tri.cxx:168-176 | `>`/`<` change the data pointer by `+arg`/`-arg` modulo 2^16, and nothing else changes it |
| Machine.AddThenSubtractRestores | tri.cxx:158-176 | `+n` then `-n` (or `>n` then `<n`) restores the tape and the data pointer exactly, despite wrap-around |
| Machine.RunMoreFuel | tri.cxx:150 | a run that halted gives the same outcome under any larger budget |
| Machine.RunOutputGrows | tri.cxx:181 | the output of a shorter run is a prefix of the output of a longer run |
| Machine.StepStaysInRange | tri.cxx:187-209 | with jumps in range, a step from inside the program lands at most one past the end |
| Machine.RunHaltsAtEnd | tri.cxx:150-214 | with jumps in range, a halted run stops exactly at the end of the program |
| Machine.LoopRoundTrip | tri.cxx:187-209 | on a matched pair, `[` goes to `]` on zero and into the body otherwise, and `]` goes back to `[` (to 1 when `[` is at 0) on non-zero and leaves the loop on zero |
| Interpreter.EvalSpec | tri.cxx:120-218 | `eval` fails exactly on the empty source; otherwise it runs the reduced, resolved program |
| Interpreter.Eval | tri.cxx:120-218 | parse, reduce, in-place resolution over an array, then the machine loop, computes `EvalSpec` |
| Interpreter.ReducedCountsSource | tri.cxx:85-113 | for every recognised operator, the reduced program's arguments add up to its number of occurrences in the source, modulo 2^16 |
| Interpreter.LeadingBracketJumpsToEnd | tri.cxx:101-190 | for a source that starts with `[`, has fewer than 2^16 characters, and has no prefix that closes more loops than it opens: the seed `[` finds no partner, gets the distance to the last instruction, and the first step jumps there |
| Interpreter.EvalHaltsAtEnd | tri.cxx:150-217 | a halted run of a non-empty source reports the final instruction pointer equal to the reduced program's length |
| Traces.TracePlusDot | tri.cxx:120-218 | `+++.` writes [3] |
| Traces.TraceTwoCells | tri.cxx:120-218 | `++>+.<.` writes [1, 2] |
| Traces.TraceComments | tri.cxx:120-218 | `+hi+.` writes [2]; comment characters are dropped |
| Traces.TraceSkippedLoop | tri.cxx:120-218 | `[-]` writes nothing and halts |
| Traces.TraceCountdown | tri.cxx:120-218 | `+++[-.]` writes [2, 1, 0] |
| Traces.TraceLeadingBracket | tri.cxx:120-218 | `[-]+.` writes [0], because the duplicated leading `[` jumps straight to the final `.` |
| Traces.TraceEndlessLoop | tri.cxx:120-218 | `+[]` is still running, having written nothing, under every step budget |

## Left out

- `getchar_unbuffered` (tri.cxx:20-44) is not modelled. It is terminal I/O through foreign termios calls, and nothing calls it.
- `log` (tri.cxx:49-52) is not modelled. It is diagnostic output, and its only call is commented out.
- `read_file_to_string` and `main` (tri.cxx:220-266) are not modelled. They are file and console plumbing: `eval` takes the source as a parameter instead.
- The output streams are not modelled (tri.cxx:181, 216-217):
  - the bytes written to standard output are returned as a sequence;
  - the final instruction pointer printed on standard error is returned in `Halted`.
- `Machine.Run`: it is bounded by a step budget (`fuel`), because an interpreted program can loop forever. The model does not claim termination. Running out of budget is the separate outcome `OutOfFuel`.
- The insert-on-read of `std::map::operator[]` (tri.cxx:159, 181, 188, 200) is not modelled. It is not observable: an absent cell reads 0 (`Machine.Read`).
- `Scan.LinearScan`: its `int` counters are unbounded, so an `int` overflow in a scan of more than 2^31 slots is not modelled.
- `Resolve.ResolveAt`, `Resolve.ResolvedMatchedPair`, `Resolve.SeedScansToEnd`, `Machine.AddThenSubtractRestores`, `Machine.StepStaysInRange`, `Machine.RunHaltsAtEnd`, `Machine.LoopRoundTrip`, `Interpreter.EvalHaltsAtEnd`: these contracts assume a program of at most (or fewer than) 2^16 instructions. Longer programs truncate the jump distances or wrap the instruction pointer, and the operations themselves model that truncation.
- `Rle.ReduceRoundTrip`, `Interpreter.LeadingBracketJumpsToEnd`: these lemmas assume a source of fewer than 2^16 characters. In a longer source a run of 2^16 equal operators wraps its count to 0, and `Rle.ReduceArgSum` states what still holds then.
- Source text: the model's `string` stands for the bytes of the source's `std::string`, one `char` per byte. The interpreter only compares characters with the eight ASCII operators and copies them into `Instr::op`, so nothing depends on how bytes above 127 would be encoded.
- `,` is treated as a no-op, as in the machine's `default` branch. No input is read.
- The model does not claim that running the reduced program matches interpreting the unreduced characters one by one. The claim is false for a source that starts with `[`: `[-]+.` writes 0 (`Traces.TraceLeadingBracket`), while character-by-character interpretation writes 1.
