# Collatz length and 3x3 transpose, in Dafny

This project models the two functions of a small Rust course repository:

- `transpose` (nested_arrays) takes a 3x3 grid of `i32` by value. It fills a
  zero-initialised 3x3 array with two nested loops, writing row `j`, column `i`
  of the output from row `i`, column `j` of the input, and returns that array.
- `collatz_length` (collatz_sequence) counts the values that a sequence visits
  from `n` until the value is at most 1. The counter is a `u32` that starts at 1.
  An even value is halved. An odd value `n` becomes `2 * n + 1`: that is the rule
  the code applies, although its comment gives the usual `3 * n + 1`.

Files:

- `int32.dfy` (module `Int32`): the `i32` range as the subset type `I32`, and the `u32` bound.
- `transpose.dfy` (module `Transpose`): the grid as a value (`seq<seq<I32>>`, since a Rust
  array is passed and returned by value). `Transposed` is the reference definition.
  The method `Transpose` is the source's loop over a local `array2` initialised to 0, and it
  returns a ghost log of the cells it wrote. The commented-out index loop
  (nested_arrays/src/main.rs:10-14) reads the same cells in the same order as the
  enumerating loop, so `Transpose` models both.
- `collatz.dfy` (module `Collatz`): `Step` and `Run` give the loop's meaning under the rule
  the code applies. `CollatzLength` is the loop itself. `CanonicalStep` and `CanonicalRun`
  give the `3n + 1` rule of the comment, with a fuel bound.

Overflow. Under the code's rule, an odd value above 1 stays odd and only grows. The loop
therefore ends only when the start value is at most 1 or a power of two. For any other
start, the odd step `2 * n + 1` eventually overflows `i32` (once `n > 1073741823`), and a
debug build panics. The model returns this case as `Overflow(at)` instead of forbidding it
with a precondition, so `CollatzLength` is defined for every `i32` start value. The code
applies `%` and `/` only to values above 1, so Rust's truncating division and Dafny's
Euclidean division agree there.

The comment at collatz_sequence/src/main.rs:5 gives the `3n + 1` rule, and the entry
point's comment at line 18 expects 15 for 11, which only that rule gives. The code applies
`2n + 1`. The model follows the code and models the `3n + 1` rule beside it (see Findings).

## Model

| member | source | states |
|---|---|---|
| `Transpose.Transposed` | nested_arrays/src/main.rs:1-17 | the reference transpose of a 3x3 grid is again a 3x3 grid |
| `Transpose.Transpose` | nested_arrays/src/main.rs:1-17 | the nested loop over the zero-initialised buffer returns exactly the transpose of the input; its write log has N*N = 9 entries, no cell twice, every cell once |
| `Transpose.TransposedCell` | nested_arrays/src/main.rs:4-6 | for every `i, j` in `0..3`, row `j`, column `i` of the result is row `i`, column `j` of the input |
| `Transpose.DiagonalFixed` | nested_arrays/src/main.rs:6 | cells on the main diagonal keep their value (the case `i == j` of `TransposedCell`) |
| `Transpose.TransposeInvolution` | nested_arrays/src/main.rs:1-17 | transposing twice gives back the input grid |
| `Transpose.TransposePreservesCells` | nested_arrays/src/main.rs:4-8 | the multiset of cell values is unchanged: nothing created, dropped or duplicated |
| `Transpose.ZeroOnlyFromInput` | nested_arrays/src/main.rs:2-6 | an output cell of the reference transpose is 0 exactly when the mirrored input cell is 0; together with `Transpose`'s `t == Transposed(m)` this means no initial 0 of the buffer survives |
| `Transpose.ExampleGrid` | nested_arrays/src/main.rs:20-27 | the entry point's grid `[[101,102,103],[201,202,203],[301,302,303]]` transposes to `[[101,201,301],[102,202,302],[103,203,303]]` |
| `Collatz.CollatzLength` | collatz_sequence/src/main.rs:2-15 | the loop's result is the run `Run(n)`. It ends normally exactly when `n <= 1` or `n` is a power of two, with a count from 1 to 31 that fits in `u32`; for `n > 1` that count `c` satisfies `n == 2^(c-1)`, so it is log2(n) + 1. Otherwise it ends in overflow at a value above 1 whose odd step leaves `i32` |
| `Collatz.RunAtMostOne` | collatz_sequence/src/main.rs:3-4 | a start value of at most 1, zero and negatives included, gives count 1 |
| `Collatz.EvenStepShrinks` | collatz_sequence/src/main.rs:7-8 | halving an even value above 1 gives a strictly smaller value of at least 1 |
| `Collatz.OddStepGrows` | collatz_sequence/src/main.rs:9 | the odd step `2n + 1` gives an odd value strictly above `n` |
| `Collatz.OddRunOverflows` | collatz_sequence/src/main.rs:4-11 | from an odd value above 1 the run never reaches 1: it ends in overflow at an odd value at least as large |
| `Collatz.RunOfPowerOfTwo` | collatz_sequence/src/main.rs:4-12 | for `n == 2^k` the loop ends and returns `k + 1` |
| `Collatz.Pow2IsPowerOfTwo` | collatz_sequence/src/main.rs:7-8 | every `2^k` is a value that halving brings down to 1 |
| `Collatz.RunEndsIff` | collatz_sequence/src/main.rs:4-12 | the run ends without overflow if and only if `n <= 1` or `n` is a power of two |
| `Collatz.NormalRunIsPow2` | collatz_sequence/src/main.rs:4-12 | a run from `n > 1` that ends normally with count `c` has `c >= 2` and `n == 2^(c-1)`: the converse of `RunOfPowerOfTwo` |
| `Collatz.RunCountBelowLog` | collatz_sequence/src/main.rs:3-11 | a normal run of count `c` from `n` has `c == 1` or `2^(c-1) <= n` |
| `Collatz.RunCountBound` | collatz_sequence/src/main.rs:3-11 | the count of a normal run is between 1 and 31, so the `u32` counter never overflows |
| `Collatz.ElevenOverflows` | collatz_sequence/src/main.rs:18 | under the code's rule, the entry point's input 11 ends in overflow, not with 15 |
| `Collatz.CanonicalStepDirection` | collatz_sequence/src/main.rs:5 | under the `3n + 1` rule, an even step shrinks a value above 1 and an odd step gives a larger, even value |
| `Collatz.CanonicalFuelMonotone` | collatz_sequence/src/main.rs:5 | a `3n + 1` run that finishes within some fuel gives the same result with any larger fuel |
| `Collatz.CanonicalElevenIs15` | collatz_sequence/src/main.rs:18 | under the `3n + 1` rule, 11 visits 15 values, as the entry point's comment expects |
| `Collatz.RulesAgreeOnPowersOfTwo` | collatz_sequence/src/main.rs:5-9 | on powers of two both rules only halve, and they give the same result |

## Left out

- `main` in both programs: it only prints (`dbg!`, `println!`).
- Rust's `iter().enumerate()`: it is modelled as index loops over `0..3` that read the row, then the cell.
- Caller's matrix left unchanged: the grid is a value in the model, as it is in Rust, so nothing can write to the caller's copy. No separate lemma states this.
- Release builds: there the odd step wraps around instead of panicking. The wrapped value lies in -2147483645..-1, so the loop stops. The model gives the debug-build panic as `Overflow`.
- `Collatz.CollatzLength`: the counter is an unbounded `nat`. It is proved to stay at most 31 on runs that end normally. On runs that end in overflow the counter is discarded, and its bound there is not stated.
- `Collatz.CanonicalRun`: termination of the `3n + 1` rule is the open Collatz conjecture, so the run carries a fuel bound. `None` means "not finished within the fuel". This rule is a comment in the source, not its code.

## Findings

| source | as written | input that shows it | evidently intended | confidence | as-written member | corrected member |
|---|---|---|---|---|---|---|
| collatz_sequence/src/main.rs:9 | odd step `2 * n + 1` | `n = 11` is odd, so every later value is odd and grows until `2 * n + 1` leaves `i32`: `collatz_length(11)` never returns the 15 expected at line 18 | `3 * n + 1`, as in the comment at line 5, which gives 15 for 11 | high; not executed | `Collatz.ElevenOverflows` | `Collatz.CanonicalElevenIs15` |

`CollatzLength` keeps the rule the code applies, because that is what the program does.
The corrected rule is modelled beside it, as `CanonicalStep` and `CanonicalRun`.
