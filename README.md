# Segregating the zeros of an integer array, in place

A Dafny model of `SegregateArrayZeros.segregate(int[])` from the
interview-segregate-zeros-in-array-two-pass project. The routine moves every
zero of an integer array to the front. The non-zero elements keep their
left-to-right order. It uses no second array: it makes two linear passes and
keeps only a few index cursors.

- **First pass** (`ScanZeros`): counts the zeros (`count`) and finds the
  index of the last zero (`lastZero`, or -1 when there is none).
- **Early exits** (in `Segregate`): the routine returns when there are no
  zeros, only zeros, or when the last zero sits at index 0.
- **Second pass** (`ShiftNonZeros`): a read cursor `current` walks down from
  `lastZero - 1`. `lastZero` is used as the write cursor (the "fill point").
  Each non-zero the cursor meets is copied to the fill point, its old cell is
  set to 0, and the fill point moves down one. The loop stops when the cursor
  runs off the front or the fill point reaches `count - 1`.

The source does both passes inside one method. The model splits each pass
into its own method so that each loop is verified on its own. `Segregate`
calls the two passes in the same order and returns at the same points.

Files:

- `zero_spec.dfy`, module `ZeroSpec`: the specification on values.
  - `CountZeros` counts the zeros of a sequence.
  - `NonZeros` is the subsequence of non-zero elements.
  - `IsSegregated` says every zero comes before every non-zero.
  - `Segregated(s)` is the result the routine must produce: the zeros of `s`, then `NonZeros(s)`.
  - The lemmas prove that `Segregated(s)` has the promised properties and is the only arrangement that has them.
- `segregate.dfy`, module `SegregateArrayZeros`: the routine itself, over `array<int>`.
  - `Segregate` is proved to leave `a[..] == Segregated(old(a[..]))`.
  - The backward loop's invariant is the ghost predicate `FillInvariant`.
  - Each step of the loop is proved by a lemma over plain sequences.

`ShiftNonZeros` only requires what the first pass establishes, with
`lastZero >= 0` (at least one zero). So the model also shows that two of the
early exits are shortcuts: on an all-zeros input, or one whose last zero is at
index 0, the second pass alone would leave the array unchanged. The no-zeros
exit is not a shortcut in the model. With no zero there is no fill point, and
`ShiftNonZeros` is never called on such an input.

## Model

| member | source | states |
|---|---|---|
| `SegregateArrayZeros.Segregate` | src/main/java/interview/practice/SegregateArrayZeros.java:56-84 | The array ends up as `Segregated` of its old contents. It is a permutation of the input. Its non-zero subsequence is unchanged. An already segregated input is left unchanged. |
| `SegregateArrayZeros.ScanZeros` | src/main/java/interview/practice/SegregateArrayZeros.java:57-65 | Changes nothing. `count` is the number of zeros. `lastZero` is -1 or holds a zero, and every later cell is non-zero. `lastZero == -1` exactly when `count == 0`. |
| `SegregateArrayZeros.EarlyExitsAreFixedPoints` | src/main/java/interview/practice/SegregateArrayZeros.java:66-73 | With no zeros, only zeros, or the last zero at index 0, the input already equals its segregated form, so returning early is correct. |
| `SegregateArrayZeros.LastZeroBound` | src/main/java/interview/practice/SegregateArrayZeros.java:74-76 | The last zero's index is at least `count - 1`, so the fill point starts at or after the boundary of the zero region. |
| `SegregateArrayZeros.FillInvariantInit` | src/main/java/interview/practice/SegregateArrayZeros.java:74-76 | The loop invariant holds on entry: the read cursor is at `lastZero - 1`, the fill point is at `lastZero`, and everything after it is non-zero. |
| `SegregateArrayZeros.FillInvariantMove` | src/main/java/interview/practice/SegregateArrayZeros.java:77-82 | Moving a non-zero to the fill point (which holds 0) and zeroing its old cell keeps the invariant. Cells in (current, fill] stay zero, and the placed suffix grows by that element in order. |
| `SegregateArrayZeros.FillInvariantSkip` | src/main/java/interview/practice/SegregateArrayZeros.java:76-82 | Passing over a zero keeps the invariant with the fill point unchanged. |
| `SegregateArrayZeros.LoopExitCounts` | src/main/java/interview/practice/SegregateArrayZeros.java:76 | When either half of the loop guard fails, the fill point is `count - 1`. The suffix after it is all of the input's non-zeros. The unread prefix holds only zeros. |
| `SegregateArrayZeros.LoopExitIsSegregated` | src/main/java/interview/practice/SegregateArrayZeros.java:76-83 | At loop exit the array equals `Segregated` of the input. |
| `SegregateArrayZeros.ShiftNonZeros` | src/main/java/interview/practice/SegregateArrayZeros.java:74-83 | Given the first pass's `count` and `lastZero` (with `lastZero >= 0`), the backward pass leaves the array equal to `Segregated` of its old contents. |
| `ZeroSpec.CountZerosMultiplicity` | src/main/java/interview/practice/SegregateArrayZeros.java:60-64 | The number of zeros counted equals the multiplicity of 0 in the array's multiset. |
| `ZeroSpec.AllZerosIff` | src/main/java/interview/practice/SegregateArrayZeros.java:67 | The count of zeros equals the length exactly when every element is zero. |
| `ZeroSpec.NonZeros` | src/main/java/interview/practice/SegregateArrayZeros.java:27-28 | The non-zero subsequence has only non-zero elements. Its length is the length minus the count of zeros. |
| `ZeroSpec.NonZerosMultiset` | src/main/java/interview/practice/SegregateArrayZeros.java:36 | The non-zero subsequence holds exactly the input's non-zero values with their multiplicities. |
| `ZeroSpec.NonZerosConcat` | src/main/java/interview/practice/SegregateArrayZeros.java:36 | Taking the non-zeros commutes with concatenation, so left-to-right order is preserved. |
| `ZeroSpec.Segregated` | src/main/java/interview/practice/SegregateArrayZeros.java:36 | The result has the input's length. A cell holds 0 exactly when its index is below the input's zero count. |
| `ZeroSpec.SegregatedPermutation` | src/main/java/interview/practice/SegregateArrayZeros.java:76-83 | Segregation is a permutation: the multiset is unchanged. |
| `ZeroSpec.SegregatedKeepsNonZeros` | src/main/java/interview/practice/SegregateArrayZeros.java:27-28 | Segregation keeps the non-zero subsequence unchanged. |
| `ZeroSpec.SegregatedCharacterization` | src/main/java/interview/practice/SegregateArrayZeros.java:33-37 | `t == Segregated(s)` holds exactly when `t` has the length of `s`, its zeros come first, and it has the same non-zero subsequence as `s`. Both directions are proved. |
| `ZeroSpec.SegregatedFixedPoint` | src/main/java/interview/practice/SegregateArrayZeros.java:36 | A sequence equals its segregated form exactly when its zeros already come first. |
| `ZeroSpec.SegregatedIdempotent` | src/main/java/interview/practice/SegregateArrayZeros.java:36 | Segregating twice gives the same result as segregating once. |
| `ZeroSpec.SegregatedLastZero` | src/main/java/interview/practice/SegregateArrayZeros.java:74-76 | On a segregated input with at least one zero, the last zero is at index `count - 1`. So the second half of the guard at line 76 fails at once. |
| `ZeroSpec.WorkedExample` | src/main/java/interview/practice/SegregateArrayZeros.java:43 | `[0, 1, 2, 0, 3, 0, 0, 4]` segregates to `[0, 0, 0, 0, 1, 2, 3, 4]`. |
| `SegregateArrayZeros.SegregateWorkedExample` | src/main/java/interview/practice/SegregateArrayZeros.java:43 | Running `Segregate` on a fresh array `[0, 1, 2, 0, 3, 0, 0, 4]` leaves it as `[0, 0, 0, 0, 1, 2, 3, 4]`. |
| `ZeroSpec.BoundaryCases` | src/main/java/interview/practice/SegregateArrayZeros.java:67-73 | `[]`, `[1, 2, 3]`, `[0, 0, 0]` and `[0, 1, 2]` are their own segregated forms. |

## Left out

- `main` (SegregateArrayZeros.java:86-97) is not modelled: it reads a file line by line, trims each line and prints the array. That is I/O.
- `convert` (SegregateArrayZeros.java:99-105) is not modelled: it wraps `String.split` and `Integer.parseInt`, library code whose parsing and exceptions are not visible here. The model starts from an array that is already given.
- The unit test (SegregateArrayZerosTest.java:51-54) only asserts `true` and says nothing about `segregate`.
- The O(n) time and O(1) extra space claims (SegregateArrayZeros.java:38, 53) are not contracts. The model keeps the shape behind them: two loops over the array, a constant number of integer cursors, and no second array (`t` and `s` are ghost).
- The step-by-step trace in the class comment (SegregateArrayZeros.java:45-51) is not modelled. It describes a different loop condition ("while c > 0"), and one of its intermediate arrays contradicts its own text. The model follows the coded guard at line 76.
- A null array is not modelled. Dafny's `array<int>` cannot be null, while `array.length` at SegregateArrayZeros.java:60 would throw a NullPointerException on one. The only caller (SegregateArrayZeros.java:93-94) passes the array that `convert` creates, which is never null.
- Java's 32-bit `int` is modelled as an unbounded `int`. The routine does no arithmetic on element values. Its cursors stay within `[-1, array.length]`, so nothing in it can overflow.
- `SegregateArrayZeros.Segregate`: the per-index "zeros first" property is not repeated in the method's own contract. It follows from `a[..] == Segregated(old(a[..]))` and the postcondition of `ZeroSpec.Segregated`.
