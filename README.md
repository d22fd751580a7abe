# Absorption probabilities of a finite Markov chain

This project models `python/absorption.py`, the helper that computes
absorption probabilities. It reads two blocks from its input:

- a transition matrix `P` over states `0..n-1`;
- a vector of "absorbing" flags.

State 0 stands for the sink, the empty outcome. The program then:

1. clears the entry `P[0,0]`;
2. classifies every state as transient, singular or absorbing. A
   transient state can reach an absorbing state. A singular state is
   neither transient nor absorbing. The classification is a backward
   worklist search over the non-zero pattern of `P` that never follows an
   edge into column 0;
3. checks that the three classes partition the states;
4. slices the linear system `A = I - P[T,T]`, `R = P[T,B]`;
5. hands the system to a sparse solver;
6. assembles the n-by-n result `XX` from the solved block `X`;
7. writes `XX` in the same line format as its input.

The model is split into modules:

- `Wrappers`: `Option` and `Result`.
- `Indices`: `np.nonzero` as `TrueIndices`, `sum` of flags as `Count`.
- `Matrices`: dense matrices of exact reals, sub-block selection, identity, difference, and the stored (non-zero) positions in row-major order.
- `LinearSystem`: `A` and `R`, and what it means for `X` to solve `A X = R`.
- `Classifier`: `get_transient`. It has two methods, `BuildPreds` (the predecessor lists) and `GetTransient` (the worklist over a Boolean array). Both are proved against a reachability specification. The module also holds the lemmas about the partition check at line 78.
- `Numerals`: `int(token)` and `'%d' % k` on decimal integers.
- `Codec`: `read_matrix` and `read_vector` as loop methods. Each is proved equal to a recursive specification of its line loop, with framing lemmas on top. The module also holds the shape of `write_matrix`'s output and the round trip through `read_matrix`.
- `Analysis`: the body of `main`. `Prepare` covers lines 48-88, starting from the decoded inputs: the shape check, the edit of `P[0,0]`, the classification, the partition check and the slicing. `Assemble` covers lines 94-98 and writes into a two-dimensional array.

Each input line is modelled as the token list that `line.split()` produces.

Two conversions are parameters:

- `parseReal` stands for `np.float64(token)`;
- `showReal` stands for `repr(value)`.

## Model

| member | source | states |
|---|---|---|
| Indices.TrueIndices | python/absorption.py:33-35 | `np.nonzero` of a flag vector is strictly ascending, holds exactly the positions whose flag is set, and its length is the number of set flags |
| Indices.CountZero | python/absorption.py:70 | `sum(not_a)` is 0 exactly when no flag is set |
| Matrices.Select | python/absorption.py:86-88 | `P[T,:][:,C]` has shape \|T\| by \|C\|, and entry (x, y) is `P[T[x]][C[y]]` |
| Matrices.Identity | python/absorption.py:87 | `sparse.eye(k)` is k by k with 1 on the diagonal and 0 elsewhere |
| Matrices.Subtract | python/absorption.py:87 | the difference of two same-shape matrices is taken entry by entry |
| Matrices.Support | python/absorption.py:156-157 | the positions `tocoo()` lists are exactly the non-zero entries, in row-major order |
| LinearSystem.SystemMatrix | python/absorption.py:86-87 | `A` is \|T\| by \|T\|, and `A[x][y]` is `[x==y] - P[T[x]][T[y]]` |
| LinearSystem.RightHandSide | python/absorption.py:86-88 | `R` is \|T\| by \|B\|, and `R[x][y]` is `P[T[x]][B[y]]` |
| LinearSystem.SystemMeansAbsorption | python/absorption.py:86-92 | `X` solves `A X = R` iff it satisfies the first-step absorption equations: the probability of absorbing T[i] at B[c] is P[T[i]][B[c]] plus the sum over T[m] of P[T[i]][T[m]] times the probability for T[m] |
| Classifier.BuildPreds | python/absorption.py:20-25 | `preds[j]` contains q exactly when `P[q][j] != 0` and `j != 0` |
| Classifier.GetTransient | python/absorption.py:15-36 | the transient list is the ascending list of states with a path of one or more edges into an absorbing state, never through column 0; the singular list is the ascending list of states that are neither transient nor absorbing; the loop terminates; each state is pushed at most once after the seeds, and the pushed states are exactly the transient ones |
| Classifier.VisitPredecessors | python/absorption.py:29-32 | one visit of a popped state s marks exactly its predecessors: a state is marked afterwards iff it was marked before or is a predecessor of s; the worklist keeps its old contents and grows by exactly the predecessors that were unmarked, and the record of pushes grows by the same states; the marks stay sound and the visited state's predecessors are all marked |
| Classifier.ClosedContainsReaching | python/absorption.py:27-32 | once the worklist is empty, the marks are closed under predecessors, so every state that can reach an absorbing state is marked |
| Classifier.SoundClosedIsTransient | python/absorption.py:27-33 | when the worklist is empty, the marked states are exactly the states that reach an absorbing state |
| Classifier.ExtendBackward | python/absorption.py:29-31 | a predecessor of an absorbing or transient state is transient |
| Classifier.CountPartition | python/absorption.py:70-78 | `n_sing + n_trans + n_abs` is n plus the number of states that are both absorbing and marked transient |
| Classifier.PartitionCheck | python/absorption.py:78 | the check at line 78 passes iff no absorbing state is marked transient |
| Classifier.PartitionCheckReach | python/absorption.py:70-78 | because line 30 does not skip absorbing predecessors, the check at line 78 passes iff no absorbing state reaches an absorbing state in one or more steps |
| Classifier.SilentAbsorbingRows | python/absorption.py:22-32 | if every absorbing row is zero outside column 0, no absorbing state is marked transient |
| Classifier.IdentityChainRejected | python/absorption.py:78 | the 2-state identity chain with both states absorbing fails the check at line 78 |
| Classifier.SameEdgesSameFlags | python/absorption.py:21-25 | two matrices with the same non-zero pattern outside column 0 classify every state alike |
| Numerals.ParseInt | python/absorption.py:117-118 | `int(token)` succeeds exactly on an optional sign followed by one or more ASCII digits; the result is negative only after a minus sign, and never negative without one |
| Numerals.ParseSigned | python/absorption.py:137 | `int` reads `-k` and `+k` as the signed value k, as `read_vector` does for the negative indices that then wrap |
| Numerals.NatToString | python/absorption.py:155-158 | `'%d' % k` for k >= 0 is a non-empty run of digits with no leading zero |
| Numerals.ParseNatToString | python/absorption.py:117-118 | `int` reads back what `'%d'` writes |
| Codec.ReadMatrix | python/absorption.py:103-122 | the loop that appends to I, J and V returns exactly what the recursive specification of the block gives, including every error |
| Codec.MatrixEntriesFraming | python/absorption.py:109-121 | after well-formed 3-token lines, a blank line ends the block: I, J and V get the lines' fields in order, and the lines after the blank line stay unread. A line with another token count is an error |
| Codec.MatrixEntriesEndOfInput | python/absorption.py:109-122 | entry lines with no blank line after them end in the end-of-input error |
| Codec.MatrixEntriesSuccess | python/absorption.py:109-114 | a successful block ends at a blank line, and every line before it is a 3-token entry |
| Codec.MatrixBlockFraming | python/absorption.py:103-122 | a header of two integers, then 3-token entry lines, then a blank line is read as the header's shape plus the entries' fields in order; the lines after the blank line stay unread |
| Codec.MatrixBlockSuccess | python/absorption.py:103-122 | a successful `read_matrix` has the header's two integers as its shape; I, J and V are the fields of the entry lines before the first blank line; the rest is unread |
| Codec.ApplyVectorEntry | python/absorption.py:135-147 | an entry is accepted iff both indices parse, the value token is truthy, and the entry is either diagonal and in range or off the diagonal in column 0. A diagonal entry sets the flag at `i` (a negative `i` counts from the end); a column-0 entry changes nothing |
| Codec.ReadVector | python/absorption.py:124-150 | the loop writing into the Boolean array returns exactly what the recursive specification of the block gives, including every error |
| Codec.VectorEntriesFraming | python/absorption.py:129-149 | after accepted entry lines, a blank line ends the block with exactly the named flags set and the rest unread. A line with another token count is an error |
| Codec.VectorEntriesEndOfInput | python/absorption.py:129-150 | entry lines with no blank line after them end in the end-of-input error |
| Codec.VectorEntriesSuccess | python/absorption.py:129-134 | a successful block ends at a blank line, and every line before it is an accepted entry |
| Codec.VectorBlockSuccess | python/absorption.py:124-150 | a successful `read_vector` has two header tokens that are equal as text and name a length m >= 0. The vector has length m, and flag x is set iff some entry line before the blank line is diagonal and names x |
| Codec.VectorEntriesKeepValues | python/absorption.py:138-142 | on split lines the value assertion never fails inside the entry loop |
| Codec.ValueNeverRejected | python/absorption.py:138-142 | `bool(a)` of a token from `split()` is always true, so `read_vector` never fails on a value |
| Codec.HeaderComparedAsText | python/absorption.py:125-127 | the header `2 02` is refused although both tokens name 2 |
| Codec.ZeroValueSetsFlag | python/absorption.py:138-145 | the entry `0 0 0` sets flag 0 |
| Codec.WriteMatrix | python/absorption.py:153-158 | the output is a header line `M N` followed by one 3-token line per stored entry, with no terminating blank line |
| Codec.WriteThenRead | python/absorption.py:153-158 | if the float conversion reads back what `repr` prints for each non-zero entry of the matrix, then reading the output followed by a blank line gives the shape and exactly the non-zero entries with their values, in row-major order, and leaves the rest unread |
| Codec.WrittenMatrixLacksTerminator | python/absorption.py:153-158 | the output alone is not a complete block for `read_matrix`: it ends in the end-of-input error |
| Analysis.ClearSinkLoop | python/absorption.py:68 | `AP[0,0] = 0` sets entry (0, 0) to 0 and leaves every other entry unchanged |
| Analysis.ClearingKeepsClasses | python/absorption.py:68-69 | clearing (0, 0) changes no edge the classifier follows, so no state changes class |
| Analysis.CheckedPartition | python/absorption.py:74-78 | when line 78 passes, T, S and B are disjoint and cover every state |
| Analysis.Prepare | python/absorption.py:48-88 | fails on a shape mismatch iff `nq == nq_ == nr` is false. Fails on the 0-state chain (the index error of `AP[0,0]`). Otherwise succeeds iff no absorbing state reaches an absorbing state. On success, T, S and B are the classification of the input matrix and partition the states, and `A` and `R` are sliced from the matrix with (0, 0) cleared |
| Analysis.Assemble | python/absorption.py:94-98 | every entry of the n-by-n result is the last value written: 1 in column 0 of a singular row, else 1 on an absorbing diagonal, else the solved value at rows T and columns B, else 0 |
| Analysis.WriteRow | python/absorption.py:95 | one row of the block write sets row T[r] at the columns B and leaves every other entry unchanged |
| Analysis.AssembledRows | python/absorption.py:94-98 | under the partition, an absorbing row is its unit row, a singular row has its 1 in column 0, and a transient row holds its solved row at the absorbing columns and 0 elsewhere |

## Left out

- `linalg.spsolve` (line 92) is a floating-point sparse LU in scipy. The solved block `X` is an input to `Analysis.Assemble`. Its shape when there is one absorbing state (a 1-D array) is not modelled.
- `Analysis.Prepare` does not call the solver. Whether `A` is non-singular, and the stochasticity of `P`, are not modelled.
- Float arithmetic is replaced by exact `real`s. `np.float64(token)` and `repr(value)` are the parameters `parseReal` and `showReal`. `Codec.WriteThenRead` assumes `parseReal` reads back what `showReal` prints for the matrix's non-zero entries. With numpy 2, `repr` of a float64 prints `np.float64(...)`, which would fail that assumption.
- The scipy and numpy representation changes are not modelled: `csr_matrix((V, (I, J)), shape)`, `tocsr`, `tocsc`, `lil_matrix`, `tocoo`, `np.ix_`. The CSR constructor also sums duplicate triples and refuses out-of-range indices and negative shapes. Matrices are dense `seq<seq<real>>`, and the reader returns the shape and the lists I, J, V as the loop builds them.
- `Numerals.ParseInt` is `int(token)` restricted to an optional sign and ASCII digits. Underscores between digits and non-ASCII digits are not modelled. Nor is the ValueError that Python 3.11 and later raise on a numeral of more than 4300 digits (`sys.int_info.default_max_str_digits`): `ParseInt` accepts numerals of any length.
- Reading stdin, line splitting and writing stdout are not modelled. Input is a list of already split lines, and output is the list of token lines printed.
- `eprint`, `verbosity` and `time.process_time` (lines 9-13 and the timing calls in `main`) are not modelled.
- Process handling under `__main__` (lines 161-170) is not modelled: the argument check, `BrokenPipeError`, and `exit(0)` in `finally`, which also hides assertion and parse failures behind status 0.
- `Analysis.Prepare` takes the decoded matrix with non-negative sides and a vector whose length is `nr`. This is what the readers deliver; the CSR step in between is not modelled.
- `Analysis.Assemble` takes T and B strictly ascending, as `np.nonzero` returns them. Repeated indices in `np.ix_` are not modelled.
- `examples/speckat/linc-oe.py` is network set-up for an emulator with an interactive shell. It is not part of this model.

In three places the code behaves otherwise than its own comments, or its companion reader, suggest; the model follows the code:

- Line 77's comment says the state space is partitioned into singular, transient and absorbing states. The loop at line 30 does mark an absorbing state transient when it is a predecessor of a reached state, so the check at line 78 can fail. `Classifier.PartitionCheckReach` states exactly when it passes. `Classifier.IdentityChainRejected` shows that the all-absorbing identity chain fails it.
- Lines 141-142 say a vector entry's value must be in {0,1} and assert it is true. `bool` of any non-empty token is true, so the token `0` is accepted and sets the flag (`Codec.ZeroValueSetsFlag`).
- `write_matrix` (lines 153-158) prints no terminating blank line, so its output is not a complete block for `read_matrix`, which stops only at a blank line (`Codec.WrittenMatrixLacksTerminator`).
