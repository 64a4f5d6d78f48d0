# Performance matrix and block lookup of the specialist-assignment program

The program assigns individual specialists to individual workplaces so that
total performance is as high as possible. Its input is given per group and per
work type: `a[i]` specialists in group `i`, `b[j]` workplaces of work type `j`,
and a score `scores[i][j]` for each group and work type. The program

1. expands this table into a square matrix over individual specialists and
   workplaces (`make_performance_matrix`): group `i` owns the contiguous rows
   `[a[0] + … + a[i-1], a[0] + … + a[i])`, work type `j` owns the contiguous
   columns laid out the same way from `b`, and every cell of block `(i, j)`
   holds `scores[i][j]`;
2. hands the matrix to an external Hungarian-algorithm library, which returns
   one (row, column) pair per specialist;
3. reports each pair with its score and with the 1-based group and work type
   it came from, found by a linear scan over cumulative counts
   (`get_specialist_group_by_row`, `get_work_by_column`).

This project models steps 1 and 3 in Dafny, with the library's pairs taken as
a parameter.

- `blocks.dfy` (module `Blocks`): prefix sums `Prefix(s, k)` and `Sum(s)` of a
  count list, and `BlockIndex(s, x)`, the 0-based block that contains position
  `x`, with lemmas that a position lies in exactly one block and that the
  `k`-th position of block `i` lies in block `i`.
- `munkres.dfy` (module `Munkres`):
  - `MakePerformanceMatrix` builds the matrix in a fresh `array2<real>`. It
    uses the source's loops and running offsets `currRow` and `currColumn`.
    Its two inner loops, which fill one specialist's row, are the helper
    method `FillSpecialistRow`. The result is specified cell by cell by
    `Cell`.
  - `ExpandedRow` is a second, row-wise description of the same matrix: a
    group's scores spread over the workplaces of each work type.
    `ExpandedRowIsCell` proves that the two descriptions agree.
  - `GetSpecialistGroupByRow` and `GetWorkByColumn` are the two `while`-loop
    lookups. Each is proved to return `BlockIndex + 1`.
  - `ReportAssignment` is the report loop.
  - `ExpandAndReport` chains the matrix and the report.

The matrix side is square, `Sum(a) × Sum(a)`, as in the source. The source
never checks that `Sum(b) == Sum(a)`, and the model adds no check that the
two totals agree:

- `ExpansionDefined` is exactly the condition under which the source's loops
  raise no index error:
  - `m <= |a|`;
  - when some group below `m` has specialists, `n <= |b|` and the work-type
    columns `Prefix(b, n)` fit into the `Sum(a)` columns;
  - a score exists for every group and work type whose blocks are both
    non-empty.
- When `Prefix(b, n) < Sum(a)`, the trailing columns stay 0. `Cell` says so.
- The lookups need the row (column) to be below the total count; beyond it,
  the source indexes past the end of the count list.
- With `Sum(b) < Sum(a)`, the solver's pairs use every column of the square
  matrix, so some pair lands in a trailing zero column `>= Sum(b)`, and the
  column lookup indexes past the end of `workplaces_count`. The requires of
  `ExpandAndReport` excludes such pairs.

Index errors in Python are exceptions, not return values. They are therefore
modelled as preconditions, and no error kind is added.

## Model

| member | source | states |
|---|---|---|
| Munkres.MakePerformanceMatrix | munkres.py:51-73 | the result is a fresh Sum(a) × Sum(a) matrix. Cell (r, c) holds the score of the group and work type whose blocks contain r and c. It holds 0 outside the blocks of groups below m and work types below n: the zero initialisation, and the columns left over when Prefix(b, n) < Sum(a) |
| Munkres.FillSpecialistRow | munkres.py:60-67 | the two inner loops turn an all-zero row of a group-i specialist into the group's expanded row. They leave every other row untouched. currColumn equals Prefix(b, j) at the start of work type j |
| Munkres.ExpansionDefinedExact | munkres.py:51-68 | the precondition ExpansionDefined holds exactly when every access of the loops is in range, stated loop by loop: a[i] for i < m; b[j] for j < n whenever some group below m has specialists; columns up to Prefix(b, j + 1) - 1 below Sum(a) and scores[i][j] for every group and work type that both have a non-empty block |
| Munkres.CellInBlock | munkres.py:56-67 | the k-th row of group i and the l-th column of work type j meet in a cell that holds scores[i][j], for every k < a[i] and l < b[j] |
| Munkres.RowsOfGroupIdentical | munkres.py:33-35 | any two rows of the same group are equal in every column |
| Munkres.ColumnsOfWorkTypeIdentical | munkres.py:33-35 | any two columns of the same work type are equal in every row |
| Munkres.WorkRowAt | munkres.py:60-67 | in the row built by the work-type loops, column c holds the group's score for the work type whose block contains c |
| Munkres.ExpandedRowIsCell | munkres.py:57-68 | every row of group i, read cell by cell, equals the row the work-type loops build for group i. The row-wise and cell-wise descriptions of the matrix agree |
| Blocks.OffsetsDisjoint | munkres.py:54-68 | two different (group, specialist) pairs give different row indices curr_row + k. The same holds for columns, so no cell is written twice |
| Blocks.BlockIndexOfOffset | munkres.py:56-68 | row Prefix(a, i) + k with k < a[i] lies inside the matrix and belongs to group i |
| Blocks.BlockIndexUnique | munkres.py:96-98 | a position x with Prefix(s, k) <= x < Prefix(s, k + 1) belongs to block k and to no other. A position on a boundary belongs to the block that starts there |
| Blocks.BlockIndex | munkres.py:93-100 | the block that contains x is below the number of blocks, and x lies between that block's start and end |
| Munkres.GetSpecialistGroupByRow | munkres.py:93-100 | for 0 <= row < Sum(a), the scan terminates and returns g with 1 <= g <= len(a) and Prefix(a, g - 1) <= row < Prefix(a, g), that is, BlockIndex(a, row) + 1. A negative row returns 0 |
| Munkres.GetWorkByColumn | munkres.py:102-109 | for 0 <= column < Sum(b), the scan terminates and returns w with 1 <= w <= len(b) and Prefix(b, w - 1) <= column < Prefix(b, w), that is, BlockIndex(b, column) + 1. A negative column returns 0 |
| Munkres.LookupInvertsExpansion | munkres.py:86-88 | if g and w are the lookups' results for a cell inside the blocks, then the matrix cell holds scores[g - 1][w - 1] |
| Munkres.ReportAssignment | munkres.py:85-90 | there is one report line per solver pair, in order. Each line holds the 1-based group of the row, the 1-based work type of the column, and the matrix value at the pair |
| Munkres.ExpandAndReport | munkres.py:111-114 | main's chain from the counts and scores through the expansion to the report, with the solver's pairs as a parameter: for pairs with row < Sum(a), column < Sum(a) and column < Sum(b), each report line names the 1-based group of the pair's row and the 1-based work type of its column (BlockIndex + 1). A line for a pair inside the blocks of groups below m and work types below n carries scores[group - 1][work - 1]; a line for a pair outside them (possible only when m < len(a) or n < len(b)) carries 0 |
| Munkres.DocumentedExample | munkres.py:36-49 | counts [1, 2, 3] and [2, 4] with scores [[0.3, 0.9], [0.2, 0.8], [0.5, 0.3]] meet the precondition. They expand to exactly the documented 6 × 6 matrix |

## Left out

- Reading the data file (`read_data`) is not modelled. The counts and the score table are parameters.
- All console output is not modelled. `ExpandAndReport` models the expansion-and-report chain of `main`; `read_data`, the solver call and the `__main__` guard (munkres.py:116-117) are not modelled.
- The solver (`make_cost_matrix`, `Munkres().compute`) is an external library whose code is not part of this model. Its (row, column) pairs are a parameter of `ReportAssignment` and `ExpandAndReport`. Nothing is assumed about them beyond lying inside the matrix and the lookup ranges.
- The running total `performance / total_specialists_count` is left out. It is floating-point division, so exact real arithmetic would not model it faithfully.
- The unused parameter `n` of `munkres` has no counterpart.
- Counts and the loop bounds `m` and `n` are `nat`. Negative counts make no sense for head counts and are excluded by the type; Python would accept them and produce offsets that run backwards. A negative `m` or `n` would make Python's `range` empty, so no loop would run; the model does not cover that case.
- Scores and the numpy matrix are `real` and `array2<real>`. The code only copies scores, so floating-point rounding plays no part.
- Python's negative indexing is not modelled. Every index the code computes from non-negative counts is non-negative.
