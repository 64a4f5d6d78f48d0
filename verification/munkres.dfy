// The performance matrix of the assignment problem and the reverse lookup
// from matrix positions back to specialist groups and work types.
//
// A group i with a[i] specialists and a work type j with b[j] workplaces
// become an a[i] x b[j] block of the square performance matrix, every cell of
// which holds the group's score for that work type. The solver (an external
// library) picks one cell per row and column; the report maps each picked
// cell back to its group and work type with a 1-based linear scan.

module Munkres {
  import opened Blocks

  /** One line of the report: 1-based group and work type, and the score read. */
  datatype PairReport = PairReport(group: nat, work: nat, performance: real)

  /**
   * Exactly the inputs for which building the matrix raises no index error:
   * the group loop reads a[0..m); the work-type loop (entered only when some
   * group below m has specialists) reads b[0..n) and writes columns up to
   * Prefix(b, n), which must fit in the Sum(a) columns; a score is read only
   * for a group and a work type that both have a non-empty block.
   */
  predicate ExpansionDefined(m: nat, n: nat, a: seq<nat>, b: seq<nat>, scores: seq<seq<real>>)
  {
    && m <= |a|
    && (Prefix(a, m) > 0 ==> n <= |b| && Prefix(b, n) <= Sum(a))
    && forall i, j :: 0 <= i < m && 0 <= j < n && j < |b| && a[i] > 0 && b[j] > 0 ==>
         i < |scores| && j < |scores[i]|
  }

  /**
   * The accesses of the expansion's loops, stated loop by loop: every group
   * i < m is read; a group with specialists runs the work-type loop, which
   * reads b[j] for every j < n; a work type with workplaces writes columns
   * up to Prefix(b, j + 1) - 1 of the Sum(a)-wide matrix and reads
   * scores[i][j].
   */
  predicate LoopAccessesInRange(m: nat, n: nat, a: seq<nat>, b: seq<nat>, scores: seq<seq<real>>)
  {
    && m <= |a|
    && forall i :: 0 <= i < m && a[i] > 0 ==>
         && n <= |b|
         && forall j :: 0 <= j < n && b[j] > 0 ==>
              Prefix(b, j + 1) <= Sum(a) && i < |scores| && j < |scores[i]|
  }

  /** The precondition of the expansion is exactly "every access is in range". */
  lemma ExpansionDefinedExact(m: nat, n: nat, a: seq<nat>, b: seq<nat>, scores: seq<seq<real>>)
    ensures ExpansionDefined(m, n, a, b, scores) <==> LoopAccessesInRange(m, n, a, b, scores)
  {
    if ExpansionDefined(m, n, a, b, scores) {
      forall i | 0 <= i < m && a[i] > 0
        ensures n <= |b|
        ensures forall j :: 0 <= j < n && b[j] > 0 ==>
                  Prefix(b, j + 1) <= Sum(a) && i < |scores| && j < |scores[i]|
      {
        PrefixMonotone(a, i + 1, m);
        forall j | 0 <= j < n && b[j] > 0
          ensures Prefix(b, j + 1) <= Sum(a)
        {
          PrefixMonotone(b, j + 1, n);
        }
      }
    }
    if LoopAccessesInRange(m, n, a, b, scores) && Prefix(a, m) > 0 {
      BlockIndexBelow(a, 0, m);
      var i := BlockIndex(a, 0);
      assert a[i] > 0;
      if Prefix(b, n) > 0 {
        var x := Prefix(b, n) - 1;
        BlockIndexBelow(b, x, n);
        var j := BlockIndex(b, x);
        assert b[j] > 0;
      }
    }
  }

  /**
   * The value of cell (r, c) of the performance matrix: the score of the
   * group and work type whose blocks contain r and c, and 0 outside the
   * blocks of groups below m and work types below n.
   */
  function Cell(m: nat, n: nat, a: seq<nat>, b: seq<nat>, scores: seq<seq<real>>, r: nat, c: nat): real
    requires ExpansionDefined(m, n, a, b, scores)
  {
    if r < Prefix(a, m) && c < Prefix(b, n) then
      BlockIndexBelow(a, r, m);
      BlockIndexBelow(b, c, n);
      scores[BlockIndex(a, r)][BlockIndex(b, c)]
    else
      0.0
  }

  /**
   * Every cell of block (i, j) holds scores[i][j]: row k of group i and
   * column l of work type j meet in that block.
   */
  lemma CellInBlock(m: nat, n: nat, a: seq<nat>, b: seq<nat>, scores: seq<seq<real>>,
                    i: nat, j: nat, k: nat, l: nat)
    requires ExpansionDefined(m, n, a, b, scores)
    requires i < m && j < n && j < |b| && k < a[i] && l < b[j]
    ensures i < |scores| && j < |scores[i]|
    ensures Cell(m, n, a, b, scores, Prefix(a, i) + k, Prefix(b, j) + l) == scores[i][j]
  {
    BlockIndexOfOffset(a, i, k);
    BlockIndexOfOffset(b, j, l);
    PrefixMonotone(a, i + 1, m);
    PrefixMonotone(b, j + 1, n);
  }

  /** All rows of one group are the same row of scores. */
  lemma RowsOfGroupIdentical(m: nat, n: nat, a: seq<nat>, b: seq<nat>, scores: seq<seq<real>>,
                             i: nat, k1: nat, k2: nat, c: nat)
    requires ExpansionDefined(m, n, a, b, scores)
    requires i < m && k1 < a[i] && k2 < a[i]
    ensures Cell(m, n, a, b, scores, Prefix(a, i) + k1, c) == Cell(m, n, a, b, scores, Prefix(a, i) + k2, c)
  {
    PrefixMonotone(a, i + 1, m);
    if c < Prefix(b, n) {
      BlockIndexOfOffset(a, i, k1);
      BlockIndexOfOffset(a, i, k2);
    }
  }

  /** All columns of one work type are the same column of scores. */
  lemma ColumnsOfWorkTypeIdentical(m: nat, n: nat, a: seq<nat>, b: seq<nat>, scores: seq<seq<real>>,
                                   j: nat, l1: nat, l2: nat, r: nat)
    requires ExpansionDefined(m, n, a, b, scores)
    requires j < n && j < |b| && l1 < b[j] && l2 < b[j]
    ensures Cell(m, n, a, b, scores, r, Prefix(b, j) + l1) == Cell(m, n, a, b, scores, r, Prefix(b, j) + l2)
  {
    if Prefix(a, m) > 0 {
      BlockIndexOfOffset(b, j, l1);
      BlockIndexOfOffset(b, j, l2);
      PrefixMonotone(b, j + 1, n);
    }
  }

  /**
   * Reading the matrix at (r, c) and looking up the 1-based group g and work
   * type w of r and c gives back the score of that group and work type.
   */
  lemma LookupInvertsExpansion(m: nat, n: nat, a: seq<nat>, b: seq<nat>, scores: seq<seq<real>>,
                               r: nat, c: nat, g: nat, w: nat)
    requires ExpansionDefined(m, n, a, b, scores)
    requires r < Prefix(a, m) && c < Prefix(b, n)
    requires 1 <= g <= |a| && Prefix(a, g - 1) <= r < Prefix(a, g)
    requires 1 <= w <= |b| && Prefix(b, w - 1) <= c < Prefix(b, w)
    ensures g - 1 < |scores| && w - 1 < |scores[g - 1]|
    ensures Cell(m, n, a, b, scores, r, c) == scores[g - 1][w - 1]
  {
    BlockIndexUnique(a, r, g - 1);
    BlockIndexUnique(b, c, w - 1);
    BlockIndexBelow(a, r, m);
    BlockIndexBelow(b, c, n);
  }

  /** Group i has a score for every work type below j that has workplaces. */
  predicate RowDefined(b: seq<nat>, scores: seq<seq<real>>, i: nat, j: nat)
    requires j <= |b|
  {
    forall j' :: 0 <= j' < j && b[j'] > 0 ==> i < |scores| && j' < |scores[i]|
  }

  /**
   * Group i's scores spread over the workplaces of work types 0 .. j-1: one
   * entry per workplace, in column order.
   */
  function WorkRow(b: seq<nat>, scores: seq<seq<real>>, i: nat, j: nat): (row: seq<real>)
    requires j <= |b| && RowDefined(b, scores, i, j)
    ensures |row| == Prefix(b, j)
    decreases j
  {
    if j == 0 then []
    else if b[j - 1] == 0 then WorkRow(b, scores, i, j - 1)
    else WorkRow(b, scores, i, j - 1) + seq(b[j - 1], _ => scores[i][j - 1])
  }

  /** Column c of the spread-out row holds the score of the work type whose block contains c. */
  lemma {:induction false} WorkRowAt(b: seq<nat>, scores: seq<seq<real>>, i: nat, j: nat, c: nat)
    requires j <= |b| && RowDefined(b, scores, i, j)
    requires c < Prefix(b, j)
    ensures c < Sum(b) && BlockIndex(b, c) < j
    ensures i < |scores| && BlockIndex(b, c) < |scores[i]|
    ensures WorkRow(b, scores, i, j)[c] == scores[i][BlockIndex(b, c)]
  {
    BlockIndexBelow(b, c, j);
    if c < Prefix(b, j - 1) {
      WorkRowAt(b, scores, i, j - 1, c);
    } else {
      BlockIndexUnique(b, c, j - 1);
    }
  }

  /**
   * The row every specialist of group i gets: the group's scores spread over
   * all workplaces of work types below n, then 0 up to the matrix width.
   */
  function ExpandedRow(m: nat, n: nat, a: seq<nat>, b: seq<nat>, scores: seq<seq<real>>, i: nat): (row: seq<real>)
    requires ExpansionDefined(m, n, a, b, scores) && i < m && a[i] > 0
    ensures |row| == Sum(a)
  {
    PrefixMonotone(a, i + 1, m);
    WorkRow(b, scores, i, n) + seq(Sum(a) - Prefix(b, n), _ => 0.0)
  }

  /** Every row of group i is the group's expanded row. */
  lemma ExpandedRowIsCell(m: nat, n: nat, a: seq<nat>, b: seq<nat>, scores: seq<seq<real>>, i: nat, k: nat, c: nat)
    requires ExpansionDefined(m, n, a, b, scores) && i < m && k < a[i] && c < Sum(a)
    ensures ExpandedRow(m, n, a, b, scores, i)[c] == Cell(m, n, a, b, scores, Prefix(a, i) + k, c)
  {
    BlockIndexOfOffset(a, i, k);
    PrefixMonotone(a, i + 1, m);
    if c < Prefix(b, n) {
      WorkRowAt(b, scores, i, n, c);
    }
  }

  /** Rows above R hold their final value; the others still hold the initial 0. */
  ghost predicate FilledAbove(matrix: array2<real>, m: nat, n: nat, a: seq<nat>, b: seq<nat>,
                              scores: seq<seq<real>>, R: nat)
    requires ExpansionDefined(m, n, a, b, scores)
    reads matrix
  {
    forall r, c :: 0 <= r < matrix.Length0 && 0 <= c < matrix.Length1 ==>
      matrix[r, c] == if r < R then Cell(m, n, a, b, scores, r, c) else 0.0
  }

  /**
   * The two inner loops for one specialist of group i: work type by work
   * type, the group's score goes into every workplace column of the row.
   */
  method FillSpecialistRow(matrix: array2<real>, m: nat, n: nat, specialistsCountByGroup: seq<nat>,
                           workplacesCount: seq<nat>, performanceByGroup: seq<seq<real>>, i: nat, row: nat)
    requires ExpansionDefined(m, n, specialistsCountByGroup, workplacesCount, performanceByGroup)
    requires i < m && specialistsCountByGroup[i] > 0
    requires row < matrix.Length0 && matrix.Length1 == Sum(specialistsCountByGroup)
    requires forall c :: 0 <= c < matrix.Length1 ==> matrix[row, c] == 0.0
    modifies matrix
    ensures forall c :: 0 <= c < matrix.Length1 ==>
      matrix[row, c] == ExpandedRow(m, n, specialistsCountByGroup, workplacesCount, performanceByGroup, i)[c]
    ensures forall r, c :: 0 <= r < matrix.Length0 && 0 <= c < matrix.Length1 && r != row ==>
      matrix[r, c] == old(matrix[r, c])
  {
    PrefixMonotone(specialistsCountByGroup, i + 1, m);
    var currColumn := 0;
    for j := 0 to n
      invariant currColumn == Prefix(workplacesCount, j)
      invariant forall c :: 0 <= c < matrix.Length1 ==>
        matrix[row, c] == if c < currColumn then WorkRow(workplacesCount, performanceByGroup, i, j)[c] else 0.0
      invariant forall r, c :: 0 <= r < matrix.Length0 && 0 <= c < matrix.Length1 && r != row ==>
        matrix[r, c] == old(matrix[r, c])
    {
      var workplacesCountForWork := workplacesCount[j];
      PrefixMonotone(workplacesCount, j + 1, n);
      for l := 0 to workplacesCountForWork
        invariant forall c :: 0 <= c < matrix.Length1 ==>
          matrix[row, c] == if c < currColumn then WorkRow(workplacesCount, performanceByGroup, i, j)[c]
                            else if c < currColumn + l then performanceByGroup[i][j] else 0.0
        invariant forall r, c :: 0 <= r < matrix.Length0 && 0 <= c < matrix.Length1 && r != row ==>
          matrix[r, c] == old(matrix[r, c])
      {
        matrix[row, currColumn + l] := performanceByGroup[i][j];
      }
      currColumn := currColumn + workplacesCountForWork;
    }
  }

  /**
   * Builds the N x N performance matrix, N the total number of specialists:
   * zero-filled, then the block of group i and work type j set to the
   * group's score for that work type, for every i < m and j < n.
   */
  method MakePerformanceMatrix(m: nat, n: nat, specialistsCountByGroup: seq<nat>, workplacesCount: seq<nat>,
                               performanceByGroup: seq<seq<real>>)
    returns (matrix: array2<real>)
    requires ExpansionDefined(m, n, specialistsCountByGroup, workplacesCount, performanceByGroup)
    ensures fresh(matrix)
    ensures matrix.Length0 == Sum(specialistsCountByGroup) && matrix.Length1 == Sum(specialistsCountByGroup)
    ensures forall r, c :: 0 <= r < matrix.Length0 && 0 <= c < matrix.Length1 ==>
      matrix[r, c] == Cell(m, n, specialistsCountByGroup, workplacesCount, performanceByGroup, r, c)
  {
    var totalSpecialistsCount := Sum(specialistsCountByGroup);
    matrix := new real[totalSpecialistsCount, totalSpecialistsCount]((_, _) => 0.0);
    var currRow := 0;
    PrefixMonotone(specialistsCountByGroup, m, |specialistsCountByGroup|);
    for i := 0 to m
      invariant currRow == Prefix(specialistsCountByGroup, i)
      invariant FilledAbove(matrix, m, n, specialistsCountByGroup, workplacesCount, performanceByGroup, currRow)
    {
      var specialistsCountInGroup := specialistsCountByGroup[i];
      PrefixMonotone(specialistsCountByGroup, i + 1, m);
      for k := 0 to specialistsCountInGroup
        invariant FilledAbove(matrix, m, n, specialistsCountByGroup, workplacesCount, performanceByGroup, currRow + k)
      {
        ghost var row := currRow + k;
        FillSpecialistRow(matrix, m, n, specialistsCountByGroup, workplacesCount, performanceByGroup,
                          i, currRow + k);
        forall c | 0 <= c < matrix.Length1
          ensures matrix[row, c] == Cell(m, n, specialistsCountByGroup, workplacesCount, performanceByGroup, row, c)
        {
          ExpandedRowIsCell(m, n, specialistsCountByGroup, workplacesCount, performanceByGroup, i, k, c);
        }
      }
      currRow := currRow + specialistsCountInGroup;
    }
  }

  /**
   * 1-based number of the group whose block of rows contains row; a negative
   * row never enters the scan and gives 0.
   */
  method GetSpecialistGroupByRow(row: int, specialistsCountByGroup: seq<nat>) returns (groupIndex: nat)
    requires row < Sum(specialistsCountByGroup)
    ensures row < 0 ==> groupIndex == 0
    ensures 0 <= row ==> 1 <= groupIndex <= |specialistsCountByGroup|
    ensures 0 <= row ==> Prefix(specialistsCountByGroup, groupIndex - 1) <= row < Prefix(specialistsCountByGroup, groupIndex)
    ensures 0 <= row ==> groupIndex == BlockIndex(specialistsCountByGroup, row) + 1
  {
    var specialistsCounter := 0;
    groupIndex := 0;
    while row >= specialistsCounter
      invariant groupIndex <= |specialistsCountByGroup|
      invariant specialistsCounter == Prefix(specialistsCountByGroup, groupIndex)
      invariant 0 < groupIndex ==> Prefix(specialistsCountByGroup, groupIndex - 1) <= row
      decreases |specialistsCountByGroup| - groupIndex
    {
      groupIndex := groupIndex + 1;
      specialistsCounter := specialistsCounter + specialistsCountByGroup[groupIndex - 1];
    }
    if 0 <= row {
      BlockIndexUnique(specialistsCountByGroup, row, groupIndex - 1);
    }
  }

  /**
   * 1-based number of the work type whose block of columns contains column;
   * a negative column never enters the scan and gives 0.
   */
  method GetWorkByColumn(column: int, workplacesCount: seq<nat>) returns (workIndex: nat)
    requires column < Sum(workplacesCount)
    ensures column < 0 ==> workIndex == 0
    ensures 0 <= column ==> 1 <= workIndex <= |workplacesCount|
    ensures 0 <= column ==> Prefix(workplacesCount, workIndex - 1) <= column < Prefix(workplacesCount, workIndex)
    ensures 0 <= column ==> workIndex == BlockIndex(workplacesCount, column) + 1
  {
    var workplacesCounter := 0;
    workIndex := 0;
    while column >= workplacesCounter
      invariant workIndex <= |workplacesCount|
      invariant workplacesCounter == Prefix(workplacesCount, workIndex)
      invariant 0 < workIndex ==> Prefix(workplacesCount, workIndex - 1) <= column
      decreases |workplacesCount| - workIndex
    {
      workIndex := workIndex + 1;
      workplacesCounter := workplacesCounter + workplacesCount[workIndex - 1];
    }
    if 0 <= column {
      BlockIndexUnique(workplacesCount, column, workIndex - 1);
    }
  }

  /**
   * The report loop over the solver's (row, column) pairs: for each pair, the
   * score read from the matrix and the 1-based group and work type it maps to.
   */
  method ReportAssignment(matrix: array2<real>, indexes: seq<(nat, nat)>,
                          specialistsCountByGroup: seq<nat>, workplacesCount: seq<nat>)
    returns (results: seq<PairReport>)
    requires forall t :: 0 <= t < |indexes| ==>
      indexes[t].0 < matrix.Length0 && indexes[t].1 < matrix.Length1 &&
      indexes[t].0 < Sum(specialistsCountByGroup) && indexes[t].1 < Sum(workplacesCount)
    ensures |results| == |indexes|
    ensures forall t :: 0 <= t < |indexes| ==>
      results[t] == PairReport(BlockIndex(specialistsCountByGroup, indexes[t].0) + 1,
                               BlockIndex(workplacesCount, indexes[t].1) + 1,
                               matrix[indexes[t].0, indexes[t].1])
  {
    results := [];
    for t := 0 to |indexes|
      invariant |results| == t
      invariant forall s :: 0 <= s < t ==>
        results[s] == PairReport(BlockIndex(specialistsCountByGroup, indexes[s].0) + 1,
                                 BlockIndex(workplacesCount, indexes[s].1) + 1,
                                 matrix[indexes[s].0, indexes[s].1])
    {
      var (row, column) := indexes[t];
      var performance := matrix[row, column];
      var specialistGroup := GetSpecialistGroupByRow(row, specialistsCountByGroup);
      var work := GetWorkByColumn(column, workplacesCount);
      results := results + [PairReport(specialistGroup, work, performance)];
    }
  }

  /** The report line names a group and work type whose score it carries. */
  predicate ReportsScoreOf(line: PairReport, scores: seq<seq<real>>)
  {
    && 1 <= line.group <= |scores|
    && 1 <= line.work <= |scores[line.group - 1]|
    && line.performance == scores[line.group - 1][line.work - 1]
  }

  /**
   * The program's chain from the inputs to the report, with the solver's
   * chosen pairs given as a parameter: every pair inside the blocks is
   * reported with the score of the group and work type it maps back to,
   * and every other pair with 0.
   */
  method ExpandAndReport(m: nat, n: nat, specialistsCountByGroup: seq<nat>, workplacesCount: seq<nat>,
                         performanceByGroup: seq<seq<real>>, indexes: seq<(nat, nat)>)
    returns (results: seq<PairReport>)
    requires ExpansionDefined(m, n, specialistsCountByGroup, workplacesCount, performanceByGroup)
    requires forall t :: 0 <= t < |indexes| ==>
      indexes[t].0 < Sum(specialistsCountByGroup) && indexes[t].1 < Sum(specialistsCountByGroup) &&
      indexes[t].1 < Sum(workplacesCount)
    ensures |results| == |indexes|
    ensures forall t :: 0 <= t < |indexes| ==>
      results[t].group == BlockIndex(specialistsCountByGroup, indexes[t].0) + 1 &&
      results[t].work == BlockIndex(workplacesCount, indexes[t].1) + 1
    ensures forall t :: 0 <= t < |indexes| ==>
      if indexes[t].0 < Prefix(specialistsCountByGroup, m) && indexes[t].1 < Prefix(workplacesCount, n)
      then ReportsScoreOf(results[t], performanceByGroup)
      else results[t].performance == 0.0
  {
    var matrix := MakePerformanceMatrix(m, n, specialistsCountByGroup, workplacesCount, performanceByGroup);
    results := ReportAssignment(matrix, indexes, specialistsCountByGroup, workplacesCount);
    forall t | 0 <= t < |indexes| && indexes[t].0 < Prefix(specialistsCountByGroup, m)
                                  && indexes[t].1 < Prefix(workplacesCount, n)
      ensures ReportsScoreOf(results[t], performanceByGroup)
    {
      var (row, column) := indexes[t];
      LookupInvertsExpansion(m, n, specialistsCountByGroup, workplacesCount, performanceByGroup,
                             row, column, results[t].group, results[t].work);
    }
  }

  // The documented example of make_performance_matrix: counts [1, 2, 3] and [2, 4].
  const ExampleScores: seq<seq<real>> := [[0.3, 0.9], [0.2, 0.8], [0.5, 0.3]]
  const ExampleMatrix: seq<seq<real>> := [
    [0.3, 0.3, 0.9, 0.9, 0.9, 0.9],
    [0.2, 0.2, 0.8, 0.8, 0.8, 0.8],
    [0.2, 0.2, 0.8, 0.8, 0.8, 0.8],
    [0.5, 0.5, 0.3, 0.3, 0.3, 0.3],
    [0.5, 0.5, 0.3, 0.3, 0.3, 0.3],
    [0.5, 0.5, 0.3, 0.3, 0.3, 0.3]
  ]

  /** The documented 3 x 2 example expands to the documented 6 x 6 matrix. */
  lemma DocumentedExample()
    ensures ExpansionDefined(3, 2, [1, 2, 3], [2, 4], ExampleScores)
    ensures Sum([1, 2, 3]) == 6
    ensures forall r, c :: 0 <= r < 6 && 0 <= c < 6 ==>
      Cell(3, 2, [1, 2, 3], [2, 4], ExampleScores, r, c) == ExampleMatrix[r][c]
  {
  }
}
