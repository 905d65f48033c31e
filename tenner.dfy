/**
  The Tenner grid model builder. The input is the pair (grid, sums): n rows of
  ten entries, -1 for an empty cell and the pre-set digit otherwise, and the
  required sum of each of the ten columns. The builder makes one variable per
  cell and the table constraints of two models; the CSP registers the
  variables in row-major order, so cell (r, c) is variable Cell(r, c).
*/
module Tenner {
  import opened Wrappers
  import opened CspBase

  /** The digits 0 .. 9, the domain of an empty cell. */
  function Digits(): (r: set<int>)
    ensures forall k :: k in r <==> 0 <= k < 10
    ensures |r| == 10
  {
    {0, 1, 2, 3, 4, 5, 6, 7, 8, 9}
  }

  /** The variable of cell (r, c) once the board is registered row by row. */
  function Cell(r: nat, c: nat): nat {
    10 * r + c
  }

  /** Distinct cells are distinct variables. */
  lemma CellInjective(r1: nat, c1: nat, r2: nat, c2: nat)
    requires c1 < 10 && c2 < 10
    ensures Cell(r1, c1) == Cell(r2, c2) <==> r1 == r2 && c1 == c2
  {
    if r1 < r2 {
      assert Cell(r1, c1) < 10 * (r1 + 1) <= 10 * r2 <= Cell(r2, c2);
    } else if r2 < r1 {
      assert Cell(r2, c2) < 10 * (r2 + 1) <= 10 * r1 <= Cell(r1, c1);
    }
  }

  /** The domain set_up gives a cell: all digits when empty, otherwise just the pre-set value. */
  function CellDomain(v: int): set<int> {
    if v == -1 then Digits() else {v}
  }

  /** A board: the domain of the variable of every cell, n rows of ten. */
  type Board = seq<seq<set<int>>>

  predicate IsBoard(board: Board) {
    forall i :: 0 <= i < |board| ==> |board[i]| == 10
  }

  /** Every grid row has the ten entries the builder reads. */
  predicate IsGrid(grid: seq<seq<int>>) {
    forall i :: 0 <= i < |grid| ==> |grid[i]| >= 10
  }

  /** Every entry of the first ten columns is -1 or a digit. */
  predicate EntriesValid(grid: seq<seq<int>>)
    requires IsGrid(grid)
  {
    forall i, j :: 0 <= i < |grid| && 0 <= j < 10 ==> grid[i][j] == -1 || 0 <= grid[i][j] < 10
  }

  /** The board set_up produces from the grid. */
  predicate SetUpOf(grid: seq<seq<int>>, board: Board)
    requires IsGrid(grid)
  {
    |board| == |grid| && IsBoard(board) &&
    forall i, j :: 0 <= i < |grid| && 0 <= j < 10 ==> board[i][j] == CellDomain(grid[i][j])
  }

  // ---------------------------------------------------------------- tables

  /** The cross product of a list of domains (itertools.product), as a set of tuples. */
  function Product(doms: seq<set<int>>): set<seq<int>>
    decreases |doms|
  {
    if doms == [] then {[]}
    else set x, t | x in doms[0] && t in Product(doms[1..]) :: [x] + t
  }

  lemma {:induction false} ProductMembership(doms: seq<set<int>>, t: seq<int>)
    ensures t in Product(doms) <==> |t| == |doms| && forall i :: 0 <= i < |t| ==> t[i] in doms[i]
    decreases |doms|
  {
    if doms == [] {
    } else if t == [] {
    } else {
      ProductMembership(doms[1..], t[1..]);
      assert t == [t[0]] + t[1..];
      if t in Product(doms) {
        var x, t' :| x in doms[0] && t' in Product(doms[1..]) && t == [x] + t';
        assert t[1..] == t';
      }
      if |t| == |doms| && forall i :: 0 <= i < |t| ==> t[i] in doms[i] {
        assert forall i :: 0 <= i < |t[1..]| ==> t[1..][i] in doms[1..][i] by {
          forall i | 0 <= i < |t[1..]| ensures t[1..][i] in doms[1..][i] {
            assert t[1..][i] == t[i + 1];
          }
        }
        var x, t' := t[0], t[1..];
        assert x in doms[0] && t' in Product(doms[1..]);
        assert Product(doms) == set x, t | x in doms[0] && t in Product(doms[1..]) :: [x] + t;
        assert [x] + t' in Product(doms);
      }
    }
  }

  function Sum(t: seq<int>): int {
    if t == [] then 0 else t[0] + Sum(t[1..])
  }

  /** The tuples of a sum constraint: the members of the product whose sum is s. */
  function SumTuples(doms: seq<set<int>>, s: int): set<seq<int>> {
    set t | t in Product(doms) && Sum(t) == s
  }

  lemma SumTuplesMembership(doms: seq<set<int>>, s: int, t: seq<int>)
    ensures t in SumTuples(doms, s) <==>
      |t| == |doms| && (forall i :: 0 <= i < |t| ==> t[i] in doms[i]) && Sum(t) == s
  {
    ProductMembership(doms, t);
  }

  /** The tuples of a binary not-equal constraint over two domains. */
  function NotEqualTuples(d1: set<int>, d2: set<int>): set<seq<int>> {
    set x, y | x in d1 && y in d2 && x != y :: [x, y]
  }

  lemma NotEqualMembership(d1: set<int>, d2: set<int>, t: seq<int>)
    ensures t in NotEqualTuples(d1, d2) <==> |t| == 2 && t[0] in d1 && t[1] in d2 && t[0] != t[1]
  {
    if |t| == 2 && t[0] in d1 && t[1] in d2 && t[0] != t[1] {
      assert t == [t[0], t[1]];
    }
  }

  /** The orderings of a set of values (itertools.permutations of a list without repeats). */
  function Perms(s: set<int>): set<seq<int>>
    decreases |s|
  {
    if s == {} then {[]}
    else set x, t | x in s && t in Perms(s - {x}) :: [x] + t
  }

  lemma {:induction false} PermsMembership(s: set<int>, t: seq<int>)
    ensures t in Perms(s) <==> |t| == |s| && Distinct(t) && forall i :: 0 <= i < |t| ==> t[i] in s
    decreases |s|
  {
    if s == {} {
    } else if t == [] {
    } else if t[0] !in s {
      assert t !in Perms(s);
    } else {
      var x, rest := t[0], t[1..];
      assert t == [x] + rest;
      PermsMembership(s - {x}, rest);
      if t in Perms(s) {
        var x', t' :| x' in s && t' in Perms(s - {x'}) && t == [x'] + t';
        assert x' == x && t' == rest;
        DistinctCons(s, x, rest);
      }
      if |t| == |s| && Distinct(t) && forall i :: 0 <= i < |t| ==> t[i] in s {
        DistinctTail(s, x, rest);
        assert |s - {x}| == |s| - 1;
        assert [x] + rest in Perms(s);
      }
    }
  }

  /** A value of s followed by distinct values of the rest of s is a sequence of distinct values of s. */
  lemma DistinctCons(s: set<int>, x: int, rest: seq<int>)
    requires x in s && Distinct(rest) && forall i :: 0 <= i < |rest| ==> rest[i] in s - {x}
    ensures Distinct([x] + rest) && forall i :: 0 <= i < |[x] + rest| ==> ([x] + rest)[i] in s
  {
    var t := [x] + rest;
    forall i, j | 0 <= i < j < |t|
      ensures t[i] != t[j]
    {
      if i > 0 {
        assert t[i] == rest[i - 1] && t[j] == rest[j - 1];
      } else {
        assert t[j] == rest[j - 1] && rest[j - 1] in s - {x};
      }
    }
  }

  /** The tail of a sequence of distinct values of s holds distinct values of s without the head. */
  lemma DistinctTail(s: set<int>, x: int, rest: seq<int>)
    requires Distinct([x] + rest) && forall i :: 0 <= i < |[x] + rest| ==> ([x] + rest)[i] in s
    ensures Distinct(rest) && forall i :: 0 <= i < |rest| ==> rest[i] in s - {x}
  {
    var t := [x] + rest;
    forall i | 0 <= i < |rest|
      ensures rest[i] in s - {x}
    {
      assert rest[i] == t[i + 1] && t[i + 1] != t[0];
    }
    forall i, j | 0 <= i < j < |rest|
      ensures rest[i] != rest[j]
    {
      assert rest[i] == t[i + 1] && rest[j] == t[j + 1];
    }
  }

  /** Concatenation is associative; stated over an abstract element type so that appending constraints stays cheap. */
  lemma AppendAssoc<T>(a: seq<T>, b: seq<T>, c: seq<T>)
    ensures (a + b) + c == a + (b + c)
  {
  }

  // ---------------------------------------------------------------- set_up

  /** set_up: one row of ten cell domains per grid row. */
  method SetUp(grid: seq<seq<int>>) returns (board: Board)
    requires IsGrid(grid)
    ensures SetUpOf(grid, board)
  {
    board := [];
    for i := 0 to |grid|
      invariant |board| == i && IsBoard(board)
      invariant forall r, j :: 0 <= r < i && 0 <= j < 10 ==> board[r][j] == CellDomain(grid[r][j])
    {
      var row: seq<set<int>> := [];
      for j := 0 to 10
        invariant |row| == j
        invariant forall k :: 0 <= k < j ==> row[k] == CellDomain(grid[i][k])
      {
        var num := grid[i][j];
        if num == -1 {
          row := row + [Digits()];
        } else {
          row := row + [{num}];
        }
      }
      board := board + [row];
    }
  }

  /** A cell's domain holds only digits exactly when its entry is -1 or a digit, and is never empty. */
  lemma CellDomainRange(v: int)
    ensures CellDomain(v) != {}
    ensures (forall a :: a in CellDomain(v) ==> 0 <= a < 10) <==> v == -1 || 0 <= v < 10
    ensures v != -1 ==> CellDomain(v) == {v}
  {
    if v == -1 {
      assert 0 in CellDomain(v);
    } else {
      assert v in CellDomain(v);
    }
  }

  // ---------------------------------------------------------------- column sums

  /** The cells of column col, top to bottom. */
  function ColumnScope(n: nat, col: nat): seq<nat> {
    seq(n, row requires 0 <= row => Cell(row, col))
  }

  /** The domains of the cells of column col, top to bottom. */
  function ColumnDomains(board: Board, col: nat): seq<set<int>>
    requires IsBoard(board) && col < 10
  {
    seq(|board|, row requires 0 <= row < |board| => board[row][col])
  }

  /** The sum constraint of column col. */
  function ColumnSum(board: Board, sums: seq<int>, col: nat): Constraint
    requires IsBoard(board) && col < 10 && col < |sums|
  {
    Constraint(ColumnScope(|board|, col), SumTuples(ColumnDomains(board, col), sums[col]))
  }

  /** The ten column sum constraints, column by column. */
  function ColumnTable(board: Board, sums: seq<int>): seq<Constraint>
    requires IsBoard(board) && |sums| >= 10
  {
    seq(10, col requires 0 <= col < 10 => ColumnSum(board, sums, col))
  }

  /** A column constraint is over the column's cells top to bottom, and holds exactly the domain tuples with the column's sum. */
  lemma ColumnSumMeaning(board: Board, sums: seq<int>, col: nat, t: seq<int>)
    requires IsBoard(board) && col < 10 && |sums| >= 10
    ensures |ColumnTable(board, sums)| == 10 && ColumnTable(board, sums)[col] == ColumnSum(board, sums, col)
    ensures var c := ColumnSum(board, sums, col);
      |c.scope| == |board| && (forall row :: 0 <= row < |board| ==> c.scope[row] == Cell(row, col)) &&
      (t in c.tuples <==>
        |t| == |board| && (forall row :: 0 <= row < |board| ==> t[row] in board[row][col]) && Sum(t) == sums[col])
  {
    SumTuplesMembership(ColumnDomains(board, col), sums[col], t);
  }

  /** column_sum_constraint: append the ten column sum constraints. */
  method ColumnSumConstraint(board: Board, sums: seq<int>, cons: seq<Constraint>) returns (out: seq<Constraint>)
    requires IsBoard(board) && |sums| >= 10
    ensures out == cons + ColumnTable(board, sums)
  {
    out := cons;
    for col := 0 to 10
      invariant |out| == |cons| + col && out[..|cons|] == cons
      invariant forall k :: 0 <= k < col ==> out[|cons| + k] == ColumnSum(board, sums, k)
    {
      var colVar: seq<nat> := [];
      for row := 0 to |board|
        invariant |colVar| == row && forall r :: 0 <= r < row ==> colVar[r] == Cell(r, col)
      {
        colVar := colVar + [Cell(row, col)];
      }
      assert colVar == ColumnScope(|board|, col);
      var domains := ColumnDomains(board, col);
      var satTups := SumTuples(domains, sums[col]);
      out := out + [Constraint(colVar, satTups)];
    }
    assert out == cons + ColumnTable(board, sums);
  }

  // ---------------------------------------------------------------- adjacency

  /** The three neighbour offsets a cell may be linked to: right, below, below-right. */
  const Neighbours: seq<(int, int)> := [(0, 1), (1, 0), (1, 1)]

  /** The offsets the models hand adjacent_constraints for cell (r, c) of an n-row grid. */
  function Process(n: nat, r: nat, c: nat): seq<(int, int)> {
    if r == n - 1 && c == 9 then []
    else if r != n - 1 && c == 9 then [(1, 0)]
    else if r == n - 1 && c != 9 then [(0, 1)]
    else [(0, 1), (1, 0), (1, 1)]
  }

  predicate InBounds(n: nat, row: int, col: int) {
    0 <= row <= n - 1 && 0 <= col <= 9
  }

  /** The offsets chosen for a cell are exactly its in-bounds right, below and below-right neighbours. */
  lemma ProcessChoice(n: nat, r: nat, c: nat)
    requires r < n && c < 10
    ensures forall o :: o in Process(n, r, c) <==> o in Neighbours && InBounds(n, r + o.0, c + o.1)
  {
  }

  /** The not-equal constraint between cell (a, b) and cell (a + x, b + y). */
  function Adjacent(board: Board, a: nat, b: nat, x: int, y: int): Constraint
    requires IsBoard(board) && a < |board| && b < 10 && InBounds(|board|, a + x, b + y)
  {
    Constraint([Cell(a, b), Cell(a + x, b + y)], NotEqualTuples(board[a][b], board[a + x][b + y]))
  }

  /** The constraints adjacent_constraints adds for cell (a, b): one per in-bounds offset, in order. */
  function AdjacentFor(board: Board, process: seq<(int, int)>, a: nat, b: nat): seq<Constraint>
    requires IsBoard(board) && a < |board| && b < 10
  {
    if process == [] then []
    else
      var rest := AdjacentFor(board, process[..|process| - 1], a, b);
      var o := process[|process| - 1];
      if InBounds(|board|, a + o.0, b + o.1) then rest + [Adjacent(board, a, b, o.0, o.1)] else rest
  }

  lemma {:induction false} AdjacentForMembership(board: Board, process: seq<(int, int)>, a: nat, b: nat, con: Constraint)
    requires IsBoard(board) && a < |board| && b < 10
    ensures con in AdjacentFor(board, process, a, b) <==>
      exists o :: o in process && InBounds(|board|, a + o.0, b + o.1) && con == Adjacent(board, a, b, o.0, o.1)
    decreases |process|
  {
    if process != [] {
      var init := process[..|process| - 1];
      AdjacentForMembership(board, init, a, b, con);
      assert process == init + [process[|process| - 1]];
      assert forall o :: o in process <==> o in init || o == process[|process| - 1];
    }
  }

  /** When every offset is in bounds, there is exactly one constraint per offset. */
  lemma {:induction false} AdjacentForLength(board: Board, process: seq<(int, int)>, a: nat, b: nat)
    requires IsBoard(board) && a < |board| && b < 10
    requires forall o :: o in process ==> InBounds(|board|, a + o.0, b + o.1)
    ensures |AdjacentFor(board, process, a, b)| == |process|
    decreases |process|
  {
    if process != [] {
      var init := process[..|process| - 1];
      assert forall o :: o in init ==> o in process;
      assert process[|process| - 1] in process;
      AdjacentForLength(board, init, a, b);
    }
  }

  /** adjacent_constraints: append a not-equal constraint per in-bounds offset of process. */
  method AdjacentConstraints(process: seq<(int, int)>, board: Board, a: nat, b: nat, cons: seq<Constraint>)
      returns (out: seq<Constraint>)
    requires IsBoard(board) && a < |board| && b < 10
    ensures out == cons + AdjacentFor(board, process, a, b)
  {
    out := cons;
    for k := 0 to |process|
      invariant out == cons + AdjacentFor(board, process[..k], a, b)
    {
      assert process[..k + 1][..k] == process[..k];
      var (x, y) := process[k];
      var row := a + x;
      var col := b + y;
      if (row >= 0 && row <= |board| - 1) && (col >= 0 && col <= 9) {
        var satTups := NotEqualTuples(board[a][b], board[row][col]);
        out := out + [Constraint([Cell(a, b), Cell(row, col)], satTups)];
      }
    }
    assert process[..|process|] == process;
  }

  /** The adjacency constraints of the cells of row r before column c, in order. */
  function AdjacencyRow(board: Board, r: nat, c: nat): seq<Constraint>
    requires IsBoard(board) && r < |board| && c <= 10
  {
    if c == 0 then []
    else AdjacencyRow(board, r, c - 1) + AdjacentFor(board, Process(|board|, r, c - 1), r, c - 1)
  }

  /** The adjacency constraints of the rows before r, cell by cell in row-major order. */
  function AdjacencyUpTo(board: Board, r: nat): seq<Constraint>
    requires IsBoard(board) && r <= |board|
  {
    if r == 0 then [] else AdjacencyUpTo(board, r - 1) + AdjacencyRow(board, r - 1, 10)
  }

  /** Everything the adjacency pass of a model adds. */
  function AdjacencyTable(board: Board): seq<Constraint>
    requires IsBoard(board)
  {
    AdjacencyUpTo(board, |board|)
  }

  /** The adjacency pass of both models: adjacent_constraints with Process for every cell in row-major order. */
  method AdjacencyPass(board: Board, cons: seq<Constraint>) returns (out: seq<Constraint>)
    requires IsBoard(board)
    ensures out == cons + AdjacencyTable(board)
  {
    out := cons;
    for row := 0 to |board|
      invariant out == cons + AdjacencyUpTo(board, row)
    {
      AppendAssoc(cons, AdjacencyUpTo(board, row), AdjacencyRow(board, row, 10));
      out := AdjacencyRowPass(board, row, out);
    }
  }

  /** One row of the adjacency pass. */
  method AdjacencyRowPass(board: Board, row: nat, cons: seq<Constraint>) returns (out: seq<Constraint>)
    requires IsBoard(board) && row < |board|
    ensures out == cons + AdjacencyRow(board, row, 10)
  {
    out := cons;
    var numRows := |board|;
    for col := 0 to 10
      invariant out == cons + AdjacencyRow(board, row, col)
    {
      var process;
      if row == numRows - 1 && col == 9 {
        process := [];
      } else if row != numRows - 1 && col == 9 {
        process := [(1, 0)];
      } else if row == numRows - 1 && col != 9 {
        process := [(0, 1)];
      } else {
        process := [(0, 1), (1, 0), (1, 1)];
      }
      assert process == Process(numRows, row, col);
      AppendAssoc(cons, AdjacencyRow(board, row, col), AdjacentFor(board, process, row, col));
      out := AdjacentConstraints(process, board, row, col, out);
    }
  }

  /** con is one of the constraints the adjacency pass adds for cell (i, k). */
  predicate LinkedAt(board: Board, con: Constraint, i: nat, k: nat)
    requires IsBoard(board) && i < |board| && k < 10
  {
    con in AdjacentFor(board, Process(|board|, i, k), i, k)
  }

  lemma {:induction false} AdjacencyRowMembership(board: Board, r: nat, c: nat, con: Constraint)
    requires IsBoard(board) && r < |board| && c <= 10
    ensures con in AdjacencyRow(board, r, c) <==> exists k :: 0 <= k < c && LinkedAt(board, con, r, k)
  {
    if c > 0 {
      AdjacencyRowMembership(board, r, c - 1, con);
      if LinkedAt(board, con, r, c - 1) {
        assert con in AdjacencyRow(board, r, c);
      }
    }
  }

  lemma {:induction false} AdjacencyUpToMembership(board: Board, r: nat, con: Constraint)
    requires IsBoard(board) && r <= |board|
    ensures con in AdjacencyUpTo(board, r) <==> exists i, k :: 0 <= i < r && 0 <= k < 10 && LinkedAt(board, con, i, k)
  {
    if r > 0 {
      AdjacencyUpToMembership(board, r - 1, con);
      AdjacencyRowMembership(board, r - 1, 10, con);
      if con in AdjacencyUpTo(board, r) {
        if con in AdjacencyUpTo(board, r - 1) {
          var i, k :| 0 <= i < r - 1 && 0 <= k < 10 && LinkedAt(board, con, i, k);
        } else {
          var k :| 0 <= k < 10 && LinkedAt(board, con, r - 1, k);
        }
      }
      if exists i, k :: 0 <= i < r && 0 <= k < 10 && LinkedAt(board, con, i, k) {
        var i, k :| 0 <= i < r && 0 <= k < 10 && LinkedAt(board, con, i, k);
        if i < r - 1 {
          assert con in AdjacencyUpTo(board, r - 1);
        } else {
          assert con in AdjacencyRow(board, r - 1, 10);
        }
      }
    }
  }

  /** The adjacency pass links each cell with exactly its in-bounds right, below and below-right neighbours. */
  lemma AdjacencyMembership(board: Board, con: Constraint)
    requires IsBoard(board)
    ensures con in AdjacencyTable(board) <==>
      exists i, k, o :: 0 <= i < |board| && 0 <= k < 10 && o in Neighbours && InBounds(|board|, i + o.0, k + o.1) &&
        con == Adjacent(board, i, k, o.0, o.1)
  {
    AdjacencyUpToMembership(board, |board|, con);
    if con in AdjacencyTable(board) {
      var i, k :| 0 <= i < |board| && 0 <= k < 10 && LinkedAt(board, con, i, k);
      AdjacentForMembership(board, Process(|board|, i, k), i, k, con);
      ProcessChoice(|board|, i, k);
      var o :| o in Process(|board|, i, k) && InBounds(|board|, i + o.0, k + o.1) && con == Adjacent(board, i, k, o.0, o.1);
      assert o in Neighbours;
    }
    if exists i, k, o :: 0 <= i < |board| && 0 <= k < 10 && o in Neighbours && InBounds(|board|, i + o.0, k + o.1) &&
        con == Adjacent(board, i, k, o.0, o.1) {
      var i, k, o :| 0 <= i < |board| && 0 <= k < 10 && o in Neighbours && InBounds(|board|, i + o.0, k + o.1) &&
        con == Adjacent(board, i, k, o.0, o.1);
      ProcessChoice(|board|, i, k);
      AdjacentForMembership(board, Process(|board|, i, k), i, k, con);
      assert LinkedAt(board, con, i, k);
    }
  }

  /** No adjacency constraint links a cell with its below-left neighbour. */
  lemma NoAntiDiagonal(board: Board, con: Constraint, r: nat, c: nat)
    requires IsBoard(board) && con in AdjacencyTable(board)
    requires r + 1 < |board| && 1 <= c < 10
    ensures con.scope != [Cell(r, c), Cell(r + 1, c - 1)]
    ensures con.scope != [Cell(r + 1, c - 1), Cell(r, c)]
  {
    AdjacencyMembership(board, con);
    var i, k, o :| 0 <= i < |board| && 0 <= k < 10 && o in Neighbours && InBounds(|board|, i + o.0, k + o.1) &&
      con == Adjacent(board, i, k, o.0, o.1);
    CellInjective(i, k, r, c);
    CellInjective(i, k, r + 1, c - 1);
  }

  /** Row r's cells before column c have 3 links each (1 in the last column), or 1 each (none in the last column) in the bottom row. */
  lemma {:induction false} AdjacencyRowLength(board: Board, r: nat, c: nat)
    requires IsBoard(board) && r < |board| && c <= 10
    ensures r == |board| - 1 ==> |AdjacencyRow(board, r, c)| == (if c == 10 then 9 else c)
    ensures r < |board| - 1 ==> |AdjacencyRow(board, r, c)| == (if c == 10 then 28 else 3 * c)
  {
    if c > 0 {
      AdjacencyRowLength(board, r, c - 1);
      ProcessChoice(|board|, r, c - 1);
      AdjacentForLength(board, Process(|board|, r, c - 1), r, c - 1);
    }
  }

  lemma {:induction false} AdjacencyUpToLength(board: Board, r: nat)
    requires IsBoard(board) && r < |board|
    ensures |AdjacencyUpTo(board, r)| == 28 * r
  {
    if r > 0 {
      AdjacencyUpToLength(board, r - 1);
      AdjacencyRowLength(board, r - 1, 10);
    }
  }

  /** The adjacency pass adds 28 constraints per row but 9 for the bottom row. */
  lemma AdjacencyTableLength(board: Board)
    requires IsBoard(board)
    ensures |board| == 0 ==> |AdjacencyTable(board)| == 0
    ensures |board| >= 1 ==> |AdjacencyTable(board)| == 28 * |board| - 19
  {
    if |board| >= 1 {
      AdjacencyUpToLength(board, |board| - 1);
      AdjacencyRowLength(board, |board| - 1, 10);
    }
  }

  // ---------------------------------------------------------------- row constraints, model 1

  /** The not-equal constraint between cells (i, j) and (i, k) of one row. */
  function NePair(board: Board, i: nat, j: nat, k: nat): Constraint
    requires IsBoard(board) && i < |board| && j < 10 && k < 10
  {
    Constraint([Cell(i, j), Cell(i, k)], NotEqualTuples(board[i][j], board[i][k]))
  }

  /** The pairs (j, m) of row i with j < m < k, in order of m. */
  function RowPairs(board: Board, i: nat, j: nat, k: nat): seq<Constraint>
    requires IsBoard(board) && i < |board| && j < 10 && k <= 10
  {
    if k <= j + 1 then [] else RowPairs(board, i, j, k - 1) + [NePair(board, i, j, k - 1)]
  }

  /** The pairs of row i whose first column is below j. */
  function RowUpTo(board: Board, i: nat, j: nat): seq<Constraint>
    requires IsBoard(board) && i < |board| && j <= 10
  {
    if j == 0 then [] else RowUpTo(board, i, j - 1) + RowPairs(board, i, j - 1, 10)
  }

  /** The pairwise row constraints of the rows before i. */
  function RowTable1(board: Board, i: nat): seq<Constraint>
    requires IsBoard(board) && i <= |board|
  {
    if i == 0 then [] else RowTable1(board, i - 1) + RowUpTo(board, i - 1, 10)
  }

  /** row_constraints_1: a not-equal constraint for every pair of columns j < k of every row. */
  method RowConstraints1(board: Board, cons: seq<Constraint>) returns (out: seq<Constraint>)
    requires IsBoard(board)
    ensures out == cons + RowTable1(board, |board|)
  {
    out := cons;
    for i := 0 to |board|
      invariant out == cons + RowTable1(board, i)
    {
      for j := 0 to 10
        invariant out == cons + RowTable1(board, i) + RowUpTo(board, i, j)
      {
        for k := j + 1 to 10
          invariant out == cons + RowTable1(board, i) + RowUpTo(board, i, j) + RowPairs(board, i, j, k)
        {
          var satTups := NotEqualTuples(board[i][j], board[i][k]);
          out := out + [Constraint([Cell(i, j), Cell(i, k)], satTups)];
        }
      }
    }
  }

  /** Number of column pairs j < k < 10 whose first column is below j. */
  function PairCount(j: nat): nat
    requires j <= 10
  {
    if j == 0 then 0 else PairCount(j - 1) + (10 - j)
  }

  lemma {:induction false} RowUpToLength(board: Board, i: nat, j: nat)
    requires IsBoard(board) && i < |board| && j <= 10
    ensures |RowUpTo(board, i, j)| == PairCount(j)
  {
    if j > 0 {
      RowUpToLength(board, i, j - 1);
      RowPairsLength(board, i, j - 1, 10);
    }
  }

  lemma {:induction false} RowPairsLength(board: Board, i: nat, j: nat, k: nat)
    requires IsBoard(board) && i < |board| && j < 10 && j < k <= 10
    ensures |RowPairs(board, i, j, k)| == k - j - 1
  {
    if k > j + 1 {
      RowPairsLength(board, i, j, k - 1);
    }
  }

  /** row_constraints_1 adds exactly 45 constraints per row. */
  lemma {:induction false} RowTable1Length(board: Board, i: nat)
    requires IsBoard(board) && i <= |board|
    ensures |RowTable1(board, i)| == 45 * i
  {
    if i > 0 {
      RowTable1Length(board, i - 1);
      RowUpToLength(board, i - 1, 10);
      assert PairCount(10) == 45;
    }
  }

  lemma {:induction false} RowPairsMembership(board: Board, i: nat, j: nat, k: nat, con: Constraint)
    requires IsBoard(board) && i < |board| && j < 10 && k <= 10
    ensures con in RowPairs(board, i, j, k) <==> exists m :: j < m < k && con == NePair(board, i, j, m)
  {
    if k > j + 1 {
      RowPairsMembership(board, i, j, k - 1, con);
      assert RowPairs(board, i, j, k) == RowPairs(board, i, j, k - 1) + [NePair(board, i, j, k - 1)];
      if con == NePair(board, i, j, k - 1) {
        assert j < k - 1 < k;
      }
    }
  }

  lemma {:induction false} RowUpToMembership(board: Board, i: nat, j: nat, con: Constraint)
    requires IsBoard(board) && i < |board| && j <= 10
    ensures con in RowUpTo(board, i, j) <==> exists a, b :: 0 <= a < j && a < b < 10 && con == NePair(board, i, a, b)
  {
    if j > 0 {
      RowUpToMembership(board, i, j - 1, con);
      RowPairsMembership(board, i, j - 1, 10, con);
      assert RowUpTo(board, i, j) == RowUpTo(board, i, j - 1) + RowPairs(board, i, j - 1, 10);
      if con in RowUpTo(board, i, j) {
        if con in RowUpTo(board, i, j - 1) {
          var a, b :| 0 <= a < j - 1 && a < b < 10 && con == NePair(board, i, a, b);
          assert 0 <= a < j;
        } else {
          var m :| j - 1 < m < 10 && con == NePair(board, i, j - 1, m);
          assert 0 <= j - 1 < j;
        }
      }
      if exists a, b :: 0 <= a < j && a < b < 10 && con == NePair(board, i, a, b) {
        var a, b :| 0 <= a < j && a < b < 10 && con == NePair(board, i, a, b);
        if a < j - 1 {
          assert con in RowUpTo(board, i, j - 1);
        } else {
          assert con in RowPairs(board, i, j - 1, 10);
        }
      }
    }
  }

  /** The pairwise row constraints are exactly one per row and column pair j < k. */
  lemma {:induction false} RowTable1Membership(board: Board, i: nat, con: Constraint)
    requires IsBoard(board) && i <= |board|
    ensures con in RowTable1(board, i) <==>
      exists r, a, b :: 0 <= r < i && 0 <= a < b < 10 && con == NePair(board, r, a, b)
  {
    if i > 0 {
      RowTable1Membership(board, i - 1, con);
      RowUpToMembership(board, i - 1, 10, con);
      assert RowTable1(board, i) == RowTable1(board, i - 1) + RowUpTo(board, i - 1, 10);
      if con in RowTable1(board, i) {
        if con in RowTable1(board, i - 1) {
          var r, a, b :| 0 <= r < i - 1 && 0 <= a < b < 10 && con == NePair(board, r, a, b);
          assert 0 <= r < i;
        } else {
          var a, b :| 0 <= a < 10 && a < b < 10 && con == NePair(board, i - 1, a, b);
          assert 0 <= i - 1 < i;
        }
      }
      if exists r, a, b :: 0 <= r < i && 0 <= a < b < 10 && con == NePair(board, r, a, b) {
        var r, a, b :| 0 <= r < i && 0 <= a < b < 10 && con == NePair(board, r, a, b);
        if r < i - 1 {
          assert con in RowTable1(board, i - 1);
        } else {
          assert con in RowUpTo(board, i - 1, 10);
        }
      }
    }
  }

  // ---------------------------------------------------------------- row constraints, model 2

  /** The pre-set values among the first j entries of a row. */
  function Fixed(row: seq<int>, j: nat): set<int>
    requires j <= |row|
  {
    if j == 0 then {}
    else if row[j - 1] != -1 then Fixed(row, j - 1) + {row[j - 1]}
    else Fixed(row, j - 1)
  }

  /** dom.remove succeeds for every pre-set value among the first j entries of the row. */
  predicate RemovesOk(row: seq<int>, j: nat)
    requires j <= |row|
  {
    j == 0 || (RemovesOk(row, j - 1) && (row[j - 1] == -1 || row[j - 1] in Digits() - Fixed(row, j - 1)))
  }

  /** The open cells of row i among its first j columns, left to right. */
  function FreeCells(i: nat, row: seq<int>, j: nat): seq<nat>
    requires j <= |row|
  {
    if j == 0 then []
    else if row[j - 1] == -1 then FreeCells(i, row, j - 1) + [Cell(i, j - 1)]
    else FreeCells(i, row, j - 1)
  }

  /** The all-different constraint row_constraints_2 builds for row i. */
  function RowAllDiff(i: nat, row: seq<int>): Constraint
    requires |row| >= 10
  {
    Constraint(FreeCells(i, row, 10), Perms(Digits() - Fixed(row, 10)))
  }

  /** Every one of the first n grid rows gets through its removals. */
  predicate RowsOk(grid: seq<seq<int>>, n: nat)
    requires IsGrid(grid) && n <= |grid|
  {
    forall i :: 0 <= i < n ==> RemovesOk(grid[i], 10)
  }

  /** The all-different constraints of the first n rows. */
  function RowTable2(grid: seq<seq<int>>, n: nat): seq<Constraint>
    requires IsGrid(grid) && n <= |grid|
  {
    if n == 0 then [] else RowTable2(grid, n - 1) + [RowAllDiff(n - 1, grid[n - 1])]
  }

  /** One more row: the table grows by that row's constraint, and the rows so far still pass. */
  lemma RowTable2Step(grid: seq<seq<int>>, i: nat, c: Constraint)
    requires IsGrid(grid) && i < |grid|
    requires c == RowAllDiff(i, grid[i]) && RowsOk(grid, i) && RemovesOk(grid[i], 10)
    ensures RowTable2(grid, i + 1) == RowTable2(grid, i) + [c]
    ensures RowsOk(grid, i + 1)
  {
  }

  lemma {:induction false} RemovesOkPrefix(row: seq<int>, j: nat, j': nat)
    requires j <= j' <= |row|
    ensures RemovesOk(row, j') ==> RemovesOk(row, j)
    decreases j'
  {
    if j < j' {
      RemovesOkPrefix(row, j, j' - 1);
    }
  }

  lemma {:induction false} FixedMembership(row: seq<int>, j: nat, v: int)
    requires j <= |row|
    ensures v in Fixed(row, j) <==> exists k :: 0 <= k < j && row[k] != -1 && row[k] == v
  {
    if j > 0 {
      FixedMembership(row, j - 1, v);
    }
  }

  /** Removal succeeds exactly when the pre-set values are digits and no two of them repeat. */
  lemma {:induction false} RemovesOkIff(row: seq<int>, j: nat)
    requires j <= |row|
    ensures RemovesOk(row, j) <==>
      (forall k :: 0 <= k < j ==> row[k] == -1 || 0 <= row[k] < 10) &&
      (forall a, b :: 0 <= a < b < j && row[a] != -1 ==> row[a] != row[b])
  {
    if j > 0 {
      RemovesOkIff(row, j - 1);
      FixedMembership(row, j - 1, row[j - 1]);
    }
  }

  /** The open cells of a row come left to right, each one a -1 entry. */
  lemma {:induction false} FreeCellsOrder(i: nat, row: seq<int>, j: nat)
    requires j <= |row|
    ensures Increasing(FreeCells(i, row, j))
    ensures forall x :: x in FreeCells(i, row, j) <==> exists k :: 0 <= k < j && row[k] == -1 && x == Cell(i, k)
  {
    if j > 0 {
      FreeCellsOrder(i, row, j - 1);
      var f := FreeCells(i, row, j - 1);
      assert forall m :: 0 <= m < |f| ==> f[m] in f;
    }
  }

  /** Removing a subset takes away exactly its size. */
  lemma SubsetDifferenceCard(a: set<int>, b: set<int>)
    requires a <= b
    ensures |b - a| == |b| - |a|
  {
    assert b == (b - a) + a;
    assert (b - a) * a == {};
  }

  /** The pre-set values seen so far are distinct digits, one per entry that is not open. */
  lemma {:induction false} FixedCount(i: nat, row: seq<int>, j: nat)
    requires j <= |row| && RemovesOk(row, j)
    ensures Fixed(row, j) <= Digits()
    ensures |Fixed(row, j)| + |FreeCells(i, row, j)| == j
  {
    if j > 0 {
      FixedCount(i, row, j - 1);
      if row[j - 1] != -1 {
        assert row[j - 1] !in Fixed(row, j - 1);
      }
    }
  }

  /** As many digits remain after the removals as open cells have been seen. */
  lemma FreeCellsCount(i: nat, row: seq<int>, j: nat)
    requires j <= 10 <= |row| && RemovesOk(row, j)
    ensures Fixed(row, j) <= Digits()
    ensures |Digits() - Fixed(row, j)| == 10 - j + |FreeCells(i, row, j)|
  {
    FixedCount(i, row, j);
    SubsetDifferenceCard(Fixed(row, j), Digits());
  }

  /** A row's all-different constraint holds the tuples of distinct non-pre-set digits, one per open cell. */
  lemma RowAllDiffMeaning(i: nat, row: seq<int>, t: seq<int>)
    requires |row| >= 10 && RemovesOk(row, 10)
    ensures forall x :: x in RowAllDiff(i, row).scope <==> exists k :: 0 <= k < 10 && row[k] == -1 && x == Cell(i, k)
    ensures t in RowAllDiff(i, row).tuples <==>
      |t| == |RowAllDiff(i, row).scope| && Distinct(t) &&
      forall m :: 0 <= m < |t| ==> 0 <= t[m] < 10 && forall k :: 0 <= k < 10 ==> t[m] != row[k]
  {
    FreeCellsOrder(i, row, 10);
    FreeCellsCount(i, row, 10);
    PermsMembership(Digits() - Fixed(row, 10), t);
    forall v
      ensures v in Fixed(row, 10) <==> exists k :: 0 <= k < 10 && row[k] == v && v != -1
    {
      FixedMembership(row, 10, v);
    }
  }

  /** The body of row_constraints_2 for row i: None where dom.remove fails. */
  method RowAllDiffFor(grid: seq<seq<int>>, i: nat) returns (r: Option<Constraint>)
    requires IsGrid(grid) && i < |grid|
    ensures r.Some? <==> RemovesOk(grid[i], 10)
    ensures r.Some? ==> r.value == RowAllDiff(i, grid[i])
  {
    var dom := Digits();
    var varScope: seq<nat> := [];
    for j := 0 to 10
      invariant RemovesOk(grid[i], j)
      invariant dom == Digits() - Fixed(grid[i], j)
      invariant varScope == FreeCells(i, grid[i], j)
    {
      var v := grid[i][j];
      if v != -1 {
        if v !in dom {
          RemovesOkPrefix(grid[i], j + 1, 10);
          return None;
        }
        dom := dom - {v};
      } else {
        varScope := varScope + [Cell(i, j)];
      }
    }
    return Some(Constraint(varScope, Perms(dom)));
  }

  /** row_constraints_2: an all-different constraint over the open cells of each row; None where dom.remove fails. */
  method RowConstraints2(grid: seq<seq<int>>, cons: seq<Constraint>) returns (r: Option<seq<Constraint>>)
    requires IsGrid(grid)
    ensures r.Some? <==> RowsOk(grid, |grid|)
    ensures r.Some? ==> r.value == cons + RowTable2(grid, |grid|)
  {
    var out := cons;
    for i := 0 to |grid|
      invariant RowsOk(grid, i)
      invariant out == cons + RowTable2(grid, i)
    {
      var row := RowAllDiffFor(grid, i);
      if row.None? {
        assert !RemovesOk(grid[i], 10);
        return None;
      }
      RowTable2Step(grid, i, row.value);
      AppendAssoc(cons, RowTable2(grid, i), [row.value]);
      out := out + [row.value];
    }
    return Some(out);
  }

  // ---------------------------------------------------------------- registration and the models

  /** The board's variables in row-major order. */
  function Flatten(board: Board): seq<set<int>> {
    if board == [] then [] else Flatten(board[..|board| - 1]) + board[|board| - 1]
  }

  /** Cell (i, j) of the board is variable Cell(i, j) of the flattening, and every variable is a cell. */
  lemma {:induction false} FlattenCells(board: Board)
    requires IsBoard(board)
    ensures |Flatten(board)| == 10 * |board|
    ensures forall i, j :: 0 <= i < |board| && 0 <= j < 10 ==> Flatten(board)[Cell(i, j)] == board[i][j]
  {
    if board != [] {
      FlattenCells(board[..|board| - 1]);
    }
  }

  /** Every variable index below 10 n is the cell of its row and column. */
  lemma CellOf(v: nat)
    ensures v == Cell(v / 10, v % 10) && v % 10 < 10
  {
  }

  /** The variable list both models register: every variable of every row, row by row. */
  method Register(board: Board) returns (vars: seq<set<int>>)
    ensures vars == Flatten(board)
  {
    vars := [];
    for i := 0 to |board|
      invariant vars == Flatten(board[..i])
    {
      assert board[..i + 1][..i] == board[..i];
      var row := board[i];
      ghost var start := vars;
      for j := 0 to |row|
        invariant vars == start + row[..j]
      {
        vars := vars + [row[j]];
      }
      assert row[..|row|] == row;
    }
    assert board[..|board|] == board;
  }

  /** The constraint list of model 1: column sums, adjacency, pairwise row constraints. */
  function Model1Cons(board: Board, sums: seq<int>): seq<Constraint>
    requires IsBoard(board) && |sums| >= 10
  {
    ColumnTable(board, sums) + AdjacencyTable(board) + RowTable1(board, |board|)
  }

  /** The constraint list of model 2: column sums, adjacency, all-different rows, adjacency again. */
  function Model2Cons(grid: seq<seq<int>>, board: Board, sums: seq<int>): seq<Constraint>
    requires IsGrid(grid) && IsBoard(board) && |sums| >= 10
  {
    ColumnTable(board, sums) + AdjacencyTable(board) + RowTable2(grid, |grid|) + AdjacencyTable(board)
  }

  /** tenner_csp_model_1: the CSP over the flattened board with the model-1 constraints, and the board. */
  method TennerModel1(grid: seq<seq<int>>, sums: seq<int>) returns (p: Problem, board: Board)
    requires IsGrid(grid) && |sums| >= 10
    ensures SetUpOf(grid, board)
    ensures p == Problem(Flatten(board), Model1Cons(board, sums))
  {
    board := SetUp(grid);
    var cons := ColumnSumConstraint(board, sums, []);
    assert cons == ColumnTable(board, sums);
    cons := AdjacencyPass(board, cons);
    cons := RowConstraints1(board, cons);
    var vars := Register(board);
    p := Problem(vars, cons);
  }

  /** tenner_csp_model_2: as model 1 with the all-different rows; None where row_constraints_2 fails. */
  method TennerModel2(grid: seq<seq<int>>, sums: seq<int>) returns (r: Option<(Problem, Board)>)
    requires IsGrid(grid) && |sums| >= 10
    ensures r.Some? <==> RowsOk(grid, |grid|)
    ensures r.Some? ==> SetUpOf(grid, r.value.1)
    ensures r.Some? ==> r.value.0 == Problem(Flatten(r.value.1), Model2Cons(grid, r.value.1, sums))
  {
    var board := SetUp(grid);
    ghost var columns, adjacency := ColumnTable(board, sums), AdjacencyTable(board);
    var cons := ColumnSumConstraint(board, sums, []);
    assert cons == columns;
    cons := AdjacencyPass(board, cons);
    var rows := RowConstraints2(grid, cons);
    if rows.None? {
      return None;
    }
    cons := AdjacencyPass(board, rows.value);
    assert cons == columns + adjacency + RowTable2(grid, |grid|) + adjacency;
    var vars := Register(board);
    return Some((Problem(vars, cons), board));
  }

  /** Model 2 lists every adjacency constraint twice: once before and once after the row constraints. */
  lemma AdjacencyTwice(grid: seq<seq<int>>, board: Board, sums: seq<int>, k: nat)
    requires IsGrid(grid) && IsBoard(board) && |sums| >= 10 && k < |AdjacencyTable(board)|
    ensures var cons := Model2Cons(grid, board, sums);
      var second := 10 + |AdjacencyTable(board)| + |grid| + k;
      second < |cons| && cons[10 + k] == AdjacencyTable(board)[k] && cons[second] == AdjacencyTable(board)[k]
  {
    RowTable2Length(grid, |grid|);
  }

  lemma {:induction false} RowTable2Length(grid: seq<seq<int>>, n: nat)
    requires IsGrid(grid) && n <= |grid|
    ensures |RowTable2(grid, n)| == n
  {
    if n > 0 {
      RowTable2Length(grid, n - 1);
    }
  }

  // ---------------------------------------------------------------- well-formedness

  lemma ScopesOkAppend(a: seq<Constraint>, b: seq<Constraint>, n: nat)
    requires ScopesOk(a, n) && ScopesOk(b, n)
    ensures ScopesOk(a + b, n)
  {
    forall ci | 0 <= ci < |a + b|
      ensures ScopeOk((a + b)[ci].scope, n)
    {
      if ci >= |a| {
        assert (a + b)[ci] == b[ci - |a|];
      }
    }
  }

  /** Every constraint of a list whose members all have good scopes has a good scope. */
  lemma ScopesOkFromMembers(cons: seq<Constraint>, n: nat)
    requires forall con :: con in cons ==> ScopeOk(con.scope, n)
    ensures ScopesOk(cons, n)
  {
    forall ci | 0 <= ci < |cons|
      ensures ScopeOk(cons[ci].scope, n)
    {
      assert cons[ci] in cons;
    }
  }

  lemma ColumnScopesOk(board: Board, sums: seq<int>)
    requires IsBoard(board) && |sums| >= 10
    ensures ScopesOk(ColumnTable(board, sums), 10 * |board|)
  {
    forall col | 0 <= col < 10
      ensures ScopeOk(ColumnTable(board, sums)[col].scope, 10 * |board|)
    {
      var scope := ColumnScope(|board|, col);
      forall a, b | 0 <= a < b < |scope|
        ensures scope[a] != scope[b]
      {
        CellInjective(a, col, b, col);
      }
    }
  }

  lemma AdjacencyScopesOk(board: Board)
    requires IsBoard(board)
    ensures ScopesOk(AdjacencyTable(board), 10 * |board|)
  {
    forall con | con in AdjacencyTable(board)
      ensures ScopeOk(con.scope, 10 * |board|)
    {
      AdjacencyMembership(board, con);
      var i, k, o :| 0 <= i < |board| && 0 <= k < 10 && o in Neighbours && InBounds(|board|, i + o.0, k + o.1) &&
        con == Adjacent(board, i, k, o.0, o.1);
      CellInjective(i, k, i + o.0, k + o.1);
    }
    ScopesOkFromMembers(AdjacencyTable(board), 10 * |board|);
  }

  lemma Row1ScopesOk(board: Board)
    requires IsBoard(board)
    ensures ScopesOk(RowTable1(board, |board|), 10 * |board|)
  {
    forall con | con in RowTable1(board, |board|)
      ensures ScopeOk(con.scope, 10 * |board|)
    {
      RowTable1Membership(board, |board|, con);
      var r, a, b :| 0 <= r < |board| && 0 <= a < b < 10 && con == NePair(board, r, a, b);
      CellInjective(r, a, r, b);
    }
    ScopesOkFromMembers(RowTable1(board, |board|), 10 * |board|);
  }

  lemma {:induction false} Row2ScopesOk(grid: seq<seq<int>>, n: nat)
    requires IsGrid(grid) && n <= |grid|
    ensures ScopesOk(RowTable2(grid, n), 10 * |grid|)
  {
    if n > 0 {
      Row2ScopesOk(grid, n - 1);
      var scope := FreeCells(n - 1, grid[n - 1], 10);
      FreeCellsOrder(n - 1, grid[n - 1], 10);
      forall m | 0 <= m < |scope|
        ensures scope[m] < 10 * |grid|
      {
        assert scope[m] in scope;
      }
      ScopesOkAppend(RowTable2(grid, n - 1), [RowAllDiff(n - 1, grid[n - 1])], 10 * |grid|);
    }
  }

  /** The registered variables of a valid grid have domains within the digits. */
  lemma FlattenInRange(grid: seq<seq<int>>, board: Board)
    requires IsGrid(grid) && EntriesValid(grid) && SetUpOf(grid, board)
    ensures |Flatten(board)| == 10 * |board|
    ensures DomainsInRange(Flatten(board))
  {
    FlattenCells(board);
    forall v, a | 0 <= v < |Flatten(board)| && a in Flatten(board)[v]
      ensures 0 <= a < NumValues
    {
      CellOf(v);
      CellDomainRange(grid[v / 10][v % 10]);
    }
  }

  /** Model 1 of a grid of digits and -1 entries is a well-formed CSP. */
  lemma Model1WellFormed(grid: seq<seq<int>>, sums: seq<int>, board: Board)
    requires IsGrid(grid) && EntriesValid(grid) && SetUpOf(grid, board) && |sums| >= 10
    ensures WellFormed(Problem(Flatten(board), Model1Cons(board, sums)))
  {
    FlattenInRange(grid, board);
    ColumnScopesOk(board, sums);
    AdjacencyScopesOk(board);
    Row1ScopesOk(board);
    ScopesOkAppend(ColumnTable(board, sums), AdjacencyTable(board), 10 * |board|);
    ScopesOkAppend(ColumnTable(board, sums) + AdjacencyTable(board), RowTable1(board, |board|), 10 * |board|);
  }

  /** Model 2 of a grid of digits and -1 entries is a well-formed CSP. */
  lemma Model2WellFormed(grid: seq<seq<int>>, sums: seq<int>, board: Board)
    requires IsGrid(grid) && EntriesValid(grid) && SetUpOf(grid, board) && |sums| >= 10
    ensures WellFormed(Problem(Flatten(board), Model2Cons(grid, board, sums)))
  {
    FlattenInRange(grid, board);
    ColumnScopesOk(board, sums);
    AdjacencyScopesOk(board);
    Row2ScopesOk(grid, |grid|);
    var a := ColumnTable(board, sums) + AdjacencyTable(board);
    ScopesOkAppend(ColumnTable(board, sums), AdjacencyTable(board), 10 * |board|);
    ScopesOkAppend(a, RowTable2(grid, |grid|), 10 * |board|);
    ScopesOkAppend(a + RowTable2(grid, |grid|), AdjacencyTable(board), 10 * |board|);
  }

  // ---------------------------------------------------------------- the two models agree

  /** An assignment of a value to each of the 10 n cells of an n-row board. */
  predicate FullAssignment(asg: seq<Option<int>>, n: nat) {
    |asg| == 10 * n && forall v :: 0 <= v < |asg| ==> asg[v].Some?
  }

  /** The value an assignment gives cell (r, k); -1, as in the grid, where it gives none. */
  function ValueAt(asg: seq<Option<int>>, r: nat, k: nat): int {
    if Cell(r, k) < |asg| && asg[Cell(r, k)].Some? then asg[Cell(r, k)].value else -1
  }

  /** Every scope variable of c is assigned and the values, in scope order, form a tuple of c. */
  predicate Satisfies(asg: seq<Option<int>>, c: Constraint) {
    AllAssigned(asg, c.scope) && AssignedTuple(asg, c.scope) in c.tuples
  }

  predicate SatisfiesAll(asg: seq<Option<int>>, cons: seq<Constraint>) {
    forall c :: c in cons ==> Satisfies(asg, c)
  }

  /** Every cell takes a value of its domain. */
  predicate InDomains(asg: seq<Option<int>>, board: Board)
    requires IsBoard(board)
  {
    forall r, k :: 0 <= r < |board| && 0 <= k < 10 ==> ValueAt(asg, r, k) in board[r][k]
  }

  /** The ten cells of row r carry pairwise different values. */
  predicate RowDistinct(asg: seq<Option<int>>, r: nat) {
    forall a, b :: 0 <= a < 10 && 0 <= b < 10 && a != b ==> ValueAt(asg, r, a) != ValueAt(asg, r, b)
  }

  predicate RowsDistinct(asg: seq<Option<int>>, n: nat) {
    forall r :: 0 <= r < n ==> RowDistinct(asg, r)
  }

  lemma SatisfiesAllAppend(asg: seq<Option<int>>, a: seq<Constraint>, b: seq<Constraint>)
    ensures SatisfiesAll(asg, a + b) <==> SatisfiesAll(asg, a) && SatisfiesAll(asg, b)
  {
    assert forall c :: c in a + b <==> c in a || c in b;
  }

  /** Satisfying the column constraints puts every cell's value in its domain. */
  lemma ColumnsGiveDomains(board: Board, sums: seq<int>, asg: seq<Option<int>>)
    requires IsBoard(board) && |sums| >= 10 && FullAssignment(asg, |board|)
    requires SatisfiesAll(asg, ColumnTable(board, sums))
    ensures InDomains(asg, board)
  {
    forall r, k | 0 <= r < |board| && 0 <= k < 10 ensures ValueAt(asg, r, k) in board[r][k] {
      var c := ColumnTable(board, sums)[k];
      assert c in ColumnTable(board, sums);
      ColumnSumMeaning(board, sums, k, AssignedTuple(asg, c.scope));
    }
  }

  /** A pair constraint of a row holds exactly when both values lie in their domains and differ. */
  lemma NePairSatisfied(board: Board, asg: seq<Option<int>>, r: nat, a: nat, b: nat)
    requires IsBoard(board) && FullAssignment(asg, |board|) && r < |board| && a < 10 && b < 10
    ensures Satisfies(asg, NePair(board, r, a, b)) <==>
      ValueAt(asg, r, a) in board[r][a] && ValueAt(asg, r, b) in board[r][b] && ValueAt(asg, r, a) != ValueAt(asg, r, b)
  {
    var c := NePair(board, r, a, b);
    assert AllAssigned(asg, c.scope);
    assert AssignedTuple(asg, c.scope) == [ValueAt(asg, r, a), ValueAt(asg, r, b)];
    NotEqualMembership(board[r][a], board[r][b], AssignedTuple(asg, c.scope));
  }

  /** With every value in its domain, the pairwise row constraints hold exactly when no row repeats a value. */
  lemma Row1Meaning(board: Board, asg: seq<Option<int>>)
    requires IsBoard(board) && FullAssignment(asg, |board|) && InDomains(asg, board)
    ensures SatisfiesAll(asg, RowTable1(board, |board|)) <==> RowsDistinct(asg, |board|)
  {
    var n := |board|;
    if SatisfiesAll(asg, RowTable1(board, n)) {
      forall r, a, b | 0 <= r < n && 0 <= a < 10 && 0 <= b < 10 && a != b
        ensures ValueAt(asg, r, a) != ValueAt(asg, r, b)
      {
        var lo, hi := if a < b then a else b, if a < b then b else a;
        RowTable1Membership(board, n, NePair(board, r, lo, hi));
        NePairSatisfied(board, asg, r, lo, hi);
      }
      assert forall r :: 0 <= r < n ==> RowDistinct(asg, r);
    }
    if RowsDistinct(asg, n) {
      forall c | c in RowTable1(board, n) ensures Satisfies(asg, c) {
        RowTable1Membership(board, n, c);
        var r, a, b :| 0 <= r < n && 0 <= a < b < 10 && c == NePair(board, r, a, b);
        assert RowDistinct(asg, r);
        NePairSatisfied(board, asg, r, a, b);
      }
    }
  }

  /** The column of the m-th open cell of row i. */
  lemma OpenColumn(i: nat, row: seq<int>, m: nat) returns (k: nat)
    requires |row| >= 10 && m < |FreeCells(i, row, 10)|
    ensures k < 10 && row[k] == -1 && FreeCells(i, row, 10)[m] == Cell(i, k)
  {
    FreeCellsOrder(i, row, 10);
    assert FreeCells(i, row, 10)[m] in FreeCells(i, row, 10);
    k :| 0 <= k < 10 && row[k] == -1 && FreeCells(i, row, 10)[m] == Cell(i, k);
  }

  /** The position of open cell (i, k) in the scope of row i's all-different constraint. */
  lemma OpenPosition(i: nat, row: seq<int>, k: nat) returns (m: nat)
    requires |row| >= 10 && k < 10 && row[k] == -1
    ensures m < |FreeCells(i, row, 10)| && FreeCells(i, row, 10)[m] == Cell(i, k)
  {
    FreeCellsOrder(i, row, 10);
    assert Cell(i, k) in FreeCells(i, row, 10);
    m :| 0 <= m < |FreeCells(i, row, 10)| && FreeCells(i, row, 10)[m] == Cell(i, k);
  }

  /** A pre-set cell with its value in its domain carries the pre-set value. */
  lemma GivenValue(grid: seq<seq<int>>, board: Board, asg: seq<Option<int>>, i: nat, k: nat)
    requires IsGrid(grid) && SetUpOf(grid, board) && InDomains(asg, board)
    requires i < |grid| && k < 10 && grid[i][k] != -1
    ensures ValueAt(asg, i, k) == grid[i][k]
  {
    assert ValueAt(asg, i, k) in board[i][k];
  }

  /**
    With every value in its domain, a row's all-different constraint holds exactly
    when the row's ten values are pairwise different, pre-set cells included.
  */
  lemma RowAllDiffSatisfied(grid: seq<seq<int>>, board: Board, asg: seq<Option<int>>, i: nat)
    requires IsGrid(grid) && SetUpOf(grid, board) && FullAssignment(asg, |grid|) && InDomains(asg, board)
    requires i < |grid| && RemovesOk(grid[i], 10)
    ensures Satisfies(asg, RowAllDiff(i, grid[i])) <==> RowDistinct(asg, i)
  {
    var row := grid[i];
    var s := FreeCells(i, row, 10);
    FreeCellsOrder(i, row, 10);
    RemovesOkIff(row, 10);
    forall m | 0 <= m < |s| ensures s[m] < |asg| && asg[s[m]].Some? {
      var k := OpenColumn(i, row, m);
    }
    var t := AssignedTuple(asg, s);
    RowAllDiffMeaning(i, row, t);
    if t in RowAllDiff(i, row).tuples {
      forall a, b | 0 <= a < 10 && 0 <= b < 10 && a != b
        ensures ValueAt(asg, i, a) != ValueAt(asg, i, b)
      {
        if row[a] == -1 && row[b] == -1 {
          var ma := OpenPosition(i, row, a);
          var mb := OpenPosition(i, row, b);
          CellInjective(i, a, i, b);
          assert t[ma] == ValueAt(asg, i, a) && t[mb] == ValueAt(asg, i, b);
        } else if row[a] == -1 {
          var ma := OpenPosition(i, row, a);
          GivenValue(grid, board, asg, i, b);
          assert t[ma] == ValueAt(asg, i, a);
        } else if row[b] == -1 {
          var mb := OpenPosition(i, row, b);
          GivenValue(grid, board, asg, i, a);
          assert t[mb] == ValueAt(asg, i, b);
        } else {
          GivenValue(grid, board, asg, i, a);
          GivenValue(grid, board, asg, i, b);
        }
      }
    }
    if RowDistinct(asg, i) {
      forall m | 0 <= m < |t| ensures 0 <= t[m] < 10 && forall k :: 0 <= k < 10 ==> t[m] != row[k] {
        var km := OpenColumn(i, row, m);
        assert t[m] == ValueAt(asg, i, km);
        assert ValueAt(asg, i, km) in board[i][km];
        forall k | 0 <= k < 10 ensures t[m] != row[k] {
          if row[k] != -1 {
            GivenValue(grid, board, asg, i, k);
          }
        }
      }
      forall m1, m2 | 0 <= m1 < m2 < |t| ensures t[m1] != t[m2] {
        var k1 := OpenColumn(i, row, m1);
        var k2 := OpenColumn(i, row, m2);
        assert t[m1] == ValueAt(asg, i, k1) && t[m2] == ValueAt(asg, i, k2);
      }
    }
  }

  /** Entry i of the all-different table is row i's constraint. */
  lemma {:induction false} RowTable2At(grid: seq<seq<int>>, n: nat)
    requires IsGrid(grid) && n <= |grid|
    ensures |RowTable2(grid, n)| == n
    ensures forall i {:trigger RowTable2(grid, n)[i]} :: 0 <= i < n ==> RowTable2(grid, n)[i] == RowAllDiff(i, grid[i])
  {
    RowTable2Length(grid, n);
    if n > 0 {
      RowTable2At(grid, n - 1);
      var prev := RowTable2(grid, n - 1);
      var last := RowAllDiff(n - 1, grid[n - 1]);
      assert RowTable2(grid, n) == prev + [last];
      assert |prev| == n - 1;
      forall i | 0 <= i < n ensures RowTable2(grid, n)[i] == RowAllDiff(i, grid[i]) {
        if i < n - 1 {
          assert (prev + [last])[i] == prev[i] == RowAllDiff(i, grid[i]);
        } else {
          assert (prev + [last])[i] == last;
        }
      }
    }
  }

  /** A list of row constraints, entry i holding exactly when row i has no repeats, holds exactly when no row repeats. */
  lemma RowListMeaning(asg: seq<Option<int>>, rows: seq<Constraint>)
    requires forall i :: 0 <= i < |rows| ==> (Satisfies(asg, rows[i]) <==> RowDistinct(asg, i))
    ensures SatisfiesAll(asg, rows) <==> RowsDistinct(asg, |rows|)
  {
    if SatisfiesAll(asg, rows) {
      forall i | 0 <= i < |rows| ensures RowDistinct(asg, i) {
        assert rows[i] in rows;
      }
    }
    if RowsDistinct(asg, |rows|) {
      forall c | c in rows ensures Satisfies(asg, c) {
        var i :| 0 <= i < |rows| && rows[i] == c;
        assert RowDistinct(asg, i);
      }
    }
  }

  /** With every value in its domain, the all-different row constraints hold exactly when no row repeats a value. */
  lemma Row2Meaning(grid: seq<seq<int>>, board: Board, asg: seq<Option<int>>)
    requires IsGrid(grid) && SetUpOf(grid, board) && RowsOk(grid, |grid|)
    requires FullAssignment(asg, |grid|) && InDomains(asg, board)
    ensures SatisfiesAll(asg, RowTable2(grid, |grid|)) <==> RowsDistinct(asg, |grid|)
  {
    var rows := RowTable2(grid, |grid|);
    RowTable2At(grid, |grid|);
    forall i | 0 <= i < |rows| ensures Satisfies(asg, rows[i]) <==> RowDistinct(asg, i) {
      RowAllDiffSatisfied(grid, board, asg, i);
    }
    RowListMeaning(asg, rows);
  }

  /** A full assignment satisfies model 1 exactly when it meets the column sums and the adjacency constraints and no row repeats a value. */
  lemma Model1Meaning(board: Board, sums: seq<int>, asg: seq<Option<int>>)
    requires IsBoard(board) && |sums| >= 10 && FullAssignment(asg, |board|)
    ensures SatisfiesAll(asg, Model1Cons(board, sums)) <==>
      SatisfiesAll(asg, ColumnTable(board, sums)) && SatisfiesAll(asg, AdjacencyTable(board)) && RowsDistinct(asg, |board|)
  {
    SatisfiesAllAppend(asg, ColumnTable(board, sums), AdjacencyTable(board));
    SatisfiesAllAppend(asg, ColumnTable(board, sums) + AdjacencyTable(board), RowTable1(board, |board|));
    if SatisfiesAll(asg, ColumnTable(board, sums)) {
      ColumnsGiveDomains(board, sums, asg);
      Row1Meaning(board, asg);
    }
  }

  /** A full assignment satisfies model 2 exactly when it meets the column sums and the adjacency constraints and no row repeats a value. */
  lemma Model2Meaning(grid: seq<seq<int>>, board: Board, sums: seq<int>, asg: seq<Option<int>>)
    requires IsGrid(grid) && SetUpOf(grid, board) && |sums| >= 10 && RowsOk(grid, |grid|)
    requires FullAssignment(asg, |grid|)
    ensures SatisfiesAll(asg, Model2Cons(grid, board, sums)) <==>
      SatisfiesAll(asg, ColumnTable(board, sums)) && SatisfiesAll(asg, AdjacencyTable(board)) && RowsDistinct(asg, |grid|)
  {
    var a := ColumnTable(board, sums) + AdjacencyTable(board);
    SatisfiesAllAppend(asg, ColumnTable(board, sums), AdjacencyTable(board));
    SatisfiesAllAppend(asg, a, RowTable2(grid, |grid|));
    SatisfiesAllAppend(asg, a + RowTable2(grid, |grid|), AdjacencyTable(board));
    if SatisfiesAll(asg, ColumnTable(board, sums)) {
      ColumnsGiveDomains(board, sums, asg);
      Row2Meaning(grid, board, asg);
    }
  }

  /** Where model 2 is built, a full assignment solves model 1 exactly when it solves model 2. */
  lemma ModelsAgree(grid: seq<seq<int>>, board: Board, sums: seq<int>, asg: seq<Option<int>>)
    requires IsGrid(grid) && SetUpOf(grid, board) && |sums| >= 10 && RowsOk(grid, |grid|)
    requires FullAssignment(asg, |grid|)
    ensures SatisfiesAll(asg, Model1Cons(board, sums)) <==> SatisfiesAll(asg, Model2Cons(grid, board, sums))
  {
    Model1Meaning(board, sums, asg);
    Model2Meaning(grid, board, sums, asg);
  }

  /** A row repeating a pre-set value stops model 2 from being built, and leaves model 1 without a solution. */
  lemma RepeatRejected(grid: seq<seq<int>>, board: Board, sums: seq<int>, asg: seq<Option<int>>, i: nat, a: nat, b: nat)
    requires IsGrid(grid) && SetUpOf(grid, board) && |sums| >= 10 && FullAssignment(asg, |grid|)
    requires i < |grid| && a < b < 10 && grid[i][a] != -1 && grid[i][a] == grid[i][b]
    ensures !RowsOk(grid, |grid|)
    ensures !SatisfiesAll(asg, Model1Cons(board, sums))
  {
    RemovesOkIff(grid[i], 10);
    NePairSatisfied(board, asg, i, a, b);
    RowTable1Membership(board, |board|, NePair(board, i, a, b));
    assert NePair(board, i, a, b) in Model1Cons(board, sums);
  }
}
