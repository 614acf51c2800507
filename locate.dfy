/** Locating every cell of a sheet that satisfies a query, in the order in
    which pandas reports them. */
module Locate {
  import opened Grids

  /** `get_positions_of_value` walks column by column (rows ascending within
      a column); `DataFrame.stack` in `get_adjacent_value_containing` walks
      row by row (columns ascending within a row). */
  datatype Order = ColumnMajor | RowMajor

  /** The number of lines the scan walks, and the length of each line. */
  function MajorCount(o: Order, g: Grid): nat {
    if o.ColumnMajor? then g.width else g.Height()
  }

  function MinorCount(o: Order, g: Grid): nat {
    if o.ColumnMajor? then g.Height() else g.width
  }

  /** The cell at index `minor` of line `major`. */
  function Pos(o: Order, major: nat, minor: nat): Position {
    if o.ColumnMajor? then Position(minor, major) else Position(major, minor)
  }

  function Major(o: Order, p: Position): nat {
    if o.ColumnMajor? then p.col else p.row
  }

  function Minor(o: Order, p: Position): nat {
    if o.ColumnMajor? then p.row else p.col
  }

  /** Strict lexicographic order on (line, index within the line). */
  predicate Precedes(o: Order, p: Position, q: Position) {
    Major(o, p) < Major(o, q) || (Major(o, p) == Major(o, q) && Minor(o, p) < Minor(o, q))
  }

  predicate Ascending(o: Order, s: seq<Position>) {
    forall i, j :: 0 <= i < j < |s| ==> Precedes(o, s[i], s[j])
  }

  /** The hits among the first `n` cells of line `line`. */
  function LineHits(g: Grid, q: Query, o: Order, line: nat, n: nat): seq<Position>
    requires g.Valid() && line < MajorCount(o, g) && n <= MinorCount(o, g)
  {
    if n == 0 then []
    else
      var p := Pos(o, line, n - 1);
      LineHits(g, q, o, line, n - 1) + (if Hits(q, g.At(p)) then [p] else [])
  }

  /** The hits on the first `m` lines, line after line. */
  function LinesHits(g: Grid, q: Query, o: Order, m: nat): seq<Position>
    requires g.Valid() && m <= MajorCount(o, g)
  {
    if m == 0 then []
    else LinesHits(g, q, o, m - 1) + LineHits(g, q, o, m - 1, MinorCount(o, g))
  }

  /** The positions whose cell satisfies `q`, scanned in order `o`. */
  function PositionsOf(g: Grid, q: Query, o: Order): seq<Position>
    requires g.Valid()
  {
    LinesHits(g, q, o, MajorCount(o, g))
  }

  /** Every position whose cell satisfies `q` is listed, nothing else is,
      and the list ascends strictly in order `o`, so no position repeats. */
  lemma PositionsOfSpec(g: Grid, q: Query, o: Order)
    requires g.Valid()
    ensures forall p :: p in PositionsOf(g, q, o) <==> g.InRange(p) && Hits(q, g.At(p))
    ensures Ascending(o, PositionsOf(g, q, o))
  {
    LinesHitsMembers(g, q, o, MajorCount(o, g));
    LinesHitsAscending(g, q, o, MajorCount(o, g));
  }

  lemma AscendingConcat(o: Order, a: seq<Position>, b: seq<Position>)
    requires Ascending(o, a) && Ascending(o, b)
    requires forall x, y :: x in a && y in b ==> Precedes(o, x, y)
    ensures Ascending(o, a + b)
  {
    forall i, j | 0 <= i < j < |a + b|
      ensures Precedes(o, (a + b)[i], (a + b)[j])
    {
      if j < |a| {
        assert (a + b)[i] == a[i] && (a + b)[j] == a[j];
      } else if i < |a| {
        assert (a + b)[i] == a[i] && a[i] in a;
        assert (a + b)[j] == b[j - |a|] && b[j - |a|] in b;
      } else {
        assert (a + b)[i] == b[i - |a|] && (a + b)[j] == b[j - |a|];
      }
    }
  }

  lemma {:induction false} LineHitsMembers(g: Grid, q: Query, o: Order, line: nat, n: nat)
    requires g.Valid() && line < MajorCount(o, g) && n <= MinorCount(o, g)
    ensures forall p :: p in LineHits(g, q, o, line, n) <==>
      g.InRange(p) && Major(o, p) == line && Minor(o, p) < n && Hits(q, g.At(p))
  {
    if n > 0 {
      LineHitsMembers(g, q, o, line, n - 1);
    }
  }

  lemma {:induction false} LineHitsAscending(g: Grid, q: Query, o: Order, line: nat, n: nat)
    requires g.Valid() && line < MajorCount(o, g) && n <= MinorCount(o, g)
    ensures Ascending(o, LineHits(g, q, o, line, n))
  {
    if n > 0 {
      var before := LineHits(g, q, o, line, n - 1);
      var p := Pos(o, line, n - 1);
      var last := if Hits(q, g.At(p)) then [p] else [];
      LineHitsAscending(g, q, o, line, n - 1);
      LineHitsMembers(g, q, o, line, n - 1);
      forall x, y | x in before && y in last ensures Precedes(o, x, y) {
        assert Major(o, x) == line == Major(o, y) && Minor(o, x) < n - 1 == Minor(o, y);
      }
      AscendingConcat(o, before, last);
    }
  }

  lemma {:induction false} LinesHitsMembers(g: Grid, q: Query, o: Order, m: nat)
    requires g.Valid() && m <= MajorCount(o, g)
    ensures forall p :: p in LinesHits(g, q, o, m) <==>
      g.InRange(p) && Major(o, p) < m && Hits(q, g.At(p))
  {
    if m > 0 {
      LinesHitsMembers(g, q, o, m - 1);
      LineHitsMembers(g, q, o, m - 1, MinorCount(o, g));
    }
  }

  lemma {:induction false} LinesHitsAscending(g: Grid, q: Query, o: Order, m: nat)
    requires g.Valid() && m <= MajorCount(o, g)
    ensures Ascending(o, LinesHits(g, q, o, m))
  {
    if m > 0 {
      var before, line := LinesHits(g, q, o, m - 1), LineHits(g, q, o, m - 1, MinorCount(o, g));
      LinesHitsAscending(g, q, o, m - 1);
      LinesHitsMembers(g, q, o, m - 1);
      LineHitsMembers(g, q, o, m - 1, MinorCount(o, g));
      LineHitsAscending(g, q, o, m - 1, MinorCount(o, g));
      forall x, y | x in before && y in line ensures Precedes(o, x, y) {
        assert Major(o, x) < m - 1 == Major(o, y);
      }
      AscendingConcat(o, before, line);
    }
  }

  /** `get_positions_of_value`: the (row, column) of every cell equal to
      `value`, grouped by column in ascending column order, rows ascending
      within a column, no position twice. */
  method GetPositionsOfValue(g: Grid, value: Cell) returns (ps: seq<Position>)
    requires g.Valid()
    ensures ps == PositionsOf(g, Equals(value), ColumnMajor)
    ensures forall p :: p in ps <==> g.InRange(p) && g.At(p) == value
    ensures forall i, j :: 0 <= i < j < |ps| ==>
      ps[i].col < ps[j].col || (ps[i].col == ps[j].col && ps[i].row < ps[j].row)
  {
    ghost var q := Equals(value);
    ps := [];
    var col := 0;
    while col < g.width
      invariant col <= g.width
      invariant ps == LinesHits(g, q, ColumnMajor, col)
    {
      var row := 0;
      while row < |g.rows|
        invariant row <= |g.rows|
        invariant ps == LinesHits(g, q, ColumnMajor, col) + LineHits(g, q, ColumnMajor, col, row)
      {
        if g.rows[row][col] == value {
          ps := ps + [Position(row, col)];
        }
        row := row + 1;
      }
      col := col + 1;
    }
    PositionsOfSpec(g, q, ColumnMajor);
  }
}
