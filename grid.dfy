/** The untyped 2-D sheet that the instrument export is loaded into, the
    cell predicates the lookups search with, and the exceptions that can
    escape from them. */
module Grids {

  /** One spreadsheet cell. Ragged rows are padded by the loader with NaN,
      which is `Empty` here; numeric cells are kept integral. */
  datatype Cell = Text(text: string) | Num(n: int) | Empty

  /** A (row, column) pair; row and column positions coincide with the
      labels of the frame, since the sheet is read without a header row and
      views keep a prefix of the columns. */
  datatype Position = Position(row: nat, col: nat)

  /** The Python exceptions the core lets escape. */
  datatype Fault =
    | KeyError    // a column label of `df[[0, 1]]` does not exist
    | IndexError  // `iloc` past the last column, or `[0]` of an empty list

  /** A rectangular sheet: every row holds `width` cells. */
  datatype Grid = Grid(rows: seq<seq<Cell>>, width: nat) {

    predicate Valid() {
      forall r :: 0 <= r < |rows| ==> |rows[r]| == width
    }

    function Height(): nat {
      |rows|
    }

    predicate InRange(p: Position) {
      p.row < |rows| && p.col < width
    }

    function At(p: Position): Cell
      requires Valid() && InRange(p)
    {
      rows[p.row][p.col]
    }
  }

  /** `df[[0, ..., k - 1]]`: the same rows restricted to the first `k`
      columns. */
  function View(g: Grid, k: nat): (v: Grid)
    requires g.Valid() && k <= g.width
    ensures v.Valid() && v.width == k && v.Height() == g.Height()
    ensures forall p :: v.InRange(p) <==> g.InRange(p) && p.col < k
    ensures forall p :: v.InRange(p) ==> v.At(p) == g.At(p)
  {
    Grid(seq(|g.rows|, i requires 0 <= i < |g.rows| => g.rows[i][..k]), k)
  }

  /** What a lookup searches for: a cell equal to a value (`isin([value])`),
      or a text cell containing a fragment (`str.contains(value, na=False,
      case=True)`, taken as a literal substring test). */
  datatype Query = Equals(value: Cell) | Contains(fragment: string)

  predicate OccursAt(fragment: string, s: string, i: nat) {
    i + |fragment| <= |s| && s[i..i + |fragment|] == fragment
  }

  /** Case-sensitive substring test, character by character. */
  predicate IsSubstring(fragment: string, s: string) {
    exists i: nat :: i <= |s| && OccursAt(fragment, s, i)
  }

  /** Equality is type-sensitive (a `Text` never equals a `Num`); the
      containment test is false on numeric and empty cells. */
  predicate Hits(q: Query, c: Cell) {
    match q
    case Equals(v) => c == v
    case Contains(f) => c.Text? && IsSubstring(f, c.text)
  }
}
