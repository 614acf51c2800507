/** Resolving a label to the value in the cell to its right, refusing to
    guess when the label is absent or repeated. */
module Adjacent {
  import opened Wrappers
  import opened Grids
  import opened Locate

  /** `p` is the one and only cell of `g` that satisfies `q`. */
  ghost predicate UniqueHit(g: Grid, q: Query, p: Position)
    requires g.Valid()
  {
    && g.InRange(p)
    && Hits(q, g.At(p))
    && forall p' :: g.InRange(p') && Hits(q, g.At(p')) ==> p' == p
  }

  /** The list of hits has length one exactly when one cell satisfies the
      query, and then that cell is its only element. */
  lemma SingletonIffUnique(g: Grid, q: Query, o: Order)
    requires g.Valid()
    ensures |PositionsOf(g, q, o)| == 1 <==> exists p :: UniqueHit(g, q, p)
    ensures |PositionsOf(g, q, o)| == 1 ==> UniqueHit(g, q, PositionsOf(g, q, o)[0])
  {
    if |PositionsOf(g, q, o)| == 1 {
      SingleHitIsUnique(g, q, o);
    }
    if exists p :: UniqueHit(g, q, p) {
      var p :| UniqueHit(g, q, p);
      UniqueHitIsSingle(g, q, o, p);
    }
  }

  lemma SingleHitIsUnique(g: Grid, q: Query, o: Order)
    requires g.Valid() && |PositionsOf(g, q, o)| == 1
    ensures UniqueHit(g, q, PositionsOf(g, q, o)[0])
  {
    var ps := PositionsOf(g, q, o);
    PositionsOfSpec(g, q, o);
    assert ps[0] in ps;
    forall p' | g.InRange(p') && Hits(q, g.At(p')) ensures p' == ps[0] {
      assert p' in ps;
    }
  }

  /** A cell that alone satisfies the query is the whole hit list. */
  lemma UniqueHitIsSingle(g: Grid, q: Query, o: Order, p: Position)
    requires g.Valid() && UniqueHit(g, q, p)
    ensures PositionsOf(g, q, o) == [p]
  {
    var ps := PositionsOf(g, q, o);
    PositionsOfSpec(g, q, o);
    assert p in ps;
    forall i | 0 <= i < |ps| ensures ps[i] == p {
      assert ps[i] in ps;
    }
    FirstTwoDistinct(o, ps);
  }

  lemma FirstTwoDistinct(o: Order, s: seq<Position>)
    requires Ascending(o, s)
    ensures |s| >= 2 ==> s[0] != s[1]
  {
    if |s| >= 2 {
      assert Precedes(o, s[0], s[1]);
    }
  }

  /** The dictionary `{label: right neighbour}` built from a hit list of
      length one; the `iloc` at column `col + 1` raises past the last
      column. */
  function RightOfSingle(g: Grid, ps: seq<Position>): (r: Result<map<Cell, Cell>, Fault>)
    requires g.Valid() && |ps| == 1 && g.InRange(ps[0])
    ensures r.Success? ==> g.At(ps[0]) in r.value
  {
    var p := ps[0];
    if p.col + 1 < g.width then Success(map[g.At(p) := g.At(Position(p.row, p.col + 1))])
    else Failure(IndexError)
  }

  /** `get_adjacent_value`: `{value: right neighbour}` when `value` occurs in
      exactly one cell, `{}` when it occurs in none or in several, and an
      `IndexError` when its one occurrence is in the last column. */
  function AdjacentValue(g: Grid, value: Cell): Result<map<Cell, Cell>, Fault>
    requires g.Valid()
  {
    var ps := PositionsOf(g, Equals(value), ColumnMajor);
    if |ps| == 1 then
      SingleHitIsUnique(g, Equals(value), ColumnMajor);
      RightOfSingle(g, ps)
    else Success(map[])
  }

  /** `{}` exactly when no cell is the unique occurrence of `value`; with a
      unique occurrence, its right neighbour or `IndexError`. */
  lemma AdjacentValueSpec(g: Grid, value: Cell)
    requires g.Valid()
    ensures AdjacentValue(g, value) == Success(map[]) <==> forall p :: !UniqueHit(g, Equals(value), p)
    ensures forall p :: UniqueHit(g, Equals(value), p) ==>
      AdjacentValue(g, value) == if p.col + 1 < g.width
           then Success(map[value := g.At(Position(p.row, p.col + 1))])
           else Failure(IndexError)
  {
    SingletonIffUnique(g, Equals(value), ColumnMajor);
  }

  /** `get_adjacent_value_containing`: `{cell text: right neighbour}` when
      exactly one text cell contains `fragment`, `{}` otherwise, and an
      `IndexError` when that cell is in the last column. */
  function AdjacentValueContaining(g: Grid, fragment: string): Result<map<Cell, Cell>, Fault>
    requires g.Valid()
  {
    var ps := PositionsOf(g, Contains(fragment), RowMajor);
    if |ps| == 1 then
      SingleHitIsUnique(g, Contains(fragment), RowMajor);
      RightOfSingle(g, ps)
    else Success(map[])
  }

  /** `{}` exactly when no text cell is the unique one containing
      `fragment`; with a unique one, `{its cell: right neighbour}` or
      `IndexError`; every key is a text cell containing `fragment`. */
  lemma AdjacentValueContainingSpec(g: Grid, fragment: string)
    requires g.Valid()
    ensures AdjacentValueContaining(g, fragment) == Success(map[]) <==>
      forall p :: !UniqueHit(g, Contains(fragment), p)
    ensures forall p :: UniqueHit(g, Contains(fragment), p) ==>
      AdjacentValueContaining(g, fragment) == if p.col + 1 < g.width
           then Success(map[g.At(p) := g.At(Position(p.row, p.col + 1))])
           else Failure(IndexError)
    ensures AdjacentValueContaining(g, fragment).Success? ==>
      forall k :: k in AdjacentValueContaining(g, fragment).value ==> k.Text? && IsSubstring(fragment, k.text)
  {
    SingletonIffUnique(g, Contains(fragment), RowMajor);
  }

  /** Narrowing the sheet to a prefix of its columns does not change the
      resolved value, as long as the unique label and its neighbour stay
      inside the view. */
  lemma AdjacentValueStableUnderView(g: Grid, value: Cell, k: nat, p: Position)
    requires g.Valid() && k <= g.width
    requires UniqueHit(g, Equals(value), p) && p.col + 1 < k
    ensures AdjacentValue(View(g, k), value) == AdjacentValue(g, value)
  {
    var v := View(g, k);
    assert UniqueHit(v, Equals(value), p);
    AdjacentValueSpec(g, value);
    AdjacentValueSpec(v, value);
  }

  /** A label that occurs once, in the last column, has no right
      neighbour: the lookup raises instead of resolving to nothing. */
  lemma LastColumnLabelRaises(g: Grid, value: Cell, p: Position)
    requires g.Valid() && UniqueHit(g, Equals(value), p) && p.col + 1 == g.width
    ensures AdjacentValue(g, value) == Failure(IndexError)
  {
    AdjacentValueSpec(g, value);
  }
}
