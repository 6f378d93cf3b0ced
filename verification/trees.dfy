/**
 * Treetop tree house (day 8): a grid of tree heights, which trees can be seen from
 * outside the grid, and how far each tree can see in the four directions.
 * Rows are indexed from the top, columns from the left.
 */
module Trees {

  import opened Common
  import opened Parsing

  type Grid = seq<seq<nat>>

  /** `parse_input`: each character a decimal digit; any other character is a panic, modelled as None. */
  function ParseTrees(lines: seq<string>): (r: Option<Grid>)
    ensures r.Some? <==> forall i :: 0 <= i < |lines| ==> AllDigits(lines[i])
    ensures r.Some? ==> |r.value| == |lines|
    ensures r.Some? ==> forall i :: 0 <= i < |lines| ==> |r.value[i]| == |lines[i]|
    ensures r.Some? ==> Heights(r.value)
  {
    if forall i :: 0 <= i < |lines| ==> AllDigits(lines[i]) then
      Some(seq(|lines|, i requires 0 <= i < |lines| =>
        seq(|lines[i]|, j requires 0 <= j < |lines[i]| => DigitValue(lines[i][j]))))
    else
      None
  }

  /** Every height is a single decimal digit. */
  predicate Heights(trees: Grid) {
    forall i, j :: 0 <= i < |trees| && 0 <= j < |trees[i]| ==> trees[i][j] < 10
  }

  /** The grid written back as lines of digits. */
  function Render(trees: Grid): (lines: seq<string>)
    requires Heights(trees)
  {
    seq(|trees|, i requires 0 <= i < |trees| =>
      seq(|trees[i]|, j requires 0 <= j < |trees[i]| => DigitChar(trees[i][j])))
  }

  /** Parsing and rendering are inverse: a parsed grid renders to its lines, and a grid of digits parses back. */
  lemma ParseRenderRoundTrip(lines: seq<string>, trees: Grid)
    ensures ParseTrees(lines) == Some(trees) ==> Render(trees) == lines
    ensures Heights(trees) ==> ParseTrees(Render(trees)) == Some(trees)
  {
    if ParseTrees(lines) == Some(trees) {
      var back := Render(trees);
      forall i | 0 <= i < |lines|
        ensures back[i] == lines[i]
      {
        assert |back[i]| == |lines[i]|;
        forall j | 0 <= j < |lines[i]|
          ensures back[i][j] == lines[i][j]
        {
          assert trees[i][j] == DigitValue(lines[i][j]);
        }
      }
    }
    if Heights(trees) {
      var text := Render(trees);
      assert forall i :: 0 <= i < |text| ==> AllDigits(text[i]);
      var parsed := ParseTrees(text).value;
      forall i | 0 <= i < |trees|
        ensures parsed[i] == trees[i]
      {
        assert |parsed[i]| == |trees[i]|;
        forall j | 0 <= j < |trees[i]|
          ensures parsed[i][j] == trees[i][j]
        {
          assert text[i][j] == DigitChar(trees[i][j]);
        }
      }
      assert |parsed| == |trees|;
      assert parsed == trees;
    }
  }

  /** Every row has at least `cols` trees, so a column below `cols` can be read in every row. */
  predicate ColumnsExist(trees: Grid, cols: nat) {
    forall r :: 0 <= r < |trees| ==> cols <= |trees[r]|
  }

  /** (row, col) is a tree whose column can be read in every row, as `is_visible` and `scenic_score` index it. */
  predicate IsTree(trees: Grid, row: nat, col: nat) {
    row < |trees| && col < |trees[row]| && ColumnsExist(trees, col + 1)
  }

  /** All trees strictly to the left are shorter. */
  predicate VisibleFromLeft(trees: Grid, row: nat, col: nat)
    requires IsTree(trees, row, col)
  {
    forall c :: 0 <= c < col ==> trees[row][c] < trees[row][col]
  }

  predicate VisibleFromRight(trees: Grid, row: nat, col: nat)
    requires IsTree(trees, row, col)
  {
    forall c :: col < c < |trees[row]| ==> trees[row][c] < trees[row][col]
  }

  predicate VisibleFromAbove(trees: Grid, row: nat, col: nat)
    requires IsTree(trees, row, col)
  {
    forall r :: 0 <= r < row ==> trees[r][col] < trees[row][col]
  }

  predicate VisibleFromBelow(trees: Grid, row: nat, col: nat)
    requires IsTree(trees, row, col)
  {
    forall r :: row < r < |trees| ==> trees[r][col] < trees[row][col]
  }

  /** `is_visible`: seen from at least one of the four edges. */
  predicate IsVisible(trees: Grid, row: nat, col: nat)
    requires IsTree(trees, row, col)
  {
    VisibleFromLeft(trees, row, col) || VisibleFromRight(trees, row, col) ||
    VisibleFromAbove(trees, row, col) || VisibleFromBelow(trees, row, col)
  }

  datatype Direction = Left | Right | Up | Down

  /** How many trees lie between (row, col) and the edge in direction d. */
  function DistanceToEdge(trees: Grid, row: nat, col: nat, d: Direction): nat
    requires IsTree(trees, row, col)
  {
    match d
    case Left => col
    case Right => |trees[row]| - col - 1
    case Up => row
    case Down => |trees| - row - 1
  }

  /** The trees seen looking from (row, col) towards the edge in direction d, nearest first. */
  function View(trees: Grid, row: nat, col: nat, d: Direction): (v: seq<nat>)
    requires IsTree(trees, row, col)
    ensures |v| == DistanceToEdge(trees, row, col, d)
  {
    match d
    case Left => seq(col, i requires 0 <= i < col => trees[row][col - 1 - i])
    case Right => seq(|trees[row]| - col - 1, i requires 0 <= i < |trees[row]| - col - 1 => trees[row][col + 1 + i])
    case Up => seq(row, i requires 0 <= i < row => trees[row - 1 - i][col])
    case Down => seq(|trees| - row - 1, i requires 0 <= i < |trees| - row - 1 => trees[row + 1 + i][col])
  }

  predicate AllShorter(v: seq<nat>, h: nat) {
    forall i :: 0 <= i < |v| ==> v[i] < h
  }

  /** A tree on the outer ring of the grid. */
  predicate OnBorder(trees: Grid, row: nat, col: nat)
    requires IsTree(trees, row, col)
  {
    row == 0 || col == 0 || row == |trees| - 1 || col == |trees[row]| - 1
  }

  /**
   * A tree is visible exactly when, looking along some direction towards the edge,
   * every tree it sees is strictly shorter than it.
   */
  lemma VisibleIffSomeDirectionShorter(trees: Grid, row: nat, col: nat)
    requires IsTree(trees, row, col)
    ensures IsVisible(trees, row, col) <==> exists d :: AllShorter(View(trees, row, col, d), trees[row][col])
  {
    var h := trees[row][col];
    assert VisibleFromLeft(trees, row, col) <==> AllShorter(View(trees, row, col, Left), h) by {
      var v := View(trees, row, col, Left);
      if AllShorter(v, h) {
        forall c | 0 <= c < col ensures trees[row][c] < h {
          assert v[col - 1 - c] == trees[row][c];
        }
      }
    }
    assert VisibleFromRight(trees, row, col) <==> AllShorter(View(trees, row, col, Right), h) by {
      var v := View(trees, row, col, Right);
      if AllShorter(v, h) {
        forall c | col < c < |trees[row]| ensures trees[row][c] < h {
          assert v[c - col - 1] == trees[row][c];
        }
      }
    }
    assert VisibleFromAbove(trees, row, col) <==> AllShorter(View(trees, row, col, Up), h) by {
      var v := View(trees, row, col, Up);
      if AllShorter(v, h) {
        forall r | 0 <= r < row ensures trees[r][col] < h {
          assert v[row - 1 - r] == trees[r][col];
        }
      }
    }
    assert VisibleFromBelow(trees, row, col) <==> AllShorter(View(trees, row, col, Down), h) by {
      var v := View(trees, row, col, Down);
      if AllShorter(v, h) {
        forall r | row < r < |trees| ensures trees[r][col] < h {
          assert v[r - row - 1] == trees[r][col];
        }
      }
    }
    if exists d :: AllShorter(View(trees, row, col, d), h) {
      var d :| AllShorter(View(trees, row, col, d), h);
      assert IsVisible(trees, row, col) by {
        match d
        case Left =>
        case Right =>
        case Up =>
        case Down =>
      }
    }
  }

  /** Trees on the outer ring are always visible: in at least one direction there is nothing in the way. */
  lemma BorderTreesVisible(trees: Grid, row: nat, col: nat)
    requires IsTree(trees, row, col) && OnBorder(trees, row, col)
    ensures IsVisible(trees, row, col)
  {
  }

  /**
   * `take_until(t >= h).count()`: the trees counted while looking along a view, up to and
   * including the first one at least as tall as h.
   */
  function TakeUntilCount(v: seq<nat>, h: nat): (n: nat)
    ensures n <= |v|
    ensures n == 0 <==> |v| == 0
    ensures forall i :: 0 <= i < n - 1 ==> v[i] < h
    ensures n < |v| ==> v[n - 1] >= h
    ensures 0 < n ==> v[n - 1] >= h || n == |v|
  {
    if |v| == 0 then 0
    else if v[0] >= h then 1
    else 1 + TakeUntilCount(v[1..], h)
  }

  /**
   * The count is fixed by the first tree at least as tall as h: one past its position,
   * or the whole view when there is none.
   */
  lemma {:induction false} TakeUntilStopsAtFirstBlocker(v: seq<nat>, h: nat, k: nat)
    requires k < |v| && v[k] >= h && forall i :: 0 <= i < k ==> v[i] < h
    ensures TakeUntilCount(v, h) == k + 1
    decreases k
  {
    if k > 0 {
      TakeUntilStopsAtFirstBlocker(v[1..], h, k - 1);
    }
  }

  lemma {:induction false} TakeUntilSeesEverythingShorter(v: seq<nat>, h: nat)
    requires AllShorter(v, h)
    ensures TakeUntilCount(v, h) == |v|
    decreases |v|
  {
    if |v| > 0 {
      TakeUntilSeesEverythingShorter(v[1..], h);
    }
  }

  /** One directional count of `scenic_score`. */
  function ViewingDistance(trees: Grid, row: nat, col: nat, d: Direction): (n: nat)
    requires IsTree(trees, row, col)
    ensures n <= DistanceToEdge(trees, row, col, d)
    ensures n == 0 <==> DistanceToEdge(trees, row, col, d) == 0
  {
    TakeUntilCount(View(trees, row, col, d), trees[row][col])
  }

  /**
   * Each directional count runs to the first tree at least as tall as the current one
   * and includes it; with no such tree it runs to the edge.
   */
  lemma ViewingDistanceStopsAtBlocker(trees: Grid, row: nat, col: nat, d: Direction)
    requires IsTree(trees, row, col)
    ensures var v := View(trees, row, col, d);
            var n := ViewingDistance(trees, row, col, d);
            (forall k :: 0 <= k < n - 1 ==> v[k] < trees[row][col]) &&
            (n < |v| ==> v[n - 1] >= trees[row][col]) &&
            (AllShorter(v, trees[row][col]) ==> n == |v|) &&
            (!AllShorter(v, trees[row][col]) ==> v[n - 1] >= trees[row][col])
  {
    var v := View(trees, row, col, d);
    var h := trees[row][col];
    if AllShorter(v, h) {
      TakeUntilSeesEverythingShorter(v, h);
    }
  }

  /** `scenic_score`: the product of the four viewing distances. */
  function ScenicScore(trees: Grid, row: nat, col: nat): (s: nat)
    requires IsTree(trees, row, col)
  {
    var l, r := ViewingDistance(trees, row, col, Left), ViewingDistance(trees, row, col, Right);
    var u, d := ViewingDistance(trees, row, col, Up), ViewingDistance(trees, row, col, Down);
    Mul(Mul(Mul(l, r), u), d)
  }

  /**
   * Multiplication as repeated addition. It is the product of the two factors
   * (`MulIsProduct`); stating it this way keeps the score out of the solver's
   * nonlinear arithmetic wherever scores are only compared.
   */
  function Mul(a: nat, b: nat): nat {
    if a == 0 then 0 else b + Mul(a - 1, b)
  }

  lemma {:induction false} MulIsProduct(a: nat, b: nat)
    ensures Mul(a, b) == a * b
    decreases a
  {
    if a > 0 {
      MulIsProduct(a - 1, b);
    }
  }

  /** The scenic score is the ordinary product of the four viewing distances. */
  lemma ScenicScoreIsProduct(trees: Grid, row: nat, col: nat)
    requires IsTree(trees, row, col)
    ensures ScenicScore(trees, row, col) ==
              ViewingDistance(trees, row, col, Left) * ViewingDistance(trees, row, col, Right) *
              ViewingDistance(trees, row, col, Up) * ViewingDistance(trees, row, col, Down)
  {
    var l, r := ViewingDistance(trees, row, col, Left), ViewingDistance(trees, row, col, Right);
    var u, d := ViewingDistance(trees, row, col, Up), ViewingDistance(trees, row, col, Down);
    MulIsProduct(l, r);
    MulIsProduct(l * r, u);
    MulIsProduct(l * r * u, d);
  }

  lemma ProductZero(a: nat, b: nat, c: nat, d: nat)
    ensures a * b * c * d == 0 <==> a == 0 || b == 0 || c == 0 || d == 0
  {
    if a != 0 && b != 0 && c != 0 && d != 0 {
      assert a * b >= 1 by { MulPositive(a, b); }
      assert a * b * c >= 1 by { MulPositive(a * b, c); }
      MulPositive(a * b * c, d);
    }
  }

  lemma MulPositive(a: nat, b: nat)
    requires a >= 1 && b >= 1
    ensures a * b >= 1
  {
  }

  lemma MulMonotone(a: nat, b: nat, c: nat, d: nat)
    requires a <= c && b <= d
    ensures a * b <= c * d
  {
    assert a * b <= c * b;
    assert c * b <= c * d;
  }

  /** The scenic score is zero exactly on the outer ring of the grid. */
  lemma ScenicScoreZeroIffBorder(trees: Grid, row: nat, col: nat)
    requires IsTree(trees, row, col)
    ensures ScenicScore(trees, row, col) == 0 <==> OnBorder(trees, row, col)
  {
    ScenicScoreIsProduct(trees, row, col);
    ProductZero(ViewingDistance(trees, row, col, Left), ViewingDistance(trees, row, col, Right),
                ViewingDistance(trees, row, col, Up), ViewingDistance(trees, row, col, Down));
  }

  /** The scenic score never exceeds the product of the four distances to the edges. */
  lemma ScenicScoreBounded(trees: Grid, row: nat, col: nat)
    requires IsTree(trees, row, col)
    ensures ScenicScore(trees, row, col) <=
              DistanceToEdge(trees, row, col, Left) * DistanceToEdge(trees, row, col, Right) *
              DistanceToEdge(trees, row, col, Up) * DistanceToEdge(trees, row, col, Down)
  {
    ScenicScoreIsProduct(trees, row, col);
    ProductMonotone(ViewingDistance(trees, row, col, Left), ViewingDistance(trees, row, col, Right),
                    ViewingDistance(trees, row, col, Up), ViewingDistance(trees, row, col, Down),
                    DistanceToEdge(trees, row, col, Left), DistanceToEdge(trees, row, col, Right),
                    DistanceToEdge(trees, row, col, Up), DistanceToEdge(trees, row, col, Down));
  }

  lemma ProductMonotone(a: nat, b: nat, c: nat, d: nat, a': nat, b': nat, c': nat, d': nat)
    requires a <= a' && b <= b' && c <= c' && d <= d'
    ensures a * b * c * d <= a' * b' * c' * d'
  {
    MulMonotone(a, b, a', b');
    MulMonotone(a * b, c, a' * b', c');
    MulMonotone(a * b * c, d, a' * b' * c', d');
  }

  /** A tree visible from a direction sees all the way to that edge. */
  lemma VisibleDirectionSeesToEdge(trees: Grid, row: nat, col: nat, d: Direction)
    requires IsTree(trees, row, col) && AllShorter(View(trees, row, col, d), trees[row][col])
    ensures ViewingDistance(trees, row, col, d) == DistanceToEdge(trees, row, col, d)
  {
    TakeUntilSeesEverythingShorter(View(trees, row, col, d), trees[row][col]);
  }

  /** The positions `visible_count` counts: the whole grid, its width taken from the first row. */
  ghost function VisiblePositions(trees: Grid): set<(nat, nat)>
    requires |trees| > 0 && ColumnsExist(trees, |trees[0]|)
  {
    set i: nat, j: nat | i < |trees| && j < |trees[0]| && IsVisible(trees, i, j) :: (i, j)
  }

  /** The visible positions met before (r, c) in row-major order. */
  ghost function Seen(trees: Grid, cols: nat, r: nat, c: nat): set<(nat, nat)>
    requires ColumnsExist(trees, cols)
  {
    set i: nat, j: nat | i < |trees| && j < cols && (i < r || (i == r && j < c)) && IsVisible(trees, i, j) :: (i, j)
  }

  lemma SeenStep(trees: Grid, cols: nat, r: nat, c: nat)
    requires ColumnsExist(trees, cols) && r < |trees| && c < cols
    ensures (r, c) !in Seen(trees, cols, r, c)
    ensures IsVisible(trees, r, c) ==> Seen(trees, cols, r, c + 1) == Seen(trees, cols, r, c) + {(r, c)}
    ensures !IsVisible(trees, r, c) ==> Seen(trees, cols, r, c + 1) == Seen(trees, cols, r, c)
  {
  }

  lemma SeenRowDone(trees: Grid, cols: nat, r: nat)
    requires ColumnsExist(trees, cols)
    ensures Seen(trees, cols, r, cols) == Seen(trees, cols, r + 1, 0)
  {
  }

  /**
   * `visible_count`: how many positions of the grid hold a visible tree; at most the
   * number of positions, and every tree on the ring is among them.
   */
  method VisibleCount(trees: Grid) returns (count: nat)
    requires |trees| > 0 && ColumnsExist(trees, |trees[0]|)
    ensures count == |VisiblePositions(trees)|
    ensures count <= |trees| * |trees[0]|
  {
    var cols := |trees[0]|;
    count := 0;
    for r := 0 to |trees|
      invariant count == |Seen(trees, cols, r, 0)|
      invariant count <= r * cols
    {
      for c := 0 to cols
        invariant count == |Seen(trees, cols, r, c)|
        invariant count <= r * cols + c
      {
        SeenStep(trees, cols, r, c);
        if IsVisible(trees, r, c) {
          count := count + 1;
        }
      }
      SeenRowDone(trees, cols, r);
      assert (r + 1) * cols == r * cols + cols;
    }
    assert Seen(trees, cols, |trees|, 0) == VisiblePositions(trees);
  }

  /** Every tree on the outer ring of the grid is among the visible positions. */
  lemma BorderPositionsVisible(trees: Grid, i: nat, j: nat)
    requires |trees| > 0 && ColumnsExist(trees, |trees[0]|)
    requires i < |trees| && j < |trees[0]| && (i == 0 || j == 0 || i == |trees| - 1 || j == |trees[i]| - 1)
    ensures (i, j) in VisiblePositions(trees)
  {
    assert IsTree(trees, i, j);
    BorderTreesVisible(trees, i, j);
  }

  /** No cell met before (r, c) in row-major order scores more than `best`. */
  ghost predicate ScoresAtMost(score: (nat, nat) -> nat, rows: nat, cols: nat, r: nat, c: nat, best: nat) {
    forall i: nat, j: nat :: i < rows && j < cols && (i < r || (i == r && j < c)) ==> score(i, j) <= best
  }

  lemma ScoresStep(score: (nat, nat) -> nat, rows: nat, cols: nat, r: nat, c: nat, best: nat, next: nat)
    requires ScoresAtMost(score, rows, cols, r, c, best)
    requires score(r, c) <= next && best <= next
    ensures ScoresAtMost(score, rows, cols, r, c + 1, next)
  {
  }

  lemma ScoresRowDone(score: (nat, nat) -> nat, rows: nat, cols: nat, r: nat, best: nat)
    ensures ScoresAtMost(score, rows, cols, r, cols, best) == ScoresAtMost(score, rows, cols, r + 1, 0, best)
  {
  }

  /** The scenic score of a tree, and zero off the grid. */
  function ScoreOrZero(trees: Grid, i: nat, j: nat): nat {
    if IsTree(trees, i, j) then ScenicScore(trees, i, j) else 0
  }

  /** The largest score over a rows-by-cols grid, scanning in row-major order. */
  method MaxOverGrid(score: (nat, nat) -> nat, rows: nat, cols: nat) returns (best: nat)
    requires rows > 0 && cols > 0
    ensures exists i: nat, j: nat :: i < rows && j < cols && score(i, j) == best
    ensures forall i: nat, j: nat :: i < rows && j < cols ==> score(i, j) <= best
  {
    best := score(0, 0);
    ghost var bi: nat, bj: nat := 0, 0;
    for r := 0 to rows
      invariant bi < rows && bj < cols && score(bi, bj) == best
      invariant ScoresAtMost(score, rows, cols, r, 0, best)
    {
      for c := 0 to cols
        invariant bi < rows && bj < cols && score(bi, bj) == best
        invariant ScoresAtMost(score, rows, cols, r, c, best)
      {
        var s := score(r, c);
        if s > best {
          ScoresStep(score, rows, cols, r, c, best, s);
          best, bi, bj := s, r, c;
        } else {
          ScoresStep(score, rows, cols, r, c, best, best);
        }
      }
      ScoresRowDone(score, rows, cols, r, best);
    }
  }

  /**
   * `maximum_scenic_score`: the largest scenic score over the grid; an empty grid is a
   * panic in the source and is excluded.
   */
  method MaximumScenicScore(trees: Grid) returns (best: nat)
    requires |trees| > 0 && |trees[0]| > 0 && ColumnsExist(trees, |trees[0]|)
    ensures exists i, j :: 0 <= i < |trees| && 0 <= j < |trees[0]| && ScenicScore(trees, i, j) == best
    ensures forall i, j :: 0 <= i < |trees| && 0 <= j < |trees[0]| ==> ScenicScore(trees, i, j) <= best
  {
    var cols := |trees[0]|;
    var score := (i: nat, j: nat) => ScoreOrZero(trees, i, j);
    assert forall i: nat, j: nat :: score(i, j) == ScoreOrZero(trees, i, j);
    best := MaxOverGrid(score, |trees|, cols);
    ScoresTransfer(trees, score, best);
  }

  /** What the generic scan says about `ScoreOrZero`, said about the scenic scores. */
  lemma ScoresTransfer(trees: Grid, score: (nat, nat) -> nat, best: nat)
    requires |trees| > 0 && ColumnsExist(trees, |trees[0]|)
    requires forall i: nat, j: nat :: score(i, j) == ScoreOrZero(trees, i, j)
    requires exists i: nat, j: nat :: i < |trees| && j < |trees[0]| && score(i, j) == best
    requires forall i: nat, j: nat :: i < |trees| && j < |trees[0]| ==> score(i, j) <= best
    ensures exists i, j :: 0 <= i < |trees| && 0 <= j < |trees[0]| && ScenicScore(trees, i, j) == best
    ensures forall i, j :: 0 <= i < |trees| && 0 <= j < |trees[0]| ==> ScenicScore(trees, i, j) <= best
  {
    var bi: nat, bj: nat :| bi < |trees| && bj < |trees[0]| && score(bi, bj) == best;
    assert IsTree(trees, bi, bj) && ScoreOrZero(trees, bi, bj) == best;
    forall i, j | 0 <= i < |trees| && 0 <= j < |trees[0]|
      ensures ScenicScore(trees, i, j) <= best
    {
      assert IsTree(trees, i, j) && score(i, j) <= best;
    }
  }
}
