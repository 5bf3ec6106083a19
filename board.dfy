/** The board of `Gomoku` (gomoku.py) as a value: a 15 × 15 grid of 0
    (empty), 1 (black) and 2 (white), what `check_win` counts on it, and what
    five in a row means. The engine's methods are specified against it. */
module Board {
  const Size := 15
  const Empty := 0
  const Black := 1
  const White := 2

  type Grid = seq<seq<int>>

  predicate Square(g: Grid) {
    |g| == Size && forall i :: 0 <= i < |g| ==> |g[i]| == Size
  }

  /** Every cell is empty, black or white. */
  predicate WellFormed(g: Grid) {
    Square(g) && forall i, j :: 0 <= i < Size && 0 <= j < Size ==> Empty <= g[i][j] <= White
  }

  predicate InBounds(x: int, y: int) {
    0 <= x < Size && 0 <= y < Size
  }

  predicate IsPlayer(p: int) {
    p == Black || p == White
  }

  /** The board of `restart_game`: every cell empty. */
  function EmptyGrid(): (g: Grid)
    ensures WellFormed(g)
    ensures forall i, j :: 0 <= i < Size && 0 <= j < Size ==> g[i][j] == Empty
  {
    seq(Size, i => seq(Size, j => Empty))
  }

  /** `board[x][y] = v`. */
  function Put(g: Grid, x: int, y: int, v: int): (h: Grid)
    requires Square(g) && InBounds(x, y)
    ensures Square(h) && h[x][y] == v
    ensures forall i, j :: 0 <= i < Size && 0 <= j < Size && (i, j) != (x, y) ==> h[i][j] == g[i][j]
  {
    g[x := g[x][y := v]]
  }

  // ---------------------------------------------------------------------
  // Lines through a cell

  /** The four axes `check_win` looks along, as (row step, column step). */
  datatype Axis = Horizontal | Vertical | Diagonal | AntiDiagonal

  function Dx(a: Axis): int {
    match a
    case Horizontal => 0
    case Vertical => 1
    case Diagonal => 1
    case AntiDiagonal => 1
  }

  function Dy(a: Axis): int {
    match a
    case Horizontal => 1
    case Vertical => 0
    case Diagonal => 1
    case AntiDiagonal => -1
  }

  /** `d * i` for a step `d` of -1, 0 or 1. */
  function Scale(d: int, i: int): int {
    if d == 0 then 0 else if d > 0 then i else -i
  }

  /** `i` steps of (dx, dy) from (x, y) land on the board, on a stone of `p`. */
  predicate Holds(g: Grid, x: int, y: int, dx: int, dy: int, p: int, i: int)
    requires Square(g)
  {
    InBounds(x + Scale(dx, i), y + Scale(dy, i)) && g[x + Scale(dx, i)][y + Scale(dy, i)] == p
  }

  /** What one of `check_win`'s loops adds to `count`: the steps
      `from`, `from + 1`, ..., 4 are tried in turn and the loop breaks at the
      first that does not hold. */
  function Run(g: Grid, x: int, y: int, dx: int, dy: int, p: int, from: nat): nat
    requires Square(g)
    decreases 5 - from
  {
    if from > 4 then 0
    else if Holds(g, x, y, dx, dy, p, from) then 1 + Run(g, x, y, dx, dy, p, from + 1)
    else 0
  }

  /** The `count` `check_win` reaches on one axis: the placed stone, the
      run forward and the run backward, at most 4 steps each. */
  function AxisCount(g: Grid, x: int, y: int, a: Axis, p: int): nat
    requires Square(g)
  {
    1 + Run(g, x, y, Dx(a), Dy(a), p, 1) + Run(g, x, y, -Dx(a), -Dy(a), p, 1)
  }

  /** `check_win(x, y)` for the stone colour `p`: some axis counts five or more. */
  predicate CountsFive(g: Grid, x: int, y: int, p: int)
    requires Square(g)
  {
    AxisCount(g, x, y, Horizontal, p) >= 5 || AxisCount(g, x, y, Vertical, p) >= 5
    || AxisCount(g, x, y, Diagonal, p) >= 5 || AxisCount(g, x, y, AntiDiagonal, p) >= 5
  }

  /** Steps `s` to `s + 4` along axis `a` all hold: five stones of `p` in a line. */
  predicate Window(g: Grid, x: int, y: int, a: Axis, p: int, s: int)
    requires Square(g)
  {
    forall i :: s <= i <= s + 4 ==> Holds(g, x, y, Dx(a), Dy(a), p, i)
  }

  /** Five consecutive stones of `p` on one axis, one of them at (x, y).
      Longer lines contain such a window too: there is no overline rule. */
  ghost predicate FiveThrough(g: Grid, x: int, y: int, p: int)
    requires Square(g)
  {
    exists a: Axis, s: int :: -4 <= s <= 0 && Window(g, x, y, a, p, s)
  }

  // ---------------------------------------------------------------------
  // The bounded count and the line it stands for

  /** A run never reaches past step 4, and every step it counts holds. */
  lemma {:induction false} RunHolds(g: Grid, x: int, y: int, dx: int, dy: int, p: int, from: nat)
    requires Square(g) && from <= 5
    ensures from + Run(g, x, y, dx, dy, p, from) <= 5
    ensures forall i :: from <= i < from + Run(g, x, y, dx, dy, p, from) ==> Holds(g, x, y, dx, dy, p, i)
    decreases 5 - from
  {
    if from <= 4 && Holds(g, x, y, dx, dy, p, from) {
      RunHolds(g, x, y, dx, dy, p, from + 1);
    }
  }

  /** A run goes on at least as far as the steps that hold. */
  lemma {:induction false} RunAtLeast(g: Grid, x: int, y: int, dx: int, dy: int, p: int, from: nat, m: nat)
    requires Square(g) && from + m <= 5
    requires forall i :: from <= i < from + m ==> Holds(g, x, y, dx, dy, p, i)
    ensures Run(g, x, y, dx, dy, p, from) >= m
    decreases m
  {
    if m > 0 {
      assert Holds(g, x, y, dx, dy, p, from);
      RunAtLeast(g, x, y, dx, dy, p, from + 1, m - 1);
    }
  }

  /** Stepping backward `i` times is stepping forward `-i` times. */
  lemma Backward(g: Grid, x: int, y: int, a: Axis, p: int, i: int)
    requires Square(g)
    ensures Holds(g, x, y, -Dx(a), -Dy(a), p, i) == Holds(g, x, y, Dx(a), Dy(a), p, -i)
  {
    assert Scale(-Dx(a), i) == Scale(Dx(a), -i) && Scale(-Dy(a), i) == Scale(Dy(a), -i);
  }

  /** The cell itself holds `p`. */
  lemma HoldsHere(g: Grid, x: int, y: int, dx: int, dy: int, p: int)
    requires Square(g) && InBounds(x, y) && g[x][y] == p
    ensures Holds(g, x, y, dx, dy, p, 0)
  {
  }

  /** A count of five or more on an axis leaves a window of five there,
      starting where the backward run ends. */
  lemma CountGivesWindow(g: Grid, x: int, y: int, a: Axis, p: int, b: nat)
    requires Square(g) && InBounds(x, y) && g[x][y] == p
    requires AxisCount(g, x, y, a, p) >= 5 && b == Run(g, x, y, -Dx(a), -Dy(a), p, 1)
    ensures b <= 4 && Window(g, x, y, a, p, -(b as int))
  {
    var dx, dy, rx, ry := Dx(a), Dy(a), -Dx(a), -Dy(a);
    RunHolds(g, x, y, dx, dy, p, 1);
    RunHolds(g, x, y, rx, ry, p, 1);
    forall i | -(b as int) <= i <= -(b as int) + 4
      ensures Holds(g, x, y, dx, dy, p, i)
    {
      if i < 0 {
        assert Holds(g, x, y, rx, ry, p, -i);
        Backward(g, x, y, a, p, -i);
      } else if i == 0 {
        HoldsHere(g, x, y, dx, dy, p);
      }
    }
  }

  /** A window of five on an axis makes that axis count five or more. */
  lemma WindowGivesCount(g: Grid, x: int, y: int, a: Axis, p: int, s: int)
    requires Square(g) && -4 <= s <= 0 && Window(g, x, y, a, p, s)
    ensures AxisCount(g, x, y, a, p) >= 5
  {
    var rx, ry := -Dx(a), -Dy(a);
    RunAtLeast(g, x, y, Dx(a), Dy(a), p, 1, s + 4);
    forall j | 1 <= j < 1 - s
      ensures Holds(g, x, y, rx, ry, p, j)
    {
      Backward(g, x, y, a, p, j);
    }
    RunAtLeast(g, x, y, rx, ry, p, 1, -s);
  }

  /** `check_win` is right: right after `p`'s stone lands on (x, y), it
      answers true exactly when that stone is part of five (or more) of `p`'s
      stones in a row, horizontally, vertically or diagonally. */
  lemma CountsFiveIffFive(g: Grid, x: int, y: int, p: int)
    requires Square(g) && InBounds(x, y) && g[x][y] == p
    ensures CountsFive(g, x, y, p) <==> FiveThrough(g, x, y, p)
  {
    if CountsFive(g, x, y, p) {
      var a :| AxisCount(g, x, y, a, p) >= 5;
      var b := Run(g, x, y, -Dx(a), -Dy(a), p, 1);
      CountGivesWindow(g, x, y, a, p, b);
      assert -4 <= -(b as int) <= 0 && Window(g, x, y, a, p, -(b as int));
    }
    if FiveThrough(g, x, y, p) {
      var a, s :| -4 <= s <= 0 && Window(g, x, y, a, p, s);
      WindowGivesCount(g, x, y, a, p, s);
      assert AxisCount(g, x, y, a, p) >= 5;
    }
  }

  /** Six or more in a row also win: a line of six through (x, y) holds a
      window of five through it. */
  lemma OverlineWins(g: Grid, x: int, y: int, a: Axis, p: int, s: int)
    requires Square(g) && InBounds(x, y) && g[x][y] == p
    requires -5 <= s <= 0 && forall i :: s <= i <= s + 5 ==> Holds(g, x, y, Dx(a), Dy(a), p, i)
    ensures CountsFive(g, x, y, p)
  {
    var t := if s == -5 then -4 else s;
    assert Window(g, x, y, a, p, t);
    CountsFiveIffFive(g, x, y, p);
  }

  // ---------------------------------------------------------------------
  // Stone counts

  function RowCount(row: seq<int>, v: int): nat
    decreases |row|
  {
    if row == [] then 0 else RowCount(row[..|row| - 1], v) + (if row[|row| - 1] == v then 1 else 0)
  }

  /** How many cells of the first `n` rows hold `v`. */
  function CountRows(g: Grid, v: int, n: nat): nat
    requires n <= |g|
  {
    if n == 0 then 0 else CountRows(g, v, n - 1) + RowCount(g[n - 1], v)
  }

  /** How many cells hold `v`. */
  function Count(g: Grid, v: int): nat {
    CountRows(g, v, |g|)
  }

  /** Setting one cell of a row changes its count of `v` by what left and what came. */
  lemma {:induction false} RowCountSet(row: seq<int>, y: nat, w: int, v: int)
    requires y < |row|
    ensures RowCount(row[y := w], v) + (if row[y] == v then 1 else 0)
         == RowCount(row, v) + (if w == v then 1 else 0)
    decreases |row|
  {
    var n := |row| - 1;
    if y < n {
      assert row[y := w][..n] == row[..n][y := w];
      RowCountSet(row[..n], y, w, v);
    } else {
      assert row[y := w][..n] == row[..n];
    }
  }

  lemma {:induction false} CountRowsSet(g: Grid, x: nat, h: Grid, v: int, n: nat)
    requires n <= |g| == |h| && x < |g|
    requires forall i :: 0 <= i < |g| && i != x ==> h[i] == g[i]
    ensures n <= x ==> CountRows(h, v, n) == CountRows(g, v, n)
    ensures x < n ==> CountRows(h, v, n) + RowCount(g[x], v) == CountRows(g, v, n) + RowCount(h[x], v)
    decreases n
  {
    if n > 0 {
      CountRowsSet(g, x, h, v, n - 1);
    }
  }

  /** Placing a stone of `p` on an empty cell adds one to `p`'s count and
      leaves every other colour's count alone. */
  lemma PutCount(g: Grid, x: int, y: int, p: int, v: int)
    requires Square(g) && InBounds(x, y) && g[x][y] == Empty && p != Empty
    ensures Count(Put(g, x, y, p), v) == Count(g, v) + (if v == p then 1 else 0) - (if v == Empty then 1 else 0)
  {
    var h := Put(g, x, y, p);
    RowCountSet(g[x], y, p, v);
    CountRowsSet(g, x, h, v, |g|);
  }

  /** Black has one stone more than White exactly when it is White's turn:
      what alternating moves from the empty board with Black to play keep. */
  predicate Balanced(g: Grid, player: int) {
    Count(g, Black) == Count(g, White) + (if player == White then 1 else 0)
  }

  /** A stone placed by the player to move, followed by `3 - player`, keeps the balance. */
  lemma PlaceKeepsBalance(g: Grid, x: int, y: int, p: int)
    requires Square(g) && InBounds(x, y) && g[x][y] == Empty && IsPlayer(p)
    requires Balanced(g, p)
    ensures Balanced(Put(g, x, y, p), 3 - p)
  {
    PutCount(g, x, y, p, Black);
    PutCount(g, x, y, p, White);
  }

  /** Under the balance, Black is to move exactly when an even number of stones is down. */
  lemma TurnParity(g: Grid, p: int)
    requires IsPlayer(p) && Balanced(g, p)
    ensures p == Black <==> (Count(g, Black) + Count(g, White)) % 2 == 0
  {
  }

  lemma {:induction false} RowCountEmpty(n: nat, v: int)
    ensures RowCount(seq(n, j => Empty), v) == if v == Empty then n else 0
  {
    if n > 0 {
      assert seq(n, j => Empty)[..n - 1] == seq(n - 1, j => Empty);
      RowCountEmpty(n - 1, v);
    }
  }

  lemma {:induction false} CountRowsEmpty(n: nat, v: int)
    requires n <= Size
    ensures CountRows(EmptyGrid(), v, n) == if v == Empty then n * Size else 0
  {
    if n > 0 {
      CountRowsEmpty(n - 1, v);
      RowCountEmpty(Size, v);
    }
  }

  /** The empty board holds no stones, so Black to move is balanced. */
  lemma EmptyBalanced()
    ensures Count(EmptyGrid(), Black) == 0 && Count(EmptyGrid(), White) == 0
    ensures Balanced(EmptyGrid(), Black)
  {
    CountRowsEmpty(Size, Black);
    CountRowsEmpty(Size, White);
  }

  /** Some cell is empty: `possible_moves` is not empty. */
  predicate HasEmpty(g: Grid)
    requires Square(g)
  {
    exists i, j :: 0 <= i < Size && 0 <= j < Size && g[i][j] == Empty
  }
}
