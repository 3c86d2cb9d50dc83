/**
 * Pipe maze (day 10, part 2): the loop through 'S' is found with the same
 * two walkers; every tile off the loop becomes '.', every tile is blown up
 * into a 3×3 block so that gaps between pipes become passable, the outside
 * is flooded with 'O' from the border, and the answer counts the '.' cells
 * that remain (one per enclosed tile).
 */
module Day10Part2 {
  import opened Common
  import opened Day10Part1

  // ---------------------------------------------------------------------
  // EXPANSIONS
  // ---------------------------------------------------------------------

  /** The tiles EXPANSIONS has a block for. */
  predicate HasBlock(c: char)
  {
    c in {'.', '|', '-', 'L', 'J', '7', 'F'}
  }

  /** The 3×3 block a tile expands to; 'M' marks passable filler. */
  function Block(c: char): (b: seq<seq<char>>)
    requires HasBlock(c)
    ensures |b| == 3 && forall a :: 0 <= a < 3 ==> |b[a]| == 3
    ensures b[1][1] == c
  {
    match c
    case '.' => ["MMM", "M.M", "MMM"]
    case '|' => ["M|M", "M|M", "M|M"]
    case '-' => ["MMM", "---", "MMM"]
    case 'L' => ["M|M", "ML-", "MMM"]
    case 'J' => ["M|M", "-JM", "MMM"]
    case '7' => ["MMM", "-7M", "M|M"]
    case 'F' => ["MMM", "MF-", "M|M"]
  }

  lemma BlockHasNoO(c: char, a: int, b: int)
    requires HasBlock(c) && 0 <= a < 3 && 0 <= b < 3
    ensures Block(c)[a][b] != 'O'
  {
  }

  /** A pipe's block continues the pipe through exactly the edges the pipe opens toward. */
  lemma BlockOpenings(c: char, d: Dir)
    requires HasBlock(c) && c != '.'
    ensures c in OpensToward(d) <==> Block(c)[EdgeRow(d)][EdgeCol(d)] != 'M'
  {
  }

  /** The middle cell of the block edge that faces direction d. */
  function EdgeRow(d: Dir): int
  {
    match d
    case 0 => 1
    case 1 => 1
    case 2 => 0
    case 3 => 2
  }

  function EdgeCol(d: Dir): int
  {
    match d
    case 0 => 0
    case 1 => 2
    case 2 => 1
    case 3 => 1
  }

  /** The block for a tile, with 'S' standing for the inferred starting pipe. */
  function TileBlock(c: char, start: char): seq<seq<char>>
    requires HasBlock(c) || (c == 'S' && HasBlock(start))
  {
    if c == 'S' then Block(start) else Block(c)
  }

  predicate Expandable(g: Grid, start: char)
  {
    HasBlock(start) && forall y, x :: 0 <= y < |g| && 0 <= x < |g[y]| ==> HasBlock(g[y][x]) || g[y][x] == 'S'
  }

  /** expandDataBasedOnGivenKey: expanded cell (r, c) is cell (r % 3, c % 3) of the block of tile (r / 3, c / 3). */
  function Expand(g: Grid, start: char): (e: Grid)
    requires Expandable(g, start)
    ensures |e| == 3 * |g|
    ensures forall r :: 0 <= r < |e| ==> |e[r]| == 3 * |g[r / 3]|
    ensures forall r, c :: 0 <= r < |e| && 0 <= c < |e[r]| ==> e[r][c] == TileBlock(g[r / 3][c / 3], start)[r % 3][c % 3]
  {
    seq(3 * |g|, r requires 0 <= r < 3 * |g| =>
      seq(3 * |g[r / 3]|, c requires 0 <= c < 3 * |g[r / 3]| => TileBlock(g[r / 3][c / 3], start)[r % 3][c % 3]))
  }

  /** Cell (3y + a, 3x + b) of the expansion is cell (a, b) of the block of tile (y, x). */
  lemma ExpandCell(g: Grid, start: char, y: int, x: int, a: int, b: int)
    requires Expandable(g, start)
    requires 0 <= y < |g| && 0 <= x < |g[y]| && 0 <= a < 3 && 0 <= b < 3
    ensures InBounds(Expand(g, start), Pos(3 * x + b, 3 * y + a))
    ensures Expand(g, start)[3 * y + a][3 * x + b] == TileBlock(g[y][x], start)[a][b]
  {
    assert (3 * y + a) / 3 == y && (3 * y + a) % 3 == a;
    assert (3 * x + b) / 3 == x && (3 * x + b) % 3 == b;
  }

  // ---------------------------------------------------------------------
  // getStartingPipe
  // ---------------------------------------------------------------------

  /**
   * getStartingPipe: the pipe shape joining the start to its first two
   * neighbours. A missing neighbour destructures to nulls: two nulls are
   * identical, so a start without neighbours is '-'. Against an integer,
   * `null > n` is always false and `null < n` holds iff n != 0, since both
   * sides compare as booleans. With one neighbour straight above or below a
   * start in column 0 no branch returns, and the `string` return type turns
   * that into an error: None.
   */
  function StartingPipe(s: Pos, ns: seq<Pos>): (c: Option<char>)
    ensures c.Some? ==> HasBlock(c.value) && c.value != '.'
    ensures c.None? <==> |ns| == 1 && ns[0].x == s.x == 0
    ensures |ns| == 0 ==> c == Some('-')
  {
    if |ns| == 0 then Some('-')
    else if |ns| == 1 then
      var n := ns[0];
      if n.x > s.x then Some(if n.y > s.y then 'F' else 'L')
      else if n.x < s.x || s.x != 0 then Some(if n.y > s.y then '7' else 'J')
      else None
    else
      var n1 := ns[0];
      var n2 := ns[1];
      if n1.y == n2.y then Some('-')
      else if n1.x == n2.x then Some('|')
      else if n1.x > s.x || n2.x > s.x then Some(if n1.y > s.y || n2.y > s.y then 'F' else 'L')
      else if n1.x < s.x || n2.x < s.x then Some(if n1.y > s.y || n2.y > s.y then '7' else 'J')
      else None
  }

  /**
   * The inferred pipe opens toward each of the (at most two) neighbours it
   * was inferred from, so the start expands like the pipe it stands for.
   */
  lemma StartingPipeConnects(s: Pos, ns: seq<Pos>, k: int)
    requires 0 <= k < |ns| && k < 2 && OneStep(s, ns[0])
    requires |ns| >= 2 ==> ns[0] != ns[1] && OneStep(s, ns[1])
    requires StartingPipe(s, ns).Some?
    ensures exists d: Dir :: ns[k] == Neighbour(s, d) && StartingPipe(s, ns).value in OpensToward(d)
  {
    var n := ns[k];
    if n.x == s.x - 1 {
      assert n == Neighbour(s, 0);
    } else if n.x == s.x + 1 {
      assert n == Neighbour(s, 1);
    } else if n.y == s.y - 1 {
      assert n == Neighbour(s, 2);
    } else {
      assert n == Neighbour(s, 3);
    }
  }

  // ---------------------------------------------------------------------
  // The loop walk
  // ---------------------------------------------------------------------

  /** The position of the first 'S' in the LAST row that holds one (the scan keeps overwriting). */
  function LastStartFrom(g: Grid, y: nat): (s: Option<Pos>)
    requires y <= |g|
    ensures s.Some? ==> (y <= s.value.y < |g| && At(g, s.value) == Some('S')
                         && (forall r :: s.value.y < r < |g| ==> 'S' !in g[r])
                         && 'S' !in g[s.value.y][..s.value.x])
    ensures s.None? <==> forall r :: y <= r < |g| ==> 'S' !in g[r]
    decreases |g| - y
  {
    if y == |g| then None
    else
      match LastStartFrom(g, y + 1)
      case Some(p) => Some(p)
      case None =>
        match IndexOf(g[y], 'S')
        case Some(x) => Some(Pos(x, y))
        case None => None
  }

  /** One pass of the `foreach`; a walker with nowhere to go only ends the pass (`break`). */
  function MoveWalkersOnce(g: Grid, ps: seq<Pos>, i: nat): (r: (Grid, seq<Pos>))
    requires i <= |ps| && AllSet(g, |g|, ps)
    ensures OnlyMarked(g, r.0)
    ensures |r.1| == |ps| && AllSet(r.0, |r.0|, r.1)
    decreases |ps| - i
  {
    if i == |ps| then (g, ps)
    else
      var next := AdjacentCoordinates(g, |g|, ps[i]);
      var h := Mark(g, |g|, ps[i]);
      SameShapeBounds(g, h, |g|, ps);
      if |next| == 0 then (h, ps)
      else
        assert next[0] in next;
        var ps' := ps[i := next[0]];
        assert AllSet(g, |g|, ps');
        SameShapeBounds(g, h, |g|, ps');
        var r := MoveWalkersOnce(h, ps', i + 1);
        OnlyMarkedTransitive(g, h, r.0);
        r
  }

  /** The `while (true)` loop; when the first two walkers meet, their tile is marked too. */
  function WalkLoop(g: Grid, ps: seq<Pos>, fuel: nat): (r: Option<Grid>)
    requires AllSet(g, |g|, ps)
    ensures r.Some? ==> OnlyMarked(g, r.value)
    decreases fuel
  {
    if fuel == 0 then None
    else
      var (h, ps') := MoveWalkersOnce(g, ps, 0);
      if Met(ps') then
        if |ps'| == 0 then Some(h)
        else
          var h' := Mark(h, |h|, ps'[0]);
          OnlyMarkedTransitive(g, h, h');
          Some(h')
      else
        var r := WalkLoop(h, ps', fuel - 1);
        if r.Some? then OnlyMarkedTransitive(g, h, r.value); r else r
  }

  /** Tiles the walk marked keep their character; every other tile becomes '.'. */
  function KeepLoop(g: Grid, marked: Grid): (k: Grid)
    requires SameShape(g, marked)
    ensures SameShape(g, k)
    ensures forall p :: InBounds(g, p) ==> k[p.y][p.x] == (if marked[p.y][p.x] == 'S' then g[p.y][p.x] else '.')
  {
    seq(|g|, y requires 0 <= y < |g| =>
      seq(|g[y]|, x requires 0 <= x < |g[y]| => if marked[y][x] == 'S' then g[y][x] else '.'))
  }

  // ---------------------------------------------------------------------
  // The flood fill
  // ---------------------------------------------------------------------

  /** Cells the fill may overwrite. */
  predicate Fillable(c: Option<char>)
  {
    c == Some('M') || c == Some('.')
  }

  /** The number of cells of a row the fill may still overwrite. */
  function RowFillable(row: seq<char>): (n: nat)
    ensures n <= |row|
    ensures n == multiset(row)['M'] + multiset(row)['.']
  {
    if |row| == 0 then 0
    else
      assert row == row[..|row| - 1] + [row[|row| - 1]];
      RowFillable(row[..|row| - 1]) + (if row[|row| - 1] in {'M', '.'} then 1 else 0)
  }

  function FillableCount(g: Grid): nat
  {
    if |g| == 0 then 0 else FillableCount(g[..|g| - 1]) + RowFillable(g[|g| - 1])
  }

  lemma {:induction false} RowFillableUpdate(row: seq<char>, x: nat)
    requires x < |row| && row[x] in {'M', '.'}
    ensures RowFillable(row[x := 'O']) + 1 == RowFillable(row)
    decreases |row|
  {
    var n := |row| - 1;
    if x < n {
      RowFillableUpdate(row[..n], x);
      assert row[x := 'O'][..n] == row[..n][x := 'O'];
    } else {
      assert row[x := 'O'][..n] == row[..n];
    }
  }

  lemma {:induction false} FillableCountUpdate(g: Grid, p: Pos)
    requires InBounds(g, p) && g[p.y][p.x] in {'M', '.'}
    ensures FillableCount(g[p.y := g[p.y][p.x := 'O']]) + 1 == FillableCount(g)
    decreases |g|
  {
    var h := g[p.y := g[p.y][p.x := 'O']];
    var n := |g| - 1;
    if p.y < n {
      FillableCountUpdate(g[..n], p);
      assert h[..n] == g[..n][p.y := g[p.y][p.x := 'O']];
    } else {
      RowFillableUpdate(g[n], p.x);
      assert h[..n] == g[..n];
    }
  }

  /** Every cell of h is the cell of g, or 'O' where g had a fillable cell. */
  ghost predicate OnlyFilled(g: Grid, h: Grid)
  {
    SameShape(g, h)
    && forall p :: InBounds(g, p) ==> h[p.y][p.x] == g[p.y][p.x] || (g[p.y][p.x] in {'M', '.'} && h[p.y][p.x] == 'O')
  }

  lemma OnlyFilledTransitive(a: Grid, b: Grid, c: Grid)
    requires OnlyFilled(a, b) && OnlyFilled(b, c)
    ensures OnlyFilled(a, c)
  {
    forall p | InBounds(a, p)
      ensures c[p.y][p.x] == a[p.y][p.x] || (a[p.y][p.x] in {'M', '.'} && c[p.y][p.x] == 'O')
    {
      assert InBounds(b, p);
    }
  }

  /** A cell that is not fillable stays as it is. */
  lemma OnlyFilledKeeps(g: Grid, h: Grid, p: Pos)
    requires OnlyFilled(g, h) && !Fillable(At(g, p))
    ensures At(h, p) == At(g, p)
  {
  }

  /** The four fill directions in the order the fill tries them: left, up, right, down. */
  const FillOrder: seq<Dir> := [0, 2, 1, 3]

  /** fillAdjacentCoordinates (and fillAdjacentCoordinate, which only adds the bounds test). */
  function Fill(g: Grid, p: Pos): (h: Grid)
    ensures OnlyFilled(g, h)
    ensures FillableCount(h) <= FillableCount(g)
    ensures !Fillable(At(h, p))
    decreases FillableCount(g), 5
  {
    if !Fillable(At(g, p)) then g
    else
      var g1 := g[p.y := g[p.y][p.x := 'O']];
      FillableCountUpdate(g, p);
      assert OnlyFilled(g, g1);
      var h := FillAll(g1, p, 0);
      OnlyFilledTransitive(g, g1, h);
      assert At(g1, p) == Some('O');
      OnlyFilledKeeps(g1, h, p);
      h
  }

  /** The `foreach` over the four directions, from direction number k on. */
  function FillAll(g: Grid, p: Pos, k: nat): (h: Grid)
    requires k <= 4
    ensures OnlyFilled(g, h)
    ensures FillableCount(h) <= FillableCount(g)
    decreases FillableCount(g) + 1, 4 - k
  {
    if k == 4 then g
    else
      var g1 := Fill(g, Neighbour(p, FillOrder[k]));
      var h := FillAll(g1, p, k + 1);
      OnlyFilledTransitive(g, g1, h);
      h
  }

  /** No neighbour of q is fillable. */
  ghost predicate Stuck(g: Grid, q: Pos)
  {
    forall d: Dir :: !Fillable(At(g, Neighbour(q, d)))
  }

  /** Every 'O' cell outside `pending` has no fillable neighbour. */
  ghost predicate Closed(g: Grid, pending: set<Pos>)
  {
    forall q :: At(g, q) == Some('O') && q !in pending ==> Stuck(g, q)
  }

  lemma SetOAt(g: Grid, p: Pos, q: Pos)
    requires InBounds(g, p)
    ensures At(g[p.y := g[p.y][p.x := 'O']], q) == if q == p then Some('O') else At(g, q)
  {
  }

  lemma FillOrderCovers(d: Dir)
    ensures exists j :: 0 <= j < 4 && FillOrder[j] == d
  {
    if d == 0 { assert FillOrder[0] == d; }
    else if d == 1 { assert FillOrder[2] == d; }
    else if d == 2 { assert FillOrder[1] == d; }
    else { assert FillOrder[3] == d; }
  }

  /**
   * The fill leaves every cell it turned to 'O' with no fillable neighbour:
   * if that held before for all 'O' cells outside `pending`, it still holds.
   */
  lemma {:induction false} FillClosed(g: Grid, p: Pos, pending: set<Pos>)
    requires Closed(g, pending)
    ensures Closed(Fill(g, p), pending)
    decreases FillableCount(g), 5
  {
    if Fillable(At(g, p)) {
      var g1 := g[p.y := g[p.y][p.x := 'O']];
      FillableCountUpdate(g, p);
      var pending' := pending + {p};
      forall q | At(g1, q) == Some('O') && q !in pending'
        ensures Stuck(g1, q)
      {
        SetOAt(g, p, q);
        forall d: Dir
          ensures !Fillable(At(g1, Neighbour(q, d)))
        {
          SetOAt(g, p, Neighbour(q, d));
        }
      }
      FillAllClosed(g1, p, 0, pending');
      var h := FillAll(g1, p, 0);
      assert Stuck(h, p) by {
        forall d: Dir
          ensures !Fillable(At(h, Neighbour(p, d)))
        {
          FillOrderCovers(d);
        }
      }
    }
  }

  lemma {:induction false} FillAllClosed(g: Grid, p: Pos, k: nat, pending: set<Pos>)
    requires k <= 4 && Closed(g, pending)
    ensures Closed(FillAll(g, p, k), pending)
    ensures forall j :: k <= j < 4 ==> !Fillable(At(FillAll(g, p, k), Neighbour(p, FillOrder[j])))
    decreases FillableCount(g) + 1, 4 - k
  {
    if k < 4 {
      var n := Neighbour(p, FillOrder[k]);
      var g1 := Fill(g, n);
      FillClosed(g, n, pending);
      FillAllClosed(g1, p, k + 1, pending);
      OnlyFilledKeeps(g1, FillAll(g1, p, k + 1), n);
    }
  }

  // ---------------------------------------------------------------------
  // What the flood reaches
  // ---------------------------------------------------------------------

  /** A cell on the outer ring of a height × width grid. */
  predicate OnBorder(p: Pos, width: int, height: int)
  {
    p.x == 0 || p.x == width - 1 || p.y == 0 || p.y == height - 1
  }

  /** `count($inputData[0])`: the width the border scan assumes for every row. */
  function Width(g: Grid): nat
  {
    if |g| == 0 then 0 else |g[0]|
  }

  /** No cell of g is 'O' yet. */
  ghost predicate NoO(g: Grid)
  {
    forall q :: InBounds(g, q) ==> g[q.y][q.x] != 'O'
  }

  /** t holds every fillable cell of the border scan: the cells a fill starts from. */
  ghost predicate Seeded(e: Grid, t: set<Pos>)
  {
    forall p: Pos :: 0 <= p.y < |e| && 0 <= p.x < Width(e) && OnBorder(p, Width(e), |e|) && Fillable(At(e, p)) ==> p in t
  }

  /** t is closed under stepping to a fillable neighbour. */
  ghost predicate Spreads(e: Grid, t: set<Pos>)
  {
    forall q, d: Dir :: q in t && Fillable(At(e, Neighbour(q, d))) ==> Neighbour(q, d) in t
  }

  /**
   * q is reached from the border: it lies in every set of cells that holds
   * the fillable border cells and is closed under fillable neighbours. The
   * least such set is the set of cells that a path of fillable cells joins
   * to a fillable border cell.
   */
  ghost predicate Outside(e: Grid, q: Pos)
  {
    forall t: set<Pos> :: Seeded(e, t) && Spreads(e, t) ==> q in t
  }

  /** Every cell turned to 'O' since e lies in t. */
  ghost predicate FilledWithin(e: Grid, g: Grid, t: set<Pos>)
  {
    forall q :: At(g, q) == Some('O') && At(e, q) != Some('O') ==> q in t
  }

  /** A cell still fillable after some filling was fillable at the start. */
  lemma FillableBefore(e: Grid, g: Grid, q: Pos)
    requires OnlyFilled(e, g) && Fillable(At(g, q))
    ensures Fillable(At(e, q))
  {
    assert InBounds(e, q);
  }

  /**
   * A fill started at a cell of t, where t is closed under fillable
   * neighbours, turns only cells of t to 'O'.
   */
  lemma {:induction false} FillWithin(e: Grid, g: Grid, p: Pos, t: set<Pos>)
    requires OnlyFilled(e, g) && FilledWithin(e, g, t) && Spreads(e, t)
    requires Fillable(At(g, p)) ==> p in t
    ensures FilledWithin(e, Fill(g, p), t)
    decreases FillableCount(g), 5
  {
    if Fillable(At(g, p)) {
      var g1 := g[p.y := g[p.y][p.x := 'O']];
      FillableCountUpdate(g, p);
      assert OnlyFilled(g, g1);
      OnlyFilledTransitive(e, g, g1);
      forall q | At(g1, q) == Some('O') && At(e, q) != Some('O')
        ensures q in t
      {
        SetOAt(g, p, q);
      }
      FillAllWithin(e, g1, p, 0, t);
    }
  }

  lemma {:induction false} FillAllWithin(e: Grid, g: Grid, p: Pos, k: nat, t: set<Pos>)
    requires k <= 4 && OnlyFilled(e, g) && FilledWithin(e, g, t) && Spreads(e, t) && p in t
    ensures FilledWithin(e, FillAll(g, p, k), t)
    decreases FillableCount(g) + 1, 4 - k
  {
    if k < 4 {
      var n := Neighbour(p, FillOrder[k]);
      if Fillable(At(g, n)) {
        FillableBefore(e, g, n);
      }
      FillWithin(e, g, n, t);
      var g1 := Fill(g, n);
      OnlyFilledTransitive(e, g, g1);
      FillAllWithin(e, g1, p, k + 1, t);
    }
  }

  /** f is e with exactly the fillable cells the border reaches turned to 'O'. */
  ghost predicate Flooded(e: Grid, f: Grid)
  {
    SameShape(e, f)
    && forall q :: InBounds(e, q) ==> f[q.y][q.x] == if Fillable(At(e, q)) && Outside(e, q) then 'O' else e[q.y][q.x]
  }

  /**
   * A filling of e without 'O' that leaves no fillable cell on the border or
   * next to an 'O', and turns only cells of every seeded closed set, has
   * turned exactly the cells the border reaches.
   */
  lemma FloodExact(e: Grid, f: Grid)
    requires NoO(e) && OnlyFilled(e, f) && Closed(f, {})
    requires forall p: Pos :: 0 <= p.y < |f| && 0 <= p.x < Width(f) && OnBorder(p, Width(f), |f|) ==> !Fillable(At(f, p))
    requires forall t :: Seeded(e, t) && Spreads(e, t) ==> FilledWithin(e, f, t)
    ensures Flooded(e, f)
  {
    forall q | InBounds(e, q) && f[q.y][q.x] == 'O'
      ensures Fillable(At(e, q)) && Outside(e, q)
    {
      forall t | Seeded(e, t) && Spreads(e, t)
        ensures q in t
      {
        assert FilledWithin(e, f, t);
      }
    }
    var filled := set y, x | 0 <= y < |f| && 0 <= x < |f[y]| && f[y][x] == 'O' :: Pos(x, y);
    assert Seeded(e, filled) by {
      forall p: Pos | 0 <= p.y < |e| && 0 <= p.x < Width(e) && OnBorder(p, Width(e), |e|) && Fillable(At(e, p))
        ensures p in filled
      {
        assert Width(f) == Width(e);
        assert f[p.y][p.x] == 'O';
      }
    }
    assert Spreads(e, filled) by {
      forall q, d: Dir | q in filled && Fillable(At(e, Neighbour(q, d)))
        ensures Neighbour(q, d) in filled
      {
        var n := Neighbour(q, d);
        assert At(f, q) == Some('O');
        assert Stuck(f, q);
        assert f[n.y][n.x] == 'O';
      }
    }
    forall q | InBounds(e, q) && Fillable(At(e, q)) && Outside(e, q)
      ensures f[q.y][q.x] == 'O'
    {
      assert q in filled;
    }
  }

  /** The enclosed cells of row y among its first n: '.' cells the border does not reach. */
  ghost function InsideRow(e: Grid, y: int, n: int): nat
    requires 0 <= y < |e| && 0 <= n <= |e[y]|
  {
    if n == 0 then 0 else InsideRow(e, y, n - 1) + (if e[y][n - 1] == '.' && !Outside(e, Pos(n - 1, y)) then 1 else 0)
  }

  ghost function InsideRows(e: Grid, m: int): nat
    requires 0 <= m <= |e|
  {
    if m == 0 then 0 else InsideRows(e, m - 1) + InsideRow(e, m - 1, |e[m - 1]|)
  }

  /** The number of '.' cells of e that no path of fillable cells joins to the border. */
  ghost function Inside(e: Grid): nat
  {
    InsideRows(e, |e|)
  }

  lemma {:induction false} FloodedRowDots(e: Grid, f: Grid, y: int, n: int)
    requires Flooded(e, f) && 0 <= y < |e| && 0 <= n <= |e[y]|
    ensures RowDots(f[y][..n]) == InsideRow(e, y, n)
    decreases n
  {
    if n > 0 {
      FloodedRowDots(e, f, y, n - 1);
      assert f[y][..n][..n - 1] == f[y][..n - 1];
      assert InBounds(e, Pos(n - 1, y));
    }
  }

  lemma {:induction false} FloodedDots(e: Grid, f: Grid, m: int)
    requires Flooded(e, f) && 0 <= m <= |e|
    ensures DotCount(f[..m]) == InsideRows(e, m)
    decreases m
  {
    if m > 0 {
      FloodedDots(e, f, m - 1);
      assert f[..m][..m - 1] == f[..m - 1];
      FloodedRowDots(e, f, m - 1, |e[m - 1]|);
      assert f[m - 1][..|f[m - 1]|] == f[m - 1];
    }
  }

  /** The '.' cells left after the flood are exactly the enclosed '.' cells. */
  lemma FloodCount(e: Grid, f: Grid)
    requires Flooded(e, f)
    ensures DotCount(f) == Inside(e)
  {
    FloodedDots(e, f, |e|);
    assert f[..|f|] == f;
  }

  // ---------------------------------------------------------------------
  // fillCoordinates and countOccurrences
  // ---------------------------------------------------------------------

  /**
   * fillCoordinates: every fillable border cell seeds a fill. Afterwards no
   * border cell is fillable, only fillable cells changed (to 'O'), and, when
   * the grid had no 'O' to begin with, the 'O' cells are exactly the
   * fillable cells the border reaches.
   */
  method FillCoordinates(g0: Grid) returns (g: Grid)
    ensures OnlyFilled(g0, g)
    ensures forall p: Pos :: 0 <= p.y < |g| && 0 <= p.x < Width(g) && OnBorder(p, Width(g), |g|) ==> !Fillable(At(g, p))
    ensures Closed(g0, {}) ==> Closed(g, {})
    ensures NoO(g0) ==> Flooded(g0, g)
  {
    g := g0;
    var y := 0;
    while y < |g|
      invariant 0 <= y <= |g| && OnlyFilled(g0, g)
      invariant Closed(g0, {}) ==> Closed(g, {})
      invariant forall p: Pos :: 0 <= p.y < y && 0 <= p.x < Width(g) && OnBorder(p, Width(g), |g|) ==> !Fillable(At(g, p))
      invariant forall t :: Seeded(g0, t) && Spreads(g0, t) ==> FilledWithin(g0, g, t)
    {
      var x := 0;
      while x < Width(g)
        invariant 0 <= x <= Width(g) && OnlyFilled(g0, g)
        invariant Closed(g0, {}) ==> Closed(g, {})
        invariant forall p: Pos :: (0 <= p.y < y || (p.y == y && 0 <= p.x < x)) && 0 <= p.x < Width(g) && OnBorder(p, Width(g), |g|)
                    ==> !Fillable(At(g, p))
        invariant forall t :: Seeded(g0, t) && Spreads(g0, t) ==> FilledWithin(g0, g, t)
      {
        var here := Pos(x, y);
        if Fillable(At(g, here)) && OnBorder(here, Width(g), |g|) {
          var g' := Fill(g, here);
          if Closed(g0, {}) {
            FillClosed(g, here, {});
          }
          forall p: Pos | (0 <= p.y < y || (p.y == y && 0 <= p.x < x)) && 0 <= p.x < Width(g) && OnBorder(p, Width(g), |g|)
            ensures !Fillable(At(g', p))
          {
            OnlyFilledKeeps(g, g', p);
          }
          forall t | Seeded(g0, t) && Spreads(g0, t)
            ensures FilledWithin(g0, g', t)
          {
            FillableBefore(g0, g, here);
            assert Width(g0) == Width(g);
            FillWithin(g0, g, here, t);
          }
          OnlyFilledTransitive(g0, g, g');
          g := g';
        }
        x := x + 1;
      }
      y := y + 1;
    }
    if NoO(g0) {
      assert Closed(g0, {});
      FloodExact(g0, g);
    }
  }

  function RowDots(row: seq<char>): (n: nat)
    ensures n <= |row|
  {
    if |row| == 0 then 0 else RowDots(row[..|row| - 1]) + (if row[|row| - 1] == '.' then 1 else 0)
  }

  function DotCount(g: Grid): nat
  {
    if |g| == 0 then 0 else DotCount(g[..|g| - 1]) + RowDots(g[|g| - 1])
  }

  /** countOccurrences: the number of '.' cells, row by row. */
  method CountOccurrences(g: Grid) returns (n: nat)
    ensures n == DotCount(g)
  {
    n := 0;
    var y := 0;
    while y < |g|
      invariant 0 <= y <= |g| && n == DotCount(g[..y])
    {
      assert g[..y + 1][..y] == g[..y];
      n := n + RowDots(g[y]);
      y := y + 1;
    }
    assert g[..|g|] == g;
  }

  // ---------------------------------------------------------------------
  // computeMapTraversal
  // ---------------------------------------------------------------------

  /**
   * How the script ends: a count, or an error. No 'S' leaves
   * `$startingPosition` null; NoStartPipe is getStartingPipe returning
   * nothing; UnknownTile is a tile EXPANSIONS has no block for.
   */
  datatype Answer = Enclosed(n: nat) | NoStartTile | NoStartPipe | WalkOutOfFuel | UnknownTile

  /** Every tile of the expanded grid comes from a block, so none of them is 'O'. */
  lemma ExpandHasNoO(g: Grid, start: char)
    requires Expandable(g, start)
    ensures NoO(Expand(g, start))
  {
    var e := Expand(g, start);
    forall q | InBounds(e, q)
      ensures e[q.y][q.x] != 'O'
    {
      var c := g[q.y / 3][q.x / 3];
      BlockHasNoO(if c == 'S' then start else c, q.y % 3, q.x % 3);
    }
  }

  /** The map the flood runs on, or the error that stops the script before it. */
  datatype Prepared = Ready(expanded: Grid) | Failed(answer: Answer)

  /**
   * Everything before the flood: find the start, infer its pipe, walk the
   * loop, keep the loop's tiles and expand them.
   */
  function Prepare(g: Grid, fuel: nat): (p: Prepared)
    ensures p.Failed? ==> !p.answer.Enclosed?
    ensures p == Failed(NoStartTile) <==> forall r :: 0 <= r < |g| ==> 'S' !in g[r]
    ensures p == Failed(NoStartPipe) ==> exists s :: At(g, s) == Some('S') && |AdjacentCoordinates(g, |g|, s)| == 1
    ensures p.Ready? ==> |p.expanded| == 3 * |g| && NoO(p.expanded)
  {
    match LastStartFrom(g, 0)
    case None => Failed(NoStartTile)
    case Some(s) =>
      var ps := AdjacentCoordinates(g, |g|, s);
      match StartingPipe(s, ps)
      case None => Failed(NoStartPipe)
      case Some(pipe) =>
        match WalkLoop(g, ps, fuel)
        case None => Failed(WalkOutOfFuel)
        case Some(marked) =>
          var kept := KeepLoop(g, marked);
          if !Expandable(kept, pipe) then Failed(UnknownTile)
          else
            ExpandHasNoO(kept, pipe);
            Ready(Expand(kept, pipe))
  }

  /**
   * computeMapTraversal: walk the loop, keep its tiles, expand, flood from
   * the border and count what stays '.'. The count is the number of '.'
   * cells of the expanded map that no path of fillable cells joins to the
   * border.
   */
  method ComputeEnclosed(g: Grid, fuel: nat) returns (o: Answer)
    ensures o == NoStartTile <==> forall r :: 0 <= r < |g| ==> 'S' !in g[r]
    ensures o.Enclosed? <==> Prepare(g, fuel).Ready?
    ensures Prepare(g, fuel).Failed? ==> o == Prepare(g, fuel).answer
    ensures Prepare(g, fuel).Ready? ==> o.n == Inside(Prepare(g, fuel).expanded)
  {
    match Prepare(g, fuel)
    case Failed(a) =>
      return a;
    case Ready(e) =>
      var filled := FillCoordinates(e);
      var n := CountOccurrences(filled);
      FloodCount(e, filled);
      return Enclosed(n);
  }

  /** A lone 'S' has no neighbours: its pipe is '-', the walk ends at once and nothing is enclosed. */
  lemma LoneStart(fuel: nat)
    requires fuel >= 1
    ensures Prepare(["S"], fuel) == Ready(["MMM", "---", "MMM"])
    ensures Inside(["MMM", "---", "MMM"]) == 0
  {
    var g: Grid := ["S"];
    LoneStartWalk(fuel);
    assert KeepLoop(g, g) == g by {
      LoneStartKept();
    }
    LoneStartExpand();
    var e: Grid := ["MMM", "---", "MMM"];
    LoneStartRow(e, 0, 3);
    LoneStartRow(e, 1, 3);
    LoneStartRow(e, 2, 3);
    assert InsideRows(e, 3) == 0;
  }

  lemma LoneStartWalk(fuel: nat)
    requires fuel >= 1
    ensures LastStartFrom(["S"], 0) == Some(Pos(0, 0))
    ensures AdjacentCoordinates(["S"], 1, Pos(0, 0)) == []
    ensures WalkLoop(["S"], [], fuel) == Some(["S"])
  {
    var g: Grid := ["S"];
    var s := Pos(0, 0);
    assert LastStartFrom(g, 1) == None;
    forall d: Dir
      ensures !Connects(g, |g|, s, d)
    {
      assert Cell(g, |g|, Neighbour(s, d)) == None;
    }
    var ps := AdjacentCoordinates(g, |g|, s);
    assert forall q :: q !in ps;
    assert MoveWalkersOnce(g, [], 0) == (g, []);
  }

  lemma LoneStartKept()
    ensures KeepLoop(["S"], ["S"]) == ["S"]
  {
    var g: Grid := ["S"];
    var kept := KeepLoop(g, g);
    assert InBounds(g, Pos(0, 0)) && SameShape(g, kept);
    assert kept[0][0] == 'S';
    assert kept[0] == g[0];
  }

  lemma LoneStartExpand()
    ensures Expandable(["S"], '-') && Expand(["S"], '-') == ["MMM", "---", "MMM"]
  {
    var g: Grid := ["S"];
    assert Expandable(g, '-');
    var e := Expand(g, '-');
    forall a, b | 0 <= a < 3 && 0 <= b < 3
      ensures e[a][b] == Block('-')[a][b]
    {
      ExpandCell(g, '-', 0, 0, a, b);
    }
    var blk := Block('-');
    assert |e| == 3 && forall a :: 0 <= a < 3 ==> |e[a]| == 3;
    assert e[0] == blk[0] && e[1] == blk[1] && e[2] == blk[2];
  }

  lemma {:induction false} LoneStartRow(e: Grid, y: int, n: int)
    requires e == ["MMM", "---", "MMM"] && 0 <= y < 3 && 0 <= n <= 3
    ensures InsideRow(e, y, n) == 0
    decreases n
  {
    if n > 0 {
      LoneStartRow(e, y, n - 1);
      assert e[y][n - 1] != '.';
    }
  }
}
