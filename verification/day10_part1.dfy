/**
 * Pipe maze (day 10, part 1): two walkers leave the start tile 'S' along the
 * pipes that connect to it, marking every tile they leave with 'S' so that
 * neither steps back, and the answer is the number of moves until both stand
 * on the same tile.
 *
 * Only the rows up to the start's row are split into characters; later rows
 * stay strings, on which a negative x reads from the row's end, so a walker
 * at column 0 of such a row can step to column -1, the row's last tile.
 */
module Day10Part1 {
  import opened Common

  /** The map's rows, split into characters; rows may differ in length. */
  type Grid = seq<seq<char>>

  datatype Pos = Pos(x: int, y: int)

  /** `$map[y][x]` is set on a row that `str_split` turned into an array. */
  predicate InBounds(g: Grid, p: Pos)
  {
    0 <= p.y < |g| && 0 <= p.x < |g[p.y]|
  }

  /** `$map[y][x]` on a row that is an array. */
  function At(g: Grid, p: Pos): (c: Option<char>)
    ensures c.Some? <==> InBounds(g, p)
  {
    if InBounds(g, p) then Some(g[p.y][p.x]) else None
  }

  /**
   * The character index `$map[y][x]` reads, if it is set. Only rows
   * `0 .. split` went through `str_split`; a later row is still a string,
   * and a string also accepts an offset from -len to -1, counted back from
   * its end.
   */
  function Slot(g: Grid, split: int, p: Pos): (i: Option<nat>)
    ensures i.Some? ==> 0 <= p.y < |g| && i.value < |g[p.y]|
    ensures InBounds(g, p) ==> i == Some(p.x)
    ensures p.y <= split ==> (i.Some? <==> InBounds(g, p))
    ensures 0 <= p.y && split < p.y < |g| ==> (i.Some? <==> -|g[p.y]| <= p.x < |g[p.y]|)
    ensures i.Some? && p.x < 0 ==> i.value == |g[p.y]| + p.x
  {
    if InBounds(g, p) then Some(p.x)
    else if 0 <= p.y && split < p.y < |g| && -|g[p.y]| <= p.x < 0 then Some(|g[p.y]| + p.x)
    else None
  }

  /** The character `$map[y][x]` reads, if it is set. */
  function Cell(g: Grid, split: int, p: Pos): (c: Option<char>)
    ensures c.Some? <==> Slot(g, split, p).Some?
    ensures c.Some? ==> c.value == g[p.y][Slot(g, split, p).value]
    ensures InBounds(g, p) || p.y <= split ==> c == At(g, p)
  {
    match Slot(g, split, p)
    case None => None
    case Some(i) => Some(g[p.y][i])
  }

  /** Directions in the order the neighbours are tried: left, right, up, down. */
  type Dir = d: int | 0 <= d < 4

  function Neighbour(p: Pos, d: Dir): Pos
  {
    match d
    case 0 => Pos(p.x - 1, p.y)
    case 1 => Pos(p.x + 1, p.y)
    case 2 => Pos(p.x, p.y - 1)
    case 3 => Pos(p.x, p.y + 1)
  }

  function Opposite(d: Dir): Dir
  {
    match d
    case 0 => 1
    case 1 => 0
    case 2 => 3
    case 3 => 2
  }

  /** Tiles that may leave in direction d (the start tile may leave in any). */
  function OpensToward(d: Dir): set<char>
  {
    match d
    case 0 => {'S', '-', 'J', '7'}
    case 1 => {'S', '-', 'L', 'F'}
    case 2 => {'S', '|', 'L', 'J'}
    case 3 => {'S', '|', '7', 'F'}
  }

  /** Tiles that may be entered by a move in direction d. */
  function AcceptsFrom(d: Dir): set<char>
  {
    match d
    case 0 => {'-', 'L', 'F'}
    case 1 => {'-', 'J', '7'}
    case 2 => {'|', '7', 'F'}
    case 3 => {'|', 'L', 'J'}
  }

  /** A tile accepts a move in direction d exactly when it is a pipe opening back the opposite way. */
  lemma AcceptsIsOpensBack(c: char, d: Dir)
    ensures c in AcceptsFrom(d) <==> c != 'S' && c in OpensToward(Opposite(d))
  {
  }

  /** The tile at p opens toward d and its neighbour there opens back. */
  predicate Connects(g: Grid, split: int, p: Pos, d: Dir)
  {
    Cell(g, split, p).Some? && Cell(g, split, p).value in OpensToward(d)
    && Cell(g, split, Neighbour(p, d)).Some? && Cell(g, split, Neighbour(p, d)).value in AcceptsFrom(d)
  }

  function ConnectsTo(g: Grid, split: int, p: Pos, d: Dir): (r: seq<Pos>)
    ensures |r| <= 1
    ensures forall q :: q in r <==> q == Neighbour(p, d) && Connects(g, split, p, d)
  {
    if Connects(g, split, p, d) then [Neighbour(p, d)] else []
  }

  /** q is one of the four tiles orthogonally next to p. */
  predicate OneStep(p: Pos, q: Pos)
  {
    Abs(p.x - q.x) + Abs(p.y - q.y) == 1
  }

  lemma NeighboursDistinct(p: Pos, d: Dir, e: Dir)
    ensures Neighbour(p, d) == Neighbour(p, e) <==> d == e
  {
  }

  lemma ConnectedNeighbour(g: Grid, split: int, p: Pos, d: Dir)
    requires Connects(g, split, p, d)
    ensures Slot(g, split, Neighbour(p, d)).Some? && Cell(g, split, Neighbour(p, d)) != Some('S') && OneStep(p, Neighbour(p, d))
  {
  }

  /** Every position in `ps` reads a set cell. */
  predicate AllSet(g: Grid, split: int, ps: seq<Pos>)
  {
    forall i :: 0 <= i < |ps| ==> Slot(g, split, ps[i]).Some?
  }

  /** getAdjacentCoordinates: the neighbours left, right, up and down that connect, in that order. */
  function AdjacentCoordinates(g: Grid, split: int, p: Pos): (adj: seq<Pos>)
    ensures |adj| <= 4
    ensures forall q :: q in adj <==> exists d: Dir :: q == Neighbour(p, d) && Connects(g, split, p, d)
    ensures forall q :: q in adj ==> Slot(g, split, q).Some? && Cell(g, split, q) != Some('S') && OneStep(p, q)
    ensures AllSet(g, split, adj)
  {
    var adj := ConnectsTo(g, split, p, 0) + ConnectsTo(g, split, p, 1) + ConnectsTo(g, split, p, 2) + ConnectsTo(g, split, p, 3);
    assert forall q :: q in adj <==> q in ConnectsTo(g, split, p, 0) || q in ConnectsTo(g, split, p, 1) || q in ConnectsTo(g, split, p, 2) || q in ConnectsTo(g, split, p, 3);
    forall q | q in adj
      ensures Slot(g, split, q).Some? && Cell(g, split, q) != Some('S') && OneStep(p, q)
    {
      var d: Dir :| q == Neighbour(p, d) && Connects(g, split, p, d);
      ConnectedNeighbour(g, split, p, d);
    }
    assert AllSet(g, split, adj) by {
      forall i | 0 <= i < |adj|
        ensures Slot(g, split, adj[i]).Some?
      {
        assert adj[i] in adj;
      }
    }
    adj
  }

  /** A neighbour is listed exactly when the two tiles connect in that direction. */
  lemma AdjacentIff(g: Grid, split: int, p: Pos, d: Dir)
    ensures Neighbour(p, d) in AdjacentCoordinates(g, split, p) <==> Connects(g, split, p, d)
  {
    if Neighbour(p, d) in AdjacentCoordinates(g, split, p) {
      var e: Dir :| Neighbour(p, d) == Neighbour(p, e) && Connects(g, split, p, e);
      NeighboursDistinct(p, d, e);
    }
  }

  lemma AdjacentOneWay(g: Grid, split: int, a: Pos, b: Pos)
    requires Cell(g, split, a) != Some('S') && Cell(g, split, b) != Some('S')
    requires b in AdjacentCoordinates(g, split, a)
    ensures a in AdjacentCoordinates(g, split, b)
  {
    var d: Dir :| b == Neighbour(a, d) && Connects(g, split, a, d);
    var e := Opposite(d);
    assert Neighbour(b, e) == a;
    AcceptsIsOpensBack(Cell(g, split, b).value, d);
    AcceptsIsOpensBack(Cell(g, split, a).value, e);
    assert Opposite(e) == d;
    assert Connects(g, split, b, e);
    AdjacentIff(g, split, b, e);
  }

  /** Away from the start tile the pipes agree: b is adjacent to a exactly when a is adjacent to b. */
  lemma AdjacencySymmetric(g: Grid, split: int, a: Pos, b: Pos)
    requires Cell(g, split, a) != Some('S') && Cell(g, split, b) != Some('S')
    ensures b in AdjacentCoordinates(g, split, a) <==> a in AdjacentCoordinates(g, split, b)
  {
    if b in AdjacentCoordinates(g, split, a) {
      AdjacentOneWay(g, split, a, b);
    }
    if a in AdjacentCoordinates(g, split, b) {
      AdjacentOneWay(g, split, b, a);
    }
  }

  /**
   * On a row still held as a string, the tile left of column 0 is the row's
   * last tile: a pipe there opening right connects to a pipe at column 0
   * opening left.
   */
  lemma WrapsOnStringRow(g: Grid, split: int, y: int)
    requires 0 <= y && split < y < |g| && |g[y]| >= 2
    requires g[y][0] in {'-', 'J', '7'} && g[y][|g[y]| - 1] in {'-', 'L', 'F'}
    ensures Pos(-1, y) in AdjacentCoordinates(g, split, Pos(0, y))
    ensures Cell(g, split, Pos(-1, y)) == Some(g[y][|g[y]| - 1])
  {
    assert Slot(g, split, Pos(-1, y)) == Some(|g[y]| - 1);
    assert Cell(g, split, Pos(0, y)) == Some(g[y][0]);
    assert Neighbour(Pos(0, y), 0) == Pos(-1, y);
    assert Connects(g, split, Pos(0, y), 0);
    AdjacentIff(g, split, Pos(0, y), 0);
  }

  /** On a row already split into an array nothing lies left of column 0. */
  lemma NoWrapOnArrayRow(g: Grid, split: int, y: int)
    requires 0 <= y <= split
    ensures Pos(-1, y) !in AdjacentCoordinates(g, split, Pos(0, y))
  {
    AdjacentIff(g, split, Pos(0, y), 0);
  }

  // ---------------------------------------------------------------------
  // getInitialPosition
  // ---------------------------------------------------------------------

  function InitialPositionFrom(g: Grid, y: nat): (s: Option<Pos>)
    requires y <= |g|
    ensures s.Some? ==> (y <= s.value.y < |g| && At(g, s.value) == Some('S')
                         && (forall r :: y <= r < s.value.y ==> 'S' !in g[r])
                         && 'S' !in g[s.value.y][..s.value.x])
    ensures s.None? <==> forall r :: y <= r < |g| ==> 'S' !in g[r]
    decreases |g| - y
  {
    if y == |g| then None
    else
      match IndexOf(g[y], 'S')
      case Some(x) => Some(Pos(x, y))
      case None => InitialPositionFrom(g, y + 1)
  }

  /** getInitialPosition: the first 'S' in row-major order, or none; rows up to its row are split. */
  function InitialPosition(g: Grid): (s: Option<Pos>)
    ensures s.Some? ==> (At(g, s.value) == Some('S')
                         && (forall r :: 0 <= r < s.value.y ==> 'S' !in g[r])
                         && 'S' !in g[s.value.y][..s.value.x])
    ensures s.None? <==> forall r :: 0 <= r < |g| ==> 'S' !in g[r]
  {
    InitialPositionFrom(g, 0)
  }

  // ---------------------------------------------------------------------
  // computeMapTraversal
  // ---------------------------------------------------------------------

  predicate SameShape(g: Grid, h: Grid)
  {
    |g| == |h| && forall y :: 0 <= y < |g| ==> |g[y]| == |h[y]|
  }

  /** Every cell of h is the cell of g or the visited mark 'S'. */
  ghost predicate OnlyMarked(g: Grid, h: Grid)
  {
    SameShape(g, h) && forall p :: InBounds(g, p) ==> h[p.y][p.x] == g[p.y][p.x] || h[p.y][p.x] == 'S'
  }

  /** Whether a cell is set depends on the shape of the map only. */
  lemma SameShapeSlot(g: Grid, h: Grid, split: int, p: Pos)
    requires SameShape(g, h)
    ensures Slot(g, split, p) == Slot(h, split, p)
  {
  }

  /** `$rows[y][x] = 'S'`, through a negative offset too on a string row. */
  function Mark(g: Grid, split: int, p: Pos): (h: Grid)
    requires Slot(g, split, p).Some?
    ensures OnlyMarked(g, h) && Cell(h, split, p) == Some('S')
    ensures forall q: Pos :: q.y != p.y || Slot(g, split, q) != Slot(g, split, p) ==> Cell(h, split, q) == Cell(g, split, q)
    ensures forall q: Pos :: Cell(g, split, q) == Some('S') ==> Cell(h, split, q) == Some('S')
  {
    var i := Slot(g, split, p).value;
    var h := g[p.y := g[p.y][i := 'S']];
    assert SameShape(g, h);
    forall q
      ensures Slot(h, split, q) == Slot(g, split, q)
    {
      SameShapeSlot(g, h, split, q);
    }
    h
  }

  lemma OnlyMarkedTransitive(a: Grid, b: Grid, c: Grid)
    requires OnlyMarked(a, b) && OnlyMarked(b, c)
    ensures OnlyMarked(a, c)
  {
    forall p | InBounds(a, p)
      ensures c[p.y][p.x] == a[p.y][p.x] || c[p.y][p.x] == 'S'
    {
      assert InBounds(b, p);
    }
  }

  lemma OnlyMarkedReflexive(g: Grid)
    ensures OnlyMarked(g, g)
  {
  }

  /** A cell that reads 'S' before a re-marking still reads 'S' after it. */
  lemma OnlyMarkedKeepsS(g: Grid, h: Grid, split: int, q: Pos)
    requires OnlyMarked(g, h) && Cell(g, split, q) == Some('S')
    ensures Cell(h, split, q) == Some('S')
  {
    SameShapeSlot(g, h, split, q);
    var i := Slot(g, split, q).value;
    assert InBounds(g, Pos(i, q.y));
  }

  /** One pass of the `foreach`: Stopped when some walker has nowhere to go (`break 2`). */
  datatype Round = Stopped(grid: Grid) | Moved(grid: Grid, walkers: seq<Pos>)

  lemma SameShapeBounds(g: Grid, h: Grid, split: int, ps: seq<Pos>)
    requires SameShape(g, h) && AllSet(g, split, ps)
    ensures AllSet(h, split, ps)
  {
    forall k | 0 <= k < |ps|
      ensures Slot(h, split, ps[k]).Some?
    {
      SameShapeSlot(g, h, split, ps[k]);
    }
  }

  /**
   * Moves walkers i, i+1, … one tile each, marking the tile each one leaves.
   * Each walker moves to the first tile its own tile connects to on the map
   * as the earlier walkers left it.
   */
  function MoveWalkers(g: Grid, split: int, ps: seq<Pos>, i: nat): (r: Round)
    requires i <= |ps| && AllSet(g, split, ps)
    ensures OnlyMarked(g, r.grid)
    ensures r.Moved? ==> (|r.walkers| == |ps| && AllSet(r.grid, split, r.walkers)
                          && r.walkers[..i] == ps[..i]
                          && (forall k :: i <= k < |ps| ==> OneStep(ps[k], r.walkers[k]))
                          && forall k :: i <= k < |ps| ==> Cell(r.grid, split, ps[k]) == Some('S'))
    ensures r.Stopped? ==> exists k :: i <= k < |ps| && Cell(r.grid, split, ps[k]) == Some('S')
    decreases |ps| - i
  {
    if i == |ps| then Moved(g, ps)
    else
      var next := AdjacentCoordinates(g, split, ps[i]);
      var h := Mark(g, split, ps[i]);
      if |next| == 0 then Stopped(h)
      else
        assert next[0] in next;
        var ps' := ps[i := next[0]];
        assert AllSet(g, split, ps');
        SameShapeBounds(g, h, split, ps');
        var r := MoveWalkers(h, split, ps', i + 1);
        OnlyMarkedTransitive(g, h, r.grid);
        OnlyMarkedKeepsS(h, r.grid, split, ps[i]);
        if r.Moved? then
          WalkersStep(ps, ps', r.walkers, i);
          r
        else r
  }

  lemma WalkersStep(ps: seq<Pos>, ps': seq<Pos>, ws: seq<Pos>, i: nat)
    requires i < |ps| == |ps'| == |ws| && ps' == ps[i := ps'[i]] && OneStep(ps[i], ps'[i])
    requires ws[..i + 1] == ps'[..i + 1]
    requires forall k :: i + 1 <= k < |ps| ==> OneStep(ps'[k], ws[k])
    ensures ws[..i] == ps[..i]
    ensures forall k :: i <= k < |ps| ==> OneStep(ps[k], ws[k])
  {
    assert ws[i] == ws[..i + 1][i];
    assert ws[..i] == ws[..i + 1][..i];
    assert ps[..i] == ps'[..i + 1][..i];
  }

  /** `$positionsToExplore[0] === $positionsToExplore[1]`, where a missing entry reads as null. */
  predicate Met(ps: seq<Pos>)
  {
    if |ps| == 0 then true
    else if |ps| == 1 then false
    else ps[0] == ps[1]
  }

  datatype Outcome = Moves(n: nat) | NoStart | OutOfFuel

  /** A state the walk can continue from. */
  predicate Live(split: int, r: Round)
  {
    r.Moved? ==> AllSet(r.grid, split, r.walkers)
  }

  /** One more round, unless a walker has already stopped. */
  function NextRound(split: int, r: Round): (n: Round)
    ensures Live(split, r) ==> Live(split, n)
    ensures r.Stopped? ==> n == r
    ensures Live(split, r) && r.Moved? ==> n == MoveWalkers(r.grid, split, r.walkers, 0)
  {
    if r.Moved? && AllSet(r.grid, split, r.walkers) then MoveWalkers(r.grid, split, r.walkers, 0) else r
  }

  /** The round function of the walk. */
  function Step(split: int): Round -> Round
  {
    r => NextRound(split, r)
  }

  /** The `while (true)` loop for a round function `step`, from `moves` moves on, for at most `fuel` more rounds. */
  function Loop(step: Round -> Round, r: Round, moves: nat, fuel: nat): (o: Outcome)
    ensures o != NoStart
    ensures o.Moves? ==> moves <= o.n <= moves + fuel
    decreases fuel
  {
    if fuel == 0 then OutOfFuel
    else
      var n := step(r);
      if n.Stopped? then Moves(moves)
      else if Met(n.walkers) then Moves(moves + 1)
      else Loop(step, n, moves + 1, fuel - 1)
  }

  /** The `while (true)` loop of computeMapTraversal over walkers `ps`. */
  function Traverse(g: Grid, split: int, ps: seq<Pos>, moves: nat, fuel: nat): (o: Outcome)
    ensures o != NoStart
    ensures o.Moves? ==> moves <= o.n <= moves + fuel
  {
    Loop(Step(split), Moved(g, ps), moves, fuel)
  }

  // ---------------------------------------------------------------------
  // The walk round by round
  // ---------------------------------------------------------------------

  /** `step` applied `i` times. */
  function Iterate(step: Round -> Round, r: Round, i: nat): Round
  {
    if i == 0 then r else step(Iterate(step, r, i - 1))
  }

  /** The `while` ends after a round in which a walker found nowhere to go or the first two walkers met. */
  predicate Ends(r: Round)
  {
    r.Stopped? || Met(r.walkers)
  }

  /** Round `i` is the first after which the `while` ends. */
  ghost predicate FirstEndOf(step: Round -> Round, r: Round, i: nat)
  {
    1 <= i && Ends(Iterate(step, r, i)) && forall j :: 1 <= j < i ==> !Ends(Iterate(step, r, j))
  }

  /** Moves counted when the loop ends after round `i`: a stopped round is not counted. */
  function CountAt(moves: nat, i: nat, r: Round): int
  {
    if r.Stopped? then moves + i - 1 else moves + i
  }

  /** Iterating from the state one step produces is iterating once more. */
  lemma {:induction false} IterateShift(step: Round -> Round, r: Round, i: nat)
    ensures Iterate(step, r, i + 1) == Iterate(step, step(r), i)
  {
    if i > 0 {
      IterateShift(step, r, i - 1);
    }
  }

  /** Rounds from the state after round 1 are the later rounds. */
  lemma IterateAfterFirst(step: Round -> Round, r: Round, fuel: nat)
    ensures Iterate(step, r, 1) == step(r)
    ensures forall j :: 1 <= j <= fuel ==> Iterate(step, r, j) == Iterate(step, step(r), j - 1)
  {
    assert Iterate(step, r, 0) == r;
    forall j | 1 <= j <= fuel
      ensures Iterate(step, r, j) == Iterate(step, step(r), j - 1)
    {
      IterateShift(step, r, j - 1);
    }
  }

  /** The loop counts up to the first round after which it ends: one move per round, the stopping round not counted. */
  lemma {:induction false} LoopFirstEnd(step: Round -> Round, r: Round, moves: nat, fuel: nat, i: nat)
    requires 1 <= i <= fuel && FirstEndOf(step, r, i)
    ensures Loop(step, r, moves, fuel) == Moves(CountAt(moves, i, Iterate(step, r, i)))
    decreases fuel
  {
    var n := step(r);
    IterateAfterFirst(step, r, fuel);
    if i > 1 {
      assert !Ends(Iterate(step, r, 1));
      assert FirstEndOf(step, n, i - 1) by {
        forall j | 1 <= j < i - 1
          ensures !Ends(Iterate(step, n, j))
        {
          assert !Ends(Iterate(step, r, j + 1));
        }
      }
      LoopFirstEnd(step, n, moves + 1, fuel - 1, i - 1);
    }
  }

  /** A loop that counts moves ended after some round within the fuel. */
  lemma {:induction false} LoopEndExists(step: Round -> Round, r: Round, moves: nat, fuel: nat)
    requires Loop(step, r, moves, fuel).Moves?
    ensures exists i :: 1 <= i <= fuel && FirstEndOf(step, r, i)
    decreases fuel
  {
    var n := step(r);
    IterateAfterFirst(step, r, fuel);
    if Ends(n) {
      assert FirstEndOf(step, r, 1);
    } else {
      LoopEndExists(step, n, moves + 1, fuel - 1);
      var i :| 1 <= i <= fuel - 1 && FirstEndOf(step, n, i);
      assert FirstEndOf(step, r, i + 1) by {
        forall j | 1 <= j < i + 1
          ensures !Ends(Iterate(step, r, j))
        {
          if j > 1 {
            assert !Ends(Iterate(step, n, j - 1));
          }
        }
      }
    }
  }

  /** The loop runs out of fuel exactly when no round within the fuel ends it. */
  lemma {:induction false} LoopOutOfFuel(step: Round -> Round, r: Round, moves: nat, fuel: nat)
    ensures Loop(step, r, moves, fuel) == OutOfFuel ==> forall i :: 1 <= i <= fuel ==> !Ends(Iterate(step, r, i))
    ensures (forall i :: 1 <= i <= fuel ==> !Ends(Iterate(step, r, i))) ==> Loop(step, r, moves, fuel) == OutOfFuel
    decreases fuel
  {
    if fuel > 0 {
      var n := step(r);
      IterateAfterFirst(step, r, fuel);
      if !Ends(n) {
        LoopOutOfFuel(step, n, moves + 1, fuel - 1);
        if Loop(step, r, moves, fuel) == OutOfFuel {
          forall i | 1 <= i <= fuel
            ensures !Ends(Iterate(step, r, i))
          {
            if i > 1 {
              assert !Ends(Iterate(step, n, i - 1));
            }
          }
        } else {
          var i :| 1 <= i <= fuel - 1 && Ends(Iterate(step, n, i));
          var k := i + 1;
          assert 1 <= k <= fuel && Ends(Iterate(step, r, k));
          assert !(forall j :: 1 <= j <= fuel ==> !Ends(Iterate(step, r, j)));
        }
      } else {
        assert Ends(Iterate(step, r, 1));
      }
    }
  }

  /** The map and the walkers after `i` rounds of the `foreach`, ignoring when the `while` would stop. */
  function Rounds(g: Grid, split: int, ps: seq<Pos>, i: nat): Round
  {
    Iterate(Step(split), Moved(g, ps), i)
  }

  /** Round `i` is the first round after which the `while` ends. */
  ghost predicate FirstEnd(g: Grid, split: int, ps: seq<Pos>, i: nat)
  {
    FirstEndOf(Step(split), Moved(g, ps), i)
  }

  /** The first round is one pass of the `foreach`. */
  lemma RoundsOne(g: Grid, split: int, ps: seq<Pos>)
    requires AllSet(g, split, ps)
    ensures Rounds(g, split, ps, 1) == MoveWalkers(g, split, ps, 0)
  {
    assert Iterate(Step(split), Moved(g, ps), 0) == Moved(g, ps);
  }

  /** Each later round is one pass of the `foreach` from where the previous round left the map and the walkers. */
  lemma RoundsNext(g: Grid, split: int, ps: seq<Pos>, i: nat)
    requires AllSet(g, split, ps) && Rounds(g, split, ps, i).Moved?
    ensures Live(split, Rounds(g, split, ps, i))
    ensures Rounds(g, split, ps, i + 1) == MoveWalkers(Rounds(g, split, ps, i).grid, split, Rounds(g, split, ps, i).walkers, 0)
  {
    RoundsLive(g, split, ps, i);
  }

  lemma {:induction false} RoundsLive(g: Grid, split: int, ps: seq<Pos>, i: nat)
    requires AllSet(g, split, ps)
    ensures Live(split, Rounds(g, split, ps, i))
  {
    if i > 0 {
      RoundsLive(g, split, ps, i - 1);
    }
  }

  /**
   * The walk's count is the number of moves up to the first round after
   * which a walker stops or the first two walkers meet; it runs out of fuel
   * exactly when no round within the fuel ends the walk.
   */
  lemma TraverseFirstEnd(g: Grid, split: int, ps: seq<Pos>, moves: nat, fuel: nat)
    ensures forall i :: 1 <= i <= fuel && FirstEnd(g, split, ps, i) ==>
      Traverse(g, split, ps, moves, fuel) == Moves(CountAt(moves, i, Rounds(g, split, ps, i)))
    ensures Traverse(g, split, ps, moves, fuel).Moves? ==> exists i :: 1 <= i <= fuel && FirstEnd(g, split, ps, i)
    ensures Traverse(g, split, ps, moves, fuel) == OutOfFuel <==> forall i :: 1 <= i <= fuel ==> !Ends(Rounds(g, split, ps, i))
  {
    var step, r := Step(split), Moved(g, ps);
    forall i | 1 <= i <= fuel && FirstEnd(g, split, ps, i)
      ensures Traverse(g, split, ps, moves, fuel) == Moves(CountAt(moves, i, Rounds(g, split, ps, i)))
    {
      LoopFirstEnd(step, r, moves, fuel, i);
    }
    if Traverse(g, split, ps, moves, fuel).Moves? {
      LoopEndExists(step, r, moves, fuel);
      var i :| 1 <= i <= fuel && FirstEndOf(step, r, i);
      assert FirstEnd(g, split, ps, i);
    }
    LoopOutOfFuel(step, r, moves, fuel);
    if Traverse(g, split, ps, moves, fuel) == OutOfFuel {
      forall i | 1 <= i <= fuel
        ensures !Ends(Rounds(g, split, ps, i))
      {
        assert !Ends(Iterate(step, r, i));
      }
    } else {
      var i :| 1 <= i <= fuel && Ends(Iterate(step, r, i));
      assert Ends(Rounds(g, split, ps, i));
    }
  }

  /**
   * computeMapTraversal: the walkers start on the tiles next to 'S' with one
   * move counted; `getInitialPosition` has split the rows up to the start's.
   */
  function ComputeMapTraversal(g: Grid, fuel: nat): (o: Outcome)
    ensures o == NoStart <==> forall r :: 0 <= r < |g| ==> 'S' !in g[r]
    ensures o.Moves? ==> 1 <= o.n <= fuel + 1
  {
    match InitialPosition(g)
    case None => NoStart
    case Some(s) => Traverse(g, s.y, AdjacentCoordinates(g, s.y, s), 1, fuel)
  }

  /** The answer is the number of moves up to the first round after which the walkers stop or meet. */
  lemma ComputeMapTraversalRounds(g: Grid, fuel: nat, s: Pos, i: nat)
    requires InitialPosition(g) == Some(s)
    requires 1 <= i <= fuel && FirstEnd(g, s.y, AdjacentCoordinates(g, s.y, s), i)
    ensures ComputeMapTraversal(g, fuel) == Moves(CountAt(1, i, Rounds(g, s.y, AdjacentCoordinates(g, s.y, s), i)))
  {
    TraverseFirstEnd(g, s.y, AdjacentCoordinates(g, s.y, s), 1, fuel);
  }

  /** The mark left behind stops a walker from stepping back onto the tile it came from. */
  lemma NoStepBack(g: Grid, split: int, p: Pos)
    requires Slot(g, split, p).Some? && |AdjacentCoordinates(g, split, p)| > 0
    ensures p !in AdjacentCoordinates(Mark(g, split, p), split, AdjacentCoordinates(g, split, p)[0])
  {
    var h := Mark(g, split, p);
    var q := AdjacentCoordinates(g, split, p)[0];
    assert Cell(h, split, p) == Some('S');
  }
}
