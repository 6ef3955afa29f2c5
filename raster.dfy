// Bresenham line rasterization onto an integer grid, with bounds clipping.
// The console window's width and height are parameters; writing a cell is
// modelled by appending it to the sequence of written cells.

module Raster {

  /** An integer grid cell. */
  datatype Cell = Cell(x: int, y: int)

  function Abs(n: int): int { if n < 0 then -n else n }
  function Min(a: int, b: int): int { if a < b then a else b }
  function Max(a: int, b: int): int { if a < b then b else a }

  /** The values DrawLine fixes before its loop: the target and the signed steps. */
  datatype Line = Line(x2: int, y2: int, dx: int, dy: int, sx: int, sy: int)

  /** The values DrawLine's loop updates: the current cell and the error accumulator. */
  datatype Walker = Walker(x: int, y: int, err: int)

  function Setup(x1: int, y1: int, x2: int, y2: int): Line
  {
    Line(x2, y2, Abs(x2 - x1), -Abs(y2 - y1), if x1 < x2 then 1 else -1, if y1 < y2 then 1 else -1)
  }

  function Start(x1: int, y1: int, x2: int, y2: int): Walker
  {
    Walker(x1, y1, Abs(x2 - x1) - Abs(y2 - y1))
  }

  predicate AtEnd(l: Line, w: Walker) { w.x == l.x2 && w.y == l.y2 }

  /** One pass of the loop after the end test: both step tests read the same doubled error. */
  function Advance(l: Line, w: Walker): Walker
  {
    var e2 := 2 * w.err;
    var w1 := if e2 >= l.dy then Walker(w.x + l.sx, w.y, w.err + l.dy) else w;
    if e2 <= l.dx then Walker(w1.x, w1.y + l.sy, w1.err + l.dx) else w1
  }

  /** The cells the loop visits from `w`, allowing at most `fuel` further steps. */
  function Walk(l: Line, w: Walker, fuel: nat): seq<Cell>
    decreases fuel
  {
    [Cell(w.x, w.y)] + if AtEnd(l, w) || fuel == 0 then [] else Walk(l, Advance(l, w), fuel - 1)
  }

  /** A pass that is not at the target, with fuel left, visits the current cell and moves on. */
  lemma WalkNext(l: Line, w: Walker, fuel: nat)
    requires !AtEnd(l, w) && fuel > 0
    ensures Walk(l, w, fuel) == [Cell(w.x, w.y)] + Walk(l, Advance(l, w), fuel - 1)
  {
  }

  /**
    * `visited` followed by the walk from `w` with `fuel` passes left is the whole
    * reference walk `full`, whose last cell is the target.
    */
  ghost predicate Remaining(l: Line, w: Walker, fuel: nat, visited: seq<Cell>, full: seq<Cell>)
  {
    && |visited| + fuel + 1 == |full|
    && visited + Walk(l, w, fuel) == full
    && full[|full| - 1] == Cell(l.x2, l.y2)
  }

  /** At the target, the cells seen so far with the current one are the whole walk. */
  lemma WalkDone(l: Line, w: Walker, fuel: nat, seen: seq<Cell>, visited: seq<Cell>, full: seq<Cell>)
    requires Remaining(l, w, fuel, seen, full) && AtEnd(l, w)
    requires visited == seen + [Cell(w.x, w.y)]
    ensures visited == full
  {
  }

  /**
    * Away from the target, a walk that is to end at the target has fuel left, and the
    * cells seen so far with the current one, followed by the walk from the next pass,
    * are the whole of it.
    */
  lemma WalkContinues(l: Line, w: Walker, next: Walker, fuel: nat, seen: seq<Cell>, visited: seq<Cell>, full: seq<Cell>)
    requires Remaining(l, w, fuel, seen, full) && !AtEnd(l, w)
    requires next == Advance(l, w) && visited == seen + [Cell(w.x, w.y)]
    ensures fuel > 0 && Remaining(l, next, fuel - 1, visited, full)
  {
    WalkNext(l, w, fuel);
    AppendAssoc(seen, [Cell(w.x, w.y)], Walk(l, Advance(l, w), fuel - 1));
  }

  /** The number of steps from one endpoint to the other: the Chebyshev distance. */
  function StepCount(x1: int, y1: int, x2: int, y2: int): nat
  {
    Max(Abs(x2 - x1), Abs(y2 - y1))
  }

  /** Reference definition of the cells DrawLine visits, in order. */
  function LineCells(x1: int, y1: int, x2: int, y2: int): seq<Cell>
  {
    Walk(Setup(x1, y1, x2, y2), Start(x1, y1, x2, y2), StepCount(x1, y1, x2, y2))
  }

  predicate InBounds(c: Cell, width: int, height: int)
  {
    0 <= c.x < width && 0 <= c.y < height
  }

  /** The in-bounds cells of `cells`, in their order. */
  function Clip(cells: seq<Cell>, width: int, height: int): seq<Cell>
  {
    if cells == [] then []
    else
      var last := cells[|cells| - 1];
      Clip(cells[..|cells| - 1], width, height) + (if InBounds(last, width, height) then [last] else [])
  }

  /** A cell is kept by Clip iff it is in the input and in bounds. */
  lemma {:induction false} ClipMembers(cells: seq<Cell>, width: int, height: int)
    ensures forall c :: c in Clip(cells, width, height) <==> c in cells && InBounds(c, width, height)
  {
    if cells != [] {
      var front := cells[..|cells| - 1];
      ClipMembers(front, width, height);
      assert cells == front + [cells[|cells| - 1]];
    }
  }

  /** Clipping keeps nothing of a sequence that is entirely out of bounds. */
  lemma {:induction false} ClipNone(cells: seq<Cell>, width: int, height: int)
    requires forall i :: 0 <= i < |cells| ==> !InBounds(cells[i], width, height)
    ensures Clip(cells, width, height) == []
  {
    if cells != [] {
      ClipNone(cells[..|cells| - 1], width, height);
    }
  }

  /** Clipping keeps the whole of a sequence that is entirely in bounds. */
  lemma {:induction false} ClipAll(cells: seq<Cell>, width: int, height: int)
    requires forall i :: 0 <= i < |cells| ==> InBounds(cells[i], width, height)
    ensures Clip(cells, width, height) == cells
  {
    if cells != [] {
      ClipAll(cells[..|cells| - 1], width, height);
    }
  }

  /** Clipping a concatenation clips each part. */
  lemma {:induction false} ClipAppend(a: seq<Cell>, b: seq<Cell>, width: int, height: int)
    ensures Clip(a + b, width, height) == Clip(a, width, height) + Clip(b, width, height)
    decreases |b|
  {
    if b != [] {
      var front, last := b[..|b| - 1], b[|b| - 1];
      ClipAppend(a, front, width, height);
      assert (a + b)[..|a + b| - 1] == a + front;
      assert (a + b)[|a + b| - 1] == last;
      var kept := if InBounds(last, width, height) then [last] else [];
      AppendAssoc(Clip(a, width, height), Clip(front, width, height), kept);
    } else {
      assert a + b == a;
    }
  }

  lemma AppendAssoc(a: seq<Cell>, b: seq<Cell>, c: seq<Cell>)
    ensures (a + b) + c == a + (b + c)
  {
  }

  /** Clipping a sequence extended by one cell extends the clipped sequence by that cell if it is in bounds. */
  lemma ClipSnoc(cells: seq<Cell>, c: Cell, width: int, height: int)
    ensures Clip(cells + [c], width, height) == Clip(cells, width, height) + (if InBounds(c, width, height) then [c] else [])
  {
    assert (cells + [c])[..|cells|] == cells;
  }

  /** `b` is an 8-neighbour of `a` reached by moving 0 or `sx` in x and 0 or `sy` in y. */
  predicate Neighbour(a: Cell, b: Cell, sx: int, sy: int)
  {
    (b.x == a.x || b.x == a.x + sx) && (b.y == a.y || b.y == a.y + sy) && a != b
  }

  predicate InBox(c: Cell, x1: int, y1: int, x2: int, y2: int)
  {
    Min(x1, x2) <= c.x <= Max(x1, x2) && Min(y1, y2) <= c.y <= Max(y1, y2)
  }

  /** `base` moved `n` unit steps in direction `s`. */
  function Along(base: int, s: int, n: int): int { if s > 0 then base + n else base - n }

  /**
    * The arithmetic loop invariant of DrawLine: after `i` steps in x, `j` steps in y and
    * `k` passes, the walker is at the matching cell, the error accumulator has its
    * closed form, and the walker never steps past the target; along the major axis it
    * steps on every pass.
    */
  ghost predicate Progress(x1: int, y1: int, l: Line, w: Walker, i: int, j: int, k: int)
  {
    match w
    case Walker(x, y, err) =>
      && 0 <= i <= l.dx && 0 <= j <= -l.dy && i <= k && j <= k
      && x == Along(x1, l.sx, i) && y == Along(y1, l.sy, j)
      && err == l.dx * (j + 1) + l.dy * (i + 1)
      && (l.dx >= -l.dy ==> i == k && l.dy <= 2 * err <= 3 * l.dx + 2 * l.dy)
      && (-l.dy >= l.dx ==> j == k && 2 * l.dx + 3 * l.dy <= 2 * err <= l.dx)
  }

  /** One more step in x is impossible once x has reached x2 while y has not reached y2. */
  lemma NoStepPastX(dx: int, dy: int, j: int, err: int)
    requires dx >= 0 && 0 <= j < -dy
    requires err == dx * (j + 1) + dy * (dx + 1)
    ensures 2 * err < dy
  {
    assert dx * (-dy - (j + 1)) >= 0;
  }

  /** One more step in y is impossible once y has reached y2 while x has not reached x2. */
  lemma NoStepPastY(dx: int, dy: int, i: int, err: int)
    requires dy <= 0 && 0 <= i < dx
    requires err == dx * (-dy + 1) + dy * (i + 1)
    ensures 2 * err > dx
  {
    assert -dy * (dx - (i + 1)) >= 0;
  }

  /** The walker is at the target exactly when both axes are done. */
  lemma ProgressAtEnd(x1: int, y1: int, x2: int, y2: int, w: Walker, i: int, j: int, k: int)
    requires Progress(x1, y1, Setup(x1, y1, x2, y2), w, i, j, k)
    ensures AtEnd(Setup(x1, y1, x2, y2), w) <==> i == Abs(x2 - x1) && j == Abs(y2 - y1)
    ensures InBox(Cell(w.x, w.y), x1, y1, x2, y2)
    ensures AtEnd(Setup(x1, y1, x2, y2), w) ==> k == StepCount(x1, y1, x2, y2)
    ensures !AtEnd(Setup(x1, y1, x2, y2), w) ==> k < StepCount(x1, y1, x2, y2)
  {
    var l := Setup(x1, y1, x2, y2);
    if i == l.dx && j < -l.dy { NoStepPastX(l.dx, l.dy, j, w.err); }
    if j == -l.dy && i < l.dx { NoStepPastY(l.dx, l.dy, i, w.err); }
  }

  /** The closed form of the error accumulator after one pass: each step in x adds dy, each step in y adds dx. */
  lemma ErrorStep(dx: int, dy: int, i: int, j: int, err: int, a: int, b: int)
    requires err == dx * (j + 1) + dy * (i + 1)
    requires (a == 0 || a == 1) && (b == 0 || b == 1)
    ensures err + a * dy + b * dx == dx * (j + b + 1) + dy * (i + a + 1)
  {
    assert dx * (j + b + 1) == dx * (j + 1) + b * dx;
    assert dy * (i + a + 1) == dy * (i + 1) + a * dy;
  }

  /** Away from the target, the loop steps in x only while x has steps left, and likewise in y. */
  lemma StepWithinBounds(x1: int, y1: int, x2: int, y2: int, w: Walker, i: int, j: int, k: int)
    requires Progress(x1, y1, Setup(x1, y1, x2, y2), w, i, j, k)
    requires !AtEnd(Setup(x1, y1, x2, y2), w)
    ensures 2 * w.err >= Setup(x1, y1, x2, y2).dy ==> i < Setup(x1, y1, x2, y2).dx
    ensures 2 * w.err <= Setup(x1, y1, x2, y2).dx ==> j < -Setup(x1, y1, x2, y2).dy
  {
    var l := Setup(x1, y1, x2, y2);
    ProgressAtEnd(x1, y1, x2, y2, w, i, j, k);
    if i == l.dx { NoStepPastX(l.dx, l.dy, j, w.err); }
    if j == -l.dy { NoStepPastY(l.dx, l.dy, i, w.err); }
  }

  /** One pass of the loop keeps Progress, with `i'` and `j'` the steps taken so far in x and y, and moves to an 8-neighbour. */
  lemma ProgressStep(x1: int, y1: int, x2: int, y2: int, w: Walker, i: int, j: int, k: int) returns (i': int, j': int)
    requires Progress(x1, y1, Setup(x1, y1, x2, y2), w, i, j, k)
    requires !AtEnd(Setup(x1, y1, x2, y2), w)
    ensures Progress(x1, y1, Setup(x1, y1, x2, y2), Advance(Setup(x1, y1, x2, y2), w), i', j', k + 1)
    ensures Neighbour(Cell(w.x, w.y), Cell(Advance(Setup(x1, y1, x2, y2), w).x, Advance(Setup(x1, y1, x2, y2), w).y),
                      Setup(x1, y1, x2, y2).sx, Setup(x1, y1, x2, y2).sy)
  {
    var l := Setup(x1, y1, x2, y2);
    var dx, dy := l.dx, l.dy;
    StepWithinBounds(x1, y1, x2, y2, w, i, j, k);
    var e2 := 2 * w.err;
    var a := if e2 >= dy then 1 else 0;
    var b := if e2 <= dx then 1 else 0;
    ErrorStep(dx, dy, i, j, w.err, a, b);
    var w' := Advance(l, w);
    assert w'.err == w.err + a * dy + b * dx;
    assert w'.x == Along(x1, l.sx, i + a);
    assert w'.y == Along(y1, l.sy, j + b);
    assert a == 1 || b == 1;
    i', j' := i + a, j + b;
  }

  /** The walker after `n` passes through the loop from `w`. */
  ghost function Iterate(l: Line, w: Walker, n: nat): Walker
  {
    if n == 0 then w else Advance(l, Iterate(l, w, n - 1))
  }

  /** Starting one pass later is the same as taking one more pass. */
  lemma {:induction false} IterateShift(l: Line, w: Walker, n: nat)
    ensures Iterate(l, Advance(l, w), n) == Iterate(l, w, n + 1)
  {
    if n > 0 {
      IterateShift(l, w, n - 1);
    }
  }

  /** The `m`-th visited cell is the walker after `m` passes, as long as none of them met the target. */
  lemma {:induction false} WalkAt(l: Line, w: Walker, fuel: nat, m: nat)
    requires m <= fuel
    requires forall n: nat :: n < m ==> !AtEnd(l, Iterate(l, w, n))
    ensures m < |Walk(l, w, fuel)| && Walk(l, w, fuel)[m] == Cell(Iterate(l, w, m).x, Iterate(l, w, m).y)
    ensures AtEnd(l, Iterate(l, w, m)) ==> |Walk(l, w, fuel)| == m + 1
    decreases m
  {
    if m > 0 {
      assert !AtEnd(l, Iterate(l, w, 0));
      forall n: nat | n < m - 1 ensures !AtEnd(l, Iterate(l, Advance(l, w), n)) {
        IterateShift(l, w, n);
      }
      WalkAt(l, Advance(l, w), fuel - 1, m - 1);
      IterateShift(l, w, m - 1);
    }
  }

  /** None of the first `k` passes of the line from (x1, y1) to (x2, y2) is at the target. */
  ghost predicate RunsFor(x1: int, y1: int, x2: int, y2: int, k: nat)
  {
    forall n: nat :: n < k ==> !AtEnd(Setup(x1, y1, x2, y2), Iterate(Setup(x1, y1, x2, y2), Start(x1, y1, x2, y2), n))
  }

  /** Before the first pass the arithmetic invariant holds with no steps taken. */
  lemma ProgressStart(x1: int, y1: int, x2: int, y2: int)
    ensures Progress(x1, y1, Setup(x1, y1, x2, y2), Start(x1, y1, x2, y2), 0, 0, 0)
  {
  }

  /** Until the target is reached, every pass keeps the arithmetic invariant. */
  lemma {:induction false} IterateProgress(x1: int, y1: int, x2: int, y2: int, k: nat) returns (i: int, j: int)
    requires RunsFor(x1, y1, x2, y2, k)
    ensures Progress(x1, y1, Setup(x1, y1, x2, y2), Iterate(Setup(x1, y1, x2, y2), Start(x1, y1, x2, y2), k), i, j, k)
  {
    var l, s := Setup(x1, y1, x2, y2), Start(x1, y1, x2, y2);
    if k == 0 {
      ProgressStart(x1, y1, x2, y2);
      i, j := 0, 0;
    } else {
      assert RunsFor(x1, y1, x2, y2, k - 1);
      var i0, j0 := IterateProgress(x1, y1, x2, y2, k - 1);
      assert !AtEnd(l, Iterate(l, s, k - 1));
      i, j := ProgressStep(x1, y1, x2, y2, Iterate(l, s, k - 1), i0, j0, k - 1);
    }
  }

  /** A pass that does not meet the target prolongs the run by one pass. */
  lemma RunsForNext(x1: int, y1: int, x2: int, y2: int, k: nat)
    requires RunsFor(x1, y1, x2, y2, k)
    requires !AtEnd(Setup(x1, y1, x2, y2), Iterate(Setup(x1, y1, x2, y2), Start(x1, y1, x2, y2), k))
    ensures RunsFor(x1, y1, x2, y2, k + 1)
  {
  }

  /**
    * What the line loop promises after `k` passes that have not yet met the target:
    * it stops exactly after StepCount passes, stays in the endpoints' bounding box,
    * moves to an 8-neighbour on every pass and advances along the major axis every pass.
    */
  lemma IterateFacts(x1: int, y1: int, x2: int, y2: int, k: nat)
    requires RunsFor(x1, y1, x2, y2, k)
    ensures var l, w := Setup(x1, y1, x2, y2), Iterate(Setup(x1, y1, x2, y2), Start(x1, y1, x2, y2), k);
            && k <= StepCount(x1, y1, x2, y2)
            && (AtEnd(l, w) <==> k == StepCount(x1, y1, x2, y2))
            && InBox(Cell(w.x, w.y), x1, y1, x2, y2)
            && (!AtEnd(l, w) ==> Neighbour(Cell(w.x, w.y), Cell(Advance(l, w).x, Advance(l, w).y), l.sx, l.sy))
            && (l.dx >= -l.dy ==> w.x == Along(x1, l.sx, k))
            && (-l.dy >= l.dx ==> w.y == Along(y1, l.sy, k))
  {
    var l, w := Setup(x1, y1, x2, y2), Iterate(Setup(x1, y1, x2, y2), Start(x1, y1, x2, y2), k);
    var i, j := IterateProgress(x1, y1, x2, y2, k);
    ProgressAtEnd(x1, y1, x2, y2, w, i, j, k);
    if !AtEnd(l, w) {
      var _, _ := ProgressStep(x1, y1, x2, y2, w, i, j, k);
    }
  }

  /** The run of the line from (x1, y1) to (x2, y2) lasts exactly StepCount passes. */
  lemma {:induction false} RunsToEnd(x1: int, y1: int, x2: int, y2: int, k: nat)
    requires k <= StepCount(x1, y1, x2, y2)
    ensures RunsFor(x1, y1, x2, y2, k)
    ensures k == StepCount(x1, y1, x2, y2) ==>
              AtEnd(Setup(x1, y1, x2, y2), Iterate(Setup(x1, y1, x2, y2), Start(x1, y1, x2, y2), k))
  {
    if k > 0 {
      RunsToEnd(x1, y1, x2, y2, k - 1);
      IterateFacts(x1, y1, x2, y2, k - 1);
      RunsForNext(x1, y1, x2, y2, k - 1);
    }
    IterateFacts(x1, y1, x2, y2, k);
  }

  /** A rasterized line has StepCount + 1 cells and ends at (x2, y2). */
  lemma LineEnds(x1: int, y1: int, x2: int, y2: int)
    ensures |LineCells(x1, y1, x2, y2)| == StepCount(x1, y1, x2, y2) + 1
    ensures LineCells(x1, y1, x2, y2)[StepCount(x1, y1, x2, y2)] == Cell(x2, y2)
  {
    var l, start, total := Setup(x1, y1, x2, y2), Start(x1, y1, x2, y2), StepCount(x1, y1, x2, y2);
    RunsToEnd(x1, y1, x2, y2, total);
    WalkAt(l, start, total, total);
  }

  /** The `n`-th cell of a rasterized line is where the walker is after `n` passes, none of which met the target. */
  lemma LineCellIs(x1: int, y1: int, x2: int, y2: int, n: int)
    requires 0 <= n <= StepCount(x1, y1, x2, y2)
    ensures RunsFor(x1, y1, x2, y2, n)
    ensures |LineCells(x1, y1, x2, y2)| == StepCount(x1, y1, x2, y2) + 1
    ensures LineCells(x1, y1, x2, y2)[n] == Cell(Iterate(Setup(x1, y1, x2, y2), Start(x1, y1, x2, y2), n).x,
                                                 Iterate(Setup(x1, y1, x2, y2), Start(x1, y1, x2, y2), n).y)
  {
    var l, start, total := Setup(x1, y1, x2, y2), Start(x1, y1, x2, y2), StepCount(x1, y1, x2, y2);
    LineEnds(x1, y1, x2, y2);
    RunsToEnd(x1, y1, x2, y2, n);
    WalkAt(l, start, total, n);
  }

  /**
    * The `n`-th cell of a rasterized line: inside the bounding box, not the target
    * before the last cell, followed by an 8-neighbour towards the target, and `n`
    * steps from the start along the major axis.
    */
  lemma LineCellAt(x1: int, y1: int, x2: int, y2: int, n: int)
    requires 0 <= n <= StepCount(x1, y1, x2, y2)
    ensures var cells, l, total := LineCells(x1, y1, x2, y2), Setup(x1, y1, x2, y2), StepCount(x1, y1, x2, y2);
            && |cells| == total + 1
            && InBox(cells[n], x1, y1, x2, y2)
            && (n < total ==> cells[n] != Cell(x2, y2) && Neighbour(cells[n], cells[n + 1], l.sx, l.sy))
            && (l.dx >= -l.dy ==> cells[n].x == Along(x1, l.sx, n))
            && (-l.dy >= l.dx ==> cells[n].y == Along(y1, l.sy, n))
  {
    LineCellIs(x1, y1, x2, y2, n);
    IterateFacts(x1, y1, x2, y2, n);
    if n < StepCount(x1, y1, x2, y2) {
      LineCellIs(x1, y1, x2, y2, n + 1);
    }
  }

  /** Cells at different positions of a rasterized line differ: the major coordinate moves on every step. */
  lemma LineCellsDistinct(x1: int, y1: int, x2: int, y2: int, n: int, m: int)
    requires 0 <= n < m < |LineCells(x1, y1, x2, y2)|
    ensures LineCells(x1, y1, x2, y2)[n] != LineCells(x1, y1, x2, y2)[m]
  {
    LineEnds(x1, y1, x2, y2);
    LineCellAt(x1, y1, x2, y2, n);
    LineCellAt(x1, y1, x2, y2, m);
  }

  /**
    * The shape of a rasterized line: StepCount + 1 cells from (x1, y1) to (x2, y2),
    * the target first reached at the last cell, each cell an 8-neighbour of the one
    * before in the direction of the target, no cell twice, all inside the endpoints'
    * bounding box.
    */
  lemma LineShape(x1: int, y1: int, x2: int, y2: int)
    ensures var cells, l := LineCells(x1, y1, x2, y2), Setup(x1, y1, x2, y2);
            && |cells| == StepCount(x1, y1, x2, y2) + 1
            && cells[0] == Cell(x1, y1) && cells[|cells| - 1] == Cell(x2, y2)
            && (forall n :: 0 <= n < |cells| - 1 ==> cells[n] != Cell(x2, y2))
            && (forall n :: 0 <= n < |cells| - 1 ==> Neighbour(cells[n], cells[n + 1], l.sx, l.sy))
            && (forall n, m :: 0 <= n < m < |cells| ==> cells[n] != cells[m])
            && (forall n :: 0 <= n < |cells| ==> InBox(cells[n], x1, y1, x2, y2))
  {
    var cells, l, total := LineCells(x1, y1, x2, y2), Setup(x1, y1, x2, y2), StepCount(x1, y1, x2, y2);
    LineEnds(x1, y1, x2, y2);
    forall n | 0 <= n <= total
      ensures InBox(cells[n], x1, y1, x2, y2)
      ensures n < total ==> cells[n] != Cell(x2, y2) && Neighbour(cells[n], cells[n + 1], l.sx, l.sy)
    {
      LineCellAt(x1, y1, x2, y2, n);
    }
    forall n, m | 0 <= n < m <= total
      ensures cells[n] != cells[m]
    {
      LineCellsDistinct(x1, y1, x2, y2, n, m);
    }
  }

  /**
    * One visit: the cell (x, y) joins the visited cells and, when it passes the bounds
    * check, is written.
    */
  method Plot(visited: seq<Cell>, written: seq<Cell>, x: int, y: int, width: int, height: int)
    returns (visited': seq<Cell>, written': seq<Cell>)
    requires written == Clip(visited, width, height)
    ensures visited' == visited + [Cell(x, y)]
    ensures written' == Clip(visited', width, height)
    ensures written' == written + (if InBounds(Cell(x, y), width, height) then [Cell(x, y)] else [])
  {
    ClipSnoc(visited, Cell(x, y), width, height);
    visited' := visited + [Cell(x, y)];
    written' := written;
    if x >= 0 && y >= 0 && x < width && y < height {
      written' := written' + [Cell(x, y)];
    }
  }

  /** Before the first pass nothing is visited and the whole reference walk is still to come. */
  lemma WalkStarts(x1: int, y1: int, x2: int, y2: int)
    ensures Remaining(Setup(x1, y1, x2, y2), Start(x1, y1, x2, y2), StepCount(x1, y1, x2, y2), [], LineCells(x1, y1, x2, y2))
  {
    LineEnds(x1, y1, x2, y2);
  }

  /**
    * One step of the line loop: both tests read the doubled error from before the
    * step, a step in x adds dy to the error and a step in y adds dx. The ghost
    * parameters carry the reference walk: one pass of it is used up.
    */
  method Step(x: int, y: int, err: int, dx: int, dy: int, sx: int, sy: int,
              ghost l: Line, ghost fuel: nat, ghost seen: seq<Cell>, ghost visited: seq<Cell>, ghost full: seq<Cell>)
    returns (x': int, y': int, err': int, ghost fuel': nat)
    requires l.dx == dx && l.dy == dy && l.sx == sx && l.sy == sy
    requires Remaining(l, Walker(x, y, err), fuel, seen, full) && !AtEnd(l, Walker(x, y, err))
    requires visited == seen + [Cell(x, y)]
    ensures Walker(x', y', err') == Advance(l, Walker(x, y, err))
    ensures fuel' < fuel && Remaining(l, Walker(x', y', err'), fuel', visited, full)
  {
    x', y', err' := x, y, err;
    var e2 := 2 * err;
    if e2 >= dy {
      err' := err' + dy;
      x' := x' + sx;
    }
    if e2 <= dx {
      err' := err' + dx;
      y' := y' + sy;
    }
    WalkContinues(l, Walker(x, y, err), Walker(x', y', err'), fuel, seen, visited, full);
    fuel' := fuel - 1;
  }

  /**
    * Draws the line from (x1, y1) to (x2, y2). `visited` is every cell the loop
    * reaches, `written` the ones that pass the bounds check and are written.
    */
  method DrawLine(x1: int, y1: int, x2: int, y2: int, width: int, height: int)
    returns (visited: seq<Cell>, written: seq<Cell>)
    ensures visited == LineCells(x1, y1, x2, y2)
    ensures written == Clip(visited, width, height)
    ensures forall c :: c in written <==> c in visited && InBounds(c, width, height)
  {
    var dx: int, sx: int := Abs(x2 - x1), if x1 < x2 then 1 else -1;
    var dy: int, sy: int := -Abs(y2 - y1), if y1 < y2 then 1 else -1;
    var err := dx + dy;
    var x, y := x1, y1;
    ghost var l := Setup(x1, y1, x2, y2);
    ghost var full := LineCells(x1, y1, x2, y2);
    // fuel is what the reference walk still allows; it runs out exactly at the target
    ghost var fuel: nat := StepCount(x1, y1, x2, y2);
    assert Walker(x, y, err) == Start(x1, y1, x2, y2);
    WalkStarts(x1, y1, x2, y2);
    visited, written := [], [];
    while true
      invariant Remaining(l, Walker(x, y, err), fuel, visited, full)
      invariant written == Clip(visited, width, height)
      decreases fuel
    {
      ghost var seen := visited;
      visited, written := Plot(visited, written, x, y, width, height);
      if x == x2 && y == y2 {
        WalkDone(l, Walker(x, y, err), fuel, seen, visited, full);
        break;
      }
      x, y, err, fuel := Step(x, y, err, dx, dy, sx, sy, l, fuel, seen, visited, full);
    }
    ClipMembers(visited, width, height);
  }
}

// Worked examples of the rasterizer on fixed endpoints.
module RasterExamples {
  import opened Raster

  /** A horizontal line visits every cell of its row. */
  lemma HorizontalLine()
    ensures LineCells(0, 0, 3, 0) == [Cell(0, 0), Cell(1, 0), Cell(2, 0), Cell(3, 0)]
  {
  }

  /** A 45-degree line steps in both coordinates on every pass. */
  lemma DiagonalLine()
    ensures LineCells(0, 0, 3, 3) == [Cell(0, 0), Cell(1, 1), Cell(2, 2), Cell(3, 3)]
  {
  }

  /** A line from a cell to itself visits that cell once. */
  lemma PointLine()
    ensures LineCells(0, 0, 0, 0) == [Cell(0, 0)]
  {
  }

  /** The diagonal from (-5, -5) to (2, 2) visits the five cells off screen, then the three on it. */
  lemma LongDiagonal()
    ensures LineCells(-5, -5, 2, 2)
         == [Cell(-5, -5), Cell(-4, -4), Cell(-3, -3), Cell(-2, -2), Cell(-1, -1)] + [Cell(0, 0), Cell(1, 1), Cell(2, 2)]
  {
  }

  /** Of the cells before the screen's corner nothing is written. */
  lemma OffScreenPart()
    ensures Clip([Cell(-5, -5), Cell(-4, -4), Cell(-3, -3), Cell(-2, -2), Cell(-1, -1)], 10, 10) == []
  {
    ClipNone([Cell(-5, -5), Cell(-4, -4), Cell(-3, -3), Cell(-2, -2), Cell(-1, -1)], 10, 10);
  }

  /** Cells on a 10 by 10 screen are all written. */
  lemma OnScreenPart()
    ensures Clip([Cell(0, 0), Cell(1, 1), Cell(2, 2)], 10, 10) == [Cell(0, 0), Cell(1, 1), Cell(2, 2)]
  {
    ClipAll([Cell(0, 0), Cell(1, 1), Cell(2, 2)], 10, 10);
  }

  /** A line starting off screen writes only its on-screen part. */
  lemma ClippedLine()
    ensures Clip(LineCells(-5, -5, 2, 2), 10, 10) == [Cell(0, 0), Cell(1, 1), Cell(2, 2)]
  {
    LongDiagonal();
    ClipAppend([Cell(-5, -5), Cell(-4, -4), Cell(-3, -3), Cell(-2, -2), Cell(-1, -1)], [Cell(0, 0), Cell(1, 1), Cell(2, 2)], 10, 10);
    OffScreenPart();
    OnScreenPart();
  }

  /** From (0, 0) to (2, 1) the tie at the first pass steps in both coordinates. */
  lemma ShallowLineForward()
    ensures LineCells(0, 0, 2, 1) == [Cell(0, 0), Cell(1, 1), Cell(2, 1)]
  {
  }

  /** From (2, 1) back to (0, 0) the same tie again steps in both coordinates, from the other end. */
  lemma ShallowLineBackward()
    ensures LineCells(2, 1, 0, 0) == [Cell(2, 1), Cell(1, 0), Cell(0, 0)]
  {
  }

  /** Swapping the endpoints can change the set of cells visited, not only their order. */
  lemma ReversedLineDiffers()
    ensures Cell(1, 1) in LineCells(0, 0, 2, 1) && Cell(1, 1) !in LineCells(2, 1, 0, 0)
  {
    ShallowLineForward();
    ShallowLineBackward();
  }
}
