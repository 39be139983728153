/** Board geometry of the snake game: the pixel constants, points, the five
    directions, the one-cell step, and a counting bound on how many distinct
    cells fit on the board.

    Coordinates are pixels, as in the game itself: a cell is addressed by the
    pixel of its top-left corner, a multiple of SnakeSize. */
module Geometry {

  const ScreenWidth: int := 640
  const ScreenHeight: int := 480
  /** Width and height of one cell, and the length of one step, in pixels. */
  const SnakeSize: int := 20
  /** Number of cell columns (32) and rows (24) on the board. */
  const Columns: int := ScreenWidth / SnakeSize
  const Rows: int := ScreenHeight / SnakeSize

  datatype Point = Point(x: int, y: int)

  /** The heading of the snake; None is the idle heading before the first arrow key. */
  datatype Direction = None | Up | Down | Left | Right

  function Opposite(d: Direction): (o: Direction)
    ensures o == None <==> d == None
    ensures d != None ==> o != d
  {
    match d
    case None => None
    case Up => Down
    case Down => Up
    case Left => Right
    case Right => Left
  }

  predicate OnBoard(p: Point) {
    0 <= p.x < ScreenWidth && 0 <= p.y < ScreenHeight
  }

  predicate Aligned(p: Point) {
    p.x % SnakeSize == 0 && p.y % SnakeSize == 0
  }

  /** A point that is the corner of one of the Columns * Rows cells. */
  predicate IsCell(p: Point) {
    OnBoard(p) && Aligned(p)
  }

  function Abs(n: int): (m: nat) {
    if n < 0 then -n else n
  }

  /** Taxicab distance between two points, in pixels. */
  function Distance(p: Point, q: Point): (n: nat) {
    Abs(p.x - q.x) + Abs(p.y - q.y)
  }

  /** The point one cell away from p in direction d (p itself for None). */
  function Shift(p: Point, d: Direction): (q: Point)
    ensures d == None <==> q == p
    ensures d != None ==> Distance(p, q) == SnakeSize && (p.x == q.x || p.y == q.y)
    ensures (d == Up || d == Down) ==> p.x == q.x
    ensures (d == Left || d == Right) ==> p.y == q.y
    ensures d == Up ==> q.y < p.y
    ensures d == Down ==> q.y > p.y
    ensures d == Left ==> q.x < p.x
    ensures d == Right ==> q.x > p.x
    ensures Aligned(p) ==> Aligned(q)
  {
    match d
    case None => p
    case Up => Point(p.x, p.y - SnakeSize)
    case Down => Point(p.x, p.y + SnakeSize)
    case Left => Point(p.x - SnakeSize, p.y)
    case Right => Point(p.x + SnakeSize, p.y)
  }

  /** Stepping forward and then in the opposite direction returns to the start. */
  lemma ShiftOppositeRoundTrip(p: Point, d: Direction)
    ensures Shift(Shift(p, d), Opposite(d)) == p
  {
  }

  predicate Distinct(s: seq<Point>) {
    forall i, j :: 0 <= i < j < |s| ==> s[i] != s[j]
  }

  predicate AllCells(s: seq<Point>) {
    forall i :: 0 <= i < |s| ==> IsCell(s[i])
  }

  /** Row-major number of the cell at p, in [0, Columns * Rows) for a cell. */
  function CellIndex(p: Point): (k: int) {
    p.x / SnakeSize + Columns * (p.y / SnakeSize)
  }

  lemma CellIndexInRange(p: Point)
    requires IsCell(p)
    ensures 0 <= CellIndex(p) < Columns * Rows
  {
  }

  /** A multiple of SnakeSize is SnakeSize times its quotient. */
  lemma Multiple(n: int)
    requires n % SnakeSize == 0
    ensures n == SnakeSize * (n / SnakeSize)
  {
  }

  /** Row-major numbering is one-to-one: a column within the row width and a
      row are determined by their number. */
  lemma RowMajor(a: int, b: int, a': int, b': int)
    requires 0 <= a < Columns && 0 <= a' < Columns
    requires a + Columns * b == a' + Columns * b'
    ensures a == a' && b == b'
  {
    assert Columns == 32;
  }

  /** Different cells have different numbers. */
  lemma CellIndexInjective(p: Point, q: Point)
    requires IsCell(p) && IsCell(q)
    requires CellIndex(p) == CellIndex(q)
    ensures p == q
  {
    RowMajor(p.x / SnakeSize, p.y / SnakeSize, q.x / SnakeSize, q.y / SnakeSize);
    Multiple(p.x);
    Multiple(p.y);
    Multiple(q.x);
    Multiple(q.y);
  }

  /** The integers 0, 1, ..., n - 1. */
  function Range(n: nat): (r: set<int>)
    ensures forall k :: k in r <==> 0 <= k < n
    ensures |r| == n
  {
    if n == 0 then {} else Range(n - 1) + {n - 1}
  }

  lemma {:induction false} DistinctIntsSize(t: seq<int>)
    requires forall i, j :: 0 <= i < j < |t| ==> t[i] != t[j]
    ensures |set k | k in t| == |t|
  {
    if |t| > 0 {
      DistinctIntsSize(t[1..]);
      assert (set k | k in t) == {t[0]} + (set k | k in t[1..]);
      assert t[0] !in t[1..];
    }
  }

  lemma SubsetSize(a: set<int>, b: set<int>)
    requires a <= b
    ensures |a| <= |b|
  {
    assert |b| == |a| + |b - a|;
  }

  /** The cell numbers of a sequence of cells, in order. */
  function Indices(s: seq<Point>): (t: seq<int>)
    requires AllCells(s)
    ensures |t| == |s|
    ensures forall i :: 0 <= i < |s| ==> t[i] == CellIndex(s[i])
    ensures forall k :: k in t ==> 0 <= k < Columns * Rows
  {
    if |s| == 0 then [] else
      CellIndexInRange(s[0]);
      [CellIndex(s[0])] + Indices(s[1..])
  }

  /** Pigeonhole: the board holds at most Columns * Rows pairwise distinct cells. */
  lemma DistinctCellsBound(s: seq<Point>)
    requires AllCells(s) && Distinct(s)
    ensures |s| <= Columns * Rows
  {
    var t := Indices(s);
    forall i, j | 0 <= i < j < |t|
      ensures t[i] != t[j]
    {
      if t[i] == t[j] {
        CellIndexInjective(s[i], s[j]);
      }
    }
    DistinctIntsSize(t);
    SubsetSize((set k | k in t), Range(Columns * Rows));
  }
}
