/**
 * The frame normaliser `formatFrame`: turns one engine snapshot (upper-case,
 * loosely typed keys, any number may be missing) into the render frame the
 * board draws. Its contract is the one pinned down by
 * src/utils/game-state.test.js; the three fixtures of that file are proved
 * at the end of this module.
 */
module Normalizer {
  import opened Wrappers

  // ---------------------------------------------------------------------
  // Engine snapshot (input)
  // ---------------------------------------------------------------------

  /** A point as the engine sends it: `{X, Y}`, either key may be absent. */
  datatype RawPoint = RawPoint(X: Option<int>, Y: Option<int>)

  /** `Death: {Cause, Turn}`, either key may be absent. */
  datatype RawDeath = RawDeath(Cause: Option<string>, Turn: Option<int>)

  datatype RawSnake = RawSnake(
    ID: string,
    Name: string,
    URL: string,
    Health: int,
    Color: string,
    Death: Option<RawDeath>,
    Body: seq<RawPoint>)

  datatype RawFrame = RawFrame(Turn: Option<int>, Food: seq<RawPoint>, Snakes: seq<RawSnake>)

  // ---------------------------------------------------------------------
  // Render frame (output)
  // ---------------------------------------------------------------------

  datatype Direction = Up | Down | Left | Right

  /** The `type` of a body segment (`type` is a keyword in Dafny). */
  datatype SegmentKind = Head | Body | Tail

  datatype Point = Point(x: int, y: int)

  datatype Segment = Segment(x: int, y: int, direction: Direction, kind: SegmentKind, shouldRender: bool)

  datatype Death = Death(cause: Option<string>, turn: int)

  /**
   * A normalised snake. `death` is absent (`None`) for a living snake; the
   * four rendering hints `head`, `tail`, `headSvg`, `tailSvg` exist in the
   * shape but are filled in later by another part of the viewer.
   */
  datatype Snake = Snake(
    id: string,
    name: string,
    health: int,
    color: string,
    body: seq<Segment>,
    isDead: bool,
    death: Option<Death>,
    head: Option<string>,
    tail: Option<string>,
    headSvg: Option<string>,
    tailSvg: Option<string>)

  /** `gameOver` is not computed here: the store marks the terminal frame. */
  datatype Frame = Frame(turn: int, food: seq<Point>, snakes: seq<Snake>, gameOver: bool)

  // ---------------------------------------------------------------------
  // Defaults and geometry
  // ---------------------------------------------------------------------

  /** A missing number reads as 0. */
  function OrZero(n: Option<int>): int {
    if n.Some? then n.value else 0
  }

  function ToPoint(p: RawPoint): Point {
    Point(OrZero(p.X), OrZero(p.Y))
  }

  function Minus(a: Point, b: Point): Point {
    Point(a.x - b.x, a.y - b.y)
  }

  function Plus(a: Point, b: Point): Point {
    Point(a.x + b.x, a.y + b.y)
  }

  /** The one-cell move a direction stands for; `y` grows downwards on the board. */
  function Step(d: Direction): Point {
    match d
    case Up => Point(0, -1)
    case Down => Point(0, 1)
    case Left => Point(-1, 0)
    case Right => Point(1, 0)
  }

  /**
   * The direction rule: the sign of a delta along the axis it lies on, and
   * `Up` for no movement. A delta with both coordinates non-zero (never a
   * single grid move) is left open by the contract.
   */
  function DirectionOf(delta: Point): (d: Direction)
    ensures delta.y == 0 && delta.x > 0 ==> d == Right
    ensures delta.y == 0 && delta.x < 0 ==> d == Left
    ensures delta.x == 0 && delta.y > 0 ==> d == Down
    ensures delta.x == 0 && delta.y < 0 ==> d == Up
    ensures delta == Point(0, 0) ==> d == Up
  {
    if delta.x > 0 then Right
    else if delta.x < 0 then Left
    else if delta.y > 0 then Down
    else Up
  }

  /** A direction is recovered from the move it stands for. */
  lemma DirectionOfStep(d: Direction)
    ensures DirectionOf(Step(d)) == d
  {
    match d
    case Up =>
    case Down =>
    case Left =>
    case Right =>
  }

  // ---------------------------------------------------------------------
  // Bodies
  // ---------------------------------------------------------------------

  function Positions(raw: seq<RawPoint>): seq<Point> {
    seq(|raw|, i requires 0 <= i < |raw| => ToPoint(raw[i]))
  }

  /** Head at index 0, tail at the last index, body in between; one segment is a head. */
  function KindAt(i: nat, n: nat): SegmentKind
    requires i < n
  {
    if i == 0 then Head else if i == n - 1 then Tail else Body
  }

  /**
   * The delta a segment's direction is read from: the head looks at the
   * segment behind it (`p[0] - p[1]`), every other segment at the one ahead
   * of it (`p[i-1] - p[i]`); a lone head has no delta.
   */
  function ReferenceDelta(ps: seq<Point>, i: nat): Point
    requires i < |ps|
  {
    if i == 0 then (if |ps| > 1 then Minus(ps[0], ps[1]) else Point(0, 0))
    else Minus(ps[i - 1], ps[i])
  }

  function SegmentAt(ps: seq<Point>, i: nat): Segment
    requires i < |ps|
  {
    Segment(ps[i].x, ps[i].y, DirectionOf(ReferenceDelta(ps, i)), KindAt(i, |ps|), true)
  }

  function FormatBody(raw: seq<RawPoint>): seq<Segment> {
    var ps := Positions(raw);
    seq(|raw|, i requires 0 <= i < |raw| => SegmentAt(ps, i))
  }

  // ---------------------------------------------------------------------
  // Snakes and frames
  // ---------------------------------------------------------------------

  function FormatDeath(d: RawDeath): Death {
    Death(d.Cause, OrZero(d.Turn))
  }

  function FormatSnake(s: RawSnake): Snake {
    Snake(
      s.ID, s.Name, s.Health, s.Color,
      FormatBody(s.Body),
      s.Death.Some?,
      if s.Death.Some? then Some(FormatDeath(s.Death.value)) else None,
      None, None, None, None)
  }

  function FormatFrame(raw: RawFrame): Frame {
    Frame(
      OrZero(raw.Turn),
      seq(|raw.Food|, i requires 0 <= i < |raw.Food| => ToPoint(raw.Food[i])),
      seq(|raw.Snakes|, i requires 0 <= i < |raw.Snakes| => FormatSnake(raw.Snakes[i])),
      false)
  }

  // ---------------------------------------------------------------------
  // Properties of formatFrame
  // ---------------------------------------------------------------------

  /** `turn` is `Turn` when present and 0 when absent; the frame is not yet terminal. */
  lemma FormatFrameTurn(raw: RawFrame)
    ensures raw.Turn.Some? ==> FormatFrame(raw).turn == raw.Turn.value
    ensures raw.Turn.None? ==> FormatFrame(raw).turn == 0
    ensures !FormatFrame(raw).gameOver
  {
  }

  /** One food point per input point, in order, `X`/`Y` renamed and defaulted to 0. */
  lemma FormatFrameFood(raw: RawFrame)
    ensures |FormatFrame(raw).food| == |raw.Food|
    ensures forall i :: 0 <= i < |raw.Food| ==>
      var p := FormatFrame(raw).food[i];
      && (raw.Food[i].X.Some? ==> p.x == raw.Food[i].X.value)
      && (raw.Food[i].X.None? ==> p.x == 0)
      && (raw.Food[i].Y.Some? ==> p.y == raw.Food[i].Y.value)
      && (raw.Food[i].Y.None? ==> p.y == 0)
  {
  }

  /**
   * Snakes are mapped one for one and in order: `ID` becomes the id, name,
   * health and colour are copied, `URL` is dropped, the body keeps its
   * length, and the rendering hints are left unset. Each snake is
   * `FormatSnake` of its raw snake, so the body and death lemmas about
   * `FormatSnake` hold for the frame the board renders.
   */
  lemma FormatFrameSnakes(raw: RawFrame)
    ensures |FormatFrame(raw).snakes| == |raw.Snakes|
    ensures forall i :: 0 <= i < |raw.Snakes| ==>
      var s, r := FormatFrame(raw).snakes[i], raw.Snakes[i];
      && s.id == r.ID && s.name == r.Name && s.health == r.Health && s.color == r.Color
      && s == FormatSnake(r) && |s.body| == |r.Body|
      && s.head.None? && s.tail.None? && s.headSvg.None? && s.tailSvg.None?
  {
  }

  /** `isDead` iff `Death` is present; `death` exists exactly then, its turn defaulting to 0. */
  lemma FormatSnakeDeath(raw: RawSnake)
    ensures FormatSnake(raw).isDead <==> raw.Death.Some?
    ensures FormatSnake(raw).death.Some? <==> FormatSnake(raw).isDead
    ensures raw.Death.Some? ==>
      && FormatSnake(raw).death.value.cause == raw.Death.value.Cause
      && (raw.Death.value.Turn.Some? ==> FormatSnake(raw).death.value.turn == raw.Death.value.Turn.value)
      && (raw.Death.value.Turn.None? ==> FormatSnake(raw).death.value.turn == 0)
  {
  }

  /**
   * The body has the input's length and order, missing coordinates read as
   * 0, every segment renders, and the type is head / body ... / tail.
   */
  lemma FormatBodyShape(raw: seq<RawPoint>)
    ensures |FormatBody(raw)| == |raw|
    ensures forall i :: 0 <= i < |raw| ==>
      var seg := FormatBody(raw)[i];
      && seg.x == (if raw[i].X.Some? then raw[i].X.value else 0)
      && seg.y == (if raw[i].Y.Some? then raw[i].Y.value else 0)
      && seg.shouldRender
      && (i == 0 <==> seg.kind == Head)
      && (0 < i == |raw| - 1 <==> seg.kind == Tail)
      && (0 < i < |raw| - 1 <==> seg.kind == Body)
  {
  }

  /** Every segment after the head faces the segment ahead of it. */
  lemma TrailingSegmentFacesAhead(raw: seq<RawPoint>, i: nat, d: Direction)
    requires 0 < i < |raw|
    requires ToPoint(raw[i - 1]) == Plus(ToPoint(raw[i]), Step(d))
    ensures FormatBody(raw)[i].direction == d
  {
    var ps := Positions(raw);
    assert FormatBody(raw)[i] == SegmentAt(ps, i);
    assert ReferenceDelta(ps, i) == Step(d);
    DirectionOfStep(d);
  }

  /** The head faces away from the segment behind it: the way it just moved. */
  lemma HeadFacesAwayFromNeck(raw: seq<RawPoint>, d: Direction)
    requires |raw| >= 2
    requires ToPoint(raw[0]) == Plus(ToPoint(raw[1]), Step(d))
    ensures FormatBody(raw)[0].direction == d
  {
    DirectionOfStep(d);
  }

  /** With two or more segments, the head and the segment behind it face the same way. */
  lemma HeadMatchesNeck(raw: seq<RawPoint>)
    requires |raw| >= 2
    ensures FormatBody(raw)[0].direction == FormatBody(raw)[1].direction
  {
  }

  /** A lone segment is a head facing up. */
  lemma SingleSegmentIsUpwardHead(raw: seq<RawPoint>)
    requires |raw| == 1
    ensures FormatBody(raw) == [Segment(OrZero(raw[0].X), OrZero(raw[0].Y), Up, Head, true)]
  {
  }

  /**
   * A straight body that travelled in direction `d` (each segment one step
   * `d` behind the one ahead of it) faces `d` along its whole length.
   */
  lemma {:induction false} StraightBodyFacesTravel(raw: seq<RawPoint>, d: Direction)
    requires |raw| >= 2
    requires forall i :: 0 < i < |raw| ==> ToPoint(raw[i - 1]) == Plus(ToPoint(raw[i]), Step(d))
    ensures forall i :: 0 <= i < |raw| ==> FormatBody(raw)[i].direction == d
  {
    forall i | 0 <= i < |raw|
      ensures FormatBody(raw)[i].direction == d
    {
      if i == 0 {
        HeadFacesAwayFromNeck(raw, d);
      } else {
        TrailingSegmentFacesAhead(raw, i, d);
      }
    }
  }

  // ---------------------------------------------------------------------
  // The three fixtures of game-state.test.js
  // ---------------------------------------------------------------------

  function P(x: int, y: int): RawPoint {
    RawPoint(Some(x), Some(y))
  }

  function Seg(x: int, y: int, d: Direction, k: SegmentKind): Segment {
    Segment(x, y, d, k, true)
  }

  /** "should place snakes on valid board" */
  lemma PlaceSnakesFixture()
    ensures FormatFrame(RawFrame(
      Some(1),
      [P(5, 2), P(1, 8)],
      [RawSnake("snake1", "snake 1", "http://snake1", 80, "red", None, [P(0, 0), P(0, 1), P(0, 2)]),
       RawSnake("snake2", "snake 2", "http://snake2", 70, "green", None, [P(5, 3), P(6, 3), P(6, 4), P(7, 4)])]))
      == Frame(
        1,
        [Point(5, 2), Point(1, 8)],
        [Snake("snake1", "snake 1", 80, "red",
           [Seg(0, 0, Up, Head), Seg(0, 1, Up, Body), Seg(0, 2, Up, Tail)],
           false, None, None, None, None, None),
         Snake("snake2", "snake 2", 70, "green",
           [Seg(5, 3, Left, Head), Seg(6, 3, Left, Body), Seg(6, 4, Up, Body), Seg(7, 4, Left, Tail)],
           false, None, None, None, None, None)],
        false)
  {
    var b1, b2 := [P(0, 0), P(0, 1), P(0, 2)], [P(5, 3), P(6, 3), P(6, 4), P(7, 4)];
    assert Positions(b1) == [Point(0, 0), Point(0, 1), Point(0, 2)];
    assert Positions(b2) == [Point(5, 3), Point(6, 3), Point(6, 4), Point(7, 4)];
    assert FormatBody(b1) == [Seg(0, 0, Up, Head), Seg(0, 1, Up, Body), Seg(0, 2, Up, Tail)];
    assert FormatBody(b2) == [Seg(5, 3, Left, Head), Seg(6, 3, Left, Body), Seg(6, 4, Up, Body), Seg(7, 4, Left, Tail)];
  }

  /** "should recognize dead snakes" */
  lemma DeadSnakeFixture()
    ensures FormatFrame(RawFrame(
      Some(1),
      [P(5, 2), P(1, 8)],
      [RawSnake("snake1", "snake 1", "http://snake1", 80, "red",
         Some(RawDeath(Some("asdf"), Some(3))), [P(1, 1), P(0, 1), P(0, 0)])]))
      == Frame(
        1,
        [Point(5, 2), Point(1, 8)],
        [Snake("snake1", "snake 1", 80, "red",
           [Seg(1, 1, Right, Head), Seg(0, 1, Right, Body), Seg(0, 0, Down, Tail)],
           true, Some(Death(Some("asdf"), 3)), None, None, None, None)],
        false)
  {
    var b := [P(1, 1), P(0, 1), P(0, 0)];
    assert Positions(b) == [Point(1, 1), Point(0, 1), Point(0, 0)];
    assert FormatBody(b) == [Seg(1, 1, Right, Head), Seg(0, 1, Right, Body), Seg(0, 0, Down, Tail)];
  }

  /** "should set undefined numbers to zero" */
  lemma UndefinedNumbersFixture()
    ensures FormatFrame(RawFrame(
      None,
      [RawPoint(None, None)],
      [RawSnake("snake1", "snake 1", "http://snake1", 80, "red",
         Some(RawDeath(Some("asdf"), None)), [RawPoint(None, None)])]))
      == Frame(
        0,
        [Point(0, 0)],
        [Snake("snake1", "snake 1", 80, "red",
           [Seg(0, 0, Up, Head)],
           true, Some(Death(Some("asdf"), 0)), None, None, None, None)],
        false)
  {
    assert FormatBody([RawPoint(None, None)]) == [Seg(0, 0, Up, Head)];
  }
}
