// The falling piece: a shape tag, an anchor on the board, a body of cell
// offsets relative to the anchor, a rotation index with the previous one
// (needed to look up wall kicks), the bounding width and height, and the
// shape's table of wall-kick offsets.

module Pieces {
  import opened Geometry
  import opened Wrappers

  /** The shape enumeration, in declaration order; the two sentinels count
      the basic shapes and all shapes and are not real pieces. */
  datatype Shape = Z | L | O | S | I | J | T | NumBasicTetrominoShape | MiniTetromino | NumTetrominoShape
  {
    predicate IsSentinel() { this == NumBasicTetrominoShape || this == NumTetrominoShape }

    /** The shape's position in the enumeration (its underlying integer value). */
    function Ordinal(): nat
    {
      match this
      case Z => 0
      case L => 1
      case O => 2
      case S => 3
      case I => 4
      case J => 5
      case T => 6
      case NumBasicTetrominoShape => 7
      case MiniTetromino => 8
      case NumTetrominoShape => 9
    }
  }

  /** The three directions a piece can be moved in. */
  datatype Move = Down | Left | Right

  /** Which of the three wall-kick tables a piece uses. */
  datatype KickTable = OKicks | IKicks | ZLSJTKicks

  /** The wall-kick offset tables, indexed by rotation index, then by
      candidate number minus one. */
  function OffsetData(t: KickTable): (d: seq<seq<Vec2>>)
    ensures |d| == NumRotations
  {
    match t
    case OKicks =>
      [ [Vec2(0, 0)],
        [Vec2(0, -1)],
        [Vec2(-1, -1)],
        [Vec2(-1, 0)] ]
    case IKicks =>
      [ [Vec2(0, 0), Vec2(-1, 0), Vec2(2, 0), Vec2(-1, 0), Vec2(2, 0)],
        [Vec2(-1, 0), Vec2(0, 0), Vec2(0, 0), Vec2(0, 1), Vec2(0, -2)],
        [Vec2(-1, 1), Vec2(1, 1), Vec2(-2, 1), Vec2(1, 0), Vec2(-2, 0)],
        [Vec2(0, 1), Vec2(0, 1), Vec2(0, 1), Vec2(0, -1), Vec2(0, 2)] ]
    case ZLSJTKicks =>
      [ [Vec2(0, 0), Vec2(0, 0), Vec2(0, 0), Vec2(0, 0), Vec2(0, 0)],
        [Vec2(0, 0), Vec2(1, 0), Vec2(1, -1), Vec2(0, 2), Vec2(1, 2)],
        [Vec2(0, 0), Vec2(0, 0), Vec2(0, 0), Vec2(0, 0), Vec2(0, 0)],
        [Vec2(0, 0), Vec2(1, 0), Vec2(-1, -1), Vec2(0, 2), Vec2(-1, 2)] ]
  }

  /** The number of wall-kick candidates: the length of the table's first row.
      Every row of a table has that length, so candidate n is defined for
      every rotation index. */
  function NumOffsetTests(t: KickTable): (n: nat)
    ensures n == (if t == OKicks then 1 else 5)
    ensures forall r :: 0 <= r < NumRotations ==> |OffsetData(t)[r]| == n
  {
    |OffsetData(t)[0]|
  }

  /** In the table shared by Z, L, S, J and T, the rows for rotation 0 and
      rotation 2 hold only zero offsets. */
  lemma ZLSJTEvenRowsZero(r: Rotation, k: nat)
    requires r == 0 || r == 2
    requires k < NumOffsetTests(ZLSJTKicks)
    ensures OffsetData(ZLSJTKicks)[r][k] == Origin
  {
  }

  // ---------------------------------------------------------------------
  // Extents of a body

  function Xs(body: seq<Vec2>): (s: seq<int>)
    ensures |s| == |body| && forall i :: 0 <= i < |body| ==> s[i] == body[i].x
  {
    seq(|body|, i requires 0 <= i < |body| => body[i].x)
  }

  function Ys(body: seq<Vec2>): (s: seq<int>)
    ensures |s| == |body| && forall i :: 0 <= i < |body| ==> s[i] == body[i].y
  {
    seq(|body|, i requires 0 <= i < |body| => body[i].y)
  }

  function Neg(s: seq<int>): (r: seq<int>)
    ensures |r| == |s| && forall i :: 0 <= i < |s| ==> r[i] == -s[i]
  {
    seq(|s|, i requires 0 <= i < |s| => -s[i])
  }

  /** The least element of a non-empty sequence, folding from the left. */
  function MinOf(s: seq<int>): (m: int)
    requires |s| > 0
    ensures forall i :: 0 <= i < |s| ==> m <= s[i]
  {
    if |s| == 1 then s[0]
    else
      var m0 := MinOf(s[..|s| - 1]);
      assert forall i :: 0 <= i < |s| - 1 ==> s[..|s| - 1][i] == s[i];
      if s[|s| - 1] < m0 then s[|s| - 1] else m0
  }

  /** The greatest element of a non-empty sequence, folding from the left. */
  function MaxOf(s: seq<int>): (m: int)
    requires |s| > 0
    ensures forall i :: 0 <= i < |s| ==> s[i] <= m
  {
    if |s| == 1 then s[0]
    else
      var m0 := MaxOf(s[..|s| - 1]);
      assert forall i :: 0 <= i < |s| - 1 ==> s[..|s| - 1][i] == s[i];
      if s[|s| - 1] > m0 then s[|s| - 1] else m0
  }

  /** The number of unit columns (or rows) the values of `s` span. */
  function Extent(s: seq<int>): (e: nat)
    requires |s| > 0
    ensures e >= 1
  {
    assert MinOf(s) <= s[0] <= MaxOf(s);
    MaxOf(s) - MinOf(s) + 1
  }

  /** Any two values of `s` are less than its extent apart, and the extent
      is attained by two of them. */
  lemma ExtentSpans(s: seq<int>)
    requires |s| > 0
    ensures forall i, j :: 0 <= i < |s| && 0 <= j < |s| ==> s[i] - s[j] < Extent(s)
    ensures exists i, j :: 0 <= i < |s| && 0 <= j < |s| && s[i] - s[j] + 1 == Extent(s)
  {
    MinOfAttained(s);
    MaxOfAttained(s);
  }

  /** The least element is an element of the sequence. */
  lemma {:induction false} MinOfAttained(s: seq<int>)
    requires |s| > 0
    ensures exists i :: 0 <= i < |s| && MinOf(s) == s[i]
  {
    if |s| == 1 {
      assert MinOf(s) == s[0];
    } else {
      var p := s[..|s| - 1];
      MinOfAttained(p);
      var i :| 0 <= i < |p| && MinOf(p) == p[i];
      assert p[i] == s[i];
      if s[|s| - 1] < MinOf(p) {
        assert MinOf(s) == s[|s| - 1];
      } else {
        assert MinOf(s) == s[i];
      }
    }
  }

  /** The greatest element is an element of the sequence. */
  lemma {:induction false} MaxOfAttained(s: seq<int>)
    requires |s| > 0
    ensures exists i :: 0 <= i < |s| && MaxOf(s) == s[i]
  {
    if |s| == 1 {
      assert MaxOf(s) == s[0];
    } else {
      var p := s[..|s| - 1];
      MaxOfAttained(p);
      var i :| 0 <= i < |p| && MaxOf(p) == p[i];
      assert p[i] == s[i];
      if s[|s| - 1] > MaxOf(p) {
        assert MaxOf(s) == s[|s| - 1];
      } else {
        assert MaxOf(s) == s[i];
      }
    }
  }

  /** Extending a prefix by one element updates the running extrema. */
  lemma ExtremaSnoc(s: seq<int>, i: nat)
    requires 0 < i < |s|
    ensures MinOf(s[..i + 1]) == if s[i] < MinOf(s[..i]) then s[i] else MinOf(s[..i])
    ensures MaxOf(s[..i + 1]) == if s[i] > MaxOf(s[..i]) then s[i] else MaxOf(s[..i])
  {
    assert s[..i + 1][..i] == s[..i];
    assert s[..i + 1][i] == s[i];
  }

  /** Negating every value swaps least and greatest, so the extent is kept. */
  lemma ExtentNeg(s: seq<int>)
    requires |s| > 0
    ensures Extent(Neg(s)) == Extent(s)
  {
    var n := Neg(s);
    var lo := MinOf(n);
    var hi := MaxOf(n);
    MinOfAttained(s);
    MaxOfAttained(s);
    MinOfAttained(n);
    MaxOfAttained(n);
    var i :| 0 <= i < |n| && lo == n[i];
    var j :| 0 <= j < |n| && hi == n[j];
    assert -lo == MaxOf(s) by {
      assert forall k :: 0 <= k < |s| ==> s[k] <= -lo by {
        forall k | 0 <= k < |s| ensures s[k] <= -lo { assert lo <= n[k]; }
      }
      var k :| 0 <= k < |s| && MaxOf(s) == s[k];
      assert s[i] <= MaxOf(s);
    }
    assert -hi == MinOf(s) by {
      assert forall k :: 0 <= k < |s| ==> -hi <= s[k] by {
        forall k | 0 <= k < |s| ensures -hi <= s[k] { assert n[k] <= hi; }
      }
      var k :| 0 <= k < |s| && MinOf(s) == s[k];
      assert MinOf(s) <= s[j];
    }
  }

  // ---------------------------------------------------------------------
  // Piece values

  /** The state of a piece, field for field. */
  datatype Piece = Piece(shape: Shape, anchor: Vec2, body: seq<Vec2>,
                         rotation: Rotation, prevRotation: Rotation,
                         width: nat, height: nat, kicks: KickTable)

  /** The invariant every constructed piece keeps: a non-empty body whose
      horizontal and vertical extents are the cached width and height. */
  ghost predicate WellShaped(p: Piece)
  {
    |p.body| > 0 && p.width == Extent(Xs(p.body)) && p.height == Extent(Ys(p.body))
  }

  /** The absolute board cell of body cell `i`. */
  function CellAt(p: Piece, i: nat): Vec2
    requires i < |p.body|
  {
    p.anchor.Plus(p.body[i])
  }

  /** A body turned a quarter about (0, 0). */
  function TurnBody(body: seq<Vec2>, clockwise: bool): (r: seq<Vec2>)
    ensures |r| == |body|
  {
    seq(|body|, i requires 0 <= i < |body| => RotateAround(body[i], Origin, clockwise))
  }

  /** The piece after `rotate(clockwise)`. */
  function Rotated(p: Piece, clockwise: bool): Piece
  {
    p.(prevRotation := p.rotation,
       rotation := StepRotation(p.rotation, clockwise),
       body := TurnBody(p.body, clockwise),
       width := p.height,
       height := p.width)
  }

  /** The displacement `move(m, reverse)` applies to the anchor. */
  function MoveDelta(m: Move, reverse: bool): (d: Vec2)
    ensures !reverse ==> d == (match m case Down => Vec2(0, -1) case Left => Vec2(-1, 0) case Right => Vec2(1, 0))
  {
    match m
    case Down => Vec2(0, if reverse then 1 else -1)
    case Left => Vec2(if reverse then 1 else -1, 0)
    case Right => Vec2(if reverse then -1 else 1, 0)
  }

  /** The piece after `move(m, reverse)`. */
  function Moved(p: Piece, m: Move, reverse: bool): Piece
  {
    p.(anchor := p.anchor.Plus(MoveDelta(m, reverse)))
  }

  /** The anchor translation of wall-kick candidate `n` (1-based): the
      previous rotation's table entry minus the current one's. */
  function KickOffset(p: Piece, n: nat): Vec2
    requires 1 <= n <= NumOffsetTests(p.kicks)
  {
    OffsetData(p.kicks)[p.prevRotation][n - 1].Minus(OffsetData(p.kicks)[p.rotation][n - 1])
  }

  /** The piece returned by `getNthOffsetTest(n)`. */
  function KickCandidate(p: Piece, n: nat): Piece
    requires 1 <= n <= NumOffsetTests(p.kicks)
  {
    p.(anchor := p.anchor.Plus(KickOffset(p, n)))
  }

  /** `operator==`: bodies compared element by element from the start of
      this piece's body (std::equal reads the other body for as many
      elements as this one has), then every other field but the kick table. */
  function Same(a: Piece, b: Piece): bool
  {
    && |a.body| <= |b.body| && a.body == b.body[..|a.body|]
    && a.anchor == b.anchor
    && a.rotation == b.rotation && a.prevRotation == b.prevRotation
    && a.width == b.width && a.height == b.height
    && a.shape == b.shape
  }

  /** The piece `makeTetromino` builds: rotation indices at zero and the
      bounding box measured from the body. */
  function Initial(shape: Shape, anchor: Vec2, body: seq<Vec2>, kicks: KickTable): (p: Piece)
    requires |body| > 0
    ensures WellShaped(p)
  {
    Piece(shape, anchor, body, 0, 0, Extent(Xs(body)), Extent(Ys(body)), kicks)
  }

  // ---------------------------------------------------------------------
  // Properties of the piece operations

  /** Two bodies are equal when they have the same cells at the same indices. */
  lemma BodyExt(a: seq<Vec2>, b: seq<Vec2>)
    requires |a| == |b| && forall i :: 0 <= i < |a| ==> a[i] == b[i]
    ensures a == b
  {
  }

  /** Rotating keeps the cached width and height equal to the body's extents. */
  lemma {:induction false} RotatedWellShaped(p: Piece, clockwise: bool)
    requires WellShaped(p)
    ensures WellShaped(Rotated(p, clockwise))
  {
    TurnedCoordinates(p.body, clockwise);
    if clockwise {
      ExtentNeg(Xs(p.body));
    } else {
      ExtentNeg(Ys(p.body));
    }
  }

  /** The coordinates of a turned body, in terms of the original ones. */
  lemma TurnedCoordinates(b: seq<Vec2>, clockwise: bool)
    ensures Xs(TurnBody(b, clockwise)) == if clockwise then Ys(b) else Neg(Ys(b))
    ensures Ys(TurnBody(b, clockwise)) == if clockwise then Neg(Xs(b)) else Xs(b)
  {
    var t := TurnBody(b, clockwise);
    assert forall i :: 0 <= i < |b| ==> t[i] == RotateAround(b[i], Origin, clockwise);
    if clockwise {
      assert Xs(t) == Ys(b);
      assert Ys(t) == Neg(Xs(b));
    } else {
      assert Xs(t) == Neg(Ys(b));
      assert Ys(t) == Xs(b);
    }
  }

  /** Rotating one way and then the other restores the body, rotation index,
      width, height and anchor; the previous-rotation index is left at the
      intermediate orientation. */
  lemma {:induction false} RotatedThenBack(p: Piece, clockwise: bool)
    ensures var q := Rotated(Rotated(p, clockwise), !clockwise);
            && q.body == p.body && q.rotation == p.rotation
            && q.width == p.width && q.height == p.height
            && q.anchor == p.anchor && q.shape == p.shape
            && q.prevRotation == StepRotation(p.rotation, clockwise)
  {
    var q := Rotated(Rotated(p, clockwise), !clockwise);
    forall i | 0 <= i < |p.body| ensures q.body[i] == p.body[i] {
      RotateAroundInverse(p.body[i], Origin, clockwise);
    }
    BodyExt(q.body, p.body);
    StepRotationInverse(p.rotation, clockwise);
  }

  /** Four rotations the same way restore the body, rotation index, width,
      height and anchor; the previous-rotation index is then one step
      behind the rotation index. */
  lemma {:induction false} RotatedFour(p: Piece, clockwise: bool)
    ensures var q := Rotated(Rotated(Rotated(Rotated(p, clockwise), clockwise), clockwise), clockwise);
            && q.body == p.body && q.rotation == p.rotation
            && q.width == p.width && q.height == p.height
            && q.anchor == p.anchor && q.shape == p.shape
            && q.prevRotation == StepRotation(p.rotation, !clockwise)
  {
    var q := Rotated(Rotated(Rotated(Rotated(p, clockwise), clockwise), clockwise), clockwise);
    forall i | 0 <= i < |p.body| ensures q.body[i] == p.body[i] {
      RotateAroundFour(p.body[i], Origin, clockwise);
    }
    BodyExt(q.body, p.body);
    StepRotationFour(p.rotation, clockwise);
    var r3 := StepRotation(StepRotation(StepRotation(p.rotation, clockwise), clockwise), clockwise);
    StepRotationInverse(r3, clockwise);
  }

  /** `move(m, true)` exactly undoes `move(m)`, and the other way round. */
  lemma MovedThenBack(p: Piece, m: Move, reverse: bool)
    ensures Moved(Moved(p, m, reverse), m, !reverse) == p
  {
  }

  /** A wall-kick candidate differs from the piece only in its anchor. */
  lemma KickCandidateKeeps(p: Piece, n: nat)
    requires 1 <= n <= NumOffsetTests(p.kicks)
    ensures var c := KickCandidate(p, n);
            c.body == p.body && c.rotation == p.rotation && c.prevRotation == p.prevRotation
            && c.width == p.width && c.height == p.height && c.shape == p.shape
            && c.anchor == p.anchor.Plus(OffsetData(p.kicks)[p.prevRotation][n - 1])
                                   .Minus(OffsetData(p.kicks)[p.rotation][n - 1])
  {
  }

  /** Equality of two pieces with bodies of the same length is equality of
      every field but the kick table. */
  lemma SameIffEqual(a: Piece, b: Piece)
    ensures |a.body| == |b.body| ==> (Same(a, b) <==> a.(kicks := b.kicks) == b)
  {
    if |a.body| == |b.body| {
      assert b.body[..|a.body|] == b.body;
    }
  }

  /** Distinct shapes have distinct colour identifiers. */
  lemma ColorIdInjective(s1: Shape, s2: Shape)
    requires s1 != s2
    ensures s1.Ordinal() != s2.Ordinal()
  {
  }

  // ---------------------------------------------------------------------
  // Shape templates (the per-shape subclasses)

  /** What a shape's subclass fixes: its body offsets, its kick table, and
      the anchor at which a new piece of that shape appears. */
  datatype ShapeTemplate = ShapeTemplate(body: seq<Vec2>, kicks: KickTable, spawn: Vec2)

  type Catalog = Shape -> ShapeTemplate

  /** The catalog agrees with the table names: O uses the O table, I the I
      table, and Z, L, S, J, T the shared table; every real shape has cells. */
  ghost predicate CatalogOk(catalog: Catalog)
  {
    && (forall s: Shape :: !s.IsSentinel() ==> |catalog(s).body| > 0)
    && catalog(O).kicks == OKicks
    && catalog(I).kicks == IKicks
    && catalog(Z).kicks == ZLSJTKicks && catalog(L).kicks == ZLSJTKicks
    && catalog(S).kicks == ZLSJTKicks && catalog(J).kicks == ZLSJTKicks
    && catalog(T).kicks == ZLSJTKicks
  }

  // ---------------------------------------------------------------------
  // The piece object

  /** Computes the width and height of a body in one pass, as the
      constructor does with running minima and maxima. */
  method Extents(body: seq<Vec2>) returns (width: nat, height: nat)
    requires |body| > 0
    ensures width == Extent(Xs(body)) && height == Extent(Ys(body))
  {
    var minX, maxX, minY, maxY := body[0].x, body[0].x, body[0].y, body[0].y;
    var i := 1;
    assert Xs(body)[..1] == [body[0].x] && Ys(body)[..1] == [body[0].y];
    while i < |body|
      invariant 1 <= i <= |body|
      invariant minX == MinOf(Xs(body)[..i]) && maxX == MaxOf(Xs(body)[..i])
      invariant minY == MinOf(Ys(body)[..i]) && maxY == MaxOf(Ys(body)[..i])
    {
      var v := body[i];
      ExtremaSnoc(Xs(body), i);
      ExtremaSnoc(Ys(body), i);
      minX := if v.x < minX then v.x else minX;
      maxX := if v.x > maxX then v.x else maxX;
      minY := if v.y < minY then v.y else minY;
      maxY := if v.y > maxY then v.y else maxY;
      i := i + 1;
    }
    assert Xs(body)[..i] == Xs(body) && Ys(body)[..i] == Ys(body);
    width := maxX - minX + 1;
    height := maxY - minY + 1;
  }

  class Tetromino {
    const shape: Shape
    var anchor: Vec2
    var body: seq<Vec2>
    var rotation: Rotation
    var prevRotation: Rotation
    var width: nat
    var height: nat
    const kicks: KickTable

    function Value(): Piece
      reads this
    {
      Piece(shape, anchor, body, rotation, prevRotation, width, height, kicks)
    }

    ghost predicate Valid()
      reads this
    {
      WellShaped(Value())
    }

    /** The constructor: rotation indices start at zero and the bounding box
        is measured from the body. */
    constructor (anchor: Vec2, body: seq<Vec2>, kicks: KickTable, shape: Shape)
      requires |body| > 0
      ensures Valid() && Value() == Initial(shape, anchor, body, kicks)
    {
      var w, h := Extents(body);
      this.shape := shape;
      this.anchor := anchor;
      this.body := body;
      this.rotation := 0;
      this.prevRotation := 0;
      this.width := w;
      this.height := h;
      this.kicks := kicks;
    }

    /** A copy of this piece (the virtual `clone`). */
    method Clone() returns (c: Tetromino)
      requires Valid()
      ensures fresh(c) && c.Valid() && c.Value() == Value()
    {
      c := new Tetromino(anchor, body, kicks, shape);
      c.rotation := rotation;
      c.prevRotation := prevRotation;
      c.width := width;
      c.height := height;
    }

    function ColorId(): (id: nat)
      reads this
      ensures id == shape.Ordinal()
    {
      shape.Ordinal()
    }

    function GetNumOffsetTests(): (n: nat)
      reads this
      ensures n == NumOffsetTests(kicks)
    {
      |OffsetData(kicks)[0]|
    }

    /** `operator==`; the kick table takes no part in the comparison. */
    function Equals(other: Tetromino): (r: bool)
      reads this, other
      ensures |body| == |other.body| ==> (r <==> Value().(kicks := other.kicks) == other.Value())
      ensures r ==> |body| <= |other.body| && body == other.body[..|body|]
    {
      SameIffEqual(Value(), other.Value());
      Same(Value(), other.Value())
    }

    method SetAnchorPoint(a: Vec2)
      modifies this
      ensures Value() == old(Value()).(anchor := a)
    {
      anchor := a;
    }

    method Move(m: Move, reverse: bool)
      modifies this
      ensures Value() == Moved(old(Value()), m, reverse)
    {
      match m
      case Down => anchor := Vec2(anchor.x, anchor.y + if reverse then 1 else -1);
      case Left => anchor := Vec2(anchor.x + if reverse then 1 else -1, anchor.y);
      case Right => anchor := Vec2(anchor.x + if reverse then -1 else 1, anchor.y);
    }

    method Rotate(clockwise: bool)
      requires Valid()
      modifies this
      ensures Valid() && Value() == Rotated(old(Value()), clockwise)
    {
      ghost var before := Value();
      prevRotation := rotation;
      rotation := StepRotation(rotation, clockwise);
      var turned := body;
      var i := 0;
      while i < |turned|
        invariant 0 <= i <= |turned| == |before.body|
        invariant forall k :: 0 <= k < i ==> turned[k] == RotateAround(before.body[k], Origin, clockwise)
        invariant forall k :: i <= k < |turned| ==> turned[k] == before.body[k]
      {
        turned := turned[i := RotateAround(turned[i], Origin, clockwise)];
        i := i + 1;
      }
      BodyExt(turned, TurnBody(before.body, clockwise));
      body := turned;
      width, height := height, width;
      RotatedWellShaped(before, clockwise);
    }

    /** Wall-kick candidate `n` (1-based): a translated copy; this piece is
        not modified. */
    method GetNthOffsetTest(n: nat) returns (c: Tetromino)
      requires Valid() && 1 <= n <= NumOffsetTests(kicks)
      ensures fresh(c) && c.Valid() && c.Value() == KickCandidate(Value(), n)
    {
      c := Clone();
      var offset := OffsetData(kicks)[prevRotation][n - 1].Minus(OffsetData(kicks)[rotation][n - 1]);
      c.anchor := c.anchor.Plus(offset);
    }
  }

  /** `makeTetromino`: the sentinel shapes are rejected with an error, every
      other shape yields a new piece built from its template. */
  method MakeTetromino(shape: Shape, anchor: Vec2, catalog: Catalog) returns (r: Result<Tetromino>)
    requires CatalogOk(catalog)
    ensures r.Err? <==> shape.IsSentinel()
    ensures r.Ok? ==> fresh(r.value) && r.value.Valid()
                      && r.value.Value() == Initial(shape, anchor, catalog(shape).body, catalog(shape).kicks)
  {
    if shape == NumBasicTetrominoShape || shape == NumTetrominoShape {
      return Err("invalid tetromino shape: NumBasicTetrominoShape");
    }
    var t := new Tetromino(anchor, catalog(shape).body, catalog(shape).kicks, shape);
    r := Ok(t);
  }
}
