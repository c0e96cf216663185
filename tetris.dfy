// One player's game: a board, the falling (active) piece, its resting
// shadow (the preview), an optional held piece, the queue of upcoming
// shapes, the lock-delay counter and the flag that allows one hold per
// piece. Every event updates these fields in place.

module Simulation {
  import opened Geometry
  import opened Wrappers
  import opened Pieces
  import opened Boards

  /** The default number of ticks a piece that cannot descend waits before
      it is locked. */
  const LockDelayTicksNum: nat := 1

  /** What a game draws its pieces from: each shape's template, and the
      stream of shapes the queue hands out once the shapes inserted at its
      front are used up (the queue's own random generator). */
  datatype Supply = Supply(catalog: Catalog, stream: nat -> Shape)

  ghost predicate SupplyOk(sup: Supply)
  {
    CatalogOk(sup.catalog) && forall k :: !sup.stream(k).IsSentinel()
  }

  ghost predicate FrontOk(front: seq<Shape>)
  {
    forall i :: 0 <= i < |front| ==> !front[i].IsSentinel()
  }

  /** A snapshot of a game, field by field (the preview is left out: it is
      always the resting shadow of the active piece). `front` holds the
      shapes inserted at the head of the queue and `drawn` counts the shapes
      taken from the stream so far. */
  datatype Play = Play(rows: seq<Row>, active: Piece, hold: Option<Piece>,
                       front: seq<Shape>, drawn: nat,
                       ticks: nat, canHold: bool, alive: bool)

  ghost predicate Consistent(v: Play, sup: Supply)
  {
    && WellFormed(v.rows) && WellShaped(v.active) && !v.active.shape.IsSentinel()
    && (v.hold.Some? ==> WellShaped(v.hold.value) && !v.hold.value.shape.IsSentinel())
    && FrontOk(v.front) && SupplyOk(sup)
  }

  /** The piece `createTetromino(s)` makes: shape s at its spawn anchor. */
  ghost function Spawned(sup: Supply, s: Shape): (p: Piece)
    requires CatalogOk(sup.catalog) && !s.IsSentinel()
    ensures WellShaped(p) && p.shape == s && p.rotation == 0
  {
    Initial(s, sup.catalog(s).spawn, sup.catalog(s).body, sup.catalog(s).kicks)
  }

  /** The shape the queue hands out next: an inserted one first. */
  ghost function NextShape(v: Play, sup: Supply): (s: Shape)
    requires Consistent(v, sup)
    ensures !s.IsSentinel()
    ensures |v.front| > 0 ==> s == v.front[0]
  {
    if |v.front| > 0 then v.front[0] else sup.stream(v.drawn)
  }

  /** The queue after handing out `NextShape`. */
  ghost function Popped(v: Play): Play
  {
    if |v.front| > 0 then v.(front := v.front[1..]) else v.(drawn := v.drawn + 1)
  }

  // ---------------------------------------------------------------------
  // The events as functions of the snapshot

  /** Where the piece comes to rest when it falls straight down: it moves
      down one row as long as the moved piece fits. */
  ghost function Dropped(rows: seq<Row>, p: Piece): (r: Piece)
    requires WellFormed(rows) && |p.body| > 0
    ensures r == p.(anchor := r.anchor)
    decreases p.anchor.y + p.body[0].y
  {
    var q := Moved(p, Down, false);
    if Fits(rows, q) then
      assert Free(rows, CellAt(q, 0));
      Dropped(rows, q)
    else p
  }

  /** Locking the active piece (`placeActive` and what follows it): a piece
      that does not fit where it is ends the game and changes nothing else;
      otherwise it is stamped into the grid, full rows are cleared, the next
      shape from the queue spawns, holding is allowed again and the lock
      delay restarts. The second component is the number of cleared rows. */
  ghost function Locked(v: Play, sup: Supply): (r: (Play, nat))
    requires Consistent(v, sup)
  {
    if !Fits(v.rows, v.active) then (v.(alive := false), 0)
    else
      var placed := Stamp(v.rows, v.active);
      (Popped(v).(rows := Cleared(placed), active := Spawned(sup, NextShape(v, sup)),
                  ticks := 0, canHold := true),
       CountFull(placed))
  }

  /** `eventClockTick`: the piece moves down one row when it can, which
      restarts the lock delay; otherwise the delay counts one tick, and a
      piece whose delay has run out is locked. */
  ghost function Ticked(v: Play, sup: Supply): (r: (Play, nat))
    requires Consistent(v, sup)
  {
    var down := Moved(v.active, Down, false);
    if Fits(v.rows, down) then (v.(active := down, ticks := 0), 0)
    else if v.ticks < LockDelayTicksNum then (v.(ticks := v.ticks + 1), 0)
    else Locked(v, sup)
  }

  /** `eventBigDrop`: the piece falls to its resting place and is locked at once. */
  ghost function BigDropped(v: Play, sup: Supply): (r: (Play, nat))
    requires Consistent(v, sup)
  {
    Locked(v.(active := Dropped(v.rows, v.active)), sup)
  }

  /** `eventTryMoveActive`: the move happens only when the moved piece fits. */
  ghost function TriedMove(v: Play, m: Move): Play
    requires WellFormed(v.rows)
  {
    var q := Moved(v.active, m, false);
    if Fits(v.rows, q) then v.(active := q) else v
  }

  /** The first wall-kick candidate of the rotated piece `r`, from number n
      on, that fits. */
  ghost function FirstKick(rows: seq<Row>, r: Piece, n: nat): (c: Option<Piece>)
    requires WellFormed(rows) && n >= 1
    ensures c.Some? ==> c.value == r.(anchor := c.value.anchor)
    decreases NumOffsetTests(r.kicks) + 1 - n
  {
    if n > NumOffsetTests(r.kicks) then None
    else if Fits(rows, KickCandidate(r, n)) then Some(KickCandidate(r, n))
    else FirstKick(rows, r, n + 1)
  }

  /** `eventTryRotateActive`: the first fitting kick candidate of the
      rotated piece replaces the active piece; when none fits nothing changes. */
  ghost function TriedRotate(v: Play, clockwise: bool): Play
    requires WellFormed(v.rows)
  {
    match FirstKick(v.rows, Rotated(v.active, clockwise), 1)
    case Some(c) => v.(active := c)
    case None => v
  }

  /** `eventHoldActiveTetromino`: allowed once per piece. A fresh piece of
      the active shape goes to hold; the new active piece is a fresh piece
      of the held shape, or the next shape from the queue when nothing was
      held. */
  ghost function Held(v: Play, sup: Supply): (r: Play)
    requires Consistent(v, sup)
  {
    if !v.canHold then v
    else
      var base := if v.hold.None? then Popped(v) else v;
      var next := if v.hold.None? then NextShape(v, sup) else v.hold.value.shape;
      base.(active := Spawned(sup, next), hold := Some(Spawned(sup, v.active.shape)),
            ticks := 0, canHold := false)
  }

  /** `eventReceivePenaltyRows`: the rows go in when the board has room for
      them; otherwise the player loses and the board is unchanged. */
  ghost function PenaltyReceived(v: Play, gaps: seq<GapColumn>): Play
    requires WellFormed(v.rows) && 1 <= |gaps| <= Height
  {
    if IsEmptyRow(v.rows[Height - |gaps|]) then v.(rows := WithPenaltyRows(v.rows, gaps))
    else v.(alive := false)
  }

  /** `insertNextTetromino`: the shape goes to the head of the queue. */
  ghost function Inserted(v: Play, s: Shape): Play
  {
    v.(front := [s] + v.front)
  }

  // ---------------------------------------------------------------------
  // Properties of the events

  /** The preview is where a big drop puts the piece: it cannot move down
      further, it lies straight below the piece, and a piece that fits
      still fits there. */
  lemma {:induction false} DroppedRests(rows: seq<Row>, p: Piece)
    requires WellFormed(rows) && |p.body| > 0
    ensures var d := Dropped(rows, p);
            && !Fits(rows, Moved(d, Down, false))
            && d == p.(anchor := d.anchor)
            && d.anchor.x == p.anchor.x && d.anchor.y <= p.anchor.y
            && (Fits(rows, p) ==> Fits(rows, d))
    decreases p.anchor.y + p.body[0].y
  {
    var q := Moved(p, Down, false);
    if Fits(rows, q) {
      assert Free(rows, CellAt(q, 0));
      DroppedRests(rows, q);
    }
  }

  /** A piece that can fall no further is its own resting place. */
  lemma DroppedAtRest(rows: seq<Row>, p: Piece)
    requires WellFormed(rows) && |p.body| > 0
    requires !Fits(rows, Moved(p, Down, false))
    ensures Dropped(rows, p) == p
  {
  }

  /** `FirstKick` finds a fitting candidate exactly when one exists, and
      then it is the lowest-numbered one. */
  lemma {:induction false} FirstKickFinds(rows: seq<Row>, r: Piece, n: nat)
    requires WellFormed(rows) && n >= 1
    ensures FirstKick(rows, r, n).Some? <==>
            exists k :: n <= k <= NumOffsetTests(r.kicks) && Fits(rows, KickCandidate(r, k))
    ensures FirstKick(rows, r, n).Some? ==>
            exists k :: && n <= k <= NumOffsetTests(r.kicks)
                        && FirstKick(rows, r, n).value == KickCandidate(r, k)
                        && Fits(rows, KickCandidate(r, k))
                        && forall j :: n <= j < k ==> !Fits(rows, KickCandidate(r, j))
    decreases NumOffsetTests(r.kicks) + 1 - n
  {
    var N := NumOffsetTests(r.kicks);
    if n > N {
    } else if Fits(rows, KickCandidate(r, n)) {
      assert FirstKick(rows, r, n).value == KickCandidate(r, n);
    } else {
      FirstKickFinds(rows, r, n + 1);
      if FirstKick(rows, r, n).Some? {
        var k :| && n + 1 <= k <= N
                 && FirstKick(rows, r, n + 1).value == KickCandidate(r, k)
                 && Fits(rows, KickCandidate(r, k))
                 && forall j :: n + 1 <= j < k ==> !Fits(rows, KickCandidate(r, j));
        assert forall j :: n <= j < k ==> !Fits(rows, KickCandidate(r, j));
      }
    }
  }

  /** A successful rotation leaves the piece on free cells, turned a
      quarter in the requested direction and shifted by one of its kick
      offsets; an unsuccessful one changes nothing. */
  lemma RotationOutcome(v: Play, clockwise: bool)
    requires WellFormed(v.rows)
    ensures var r := Rotated(v.active, clockwise);
            || TriedRotate(v, clockwise) == v
            || exists k :: && 1 <= k <= NumOffsetTests(r.kicks)
                           && TriedRotate(v, clockwise) == v.(active := KickCandidate(r, k))
                           && Fits(v.rows, KickCandidate(r, k))
  {
    FirstKickFinds(v.rows, Rotated(v.active, clockwise), 1);
  }

  /** Moves and rotations never leave a fitting piece on occupied or
      off-board cells. */
  lemma ControlsKeepFit(v: Play, m: Move, clockwise: bool)
    requires WellFormed(v.rows) && Fits(v.rows, v.active)
    ensures Fits(v.rows, TriedMove(v, m).active)
    ensures Fits(v.rows, TriedRotate(v, clockwise).active)
  {
    FirstKickFinds(v.rows, Rotated(v.active, clockwise), 1);
  }

  /** Moves and rotations keep a game consistent and leave everything but
      the active piece as it was. */
  lemma ControlsKeepConsistent(v: Play, sup: Supply, m: Move, clockwise: bool)
    requires Consistent(v, sup)
    ensures Consistent(TriedMove(v, m), sup) && TriedMove(v, m) == v.(active := TriedMove(v, m).active)
    ensures Consistent(TriedRotate(v, clockwise), sup)
    ensures TriedRotate(v, clockwise) == v.(active := TriedRotate(v, clockwise).active)
  {
    RotatedWellShaped(v.active, clockwise);
  }

  /** A big drop keeps a game consistent, clears at most Height rows and
      restarts the lock delay or ends the game. */
  lemma BigDropOutcome(v: Play, sup: Supply)
    requires Consistent(v, sup) && v.ticks <= LockDelayTicksNum
    ensures var (w, cleared) := BigDropped(v, sup);
            Consistent(w, sup) && w.ticks <= LockDelayTicksNum && cleared <= Height
  {
    var d := Dropped(v.rows, v.active);
    assert d == v.active.(anchor := d.anchor);
    assert WellShaped(d) && d.shape == v.active.shape;
    LockedOutcome(v.(active := d), sup);
  }

  /** Penalty rows and the destruction of a square keep a game consistent
      and change only its rows, or end it. */
  lemma BoardEventsKeepConsistent(v: Play, sup: Supply, gaps: seq<GapColumn>, draw: nat)
    requires Consistent(v, sup) && 1 <= |gaps| <= Height
    ensures Consistent(PenaltyReceived(v, gaps), sup)
    ensures PenaltyReceived(v, gaps) == v.(rows := PenaltyReceived(v, gaps).rows, alive := PenaltyReceived(v, gaps).alive)
    ensures !v.alive ==> !PenaltyReceived(v, gaps).alive
    ensures Consistent(v.(rows := Destroyed2By2(v.rows, draw)), sup)
  {
  }

  /** Locking: the game ends exactly when the piece does not fit; otherwise
      no full row remains, at most Height rows were cleared, the next shape
      spawns and holding is allowed again. */
  lemma LockedOutcome(v: Play, sup: Supply)
    requires Consistent(v, sup)
    ensures var (w, cleared) := Locked(v, sup);
            && Consistent(w, sup)
            && (w.alive <==> v.alive && Fits(v.rows, v.active))
            && cleared <= Height
            && (!Fits(v.rows, v.active) ==> w == v.(alive := false) && cleared == 0)
            && (Fits(v.rows, v.active) ==>
                  && (forall y :: 0 <= y < Height ==> !IsFullRow(w.rows[y]))
                  && w.active == Spawned(sup, NextShape(v, sup))
                  && w.canHold && w.ticks == 0 && w.hold == v.hold)
  {
    if Fits(v.rows, v.active) {
      var placed := Stamp(v.rows, v.active);
      ClearedSettles(placed);
      ClearedWellFormed(placed);
    }
  }

  /** Clearing keeps a well-formed grid well-formed. */
  lemma ClearedWellFormed(rows: seq<Row>)
    requires WellFormed(rows)
    ensures WellFormed(Cleared(rows))
  {
    var c := Cleared(rows);
    forall y | 0 <= y < Height ensures |c[y]| == Width {
      if y < |NonFull(rows)| {
        assert c[y] == NonFull(rows)[y];
        assert c[y] in rows;
      } else {
        assert c[y] == BlankRows(CountFull(rows))[y - |NonFull(rows)|];
      }
    }
  }

  /** A clock tick keeps the lock-delay counter within its bound; it locks
      the piece only when it could not descend and its delay had run out. */
  lemma TickOutcome(v: Play, sup: Supply)
    requires Consistent(v, sup) && v.ticks <= LockDelayTicksNum
    ensures var (w, cleared) := Ticked(v, sup);
            && Consistent(w, sup) && w.ticks <= LockDelayTicksNum && cleared <= Height
            && (Fits(v.rows, Moved(v.active, Down, false)) ==> w.ticks == 0 && w.rows == v.rows && cleared == 0)
            && (w.active != v.active && w.active != Moved(v.active, Down, false) ==>
                  v.ticks == LockDelayTicksNum && !Fits(v.rows, Moved(v.active, Down, false)))
  {
    if !Fits(v.rows, Moved(v.active, Down, false)) && v.ticks >= LockDelayTicksNum {
      LockedOutcome(v, sup);
    }
  }

  /** Holding twice in a row is the same as holding once: the second hold
      is refused. */
  lemma HeldTwice(v: Play, sup: Supply)
    requires Consistent(v, sup)
    ensures Consistent(Held(v, sup), sup)
    ensures Held(Held(v, sup), sup) == Held(v, sup)
  {
  }

  /** Holding swaps the shapes of the active and the held piece. */
  lemma HeldSwaps(v: Play, sup: Supply)
    requires Consistent(v, sup) && v.canHold && v.hold.Some?
    ensures var w := Held(v, sup);
            && w.hold.Some? && w.hold.value.shape == v.active.shape
            && w.active.shape == v.hold.value.shape
            && Held(w.(canHold := true), sup).active.shape == v.active.shape
  {
  }

  /** The shape inserted at the front of the queue is the next one handed out. */
  lemma InsertedIsNext(v: Play, sup: Supply, s: Shape)
    requires Consistent(v, sup) && !s.IsSentinel()
    ensures Consistent(Inserted(v, s), sup)
    ensures NextShape(Inserted(v, s), sup) == s
    ensures Popped(Inserted(v, s)) == v
  {
  }

  // ---------------------------------------------------------------------
  // The game object

  /** `createTetromino`: a new piece of the shape at its spawn anchor. */
  method CreateTetromino(shape: Shape, sup: Supply) returns (p: Piece)
    requires CatalogOk(sup.catalog) && !shape.IsSentinel()
    ensures p == Spawned(sup, shape)
  {
    var r := MakeTetromino(shape, sup.catalog(shape).spawn, sup.catalog);
    p := r.value.Value();
  }

  class Tetris {
    const board: Board
    var active: Piece
    /** The resting shadow of the active piece. */
    var preview: Piece
    var hold: Option<Piece>
    var front: seq<Shape>
    var drawn: nat
    const supply: Supply
    var ticksSinceLockStart: nat
    var canHold: bool
    /** Whether the game is still on; it is what the game's observers are
        told when the player loses. */
    var alive: bool

    ghost function View(): (v: Play)
      reads this, board, board.grid
    {
      Play(board.Rows(), active, hold, front, drawn, ticksSinceLockStart, canHold, alive)
    }

    /** Everything the invariant needs except the preview being current. */
    ghost predicate Sound()
      reads this, board, board.grid
    {
      board.Valid() && Consistent(View(), supply) && ticksSinceLockStart <= LockDelayTicksNum
    }

    ghost predicate Valid()
      reads this, board, board.grid
    {
      Sound() && preview == Dropped(board.Rows(), active)
    }

    /** A new game: an empty board, the first shape of the stream as the
        active piece, nothing held. */
    constructor (supply: Supply)
      requires SupplyOk(supply)
      ensures Valid() && fresh(board) && fresh(board.grid) && this.supply == supply
      ensures View() == Play(BlankRows(Height), Spawned(supply, supply.stream(0)), None,
                             [], 1, 0, true, true)
    {
      board := new Board();
      var a := CreateTetromino(supply.stream(0), supply);
      active := a;
      preview := a;
      hold := None;
      front := [];
      drawn := 1;
      this.supply := supply;
      ticksSinceLockStart := 0;
      canHold := true;
      alive := true;
      new;
      UpdatePreview();
    }

    /** `checkCanDrop`: whether the piece moved down one row would fit. */
    method CheckCanDrop(p: Piece) returns (b: bool)
      requires board.Valid()
      ensures b <==> Fits(board.Rows(), Moved(p, Down, false))
    {
      b := board.CheckInGridPiece(Moved(p, Down, false));
    }

    /** The piece dropped as far as it goes. */
    method RestingCopy(p: Piece) returns (r: Piece)
      requires board.Valid() && |p.body| > 0
      ensures r == Dropped(board.Rows(), p)
    {
      r := p;
      var can := CheckCanDrop(r);
      while can
        invariant |r.body| > 0
        invariant Dropped(board.Rows(), r) == Dropped(board.Rows(), p)
        invariant can <==> Fits(board.Rows(), Moved(r, Down, false))
        decreases r.anchor.y + r.body[0].y
      {
        assert Free(board.Rows(), CellAt(Moved(r, Down, false), 0));
        r := Moved(r, Down, false);
        can := CheckCanDrop(r);
      }
    }

    /** `updatePreviewTetromino`: the preview becomes a copy of the active
        piece dropped as far as it goes. */
    method UpdatePreview()
      requires Sound()
      modifies this
      ensures Valid() && View() == old(View())
    {
      preview := RestingCopy(active);
    }

    /** Takes the next shape from the queue. */
    method PopNext() returns (s: Shape)
      requires Sound()
      modifies this
      ensures Sound() && s == NextShape(old(View()), supply)
      ensures View() == Popped(old(View())) && preview == old(preview)
    {
      if |front| > 0 {
        s := front[0];
        front := front[1..];
      } else {
        s := supply.stream(drawn);
        drawn := drawn + 1;
      }
    }

    /** `placeActive`: a piece that fits where it is is stamped into the
        grid; one that does not ends the game and leaves the grid as it was. */
    method PlaceActive() returns (placed: bool)
      requires Valid()
      modifies this, board.grid
      ensures Sound() && placed == Fits(old(View()).rows, old(View()).active)
      ensures placed ==> View() == old(View()).(rows := Stamp(old(View()).rows, old(View()).active))
      ensures !placed ==> View() == old(View()).(alive := false) && Valid()
    {
      placed := board.CheckInGridPiece(active);
      if !placed {
        alive := false;
        return;
      }
      board.PlaceTetromino(active);
    }

    /** The next shape from the queue becomes the active piece; holding is
        allowed again and the lock delay restarts. */
    method SpawnNext()
      requires Sound()
      modifies this
      ensures Valid()
      ensures View() == Popped(old(View())).(active := Spawned(supply, NextShape(old(View()), supply)),
                                             canHold := true, ticks := 0)
    {
      var s := PopNext();
      active := CreateTetromino(s, supply);
      canHold := true;
      ticksSinceLockStart := 0;
      UpdatePreview();
    }

    /** Locking the active piece: `placeActive`, then the clearing of full
        rows and the spawn of the next piece; see `Locked`. */
    method LockActive() returns (cleared: nat)
      requires Valid()
      modifies this, board.grid
      ensures Valid() && (View(), cleared) == Locked(old(View()), supply)
    {
      ghost var v := View();
      var placed := PlaceActive();
      if !placed {
        return 0;
      }
      cleared := board.Update();
      ghost var v1 := View();
      assert v1 == v.(rows := Cleared(Stamp(v.rows, v.active)));
      assert NextShape(v1, supply) == NextShape(v, supply);
      assert Popped(v1) == Popped(v).(rows := v1.rows);
      SpawnNext();
    }

    /** `eventClockTick`: see `Ticked`. */
    method EventClockTick() returns (cleared: nat)
      requires Valid()
      modifies this, board.grid
      ensures Valid() && (View(), cleared) == Ticked(old(View()), supply)
    {
      var can := CheckCanDrop(active);
      if can {
        active := Moved(active, Down, false);
        ticksSinceLockStart := 0;
        cleared := 0;
      } else if ticksSinceLockStart < LockDelayTicksNum {
        ticksSinceLockStart := ticksSinceLockStart + 1;
        cleared := 0;
      } else {
        cleared := LockActive();
      }
    }

    /** `eventBigDrop`: see `BigDropped`. */
    method EventBigDrop() returns (cleared: nat)
      requires Valid()
      modifies this, board.grid
      ensures Valid() && (View(), cleared) == BigDropped(old(View()), supply)
    {
      ghost var rows := board.Rows();
      DroppedRests(rows, active);
      active := RestingCopy(active);
      DroppedAtRest(rows, active);
      cleared := LockActive();
    }

    /** `eventTryMoveActive`: see `TriedMove`. */
    method EventTryMoveActive(m: Move)
      requires Valid()
      modifies this
      ensures Valid() && View() == TriedMove(old(View()), m)
    {
      ghost var v := View();
      active := Moved(active, m, false);
      var fits := board.CheckInGridPiece(active);
      if !fits {
        active := Moved(active, m, true);
        MovedThenBack(v.active, m, false);
      }
      UpdatePreview();
    }

    /** `eventTryRotateActive`: the rotated piece is tried at each wall-kick
        candidate in turn; see `TriedRotate`. */
    method EventTryRotateActive(clockwise: bool)
      requires Valid()
      modifies this
      ensures Valid() && View() == TriedRotate(old(View()), clockwise)
    {
      var r := Rotated(active, clockwise);
      RotatedWellShaped(active, clockwise);
      var c := FirstFittingKick(r);
      if c.Some? {
        active := c.value;
      }
      UpdatePreview();
    }

    /** The wall-kick candidates of the rotated piece `r`, tried in order:
        the first one that fits, if any. */
    method FirstFittingKick(r: Piece) returns (c: Option<Piece>)
      requires board.Valid()
      ensures c == FirstKick(board.Rows(), r, 1)
    {
      var n := NumOffsetTests(r.kicks);
      var k := 1;
      c := None;
      while k <= n && c.None?
        invariant 1 <= k <= n + 1
        invariant c.None? ==> FirstKick(board.Rows(), r, 1) == FirstKick(board.Rows(), r, k)
        invariant c.Some? ==> FirstKick(board.Rows(), r, 1) == c
        decreases n + 1 - k
      {
        var candidate := KickCandidate(r, k);
        var fits := board.CheckInGridPiece(candidate);
        if fits {
          c := Some(candidate);
        }
        k := k + 1;
      }
    }

    /** `eventHoldActiveTetromino`: see `Held`. */
    method EventHoldActiveTetromino()
      requires Valid()
      modifies this
      ensures Valid() && View() == Held(old(View()), supply)
    {
      if !canHold {
        return;
      }
      var held := CreateTetromino(active.shape, supply);
      var next: Shape;
      if hold.None? {
        next := PopNext();
      } else {
        next := hold.value.shape;
      }
      PutInHold(held, next);
    }

    /** The common end of a hold: `held` goes to hold, a fresh piece of
        shape `next` becomes active, and holding is locked until the next
        piece spawns. */
    method PutInHold(held: Piece, next: Shape)
      requires Sound() && WellShaped(held) && !held.shape.IsSentinel() && !next.IsSentinel()
      modifies this
      ensures Valid()
      ensures View() == old(View()).(active := Spawned(supply, next), hold := Some(held),
                                     ticks := 0, canHold := false)
    {
      active := CreateTetromino(next, supply);
      hold := Some(held);
      canHold := false;
      ticksSinceLockStart := 0;
      UpdatePreview();
    }

    /** `eventReceivePenaltyRows`, one gap column per row: see `PenaltyReceived`. */
    method EventReceivePenaltyRows(gaps: seq<GapColumn>)
      requires Valid() && 1 <= |gaps| <= Height
      modifies this, board.grid
      ensures Valid() && View() == PenaltyReceived(old(View()), gaps)
    {
      var ok := board.ReceivePenaltyRows(gaps);
      if !ok {
        alive := false;
      }
      UpdatePreview();
    }

    /** `insertNextTetromino`: see `Inserted`. */
    method InsertNextTetromino(s: Shape)
      requires Valid() && !s.IsSentinel()
      modifies this
      ensures Valid() && View() == Inserted(old(View()), s)
    {
      front := [s] + front;
    }

    /** `destroy2By2Occupied`, with the random start cell `draw`. */
    method Destroy2By2Occupied(draw: nat)
      requires Valid() && draw <= Height * Width
      modifies this, board.grid
      ensures Valid() && View() == old(View()).(rows := Destroyed2By2(old(View()).rows, draw))
    {
      board.Destroy2By2Occupied(draw);
      UpdatePreview();
    }
  }
}
