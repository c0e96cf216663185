// The engine of a match: what happens to the players' records and games on
// each clock tick, on each command a player sends, and when a player buys
// an effect. Every rule is a guard followed by an update of one or two
// players; the rules are stated as functions of the match snapshot
// (`World`) and the `GameEngine` methods are proved to perform them on
// the match objects.

module Engine {
  import opened Wrappers
  import opened Pieces
  import opened Boards
  import opened Simulation
  import opened Features
  import opened Effects
  import opened Match

  /** The points a cleared row is worth. */
  const PointsPerRow: nat := 100

  /** The number of mini pieces the MiniTetrominoes bonus inserts. */
  const NumMiniTetrominoes: nat := 2

  /** `calculatePointsClearedRows`. */
  function PointsClearedRows(n: nat): nat
  {
    n * PointsPerRow
  }

  /** `calculateEnergyClearedRows`. */
  function EnergyClearedRows(n: nat): nat
  {
    n
  }

  /** `checkAlive`: the player is in the match and alive. */
  ghost predicate IsAlive(w: World, u: UserId)
  {
    u in w.players && w.players[u].alive
  }

  // ---------------------------------------------------------------------
  // The effect queries

  /** `shouldReverseControls`: the effect economy is on and the active
      penalty is ReverseControls. */
  predicate ShouldReverseControls(mode: GameMode, p: PlayerState)
  {
    CheckFeatureEnabled(mode, Effects) && p.activePenalty.Some? && p.activePenalty.value.kind == ReverseControls
  }

  /** `shouldLockInput`: the effect economy is on and the active penalty
      is InputLock. */
  predicate ShouldLockInput(mode: GameMode, p: PlayerState)
  {
    CheckFeatureEnabled(mode, Effects) && p.activePenalty.Some? && p.activePenalty.value.kind == InputLock
  }

  /** `shouldIgnoreTick`: the effect economy is on, the active bonus is
      SlowDown and the bonus skips this tick (`skip`, the bonus's own
      pacing, which the model takes as given). */
  predicate ShouldIgnoreTick(mode: GameMode, p: PlayerState, skip: bool)
  {
    CheckFeatureEnabled(mode, Effects) && p.activeBonus.Some? && p.activeBonus.value.kind == SlowDown && skip
  }

  /** `invertTetrominoMove`: left and right swap, down stays down. */
  function InvertTetrominoMove(m: Move): Move
  {
    match m
    case Left => Right
    case Right => Left
    case Down => Down
  }

  /** Inverting a move twice gives the move back; only Down is its own
      inverse. */
  lemma InvertIsInvolution(m: Move)
    ensures InvertTetrominoMove(InvertTetrominoMove(m)) == m
    ensures InvertTetrominoMove(m) == m <==> m == Down
    ensures m == Left <==> InvertTetrominoMove(m) == Right
  {
  }

  // ---------------------------------------------------------------------
  // Updates of the snapshot

  /** The snapshot with player id's record replaced. */
  function WithPlayer(w: World, id: UserId, p: PlayerState): World
  {
    w.(players := w.players[id := p])
  }

  /** The snapshot with player id's game replaced; a game that ends takes
      its player out of the match (the observer a game notifies when it
      is lost). */
  function WithGame(w: World, id: UserId, g: Play): World
    requires id in w.players
  {
    var p := w.players[id];
    World(w.players[id := p.(alive := p.alive && g.alive)], w.games[id := g])
  }

  /** The snapshot with player id's game replaced by the outcome of an
      event that cannot end it: nobody is notified. */
  function WithPlay(w: World, id: UserId, g: Play): World
  {
    w.(games := w.games[id := g])
  }

  /** Notifying the observers after the event is the same as the event
      with its notification. */
  lemma PlayThenLoss(w: World, id: UserId, g: Play)
    requires id in w.players
    ensures WithGame(WithPlay(w, id, g), id, g) == WithGame(w, id, g)
  {
  }

  /** The notification of a game's state: a lost game takes its player
      out, a game still on changes nothing. */
  lemma LossNoticed(w: World, id: UserId)
    requires id in w.players && id in w.games
    ensures WithGame(w, id, w.games[id]) ==
              if w.games[id].alive then w
              else w.(players := w.players[id := w.players[id].(alive := false)])
  {
    if w.games[id].alive {
      assert w.players[id := w.players[id].(alive := w.players[id].alive)] == w.players;
    }
  }

  lemma WithPlayerOk(w: World, sups: map<UserId, Supply>, id: UserId, p: PlayerState)
    requires WorldOk(w, sups) && id in w.players && p.userId == id
    ensures WorldOk(WithPlayer(w, id, p), sups)
  {
  }

  lemma WithPlayOk(w: World, sups: map<UserId, Supply>, id: UserId, g: Play)
    requires WorldOk(w, sups) && id in w.players
    requires GameOk(g, sups[id])
    ensures WorldOk(WithPlay(w, id, g), sups)
  {
  }

  lemma WithGameOk(w: World, sups: map<UserId, Supply>, id: UserId, g: Play)
    requires WorldOk(w, sups) && id in w.players
    requires GameOk(g, sups[id])
    ensures WorldOk(WithGame(w, id, g), sups)
  {
  }

  // ---------------------------------------------------------------------
  // Placements and penalty rows

  /** `sendPenaltyRows`: the target's game receives the rows. */
  ghost function AfterPenaltyRows(w: World, sups: map<UserId, Supply>, t: UserId, gaps: seq<GapColumn>): (r: World)
    requires WorldOk(w, sups) && t in w.players && 1 <= |gaps| <= Height
    ensures WorldOk(r, sups)
  {
    GameOkAt(w, sups, t);
    BoardEventsKeepConsistent(w.games[t], sups[t], gaps, 0);
    WithGameOk(w, sups, t, PenaltyReceived(w.games[t], gaps));
    WithGame(w, t, PenaltyReceived(w.games[t], gaps))
  }

  /** Penalty rows change only the target's game, and its record only by
      taking it out when its game ends. */
  lemma PenaltyRowsOutcome(w: World, sups: map<UserId, Supply>, t: UserId, gaps: seq<GapColumn>)
    requires WorldOk(w, sups) && t in w.players && 1 <= |gaps| <= Height
    ensures var r := AfterPenaltyRows(w, sups, t, gaps);
            && r.games == w.games[t := PenaltyReceived(w.games[t], gaps)]
            && r.players == w.players[t := w.players[t].(alive := r.players[t].alive)]
            && (r.players[t].alive <==> w.players[t].alive && r.games[t].alive)
  {
  }

  /** Whether a placement of n rows sends penalty rows: penalty rows are
      on, the player's target is alive and at least two rows were cleared. */
  ghost predicate SendsRows(mode: GameMode, w: World, p: PlayerState, n: nat)
  {
    CheckFeatureEnabled(mode, PenaltyRows) && p.target.Some? && IsAlive(w, p.target.value) && n >= 2
  }

  /** `onTetrominoPlaced` for n cleared rows: n - 1 penalty rows for a
      living target when penalty rows are on and at least two rows were
      cleared (`gaps` holds the gap column of each row, drawn at random in
      the game), and the points and, when the effect economy is on, the
      energy for the player. The points are credited first in the game;
      they touch neither the target's game nor anybody's `alive`, so the
      model credits them together with the energy. */
  ghost function AfterPlacement(mode: GameMode, w: World, sups: map<UserId, Supply>, id: UserId,
                                n: nat, gaps: seq<GapColumn>): (r: World)
    requires WorldOk(w, sups) && id in w.players && n <= Height && |gaps| == Height
    ensures WorldOk(r, sups)
  {
    var w1 := RowsSent(mode, w, sups, id, n, gaps);
    WithPlayerOk(w1, sups, id, Credited(mode, w1.players[id], n));
    WithPlayer(w1, id, Credited(mode, w1.players[id], n))
  }

  /** The first step of a placement: the penalty rows, when they are due. */
  ghost function RowsSent(mode: GameMode, w: World, sups: map<UserId, Supply>, id: UserId,
                          n: nat, gaps: seq<GapColumn>): (r: World)
    requires WorldOk(w, sups) && id in w.players && n <= Height && |gaps| == Height
    ensures WorldOk(r, sups) && r.players.Keys == w.players.Keys
  {
    var p := w.players[id];
    if SendsRows(mode, w, p, n) then AfterPenaltyRows(w, sups, p.target.value, gaps[..n - 1]) else w
  }

  /** The second step: the record credited with the points and the energy
      for n rows. */
  function Credited(mode: GameMode, q: PlayerState, n: nat): PlayerState
  {
    q.(score := q.score + PointsClearedRows(n),
       energy := q.energy + if CheckFeatureEnabled(mode, Effects) then EnergyClearedRows(n) else 0)
  }

  /** A placement of n rows: the player's score grows by 100 n and its
      energy by n exactly when the effect economy is on; its target and
      stash stay as they were. */
  lemma PlacementRewards(mode: GameMode, w: World, sups: map<UserId, Supply>, id: UserId, n: nat, gaps: seq<GapColumn>)
    requires WorldOk(w, sups) && id in w.players && n <= Height && |gaps| == Height
    ensures var r := AfterPlacement(mode, w, sups, id, n, gaps);
            var p := w.players[id];
            && r.players[id].score == p.score + 100 * n
            && r.players[id].energy == p.energy + (if CheckFeatureEnabled(mode, Effects) then n else 0)
            && r.players[id].target == p.target && r.players[id].stash == p.stash
            && r.players[id].granted == p.granted && r.players[id].received == p.received
  {
    var p := w.players[id];
    if SendsRows(mode, w, p, n) {
      PenaltyRowsOutcome(w, sups, p.target.value, gaps[..n - 1]);
    }
  }

  /** The target's game receives exactly n - 1 penalty rows when penalty
      rows are on, the target is alive and n >= 2, and no game changes
      otherwise; nobody but the player and its target changes. */
  lemma PlacementPenalty(mode: GameMode, w: World, sups: map<UserId, Supply>, id: UserId, n: nat, gaps: seq<GapColumn>)
    requires WorldOk(w, sups) && id in w.players && n <= Height && |gaps| == Height
    ensures var r := AfterPlacement(mode, w, sups, id, n, gaps);
            var p := w.players[id];
            && (if SendsRows(mode, w, p, n)
                then r.games == w.games[p.target.value := PenaltyReceived(w.games[p.target.value], gaps[..n - 1])]
                else r.games == w.games)
            && (forall u :: u in w.players && u != id && (p.target.None? || u != p.target.value) ==>
                  r.players[u] == w.players[u])
  {
    var p := w.players[id];
    if SendsRows(mode, w, p, n) {
      PenaltyRowsOutcome(w, sups, p.target.value, gaps[..n - 1]);
    }
  }

  // ---------------------------------------------------------------------
  // Timed effects

  /** The random draws and the pacing a player's tick depends on: whether
      this engine tick is a game tick for the player, whether an active
      SlowDown bonus skips it, the gap column of each penalty row the
      player may send, and the start cell of the 2x2 scan of a Lightning. */
  datatype Draws = Draws(gameTick: bool, skipTick: bool, gaps: seq<GapColumn>, square: nat)

  predicate DrawsOk(d: Draws)
  {
    |d.gaps| == Height && d.square <= Height * Width
  }

  /** The game with k mini pieces at the front of its queue. */
  ghost function WithMinis(v: Play, k: nat): Play
  {
    v.(front := seq(k, _ => MiniTetromino) + v.front)
  }

  /** Inserting one more mini piece at the front adds one to the count. */
  lemma InsertedMini(v: Play, k: nat)
    ensures Inserted(WithMinis(v, k), MiniTetromino) == WithMinis(v, k + 1)
  {
    assert [MiniTetromino] + seq(k, _ => MiniTetromino) == seq(k + 1, _ => MiniTetromino);
  }

  /** The mini pieces keep the game consistent and are the next shapes the
      queue hands out. */
  lemma MinisOk(v: Play, sup: Supply, k: nat)
    requires GameOk(v, sup)
    ensures GameOk(WithMinis(v, k), sup)
    ensures k > 0 ==> NextShape(WithMinis(v, k), sup) == MiniTetromino
  {
    var f := WithMinis(v, k).front;
    assert forall i :: 0 <= i < |f| ==> f[i] == MiniTetromino || f[i] == v.front[i - k];
  }

  /** `handleMiniTetrominoes`: two mini pieces at the front of the queue. */
  ghost function AfterMiniTetrominoes(mode: GameMode, w: World, sups: map<UserId, Supply>, id: UserId): (r: World)
    requires WorldOk(w, sups) && id in w.players
    ensures WorldOk(r, sups)
  {
    if !CheckFeatureEnabled(mode, Effects) then w
    else
      GameOkAt(w, sups, id);
      MinisOk(w.games[id], sups[id], NumMiniTetrominoes);
      WithPlayOk(w, sups, id, WithMinis(w.games[id], NumMiniTetrominoes));
      WithPlay(w, id, WithMinis(w.games[id], NumMiniTetrominoes))
  }

  /** `handleLightning`: one fully occupied 2x2 square of the board is
      emptied, scanning from the cell `square`. */
  ghost function AfterLightning(mode: GameMode, w: World, sups: map<UserId, Supply>, id: UserId, square: nat): (r: World)
    requires WorldOk(w, sups) && id in w.players
    ensures WorldOk(r, sups)
  {
    if !CheckFeatureEnabled(mode, Effects) then w
    else
      var g := w.games[id];
      GameOkAt(w, sups, id);
      BoardEventsKeepConsistent(g, sups[id], [0], square);
      WithPlayOk(w, sups, id, g.(rows := Destroyed2By2(g.rows, square)));
      WithPlay(w, id, g.(rows := Destroyed2By2(g.rows, square)))
  }

  /** A new MiniTetrominoes bonus is taken: none is active and it is the
      oldest granted bonus. */
  predicate FetchesMinis(p: PlayerState)
  {
    p.activeBonus.None? && |p.granted| > 0 && p.granted[0] == MiniTetrominoes
  }

  /** A new Lightning penalty is taken: none is active and it is the
      oldest received penalty. */
  predicate FetchesLightning(p: PlayerState)
  {
    p.activePenalty.None? && |p.received| > 0 && p.received[0] == Lightning
  }

  /** The record after `handlePlayerTimedBonus`: an active bonus ticks and
      goes when it has finished; with none active, the oldest granted bonus
      is taken and, unless it is MiniTetrominoes (applied to the game at
      once), becomes the active one. */
  function BonusTicked(rules: Rules, p: PlayerState): (q: PlayerState)
  {
    if p.activeBonus.Some? then
      var b := p.activeBonus.value.Tick();
      p.(activeBonus := if b.IsFinished() then None else Some(b))
    else if |p.granted| == 0 then p
    else p.(granted := p.granted[1..],
            activeBonus := if p.granted[0] == MiniTetrominoes then None else Some(MakeBonus(rules, p.granted[0])))
  }

  /** The record after `handlePlayerTimedPenalty`, in the same way:
      Lightning strikes the game at once, any other penalty becomes the
      active one. */
  function PenaltyTicked(rules: Rules, p: PlayerState): (q: PlayerState)
  {
    if p.activePenalty.Some? then
      var k := p.activePenalty.value.Tick();
      p.(activePenalty := if k.IsFinished() then None else Some(k))
    else if |p.received| == 0 then p
    else p.(received := p.received[1..],
            activePenalty := if p.received[0] == Lightning then None else Some(MakePenalty(rules, p.received[0])))
  }

  /** An active bonus counts down one tick and is removed exactly when it
      has finished; a new bonus leaves the granted queue, and becomes the
      active one unless it is MiniTetrominoes; nothing else in the record
      changes. */
  lemma BonusTickedOutcome(rules: Rules, p: PlayerState)
    ensures var q := BonusTicked(rules, p);
            && q == p.(activeBonus := q.activeBonus, granted := q.granted)
            && (p.activeBonus.Some? ==>
                  && q.granted == p.granted
                  && (p.activeBonus.value.left <= 1 <==> q.activeBonus.None?)
                  && (p.activeBonus.value.left > 1 ==>
                        q.activeBonus == Some(Timed(p.activeBonus.value.kind, p.activeBonus.value.left - 1))))
            && (p.activeBonus.None? && |p.granted| > 0 ==>
                  && q.granted == p.granted[1..]
                  && (q.activeBonus.None? <==> FetchesMinis(p))
                  && (!FetchesMinis(p) ==> q.activeBonus == Some(MakeBonus(rules, p.granted[0]))))
            && (p.activeBonus.None? && |p.granted| == 0 ==> q == p)
  {
  }

  /** The same for penalties, with Lightning in place of MiniTetrominoes. */
  lemma PenaltyTickedOutcome(rules: Rules, p: PlayerState)
    ensures var q := PenaltyTicked(rules, p);
            && q == p.(activePenalty := q.activePenalty, received := q.received)
            && (p.activePenalty.Some? ==>
                  && q.received == p.received
                  && (p.activePenalty.value.left <= 1 <==> q.activePenalty.None?)
                  && (p.activePenalty.value.left > 1 ==>
                        q.activePenalty == Some(Timed(p.activePenalty.value.kind, p.activePenalty.value.left - 1))))
            && (p.activePenalty.None? && |p.received| > 0 ==>
                  && q.received == p.received[1..]
                  && (q.activePenalty.None? <==> FetchesLightning(p))
                  && (!FetchesLightning(p) ==> q.activePenalty == Some(MakePenalty(rules, p.received[0]))))
            && (p.activePenalty.None? && |p.received| == 0 ==> q == p)
  {
  }

  /** `handlePlayerTimedBonus` when the effect economy is on: the record
      as `BonusTicked` says, then the mini pieces when a MiniTetrominoes
      bonus was taken. */
  ghost function AfterTimedBonus(mode: GameMode, rules: Rules, w: World, sups: map<UserId, Supply>, id: UserId): (r: World)
    requires WorldOk(w, sups) && id in w.players
    ensures WorldOk(r, sups)
  {
    if !CheckFeatureEnabled(mode, Effects) then w
    else
      var p := w.players[id];
      WithPlayerOk(w, sups, id, BonusTicked(rules, p));
      var w1 := WithPlayer(w, id, BonusTicked(rules, p));
      if FetchesMinis(p) then AfterMiniTetrominoes(mode, w1, sups, id) else w1
  }

  /** `handlePlayerTimedPenalty` when the effect economy is on: the record
      as `PenaltyTicked` says, then the strike when a Lightning penalty was
      taken. */
  ghost function AfterTimedPenalty(mode: GameMode, rules: Rules, w: World, sups: map<UserId, Supply>, id: UserId, square: nat): (r: World)
    requires WorldOk(w, sups) && id in w.players
    ensures WorldOk(r, sups)
  {
    if !CheckFeatureEnabled(mode, Effects) then w
    else
      var p := w.players[id];
      WithPlayerOk(w, sups, id, PenaltyTicked(rules, p));
      var w1 := WithPlayer(w, id, PenaltyTicked(rules, p));
      if FetchesLightning(p) then AfterLightning(mode, w1, sups, id, square) else w1
  }

  /** The timed bonus changes only the player's own record, as
      `BonusTicked` says, and its game only for a MiniTetrominoes bonus,
      which puts exactly two mini pieces at the front of its queue. */
  lemma TimedBonusOutcome(mode: GameMode, rules: Rules, w: World, sups: map<UserId, Supply>, id: UserId)
    requires WorldOk(w, sups) && id in w.players && CheckFeatureEnabled(mode, Effects)
    ensures var p := w.players[id];
            var r := AfterTimedBonus(mode, rules, w, sups, id);
            && r.players == w.players[id := BonusTicked(rules, p)]
            && r.games == if FetchesMinis(p) then w.games[id := w.games[id].(front := [MiniTetromino, MiniTetromino] + w.games[id].front)]
                          else w.games
  {
    assert seq(NumMiniTetrominoes, _ => MiniTetromino) == [MiniTetromino, MiniTetromino];
  }

  /** The timed penalty changes only the player's own record, as
      `PenaltyTicked` says, and its game only for a Lightning penalty,
      which destroys one 2x2 square of its board. */
  lemma TimedPenaltyOutcome(mode: GameMode, rules: Rules, w: World, sups: map<UserId, Supply>, id: UserId, square: nat)
    requires WorldOk(w, sups) && id in w.players && CheckFeatureEnabled(mode, Effects)
    ensures var p := w.players[id];
            var r := AfterTimedPenalty(mode, rules, w, sups, id, square);
            && r.players == w.players[id := PenaltyTicked(rules, p)]
            && r.games == if FetchesLightning(p) then w.games[id := w.games[id].(rows := Destroyed2By2(w.games[id].rows, square))]
                          else w.games
  {
  }

  // ---------------------------------------------------------------------
  // Ticks

  /** `eventClockTick` on player id's game, with the number of rows it
      cleared. */
  ghost function ClockTicked(w: World, sups: map<UserId, Supply>, id: UserId): (r: (World, nat))
    requires WorldOk(w, sups) && id in w.players
    ensures WorldOk(r.0, sups) && r.1 <= Height && r.0 == WithGame(w, id, r.0.games[id])
  {
    GameOkAt(w, sups, id);
    var t := Ticked(w.games[id], sups[id]);
    TickOutcome(w.games[id], sups[id]);
    WithGameOk(w, sups, id, t.0);
    (WithGame(w, id, t.0), t.1)
  }

  /** `eventBigDrop` on player id's game, with the number of rows it
      cleared. */
  ghost function DropLocked(w: World, sups: map<UserId, Supply>, id: UserId): (r: (World, nat))
    requires WorldOk(w, sups) && id in w.players
    ensures WorldOk(r.0, sups) && r.1 <= Height && r.0 == WithGame(w, id, r.0.games[id])
  {
    GameOkAt(w, sups, id);
    var t := BigDropped(w.games[id], sups[id]);
    BigDropOutcome(w.games[id], sups[id]);
    WithGameOk(w, sups, id, t.0);
    (WithGame(w, id, t.0), t.1)
  }

  /** `tick(playerTetris)`: on a game tick not skipped by a SlowDown bonus
      the game's clock ticks and whatever it locks counts as a placement. */
  ghost function AfterGameTick(mode: GameMode, w: World, sups: map<UserId, Supply>, id: UserId, d: Draws): (r: World)
    requires WorldOk(w, sups) && id in w.players && DrawsOk(d)
    ensures WorldOk(r, sups)
  {
    if !d.gameTick || ShouldIgnoreTick(mode, w.players[id], d.skipTick) then w
    else
      var (w1, n) := ClockTicked(w, sups, id);
      AfterPlacement(mode, w1, sups, id, n, d.gaps)
  }

  /** What `tick()` does for one living player: its timed bonus, then its
      timed penalty, then its game tick. */
  ghost function AfterPlayerTick(mode: GameMode, rules: Rules, w: World, sups: map<UserId, Supply>, id: UserId, d: Draws): (r: World)
    requires WorldOk(w, sups) && id in w.players && DrawsOk(d)
    ensures WorldOk(r, sups)
  {
    var w1 := AfterTimedBonus(mode, rules, w, sups, id);
    var w2 := AfterTimedPenalty(mode, rules, w1, sups, id, d.square);
    AfterGameTick(mode, w2, sups, id, d)
  }

  /** `tick()` from the i-th player on: the players in identity order, each
      one handled only when it is alive at its turn (a player taken out by
      an earlier player's penalty rows in the same tick is skipped). */
  ghost function AfterTick(mode: GameMode, rules: Rules, w: World, sups: map<UserId, Supply>,
                           ids: seq<UserId>, i: nat, ds: UserId -> Draws): (r: World)
    requires WorldOk(w, sups) && i <= |ids| && (forall id :: id in ids ==> id in w.players)
    requires forall id :: DrawsOk(ds(id))
    ensures WorldOk(r, sups)
    decreases |ids| - i
  {
    if i == |ids| then w
    else
      var w1 := if IsAlive(w, ids[i]) then AfterPlayerTick(mode, rules, w, sups, ids[i], ds(ids[i])) else w;
      AfterTick(mode, rules, w1, sups, ids, i + 1, ds)
  }

  /** One step of `AfterTick`: the i-th player's turn, then the rest. */
  lemma TickUnfolds(mode: GameMode, rules: Rules, w: World, sups: map<UserId, Supply>,
                    ids: seq<UserId>, i: nat, ds: UserId -> Draws)
    requires WorldOk(w, sups) && i < |ids| && (forall id :: id in ids ==> id in w.players)
    requires forall id :: DrawsOk(ds(id))
    ensures var w1 := if IsAlive(w, ids[i]) then AfterPlayerTick(mode, rules, w, sups, ids[i], ds(ids[i])) else w;
            && w1.players.Keys == w.players.Keys
            && AfterTick(mode, rules, w, sups, ids, i, ds) == AfterTick(mode, rules, w1, sups, ids, i + 1, ds)
  {
  }

  /** Every player who is out in w has the same record and game in r. */
  ghost predicate DeadKept(w: World, r: World)
  {
    forall u :: u in w.players && u in w.games && !w.players[u].alive ==>
      u in r.players && r.players[u] == w.players[u] && u in r.games && r.games[u] == w.games[u]
  }

  /** Nobody who is out in w is alive in r. */
  ghost predicate NoRevival(w: World, r: World)
  {
    forall u :: u in r.players && r.players[u].alive ==> u in w.players && w.players[u].alive
  }

  lemma SparesChain(a: World, b: World, c: World)
    requires DeadKept(a, b) && NoRevival(a, b) && DeadKept(b, c) && NoRevival(b, c)
    ensures DeadKept(a, c) && NoRevival(a, c)
  {
  }

  /** A change of player id's record that keeps its `alive`, and of its
      game, leaves the players who are out as they were when id is alive. */
  lemma LocalChangeSpares(w: World, r: World, id: UserId)
    requires IsAlive(w, id) && id in w.games && id in r.players && id in r.games
    requires r.players == w.players[id := r.players[id]] && r.games == w.games[id := r.games[id]]
    requires r.players[id].alive
    ensures DeadKept(w, r) && NoRevival(w, r)
  {
  }

  /** A placement leaves every other player who is out as they were, and
      brings nobody back. */
  lemma PlacementSpares(mode: GameMode, w: World, sups: map<UserId, Supply>, id: UserId, n: nat, gaps: seq<GapColumn>)
    requires WorldOk(w, sups) && id in w.players && n <= Height && |gaps| == Height
    ensures var r := AfterPlacement(mode, w, sups, id, n, gaps);
            && NoRevival(w, r)
            && forall u :: u in w.players && u != id && !w.players[u].alive ==>
                 r.players[u] == w.players[u] && r.games[u] == w.games[u]
  {
    RowsSentSpares(mode, w, sups, id, n, gaps);
  }

  lemma RowsSentSpares(mode: GameMode, w: World, sups: map<UserId, Supply>, id: UserId, n: nat, gaps: seq<GapColumn>)
    requires WorldOk(w, sups) && id in w.players && n <= Height && |gaps| == Height
    ensures var r := RowsSent(mode, w, sups, id, n, gaps);
            && NoRevival(w, r)
            && forall u :: u in w.players && !w.players[u].alive ==>
                 r.players[u] == w.players[u] && r.games[u] == w.games[u]
  {
    var p := w.players[id];
    if SendsRows(mode, w, p, n) {
      PenaltyRowsOutcome(w, sups, p.target.value, gaps[..n - 1]);
    }
  }

  /** A game event of an alive player leaves the players who are out as
      they were, and brings nobody back. */
  lemma GameEndSpares(w: World, id: UserId, g: Play)
    requires IsAlive(w, id) && id in w.games
    ensures DeadKept(w, WithGame(w, id, g)) && NoRevival(w, WithGame(w, id, g))
  {
  }

  lemma GameTickSpares(mode: GameMode, w: World, sups: map<UserId, Supply>, id: UserId, d: Draws)
    requires WorldOk(w, sups) && IsAlive(w, id) && DrawsOk(d)
    ensures var r := AfterGameTick(mode, w, sups, id, d);
            DeadKept(w, r) && NoRevival(w, r)
  {
    if d.gameTick && !ShouldIgnoreTick(mode, w.players[id], d.skipTick) {
      var (w1, n) := ClockTicked(w, sups, id);
      GameEndSpares(w, id, w1.games[id]);
      PlacementSpares(mode, w1, sups, id, n, d.gaps);
    }
  }

  lemma BonusSpares(mode: GameMode, rules: Rules, w: World, sups: map<UserId, Supply>, id: UserId)
    requires WorldOk(w, sups) && IsAlive(w, id)
    ensures var r := AfterTimedBonus(mode, rules, w, sups, id);
            DeadKept(w, r) && NoRevival(w, r) && IsAlive(r, id)
  {
    if CheckFeatureEnabled(mode, Effects) {
      TimedBonusOutcome(mode, rules, w, sups, id);
      BonusTickedOutcome(rules, w.players[id]);
      LocalChangeSpares(w, AfterTimedBonus(mode, rules, w, sups, id), id);
    }
  }

  lemma PenaltySpares(mode: GameMode, rules: Rules, w: World, sups: map<UserId, Supply>, id: UserId, square: nat)
    requires WorldOk(w, sups) && IsAlive(w, id)
    ensures var r := AfterTimedPenalty(mode, rules, w, sups, id, square);
            DeadKept(w, r) && NoRevival(w, r) && IsAlive(r, id)
  {
    if CheckFeatureEnabled(mode, Effects) {
      TimedPenaltyOutcome(mode, rules, w, sups, id, square);
      PenaltyTickedOutcome(rules, w.players[id]);
      LocalChangeSpares(w, AfterTimedPenalty(mode, rules, w, sups, id, square), id);
    }
  }

  /** A player's tick leaves every player who is out as they were and
      brings nobody back. */
  lemma PlayerTickSpares(mode: GameMode, rules: Rules, w: World, sups: map<UserId, Supply>, id: UserId, d: Draws)
    requires WorldOk(w, sups) && IsAlive(w, id) && DrawsOk(d)
    ensures var r := AfterPlayerTick(mode, rules, w, sups, id, d);
            DeadKept(w, r) && NoRevival(w, r)
  {
    var w1 := AfterTimedBonus(mode, rules, w, sups, id);
    BonusSpares(mode, rules, w, sups, id);
    var w2 := AfterTimedPenalty(mode, rules, w1, sups, id, d.square);
    PenaltySpares(mode, rules, w1, sups, id, d.square);
    GameTickSpares(mode, w2, sups, id, d);
    SparesChain(w, w1, w2);
    SparesChain(w, w2, AfterGameTick(mode, w2, sups, id, d));
  }

  /** An engine tick leaves every player who is out as they were (the
      lazily filtered loop skips them) and brings nobody back. */
  lemma {:induction false} TickSparesDead(mode: GameMode, rules: Rules, w: World, sups: map<UserId, Supply>,
                                          ids: seq<UserId>, i: nat, ds: UserId -> Draws)
    requires WorldOk(w, sups) && i <= |ids| && (forall id :: id in ids ==> id in w.players)
    requires forall id :: DrawsOk(ds(id))
    ensures var r := AfterTick(mode, rules, w, sups, ids, i, ds);
            DeadKept(w, r) && NoRevival(w, r)
    decreases |ids| - i
  {
    if i < |ids| {
      if IsAlive(w, ids[i]) {
        var w1 := AfterPlayerTick(mode, rules, w, sups, ids[i], ds(ids[i]));
        PlayerTickSpares(mode, rules, w, sups, ids[i], ds(ids[i]));
        TickSparesDead(mode, rules, w1, sups, ids, i + 1, ds);
        SparesChain(w, w1, AfterTick(mode, rules, w1, sups, ids, i + 1, ds));
      } else {
        TickSparesDead(mode, rules, w, sups, ids, i + 1, ds);
      }
    }
  }

  // ---------------------------------------------------------------------
  // Commands of a player

  /** A command of player u reaches its game: u is alive and no InputLock
      penalty is active. */
  ghost predicate TakesInput(mode: GameMode, w: World, u: UserId)
  {
    IsAlive(w, u) && !ShouldLockInput(mode, w.players[u])
  }

  /** `tryMoveActive`: the move, left and right swapped under a
      ReverseControls penalty. */
  ghost function AfterMove(mode: GameMode, w: World, sups: map<UserId, Supply>, u: UserId, m: Move): (r: World)
    requires WorldOk(w, sups)
    ensures WorldOk(r, sups)
  {
    if !TakesInput(mode, w, u) then w
    else
      var m' := if ShouldReverseControls(mode, w.players[u]) then InvertTetrominoMove(m) else m;
      GameOkAt(w, sups, u);
      ControlsKeepConsistent(w.games[u], sups[u], m', true);
      WithPlayOk(w, sups, u, TriedMove(w.games[u], m'));
      WithPlay(w, u, TriedMove(w.games[u], m'))
  }

  /** `tryRotateActive`: the rotation, its direction flipped under a
      ReverseControls penalty. */
  ghost function AfterRotate(mode: GameMode, w: World, sups: map<UserId, Supply>, u: UserId, clockwise: bool): (r: World)
    requires WorldOk(w, sups)
    ensures WorldOk(r, sups)
  {
    if !TakesInput(mode, w, u) then w
    else
      var cw := if ShouldReverseControls(mode, w.players[u]) then !clockwise else clockwise;
      GameOkAt(w, sups, u);
      ControlsKeepConsistent(w.games[u], sups[u], Down, cw);
      WithPlayOk(w, sups, u, TriedRotate(w.games[u], cw));
      WithPlay(w, u, TriedRotate(w.games[u], cw))
  }

  /** `holdActiveTetromino`. */
  ghost function AfterHold(mode: GameMode, w: World, sups: map<UserId, Supply>, u: UserId): (r: World)
    requires WorldOk(w, sups)
    ensures WorldOk(r, sups)
  {
    if !TakesInput(mode, w, u) then w
    else
      GameOkAt(w, sups, u);
      HeldTwice(w.games[u], sups[u]);
      WithPlayOk(w, sups, u, Held(w.games[u], sups[u]));
      WithPlay(w, u, Held(w.games[u], sups[u]))
  }

  /** `bigDrop`: the piece drops and locks, and whatever it clears counts
      as a placement. */
  ghost function AfterBigDrop(mode: GameMode, w: World, sups: map<UserId, Supply>, u: UserId, gaps: seq<GapColumn>): (r: World)
    requires WorldOk(w, sups) && |gaps| == Height
    ensures WorldOk(r, sups)
  {
    if !TakesInput(mode, w, u) then w
    else
      var (w1, n) := DropLocked(w, sups, u);
      AfterPlacement(mode, w1, sups, u, n, gaps)
  }

  /** `quitGame`: a player in the match is out of it. */
  function AfterQuit(w: World, u: UserId): (r: World)
  {
    if u in w.players then WithPlayer(w, u, w.players[u].(alive := false)) else w
  }

  /** A command of a player who is out or under an InputLock penalty
      changes nothing. */
  lemma CommandsGated(mode: GameMode, w: World, sups: map<UserId, Supply>, u: UserId,
                      m: Move, clockwise: bool, gaps: seq<GapColumn>)
    requires WorldOk(w, sups) && |gaps| == Height && !TakesInput(mode, w, u)
    ensures AfterMove(mode, w, sups, u, m) == w && AfterRotate(mode, w, sups, u, clockwise) == w
    ensures AfterHold(mode, w, sups, u) == w && AfterBigDrop(mode, w, sups, u, gaps) == w
  {
  }

  /** Under ReverseControls the inverted command does what the command
      does otherwise: a move inverted back, a rotation the other way. Only
      the player's own game changes, and no record. */
  lemma ReversedControlsOutcome(mode: GameMode, w: World, sups: map<UserId, Supply>, u: UserId, m: Move, clockwise: bool)
    requires WorldOk(w, sups) && TakesInput(mode, w, u) && ShouldReverseControls(mode, w.players[u])
    ensures var r := AfterMove(mode, w, sups, u, InvertTetrominoMove(m));
            r.players == w.players && r.games == w.games[u := TriedMove(w.games[u], m)]
    ensures var r := AfterRotate(mode, w, sups, u, !clockwise);
            r.players == w.players && r.games == w.games[u := TriedRotate(w.games[u], clockwise)]
  {
    InvertIsInvolution(m);
  }

  /** Quitting takes a player in the match out of it for good and touches
      nothing else; quitting twice is quitting once. */
  lemma QuitOutcome(w: World, u: UserId)
    ensures var r := AfterQuit(w, u);
            && r.games == w.games && r.players.Keys == w.players.Keys
            && (u in w.players ==> !r.players[u].alive && r.players[u] == w.players[u].(alive := false))
            && (forall v :: v in w.players && v != u ==> r.players[v] == w.players[v])
            && AfterQuit(r, u) == r
  {
  }

  // ---------------------------------------------------------------------
  // The effect economy

  /** The snapshot differs at most in the players' records, each still
      under its player's identity. */
  ghost predicate RecordsOnly(w: World, r: World)
  {
    && r.games == w.games && r.players.Keys == w.players.Keys
    && forall u :: u in r.players ==> r.players[u].userId == w.players[u].userId
  }

  lemma RecordsOnlyOk(w: World, r: World, sups: map<UserId, Supply>)
    requires WorldOk(w, sups) && RecordsOnly(w, r)
    ensures WorldOk(r, sups)
  {
  }

  /** `sendPenaltyEffect` for each penalty of ks in turn: they join the end
      of t's received penalties. */
  function SentAll(w: World, t: UserId, ks: seq<PenaltyType>): (r: World)
    requires t in w.players
    ensures RecordsOnly(w, r)
  {
    WithPlayer(w, t, w.players[t].(received := w.players[t].received + ks))
  }

  /** `sendPenaltyEffect` of penalty k from a sender whose record is p:
      nothing happens without the effect economy; it fails when p has no
      target or the target is not in the match; otherwise k joins the end
      of the target's received penalties. */
  function AfterPenaltyEffect(mode: GameMode, w: World, p: PlayerState, k: PenaltyType): (r: Result<World>)
    ensures r.Ok? ==> RecordsOnly(w, r.value)
    ensures r.Err? <==> CheckFeatureEnabled(mode, Effects) && (p.target.None? || p.target.value !in w.players)
  {
    if !CheckFeatureEnabled(mode, Effects) then Ok(w)
    else if p.target.None? then Err("sendPenaltyEffect: no target selected")
    else if p.target.value !in w.players then Err("sendPenaltyEffect: penalty target not found")
    else Ok(SentAll(w, p.target.value, [k]))
  }

  /** Sending penalties changes nobody's target. */
  lemma SentAllKeepsTargets(w: World, t: UserId, ks: seq<PenaltyType>, u: UserId)
    requires t in w.players && u in w.players
    ensures u in SentAll(w, t, ks).players && SentAll(w, t, ks).players[u].target == w.players[u].target
  {
  }

  /** Sending no penalty changes nothing. */
  lemma SentNothing(w: World, t: UserId)
    requires t in w.players
    ensures SentAll(w, t, []) == w
  {
    assert w.players[t].received + [] == w.players[t].received;
    assert w.players[t := w.players[t]] == w.players;
  }

  /** Sending penalties one after the other is sending them together. */
  lemma SentAllStep(w: World, t: UserId, ks: seq<PenaltyType>, i: nat)
    requires t in w.players && i < |ks|
    ensures SentAll(SentAll(w, t, ks[..i]), t, [ks[i]]) == SentAll(w, t, ks[..i + 1])
  {
    assert ks[..i] + [ks[i]] == ks[..i + 1];
    assert w.players[t].received + ks[..i] + [ks[i]] == w.players[t].received + ks[..i + 1];
  }

  /** `checkCanBuyEffect`. */
  predicate CanBuyEffect(mode: GameMode, rules: Rules, p: PlayerState, e: EffectType)
  {
    CheckFeatureEnabled(mode, Effects) && p.energy >= rules.price(e)
  }

  /** The buyer has an alive target to send a penalty to. */
  ghost predicate HasLiveTarget(w: World, p: PlayerState)
  {
    p.target.Some? && IsAlive(w, p.target.value)
  }

  /** A purchase goes through: the effect economy is on, the buyer is alive
      and can pay, and it is not a bonus the buyer asked to stash. */
  ghost predicate Buys(mode: GameMode, rules: Rules, w: World, buyer: UserId, e: EffectType, stash: bool)
  {
    && CheckFeatureEnabled(mode, Effects) && IsAlive(w, buyer)
    && CanBuyEffect(mode, rules, w.players[buyer], e)
    && !(e.Bonus? && stash)
  }

  /** `tryBuyEffect`: a bonus is granted to the buyer; a penalty goes to
      the buyer's stash when asked or when there is no alive target, and to
      the target otherwise; then the price is paid. */
  ghost function AfterBuy(mode: GameMode, rules: Rules, w: World, buyer: UserId, e: EffectType, stash: bool): (r: World)
    ensures RecordsOnly(w, r)
  {
    if !Buys(mode, rules, w, buyer, e, stash) then w
    else
      var w1 := Delivered(w, buyer, e, stash);
      var q := w1.players[buyer];
      WithPlayer(w1, buyer, q.(energy := q.energy - rules.price(e)))
  }

  /** The effect of a purchase that goes through, before the price is paid. */
  ghost function Delivered(w: World, buyer: UserId, e: EffectType, stash: bool): (r: World)
    requires buyer in w.players
    ensures RecordsOnly(w, r) && r.players[buyer].energy == w.players[buyer].energy
  {
    var p := w.players[buyer];
    if e.Bonus? then WithPlayer(w, buyer, p.(granted := p.granted + [e.bonus]))
    else if stash || !HasLiveTarget(w, p) then WithPlayer(w, buyer, p.(stash := p.stash + [e.penalty]))
    else SentAll(w, p.target.value, [e.penalty])
  }

  /** The two steps of a purchase that goes through: the delivery (giving
      w1), then the payment. */
  lemma BuySteps(mode: GameMode, rules: Rules, w: World, buyer: UserId, e: EffectType, stash: bool,
                  w1: World, q: PlayerState, v: World)
    requires Buys(mode, rules, w, buyer, e, stash) && w1 == Delivered(w, buyer, e, stash)
    requires q == w1.players[buyer] && q.energy >= rules.price(e)
    requires v == WithPlayer(w1, buyer, q.(energy := q.energy - rules.price(e)))
    ensures v == AfterBuy(mode, rules, w, buyer, e, stash)
  {
  }

  /** A refused purchase changes nothing; one that goes through takes
      exactly the price from the buyer's energy and delivers the effect:
      a bonus at the end of the buyer's granted bonuses, a penalty at the
      end of the buyer's stash or of the target's received penalties. */
  lemma BuyOutcome(mode: GameMode, rules: Rules, w: World, buyer: UserId, e: EffectType, stash: bool)
    ensures !Buys(mode, rules, w, buyer, e, stash) ==> AfterBuy(mode, rules, w, buyer, e, stash) == w
    ensures var r := AfterBuy(mode, rules, w, buyer, e, stash);
            && (Buys(mode, rules, w, buyer, e, stash) ==>
                  var p := w.players[buyer];
                  && r.players[buyer].energy == p.energy - rules.price(e)
                  && r.players[buyer].alive && r.players[buyer].target == p.target
                  && (e.Bonus? ==> r.players[buyer].granted == p.granted + [e.bonus])
                  && (e.Penalty? && (stash || !HasLiveTarget(w, p)) ==>
                        && r.players[buyer].stash == p.stash + [e.penalty]
                        && r.players == w.players[buyer := r.players[buyer]])
                  && (e.Penalty? && !stash && HasLiveTarget(w, p) ==>
                        && r.players[p.target.value].received == w.players[p.target.value].received + [e.penalty]
                        && r.players[buyer].stash == p.stash))
            && (forall u :: u in w.players ==> (r.players[u].alive <==> w.players[u].alive))
  {
  }

  /** A penalty bought while the buyer has no alive target is always
      stashed, whatever the buyer asked for; nothing reaches anybody else. */
  lemma PenaltyWithoutTargetIsStashed(mode: GameMode, rules: Rules, w: World, buyer: UserId, k: PenaltyType, stash: bool)
    requires Buys(mode, rules, w, buyer, Penalty(k), stash) && !HasLiveTarget(w, w.players[buyer])
    ensures var r := AfterBuy(mode, rules, w, buyer, Penalty(k), stash);
            && r.players[buyer].stash == w.players[buyer].stash + [k]
            && forall u :: u in w.players && u != buyer ==> r.players[u] == w.players[u]
  {
  }

  /** `selectTarget`: with target selection on and both players alive, t
      becomes u's target. */
  ghost function AfterSelectTarget(mode: GameMode, w: World, u: UserId, t: UserId): (r: World)
    ensures RecordsOnly(w, r)
  {
    if CheckFeatureEnabled(mode, SelectPenaltyTarget) && IsAlive(w, u) && IsAlive(w, t)
    then WithPlayer(w, u, w.players[u].(target := Some(t)))
    else w
  }

  /** A refused selection changes nothing; an allowed one makes t, an
      alive player, u's target, and changes nothing else. */
  lemma SelectTargetOutcome(mode: GameMode, w: World, u: UserId, t: UserId)
    ensures var r := AfterSelectTarget(mode, w, u, t);
            if CheckFeatureEnabled(mode, SelectPenaltyTarget) && IsAlive(w, u) && IsAlive(w, t) then
              && r.players[u].target == Some(t) && IsAlive(r, t) && IsAlive(r, u)
              && r.players[u] == w.players[u].(target := r.players[u].target)
              && forall v :: v in w.players && v != u ==> r.players[v] == w.players[v]
            else r == w
  {
  }

  /** `emptyPenaltyStash` sends something: the effect economy is on and u
      is alive with an alive target. */
  ghost predicate EmptiesStash(mode: GameMode, w: World, u: UserId)
  {
    CheckFeatureEnabled(mode, Effects) && IsAlive(w, u) && HasLiveTarget(w, w.players[u])
  }

  /** `emptyPenaltyStash` as written: every stashed penalty is sent to the
      target in order, from a copy of the stash, and the stash itself is
      left as it was. */
  ghost function AfterEmptyStashAsWritten(mode: GameMode, w: World, u: UserId): (r: World)
    ensures RecordsOnly(w, r)
  {
    if EmptiesStash(mode, w, u) then SentAll(w, w.players[u].target.value, w.players[u].stash) else w
  }

  /** As written, a second request sends the same penalties again: the
      target receives the stash twice, and the second call changes the
      snapshot whenever the stash is not empty. */
  lemma StashResentAsWritten(mode: GameMode, w: World, u: UserId)
    requires EmptiesStash(mode, w, u)
    ensures var t := w.players[u].target.value;
            var ks := w.players[u].stash;
            var once := AfterEmptyStashAsWritten(mode, w, u);
            var twice := AfterEmptyStashAsWritten(mode, once, u);
            && twice.players[t].received == w.players[t].received + ks + ks
            && (|ks| > 0 ==> twice != once)
  {
    var t := w.players[u].target.value;
    var ks := w.players[u].stash;
    var once := AfterEmptyStashAsWritten(mode, w, u);
    assert once.players[u].stash == ks && once.players[u].target == w.players[u].target;
    assert EmptiesStash(mode, once, u);
    if |ks| > 0 {
      assert |AfterEmptyStashAsWritten(mode, once, u).players[t].received| > |once.players[t].received|;
    }
  }

  /** `emptyPenaltyStash` as intended: the stashed penalties are sent to
      the target in order and the stash is empty afterwards. */
  ghost function AfterEmptyStash(mode: GameMode, w: World, u: UserId): (r: World)
    ensures RecordsOnly(w, r)
  {
    if EmptiesStash(mode, w, u) then
      var w1 := SentAll(w, w.players[u].target.value, w.players[u].stash);
      WithPlayer(w1, u, w1.players[u].(stash := []))
    else w
  }

  /** Emptying the stash delivers it once, oldest first, to the end of the
      target's received penalties and leaves it empty; asking again
      changes nothing; when the request is refused nothing changes. */
  lemma EmptyStashOutcome(mode: GameMode, w: World, u: UserId)
    ensures !EmptiesStash(mode, w, u) ==> AfterEmptyStash(mode, w, u) == w
    ensures EmptiesStash(mode, w, u) ==>
              var t := w.players[u].target.value;
              var r := AfterEmptyStash(mode, w, u);
              && r.players[u].stash == []
              && r.players[t].received == w.players[t].received + w.players[u].stash
              && forall v :: v in w.players && v != u && v != t ==> r.players[v] == w.players[v]
  {
  }

  /** Asking to empty the stash a second time changes nothing. */
  lemma EmptyStashIdempotent(mode: GameMode, w: World, u: UserId)
    ensures AfterEmptyStash(mode, AfterEmptyStash(mode, w, u), u) == AfterEmptyStash(mode, w, u)
  {
    if EmptiesStash(mode, w, u) {
      var r := AfterEmptyStash(mode, w, u);
      var t := w.players[u].target.value;
      if EmptiesStash(mode, r, u) {
        assert r.players[t].received + [] == r.players[t].received;
        assert SentAll(r, t, []) == r;
      }
    }
  }

  // ---------------------------------------------------------------------
  // Winner and end of the match

  /** `getWinner` of the engine: none in Endless mode and none while
      several players are alive, otherwise the one alive player; the
      source asserts that somebody is alive, and the model returns an
      error when nobody is. */
  ghost function EngineWinner(mode: GameMode, ids: seq<UserId>, players: map<UserId, PlayerState>): Result<Option<UserId>>
    requires forall id :: id in ids ==> id in players
  {
    if mode == Endless then Ok(None)
    else
      var a := AliveIds(ids, players);
      if |a| == 0 then Err("getWinner: no player is alive")
      else if |a| > 1 then Ok(None)
      else Ok(Some(a[0]))
  }

  /** The engine's winner is the sole survivor; it fails exactly when the
      mode is not Endless and nobody is alive, and otherwise agrees with
      the match's own `Winner`. */
  lemma EngineWinnerIsSoleSurvivor(mode: GameMode, ids: seq<UserId>, players: map<UserId, PlayerState>, x: UserId)
    requires forall id :: id in ids ==> id in players
    requires Increasing(ids)
    ensures EngineWinner(mode, ids, players).Err? <==>
              mode != Endless && forall y :: y in ids ==> !players[y].alive
    ensures EngineWinner(mode, ids, players) == Ok(Some(x)) <==>
              && mode != Endless && x in ids && players[x].alive
              && forall y :: y in ids && players[y].alive ==> y == x
    ensures EngineWinner(mode, ids, players).Ok? ==> EngineWinner(mode, ids, players).value == Winner(mode, ids, players)
  {
    WinnerIsSoleSurvivor(mode, ids, players, x);
    var a := AliveIds(ids, players);
    if mode != Endless && |a| > 0 {
      assert a[0] in a;
    }
  }

  /** `gameIsFinished`: in Endless mode, whether the first (and only)
      player is out, an error when there is no player; in the other modes,
      whether there is a winner. */
  ghost function Finished(mode: GameMode, ids: seq<UserId>, players: map<UserId, PlayerState>): Result<bool>
    requires forall id :: id in ids ==> id in players
  {
    if mode == Endless then
      if |ids| == 0 then Err("gameIsFinished: no player") else Ok(!players[ids[0]].alive)
    else
      match EngineWinner(mode, ids, players)
      case Err(m) => Err(m)
      case Ok(o) => Ok(o.Some?)
  }

  /** Outside Endless mode the match is finished exactly when one player
      alone is alive; in Endless mode exactly when the first player is out. */
  lemma FinishedIffSoleSurvivor(mode: GameMode, ids: seq<UserId>, players: map<UserId, PlayerState>)
    requires forall id :: id in ids ==> id in players
    requires Increasing(ids)
    ensures mode != Endless ==>
              (Finished(mode, ids, players) == Ok(true) <==>
                 exists x :: x in ids && players[x].alive && forall y :: y in ids && players[y].alive ==> y == x)
    ensures mode == Endless && |ids| > 0 ==> (Finished(mode, ids, players) == Ok(true) <==> !players[ids[0]].alive)
  {
    if mode != Endless {
      var a := AliveIds(ids, players);
      if Finished(mode, ids, players) == Ok(true) {
        EngineWinnerIsSoleSurvivor(mode, ids, players, a[0]);
      }
      if exists x :: x in ids && players[x].alive && forall y :: y in ids && players[y].alive ==> y == x {
        var x :| x in ids && players[x].alive && forall y :: y in ids && players[y].alive ==> y == x;
        EngineWinnerIsSoleSurvivor(mode, ids, players, x);
      }
    }
  }

  // ---------------------------------------------------------------------
  // The engine object

  /** `GameEngine`: the rules of a match applied to its state, which the
      engine shares with the server. */
  class GameEngine {
    const game: GameState
    const rules: Rules

    constructor (game: GameState, rules: Rules)
      ensures this.game == game && this.rules == rules
    {
      this.game := game;
      this.rules := rules;
    }

    /** What the observers of player id's game do when it is lost: the
        player is out of the match. */
    method NotifyLoss(id: UserId)
      requires game.Valid() && id in game.players
      modifies game
      ensures game.Valid() && game.View() == WithGame(old(game.View()), id, old(game.View()).games[id])
    {
      ghost var w := game.View();
      LossNoticed(w, id);
      assert w.games[id] == game.tetrises[id].View();
      var p := game.players[id];
      if !game.tetrises[id].alive {
        game.SetPlayer(id, p.(alive := false));
      }
    }

    /** `eventReceivePenaltyRows` on player t's game. */
    method ReceivePenaltyRows(t: UserId, gaps: seq<GapColumn>)
      requires game.Valid() && t in game.players && 1 <= |gaps| <= Height
      modifies game.Repr
      ensures game.Valid()
      ensures game.View() == WithPlay(old(game.View()), t, PenaltyReceived(old(game.View()).games[t], gaps))
    {
      game.tetrises[t].EventReceivePenaltyRows(gaps);
      game.OneGameValid(t);
      game.OneGameShown(t);
    }

    /** `sendPenaltyRows` to player t, whose game may be lost for it. */
    method SendPenaltyRows(t: UserId, gaps: seq<GapColumn>)
      requires game.Valid() && t in game.players && 1 <= |gaps| <= Height
      modifies game, game.Repr
      ensures game.Valid() && game.View() == AfterPenaltyRows(old(game.View()), game.Supplies(), t, gaps)
    {
      ghost var w := game.View();
      ghost var g := PenaltyReceived(w.games[t], gaps);
      ReceivePenaltyRows(t, gaps);
      NotifyLoss(t);
      PlayThenLoss(w, t, g);
    }

    /** `eventClockTick` on player id's game. */
    method ClockTickEvent(id: UserId) returns (n: nat)
      requires game.Valid() && id in game.players && game.tetrises[id].Valid()
      modifies game.Repr
      ensures game.Valid()
      ensures (game.tetrises[id].View(), n) == Ticked(old(game.tetrises[id].View()), game.tetrises[id].supply)
      ensures game.View() == WithPlay(old(game.View()), id, game.tetrises[id].View())
    {
      n := game.tetrises[id].EventClockTick();
      game.OneGameValid(id);
      game.OneGameShown(id);
    }

    /** The clock tick of player id's game and its notification. */
    method ClockTick(id: UserId) returns (n: nat)
      requires game.Valid() && id in game.players
      modifies game, game.Repr
      ensures game.Valid() && (game.View(), n) == ClockTicked(old(game.View()), game.Supplies(), id)
    {
      ghost var w := game.View();
      assert game.tetrises[id].Valid();
      n := ClockTickEvent(id);
      ghost var g := game.tetrises[id].View();
      NotifyLoss(id);
      PlayThenLoss(w, id, g);
    }

    /** `eventBigDrop` on player id's game. */
    method BigDropEvent(id: UserId) returns (n: nat)
      requires game.Valid() && id in game.players && game.tetrises[id].Valid()
      modifies game.Repr
      ensures game.Valid()
      ensures (game.tetrises[id].View(), n) == BigDropped(old(game.tetrises[id].View()), game.tetrises[id].supply)
      ensures game.View() == WithPlay(old(game.View()), id, game.tetrises[id].View())
    {
      n := game.tetrises[id].EventBigDrop();
      game.OneGameValid(id);
      game.OneGameShown(id);
    }

    /** The big drop in player id's game and its notification. */
    method DropAndLock(id: UserId) returns (n: nat)
      requires game.Valid() && id in game.players
      modifies game, game.Repr
      ensures game.Valid() && (game.View(), n) == DropLocked(old(game.View()), game.Supplies(), id)
    {
      ghost var w := game.View();
      assert game.tetrises[id].Valid();
      n := BigDropEvent(id);
      ghost var g := game.tetrises[id].View();
      NotifyLoss(id);
      PlayThenLoss(w, id, g);
    }

    /** `onTetrominoPlaced`. */
    method OnTetrominoPlaced(id: UserId, n: nat, gaps: seq<GapColumn>)
      requires game.Valid() && id in game.players && n <= Height && |gaps| == Height
      modifies game, game.Repr
      ensures game.Valid() && game.View() == AfterPlacement(game.mode, old(game.View()), game.Supplies(), id, n, gaps)
    {
      ghost var w := game.View();
      var p := game.players[id];
      if CheckFeatureEnabled(game.mode, PenaltyRows) && p.target.Some?
         && p.target.value in game.players && game.players[p.target.value].alive && n >= 2 {
        SendPenaltyRows(p.target.value, gaps[..n - 1]);
      }
      assert game.View() == RowsSent(game.mode, w, game.Supplies(), id, n, gaps);
      var q := game.players[id];
      game.SetPlayer(id, Credited(game.mode, q, n));
    }

    /** `tick(playerTetris)`: see `AfterGameTick`; `d` carries the pacing
        and the random draws of this tick. */
    method TickGame(id: UserId, d: Draws)
      requires game.Valid() && id in game.players && DrawsOk(d)
      modifies game, game.Repr
      ensures game.Valid() && game.View() == AfterGameTick(game.mode, old(game.View()), game.Supplies(), id, d)
    {
      if !d.gameTick {
        return;
      }
      if CheckFeatureEnabled(game.mode, Effects) && ShouldIgnoreTick(game.mode, game.players[id], d.skipTick) {
        return;
      }
      var n := ClockTick(id);
      OnTetrominoPlaced(id, n, d.gaps);
    }

    /** `handleMiniTetrominoes`: two mini pieces pushed at the front of the
        queue, one after the other. */
    method HandleMiniTetrominoes(id: UserId)
      requires game.Valid() && id in game.players
      modifies game.Repr
      ensures game.Valid() && game.View() == AfterMiniTetrominoes(game.mode, old(game.View()), game.Supplies(), id)
    {
      if !CheckFeatureEnabled(game.mode, Effects) {
        return;
      }
      var t := game.tetrises[id];
      assert t.Valid();
      ghost var v := t.View();
      for i := 0 to NumMiniTetrominoes
        invariant t.Valid() && t.View() == WithMinis(v, i)
        invariant unchanged(game.Repr - {t, t.board.grid})
      {
        InsertedMini(v, i);
        t.InsertNextTetromino(MiniTetromino);
      }
      game.OneGameValid(id);
      game.OneGameShown(id);
    }

    /** `handleLightning`: see `AfterLightning`. */
    method HandleLightning(id: UserId, square: nat)
      requires game.Valid() && id in game.players && square <= Height * Width
      modifies game.Repr
      ensures game.Valid() && game.View() == AfterLightning(game.mode, old(game.View()), game.Supplies(), id, square)
    {
      if !CheckFeatureEnabled(game.mode, Effects) {
        return;
      }
      assert game.tetrises[id].Valid();
      game.tetrises[id].Destroy2By2Occupied(square);
      game.OneGameValid(id);
      game.OneGameShown(id);
    }

    /** `handlePlayerTimedBonus`: see `AfterTimedBonus`. */
    method HandlePlayerTimedBonus(id: UserId)
      requires game.Valid() && id in game.players
      modifies game, game.Repr
      ensures game.Valid() && game.View() == AfterTimedBonus(game.mode, rules, old(game.View()), game.Supplies(), id)
    {
      if !CheckFeatureEnabled(game.mode, Effects) {
        return;
      }
      ghost var w := game.View();
      var p := game.players[id];
      ghost var w1 := WithPlayer(w, id, BonusTicked(rules, p));
      if p.activeBonus.Some? {
        var b := p.activeBonus.value.Tick();
        game.SetPlayer(id, p.(activeBonus := if b.IsFinished() then None else Some(b)));
        assert game.View() == w1;
      } else if |p.granted| > 0 {
        var kind := p.granted[0];
        if kind == MiniTetrominoes {
          game.SetPlayer(id, p.(granted := p.granted[1..]));
          assert game.View() == w1;
          HandleMiniTetrominoes(id);
        } else {
          game.SetPlayer(id, p.(granted := p.granted[1..], activeBonus := Some(MakeBonus(rules, kind))));
          assert game.View() == w1;
        }
      } else {
        assert w.players[id := p] == w.players;
      }
    }

    /** `handlePlayerTimedPenalty`: see `AfterTimedPenalty`. */
    method HandlePlayerTimedPenalty(id: UserId, square: nat)
      requires game.Valid() && id in game.players && square <= Height * Width
      modifies game, game.Repr
      ensures game.Valid() && game.View() == AfterTimedPenalty(game.mode, rules, old(game.View()), game.Supplies(), id, square)
    {
      if !CheckFeatureEnabled(game.mode, Effects) {
        return;
      }
      ghost var w := game.View();
      var p := game.players[id];
      ghost var w1 := WithPlayer(w, id, PenaltyTicked(rules, p));
      if p.activePenalty.Some? {
        var k := p.activePenalty.value.Tick();
        game.SetPlayer(id, p.(activePenalty := if k.IsFinished() then None else Some(k)));
        assert game.View() == w1;
      } else if |p.received| > 0 {
        var kind := p.received[0];
        if kind == Lightning {
          game.SetPlayer(id, p.(received := p.received[1..]));
          assert game.View() == w1;
          HandleLightning(id, square);
        } else {
          game.SetPlayer(id, p.(received := p.received[1..], activePenalty := Some(MakePenalty(rules, kind))));
          assert game.View() == w1;
        }
      } else {
        assert w.players[id := p] == w.players;
      }
    }

    /** `handlePlayerTimedEffect`: the timed bonus, then the timed penalty. */
    method HandlePlayerTimedEffect(id: UserId, square: nat)
      requires game.Valid() && id in game.players && square <= Height * Width
      modifies game, game.Repr
      ensures game.Valid()
      ensures game.View() == AfterTimedPenalty(game.mode, rules, AfterTimedBonus(game.mode, rules, old(game.View()), game.Supplies(), id),
                                               game.Supplies(), id, square)
    {
      if !CheckFeatureEnabled(game.mode, Effects) {
        return;
      }
      HandlePlayerTimedBonus(id);
      HandlePlayerTimedPenalty(id, square);
    }

    /** What `tick()` does for one living player: see `AfterPlayerTick`. */
    method TickPlayer(id: UserId, d: Draws)
      requires game.Valid() && id in game.players && DrawsOk(d)
      modifies game, game.Repr
      ensures game.Valid() && game.View() == AfterPlayerTick(game.mode, rules, old(game.View()), game.Supplies(), id, d)
    {
      HandlePlayerTimedEffect(id, d.square);
      TickGame(id, d);
    }

    /** One turn of `tick()`: the player is handled when alive. */
    method TickTurn(id: UserId, d: Draws)
      requires game.Valid() && id in game.players && DrawsOk(d)
      modifies game, game.Repr
      ensures game.Valid()
      ensures game.View() == if IsAlive(old(game.View()), id) then AfterPlayerTick(game.mode, rules, old(game.View()), game.Supplies(), id, d)
                             else old(game.View())
    {
      if game.players[id].alive {
        TickPlayer(id, d);
      }
    }

    /** `tick()`: every player in identity order, each one handled only
        when it is alive at its turn; `ds` gives each player's draws. */
    method Tick(ds: UserId -> Draws)
      requires game.Valid() && forall id :: DrawsOk(ds(id))
      modifies game, game.Repr
      ensures game.Valid()
      ensures game.View() == AfterTick(game.mode, rules, old(game.View()), game.Supplies(), game.ids, 0, ds)
    {
      ghost var sups := game.Supplies();
      ghost var target := AfterTick(game.mode, rules, game.View(), sups, game.ids, 0, ds);
      var i := 0;
      while i < |game.ids|
        invariant 0 <= i <= |game.ids| && game.Valid()
        invariant AfterTick(game.mode, rules, game.View(), sups, game.ids, i, ds) == target
      {
        ghost var w := game.View();
        TickTurn(game.ids[i], ds(game.ids[i]));
        TickUnfolds(game.mode, rules, w, sups, game.ids, i, ds);
        i := i + 1;
      }
    }

    /** `eventTryMoveActive` on player u's game. */
    method MoveEvent(u: UserId, m: Move)
      requires game.Valid() && u in game.players
      modifies game.Repr
      ensures game.Valid() && game.View() == WithPlay(old(game.View()), u, TriedMove(old(game.View()).games[u], m))
    {
      assert game.tetrises[u].Valid();
      game.tetrises[u].EventTryMoveActive(m);
      game.OneGameValid(u);
      game.OneGameShown(u);
    }

    /** `tryMoveActive`: see `AfterMove`. */
    method TryMoveActive(u: UserId, m: Move)
      requires game.Valid()
      modifies game.Repr
      ensures game.Valid() && game.View() == AfterMove(game.mode, old(game.View()), game.Supplies(), u, m)
    {
      if !(u in game.players && game.players[u].alive) {
        return;
      }
      var p := game.players[u];
      if ShouldLockInput(game.mode, p) {
        return;
      }
      var t := game.GetTetris(u);
      if t == null {
        return;
      }
      ghost var w := game.View();
      var m' := if ShouldReverseControls(game.mode, p) then InvertTetrominoMove(m) else m;
      assert TakesInput(game.mode, w, u) && p == w.players[u];
      MoveEvent(u, m');
    }

    /** `eventTryRotateActive` on player u's game. */
    method RotateEvent(u: UserId, clockwise: bool)
      requires game.Valid() && u in game.players
      modifies game.Repr
      ensures game.Valid() && game.View() == WithPlay(old(game.View()), u, TriedRotate(old(game.View()).games[u], clockwise))
    {
      assert game.tetrises[u].Valid();
      game.tetrises[u].EventTryRotateActive(clockwise);
      game.OneGameValid(u);
      game.OneGameShown(u);
    }

    /** `tryRotateActive`: see `AfterRotate`. */
    method TryRotateActive(u: UserId, clockwise: bool)
      requires game.Valid()
      modifies game.Repr
      ensures game.Valid() && game.View() == AfterRotate(game.mode, old(game.View()), game.Supplies(), u, clockwise)
    {
      if !(u in game.players && game.players[u].alive) {
        return;
      }
      var p := game.players[u];
      if ShouldLockInput(game.mode, p) {
        return;
      }
      var t := game.GetTetris(u);
      if t == null {
        return;
      }
      ghost var w := game.View();
      var cw := if ShouldReverseControls(game.mode, p) then !clockwise else clockwise;
      assert TakesInput(game.mode, w, u) && p == w.players[u];
      RotateEvent(u, cw);
    }

    /** `eventHoldActiveTetromino` on player u's game. */
    method HoldEvent(u: UserId)
      requires game.Valid() && u in game.players && game.tetrises[u].Valid()
      modifies game.Repr
      ensures game.Valid()
      ensures game.tetrises[u].View() == Held(old(game.tetrises[u].View()), game.tetrises[u].supply)
      ensures game.View() == WithPlay(old(game.View()), u, game.tetrises[u].View())
    {
      game.tetrises[u].EventHoldActiveTetromino();
      game.OneGameValid(u);
      game.OneGameShown(u);
    }

    /** `holdActiveTetromino`: see `AfterHold`. */
    method HoldActiveTetromino(u: UserId)
      requires game.Valid()
      modifies game.Repr
      ensures game.Valid() && game.View() == AfterHold(game.mode, old(game.View()), game.Supplies(), u)
    {
      if !(u in game.players && game.players[u].alive) {
        return;
      }
      if ShouldLockInput(game.mode, game.players[u]) {
        return;
      }
      var t := game.GetTetris(u);
      if t == null {
        return;
      }
      assert t.Valid();
      HoldEvent(u);
    }

    /** `bigDrop`: see `AfterBigDrop`; `gaps` are the gap columns drawn for
        the penalty rows it may send. */
    method BigDrop(u: UserId, gaps: seq<GapColumn>)
      requires game.Valid() && |gaps| == Height
      modifies game, game.Repr
      ensures game.Valid() && game.View() == AfterBigDrop(game.mode, old(game.View()), game.Supplies(), u, gaps)
    {
      if !(u in game.players && game.players[u].alive) {
        return;
      }
      if ShouldLockInput(game.mode, game.players[u]) {
        return;
      }
      var n := DropAndLock(u);
      OnTetrominoPlaced(u, n, gaps);
    }

    /** `quitGame`: see `AfterQuit`. */
    method QuitGame(u: UserId)
      requires game.Valid()
      modifies game
      ensures game.Valid() && game.View() == AfterQuit(old(game.View()), u)
    {
      var p := game.GetPlayerState(u);
      if p.None? {
        return;
      }
      game.SetPlayer(u, p.value.(alive := false));
    }

    /** `selectTarget`: see `AfterSelectTarget`. */
    method SelectTarget(u: UserId, t: UserId)
      requires game.Valid()
      modifies game
      ensures game.Valid() && game.View() == AfterSelectTarget(game.mode, old(game.View()), u, t)
    {
      if !CheckFeatureEnabled(game.mode, SelectPenaltyTarget) {
        return;
      }
      ghost var w := game.View();
      var p := game.GetPlayerState(u);
      var q := game.GetPlayerState(t);
      if !(p.Some? && p.value.alive && q.Some? && q.value.alive) {
        return;
      }
      assert IsAlive(w, u) && IsAlive(w, t) && p.value == w.players[u];
      game.SetPlayer(u, p.value.(target := Some(t)));
      assert game.View() == WithPlayer(w, u, w.players[u].(target := Some(t)));
    }

    /** `sendPenaltyEffect`: see `AfterPenaltyEffect`; on an error nothing
        changes. */
    method SendPenaltyEffect(sender: PlayerState, k: PenaltyType) returns (r: Result<bool>)
      requires game.Valid()
      modifies game
      ensures game.Valid()
      ensures r.Err? <==> AfterPenaltyEffect(game.mode, old(game.View()), sender, k).Err?
      ensures r.Ok? ==> game.View() == AfterPenaltyEffect(game.mode, old(game.View()), sender, k).value
      ensures r.Err? ==> game.View() == old(game.View())
    {
      if !CheckFeatureEnabled(game.mode, Effects) {
        return Ok(false);
      }
      if sender.target.None? {
        return Err("sendPenaltyEffect: no target selected");
      }
      var q := game.GetPlayerState(sender.target.value);
      if q.None? {
        return Err("sendPenaltyEffect: penalty target not found");
      }
      game.SetPlayer(sender.target.value, q.value.(received := q.value.received + [k]));
      r := Ok(true);
    }

    /** The delivery of a bought effect in `tryBuyEffect`: a bonus is
        granted to the buyer, a penalty stashed or sent to the buyer's
        target, which is alive when it is not stashed. */
    method DeliverEffect(buyer: UserId, e: EffectType, stash: bool)
      requires game.Valid() && buyer in game.players && CheckFeatureEnabled(game.mode, Effects)
      requires e.Penalty? && !stash ==> HasLiveTarget(game.View(), game.players[buyer])
      modifies game
      ensures game.Valid() && game.View() == Delivered(old(game.View()), buyer, e, stash)
    {
      ghost var w := game.View();
      var p := game.players[buyer];
      if e.Bonus? {
        game.SetPlayer(buyer, p.(granted := p.granted + [e.bonus]));
        assert game.View() == WithPlayer(w, buyer, p.(granted := p.granted + [e.bonus]));
      } else if stash {
        game.SetPlayer(buyer, p.(stash := p.stash + [e.penalty]));
        assert game.View() == WithPlayer(w, buyer, p.(stash := p.stash + [e.penalty]));
      } else {
        var _ := SendPenaltyEffect(p, e.penalty);
        assert game.View() == SentAll(w, p.target.value, [e.penalty]);
      }
    }

    /** `tryBuyEffect`: see `AfterBuy`. */
    method TryBuyEffect(buyer: UserId, e: EffectType, stashForLater: bool)
      requires game.Valid()
      modifies game
      ensures game.Valid() && game.View() == AfterBuy(game.mode, rules, old(game.View()), buyer, e, stashForLater)
    {
      if !CheckFeatureEnabled(game.mode, Effects) {
        return;
      }
      var b := game.GetPlayerState(buyer);
      if !(b.Some? && b.value.alive) {
        return;
      }
      var p := b.value;
      if !CanBuyEffect(game.mode, rules, p, e) {
        return;
      }
      var targetAlive := p.target.Some? && p.target.value in game.players && game.players[p.target.value].alive;
      var stash := stashForLater;
      if e.Penalty? && !targetAlive {
        stash := true;
      }
      if stash && e.Bonus? {
        return;
      }
      ghost var w := game.View();
      assert targetAlive == HasLiveTarget(w, p);
      assert Buys(game.mode, rules, w, buyer, e, stashForLater);
      DeliverEffect(buyer, e, stash);
      ghost var w1 := game.View();
      assert w1 == Delivered(w, buyer, e, stashForLater);
      var q := game.players[buyer];
      assert q == w1.players[buyer];
      game.SetPlayer(buyer, q.(energy := q.energy - rules.price(e)));
      ghost var v := game.View();
      assert v == WithPlayer(w1, buyer, q.(energy := q.energy - rules.price(e)));
      BuySteps(game.mode, rules, w, buyer, e, stashForLater, w1, q, v);
    }

    /** `sendPenaltyEffect` of k from u, whose target is alive. */
    method SendToTarget(u: UserId, k: PenaltyType)
      requires game.Valid() && EmptiesStash(game.mode, game.View(), u)
      modifies game
      ensures game.Valid() && EmptiesStash(game.mode, game.View(), u)
      ensures game.View() == SentAll(old(game.View()), old(game.View()).players[u].target.value, [k])
    {
      ghost var w := game.View();
      SentAllKeepsTargets(w, w.players[u].target.value, [k], u);
      var _ := SendPenaltyEffect(game.players[u], k);
    }

    /** The loop of `emptyPenaltyStash`: the penalties of ks, a copy of
        u's stash, are sent to u's target one at a time, oldest first. */
    method SendStashed(u: UserId, ks: seq<PenaltyType>)
      requires game.Valid() && EmptiesStash(game.mode, game.View(), u)
      modifies game
      ensures game.Valid()
      ensures game.View() == SentAll(old(game.View()), old(game.View()).players[u].target.value, ks)
    {
      ghost var w := game.View();
      ghost var t := w.players[u].target.value;
      SentNothing(w, t);
      for i := 0 to |ks|
        invariant game.Valid() && EmptiesStash(game.mode, game.View(), u)
        invariant game.View() == SentAll(w, t, ks[..i])
      {
        SendToTarget(u, ks[i]);
        SentAllStep(w, t, ks, i);
      }
      assert ks[..|ks|] == ks;
    }

    /** `emptyPenaltyStash` as intended: see `AfterEmptyStash`. The
        penalties are sent from a copy of the stash, oldest first, and the
        stash is emptied afterwards. */
    method EmptyPenaltyStash(u: UserId)
      requires game.Valid()
      modifies game
      ensures game.Valid() && game.View() == AfterEmptyStash(game.mode, old(game.View()), u)
    {
      if !CheckFeatureEnabled(game.mode, Effects) {
        return;
      }
      var b := game.GetPlayerState(u);
      if !(b.Some? && b.value.alive) {
        return;
      }
      var p := b.value;
      if !(p.target.Some? && p.target.value in game.players && game.players[p.target.value].alive) {
        return;
      }
      ghost var w := game.View();
      assert EmptiesStash(game.mode, w, u);
      SendStashed(u, p.stash);
      ghost var w1 := game.View();
      var q := game.players[u];
      assert q == w1.players[u];
      game.SetPlayer(u, q.(stash := []));
      assert game.View() == WithPlayer(w1, u, q.(stash := []));
    }

    /** `getWinner`: see `EngineWinner`. The alive players are counted in
        identity order, keeping the first one. */
    method GetWinner() returns (r: Result<Option<UserId>>)
      requires game.Valid()
      ensures r == EngineWinner(game.mode, game.ids, game.players)
    {
      if game.mode == Endless {
        return Ok(None);
      }
      var count := 0;
      var first := None;
      for k := 0 to |game.ids|
        invariant count == |AliveIds(game.ids[..k], game.players)|
        invariant first == if count == 0 then None else Some(AliveIds(game.ids[..k], game.players)[0])
      {
        AliveIdsStep(game.ids, game.players, k);
        if game.players[game.ids[k]].alive {
          if count == 0 {
            first := Some(game.ids[k]);
          }
          count := count + 1;
        }
      }
      assert game.ids[..|game.ids|] == game.ids;
      if count == 0 {
        return Err("getWinner: no player is alive");
      }
      if count > 1 {
        return Ok(None);
      }
      return Ok(first);
    }

    /** `gameIsFinished`: see `Finished`. */
    method GameIsFinished() returns (r: Result<bool>)
      requires game.Valid()
      ensures r == Finished(game.mode, game.ids, game.players)
    {
      if game.mode == Endless {
        if |game.ids| == 0 {
          return Err("gameIsFinished: no player");
        }
        return Ok(!game.players[game.ids[0]].alive);
      }
      var winner := GetWinner();
      match winner
      case Err(m) => r := Err(m);
      case Ok(o) => r := Ok(o.Some?);
    }
  }
}
