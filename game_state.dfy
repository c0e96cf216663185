// A match: the game mode, and for each player (by identity) the player's
// record and the player's game. Players are kept in ascending identity
// order, the iteration order of the map that holds them.

module Match {
  import opened Wrappers
  import opened Boards
  import opened Simulation
  import opened Features
  import opened Effects

  /** A snapshot of a match: every player's record and game. */
  datatype World = World(players: map<UserId, PlayerState>, games: map<UserId, Play>)

  /** The invariant of a match snapshot: the same players have records and
      games, each record is filed under its own identity, and each game is
      consistent with the pieces it draws from. */
  ghost predicate WorldOk(w: World, sups: map<UserId, Supply>)
  {
    && w.games.Keys == w.players.Keys && sups.Keys == w.players.Keys
    && (forall id :: id in w.players ==> w.players[id].userId == id)
    && (forall id {:trigger GameOk(w.games[id], sups[id])} :: id in w.games ==> GameOk(w.games[id], sups[id]))
    && (forall id :: id in w.games ==> WellFormed(w.games[id].rows))
  }

  /** A game is consistent with the pieces it draws from and its lock
      delay is within bound. */
  ghost predicate GameOk(v: Play, sup: Supply)
  {
    Consistent(v, sup) && v.ticks <= LockDelayTicksNum
  }

  /** The game of a player of a well-formed snapshot is consistent. */
  lemma GameOkAt(w: World, sups: map<UserId, Supply>, id: UserId)
    requires WorldOk(w, sups) && id in w.players
    ensures GameOk(w.games[id], sups[id])
    ensures Consistent(w.games[id], sups[id]) && w.games[id].ticks <= LockDelayTicksNum
  {
    assert GameOk(w.games[id], sups[id]);
  }

  predicate Increasing(s: seq<UserId>)
  {
    forall i, j :: 0 <= i < j < |s| ==> s[i] < s[j]
  }

  /** `s` with `x` put in its place in ascending order. */
  function InsertSorted(s: seq<UserId>, x: UserId): (r: seq<UserId>)
    requires Increasing(s) && x !in s
    ensures Increasing(r) && |r| == |s| + 1
    ensures forall y :: y in r <==> y in s || y == x
  {
    if |s| == 0 then [x]
    else if x < s[0] then [x] + s
    else
      var rest := InsertSorted(s[1..], x);
      assert forall y :: y in s <==> y == s[0] || y in s[1..];
      assert forall y :: y in s[1..] ==> s[0] < y;
      assert forall k :: 0 <= k < |rest| ==> rest[k] in rest;
      [s[0]] + rest
  }

  // ---------------------------------------------------------------------
  // Seating the players

  /** The record the constructor files for player i: the next player in
      input order (wrapping around) as penalty target, and effects on
      exactly when the mode has the effect economy. */
  function Seat(mode: GameMode, ps: seq<PlayerState>, i: nat): PlayerState
    requires i < |ps|
  {
    ps[i].(target := Some(ps[(i + 1) % |ps|].userId),
           effectsOn := CheckFeatureEnabled(mode, Effects))
  }

  /** The records after the first k players are seated; a player whose
      identity is already taken is not added again. */
  ghost function Seated(mode: GameMode, ps: seq<PlayerState>, k: nat): map<UserId, PlayerState>
    requires k <= |ps|
  {
    if k == 0 then map[]
    else
      var m := Seated(mode, ps, k - 1);
      if ps[k - 1].userId in m then m else m[ps[k - 1].userId := Seat(mode, ps, k - 1)]
  }

  /** Whether player i is the first in the input with its identity. */
  ghost predicate FirstWithId(ps: seq<PlayerState>, i: nat)
    requires i < |ps|
  {
    forall j :: 0 <= j < i ==> ps[j].userId != ps[i].userId
  }

  /** Exactly the identities of the first k players are seated. */
  lemma {:induction false} SeatedKeys(mode: GameMode, ps: seq<PlayerState>, k: nat)
    requires k <= |ps|
    ensures forall id :: id in Seated(mode, ps, k) <==> exists i :: 0 <= i < k && ps[i].userId == id
  {
    if k > 0 {
      SeatedKeys(mode, ps, k - 1);
    }
  }

  /** Every record is filed under its own identity. */
  lemma {:induction false} SeatedUnderOwnId(mode: GameMode, ps: seq<PlayerState>, k: nat)
    requires k <= |ps|
    ensures forall id :: id in Seated(mode, ps, k) ==> Seated(mode, ps, k)[id].userId == id
  {
    if k > 0 {
      SeatedUnderOwnId(mode, ps, k - 1);
    }
  }

  /** Each identity is seated under the record of its first occurrence:
      that player's successor in input order (wrapping around) is its
      target, and its effects follow the mode. */
  lemma {:induction false} SeatedRoundRobin(mode: GameMode, ps: seq<PlayerState>, k: nat, i: nat)
    requires i < k <= |ps| && FirstWithId(ps, i)
    ensures ps[i].userId in Seated(mode, ps, k)
    ensures Seated(mode, ps, k)[ps[i].userId] == Seat(mode, ps, i)
    ensures Seated(mode, ps, k)[ps[i].userId].target == Some(ps[(i + 1) % |ps|].userId)
    ensures Seated(mode, ps, k)[ps[i].userId].effectsOn <==> CheckFeatureEnabled(mode, Effects)
  {
    if i < k - 1 {
      SeatedRoundRobin(mode, ps, k - 1, i);
    } else {
      SeatedKeys(mode, ps, k - 1);
    }
  }

  // ---------------------------------------------------------------------
  // Queries

  /** The alive players among `ids`, in order. */
  ghost function AliveIds(ids: seq<UserId>, players: map<UserId, PlayerState>): (a: seq<UserId>)
    requires forall id :: id in ids ==> id in players
    ensures forall id :: id in a <==> id in ids && players[id].alive
  {
    if |ids| == 0 then []
    else
      var last := ids[|ids| - 1];
      var rest := AliveIds(ids[..|ids| - 1], players);
      assert forall id :: id in ids <==> id == last || id in ids[..|ids| - 1];
      if players[last].alive then rest + [last] else rest
  }

  /** One more identity of the prefix: it is added when alive. */
  lemma AliveIdsStep(ids: seq<UserId>, players: map<UserId, PlayerState>, k: nat)
    requires forall id :: id in ids ==> id in players
    requires k < |ids|
    ensures AliveIds(ids[..k + 1], players) ==
              if players[ids[k]].alive then AliveIds(ids[..k], players) + [ids[k]] else AliveIds(ids[..k], players)
  {
    assert ids[..k + 1][..k] == ids[..k];
  }

  /** A prefix has no more alive players than the whole. */
  lemma {:induction false} AliveIdsPrefix(ids: seq<UserId>, players: map<UserId, PlayerState>, k: nat)
    requires forall id :: id in ids ==> id in players
    requires k <= |ids|
    ensures |AliveIds(ids[..k], players)| <= |AliveIds(ids, players)|
    decreases |ids|
  {
    if k < |ids| {
      assert ids[..|ids| - 1][..k] == ids[..k];
      AliveIdsPrefix(ids[..|ids| - 1], players, k);
    } else {
      assert ids[..k] == ids;
    }
  }

  /** Alive players are listed without repetition when the identities are increasing. */
  lemma {:induction false} AliveIdsIncreasing(ids: seq<UserId>, players: map<UserId, PlayerState>)
    requires forall id :: id in ids ==> id in players
    requires Increasing(ids)
    ensures Increasing(AliveIds(ids, players))
  {
    if |ids| > 0 {
      var front := ids[..|ids| - 1];
      AliveIdsIncreasing(front, players);
      var rest := AliveIds(front, players);
      forall k | 0 <= k < |rest| ensures rest[k] < ids[|ids| - 1] {
        assert rest[k] in front;
      }
    }
  }

  /** The winner as `getWinner` defines it: none in Endless mode, otherwise
      the alive player when exactly one is alive. */
  ghost function Winner(mode: GameMode, ids: seq<UserId>, players: map<UserId, PlayerState>): Option<UserId>
    requires forall id :: id in ids ==> id in players
  {
    var a := AliveIds(ids, players);
    if mode == Endless || |a| != 1 then None else Some(a[0])
  }

  /** The first two entries of an increasing sequence differ. */
  lemma FirstTwoDiffer(a: seq<UserId>)
    requires Increasing(a)
    ensures |a| >= 2 ==> a[0] in a && a[1] in a && a[0] != a[1]
  {
  }

  /** A winner exists exactly when the mode is not Endless and one player
      alone is alive; then it is that player. */
  lemma WinnerIsSoleSurvivor(mode: GameMode, ids: seq<UserId>, players: map<UserId, PlayerState>, x: UserId)
    requires forall id :: id in ids ==> id in players
    requires Increasing(ids)
    ensures Winner(mode, ids, players) == Some(x) <==>
              && mode != Endless && x in ids && players[x].alive
              && forall y :: y in ids && players[y].alive ==> y == x
  {
    var a := AliveIds(ids, players);
    AliveIdsIncreasing(ids, players);
    if mode != Endless && x in ids && players[x].alive && forall y :: y in ids && players[y].alive ==> y == x {
      assert x in a;
      FirstTwoDiffer(a);
    }
  }

  /** `ids` without `u`, in order. */
  function Without(ids: seq<UserId>, u: UserId): (r: seq<UserId>)
    ensures forall id :: id in r <==> id in ids && id != u
    ensures |r| <= |ids|
  {
    if |ids| == 0 then []
    else
      var last := ids[|ids| - 1];
      var rest := Without(ids[..|ids| - 1], u);
      assert forall id :: id in ids <==> id == last || id in ids[..|ids| - 1];
      if last == u then rest else rest + [last]
  }

  /** What the serialisers produce, one entry per player (an entry names
      the player it describes): whether the match is over, the mode, the
      requesting player's own entry, the entries of the others, and the
      price lists. */
  datatype Snapshot = Snapshot(isFinished: bool, mode: GameMode,
                               self: Option<UserId>, externals: seq<UserId>,
                               bonusToPrice: seq<(BonusType, nat)>,
                               penaltyToPrice: seq<(PenaltyType, nat)>)

  /** The bonus and penalty kinds, in declaration order. */
  const BonusKinds: seq<BonusType> := [MiniTetrominoes, SlowDown, OtherBonus]
  const PenaltyKinds: seq<PenaltyType> := [Lightning, ReverseControls, InputLock, OtherPenalty]

  /** The bonus price list: each bonus kind in order with its price. */
  function BonusPrices(price: EffectType -> nat): seq<(BonusType, nat)>
  {
    seq(|BonusKinds|, i requires 0 <= i < |BonusKinds| => (BonusKinds[i], price(Bonus(BonusKinds[i]))))
  }

  /** The penalty price list: each penalty kind in order with its price. */
  function PenaltyPrices(price: EffectType -> nat): seq<(PenaltyType, nat)>
  {
    seq(|PenaltyKinds|, i requires 0 <= i < |PenaltyKinds| => (PenaltyKinds[i], price(Penalty(PenaltyKinds[i]))))
  }

  /** The price lists name every kind once, each with its price. */
  lemma PriceListsComplete(price: EffectType -> nat)
    ensures forall b: BonusType :: (b, price(Bonus(b))) in BonusPrices(price)
    ensures forall k: PenaltyType :: (k, price(Penalty(k))) in PenaltyPrices(price)
    ensures forall i, j :: 0 <= i < j < |BonusPrices(price)| ==> BonusPrices(price)[i].0 != BonusPrices(price)[j].0
    ensures forall i, j :: 0 <= i < j < |PenaltyPrices(price)| ==> PenaltyPrices(price)[i].0 != PenaltyPrices(price)[j].0
  {
    var bp, pp := BonusPrices(price), PenaltyPrices(price);
    assert bp[0].0 == MiniTetrominoes && bp[1].0 == SlowDown && bp[2].0 == OtherBonus;
    assert pp[0].0 == Lightning && pp[1].0 == ReverseControls && pp[2].0 == InputLock && pp[3].0 == OtherPenalty;
    forall b: BonusType ensures (b, price(Bonus(b))) in bp {
      match b
      case MiniTetrominoes => assert bp[0] == (b, price(Bonus(b)));
      case SlowDown => assert bp[1] == (b, price(Bonus(b)));
      case OtherBonus => assert bp[2] == (b, price(Bonus(b)));
    }
    forall k: PenaltyType ensures (k, price(Penalty(k))) in pp {
      match k
      case Lightning => assert pp[0] == (k, price(Penalty(k)));
      case ReverseControls => assert pp[1] == (k, price(Penalty(k)));
      case InputLock => assert pp[2] == (k, price(Penalty(k)));
      case OtherPenalty => assert pp[3] == (k, price(Penalty(k)));
    }
  }

  /** The game a player starts with: an empty board, the first shape of
      the player's stream in play, nothing held. */
  ghost function NewGame(sup: Supply): Play
    requires SupplyOk(sup)
  {
    Play(BlankRows(Height), Spawned(sup, sup.stream(0)), None, [], 1, 0, true, true)
  }

  /** The games' objects lie in `repr`, and no two games share a game or
      a grid. */
  predicate Disjoint(ts: map<UserId, Tetris>, repr: set<object>)
  {
    && (forall id :: id in ts ==> ts[id] in repr && ts[id].board in repr && ts[id].board.grid in repr)
    && (forall a, b :: a in ts && b in ts && a != b ==>
          ts[a] != ts[b] && ts[a].board.grid != ts[b].board.grid)
  }

  /** The objects of the games in `ts`. */
  ghost function Objects(ts: map<UserId, Tetris>): set<object>
  {
    (set k | k in ts :: ts[k] as object) + (set k | k in ts :: ts[k].board as object)
      + (set k | k in ts :: ts[k].board.grid as object)
  }

  lemma ObjectsWithin(ts: map<UserId, Tetris>, repr: set<object>)
    requires Disjoint(ts, repr)
    ensures Objects(ts) <= repr
  {
  }

  /** Every game is valid. */
  ghost predicate AllValid(ts: map<UserId, Tetris>)
    reads Objects(ts)
  {
    forall id {:trigger ts[id].Valid()} :: id in ts ==> ts[id].Valid()
  }

  /** Every game is a new game drawing from its player's supply. */
  ghost predicate AllNew(ts: map<UserId, Tetris>, sup: UserId -> Supply)
    reads Objects(ts)
  {
    forall k :: k in ts ==> ts[k].supply == sup(k) && SupplyOk(sup(k)) && ts[k].View() == NewGame(sup(k))
  }

  /** A game whose objects lie outside `repr` keeps the games disjoint. */
  lemma JoinedDisjoint(ts: map<UserId, Tetris>, repr: set<object>, id: UserId, t: Tetris)
    requires Disjoint(ts, repr) && id !in ts
    requires t !in repr && t.board.grid !in repr
    ensures Disjoint(ts[id := t], repr + {t, t.board, t.board.grid})
  {
  }

  /** A valid game joins valid games. */
  lemma JoinedValid(ts: map<UserId, Tetris>, id: UserId, t: Tetris)
    requires AllValid(ts) && t.Valid()
    ensures AllValid(ts[id := t])
  {
  }

  /** A new game joins new games. */
  lemma JoinedNew(ts: map<UserId, Tetris>, sup: UserId -> Supply, id: UserId, t: Tetris)
    requires AllNew(ts, sup) && SupplyOk(sup(id))
    requires t.supply == sup(id) && t.View() == NewGame(sup(id))
    ensures AllNew(ts[id := t], sup)
  {
  }

  /** A new game for player id, drawing from the player's own supply,
      joins the games `ts`. */
  method AddGame(ts: map<UserId, Tetris>, ghost repr: set<object>, id: UserId, sup: UserId -> Supply)
    returns (t: Tetris)
    requires SupplyOk(sup(id)) && id !in ts
    requires Disjoint(ts, repr) && AllValid(ts) && AllNew(ts, sup)
    ensures fresh(t) && fresh(t.board) && fresh(t.board.grid)
    ensures Disjoint(ts[id := t], repr + {t, t.board, t.board.grid})
    ensures AllValid(ts[id := t]) && AllNew(ts[id := t], sup)
  {
    t := new Tetris(sup(id));
    ObjectsWithin(ts, repr);
    assert unchanged(repr);
    JoinedDisjoint(ts, repr, id, t);
    JoinedValid(ts, id, t);
    JoinedNew(ts, sup, id, t);
  }

  /** The records of the seated players, and their identities in
      ascending order. */
  method SeatPlayers(mode: GameMode, ps: seq<PlayerState>) returns (m: map<UserId, PlayerState>, order: seq<UserId>)
    ensures m == Seated(mode, ps, |ps|)
    ensures Increasing(order) && (forall id :: id in m <==> id in order)
    ensures forall id :: id in m ==> m[id].userId == id
  {
    m, order := map[], [];
    var i := 0;
    while i < |ps|
      invariant 0 <= i <= |ps|
      invariant m == Seated(mode, ps, i)
      invariant Increasing(order) && (forall id :: id in m <==> id in order)
      invariant forall id :: id in m ==> m[id].userId == id
    {
      var p := Seat(mode, ps, i);
      if p.userId !in m {
        m := m[p.userId := p];
        order := InsertSorted(order, p.userId);
      }
      i := i + 1;
    }
  }

  /** A new game for each player of `order`, drawing from the player's own
      supply. */
  method StartGames(order: seq<UserId>, sup: UserId -> Supply) returns (ts: map<UserId, Tetris>, ghost repr: set<object>)
    requires Increasing(order) && forall id :: SupplyOk(sup(id))
    ensures fresh(repr) && (forall id :: id in ts <==> id in order)
    ensures Disjoint(ts, repr) && AllValid(ts) && AllNew(ts, sup)
  {
    ts, repr := map[], {};
    var i := 0;
    while i < |order|
      invariant 0 <= i <= |order|
      invariant forall id :: id in ts <==> id in order[..i]
      invariant fresh(repr) && Disjoint(ts, repr) && AllValid(ts) && AllNew(ts, sup)
    {
      assert order[..i + 1] == order[..i] + [order[i]];
      var t := AddGame(ts, repr, order[i], sup);
      ts := ts[order[i] := t];
      repr := repr + {t, t.board, t.board.grid};
      i := i + 1;
    }
    assert order[..i] == order;
  }

  /** The seated players are listed in `ids` in ascending order, each under
      its own identity and with one valid game of its own. */
  ghost predicate Seating(players: map<UserId, PlayerState>, ts: map<UserId, Tetris>, ids: seq<UserId>, repr: set<object>)
    reads repr
  {
    && Increasing(ids)
    && (forall id :: id in players <==> id in ids)
    && ts.Keys == players.Keys
    && (forall id :: id in players ==> players[id].userId == id)
    && Disjoint(ts, repr) && AllValid(ts)
  }

  /** Replacing a record by one under the same identity keeps the seating. */
  lemma Reseated(players: map<UserId, PlayerState>, m: map<UserId, PlayerState>, ids: seq<UserId>, id: UserId)
    requires (forall id :: id in players <==> id in ids) && (forall id :: id in players ==> players[id].userId == id)
    requires id in players && id in m && m == players[id := m[id]] && m[id].userId == id
    ensures m.Keys == players.Keys
    ensures forall u :: u in m <==> u in ids
    ensures forall u :: u in m ==> m[u].userId == u
  {
  }

  /** A match about to start: seated players, each with a new game
      drawing from its own supply. */
  ghost predicate Started(players: map<UserId, PlayerState>, ts: map<UserId, Tetris>, ids: seq<UserId>, repr: set<object>, sup: UserId -> Supply)
    reads repr
  {
    Seating(players, ts, ids, repr) && (ObjectsWithin(ts, repr); AllNew(ts, sup))
  }

  lemma SameKeys<T, U>(m: map<UserId, T>, ts: map<UserId, U>, order: seq<UserId>)
    requires forall id :: id in m <==> id in order
    requires forall id :: id in ts <==> id in order
    ensures ts.Keys == m.Keys
  {
  }

  /** The seating and the new games of a match about to start. */
  method Setup(mode: GameMode, playerStates: seq<PlayerState>, sup: UserId -> Supply)
    returns (m: map<UserId, PlayerState>, order: seq<UserId>, ts: map<UserId, Tetris>, ghost repr: set<object>)
    requires forall id :: SupplyOk(sup(id))
    ensures fresh(repr) && Started(m, ts, order, repr, sup)
    ensures m == Seated(mode, playerStates, |playerStates|)
  {
    m, order := SeatPlayers(mode, playerStates);
    ts, repr := StartGames(order, sup);
    SameKeys(m, ts, order);
  }

  /** The bonus price list, built kind by kind. */
  method PriceBonuses(price: EffectType -> nat) returns (l: seq<(BonusType, nat)>)
    ensures l == BonusPrices(price)
  {
    l := [];
    for i := 0 to |BonusKinds|
      invariant l == BonusPrices(price)[..i]
    {
      l := l + [(BonusKinds[i], price(Bonus(BonusKinds[i])))];
    }
  }

  /** The penalty price list, built kind by kind. */
  method PricePenalties(price: EffectType -> nat) returns (l: seq<(PenaltyType, nat)>)
    ensures l == PenaltyPrices(price)
  {
    l := [];
    for i := 0 to |PenaltyKinds|
      invariant l == PenaltyPrices(price)[..i]
    {
      l := l + [(PenaltyKinds[i], price(Penalty(PenaltyKinds[i])))];
    }
  }

  /** The loop of `getWinner` over the players in identity order: none in
      Endless mode, none as soon as a second alive player turns up,
      otherwise the alive player found, if any. */
  method SoleAlive(mode: GameMode, ids: seq<UserId>, players: map<UserId, PlayerState>) returns (winner: Option<UserId>)
    requires forall id :: id in ids ==> id in players
    ensures winner == Winner(mode, ids, players)
  {
    if mode == Endless {
      return None;
    }
    winner := None;
    var k := 0;
    while k < |ids|
      invariant 0 <= k <= |ids|
      invariant |AliveIds(ids[..k], players)| <= 1
      invariant winner == if |AliveIds(ids[..k], players)| == 1 then Some(AliveIds(ids[..k], players)[0]) else None
    {
      AliveIdsStep(ids, players, k);
      if players[ids[k]].alive {
        if winner.Some? {
          AliveIdsPrefix(ids, players, k + 1);
          return None;
        }
        winner := Some(ids[k]);
      }
      k := k + 1;
    }
    assert ids[..k] == ids;
  }

  class GameState {
    const mode: GameMode
    var isFinished: bool
    var players: map<UserId, PlayerState>
    const tetrises: map<UserId, Tetris>
    /** The players' identities in ascending order. */
    const ids: seq<UserId>
    /** The games' objects. */
    ghost const Repr: set<object>

    ghost predicate Valid()
      reads this, Repr
    {
      this !in Repr && Seating(players, tetrises, ids, Repr)
    }

    ghost function Supplies(): map<UserId, Supply>
    {
      map id | id in tetrises :: tetrises[id].supply
    }

    ghost function Games(): map<UserId, Play>
      requires Disjoint(tetrises, Repr)
      reads Repr
    {
      map id | id in tetrises :: tetrises[id].View()
    }

    ghost function View(): (w: World)
      requires Valid()
      reads this, Repr
      ensures WorldOk(w, Supplies())
    {
      ViewOk();
      World(players, Games())
    }

    /** The snapshot of a valid state is well formed. */
    lemma ViewOk()
      requires Valid()
      ensures WorldOk(World(players, Games()), Supplies())
    {
      forall id | id in tetrises
        ensures GameOk(Games()[id], Supplies()[id]) && WellFormed(Games()[id].rows)
      {
        assert tetrises[id].Valid();
      }
    }

    /** The objects of game t lie outside those of game id. */
    ghost predicate Kept(t: Tetris, id: UserId)
      requires id in tetrises
    {
      var kept := Repr - {tetrises[id], tetrises[id].board.grid};
      t in kept && t.board in kept && t.board.grid in kept
    }

    /** In disjoint games, the other games' objects lie outside those of
        game id. */
    lemma OthersKept(id: UserId)
      requires Disjoint(tetrises, Repr) && id in tetrises
      ensures forall o :: o in tetrises && o != id ==> Kept(tetrises[o], id)
    {
    }

    /** When one game changed alone, the other games are still valid. */
    twostate lemma OthersValid(id: UserId)
      requires id in tetrises
      requires forall o :: o in tetrises && o != id ==> Kept(tetrises[o], id)
      requires unchanged(Repr - {tetrises[id], tetrises[id].board.grid})
      requires forall o :: o in tetrises && o != id ==> old(tetrises[o].Valid())
      ensures forall o :: o in tetrises && o != id ==> tetrises[o].Valid()
    {
    }

    /** When one game changed alone, the other games show what they showed. */
    twostate lemma OthersUnchanged(id: UserId)
      requires Disjoint(tetrises, Repr) && id in tetrises
      requires unchanged(Repr - {tetrises[id], tetrises[id].board.grid})
      ensures forall o :: o in tetrises && o != id ==> tetrises[o].View() == old(tetrises[o].View())
    {
      var kept := Repr - {tetrises[id], tetrises[id].board.grid};
      assert forall o :: o in tetrises && o != id ==>
               tetrises[o] in kept && tetrises[o].board in kept && tetrises[o].board.grid in kept;
    }

    /** After one game changed alone and is valid, every game is valid
        and only that game's snapshot differs. */
    twostate lemma OneGameValid(id: UserId)
      requires Disjoint(tetrises, Repr) && id in tetrises
      requires old(AllValid(tetrises))
      requires unchanged(Repr - {tetrises[id], tetrises[id].board.grid})
      requires tetrises[id].Valid()
      ensures AllValid(tetrises)
    {
      OthersKept(id);
      OthersValid(id);
    }

    twostate lemma OneGameShown(id: UserId)
      requires Disjoint(tetrises, Repr) && id in tetrises
      requires unchanged(Repr - {tetrises[id], tetrises[id].board.grid})
      ensures Games() == old(Games())[id := tetrises[id].View()]
    {
      OthersUnchanged(id);
    }

    /** What leaves the games' objects alone leaves every game as it was. */
    twostate lemma GamesKept()
      requires Disjoint(tetrises, Repr) && old(AllValid(tetrises)) && unchanged(Repr)
      ensures AllValid(tetrises) && Games() == old(Games())
    {
      ObjectsWithin(tetrises, Repr);
    }

    /** Seats the players as given: see `Seated`; each seated player gets a
        new game drawing from its own supply. */
    constructor (mode: GameMode, playerStates: seq<PlayerState>, sup: UserId -> Supply)
      requires forall id :: SupplyOk(sup(id))
      ensures Valid() && fresh(Repr) && !isFinished && this.mode == mode
      ensures players == Seated(mode, playerStates, |playerStates|)
      ensures AllNew(tetrises, sup)
    {
      var m, order, ts, repr := Setup(mode, playerStates, sup);
      this.mode := mode;
      isFinished := false;
      players := m;
      tetrises := ts;
      ids := order;
      Repr := repr;
      new;
      assert Started(m, ts, order, repr, sup);
    }

    /** `getWinner`: see `Winner`. */
    method GetWinner() returns (winner: Option<UserId>)
      requires Valid()
      ensures winner == Winner(mode, ids, players)
    {
      winner := SoleAlive(mode, ids, players);
    }

    /** Replaces player id's record: the engine changes records in place
        through the pointers `getPlayerState` hands out. */
    method SetPlayer(id: UserId, p: PlayerState)
      requires Valid() && id in players && p.userId == id
      modifies this
      ensures Valid() && isFinished == old(isFinished)
      ensures View() == old(View()).(players := old(players)[id := p])
    {
      players := players[id := p];
      PlayerReplaced(id);
    }

    /** Replacing one record, under its own identity, keeps the state valid
        and changes only that record. */
    twostate lemma PlayerReplaced(id: UserId)
      requires old(Valid()) && id in old(players) && id in players && players[id].userId == id
      requires players == old(players)[id := players[id]] && unchanged(Repr)
      ensures Valid() && View() == old(View()).(players := players)
    {
      Reseated(old(players), players, ids, id);
      GamesKept();
    }

    /** `serializeForPlayer`: the player's own entry as `self`, every other
        player's as an external in identity order, and the price lists when
        the mode has the effect economy. */
    method SerializeForPlayer(u: UserId, price: EffectType -> nat) returns (s: Snapshot)
      requires Valid()
      ensures s.isFinished == isFinished && s.mode == mode
      ensures s.self == if u in players then Some(u) else None
      ensures s.externals == Without(ids, u)
      ensures s.bonusToPrice == if CheckFeatureEnabled(mode, Effects) then BonusPrices(price) else []
      ensures s.penaltyToPrice == if CheckFeatureEnabled(mode, Effects) then PenaltyPrices(price) else []
    {
      var self: Option<UserId> := None;
      var externals: seq<UserId> := [];
      var i := 0;
      while i < |ids|
        invariant 0 <= i <= |ids|
        invariant self == if u in ids[..i] then Some(u) else None
        invariant externals == Without(ids[..i], u)
      {
        assert ids[..i + 1][..i] == ids[..i];
        assert forall id :: id in ids[..i + 1] <==> id in ids[..i] || id == ids[i];
        if ids[i] == u {
          self := Some(u);
        } else {
          externals := externals + [ids[i]];
        }
        i := i + 1;
      }
      assert ids[..i] == ids;
      var bonusToPrice: seq<(BonusType, nat)> := [];
      var penaltyToPrice: seq<(PenaltyType, nat)> := [];
      if CheckFeatureEnabled(mode, Effects) {
        bonusToPrice := PriceBonuses(price);
        penaltyToPrice := PricePenalties(price);
      }
      s := Snapshot(isFinished, mode, self, externals, bonusToPrice, penaltyToPrice);
    }

    /** `serializeForViewer`: every player's entry as an external, in
        identity order, no `self` and no price lists. */
    method SerializeForViewer() returns (s: Snapshot)
      requires Valid()
      ensures s.isFinished == isFinished && s.mode == mode
      ensures s.self == None && s.externals == ids
      ensures forall id :: id in s.externals <==> id in players
      ensures s.bonusToPrice == [] && s.penaltyToPrice == []
    {
      var externals: seq<UserId> := [];
      var i := 0;
      while i < |ids|
        invariant 0 <= i <= |ids|
        invariant externals == ids[..i]
      {
        externals := externals + [ids[i]];
        i := i + 1;
      }
      assert ids[..i] == ids;
      s := Snapshot(isFinished, mode, None, externals, [], []);
    }

    /** `getPlayerState`: nothing for an identity not in the match. */
    function GetPlayerState(u: UserId): (r: Option<PlayerState>)
      reads this
      ensures r.None? <==> u !in players
      ensures r.Some? ==> r.value == players[u]
    {
      if u in players then Some(players[u]) else None
    }

    /** `getTetris`: null for an identity not in the match. */
    function GetTetris(u: UserId): (r: Tetris?)
      ensures r == null <==> u !in tetrises
      ensures r != null ==> r == tetrises[u]
    {
      if u in tetrises then tetrises[u] else null
    }
  }
}
