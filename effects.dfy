// The per-player record the engine keeps beside each game, and the effects
// players buy with energy: bonuses for themselves and penalties for their
// target, some applied at once and the others active for a number of ticks.

module Effects {
  import opened Wrappers

  /** A player's identity. */
  type UserId = nat

  /** The bonus kinds the engine treats specially, and one standing for
      every other (timed) bonus kind. */
  datatype BonusType = MiniTetrominoes | SlowDown | OtherBonus

  /** The penalty kinds the engine treats specially, and one standing for
      every other (timed) penalty kind. */
  datatype PenaltyType = Lightning | ReverseControls | InputLock | OtherPenalty

  /** What a player can buy. */
  datatype EffectType = Bonus(bonus: BonusType) | Penalty(penalty: PenaltyType)

  /** An effect that lasts: its kind and the ticks it has left. */
  datatype Timed<K> = Timed(kind: K, left: nat)
  {
    /** One tick of the effect. */
    function Tick(): Timed<K>
    {
      Timed(kind, if left == 0 then 0 else left - 1)
    }

    predicate IsFinished() { left == 0 }
  }

  /** The prices and durations of the effects, which the model takes as given. */
  datatype Rules = Rules(price: EffectType -> nat,
                         bonusTicks: BonusType -> nat,
                         penaltyTicks: PenaltyType -> nat)

  /** A player's status: score and energy, whether the player is still in
      the game, the chosen penalty target, whether effects are on, the
      active timed bonus and penalty, the bonuses granted and penalties
      received that wait to be applied (oldest first), and the stash of
      penalties bought for later. */
  datatype PlayerState = PlayerState(
    userId: UserId,
    score: nat,
    energy: nat,
    alive: bool,
    target: Option<UserId>,
    effectsOn: bool,
    activeBonus: Option<Timed<BonusType>>,
    activePenalty: Option<Timed<PenaltyType>>,
    granted: seq<BonusType>,
    received: seq<PenaltyType>,
    stash: seq<PenaltyType>)

  /** `makeBonus`: a fresh timed bonus with its full duration. */
  function MakeBonus(rules: Rules, b: BonusType): Timed<BonusType>
  {
    Timed(b, rules.bonusTicks(b))
  }

  /** `makePenalty`: a fresh timed penalty with its full duration. */
  function MakePenalty(rules: Rules, p: PenaltyType): Timed<PenaltyType>
  {
    Timed(p, rules.penaltyTicks(p))
  }
}
