// The game modes and the constant table of the features each one enables.

module Features {

  datatype GameMode = Endless | Dual | Classic | RoyalCompetition

  /** What a mode can switch on: penalty rows sent on line clears, the
      effect economy, and choosing one's penalty target. */
  datatype GameModeFeature = PenaltyRows | Effects | SelectPenaltyTarget

  const NumFeatures: nat := 3
  const NumGameModes: nat := 4

  /** The bit of a feature in a bitset (its declaration order). */
  function FeatureBit(f: GameModeFeature): (i: nat)
    ensures i < NumFeatures
  {
    match f
    case PenaltyRows => 0
    case Effects => 1
    case SelectPenaltyTarget => 2
  }

  /** The slot of a mode in the table (its declaration order). */
  function ModeSlot(m: GameMode): (i: nat)
    ensures i < NumGameModes
  {
    match m
    case Endless => 0
    case Dual => 1
    case Classic => 2
    case RoyalCompetition => 3
  }

  /** A set of features, one flag per bit. */
  type FeaturesBitset = b: seq<bool> | |b| == NumFeatures
    witness [false, false, false]

  /** `genFeaturesBitset`: every listed feature's bit is set, starting from
      the empty bitset. */
  function GenFeaturesBitset(enabled: seq<GameModeFeature>): (b: FeaturesBitset)
    ensures forall f :: b[FeatureBit(f)] <==> f in enabled
  {
    if |enabled| == 0 then [false, false, false]
    else
      var rest := GenFeaturesBitset(enabled[..|enabled| - 1]);
      var last := enabled[|enabled| - 1];
      assert enabled == enabled[..|enabled| - 1] + [last];
      rest[FeatureBit(last) := true]
  }

  /** `featuresBitsets`: the table, indexed by mode slot. */
  function FeaturesBitsets(): (t: seq<FeaturesBitset>)
    ensures |t| == NumGameModes
  {
    [ GenFeaturesBitset([]),
      GenFeaturesBitset([PenaltyRows]),
      GenFeaturesBitset([PenaltyRows, SelectPenaltyTarget]),
      GenFeaturesBitset([Effects, SelectPenaltyTarget]) ]
  }

  /** The static `checkFeatureEnabled`: a lookup in the table. */
  function CheckFeatureEnabled(mode: GameMode, f: GameModeFeature): bool
  {
    FeaturesBitsets()[ModeSlot(mode)][FeatureBit(f)]
  }

  /** The table, mode by mode: Endless enables nothing, Dual only penalty
      rows, Classic penalty rows and target selection, and the royal
      competition the effect economy and target selection. */
  lemma ModeFeatures(f: GameModeFeature)
    ensures !CheckFeatureEnabled(Endless, f)
    ensures CheckFeatureEnabled(Dual, f) <==> f == PenaltyRows
    ensures CheckFeatureEnabled(Classic, f) <==> f == PenaltyRows || f == SelectPenaltyTarget
    ensures CheckFeatureEnabled(RoyalCompetition, f) <==> f == Effects || f == SelectPenaltyTarget
  {
  }

  /** No mode has both penalty rows and the effect economy. */
  lemma EffectsExcludePenaltyRows(mode: GameMode)
    ensures !(CheckFeatureEnabled(mode, Effects) && CheckFeatureEnabled(mode, PenaltyRows))
  {
    ModeFeatures(Effects);
    ModeFeatures(PenaltyRows);
  }
}
