/** The search engine of game/minimax.py: an immutable battle snapshot, its deterministic
    transition with hard-coded expected-value constants, a heuristic evaluation with win/loss
    sentinels, and an unpruned full-width depth-limited minimax. */
module Search {
  import opened Wrappers
  import opened Numbers
  import opened Actions
  import Choice

  /** `BattleState`: whose turn it is (`playerTurn`) and both sides' hp and defending flags.
      The enemy is the AI. */
  datatype BattleState = BattleState(
    playerHp: int,
    enemyHp: int,
    playerTurn: bool,
    playerDefending: bool,
    enemyDefending: bool)

  /** What `minimax` returns: a score, and the chosen action (`None` at a leaf). */
  datatype SearchResult = SearchResult(score: real, best: Option<Action>)

  // The transition's constants are written into apply_action; note that the live MAX_HP is 300.
  const PlayerHit: int := 20
  const PlayerHitOnDefender: int := 10
  const EnemyHit: int := 25
  const EnemyHitOnDefender: int := 12
  const HealGain: int := 10
  const HealCap: int := 100

  const WinScore: real := 10000.0
  const LossScore: real := -10000.0

  /** `get_actions`: the fixed order in which the search expands children. */
  const SearchOrder: seq<Action> := [Attack, Heal, Defend]

  /** Position of an action in `SearchOrder`. */
  function SearchIndex(a: Action): (i: nat)
    ensures i < |SearchOrder| && SearchOrder[i] == a
  {
    match a
    case Attack => 0
    case Heal => 1
    case Defend => 2
  }

  /** `is_terminal`: one side has no hp left. */
  predicate IsTerminal(s: BattleState)
  {
    s.playerHp <= 0 || s.enemyHp <= 0
  }

  /** On states with at most 4000 hp a side, being terminal is exactly scoring a sentinel. */
  lemma TerminalIffSentinel(s: BattleState)
    requires s.playerHp <= 4000 && s.enemyHp <= 4000
    ensures IsTerminal(s) <==> Evaluate(s) == WinScore || Evaluate(s) == LossScore
  {
  }

  /** `evaluate`, from the AI's side. The player-death test comes first, so a state where both
      sides are at or below zero counts as an AI win. Away from the sentinels the score is
      `2·enemy − 1.5·player`, with 10 more while the enemy is ahead. */
  function Evaluate(s: BattleState): (score: real)
    ensures s.playerHp <= 0 ==> score == WinScore
    ensures s.playerHp > 0 && s.enemyHp <= 0 ==> score == LossScore
    ensures !IsTerminal(s) && s.playerHp <= 4000 && s.enemyHp <= 4000 ==> LossScore < score < WinScore
  {
    if s.playerHp <= 0 then WinScore
    else if s.enemyHp <= 0 then LossScore
    else
      var base := 2.0 * (s.enemyHp as real) - 1.5 * (s.playerHp as real);
      if s.enemyHp > s.playerHp then base + 10.0 else base
  }

  /** The heuristic rewards the AI's hp and penalises the player's, strictly, on non-terminal
      states. */
  lemma EvaluateMonotone(s: BattleState, t: BattleState)
    requires !IsTerminal(s) && !IsTerminal(t)
    requires s.enemyHp <= t.enemyHp && s.playerHp >= t.playerHp
    ensures Evaluate(s) <= Evaluate(t)
    ensures (s.enemyHp < t.enemyHp || s.playerHp > t.playerHp) ==> Evaluate(s) < Evaluate(t)
  {
  }

  /** Damage of the side to move, reduced only when the target is defending right now. */
  function HitDamage(s: BattleState): int
  {
    if s.playerTurn then (if s.enemyDefending then PlayerHitOnDefender else PlayerHit)
    else (if s.playerDefending then EnemyHitOnDefender else EnemyHit)
  }

  /** `apply_action`. The turn always passes; both defending flags are cleared except that the
      mover's becomes true when it defends; an attack lowers the opponent's hp by the fixed
      damage, floored at 0; a heal moves the mover's hp to `min(100, hp + 10)`, which lowers it
      when it was above 100; nothing else changes. */
  function Apply(s: BattleState, a: Action): (t: BattleState)
    ensures t.playerTurn == !s.playerTurn
    ensures t.playerDefending <==> s.playerTurn && a == Defend
    ensures t.enemyDefending <==> !s.playerTurn && a == Defend
    // the mover's own hp changes only by healing
    ensures s.playerTurn && a != Heal ==> t.playerHp == s.playerHp
    ensures !s.playerTurn && a != Heal ==> t.enemyHp == s.enemyHp
    // the opponent's hp changes only by an attack
    ensures s.playerTurn && a != Attack ==> t.enemyHp == s.enemyHp
    ensures !s.playerTurn && a != Attack ==> t.playerHp == s.playerHp
    // attack: exactly the fixed damage while hp suffices, else down to 0, never below 0
    ensures s.playerTurn && a == Attack ==>
      t.enemyHp >= 0 && (t.enemyHp > 0 ==> t.enemyHp == s.enemyHp - HitDamage(s))
      && (s.enemyHp >= HitDamage(s) ==> t.enemyHp == s.enemyHp - HitDamage(s))
    ensures !s.playerTurn && a == Attack ==>
      t.playerHp >= 0 && (t.playerHp > 0 ==> t.playerHp == s.playerHp - HitDamage(s))
      && (s.playerHp >= HitDamage(s) ==> t.playerHp == s.playerHp - HitDamage(s))
    // heal: +10 up to the hard-coded cap of 100, and never above it
    ensures s.playerTurn && a == Heal ==>
      t.playerHp <= HealCap && (s.playerHp <= HealCap - HealGain ==> t.playerHp == s.playerHp + HealGain)
      && (s.playerHp > HealCap - HealGain ==> t.playerHp == HealCap)
    ensures !s.playerTurn && a == Heal ==>
      t.enemyHp <= HealCap && (s.enemyHp <= HealCap - HealGain ==> t.enemyHp == s.enemyHp + HealGain)
      && (s.enemyHp > HealCap - HealGain ==> t.enemyHp == HealCap)
  {
    var damage := HitDamage(s);
    var playerHp :=
      if !s.playerTurn && a == Attack then Max(0, s.playerHp - damage)
      else if s.playerTurn && a == Heal then Min(HealCap, s.playerHp + HealGain)
      else s.playerHp;
    var enemyHp :=
      if s.playerTurn && a == Attack then Max(0, s.enemyHp - damage)
      else if !s.playerTurn && a == Heal then Min(HealCap, s.enemyHp + HealGain)
      else s.enemyHp;
    BattleState(playerHp, enemyHp, !s.playerTurn, s.playerTurn && a == Defend, !s.playerTurn && a == Defend)
  }

  /** The loop of `minimax` over `get_actions` for one ply, given the three children's scores:
      the first child always replaces the initial infinity, and a later child replaces the
      current best only when it is strictly better. */
  function Pick(maximizing: bool, attack: real, heal: real, defend: real): (r: SearchResult)
    ensures r.best.Some?
    ensures r.score == OptimumOf3(maximizing, attack, heal, defend)
    ensures r.best == Some(Attack) ==> r.score == attack
    ensures r.best == Some(Heal) ==> r.score == heal && Choice.Better(maximizing, heal, attack)
    ensures r.best == Some(Defend) ==>
      r.score == defend && Choice.Better(maximizing, defend, attack) && Choice.Better(maximizing, defend, heal)
  {
    var afterHeal :=
      if Choice.Better(maximizing, heal, attack) then SearchResult(heal, Some(Heal))
      else SearchResult(attack, Some(Attack));
    if Choice.Better(maximizing, defend, afterHeal.score) then SearchResult(defend, Some(Defend))
    else afterHeal
  }

  /** The three-way max (or min) of the textbook definition. */
  function OptimumOf3(maximizing: bool, a: real, h: real, d: real): real
  {
    if maximizing then MaxReal(a, MaxReal(h, d)) else MinReal(a, MinReal(h, d))
  }

  /** The unrolled loop is the shared first-wins scan over the children in search order. */
  lemma PickIsFirstBest(maximizing: bool, attack: real, heal: real, defend: real)
    ensures var i := Choice.FirstBest(maximizing, [attack, heal, defend]);
      && Pick(maximizing, attack, heal, defend).best == Some(SearchOrder[i])
      && Pick(maximizing, attack, heal, defend).score == [attack, heal, defend][i]
  {
    var v := [attack, heal, defend];
    var r := Pick(maximizing, attack, heal, defend);
    var j := SearchIndex(r.best.value);
    assert v[j] == r.score;
    Choice.FirstBestUnique(maximizing, v, j);
  }

  /** `minimax(state, depth, maximizing_player)`: leaves are evaluated, and at any other node
      the children reached by attack, heal and defend are searched with the other side to
      play and one ply less. */
  function Minimax(s: BattleState, depth: nat, maximizing: bool): (r: SearchResult)
    ensures IsTerminal(s) || depth == 0 ==> r == SearchResult(Evaluate(s), None)
    ensures !IsTerminal(s) && depth > 0 ==> r.best.Some?
    decreases depth, 1
  {
    if IsTerminal(s) || depth == 0 then SearchResult(Evaluate(s), None)
    else Expand(s, depth, maximizing)
  }

  /** The non-leaf case of `Minimax`: search the three children and pick among them. */
  function Expand(s: BattleState, depth: nat, maximizing: bool): SearchResult
    requires depth > 0
    decreases depth, 0
  {
    Pick(maximizing,
      Minimax(Apply(s, Attack), depth - 1, !maximizing).score,
      Minimax(Apply(s, Heal), depth - 1, !maximizing).score,
      Minimax(Apply(s, Defend), depth - 1, !maximizing).score)
  }

  /** The textbook minimax value, as an independent reference: max over the children on the
      maximizing ply, min on the other. */
  function MinimaxValue(s: BattleState, depth: nat, maximizing: bool): real
    decreases depth, 1
  {
    if IsTerminal(s) || depth == 0 then Evaluate(s)
    else ExpandValue(s, depth, maximizing)
  }

  /** The non-leaf case of `MinimaxValue`. */
  function ExpandValue(s: BattleState, depth: nat, maximizing: bool): real
    requires depth > 0
    decreases depth, 0
  {
    OptimumOf3(maximizing,
      MinimaxValue(Apply(s, Attack), depth - 1, !maximizing),
      MinimaxValue(Apply(s, Heal), depth - 1, !maximizing),
      MinimaxValue(Apply(s, Defend), depth - 1, !maximizing))
  }

  /** Reference value of the child reached by `a`. */
  function ChildValue(s: BattleState, depth: nat, maximizing: bool, a: Action): real
    requires depth > 0
  {
    MinimaxValue(Apply(s, a), depth - 1, !maximizing)
  }

  /** The scanning search computes exactly the minimax value. */
  lemma {:induction false} MinimaxComputesValue(s: BattleState, depth: nat, maximizing: bool)
    ensures Minimax(s, depth, maximizing).score == MinimaxValue(s, depth, maximizing)
    decreases depth
  {
    if !IsTerminal(s) && depth > 0 {
      MinimaxComputesValue(Apply(s, Attack), depth - 1, !maximizing);
      MinimaxComputesValue(Apply(s, Heal), depth - 1, !maximizing);
      MinimaxComputesValue(Apply(s, Defend), depth - 1, !maximizing);
    }
  }

  /** At a non-leaf the search returns an action; its child attains the returned score, which
      is the best child value for the side to move; and every child earlier in `SearchOrder` is
      strictly worse, so ties go to the first of attack, heal, defend. */
  lemma MinimaxBestChild(s: BattleState, depth: nat, maximizing: bool)
    requires !IsTerminal(s) && depth > 0
    ensures Minimax(s, depth, maximizing).best.Some?
    ensures var r := Minimax(s, depth, maximizing);
      var a, h, d := ChildValue(s, depth, maximizing, Attack), ChildValue(s, depth, maximizing, Heal),
        ChildValue(s, depth, maximizing, Defend);
      && ChildValue(s, depth, maximizing, r.best.value) == r.score
      && !Choice.Better(maximizing, a, r.score)
      && !Choice.Better(maximizing, h, r.score)
      && !Choice.Better(maximizing, d, r.score)
      && (r.best == Some(Heal) ==> Choice.Better(maximizing, r.score, a))
      && (r.best == Some(Defend) ==> Choice.Better(maximizing, r.score, a) && Choice.Better(maximizing, r.score, h))
  {
    MinimaxComputesValue(Apply(s, Attack), depth - 1, !maximizing);
    MinimaxComputesValue(Apply(s, Heal), depth - 1, !maximizing);
    MinimaxComputesValue(Apply(s, Defend), depth - 1, !maximizing);
  }

  /** Both hp values small enough for the heuristic to stay strictly inside the sentinels. */
  predicate Bounded(s: BattleState)
  {
    s.playerHp <= 4000 && s.enemyHp <= 4000
  }

  /** No search result leaves the sentinel range, from any bounded state. */
  lemma {:induction false} MinimaxWithinSentinels(s: BattleState, depth: nat, maximizing: bool)
    requires Bounded(s)
    ensures LossScore <= Minimax(s, depth, maximizing).score <= WinScore
    decreases depth
  {
    if !IsTerminal(s) && depth > 0 {
      var sa, sh, sd := Apply(s, Attack), Apply(s, Heal), Apply(s, Defend);
      MinimaxWithinSentinels(sa, depth - 1, !maximizing);
      MinimaxWithinSentinels(sh, depth - 1, !maximizing);
      MinimaxWithinSentinels(sd, depth - 1, !maximizing);
      PickWithinSentinels(maximizing, Minimax(sa, depth - 1, !maximizing).score,
        Minimax(sh, depth - 1, !maximizing).score, Minimax(sd, depth - 1, !maximizing).score);
    }
  }

  /** Picking among three in-range scores gives an in-range score. */
  lemma PickWithinSentinels(maximizing: bool, a: real, h: real, d: real)
    requires LossScore <= a <= WinScore && LossScore <= h <= WinScore && LossScore <= d <= WinScore
    ensures LossScore <= Pick(maximizing, a, h, d).score <= WinScore
  {
  }

  /** The lethal-blow case: on the AI's maximizing ply, when its attack (25, or 12 against a
      defending player) would finish the player, the search returns attack with the win score,
      at every depth from 1. */
  lemma LethalBlowChosen(s: BattleState, depth: nat)
    requires !s.playerTurn && depth >= 1
    requires 0 < s.playerHp <= (if s.playerDefending then EnemyHitOnDefender else EnemyHit)
    requires 0 < s.enemyHp <= 4000
    ensures Minimax(s, depth, true) == SearchResult(WinScore, Some(Attack))
  {
    MinimaxWithinSentinels(Apply(s, Heal), depth - 1, false);
    MinimaxWithinSentinels(Apply(s, Defend), depth - 1, false);
    assert Minimax(Apply(s, Attack), depth - 1, false).score == WinScore;
  }
}
