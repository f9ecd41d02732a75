/** The decision logic inside the window of game/enhanced_gui.py: the reward the neural AI learns
    from after each of its moves (`calculate_action_score`), and the snapshot of the two live
    combatants that the minimax AI searches from (`execute_ai_action`). */
module EnhancedGui {
  import opened Wrappers
  import opened Numbers
  import opened Actions
  import Config
  import opened Search
  import opened Entities
  import Controller

  /** The clip range of the final score. */
  const ScoreLimit: real := 2.0

  /** The action-dependent part of the score. `preEnemyHp` is the AI's hp before its move,
      `postPlayerHp` the player's hp after it. */
  function ActionTerm(action: Label, preEnemyHp: int, damage: int, healing: int, postPlayerHp: int): (t: real)
    ensures action == Named(Attack) && damage > 0 ==>
      t == damage as real / 30.0 + (if postPlayerHp <= 0 then 2.0 else 0.0)
    ensures action == Named(Heal) && healing > 0 ==>
      t == (if (preEnemyHp as real) < (Config.MaxHp as real) * 0.5 then healing as real / 20.0 else -0.5)
    ensures action == Named(Defend) ==>
      t == (if (preEnemyHp as real) < (Config.MaxHp as real) * 0.3 then 0.5 else 0.1)
    ensures (action.Unrecognised? || (action == Named(Attack) && damage <= 0)
             || (action == Named(Heal) && healing <= 0)) ==> t == 0.0
  {
    match action
    case Named(Attack) =>
      if damage > 0 then damage as real / 30.0 + (if postPlayerHp <= 0 then 2.0 else 0.0) else 0.0
    case Named(Heal) =>
      if healing > 0 then
        (if (preEnemyHp as real) < (Config.MaxHp as real) * 0.5 then healing as real / 20.0 else -0.5)
      else 0.0
    case Named(Defend) =>
      if (preEnemyHp as real) < (Config.MaxHp as real) * 0.3 then 0.5 else 0.1
    case Unrecognised(_) => 0.0
  }

  /** The terms every move gets: −2 when the AI itself ended at or below 0 hp, and the hp
      difference after the move as a fraction of MAX_HP. */
  function OutcomeTerm(postPlayerHp: int, postEnemyHp: int): (t: real)
    ensures 0 <= postPlayerHp <= Config.MaxHp && 0 < postEnemyHp <= Config.MaxHp ==> -1.0 <= t <= 1.0
    ensures postEnemyHp <= 0 && postPlayerHp >= 0 ==> t <= -2.0
    ensures postEnemyHp > 0 && postEnemyHp >= postPlayerHp ==> t >= 0.0
  {
    (if postEnemyHp <= 0 then -2.0 else 0.0) + (postEnemyHp - postPlayerHp) as real / (Config.MaxHp as real)
  }

  /** `calculate_action_score`, with the healing amount as an integer: the sum of the two parts,
      clipped to [−2, 2]. */
  function ActionScore(action: Label, preEnemyHp: int, damage: int, healing: int,
                       postPlayerHp: int, postEnemyHp: int): (r: real)
    ensures -ScoreLimit <= r <= ScoreLimit
    ensures var raw := ActionTerm(action, preEnemyHp, damage, healing, postPlayerHp) + OutcomeTerm(postPlayerHp, postEnemyHp);
      (-ScoreLimit <= raw <= ScoreLimit ==> r == raw) && (raw < -ScoreLimit ==> r == -ScoreLimit)
      && (raw > ScoreLimit ==> r == ScoreLimit)
  {
    Clip(ActionTerm(action, preEnemyHp, damage, healing, postPlayerHp) + OutcomeTerm(postPlayerHp, postEnemyHp),
         -ScoreLimit, ScoreLimit)
  }

  /** More damage never lowers an attack's score. */
  lemma AttackScoreMonotone(preEnemyHp: int, d1: int, d2: int, healing: int, postPlayerHp: int, postEnemyHp: int)
    requires 0 < d1 <= d2
    ensures ActionScore(Named(Attack), preEnemyHp, d1, healing, postPlayerHp, postEnemyHp)
         <= ActionScore(Named(Attack), preEnemyHp, d2, healing, postPlayerHp, postEnemyHp)
  {
  }

  /** An attack that kills the player while the AI survives gets a positive score, so the
      learning target reinforces attack fully: [1, 0, 0] in the network's order. */
  lemma LethalAttackReinforced(preEnemyHp: int, damage: int, healing: int, postPlayerHp: int, postEnemyHp: int)
    requires damage > 0 && postPlayerHp <= 0 && postEnemyHp > 0
    ensures ActionScore(Named(Attack), preEnemyHp, damage, healing, postPlayerHp, postEnemyHp) == ScoreLimit
    ensures Controller.LearningTarget(Named(Attack),
              ActionScore(Named(Attack), preEnemyHp, damage, healing, postPlayerHp, postEnemyHp)) == [1.0, 0.0, 0.0]
  {
    var score := ActionScore(Named(Attack), preEnemyHp, damage, healing, postPlayerHp, postEnemyHp);
    var t := Controller.LearningTarget(Named(Attack), score);
    assert t[0] == 1.0 && t[1] == 0.0 && t[2] == 0.0;
  }

  /** The error Python raises when the heal branch compares the missing healing amount with 0. */
  datatype ScoreError = NoneComparedWithInt

  /** `calculate_action_score` as the window calls it: `healing_done` is whatever the AI's move
      produced, and a missing value is only looked at in the heal branch, where `> 0` raises. */
  function ScoreAsCalled(action: Label, preEnemyHp: int, damage: int, healing: Option<int>,
                         postPlayerHp: int, postEnemyHp: int): (r: Result<real, ScoreError>)
    ensures r.Failure? <==> action == Named(Heal) && healing.None?
    ensures healing.Some? ==> r == Success(ActionScore(action, preEnemyHp, damage, healing.value, postPlayerHp, postEnemyHp))
    ensures healing.None? && action != Named(Heal) ==>
      r == Success(ActionScore(action, preEnemyHp, damage, 0, postPlayerHp, postEnemyHp))
  {
    match healing
    case Some(h) => Success(ActionScore(action, preEnemyHp, damage, h, postPlayerHp, postEnemyHp))
    case None =>
      if action == Named(Heal) then Failure(NoneComparedWithInt)
      else Success(ActionScore(action, preEnemyHp, damage, 0, postPlayerHp, postEnemyHp))
  }

  /** The `healing_done` the window holds when it scores a move: 0 from its initialisation,
      except after a heal, where it is bound to `Character.heal`'s missing result. */
  function LiveHealing(action: Label): (h: Option<int>)
    ensures h.None? <==> action == Named(Heal)
  {
    if action == Named(Heal) then None else Some(0)
  }

  /** As written, scoring any heal by the neural AI raises, whatever the states around it. */
  lemma LiveHealScoringFails(preEnemyHp: int, damage: int, postPlayerHp: int, postEnemyHp: int)
    ensures ScoreAsCalled(Named(Heal), preEnemyHp, damage, LiveHealing(Named(Heal)), postPlayerHp, postEnemyHp).Failure?
  {
  }

  /** With the amount `heal` adds reported, the heal term is +10/20 while the AI was below half
      of MAX_HP and −0.5 otherwise, and the whole score is that term plus the outcome terms,
      clipped. */
  lemma HealScoreIntended(preEnemyHp: int, damage: int, postPlayerHp: int, postEnemyHp: int)
    ensures (preEnemyHp as real) < (Config.MaxHp as real) * 0.5 ==>
      ActionTerm(Named(Heal), preEnemyHp, damage, HealAmount, postPlayerHp) == 0.5
    ensures (preEnemyHp as real) >= (Config.MaxHp as real) * 0.5 ==>
      ActionTerm(Named(Heal), preEnemyHp, damage, HealAmount, postPlayerHp) == -0.5
    ensures var heal := if (preEnemyHp as real) < (Config.MaxHp as real) * 0.5 then 0.5 else -0.5;
      ScoreAsCalled(Named(Heal), preEnemyHp, damage, Some(HealAmount), postPlayerHp, postEnemyHp)
      == Success(Clip(heal + OutcomeTerm(postPlayerHp, postEnemyHp), -ScoreLimit, ScoreLimit))
  {
  }

  /** The search state built from the live combatants: both hp values and defending flags are
      copied, and it is the AI's (enemy's) turn. */
  function Snapshot(player: Character, enemy: Character): (s: BattleState)
    reads player, enemy
    ensures s.playerHp == player.hp && s.enemyHp == enemy.hp
    ensures s.playerDefending == player.isDefending && s.enemyDefending == enemy.isDefending
    ensures !s.playerTurn
  {
    BattleState(player.hp, enemy.hp, false, player.isDefending, enemy.isDefending)
  }

  /** The minimax AI's move: a maximizing search of depth MINIMAX_DEPTH from the snapshot. While
      both are alive it always names an action, and it attacks for the win score when the player
      is within one blow of the search's constants (25, or 12 against a defender). */
  method MinimaxDecision(player: Character, enemy: Character) returns (score: real, action: Option<Action>)
    ensures SearchResult(score, action) == Minimax(Snapshot(player, enemy), Config.MinimaxDepth, true)
    ensures player.IsAlive() && enemy.IsAlive() ==> action.Some?
    ensures (player.IsAlive() && 0 < enemy.hp <= 4000
             && player.hp <= (if player.isDefending then EnemyHitOnDefender else EnemyHit)) ==>
      score == WinScore && action == Some(Attack)
  {
    var state := Snapshot(player, enemy);
    var result := Minimax(state, Config.MinimaxDepth, true);
    if player.IsAlive() && 0 < enemy.hp <= 4000
      && player.hp <= (if player.isDefending then EnemyHitOnDefender else EnemyHit) {
      LethalBlowChosen(state, Config.MinimaxDepth);
    }
    score, action := result.score, result.best;
  }
}
