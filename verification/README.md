# Turn-based duel AI: a Dafny model of its decision logic

The repository is a one-on-one turn-based duel. A human player fights an AI enemy, and each turn
a combatant attacks, heals or defends. The enemy is driven by one of two deciders:

- a **minimax search** over an immutable battle snapshot (`game/minimax.py`);
- a small **neural controller** that learns from scored outcomes (`game/neural_ai.py`, with the
  outcome score computed by `calculate_action_score` in `game/enhanced_gui.py`).

Live fights mutate two `Character` objects (`game/entities.py`). The console front end draws hp
bars (`game/engine.py`).

The project models these pieces as Dafny modules, one per source file or class:

| module | file | models |
|---|---|---|
| `Actions` | `actions.dfy` | the three actions, and the string labels the neural code passes around (unknown labels are tolerated) |
| `Choice` | `choice.dfy` | the first-wins best-index scan: `np.argmax` in `predict`, and (through `Search.PickIsFirstBest`) the minimax loop |
| `Search` | `search.dfy` | `BattleState`, `is_terminal`, `evaluate`, `get_actions`, `apply_action`, `minimax`, and a textbook reference minimax value |
| `Entities` | `entities.dfy` | `Character` as a class with frame conditions, plus its damage and heal arithmetic as pure functions |
| `Network` | `network.dfy` | the `predict` decode table and the `train` history count |
| `Controller` | `controller.dfy` | `NeuralAI` bookkeeping: the observation, the one-hot encoding, reward-scaled targets, the bounded experience buffer and retrain cadence, and the bootstrap labelling rule |
| `EnhancedGui` | `enhanced_gui.dfy` | `calculate_action_score`, the search snapshot, and the minimax decision made by the window |
| `Engine` | `engine.dfy` | `draw_health_bar` and `render_hp_bar` |
| `Config`, `Numbers`, `Wrappers` | | the two configuration constants the core reads (MAX_HP 300, MINIMAX_DEPTH 6), `min`/`max`/`clip`, and `Option`/`Result` |

Scores, targets and observations are exact `real`s. Python's `//` is floor division (`Engine.FloorDiv`).
`int()` of a float truncates toward zero (`Engine.Truncate`). Integer hp is unbounded, as in Python.

A few behaviours of the code worth knowing when reading the model:

- live `attack` is deterministic: `atk − defense`, or `atk − 2·defense` against a defender,
  at least 1, and the target's hp can go below 0 (game/entities.py:15-17);
- live `heal` adds a fixed 10 up to `max_hp` and returns nothing (game/entities.py:25-28);
- `evaluate` is `2·enemy − 1.5·player`, plus 10 when the enemy is ahead (game/minimax.py:18-20);
- the search enumerates attack, heal, defend (game/minimax.py:23-24), while the network's
  encoding and decoding use attack, defend, heal (game/neural_ai.py:102, 174); both orders are kept;
- the search's enemy blow is 25, or 12 against a defender (game/minimax.py:42), while the window's live enemy deals `25 − 5 = 20`, or `25 − 10 = 15` against a defender (game/enhanced_gui.py:36-37, game/config.py:5-8), so the search can see a lethal blow where the live one leaves the player alive, and the reverse;
- the search's heal caps hp at 100 (game/minimax.py:37, 45), while MAX_HP is 300 (game/config.py:4);
- the bootstrap heal rule tests `player_hp` (game/neural_ai.py:260);
- exploration in `decide_action` is a fixed 10% (game/neural_ai.py:190).

## Model

| member | source | states |
|---|---|---|
| `Actions.Name` | game/minimax.py:23-24 | Each action's label parses back to that action. |
| `Actions.ParseLabel` | game/neural_ai.py:174-176 | A label is recognised exactly when it is "attack", "heal" or "defend". Any other string is kept as an unrecognised label and raises nothing. The `Label` type cannot hold an unrecognised action name, so each string has exactly one label. |
| `Choice.Scan` | game/minimax.py:63-81 | Scanning on from a best-so-far that no earlier entry beats, and that strictly beats every entry before it, ends at an entry nothing beats. Every entry before it is strictly worse, so ties keep the first. |
| `Choice.FirstBest` | game/neural_ai.py:100 | For a non-empty vector, the index is an optimum under strict comparison, and every earlier entry is strictly worse (first maximum wins, like `np.argmax`). |
| `Choice.FirstBestUnique` | game/neural_ai.py:100 | Any index that is an optimum with only strictly worse entries before it is the one `FirstBest` returns. |
| `Numbers.Clip` | game/neural_ai.py:215 | `np.clip` of a value (used also at game/enhanced_gui.py:702): the result lies in the range, equals the value inside it, and is the nearer bound outside it. |
| `Search.SearchIndex` | game/minimax.py:23-24 | Every action occurs in the fixed search order attack, heal, defend. |
| `Search.IsTerminal` | game/minimax.py:9-10 | A state is terminal when either side's hp is at or below 0. |
| `Search.TerminalIffSentinel` | game/minimax.py:9-16 | With at most 4000 hp a side, a state is terminal exactly when `evaluate` returns one of the two sentinels. |
| `Search.Evaluate` | game/minimax.py:12-21 | Player hp ≤ 0 gives 10000, even when both sides are at or below 0. Otherwise enemy hp ≤ 0 gives −10000. A non-terminal state with both hp ≤ 4000 scores strictly between the two sentinels. |
| `Search.EvaluateMonotone` | game/minimax.py:18-20 | Between non-terminal states, more enemy hp or less player hp never lowers the heuristic. A strict change in either strictly raises it. |
| `Search.HitDamage` | game/minimax.py:34-42 | The search's fixed damage of the mover's attack: 20, or 10 against a defending enemy, on the player's turn; 25, or 12 against a defending player, on the enemy's. |
| `Search.Apply` | game/minimax.py:26-55 | The turn always flips. Only the actor's own defending flag can be set, and only by defend. Attack lowers the opponent's hp by 20/10 (player) or 25/12 (enemy against a defender), floored at 0. Heal sets the actor's hp to `min(100, hp+10)`. Nothing else changes. |
| `Search.Pick` | game/minimax.py:63-81 | The three-way loop starting from ∓infinity always names an action. Its score is the max (or min) of the three child scores. The named action is the first child attaining that score. |
| `Search.PickIsFirstBest` | game/minimax.py:63-81 | The loop picks the child at the first-wins best index of the shared scan over the scores in search order, and returns that child's score. |
| `Search.Minimax` | game/minimax.py:57-59 | A terminal state or depth 0 gives `(evaluate(state), None)`. Any other call names an action. |
| `Search.Expand` | game/minimax.py:61-81 | A non-leaf call: the three children in search order are searched one ply deeper with the other side to move, and `Pick` chooses among their scores. |
| `Search.MinimaxValue` | game/minimax.py:57-81 | The reference definition: the evaluation at a leaf, otherwise the max (maximizing ply) or min of the three children's values. |
| `Search.MinimaxComputesValue` | game/minimax.py:57-81 | The returned score equals the textbook minimax value: max over children on the maximizing ply, min on the other. |
| `Search.MinimaxBestChild` | game/minimax.py:63-81 | At a non-leaf, the returned action's child has the returned score. No child is better, and every child enumerated before it is strictly worse. |
| `Search.MinimaxWithinSentinels` | game/minimax.py:57-81 | From a state with both hp ≤ 4000, every search score lies within [−10000, 10000]. |
| `Search.LethalBlowChosen` | game/minimax.py:57-81 | Take the enemy's maximizing turn at depth ≥ 1, with the player alive within one enemy blow (25, or 12 when defending) and enemy hp in (0, 4000]. Then the search returns `(10000, attack)`. This relies on lines 13-14 and 42-43. |
| `Entities.StrikeDamage` | game/entities.py:15-16 | Damage is `atk − defense`, or `atk − 2·defense` against a defender, raised to 1 when lower. It is always ≥ 1. |
| `Entities.DefendingNeverHurts` | game/entities.py:15-16 | With non-negative defense, defending never increases the damage taken. |
| `Entities.HealedHp` | game/entities.py:25-28 | The result is `min(max_hp, hp+10)`. It never exceeds max_hp. From hp ≤ max_hp it gains at most 10. From above max_hp it drops to max_hp. |
| `Entities.Character.Init` | game/entities.py:2-8 | The starting hp is also the maximum, nobody starts defending, and the new character is alive exactly when its hp is positive. |
| `Entities.Character.IsAlive` | game/entities.py:10-11 | A character is alive while its hp is positive. |
| `Entities.Character.Attack` | game/entities.py:13-19 | Returns the damage, which is ≥ 1, and lowers the target's hp by exactly that amount with no floor. Everything else on both characters is unchanged. |
| `Entities.Character.Defend` | game/entities.py:21-23 | Sets the defending flag. Nothing else changes. |
| `Entities.Character.Heal` | game/entities.py:25-28 | hp becomes `min(max_hp, hp+10)`. Nothing else changes. It returns no value. |
| `Entities.Character.ResetTurn` | game/entities.py:30-31 | Clears the defending flag. Nothing else changes. |
| `Network.TableIndex` | game/neural_ai.py:102-103 | Every action sits in the predict table `['attack','defend','heal']`. |
| `Network.Decode` | game/neural_ai.py:99-103 | An empty output fails, as `np.argmax` raises. A first maximum past the table fails, as the lookup raises. A non-empty output of at most three entries decodes to the table entry at its first maximum. |
| `Network.HistoryLength` | game/neural_ai.py:92-94 | The number of epoch indices in `range(epochs)` divisible by 100 is `ceil(epochs/100)`, and 0 for non-positive epochs. |
| `Network.TrainHistoryGrowth` | game/neural_ai.py:76-94 | A `train` call appends exactly `HistoryLength(epochs)` history entries. With no training data and at least one epoch it fails, because the average divides by zero. |
| `Controller.GameStateToInput` | game/neural_ai.py:153-170 | Six components: the two hp values over MAX_HP; the two flags as 0/1; `min(turn/20, 1)`, which is ≤ 1; and the hp difference over MAX_HP, equal to component 1 minus component 0. |
| `Controller.OutputIndex` | game/neural_ai.py:174 | `action_map` sends every action to one of the three output positions. |
| `Controller.OutputIndexMatchesTable` | game/neural_ai.py:102-103 | `action_map` and the predict table agree: position `action_map[a]` of the table holds `a`. |
| `Controller.ActionToOutput` | game/neural_ai.py:172-178 | Three entries, one-hot at attack→0, defend→1, heal→2. An unrecognised label gives all zeros. |
| `Controller.RewardFactor` | game/neural_ai.py:209-212 | The scale is positive; it reinforces (above 1) exactly for a positive score and weakens (below 1) exactly for a negative one. |
| `Controller.EncodeDecode` | game/neural_ai.py:100-103 | Decoding the one-hot vector of an action gives back that action. |
| `Controller.LearningTarget` | game/neural_ai.py:206-215 | Every entry is in [0,1], and the non-taken entries are 0. The taken entry is 0.8 for a negative score and 1.0 otherwise, since 1.2 is clipped. |
| `Controller.TargetDecodes` | game/neural_ai.py:206-215 | Whatever the score, the learning target still decodes to the action taken. |
| `Controller.Remember` | game/neural_ai.py:218-226 | The new entry ends the buffer, and the buffer is a suffix of old-plus-new. It grows by one below 1000 and evicts the oldest at 1000. Retraining fires exactly when the new length is a multiple of 50, so always once full. |
| `Controller.RetrainBatch` | game/neural_ai.py:230-235 | Nothing below 10 entries. Otherwise the last `min(len, 50)` entries, in order. |
| `Controller.Replay` | game/neural_ai.py:218-222 | The buffer after the learning calls for a sequence of experiences, starting empty: each call is one `Remember`. |
| `Controller.LearnFromExperience` | game/neural_ai.py:195-226 | The observation and target are appended via `Remember`. When retraining fires, it trains on exactly the newest 50 entries. |
| `Controller.TrainingRunsRecordHistory` | game/neural_ai.py:228-238 | A retraining run (100 epochs) records one history entry. The bootstrap run (1000 epochs, game/neural_ai.py:273) records ten. |
| `Controller.ReplayKeepsMostRecent` | game/neural_ai.py:218-222 | After learning from a sequence of n experiences, the buffer is the last `min(n, 1000)` of them, in insertion order. |
| `Controller.RetrainCadence` | game/neural_ai.py:221-226 | The n-th learning call retrains exactly when `min(n, 1000)` is a multiple of 50. |
| `Controller.BootstrapLabel` | game/neural_ai.py:260-267 | Heal exactly when player hp < 0.3·MAX_HP. Defend exactly when that fails, enemy hp ≥ 0.3·MAX_HP, and enemy hp > 1.5·player hp. Otherwise attack. |
| `Controller.BootstrapData` | game/neural_ai.py:244-270 | One sample per situation, whose target is the one-hot vector of that situation's bootstrap label. |
| `Controller.BootstrapTargetsDecode` | game/neural_ai.py:260-270 | Every bootstrap target decodes to the label the rule chose, and every input is its situation's observation. |
| `EnhancedGui.ActionTerm` | game/enhanced_gui.py:679-694 | Attack with damage > 0 gives damage/30, plus 2 when the player is dead. Heal with healing > 0 gives healing/20 below half MAX_HP, else −0.5. Defend gives 0.5 below 0.3·MAX_HP, else 0.1. Anything else gives 0. |
| `EnhancedGui.OutcomeTerm` | game/enhanced_gui.py:696-700 | The −2 death penalty and the hp difference over MAX_HP. With both hp in range and the AI alive it is within [−1, 1]. A dead AI gets at most −2. An AI alive and not behind gets at least 0. |
| `EnhancedGui.ActionScore` | game/enhanced_gui.py:675-702 | The score is the action term, minus 2 if the enemy died, plus the hp difference over MAX_HP, clipped to [−2, 2]. It is always within [−2, 2]. |
| `EnhancedGui.AttackScoreMonotone` | game/enhanced_gui.py:679-680 | Other things equal, more damage never scores lower. |
| `EnhancedGui.LethalAttackReinforced` | game/enhanced_gui.py:679-682 | A damaging attack that kills the player while the AI lives scores the maximum 2.0. Its learning target is exactly the attack one-hot vector. |
| `EnhancedGui.ScoreAsCalled` | game/enhanced_gui.py:684 | Scoring fails exactly when the action is heal and the healing amount is missing. With an amount it is `ActionScore` of that amount. With no amount and another action the `and` short-circuits and it is `ActionScore` with 0. |
| `EnhancedGui.LiveHealing` | game/enhanced_gui.py:642 | The window's healing amount is missing exactly after a heal. |
| `EnhancedGui.LiveHealScoringFails` | game/enhanced_gui.py:684 | As written, scoring any neural-AI heal fails. |
| `EnhancedGui.HealScoreIntended` | game/enhanced_gui.py:684-688 | With the 10 points `heal` adds, the heal term is +0.5 below half MAX_HP and −0.5 otherwise. The scoring call then succeeds, with that term plus the outcome term, clipped to [−2, 2]. |
| `EnhancedGui.Snapshot` | game/enhanced_gui.py:617-621 | The search state copies both hp values and both defending flags, and it is the AI's turn. |
| `EnhancedGui.MinimaxDecision` | game/enhanced_gui.py:617-623 | The decision is a maximizing search of depth MINIMAX_DEPTH from the snapshot. It names an action while both are alive. It returns `(10000, attack)` when the player is within one blow of the search's constants (25, or 12 against a defender). |
| `Engine.FloorDiv` | game/engine.py:5 | Python's `//`: the quotient rounds toward negative infinity for either sign of divisor. |
| `Engine.Truncate` | game/engine.py:10 | Python's `int()` of a float: rounds toward zero. |
| `Engine.Repeat` | game/engine.py:6 | `c * n` has length `max(n, 0)` and holds only `c`. |
| `Engine.Digits` | game/engine.py:7 | The decimal digits of a natural number are non-empty, all digits, without a leading zero, and denote that number. |
| `Engine.DecimalString` | game/engine.py:7 | `str(n)` is non-empty and starts with `-` exactly for negative n. The rest is the canonical decimal digits of `|n|`: all digits, no leading zero, denoting `|n|`. |
| `Engine.DrawHealthBar` | game/engine.py:4-7 | The builder fails exactly when max_hp is 0, by division by zero. |
| `Engine.FilledCells` | game/engine.py:5 | `draw_health_bar`'s filled count, `bar_length * hp // max_hp` with floor division. |
| `Engine.HealthBar` | game/engine.py:6 | `draw_health_bar`'s bar: the filled run of full blocks, then `-` for the rest of the bar length. |
| `Engine.FilledWithinBar` | game/engine.py:5 | For 0 ≤ hp ≤ max_hp, the filled count `bar_length·hp // max_hp` is within [0, bar_length]. |
| `Engine.FilledMonotone` | game/engine.py:5 | A larger hp never gives fewer filled cells. |
| `Engine.HealthBarShape` | game/engine.py:5-6 | For 0 ≤ hp ≤ max_hp, the bar is exactly bar_length cells: full blocks up to the filled count, then `-`. Full hp gives all full blocks, and hp 0 gives all `-`. |
| `Engine.NegativeHpOverflows` | game/engine.py:5-6 | A negative hp gives a negative filled count, no full block, and a `-` run longer than the bar. |
| `Engine.DrawHealthBarLayout` | game/engine.py:7 | The line is the name and " HP: |", then the bar, then "| hp/max_hp", with the bar in exactly bar_length positions. |
| `Engine.RenderHpBar` | game/engine.py:9-12 | The builder fails exactly when max_hp is 0. |
| `Engine.RenderFilled` | game/engine.py:10 | `render_hp_bar`'s filled count: the truncation toward zero of `(hp / max_hp) * bar_length`, with an exact fraction. |
| `Engine.RenderAgreesWithDraw` | game/engine.py:10 | For non-negative hp and bar length, truncating the exact fraction fills as many cells as `draw_health_bar`'s floor division. |
| `Engine.RenderShape` | game/engine.py:10-12 | For 0 ≤ hp ≤ max_hp, the line is "[", the filled run and then spaces, exactly bar_length cells in all, then "] hp/max_hp". |
| `Engine.NegativeHpBuildersDisagree` | game/engine.py:5-10 | Below zero the builders disagree. At hp −1 of 300 on 20 cells, `draw_health_bar` fills −1 cells while `render_hp_bar` fills 0. |

## Left out

- Network numerics: `sigmoid`, `forward`, `backward` and the squared errors (game/neural_ai.py:39-74, 85-86) are floating-point `exp` and matrix arithmetic. Only shapes and counts are modelled, so `Network.Decode` takes the network output as an input.
- Network.TrainHistoryGrowth: states how many entries are appended and when the call fails, not the error values recorded.
- Persistence: `save_model`, `load_model` and `get_performance_stats` are file and JSON I/O.
- Randomness is left out: the 10% exploration in `decide_action`, the random weight initialisation and the sampled bootstrap states. The bootstrap states are inputs (`Controller.BootstrapData` takes the situations).
- The tkinter window, animations and timers in game/enhanced_gui.py, apart from the scoring function and the snapshot, are left out, as are game/window_manager.py and game/game_gui.py (with its random damage).
- The console loop `run_game` (game/engine.py:14-64), the demo menus and packaging are left out. Prints are dropped everywhere.
- game/config.py is not modelled beyond the two constants the core reads: MAX_HP (300) and MINIMAX_DEPTH (6).
- Engine.RenderAgreesWithDraw: holds for the exact fraction only. In doubles `87/300` rounds below 0.29, so `int((87/300)*200)` is 57 while `200*87//300` is 58, and the two builders differ by one cell at hp 87 of 300 on 200 cells.
- Search.Minimax: the depth is a natural number. Python's `minimax` accepts a negative depth, never reaches depth 0 and recurses until `RecursionError`, but every caller passes 3, 6 or 8 (game/config.py:15, 40-42; game/engine.py:50).
- Floating point: scores, observations and targets are exact reals. The thresholds `300·0.3` and `300·0.5` are exact in doubles as well, but float rounding elsewhere (for example `damage/30`) is not modelled. NaN outputs of the network are not modelled.
- Search.Evaluate: the strict inside-the-sentinels clause is stated only for hp ≤ 4000 on both sides, which covers MAX_HP 300 and the heal cap of 100. For larger hp the heuristic can reach the sentinels.
- Search.MinimaxWithinSentinels: stated for states with both hp ≤ 4000, for the same reason.
- Search.LethalBlowChosen: stated for enemy hp ≤ 4000, for the same reason.
- EnhancedGui.MinimaxDecision: the lethal-blow clause is stated for enemy hp ≤ 4000, for the same reason.
- EnhancedGui.ActionScore: `healing_done` is an integer parameter. The value the window actually passes after a heal is modelled separately (see Findings).

## Findings

| source | as written | input that shows it | evidently intended | confidence | as-written member | corrected member |
|---|---|---|---|---|---|---|
| game/enhanced_gui.py:642 | `healing_done = self.enemy.heal()` binds the result of `Character.heal`, which returns nothing (game/entities.py:25-28). The heal branch then evaluates `healing_done > 0` (game/enhanced_gui.py:684), which raises `TypeError` in Python 3. | The neural AI with learning enabled chooses heal, in any state. | The amount healed (10) is reported, so the heal term is +0.5 below half MAX_HP and −0.5 otherwise, and the score is that term plus the outcome term, clipped. | high, not executed | `EnhancedGui.ScoreAsCalled`, `EnhancedGui.LiveHealScoringFails` | `EnhancedGui.ActionScore`, `EnhancedGui.HealScoreIntended` |
