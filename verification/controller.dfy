/** The non-numeric bookkeeping of `NeuralAI` in game/neural_ai.py: the observation vector, the
    one-hot encoding of actions, reward-scaled learning targets, the bounded experience buffer
    with its retraining cadence, and the labelling rule of the bootstrap data set. */
module Controller {
  import opened Wrappers
  import opened Numbers
  import opened Actions
  import Config
  import opened Network

  const BufferCapacity: nat := 1000
  const RetrainEvery: nat := 50
  const RetrainMinimum: nat := 10
  const RetrainWindow: nat := 50
  const RetrainEpochs: int := 100
  const BootstrapEpochs: int := 1000

  /** `game_state_to_input`: both hp values as fractions of MAX_HP, the two defending flags as
      0 or 1, the turn count over 20 capped at 1, and the hp difference as a fraction. */
  function GameStateToInput(playerHp: int, enemyHp: int, playerDefending: bool, enemyDefending: bool,
                            turnCount: int): (x: seq<real>)
    ensures |x| == 6
    ensures x[0] * (Config.MaxHp as real) == playerHp as real
    ensures x[1] * (Config.MaxHp as real) == enemyHp as real
    ensures x[2] == (if playerDefending then 1.0 else 0.0)
    ensures x[3] == (if enemyDefending then 1.0 else 0.0)
    ensures x[4] <= 1.0 && (x[4] == 1.0 <==> turnCount >= 20)
    ensures turnCount < 20 ==> x[4] * 20.0 == turnCount as real
    ensures x[5] == x[1] - x[0]
    ensures 0 <= playerHp <= Config.MaxHp && 0 <= enemyHp <= Config.MaxHp ==>
      0.0 <= x[0] <= 1.0 && 0.0 <= x[1] <= 1.0 && -1.0 <= x[5] <= 1.0
  {
    var maxHp := Config.MaxHp as real;
    [playerHp as real / maxHp,
     enemyHp as real / maxHp,
     if playerDefending then 1.0 else 0.0,
     if enemyDefending then 1.0 else 0.0,
     MinReal(turnCount as real / 20.0, 1.0),
     (enemyHp - playerHp) as real / maxHp]
  }

  /** The `action_map` of `action_to_output`. */
  function OutputIndex(a: Action): (i: nat)
    ensures i < 3
  {
    match a
    case Attack => 0
    case Defend => 1
    case Heal => 2
  }

  /** `action_map` and `predict`'s table are inverse to each other. */
  lemma OutputIndexMatchesTable(a: Action)
    ensures PredictTable[OutputIndex(a)] == a
    ensures TableIndex(a) == OutputIndex(a)
  {
  }

  /** `action_to_output`: one-hot at the action's position; an unrecognised label gives the
      all-zero vector and no error. */
  function ActionToOutput(l: Label): (v: seq<real>)
    ensures |v| == 3
    ensures forall i :: 0 <= i < 3 ==> v[i] == (if l.Named? && i == OutputIndex(l.action) then 1.0 else 0.0)
  {
    match l
    case Named(a) => seq(3, i requires 0 <= i < 3 => if i == OutputIndex(a) then 1.0 else 0.0)
    case Unrecognised(_) => [0.0, 0.0, 0.0]
  }

  /** Round trip: `predict`'s decoding of the encoding of an action is that action. */
  lemma EncodeDecode(a: Action)
    ensures Decode(ActionToOutput(Named(a))) == Success(a)
  {
    var v := ActionToOutput(Named(a));
    var r := Decode(v);
    assert v[OutputIndex(a)] == 1.0;
    assert r.Success?;
    var i := TableIndex(r.value);
    assert v[i] >= v[OutputIndex(a)];
    assert i == OutputIndex(a);
    OutputIndexMatchesTable(a);
  }

  /** The reward scaling of `learn_from_experience`: 1.2 for a positive score, 0.8 for a
      negative one, unchanged at zero. */
  function RewardFactor(score: real): (f: real)
    ensures f > 0.0
    ensures score > 0.0 <==> f > 1.0
    ensures score < 0.0 <==> f < 1.0
  {
    if score > 0.0 then 1.2 else if score < 0.0 then 0.8 else 1.0
  }

  /** The learning target: the one-hot vector scaled by `RewardFactor` and clipped to [0, 1].
      The clip undoes the reinforcement, so the taken action's entry is 1.0 unless the score is
      negative, when it is 0.8; the other entries stay 0. */
  function LearningTarget(l: Label, score: real): (t: seq<real>)
    ensures |t| == 3
    ensures forall i :: 0 <= i < 3 ==> 0.0 <= t[i] <= 1.0
    ensures forall i :: 0 <= i < 3 && !(l.Named? && i == OutputIndex(l.action)) ==> t[i] == 0.0
    ensures l.Named? ==> t[OutputIndex(l.action)] == (if score < 0.0 then 0.8 else 1.0)
  {
    var v := ActionToOutput(l);
    seq(3, i requires 0 <= i < 3 => Clip(v[i] * RewardFactor(score), 0.0, 1.0))
  }

  /** Whatever the score, the learning target still decodes to the action taken. */
  lemma TargetDecodes(a: Action, score: real)
    ensures Decode(LearningTarget(Named(a), score)) == Success(a)
  {
    var t := LearningTarget(Named(a), score);
    var r := Decode(t);
    assert t[OutputIndex(a)] > 0.0;
    assert r.Success?;
    var i := TableIndex(r.value);
    assert t[i] >= t[OutputIndex(a)];
    assert i == OutputIndex(a);
    OutputIndexMatchesTable(a);
  }

  /** The buffer after one insertion, and whether retraining fires. */
  datatype Remembered = Remembered(buffer: seq<Sample>, retrain: bool)

  /** Appending to the experience buffer: one oldest entry is evicted when the buffer would
      exceed its capacity, and retraining fires exactly when the resulting length is a multiple
      of 50, hence on every call once the buffer is full. */
  function Remember(buffer: seq<Sample>, e: Sample): (r: Remembered)
    ensures |r.buffer| > 0 && r.buffer[|r.buffer| - 1] == e
    ensures |r.buffer| <= |buffer| + 1 && r.buffer == (buffer + [e])[|buffer| + 1 - |r.buffer|..]
    ensures |buffer| < BufferCapacity ==> |r.buffer| == |buffer| + 1
    ensures |buffer| >= BufferCapacity ==> |r.buffer| == |buffer|
    ensures r.retrain <==> |r.buffer| % RetrainEvery == 0
    ensures |buffer| == BufferCapacity ==> r.retrain
  {
    var appended := buffer + [e];
    var kept := if |appended| > BufferCapacity then appended[1..] else appended;
    Remembered(kept, |kept| % RetrainEvery == 0)
  }

  /** `retrain_network`'s data: nothing below 10 entries, otherwise the last 50 (all of them
      when there are fewer). */
  function RetrainBatch(buffer: seq<Sample>): (batch: Option<seq<Sample>>)
    ensures batch.None? <==> |buffer| < RetrainMinimum
    ensures batch.Some? ==>
      |batch.value| == Min(|buffer|, RetrainWindow) && batch.value == buffer[|buffer| - |batch.value|..]
  {
    if |buffer| < RetrainMinimum then None
    else Some(buffer[Max(0, |buffer| - RetrainWindow)..])
  }

  /** The buffer after a learning call, and the data retraining ran on, if it ran. */
  datatype LearnStep = LearnStep(buffer: seq<Sample>, batch: Option<seq<Sample>>)

  /** `learn_from_experience`: the observation and reward-scaled target are appended, and when
      retraining fires it always finds enough data and trains on the 50 newest entries. */
  function LearnFromExperience(buffer: seq<Sample>, playerHp: int, enemyHp: int, action: Label,
                               score: real, playerDefending: bool, enemyDefending: bool,
                               turnCount: int): (r: LearnStep)
    ensures r.buffer ==
      Remember(buffer, Sample(GameStateToInput(playerHp, enemyHp, playerDefending, enemyDefending, turnCount),
                              LearningTarget(action, score))).buffer
    ensures r.batch.Some? <==> |r.buffer| % RetrainEvery == 0
    ensures r.batch.Some? ==> r.batch.value == r.buffer[|r.buffer| - RetrainWindow..]
  {
    var input := GameStateToInput(playerHp, enemyHp, playerDefending, enemyDefending, turnCount);
    var remembered := Remember(buffer, Sample(input, LearningTarget(action, score)));
    if remembered.retrain then
      FullWindow(|remembered.buffer|);
      LearnStep(remembered.buffer, RetrainBatch(remembered.buffer))
    else LearnStep(remembered.buffer, None)
  }

  /** A positive buffer length that is a multiple of the cadence holds a whole window. */
  lemma FullWindow(n: nat)
    requires n > 0 && n % RetrainEvery == 0
    ensures n >= RetrainWindow
  {
  }

  /** Each retraining run trains for 100 epochs and so records one history entry; the bootstrap
      run trains for 1000 and records ten. */
  lemma TrainingRunsRecordHistory()
    ensures HistoryLength(RetrainEpochs) == 1
    ensures HistoryLength(BootstrapEpochs) == 10
  {
  }

  /** The buffer after learning from `es` in order, starting empty. */
  function Replay(es: seq<Sample>): seq<Sample>
  {
    if |es| == 0 then [] else Remember(Replay(es[..|es| - 1]), es[|es| - 1]).buffer
  }

  /** After n learning calls the buffer holds the `min(n, 1000)` most recent entries, oldest
      first. */
  lemma {:induction false} ReplayKeepsMostRecent(es: seq<Sample>)
    ensures Replay(es) == es[|es| - Min(|es|, BufferCapacity)..]
  {
    if |es| > 0 {
      ReplayKeepsMostRecent(es[..|es| - 1]);
      WindowSlides(es, Replay(es[..|es| - 1]));
    }
  }

  /** One insertion moves the window of the most recent entries along by one. */
  lemma WindowSlides(es: seq<Sample>, before: seq<Sample>)
    requires |es| > 0
    requires before == es[|es| - 1 - Min(|es| - 1, BufferCapacity)..|es| - 1]
    ensures Remember(before, es[|es| - 1]).buffer == es[|es| - Min(|es|, BufferCapacity)..]
  {
    var n := |es|;
    var k := Min(n - 1, BufferCapacity);
    assert es[n - 1 - k..] == es[n - 1 - k..n - 1] + [es[n - 1]];
    if k == BufferCapacity {
      assert (before + [es[n - 1]])[1..] == es[n - BufferCapacity..];
    }
  }

  /** The n-th learning call retrains exactly when `min(n, 1000)` is a multiple of 50. */
  lemma RetrainCadence(es: seq<Sample>)
    requires |es| > 0
    ensures Remember(Replay(es[..|es| - 1]), es[|es| - 1]).retrain <==> Min(|es|, BufferCapacity) % RetrainEvery == 0
  {
    ReplayKeepsMostRecent(es);
  }

  /** The labelling rule of `train_initial_model`, in priority order: heal when the player's hp
      is below 30% of MAX_HP, else attack when the enemy's is, else defend when the enemy has
      more than 1.5 times the player's hp, else attack. */
  function BootstrapLabel(playerHp: int, enemyHp: int): (a: Action)
    ensures a == Heal <==> (playerHp as real) < (Config.MaxHp as real) * 0.3
    ensures a == Defend <==>
      !((playerHp as real) < (Config.MaxHp as real) * 0.3)
      && !((enemyHp as real) < (Config.MaxHp as real) * 0.3)
      && (enemyHp as real) > (playerHp as real) * 1.5
  {
    var critical := (Config.MaxHp as real) * 0.3;
    if (playerHp as real) < critical then Heal
    else if (enemyHp as real) < critical then Attack
    else if (enemyHp as real) > (playerHp as real) * 1.5 then Defend
    else Attack
  }

  /** One sampled situation of the bootstrap data set; the sampling itself is random. */
  datatype Situation = Situation(playerHp: int, enemyHp: int, playerDefending: bool, enemyDefending: bool,
                                 turnCount: int)

  /** The bootstrap training set built from the sampled situations. */
  function BootstrapData(situations: seq<Situation>): (data: seq<Sample>)
    ensures |data| == |situations|
    ensures forall i :: 0 <= i < |data| ==>
      data[i].expected == ActionToOutput(Named(BootstrapLabel(situations[i].playerHp, situations[i].enemyHp)))
  {
    seq(|situations|, i requires 0 <= i < |situations| =>
      var c := situations[i];
      Sample(GameStateToInput(c.playerHp, c.enemyHp, c.playerDefending, c.enemyDefending, c.turnCount),
             ActionToOutput(Named(BootstrapLabel(c.playerHp, c.enemyHp)))))
  }

  /** Every bootstrap target decodes to its label, and every input is its situation's
      observation. */
  lemma BootstrapTargetsDecode(situations: seq<Situation>, i: nat)
    requires i < |situations|
    ensures var c := situations[i];
      && Decode(BootstrapData(situations)[i].expected) == Success(BootstrapLabel(c.playerHp, c.enemyHp))
      && BootstrapData(situations)[i].input
         == GameStateToInput(c.playerHp, c.enemyHp, c.playerDefending, c.enemyDefending, c.turnCount)
  {
    EncodeDecode(BootstrapLabel(situations[i].playerHp, situations[i].enemyHp));
  }
}
