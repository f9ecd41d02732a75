/** The bookkeeping of `SimpleNeuralNetwork` in game/neural_ai.py: how `predict` turns an output
    vector into an action, and how many entries `train` appends to the performance history.
    The numeric forward and backward passes are not part of this model. */
module Network {
  import opened Wrappers
  import opened Actions
  import Choice

  /** One training pair: an observation and the expected output. */
  datatype Sample = Sample(input: seq<real>, expected: seq<real>)

  /** `predict`'s table from output position to action. Its order differs from the search's
      expansion order (attack, heal, defend). */
  const PredictTable: seq<Action> := [Attack, Defend, Heal]

  /** Position of an action in `PredictTable`. */
  function TableIndex(a: Action): (i: nat)
    ensures i < |PredictTable| && PredictTable[i] == a
  {
    match a
    case Attack => 0
    case Defend => 1
    case Heal => 2
  }

  /** Why `predict` raises: `np.argmax` of an empty output, or a first maximum past the end of
      the three-entry table. */
  datatype DecodeError = EmptyOutput | PastTable

  /** The decoding in `predict`: the first position holding the largest output (`np.argmax`)
      looked up in `PredictTable`. */
  function Decode(output: seq<real>): (r: Result<Action, DecodeError>)
    ensures r == Failure(EmptyOutput) <==> |output| == 0
    ensures 0 < |output| <= |PredictTable| ==> r.Success?
    ensures r == Failure(PastTable) ==>
      exists j :: |PredictTable| <= j < |output| && forall k :: 0 <= k < |PredictTable| ==> output[k] < output[j]
    ensures r.Success? ==>
      var i := TableIndex(r.value);
      && i < |output|
      && (forall j :: 0 <= j < |output| ==> output[j] <= output[i])
      && (forall j :: 0 <= j < i ==> output[j] < output[i])
  {
    if |output| == 0 then Failure(EmptyOutput)
    else
      var i := Choice.FirstBest(true, output);
      if i < |PredictTable| then Success(PredictTable[i]) else Failure(PastTable)
  }

  /** How often `train` records the mean error: at every epoch index divisible by this. */
  const HistoryInterval: nat := 100

  /** `train` divides by the number of samples when it records an error. */
  datatype TrainError = EmptyTrainingData

  /** The number of epoch indices in `0 .. epochs-1` divisible by 100, i.e. `ceil(epochs/100)`. */
  function HistoryLength(epochs: int): (n: nat)
    ensures epochs <= 0 ==> n == 0
    ensures epochs > 0 ==> HistoryInterval * (n - 1) < epochs <= HistoryInterval * n
  {
    if epochs <= 0 then 0 else (epochs + HistoryInterval - 1) / HistoryInterval
  }

  /** The epoch loop of `train(training_data, epochs)`, counting the entries it appends to the
      performance history. With no samples the first recording divides zero by zero, which
      raises, so any positive epoch count fails. */
  method TrainHistoryGrowth(data: seq<Sample>, epochs: int) returns (r: Result<nat, TrainError>)
    ensures |data| > 0 ==> r == Success(HistoryLength(epochs))
    ensures |data| == 0 ==> (r.Failure? <==> epochs > 0)
    ensures r.Success? ==> r.value == HistoryLength(epochs)
  {
    var appended := 0;
    var epoch := 0;
    while epoch < epochs
      invariant 0 <= epoch && (epoch <= epochs || epoch == 0)
      invariant appended == HistoryLength(epoch)
      invariant |data| == 0 ==> epoch == 0
    {
      if epoch % HistoryInterval == 0 {
        if |data| == 0 {
          return Failure(EmptyTrainingData);
        }
        appended := appended + 1;
      }
      epoch := epoch + 1;
    }
    return Success(appended);
  }
}
