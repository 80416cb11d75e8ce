/** The request handler (`predict_roulette`): validate the `last_5_numbers`
    field of the request body, encode it once, then ask every model of the
    roster in turn for the probabilities of the 37 pockets and record, per
    model, either the top three blocks of five pockets or a text marker.
    A model that is missing or fails is recorded and the loop goes on. */
module Handler {
  import Wheel
  import FeatureEncoder
  import BlockScorer

  /** HTTP status codes the handler answers with. */
  const OK: nat := 200
  const BadRequest: nat := 400

  /** Number of recent outcomes a request must carry. */
  const WindowLength: nat := 5

  const MissingFieldMessage: string := "Errore: Il campo \"last_5_numbers\" è richiesto nel payload JSON."
  const BadWindowMessage: string := "Errore: \"last_5_numbers\" deve essere una lista di 5 numeri."
  /** Recorded for a model that could not be loaded. */
  const UnavailableMarker: string := "Modello non disponibile"
  /** Put in front of the text of an exception raised while predicting. */
  const ErrorPrefix: string := "Errore durante la previsione: "

  /** The `last_5_numbers` member of the request body: missing (or no JSON
      object at all), present but not a list, or a list of numbers. */
  datatype Field = Absent | NotAList | List(items: seq<int>)

  /** What a model's `predict_proba` gives for one encoded window: the
      probability row of the single sample, or the text of the exception it
      raised. */
  datatype Prediction = Probabilities(row: seq<real>) | Raised(message: string)

  /** An entry of the model dictionary: `None` when loading failed, else a
      classifier, seen only through its `predict_proba`. */
  datatype Slot = Unavailable | Loaded(predictProba: seq<int> -> Prediction)

  /** What the response records for one model. */
  datatype ModelResult = Marker(text: string) | Blocks(blocks: seq<seq<int>>)

  /** The handler's answer: a 400 with a message, or a 200 with one entry
      per model, in the dictionary's order. */
  datatype Response =
    | Rejected(status: nat, message: string)
    | Accepted(status: nat, predictions: seq<(string, ModelResult)>)

  predicate ValidWindow(field: Field) {
    field.List? && |field.items| == WindowLength
  }

  /** The decimal digits of `n`, as `str(n)` writes them. */
  function Decimal(n: nat): (s: string)
    ensures |s| >= 1 && forall k | 0 <= k < |s| :: '0' <= s[k] <= '9'
  {
    var digit := ['0', '1', '2', '3', '4', '5', '6', '7', '8', '9'][n % 10];
    if n < 10 then [digit] else Decimal(n / 10) + [digit]
  }

  /** The text of the `IndexError` numpy raises for reading entry `index` of
      a one-dimensional array of `size` entries. */
  function IndexErrorMessage(index: nat, size: nat): string {
    "index " + Decimal(index) + " is out of bounds for axis 0 with size " + Decimal(size)
  }

  /** The pocket whose probability the block scan fails to read when the
      row is too short: the first such pocket in wheel order. */
  function Culprit(row: seq<real>): (n: nat)
    requires BlockScorer.Raises(row, BlockScorer.HandlerBlockSize)
    ensures n >= |row| && Wheel.IsPocket(n)
  {
    Wheel.WheelIsPermutation();
    BlockScorer.RaisingHasCulprit(Wheel.Sequence, row, BlockScorer.HandlerBlockSize);
    Wheel.Sequence[BlockScorer.FirstUnreadable(Wheel.Sequence, row, 0)]
  }

  /** What the response records for one model given the encoded window. */
  function Outcome(slot: Slot, features: seq<int>): ModelResult {
    match slot
    case Unavailable => Marker(UnavailableMarker)
    case Loaded(predictProba) =>
      match predictProba(features)
      case Raised(message) => Marker(ErrorPrefix + message)
      case Probabilities(row) =>
        if BlockScorer.Raises(row, BlockScorer.HandlerBlockSize) then
          Marker(ErrorPrefix + IndexErrorMessage(Culprit(row), |row|))
        else
          Blocks(BlockScorer.TopBlocks(Wheel.Sequence, row, BlockScorer.HandlerNumBlocks, BlockScorer.HandlerBlockSize))
  }

  /** The entries recorded for `roster`, one per model, in roster order. */
  function Predictions(roster: seq<(string, Slot)>, features: seq<int>): (preds: seq<(string, ModelResult)>)
    ensures |preds| == |roster|
  {
    seq(|roster|, i requires 0 <= i < |roster| => (roster[i].0, Outcome(roster[i].1, features)))
  }

  /** The response to a request whose body carries `field`, with the model
      dictionary `roster`. */
  function Respond(field: Field, roster: seq<(string, Slot)>): Response {
    match field
    case Absent => Rejected(BadRequest, MissingFieldMessage)
    case NotAList => Rejected(BadRequest, BadWindowMessage)
    case List(items) =>
      if |items| != WindowLength then Rejected(BadRequest, BadWindowMessage)
      else
        Accepted(OK, Predictions(roster, FeatureEncoder.FeatureVector(
          items, FeatureEncoder.NumOutcomes, FeatureEncoder.SequenceLength)))
  }

  /** `predict_roulette` for a POST request. */
  method PredictRoulette(field: Field, roster: seq<(string, Slot)>) returns (response: Response)
    ensures response == Respond(field, roster)
  {
    if field.Absent? {
      return Rejected(BadRequest, MissingFieldMessage);
    }
    if !field.List? || |field.items| != WindowLength {
      return Rejected(BadRequest, BadWindowMessage);
    }
    // Five numbers never reach past the five encoded positions, so the
    // encoder, which runs outside the `try`, does not raise here.
    var encoded := FeatureEncoder.PrepareFeatures(
      field.items, FeatureEncoder.NumOutcomes, FeatureEncoder.SequenceLength);
    var inputFeatures := encoded.value;
    var allPredictions: seq<(string, ModelResult)> := [];
    for i := 0 to |roster|
      invariant allPredictions == Predictions(roster[..i], inputFeatures)
    {
      var (modelName, slot) := roster[i];
      assert roster[..i + 1] == roster[..i] + [roster[i]];
      if slot.Unavailable? {
        allPredictions := allPredictions + [(modelName, Marker(UnavailableMarker))];
        continue;
      }
      var prediction := slot.predictProba(inputFeatures);
      var result: ModelResult;
      match prediction {
        case Raised(message) =>
          result := Marker(ErrorPrefix + message);
        case Probabilities(row) =>
          var top := BlockScorer.FindContiguousBlocks(
            row, BlockScorer.HandlerNumBlocks, BlockScorer.HandlerBlockSize);
          match top {
            case Ok(blocks) =>
              result := Blocks(blocks);
            case IndexOutOfRange(index, size) =>
              result := Marker(ErrorPrefix + IndexErrorMessage(index, size));
          }
      }
      allPredictions := allPredictions + [(modelName, result)];
    }
    assert roster[..|roster|] == roster;
    response := Accepted(OK, allPredictions);
  }

  /** A request is turned away exactly when the field is missing, is not a
      list, or is a list of other than five numbers; the message says which,
      and no model is consulted, so the models cannot change the answer. */
  lemma RejectsExactlyInvalid(field: Field, roster: seq<(string, Slot)>, other: seq<(string, Slot)>)
    ensures Respond(field, roster).Rejected? <==> !ValidWindow(field)
    ensures Respond(field, roster).Rejected? ==>
      && Respond(field, roster).status == BadRequest
      && Respond(field, roster).message == (if field.Absent? then MissingFieldMessage else BadWindowMessage)
      && Respond(field, roster) == Respond(field, other)
    ensures Respond(field, roster).Accepted? ==> Respond(field, roster).status == OK
  {
  }

  /** An accepted request gets exactly one entry per model, under the
      model's name and in the dictionary's order, whatever each model did. */
  lemma OneEntryPerModel(field: Field, roster: seq<(string, Slot)>)
    requires ValidWindow(field)
    ensures Respond(field, roster).Accepted?
    ensures |Respond(field, roster).predictions| == |roster|
    ensures forall i | 0 <= i < |roster| :: Respond(field, roster).predictions[i].0 == roster[i].0
  {
  }

  /** Which kind of entry a model gets: blocks exactly when it is loaded and
      returns a row covering all 37 pockets; the unavailability marker
      exactly when it is missing; an error text otherwise. */
  lemma OutcomeKinds(slot: Slot, features: seq<int>)
    ensures Outcome(slot, features).Blocks? <==>
      slot.Loaded? && slot.predictProba(features).Probabilities? &&
      |slot.predictProba(features).row| >= Wheel.Size
    ensures Outcome(slot, features) == Marker(UnavailableMarker) <==> slot.Unavailable?
    ensures (Outcome(slot, features).Marker? && !slot.Unavailable?) ==>
      |Outcome(slot, features).text| >= |ErrorPrefix| &&
      Outcome(slot, features).text[..|ErrorPrefix|] == ErrorPrefix
    ensures slot.Loaded? && slot.predictProba(features).Raised? ==>
      Outcome(slot, features) == Marker(ErrorPrefix + slot.predictProba(features).message)
  {
    if slot.Loaded? && Outcome(slot, features).Marker? {
      var text := Outcome(slot, features).text;
      assert text[0] == 'E' != UnavailableMarker[0];
    }
  }

  /** A model's blocks are three runs of five distinct pockets each, every
      run made of neighbours on the wheel. */
  lemma BlocksAreWheelRuns(slot: Slot, features: seq<int>)
    requires Outcome(slot, features).Blocks?
    ensures var blocks := Outcome(slot, features).blocks;
      && |blocks| == BlockScorer.HandlerNumBlocks
      && (forall k | 0 <= k < |blocks| ::
            |blocks[k]| == BlockScorer.HandlerBlockSize && Wheel.Distinct(blocks[k]) &&
            forall i | 0 <= i < |blocks[k]| :: Wheel.IsPocket(blocks[k][i]))
      && (forall k | 0 <= k < |blocks| :: Wheel.IsRun(Wheel.Sequence, blocks[k]))
  {
    Wheel.WheelIsPermutation();
    BlockScorer.TopBlocksAreRuns(Wheel.Sequence, slot.predictProba(features).row,
      BlockScorer.HandlerNumBlocks, BlockScorer.HandlerBlockSize);
  }
}
