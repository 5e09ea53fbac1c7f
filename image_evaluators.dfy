/** The NIMA scoring helpers of the extractor service: the weighted mean that
    turns a ten-class prediction into one score, the ResNet prediction weights,
    and the class-level model cache that downloads the weights file only when
    it is missing. The neural network and the HTTP client are collaborators:
    predictions come in as values, and a download is a function from a URL to
    the response it gets. */
module ImageEvaluators {
  import opened Wrappers
  import opened Paths

  datatype MeanError =
    | ShapeMismatch  // numpy cannot broadcast the prediction against the weights
    | ZeroWeightSum  // numpy divides by a zero weight sum and gets nan or inf

  function Sum(s: seq<real>): real
  {
    if s == [] then 0.0 else Sum(s[..|s| - 1]) + s[|s| - 1]
  }

  /** Element `i` of an operand of numpy's broadcasting: a one-element array
      stands for itself at every position. */
  function At(s: seq<real>, i: nat): real
    requires |s| == 1 || i < |s|
  {
    if |s| == 1 then s[0] else s[i]
  }

  /** `prediction * weights` with numpy broadcasting: equal lengths multiply
      element-wise, a one-element operand is repeated, anything else fails. */
  function Product(p: seq<real>, w: seq<real>): (r: Option<seq<real>>)
    ensures r.Some? <==> |p| == |w| || |p| == 1 || |w| == 1
    ensures r.Some? ==> |r.value| == (if |p| == |w| || |p| != 1 then |p| else |w|)
    ensures r.Some? ==> forall i :: 0 <= i < |r.value| ==> r.value[i] == At(p, i) * At(w, i)
  {
    if |p| == |w| || |w| == 1 then Some(seq(|p|, i requires 0 <= i < |p| => At(p, i) * At(w, i)))
    else if |p| == 1 then Some(seq(|w|, i requires 0 <= i < |w| => At(p, i) * At(w, i)))
    else None
  }

  /** `np.ones_like(prediction)` */
  function Ones(n: nat): (r: seq<real>)
    ensures |r| == n && forall i :: 0 <= i < n ==> r[i] == 1.0
  {
    seq(n, i => 1.0)
  }

  /** `_calculate_weighted_mean`: the sum of the products over the sum of the
      weights, with all-ones weights when none are given. */
  function WeightedMean(prediction: seq<real>, weights: Option<seq<real>>): Result<real, MeanError>
  {
    var w := if weights.None? then Ones(|prediction|) else weights.value;
    match Product(prediction, w)
    case None => Err(ShapeMismatch)
    case Some(pw) => if Sum(w) == 0.0 then Err(ZeroWeightSum) else Ok(Sum(pw) / Sum(w))
  }

  lemma {:induction false} SumOnes(n: nat)
    ensures Sum(Ones(n)) == n as real
  {
    if n > 0 {
      assert Ones(n)[..n - 1] == Ones(n - 1);
      SumOnes(n - 1);
    }
  }

  lemma ScaleBetween(x: real, c: real, lo: real, hi: real)
    requires c >= 0.0 && lo <= x <= hi
    ensures lo * c <= x * c <= hi * c
  {
    assert x * c - lo * c == (x - lo) * c;
    assert hi * c - x * c == (hi - x) * c;
  }

  /** A sum of terms each at least `c` times its weight is at least `c` times
      the weight sum. */
  lemma {:induction false} SumAtLeast(w: seq<real>, pw: seq<real>, c: real)
    requires |w| == |pw|
    requires forall i :: 0 <= i < |w| ==> c * w[i] <= pw[i]
    ensures c * Sum(w) <= Sum(pw)
  {
    if w != [] {
      var n := |w| - 1;
      SumAtLeast(w[..n], pw[..n], c);
      var a := Sum(w[..n]);
      assert c * Sum(w) == c * a + c * w[n];
    }
  }

  /** A sum of terms each at most `c` times its weight is at most `c` times
      the weight sum. */
  lemma {:induction false} SumAtMost(w: seq<real>, pw: seq<real>, c: real)
    requires |w| == |pw|
    requires forall i :: 0 <= i < |w| ==> pw[i] <= c * w[i]
    ensures Sum(pw) <= c * Sum(w)
  {
    if w != [] {
      var n := |w| - 1;
      SumAtMost(w[..n], pw[..n], c);
      var a := Sum(w[..n]);
      assert c * Sum(w) == c * a + c * w[n];
    }
  }

  /** Dividing by a positive number keeps a lower bound scaled by it. */
  lemma DivAtLeast(x: real, s: real, lo: real)
    requires s > 0.0 && lo * s <= x
    ensures lo <= x / s
  {
    assert (x / s - lo) * s == x - lo * s;
  }
  /** Dividing by a positive number keeps an upper bound scaled by it. */
  lemma DivAtMost(x: real, s: real, hi: real)
    requires s > 0.0 && x <= hi * s
    ensures x / s <= hi
  {
    assert (hi - x / s) * s == hi * s - x;
  }
  /** `DivAtLeast` for a ratio of two sums. */
  lemma RatioAtLeast(w: seq<real>, pw: seq<real>, lo: real)
    requires Sum(w) > 0.0 && lo * Sum(w) <= Sum(pw)
    ensures lo <= Sum(pw) / Sum(w)
  {
    DivAtLeast(Sum(pw), Sum(w), lo);
  }
  /** `DivAtMost` for a ratio of two sums. */
  lemma RatioAtMost(w: seq<real>, pw: seq<real>, hi: real)
    requires Sum(w) > 0.0 && Sum(pw) <= hi * Sum(w)
    ensures Sum(pw) / Sum(w) <= hi
  {
    DivAtMost(Sum(pw), Sum(w), hi);
  }

  /** Without weights the result is the arithmetic mean; an empty prediction
      has a zero weight sum. */
  lemma WeightedMeanOfOnes(prediction: seq<real>)
    ensures |prediction| >= 1 ==> WeightedMean(prediction, None) == Ok(Sum(prediction) / |prediction| as real)
    ensures prediction == [] ==> WeightedMean(prediction, None) == Err(ZeroWeightSum)
  {
    var w := Ones(|prediction|);
    SumOnes(|prediction|);
    var pw := Product(prediction, w).value;
    assert pw == prediction;
  }

  /** The ratio of the two sums lies between `lo` and `hi` when each term does
      relative to its weight and the weights have a positive sum. */
  lemma MeanBetween(w: seq<real>, pw: seq<real>, lo: real, hi: real)
    requires |w| == |pw| && Sum(w) > 0.0
    requires forall i :: 0 <= i < |w| ==> lo * w[i] <= pw[i] <= hi * w[i]
    ensures lo <= Sum(pw) / Sum(w) <= hi
  {
    SumAtLeast(w, pw, lo);
    RatioAtLeast(w, pw, lo);
    SumAtMost(w, pw, hi);
    RatioAtMost(w, pw, hi);
  }

  /** Each product of a score between `lo` and `hi` with a non-negative
      weight lies between `lo` and `hi` times the weight. */
  lemma ProductBetween(p: seq<real>, w: seq<real>, lo: real, hi: real) returns (pw: seq<real>)
    requires |p| == |w|
    requires forall i :: 0 <= i < |w| ==> w[i] >= 0.0 && lo <= p[i] <= hi
    ensures Product(p, w) == Some(pw) && |pw| == |w|
    ensures forall i :: 0 <= i < |w| ==> lo * w[i] <= pw[i] <= hi * w[i]
  {
    pw := Product(p, w).value;
    forall i | 0 <= i < |w|
      ensures lo * w[i] <= pw[i] <= hi * w[i]
    {
      assert pw[i] == p[i] * w[i];
      ScaleBetween(p[i], w[i], lo, hi);
    }
  }

  /** With as many non-negative weights as classes and a positive weight sum,
      the weighted mean lies between the smallest and the largest class score. */
  lemma WeightedMeanBounds(prediction: seq<real>, weights: seq<real>, lo: real, hi: real)
    requires |prediction| == |weights|
    requires forall i :: 0 <= i < |weights| ==> weights[i] >= 0.0
    requires Sum(weights) > 0.0
    requires forall i :: 0 <= i < |prediction| ==> lo <= prediction[i] <= hi
    ensures WeightedMean(prediction, Some(weights)).Ok?
    ensures lo <= WeightedMean(prediction, Some(weights)).value <= hi
  {
    var pw := ProductBetween(prediction, weights, lo, hi);
    MeanBetween(weights, pw, lo, hi);
  }

  /** `_ResNetModel._prediction_weights`: `np.arange(1, 11)`. */
  const PredictionWeights: seq<real> := [1.0, 2.0, 3.0, 4.0, 5.0, 6.0, 7.0, 8.0, 9.0, 10.0]

  /** The weights are the class ratings 1 to 10, in class order; they sum to 55. */
  lemma PredictionWeightsValues()
    ensures |PredictionWeights| == 10
    ensures forall i :: 0 <= i < 10 ==> PredictionWeights[i] == (i + 1) as real
    ensures Sum(PredictionWeights) == 55.0
  {
    var w := PredictionWeights;
    assert Sum([]) == 0.0;
    assert Sum([1.0]) == 1.0 by { assert [1.0][..0] == []; }
    assert Sum([1.0, 2.0]) == 3.0 by { assert [1.0, 2.0][..1] == [1.0]; }
    assert Sum([1.0, 2.0, 3.0]) == 6.0 by { assert [1.0, 2.0, 3.0][..2] == [1.0, 2.0]; }
    assert Sum([1.0, 2.0, 3.0, 4.0]) == 10.0 by { assert [1.0, 2.0, 3.0, 4.0][..3] == [1.0, 2.0, 3.0]; }
    assert Sum([1.0, 2.0, 3.0, 4.0, 5.0]) == 15.0 by { assert [1.0, 2.0, 3.0, 4.0, 5.0][..4] == [1.0, 2.0, 3.0, 4.0]; }
    assert Sum([1.0, 2.0, 3.0, 4.0, 5.0, 6.0]) == 21.0 by { assert [1.0, 2.0, 3.0, 4.0, 5.0, 6.0][..5] == [1.0, 2.0, 3.0, 4.0, 5.0]; }
    assert Sum([1.0, 2.0, 3.0, 4.0, 5.0, 6.0, 7.0]) == 28.0 by { assert [1.0, 2.0, 3.0, 4.0, 5.0, 6.0, 7.0][..6] == [1.0, 2.0, 3.0, 4.0, 5.0, 6.0]; }
    assert Sum([1.0, 2.0, 3.0, 4.0, 5.0, 6.0, 7.0, 8.0]) == 36.0 by { assert [1.0, 2.0, 3.0, 4.0, 5.0, 6.0, 7.0, 8.0][..7] == [1.0, 2.0, 3.0, 4.0, 5.0, 6.0, 7.0]; }
    assert Sum([1.0, 2.0, 3.0, 4.0, 5.0, 6.0, 7.0, 8.0, 9.0]) == 45.0 by { assert [1.0, 2.0, 3.0, 4.0, 5.0, 6.0, 7.0, 8.0, 9.0][..8] == [1.0, 2.0, 3.0, 4.0, 5.0, 6.0, 7.0, 8.0]; }
    assert Sum([1.0, 2.0, 3.0, 4.0, 5.0, 6.0, 7.0, 8.0, 9.0, 10.0]) == 55.0 by { assert [1.0, 2.0, 3.0, 4.0, 5.0, 6.0, 7.0, 8.0, 9.0, 10.0][..9] == [1.0, 2.0, 3.0, 4.0, 5.0, 6.0, 7.0, 8.0, 9.0]; }
  }

  /** A ten-class prediction with every class score in `[lo, hi]` scores in
      `[lo, hi]` too. */
  lemma NimaScoreBounds(prediction: seq<real>, lo: real, hi: real)
    requires |prediction| == 10
    requires forall i :: 0 <= i < 10 ==> lo <= prediction[i] <= hi
    ensures WeightedMean(prediction, Some(PredictionWeights)).Ok?
    ensures lo <= WeightedMean(prediction, Some(PredictionWeights)).value <= hi
  {
    PredictionWeightsValues();
    WeightedMeanBounds(prediction, PredictionWeights, lo, hi);
  }

  /** `evaluate_images` from the model's predictions on: one weighted mean per
      prediction, in prediction order; a prediction numpy cannot weigh raises. */
  function EvaluateImages(predictions: seq<seq<real>>): (r: Result<seq<real>, MeanError>)
    ensures r.Ok? <==> forall i :: 0 <= i < |predictions| ==> WeightedMean(predictions[i], Some(PredictionWeights)).Ok?
    ensures r.Ok? ==> |r.value| == |predictions|
    ensures r.Ok? ==> forall i :: 0 <= i < |predictions| ==> r.value[i] == WeightedMean(predictions[i], Some(PredictionWeights)).value
  {
    if predictions == [] then Ok([])
    else
      var n := |predictions| - 1;
      var init := EvaluateImages(predictions[..n]);
      var last := WeightedMean(predictions[n], Some(PredictionWeights));
      assert forall j :: 0 <= j < n ==> predictions[..n][j] == predictions[j];
      if init.Err? then Err(init.error)
      else if last.Err? then Err(last.error)
      else Ok(init.value + [last.value])
  }

  /** The error raised is that of the first prediction numpy cannot weigh. */
  lemma {:induction false} EvaluateImagesFirstError(predictions: seq<seq<real>>)
    ensures EvaluateImages(predictions).Err? ==>
              exists i :: 0 <= i < |predictions| &&
                WeightedMean(predictions[i], Some(PredictionWeights)) == Err(EvaluateImages(predictions).error) &&
                forall j :: 0 <= j < i ==> WeightedMean(predictions[j], Some(PredictionWeights)).Ok?
  {
    if predictions != [] {
      var n := |predictions| - 1;
      var init := predictions[..n];
      EvaluateImagesFirstError(init);
      assert forall j :: 0 <= j < n ==> init[j] == predictions[j];
      if EvaluateImages(init).Err? {
        var i :| 0 <= i < n && WeightedMean(init[i], Some(PredictionWeights)) == Err(EvaluateImages(init).error) &&
                 forall j :: 0 <= j < i ==> WeightedMean(init[j], Some(PredictionWeights)).Ok?;
        assert WeightedMean(predictions[i], Some(PredictionWeights)) == Err(EvaluateImages(predictions).error);
      } else if EvaluateImages(predictions).Err? {
        assert WeightedMean(predictions[n], Some(PredictionWeights)) == Err(EvaluateImages(predictions).error);
      }
    }
  }

  /** The level `_check_scores` logs at. */
  datatype LogLevel = Debug | Warning

  /** `_check_scores`: a length mismatch is only logged as a warning; the check
      has no error outcome. */
  function CheckScores<I, S>(images: seq<I>, scores: seq<S>): (r: LogLevel)
    ensures r == Warning <==> |images| != |scores|
  {
    if |images| == |scores| then Debug else Warning
  }

  /** The settings the model cache reads from the extractor configuration. */
  datatype ModelConfig = ModelConfig(weightsDirectory: string, weightsFilename: string, weightsRepoUrl: string)

  /** What `requests.get` answers. */
  datatype Response = Response(statusCode: int, content: seq<bv8>)

  /** A model built from the weights file at `weightsPath`. */
  datatype Model = Model(weightsPath: string)

  datatype DownloadError = DownloadingModelWeightsError(statusCode: int)

  /** `Path(weights_directory) / weights_filename` */
  function WeightsPath(cfg: ModelConfig): string
  {
    Join(cfg.weightsDirectory, cfg.weightsFilename)
  }

  /** `f"{weights_repo_url}{weights_filename}"` */
  function WeightsUrl(cfg: ModelConfig): string
  {
    cfg.weightsRepoUrl + cfg.weightsFilename
  }

  /** The class-level state of `_NIMAModel` (one object stands for the class),
      with the weights files on disk, every URL requested so far and every
      weights path a model was built from. */
  class NimaModel {
    var config: Option<ModelConfig>
    var model: Option<Model>
    var files: map<string, seq<bv8>>
    var requests: seq<string>
    var built: seq<string>

    constructor(files: map<string, seq<bv8>>)
      ensures config == None && model == None && this.files == files && requests == [] && built == []
    {
      config := None;
      model := None;
      this.files := files;
      requests := [];
      built := [];
    }

    /** `reset`: forget the model and the configuration. */
    method Reset()
      modifies this
      ensures model == None && config == None
      ensures files == old(files) && requests == old(requests) && built == old(built)
    {
      model := None;
      config := None;
    }

    /** `get_model`: a cached model is returned untouched; otherwise the
        configuration is stored, the weights are found or downloaded, and the
        model is built from them once. A failed download leaves no model, but
        the configuration stays stored. */
    method GetModel(cfg: ModelConfig, fetch: string -> Response) returns (r: Result<Model, DownloadError>)
      modifies this
      ensures old(model).Some? ==>
                r == Ok(old(model).value) && model == old(model) && config == old(config) &&
                files == old(files) && requests == old(requests) && built == old(built)
      ensures old(model).None? ==> config == Some(cfg)
      ensures old(model).None? && WeightsPath(cfg) in old(files) ==>
                r == Ok(Model(WeightsPath(cfg))) && model == Some(Model(WeightsPath(cfg))) &&
                files == old(files) && requests == old(requests) && built == old(built) + [WeightsPath(cfg)]
      ensures old(model).None? && WeightsPath(cfg) !in old(files) ==>
                requests == old(requests) + [WeightsUrl(cfg)] &&
                var response := fetch(WeightsUrl(cfg));
                if response.statusCode == 200 then
                  r == Ok(Model(WeightsPath(cfg))) && model == Some(Model(WeightsPath(cfg))) &&
                  files == old(files)[WeightsPath(cfg) := response.content] && built == old(built) + [WeightsPath(cfg)]
                else
                  r == Err(DownloadingModelWeightsError(response.statusCode)) && model == None &&
                  files == old(files) && built == old(built)
      ensures r.Ok? ==> model == Some(r.value)
    {
      if model.Some? {
        return Ok(model.value);
      }
      ghost var before := files;
      config := Some(cfg);
      var path := GetModelWeights(fetch);
      assert config.value == cfg;
      ghost var response := fetch(WeightsUrl(cfg));
      assert WeightsPath(cfg) !in before && response.statusCode == 200 ==>
               files == before[WeightsPath(cfg) := response.content];
      if path.Err? {
        return Err(path.error);
      }
      model := Some(Model(path.value));
      built := built + [path.value];
      r := Ok(model.value);
    }

    /** `_get_model_weights`: the weights path, downloaded first only when no
        file is there. */
    method GetModelWeights(fetch: string -> Response) returns (r: Result<string, DownloadError>)
      requires config.Some?
      modifies this
      ensures config == old(config) && model == old(model) && built == old(built)
      ensures WeightsPath(config.value) in old(files) ==>
                r == Ok(WeightsPath(config.value)) && files == old(files) && requests == old(requests)
      ensures WeightsPath(config.value) !in old(files) ==>
                requests == old(requests) + [WeightsUrl(config.value)] &&
                var response := fetch(WeightsUrl(config.value));
                if response.statusCode == 200 then
                  r == Ok(WeightsPath(config.value)) && files == old(files)[WeightsPath(config.value) := response.content]
                else
                  r == Err(DownloadingModelWeightsError(response.statusCode)) && files == old(files)
    {
      var path := WeightsPath(config.value);
      if path !in files {
        var err := DownloadModelWeights(path, fetch);
        if err.Some? {
          return Err(err.value);
        }
      }
      r := Ok(path);
    }

    /** `_download_model_weights`: request `repo_url + filename`; status 200
        writes the body to `weightsPath`, any other status is an error and
        writes nothing. */
    method DownloadModelWeights(weightsPath: string, fetch: string -> Response) returns (err: Option<DownloadError>)
      requires config.Some?
      modifies this
      ensures config == old(config) && model == old(model) && built == old(built)
      ensures requests == old(requests) + [WeightsUrl(config.value)]
      ensures var response := fetch(WeightsUrl(config.value));
              if response.statusCode == 200 then
                err == None && files == old(files)[weightsPath := response.content]
              else
                err == Some(DownloadingModelWeightsError(response.statusCode)) && files == old(files)
    {
      var url := WeightsUrl(config.value);
      var response := fetch(url);
      requests := requests + [url];
      if response.statusCode == 200 {
        files := files[weightsPath := response.content];
        err := None;
      } else {
        err := Some(DownloadingModelWeightsError(response.statusCode));
      }
    }
  }
}
