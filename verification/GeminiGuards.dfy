/** The local decisions of src/services/geminiService.ts around the remote
    calls: the retry rule of callWithRetry (lines 40-48), the response
    guard validateResponse (lines 50-59) and the choice of the aspect ratio
    a sheet is requested in (lines 546-557). The remote calls themselves
    are not part of this model. */
module GeminiGuards {
  import opened Wrappers
  import opened JsText
  import opened StickerTypes

  // ---------------------------------------------------------------------------
  // callWithRetry

  /** What a failed call reports: an HTTP status and a message, either of
      which may be missing. */
  datatype ApiError = ApiError(status: Option<int>, message: Option<string>)

  datatype Outcome<T> = Ok(value: T) | Err(error: ApiError)

  /** Rate limiting (429), an unavailable service (503) or a message that
      says the model is overloaded. */
  predicate Retryable(e: ApiError) {
    e.status == Some(429) || e.status == Some(503) || (e.message.Some? && Includes(e.message.value, "overloaded"))
  }

  /** The outcome handed back and the delays waited before each retry. */
  datatype Trace<T> = Trace(result: Outcome<T>, waits: seq<int>)

  /** The number of retries a retry count allows. */
  function Budget(retries: int): nat {
    if retries > 0 then retries else 0
  }

  /** The call numbered n failed with an error worth retrying. */
  predicate FailedRetryably<T>(call: nat -> Outcome<T>, n: nat) {
    call(n).Err? && Retryable(call(n).error)
  }

  /** callWithRetry from the call numbered k on, call(k) being the outcome
      of the k-th call: a success is returned at once; a retryable error
      with retries left is followed by a wait and a retry with one retry
      less and twice the delay; any other error is passed on. The outcome
      is that of the last call made; every call before it failed
      retryably; the first wait is the delay and each later wait
      twice the one before; and the calls stop early
      only on a success or an error not worth retrying. */
  function CallWithRetry<T>(call: nat -> Outcome<T>, k: nat, retries: int, delay: int): (t: Trace<T>)
    ensures |t.waits| <= Budget(retries)
    ensures t.result == call(k + |t.waits|)
    ensures |t.waits| > 0 ==> t.waits[0] == delay
    ensures forall i :: 0 < i < |t.waits| ==> t.waits[i] == 2 * t.waits[i - 1]
    ensures forall n :: k <= n < k + |t.waits| ==> FailedRetryably(call, n)
    ensures |t.waits| < Budget(retries) ==> !FailedRetryably(call, k + |t.waits|)
    decreases retries
  {
    var outcome := call(k);
    if outcome.Err? && retries > 0 && Retryable(outcome.error) then
      var rest := CallWithRetry(call, k + 1, retries - 1, delay * 2);
      var waits := [delay] + rest.waits;
      Trace(rest.result, waits)
    else
      Trace(outcome, [])
  }

  /** The number of calls made: one more than the number of waits. */
  function CallCount<T>(t: Trace<T>): nat {
    |t.waits| + 1
  }

  /** The defaults (2 retries, 2 seconds): at most three calls, with waits
      of 2 and then 4 seconds. */
  lemma DefaultRetryBudget<T>(call: nat -> Outcome<T>)
    ensures var t := CallWithRetry(call, 0, 2, 2000);
            CallCount(t) <= 3 && t.waits <= [2000, 4000]
  {
    var t := CallWithRetry(call, 0, 2, 2000);
    if |t.waits| == 2 {
      assert t.waits == [2000, 4000];
    } else if |t.waits| == 1 {
      assert t.waits == [2000, 4000][..1];
    }
  }

  /** An error that is not retryable ends the calls at once. */
  lemma NonRetryableNotRetried<T>(call: nat -> Outcome<T>, retries: int, delay: int)
    requires call(0).Err? && !Retryable(call(0).error)
    ensures CallWithRetry(call, 0, retries, delay) == Trace(call(0), [])
  {
  }

  // ---------------------------------------------------------------------------
  // validateResponse

  /** The part of a response candidate the guard examines. */
  datatype Candidate = Candidate(finishReason: Option<string>)

  /** A response, whose candidate list may be missing. */
  datatype Response = Response(candidates: Option<seq<Candidate>>)

  datatype ResponseError = NoCandidates | SafetyBlocked

  /** The first candidate, if there is one. */
  function FirstCandidate(response: Response): Option<Candidate> {
    match response.candidates
    case Some(cs) => if |cs| > 0 then Some(cs[0]) else None
    case None => None
  }

  /** validateResponse: fails without a first candidate, fails when that
      candidate was stopped by the safety filters, and otherwise returns
      it. */
  function ValidateResponse(response: Response): (r: Result<Candidate, ResponseError>)
    ensures r == Failure(NoCandidates) <==> response.candidates.None? || response.candidates.value == []
    ensures r == Failure(SafetyBlocked) <==>
              response.candidates.Some? && |response.candidates.value| > 0 &&
              response.candidates.value[0].finishReason == Some("SAFETY")
    ensures r.Success? ==> response.candidates.Some? && |response.candidates.value| > 0 &&
                           r.value == response.candidates.value[0] && r.value.finishReason != Some("SAFETY")
  {
    match FirstCandidate(response)
    case None => Failure(NoCandidates)
    case Some(c) => if c.finishReason == Some("SAFETY") then Failure(SafetyBlocked) else Success(c)
  }

  // ---------------------------------------------------------------------------
  // The aspect ratio of a sheet request

  datatype AspectRatio = AspectRatio(name: string, value: real)

  /** The ratios the image model accepts, in the order they are compared. */
  const SupportedRatios: seq<AspectRatio> := [
    AspectRatio("1:1", 1.0), AspectRatio("3:4", 0.75), AspectRatio("4:3", 1.333),
    AspectRatio("9:16", 0.5625), AspectRatio("16:9", 1.777)
  ]

  /** `layout?.cols || 4` and `layout?.rows || 2`: a missing layout or a
      zero count falls back to the four-by-two grid. */
  function GridShape(layout: Option<SheetLayout>): (shape: (int, int))
    ensures shape.0 != 0 && shape.1 != 0
    ensures layout.Some? && layout.value.cols != 0 ==> shape.0 == layout.value.cols
    ensures layout.Some? && layout.value.rows != 0 ==> shape.1 == layout.value.rows
    ensures layout.Some? && layout.value.cols == 0 ==> shape.0 == 4
    ensures layout.Some? && layout.value.rows == 0 ==> shape.1 == 2
    ensures layout.None? ==> shape == (4, 2)
  {
    var cols := if layout.Some? && layout.value.cols != 0 then layout.value.cols else 4;
    var rows := if layout.Some? && layout.value.rows != 0 then layout.value.rows else 2;
    (cols, rows)
  }

  function Abs(x: real): real {
    if x < 0.0 then -x else x
  }

  /** How far a ratio is from the target. */
  function Distance(ar: AspectRatio, target: real): real {
    Abs(ar.value - target)
  }

  /** The `reduce` over the first n ratios: the index of the one kept, a
      later ratio replacing the kept one only when strictly closer. */
  function ClosestRatio(ratios: seq<AspectRatio>, target: real, n: nat): (best: nat)
    requires 0 < n <= |ratios|
    ensures best < n
    ensures forall i :: 0 <= i < n ==> Distance(ratios[best], target) <= Distance(ratios[i], target)
    ensures forall i :: 0 <= i < best ==> Distance(ratios[i], target) > Distance(ratios[best], target)
  {
    if n == 1 then 0
    else
      var prev := ClosestRatio(ratios, target, n - 1);
      if Distance(ratios[n - 1], target) < Distance(ratios[prev], target) then n - 1 else prev
  }

  /** The grid's width-to-height ratio in cells. */
  function GridRatio(layout: Option<SheetLayout>): real {
    var shape := GridShape(layout);
    shape.0 as real / shape.1 as real
  }

  /** The position of bestAR among the supported ratios: as close to the
      grid's ratio as any, and strictly closer than every earlier one, so
      that a tie goes to the earlier ratio. */
  function BestRatioIndex(layout: Option<SheetLayout>): (k: nat)
    ensures k < |SupportedRatios|
    ensures forall i :: 0 <= i < |SupportedRatios| ==>
              Distance(SupportedRatios[k], GridRatio(layout)) <= Distance(SupportedRatios[i], GridRatio(layout))
    ensures forall i :: 0 <= i < k ==>
              Distance(SupportedRatios[i], GridRatio(layout)) > Distance(SupportedRatios[k], GridRatio(layout))
  {
    ClosestRatio(SupportedRatios, GridRatio(layout), |SupportedRatios|)
  }

  /** bestAR, the supported ratio closest to cols / rows. */
  function BestAspectRatio(layout: Option<SheetLayout>): AspectRatio {
    SupportedRatios[BestRatioIndex(layout)]
  }

  /** Index of the first ratio from k on with the given name. */
  function FindRatio(name: string, k: nat): (r: Option<nat>)
    requires k <= |SupportedRatios|
    ensures r.Some? ==> k <= r.value < |SupportedRatios| && SupportedRatios[r.value].name == name &&
                        forall j :: k <= j < r.value ==> SupportedRatios[j].name != name
    ensures r.None? ==> forall j :: k <= j < |SupportedRatios| ==> SupportedRatios[j].name != name
    decreases |SupportedRatios| - k
  {
    if k == |SupportedRatios| then None
    else if SupportedRatios[k].name == name then Some(k)
    else FindRatio(name, k + 1)
  }

  /** `find(r => r.ar === bestAR)?.val || 1.0`: the value of the first
      ratio with that name, 1.0 when there is none or its value is 0. */
  function TargetRatio(name: string): (v: real)
    ensures v != 0.0
  {
    match FindRatio(name, 0)
    case Some(i) => if SupportedRatios[i].value != 0.0 then SupportedRatios[i].value else 1.0
    case None => 1.0
  }

  /** The ratio names are distinct, so the target ratio of the chosen name
      is the chosen ratio's own value. */
  lemma TargetRatioOfSupported(k: nat)
    requires k < |SupportedRatios|
    ensures TargetRatio(SupportedRatios[k].name) == SupportedRatios[k].value
  {
    var name := SupportedRatios[k].name;
    assert forall j :: 0 <= j < |SupportedRatios| && j != k ==> SupportedRatios[j].name != name;
    var r := FindRatio(name, 0);
    assert r == Some(k);
  }

  /** The ratio the request is made in is the best one and its value is
      the target ratio. */
  lemma BestAspectRatioTarget(layout: Option<SheetLayout>)
    ensures TargetRatio(BestAspectRatio(layout).name) == BestAspectRatio(layout).value
  {
    TargetRatioOfSupported(BestRatioIndex(layout));
  }

  /** The default four-by-two grid (ratio 2) is sent as 16:9. */
  lemma DefaultGridIsWide()
    ensures BestAspectRatio(None).name == "16:9"
  {
    assert GridRatio(None) == 2.0;
    ClosestExample(2.0, 4);
  }

  /** The forty-sticker grid of five columns and eight rows (ratio 0.625) is
      sent as 9:16. */
  lemma FortyStickerGridIsTall()
    ensures BestAspectRatio(Some(SheetLayout(8, 5, 1850, 2560))).name == "9:16"
  {
    assert GridRatio(Some(SheetLayout(8, 5, 1850, 2560))) == 0.625;
    ClosestExample(0.625, 3);
  }

  /** The one ratio strictly closer to target than all the others is the
      one chosen. */
  lemma ClosestExample(target: real, k: nat)
    requires k < |SupportedRatios|
    requires forall i :: 0 <= i < |SupportedRatios| && i != k ==>
               Distance(SupportedRatios[k], target) < Distance(SupportedRatios[i], target)
    ensures ClosestRatio(SupportedRatios, target, |SupportedRatios|) == k
  {
  }
}
