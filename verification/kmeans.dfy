/** The K-Means client's local logic: parameter validation with its seven
    messages, the default parameters, the `data:` URL prefix for result
    images, and how a result query's reply becomes "no result yet". */
module KMeans {
  import opened Wrappers
  import Text
  import Errors

  type Rgb = (int, int, int)

  /** Clustering parameters. The counts are whole numbers here. */
  datatype Parameters = Parameters(
    nclusters: int,
    criteria: string,
    maxIterations: int,
    attempts: int,
    epsilon: real,
    flags: string,
    colors: seq<Rgb>)

  const ClustersMessage: string := "Количество кластеров должно быть от 2 до 10"
  const IterationsMessage: string := "Максимальное количество итераций должно быть от 10 до 500"
  const AttemptsMessage: string := "Количество попыток должно быть от 1 до 10"
  const EpsilonMessage: string := "Epsilon должно быть больше 0 и не больше 10"
  const CriteriaMessage: string := "Неверный критерий остановки"
  const FlagsMessage: string := "Неверный метод инициализации"
  const ColorsMessage: string := "Количество цветов должно соответствовать количеству кластеров"

  /** The messages in the order the checks run. */
  function Messages(): (ms: seq<string>)
    ensures |ms| == 7
  {
    [ClustersMessage, IterationsMessage, AttemptsMessage, EpsilonMessage,
     CriteriaMessage, FlagsMessage, ColorsMessage]
  }

  /** Whether check `k` (in message order) fails for `p`. */
  predicate Fails(p: Parameters, k: int) {
    match k
    case 0 => p.nclusters < 2 || p.nclusters > 10
    case 1 => p.maxIterations < 10 || p.maxIterations > 500
    case 2 => p.attempts < 1 || p.attempts > 10
    case 3 => p.epsilon <= 0.0 || p.epsilon > 10.0
    case 4 => p.criteria !in ["epsilon", "max iterations", "all"]
    case 5 => p.flags !in ["pp", "random"]
    case 6 => |p.colors| != p.nclusters
    case _ => false
  }

  /** The messages of the failing checks among the first `k`, in order. */
  function FailingMessages(p: Parameters, k: nat): (errors: seq<string>)
    requires k <= 7
    ensures |errors| <= k
    ensures forall m :: m in errors ==> exists j :: 0 <= j < k && Messages()[j] == m && Fails(p, j)
  {
    if k == 0 then []
    else FailingMessages(p, k - 1) + (if Fails(p, k - 1) then [Messages()[k - 1]] else [])
  }

  /** `validateParameters`: one message per failing check, in check order. */
  function ValidateParameters(p: Parameters): (errors: seq<string>)
    ensures |errors| <= 7
    ensures errors == [] <==>
      2 <= p.nclusters <= 10 && 10 <= p.maxIterations <= 500 && 1 <= p.attempts <= 10 &&
      0.0 < p.epsilon <= 10.0 && p.criteria in ["epsilon", "max iterations", "all"] &&
      p.flags in ["pp", "random"] && |p.colors| == p.nclusters
  {
    var errors := (if p.nclusters < 2 || p.nclusters > 10 then [ClustersMessage] else [])
      + (if p.maxIterations < 10 || p.maxIterations > 500 then [IterationsMessage] else [])
      + (if p.attempts < 1 || p.attempts > 10 then [AttemptsMessage] else [])
      + (if p.epsilon <= 0.0 || p.epsilon > 10.0 then [EpsilonMessage] else [])
      + (if p.criteria !in ["epsilon", "max iterations", "all"] then [CriteriaMessage] else [])
      + (if p.flags !in ["pp", "random"] then [FlagsMessage] else [])
      + (if |p.colors| != p.nclusters then [ColorsMessage] else []);
    errors
  }

  /** The seven messages are pairwise different. */
  lemma MessagesDistinct()
    ensures forall i, j :: 0 <= i < j < 7 ==> Messages()[i] != Messages()[j]
  {
    var ms := Messages();
    assert |ms[0]| == 43 && |ms[1]| == 57 && |ms[2]| == 41 && |ms[3]| == 43;
    assert |ms[4]| == 27 && |ms[5]| == 28 && |ms[6]| == 61;
    assert ms[0][0] != ms[3][0];
  }

  /** The validation runs the checks in message order. */
  lemma ValidateParametersInCheckOrder(p: Parameters)
    ensures ValidateParameters(p) == FailingMessages(p, 7)
  {
    var ms := Messages();
    assert FailingMessages(p, 1) == (if Fails(p, 0) then [ms[0]] else []);
    assert FailingMessages(p, 2) == FailingMessages(p, 1) + (if Fails(p, 1) then [ms[1]] else []);
    assert FailingMessages(p, 3) == FailingMessages(p, 2) + (if Fails(p, 2) then [ms[2]] else []);
    assert FailingMessages(p, 4) == FailingMessages(p, 3) + (if Fails(p, 3) then [ms[3]] else []);
    assert FailingMessages(p, 5) == FailingMessages(p, 4) + (if Fails(p, 4) then [ms[4]] else []);
    assert FailingMessages(p, 6) == FailingMessages(p, 5) + (if Fails(p, 5) then [ms[5]] else []);
    assert FailingMessages(p, 7) == FailingMessages(p, 6) + (if Fails(p, 6) then [ms[6]] else []);
  }

  /** Check `k`'s message is among the failing messages exactly when check
      `k` fails: the messages are distinct, so none stands for another. */
  lemma FailingMessagesMembership(p: Parameters)
    ensures forall k :: 0 <= k < 7 ==> (Messages()[k] in FailingMessages(p, 7) <==> Fails(p, k))
  {
    MessagesDistinct();
    forall k | 0 <= k < 7
      ensures Messages()[k] in FailingMessages(p, 7) <==> Fails(p, k)
    {
      if Fails(p, k) {
        assert FailingMessages(p, k + 1) == FailingMessages(p, k) + [Messages()[k]];
        FailingPrefixKeeps(p, k + 1, 7);
      }
    }
  }

  /** The validation lists exactly the failing checks' messages, in check
      order; so check `k`'s message is present iff that check fails, and
      messages are never repeated. */
  lemma ValidateParametersOrder(p: Parameters)
    ensures ValidateParameters(p) == FailingMessages(p, 7)
    ensures forall k :: 0 <= k < 7 ==> (Messages()[k] in ValidateParameters(p) <==> Fails(p, k))
  {
    ValidateParametersInCheckOrder(p);
    FailingMessagesMembership(p);
  }

  /** Later checks only append to the messages of earlier ones. */
  lemma {:induction false} FailingPrefixKeeps(p: Parameters, k: nat, n: nat)
    requires k <= n <= 7
    ensures forall m :: m in FailingMessages(p, k) ==> m in FailingMessages(p, n)
    decreases n - k
  {
    if k < n {
      FailingPrefixKeeps(p, k, n - 1);
    }
  }

  /** `getDefaultParameters(n)`: `n` colours (3 when not given) from `hsl` at
      evenly spaced hues with saturation 70 and lightness 50, and fixed
      settings. */
  function DefaultParameters(hsl: (real, real, real) -> Rgb, n: int := 3): (p: Parameters)
    ensures p.nclusters == n
    ensures |p.colors| == if n > 0 then n else 0
    ensures forall i :: 0 <= i < |p.colors| ==>
      p.colors[i] == hsl((i * 360) as real / n as real, 70.0, 50.0)
    ensures p.criteria == "all" && p.maxIterations == 100 && p.attempts == 5 &&
      p.epsilon == 0.5 && p.flags == "pp"
  {
    var count := if n > 0 then n else 0;
    var colors := seq(count, i requires 0 <= i < count => hsl((i * 360) as real / n as real, 70.0, 50.0));
    Parameters(n, "all", 100, 5, 0.5, "pp", colors)
  }

  /** The defaults pass validation exactly for 2 to 10 clusters; outside that
      range the cluster-count message is the first one reported. */
  lemma DefaultParametersValid(n: int, hsl: (real, real, real) -> Rgb)
    ensures ValidateParameters(DefaultParameters(hsl, n)) == [] <==> 2 <= n <= 10
    ensures !(2 <= n <= 10) ==> ValidateParameters(DefaultParameters(hsl, n))[0] == ClustersMessage
  {
  }

  /** Called without a count, the defaults are three valid clusters. */
  lemma DefaultCountIsThree(hsl: (real, real, real) -> Rgb)
    ensures DefaultParameters(hsl).nclusters == 3 && |DefaultParameters(hsl).colors| == 3
    ensures ValidateParameters(DefaultParameters(hsl)) == []
  {
    DefaultParametersValid(3, hsl);
  }

  const JpegDataPrefix: string := "data:image/jpeg;base64,"

  /** `getBase64ImageUrl`: a `data:` URL is kept, anything else is taken as
      bare JPEG base64 and prefixed. */
  function Base64ImageUrl(base64: string): (url: string)
    ensures Text.StartsWith(url, "data:")
    ensures Text.StartsWith(base64, "data:") ==> url == base64
    ensures !Text.StartsWith(base64, "data:") ==> url == JpegDataPrefix + base64
  {
    if Text.StartsWith(base64, "data:") then base64
    else
      assert (JpegDataPrefix + base64)[..5] == "data:";
      JpegDataPrefix + base64
  }

  /** Applying the prefixing twice adds nothing. */
  lemma Base64ImageUrlIdempotent(base64: string)
    ensures Base64ImageUrl(Base64ImageUrl(base64)) == Base64ImageUrl(base64)
  {
  }

  /** A result query's reply: unreachable server, a status with an optional
      `detail`, or the result itself (its contents are not interpreted). */
  datatype ResultReply<R> =
    | ResultUnreachable(message: string)
    | ResultStatus(status: nat, detail: string)
    | ResultFound(result: R)

  /** `getResult`: 404 means no result yet; another failing status throws
      `detail` or the status line, but a thrown message mentioning '404' is
      also read as no result. */
  function GetResult<R>(reply: ResultReply<R>): (r: Result<Option<R>, string>)
    ensures reply.ResultFound? ==> r == Success(Some(reply.result))
    ensures reply.ResultStatus? && reply.status == 404 ==> r == Success(None)
    ensures r.Failure? ==> !Text.Contains(r.error, "404")
  {
    match reply
    case ResultFound(result) => Success(Some(result))
    case ResultStatus(status, detail) =>
      if status == 404 then Success(None)
      else
        var message := if detail != "" then detail else "HTTP error! status: " + Text.NatToString(status);
        if Text.Contains(message, "404") then Success(None) else Failure(message)
    case ResultUnreachable(message) =>
      if Text.Contains(message, "404") then Success(None) else Failure(message)
  }

  /** A message `getResult` throws never mentions '404', so the K-Means
      error text shows it as a network or server error or verbatim, never
      through the not-found branch. */
  lemma GetResultSkipsNotFound<R>(reply: ResultReply<R>)
    requires GetResult(reply).Failure?
    ensures var m := GetResult(reply).error;
      Errors.FormatError(Errors.ErrorValue(m), Errors.KMeansNotFoundText) in
        {Errors.NetworkText, Errors.ServerText, m}
  {
  }
}
