/** Dataset export: the client starts an export task on the server, polls
    the task's status at most sixty times, and on completion hands back the
    download link instead of downloading. The server's replies are inputs:
    one for the start request, and one per status query, by query number.
    The one-second wait between queries is not modelled. */
module Datasets {
  import opened Wrappers
  import Text

  const ApiBaseUrl: string := "http://localhost:8000/api/v1/IO"
  const MaxAttempts: nat := 60

  const StartFailedPrefix: string := "Failed to start export task: "
  const StatusFailedPrefix: string := "Failed to check task status: "
  const ServerFailedMessage: string := "Export task failed on server"
  const TimedOutMessage: string := "Export task timed out"

  function StartUrl(datasetId: int): string {
    ApiBaseUrl + "/archive/export/" + Text.IntToString(datasetId)
  }

  function StatusUrl(taskId: string): string {
    ApiBaseUrl + "/archive/status/" + taskId
  }

  function DownloadPrefix(): string {
    ApiBaseUrl + "/archive/download/"
  }

  /** The link the export hands back for a finished task. */
  function DownloadUrl(taskId: string): (url: string)
    ensures |url| == |DownloadPrefix()| + |taskId|
    ensures url[..|DownloadPrefix()|] == DownloadPrefix()
  {
    DownloadPrefix() + taskId
  }

  /** The task id a download link names. */
  function TaskIdOf(url: string): string {
    if |url| >= |DownloadPrefix()| then url[|DownloadPrefix()|..] else url
  }

  /** The link names its task: the task id is recovered from it, so two
      tasks never share a link. */
  lemma DownloadUrlRoundTrip(taskId: string)
    ensures TaskIdOf(DownloadUrl(taskId)) == taskId
  {
    assert (DownloadPrefix() + taskId)[|DownloadPrefix()|..] == taskId;
  }

  /** The reply to the start request: the server is unreachable (the
      `fetch` error's message), answers with a failing status and the
      `detail` of its error body (`None` when the body is unreadable or has
      none), or starts a task. */
  datatype StartReply =
    | StartUnreachable(reason: string)
    | StartRejected(status: nat, detail: Option<string>)
    | Started(taskId: string)

  /** The reply to one status query: unreachable server, a failing status,
      or the task's state with its optional error text. */
  datatype StatusReply =
    | StatusUnreachable(reason: string)
    | StatusRejected(status: nat)
    | StatusOk(state: string, error: Option<string>)

  /** The message a start that did not start a task throws. */
  function StartFailure(start: StartReply): (message: string)
    requires !start.Started?
    ensures start.StartUnreachable? ==> message == start.reason
    ensures start.StartRejected? && start.detail.Some? && start.detail.value != "" ==>
      message == start.detail.value
    ensures start.StartRejected? && (start.detail.None? || start.detail == Some("")) ==>
      message == StartFailedPrefix + Text.NatToString(start.status)
  {
    match start
    case StartUnreachable(reason) => reason
    case StartRejected(status, detail) =>
      if detail.Some? && detail.value != "" then detail.value
      else StartFailedPrefix + Text.NatToString(status)
  }

  /** What one status reply decides: nothing while the task is queued or
      processing (`None`), else the link or the thrown message. */
  function Verdict(taskId: string, reply: StatusReply): (v: Option<Result<string, string>>)
    ensures v.None? <==> reply.StatusOk? && reply.state != "completed" && reply.state != "failed"
    ensures v.Some? && v.value.Success? <==> reply.StatusOk? && reply.state == "completed"
    ensures v.Some? && v.value.Success? ==> v.value.value == DownloadUrl(taskId)
  {
    match reply
    case StatusUnreachable(reason) => Some(Failure(reason))
    case StatusRejected(status) => Some(Failure(StatusFailedPrefix + Text.NatToString(status)))
    case StatusOk(state, error) =>
      if state == "completed" then Some(Success(DownloadUrl(taskId)))
      else if state == "failed" then
        Some(Failure(if error.Some? && error.value != "" then error.value else ServerFailedMessage))
      else None
  }

  /** The polling from query number `attempt` on: the outcome and the number
      of queries made in all. */
  function PollFrom(taskId: string, replies: nat -> StatusReply, attempt: nat): (o: (Result<string, string>, nat))
    requires attempt <= MaxAttempts
    ensures attempt <= o.1 <= MaxAttempts
    ensures o.0.Success? ==> o.0.value == DownloadUrl(taskId)
    decreases MaxAttempts - attempt
  {
    if attempt == MaxAttempts then (Failure(TimedOutMessage), MaxAttempts)
    else match Verdict(taskId, replies(attempt))
      case Some(v) => (v, attempt + 1)
      case None => PollFrom(taskId, replies, attempt + 1)
  }

  /** Polling from `attempt` makes at most the remaining queries, all but
      the last of them pending; the last one decides, unless every query up
      to the sixtieth was pending, in which case the export times out. */
  lemma {:induction false} PollFromOutcome(taskId: string, replies: nat -> StatusReply, attempt: nat)
    requires attempt <= MaxAttempts
    ensures var (r, q) := PollFrom(taskId, replies, attempt);
      attempt <= q <= MaxAttempts &&
      (forall k :: attempt <= k < q - 1 ==> Verdict(taskId, replies(k)).None?) &&
      (q > attempt && Verdict(taskId, replies(q - 1)).Some? ==> r == Verdict(taskId, replies(q - 1)).value) &&
      (q == attempt || Verdict(taskId, replies(q - 1)).None? ==>
        q == MaxAttempts && r == Failure(TimedOutMessage) &&
        forall k :: attempt <= k < MaxAttempts ==> Verdict(taskId, replies(k)).None?)
    decreases MaxAttempts - attempt
  {
    if attempt < MaxAttempts && Verdict(taskId, replies(attempt)).None? {
      PollFromOutcome(taskId, replies, attempt + 1);
    }
  }

  /** The whole export as a function of the replies. */
  function Export(start: StartReply, replies: nat -> StatusReply): (o: (Result<string, string>, nat))
    ensures o.1 <= MaxAttempts
    ensures o.0.Success? ==> start.Started? && o.0.value == DownloadUrl(start.taskId)
  {
    match start
    case Started(taskId) => PollFrom(taskId, replies, 0)
    case _ => (Failure(StartFailure(start)), 0)
  }

  /** A success is always the download link of the started task, reached
      through a 'completed' status that only pending ones preceded. */
  lemma ExportSucceedsOnlyOnCompletion(start: StartReply, replies: nat -> StatusReply)
    ensures var (r, q) := Export(start, replies);
      r.Success? ==>
        start.Started? && 1 <= q <= MaxAttempts && r.value == DownloadUrl(start.taskId) &&
        replies(q - 1).StatusOk? && replies(q - 1).state == "completed" &&
        forall k :: 0 <= k < q - 1 ==> Verdict(start.taskId, replies(k)).None?
  {
    if start.Started? {
      PollFromOutcome(start.taskId, replies, 0);
    }
  }

  /** Polling reads no reply past its last query: replies that agree on the
      queried ones give the same outcome. */
  lemma {:induction false} PollFromReadsOnlyQueried(taskId: string, a: nat -> StatusReply, b: nat -> StatusReply, attempt: nat)
    requires attempt <= MaxAttempts
    requires forall k :: attempt <= k < PollFrom(taskId, a, attempt).1 ==> a(k) == b(k)
    ensures PollFrom(taskId, b, attempt) == PollFrom(taskId, a, attempt)
    decreases MaxAttempts - attempt
  {
    if attempt < MaxAttempts {
      PollFromOutcome(taskId, a, attempt);
      assert a(attempt) == b(attempt);
      if Verdict(taskId, a(attempt)).None? {
        PollFromReadsOnlyQueried(taskId, a, b, attempt + 1);
      }
    }
  }

  /** The export depends on the status replies it asked for and no others. */
  lemma ExportReadsOnlyQueried(start: StartReply, a: nat -> StatusReply, b: nat -> StatusReply)
    requires forall k :: 0 <= k < Export(start, a).1 ==> a(k) == b(k)
    ensures Export(start, b) == Export(start, a)
  {
    if start.Started? {
      PollFromReadsOnlyQueried(start.taskId, a, b, 0);
    }
  }

  /** A start that did not start a task fails at once with its message; a
      started task is queried between one and sixty times, every query but
      the last pending; the last one decides, unless it too was pending, in
      which case the export timed out after the sixtieth. */
  lemma ExportOutcome(start: StartReply, replies: nat -> StatusReply)
    ensures var (r, queries) := Export(start, replies);
      (!start.Started? ==> queries == 0 && r == Failure(StartFailure(start))) &&
      (start.Started? ==>
        1 <= queries <= MaxAttempts &&
        (forall k :: 0 <= k < queries - 1 ==> Verdict(start.taskId, replies(k)).None?) &&
        (Verdict(start.taskId, replies(queries - 1)).Some? ==>
          r == Verdict(start.taskId, replies(queries - 1)).value) &&
        (Verdict(start.taskId, replies(queries - 1)).None? ==>
          queries == MaxAttempts && r == Failure(TimedOutMessage)))
  {
    if start.Started? {
      PollFromOutcome(start.taskId, replies, 0);
    }
  }

  /** `exportDataset(datasetId)`: the URLs fetched in order, the outcome
      (the link, or the thrown message) and the number of status queries. */
  method ExportDataset(datasetId: int, start: StartReply, replies: nat -> StatusReply)
    returns (r: Result<string, string>, queries: nat, fetched: seq<string>)
    ensures (r, queries) == Export(start, replies)
    ensures |fetched| == queries + 1 && fetched[0] == StartUrl(datasetId)
    ensures start.Started? ==> forall k :: 1 <= k < |fetched| ==> fetched[k] == StatusUrl(start.taskId)
  {
    fetched := [StartUrl(datasetId)];
    if !start.Started? {
      return Failure(StartFailure(start)), 0, fetched;
    }
    var taskId := start.taskId;
    var attempt: nat := 0;
    while attempt < MaxAttempts
      invariant attempt <= MaxAttempts
      invariant PollFrom(taskId, replies, attempt) == PollFrom(taskId, replies, 0)
      invariant |fetched| == attempt + 1 && fetched[0] == StartUrl(datasetId)
      invariant forall k :: 1 <= k < |fetched| ==> fetched[k] == StatusUrl(taskId)
    {
      fetched := fetched + [StatusUrl(taskId)];
      var v := Verdict(taskId, replies(attempt));
      if v.Some? {
        return v.value, attempt + 1, fetched;
      }
      attempt := attempt + 1;
    }
    return Failure(TimedOutMessage), MaxAttempts, fetched;
  }
}
