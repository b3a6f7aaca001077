/** The images client's local logic: checking files before upload, turning
    upload replies into results (all at once or one by one with progress),
    and the two per-image caches for data URLs and image records. Replies
    of the server are inputs. */
module Images {
  import opened Wrappers
  import opened Numeric
  import Text
  import Replies

  // ------------------------------------------------------------ validation

  /** The parts of a `File` that validation reads. */
  datatype FileInfo = FileInfo(name: string, size: nat, mimeType: string)

  const MaxFileSize: nat := 10 * 1024 * 1024
  const AllowedTypes: seq<string> := ["image/jpeg", "image/png", "image/gif", "image/webp"]

  function SizeError(name: string): string {
    "Файл \"" + name + "\" превышает максимальный размер 10MB"
  }

  function TypeError(name: string): string {
    "Файл \"" + name + "\" имеет неподдерживаемый формат. Поддерживаются: JPG, PNG, GIF, WebP"
  }

  /** A file that passes both checks. */
  predicate Acceptable(f: FileInfo) {
    f.size <= MaxFileSize && f.mimeType in AllowedTypes
  }

  /** The messages one file contributes: size first, then type. */
  function FileErrors(f: FileInfo): (errors: seq<string>)
    ensures |errors| <= 2
    ensures errors == [] <==> Acceptable(f)
  {
    (if f.size > MaxFileSize then [SizeError(f.name)] else []) +
    (if f.mimeType !in AllowedTypes then [TypeError(f.name)] else [])
  }

  /** Each message names its own failed check: the size message appears
      exactly for a file over 10 MB, the type message exactly for a type
      outside the four allowed ones. */
  lemma FileErrorsMeaning(f: FileInfo)
    ensures SizeError(f.name) in FileErrors(f) <==> f.size > MaxFileSize
    ensures TypeError(f.name) in FileErrors(f) <==> f.mimeType !in AllowedTypes
  {
    assert SizeError(f.name) != TypeError(f.name) by {
      assert |SizeError(f.name)| != |TypeError(f.name)|;
    }
  }

  /** The lists `f` gives for the elements of `xs`, concatenated in order. */
  function ConcatMap<T>(xs: seq<T>, f: T -> seq<string>): seq<string> {
    if |xs| == 0 then [] else ConcatMap(xs[..|xs| - 1], f) + f(xs[|xs| - 1])
  }

  /** Concatenating over a longer list extends the result for its prefix. */
  lemma {:induction false} ConcatMapAppend<T>(xs: seq<T>, ys: seq<T>, f: T -> seq<string>)
    ensures ConcatMap(xs + ys, f) == ConcatMap(xs, f) + ConcatMap(ys, f)
    decreases |ys|
  {
    if |ys| == 0 {
      assert xs + ys == xs;
    } else {
      var init := ys[..|ys| - 1];
      var all := xs + ys;
      assert all[..|all| - 1] == xs + init;
      assert all[|all| - 1] == ys[|ys| - 1];
      ConcatMapAppend(xs, init, f);
    }
  }

  /** The concatenation is empty exactly when every element gives nothing. */
  lemma {:induction false} ConcatMapEmpty<T>(xs: seq<T>, f: T -> seq<string>)
    ensures ConcatMap(xs, f) == [] <==> forall i :: 0 <= i < |xs| ==> f(xs[i]) == []
  {
    if |xs| > 0 {
      var init := xs[..|xs| - 1];
      ConcatMapEmpty(init, f);
      assert forall i :: 0 <= i < |init| ==> init[i] == xs[i];
    }
  }

  /** At most `k` strings per element give at most `k` times as many. */
  lemma {:induction false} ConcatMapBound<T>(xs: seq<T>, f: T -> seq<string>, k: nat)
    requires forall x :: |f(x)| <= k
    ensures |ConcatMap(xs, f)| <= k * |xs|
  {
    if |xs| > 0 {
      ConcatMapBound(xs[..|xs| - 1], f, k);
    }
  }

  /** The messages of all files, file by file. */
  function AllFileErrors(files: seq<FileInfo>): (errors: seq<string>)
    ensures |errors| <= 2 * |files|
  {
    ConcatMapBound(files, FileErrors, 2);
    ConcatMap(files, FileErrors)
  }

  /** There are no messages exactly when every file is acceptable. */
  lemma NoErrorsIffAcceptable(files: seq<FileInfo>)
    ensures AllFileErrors(files) == [] <==> forall i :: 0 <= i < |files| ==> Acceptable(files[i])
  {
    ConcatMapEmpty(files, FileErrors);
  }

  /** Messages for a longer list extend those for a prefix of it. */
  lemma ErrorsFollowFileOrder(files: seq<FileInfo>, more: seq<FileInfo>)
    ensures AllFileErrors(files + more) == AllFileErrors(files) + AllFileErrors(more)
  {
    ConcatMapAppend(files, more, FileErrors);
  }

  /** The messages of one more file follow those of the files before it. */
  lemma AllFileErrorsStep(files: seq<FileInfo>, i: int)
    requires 0 <= i < |files|
    ensures AllFileErrors(files[..i + 1]) == AllFileErrors(files[..i]) + FileErrors(files[i])
  {
    assert files[..i + 1][..i] == files[..i];
  }

  datatype Validation = Validation(valid: bool, errors: seq<string>)

  /** `validateFiles`. */
  method ValidateFiles(files: seq<FileInfo>) returns (v: Validation)
    ensures v.errors == AllFileErrors(files)
    ensures v.valid <==> forall i :: 0 <= i < |files| ==> Acceptable(files[i])
  {
    var errors: seq<string> := [];
    var i := 0;
    while i < |files|
      invariant 0 <= i <= |files|
      invariant errors == AllFileErrors(files[..i])
    {
      AllFileErrorsStep(files, i);
      var f := files[i];
      var before := errors;
      if f.size > MaxFileSize {
        errors := errors + [SizeError(f.name)];
      }
      if f.mimeType !in AllowedTypes {
        errors := errors + [TypeError(f.name)];
      }
      assert errors == before + FileErrors(f);
      i := i + 1;
    }
    assert files[..|files|] == files;
    NoErrorsIffAcceptable(files);
    v := Validation(|errors| == 0, errors);
  }

  // --------------------------------------------------------------- uploads

  /** `ResultResponse`. */
  datatype ResultResponse = ResultResponse(success: bool, message: string, imageId: Option<int>)

  /** The reply to one upload: the server is unreachable (the `fetch` error's
      message), answers with a failing status and the `message` of its error
      body (`None` when the body is unreadable or has none), or answers. */
  datatype UploadReply =
    | UploadUnreachable(reason: string)
    | UploadRejected(status: nat, errorMessage: Option<string>)
    | UploadAccepted(success: bool, message: string, imageId: Option<int>)

  /** `uploadImage`: an accepted reply keeps its three fields; otherwise the
      thrown message, the server's text when it is non-empty, else the
      status line. */
  function UploadImage(reply: UploadReply): (r: Result<ResultResponse, string>)
    ensures reply.UploadAccepted? ==>
      r == Success(ResultResponse(reply.success, reply.message, reply.imageId))
    ensures reply.UploadRejected? && reply.errorMessage.Some? && reply.errorMessage.value != "" ==>
      r == Failure(reply.errorMessage.value)
    ensures reply.UploadRejected? && (reply.errorMessage.None? || reply.errorMessage == Some("")) ==>
      r == Failure(Replies.StatusPrefix + Text.NatToString(reply.status))
    ensures reply.UploadUnreachable? ==> r == Failure(reply.reason)
  {
    match reply
    case UploadUnreachable(reason) => Failure(reason)
    case UploadRejected(status, m) =>
      if m.Some? && m.value != "" then Failure(m.value)
      else Failure(Replies.StatusPrefix + Text.NatToString(status))
    case UploadAccepted(success, message, imageId) => Success(ResultResponse(success, message, imageId))
  }

  const UploadFailed: string := "Upload failed"

  /** `uploadImages`' mapping of a settled upload: a rejection's message, or
      'Upload failed' when it is empty. */
  function Settled(r: Result<ResultResponse, string>): (s: ResultResponse)
    ensures r.Success? ==> s == r.value
    ensures r.Failure? ==> !s.success && s.imageId.None?
    ensures r.Failure? && r.error != "" ==> s.message == r.error
    ensures r.Failure? && r.error == "" ==> s.message == UploadFailed
  {
    match r
    case Success(v) => v
    case Failure(m) => ResultResponse(false, if m != "" then m else UploadFailed, None)
  }

  /** `uploadImages`: one result per file, at the file's position. */
  function UploadImages(replies: seq<UploadReply>): (results: seq<ResultResponse>)
    ensures |results| == |replies|
    ensures forall i :: 0 <= i < |replies| ==>
      (UploadImage(replies[i]).Success? ==> results[i] == UploadImage(replies[i]).value) &&
      (UploadImage(replies[i]).Failure? ==> !results[i].success && results[i].message != "")
    ensures forall i :: 0 <= i < |replies| && UploadImage(replies[i]).Failure? ==>
      results[i] == ResultResponse(false,
        if UploadImage(replies[i]).error != "" then UploadImage(replies[i]).error else UploadFailed, None)
  {
    seq(|replies|, i requires 0 <= i < |replies| => Settled(UploadImage(replies[i])))
  }

  /** The progress reported after each file. */
  datatype Progress = Progress(completed: nat, total: nat, percent: int)

  /** `Math.round((completed / total) * 100)`. */
  function Percent(completed: nat, total: nat): int
    requires total > 0
  {
    Round((completed as real / total as real) * 100.0)
  }

  /** The percentage lies in [0, 100] and reaches 100 with the last file. */
  lemma PercentBounds(completed: nat, total: nat)
    requires 0 < total && completed <= total
    ensures 0 <= Percent(completed, total) <= 100
    ensures completed == total ==> Percent(completed, total) == 100
  {
    var q := completed as real / total as real;
    assert 0.0 <= q <= 1.0;
    if completed == total {
      assert q == 1.0;
    }
  }

  /** The reports after each of the first `n` of `total` files, in order. */
  function Reports(n: nat, total: nat): (rs: seq<Progress>)
    requires n <= total
    ensures |rs| == n
    ensures forall i :: 0 <= i < n ==> rs[i] == Progress(i + 1, total, Percent(i + 1, total))
  {
    if n == 0 then [] else Reports(n - 1, total) + [Progress(n, total, Percent(n, total))]
  }

  /** The sequential loop's result for one file: a thrown message is kept
      as it is. */
  function Sequential(r: Result<ResultResponse, string>): (s: ResultResponse)
    ensures r.Success? ==> s == r.value
    ensures r.Failure? ==> !s.success && s.message == r.error && s.imageId.None?
  {
    match r
    case Success(v) => v
    case Failure(m) => ResultResponse(false, m, None)
  }

  /** `uploadImagesWithProgress`: files are uploaded one after another; each
      one, whatever its outcome, yields a result and a progress report. */
  method UploadImagesWithProgress(replies: seq<UploadReply>) returns (results: seq<ResultResponse>, reports: seq<Progress>)
    ensures |results| == |replies| && |reports| == |replies|
    ensures forall i :: 0 <= i < |replies| ==> results[i] == Sequential(UploadImage(replies[i]))
    ensures forall i :: 0 <= i < |replies| ==>
      reports[i].completed == i + 1 && reports[i].total == |replies| &&
      reports[i].percent == Percent(i + 1, |replies|)
    ensures forall i :: 0 <= i < |replies| ==> 0 <= reports[i].percent <= 100
    ensures |replies| > 0 ==> reports[|replies| - 1].percent == 100
  {
    results := [];
    reports := [];
    var total := |replies|;
    if total > 0 {
      PercentBounds(total, total);
    }
    var completed := 0;
    for k := 0 to |replies|
      invariant completed == k
      invariant |results| == k && |reports| == k
      invariant forall i :: 0 <= i < k ==> results[i] == Sequential(UploadImage(replies[i]))
      invariant forall i :: 0 <= i < k ==>
        reports[i].completed == i + 1 && reports[i].total == total &&
        reports[i].percent == Percent(i + 1, total)
      invariant forall i :: 0 <= i < k ==> 0 <= reports[i].percent <= 100
    {
      var outcome := UploadImage(replies[k]);
      match outcome {
        case Success(v) =>
          results := results + [v];
        case Failure(m) =>
          results := results + [ResultResponse(false, m, None)];
      }
      completed := completed + 1;
      var percent := Percent(completed, total);
      PercentBounds(completed, total);
      reports := reports + [Progress(completed, total, percent)];
    }
  }

  /** The two upload paths agree whenever every thrown message is non-empty,
      which `uploadImage` itself guarantees for server replies. */
  lemma UploadPathsAgree(replies: seq<UploadReply>, results: seq<ResultResponse>)
    requires forall i :: 0 <= i < |replies| ==> replies[i].UploadUnreachable? ==> replies[i].reason != ""
    requires |results| == |replies|
    requires forall i :: 0 <= i < |replies| ==> results[i] == Sequential(UploadImage(replies[i]))
    ensures results == UploadImages(replies)
  {
    forall i | 0 <= i < |replies|
      ensures results[i] == UploadImages(replies)[i]
    {
      if replies[i].UploadRejected? {
        assert |Replies.StatusPrefix + Text.NatToString(replies[i].status)| > 0;
      }
    }
  }

  // ---------------------------------------------------------------- caches

  /** An image record. */
  datatype ImageInfo = ImageInfo(id: int, filename: string, originalFilename: string, datasetId: int)

  /** The data-URL cache and the record cache, both keyed by image id. */
  datatype Caches = Caches(images: map<int, string>, infos: map<int, ImageInfo>)

  const EmptyCaches: Caches := Caches(map[], map[])

  /** The reply to a request for one record or one image. */
  datatype Fetched<T> = FetchOk(value: T) | FetchRejected(status: nat) | FetchUnreachable(reason: string)

  /** The message a failed fetch throws. */
  function FetchError<T>(reply: Fetched<T>): string
    requires !reply.FetchOk?
  {
    if reply.FetchRejected? then Replies.StatusPrefix + Text.NatToString(reply.status)
    else reply.reason
  }

  /** What a cached lookup returns: the value or the thrown message, the
      caches afterwards, and whether the server was asked. */
  datatype Lookup<T> = Lookup(result: Result<T, string>, caches: Caches, fetched: bool)

  /** `getImageById`: a cached record is returned without asking the server;
      otherwise a fetched record is cached under the requested id. */
  function GetImageById(c: Caches, id: int, reply: Fetched<ImageInfo>): (l: Lookup<ImageInfo>)
    ensures id in c.infos ==> l == Lookup(Success(c.infos[id]), c, false)
    ensures id !in c.infos ==> l.fetched
    ensures id !in c.infos && reply.FetchOk? ==>
      l.result == Success(reply.value) && l.caches == c.(infos := c.infos[id := reply.value])
    ensures id !in c.infos && !reply.FetchOk? ==> l.result.Failure? && l.caches == c
  {
    if id in c.infos then Lookup(Success(c.infos[id]), c, false)
    else if reply.FetchOk? then Lookup(Success(reply.value), c.(infos := c.infos[id := reply.value]), true)
    else Lookup(Failure(FetchError(reply)), c, true)
  }

  /** `getImageBase64`: the same cache discipline for data URLs. */
  function GetImageBase64(c: Caches, id: int, reply: Fetched<string>): (l: Lookup<string>)
    ensures id in c.images ==> l == Lookup(Success(c.images[id]), c, false)
    ensures id !in c.images ==> l.fetched
    ensures id !in c.images && reply.FetchOk? ==>
      l.result == Success(reply.value) && l.caches == c.(images := c.images[id := reply.value])
    ensures id !in c.images && !reply.FetchOk? ==> l.result.Failure? && l.caches == c
  {
    if id in c.images then Lookup(Success(c.images[id]), c, false)
    else if reply.FetchOk? then Lookup(Success(reply.value), c.(images := c.images[id := reply.value]), true)
    else Lookup(Failure(FetchError(reply)), c, true)
  }

  /** A second lookup after a successful one is served from the cache with
      the same value, whatever the server would answer. */
  lemma SecondLookupCached(c: Caches, id: int, first: Fetched<ImageInfo>, second: Fetched<ImageInfo>,
                           f1: Fetched<string>, f2: Fetched<string>)
    ensures var l := GetImageById(c, id, first);
      l.result.Success? ==> GetImageById(l.caches, id, second) == Lookup(l.result, l.caches, false)
    ensures var l := GetImageBase64(c, id, f1);
      l.result.Success? ==> GetImageBase64(l.caches, id, f2) == Lookup(l.result, l.caches, false)
  {
  }

  /** `getImagesList`'s caching: every listed record is stored under its own
      id, in list order. */
  function CacheImages(infos: map<int, ImageInfo>, images: seq<ImageInfo>): (r: map<int, ImageInfo>)
    ensures forall id :: id in r <==> id in infos || exists i :: 0 <= i < |images| && images[i].id == id
  {
    if |images| == 0 then infos
    else
      var init := images[..|images| - 1];
      assert forall i :: 0 <= i < |init| ==> init[i] == images[i];
      CacheImages(infos, init)[images[|images| - 1].id := images[|images| - 1]]
  }

  /** The record stored for a listed id is the last listed record with that
      id, so a later duplicate wins; ids not listed keep their record. */
  lemma {:induction false} CacheImagesContents(infos: map<int, ImageInfo>, images: seq<ImageInfo>, i: int)
    requires 0 <= i < |images|
    requires forall j :: i < j < |images| ==> images[j].id != images[i].id
    ensures CacheImages(infos, images)[images[i].id] == images[i]
  {
    var n := |images|;
    if i < n - 1 {
      var init := images[..n - 1];
      assert init[i] == images[i];
      CacheImagesContents(infos, init, i);
    }
  }

  lemma {:induction false} CacheImagesKeeps(infos: map<int, ImageInfo>, images: seq<ImageInfo>, id: int)
    requires id in infos && forall i :: 0 <= i < |images| ==> images[i].id != id
    ensures CacheImages(infos, images)[id] == infos[id]
  {
    if |images| > 0 {
      CacheImagesKeeps(infos, images[..|images| - 1], id);
    }
  }

  /** `clearImageFromCache`, and the cache effect of a successful
      `removeImage`: the id leaves both caches. */
  function ClearImageFromCache(c: Caches, id: int): (r: Caches)
    ensures id !in r.images && id !in r.infos
    ensures forall k :: k != id ==> (k in r.images <==> k in c.images) && (k in r.infos <==> k in c.infos)
    ensures forall k :: k != id && k in r.images ==> r.images[k] == c.images[k]
    ensures forall k :: k != id && k in r.infos ==> r.infos[k] == c.infos[k]
  {
    Caches(c.images - {id}, c.infos - {id})
  }

  /** `removeImage`: on a failing reply nothing is cleared and the status
      line is thrown; otherwise the id leaves both caches. */
  function RemoveImage(c: Caches, id: int, reply: Fetched<ResultResponse>): (r: (Result<ResultResponse, string>, Caches))
    ensures reply.FetchOk? ==> r == (Success(reply.value), ClearImageFromCache(c, id))
    ensures !reply.FetchOk? ==> r.0.Failure? && r.1 == c
  {
    if reply.FetchOk? then (Success(reply.value), ClearImageFromCache(c, id))
    else (Failure(FetchError(reply)), c)
  }

  /** `clearAllCache`. */
  function ClearAllCache(c: Caches): (r: Caches)
    ensures r.images == map[] && r.infos == map[]
  {
    EmptyCaches
  }

  /** After a removal or a clear, the next lookup of that id asks the server
      again. */
  lemma ClearedIdIsFetched(c: Caches, id: int, reply: Fetched<ImageInfo>, data: Fetched<string>)
    ensures GetImageById(ClearImageFromCache(c, id), id, reply).fetched
    ensures GetImageBase64(ClearImageFromCache(c, id), id, data).fetched
    ensures GetImageById(ClearAllCache(c), id, reply).fetched
    ensures GetImageBase64(ClearAllCache(c), id, data).fetched
  {
  }
}
