/**
 * The `text` handler: who may use the bot, what the text asks for, and the
 * replies and side effects of one download request, in the order they happen.
 */
module TextHandler {
  import opened Wrappers
  import YouTubeUrl
  import DownloadProcess
  import StorageKey
  import opened StartupConfig

  const UNAUTHORIZED := "Unauthorized user."
  const GREETING := "I've gone out to find myself. If I come back before I return, please ask me to wait."
  const INVALID_URL := "Please send a valid YouTube URL."
  const STARTING := "Starting download..."
  const DOWNLOADED := "Download complete. Uploading to Spaces..."
  const UPLOADED := "Upload complete!"
  const UNKNOWN_ERROR := "Unknown error"

  /** What the handler makes of one text message. */
  datatype Command = Unauthorized | Greeting | InvalidUrl | DownloadRequest(url: string)

  /**
   * The checks at the top of the handler, in their order: the sender, the
   * greeting text, then the URL shape.
   */
  function Classify(allowedId: JsNumber, senderId: int, text: string): (c: Command)
    ensures c == Unauthorized <==> allowedId != Finite(senderId)
    ensures c == Greeting <==> allowedId == Finite(senderId) && text == "hi"
    ensures c == InvalidUrl <==>
      allowedId == Finite(senderId) && text != "hi" && !YouTubeUrl.MatchesUrlPattern(text)
    ensures c.DownloadRequest? <==>
      allowedId == Finite(senderId) && text != "hi" && YouTubeUrl.MatchesUrlPattern(text)
    ensures c.DownloadRequest? ==> c.url == text
  {
    if allowedId != Finite(senderId) then Unauthorized
    else if text == "hi" then Greeting
    else if !YouTubeUrl.IsValidYouTubeUrl(text) then InvalidUrl
    else DownloadRequest(text)
  }

  /** A thrown value: an `Error` with its message, or anything else. */
  datatype Thrown = ErrorObject(message: string) | NonError

  /** The catch block's reply. */
  function ErrorReply(thrown: Thrown): string {
    "Error: " + match thrown
      case ErrorObject(message) => message
      case NonError => UNKNOWN_ERROR
  }

  /** How the storage write (`Bun.write` to the S3 file) ends. */
  datatype WriteOutcome = Written | WriteFailed(thrown: Thrown)

  /** The handler's externally visible steps. */
  datatype Action =
    | Reply(text: string)
    | SpawnDownloader(url: string)
    | PutObject(key: string, file: string)
    | DeleteFile(path: string)

  /** The replies among the actions, in order. */
  function Replies(actions: seq<Action>): seq<string> {
    if actions == [] then []
    else
      var last := actions[|actions| - 1];
      Replies(actions[..|actions| - 1]) + if last.Reply? then [last.text] else []
  }

  /** The `finally` block: the file is deleted when the download produced a non-empty path. */
  function Cleanup(path: string): seq<Action> {
    if path == "" then [] else [DeleteFile(path)]
  }

  /**
   * One run of the handler, given the allowed id, the message, what the
   * download's child process reports and how the storage write ends. The
   * result lists the replies and side effects in the order they are made.
   */
  method HandleText(allowedId: JsNumber, senderId: int, text: string,
                    events: seq<DownloadProcess.ProcessEvent>, write: WriteOutcome)
    returns (actions: seq<Action>)
    ensures Classify(allowedId, senderId, text) == Unauthorized ==> actions == [Reply(UNAUTHORIZED)]
    ensures Classify(allowedId, senderId, text) == Greeting ==> actions == [Reply(GREETING)]
    ensures Classify(allowedId, senderId, text) == InvalidUrl ==> actions == [Reply(INVALID_URL)]
    ensures Classify(allowedId, senderId, text).DownloadRequest? ==>
      |actions| >= 2 && actions[..2] == [Reply(STARTING), SpawnDownloader(text)]
    ensures SpawnDownloader(text) in actions <==> Classify(allowedId, senderId, text).DownloadRequest?
    ensures Classify(allowedId, senderId, text).DownloadRequest? ==>
      actions[2..] == AfterDownload(DownloadProcess.Settlement(events), write)
  {
    match Classify(allowedId, senderId, text) {
      case Unauthorized =>
        return [Reply(UNAUTHORIZED)];
      case Greeting =>
        return [Reply(GREETING)];
      case InvalidUrl =>
        return [Reply(INVALID_URL)];
      case DownloadRequest(url) =>
        var downloaded := DownloadProcess.DownloadVideo(events);
        var rest := FinishRequest(downloaded, write);
        actions := [Reply(STARTING), SpawnDownloader(url)] + rest;
        assert actions[2..] == rest;
    }
  }

  /**
   * What follows the spawn, once the download has settled (or not): the
   * replies and storage write of the `try` block, the reply of the `catch`
   * block, and the deletion of the `finally` block.
   */
  function AfterDownload(settled: Option<Result<string, string>>, write: WriteOutcome): seq<Action> {
    match settled
    case None => []
    case Some(Err(message)) => [Reply(ErrorReply(ErrorObject(message)))]
    case Some(Ok(path)) =>
      [Reply(DOWNLOADED)] +
      (match StorageKey.ObjectKey(path)
       case Err(message) => [Reply(ErrorReply(ErrorObject(message)))]
       case Ok(key) =>
         [PutObject(key, path), Reply(if write == Written then UPLOADED else ErrorReply(write.thrown))]) +
      Cleanup(path)
  }

  /**
   * The rest of the `try`/`catch`/`finally` once `downloadVideo` has settled
   * (or not), written as the handler's body does it step by step.
   */
  method FinishRequest(downloaded: Option<Result<string, string>>, write: WriteOutcome)
    returns (actions: seq<Action>)
    ensures forall url :: SpawnDownloader(url) !in actions
    ensures actions == AfterDownload(downloaded, write)
  {
    var filePath: Option<string> := None;
    match downloaded {
      case None =>
        return [];
      case Some(Err(message)) =>
        actions := [Reply(ErrorReply(ErrorObject(message)))];
      case Some(Ok(path)) =>
        filePath := Some(path);
        actions := [Reply(DOWNLOADED)];
        var uploadSteps: seq<Action>;
        match StorageKey.ObjectKey(path) {
          case Err(message) =>
            uploadSteps := [Reply(ErrorReply(ErrorObject(message)))];
          case Ok(key) =>
            uploadSteps := [PutObject(key, path)];
            match write {
              case Written =>
                uploadSteps := uploadSteps + [Reply(UPLOADED)];
              case WriteFailed(thrown) =>
                uploadSteps := uploadSteps + [Reply(ErrorReply(thrown))];
            }
        }
        actions := actions + uploadSteps;
    }
    if filePath.Some? && filePath.value != "" {
      actions := actions + [DeleteFile(filePath.value)];
    }
  }

  /** The replies of two stretches of actions are the replies of each, in order. */
  lemma {:induction false} RepliesAppend(a: seq<Action>, b: seq<Action>)
    ensures Replies(a + b) == Replies(a) + Replies(b)
    decreases |b|
  {
    if b == [] {
      assert a + b == a;
    } else {
      var n := |b| - 1;
      assert (a + b)[..|a + b| - 1] == a + b[..n];
      RepliesAppend(a, b[..n]);
    }
  }

  /**
   * The replies after "Starting download...": on success "Download
   * complete..." then "Upload complete!"; a failure ends the replies at the
   * step that failed with "Error: " and the message.
   */
  lemma RepliesAfterDownload(settled: Option<Result<string, string>>, write: WriteOutcome)
    ensures Replies(AfterDownload(settled, write)) ==
      match settled
      case None => []
      case Some(Err(message)) => ["Error: " + message]
      case Some(Ok(path)) =>
        match StorageKey.ObjectKey(path)
        case Err(message) => [DOWNLOADED, "Error: " + message]
        case Ok(_) =>
          [DOWNLOADED, match write case Written => UPLOADED case WriteFailed(thrown) => ErrorReply(thrown)]
  {
    match settled
    case None =>
    case Some(Err(message)) =>
      assert Replies([Reply(ErrorReply(ErrorObject(message)))]) == [ErrorReply(ErrorObject(message))] by {
        assert [Reply(ErrorReply(ErrorObject(message)))][..0] == [];
      }
    case Some(Ok(path)) =>
      var steps := match StorageKey.ObjectKey(path)
        case Err(message) => [Reply(ErrorReply(ErrorObject(message)))]
        case Ok(key) =>
          [PutObject(key, path), Reply(if write == Written then UPLOADED else ErrorReply(write.thrown))];
      assert AfterDownload(settled, write) == [Reply(DOWNLOADED)] + steps + Cleanup(path);
      RepliesAppend([Reply(DOWNLOADED)] + steps, Cleanup(path));
      RepliesAppend([Reply(DOWNLOADED)], steps);
      assert Replies([Reply(DOWNLOADED)]) == [DOWNLOADED] by {
        assert [Reply(DOWNLOADED)][..0] == [];
      }
      assert Replies(Cleanup(path)) == [] by {
        if path != "" {
          assert Cleanup(path)[..0] == [];
        }
      }
      match StorageKey.ObjectKey(path)
      case Err(message) =>
        assert steps[..0] == [];
      case Ok(key) =>
        assert steps[..1] == [PutObject(key, path)];
        assert steps[..1][..0] == [];
  }

  /** The local file is deleted exactly when the download produced a non-empty path, and last. */
  lemma DeletesOnlyProducedPath(settled: Option<Result<string, string>>, write: WriteOutcome, path: string)
    ensures DeleteFile(path) in AfterDownload(settled, write) <==> settled == Some(Ok(path)) && path != ""
    ensures DeleteFile(path) in AfterDownload(settled, write) ==>
      AfterDownload(settled, write)[|AfterDownload(settled, write)| - 1] == DeleteFile(path)
  {
  }

  /** Nothing is written to storage unless the download produced a path with a file name. */
  lemma PutsOnlyNamedFile(settled: Option<Result<string, string>>, write: WriteOutcome, key: string, file: string)
    ensures PutObject(key, file) in AfterDownload(settled, write) <==>
      settled == Some(Ok(file)) && StorageKey.ObjectKey(file) == Ok(key)
  {
  }
}
