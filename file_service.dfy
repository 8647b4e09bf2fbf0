/**
 * `FileService` of FtpService.cs: upload, replace (delete every other entry
 * of the remote directory, then upload) and delete, with their input
 * checks, the paths they address and their reply-acceptance rules.
 *
 * The local file system is reduced to inputs (whether the local path
 * exists, and its bytes); every remote reply is an input too. An exception
 * of the source is an `Err` outcome; a returned message is an `Ok` one.
 */
module FileService {
  import opened Wrappers
  import opened Paths
  import opened Ftp

  /** The exceptions the service raises. */
  datatype Error =
    | ArgumentError(message: string)                 // ArgumentException
    | FileNotFound(message: string)                  // FileNotFoundException
    | OperationFailed(message: string)               // InvalidOperationException
    | ListingFailed(message: string, cause: string)  // InvalidOperationException with an inner exception
    | TransportFailed(message: string)               // a transport exception passed through unchanged

  datatype Outcome = Ok(message: string) | Err(error: Error)

  const PathsRequired := "Local path and remote path are required."
  const RemotePathRequired := "Remote path is required."
  const LocalFileMissing := "Local file not found."
  const Uploaded := "File uploaded successfully."
  const Replaced := "File replaced successfully."
  const Deleted := "File deleted successfully."
  const UploadErrorPrefix := "Error uploading file: "
  const DeleteErrorPrefix := "Error deleting file: "
  const ListingErrorMessage := "Error listing files in directory"
  /** The transport failure standing for a reply the oracle does not supply. */
  const NoReply := "no reply"

  /** The raw answer to a name list: the lines read, then possibly the failure that ended the read. */
  datatype ListResponse = ListResponse(lines: seq<string>, failure: Option<string>)

  /** The failure the listing wraps any exception into. */
  function ListingError(cause: string): Error
  {
    ListingFailed(ListingErrorMessage, cause)
  }

  /** The reply to the `k`-th store or delete command of one call. */
  function ReplyAt(replies: seq<Reply>, k: nat): Reply
  {
    if k < |replies| then replies[k] else TransportError(NoReply)
  }

  /** What an upload reports: success only on 226, otherwise the server's description. */
  function UploadOutcome(reply: Reply, success: string): (outcome: Outcome)
    ensures outcome.Ok? <==> UploadAccepted(reply)
    ensures outcome.Ok? ==> outcome.message == success
    ensures reply.Status? && !UploadAccepted(reply) ==>
              outcome == Err(OperationFailed(UploadErrorPrefix + reply.description))
    ensures reply.TransportError? ==> outcome == Err(TransportFailed(reply.message))
  {
    match reply
    case TransportError(m) => Err(TransportFailed(m))
    case Status(code, description) =>
      if code == ClosingData then Ok(success) else Err(OperationFailed(UploadErrorPrefix + description))
  }

  /** What a direct delete reports: success only on 250; a 550 is a failure. */
  function DeleteOutcome(reply: Reply): (outcome: Outcome)
    ensures outcome.Ok? <==> DirectDeleteAccepted(reply)
    ensures outcome.Ok? ==> outcome.message == Deleted
    ensures reply.Status? && !DirectDeleteAccepted(reply) ==>
              outcome == Err(OperationFailed(DeleteErrorPrefix + reply.description))
    ensures reply.TransportError? ==> outcome == Err(TransportFailed(reply.message))
  {
    match reply
    case TransportError(m) => Err(TransportFailed(m))
    case Status(code, description) =>
      if code == FileActionOk then Ok(Deleted) else Err(OperationFailed(DeleteErrorPrefix + description))
  }

  /** The error that stops the replace loop at `entry`, which names the entry. */
  function DeleteFailure(entry: string, reply: Reply): Error
  {
    match reply
    case TransportError(m) => TransportFailed(m)
    case Status(_, description) => OperationFailed("Error deleting file " + entry + ": " + description)
  }

  /** Where the replace loop stopped: after the last entry, or at a refused delete. */
  datatype SweepEnd =
    | Finished(files: Files, commands: seq<Command>, used: nat)
    | Aborted(files: Files, commands: seq<Command>, error: Error)

  /**
   * The replace loop from entry `i` on, `used` replies consumed so far,
   * `files` the server's files and `commands` the commands sent so far.
   */
  function Sweep(entries: seq<string>, i: nat, fileName: string, directory: string, replies: seq<Reply>,
                 used: nat, files: Files, commands: seq<Command>): SweepEnd
    requires i <= |entries|
    decreases |entries| - i
  {
    if i == |entries| then Finished(files, commands, used)
    else if EqualsIgnoreCase(entries[i], fileName) then
      Sweep(entries, i + 1, fileName, directory, replies, used, files, commands)
    else
      var path := Resolve(directory, entries[i]);
      var reply := ReplyAt(replies, used);
      var files' := AfterDelete(files, path, reply);
      var commands' := commands + [Dele(path)];
      if SweepDeleteAccepted(reply) then
        Sweep(entries, i + 1, fileName, directory, replies, used + 1, files', commands')
      else
        Aborted(files', commands', DeleteFailure(entries[i], reply))
  }

  /** The outcome of one replace call, the commands it sends and the server's files afterwards. */
  datatype Run = Run(outcome: Outcome, commands: seq<Command>, files: Files)

  /** `ReplaceFileAsync` as a function of the server's files and the oracle inputs. */
  function ReplaceRun(files: Files, localPath: string, remotePath: string, localExists: bool,
                      contents: seq<byte>, listing: ListResponse, replies: seq<Reply>): Run
  {
    if localPath == [] || remotePath == [] then Run(Err(ArgumentError(PathsRequired)), [], files)
    else if !localExists then Run(Err(FileNotFound(LocalFileMissing)), [], files)
    else
      var directory := DirectoryPath(remotePath);
      if listing.failure.Some? then
        Run(Err(ListingError(listing.failure.value)), [Nlst(directory)], files)
      else
        var rest := ReconcileRun(files, Basename(localPath), directory, contents, listing.lines, replies);
        Run(rest.outcome, [Nlst(directory)] + rest.commands, rest.files)
  }

  /** A replace call after its listing returned `entries`: the delete loop, then the upload. */
  function ReconcileRun(files: Files, fileName: string, directory: string, contents: seq<byte>,
                        entries: seq<string>, replies: seq<Reply>): Run
  {
    match Sweep(entries, 0, fileName, directory, replies, 0, files, [])
    case Aborted(after, deletes, error) => Run(Err(error), deletes, after)
    case Finished(after, deletes, used) =>
      var target := Resolve(directory, fileName);
      var reply := ReplyAt(replies, used);
      Run(UploadOutcome(reply, Replaced), deletes + [Stor(target, contents)], AfterUpload(after, target, contents, reply))
  }

  /** `UploadFileAsync`: check the arguments, then store the local bytes at the upload path. */
  method UploadFile(server: Server, localPath: string, remotePath: string, localExists: bool,
                    contents: seq<byte>, reply: Reply) returns (outcome: Outcome)
    modifies server
    ensures localPath == [] || remotePath == [] ==>
              && outcome == Err(ArgumentError(PathsRequired))
              && server.log == old(server.log) && server.files == old(server.files)
    ensures localPath != [] && remotePath != [] && !localExists ==>
              && outcome == Err(FileNotFound(LocalFileMissing))
              && server.log == old(server.log) && server.files == old(server.files)
    ensures localPath != [] && remotePath != [] && localExists ==>
              var target := UploadPath(remotePath, localPath);
              && server.log == old(server.log) + [Stor(target, contents)]
              && server.files == AfterUpload(old(server.files), target, contents, reply)
              && outcome == UploadOutcome(reply, Uploaded)
  {
    if localPath == [] || remotePath == [] {
      return Err(ArgumentError(PathsRequired));
    }
    if !localExists {
      return Err(FileNotFound(LocalFileMissing));
    }
    var target := UploadPath(remotePath, localPath);
    server.Upload(target, contents, reply);
    outcome := UploadOutcome(reply, Uploaded);
  }

  /** `DeleteFileAsync`: check the argument, then delete the resolved path once. */
  method DeleteFile(server: Server, remotePath: string, reply: Reply) returns (outcome: Outcome)
    modifies server
    ensures remotePath == [] ==>
              && outcome == Err(ArgumentError(RemotePathRequired))
              && server.log == old(server.log) && server.files == old(server.files)
    ensures remotePath != [] ==>
              && server.log == old(server.log) + [Dele(DeletePath(remotePath))]
              && server.files == AfterDelete(old(server.files), DeletePath(remotePath), reply)
              && outcome == DeleteOutcome(reply)
  {
    if remotePath == [] {
      return Err(ArgumentError(RemotePathRequired));
    }
    var target := DeletePath(remotePath);
    server.Delete(target, reply);
    outcome := DeleteOutcome(reply);
  }

  /**
   * `ListFilesInDirectoryAsync`: send a name list and collect every line
   * read, in order; any failure is wrapped, and no partial list escapes.
   */
  method ListFilesInDirectory(server: Server, directory: string, response: ListResponse)
    returns (result: Result<seq<string>, Error>)
    modifies server
    ensures server.log == old(server.log) + [Nlst(directory)]
    ensures server.files == old(server.files)
    ensures response.failure.None? ==> result == Success(response.lines)
    ensures response.failure.Some? ==> result == Failure(ListingError(response.failure.value))
  {
    server.List(directory);
    var fileList: seq<string> := [];
    var i := 0;
    while i < |response.lines|
      invariant 0 <= i <= |response.lines|
      invariant fileList == response.lines[..i]
    {
      fileList := fileList + [response.lines[i]];
      i := i + 1;
    }
    assert fileList == response.lines;
    if response.failure.Some? {
      return Failure(ListingError(response.failure.value));
    }
    return Success(fileList);
  }

  /** `ReplaceFileAsync`: check the arguments, list the directory, then reconcile it. */
  method ReplaceFile(server: Server, localPath: string, remotePath: string, localExists: bool,
                     contents: seq<byte>, listing: ListResponse, replies: seq<Reply>) returns (outcome: Outcome)
    modifies server
    ensures var run := ReplaceRun(old(server.files), localPath, remotePath, localExists, contents, listing, replies);
            && outcome == run.outcome
            && server.files == run.files
            && server.log == old(server.log) + run.commands
  {
    if localPath == [] || remotePath == [] {
      return Err(ArgumentError(PathsRequired));
    }
    if !localExists {
      return Err(FileNotFound(LocalFileMissing));
    }
    var fileName := Basename(localPath);
    var directory := DirectoryPath(remotePath);
    var listed := ListFilesInDirectory(server, directory, listing);
    if listed.Failure? {
      return Err(listed.error);
    }
    ghost var listedLog := server.log;
    outcome := Reconcile(server, fileName, directory, contents, listed.value, replies);
    ReplaceRunAfterListing(old(server.files), localPath, remotePath, contents, listing, replies);
    AfterListingStep(ReplaceRun(old(server.files), localPath, remotePath, localExists, contents, listing, replies),
                     ReconcileRun(old(server.files), fileName, directory, contents, listed.value, replies),
                     directory, old(server.log), listedLog, server.log);
  }

  /** The last step of `ReplaceFile`: a run made of the listing and then `rest` is what the log and files show. */
  lemma {:induction false} AfterListingStep(run: Run, rest: Run, directory: string,
                                            before: seq<Command>, listed: seq<Command>, after: seq<Command>)
    requires run == Run(rest.outcome, [Nlst(directory)] + rest.commands, rest.files)
    requires listed == before + [Nlst(directory)] && after == listed + rest.commands
    ensures after == before + run.commands
  {
    assert before + [Nlst(directory)] + rest.commands == before + ([Nlst(directory)] + rest.commands);
  }

  /** A replace call whose arguments pass and whose listing succeeds: the listing, then the reconciliation. */
  lemma {:induction false} ReplaceRunAfterListing(files: Files, localPath: string, remotePath: string,
                                                  contents: seq<byte>, listing: ListResponse, replies: seq<Reply>)
    requires localPath != [] && remotePath != [] && listing.failure.None?
    ensures var directory := DirectoryPath(remotePath);
            var rest := ReconcileRun(files, Basename(localPath), directory, contents, listing.lines, replies);
            ReplaceRun(files, localPath, remotePath, true, contents, listing, replies)
              == Run(rest.outcome, [Nlst(directory)] + rest.commands, rest.files)
  {
  }

  /**
   * The body of `ReplaceFileAsync` after the listing: delete every entry
   * whose name is not `fileName` ignoring case, then upload the file.
   */
  method Reconcile(server: Server, fileName: string, directory: string, contents: seq<byte>,
                   entries: seq<string>, replies: seq<Reply>) returns (outcome: Outcome)
    modifies server
    ensures var run := ReconcileRun(old(server.files), fileName, directory, contents, entries, replies);
            && outcome == run.outcome
            && server.files == run.files
            && server.log == old(server.log) + run.commands
  {
    var used, failure := DeleteOtherEntries(server, entries, fileName, directory, replies);
    if failure.Some? {
      return Err(failure.value);
    }
    var target := Resolve(directory, fileName);
    var reply := ReplyAt(replies, used);
    server.Upload(target, contents, reply);
    outcome := UploadOutcome(reply, Replaced);
  }

  /**
   * The loop of `ReplaceFileAsync`: delete, in listing order, every entry
   * whose name is not `fileName` ignoring case; stop at the first delete
   * whose reply is neither 250 nor 550. Returns how many replies were used.
   */
  method DeleteOtherEntries(server: Server, entries: seq<string>, fileName: string, directory: string,
                            replies: seq<Reply>) returns (used: nat, failure: Option<Error>)
    modifies server
    ensures var end := Sweep(entries, 0, fileName, directory, replies, 0, old(server.files), []);
            && server.files == end.files
            && server.log == old(server.log) + end.commands
            && (failure.None? <==> end.Finished?)
            && (end.Finished? ==> used == end.used)
            && (end.Aborted? ==> failure == Some(end.error))
  {
    ghost var sent: seq<Command> := [];
    used := 0;
    for i := 0 to |entries|
      invariant server.log == old(server.log) + sent
      invariant Sweep(entries, 0, fileName, directory, replies, 0, old(server.files), [])
             == Sweep(entries, i, fileName, directory, replies, used, server.files, sent)
    {
      var entry := entries[i];
      if !EqualsIgnoreCase(entry, fileName) {
        var path := Resolve(directory, entry);
        var reply := ReplyAt(replies, used);
        server.Delete(path, reply);
        sent := sent + [Dele(path)];
        if !SweepDeleteAccepted(reply) {
          return used, Some(DeleteFailure(entry, reply));
        }
        used := used + 1;
      }
    }
    failure := None;
  }
}
