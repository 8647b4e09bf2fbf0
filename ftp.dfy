/**
 * The remote side as the file service sees it: reply codes of section
 * 4.2.2 of RFC 959, the three reply-acceptance rules of the service, the
 * commands it sends, and an abstract server whose stored files change
 * only as the replies say.
 *
 * A reply is an oracle input: the service is given, for every command it
 * sends, the reply the server gives (or the transport failure that
 * replaces it).
 */
module Ftp {

  newtype byte = b: int | 0 <= b < 256

  /** 226: closing data connection; the requested file action was successful. */
  const ClosingData := 226
  /** 250: requested file action okay, completed. */
  const FileActionOk := 250
  /** 550: requested action not taken, file unavailable. */
  const FileUnavailable := 550

  /** What a store or delete command gets back. */
  datatype Reply =
    | Status(code: int, description: string)
    | TransportError(message: string)   // the request raised instead of replying

  /** Remote paths and the bytes stored under them. */
  type Files = map<string, seq<byte>>

  /** The commands the service sends (the verbs of section 4.1.3 of RFC 959). */
  datatype Command =
    | Nlst(path: string)                    // name list of a directory
    | Dele(path: string)                    // delete a file
    | Stor(path: string, data: seq<byte>)   // store a file

  predicate HasCode(reply: Reply, code: int)
  {
    reply.Status? && reply.code == code
  }

  /** The rule of `UploadFileAsync` and `ReplaceFileAsync` for the final upload. */
  predicate UploadAccepted(reply: Reply)
  {
    HasCode(reply, ClosingData)
  }

  /** The rule of `DeleteFileAsync`: only "completed" is success. */
  predicate DirectDeleteAccepted(reply: Reply)
  {
    HasCode(reply, FileActionOk)
  }

  /**
   * The rule of the delete loop inside `ReplaceFileAsync`: "completed" or
   * "file unavailable". It is the direct rule widened by exactly one code.
   */
  predicate SweepDeleteAccepted(reply: Reply)
  {
    reply.Status? && (reply.code == FileActionOk || reply.code == FileUnavailable)
  }

  /** A 550 reply is accepted by the sweep's rule and refused by the direct rule. */
  lemma {:induction false} DeleteRulesDisagreeOnlyOnUnavailable(reply: Reply)
    ensures SweepDeleteAccepted(reply) && !DirectDeleteAccepted(reply) <==> HasCode(reply, FileUnavailable)
    ensures DirectDeleteAccepted(reply) ==> SweepDeleteAccepted(reply)
  {
  }

  /** The stored files after a delete: the path is gone exactly when the server replied 250. */
  function AfterDelete(files: Files, path: string, reply: Reply): Files
  {
    if HasCode(reply, FileActionOk) then files - {path} else files
  }

  /** The stored files after an upload: the data is stored exactly when the server replied 226. */
  function AfterUpload(files: Files, path: string, data: seq<byte>, reply: Reply): Files
  {
    if HasCode(reply, ClosingData) then files[path := data] else files
  }

  /** A completed upload followed by a completed delete of the same path leaves no trace of the path. */
  lemma {:induction false} DeleteUndoesUpload(files: Files, path: string, data: seq<byte>, stored: Reply, deleted: Reply)
    requires UploadAccepted(stored) && DirectDeleteAccepted(deleted)
    ensures AfterDelete(AfterUpload(files, path, data, stored), path, deleted) == files - {path}
  {
  }

  /**
   * The remote server: the files it stores and the log of every command
   * it has been sent.
   */
  class Server {
    var files: Files
    var log: seq<Command>

    constructor (initial: Files)
      ensures files == initial && log == []
    {
      files := initial;
      log := [];
    }

    /** A directory listing: logged, changes nothing. */
    method List(path: string)
      modifies this
      ensures log == old(log) + [Nlst(path)]
      ensures files == old(files)
    {
      log := log + [Nlst(path)];
    }

    /** A delete answered by `reply`. */
    method Delete(path: string, reply: Reply)
      modifies this
      ensures log == old(log) + [Dele(path)]
      ensures files == AfterDelete(old(files), path, reply)
    {
      log := log + [Dele(path)];
      files := AfterDelete(files, path, reply);
    }

    /** An upload of `data` answered by `reply`. */
    method Upload(path: string, data: seq<byte>, reply: Reply)
      modifies this
      ensures log == old(log) + [Stor(path, data)]
      ensures files == AfterUpload(old(files), path, data, reply)
    {
      log := log + [Stor(path, data)];
      files := AfterUpload(files, path, data, reply);
    }
  }
}
