# FtpApi file service, modelled in Dafny

This project models `FileService` of FtpService.cs. The service is the part
of the FtpApi web API that talks to one FTP server. It has three public
operations:

- **Upload** checks its two paths and that the local file exists. It then
  stores the local bytes at `/{remotePath without leading '/'}/{file name}`.
  It succeeds only when the server replies 226 (closing data connection).
- **Replace** checks the same inputs and lists the remote directory. In
  listing order, it deletes every listed entry whose name is not the local
  file's name, compared ignoring case. A delete answered 250 (completed) or
  550 (file unavailable) lets the loop continue. Any other delete answer
  stops the call, and deletions already done stay done. After the loop it
  uploads the file, which succeeds only on 226.
- **Delete** checks its path and deletes it once. It succeeds only on 250,
  so a 550 is a failure here.

The private helper **ListFilesInDirectory** sends a name list, collects
every line read and wraps any failure in an "Error listing files in
directory" error.

The model is split into five modules:

- `Wrappers` (wrappers.dfy) holds the `Option` and `Result` datatypes.
- `Paths` (paths.dfy) holds the path strings the service builds. It covers
  `TrimStart`/`TrimEnd` of one character, the file name of a local path,
  and the resolution that `new Uri(baseUri, name)` performs, following
  sections 5.2.2 and 5.2.3 of RFC 3986. An empty reference keeps the base
  path, a reference starting with '/' replaces it, and any other reference
  is merged into it. It also has an ASCII case-insensitive comparison.
- `Ftp` (ftp.dfy) holds the remote side:
  - the reply codes of section 4.2.2 of RFC 959;
  - the NLST, DELE and STOR commands of section 4.1.3 of RFC 959;
  - the service's three acceptance rules;
  - a `Server` class whose stored files change only as the replies say, and which logs every command it is sent.
- `FileService` (file_service.dfy) holds the operations. Each one is an
  imperative method on a `Server`, and each is proved against a
  specification function of the server's files and the oracle inputs
  (`ReplaceRun`, `ReconcileRun`, `Sweep`).
- `ReplaceProperties` (replace_properties.dfy) describes replace without
  reference to the loop. It defines the plan of deletes (`ToDelete`), the
  first refused reply (`FirstRefused`) and the files the deletes leave
  (`RemovedPaths`), and proves what a replace call sends, stops at and
  leaves.

Replies from the server are inputs. Upload and Delete take one `Reply`.
Replace takes a sequence of them: the k-th delete or store of the call gets
the k-th reply, and a missing reply is a transport failure. The listing is a
`ListResponse` input: the lines read, and possibly the failure that ended
the read. Whether the local file exists, and its bytes, are inputs too. An
exception of the source is an `Err` outcome, and a returned message is an
`Ok` outcome carrying the same text.

Two consequences of the code differ from what the names of the operations
suggest, and the model follows the code:

- **Replace works beside the directory.** One would expect replace to
  delete `{remotePath}/{entry}` and upload to `{remotePath}/{file name}`.
  The code resolves each name with `new Uri(ftpBaseUri, name)` against
  `ftp://host/{remotePath without trailing '/'}`, and that base has no
  trailing '/'. So the name replaces the base's last segment. For a
  one-segment directory `docs`, replace deletes `/B.txt` and uploads
  `/A.txt` at the server root, while upload writes `/docs/A.txt`
  (`Paths.ResolvedNameIsOutsideDirectory`,
  `Paths.UploadAndReplaceTargetsDiffer`, `ReplaceProperties.ReplaceExample`).
- **Case variants are kept.** One would expect replace to delete a
  differently-cased copy of the file's name, since it is a different file
  on a case-sensitive server. The code skips every entry equal to the
  file's name ignoring case, so such a copy is never deleted
  (`ReplaceProperties.CaseVariantsAreKept`).

## Model

| member | source | states |
|---|---|---|
| Paths.TrimStart | FtpService.cs:34 | the result is the suffix of the input left after a maximal run of leading `c`: it does not start with `c`, and everything removed was `c` |
| Paths.TrimEnd | FtpService.cs:73 | the result is a prefix of the input that does not end with `c`, and everything removed was `c` |
| Paths.LastIndexOf | FtpService.cs:34 | the index of the last '/' or -1: that position holds the character and none after it does |
| Paths.Basename | FtpService.cs:72 | the file name holds no '/', is a suffix of the path, and is preceded by '/' whenever it is shorter than the path |
| Paths.MergeBase | FtpService.cs:81 | the merge prefix of section 5.2.3 of RFC 3986 ends with '/', is a prefix of the base that stops at its last '/', and is "/" for a base without '/' |
| Paths.RelativeName | FtpService.cs:81 | definition: a reference that `new Uri` merges, neither empty nor starting with '/' |
| Paths.Resolve | FtpService.cs:81 | definition: the path of `new Uri(base, reference)` by section 5.2.2 of RFC 3986; the base path for an empty reference, the reference itself when it starts with '/', the merge otherwise (also used at lines 95 and 128) |
| Paths.ResolveIsInjective | FtpService.cs:81 | against the same base, two relative names (not empty, not starting with '/') resolve to the same path exactly when they are equal |
| Paths.UploadPath | FtpService.cs:34 | definition: `/{remotePath without leading '/'}/{file name}` |
| Paths.DirectoryPath | FtpService.cs:73-74 | definition: `/{remotePath without trailing '/'}`, the base replace lists and resolves against |
| Paths.DeletePath | FtpService.cs:128 | definition: the remote path without leading '/', resolved against the server root |
| Paths.FoldCase | FtpService.cs:79 | definition: maps an ASCII capital letter to its small letter and leaves every other character |
| Paths.EqualsIgnoreCase | FtpService.cs:79 | definition: same length and equal after folding case at every position |
| Paths.EqualsIgnoreCaseIsEquivalence | FtpService.cs:79 | the case-insensitive comparison is reflexive, symmetric and transitive |
| Paths.CaseVariantsAreEqual | FtpService.cs:79 | "A.txt" equals "a.txt" ignoring case, and "B.txt" does not equal "A.txt" |
| Paths.TrimStartAppend | FtpService.cs:128 | trimming leading `c` from `s + t` trims only within `s` when something of `s` is left |
| Paths.BasenameAfterSlash | FtpService.cs:34 | the file name of `dir + "/" + name` is `name` when `name` holds no '/' |
| Paths.BasenameOfPlainName | FtpService.cs:72 | a name without '/' is its own file name |
| Paths.ResolveAtRoot | FtpService.cs:128 | resolving an empty reference or one not starting with '/' against the server root gives "/" followed by the reference |
| Paths.UploadPathNamesLocalFile | FtpService.cs:34 | the upload path's file name is the local file's name |
| Paths.DeletePathIsRooted | FtpService.cs:128 | a direct delete targets "/" + the remote path without its leading '/' |
| Paths.TrimStartOfChild | FtpService.cs:128 | trimming leading '/' from `{remotePath}/{name}` trims only within the remote path when something of it is left |
| Paths.DeletePathOfChild | FtpService.cs:128 | a direct delete of `{remotePath}/{name}` targets `/{remotePath without leading '/'}/{name}` |
| Paths.DeletePathUndoesUploadPath | FtpService.cs:34 | a direct delete of `{remotePath}/{file name}` targets exactly the path an upload of that file to `remotePath` writes, unless the remote path is only '/' |
| Paths.ResolvedNameIsOutsideDirectory | FtpService.cs:73-81 | a name without '/' that replace resolves against its directory never lands inside that directory, unless the directory is the server root |
| Paths.ResolveInTopLevelDirectory | FtpService.cs:73-95 | for a one-segment directory, replace resolves every relative name at the server root |
| Paths.UploadAndReplaceTargetsDiffer | FtpService.cs:34-95 | for a one-segment directory `dir` and a non-empty file name, upload writes `/dir/{file name}` while replace writes `/{file name}` |
| Ftp.SweepDeleteAccepted | FtpService.cs:87 | definition: the replace loop accepts a delete reply that is 250 or 550 |
| Ftp.UploadAccepted | FtpService.cs:49 | definition: an upload reply is accepted exactly when it is 226 (also line 110) |
| Ftp.DirectDeleteAccepted | FtpService.cs:135 | definition: a direct delete reply is accepted exactly when it is 250 |
| Ftp.AfterDelete | FtpService.cs:128-133 | definition: the server removes the path exactly when it answers 250 |
| Ftp.AfterUpload | FtpService.cs:34-47 | definition: the server stores the data at the path exactly when it answers 226 |
| Ftp.DeleteRulesDisagreeOnlyOnUnavailable | FtpService.cs:87-135 | the loop's rule and the direct-delete rule differ exactly on 550, and every reply the direct rule accepts the loop accepts too |
| Ftp.DeleteUndoesUpload | FtpService.cs:49-135 | an accepted upload followed by an accepted delete of the same path leaves every other path as it was and removes that one |
| Ftp.Server.List | FtpService.cs:150-151 | a name list is logged and changes no file |
| Ftp.Server.Delete | FtpService.cs:128-133 | a delete is logged and removes the path exactly when answered 250 |
| Ftp.Server.Upload | FtpService.cs:34-47 | a store is logged and writes the data exactly when answered 226 |
| FileService.UploadOutcome | FtpService.cs:47-57 | an upload succeeds exactly on 226 with the given message; any other status fails with "Error uploading file: " and the server's description; a transport failure passes through |
| FileService.DeleteOutcome | FtpService.cs:133-143 | a direct delete succeeds exactly on 250 with "File deleted successfully."; every other status, 550 included, fails with "Error deleting file: " and the description; a transport failure passes through |
| FileService.ListingError | FtpService.cs:169 | definition: "Error listing files in directory" wrapping the cause |
| FileService.DeleteFailure | FtpService.cs:89 | definition: "Error deleting file {entry}: " and the description for a status; a transport failure passes through |
| FileService.Sweep | FtpService.cs:77-93 | definition: the delete loop entry by entry; skip a case variant of the file name, else send one delete with the next reply, continue on 250 or 550 and stop with `DeleteFailure` otherwise |
| FileService.ReplaceRun | FtpService.cs:60-119 | definition: the argument checks, then the listing of `DirectoryPath`, a failed listing wrapped, then `ReconcileRun` |
| FileService.ReconcileRun | FtpService.cs:77-118 | definition: `Sweep` over the listing; if it finished, one store at the resolved file name answered by the next reply |
| FileService.UploadFile | FtpService.cs:22-58 | an empty path fails with "Local path and remote path are required." and a missing local file with "Local file not found.", both with no command sent; otherwise exactly one store of the local bytes at the upload path is sent, the server's files change as its reply says, and the outcome follows the 226 rule |
| FileService.DeleteFile | FtpService.cs:121-144 | an empty path fails with "Remote path is required." and sends nothing; otherwise exactly one delete at the resolved path is sent, the files change as its reply says, and the outcome follows the 250 rule |
| FileService.ListFilesInDirectory | FtpService.cs:146-173 | one name list of the directory is sent and no file changes; the result is every line read, in order, or the wrapped listing error with its cause when the read failed |
| FileService.ReplaceFile | FtpService.cs:60-119 | the outcome, the commands sent and the server's files after a replace call are exactly those of `ReplaceRun` for the server's files before it |
| FileService.Reconcile | FtpService.cs:77-118 | after the listing: the delete loop, then, if the loop finished, one store at the resolved file name with the next reply, all as `ReconcileRun` says |
| FileService.DeleteOtherEntries | FtpService.cs:77-93 | the loop sends the deletes and leaves the files `Sweep` describes, reports failure exactly when `Sweep` aborts and with its error, and otherwise reports how many replies were used |
| ReplaceProperties.ToDeleteMembers | FtpService.cs:77-79 | the names replace deletes are exactly the listed entries that are not the file's name ignoring case |
| ReplaceProperties.ToDelete | FtpService.cs:77-79 | definition: the listed entries, in order, that are not the file's name ignoring case |
| ReplaceProperties.Deletes | FtpService.cs:81-83 | definition: one delete per name, at the name resolved against the directory |
| ReplaceProperties.FirstRefused | FtpService.cs:85-90 | the number of deletes accepted before the first refusal is at most the number of deletes, and the reply at that position, if it is within them, is neither 250 nor 550 |
| ReplaceProperties.FirstRefusedAccepted | FtpService.cs:85-90 | every reply before the first refused one is 250 or 550 |
| ReplaceProperties.ApplyDeletes | FtpService.cs:85-90 | definition: the files after deleting the names one by one, each answered by the next reply |
| ReplaceProperties.RemovedPaths | FtpService.cs:85-90 | definition: the resolved names whose delete was answered 250 |
| ReplaceProperties.ApplyDeletesRemoves | FtpService.cs:85-90 | deleting names one by one removes exactly the resolved paths answered 250 and keeps every other file unchanged |
| ReplaceProperties.RemovedPathsSplit | FtpService.cs:85-90 | the paths a run of deletes removes are those of its first delete, if answered 250, together with those of the rest |
| ReplaceProperties.DeletesAreDeles | FtpService.cs:81-83 | every command the loop sends for a list of names is a delete |
| ReplaceProperties.ListingAndDeletesStoreNothing | FtpService.cs:75-83 | the name list followed by the loop's deletes holds no store |
| ReplaceProperties.DeletesTargetNames | FtpService.cs:81-83 | every delete the loop sends targets one of the names it was given, resolved against the directory |
| ReplaceProperties.Sent | FtpService.cs:85-90 | definition: the planned names up to and including the first refused one, or all of them |
| ReplaceProperties.Shaped | FtpService.cs:77-93 | definition: `ShapedTrace` and `ShapedEnd` together |
| ReplaceProperties.ShapedTrace | FtpService.cs:81-90 | definition: the loop's commands and files are those of deleting exactly the `Sent` names |
| ReplaceProperties.ShapedEnd | FtpService.cs:87-93 | definition: the loop finishes exactly when no planned delete is refused, then having used one reply per planned name, and otherwise stops with the first refused entry's failure |
| ReplaceProperties.ShapedAfterAccepted | FtpService.cs:85-90 | after an accepted delete of the first planned name, the rest of the loop has the shape the remaining plan dictates |
| ReplaceProperties.TraceAfterAccepted | FtpService.cs:81-90 | after an accepted first delete, the commands and files of the loop are that delete's followed by those of the rest of the plan |
| ReplaceProperties.CommandsAfterAccepted | FtpService.cs:81-90 | after an accepted first delete, the commands sent are that delete followed by the deletes of the rest of the plan |
| ReplaceProperties.FilesAfterAccepted | FtpService.cs:85-90 | after an accepted first delete, the files are those the rest of the plan's deletes leave after that delete |
| ReplaceProperties.EndAfterAccepted | FtpService.cs:87-93 | after an accepted first delete, the loop finishes or stops as the rest of the plan says, one reply later |
| ReplaceProperties.SentAfterAccepted | FtpService.cs:87-90 | after an accepted first delete, the names sent for the plan are the first one followed by those sent for the rest |
| ReplaceProperties.DeletesCons | FtpService.cs:81-90 | deleting a first name and then the others sends that delete first and applies its reply before the others' |
| ReplaceProperties.ShapedAfterRefused | FtpService.cs:87-89 | a refused delete of the first planned name ends the loop after that one delete, with the error naming that entry |
| ReplaceProperties.SweepShape | FtpService.cs:77-93 | the loop sends one delete per planned name up to and including the first refused one, leaves the files those deletes leave, and finishes exactly when none is refused, having used one reply per planned name |
| ReplaceProperties.ReconcileSweep | FtpService.cs:77-93 | the loop over the whole listing, from the first reply and no command, has the shape its plan dictates |
| ReplaceProperties.ReconcileAborted | FtpService.cs:87-90 | refused at the m-th planned delete, a call after its listing sends the first m + 1 deletes and no store, reports that delete's failure, and keeps every file except the paths answered 250 |
| ReplaceProperties.ReconcileFinished | FtpService.cs:77-118 | with no planned delete refused, a call after its listing sends every planned delete and then the store, keeps every file except the paths answered 250, stores the bytes on 226, and reports the 226 rule's outcome |
| ReplaceProperties.ReconcileShape | FtpService.cs:77-118 | after the listing: refused at the m-th delete, the call sends the first m + 1 deletes and no store, reports that delete's failure, and keeps every file except the paths answered 250; otherwise it sends every planned delete and then the store, and the outcome follows the 226 rule |
| ReplaceProperties.UnavailableRemovesNothing | FtpService.cs:85-90 | deletes all answered 550 remove no path |
| ReplaceProperties.SweepContinuesOnUnavailable | FtpService.cs:87 | a delete answered 550 inside the replace loop leaves the files as they were and the loop goes on with the next entry and the next reply |
| FileService.AfterListingStep | FtpService.cs:75-95 | the log after replace is the log before it, the name list and then the rest of the run's commands |
| FileService.ReplaceRunAfterListing | FtpService.cs:72-75 | with valid inputs and a successful listing, a replace call is the name list of `/{remotePath without trailing '/'}` followed by the reconciliation |
| ReplaceProperties.ReplaceChecksArgumentsFirst | FtpService.cs:62-70 | an empty path, then a missing local file, fail with their messages before any command, and no file changes |
| ReplaceProperties.ListingFailureStopsReplace | FtpService.cs:154-170 | a failed listing is reported wrapped with its cause, and no delete or store follows |
| ReplaceProperties.ReplaceDeletesForeignEntries | FtpService.cs:77-95 | when no delete is refused, replace sends the name list, one delete per entry that is not the file's name ignoring case, in listing order, and the store last |
| ReplaceProperties.CaseVariantsAreKept | FtpService.cs:79 | when the listed lines are relative names, no delete targets an entry equal to the file's name ignoring case, and the file it names is unchanged afterwards unless the store overwrote it |
| ReplaceProperties.ReconcileKeepsCaseVariants | FtpService.cs:79-93 | the same after the listing, for any relative name equal to the file's name ignoring case |
| ReplaceProperties.KeptWhenFinished | FtpService.cs:79-118 | when the loop finishes, neither its deletes nor the store touch a case variant of the file's name other than the stored path |
| ReplaceProperties.KeptEntryIsNeverTargeted | FtpService.cs:79-81 | when the listed lines are relative names, no delete of any prefix of the plan targets, or removes, a relative name that is a case variant of the file's name |
| ReplaceProperties.RefusedDeleteStopsReplace | FtpService.cs:87-90 | a refused delete stops the call with no store sent, reports that delete's failure naming its entry, and keeps the deletions answered 250 before it |
| ReplaceProperties.UnavailableIsSuccessOnlyInsideReplace | FtpService.cs:87-141 | if every delete of a replace is answered 550 and the store 226, the call succeeds and only the stored file changes, while a direct delete answered 550 fails |
| ReplaceProperties.SuccessfulReplaceStoresFile | FtpService.cs:95-112 | a replace that reports success has sent the store of the local bytes last, and the server holds those bytes at the resolved file name |
| ReplaceProperties.ReplaceExample | FtpService.cs:72-95 | for a one-segment directory `dir` (no '/') and a first delete answered 250 or 550, a listing of the file's name, a case variant of it and one other relative name gives one name list, one delete of the other entry at the server root, and one store at the server root |
| ReplaceProperties.ExampleCommands | FtpService.cs:72-95 | the commands of the example run, with its directory, delete and upload paths filled in, are exactly NLST /dir, DELE /other, STOR /name |
| ReplaceProperties.ExamplePlan | FtpService.cs:77-79 | of a listing of the file's name, a case variant and one other entry, only the other entry is deleted |
| ReplaceProperties.ExamplePaths | FtpService.cs:73-95 | for a one-segment directory `dir`, the listing is of `/dir` and relative names resolve at the server root |

## Left out

- The web controller (FtpController.cs) is left out. It only forwards requests to the service, and HTTP handling is not part of this model.
- The transport (FtpWebRequest, streams, `async`/`await`) is left out. Every reply is an input, and a transport exception is a `TransportError` reply that the service passes through unchanged.
- The .NET client raises an exception on an error reply (for instance 550) instead of returning it. The model follows the status checks as the code writes them (FtpService.cs:49, 87, 110, 135). Under that library behaviour, the 550 branch of the replace loop would be unreachable.
- The local file system is left out. Whether the local path exists is a boolean input, and the file's bytes are an input. A read failure between the check and the read is not modelled.
- The credentials and the server address (FtpService.cs:18-20) are left out. A remote location is the path component of its URI on the one configured server.
- General URI parsing is not modelled. Dot segments, '?', '#', percent-encoding, backslashes, a reference starting with "//" (a network-path reference that names another host) and a name that is itself an absolute URI all change what `new Uri` produces. The model covers an empty reference, a reference starting with '/' and the merge of any other reference.
- Case-insensitive comparison folds only ASCII letters. The full Unicode case folding of ordinal ignore-case comparison is not modelled.
- Concurrency is not modelled. Two replace calls racing on one directory are outside the model.
- A null path is modelled as the empty string, which the same check rejects.
- The listing is an input independent of the server's stored files. The names a server lists are not derived from `files`, so "a second replace converges" is not stated.
- The listing lines are taken as read. Line splitting of the data stream is not modelled. An empty line is an entry like any other: it resolves to the directory path itself, so replace sends a delete of `/{remotePath without trailing '/'}`. A line starting with '/' resolves to itself, whatever path it names.
- ReplaceProperties.CaseVariantsAreKept, ReplaceProperties.ReconcileKeepsCaseVariants and ReplaceProperties.KeptEntryIsNeverTargeted hold only when every listed line is a relative name (not empty, not starting with '/'). An empty line resolves to the directory path itself, which is also where a kept entry equal to the directory's last segment resolves; a line starting with '/' can name any path. The delete of such a line can then remove the file of a kept entry.
- Paths.ResolveIsInjective is stated for relative names only: an empty reference and the base path, or a reference starting with '/' and a merged one, can resolve to the same path.
- Paths.Basename splits only at '/'. On Windows, `Path.GetFileName` also splits at '\\' and after a drive letter's ':'; the model follows the behaviour on a system whose only separator is '/'.
- Partial uploads are not modelled. A store either writes all the bytes (on 226) or changes nothing.
- Ftp.AfterUpload: a store answered 250 is modelled as storing nothing. Section 5.4 of RFC 959 lists 250 as a success reply to STOR, so a server may have stored the file; the service reports that reply as a failure, and the model does not say what the server holds then.
- ReplaceProperties.ReplaceExample is stated for any one-segment directory and any names of the given shape, rather than only for the literal names "docs", "A.txt", "a.txt" and "B.txt".
