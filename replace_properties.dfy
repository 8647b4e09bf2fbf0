/**
 * What a replace call does, stated against independent descriptions: the
 * entries it must delete, where the first refused reply stops it, and the
 * files the server is left with.
 */
module ReplaceProperties {
  import opened Paths
  import opened Ftp
  import opened FileService
  import opened Wrappers

  /** The listed entries a replace deletes, in listing order: those whose name is not `fileName` ignoring case. */
  function ToDelete(entries: seq<string>, fileName: string): seq<string>
  {
    if entries == [] then []
    else (if EqualsIgnoreCase(entries[0], fileName) then [] else [entries[0]]) + ToDelete(entries[1..], fileName)
  }

  /** The entries to delete are exactly the listed entries whose name is not `fileName` ignoring case. */
  lemma {:induction false} ToDeleteMembers(entries: seq<string>, fileName: string, e: string)
    ensures e in ToDelete(entries, fileName) <==> e in entries && !EqualsIgnoreCase(e, fileName)
  {
    if entries != [] {
      ToDeleteMembers(entries[1..], fileName, e);
      assert entries == [entries[0]] + entries[1..];
    }
  }

  /** One delete command per name, each at the name resolved against `directory`. */
  function Deletes(directory: string, names: seq<string>): seq<Command>
  {
    seq(|names|, i requires 0 <= i < |names| => Dele(Resolve(directory, names[i])))
  }

  /** How many of `n` deletes, answered from reply `k` on, are accepted before the first refusal. */
  function FirstRefused(replies: seq<Reply>, k: nat, n: nat): (m: nat)
    ensures m <= n
    ensures m < n ==> !SweepDeleteAccepted(ReplyAt(replies, k + m))
    decreases n
  {
    if n == 0 || !SweepDeleteAccepted(ReplyAt(replies, k)) then 0 else 1 + FirstRefused(replies, k + 1, n - 1)
  }

  /** Every reply before the first refused one is accepted by the replace loop. */
  lemma {:induction false} FirstRefusedAccepted(replies: seq<Reply>, k: nat, n: nat, j: nat)
    requires k <= j < k + FirstRefused(replies, k, n)
    ensures SweepDeleteAccepted(ReplyAt(replies, j))
    decreases n
  {
    if j > k {
      FirstRefusedAccepted(replies, k + 1, n - 1, j);
    }
  }

  /** The server's files after deleting `names` one by one, answered from reply `k` on. */
  function ApplyDeletes(files: Files, directory: string, names: seq<string>, replies: seq<Reply>, k: nat): Files
    decreases |names|
  {
    if names == [] then files
    else ApplyDeletes(AfterDelete(files, Resolve(directory, names[0]), ReplyAt(replies, k)),
                      directory, names[1..], replies, k + 1)
  }

  /** The paths among the deletes of `names` whose reply was 250. */
  function RemovedPaths(directory: string, names: seq<string>, replies: seq<Reply>, k: nat): set<string>
  {
    set j | 0 <= j < |names| && DirectDeleteAccepted(ReplyAt(replies, k + j)) :: Resolve(directory, names[j])
  }

  /** Deleting one by one removes exactly the paths answered 250 and keeps everything else as it was. */
  lemma {:induction false} ApplyDeletesRemoves(files: Files, directory: string, names: seq<string>,
                                               replies: seq<Reply>, k: nat)
    ensures ApplyDeletes(files, directory, names, replies, k) == files - RemovedPaths(directory, names, replies, k)
    decreases |names|
  {
    if names == [] {
      assert RemovedPaths(directory, names, replies, k) == {};
    } else {
      var path := Resolve(directory, names[0]);
      var first := if DirectDeleteAccepted(ReplyAt(replies, k)) then {path} else {};
      var later := RemovedPaths(directory, names[1..], replies, k + 1);
      ApplyDeletesRemoves(AfterDelete(files, path, ReplyAt(replies, k)), directory, names[1..], replies, k + 1);
      RemovedPathsSplit(directory, names, replies, k);
      assert AfterDelete(files, path, ReplyAt(replies, k)) == files - first;
      assert files - first - later == files - (first + later);
    }
  }

  /** The paths removed by a run of deletes: those of the first delete, then those of the rest. */
  lemma {:induction false} RemovedPathsSplit(directory: string, names: seq<string>, replies: seq<Reply>, k: nat)
    requires names != []
    ensures RemovedPaths(directory, names, replies, k)
         == (if DirectDeleteAccepted(ReplyAt(replies, k)) then {Resolve(directory, names[0])} else {})
            + RemovedPaths(directory, names[1..], replies, k + 1)
  {
    var first := if DirectDeleteAccepted(ReplyAt(replies, k)) then {Resolve(directory, names[0])} else {};
    var later := RemovedPaths(directory, names[1..], replies, k + 1);
    forall p | p in RemovedPaths(directory, names, replies, k)
      ensures p in first + later
    {
      var j :| 0 <= j < |names| && DirectDeleteAccepted(ReplyAt(replies, k + j)) && p == Resolve(directory, names[j]);
      if j > 0 {
        assert names[1..][j - 1] == names[j];
        assert k + 1 + (j - 1) == k + j;
      }
    }
    forall p | p in first + later
      ensures p in RemovedPaths(directory, names, replies, k)
    {
      if p !in first {
        var j :| 0 <= j < |names[1..]| && DirectDeleteAccepted(ReplyAt(replies, k + 1 + j))
                 && p == Resolve(directory, names[1..][j]);
        assert names[j + 1] == names[1..][j];
        assert k + (j + 1) == k + 1 + j;
      }
    }
  }

  /** The commands issued for `names` are all deletes. */
  lemma {:induction false} DeletesAreDeles(directory: string, names: seq<string>)
    ensures forall c :: c in Deletes(directory, names) ==> c.Dele?
  {
  }

  /** Every delete command issued for `names` targets one of them. */
  lemma {:induction false} DeletesTargetNames(directory: string, names: seq<string>, c: Command)
    requires c in Deletes(directory, names)
    ensures exists n :: n in names && c == Dele(Resolve(directory, n))
  {
    var i :| 0 <= i < |names| && Deletes(directory, names)[i] == c;
    assert names[i] in names;
  }

  /**
   * What a sweep that had `plan` left to delete, from reply `used` on and
   * with `files` and `commands` so far, ends with: one delete per name up to
   * and including the first refused one, the files those deletes leave, and
   * a finish exactly when none is refused.
   */
  ghost predicate Shaped(end: SweepEnd, plan: seq<string>, directory: string, replies: seq<Reply>,
                         used: nat, files: Files, commands: seq<Command>)
  {
    ShapedTrace(end, plan, directory, replies, used, files, commands) && ShapedEnd(end, plan, replies, used)
  }

  /** The planned names a sweep sends deletes for: all of them up to and including the first refused one. */
  function Sent(plan: seq<string>, replies: seq<Reply>, used: nat): seq<string>
  {
    var m := FirstRefused(replies, used, |plan|);
    if m < |plan| then plan[..m + 1] else plan
  }

  /** The commands and files a sweep ends with: those of the planned deletes up to the first refused one. */
  ghost predicate ShapedTrace(end: SweepEnd, plan: seq<string>, directory: string, replies: seq<Reply>,
                              used: nat, files: Files, commands: seq<Command>)
  {
    var sent := Sent(plan, replies, used);
    && end.commands == commands + Deletes(directory, sent)
    && end.files == ApplyDeletes(files, directory, sent, replies, used)
  }

  /** How a sweep ends: finished, one reply per planned name used, exactly when no planned delete is refused. */
  ghost predicate ShapedEnd(end: SweepEnd, plan: seq<string>, replies: seq<Reply>, used: nat)
  {
    var m := FirstRefused(replies, used, |plan|);
    && (end.Finished? <==> m == |plan|)
    && (end.Finished? ==> end.used == used + |plan|)
    && (end.Aborted? ==> end.error == DeleteFailure(plan[m], ReplyAt(replies, used + m)))
  }

  /** An accepted delete of the first planned name keeps the shape of the rest of the sweep. */
  lemma {:induction false} ShapedAfterAccepted(end: SweepEnd, e: string, rest: seq<string>, directory: string,
                                               replies: seq<Reply>, used: nat, files: Files, commands: seq<Command>)
    requires SweepDeleteAccepted(ReplyAt(replies, used))
    requires Shaped(end, rest, directory, replies, used + 1,
                    AfterDelete(files, Resolve(directory, e), ReplyAt(replies, used)),
                    commands + [Dele(Resolve(directory, e))])
    ensures Shaped(end, [e] + rest, directory, replies, used, files, commands)
  {
    TraceAfterAccepted(end, e, rest, directory, replies, used, files, commands);
    EndAfterAccepted(end, e, rest, replies, used);
  }

  /** After an accepted first delete, the commands and files are that delete's followed by the rest's. */
  lemma {:induction false} TraceAfterAccepted(end: SweepEnd, e: string, rest: seq<string>, directory: string,
                                              replies: seq<Reply>, used: nat, files: Files, commands: seq<Command>)
    requires SweepDeleteAccepted(ReplyAt(replies, used))
    requires ShapedTrace(end, rest, directory, replies, used + 1,
                         AfterDelete(files, Resolve(directory, e), ReplyAt(replies, used)),
                         commands + [Dele(Resolve(directory, e))])
    ensures ShapedTrace(end, [e] + rest, directory, replies, used, files, commands)
  {
    CommandsAfterAccepted(e, rest, directory, replies, used, commands);
    FilesAfterAccepted(files, e, rest, directory, replies, used);
  }

  /** After an accepted first delete, the commands are that delete followed by the rest's deletes. */
  lemma {:induction false} CommandsAfterAccepted(e: string, rest: seq<string>, directory: string,
                                                 replies: seq<Reply>, used: nat, commands: seq<Command>)
    requires SweepDeleteAccepted(ReplyAt(replies, used))
    ensures commands + [Dele(Resolve(directory, e))] + Deletes(directory, Sent(rest, replies, used + 1))
         == commands + Deletes(directory, Sent([e] + rest, replies, used))
  {
    var d := Dele(Resolve(directory, e));
    var tail := Deletes(directory, Sent(rest, replies, used + 1));
    calc {
      commands + [d] + tail;
      == { assert commands + [d] + tail == commands + ([d] + tail); }
      commands + ([d] + tail);
      == { DeletesCons(map[], directory, e, Sent(rest, replies, used + 1), replies, used); }
      commands + Deletes(directory, [e] + Sent(rest, replies, used + 1));
      == { SentAfterAccepted(e, rest, replies, used); }
      commands + Deletes(directory, Sent([e] + rest, replies, used));
    }
  }

  /** After an accepted first delete, the files are those the rest's deletes leave after that one. */
  lemma {:induction false} FilesAfterAccepted(files: Files, e: string, rest: seq<string>, directory: string,
                                              replies: seq<Reply>, used: nat)
    requires SweepDeleteAccepted(ReplyAt(replies, used))
    ensures ApplyDeletes(AfterDelete(files, Resolve(directory, e), ReplyAt(replies, used)),
                         directory, Sent(rest, replies, used + 1), replies, used + 1)
         == ApplyDeletes(files, directory, Sent([e] + rest, replies, used), replies, used)
  {
    SentAfterAccepted(e, rest, replies, used);
    DeletesCons(files, directory, e, Sent(rest, replies, used + 1), replies, used);
  }

  /** After an accepted first delete, the sweep ends as the rest of the plan says, one reply later. */
  lemma {:induction false} EndAfterAccepted(end: SweepEnd, e: string, rest: seq<string>, replies: seq<Reply>, used: nat)
    requires SweepDeleteAccepted(ReplyAt(replies, used))
    requires ShapedEnd(end, rest, replies, used + 1)
    ensures ShapedEnd(end, [e] + rest, replies, used)
  {
    var plan := [e] + rest;
    var m' := FirstRefused(replies, used + 1, |rest|);
    assert FirstRefused(replies, used, |plan|) == 1 + m';
    if m' < |rest| {
      assert plan[m' + 1] == rest[m'];
      assert used + 1 + m' == used + (m' + 1);
    }
  }

  /** After an accepted first delete, the deletes sent for the whole plan are that one followed by those for the rest. */
  lemma {:induction false} SentAfterAccepted(e: string, rest: seq<string>, replies: seq<Reply>, used: nat)
    requires SweepDeleteAccepted(ReplyAt(replies, used))
    ensures Sent([e] + rest, replies, used) == [e] + Sent(rest, replies, used + 1)
  {
    var plan := [e] + rest;
    var m' := FirstRefused(replies, used + 1, |rest|);
    assert FirstRefused(replies, used, |plan|) == 1 + m';
    if m' < |rest| {
      assert plan[..m' + 2] == [e] + rest[..m' + 1];
    }
  }

  /** Deleting `e` and then `names`: one delete command and one change of the files, then the rest. */
  lemma {:induction false} DeletesCons(files: Files, directory: string, e: string, names: seq<string>,
                                       replies: seq<Reply>, k: nat)
    ensures Deletes(directory, [e] + names) == [Dele(Resolve(directory, e))] + Deletes(directory, names)
    ensures ApplyDeletes(files, directory, [e] + names, replies, k)
         == ApplyDeletes(AfterDelete(files, Resolve(directory, e), ReplyAt(replies, k)), directory, names, replies, k + 1)
  {
    assert ([e] + names)[0] == e && ([e] + names)[1..] == names;
  }

  /** A refused delete of the first planned name ends the sweep after that one delete. */
  lemma {:induction false} ShapedAfterRefused(e: string, rest: seq<string>, directory: string,
                                              replies: seq<Reply>, used: nat, files: Files, commands: seq<Command>)
    requires !SweepDeleteAccepted(ReplyAt(replies, used))
    ensures var path := Resolve(directory, e);
            var reply := ReplyAt(replies, used);
            Shaped(Aborted(AfterDelete(files, path, reply), commands + [Dele(path)], DeleteFailure(e, reply)),
                   [e] + rest, directory, replies, used, files, commands)
  {
    var plan := [e] + rest;
    var path := Resolve(directory, e);
    assert FirstRefused(replies, used, |plan|) == 0;
    assert plan[..1] == [e];
    assert Deletes(directory, [e]) == [Dele(path)];
    assert ApplyDeletes(files, directory, [e], replies, used) == AfterDelete(files, path, ReplyAt(replies, used));
  }

  /** The replace loop from entry `i` on has the shape its plan of deletes dictates. */
  lemma {:induction false} SweepShape(entries: seq<string>, i: nat, fileName: string, directory: string,
                                      replies: seq<Reply>, used: nat, files: Files, commands: seq<Command>)
    requires i <= |entries|
    ensures Shaped(Sweep(entries, i, fileName, directory, replies, used, files, commands),
                   ToDelete(entries[i..], fileName), directory, replies, used, files, commands)
    decreases |entries| - i
  {
    if i == |entries| {
      assert entries[i..] == [];
      assert commands + [] == commands;
    } else {
      var e := entries[i];
      assert entries[i..][0] == e && entries[i..][1..] == entries[i + 1..];
      var rest := ToDelete(entries[i + 1..], fileName);
      if EqualsIgnoreCase(e, fileName) {
        assert ToDelete(entries[i..], fileName) == [] + rest == rest;
        SweepShape(entries, i + 1, fileName, directory, replies, used, files, commands);
      } else {
        assert ToDelete(entries[i..], fileName) == [e] + rest;
        var path := Resolve(directory, e);
        var reply := ReplyAt(replies, used);
        if SweepDeleteAccepted(reply) {
          SweepShape(entries, i + 1, fileName, directory, replies, used + 1, AfterDelete(files, path, reply),
                     commands + [Dele(path)]);
          ShapedAfterAccepted(Sweep(entries, i + 1, fileName, directory, replies, used + 1,
                                    AfterDelete(files, path, reply), commands + [Dele(path)]),
                              e, rest, directory, replies, used, files, commands);
        } else {
          ShapedAfterRefused(e, rest, directory, replies, used, files, commands);
        }
      }
    }
  }

  /** The replace loop over the listed entries has the shape its plan of deletes dictates. */
  lemma {:induction false} ReconcileSweep(files: Files, fileName: string, directory: string,
                                          entries: seq<string>, replies: seq<Reply>)
    ensures Shaped(Sweep(entries, 0, fileName, directory, replies, 0, files, []),
                   ToDelete(entries, fileName), directory, replies, 0, files, [])
  {
    assert entries[0..] == entries;
    SweepShape(entries, 0, fileName, directory, replies, 0, files, []);
  }

  /**
   * A replace call after its listing, refused at the m-th planned delete:
   * it sends the first m + 1 deletes and no upload, reports that delete's
   * failure, and the deletes answered 250 stay done.
   */
  lemma {:induction false} ReconcileAborted(files: Files, fileName: string, directory: string, contents: seq<byte>,
                                            entries: seq<string>, replies: seq<Reply>)
    requires FirstRefused(replies, 0, |ToDelete(entries, fileName)|) < |ToDelete(entries, fileName)|
    ensures var plan := ToDelete(entries, fileName);
            var m := FirstRefused(replies, 0, |plan|);
            var run := ReconcileRun(files, fileName, directory, contents, entries, replies);
            && run.commands == Deletes(directory, plan[..m + 1])
            && run.files == files - RemovedPaths(directory, plan[..m + 1], replies, 0)
            && run.outcome == Err(DeleteFailure(plan[m], ReplyAt(replies, m)))
  {
    var plan := ToDelete(entries, fileName);
    var m := FirstRefused(replies, 0, |plan|);
    var sent := plan[..m + 1];
    var end := Sweep(entries, 0, fileName, directory, replies, 0, files, []);
    assert && end.Aborted? && end.error == DeleteFailure(plan[m], ReplyAt(replies, m))
           && end.commands == [] + Deletes(directory, sent)
           && end.files == ApplyDeletes(files, directory, sent, replies, 0) by {
      ReconcileSweep(files, fileName, directory, entries, replies);
    }
    assert ApplyDeletes(files, directory, sent, replies, 0) == files - RemovedPaths(directory, sent, replies, 0) by {
      ApplyDeletesRemoves(files, directory, sent, replies, 0);
    }
    assert [] + Deletes(directory, sent) == Deletes(directory, sent);
  }

  /**
   * A replace call after its listing with no planned delete refused: it
   * sends every planned delete, then the upload, whose reply decides the
   * outcome; the deletes answered 250 are done and the upload answered 226
   * stores the file.
   */
  lemma {:induction false} ReconcileFinished(files: Files, fileName: string, directory: string, contents: seq<byte>,
                                             entries: seq<string>, replies: seq<Reply>)
    requires FirstRefused(replies, 0, |ToDelete(entries, fileName)|) == |ToDelete(entries, fileName)|
    ensures var plan := ToDelete(entries, fileName);
            var run := ReconcileRun(files, fileName, directory, contents, entries, replies);
            var target := Resolve(directory, fileName);
            var reply := ReplyAt(replies, |plan|);
            && run.commands == Deletes(directory, plan) + [Stor(target, contents)]
            && run.files == AfterUpload(files - RemovedPaths(directory, plan, replies, 0), target, contents, reply)
            && run.outcome == UploadOutcome(reply, Replaced)
  {
    var plan := ToDelete(entries, fileName);
    ReconcileSweep(files, fileName, directory, entries, replies);
    ApplyDeletesRemoves(files, directory, plan, replies, 0);
    assert [] + Deletes(directory, plan) == Deletes(directory, plan);
  }

  /** A replace call after its listing either stops at a refused delete or finishes with the upload. */
  lemma {:induction false} ReconcileShape(files: Files, fileName: string, directory: string, contents: seq<byte>,
                                          entries: seq<string>, replies: seq<Reply>)
    ensures var plan := ToDelete(entries, fileName);
            var m := FirstRefused(replies, 0, |plan|);
            var run := ReconcileRun(files, fileName, directory, contents, entries, replies);
            && (m < |plan| ==>
                  && run.commands == Deletes(directory, plan[..m + 1])
                  && run.files == files - RemovedPaths(directory, plan[..m + 1], replies, 0)
                  && run.outcome == Err(DeleteFailure(plan[m], ReplyAt(replies, m))))
            && (m == |plan| ==>
                  var target := Resolve(directory, fileName);
                  var reply := ReplyAt(replies, |plan|);
                  && run.commands == Deletes(directory, plan) + [Stor(target, contents)]
                  && run.files == AfterUpload(files - RemovedPaths(directory, plan, replies, 0), target, contents, reply)
                  && run.outcome == UploadOutcome(reply, Replaced))
  {
    var plan := ToDelete(entries, fileName);
    if FirstRefused(replies, 0, |plan|) < |plan| {
      ReconcileAborted(files, fileName, directory, contents, entries, replies);
    } else {
      ReconcileFinished(files, fileName, directory, contents, entries, replies);
    }
  }

  /** Deletes answered 550 remove nothing. */
  lemma {:induction false} UnavailableRemovesNothing(directory: string, names: seq<string>, replies: seq<Reply>)
    requires forall j :: 0 <= j < |names| ==> HasCode(ReplyAt(replies, j), FileUnavailable)
    ensures RemovedPaths(directory, names, replies, 0) == {}
  {
    assert forall j :: 0 <= j < |names| ==> !DirectDeleteAccepted(ReplyAt(replies, j));
    assert RemovedPaths(directory, names, replies, 0) == {};
  }

  /** In the replace loop, a delete answered 550 leaves the files as they were and the loop goes on. */
  lemma {:induction false} SweepContinuesOnUnavailable(entries: seq<string>, i: nat, fileName: string,
                                                       directory: string, replies: seq<Reply>, used: nat,
                                                       files: Files, commands: seq<Command>)
    requires i < |entries| && !EqualsIgnoreCase(entries[i], fileName)
    requires HasCode(ReplyAt(replies, used), FileUnavailable)
    ensures Sweep(entries, i, fileName, directory, replies, used, files, commands)
         == Sweep(entries, i + 1, fileName, directory, replies, used + 1, files,
                  commands + [Dele(Resolve(directory, entries[i]))])
  {
    assert AfterDelete(files, Resolve(directory, entries[i]), ReplyAt(replies, used)) == files;
  }

  /** An empty argument, then a missing local file, fail before any remote command. */
  lemma {:induction false} ReplaceChecksArgumentsFirst(files: Files, localPath: string, remotePath: string,
                                                       localExists: bool, contents: seq<byte>,
                                                       listing: ListResponse, replies: seq<Reply>)
    requires localPath == [] || remotePath == [] || !localExists
    ensures var run := ReplaceRun(files, localPath, remotePath, localExists, contents, listing, replies);
            && run.commands == [] && run.files == files
            && run.outcome == (if localPath == [] || remotePath == [] then Err(ArgumentError(PathsRequired))
                               else Err(FileNotFound(LocalFileMissing)))
  {
  }

  /** A failed listing is reported wrapped, with its cause, and no delete or upload follows. */
  lemma {:induction false} ListingFailureStopsReplace(files: Files, localPath: string, remotePath: string,
                                                      contents: seq<byte>, listing: ListResponse, replies: seq<Reply>)
    requires localPath != [] && remotePath != [] && listing.failure.Some?
    ensures var run := ReplaceRun(files, localPath, remotePath, true, contents, listing, replies);
            && run.commands == [Nlst(DirectoryPath(remotePath))]
            && run.files == files
            && run.outcome == Err(ListingFailed("Error listing files in directory", listing.failure.value))
  {
  }

  /**
   * When no delete is refused, a replace lists the directory, deletes every
   * entry whose name is not the file's name ignoring case, in listing order,
   * and uploads the file last.
   */
  lemma {:induction false} ReplaceDeletesForeignEntries(files: Files, localPath: string, remotePath: string,
                                                        contents: seq<byte>, listing: ListResponse, replies: seq<Reply>)
    requires localPath != [] && remotePath != [] && listing.failure.None?
    requires var plan := ToDelete(listing.lines, Basename(localPath));
             forall j :: 0 <= j < |plan| ==> SweepDeleteAccepted(ReplyAt(replies, j))
    ensures var fileName := Basename(localPath);
            var directory := DirectoryPath(remotePath);
            var run := ReplaceRun(files, localPath, remotePath, true, contents, listing, replies);
            run.commands == [Nlst(directory)] + Deletes(directory, ToDelete(listing.lines, fileName))
                            + [Stor(Resolve(directory, fileName), contents)]
  {
    var fileName := Basename(localPath);
    var plan := ToDelete(listing.lines, fileName);
    var m := FirstRefused(replies, 0, |plan|);
    assert m == |plan|;
    ReconcileFinished(files, fileName, DirectoryPath(remotePath), contents, listing.lines, replies);
    ReplaceRunAfterListing(files, localPath, remotePath, contents, listing, replies);
  }

  /**
   * An entry equal to the file's name ignoring case is never deleted, and
   * the stored file it names is still there afterwards unless the final
   * upload overwrote it.
   */
  lemma {:induction false} CaseVariantsAreKept(files: Files, localPath: string, remotePath: string,
                                               contents: seq<byte>, listing: ListResponse, replies: seq<Reply>,
                                               entry: string)
    requires localPath != [] && remotePath != [] && listing.failure.None?
    requires forall n :: n in listing.lines ==> RelativeName(n)
    requires RelativeName(entry) && EqualsIgnoreCase(entry, Basename(localPath))
    ensures var directory := DirectoryPath(remotePath);
            var path := Resolve(directory, entry);
            var run := ReplaceRun(files, localPath, remotePath, true, contents, listing, replies);
            && Dele(path) !in run.commands
            && (path in files && path != Resolve(directory, Basename(localPath)) ==> path in run.files && run.files[path] == files[path])
  {
    var fileName := Basename(localPath);
    var directory := DirectoryPath(remotePath);
    ReplaceRunAfterListing(files, localPath, remotePath, contents, listing, replies);
    ReconcileKeepsCaseVariants(files, fileName, directory, contents, listing.lines, replies, entry);
  }

  /** After the listing: no delete targets a case variant of the file's name, and its file stays unless overwritten. */
  lemma {:induction false} ReconcileKeepsCaseVariants(files: Files, fileName: string, directory: string,
                                                      contents: seq<byte>, entries: seq<string>,
                                                      replies: seq<Reply>, entry: string)
    requires forall n :: n in entries ==> RelativeName(n)
    requires RelativeName(entry) && EqualsIgnoreCase(entry, fileName)
    ensures var path := Resolve(directory, entry);
            var rest := ReconcileRun(files, fileName, directory, contents, entries, replies);
            && Dele(path) !in rest.commands
            && (path in files && path != Resolve(directory, fileName) ==> path in rest.files && rest.files[path] == files[path])
  {
    var plan := ToDelete(entries, fileName);
    var m := FirstRefused(replies, 0, |plan|);
    if m < |plan| {
      ReconcileAborted(files, fileName, directory, contents, entries, replies);
      KeptEntryIsNeverTargeted(directory, entries, fileName, plan[..m + 1], replies, entry);
    } else {
      KeptWhenFinished(files, fileName, directory, contents, entries, replies, entry);
    }
  }

  /** The finished case of the lemma above: neither the deletes nor the upload touch the case variant. */
  lemma {:induction false} KeptWhenFinished(files: Files, fileName: string, directory: string,
                                            contents: seq<byte>, entries: seq<string>,
                                            replies: seq<Reply>, entry: string)
    requires FirstRefused(replies, 0, |ToDelete(entries, fileName)|) == |ToDelete(entries, fileName)|
    requires forall n :: n in entries ==> RelativeName(n)
    requires RelativeName(entry) && EqualsIgnoreCase(entry, fileName)
    ensures var path := Resolve(directory, entry);
            var rest := ReconcileRun(files, fileName, directory, contents, entries, replies);
            && Dele(path) !in rest.commands
            && (path in files && path != Resolve(directory, fileName) ==> path in rest.files && rest.files[path] == files[path])
  {
    var plan := ToDelete(entries, fileName);
    var path := Resolve(directory, entry);
    var target := Resolve(directory, fileName);
    var kept := files - RemovedPaths(directory, plan, replies, 0);
    ReconcileFinished(files, fileName, directory, contents, entries, replies);
    KeptEntryIsNeverTargeted(directory, entries, fileName, plan, replies, entry);
    assert Dele(path) !in [Stor(target, contents)];
    if path in files && path != target {
      assert path in kept && kept[path] == files[path];
      var after := AfterUpload(kept, target, contents, ReplyAt(replies, |plan|));
      assert path in after && after[path] == kept[path];
    }
  }

  /** No delete of a sweep over a prefix of the plan targets an entry equal to the file's name ignoring case. */
  lemma {:induction false} KeptEntryIsNeverTargeted(directory: string, lines: seq<string>, fileName: string,
                                                    sent: seq<string>, replies: seq<Reply>, entry: string)
    requires sent <= ToDelete(lines, fileName)
    requires forall n :: n in lines ==> RelativeName(n)
    requires RelativeName(entry) && EqualsIgnoreCase(entry, fileName)
    ensures Dele(Resolve(directory, entry)) !in Deletes(directory, sent)
    ensures Resolve(directory, entry) !in RemovedPaths(directory, sent, replies, 0)
  {
    var plan := ToDelete(lines, fileName);
    var path := Resolve(directory, entry);
    forall j | 0 <= j < |sent| ensures Resolve(directory, sent[j]) != path {
      assert sent[j] == plan[j];
      ToDeleteMembers(lines, fileName, sent[j]);
      ResolveIsInjective(directory, sent[j], entry);
    }
    if Dele(path) in Deletes(directory, sent) {
      DeletesTargetNames(directory, sent, Dele(path));
      assert false;
    }
  }

  /**
   * A replace refused at a delete sends no upload, reports that delete's
   * failure naming its entry, and leaves the earlier deletions done: the
   * server keeps every file except the paths answered 250.
   */
  lemma {:induction false} RefusedDeleteStopsReplace(files: Files, localPath: string, remotePath: string,
                                                     contents: seq<byte>, listing: ListResponse, replies: seq<Reply>)
    requires localPath != [] && remotePath != [] && listing.failure.None?
    requires FirstRefused(replies, 0, |ToDelete(listing.lines, Basename(localPath))|)
             < |ToDelete(listing.lines, Basename(localPath))|
    ensures var fileName := Basename(localPath);
            var directory := DirectoryPath(remotePath);
            var plan := ToDelete(listing.lines, fileName);
            var m := FirstRefused(replies, 0, |plan|);
            var run := ReplaceRun(files, localPath, remotePath, true, contents, listing, replies);
            && (forall c :: c in run.commands ==> !c.Stor?)
            && run.commands == [Nlst(directory)] + Deletes(directory, plan[..m + 1])
            && run.outcome == Err(DeleteFailure(plan[m], ReplyAt(replies, m)))
            && run.files == files - RemovedPaths(directory, plan[..m + 1], replies, 0)
  {
    var fileName := Basename(localPath);
    var directory := DirectoryPath(remotePath);
    var plan := ToDelete(listing.lines, fileName);
    var m := FirstRefused(replies, 0, |plan|);
    var run := ReplaceRun(files, localPath, remotePath, true, contents, listing, replies);
    var rest := ReconcileRun(files, fileName, directory, contents, listing.lines, replies);
    assert run == Run(rest.outcome, [Nlst(directory)] + rest.commands, rest.files) by {
      ReplaceRunAfterListing(files, localPath, remotePath, contents, listing, replies);
    }
    assert && rest.commands == Deletes(directory, plan[..m + 1])
           && rest.files == files - RemovedPaths(directory, plan[..m + 1], replies, 0)
           && rest.outcome == Err(DeleteFailure(plan[m], ReplyAt(replies, m))) by {
      ReconcileAborted(files, fileName, directory, contents, listing.lines, replies);
    }
    ListingAndDeletesStoreNothing(run.commands, directory, plan[..m + 1]);
  }

  /** A name list followed by deletes holds no store. */
  lemma {:induction false} ListingAndDeletesStoreNothing(commands: seq<Command>, directory: string, names: seq<string>)
    requires commands == [Nlst(directory)] + Deletes(directory, names)
    ensures forall c :: c in commands ==> !c.Stor?
  {
    DeletesAreDeles(directory, names);
  }

  /**
   * Inside a replace, "file unavailable" (550) does not stop the loop: if
   * every delete is answered 550 and the upload 226, the call succeeds and
   * only the uploaded file changes. A direct delete answered 550 fails.
   */
  lemma {:induction false} UnavailableIsSuccessOnlyInsideReplace(files: Files, localPath: string, remotePath: string,
                                                                 contents: seq<byte>, listing: ListResponse,
                                                                 replies: seq<Reply>, description: string)
    requires localPath != [] && remotePath != [] && listing.failure.None?
    requires var plan := ToDelete(listing.lines, Basename(localPath));
             && (forall j :: 0 <= j < |plan| ==> HasCode(ReplyAt(replies, j), FileUnavailable))
             && HasCode(ReplyAt(replies, |plan|), ClosingData)
    ensures var run := ReplaceRun(files, localPath, remotePath, true, contents, listing, replies);
            && run.outcome == Ok(Replaced)
            && run.files == files[Resolve(DirectoryPath(remotePath), Basename(localPath)) := contents]
    ensures DeleteOutcome(Status(FileUnavailable, description)).Err?
  {
    var fileName := Basename(localPath);
    var directory := DirectoryPath(remotePath);
    var plan := ToDelete(listing.lines, fileName);
    var target := Resolve(directory, fileName);
    var reply := ReplyAt(replies, |plan|);
    var run := ReplaceRun(files, localPath, remotePath, true, contents, listing, replies);
    var rest := ReconcileRun(files, fileName, directory, contents, listing.lines, replies);
    assert FirstRefused(replies, 0, |plan|) == |plan|;
    assert run == Run(rest.outcome, [Nlst(directory)] + rest.commands, rest.files) by {
      ReplaceRunAfterListing(files, localPath, remotePath, contents, listing, replies);
    }
    assert && rest.files == AfterUpload(files - RemovedPaths(directory, plan, replies, 0), target, contents, reply)
           && rest.outcome == UploadOutcome(reply, Replaced) by {
      ReconcileFinished(files, fileName, directory, contents, listing.lines, replies);
    }
    assert RemovedPaths(directory, plan, replies, 0) == {} by {
      UnavailableRemovesNothing(directory, plan, replies);
    }
    assert files - {} == files;
  }

  /** A replace that reports success has stored the local bytes at its upload path, sent last. */
  lemma {:induction false} SuccessfulReplaceStoresFile(files: Files, localPath: string, remotePath: string,
                                                       localExists: bool, contents: seq<byte>,
                                                       listing: ListResponse, replies: seq<Reply>)
    requires ReplaceRun(files, localPath, remotePath, localExists, contents, listing, replies).outcome.Ok?
    ensures var target := Resolve(DirectoryPath(remotePath), Basename(localPath));
            var run := ReplaceRun(files, localPath, remotePath, localExists, contents, listing, replies);
            && target in run.files && run.files[target] == contents
            && run.commands != [] && run.commands[|run.commands| - 1] == Stor(target, contents)
  {
    var fileName := Basename(localPath);
    var directory := DirectoryPath(remotePath);
    ReconcileShape(files, fileName, directory, contents, listing.lines, replies);
  }

  /**
   * Replacing local file `name` in a one-segment remote directory `dir`
   * whose listing is `name`, a case variant of it and one other entry: only
   * the other entry is deleted, and the delete and the upload resolve beside
   * `/dir`, at the server root (for instance "A.txt", "a.txt", "B.txt" in
   * "docs" gives NLST /docs, DELE /B.txt, STOR /A.txt).
   */
  lemma {:induction false} ReplaceExample(dir: string, name: string, variant: string, other: string,
                                          files: Files, contents: seq<byte>, replies: seq<Reply>)
    requires dir != [] && '/' !in dir && name != [] && '/' !in name
    requires EqualsIgnoreCase(variant, name) && !EqualsIgnoreCase(other, name) && RelativeName(other)
    requires SweepDeleteAccepted(ReplyAt(replies, 0))
    ensures var listing := ListResponse([name, variant, other], None);
            var run := ReplaceRun(files, name, dir, true, contents, listing, replies);
            run.commands == [Nlst("/" + dir), Dele("/" + other), Stor("/" + name, contents)]
  {
    var listing := ListResponse([name, variant, other], None);
    BasenameOfPlainName(name);
    assert name[0] != '/';
    ExamplePlan(name, variant, other);
    ExamplePaths(dir, name, other);
    ReplaceDeletesForeignEntries(files, name, dir, contents, listing, replies);
    ExampleCommands(ReplaceRun(files, name, dir, true, contents, listing, replies).commands,
                    DirectoryPath(dir), Deletes(DirectoryPath(dir), ToDelete(listing.lines, Basename(name))),
                    Resolve(DirectoryPath(dir), Basename(name)), dir, name, other, contents);
  }

  /** The commands of the example, once its paths are known. */
  lemma {:induction false} ExampleCommands(commands: seq<Command>, listed: string, deletes: seq<Command>, target: string,
                                           dir: string, name: string, other: string, contents: seq<byte>)
    requires commands == [Nlst(listed)] + deletes + [Stor(target, contents)]
    requires listed == "/" + dir && deletes == [Dele("/" + other)] && target == "/" + name
    ensures commands == [Nlst("/" + dir), Dele("/" + other), Stor("/" + name, contents)]
  {
    assert [Nlst("/" + dir)] + [Dele("/" + other)] + [Stor("/" + name, contents)]
        == [Nlst("/" + dir), Dele("/" + other), Stor("/" + name, contents)];
  }

  /** Of the listing `name`, a case variant of it and one other entry, a replace of `name` deletes only the other. */
  lemma {:induction false} ExamplePlan(name: string, variant: string, other: string)
    requires EqualsIgnoreCase(variant, name) && !EqualsIgnoreCase(other, name)
    ensures ToDelete([name, variant, other], name) == [other]
  {
    var lines := [name, variant, other];
    EqualsIgnoreCaseIsEquivalence(name, name, name);
    assert lines[1..] == [variant, other] && lines[1..][1..] == [other] && [other][1..] == [];
    assert ToDelete([other], name) == [other] + [];
    assert ToDelete(lines[1..], name) == [] + [other];
    assert ToDelete(lines, name) == [] + [other];
  }

  /** In a one-segment directory `dir`, the listing is of `/dir` and names resolve at the server root. */
  lemma {:induction false} ExamplePaths(dir: string, name: string, other: string)
    requires dir != [] && '/' !in dir && RelativeName(name) && RelativeName(other)
    ensures DirectoryPath(dir) == "/" + dir
    ensures Deletes(DirectoryPath(dir), [other]) == [Dele("/" + other)]
    ensures Resolve(DirectoryPath(dir), name) == "/" + name
  {
    assert TrimEnd(dir, '/') == dir;
    ResolveInTopLevelDirectory(dir, other);
    ResolveInTopLevelDirectory(dir, name);
    assert [other][1..] == [];
    assert Deletes(DirectoryPath(dir), [other]) == [Dele("/" + other)] + [];
  }
}
