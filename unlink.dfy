/**
 * The `unlink` helper (index.js:14-32): one deletion task per file, all run
 * in parallel, a missing file counting as deleted, and a joined callback
 * that receives the first error any task reports.
 */
module Unlink {
  import opened Wrappers
  import opened FsErrors
  import opened FirstSeen

  /**
   * `order` lists the task indices in the order their callbacks fire:
   * every task completes exactly once.
   */
  predicate IsCompletionOrder(order: seq<nat>, tasks: nat)
  {
    && |order| == tasks
    && (forall j :: 0 <= j < tasks ==> order[j] < tasks)
    && (forall i :: 0 <= i < tasks ==> i in order)
  }

  /**
   * What the joined callback receives when `fsUnlink(f)` is what the file
   * system reports for deleting `f` and the tasks finish in `order`.
   * Each task maps ENOENT to success (index.js:19-28); the others' errors
   * are passed on, and the first one to arrive is reported.
   */
  function UnlinkFiles(files: seq<string>, fsUnlink: string -> Option<Error>, order: seq<nat>): (error: Option<Error>)
    requires IsCompletionOrder(order, |files|)
    ensures error == None <==>
      forall i :: 0 <= i < |files| ==> fsUnlink(files[i]) == None || fsUnlink(files[i]).value.code == ENOENT
    ensures error != None ==>
      error.value.code != ENOENT && exists i :: 0 <= i < |files| && error == fsUnlink(files[i])
    ensures error != None ==> exists j :: 0 <= j < |files| && error == fsUnlink(files[order[j]]) &&
                                        (forall i :: 0 <= i < j ==> Swallow(fsUnlink(files[order[i]]), ENOENT) == None)
  {
    var arrived := seq(|files|, j requires 0 <= j < |files| => Swallow(fsUnlink(files[order[j]]), ENOENT));
    assert forall i :: 0 <= i < |files| ==> arrived[FirstIndex(order, i)] == Swallow(fsUnlink(files[i]), ENOENT);
    FirstError(arrived)
  }
}
