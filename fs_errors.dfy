/**
 * Errors reported by Node's file-system calls, the per-task mapping that
 * swallows one specific error code, and the "first error wins" rule by which
 * a batch of tasks reports a single error to its completion callback.
 */
module FsErrors {
  import opened Wrappers

  /** A Node file-system error; only its `code` is inspected by the helpers. */
  datatype Error = Error(code: string)

  /** "No such file or directory". */
  const ENOENT: string := "ENOENT"
  /** "File already exists". */
  const EEXIST: string := "EEXIST"

  /**
   * The error a task hands to its `ready` callback after a file-system call
   * that reported `error`, when the code `ignored` counts as success:
   * `unlink` ignores ENOENT and `mkdir` ignores EEXIST.
   */
  function Swallow(error: Option<Error>, ignored: string): (ready: Option<Error>)
    ensures ready == None <==> (error == None || error.value.code == ignored)
    ensures ready != None ==> ready == error && ready.value.code != ignored
  {
    if error.Some? && error.value.code == ignored then None else error
  }

  /**
   * Position of the first task (in the order the results arrive) that
   * reported an error, or `|results|` when none did.
   */
  function FirstFailure(results: seq<Option<Error>>): (k: nat)
    ensures k <= |results|
    ensures forall i :: 0 <= i < k ==> results[i] == None
    ensures k < |results| ==> results[k] != None
  {
    if |results| == 0 then 0
    else if results[0] != None then 0
    else 1 + FirstFailure(results[1..])
  }

  /** What a joined completion callback receives: the first error, or `null`. */
  function FirstError(results: seq<Option<Error>>): (error: Option<Error>)
    ensures error == None <==> forall i :: 0 <= i < |results| ==> results[i] == None
    ensures error != None ==> exists k :: 0 <= k < |results| && error == results[k] &&
                                        (forall i :: 0 <= i < k ==> results[i] == None)
  {
    var k := FirstFailure(results);
    if k < |results| then results[k] else None
  }
}
