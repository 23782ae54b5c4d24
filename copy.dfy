/**
 * The per-directory step of the `copy` helper (index.js:112-183): create
 * the target directory (counting it only when it was really created), list
 * the source directory, hand every subdirectory to a new recursive branch
 * and copy every file whose target is missing or older than the source,
 * counting the copies.
 */
module Copy {
  import opened Wrappers
  import opened FsErrors

  /**
   * The incremental-update rule (index.js:159): a file is copied when its
   * target is missing (`None`) or was modified strictly before the source.
   * Modification times are integers.
   */
  function ShouldCopy(sourceMtime: int, targetMtime: Option<int>): (copy: bool)
    ensures targetMtime == None ==> copy
    ensures targetMtime.Some? && targetMtime.value >= sourceMtime ==> !copy
    ensures targetMtime.Some? && sourceMtime > targetMtime.value ==> copy
  {
    targetMtime == None || sourceMtime > targetMtime.value
  }

  /** One item of a source directory listing, with what `statSync` reports about it. */
  datatype Entry =
    | Subdirectory(name: string)
    | File(name: string, sourceMtime: int, targetMtime: Option<int>)

  /** The entry is a file the step copies. */
  predicate IsCopied(e: Entry)
  {
    e.File? && ShouldCopy(e.sourceMtime, e.targetMtime)
  }

  /** The names of the files the step copies, in listing order. */
  function Copied(entries: seq<Entry>): (names: seq<string>)
    ensures |names| <= |entries|
    ensures forall n :: n in names <==> exists i :: 0 <= i < |entries| && IsCopied(entries[i]) && entries[i].name == n
  {
    if |entries| == 0 then []
    else
      var init, last := entries[..|entries| - 1], entries[|entries| - 1];
      assert forall i :: 0 <= i < |init| ==> init[i] == entries[i];
      Copied(init) + (if IsCopied(last) then [last.name] else [])
  }

  /** The names of the subdirectories the step descends into, in listing order. */
  function Descended(entries: seq<Entry>): (names: seq<string>)
    ensures |names| <= |entries|
    ensures forall n :: n in names <==> exists i :: 0 <= i < |entries| && entries[i] == Subdirectory(n)
  {
    if |entries| == 0 then []
    else
      var init, last := entries[..|entries| - 1], entries[|entries| - 1];
      assert forall i :: 0 <= i < |init| ==> init[i] == entries[i];
      Descended(init) + (if last.Subdirectory? then [last.name] else [])
  }

  /**
   * The same listing once the step has run, when every file it copied
   * was written at time `now`: the target of each copied file now exists
   * with modification time `now`.
   */
  function AfterCopy(entries: seq<Entry>, now: int): (after: seq<Entry>)
    ensures |after| == |entries|
    ensures forall i :: 0 <= i < |entries| ==>
      after[i].name == entries[i].name && after[i].File? == entries[i].File?
    ensures forall i :: 0 <= i < |entries| && entries[i].File? ==>
      after[i].sourceMtime == entries[i].sourceMtime && after[i].targetMtime.Some?
    ensures forall i :: 0 <= i < |entries| && !IsCopied(entries[i]) ==> after[i] == entries[i]
    ensures forall i :: 0 <= i < |entries| && IsCopied(entries[i]) ==> after[i].targetMtime == Some(now)
  {
    seq(|entries|, i requires 0 <= i < |entries| =>
      if IsCopied(entries[i]) then entries[i].(targetMtime := Some(now)) else entries[i])
  }

  /** No source file of the listing was modified after `now`. */
  predicate SourcesNotModifiedAfter(entries: seq<Entry>, now: int)
  {
    forall i :: 0 <= i < |entries| && entries[i].File? ==> entries[i].sourceMtime <= now
  }

  /** No existing target file of the listing was modified after `now`. */
  predicate TargetsNotModifiedAfter(entries: seq<Entry>, now: int)
  {
    forall i :: 0 <= i < |entries| && entries[i].File? && entries[i].targetMtime.Some? ==>
      entries[i].targetMtime.value <= now
  }

  /** The copy step run again over an unchanged source copies nothing. */
  lemma {:induction false} CopyAgainCopiesNothing(entries: seq<Entry>, now: int)
    requires SourcesNotModifiedAfter(entries, now)
    ensures Copied(AfterCopy(entries, now)) == []
    ensures Descended(AfterCopy(entries, now)) == Descended(entries)
  {
    if |entries| > 0 {
      var init := entries[..|entries| - 1];
      var after := AfterCopy(entries, now);
      assert after[..|after| - 1] == AfterCopy(init, now);
      CopyAgainCopiesNothing(init, now);
    }
  }

  /**
   * After a run, touching one source file (giving it a modification time
   * later than the run) makes the next run copy that file and no other.
   */
  lemma TouchedFileIsCopiedAlone(entries: seq<Entry>, now: int, k: nat, touched: int)
    requires SourcesNotModifiedAfter(entries, now) && TargetsNotModifiedAfter(entries, now)
    requires k < |entries| && entries[k].File? && touched > now
    ensures Copied(AfterCopy(entries, now)[k := AfterCopy(entries, now)[k].(sourceMtime := touched)])
      == [entries[k].name]
  {
    var after := AfterCopy(entries, now);
    var next := after[k := after[k].(sourceMtime := touched)];
    OnlyOneCopied(next, k);
  }

  /** A listing in which only entry `k` is a copied file copies exactly that file. */
  lemma {:induction false} OnlyOneCopied(entries: seq<Entry>, k: nat)
    requires k < |entries| && IsCopied(entries[k])
    requires forall i :: 0 <= i < |entries| && i != k ==> !IsCopied(entries[i])
    ensures Copied(entries) == [entries[k].name]
  {
    var init := entries[..|entries| - 1];
    if k == |entries| - 1 {
      NoneCopied(init);
    } else {
      OnlyOneCopied(init, k);
    }
  }

  /** A listing without copied files copies nothing. */
  lemma {:induction false} NoneCopied(entries: seq<Entry>)
    requires forall i :: 0 <= i < |entries| ==> !IsCopied(entries[i])
    ensures Copied(entries) == []
  {
    if |entries| > 0 {
      NoneCopied(entries[..|entries| - 1]);
    }
  }

  /** How one directory step ended: with an error for `finish`, or by launching branches. */
  datatype Step =
    | Failed(error: Error)
    | Descend(branches: seq<string>)

  /** The counters one `copy` call shares between all its branches (index.js:113-115). */
  class CopyStats {
    /** Directories created by `mkdir` (not counting those that already existed). */
    var directories: nat
    /** Files written. */
    var files: nat

    constructor ()
      ensures directories == 0 && files == 0
    {
      directories, files := 0, 0;
    }

    /**
     * After `mkdir(target)` reported `error` (index.js:136-142): go on
     * unless it failed for a reason other than "already exists"; count the
     * directory only when it was really created.
     */
    method TargetCreated(error: Option<Error>) returns (proceed: bool)
      modifies this
      ensures proceed <==> Swallow(error, EEXIST) == None
      ensures directories == old(directories) + (if error == None then 1 else 0)
      ensures files == old(files)
    {
      proceed := !(error.Some? && error.value.code != EEXIST);
      if error == None {
        directories := directories + 1;
      }
    }

    /** One file of the listing (index.js:159-162): copy it when due and count the copy. */
    method ProcessFile(sourceMtime: int, targetMtime: Option<int>) returns (copied: bool)
      modifies this
      ensures copied <==> ShouldCopy(sourceMtime, targetMtime)
      ensures files == old(files) + (if copied then 1 else 0)
      ensures directories == old(directories)
    {
      copied := targetMtime.None? || sourceMtime > targetMtime.value;
      if copied {
        files := files + 1;
      }
    }

    /**
     * The walk over a directory listing (index.js:150-163), in listing
     * order: subdirectories become new branches, files are copied when due.
     */
    method ProcessEntries(entries: seq<Entry>) returns (branches: seq<string>, copied: seq<string>)
      modifies this
      ensures branches == Descended(entries) && copied == Copied(entries)
      ensures files == old(files) + |copied|
      ensures directories == old(directories)
    {
      branches, copied := [], [];
      for i := 0 to |entries|
        invariant branches == Descended(entries[..i]) && copied == Copied(entries[..i])
        invariant files == old(files) + |copied|
        invariant directories == old(directories)
      {
        assert entries[..i + 1][..i] == entries[..i];
        match entries[i]
        case Subdirectory(name) =>
          branches := branches + [name];
        case File(name, sourceMtime, targetMtime) =>
          var due := ProcessFile(sourceMtime, targetMtime);
          if due {
            copied := copied + [name];
          }
      }
      assert entries[..|entries|] == entries;
    }

    /**
     * One call of the recursive `process` (index.js:133-174), given what
     * `mkdir(target)` and `readdir(source)` report: fail with the creation
     * error unless it is "already exists", then fail with the listing
     * error, and otherwise walk the listing.
     */
    method ProcessDirectory(mkdirError: Option<Error>, listing: Result<seq<Entry>, Error>) returns (step: Step)
      modifies this
      ensures Swallow(mkdirError, EEXIST) != None ==>
        step == Failed(mkdirError.value) && directories == old(directories) && files == old(files)
      ensures Swallow(mkdirError, EEXIST) == None ==>
        directories == old(directories) + (if mkdirError == None then 1 else 0)
      ensures Swallow(mkdirError, EEXIST) == None && listing.Err? ==>
        step == Failed(listing.error) && files == old(files)
      ensures Swallow(mkdirError, EEXIST) == None && listing.Ok? ==>
        step == Descend(Descended(listing.value)) && files == old(files) + |Copied(listing.value)|
    {
      var proceed := TargetCreated(mkdirError);
      if !proceed {
        return Failed(mkdirError.value);
      }
      match listing
      case Err(e) =>
        step := Failed(e);
      case Ok(entries) =>
        var branches, copied := ProcessEntries(entries);
        step := Descend(branches);
    }
  }
}
