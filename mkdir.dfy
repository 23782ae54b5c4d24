/**
 * The `mkdir` helper (index.js:75-109): it turns a list of target
 * directories into one list of paths, every ancestor of every target once,
 * parents before children, and then asks the file system to create those
 * paths one after another, treating "already exists" as success and
 * stopping at the first other error.
 */
module Mkdir {
  import opened Wrappers
  import opened FsErrors
  import opened PathSegments
  import opened FirstSeen

  /** The targets after `path.normalize`, which is a parameter of the model. */
  function Normalized(targets: seq<string>, normalize: string -> string): seq<string>
  {
    seq(|targets|, i requires 0 <= i < |targets| => normalize(targets[i]))
  }

  /** Every cumulative prefix of every target, target by target, shortest first. */
  function AllAncestors(ts: seq<string>): seq<string>
  {
    if |ts| == 0 then []
    else AllAncestors(ts[..|ts| - 1]) + Ancestors(ts[|ts| - 1])
  }

  /** The `paths` list that `mkdir` builds from the (normalised) targets `ts`. */
  function PathList(ts: seq<string>): seq<string>
  {
    Dedup(AllAncestors(ts))
  }

  /**
   * Builds the list of directories to create (index.js:76-90): for each
   * target in order, for each segment index in order, the cumulative
   * prefix is pushed unless the list already holds it.
   */
  method BuildPaths(targets: seq<string>, normalize: string -> string) returns (paths: seq<string>)
    ensures paths == PathList(Normalized(targets, normalize))
    ensures NoDuplicates(paths)
    ensures forall p :: p in paths <==>
      exists i :: 0 <= i < |targets| && IsAncestorPath(p, normalize(targets[i]))
    ensures forall i, q :: 0 <= i < |paths| && IsAncestorPath(q, paths[i]) && q != paths[i] ==>
      q in paths[..i]
  {
    ghost var ts := Normalized(targets, normalize);
    assert |ts| == |targets| && forall i :: 0 <= i < |targets| ==> ts[i] == normalize(targets[i]);
    paths := [];
    for t := 0 to |targets|
      invariant paths == PathList(ts[..t])
    {
      paths := PushAncestors(paths, normalize(targets[t]), AllAncestors(ts[..t]));
      CollectNext(ts, t);
    }
    assert ts[..|targets|] == ts;
    PathListProperties(ts);
  }

  /**
   * The work done for one target (index.js:80-89): split it, and push each
   * cumulative prefix, shortest first, unless the list already holds it.
   * `done` stands for the prefixes fed to the list so far.
   */
  method PushAncestors(paths: seq<string>, target: string, ghost done: seq<string>)
    returns (extended: seq<string>)
    requires paths == Dedup(done)
    ensures extended == Dedup(done + Ancestors(target))
  {
    var segs := Split(target);
    ghost var chain := Ancestors(target);
    assert |chain| == |segs| && done + chain[..0] == done;
    extended := paths;
    for k := 0 to |segs|
      invariant extended == Dedup(done + chain[..k])
    {
      var dir := Join(segs[..k + 1]);
      FeedPrefix(done, chain, k + 1);
      if dir !in extended {
        extended := extended + [dir];
      }
    }
    assert chain[..|chain|] == chain;
  }

  /** Feeding the `k`-th prefix of a target, after `done` and the earlier ones, to the duplicate guard. */
  lemma FeedPrefix(done: seq<string>, chain: seq<string>, k: nat)
    requires 0 < k <= |chain|
    ensures Dedup(done + chain[..k]) == AddNew(Dedup(done + chain[..k - 1]), chain[k - 1])
  {
    var fed := done + chain[..k];
    assert fed[..|fed| - 1] == done + chain[..k - 1];
    assert fed[|fed| - 1] == chain[k - 1];
  }

  /** Collecting one more target appends its ancestor chain. */
  lemma CollectNext(ts: seq<string>, t: nat)
    requires t < |ts|
    ensures AllAncestors(ts[..t + 1]) == AllAncestors(ts[..t]) + Ancestors(ts[t])
  {
    assert ts[..t + 1][..t] == ts[..t];
  }

  /** The two properties of the path list, for every entry at once. */
  lemma PathListProperties(ts: seq<string>)
    ensures forall p :: p in PathList(ts) <==> exists i :: 0 <= i < |ts| && IsAncestorPath(p, ts[i])
    ensures forall i, q :: 0 <= i < |PathList(ts)| && IsAncestorPath(q, PathList(ts)[i]) && q != PathList(ts)[i] ==>
      q in PathList(ts)[..i]
  {
    forall p
      ensures p in PathList(ts) <==> exists i :: 0 <= i < |ts| && IsAncestorPath(p, ts[i])
    {
      PathListMembers(ts, p);
    }
    forall i, q | 0 <= i < |PathList(ts)| && IsAncestorPath(q, PathList(ts)[i]) && q != PathList(ts)[i]
      ensures q in PathList(ts)[..i]
    {
      PathListParentsFirst(ts, i, q);
    }
  }

  /** `p` is collected from the targets exactly when it is a cumulative prefix of one of them. */
  lemma {:induction false} AllAncestorsMembers(ts: seq<string>, p: string)
    ensures p in AllAncestors(ts) <==> exists i :: 0 <= i < |ts| && p in Ancestors(ts[i])
  {
    if |ts| > 0 {
      var init := ts[..|ts| - 1];
      AllAncestorsMembers(init, p);
      if exists i :: 0 <= i < |init| && p in Ancestors(init[i]) {
        var i :| 0 <= i < |init| && p in Ancestors(init[i]);
        assert init[i] == ts[i];
      }
      if exists i :: 0 <= i < |ts| && p in Ancestors(ts[i]) {
        var i :| 0 <= i < |ts| && p in Ancestors(ts[i]);
        if i < |init| {
          assert init[i] == ts[i];
        }
      }
    }
  }

  /**
   * Nothing missing and nothing extra: the path list holds exactly the
   * ancestors of the targets (each target included).
   */
  lemma PathListMembers(ts: seq<string>, p: string)
    ensures p in PathList(ts) <==> exists i :: 0 <= i < |ts| && IsAncestorPath(p, ts[i])
  {
    AllAncestorsMembers(ts, p);
    forall i | 0 <= i < |ts|
      ensures p in Ancestors(ts[i]) <==> IsAncestorPath(p, ts[i])
    {
      AncestorsCharacterized(p, ts[i]);
    }
  }

  /**
   * Locates a position of the collected prefixes: it holds the `k`-th
   * ancestor of target `j`, and the `k` positions before it hold that
   * target's shorter ancestors in order.
   */
  lemma {:induction false} AllAncestorsBlock(ts: seq<string>, pos: nat) returns (j: nat, k: nat)
    requires pos < |AllAncestors(ts)|
    ensures j < |ts| && k <= pos && k < |Ancestors(ts[j])|
    ensures forall m :: 0 <= m <= k ==> AllAncestors(ts)[pos - k + m] == Ancestors(ts[j])[m]
  {
    var init := ts[..|ts| - 1];
    var before := AllAncestors(init);
    if pos < |before| {
      j, k := AllAncestorsBlock(init, pos);
      assert init[j] == ts[j];
    } else {
      j, k := |ts| - 1, pos - |before|;
    }
  }

  /**
   * Parents always precede children: every proper ancestor of an entry of
   * the path list stands earlier in the list, so it is created first.
   */
  lemma PathListParentsFirst(ts: seq<string>, i: nat, q: string)
    requires i < |PathList(ts)|
    requires IsAncestorPath(q, PathList(ts)[i]) && q != PathList(ts)[i]
    ensures q in PathList(ts)[..i]
  {
    var all, paths := AllAncestors(ts), PathList(ts);
    var p := paths[i];
    AncestorSeenFirst(ts, p, q);
    DedupFirstSeenOrder(all, q, p);
    FirstIndexNoDuplicates(paths, i);
    var at := FirstIndex(paths, q);
    assert paths[..i][at] == q;
  }

  /** A proper ancestor of a collected prefix is first collected before it. */
  lemma AncestorSeenFirst(ts: seq<string>, p: string, q: string)
    requires p in AllAncestors(ts)
    requires IsAncestorPath(q, p) && q != p
    ensures q in AllAncestors(ts) && FirstIndex(AllAncestors(ts), q) < FirstIndex(AllAncestors(ts), p)
  {
    var all := AllAncestors(ts);
    var first := FirstIndex(all, p);
    var j, k := AllAncestorsBlock(ts, first);
    var m := ProperAncestorEarlier(ts[j], k, q);
    assert all[first - k + m] == Ancestors(ts[j])[m];
    FirstIndexAtMost(all, q, first - k + m);
  }

  /** The cumulative prefixes of a three-segment relative path. */
  lemma ThreeSegmentAncestors(a: string, b: string, c: string)
    requires |a| > 0 && |b| > 0 && |c| > 0
    requires Sep !in a && Sep !in b && Sep !in c
    ensures Ancestors(a + [Sep] + b + [Sep] + c) == [a, a + [Sep] + b, a + [Sep] + b + [Sep] + c]
  {
    var segs := [a, b, c];
    assert segs == [a] + [b, c] && [b, c] == [b] + [c];
    JoinCons(b, [c]);
    JoinCons(a, [b, c]);
    assert [a, b] == [a] + [b];
    JoinCons(a, [b]);
    var t := a + [Sep] + b + [Sep] + c;
    assert Join(segs) == t;
    SplitJoin(segs);
    assert Split(t) == segs;
    assert segs[..1] == [a] && segs[..2] == [a, b] && segs[..3] == segs;
    var anc := Ancestors(t);
    assert |anc| == 3;
    assert anc[0] == Join([a]) == a;
    assert anc[1] == Join([a, b]) == a + [Sep] + b;
    assert anc[2] == Join(segs) == t;
  }

  /** The prefixes collected for the two sibling targets of the example below. */
  lemma SiblingTargetsCollected()
    ensures AllAncestors(["a/b/c", "a/b/d"]) == ["a", "a/b", "a/b/c", "a", "a/b", "a/b/d"]
  {
    ThreeSegmentAncestors("a", "b", "c");
    ThreeSegmentAncestors("a", "b", "d");
    assert "a" + [Sep] + "b" == "a/b";
    assert "a" + [Sep] + "b" + [Sep] + "c" == "a/b/c";
    assert "a" + [Sep] + "b" + [Sep] + "d" == "a/b/d";
    var ts := ["a/b/c", "a/b/d"];
    assert ts[..1] == ["a/b/c"] && ts[..1][..0] == [];
    assert AllAncestors(ts[..1]) == AllAncestors([]) + Ancestors("a/b/c");
  }

  /** Feeding the collected prefixes of the example through the duplicate guard. */
  lemma SiblingTargetsDeduplicated()
    ensures Dedup(["a", "a/b", "a/b/c", "a", "a/b", "a/b/d"]) == ["a", "a/b", "a/b/c", "a/b/d"]
  {
    var all := ["a", "a/b", "a/b/c", "a", "a/b", "a/b/d"];
    var three := ["a", "a/b", "a/b/c"];
    assert all[..1] == ["a"] && all[..1][..0] == [];
    assert Dedup(all[..1]) == ["a"];
    assert all[..2][..1] == all[..1];
    assert Dedup(all[..2]) == ["a", "a/b"];
    assert all[..3][..2] == all[..2];
    assert Dedup(all[..3]) == three;
    assert all[..4][..3] == all[..3] && "a" in three;
    assert Dedup(all[..4]) == AddNew(three, "a") == three;
    assert all[..5][..4] == all[..4] && "a/b" in three;
    assert Dedup(all[..5]) == AddNew(three, "a/b") == three;
    assert all[..5] == all[..|all| - 1];
    assert "a/b/d" !in three;
  }

  /** Two sibling targets sharing two ancestors. */
  lemma SiblingTargetsExample()
    ensures PathList(["a/b/c", "a/b/d"]) == ["a", "a/b", "a/b/c", "a/b/d"]
  {
    SiblingTargetsCollected();
    SiblingTargetsDeduplicated();
  }

  /** The first collected prefix is the first ancestor of the first target. */
  lemma {:induction false} AllAncestorsHead(ts: seq<string>)
    requires |ts| > 0
    ensures |AllAncestors(ts)| > 0 && AllAncestors(ts)[0] == Ancestors(ts[0])[0]
  {
    var init := ts[..|ts| - 1];
    if |init| > 0 {
      AllAncestorsHead(init);
      assert init[0] == ts[0];
    }
  }

  /**
   * An absolute first target (one that starts with "/") puts the empty
   * path first in the list: `"/x".split('/')` starts with an empty segment.
   */
  lemma AbsoluteTargetFirstEntry(ts: seq<string>)
    requires |ts| > 0 && |ts[0]| > 0 && ts[0][0] == Sep
    ensures |PathList(ts)| > 0 && PathList(ts)[0] == ""
  {
    AllAncestorsHead(ts);
    AncestorsAfterSep(ts[0], 0);
    DedupHead(AllAncestors(ts));
  }

  /** The prefixes collected for a relative target followed by an absolute one. */
  lemma LaterAbsoluteTargetCollected()
    ensures AllAncestors(["a", "/tmp"]) == ["a", "", "/tmp"]
  {
    SplitJoin(["a"]);
    assert Split("a") == ["a"] && ["a"][..1] == ["a"];
    assert Ancestors("a") == ["a"];
    var segs := ["", "tmp"];
    assert Join(segs) == "" + [Sep] + "tmp" == "/tmp";
    SplitJoin(segs);
    assert Split("/tmp") == segs && segs[..1] == [""] && segs[..2] == segs;
    var anc := Ancestors("/tmp");
    assert |anc| == 2 && anc[0] == Join([""]) == "" && anc[1] == Join(segs);
    assert anc == ["", "/tmp"];
    var ts := ["a", "/tmp"];
    assert ts[..1] == ["a"] && ts[..1][..0] == [];
    assert AllAncestors(ts[..1]) == AllAncestors([]) + Ancestors("a");
  }

  /**
   * An absolute target that is not the first puts the empty path after the
   * earlier targets' prefixes: `["a", "/tmp"]` gives `["a", "", "/tmp"]`.
   */
  lemma LaterAbsoluteTargetExample()
    ensures PathList(["a", "/tmp"]) == ["a", "", "/tmp"]
  {
    LaterAbsoluteTargetCollected();
    var all := ["a", "", "/tmp"];
    assert all[..1] == ["a"] && all[..1][..0] == [];
    assert Dedup(all[..1]) == ["a"];
    assert all[..2][..1] == all[..1];
    assert Dedup(all[..2]) == ["a", ""];
    assert all[..2] == all[..|all| - 1];
    assert "/tmp" !in ["a", ""];
  }

  /**
   * The `ready` value of the creation task for each path, in list order,
   * when `fsMkdir(d)` is what the file system reports for `mkdir(d)`
   * (index.js:96-105): "already exists" counts as success.
   */
  function CreationResults(paths: seq<string>, fsMkdir: string -> Option<Error>): seq<Option<Error>>
  {
    seq(|paths|, i requires 0 <= i < |paths| => Swallow(fsMkdir(paths[i]), EEXIST))
  }

  /**
   * Runs the creation tasks strictly one after another in list order
   * (index.js:93-108). `calls` is the sequence of directories handed to
   * the file system; `error` is what the joined callback receives.
   */
  method CreateSerially(paths: seq<string>, fsMkdir: string -> Option<Error>)
    returns (error: Option<Error>, calls: seq<string>)
    ensures calls <= paths
    ensures error == FirstError(CreationResults(paths, fsMkdir))
    ensures error == None <==>
      calls == paths && forall d :: d in paths ==> Swallow(fsMkdir(d), EEXIST) == None
    ensures error != None ==>
      |calls| > 0 && error == fsMkdir(calls[|calls| - 1]) && error.value.code != EEXIST
    ensures forall j :: 0 <= j < |calls| - 1 ==> Swallow(fsMkdir(calls[j]), EEXIST) == None
  {
    ghost var rs := CreationResults(paths, fsMkdir);
    assert |rs| == |paths| && forall j :: 0 <= j < |paths| ==> rs[j] == Swallow(fsMkdir(paths[j]), EEXIST);
    error, calls := None, [];
    var i := 0;
    while i < |paths| && error == None
      invariant i <= |paths| && calls == paths[..i]
      invariant forall j :: 0 <= j < i - 1 ==> rs[j] == None
      invariant error == None ==> forall j :: 0 <= j < i ==> rs[j] == None
      invariant error != None ==> i > 0 && error == rs[i - 1]
    {
      var dir := paths[i];
      calls := calls + [dir];
      error := Swallow(fsMkdir(dir), EEXIST);
      i := i + 1;
    }
    assert calls <= paths;
    if error == None {
      assert calls == paths;
      assert FirstFailure(rs) == |rs|;
    } else {
      assert FirstFailure(rs) == i - 1;
    }
  }

  /**
   * The whole helper: builds the path list from the targets and creates
   * its entries serially. The joined callback receives no error exactly
   * when every ancestor of every target was created or already existed.
   */
  method MakeDirectories(targets: seq<string>, normalize: string -> string, fsMkdir: string -> Option<Error>)
    returns (error: Option<Error>, calls: seq<string>)
    ensures calls <= PathList(Normalized(targets, normalize))
    ensures NoDuplicates(calls)
    ensures forall i, q :: 0 <= i < |calls| && IsAncestorPath(q, calls[i]) && q != calls[i] ==>
      q in calls[..i]
    ensures error == None <==>
      forall i, p :: 0 <= i < |targets| && IsAncestorPath(p, normalize(targets[i])) ==>
        Swallow(fsMkdir(p), EEXIST) == None
    ensures error == None ==>
      forall i, p :: 0 <= i < |targets| && IsAncestorPath(p, normalize(targets[i])) ==> p in calls
    ensures error != None ==>
      |calls| > 0 && error == fsMkdir(calls[|calls| - 1]) && error.value.code != EEXIST
    ensures forall j :: 0 <= j < |calls| - 1 ==> Swallow(fsMkdir(calls[j]), EEXIST) == None
    ensures error == FirstError(CreationResults(PathList(Normalized(targets, normalize)), fsMkdir))
  {
    var paths := BuildPaths(targets, normalize);
    error, calls := CreateSerially(paths, fsMkdir);
    assert calls == paths[..|calls|];
    forall i, j | 0 <= i < j < |calls|
      ensures calls[i] != calls[j]
    {
      assert calls[i] == paths[i] && calls[j] == paths[j];
    }
    forall i, q | 0 <= i < |calls| && IsAncestorPath(q, calls[i]) && q != calls[i]
      ensures q in calls[..i]
    {
      assert calls[i] == paths[i] && calls[..i] == paths[..i];
    }
    if error != None {
      var last := calls[|calls| - 1];
      assert last in paths;
      var i :| 0 <= i < |targets| && IsAncestorPath(last, normalize(targets[i]));
    }
  }
}
